/** `scrapeYouTubeChannel` (youtubeScraperMain.ts) with the browser
    abstracted away: for each target page, `load` says how navigation and
    the wait for the first content element went and, when both succeeded,
    which elements the fully scrolled page holds. A failed target is skipped
    (`continue`); the others contribute their extracted records, in target
    order; the accumulated records are then finalised. */
module Scraper {
  import opened Content
  import opened Strings
  import opened Extractor
  import opened Targets
  import opened Finalisation

  datatype PageLoad =
    | NavigationFailed        // page.goto threw (timeout or navigation error)
    | ContentMissing          // no content element appeared within the wait
    | Loaded(elements: seq<Element>)

  /** What one target adds to `allContent`. */
  function PageItems(targetUrl: string, load: string -> PageLoad): (r: seq<ScrapedContent>)
    ensures !load(targetUrl).Loaded? ==> r == []
    ensures load(targetUrl).Loaded? ==>
              r == ExtractPage(load(targetUrl).elements, IsStreamsPage(targetUrl))
    ensures forall i :: 0 <= i < |r| ==> Contains(r[i].url, "watch?v=")
  {
    match load(targetUrl)
    case Loaded(elements) => ExtractPage(elements, IsStreamsPage(targetUrl))
    case _ => []
  }

  /** `allContent` after the loop over `targets`. */
  function Accumulate(targets: seq<string>, load: string -> PageLoad): (r: seq<ScrapedContent>)
    ensures forall i :: 0 <= i < |r| ==> Contains(r[i].url, "watch?v=")
    ensures (forall t :: t in targets ==> !load(t).Loaded?) ==> r == []
  {
    if targets == [] then []
    else Accumulate(targets[..|targets| - 1], load) + PageItems(targets[|targets| - 1], load)
  }

  /** One more target adds its page's items at the end. */
  lemma AccumulateSnoc(s: seq<string>, t: string, load: string -> PageLoad)
    ensures Accumulate(s + [t], load) == Accumulate(s, load) + PageItems(t, load)
  {
    assert (s + [t])[..|s|] == s;
  }

  /** Crawling two lists of targets one after the other accumulates the
      first list's records, then the second's. */
  lemma {:induction false} AccumulateAppend(a: seq<string>, b: seq<string>, load: string -> PageLoad)
    ensures Accumulate(a + b, load) == Accumulate(a, load) + Accumulate(b, load)
    decreases |b|
  {
    if b == [] {
      assert a + b == a;
      assert Accumulate(b, load) == [];
    } else {
      var b' := b[..|b| - 1];
      var t := b[|b| - 1];
      assert b == b' + [t];
      assert a + b == (a + b') + [t];
      var x, y, z := Accumulate(a, load), Accumulate(b', load), PageItems(t, load);
      calc {
        Accumulate(a + b, load);
        Accumulate((a + b') + [t], load);
        { AccumulateSnoc(a + b', t, load); }
        Accumulate(a + b', load) + z;
        { AccumulateAppend(a, b', load); }
        x + y + z;
        x + (y + z);
        { AccumulateSnoc(b', t, load); }
        x + Accumulate(b' + [t], load);
      }
    }
  }

  /** A single target contributes exactly its page's items. */
  lemma SingleTarget(t: string, load: string -> PageLoad)
    ensures Accumulate([t], load) == PageItems(t, load)
  {
    AccumulateSnoc([], t, load);
    assert [] + [t] == [t];
  }

  /** A target that fails to load is skipped (`continue`): the targets
      before and after it contribute exactly what they would without it. */
  lemma {:induction false} FailedTargetSkipped(a: seq<string>, t: string, b: seq<string>,
                                               load: string -> PageLoad)
    requires !load(t).Loaded?
    ensures Accumulate(a + [t] + b, load) == Accumulate(a + b, load)
  {
    AccumulateAppend(a + [t], b, load);
    AccumulateAppend(a, [t], load);
    AccumulateAppend(a, b, load);
    SingleTarget(t, load);
    assert Accumulate(a + [t], load) == Accumulate(a, load);
  }

  /** A loaded target adds its page's extracted records after those of the
      targets before it. */
  lemma LoadedTargetContributes(a: seq<string>, t: string, load: string -> PageLoad)
    requires load(t).Loaded?
    ensures Accumulate(a + [t], load)
            == Accumulate(a, load) + ExtractPage(load(t).elements, IsStreamsPage(t))
  {
    AccumulateAppend(a, [t], load);
    SingleTarget(t, load);
  }

  function ScrapeChannel(channelUrl: string, maxItems: int, includeLivestreams: bool,
                         includeVideos: bool, load: string -> PageLoad): seq<ScrapedContent>
  {
    Finalise(Accumulate(TargetUrls(channelUrl, includeLivestreams, includeVideos), load), maxItems)
  }

  /** The crawl returns at most `maxItems` records, with distinct urls. */
  lemma ScrapeChannelBounded(channelUrl: string, maxItems: int, includeLivestreams: bool,
                             includeVideos: bool, load: string -> PageLoad)
    ensures var r := ScrapeChannel(channelUrl, maxItems, includeLivestreams, includeVideos, load);
            && (maxItems >= 0 ==> |r| <= maxItems)
            && UrlsDistinct(r)
  {
    FinaliseFromInputs(Accumulate(TargetUrls(channelUrl, includeLivestreams, includeVideos), load), maxItems);
  }

  /** Finalising records that all name `watch?v=` pages returns cleaned
      forms of such records. */
  lemma FinaliseKeepsWatchOrigin(raw: seq<ScrapedContent>, maxItems: int)
    requires forall i :: 0 <= i < |raw| ==> Contains(raw[i].url, "watch?v=")
    ensures var r := Finalise(raw, maxItems);
            forall i :: 0 <= i < |r| ==>
              exists j :: && 0 <= j < |raw|
                          && Contains(raw[j].url, "watch?v=")
                          && r[i] == raw[j].(url := UrlClean.CleanUrl(raw[j].url))
  {
    FinaliseFromInputs(raw, maxItems);
  }

  /** Each returned record is the cleaned form of an extracted record whose
      raw url named a `watch?v=` page. */
  lemma ScrapeChannelProvenance(channelUrl: string, maxItems: int, includeLivestreams: bool,
                                includeVideos: bool, load: string -> PageLoad)
    returns (raw: seq<ScrapedContent>)
    ensures raw == Accumulate(TargetUrls(channelUrl, includeLivestreams, includeVideos), load)
    ensures var r := ScrapeChannel(channelUrl, maxItems, includeLivestreams, includeVideos, load);
            forall i :: 0 <= i < |r| ==>
              exists j :: && 0 <= j < |raw|
                          && Contains(raw[j].url, "watch?v=")
                          && r[i] == raw[j].(url := UrlClean.CleanUrl(raw[j].url))
  {
    var targets := TargetUrls(channelUrl, includeLivestreams, includeVideos);
    raw := Accumulate(targets, load);
    assert ScrapeChannel(channelUrl, maxItems, includeLivestreams, includeVideos, load) == Finalise(raw, maxItems);
    FinaliseKeepsWatchOrigin(raw, maxItems);
  }

  /** The crawl returns what the loaded targets yielded, cleaned and
      deduplicated, in first-seen order with each url's last record, cut to
      `maxItems`: a prefix of that list of length `min(maxItems, number of
      distinct cleaned urls)` for a non-negative budget. */
  lemma ScrapeChannelExact(channelUrl: string, maxItems: int, includeLivestreams: bool,
                           includeVideos: bool, load: string -> PageLoad)
    returns (raw: seq<ScrapedContent>)
    ensures raw == Accumulate(TargetUrls(channelUrl, includeLivestreams, includeVideos), load)
    ensures var r := ScrapeChannel(channelUrl, maxItems, includeLivestreams, includeVideos, load);
            var all := MapValues(CleanAll(raw));
            var distinct := |UrlSet(CleanAll(raw))|;
            && r == all[..|r|]
            && (maxItems >= 0 ==> |r| == if maxItems < distinct then maxItems else distinct)
            && (forall i :: 0 <= i < |r| ==> IsLastRecord(CleanAll(raw), r[i]))
            && (forall p, q :: 0 <= p < q < |r| ==> FirstSeenBefore(CleanAll(raw), r[p].url, r[q].url))
  {
    raw := Accumulate(TargetUrls(channelUrl, includeLivestreams, includeVideos), load);
    assert ScrapeChannel(channelUrl, maxItems, includeLivestreams, includeVideos, load) == Finalise(raw, maxItems);
    FinaliseSpec(raw, maxItems);
  }

  /** With no target selected, or none loaded, the crawl returns nothing. */
  lemma ScrapeChannelEmpty(channelUrl: string, maxItems: int, includeLivestreams: bool,
                           includeVideos: bool, load: string -> PageLoad)
    requires (!includeLivestreams && !includeVideos)
             || forall t :: t in TargetUrls(channelUrl, includeLivestreams, includeVideos) ==> !load(t).Loaded?
    ensures ScrapeChannel(channelUrl, maxItems, includeLivestreams, includeVideos, load) == []
  {
    var targets := TargetUrls(channelUrl, includeLivestreams, includeVideos);
    assert Accumulate(targets, load) == [];
    assert CleanAll([]) == [];
  }
}
