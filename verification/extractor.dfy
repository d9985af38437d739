/** The per-element extraction that runs inside `page.evaluate`
    (youtubeScraperMain.ts): one content element of the rendered page
    becomes one `ScrapedContent`, or nothing.

    The live DOM is replaced by a snapshot of what the extraction queries
    see in one element: its title anchor, its thumbnail image, whether the
    "LIVE NOW" badge is there, and, for every text locator the code tries,
    the text of the first node it matches (absent from `found` when it
    matches nothing). */
module Extractor {
  import opened Wrappers
  import opened Strings
  import opened Content

  /** The CSS selectors whose text the extraction reads. */
  datatype Locator =
    | SpanText                 // span#text
    | OverlayTimeStatus        // .ytd-thumbnail-overlay-time-status-renderer
    | MetaBlockSpan            // ytd-video-meta-block span
    | MetadataLineFirstSpan    // #metadata-line span:nth-child(1)
    | MetadataLineSecondSpan   // #metadata-line span:nth-child(2)
    | MetadataLineSecondOfType // div#metadata-line > span:nth-of-type(2)
    | MetaBlockSecondSpan      // ytd-video-meta-block span:nth-child(2)
    | StreamMetaSpan           // .ytd-grid-stream-renderer .ytd-video-meta-block span

  /** The ordered alternatives tried for each field: the first locator that
      matches a node wins, even when that node's text is empty. */
  const DurationLocators: seq<Locator> := [SpanText, OverlayTimeStatus]
  const ViewsLocators: seq<Locator> := [MetaBlockSpan, MetadataLineFirstSpan]
  const UploadDateLocators: seq<Locator> :=
    [MetadataLineSecondSpan, MetadataLineSecondOfType, MetaBlockSecondSpan]
  const ViewersLocators: seq<Locator> := [StreamMetaSpan]
  const ScheduleLocators: seq<Locator> := [StreamMetaSpan]

  /** `a#video-title-link, a#video-title`: its resolved `href`, its `title`
      attribute ("" when absent) and its text content. */
  datatype Anchor = Anchor(href: string, title: string, text: string)

  /** `yt-image img, img#img`: its `src` and `data-src` attributes. */
  datatype Image = Image(src: Option<string>, dataSrc: Option<string>)

  datatype Element =
    | Element(anchor: Option<Anchor>, image: Option<Image>, liveBadge: bool,
              found: map<Locator, string>)
      /** An element whose inspection throws: the `catch` maps it to `null`. */
    | Unreadable

  /** `el.querySelector(l1) || el.querySelector(l2) || ...`, read as text. */
  function FirstMatch(found: map<Locator, string>, locators: seq<Locator>): (r: Option<string>)
    ensures r.None? <==> forall k :: 0 <= k < |locators| ==> locators[k] !in found
    ensures r.Some? ==> exists k :: 0 <= k < |locators| && locators[k] in found
                          && found[locators[k]] == r.value
                          && forall m :: 0 <= m < k ==> locators[m] !in found
  {
    if locators == [] then None
    else if locators[0] in found then Some(found[locators[0]])
    else
      var r := FirstMatch(found, locators[1..]);
      if r.Some? then
        var k :| 0 <= k < |locators[1..]| && locators[1..][k] in found
                 && found[locators[1..][k]] == r.value
                 && forall m :: 0 <= m < k ==> locators[1..][m] !in found;
        FirstMatchStep(found, locators, k);
        r
      else r
  }

  /** A first match in the tail, behind an absent head, is a first match of
      the whole chain, one position further. */
  lemma FirstMatchStep(found: map<Locator, string>, locators: seq<Locator>, k: nat)
    requires locators != [] && locators[0] !in found
    requires k < |locators| - 1 && locators[1..][k] in found
    requires forall m :: 0 <= m < k ==> locators[1..][m] !in found
    ensures locators[k + 1] in found && found[locators[k + 1]] == found[locators[1..][k]]
    ensures forall m :: 0 <= m < k + 1 ==> locators[m] !in found
  {
    forall m | 0 <= m < k + 1 ensures locators[m] !in found {
      if m > 0 {
        assert locators[m] == locators[1..][m - 1];
      }
    }
  }

  /** `node?.textContent?.trim() || ""`. */
  function TextOrEmpty(node: Option<string>): string {
    match node
    case None => ""
    case Some(t) => Trim(t)
  }

  /** `node?.textContent?.trim()`: `undefined` when nothing matched. */
  function TextOrAbsent(node: Option<string>): Option<string> {
    match node
    case None => None
    case Some(t) => Some(Trim(t))
  }

  /** `img?.getAttribute("src") || img?.getAttribute("data-src") || ""`:
      an empty attribute counts as missing. */
  function ThumbnailSource(image: Option<Image>): (r: string)
    // a non-empty `src` wins
    ensures image.Some? && image.value.src.Some? && image.value.src.value != "" ==>
              r == image.value.src.value
    // an empty or missing `src` falls through to a non-empty `data-src`
    ensures image.Some? && (image.value.src.None? || image.value.src.value == "") &&
            image.value.dataSrc.Some? && image.value.dataSrc.value != "" ==>
              r == image.value.dataSrc.value
    // `""` exactly when neither attribute holds any text
    ensures r == "" <==> (image.None? ||
                          ((image.value.src.None? || image.value.src.value == "") &&
                           (image.value.dataSrc.None? || image.value.dataSrc.value == "")))
  {
    match image
    case None => ""
    case Some(img) =>
      if img.src.Some? && img.src.value != "" then img.src.value
      else if img.dataSrc.Some? && img.dataSrc.value != "" then img.dataSrc.value
      else ""
  }

  /** `.replace("hqdefault", "maxresdefault")`: only the first occurrence. */
  function UpgradeThumbnail(src: string): string {
    ReplaceFirst(src, "hqdefault", "maxresdefault")
  }

  /** The record built for one element, or `None` for the `null` the code
      returns (no title anchor, or an inspection that threw). */
  function ExtractElement(el: Element, isStreamsPage: bool): (r: Option<ScrapedContent>)
    ensures r.Some? <==> el.Element? && el.anchor.Some?
    ensures r.Some? ==> r.value.url == el.anchor.value.href
    // the `title` attribute, else the trimmed text, else ""
    ensures r.Some? ==> r.value.title == (if el.anchor.value.title != "" then el.anchor.value.title
                                          else Trim(el.anchor.value.text))
    ensures r.Some? ==> r.value.thumbnail == Some(UpgradeThumbnail(ThumbnailSource(el.image)))
    // classification: by page kind, then by the badge alone
    ensures r.Some? && !isStreamsPage ==> r.value.kind == Video
    ensures r.Some? && isStreamsPage ==>
              r.value.kind != Video && (r.value.kind == Livestream <==> el.liveBadge)
    ensures r.Some? ==> r.value.isLive == Some(r.value.kind == Livestream)
    // which fields each kind carries
    ensures r.Some? ==> (r.value.concurrentViewers.Some? ==> r.value.kind == Livestream)
    ensures r.Some? ==> (r.value.duration.Some? <==> r.value.kind != Livestream)
    ensures r.Some? ==> (r.value.views.Some? <==> r.value.kind != Livestream)
    ensures r.Some? ==> (r.value.uploadDate.Some? <==> r.value.kind != Livestream)
    ensures r.Some? ==> (r.value.scheduledStartTime.Some? ==> r.value.kind == Upcoming)
  {
    match el
    case Unreadable => None
    case Element(anchor, image, liveBadge, found) =>
      match anchor
      case None => None
      case Some(a) =>
        var title := if a.title != "" then a.title else Trim(a.text);
        var thumbnail := Some(UpgradeThumbnail(ThumbnailSource(image)));
        var duration := Some(TextOrEmpty(FirstMatch(found, DurationLocators)));
        var views := Some(TextOrEmpty(FirstMatch(found, ViewsLocators)));
        var uploadDate := Some(TextOrEmpty(FirstMatch(found, UploadDateLocators)));
        if !isStreamsPage then
          Some(ScrapedContent(a.href, title, thumbnail, duration, views, uploadDate,
                              Video, Some(false), None, None))
        else if liveBadge then
          Some(ScrapedContent(a.href, title, thumbnail, None, None, None,
                              Livestream, Some(true), None,
                              TextOrAbsent(FirstMatch(found, ViewersLocators))))
        else
          Some(ScrapedContent(a.href, title, thumbnail, duration, views, uploadDate,
                              Upcoming, Some(false),
                              TextOrAbsent(FirstMatch(found, ScheduleLocators)), None))
  }

  /** The post-filter `v !== null && v.url.includes("watch?v=")`. */
  predicate Kept(r: Option<ScrapedContent>) {
    r.Some? && Contains(r.value.url, "watch?v=")
  }

  /** The array `page.evaluate` returns: the kept records in page order. */
  function ExtractPage(elements: seq<Element>, isStreamsPage: bool): (r: seq<ScrapedContent>)
    ensures |r| <= |elements|
    ensures forall i :: 0 <= i < |r| ==> Contains(r[i].url, "watch?v=")
  {
    if elements == [] then []
    else
      var head := ExtractElement(elements[0], isStreamsPage);
      var rest := ExtractPage(elements[1..], isStreamsPage);
      if Kept(head) then [head.value] + rest else rest
  }

  /** `k` is the first locator of `locators` that matches in `found`. */
  predicate FirstPresent(found: map<Locator, string>, locators: seq<Locator>, k: int) {
    0 <= k < |locators| && locators[k] in found
    && forall m :: 0 <= m < k ==> locators[m] !in found
  }

  predicate NonePresent(found: map<Locator, string>, locators: seq<Locator>) {
    forall k :: 0 <= k < |locators| ==> locators[k] !in found
  }

  lemma FirstMatchIs(found: map<Locator, string>, locators: seq<Locator>, k: int)
    requires FirstPresent(found, locators, k)
    ensures FirstMatch(found, locators) == Some(found[locators[k]])
  {
    var r := FirstMatch(found, locators);
    var k' :| 0 <= k' < |locators| && locators[k'] in found
              && found[locators[k']] == r.value
              && forall m :: 0 <= m < k' ==> locators[m] !in found;
    assert k' == k;
  }

  /** A text field takes the trimmed text of the first locator in its list
      that matches, or "" when none does. */
  ghost predicate FieldFollows(field: Option<string>, found: map<Locator, string>, locators: seq<Locator>) {
    && (forall k :: FirstPresent(found, locators, k) ==> field == Some(Trim(found[locators[k]])))
    && (NonePresent(found, locators) ==> field == Some(""))
  }

  /** On every record that is not live, `duration`, `views` and `uploadDate`
      follow their locator lists. */
  lemma VideoFieldsFollowLocators(el: Element, isStreamsPage: bool)
    requires el.Element? && el.anchor.Some? && !(isStreamsPage && el.liveBadge)
    ensures var v := ExtractElement(el, isStreamsPage).value;
            && FieldFollows(v.duration, el.found, DurationLocators)
            && FieldFollows(v.views, el.found, ViewsLocators)
            && FieldFollows(v.uploadDate, el.found, UploadDateLocators)
  {
    forall k | FirstPresent(el.found, DurationLocators, k) {
      FirstMatchIs(el.found, DurationLocators, k);
    }
    forall k | FirstPresent(el.found, ViewsLocators, k) {
      FirstMatchIs(el.found, ViewsLocators, k);
    }
    forall k | FirstPresent(el.found, UploadDateLocators, k) {
      FirstMatchIs(el.found, UploadDateLocators, k);
    }
  }

  /** A live record's viewer count and an upcoming record's start time are
      both the trimmed text of the stream meta-block span, when present. */
  lemma StreamFieldsFollowLocator(el: Element)
    requires el.Element? && el.anchor.Some?
    ensures var v := ExtractElement(el, true).value;
            var t := if StreamMetaSpan in el.found then Some(Trim(el.found[StreamMetaSpan])) else None;
            && (el.liveBadge ==> v.concurrentViewers == t)
            && (!el.liveBadge ==> v.scheduledStartTime == t)
  {
    if StreamMetaSpan in el.found {
      FirstMatchIs(el.found, [StreamMetaSpan], 0);
    }
  }

  /** On a streams page an element without the badge is `upcoming` even when
      it shows a duration, as a finished broadcast does. */
  lemma StreamsWithoutBadgeIsUpcoming(el: Element)
    requires el.Element? && el.anchor.Some? && !el.liveBadge
    requires SpanText in el.found && Trim(el.found[SpanText]) != ""
    ensures var v := ExtractElement(el, true).value;
            v.kind == Upcoming && v.duration == Some(Trim(el.found[SpanText]))
  {
    FirstMatchIs(el.found, DurationLocators, 0);
  }

  /** A thumbnail source naming `hqdefault` is upgraded to `maxresdefault`. */
  lemma ThumbnailUpgraded(src: string)
    requires Contains(src, "hqdefault")
    ensures Contains(UpgradeThumbnail(src), "maxresdefault")
  {
    var i :| FirstOccurrence(src, "hqdefault", i)
             && UpgradeThumbnail(src) == src[..i] + "maxresdefault" + src[i + 9..];
    assert UpgradeThumbnail(src)[i..i + 13] == "maxresdefault";
    ContainsAt(UpgradeThumbnail(src), "maxresdefault", i);
  }

  /** Extraction works element by element. */
  lemma {:induction false} ExtractPageAppend(a: seq<Element>, b: seq<Element>, isStreamsPage: bool)
    ensures ExtractPage(a + b, isStreamsPage) == ExtractPage(a, isStreamsPage) + ExtractPage(b, isStreamsPage)
  {
    if a != [] {
      assert (a + b)[0] == a[0];
      assert (a + b)[1..] == a[1..] + b;
      ExtractPageAppend(a[1..], b, isStreamsPage);
    } else {
      assert a + b == b;
    }
  }

  /** An element whose inspection throws is skipped; its neighbours are
      extracted as if it were not there. */
  lemma UnreadableSkipped(a: seq<Element>, b: seq<Element>, isStreamsPage: bool)
    ensures ExtractPage(a + [Unreadable] + b, isStreamsPage) == ExtractPage(a + b, isStreamsPage)
  {
    ExtractPageAppend(a + [Unreadable], b, isStreamsPage);
    ExtractPageAppend(a, [Unreadable], isStreamsPage);
    ExtractPageAppend(a, b, isStreamsPage);
  }

  /** `idx[k]` is the position of the element record `r[k]` comes from. */
  ghost predicate Origins(elements: seq<Element>, isStreamsPage: bool, r: seq<ScrapedContent>, idx: seq<nat>) {
    |idx| == |r| &&
    forall k :: 0 <= k < |idx| ==>
      idx[k] < |elements| && ExtractElement(elements[idx[k]], isStreamsPage) == Some(r[k])
  }

  ghost predicate Increasing(idx: seq<nat>) {
    forall k, m :: 0 <= k < m < |idx| ==> idx[k] < idx[m]
  }

  /** Every kept element at position `from` or later is listed in `idx`. */
  ghost predicate CoversKept(elements: seq<Element>, isStreamsPage: bool, idx: seq<nat>, from: nat) {
    forall i :: from <= i < |elements| && Kept(ExtractElement(elements[i], isStreamsPage)) ==> i in idx
  }

  function Shifted(idx: seq<nat>): (r: seq<nat>)
    ensures |r| == |idx| && forall k :: 0 <= k < |idx| ==> r[k] == idx[k] + 1
  {
    seq(|idx|, k requires 0 <= k < |idx| => idx[k] + 1)
  }

  /** Positions in `elements[1..]` are positions in `elements`, one further. */
  lemma ShiftOrigins(elements: seq<Element>, isStreamsPage: bool, r: seq<ScrapedContent>, idx: seq<nat>)
    requires elements != []
    requires Origins(elements[1..], isStreamsPage, r, idx)
    ensures Origins(elements, isStreamsPage, r, Shifted(idx))
  {
    var sh := Shifted(idx);
    forall k | 0 <= k < |sh|
      ensures sh[k] < |elements| && ExtractElement(elements[sh[k]], isStreamsPage) == Some(r[k])
    {
      assert elements[1..][idx[k]] == elements[sh[k]];
    }
  }

  lemma ShiftIncreasing(idx: seq<nat>)
    requires Increasing(idx)
    ensures Increasing(Shifted(idx))
    ensures forall k :: 0 <= k < |idx| ==> Shifted(idx)[k] >= 1
  {
  }

  /** Kept elements after the first are covered by the shifted positions. */
  lemma ShiftCovers(elements: seq<Element>, isStreamsPage: bool, idx: seq<nat>)
    requires elements != []
    requires CoversKept(elements[1..], isStreamsPage, idx, 0)
    ensures CoversKept(elements, isStreamsPage, Shifted(idx), 1)
  {
    var sh := Shifted(idx);
    forall i | 1 <= i < |elements| && Kept(ExtractElement(elements[i], isStreamsPage))
      ensures i in sh
    {
      assert elements[1..][i - 1] == elements[i];
      assert i - 1 in idx;
      var k :| 0 <= k < |idx| && idx[k] == i - 1;
      assert sh[k] == i;
    }
  }

  /** Putting a present first result in front of the listed results and
      position 0 in front of their positions keeps every pair matched. */
  lemma ConsMatched<E, R>(f: E -> Option<R>, elements: seq<E>, r: seq<R>, idx: seq<nat>)
    requires elements != [] && f(elements[0]).Some?
    requires |idx| == |r|
    requires forall k :: 0 <= k < |idx| ==> idx[k] < |elements| && f(elements[idx[k]]) == Some(r[k])
    ensures forall k :: 0 <= k < |idx| + 1 ==>
              ([0] + idx)[k] < |elements| && f(elements[([0] + idx)[k]]) == Some(([f(elements[0]).value] + r)[k])
  {
    forall k | 0 <= k < |idx| + 1
      ensures ([0] + idx)[k] < |elements| && f(elements[([0] + idx)[k]]) == Some(([f(elements[0]).value] + r)[k])
    {
      if k > 0 {
        assert ([0] + idx)[k] == idx[k - 1] && ([f(elements[0]).value] + r)[k] == r[k - 1];
      }
    }
  }

  /** A kept first element goes in front, at position 0. */
  lemma ConsOrigin(elements: seq<Element>, isStreamsPage: bool, r: seq<ScrapedContent>, idx: seq<nat>)
    requires elements != [] && Kept(ExtractElement(elements[0], isStreamsPage))
    requires Origins(elements, isStreamsPage, r, idx)
    ensures Origins(elements, isStreamsPage, [ExtractElement(elements[0], isStreamsPage).value] + r, [0] + idx)
  {
    ConsMatched(e => ExtractElement(e, isStreamsPage), elements, r, idx);
  }

  lemma ConsIncreasing(idx: seq<nat>)
    requires Increasing(idx) && forall k :: 0 <= k < |idx| ==> idx[k] >= 1
    ensures Increasing([0] + idx)
  {
  }

  lemma ConsCovers(elements: seq<Element>, isStreamsPage: bool, idx: seq<nat>)
    requires CoversKept(elements, isStreamsPage, idx, 1)
    ensures CoversKept(elements, isStreamsPage, [0] + idx, 0)
  {
    forall i | 0 <= i < |elements| && Kept(ExtractElement(elements[i], isStreamsPage))
      ensures i in [0] + idx
    {
      if i > 0 {
        assert i in idx;
      }
    }
  }

  lemma SkipCovers(elements: seq<Element>, isStreamsPage: bool, idx: seq<nat>)
    requires elements != [] && !Kept(ExtractElement(elements[0], isStreamsPage))
    requires CoversKept(elements, isStreamsPage, idx, 1)
    ensures CoversKept(elements, isStreamsPage, idx, 0)
  {
  }

  /** The extracted records are exactly the kept ones, in page order: `idx`
      lists, strictly increasing, the positions of the elements they come
      from, and every kept element is listed. */
  lemma {:induction false} ExtractPageSelection(elements: seq<Element>, isStreamsPage: bool)
    returns (idx: seq<nat>)
    ensures Origins(elements, isStreamsPage, ExtractPage(elements, isStreamsPage), idx)
    ensures Increasing(idx)
    ensures CoversKept(elements, isStreamsPage, idx, 0)
  {
    if elements == [] {
      idx := [];
    } else {
      var rest := ExtractPageSelection(elements[1..], isStreamsPage);
      var rr := ExtractPage(elements[1..], isStreamsPage);
      ShiftOrigins(elements, isStreamsPage, rr, rest);
      ShiftIncreasing(rest);
      ShiftCovers(elements, isStreamsPage, rest);
      var sh := Shifted(rest);
      var head := ExtractElement(elements[0], isStreamsPage);
      if Kept(head) {
        ConsOrigin(elements, isStreamsPage, rr, sh);
        ConsIncreasing(sh);
        ConsCovers(elements, isStreamsPage, sh);
        idx := [0] + sh;
      } else {
        SkipCovers(elements, isStreamsPage, sh);
        idx := sh;
      }
    }
  }
}
