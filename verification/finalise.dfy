/** Finalisation of the accumulated items (youtubeScraperMain.ts, after the
    browser is closed): every url is cleaned, the items are deduplicated
    through `new Map(items.map(v => [v.url, v])).values()`, and the result is
    cut with `slice(0, maxItems)`.

    A JavaScript `Map` keeps its keys in the order they were FIRST inserted,
    and setting an existing key replaces its value in place. So each url
    stays where it first appeared, carrying the LAST record seen for it. */
module Finalisation {
  import opened Wrappers
  import opened Content
  import opened UrlClean

  /** Search for the record with `url`, from index `k` on. */
  function PositionFrom(entries: seq<ScrapedContent>, url: string, k: nat): (r: Option<nat>)
    requires k <= |entries|
    ensures r.Some? ==> k <= r.value < |entries| && entries[r.value].url == url
    ensures r.Some? ==> forall j :: k <= j < r.value ==> entries[j].url != url
    ensures r.None? ==> forall j :: k <= j < |entries| ==> entries[j].url != url
    decreases |entries| - k
  {
    if k == |entries| then None
    else if entries[k].url == url then Some(k)
    else PositionFrom(entries, url, k + 1)
  }

  /** Where `url` first occurs in `entries`. */
  function Position(entries: seq<ScrapedContent>, url: string): Option<nat> {
    PositionFrom(entries, url, 0)
  }

  ghost predicate UrlsDistinct(s: seq<ScrapedContent>) {
    forall i, j :: 0 <= i < j < |s| ==> s[i].url != s[j].url
  }

  ghost predicate HasUrl(s: seq<ScrapedContent>, url: string) {
    exists i :: 0 <= i < |s| && s[i].url == url
  }

  /** `items[j]` is the last record in `items` with its url. */
  ghost predicate LastWithItsUrl(items: seq<ScrapedContent>, j: int) {
    0 <= j < |items| && forall k :: j < k < |items| ==> items[k].url != items[j].url
  }

  /** `u` first occurs in `items` before `w` does. */
  ghost predicate FirstSeenBefore(items: seq<ScrapedContent>, u: string, w: string) {
    var pu := Position(items, u);
    var pw := Position(items, w);
    pu.Some? && pw.Some? && pu.value < pw.value
  }

  /** `map.set(v.url, v)` on the map's value sequence. */
  function Put(m: seq<ScrapedContent>, v: ScrapedContent): seq<ScrapedContent> {
    match Position(m, v.url)
    case Some(j) => m[j := v]
    case None => m + [v]
  }

  /** `Array.from(new Map(items.map(v => [v.url, v])).values())`. */
  function MapValues(items: seq<ScrapedContent>): seq<ScrapedContent> {
    if items == [] then [] else Put(MapValues(items[..|items| - 1]), items[|items| - 1])
  }

  lemma PositionIs(entries: seq<ScrapedContent>, url: string, i: nat)
    requires i < |entries| && entries[i].url == url
    requires forall j :: 0 <= j < i ==> entries[j].url != url
    ensures Position(entries, url) == Some(i)
  {
  }

  /** Appending a record moves no earlier first occurrence. */
  lemma PositionAppend(items: seq<ScrapedContent>, v: ScrapedContent, url: string)
    ensures HasUrl(items, url) ==> Position(items + [v], url) == Position(items, url)
    ensures !HasUrl(items, url) && v.url == url ==> Position(items + [v], url) == Some(|items|)
  {
    var s := items + [v];
    if HasUrl(items, url) {
      var i := Position(items, url).value;
      PositionIs(s, url, i);
    } else if v.url == url {
      PositionIs(s, url, |items|);
    }
  }

  ghost predicate SameUrls(out: seq<ScrapedContent>, items: seq<ScrapedContent>) {
    forall u :: HasUrl(out, u) <==> HasUrl(items, u)
  }

  /** `r` is the last record in `items` with its url. */
  ghost predicate IsLastRecord(items: seq<ScrapedContent>, r: ScrapedContent) {
    exists j :: LastWithItsUrl(items, j) && items[j] == r
  }

  /** Every record of `out` is the last record in `items` with its url. */
  ghost predicate CarriesLastRecords(out: seq<ScrapedContent>, items: seq<ScrapedContent>) {
    forall i :: 0 <= i < |out| ==> IsLastRecord(items, out[i])
  }

  /** The urls of `out` are in the order of their first occurrence in `items`. */
  ghost predicate OrderedByFirstSeen(out: seq<ScrapedContent>, items: seq<ScrapedContent>) {
    forall p, q :: 0 <= p < q < |out| ==> FirstSeenBefore(items, out[p].url, out[q].url)
  }

  /** The four facts that pin down the Map's value sequence `out` for the
      entries `items`: urls are distinct, exactly the input's urls occur, each
      url carries the last record with that url, and urls are ordered by
      first occurrence. */
  ghost predicate IsMapValues(items: seq<ScrapedContent>, out: seq<ScrapedContent>) {
    && UrlsDistinct(out)
    && SameUrls(out, items)
    && CarriesLastRecords(out, items)
    && OrderedByFirstSeen(out, items)
  }

  lemma ReplaceKeepsDistinct(m: seq<ScrapedContent>, v: ScrapedContent, j: nat)
    requires UrlsDistinct(m) && j < |m| && m[j].url == v.url
    ensures UrlsDistinct(m[j := v])
  {
  }

  lemma ReplaceKeepsUrls(init: seq<ScrapedContent>, m: seq<ScrapedContent>, v: ScrapedContent, j: nat)
    requires SameUrls(m, init) && j < |m| && m[j].url == v.url
    ensures SameUrls(m[j := v], init + [v])
  {
    var items := init + [v];
    var out := m[j := v];
    assert items[|items| - 1] == v && out[j] == v;
    forall u ensures HasUrl(out, u) <==> HasUrl(items, u) {
      if HasUrl(out, u) && u != v.url {
        var i :| 0 <= i < |out| && out[i].url == u;
        assert m[i].url == u;
        assert HasUrl(init, u);
        var k :| 0 <= k < |init| && init[k].url == u;
        assert items[k].url == u;
      }
      if HasUrl(items, u) && u != v.url {
        var i :| 0 <= i < |items| && items[i].url == u;
        assert init[i].url == u;
        assert HasUrl(m, u);
        var k :| 0 <= k < |m| && m[k].url == u;
        assert out[k].url == u;
      }
    }
  }

  lemma ReplaceKeepsLast(init: seq<ScrapedContent>, m: seq<ScrapedContent>, v: ScrapedContent, j: nat)
    requires UrlsDistinct(m) && CarriesLastRecords(m, init) && j < |m| && m[j].url == v.url
    ensures CarriesLastRecords(m[j := v], init + [v])
  {
    var items := init + [v];
    var out := m[j := v];
    forall i | 0 <= i < |out| ensures IsLastRecord(items, out[i]) {
      if i == j {
        assert LastWithItsUrl(items, |items| - 1) && items[|items| - 1] == out[i];
      } else {
        var k :| LastWithItsUrl(init, k) && init[k] == m[i];
        assert m[i].url != v.url;
        assert LastWithItsUrl(items, k) && items[k] == out[i];
      }
    }
  }

  lemma AppendKeepsFirstSeen(init: seq<ScrapedContent>, v: ScrapedContent, u: string, w: string)
    requires FirstSeenBefore(init, u, w)
    ensures FirstSeenBefore(init + [v], u, w)
  {
    PositionAppend(init, v, u);
    PositionAppend(init, v, w);
    assert HasUrl(init, u) by { assert init[Position(init, u).value].url == u; }
    assert HasUrl(init, w) by { assert init[Position(init, w).value].url == w; }
  }

  lemma ReplaceKeepsOrder(init: seq<ScrapedContent>, m: seq<ScrapedContent>, v: ScrapedContent, j: nat)
    requires OrderedByFirstSeen(m, init) && j < |m| && m[j].url == v.url
    ensures OrderedByFirstSeen(m[j := v], init + [v])
  {
    var out := m[j := v];
    forall p, q | 0 <= p < q < |out| ensures FirstSeenBefore(init + [v], out[p].url, out[q].url) {
      assert out[p].url == m[p].url && out[q].url == m[q].url;
      AppendKeepsFirstSeen(init, v, m[p].url, m[q].url);
    }
  }

  lemma AppendNewKeepsDistinct(m: seq<ScrapedContent>, v: ScrapedContent)
    requires UrlsDistinct(m) && !HasUrl(m, v.url)
    ensures UrlsDistinct(m + [v])
  {
    var out := m + [v];
    forall i, j | 0 <= i < j < |out| ensures out[i].url != out[j].url {
      if j == |m| {
        assert out[i] == m[i];
      }
    }
  }

  lemma AppendNewKeepsUrls(init: seq<ScrapedContent>, m: seq<ScrapedContent>, v: ScrapedContent)
    requires SameUrls(m, init)
    ensures SameUrls(m + [v], init + [v])
  {
    var items := init + [v];
    var out := m + [v];
    assert out[|m|].url == v.url && items[|items| - 1].url == v.url;
    forall u ensures HasUrl(out, u) <==> HasUrl(items, u) {
      if HasUrl(out, u) && u != v.url {
        var i :| 0 <= i < |out| && out[i].url == u;
        assert m[i].url == u;
        assert HasUrl(init, u);
        var k :| 0 <= k < |init| && init[k].url == u;
        assert items[k].url == u;
      }
      if HasUrl(items, u) && u != v.url {
        var i :| 0 <= i < |items| && items[i].url == u;
        assert init[i].url == u;
        assert HasUrl(m, u);
        var k :| 0 <= k < |m| && m[k].url == u;
        assert out[k].url == u;
      }
    }
  }

  lemma AppendNewKeepsLast(init: seq<ScrapedContent>, m: seq<ScrapedContent>, v: ScrapedContent)
    requires SameUrls(m, init) && CarriesLastRecords(m, init) && !HasUrl(m, v.url)
    ensures CarriesLastRecords(m + [v], init + [v])
  {
    var items := init + [v];
    var out := m + [v];
    forall i | 0 <= i < |out| ensures IsLastRecord(items, out[i]) {
      if i == |m| {
        assert LastWithItsUrl(items, |items| - 1) && items[|items| - 1] == out[i];
      } else {
        var k :| LastWithItsUrl(init, k) && init[k] == m[i];
        assert HasUrl(m, m[i].url);
        assert m[i].url != v.url;
        assert LastWithItsUrl(items, k) && items[k] == out[i];
      }
    }
  }

  lemma AppendNewKeepsOrder(init: seq<ScrapedContent>, m: seq<ScrapedContent>, v: ScrapedContent)
    requires OrderedByFirstSeen(m, init) && SameUrls(m, init) && !HasUrl(init, v.url)
    ensures OrderedByFirstSeen(m + [v], init + [v])
  {
    var items := init + [v];
    var out := m + [v];
    PositionAppend(init, v, v.url);
    forall p, q | 0 <= p < q < |out| ensures FirstSeenBefore(items, out[p].url, out[q].url) {
      assert out[p] == m[p];
      if q < |m| {
        assert out[q] == m[q];
        AppendKeepsFirstSeen(init, v, m[p].url, m[q].url);
      } else {
        assert HasUrl(m, m[p].url);
        assert HasUrl(init, m[p].url);
        PositionAppend(init, v, m[p].url);
        var k := Position(init, m[p].url).value;
      }
    }
  }

  /** The Map's value sequence satisfies the four facts of `IsMapValues`. */
  lemma {:induction false} MapValuesSpec(items: seq<ScrapedContent>)
    ensures IsMapValues(items, MapValues(items))
  {
    if items != [] {
      var init := items[..|items| - 1];
      var v := items[|items| - 1];
      assert items == init + [v];
      MapValuesSpec(init);
      var m := MapValues(init);
      match Position(m, v.url)
      case Some(j) =>
        ReplaceKeepsDistinct(m, v, j);
        ReplaceKeepsUrls(init, m, v, j);
        ReplaceKeepsLast(init, m, v, j);
        ReplaceKeepsOrder(init, m, v, j);
      case None =>
        assert !HasUrl(m, v.url);
        assert !HasUrl(init, v.url);
        AppendNewKeepsDistinct(m, v);
        AppendNewKeepsUrls(init, m, v);
        AppendNewKeepsLast(init, m, v);
        AppendNewKeepsOrder(init, m, v);
    }
  }

  /** On records with distinct urls the Map changes nothing. */
  lemma {:induction false} MapValuesOfDistinct(items: seq<ScrapedContent>)
    requires UrlsDistinct(items)
    ensures MapValues(items) == items
  {
    if items != [] {
      var init := items[..|items| - 1];
      var v := items[|items| - 1];
      assert UrlsDistinct(init);
      MapValuesOfDistinct(init);
      forall j | 0 <= j < |init| ensures init[j].url != v.url {
        assert init[j] == items[j];
      }
      assert items == init + [v];
    }
  }

  /** Deduplicating twice is deduplicating once. */
  lemma MapValuesIdempotent(items: seq<ScrapedContent>)
    ensures MapValues(MapValues(items)) == MapValues(items)
  {
    MapValuesSpec(items);
    MapValuesOfDistinct(MapValues(items));
  }

  /** The set of urls occurring in `s`. */
  ghost function UrlSet(s: seq<ScrapedContent>): set<string> {
    set i | 0 <= i < |s| :: s[i].url
  }

  lemma UrlSetSnoc(s: seq<ScrapedContent>)
    requires s != []
    ensures UrlSet(s) == UrlSet(s[..|s| - 1]) + {s[|s| - 1].url}
  {
    var init := s[..|s| - 1];
    forall u | u in UrlSet(s) ensures u in UrlSet(init) + {s[|s| - 1].url} {
      var i :| 0 <= i < |s| && s[i].url == u;
      if i < |s| - 1 {
        assert init[i].url == u;
      }
    }
    forall u | u in UrlSet(init) ensures u in UrlSet(s) {
      var i :| 0 <= i < |init| && init[i].url == u;
      assert s[i].url == u;
    }
  }

  lemma LastUrlNew(s: seq<ScrapedContent>)
    requires s != [] && UrlsDistinct(s)
    ensures UrlsDistinct(s[..|s| - 1])
    ensures s[|s| - 1].url !in UrlSet(s[..|s| - 1])
  {
    var init := s[..|s| - 1];
    forall i | 0 <= i < |init| ensures init[i].url != s[|s| - 1].url {
      assert init[i] == s[i];
    }
  }

  lemma {:induction false} DistinctUrlCount(s: seq<ScrapedContent>)
    requires UrlsDistinct(s)
    ensures |UrlSet(s)| == |s|
  {
    if s != [] {
      LastUrlNew(s);
      DistinctUrlCount(s[..|s| - 1]);
      UrlSetSnoc(s);
    }
  }

  lemma SameUrlSet(out: seq<ScrapedContent>, items: seq<ScrapedContent>)
    requires SameUrls(out, items)
    ensures UrlSet(out) == UrlSet(items)
  {
    forall u | u in UrlSet(out) ensures u in UrlSet(items) {
      assert HasUrl(out, u);
    }
    forall u | u in UrlSet(items) ensures u in UrlSet(out) {
      assert HasUrl(items, u);
    }
  }

  /** The deduplicated sequence has one record per distinct url. */
  lemma MapValuesLength(items: seq<ScrapedContent>)
    ensures |MapValues(items)| == |UrlSet(items)|
  {
    MapValuesSpec(items);
    DistinctUrlCount(MapValues(items));
    SameUrlSet(MapValues(items), items);
  }

  /** `s.slice(0, n)`: a negative `n` counts from the end. */
  function SliceToEnd<T>(s: seq<T>, n: int): (r: seq<T>)
    ensures |r| <= |s| && r == s[..|r|]
    ensures n >= 0 ==> |r| == if n < |s| then n else |s|
    ensures n < 0 ==> |r| == if |s| + n < 0 then 0 else |s| + n
  {
    if n < 0 then (if |s| + n < 0 then [] else s[..|s| + n])
    else if n < |s| then s[..n]
    else s
  }

  /** `items.map(v => ({ ...v, url: cleanUrl(v.url) }))`. */
  function CleanAll(items: seq<ScrapedContent>): (r: seq<ScrapedContent>)
    ensures |r| == |items|
    ensures forall i :: 0 <= i < |items| ==> r[i] == items[i].(url := CleanUrl(items[i].url))
  {
    seq(|items|, i requires 0 <= i < |items| => items[i].(url := CleanUrl(items[i].url)))
  }

  /** The value `scrapeYouTubeChannel` returns for the accumulated items. */
  function Finalise(items: seq<ScrapedContent>, maxItems: int): seq<ScrapedContent> {
    SliceToEnd(MapValues(CleanAll(items)), maxItems)
  }

  /** What the caller gets: a prefix of the deduplicated cleaned records,
      of length `min(maxItems, number of distinct cleaned urls)`, urls
      distinct and free of `&` and `?si=`, each record the last input record
      with its cleaned url, in order of first occurrence. */
  lemma FinaliseSpec(items: seq<ScrapedContent>, maxItems: int)
    ensures var all := MapValues(CleanAll(items));
            var r := Finalise(items, maxItems);
            && r == all[..|r|]
            && (maxItems >= 0 ==> |r| == if maxItems < |UrlSet(CleanAll(items))| then maxItems else |UrlSet(CleanAll(items))|)
            && UrlsDistinct(r)
            && (forall i :: 0 <= i < |r| ==> IsLastRecord(CleanAll(items), r[i]))
            && (forall p, q :: 0 <= p < q < |r| ==> FirstSeenBefore(CleanAll(items), r[p].url, r[q].url))
            && (forall i :: 0 <= i < |r| ==> !Strings.Contains(r[i].url, Amp) && !Strings.Contains(r[i].url, ShareTag))
  {
    var c := CleanAll(items);
    var all := MapValues(c);
    var r := Finalise(items, maxItems);
    MapValuesSpec(c);
    MapValuesLength(c);
    forall i | 0 <= i < |r| ensures IsLastRecord(c, r[i]) && !Strings.Contains(r[i].url, Amp) && !Strings.Contains(r[i].url, ShareTag) {
      assert r[i] == all[i];
      var j :| LastWithItsUrl(c, j) && c[j] == all[i];
    }
  }

  /** Every returned record is an input record with its url cleaned. */
  lemma FinaliseFromInputs(items: seq<ScrapedContent>, maxItems: int)
    ensures var r := Finalise(items, maxItems);
            && UrlsDistinct(r)
            && forall i :: 0 <= i < |r| ==>
                 exists j :: 0 <= j < |items| && r[i] == items[j].(url := CleanUrl(items[j].url))
  {
    var c := CleanAll(items);
    var all := MapValues(c);
    var r := Finalise(items, maxItems);
    MapValuesSpec(c);
    forall i | 0 <= i < |r|
      ensures exists j :: 0 <= j < |items| && r[i] == items[j].(url := CleanUrl(items[j].url))
    {
      assert r[i] == all[i];
      assert IsLastRecord(c, all[i]);
      var j :| LastWithItsUrl(c, j) && c[j] == all[i];
    }
  }

  /** Deduplication does not keep the first record seen for a url: of two
      records with the same cleaned url, the later one is returned, in the
      place of the first. */
  lemma LaterRecordWins(a: ScrapedContent, b: ScrapedContent, maxItems: int)
    requires CleanUrl(a.url) == CleanUrl(b.url) && maxItems >= 1
    ensures Finalise([a, b], maxItems) == [b.(url := CleanUrl(b.url))]
  {
    var c := CleanAll([a, b]);
    assert c[..1] == [c[0]];
    assert MapValues(c[..1]) == [c[0]];
    assert Position([c[0]], c[1].url) == Some(0);
  }
}
