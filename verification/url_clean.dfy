/** URL canonicalisation (`cleanUrl` in youtubeScraperMain.ts): drop
    everything from the first `&`, turn the first `shorts/` into `watch?v=`,
    then drop everything from the first `?si=`. */
module UrlClean {
  import opened Strings

  const Amp := "&"
  const Shorts := "shorts/"
  const Watch := "watch?v="
  const ShareTag := "?si="

  function CleanUrl(url: string): (r: string)
    ensures url == "" ==> r == ""
    ensures !Contains(r, Amp) && !Contains(r, ShareTag)
  {
    if url == "" then ""
    else
      var p := BeforeFirst(url, Amp);
      var t := ReplaceFirst(p, Shorts, Watch);
      assert !Contains(t, Amp) by {
        ContainsChar(p, '&');
        ContainsChar(t, '&');
        if Contains(p, Shorts) {
          var i :| FirstOccurrence(p, Shorts, i) && t == p[..i] + Watch + p[i + |Shorts|..];
          assert '&' !in p[..i] && '&' !in p[i + |Shorts|..];
        }
      }
      var r := BeforeFirst(t, ShareTag);
      NoOccurrenceInPrefix(t, |r|, Amp);
      r
  }

  /** The `watch?v=` inserted for `shorts/` cannot complete a `shorts/` with
      its neighbours: every window of seven characters that meets it holds its
      `w` or its `=`, and neither occurs in `shorts/`. */
  lemma RewriteAddsNoShorts(p: string, q: string)
    requires !Contains(p, Shorts) && !Contains(q, Shorts)
    ensures !Contains(p + Watch + q, Shorts)
  {
    var t := p + Watch + q;
    assert t == p + (Watch + q);
    assert t[|p|] == 'w' && t[|p| + 7] == '=';
    assert 'w' !in Shorts && '=' !in Shorts;
    forall k | 0 <= k && k + 7 <= |t| ensures !OccursAt(t, Shorts, k) {
      if k + 7 <= |p| {
        NoOccurrenceLeft(p, Watch + q, Shorts, k);
      } else if k <= |p| {
        CharBlocks(t, Shorts, k, |p|);
      } else if k <= |p| + 7 {
        CharBlocks(t, Shorts, k, |p| + 7);
      } else {
        NoOccurrenceRight(p + Watch, q, Shorts, k);
      }
    }
  }

  /** `?si=` cannot occur across an inserted `watch?v=`: its only `?` is
      followed by `v`, and its `w` ends any window reaching in from the left. */
  lemma {:induction false} WatchFormHasNoShareTag(p: string, q: string)
    requires !Contains(p, ShareTag) && !Contains(q, ShareTag)
    ensures !Contains(p + Watch + q, ShareTag)
  {
    var t := p + Watch + q;
    assert Watch == "watch" + "?" + "v=";
    forall k | 0 <= k && k + 4 <= |t| ensures !OccursAt(t, ShareTag, k) {
      if k + 4 <= |p| {
        assert t[k..k + 4] == p[k..k + 4] && !OccursAt(p, ShareTag, k);
      } else if k < |p| {
        assert t[k..k + 4][|p| - k] == t[|p|] == 'w';
        assert 'w' in t[k..k + 4] && 'w' !in ShareTag;
      } else if k < |p| + 8 {
        assert t[k..k + 4][0] == t[k] && t[k..k + 4][1] == t[k + 1];
        if k < |p| + 5 {
          assert t[k] == "watch"[k - |p|];
          assert t[k] in "watch" && '?' !in "watch";
        } else if k == |p| + 5 {
          assert t[k + 1] == 'v';
        } else {
          assert t[k] == "v="[k - |p| - 6];
          assert t[k] in "v=" && '?' !in "v=";
        }
      } else {
        assert t[k..k + 4] == q[k - |p| - 8..k - |p| - 4] && !OccursAt(q, ShareTag, k - |p| - 8);
      }
    }
  }

  /** Appending `shorts/` to a text without one makes that the first
      occurrence: `shorts/` overlaps no copy of itself. */
  lemma {:induction false} ShortsFirstAfter(p: string, q: string)
    requires !Contains(p, Shorts)
    ensures FirstOccurrence(p + Shorts + q, Shorts, |p|)
  {
    var s := p + Shorts + q;
    assert s[|p|..|p| + 7] == Shorts;
    forall j | 0 <= j < |p| ensures !OccursAt(s, Shorts, j) {
      if j + 7 <= |p| {
        assert s[j..j + 7] == p[j..j + 7] && !OccursAt(p, Shorts, j);
      } else {
        assert s[j..j + 7][6] == s[j + 6] == Shorts[..6][j + 6 - |p|];
        assert Shorts[..6] == "shorts" && '/' !in "shorts";
      }
    }
  }

  /** Where the text before the first `&` holds no `shorts/`, cleaning only
      cuts the URL short. */
  lemma PrefixWhenNoShorts(url: string)
    requires !Contains(BeforeFirst(url, Amp), Shorts)
    ensures IsPrefix(CleanUrl(url), url)
  {
  }

  /** Whatever follows the first `&` is irrelevant to the result. */
  lemma AmpersandTailIgnored(a: string, b: string)
    requires BeforeFirst(a, Amp) == BeforeFirst(b, Amp)
    ensures CleanUrl(a) == CleanUrl(b)
  {
  }

  /** A short-form link and the matching long-form link clean to the same
      URL. */
  lemma ShortFormMatchesWatchForm(p: string, q: string)
    requires !Contains(p, Amp) && !Contains(q, Amp)
    requires !Contains(p, Shorts) && !Contains(q, Shorts)
    ensures CleanUrl(p + Shorts + q) == CleanUrl(p + Watch + q)
  {
    var s := p + Shorts + q;
    var w := p + Watch + q;
    ContainsChar(p, '&');
    ContainsChar(q, '&');
    ContainsChar(s, '&');
    ContainsChar(w, '&');
    BeforeFirstAbsent(s, Amp);
    BeforeFirstAbsent(w, Amp);
    RewriteAddsNoShorts(p, q);
    assert OccursAt(s, Shorts, |p|) by {
      assert s[|p|..|p| + 7] == Shorts;
    }
    ShortsFirstAfter(p, q);
    assert ReplaceFirst(s, Shorts, Watch) == w by {
      var i :| FirstOccurrence(s, Shorts, i) && ReplaceFirst(s, Shorts, Watch) == s[..i] + Watch + s[i + 7..];
      FirstOccurrenceUnique(s, Shorts, i, |p|);
      assert s[..|p|] == p && s[|p| + 7..] == q;
    }
  }

  /** Nothing before the first `shorts/` is a `shorts/`. */
  lemma BeforeFirstShorts(p: string, i: int)
    requires FirstOccurrence(p, Shorts, i)
    ensures !Contains(p[..i], Shorts)
  {
    forall k | 0 <= k && k + 7 <= i ensures !OccursAt(p[..i], Shorts, k) {
      assert p[..i][k..k + 7] == p[k..k + 7];
      assert !OccursAt(p, Shorts, k);
    }
  }

  /** In a prefix of a URL holding `shorts/` at most once, nothing after an
      occurrence is a `shorts/`. */
  lemma AfterOnlyShorts(url: string, p: string, i: int)
    requires AtMostOnce(url, Shorts) && IsPrefix(p, url) && OccursAt(p, Shorts, i)
    ensures !Contains(p[i + 7..], Shorts)
  {
    assert url[i..i + 7] == p[i..i + 7];
    assert OccursAt(url, Shorts, i);
    var rest := p[i + 7..];
    forall k | 0 <= k && k + 7 <= |rest| ensures !OccursAt(rest, Shorts, k) {
      assert rest[k..k + 7] == p[i + 7 + k..i + 14 + k];
      assert p[i + 7 + k..i + 14 + k] == url[..|p|][i + 7 + k..i + 14 + k] == url[i + 7 + k..i + 14 + k];
      OnlyOccurrence(url, Shorts, i, i + 7 + k);
    }
  }

  /** With at most one `shorts/`, the rewrite leaves none behind. */
  lemma RewriteLeavesNoShorts(url: string)
    requires AtMostOnce(url, Shorts)
    ensures !Contains(ReplaceFirst(BeforeFirst(url, Amp), Shorts, Watch), Shorts)
  {
    var p := BeforeFirst(url, Amp);
    var t := ReplaceFirst(p, Shorts, Watch);
    if Contains(p, Shorts) {
      var i :| FirstOccurrence(p, Shorts, i) && t == p[..i] + Watch + p[i + 7..];
      BeforeFirstShorts(p, i);
      AfterOnlyShorts(url, p, i);
      RewriteAddsNoShorts(p[..i], p[i + 7..]);
    }
  }

  /** Cleaning is idempotent as long as `shorts/` occurs at most once:
      only the first occurrence is rewritten. */
  lemma CleanUrlIdempotent(url: string)
    requires AtMostOnce(url, Shorts)
    ensures CleanUrl(CleanUrl(url)) == CleanUrl(url)
  {
    if url != "" {
      var t := ReplaceFirst(BeforeFirst(url, Amp), Shorts, Watch);
      var c := CleanUrl(url);
      assert c == BeforeFirst(t, ShareTag);
      RewriteLeavesNoShorts(url);
      NoOccurrenceInPrefix(t, |c|, Shorts);
      if c != "" {
        BeforeFirstAbsent(c, Amp);
        BeforeFirstAbsent(c, ShareTag);
      }
    }
  }

  /** No `&` starts inside a text free of `&`. */
  lemma NoAmpBefore(a: string, b: string)
    requires !Contains(a, Amp)
    ensures forall k :: 0 <= k < |a| ==> !OccursAt(a + b, Amp, k)
  {
    ContainsChar(a, '&');
    forall k | 0 <= k < |a| ensures !OccursAt(a + b, Amp, k) {
      assert (a + b)[k..k + 1][0] == a[k];
    }
  }

  /** No `shorts/` starts before the end of an inserted `?si=` when the text
      before it holds none: every window reaching into the tag holds its `?`
      or its `=`. */
  lemma ShareTagBlocksShorts(u: string, y: string)
    requires !Contains(u, Shorts)
    ensures forall k :: 0 <= k < |u + ShareTag| ==> !OccursAt(u + ShareTag + y, Shorts, k)
  {
    var t := u + ShareTag + y;
    assert t == u + (ShareTag + y);
    assert t[|u|] == '?' && t[|u| + 3] == '=';
    assert '?' !in Shorts && '=' !in Shorts;
    forall k | 0 <= k < |u + ShareTag| ensures !OccursAt(t, Shorts, k) {
      if k + 7 <= |u| {
        NoOccurrenceLeft(u, ShareTag + y, Shorts, k);
      } else if k + 7 <= |t| {
        if k <= |u| {
          CharBlocks(t, Shorts, k, |u|);
        } else {
          CharBlocks(t, Shorts, k, |u| + 3);
        }
      }
    }
  }

  /** `?si=` after a text free of it is its first occurrence: no window
      reaching into the tag from the left starts with `?`. */
  lemma ShareTagFirst(v: string, z: string)
    requires !Contains(v, ShareTag)
    ensures BeforeFirst(v + ShareTag + z, ShareTag) == v
  {
    var t := v + (ShareTag + z);
    assert t == v + ShareTag + z;
    forall k | 0 <= k < |v| ensures !OccursAt(t, ShareTag, k) {
      if k + 4 <= |v| {
        NoOccurrenceLeft(v, ShareTag + z, ShareTag, k);
      } else if k + 4 <= |t| {
        assert t[k..k + 4][|v| - k] == t[|v|] == '?';
        assert ShareTag[|v| - k] != '?';
      }
    }
    BeforeFirstSkip(v, ShareTag + z, ShareTag);
    assert OccursAt(ShareTag + z, ShareTag, 0) by {
      assert (ShareTag + z)[..4] == ShareTag;
    }
    ContainsAt(ShareTag + z, ShareTag, 0);
    assert BeforeFirst(ShareTag + z, ShareTag) == [];
  }

  /** Rewriting `shorts/` in a text free of `?si=` creates none. */
  lemma RewriteKeepsNoShareTag(u: string)
    requires !Contains(u, ShareTag)
    ensures !Contains(ReplaceFirst(u, Shorts, Watch), ShareTag)
  {
    if Contains(u, Shorts) {
      var i := IndexOf(u, Shorts).value;
      assert ReplaceFirst(u, Shorts, Watch) == u[..i] + Watch + u[i + 7..];
      NoOccurrenceInPrefix(u, i, ShareTag);
      NoOccurrenceInSuffix(u, i + 7, ShareTag);
      WatchFormHasNoShareTag(u[..i], u[i + 7..]);
    }
  }

  /** The rewrite of a text ending in `?si=` and a tail touches the text
      before the tag as if the tag and tail were not there. */
  lemma RewriteBeforeShareTag(u: string, y: string) returns (z: string)
    ensures ReplaceFirst(u + ShareTag + y, Shorts, Watch)
            == ReplaceFirst(u, Shorts, Watch) + ShareTag + z
  {
    assert u + ShareTag + y == u + (ShareTag + y);
    if Contains(u, Shorts) {
      ReplaceFirstKeep(u, ShareTag + y, Shorts, Watch);
      z := y;
    } else {
      ShareTagBlocksShorts(u, y);
      ReplaceFirstSkip(u + ShareTag, y, Shorts, Watch);
      assert ReplaceFirst(u, Shorts, Watch) == u;
      z := ReplaceFirst(y, Shorts, Watch);
    }
  }

  /** A `?si=` share tag and everything after it are ignored: the url cleans
      as if they were absent. */
  lemma ShareTagTailIgnored(u: string, x: string)
    requires !Contains(u, ShareTag)
    ensures CleanUrl(u + ShareTag + x) == CleanUrl(u)
  {
    var s := u + ShareTag + x;
    assert s == u + (ShareTag + x);
    if Contains(u, Amp) {
      BeforeFirstKeep(u, ShareTag + x, Amp);
      assert u != "" && s != "";
    } else {
      var v := ReplaceFirst(u, Shorts, Watch);
      MissingChar(ShareTag, Amp, 0);
      ContainsChar(u, '&');
      ContainsChar(ShareTag, '&');
      ContainsChar(u + ShareTag, '&');
      NoAmpBefore(u + ShareTag, x);
      BeforeFirstSkip(u + ShareTag, x, Amp);
      var y := BeforeFirst(x, Amp);
      assert BeforeFirst(s, Amp) == u + ShareTag + y;
      var z := RewriteBeforeShareTag(u, y);
      RewriteKeepsNoShareTag(u);
      ShareTagFirst(v, z);
      assert CleanUrl(s) == v;
      if u != "" {
        BeforeFirstAbsent(u, Amp);
        BeforeFirstAbsent(v, ShareTag);
      }
    }
  }

  /** A short-form link without tracking parts becomes the long-form link. */
  lemma {:induction false} ShortLinkRewritten(p: string, q: string)
    requires !Contains(p, Amp) && !Contains(q, Amp)
    requires !Contains(p, ShareTag) && !Contains(q, ShareTag)
    requires !Contains(p, Shorts)
    ensures CleanUrl(p + Shorts + q) == p + Watch + q
  {
    var s := p + Shorts + q;
    var w := p + Watch + q;
    ContainsChar(p, '&');
    ContainsChar(q, '&');
    ContainsChar(s, '&');
    BeforeFirstAbsent(s, Amp);
    ShortsFirstAfter(p, q);
    assert ReplaceFirst(s, Shorts, Watch) == w by {
      var i :| FirstOccurrence(s, Shorts, i) && ReplaceFirst(s, Shorts, Watch) == s[..i] + Watch + s[i + 7..];
      FirstOccurrenceUnique(s, Shorts, i, |p|);
      assert s[..|p|] == p && s[|p| + 7..] == q;
    }
    WatchFormHasNoShareTag(p, q);
    BeforeFirstAbsent(w, ShareTag);
  }

  /** Cleaning `shorts/shorts/` rewrites only the first `shorts/`. */
  lemma DoubleShortsFirstPass(u: string)
    requires u == Shorts + Shorts
    ensures CleanUrl(u) == Watch + Shorts
  {
    MissingChar("", Amp, 0);
    MissingChar("", ShareTag, 0);
    MissingChar(Shorts, Amp, 0);
    MissingChar(Shorts, ShareTag, 0);
    ShortLinkRewritten("", Shorts);
    assert "" + Shorts + Shorts == u;
    assert "" + Watch + Shorts == Watch + Shorts;
  }

  /** Cleaning `watch?v=shorts/` rewrites the `shorts/` that is left. */
  lemma DoubleShortsSecondPass(u: string)
    requires u == Watch + Shorts
    ensures CleanUrl(u) == Watch + Watch
  {
    MissingChar("", ShareTag, 0);
    MissingChar(Watch, Amp, 0);
    MissingChar(Watch, ShareTag, 1);
    MissingChar(Watch, Shorts, 0);
    ShortLinkRewritten(Watch, "");
    assert Watch + Shorts + "" == u;
    assert Watch + Watch + "" == Watch + Watch;
  }

  /** With two `shorts/` (`u` is `shorts/shorts/`) cleaning is not
      idempotent: a second pass rewrites the second `shorts/`. */
  lemma TwoShortsNotIdempotent(u: string)
    requires u == Shorts + Shorts
    ensures CleanUrl(CleanUrl(u)) != CleanUrl(u)
  {
    DoubleShortsFirstPass(u);
    DoubleShortsSecondPass(CleanUrl(u));
    assert (Watch + Watch)[8] != (Watch + Shorts)[8];
  }
}
