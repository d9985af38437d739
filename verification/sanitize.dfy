/** `sanitizeFilename` (youtubeAudioDownloader.ts): three passes over the
    title or date string.
      1. every character of `<>:"/\|?*` and every control character
         U+0000..U+001F is deleted;
      2. every maximal run of `\s` whitespace becomes one `_`;
      3. the result is trimmed.
    Pass 1 already deletes the ASCII whitespace below U+0020 (tab, line
    feed, ...), so those never reach pass 2 and leave no `_` behind. */
module Sanitize {
  import opened Strings

  predicate IsForbidden(c: char) {
    || c == '<' || c == '>' || c == ':' || c == '"' || c == '/'
    || c == '\\' || c == '|' || c == '?' || c == '*'
    || c as int < 0x20
  }

  predicate NoForbidden(s: string) {
    forall i :: 0 <= i < |s| ==> !IsForbidden(s[i])
  }

  /** Pass 1: `replace(/[<>:"/\\|?*\x00-\x1F]/g, "")`. */
  function RemoveForbidden(s: string): (r: string)
    ensures |r| <= |s|
  {
    if s == [] then []
    else (if IsForbidden(s[0]) then [] else [s[0]]) + RemoveForbidden(s[1..])
  }

  /** Pass 2: `replace(/\s+/g, "_")`. The regular expression is greedy, so a
      whitespace run is consumed whole before the next match starts. */
  function Collapse(s: string): (r: string)
    decreases |s|
  {
    if s == [] then []
    else if IsJsSpace(s[0]) then "_" + Collapse(TrimStart(s))
    else [s[0]] + Collapse(s[1..])
  }

  /** The whole of `sanitizeFilename`. */
  function SanitizeFilename(s: string): string {
    Trim(Collapse(RemoveForbidden(s)))
  }

  // ---------------------------------------------------------------------
  // Pass 1: a filter.

  /** A character survives pass 1 exactly when it occurs in the input and
      is not forbidden. */
  lemma {:induction false} RemoveForbiddenKeeps(s: string, c: char)
    ensures c in RemoveForbidden(s) <==> c in s && !IsForbidden(c)
  {
    if s != [] {
      RemoveForbiddenKeeps(s[1..], c);
      assert s == [s[0]] + s[1..];
    }
  }

  /** Nothing forbidden survives pass 1. */
  lemma {:induction false} RemoveForbiddenShape(s: string)
    ensures NoForbidden(RemoveForbidden(s))
  {
    if s != [] {
      RemoveForbiddenShape(s[1..]);
    }
  }

  /** Pass 1 works character by character, so it distributes over
      concatenation. */
  lemma {:induction false} RemoveForbiddenAppend(a: string, b: string)
    ensures RemoveForbidden(a + b) == RemoveForbidden(a) + RemoveForbidden(b)
  {
    if a != [] {
      assert (a + b)[0] == a[0];
      assert (a + b)[1..] == a[1..] + b;
      RemoveForbiddenAppend(a[1..], b);
    } else {
      assert a + b == b;
    }
  }

  /** A string without forbidden characters passes pass 1 unchanged. */
  lemma {:induction false} RemoveForbiddenClean(s: string)
    requires NoForbidden(s)
    ensures RemoveForbidden(s) == s
  {
    if s != [] {
      RemoveForbiddenClean(s[1..]);
    }
  }

  // ---------------------------------------------------------------------
  // Pass 2 against a character-by-character reference.

  /** Reference reading of pass 2: scan left to right; a whitespace
      character yields `_` unless the previous character was whitespace
      too, in which case it yields nothing. */
  function Squeeze(s: string, afterSpace: bool): string {
    if s == [] then []
    else if IsJsSpace(s[0]) then (if afterSpace then "" else "_") + Squeeze(s[1..], true)
    else [s[0]] + Squeeze(s[1..], false)
  }

  /** Inside a whitespace run, the rest of the run yields nothing. */
  lemma {:induction false} SqueezeSkipsRun(s: string)
    ensures Squeeze(s, true) == Squeeze(TrimStart(s), false)
  {
    if s != [] && IsJsSpace(s[0]) {
      SqueezeSkipsRun(s[1..]);
    }
  }

  /** The greedy regular-expression replacement agrees with the reference. */
  lemma {:induction false} CollapseIsSqueeze(s: string)
    ensures Collapse(s) == Squeeze(s, false)
    decreases |s|
  {
    if s != [] {
      if IsJsSpace(s[0]) {
        SqueezeSkipsRun(s[1..]);
        TrimStartStep(s);
        CollapseIsSqueeze(TrimStart(s));
      } else {
        CollapseIsSqueeze(s[1..]);
      }
    }
  }

  /** Pass 2 leaves no whitespace. */
  lemma {:induction false} CollapseRemovesSpace(s: string)
    ensures NoSpace(Collapse(s))
    decreases |s|
  {
    if s != [] {
      var rest := if IsJsSpace(s[0]) then TrimStart(s) else s[1..];
      var h := if IsJsSpace(s[0]) then '_' else s[0];
      CollapseRemovesSpace(rest);
      assert Collapse(s) == [h] + Collapse(rest);
      assert !IsJsSpace(h);
    }
  }

  /** Pass 2 never lengthens its input. */
  lemma {:induction false} CollapseShorter(s: string)
    ensures |Collapse(s)| <= |s|
    decreases |s|
  {
    if s != [] {
      if IsJsSpace(s[0]) {
        CollapseShorter(TrimStart(s));
      } else {
        CollapseShorter(s[1..]);
      }
    }
  }

  lemma ConsClean(h: char, t: string)
    requires !IsForbidden(h) && NoForbidden(t)
    ensures NoForbidden([h] + t)
  {
    forall i | 0 <= i < |[h] + t| ensures !IsForbidden(([h] + t)[i]) {
      if i > 0 {
        assert ([h] + t)[i] == t[i - 1];
      }
    }
  }

  lemma SuffixClean(s: string, n: nat)
    requires n <= |s| && NoForbidden(s)
    ensures NoForbidden(s[n..])
  {
    forall i | 0 <= i < |s| - n ensures !IsForbidden(s[n..][i]) {
      assert s[n..][i] == s[n + i];
    }
  }

  /** Pass 2 adds no forbidden character. */
  lemma {:induction false} CollapseKeepsClean(s: string)
    requires NoForbidden(s)
    ensures NoForbidden(Collapse(s))
    decreases |s|
  {
    if s != [] {
      if IsJsSpace(s[0]) {
        var rest := TrimStart(s);
        SuffixClean(s, |s| - |rest|);
        CollapseKeepsClean(rest);
        ConsClean('_', Collapse(rest));
      } else {
        SuffixClean(s, 1);
        CollapseKeepsClean(s[1..]);
        ConsClean(s[0], Collapse(s[1..]));
      }
    }
  }

  /** A string without whitespace passes pass 2 unchanged. */
  lemma {:induction false} CollapseNoSpace(s: string)
    requires NoSpace(s)
    ensures Collapse(s) == s
  {
    if s != [] {
      CollapseNoSpace(s[1..]);
    }
  }

  // ---------------------------------------------------------------------
  // The whole sanitiser.

  /** The final `trim()` never has anything to remove, and the result holds
      neither forbidden characters nor whitespace and is no longer than the
      input. */
  lemma SanitizeShape(s: string)
    ensures SanitizeFilename(s) == Collapse(RemoveForbidden(s)) == Squeeze(RemoveForbidden(s), false)
    ensures NoForbidden(SanitizeFilename(s)) && NoSpace(SanitizeFilename(s))
    ensures |SanitizeFilename(s)| <= |s|
  {
    RemoveForbiddenShape(s);
    CollapseIsSqueeze(RemoveForbidden(s));
    CollapseRemovesSpace(RemoveForbidden(s));
    CollapseShorter(RemoveForbidden(s));
    CollapseKeepsClean(RemoveForbidden(s));
    TrimNoSpace(Collapse(RemoveForbidden(s)));
  }

  /** A string already free of forbidden characters and whitespace is left
      as it is. */
  lemma SanitizeClean(s: string)
    requires NoForbidden(s) && NoSpace(s)
    ensures SanitizeFilename(s) == s
  {
    RemoveForbiddenClean(s);
    CollapseNoSpace(s);
    TrimNoSpace(s);
  }

  /** Sanitising twice is sanitising once. */
  lemma SanitizeIdempotent(s: string)
    ensures SanitizeFilename(SanitizeFilename(s)) == SanitizeFilename(s)
  {
    SanitizeShape(s);
    SanitizeClean(SanitizeFilename(s));
  }

  /** A deleted character vanishes without a trace: the text around it is
      joined, not separated by `_`. This holds for tab and line feed too,
      since they fall below U+0020; so `"a?b"`, `"a\tb"` and `"ab"` all
      sanitise alike. */
  lemma ForbiddenCharacterJoins(p: string, c: char, q: string)
    requires IsForbidden(c)
    ensures SanitizeFilename(p + [c] + q) == SanitizeFilename(p + q)
  {
    RemoveForbiddenAppend(p + [c], q);
    RemoveForbiddenAppend(p, [c]);
    RemoveForbiddenAppend(p, q);
    assert RemoveForbidden([c]) == [];
    assert RemoveForbidden(p + [c] + q) == RemoveForbidden(p + q);
  }
}
