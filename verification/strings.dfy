/** The JavaScript string operations the scraper and the downloader rely on,
    stated over `string` (a sequence of characters):
    - `s.includes(pat)`               is `Contains`
    - `s.split(sep)[0]`               is `BeforeFirst`
    - `s.replace(pat, rep)` (a string pattern, so only the first match) is `ReplaceFirst`
    - `s.trim()` and the regular-expression class `\s` use `IsJsSpace`
    - `n.toString()` for a non-negative integer is `NatToString`. */
module Strings {
  import opened Wrappers

  /** `pat` occurs in `s` starting at index `i`. */
  predicate OccursAt(s: string, pat: string, i: int) {
    0 <= i && i + |pat| <= |s| && s[i..i + |pat|] == pat
  }

  /** `i` is the leftmost occurrence of `pat` in `s`. */
  predicate FirstOccurrence(s: string, pat: string, i: int) {
    OccursAt(s, pat, i) && forall j :: 0 <= j < i ==> !OccursAt(s, pat, j)
  }

  /** `pat` occurs at most once in `s`. */
  ghost predicate AtMostOnce(s: string, pat: string) {
    forall i, j :: OccursAt(s, pat, i) && OccursAt(s, pat, j) ==> i == j
  }

  lemma OnlyOccurrence(s: string, pat: string, i: int, j: int)
    requires AtMostOnce(s, pat) && OccursAt(s, pat, i) && i != j
    ensures !OccursAt(s, pat, j)
  {
  }

  predicate IsPrefix(p: string, s: string) {
    |p| <= |s| && s[..|p|] == p
  }

  /** Left-to-right search for `pat` from index `k` on. */
  function FindFrom(s: string, pat: string, k: nat): (r: Option<nat>)
    requires k <= |s|
    ensures r.Some? ==> k <= r.value && OccursAt(s, pat, r.value)
    ensures r.Some? ==> forall j :: k <= j < r.value ==> !OccursAt(s, pat, j)
    ensures r.None? ==> forall j :: k <= j ==> !OccursAt(s, pat, j)
    decreases |s| - k
  {
    if OccursAt(s, pat, k) then Some(k)
    else if k == |s| then None
    else FindFrom(s, pat, k + 1)
  }

  /** `s.indexOf(pat)`, with `None` for JavaScript's `-1`. */
  function IndexOf(s: string, pat: string): (r: Option<nat>)
    ensures r.Some? <==> exists i :: OccursAt(s, pat, i)
    ensures r.Some? ==> FirstOccurrence(s, pat, r.value)
  {
    FindFrom(s, pat, 0)
  }

  /** `s.includes(pat)`. */
  predicate Contains(s: string, pat: string) {
    IndexOf(s, pat).Some?
  }

  lemma ContainsAt(s: string, pat: string, i: int)
    requires OccursAt(s, pat, i)
    ensures Contains(s, pat)
  {
  }

  /** An occurrence in a prefix is an occurrence in the whole string. */
  lemma OccursInPrefix(s: string, n: nat, pat: string, i: int)
    requires n <= |s| && OccursAt(s[..n], pat, i)
    ensures OccursAt(s, pat, i)
  {
    assert s[..n][i..i + |pat|] == s[i..i + |pat|];
  }

  /** An occurrence in a suffix is an occurrence in the whole string, shifted. */
  lemma OccursInSuffix(s: string, n: nat, pat: string, i: int)
    requires n <= |s| && OccursAt(s[n..], pat, i)
    ensures OccursAt(s, pat, n + i)
  {
    assert s[n..][i..i + |pat|] == s[n + i..n + i + |pat|];
  }

  lemma NoOccurrenceInPrefix(s: string, n: nat, pat: string)
    requires n <= |s| && !Contains(s, pat)
    ensures !Contains(s[..n], pat)
  {
    if Contains(s[..n], pat) {
      var i := IndexOf(s[..n], pat).value;
      OccursInPrefix(s, n, pat, i);
      ContainsAt(s, pat, i);
    }
  }

  lemma NoOccurrenceInSuffix(s: string, n: nat, pat: string)
    requires n <= |s| && !Contains(s, pat)
    ensures !Contains(s[n..], pat)
  {
    if Contains(s[n..], pat) {
      var i := IndexOf(s[n..], pat).value;
      OccursInSuffix(s, n, pat, i);
      ContainsAt(s, pat, n + i);
    }
  }

  /** A string has at most one leftmost occurrence of a pattern. */
  lemma FirstOccurrenceUnique(s: string, pat: string, i: int, j: int)
    requires FirstOccurrence(s, pat, i) && FirstOccurrence(s, pat, j)
    ensures i == j
  {
  }

  /** A window of `a + b` starting `j` characters into `b` is that window
      of `b`. */
  lemma OccursShift(a: string, b: string, pat: string, j: nat)
    ensures OccursAt(a + b, pat, |a| + j) <==> OccursAt(b, pat, j)
  {
    if j + |pat| <= |b| {
      assert (a + b)[|a| + j..|a| + j + |pat|] == b[j..j + |pat|];
    }
  }

  /** The search over `a + b` stops inside `a` when `a` holds the pattern. */
  lemma IndexOfKeep(a: string, b: string, pat: string)
    requires Contains(a, pat)
    ensures IndexOf(a + b, pat) == IndexOf(a, pat)
  {
    var i := IndexOf(a, pat).value;
    assert OccursAt(a + b, pat, i) by {
      assert (a + b)[i..i + |pat|] == a[i..i + |pat|];
    }
    forall j | 0 <= j < i ensures !OccursAt(a + b, pat, j) {
      assert (a + b)[j..j + |pat|] == a[j..j + |pat|];
      assert !OccursAt(a, pat, j);
    }
    ContainsAt(a + b, pat, i);
    FirstOccurrenceUnique(a + b, pat, i, IndexOf(a + b, pat).value);
  }

  /** The search result moved `n` characters to the right. */
  function ShiftIndex(r: Option<nat>, n: nat): Option<nat> {
    match r
    case None => None
    case Some(j) => Some(n + j)
  }

  /** When no occurrence starts inside `a`, the search over `a + b` is the
      search over `b`, shifted by `|a|`. */
  lemma IndexOfSkip(a: string, b: string, pat: string)
    requires forall k :: 0 <= k < |a| ==> !OccursAt(a + b, pat, k)
    ensures IndexOf(a + b, pat) == ShiftIndex(IndexOf(b, pat), |a|)
  {
    var t := a + b;
    if IndexOf(b, pat).None? {
      if Contains(t, pat) {
        var k := IndexOf(t, pat).value;
        OccursShift(a, b, pat, k - |a|);
        ContainsAt(b, pat, k - |a|);
      }
    } else {
      var j := IndexOf(b, pat).value;
      FirstShifted(a, b, pat, j);
      ContainsAt(t, pat, |a| + j);
      FirstOccurrenceUnique(t, pat, |a| + j, IndexOf(t, pat).value);
    }
  }

  lemma FirstShifted(a: string, b: string, pat: string, j: nat)
    requires forall k :: 0 <= k < |a| ==> !OccursAt(a + b, pat, k)
    requires FirstOccurrence(b, pat, j)
    ensures FirstOccurrence(a + b, pat, |a| + j)
  {
    OccursShift(a, b, pat, j);
    forall k | |a| <= k < |a| + j ensures !OccursAt(a + b, pat, k) {
      OccursShift(a, b, pat, k - |a|);
    }
  }

  /** `(a + b).split(sep)[0]` is `a.split(sep)[0]` when `a` holds `sep`. */
  lemma BeforeFirstKeep(a: string, b: string, sep: string)
    requires |sep| > 0 && Contains(a, sep)
    ensures BeforeFirst(a + b, sep) == BeforeFirst(a, sep)
  {
    IndexOfKeep(a, b, sep);
    var i := IndexOf(a, sep).value;
    assert (a + b)[..i] == a[..i];
  }

  /** When no `sep` starts inside `a`, splitting `a + b` keeps all of `a`. */
  lemma BeforeFirstSkip(a: string, b: string, sep: string)
    requires |sep| > 0
    requires forall k :: 0 <= k < |a| ==> !OccursAt(a + b, sep, k)
    ensures BeforeFirst(a + b, sep) == a + BeforeFirst(b, sep)
  {
    IndexOfSkip(a, b, sep);
    if IndexOf(b, sep).Some? {
      var j := IndexOf(b, sep).value;
      assert (a + b)[..|a| + j] == a + b[..j];
    }
  }

  /** `replace` splices `rep` in at the index `indexOf` finds. */
  lemma ReplaceAt(s: string, pat: string, rep: string, i: nat)
    requires IndexOf(s, pat) == Some(i)
    ensures i + |pat| <= |s| && ReplaceFirst(s, pat, rep) == s[..i] + rep + s[i + |pat|..]
  {
  }

  /** A splice inside `a` is a splice inside `a + b`. */
  lemma SpliceLeft(a: string, b: string, i: nat, n: nat, rep: string)
    requires i + n <= |a|
    ensures (a + b)[..i] + rep + (a + b)[i + n..] == a[..i] + rep + a[i + n..] + b
  {
    assert (a + b)[..i] == a[..i];
    assert (a + b)[i + n..] == a[i + n..] + b;
  }

  /** A splice inside `b` is a splice inside `a + b`, shifted by `|a|`. */
  lemma SpliceRight(a: string, b: string, j: nat, n: nat, rep: string)
    requires j + n <= |b|
    ensures (a + b)[..|a| + j] + rep + (a + b)[|a| + j + n..] == a + (b[..j] + rep + b[j + n..])
  {
    assert (a + b)[..|a| + j] == a + b[..j];
    assert (a + b)[|a| + j + n..] == b[j + n..];
  }

  /** Replacing in `a + b` replaces in `a` when `a` holds the pattern. */
  lemma ReplaceFirstKeep(a: string, b: string, pat: string, rep: string)
    requires Contains(a, pat)
    ensures ReplaceFirst(a + b, pat, rep) == ReplaceFirst(a, pat, rep) + b
  {
    IndexOfKeep(a, b, pat);
    var i := IndexOf(a, pat).value;
    ReplaceAt(a, pat, rep, i);
    ReplaceAt(a + b, pat, rep, i);
    SpliceLeft(a, b, i, |pat|, rep);
  }

  /** When no occurrence starts inside `a`, replacing in `a + b` replaces in
      `b`. */
  lemma ReplaceFirstSkip(a: string, b: string, pat: string, rep: string)
    requires forall k :: 0 <= k < |a| ==> !OccursAt(a + b, pat, k)
    ensures ReplaceFirst(a + b, pat, rep) == a + ReplaceFirst(b, pat, rep)
  {
    IndexOfSkip(a, b, pat);
    ReplaceShifted(a, b, pat, rep);
  }

  lemma ReplaceShifted(a: string, b: string, pat: string, rep: string)
    requires IndexOf(a + b, pat) == ShiftIndex(IndexOf(b, pat), |a|)
    ensures ReplaceFirst(a + b, pat, rep) == a + ReplaceFirst(b, pat, rep)
  {
    if IndexOf(b, pat).Some? {
      ReplaceShiftedAt(a, b, pat, rep, IndexOf(b, pat).value);
    }
  }

  lemma ReplaceShiftedAt(a: string, b: string, pat: string, rep: string, j: nat)
    requires IndexOf(b, pat) == Some(j) && IndexOf(a + b, pat) == Some(|a| + j)
    ensures ReplaceFirst(a + b, pat, rep) == a + ReplaceFirst(b, pat, rep)
  {
    ReplaceAt(b, pat, rep, j);
    ReplaceAt(a + b, pat, rep, |a| + j);
    SpliceRight(a, b, j, |pat|, rep);
  }

  /** For a one-character pattern, `includes` is sequence membership. */
  lemma ContainsChar(s: string, c: char)
    ensures Contains(s, [c]) <==> c in s
  {
    if c in s {
      var i :| 0 <= i < |s| && s[i] == c;
      assert OccursAt(s, [c], i);
    }
    if Contains(s, [c]) {
      var i := IndexOf(s, [c]).value;
      assert s[i..i + 1][0] == c;
    }
  }

  /** A pattern holding a character that `s` lacks does not occur in `s`. */
  lemma MissingChar(s: string, pat: string, m: nat)
    requires m < |pat| && pat[m] !in s
    ensures !Contains(s, pat)
  {
    forall i | 0 <= i && i + |pat| <= |s| ensures !OccursAt(s, pat, i) {
      assert s[i..i + |pat|][m] == s[i + m];
    }
  }

  /** A window lying inside `a` holds no `pat` when `a` holds none. */
  lemma NoOccurrenceLeft(a: string, b: string, pat: string, k: int)
    requires !Contains(a, pat) && 0 <= k && k + |pat| <= |a|
    ensures !OccursAt(a + b, pat, k)
  {
    assert (a + b)[k..k + |pat|] == a[k..k + |pat|];
    assert !OccursAt(a, pat, k);
  }

  /** A window lying inside `b` holds no `pat` when `b` holds none. */
  lemma NoOccurrenceRight(a: string, b: string, pat: string, k: int)
    requires !Contains(b, pat) && |a| <= k
    ensures !OccursAt(a + b, pat, k)
  {
    if k + |pat| <= |a + b| {
      assert (a + b)[k..k + |pat|] == b[k - |a|..k - |a| + |pat|];
      assert !OccursAt(b, pat, k - |a|);
    }
  }

  /** A window holding a character that `pat` lacks is no occurrence. */
  lemma CharBlocks(t: string, pat: string, k: int, m: int)
    requires 0 <= k <= m < k + |pat| <= |t| && t[m] !in pat
    ensures !OccursAt(t, pat, k)
  {
    assert t[k..k + |pat|][m - k] == t[m];
  }

  /** `s.split(sep)[0]`: the text before the first `sep`, or all of `s`.
      (A non-empty separator: JavaScript splits on `""` character by character.) */
  function BeforeFirst(s: string, sep: string): (r: string)
    requires |sep| > 0
    ensures IsPrefix(r, s)
    ensures !Contains(r, sep)
    ensures r == s || OccursAt(s, sep, |r|)
    ensures r != s ==> FirstOccurrence(s, sep, |r|)
  {
    match IndexOf(s, sep)
    case None => s
    case Some(i) =>
      var r := s[..i];
      assert !Contains(r, sep) by {
        if Contains(r, sep) {
          OccursInPrefix(s, i, sep, IndexOf(r, sep).value);
        }
      }
      r
  }

  lemma BeforeFirstAbsent(s: string, sep: string)
    requires |sep| > 0 && !Contains(s, sep)
    ensures BeforeFirst(s, sep) == s
  {
    var r := BeforeFirst(s, sep);
    if r != s {
      ContainsAt(s, sep, |r|);
    }
  }

  /** `s.replace(pat, rep)` with a string pattern: only the leftmost
      occurrence of `pat` is replaced. `rep` is inserted literally: the
      replacement patterns `$&`, `$1`, `$$` and the like are not modelled
      (the replacements used here hold no `$`). */
  function ReplaceFirst(s: string, pat: string, rep: string): (r: string)
    ensures !Contains(s, pat) ==> r == s
    ensures Contains(s, pat) ==>
      exists i :: FirstOccurrence(s, pat, i) && r == s[..i] + rep + s[i + |pat|..]
  {
    match IndexOf(s, pat)
    case None => s
    case Some(i) => s[..i] + rep + s[i + |pat|..]
  }

  /** The characters JavaScript's `\s` matches and `trim()` removes: the
      ECMAScript WhiteSpace and LineTerminator productions. */
  predicate IsJsSpace(c: char) {
    var n := c as int;
    n == 0x09 || n == 0x0A || n == 0x0B || n == 0x0C || n == 0x0D || n == 0x20
    || n == 0xA0 || n == 0x1680 || (0x2000 <= n <= 0x200A) || n == 0x2028
    || n == 0x2029 || n == 0x202F || n == 0x205F || n == 0x3000 || n == 0xFEFF
  }

  predicate NoSpace(s: string) {
    forall i :: 0 <= i < |s| ==> !IsJsSpace(s[i])
  }

  /** The length of the whitespace run that starts `s`. */
  function LeadingSpaces(s: string): (n: nat)
    ensures n <= |s|
    ensures forall i :: 0 <= i < n ==> IsJsSpace(s[i])
    ensures n < |s| ==> !IsJsSpace(s[n])
  {
    if s != [] && IsJsSpace(s[0]) then 1 + LeadingSpaces(s[1..]) else 0
  }

  /** The length of the whitespace run that ends `s`. */
  function TrailingSpaces(s: string): (n: nat)
    ensures n <= |s|
    ensures forall i :: |s| - n <= i < |s| ==> IsJsSpace(s[i])
    ensures n < |s| ==> !IsJsSpace(s[|s| - n - 1])
  {
    if s != [] && IsJsSpace(s[|s| - 1]) then 1 + TrailingSpaces(s[..|s| - 1]) else 0
  }

  /** `s.trimStart()`: `s` without its leading whitespace. */
  function TrimStart(s: string): (r: string)
    ensures |r| <= |s| && r == s[|s| - |r|..]
    ensures r != [] ==> !IsJsSpace(r[0])
    ensures forall i :: 0 <= i < |s| - |r| ==> IsJsSpace(s[i])
  {
    s[LeadingSpaces(s)..]
  }

  /** `s.trim()`: the longest infix of `s` that neither starts nor ends with
      whitespace, everything cut off being whitespace. */
  function Trim(s: string): (r: string)
    ensures exists i, j ::
              && 0 <= i <= j <= |s| && r == s[i..j]
              && (forall k :: 0 <= k < i ==> IsJsSpace(s[k]))
              && (forall k :: j <= k < |s| ==> IsJsSpace(s[k]))
    ensures r != [] ==> !IsJsSpace(r[0]) && !IsJsSpace(r[|r| - 1])
  {
    var i := LeadingSpaces(s);
    var n := TrailingSpaces(s[i..]);
    CutTrailing(s, i, n);
    s[i..|s| - n]
  }

  /** The trailing run of the suffix after the leading run lies at the end
      of `s` itself. */
  lemma CutTrailing(s: string, i: nat, n: nat)
    requires i <= |s| && n <= |s| - i
    requires i < |s| ==> !IsJsSpace(s[i])
    requires forall k :: |s| - i - n <= k < |s| - i ==> IsJsSpace(s[i..][k])
    requires n < |s| - i ==> !IsJsSpace(s[i..][|s| - i - n - 1])
    ensures forall k :: |s| - n <= k < |s| ==> IsJsSpace(s[k])
    ensures var r := s[i..|s| - n];
            r != [] ==> !IsJsSpace(r[0]) && !IsJsSpace(r[|r| - 1])
  {
    forall k | |s| - n <= k < |s| ensures IsJsSpace(s[k]) {
      assert s[k] == s[i..][k - i];
    }
    var r := s[i..|s| - n];
    if r != [] {
      assert r[0] == s[i];
      assert r[|r| - 1] == s[i..][|s| - i - n - 1];
    }
  }

  /** A string neither starting nor ending with whitespace is its own trim. */
  lemma TrimUntouched(s: string)
    requires s != [] ==> !IsJsSpace(s[0]) && !IsJsSpace(s[|s| - 1])
    ensures Trim(s) == s
  {
    assert LeadingSpaces(s) == 0;
    assert TrailingSpaces(s) == 0;
  }

  /** Past a leading whitespace character, trimming the start goes on from
      the next one. */
  lemma TrimStartStep(s: string)
    requires s != [] && IsJsSpace(s[0])
    ensures TrimStart(s) == TrimStart(s[1..])
  {
    assert s[1..][LeadingSpaces(s[1..])..] == s[1 + LeadingSpaces(s[1..])..];
  }

  /** A string free of whitespace is its own trim. */
  lemma TrimNoSpace(s: string)
    requires NoSpace(s)
    ensures Trim(s) == s
  {
    if s != [] {
      assert !IsJsSpace(s[0]) && !IsJsSpace(s[|s| - 1]);
    }
    TrimUntouched(s);
  }

  /** Trimming twice is trimming once. */
  lemma TrimIdempotent(s: string)
    ensures Trim(Trim(s)) == Trim(s)
  {
    TrimUntouched(Trim(s));
  }

  predicate IsDigit(c: char) {
    '0' as int <= c as int <= '9' as int
  }

  function DigitChar(d: nat): (c: char)
    requires d < 10
    ensures IsDigit(c) && (c as int) - ('0' as int) == d
  {
    ('0' as int + d) as char
  }

  /** The value of a string of decimal digits. */
  function DigitsValue(s: string): nat
    requires forall i :: 0 <= i < |s| ==> IsDigit(s[i])
  {
    if s == [] then 0
    else
      var c := s[|s| - 1];
      assert IsDigit(c);
      10 * DigitsValue(s[..|s| - 1]) + ((c as int) - ('0' as int))
  }

  /** `n.toString()` for a non-negative integer: its shortest decimal form. */
  function NatToString(n: nat): (r: string)
    ensures |r| > 0 && forall i :: 0 <= i < |r| ==> IsDigit(r[i])
    ensures |r| > 1 ==> r[0] != '0'
  {
    if n < 10 then [DigitChar(n)] else NatToString(n / 10) + [DigitChar(n % 10)]
  }

  /** Reading the decimal form back gives the number. */
  lemma {:induction false} NatToStringRoundTrip(n: nat)
    ensures DigitsValue(NatToString(n)) == n
  {
    var r := NatToString(n);
    if n >= 10 {
      NatToStringRoundTrip(n / 10);
      assert r[..|r| - 1] == NatToString(n / 10);
    }
  }
}
