/** The infinite-scroll loop run on every target page before extraction
    (youtubeScraperMain.ts). Each iteration scrolls, waits, and samples the
    page height before and after and the number of content elements; the
    samples form a finite trace. Scrolling, delays and the DOM are not
    modelled, only the stagnation counter and the stopping rule. */
module Scroll {

  const MaxScrollAttempts: nat := 5

  /** What one iteration observes: `scrollHeight` before the scrolls, after
      the settle delay, and the matched-element count. */
  datatype Sample = Sample(heightBefore: int, heightAfter: int, count: int)

  /** `scrollAttempts` and the stored `itemCount`. */
  datatype ScrollState = ScrollState(attempts: nat, itemCount: int)

  const Initial := ScrollState(0, 0)

  /** The page neither grew nor gained elements since the stored count. */
  predicate Stagnant(st: ScrollState, s: Sample) {
    s.heightAfter == s.heightBefore && s.count == st.itemCount
  }

  /** One iteration's bookkeeping: count a stagnant attempt, or reset the
      counter and store the new element count. */
  function Step(st: ScrollState, s: Sample): ScrollState {
    if Stagnant(st, s) then ScrollState(st.attempts + 1, st.itemCount)
    else ScrollState(0, s.count)
  }

  /** Sample `j` repeats its predecessor: the page did not grow during
      iteration `j`, and it shows as many elements as the sample before it
      (as the initial stored count 0, for the first sample). */
  predicate Repeats(trace: seq<Sample>, j: nat)
    requires j < |trace|
  {
    && trace[j].heightAfter == trace[j].heightBefore
    && trace[j].count == (if j == 0 then 0 else trace[j - 1].count)
  }

  /** The state after the first `n` samples of the trace, characterised by
      the trace alone: the stored count is the latest sample's, and the
      counter is the length of the longest run of repeating samples that
      ends the prefix. */
  function StateAfter(trace: seq<Sample>, n: nat): (r: ScrollState)
    requires n <= |trace|
    ensures r.itemCount == (if n == 0 then 0 else trace[n - 1].count)
    ensures r.attempts <= n
    ensures forall j :: n - r.attempts <= j < n ==> Repeats(trace, j)
    ensures r.attempts < n ==> !Repeats(trace, n - r.attempts - 1)
  {
    if n == 0 then Initial else Step(StateAfter(trace, n - 1), trace[n - 1])
  }

  /** Every sample of `trace[from..to]` is flat with element count `c`. */
  predicate FlatWithCount(trace: seq<Sample>, from: int, to: int, c: int)
    requires 0 <= from <= to <= |trace|
  {
    forall j :: from <= j < to ==> trace[j].heightAfter == trace[j].heightBefore && trace[j].count == c
  }

  /** The counter is the length of the current run of stagnant samples: the
      last `attempts` samples are flat and show the stored element count. */
  lemma {:induction false} CounterIsStagnantRun(trace: seq<Sample>, n: nat)
    requires n <= |trace|
    ensures var st := StateAfter(trace, n);
            st.attempts <= n && FlatWithCount(trace, n - st.attempts, n, st.itemCount)
  {
    if n > 0 {
      CounterIsStagnantRun(trace, n - 1);
    }
  }

  /** Conversely, `k` flat samples that repeat the stored count after a
      state `st` raise the counter by exactly `k`. */
  lemma {:induction false} StagnantRunCounts(trace: seq<Sample>, m: nat, k: nat)
    requires m + k <= |trace|
    requires FlatWithCount(trace, m, m + k, StateAfter(trace, m).itemCount)
    ensures StateAfter(trace, m + k)
            == ScrollState(StateAfter(trace, m).attempts + k, StateAfter(trace, m).itemCount)
  {
    if k > 0 {
      StagnantRunCounts(trace, m, k - 1);
    }
  }

  /** The `while` loop: it runs while fewer than `MaxScrollAttempts`
      stagnant attempts were counted and the items accumulated from earlier
      targets are below `maxItems` (that count does not change inside the
      loop, so the `break` at its end never fires on its own). It also stops
      when the trace ends. */
  method ScrollLoop(trace: seq<Sample>, accumulated: nat, maxItems: int)
    returns (iterations: nat, st: ScrollState)
    ensures iterations <= |trace| && st == StateAfter(trace, iterations)
    ensures accumulated >= maxItems ==> iterations == 0
    ensures accumulated < maxItems ==> iterations == |trace| || st.attempts == MaxScrollAttempts
    ensures forall k :: 0 <= k < iterations ==> StateAfter(trace, k).attempts < MaxScrollAttempts
    ensures st.attempts == MaxScrollAttempts ==>
              iterations >= MaxScrollAttempts
              && FlatWithCount(trace, iterations - MaxScrollAttempts, iterations, st.itemCount)
  {
    iterations := 0;
    st := Initial;
    while st.attempts < MaxScrollAttempts && accumulated < maxItems && iterations < |trace|
      invariant iterations <= |trace| && st == StateAfter(trace, iterations)
      invariant st.attempts <= MaxScrollAttempts
      invariant accumulated >= maxItems ==> iterations == 0
      invariant forall k :: 0 <= k < iterations ==> StateAfter(trace, k).attempts < MaxScrollAttempts
      decreases |trace| - iterations
    {
      st := Step(st, trace[iterations]);
      iterations := iterations + 1;
    }
    CounterIsStagnantRun(trace, iterations);
  }

  /** On a page that never changes (every sample `Sample(h, h, c)`), the
      counter climbs by one per iteration after at most one reset, so the
      loop stops after exactly five stagnant iterations: five in all when
      the page shows no elements, six otherwise (the first sample differs
      from the initial stored count of 0). */
  lemma ConstantPageStops(trace: seq<Sample>, h: int, c: int)
    requires forall j :: 0 <= j < |trace| ==> trace[j] == Sample(h, h, c)
    requires |trace| >= MaxScrollAttempts + 1
    ensures var n := if c == 0 then MaxScrollAttempts else MaxScrollAttempts + 1;
            && StateAfter(trace, n).attempts == MaxScrollAttempts
            && forall k :: 0 <= k < n ==> StateAfter(trace, k).attempts < MaxScrollAttempts
  {
    var first := if c == 0 then 0 else 1;
    assert StateAfter(trace, first) == ScrollState(0, c);
    forall k | first <= k <= first + MaxScrollAttempts
      ensures StateAfter(trace, k) == ScrollState(k - first, c)
    {
      StagnantRunCounts(trace, first, k - first);
    }
  }
}
