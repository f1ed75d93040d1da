/** The fault flash: 1500 ms on, 150 off, 200 on, 150 off, repeated. */
module FaultPattern {

  const FAULT_CYCLE_MS: nat := 2000
  const FAULT_ON1_MS: nat := 1500
  const FAULT_OFF1_MS: nat := 150
  const FAULT_ON2_MS: nat := 200

  function FaultLevel(elapsed: nat): bool {
    var t := elapsed % FAULT_CYCLE_MS;
    var firstDarkEnd := FAULT_ON1_MS + FAULT_OFF1_MS;
    t < FAULT_ON1_MS || firstDarkEnd <= t < firstDarkEnd + FAULT_ON2_MS
  }

  /** The light goes out between this millisecond and the next. */
  function Falls(t: nat): bool {
    FaultLevel(t) && !FaultLevel(t + 1)
  }

  /** The level differs from the millisecond before. */
  function Changes(t: nat): bool {
    t > 0 && FaultLevel(t) != FaultLevel(t - 1)
  }

  // ---- Counting over windows ----

  /** What is counted: lit milliseconds, falling edges, changes. */
  datatype Feature = Lit | Fall | Change

  predicate At(f: Feature, t: nat) {
    match f
    case Lit => FaultLevel(t)
    case Fall => Falls(t)
    case Change => Changes(t)
  }

  /** How many of the `n` milliseconds from `a` on have the feature. */
  function Count(f: Feature, a: nat, n: nat): nat {
    if n == 0 then 0 else Count(f, a, n - 1) + if At(f, a + n - 1) then 1 else 0
  }

  lemma {:induction false} CountSplit(f: Feature, a: nat, m: nat, n: nat)
    ensures Count(f, a, m + n) == Count(f, a, m) + Count(f, a + m, n)
  {
    hide At;
    if n > 0 {
      CountSplit(f, a, m, n - 1);
    }
  }

  lemma {:induction false} CountRun(f: Feature, a: nat, n: nat, value: bool)
    requires forall k: nat :: a <= k < a + n ==> At(f, k) == value
    ensures Count(f, a, n) == if value then n else 0
  {
    hide At;
    if n > 0 {
      CountRun(f, a, n - 1, value);
    }
  }

  lemma OneCycleOn(t: nat)
    ensures FaultLevel(t + FAULT_CYCLE_MS) == FaultLevel(t)
  {
    SamePhase(t);
  }

  lemma SamePhase(t: nat)
    ensures (t + FAULT_CYCLE_MS) % FAULT_CYCLE_MS == t % FAULT_CYCLE_MS
  {
  }

  lemma Repeats(f: Feature, t: nat)
    requires f != Change
    ensures At(f, t + FAULT_CYCLE_MS) == At(f, t)
  {
    hide FaultLevel;
    OneCycleOn(t);
    OneCycleOn(t + 1);
  }

  /** A window of one cycle counts the same wherever it starts. */
  lemma {:induction false} CountAnywhere(f: Feature, a: nat)
    requires f != Change
    ensures Count(f, a, FAULT_CYCLE_MS) == Count(f, 0, FAULT_CYCLE_MS)
  {
    hide At;
    if a > 0 {
      var b := a - 1;
      CountAnywhere(f, b);
      CountSplit(f, b, 1, FAULT_CYCLE_MS);
      CountSplit(f, b, FAULT_CYCLE_MS, 1);
      Repeats(f, b);
      assert Count(f, b, 1) == Count(f, b, 0) + if At(f, b) then 1 else 0;
      var c := b + FAULT_CYCLE_MS;
      assert Count(f, c, 1) == Count(f, c, 0) + if At(f, c) then 1 else 0;
    }
  }

  lemma {:induction false} CountCycles(f: Feature, a: nat, k: nat)
    requires f != Change
    ensures Count(f, a, FAULT_CYCLE_MS * k) == Count(f, 0, FAULT_CYCLE_MS) * k
  {
    hide At, Count;
    if k > 0 {
      var before := FAULT_CYCLE_MS * (k - 1);
      CountCycles(f, a, k - 1);
      CountSplit(f, a, before, FAULT_CYCLE_MS);
      CountAnywhere(f, a + before);
      assert Count(f, 0, FAULT_CYCLE_MS) * k == Count(f, 0, FAULT_CYCLE_MS) * (k - 1) + Count(f, 0, FAULT_CYCLE_MS);
    } else {
      NothingCounted(f, a);
    }
  }

  lemma NothingCounted(f: Feature, a: nat)
    ensures Count(f, a, 0) == 0
  {
  }

  lemma CycleLit()
    ensures Count(Lit, 0, 2000) == 1700
  {
    hide Count;
    CountRun(Lit, 0, 1500, true);
    CountRun(Lit, 1500, 150, false);
    CountRun(Lit, 1650, 200, true);
    CountRun(Lit, 1850, 150, false);
    CountSplit(Lit, 0, 1500, 150);
    CountSplit(Lit, 0, 1650, 200);
    CountSplit(Lit, 0, 1850, 150);
  }

  lemma CycleFalls()
    ensures Count(Fall, 0, 2000) == 2
  {
    hide Count;
    CountRun(Fall, 0, 1499, false);
    CountRun(Fall, 1499, 1, true);
    CountRun(Fall, 1500, 349, false);
    CountRun(Fall, 1849, 1, true);
    CountRun(Fall, 1850, 150, false);
    CountSplit(Fall, 0, 1499, 1);
    CountSplit(Fall, 0, 1500, 349);
    CountSplit(Fall, 0, 1849, 1);
    CountSplit(Fall, 0, 1850, 150);
  }

  /** Any window of whole cycles, at any offset, is lit 85% of the time and goes dark once a second. */
  lemma WindowShare(a: nat, k: nat)
    ensures Count(Lit, a, FAULT_CYCLE_MS * k) == 1700 * k
    ensures Count(Fall, a, FAULT_CYCLE_MS * k) == 2 * k
  {
    hide Count, At;
    CountCycles(Lit, a, k);
    CountCycles(Fall, a, k);
    CycleLit();
    CycleFalls();
  }

  /** Times of the same cycle differ by what their phases differ. */
  lemma InCycle(t: nat, k: nat)
    requires t - t % FAULT_CYCLE_MS <= k < t - t % FAULT_CYCLE_MS + FAULT_CYCLE_MS
    ensures k % FAULT_CYCLE_MS == k - (t - t % FAULT_CYCLE_MS)
  {
  }

  lemma CycleEnds(t: nat)
    ensures (t - t % FAULT_CYCLE_MS + FAULT_CYCLE_MS) % FAULT_CYCLE_MS == 0
  {
  }

  /** Where the pattern changes within its cycle. */
  function ChangeAfter(r: nat): (c: nat)
    requires r < FAULT_CYCLE_MS
    ensures r < c <= FAULT_CYCLE_MS
  {
    if r < 1500 then 1500 else if r < 1650 then 1650 else if r < 1850 then 1850 else 2000
  }

  /** The next change after a moment: at most 1500 ms away while lit, at most 150 ms while dark. */
  function NextChange(t: nat): (n: nat)
    ensures t < n <= t + (if FaultLevel(t) then 1500 else 150)
    ensures Changes(n)
    ensures forall k :: t <= k < n ==> FaultLevel(k) == FaultLevel(t)
  {
    var start := t - t % FAULT_CYCLE_MS;
    var n := start + ChangeAfter(t % FAULT_CYCLE_MS);
    assert Changes(n) by {
      InCycle(t, n - 1);
      CycleEnds(t);
      if n < start + FAULT_CYCLE_MS {
        InCycle(t, n);
      }
    }
    assert forall k :: t <= k < n ==> FaultLevel(k) == FaultLevel(t) by {
      forall k | t <= k < n ensures FaultLevel(k) == FaultLevel(t) {
        InCycle(t, k);
      }
    }
    n
  }

  lemma ChangePhase(t: nat)
    requires Changes(t)
    ensures t % FAULT_CYCLE_MS in {0, 1500, 1650, 1850}
  {
    if t % FAULT_CYCLE_MS > 0 {
      InCycle(t, t - 1);
    }
  }

  /** Two changes are at least 150 ms apart. */
  lemma ChangesApart(s: nat, t: nat)
    requires Changes(s) && Changes(t) && s < t
    ensures t - s >= 150
  {
    hide Changes;
    ChangePhase(s);
    ChangePhase(t);
    var a, b := s - s % FAULT_CYCLE_MS, t - t % FAULT_CYCLE_MS;
    assert a < b ==> a + FAULT_CYCLE_MS <= b by {
      if a < b < a + FAULT_CYCLE_MS {
        InCycle(s, b);
      }
    }
  }

  // ---- What a pin driven now and then shows ----

  /** Between two looks at most 150 ms apart the level changes at most once, so comparing the ends misses nothing. */
  lemma {:induction false} OneChange(a: nat, n: nat)
    requires n <= 150
    ensures Count(Change, a + 1, n) == if FaultLevel(a) != FaultLevel(a + n) then 1 else 0
  {
    if n > 0 {
      OneChange(a, n - 1);
      if Changes(a + n) && FaultLevel(a) != FaultLevel(a + n - 1) {
        var first := NextChange(a);
        ChangesApart(first, a + n);
      }
    }
  }

  ghost predicate DriveTimes(ts: seq<nat>, gap: nat) {
    forall i :: 0 <= i < |ts| - 1 ==> ts[i] <= ts[i + 1] <= ts[i] + gap
  }

  /** How often a pin that is written only on change gets written, driven at these times into the pattern. */
  function Writes(ts: seq<nat>): nat {
    if |ts| <= 1 then 0
    else Writes(ts[..|ts| - 1]) + if FaultLevel(ts[|ts| - 2]) != FaultLevel(ts[|ts| - 1]) then 1 else 0
  }

  /** Driven at most 150 ms apart, the pin is written once for every change of the pattern: no phase is skipped. */
  lemma {:induction false} NoPhaseSkipped(ts: seq<nat>)
    requires ts != [] && DriveTimes(ts, 150)
    ensures ts[0] <= ts[|ts| - 1]
    ensures Writes(ts) == Count(Change, ts[0] + 1, ts[|ts| - 1] - ts[0])
  {
    if |ts| > 1 {
      var init, last, now := ts[..|ts| - 1], ts[|ts| - 2], ts[|ts| - 1];
      NoPhaseSkipped(init);
      OneChange(last, now - last);
      CountSplit(Change, ts[0] + 1, last - ts[0], now - last);
    }
  }

  /** One millisecond more and a dark phase can go by unseen. */
  lemma WiderGapSkips()
    ensures DriveTimes([1499, 1650], 151) && Writes([1499, 1650]) == 0 && Count(Change, 1500, 151) == 2
  {
    CountRun(Change, 1500, 1, true);
    CountRun(Change, 1501, 149, false);
    CountRun(Change, 1650, 1, true);
    CountSplit(Change, 1500, 1, 149);
    CountSplit(Change, 1500, 150, 1);
    assert [1499, 1650][..1] == [1499];
  }
}
