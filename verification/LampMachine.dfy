/** The fact-to-lamp machine, proved equal to a closed form over everything applied to it. */
module LampControl {
  import opened FaultPattern

  const LEASH_TIMEOUT_MS: nat := 30_000

  datatype BeamFact = Intact | Broken

  datatype LampEvent = Fact(fact: BeamFact) | LinkDown | Tick

  /** An event and the time it was applied. */
  datatype Applied = Applied(event: LampEvent, at: nat)

  function SaturatingSub(a: nat, b: nat): nat {
    if a < b then 0 else a - b
  }

  // ---- The closed form ----

  /** One past the index of the last fact; 0 when there is none. */
  function FactEnd(h: seq<Applied>): (n: nat)
    ensures n <= |h|
    ensures n > 0 ==> h[n - 1].event.Fact?
    ensures forall i :: n <= i < |h| ==> !h[i].event.Fact?
  {
    if h == [] then 0
    else if h[|h| - 1].event.Fact? then |h|
    else FactEnd(h[..|h| - 1])
  }

  /** One past the index of the last link-down; 0 when there is none. */
  function DownEnd(h: seq<Applied>): (n: nat)
    ensures n <= |h|
    ensures n > 0 ==> h[n - 1].event.LinkDown?
    ensures forall i :: n <= i < |h| ==> !h[i].event.LinkDown?
  {
    if h == [] then 0
    else if h[|h| - 1].event.LinkDown? then |h|
    else DownEnd(h[..|h| - 1])
  }

  /** Entry `j` is a tick at least a leash after the last fact. */
  predicate Trips(h: seq<Applied>, j: nat) {
    && FactEnd(h) > 0 && FactEnd(h) <= j < |h|
    && h[j].event.Tick? && SaturatingSub(h[j].at, h[FactEnd(h) - 1].at) >= LEASH_TIMEOUT_MS
  }

  /** The state is unknown unless there is a fact with no link-down and no tripping tick after it. */
  predicate Faulted(h: seq<Applied>) {
    FactEnd(h) == 0 || DownEnd(h) > FactEnd(h) || exists j :: 0 <= j < |h| && Trips(h, j)
  }

  /** Where the flash pattern counts from: the last link-down since the last fact, else the first tripping tick
      since then, else boot. */
  ghost predicate CountsFrom(h: seq<Applied>, since: nat) {
    if DownEnd(h) > FactEnd(h) then since == h[DownEnd(h) - 1].at
    else if FactEnd(h) == 0 then since == 0
    else exists j :: 0 <= j < |h| && Trips(h, j) && since == h[j].at && forall i :: 0 <= i < j ==> !Trips(h, i)
  }

  /** The lamp level the history calls for at `now`. */
  ghost predicate Shows(h: seq<Applied>, now: nat, lit: bool) {
    if Faulted(h) then exists since :: CountsFrom(h, since) && lit == FaultLevel(SaturatingSub(now, since))
    else lit == h[FactEnd(h) - 1].event.fact.Broken?
  }

  // ---- One more event ----

  lemma EndsAdded(h: seq<Applied>, a: Applied)
    ensures FactEnd(h + [a]) == if a.event.Fact? then |h| + 1 else FactEnd(h)
    ensures DownEnd(h + [a]) == if a.event.LinkDown? then |h| + 1 else DownEnd(h)
  {
  }

  lemma UnfaultedIsLive(h: seq<Applied>)
    ensures !Faulted(h) ==> FactEnd(h) > DownEnd(h)
  {
  }

  lemma LastFactStays(h: seq<Applied>, a: Applied)
    requires !a.event.Fact?
    ensures FactEnd(h + [a]) == FactEnd(h)
    ensures FactEnd(h) > 0 ==> (h + [a])[FactEnd(h) - 1] == h[FactEnd(h) - 1]
    ensures DownEnd(h + [a]) == if a.event.LinkDown? then |h| + 1 else DownEnd(h)
  {
  }

  lemma TripsAdded(h: seq<Applied>, a: Applied)
    requires !a.event.Fact?
    ensures forall j :: 0 <= j < |h| ==> Trips(h + [a], j) == Trips(h, j)
    ensures Trips(h + [a], |h|) <==>
            FactEnd(h) > 0 && a.event.Tick? && SaturatingSub(a.at, h[FactEnd(h) - 1].at) >= LEASH_TIMEOUT_MS
  {
    hide FactEnd, DownEnd;
    LastFactStays(h, a);
  }

  lemma FactClears(h: seq<Applied>, a: Applied)
    requires a.event.Fact?
    ensures !Faulted(h + [a])
  {
  }

  lemma DownFaults(h: seq<Applied>, a: Applied)
    requires a.event.LinkDown?
    ensures Faulted(h + [a]) && CountsFrom(h + [a], a.at)
  {
  }

  /** A tick never clears a fault or moves its start; it raises one exactly when it trips. */
  lemma TickEffect(h: seq<Applied>, a: Applied, since: nat)
    requires a.event.Tick?
    requires Faulted(h) ==> CountsFrom(h, since)
    ensures Faulted(h + [a]) <==> Faulted(h) || Trips(h + [a], |h|)
    ensures Faulted(h + [a]) ==> CountsFrom(h + [a], if Faulted(h) then since else a.at)
  {
    var all := h + [a];
    EndsAdded(h, a);
    TripsAdded(h, a);
    if Faulted(h) {
      if !(DownEnd(h) > FactEnd(h)) && FactEnd(h) > 0 {
        var j :| 0 <= j < |h| && Trips(h, j) && since == h[j].at && forall i :: 0 <= i < j ==> !Trips(h, i);
        assert Trips(all, j) && all[j].at == since;
      }
    } else if Faulted(all) {
      assert Trips(all, |h|) && all[|h|].at == a.at;
    }
  }

  /** However many ticks follow, a fault stays and its pattern goes on counting from where it did. */
  lemma {:induction false} TicksKeepPattern(h: seq<Applied>, ticks: seq<Applied>, since: nat)
    requires Faulted(h) && CountsFrom(h, since)
    requires forall i :: 0 <= i < |ticks| ==> ticks[i].event.Tick?
    ensures Faulted(h + ticks) && CountsFrom(h + ticks, since)
  {
    hide Faulted, CountsFrom, Trips;
    if ticks == [] {
      assert h + ticks == h;
    } else {
      var init, last := ticks[..|ticks| - 1], ticks[|ticks| - 1];
      TicksKeepPattern(h, init, since);
      TickEffect(h + init, last, since);
      assert h + init + [last] == h + ticks;
    }
  }

  /** The start of the pattern is determined by the history. */
  lemma CountsUnique(h: seq<Applied>, s: nat, t: nat)
    requires Faulted(h) && CountsFrom(h, s) && CountsFrom(h, t)
    ensures s == t
  {
    hide FactEnd, DownEnd;
    if DownEnd(h) <= FactEnd(h) && FactEnd(h) > 0 {
      var i :| 0 <= i < |h| && Trips(h, i) && s == h[i].at && forall k :: 0 <= k < i ==> !Trips(h, k);
      var j :| 0 <= j < |h| && Trips(h, j) && t == h[j].at && forall k :: 0 <= k < j ==> !Trips(h, k);
      assert i == j;
    }
  }

  // ---- The machine ----

  class LampMachine {
    var fault: bool
    var fact: BeamFact
    var live: bool
    var lastWriteMs: nat
    var faultSinceMs: nat

    /** Everything applied so far. */
    ghost var history: seq<Applied>

    ghost predicate Valid()
      reads this
    {
      && fault == Faulted(history)
      && live == (FactEnd(history) > DownEnd(history))
      && (FactEnd(history) > 0 ==> var last := history[FactEnd(history) - 1]; fact == last.event.fact && lastWriteMs == last.at)
      && (fault ==> CountsFrom(history, faultSinceMs))
    }

    constructor ()
      ensures Valid() && history == []
    {
      fault, fact, live, lastWriteMs, faultSinceMs := true, Intact, false, 0, 0;
      history := [];
    }

    method OnFact(beam: BeamFact, now: nat)
      requires Valid()
      modifies this
      ensures Valid() && history == old(history) + [Applied(Fact(beam), now)]
    {
      hide FactEnd, DownEnd, Faulted, CountsFrom, Trips;
      EndsAdded(history, Applied(Fact(beam), now));
      FactClears(history, Applied(Fact(beam), now));
      history := history + [Applied(Fact(beam), now)];
      fact := beam;
      fault := false;
      live := true;
      lastWriteMs := now;
    }

    method OnLinkDown(now: nat)
      requires Valid()
      modifies this
      ensures Valid() && history == old(history) + [Applied(LinkDown, now)]
    {
      hide FactEnd, DownEnd, Faulted, CountsFrom, Trips;
      LastFactStays(history, Applied(LinkDown, now));
      DownFaults(history, Applied(LinkDown, now));
      history := history + [Applied(LinkDown, now)];
      live := false;
      fault := true;
      faultSinceMs := now;
    }

    method OnTick(now: nat)
      requires Valid()
      modifies this
      ensures Valid() && history == old(history) + [Applied(Tick, now)]
    {
      hide FactEnd, DownEnd, Faulted, CountsFrom, Trips;
      UnfaultedIsLive(history);
      LastFactStays(history, Applied(Tick, now));
      TripsAdded(history, Applied(Tick, now));
      TickEffect(history, Applied(Tick, now), faultSinceMs);
      history := history + [Applied(Tick, now)];
      if !fault && live && SaturatingSub(now, lastWriteMs) >= LEASH_TIMEOUT_MS {
        fault := true;
        faultSinceMs := now;
      }
    }

    /** `apply`: dispatch to the handler. */
    method Apply(event: LampEvent, now: nat)
      requires Valid()
      modifies this
      ensures Valid() && history == old(history) + [Applied(event, now)]
    {
      match event
      case Fact(beam) => OnFact(beam, now);
      case LinkDown => OnLinkDown(now);
      case Tick => OnTick(now);
    }

    /** `level`: what the whole history calls for at `now`. */
    method Level(now: nat) returns (lit: bool)
      requires Valid()
      ensures Shows(history, now, lit)
      ensures fault == Faulted(history)
    {
      if fault {
        lit := FaultLevel(SaturatingSub(now, faultSinceMs));
      } else {
        lit := fact.Broken?;
      }
    }
  }

  /** The start of the pattern, hence the level, is determined by the history. */
  lemma ShowsUnique(h: seq<Applied>, now: nat, a: bool, b: bool)
    requires Shows(h, now, a) && Shows(h, now, b)
    ensures a == b
  {
  }

  // ---- The leash ----

  predicate Monotone(h: seq<Applied>) {
    forall i, j :: 0 <= i < j < |h| ==> h[i].at <= h[j].at
  }

  /** From the last fact on, ticks are applied at most `d` ms apart: every stretch of `d` ms that has ended by `now`
      holds one. */
  ghost predicate TicksDense(h: seq<Applied>, now: nat, d: nat) {
    FactEnd(h) > 0 ==>
      forall x: nat, y: nat :: h[FactEnd(h) - 1].at < x && y == x + d <= now ==> TickWithin(h, x, y)
  }

  ghost predicate TickWithin(h: seq<Applied>, lo: nat, hi: nat) {
    exists j :: 0 <= j < |h| && h[j].event.Tick? && lo <= h[j].at <= hi
  }

  /** However many posts were lost on the way, a fact is never shown for longer than the leash plus the tick gap. */
  lemma StaleFactBound(h: seq<Applied>, now: nat, d: nat)
    requires Monotone(h) && TicksDense(h, now, d) && !Faulted(h)
    ensures FactEnd(h) > 0 && now < h[FactEnd(h) - 1].at + LEASH_TIMEOUT_MS + d
  {
    var f := FactEnd(h) - 1;
    var x := h[f].at + LEASH_TIMEOUT_MS;
    if x + d <= now {
      assert TickWithin(h, x, x + d);
      var j :| 0 <= j < |h| && h[j].event.Tick? && x <= h[j].at <= x + d;
      assert j > f;
      assert Trips(h, j);
    }
  }
}
