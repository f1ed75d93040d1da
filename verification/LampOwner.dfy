/** The bounded event queue and the one task that owns the lamp pin. */
module LampOwner {
  import opened FaultPattern
  import opened LampControl

  const QUEUE_SLOTS: nat := 8

  /** What a `try_send` leaves in the queue: the event at the end, or nothing changed when all slots are taken. */
  function Sent(queue: seq<LampEvent>, event: LampEvent): seq<LampEvent> {
    if |queue| < QUEUE_SLOTS then queue + [event] else queue
  }

  /** The eight-slot channel: first in, first out, lossy at the sending end. */
  class EventQueue {
    var events: seq<LampEvent>

    /** Every event that ever got a slot, and those of them already handed out. */
    ghost var accepted: seq<LampEvent>
    ghost var taken: seq<LampEvent>

    ghost predicate Valid()
      reads this
    {
      |events| <= QUEUE_SLOTS && accepted == taken + events
    }

    constructor ()
      ensures Valid() && events == [] && accepted == [] && taken == []
    {
      events, accepted, taken := [], [], [];
    }

    /** `post` and `post_fact`: an event is accepted behind all accepted before it, or lost, which happens exactly when
        eight accepted ones have not been taken yet. The result of `try_send` is dropped, so the sender never learns. */
    method Post(event: LampEvent)
      requires Valid()
      modifies this
      ensures Valid() && taken == old(taken) && events == Sent(old(events), event)
      ensures accepted == old(accepted) + if |old(accepted)| - |taken| < QUEUE_SLOTS then [event] else []
    {
      if |events| < QUEUE_SLOTS {
        events := events + [event];
        accepted := accepted + [event];
      }
    }

    /** The events come out in the order they were accepted, each once. */
    method Receive() returns (event: LampEvent)
      requires Valid() && events != []
      modifies this
      ensures Valid() && accepted == old(accepted) && events == old(events)[1..]
      ensures event == accepted[|old(taken)|] && taken == old(taken) + [event]
    {
      event := events[0];
      events := events[1..];
      taken := taken + [event];
    }
  }

  /** The pin levels a pin holding `last` goes through when driven to each of `levels` with writes on change only. */
  function Written(last: bool, levels: seq<bool>): seq<bool> {
    if levels == [] then []
    else
      var before := levels[..|levels| - 1];
      var held := if before == [] then last else before[|before| - 1];
      Written(last, before) + if levels[|levels| - 1] != held then [levels[|levels| - 1]] else []
  }

  lemma WrittenAdded(last: bool, levels: seq<bool>, level: bool)
    ensures Written(last, levels + [level]) ==
            Written(last, levels) + if level != (if levels == [] then last else levels[|levels| - 1]) then [level] else []
  {
    assert (levels + [level])[..|levels|] == levels;
  }

  lemma {:induction false} WrittenSplit(last: bool, a: seq<bool>, b: seq<bool>)
    ensures Written(last, a + b) == Written(last, a) + Written(if a == [] then last else a[|a| - 1], b)
  {
    if b == [] {
      assert a + b == a;
    } else {
      WrittenSplit(last, a, b[..|b| - 1]);
      assert (a + b)[..|a + b| - 1] == a + b[..|b| - 1];
    }
  }

  /** Each drive put on the pin the level the history of its moment called for; `seen` holds how much of the history
      had been applied by then. */
  ghost predicate DrivesShown(h: seq<Applied>, times: seq<nat>, seen: seq<nat>, driven: seq<bool>, onLevel: bool) {
    && |times| == |seen| == |driven|
    && (forall i :: 0 <= i < |seen| ==> seen[i] <= |h| && Shows(h[..seen[i]], times[i], driven[i] == onLevel))
    && (forall i, j :: 0 <= i < j < |seen| ==> seen[i] <= seen[j])
  }

  lemma DrivesStayShown(
    h: seq<Applied>, a: Applied, times: seq<nat>, seen: seq<nat>, driven: seq<bool>, onLevel: bool)
    requires DrivesShown(h, times, seen, driven, onLevel)
    ensures DrivesShown(h + [a], times, seen, driven, onLevel)
  {
    hide Shows;
    assert forall i :: 0 <= i < |seen| ==> (h + [a])[..seen[i]] == h[..seen[i]];
  }

  lemma DriveShown(
    h: seq<Applied>, times: seq<nat>, seen: seq<nat>, driven: seq<bool>, onLevel: bool, now: nat, level: bool)
    requires DrivesShown(h, times, seen, driven, onLevel) && Shows(h, now, level == onLevel)
    ensures DrivesShown(h, times + [now], seen + [|h|], driven + [level], onLevel)
  {
    hide Shows;
    assert h[..|h|] == h;
  }

  /** The single owner of the pin. `onLevel` is the electrical level that lights the lamp. */
  class Lamp {
    const onLevel: bool
    const machine: LampMachine
    var output: bool
    var last: bool

    /** The times and levels it was driven at and to, how much history there was each time, and the levels actually
        written to the pin. */
    ghost var times: seq<nat>
    ghost var seen: seq<nat>
    ghost var driven: seq<bool>
    ghost var writes: seq<bool>

    ghost predicate Valid()
      reads this, machine
    {
      && machine.Valid()
      && output == last == Held()
      && Recorded()
    }

    /** The level of the last drive, dark before the first. */
    ghost function Held(): bool
      reads `driven
    {
      if driven == [] then !onLevel else driven[|driven| - 1]
    }

    /** The records agree with each other and with the history. */
    ghost predicate Recorded()
      reads `times, `seen, `driven, `writes, machine`history
    {
      writes == Written(!onLevel, driven) && DrivesShown(machine.history, times, seen, driven, onLevel)
    }

    /** Start dark. */
    constructor (onLevel: bool)
      ensures Valid() && fresh(machine) && this.onLevel == onLevel
      ensures machine.history == [] && driven == [] && output == !onLevel
    {
      this.onLevel := onLevel;
      machine := new LampMachine();
      output, last := !onLevel, !onLevel;
      times, seen, driven, writes := [], [], [], [];
    }

    ghost method Record(now: nat, level: bool)
      requires Recorded() && Shows(machine.history, now, level == onLevel)
      modifies `times, `seen, `driven, `writes
      ensures Recorded() && Held() == level
      ensures times == old(times) + [now] && seen == old(seen) + [|machine.history|]
      ensures driven == old(driven) + [level]
      ensures writes == old(writes) + if level != old(Held()) then [level] else []
    {
      hide Shows, DrivesShown, Written;
      DriveShown(machine.history, times, seen, driven, onLevel, now, level);
      WrittenAdded(!onLevel, driven, level);
      writes := writes + if level != Held() then [level] else [];
      times, seen, driven := times + [now], seen + [|machine.history|], driven + [level];
    }

    /** `drive`: whatever the polarity, the pin ends at the level the history calls for at `now`, and it is written
        only if that is a change. */
    method Drive(now: nat)
      requires Valid()
      modifies this
      ensures Valid() && machine.history == old(machine.history)
      ensures times == old(times) + [now] && seen == old(seen) + [|machine.history|]
      ensures driven == old(driven) + [output]
      ensures Shows(machine.history, now, output == onLevel)
      ensures writes == old(writes) + if output != old(output) then [output] else []
    {
      hide Shows, Recorded, Held, Faulted, CountsFrom, FactEnd, DownEnd;
      var lit := machine.Level(now);
      var level := lit == onLevel;
      Record(now, level);
      if level != last {
        output := level;
        last := level;
      }
    }

    /** One turn of the task's loop: take the oldest event, apply it and drive the pin at the same instant. */
    method Turn(queue: EventQueue, now: nat)
      requires Valid() && queue.Valid() && queue.events != []
      modifies this, machine, queue
      ensures Valid() && queue.Valid()
      ensures queue.events == old(queue.events)[1..]
      ensures machine.history == old(machine.history) + [Applied(old(queue.events)[0], now)]
      ensures times == old(times) + [now] && seen == old(seen) + [|machine.history|]
      ensures driven == old(driven) + [output]
      ensures Shows(machine.history, now, output == onLevel)
    {
      hide Shows, DrivesShown;
      var event := queue.Receive();
      DrivesStayShown(machine.history, Applied(event, now), times, seen, driven, onLevel);
      machine.Apply(event, now);
      Drive(now);
    }
  }

  /** The pin's writes never repeat a level and end at the last level driven. */
  lemma {:induction false} WritesAlternate(last: bool, levels: seq<bool>)
    ensures var w := Written(last, levels);
            && (w != [] ==> w[0] != last)
            && (forall i :: 0 <= i < |w| - 1 ==> w[i] != w[i + 1])
            && (if w == [] then last else w[|w| - 1]) == if levels == [] then last else levels[|levels| - 1]
  {
    if levels != [] {
      WritesAlternate(last, levels[..|levels| - 1]);
    }
  }

  /** The levels the flash pattern gives at some drive times. */
  function PatternLevels(ts: seq<nat>, onLevel: bool): (levels: seq<bool>)
    ensures |levels| == |ts|
  {
    seq(|ts|, i requires 0 <= i < |ts| => FaultLevel(ts[i]) == onLevel)
  }

  lemma PatternWrites(ts: seq<nat>, onLevel: bool)
    requires ts != [] && DriveTimes(ts, 150)
    ensures var first := FaultLevel(ts[0]) == onLevel;
            ts[0] <= ts[|ts| - 1] &&
            |Written(first, PatternLevels(ts, onLevel))| == Count(Change, ts[0] + 1, ts[|ts| - 1] - ts[0])
  {
    NoPhaseSkipped(ts);
    WrittenPattern(ts, onLevel);
  }

  lemma {:induction false} WrittenPattern(ts: seq<nat>, onLevel: bool)
    requires ts != []
    ensures |Written(FaultLevel(ts[0]) == onLevel, PatternLevels(ts, onLevel))| == Writes(ts)
  {
    var levels := PatternLevels(ts, onLevel);
    var init := ts[..|ts| - 1];
    assert levels[..|levels| - 1] == PatternLevels(init, onLevel);
    if |ts| > 1 {
      WrittenPattern(init, onLevel);
    } else {
      assert Written(FaultLevel(ts[0]) == onLevel, []) == [];
    }
  }

  /** The drives from `k` on saw a faulted history whose pattern counts from `since`, and nothing but ticks since. */
  ghost predicate TicksOnly(h: seq<Applied>, times: seq<nat>, seen: seq<nat>, k: nat, since: nat) {
    && k < |seen| == |times| && seen[k] <= |h|
    && Faulted(h[..seen[k]]) && CountsFrom(h[..seen[k]], since) && since <= times[k]
    && forall i :: seen[k] <= i < |h| ==> h[i].event.Tick?
  }

  lemma DrivesPattern(
    h: seq<Applied>, times: seq<nat>, seen: seq<nat>, driven: seq<bool>, onLevel: bool, k: nat, since: nat, i: nat)
    requires DrivesShown(h, times, seen, driven, onLevel) && TicksOnly(h, times, seen, k, since) && k <= i < |seen|
    requires since <= times[i]
    ensures driven[i] == (FaultLevel(times[i] - since) == onLevel)
  {
    hide Faulted, CountsFrom, FaultLevel;
    var before, ticks := h[..seen[k]], h[seen[k]..seen[i]];
    assert h[..seen[i]] == before + ticks;
    TicksKeepPattern(before, ticks, since);
    var from: nat :| CountsFrom(h[..seen[i]], from)
                     && (driven[i] == onLevel) == FaultLevel(SaturatingSub(times[i], from));
    CountsUnique(h[..seen[i]], from, since);
  }

  /** The drive times from `k` on, counted from the start of the pattern. */
  function SinceStart(times: seq<nat>, k: nat, since: nat): (ts: seq<nat>)
    requires k < |times| && forall i :: k <= i < |times| ==> since <= times[i]
    ensures |ts| == |times| - k && forall i :: 0 <= i < |ts| ==> ts[i] == times[k + i] - since
    ensures ts[0] == times[k] - since && ts[|ts| - 1] == times[|times| - 1] - since
  {
    seq(|times| - k, i requires 0 <= i < |times| - k => times[k + i] - since)
  }

  lemma StartedBefore(times: seq<nat>, k: nat, since: nat)
    requires k < |times| && DriveTimes(times[k..], 150) && since <= times[k]
    ensures times[k] <= times[|times| - 1] && forall i :: k <= i < |times| ==> since <= times[i]
    ensures DriveTimes(SinceStart(times, k, since), 150)
  {
    hide SinceStart;
    var late := times[k..];
    Rising(late, 150);
    assert forall i :: k <= i < |times| ==> times[i] == late[i - k];
    var ts := SinceStart(times, k, since);
    assert forall i :: 0 <= i < |ts| ==> ts[i] == late[i] - since;
  }

  lemma PatternShown(
    h: seq<Applied>, times: seq<nat>, seen: seq<nat>, driven: seq<bool>, onLevel: bool, k: nat, since: nat)
    requires DrivesShown(h, times, seen, driven, onLevel) && TicksOnly(h, times, seen, k, since)
    requires forall i :: k <= i < |times| ==> since <= times[i]
    ensures |driven| == |times| && driven[k..] == PatternLevels(SinceStart(times, k, since), onLevel)
  {
    hide Shows, Faulted, CountsFrom, FaultLevel;
    var levels := PatternLevels(SinceStart(times, k, since), onLevel);
    forall i | 0 <= i < |levels| ensures driven[k..][i] == levels[i] {
      DrivesPattern(h, times, seen, driven, onLevel, k, since, k + i);
    }
  }

  lemma WritesFrom(last: bool, driven: seq<bool>, k: nat, ts: seq<nat>, onLevel: bool)
    requires k < |driven| && ts != [] && DriveTimes(ts, 150) && driven[k..] == PatternLevels(ts, onLevel)
    ensures ts[0] <= ts[|ts| - 1]
    ensures |Written(last, driven)| == |Written(last, driven[..k + 1])| + Count(Change, ts[0] + 1, ts[|ts| - 1] - ts[0])
  {
    hide FaultLevel, Count, Written, DriveTimes;
    var head, tail := driven[..k + 1], driven[k + 1..];
    assert driven == head + tail && driven[k..] == [driven[k]] + tail;
    WrittenSplit(last, head, tail);
    WrittenSplit(driven[k], [driven[k]], tail);
    WrittenOnce(driven[k]);
    PatternWrites(ts, onLevel);
    assert driven[k] == PatternLevels(ts, onLevel)[0];
  }

  /** The pin writes of a lamp follow the flash pattern. From a drive on, let the lamp apply nothing but ticks while it
      is faulted, at most 150 ms apart: since that drive it has written its pin exactly once for each change of the
      pattern, counted from the pattern's own start, for either polarity. No phase is skipped. */
  lemma PinFollowsPattern(lamp: Lamp, k: nat, since: nat)
    requires lamp.Valid() && TicksOnly(lamp.machine.history, lamp.times, lamp.seen, k, since)
    requires DriveTimes(lamp.times[k..], 150)
    ensures lamp.times[k] <= lamp.times[|lamp.times| - 1] && k < |lamp.driven|
    ensures |lamp.writes| == |Written(!lamp.onLevel, lamp.driven[..k + 1])|
                             + Count(Change, lamp.times[k] - since + 1, lamp.times[|lamp.times| - 1] - lamp.times[k])
  {
    hide DrivesShown, DriveTimes, Count, Written, PatternLevels, Faulted, CountsFrom, FactEnd, DownEnd;
    StartedBefore(lamp.times, k, since);
    PatternShown(lamp.machine.history, lamp.times, lamp.seen, lamp.driven, lamp.onLevel, k, since);
    WritesFrom(!lamp.onLevel, lamp.driven, k, SinceStart(lamp.times, k, since), lamp.onLevel);
  }

  lemma WrittenOnce(level: bool)
    ensures Written(level, [level]) == []
  {
    assert [level][..0] == [];
  }

  lemma {:induction false} Rising(ts: seq<nat>, gap: nat)
    requires ts != [] && DriveTimes(ts, gap)
    ensures forall i :: 0 <= i < |ts| ==> ts[0] <= ts[i]
  {
    if |ts| > 1 {
      var init := ts[..|ts| - 1];
      Rising(init, gap);
      assert forall i :: 0 <= i < |init| ==> ts[i] == init[i];
      assert ts[|ts| - 2] <= ts[|ts| - 1];
    }
  }
}
