/** The post-swap self-test: poll the two mandatory signals, latching each, until both were seen or the window is
    over. */
module SelfTest {

  const SELF_TEST_WINDOW_MS: nat := 30_000
  const SELF_TEST_POLL_MS: nat := 250

  datatype Signals = Signals(bleAdvertising: bool, lampReady: bool, wifiAssociated: bool, mqttConnected: bool)

  datatype Verdict = Confirm | Revert

  datatype Report = Report(
    verdict: Verdict, bleAdvertising: bool, lampReady: bool, wifiAssociated: bool, mqttConnected: bool, elapsedMs: nat)

  /** One turn of the loop: the sample and the time since the start read after it. */
  datatype Turn = Turn(signals: Signals, elapsed: nat)

  // ---- The environment ----

  class Probe {
    ghost var taken: seq<Signals>

    method Sample() returns (s: Signals)
      modifies this
      ensures taken == old(taken) + [s]
    {
      var ble, lamp, wifi, mqtt := *, *, *, *;
      s := Signals(ble, lamp, wifi, mqtt);
      taken := taken + [s];
    }
  }

  /** Time only moves forward; a wait lasts at least as long as asked. */
  class Clock {
    var now: nat

    method NowMs() returns (t: nat)
      modifies this
      ensures t == now >= old(now)
    {
      var passed: nat :| true;
      now := now + passed;
      t := now;
    }

    method Wait(ms: nat)
      modifies this
      ensures now >= old(now) + ms
    {
      var late: nat :| true;
      now := now + ms + late;
    }
  }

  // ---- What a run is ----

  predicate SeenBle(trace: seq<Turn>) {
    exists i :: 0 <= i < |trace| && trace[i].signals.bleAdvertising
  }

  predicate SeenLamp(trace: seq<Turn>) {
    exists i :: 0 <= i < |trace| && trace[i].signals.lampReady
  }

  /** The run goes on past this trace: not both signals yet, and time left. */
  predicate GoesOn(trace: seq<Turn>) {
    trace != [] ==> !(SeenBle(trace) && SeenLamp(trace)) && trace[|trace| - 1].elapsed < SELF_TEST_WINDOW_MS
  }

  /** A trace and the report it ends in: it went on at every earlier turn and stops at the last one. */
  ghost predicate IsRun(trace: seq<Turn>, r: Report) {
    && trace != [] && !GoesOn(trace)
    && (forall n :: 0 <= n < |trace| ==> GoesOn(trace[..n]))
    && var last := trace[|trace| - 1];
       && r.verdict == (if SeenBle(trace) && SeenLamp(trace) then Confirm else Revert)
       && r.bleAdvertising == SeenBle(trace) && r.lampReady == SeenLamp(trace)
       && r.wifiAssociated == last.signals.wifiAssociated && r.mqttConnected == last.signals.mqttConnected
       && r.elapsedMs == last.elapsed
  }

  lemma SeenMore(trace: seq<Turn>, t: Turn)
    ensures SeenBle(trace + [t]) == (SeenBle(trace) || t.signals.bleAdvertising)
    ensures SeenLamp(trace + [t]) == (SeenLamp(trace) || t.signals.lampReady)
  {
    var all := trace + [t];
    assert all[|trace|] == t && forall i :: 0 <= i < |trace| ==> all[i] == trace[i];
    if i :| 0 <= i < |trace| && trace[i].signals.bleAdvertising {
      assert all[i].signals.bleAdvertising;
    }
    if i :| 0 <= i < |trace| && trace[i].signals.lampReady {
      assert all[i].signals.lampReady;
    }
  }

  /** `self_test`. It ends within 121 samples because each wait takes at least 250 ms off the 30 s window. */
  method Run(probe: Probe, clock: Clock) returns (r: Report, ghost trace: seq<Turn>)
    modifies probe, clock
    ensures IsRun(trace, r)
    ensures |trace| <= 121
    ensures |probe.taken| == |old(probe.taken)| + |trace| && old(probe.taken) <= probe.taken
    ensures forall i :: 0 <= i < |trace| ==> trace[i].signals == probe.taken[|old(probe.taken)| + i]
  {
    hide SeenBle, SeenLamp, IsRun;
    NothingSeen();
    var start := clock.NowMs();
    var ble, lamp := false, false;
    trace := [];
    while true
      invariant start <= clock.now && clock.now - start >= SELF_TEST_POLL_MS * |trace|
      invariant |trace| <= 120
      invariant ble == SeenBle(trace) && lamp == SeenLamp(trace)
      invariant forall n :: 0 <= n <= |trace| ==> GoesOn(trace[..n])
      invariant |probe.taken| == |old(probe.taken)| + |trace| && old(probe.taken) <= probe.taken
      invariant forall i :: 0 <= i < |trace| ==> trace[i].signals == probe.taken[|old(probe.taken)| + i]
      decreases 120 - |trace|
    {
      var latest := probe.Sample();
      ble := ble || latest.bleAdvertising;
      lamp := lamp || latest.lampReady;
      var now := clock.NowMs();
      var elapsed := now - start;
      ghost var before := trace;
      SeenMore(before, Turn(latest, elapsed));
      trace := before + [Turn(latest, elapsed)];
      assert forall n :: 0 <= n < |trace| ==> trace[..n] == before[..n];
      assert trace[..|trace|] == trace;
      if ble && lamp {
        r := Report(Confirm, ble, lamp, latest.wifiAssociated, latest.mqttConnected, elapsed);
        Stops(trace, r);
        return;
      }
      if elapsed >= SELF_TEST_WINDOW_MS {
        r := Report(Revert, ble, lamp, latest.wifiAssociated, latest.mqttConnected, elapsed);
        Stops(trace, r);
        return;
      }
      clock.Wait(SELF_TEST_POLL_MS);
    }
  }

  lemma NothingSeen()
    ensures !SeenBle([]) && !SeenLamp([]) && GoesOn([])
  {
  }

  lemma Stops(trace: seq<Turn>, r: Report)
    requires trace != [] && !GoesOn(trace)
    requires forall n :: 0 <= n < |trace| ==> GoesOn(trace[..n])
    requires r.bleAdvertising == SeenBle(trace) && r.lampReady == SeenLamp(trace)
    requires r.verdict == (if r.bleAdvertising && r.lampReady then Confirm else Revert)
    requires var last := trace[|trace| - 1];
             && r.wifiAssociated == last.signals.wifiAssociated && r.mqttConnected == last.signals.mqttConnected
             && r.elapsedMs == last.elapsed
    ensures IsRun(trace, r)
  {
  }

  // ---- What the verdict depends on ----

  /** The two traces show the same mandatory signals at the same times for `n` turns. */
  predicate SameControl(a: seq<Turn>, b: seq<Turn>, n: nat) {
    n <= |a| && n <= |b| &&
    forall i :: 0 <= i < n ==>
      && a[i].signals.bleAdvertising == b[i].signals.bleAdvertising
      && a[i].signals.lampReady == b[i].signals.lampReady
      && a[i].elapsed == b[i].elapsed
  }

  lemma SameSeen(a: seq<Turn>, b: seq<Turn>, n: nat)
    requires SameControl(a, b, n)
    ensures SeenBle(a[..n]) == SeenBle(b[..n]) && SeenLamp(a[..n]) == SeenLamp(b[..n])
    ensures GoesOn(a[..n]) == GoesOn(b[..n])
  {
  }

  /** Runs that differ only in the network signals take the same number of turns and end in the same verdict at the
      same time. */
  lemma NetworkIgnored(a: seq<Turn>, b: seq<Turn>, r: Report, q: Report)
    requires IsRun(a, r) && IsRun(b, q)
    requires SameControl(a, b, if |a| <= |b| then |a| else |b|)
    ensures |a| == |b| && r.verdict == q.verdict && r.elapsedMs == q.elapsedMs
  {
    var n := if |a| <= |b| then |a| else |b|;
    SameSeen(a, b, n);
    assert a[..|a|] == a && b[..|b|] == b;
    assert GoesOn(a[..n]) == GoesOn(b[..n]);
  }

  /** The verdict in terms of everything the probe and clock would give: confirmed exactly when each mandatory signal
      shows in some sample up to and including the first one taken when the window is over. */
  lemma ConfirmedIff(stream: seq<Turn>, stop: nat, trace: seq<Turn>, r: Report)
    requires stop < |stream| && stream[stop].elapsed >= SELF_TEST_WINDOW_MS
    requires forall i :: 0 <= i < stop ==> stream[i].elapsed < SELF_TEST_WINDOW_MS
    requires IsRun(trace, r) && trace <= stream
    ensures r.verdict == Confirm <==> SeenBle(stream[..stop + 1]) && SeenLamp(stream[..stop + 1])
  {
    var full := stream[..stop + 1];
    var m := if |trace| <= stop + 1 then |trace| else stop + 1;
    assert trace[..m] == stream[..m];
    assert |trace| <= stop + 1;
    if |trace| == stop + 1 {
      assert trace == full;
    } else {
      assert trace[|trace| - 1].elapsed < SELF_TEST_WINDOW_MS;
      var i :| 0 <= i < |trace| && trace[i].signals.bleAdvertising;
      var j :| 0 <= j < |trace| && trace[j].signals.lampReady;
      assert full[i].signals.bleAdvertising && full[j].signals.lampReady;
    }
  }

  // ---- On boot ----

  /** What `get_state` tells the application about the image that is running. */
  datatype BootState = Boot | Swap | Reverted | DfuDetach | Unreadable

  /** How the boot goes on: confirmed, on to the updater without a confirmation, or a reset so the bootloader
      reverts. */
  datatype AfterBoot = NothingToConfirm | Confirmed | Unconfirmed | ResetToRevert

  /** The trace is a whole self-test and the boot goes on as its verdict says. */
  ghost predicate BootRun(trace: seq<Turn>, after: AfterBoot) {
    exists r :: IsRun(trace, r)
      && (r.verdict == Confirm <==> after == Confirmed || after == Unconfirmed)
      && (r.verdict == Revert <==> after == ResetToRevert)
  }

  class BootUpdater {
    const state: BootState
    ghost var confirmations: nat

    method GetState() returns (s: BootState)
      ensures s == state
    {
      s := state;
    }

    method MarkBooted() returns (ok: bool)
      modifies this
      ensures confirmations == old(confirmations) + if ok then 1 else 0
    {
      ok := *;
      if ok {
        confirmations := confirmations + 1;
      }
    }
  }

  /** `run`: only a freshly swapped image is tested. It is confirmed only after both mandatory signals were seen in
      this boot, and a missing one resets. A confirmation that fails is only logged: the boot goes on. */
  method RunOnBoot(updater: BootUpdater, probe: Probe, clock: Clock) returns (after: AfterBoot, ghost trace: seq<Turn>)
    modifies updater, probe, clock
    ensures updater.confirmations == old(updater.confirmations) + if after == Confirmed then 1 else 0
    ensures after == NothingToConfirm <==> updater.state != Swap
    ensures updater.state == Swap ==> BootRun(trace, after)
    ensures after == Confirmed || after == Unconfirmed ==> SeenBle(trace) && SeenLamp(trace)
    ensures after == ResetToRevert ==>
              trace != [] && !(SeenBle(trace) && SeenLamp(trace)) && trace[|trace| - 1].elapsed >= SELF_TEST_WINDOW_MS
    ensures updater.state != Swap ==> probe.taken == old(probe.taken) && trace == []
    ensures |probe.taken| == |old(probe.taken)| + |trace|
    ensures forall i :: 0 <= i < |trace| ==> trace[i].signals == probe.taken[|old(probe.taken)| + i]
  {
    trace := [];
    var state := updater.GetState();
    if state != Swap {
      return NothingToConfirm, trace;
    }
    var report;
    report, trace := Run(probe, clock);
    if report.verdict == Revert {
      return ResetToRevert, trace;
    }
    var ok := updater.MarkBooted();
    after := if ok then Confirmed else Unconfirmed;
  }
}
