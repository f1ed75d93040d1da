/** The whole release path as one step machine: deploys write the server, the device fetches, marks, reboots into a
    trial, tests itself, confirms or rolls back. Any step may be followed by a reset. The bootloader's part is its
    documented contract: a mark swaps at the next reset, an unconfirmed swap is undone at the reset after that. */
module Lifecycle {
  import opened Bytes
  import opened Decimal
  import opened ReleaseFiles
  import opened ReleaseServer
  import SelfTest
  import Session
  import Url
  import UpdateTask
  import RequestReader
  import UpdateRequest

  /** The boot state kept in flash. */
  datatype Flag = Settled | SwapPending | Trial

  /** What the running program is doing about updates. */
  datatype Program =
    | SelfTesting(ble: bool, lamp: bool)
    | Idle
    | KnowsVersion(version: nat)
    | KnowsDigest(expected: Digest)
    | AwaitingReset

  datatype Device = Device(active: seq<Byte>, dfu: seq<Byte>, flag: Flag, program: Program)

  datatype Entry =
    | Marked(image: seq<Byte>, expected: Digest)
    | SwappedIn(image: seq<Byte>)
    | SawBle
    | SawLamp
    | Confirmed(image: seq<Byte>)
    | RolledBack
    | Rebooted

  /** `openWrites` says what the bootloader library does while a swap is unconfirmed: take writes and marks, or refuse
      them. The repository does not say which, so every result covers both unless it names one. */
  datatype World = World(server: Server, device: Device, log: seq<Entry>, openWrites: bool)

  datatype Action =
    | Deploying(step: DeployAction)
    | FetchVersion(length: nat)
    | FetchSha(length: nat)
    | Download(body: seq<Byte>, markOk: bool)
    | GiveUp
    | Sample(ble: bool, lamp: bool)
    | MarkBooted(ok: bool)
    | StateUnreadable
    | Reset

  ghost function Factory(image: seq<Byte>, openWrites: bool): World {
    World(EMPTY, Device(image, [], Settled, Idle), [], openWrites)
  }

  /** The front part of a served file, as long as the device happened to get. */
  function Served(files: map<File, seq<Byte>>, file: File, length: nat): Option<seq<Byte>> {
    if file !in files then None
    else Some(files[file][..if length < |files[file]| then length else |files[file]|])
  }

  function Reboot(d: Device): Device {
    match d.flag
    case Settled => d.(program := Idle)
    case SwapPending => Device(d.dfu, d.active, Trial, SelfTesting(false, false))
    case Trial => Device(d.dfu, d.active, Settled, Idle)
  }

  function RebootEntry(d: Device): Entry {
    match d.flag
    case Settled => Rebooted
    case SwapPending => SwappedIn(d.dfu)
    case Trial => RolledBack
  }

  /** An action that is not possible does nothing. The image body is whatever the server and the wire made of it. */
  ghost function Step(hash: Hash, w: World, a: Action): World {
    var d := w.device;
    match (a, d.program)
    case (Deploying(step), _) => w.(server := ReleaseServer.Step(hash, w.server, step))
    case (FetchVersion(n), Idle) =>
      var text := Served(w.server.files, VersionFile, n);
      if text.None? || VersionOf(text.value).None? then w
      else w.(device := d.(program := KnowsVersion(VersionOf(text.value).value)))
    case (FetchSha(n), KnowsVersion(v)) =>
      var text := Served(w.server.files, Sha(Digits(v)), n);
      if text.None? || ShaOf(text.value).None? then w.(device := d.(program := Idle))
      else w.(device := d.(program := KnowsDigest(ShaOf(text.value).value)))
    case (Download(body, markOk), KnowsDigest(expected)) =>
      if d.flag.Trial? && !w.openWrites then w.(device := d.(program := Idle))
      else if hash(body) == expected && markOk then
        w.(device := d.(dfu := body, flag := SwapPending, program := AwaitingReset), log := w.log + [Marked(body, expected)])
      else w.(device := d.(dfu := body, program := Idle))
    case (GiveUp, KnowsVersion(_)) => w.(device := d.(program := Idle))
    case (GiveUp, KnowsDigest(_)) => w.(device := d.(program := Idle))
    case (Sample(ble, lamp), SelfTesting(b, l)) =>
      if b && l then w
      else w.(device := d.(program := SelfTesting(b || ble, l || lamp)),
              log := w.log + (if ble then [SawBle] else []) + (if lamp then [SawLamp] else []))
    case (MarkBooted(ok), SelfTesting(true, true)) =>
      if ok then w.(device := d.(flag := Settled, program := Idle), log := w.log + [Confirmed(d.active)])
      else w.(device := d.(program := Idle))
    case (StateUnreadable, SelfTesting(false, false)) => w.(device := d.(program := Idle))
    case (Reset, _) => w.(device := Reboot(d), log := w.log + [RebootEntry(d)])
    case _ => w
  }

  ghost function Run(hash: Hash, factory: seq<Byte>, openWrites: bool, actions: seq<Action>): World {
    if actions == [] then Factory(factory, openWrites)
    else Step(hash, Run(hash, factory, openWrites, actions[..|actions| - 1]), actions[|actions| - 1])
  }

  // ---- What the log must show ----

  /** The image last confirmed, or the one the device left the factory with. */
  function LastGood(log: seq<Entry>, factory: seq<Byte>): seq<Byte> {
    if log == [] then factory
    else if log[|log| - 1].Confirmed? then log[|log| - 1].image
    else LastGood(log[..|log| - 1], factory)
  }

  /** Entry `k` of the log lies in the trial boot of `image`: the boot began with its swap, the swap came right after
      its mark, and since then the log holds only sightings. */
  ghost predicate TrialSince(log: seq<Entry>, image: seq<Byte>, j: int, k: int) {
    && 0 < j < k <= |log|
    && log[j] == SwappedIn(image)
    && log[j - 1].Marked? && log[j - 1].image == image
    && forall m :: j < m < k ==> log[m].SawBle? || log[m].SawLamp?
  }

  predicate Saw(log: seq<Entry>, what: Entry, j: int, k: int) {
    exists m :: j < m < k && 0 <= m < |log| && log[m] == what
  }

  /** A confirmation is earned: in one and the same trial boot of the image, both mandatory signals were seen. */
  ghost predicate Earned(log: seq<Entry>, k: int) {
    0 <= k < |log| && log[k].Confirmed? &&
    exists j :: TrialSince(log, log[k].image, j, k) && Saw(log, SawBle, j, k) && Saw(log, SawLamp, j, k)
  }

  ghost predicate AllEarned(log: seq<Entry>) {
    forall k :: 0 <= k < |log| && log[k].Confirmed? ==> Earned(log, k)
  }

  /** A mark is justified: the digest matched, and it is the digest of an image some deploy built. */
  ghost predicate Justified(hash: Hash, s: Server, e: Entry) {
    e.Marked? ==> hash(e.image) == e.expected && exists image :: BuiltBySome(s, image) && hash(image) == e.expected
  }

  ghost predicate AllJustified(hash: Hash, w: World) {
    && TrueChecksums(hash, w.server)
    && (forall k :: 0 <= k < |w.log| ==> Justified(hash, w.server, w.log[k]))
    && (w.device.program.KnowsDigest? ==>
          exists image :: BuiltBySome(w.server, image) && hash(image) == w.device.program.expected)
  }

  /** Where the last good image is, and what the log says about the one on trial. */
  ghost predicate RollbackReady(w: World, factory: seq<Byte>) {
    var d, good := w.device, LastGood(w.log, factory);
    match d.flag
    case Settled => d.active == good && !d.program.SelfTesting? && !d.program.AwaitingReset?
    case SwapPending =>
      && d.active == good && d.program.AwaitingReset?
      && w.log != [] && w.log[|w.log| - 1].Marked? && w.log[|w.log| - 1].image == d.dfu
    case Trial =>
      && d.dfu == good && !d.program.AwaitingReset?
      && (d.program.SelfTesting? ==>
            exists j :: TrialSince(w.log, d.active, j, |w.log|)
                        && (d.program.ble ==> Saw(w.log, SawBle, j, |w.log|))
                        && (d.program.lamp ==> Saw(w.log, SawLamp, j, |w.log|)))
  }

  // ---- Marks ----

  lemma ServerKeepsJustified(hash: Hash, w: World, step: DeployAction)
    requires AllJustified(hash, w)
    ensures AllJustified(hash, Step(hash, w, Deploying(step)))
  {
    hide TrueChecksums;
    StepKeepsTrue(hash, w.server, step);
    var t := Step(hash, w, Deploying(step));
    forall k | 0 <= k < |t.log| ensures Justified(hash, t.server, t.log[k]) {
      if t.log[k].Marked? {
        var image :| BuiltBySome(w.server, image) && hash(image) == w.log[k].expected;
        BuiltStays(hash, w.server, step, image);
      }
    }
    if w.device.program.KnowsDigest? {
      var image :| BuiltBySome(w.server, image) && hash(image) == w.device.program.expected;
      BuiltStays(hash, w.server, step, image);
    }
  }

  lemma FetchShaJustified(hash: Hash, w: World, n: nat)
    requires AllJustified(hash, w)
    ensures AllJustified(hash, Step(hash, w, FetchSha(n)))
  {
    hide TrueChecksums, ShaOf, BuiltBySome;
    if w.device.program.KnowsVersion? {
      var b := Digits(w.device.program.version);
      var text := Served(w.server.files, Sha(b), n);
      if text.Some? && ShaOf(text.value).Some? {
        ReadDigestIsTrue(hash, w.server, b, text.value, ShaOf(text.value).value);
      }
    }
  }

  lemma StepJustified(hash: Hash, w: World, a: Action)
    requires AllJustified(hash, w)
    ensures AllJustified(hash, Step(hash, w, a))
  {
    hide TrueChecksums, ShaOf, BuiltBySome, VersionOf;
    match a
    case Deploying(step) => ServerKeepsJustified(hash, w, step);
    case FetchSha(n) => FetchShaJustified(hash, w, n);
    case _ => AppendedJustified(hash, w, Step(hash, w, a));
  }

  lemma AppendedJustified(hash: Hash, w: World, t: World)
    requires AllJustified(hash, w) && t.server == w.server
    requires w.log <= t.log && forall k :: |w.log| <= k < |t.log| ==> Justified(hash, w.server, t.log[k])
    requires t.device.program.KnowsDigest? ==> t.device.program == w.device.program
    ensures AllJustified(hash, t)
  {
  }

  lemma {:induction false} AlwaysJustified(hash: Hash, factory: seq<Byte>, openWrites: bool, actions: seq<Action>)
    ensures AllJustified(hash, Run(hash, factory, openWrites, actions))
  {
    hide Step;
    if actions != [] {
      AlwaysJustified(hash, factory, openWrites, actions[..|actions| - 1]);
      StepJustified(hash, Run(hash, factory, openWrites, actions[..|actions| - 1]), actions[|actions| - 1]);
    }
  }

  /** No other byte string the device downloaded collides with a built image. */
  ghost predicate NoCollision(hash: Hash, w: World) {
    forall k, image | 0 <= k < |w.log| && w.log[k].Marked? && BuiltBySome(w.server, image)
                      && hash(w.log[k].image) == hash(image) :: w.log[k].image == image
  }

  /** In every interleaving of deploy steps with the device's three fetches, whatever body the image fetch delivered,
      a marked image is byte for byte an image some deploy built. */
  lemma MarkedIsBuilt(hash: Hash, factory: seq<Byte>, openWrites: bool, actions: seq<Action>, k: nat)
    requires NoCollision(hash, Run(hash, factory, openWrites, actions))
    requires k < |Run(hash, factory, openWrites, actions).log| && Run(hash, factory, openWrites, actions).log[k].Marked?
    ensures BuiltBySome(Run(hash, factory, openWrites, actions).server, Run(hash, factory, openWrites, actions).log[k].image)
  {
    hide Run, TrueChecksums, BuiltBySome;
    var w := Run(hash, factory, openWrites, actions);
    AlwaysJustified(hash, factory, openWrites, actions);
    assert Justified(hash, w.server, w.log[k]);
    var image :| BuiltBySome(w.server, image) && hash(image) == w.log[k].expected;
  }

  // ---- Trials ----

  /** A download now would overwrite the only way back. */
  predicate WritesInTrial(w: World) {
    w.openWrites && w.device.flag.Trial? && w.device.program.KnowsDigest?
  }

  predicate NoTrialWrite(w: World, a: Action) {
    a.Download? ==> !WritesInTrial(w)
  }

  lemma LogGrows(log: seq<Entry>, e: Entry, factory: seq<Byte>)
    requires AllEarned(log)
    ensures LastGood(log + [e], factory) == if e.Confirmed? then e.image else LastGood(log, factory)
    ensures !e.Confirmed? ==> AllEarned(log + [e])
  {
    var all := log + [e];
    assert all[..|log|] == log;
    forall k | 0 <= k < |all| && all[k].Confirmed? && !e.Confirmed? ensures Earned(all, k) {
      EarnedStays(log, e, k);
    }
  }

  lemma EarnedStays(log: seq<Entry>, e: Entry, k: int)
    requires Earned(log, k)
    ensures Earned(log + [e], k)
  {
    var all := log + [e];
    var j :| TrialSince(log, log[k].image, j, k) && Saw(log, SawBle, j, k) && Saw(log, SawLamp, j, k);
    assert forall m :: 0 <= m < |log| ==> all[m] == log[m];
    TrialStays(log, e, log[k].image, j, k);
  }

  lemma TrialStays(log: seq<Entry>, e: Entry, image: seq<Byte>, j: int, k: int)
    requires TrialSince(log, image, j, k)
    ensures TrialSince(log + [e], image, j, k)
    ensures forall what :: Saw(log, what, j, k) ==> Saw(log + [e], what, j, k)
  {
    var all := log + [e];
    assert forall m :: 0 <= m < |log| ==> all[m] == log[m];
    forall what | Saw(log, what, j, k) ensures Saw(all, what, j, k) {
      var m :| j < m < k && 0 <= m < |log| && log[m] == what;
      assert all[m] == what;
    }
  }

  /** One more sighting keeps the trial going and remembers what was seen before. */
  lemma SightingAdded(log: seq<Entry>, e: Entry, image: seq<Byte>, j: int)
    requires TrialSince(log, image, j, |log|) && (e.SawBle? || e.SawLamp?)
    ensures TrialSince(log + [e], image, j, |log| + 1)
    ensures forall what :: Saw(log, what, j, |log|) ==> Saw(log + [e], what, j, |log| + 1)
    ensures Saw(log + [e], e, j, |log| + 1)
  {
    var all := log + [e];
    assert all[|log|] == e && forall m :: 0 <= m < |log| ==> all[m] == log[m];
    forall what | Saw(log, what, j, |log|) ensures Saw(all, what, j, |log| + 1) {
      var m :| j < m < |log| && 0 <= m < |log| && log[m] == what;
      assert all[m] == what;
    }
  }

  /** Both halves of the invariant. */
  ghost predicate Safe(w: World, factory: seq<Byte>) {
    RollbackReady(w, factory) && AllEarned(w.log)
  }

  lemma ResetSafe(hash: Hash, w: World, factory: seq<Byte>)
    requires Safe(w, factory)
    ensures Safe(Step(hash, w, Reset), factory)
  {
    hide AllEarned, LastGood, Saw;
    var t := Step(hash, w, Reset);
    var e := RebootEntry(w.device);
    LogGrows(w.log, e, factory);
    if w.device.flag.SwapPending? {
      assert TrialSince(t.log, t.device.active, |w.log|, |t.log|);
    }
  }

  lemma MarkSafe(hash: Hash, w: World, factory: seq<Byte>, a: Action)
    requires Safe(w, factory) && a.Download? && NoTrialWrite(w, a)
    ensures Safe(Step(hash, w, a), factory)
  {
    hide AllEarned, LastGood;
    if w.device.program.KnowsDigest? {
      LogGrows(w.log, Marked(a.body, w.device.program.expected), factory);
    }
  }

  lemma SampleSafe(hash: Hash, w: World, factory: seq<Byte>, a: Action)
    requires Safe(w, factory) && a.Sample?
    ensures Safe(Step(hash, w, a), factory)
  {
    hide AllEarned, LastGood, Saw, TrialSince;
    var d := w.device;
    if d.program.SelfTesting? && !(d.program.ble && d.program.lamp) {
      var j :| TrialSince(w.log, d.active, j, |w.log|)
               && (d.program.ble ==> Saw(w.log, SawBle, j, |w.log|))
               && (d.program.lamp ==> Saw(w.log, SawLamp, j, |w.log|));
      var mid := w.log + if a.ble then [SawBle] else [];
      if a.ble {
        LogGrows(w.log, SawBle, factory);
        SightingAdded(w.log, SawBle, d.active, j);
      } else {
        assert mid == w.log;
      }
      if a.lamp {
        LogGrows(mid, SawLamp, factory);
        SightingAdded(mid, SawLamp, d.active, j);
      }
      var t := Step(hash, w, a);
      assert w.log + [] == w.log && mid + [] == mid;
      assert t.log == mid + if a.lamp then [SawLamp] else [];
      assert TrialSince(t.log, d.active, j, |t.log|);
    }
  }

  lemma ConfirmSafe(hash: Hash, w: World, factory: seq<Byte>, a: Action)
    requires Safe(w, factory) && a.MarkBooted?
    ensures Safe(Step(hash, w, a), factory)
  {
    hide LastGood;
    var d := w.device;
    if d.program == SelfTesting(true, true) && a.ok {
      var e := Confirmed(d.active);
      LogGrows(w.log, e, factory);
      var t := Step(hash, w, a);
      var k := |w.log|;
      var j :| TrialSince(w.log, d.active, j, k) && Saw(w.log, SawBle, j, k) && Saw(w.log, SawLamp, j, k);
      TrialStays(w.log, e, d.active, j, k);
      assert Earned(t.log, k);
      forall i | 0 <= i < k && t.log[i].Confirmed? ensures Earned(t.log, i) {
        EarnedStays(w.log, e, i);
      }
    }
  }

  lemma StepSafe(hash: Hash, w: World, factory: seq<Byte>, a: Action)
    requires Safe(w, factory) && NoTrialWrite(w, a)
    ensures Safe(Step(hash, w, a), factory)
  {
    hide AllEarned, LastGood, Saw, TrialSince, NoTrialWrite;
    match a
    case Reset => ResetSafe(hash, w, factory);
    case Download(_, _) => MarkSafe(hash, w, factory, a);
    case Sample(_, _) => SampleSafe(hash, w, factory, a);
    case MarkBooted(_) => ConfirmSafe(hash, w, factory, a);
    case _ =>
  }

  ghost predicate NeverTrialWrite(hash: Hash, factory: seq<Byte>, openWrites: bool, actions: seq<Action>) {
    forall n :: 0 <= n < |actions| ==> NoTrialWrite(Run(hash, factory, openWrites, actions[..n]), actions[n])
  }

  lemma {:induction false} AlwaysSafe(hash: Hash, factory: seq<Byte>, openWrites: bool, actions: seq<Action>)
    requires NeverTrialWrite(hash, factory, openWrites, actions)
    ensures Safe(Run(hash, factory, openWrites, actions), factory)
  {
    hide Step, Safe, NoTrialWrite;
    if actions != [] {
      var init := actions[..|actions| - 1];
      forall n | 0 <= n < |init| ensures NoTrialWrite(Run(hash, factory, openWrites, init[..n]), init[n]) {
        assert init[..n] == actions[..n];
      }
      AlwaysSafe(hash, factory, openWrites, init);
      StepSafe(hash, Run(hash, factory, openWrites, init), factory, actions[|init|]);
    } else {
      FactorySafe(factory, openWrites);
    }
  }

  lemma FactorySafe(factory: seq<Byte>, openWrites: bool)
    ensures Safe(Factory(factory, openWrites), factory)
  {
  }

  // ---- What survives ----

  lemma {:induction false} LastGoodLogged(log: seq<Entry>, factory: seq<Byte>) returns (k: int)
    ensures -1 <= k < |log|
    ensures if k == -1 then LastGood(log, factory) == factory else log[k] == Confirmed(LastGood(log, factory))
  {
    if log == [] {
      k := -1;
    } else if log[|log| - 1].Confirmed? {
      k := |log| - 1;
    } else {
      k := LastGoodLogged(log[..|log| - 1], factory);
    }
  }

  /** The image came with the device, or some deploy built it, its digest matched when it was marked, it was swapped in
      right after that mark, and in that very boot both mandatory signals were seen before it was confirmed. */
  ghost predicate Trustworthy(hash: Hash, w: World, factory: seq<Byte>, image: seq<Byte>) {
    image == factory ||
    (BuiltBySome(w.server, image) &&
     exists j, k :: 0 <= k < |w.log| && w.log[k] == Confirmed(image)
                    && TrialSince(w.log, image, j, k) && Saw(w.log, SawBle, j, k) && Saw(w.log, SawLamp, j, k)
                    && hash(image) == w.log[j - 1].expected)
  }

  lemma GoodIsTrustworthy(hash: Hash, factory: seq<Byte>, openWrites: bool, actions: seq<Action>)
    requires NeverTrialWrite(hash, factory, openWrites, actions) && NoCollision(hash, Run(hash, factory, openWrites, actions))
    ensures var w := Run(hash, factory, openWrites, actions); Trustworthy(hash, w, factory, LastGood(w.log, factory))
  {
    hide Run, NeverTrialWrite, NoCollision, RollbackReady, LastGood, Saw, BuiltBySome, TrueChecksums;
    var w := Run(hash, factory, openWrites, actions);
    AlwaysSafe(hash, factory, openWrites, actions);
    AlwaysJustified(hash, factory, openWrites, actions);
    var k := LastGoodLogged(w.log, factory);
    if k >= 0 {
      var image := LastGood(w.log, factory);
      assert Earned(w.log, k);
      var j :| TrialSince(w.log, image, j, k) && Saw(w.log, SawBle, j, k) && Saw(w.log, SawLamp, j, k);
      MarkedIsBuilt(hash, factory, openWrites, actions, j - 1);
      assert Justified(hash, w.server, w.log[j - 1]);
    }
  }

  /** Over every run, with a reset possible at every step: once the boot state is settled, the image in the active
      slot is trustworthy. */
  lemma SettledIsTrustworthy(hash: Hash, factory: seq<Byte>, openWrites: bool, actions: seq<Action>)
    requires NeverTrialWrite(hash, factory, openWrites, actions) && NoCollision(hash, Run(hash, factory, openWrites, actions))
    requires Run(hash, factory, openWrites, actions).device.flag.Settled?
    ensures var w := Run(hash, factory, openWrites, actions); Trustworthy(hash, w, factory, w.device.active)
  {
    hide Run, NeverTrialWrite, NoCollision, Trustworthy, AllEarned, LastGood;
    AlwaysSafe(hash, factory, openWrites, actions);
    GoodIsTrustworthy(hash, factory, openWrites, actions);
  }

  /** An image on trial that is not confirmed before the next reset is gone after it: the image confirmed last is
      back, byte for byte. */
  lemma UnconfirmedIsUndone(hash: Hash, factory: seq<Byte>, openWrites: bool, actions: seq<Action>)
    requires NeverTrialWrite(hash, factory, openWrites, actions) && Run(hash, factory, openWrites, actions).device.flag.Trial?
    ensures var w := Run(hash, factory, openWrites, actions);
            var after := Step(hash, w, Reset);
            after.device.flag.Settled? && after.device.active == LastGood(w.log, factory)
  {
    hide Run, NeverTrialWrite, AllEarned, LastGood;
    AlwaysSafe(hash, factory, openWrites, actions);
  }

  /** No DFU write before the self-test is over: throughout it the partition still holds the way back. */
  lemma SelfTestKeepsBackup(hash: Hash, factory: seq<Byte>, openWrites: bool, actions: seq<Action>)
    requires NeverTrialWrite(hash, factory, openWrites, actions) && Run(hash, factory, openWrites, actions).device.program.SelfTesting?
    ensures var w := Run(hash, factory, openWrites, actions); w.device.flag.Trial? && w.device.dfu == LastGood(w.log, factory)
  {
    hide Run, NeverTrialWrite, AllEarned, LastGood;
    AlwaysSafe(hash, factory, openWrites, actions);
  }

  // ---- When no trial is written over ----

  lemma {:induction false} PolicyStays(hash: Hash, factory: seq<Byte>, openWrites: bool, actions: seq<Action>)
    ensures Run(hash, factory, openWrites, actions).openWrites == openWrites
  {
    hide ShaOf, VersionOf;
    if actions != [] {
      PolicyStays(hash, factory, openWrites, actions[..|actions| - 1]);
    }
  }

  /** If writes in a trial are refused, every settled image is trustworthy in every run whatsoever: with confirmations
      that fail, unreadable boot states and downloads at any time. */
  lemma RefusingIsSafe(hash: Hash, factory: seq<Byte>, actions: seq<Action>)
    requires NoCollision(hash, Run(hash, factory, false, actions)) && Run(hash, factory, false, actions).device.flag.Settled?
    ensures var w := Run(hash, factory, false, actions); Trustworthy(hash, w, factory, w.device.active)
  {
    hide Run, NoCollision, Trustworthy;
    forall n | 0 <= n < |actions| ensures NoTrialWrite(Run(hash, factory, false, actions[..n]), actions[n]) {
      PolicyStays(hash, factory, false, actions[..n]);
    }
    SettledIsTrustworthy(hash, factory, false, actions);
  }

  /** The boot goes on with the trial still open: the confirmation failed or the state could not be read. */
  predicate LeavesTrialOpen(a: Action) {
    a == MarkBooted(false) || a == StateUnreadable
  }

  /** Some action since the last reset left a trial open. */
  predicate LeftOpen(actions: seq<Action>) {
    actions != [] &&
    var last := actions[|actions| - 1];
    !last.Reset? && (LeavesTrialOpen(last) || LeftOpen(actions[..|actions| - 1]))
  }

  /** Confirming succeeds, or a reset comes before the next download. */
  predicate ResetsFirst(actions: seq<Action>) {
    forall n :: 0 <= n < |actions| && actions[n].Download? ==> !LeftOpen(actions[..n])
  }

  ghost predicate FlagsAgree(w: World, leftOpen: bool) {
    && (!leftOpen && w.device.flag.Trial? ==> w.device.program.SelfTesting?)
    && (w.device.program.SelfTesting? ==> w.device.flag.Trial?)
    && (w.device.program.AwaitingReset? <==> w.device.flag.SwapPending?)
  }

  lemma StepFlags(hash: Hash, w: World, a: Action, leftOpen: bool)
    requires FlagsAgree(w, leftOpen) && (a.Download? ==> !leftOpen)
    ensures FlagsAgree(Step(hash, w, a), !a.Reset? && (LeavesTrialOpen(a) || leftOpen)) && NoTrialWrite(w, a)
  {
    hide ShaOf, VersionOf;
  }

  lemma {:induction false} ClosedTrials(hash: Hash, factory: seq<Byte>, openWrites: bool, actions: seq<Action>)
    requires ResetsFirst(actions)
    ensures FlagsAgree(Run(hash, factory, openWrites, actions), LeftOpen(actions))
    ensures NeverTrialWrite(hash, factory, openWrites, actions)
  {
    hide Step, NoTrialWrite, LeavesTrialOpen, FlagsAgree;
    if actions != [] {
      var init, last := actions[..|actions| - 1], actions[|actions| - 1];
      forall n | 0 <= n < |init| && init[n].Download? ensures !LeftOpen(init[..n]) {
        assert init[..n] == actions[..n];
      }
      ClosedTrials(hash, factory, openWrites, init);
      StepFlags(hash, Run(hash, factory, openWrites, init), last, LeftOpen(init));
      forall n | 0 <= n < |actions| ensures NoTrialWrite(Run(hash, factory, openWrites, actions[..n]), actions[n]) {
        if n < |init| {
          assert init[..n] == actions[..n] && init[n] == actions[n];
        } else {
          assert actions[..n] == init && actions[n] == last;
        }
      }
    } else {
      FactoryFlags(factory, openWrites);
    }
  }

  lemma FactoryFlags(factory: seq<Byte>, openWrites: bool)
    ensures FlagsAgree(Factory(factory, openWrites), false)
  {
  }

  /** If every confirmation succeeds or is followed by a reset before the next download, every settled image is
      trustworthy, whatever the bootloader library does about writes in a trial. */
  lemma ClosedTrialsAreSafe(hash: Hash, factory: seq<Byte>, openWrites: bool, actions: seq<Action>)
    requires ResetsFirst(actions)
    requires NoCollision(hash, Run(hash, factory, openWrites, actions))
    requires Run(hash, factory, openWrites, actions).device.flag.Settled?
    ensures var w := Run(hash, factory, openWrites, actions); Trustworthy(hash, w, factory, w.device.active)
  {
    hide Run, NeverTrialWrite, NoCollision, Trustworthy, ResetsFirst, FlagsAgree;
    ClosedTrials(hash, factory, openWrites, actions);
    SettledIsTrustworthy(hash, factory, openWrites, actions);
  }

  // ---- When one is ----

  lemma RunAppend(hash: Hash, factory: seq<Byte>, openWrites: bool, actions: seq<Action>, a: Action)
    ensures Run(hash, factory, openWrites, actions + [a]) == Step(hash, Run(hash, factory, openWrites, actions), a)
  {
  }

  /** A download while the trial is open, where that is not refused, overwrites the only way back: after the next reset
      the device settles on whatever was downloaded, whether or not its digest matched anything. */
  lemma TrialWriteIsFinal(hash: Hash, factory: seq<Byte>, openWrites: bool, actions: seq<Action>, body: seq<Byte>)
    requires var w := Run(hash, factory, openWrites, actions);
             WritesInTrial(w) && hash(body) != w.device.program.expected
    ensures var after := Run(hash, factory, openWrites, actions + [Download(body, true)] + [Reset]);
            after.device.flag.Settled? && after.device.active == body && after.server == Run(hash, factory, openWrites, actions).server
  {
    hide Run;
    RunAppend(hash, factory, openWrites, actions, Download(body, true));
    RunAppend(hash, factory, openWrites, actions + [Download(body, true)], Reset);
  }

  /** Exactly when a bad download is harmless. After any run without a write in a trial, let the device download a body
      nobody built and whose digest does not match, and reset: it ends up with an untrustworthy settled image if and
      only if the download was a write in a trial. */
  lemma DownloadSafeIff(hash: Hash, factory: seq<Byte>, openWrites: bool, actions: seq<Action>, body: seq<Byte>)
    requires NeverTrialWrite(hash, factory, openWrites, actions)
    requires NoCollision(hash, Run(hash, factory, openWrites, actions))
    requires body != factory && !BuiltBySome(Run(hash, factory, openWrites, actions).server, body)
    requires var p := Run(hash, factory, openWrites, actions).device.program; p.KnowsDigest? ==> hash(body) != p.expected
    ensures var t := Run(hash, factory, openWrites, actions + [Download(body, true)] + [Reset]);
            (t.device.flag.Settled? ==> Trustworthy(hash, t, factory, t.device.active))
            <==> !WritesInTrial(Run(hash, factory, openWrites, actions))
  {
    hide Run, NeverTrialWrite, NoCollision, BuiltBySome, TrialSince, Saw;
    var w := Run(hash, factory, openWrites, actions);
    var all := actions + [Download(body, true)] + [Reset];
    if WritesInTrial(w) {
      TrialWriteIsFinal(hash, factory, openWrites, actions, body);
    } else {
      BadDownloadLogs(hash, factory, openWrites, actions, body);
      NeverTrialWriteMore(hash, factory, openWrites, actions, Download(body, true));
      NeverTrialWriteMore(hash, factory, openWrites, actions + [Download(body, true)], Reset);
      if Run(hash, factory, openWrites, all).device.flag.Settled? {
        SettledIsTrustworthy(hash, factory, openWrites, all);
      }
    }
  }

  lemma NeverTrialWriteMore(hash: Hash, factory: seq<Byte>, openWrites: bool, actions: seq<Action>, a: Action)
    requires NeverTrialWrite(hash, factory, openWrites, actions)
    requires NoTrialWrite(Run(hash, factory, openWrites, actions), a)
    ensures NeverTrialWrite(hash, factory, openWrites, actions + [a])
  {
    hide Run, NoTrialWrite;
    var all := actions + [a];
    forall n | 0 <= n < |all| ensures NoTrialWrite(Run(hash, factory, openWrites, all[..n]), all[n]) {
      assert all[..n] == actions[..n];
      assert actions[..|actions|] == actions;
    }
  }

  lemma BadDownloadLogs(hash: Hash, factory: seq<Byte>, openWrites: bool, actions: seq<Action>, body: seq<Byte>)
    requires NoCollision(hash, Run(hash, factory, openWrites, actions))
    requires var p := Run(hash, factory, openWrites, actions).device.program; p.KnowsDigest? ==> hash(body) != p.expected
    ensures NoCollision(hash, Run(hash, factory, openWrites, actions + [Download(body, true)] + [Reset]))
  {
    hide Run, BuiltBySome;
    RunAppend(hash, factory, openWrites, actions, Download(body, true));
    RunAppend(hash, factory, openWrites, actions + [Download(body, true)], Reset);
  }

  /** One deploy of the one-byte image [1] as version 1, published. */
  function Release(): seq<Action> {
    [Deploying(Start([49], [1]))] + [Deploying(FinishBin(0))] + [Deploying(FinishSha(0))]
    + [Deploying(TruncateVersion(0))] + [Deploying(PublishVersion(0))]
  }

  lemma ReleaseRun(hash: Hash, factory: seq<Byte>, openWrites: bool)
    ensures var w := Run(hash, factory, openWrites, Release());
            && w.device == Factory(factory, openWrites).device
            && |w.server.deploys| == 1 && w.server.deploys[0].image == [1]
            && VersionFile in w.server.files && w.server.files[VersionFile] == [49, LF]
            && Sha([49]) in w.server.files && w.server.files[Sha([49])] == ShaText(hash, [1])
  {
    hide Run, ShaText;
    var a: seq<Action> := [];
    var w0 := Run(hash, factory, openWrites, a);
    EmptyRun(hash, factory, openWrites);
    RunAppend(hash, factory, openWrites, [], Deploying(Start([49], [1])));
    assert [] + [Deploying(Start([49], [1]))] == [Deploying(Start([49], [1]))];
    var s1 := ReleaseServer.Step(hash, EMPTY, Start([49], [1]));
    assert s1 == Server(map[], [Deploy([49], [1], Built)]);
    RunAppend(hash, factory, openWrites, [Deploying(Start([49], [1]))], Deploying(FinishBin(0)));
    RunAppend(hash, factory, openWrites, [Deploying(Start([49], [1]))] + [Deploying(FinishBin(0))], Deploying(FinishSha(0)));
    RunAppend(hash, factory, openWrites, [Deploying(Start([49], [1]))] + [Deploying(FinishBin(0))] + [Deploying(FinishSha(0))],
              Deploying(TruncateVersion(0)));
    RunAppend(hash, factory, openWrites, [Deploying(Start([49], [1]))] + [Deploying(FinishBin(0))] + [Deploying(FinishSha(0))]
                             + [Deploying(TruncateVersion(0))], Deploying(PublishVersion(0)));
  }

  lemma EmptyRun(hash: Hash, factory: seq<Byte>, openWrites: bool)
    ensures Run(hash, factory, openWrites, []) == Factory(factory, openWrites)
  {
  }

  /** A check of that release brings the device to the image's digest. */
  lemma CheckReachesDigest(hash: Hash, w: World)
    requires w.device.program.Idle?
    requires VersionFile in w.server.files && w.server.files[VersionFile] == [49, LF]
    requires Sha([49]) in w.server.files && w.server.files[Sha([49])] == ShaText(hash, [1])
    ensures Step(hash, Step(hash, w, FetchVersion(2)), FetchSha(65))
            == w.(device := w.device.(program := KnowsDigest(hash([1]))))
  {
    hide Step, VersionOf, ShaOf, Hex;
    var version: seq<Byte> := [49];
    OneIsOne();
    AnnouncedVersion(version);
    assert version + [LF] == [49, LF];
    VersionTaken(hash, w, [49, LF], 1);
    ShaRoundTrip(hash([1]), [], [LF]);
    assert [] + Hex(hash([1])) + [LF] == ShaText(hash, [1]);
    DigestTaken(hash, w.(device := w.device.(program := KnowsVersion(1))), ShaText(hash, [1]), 1, hash([1]));
  }

  lemma OneIsOne()
    ensures AllDigits([49]) && DecValue([49]) == 1 && Digits(1) == [49]
  {
    var s: seq<Byte> := [49];
    assert s[..0] == [];
  }

  /** The update is marked and swapped in ... */
  function Swapped(): seq<Action> {
    Release() + [FetchVersion(2)] + [FetchSha(65)] + [Download([1], true)] + [Reset]
  }

  /** ... passes its self-test, fails to be confirmed, and the device checks again. */
  function OpenTrial(): seq<Action> {
    Swapped() + [Sample(true, true)] + [MarkBooted(false)] + [FetchVersion(2)] + [FetchSha(65)]
  }

  lemma SwappedRun(hash: Hash, factory: seq<Byte>, openWrites: bool)
    ensures Run(hash, factory, openWrites, Swapped()).device == Device([1], factory, Trial, SelfTesting(false, false))
    ensures Run(hash, factory, openWrites, Swapped()).server == Run(hash, factory, openWrites, Release()).server
  {
    hide Run, Release, ShaText, VersionOf, ShaOf, Digits;
    ReleaseRun(hash, factory, openWrites);
    var a := Release();
    CheckReachesDigest(hash, Run(hash, factory, openWrites, a));
    var b := a + [FetchVersion(2)];
    var c := b + [FetchSha(65)];
    RunAppend(hash, factory, openWrites, a, FetchVersion(2));
    RunAppend(hash, factory, openWrites, b, FetchSha(65));
    RunAppend(hash, factory, openWrites, c, Download([1], true));
    RunAppend(hash, factory, openWrites, c + [Download([1], true)], Reset);
  }

  lemma OpenTrialRun(hash: Hash, factory: seq<Byte>, openWrites: bool)
    ensures Run(hash, factory, openWrites, OpenTrial()).device == Device([1], factory, Trial, KnowsDigest(hash([1])))
    ensures Run(hash, factory, openWrites, OpenTrial()).server == Run(hash, factory, openWrites, Release()).server
  {
    hide Run, Release, Swapped, ShaText, VersionOf, ShaOf, Digits;
    ReleaseRun(hash, factory, openWrites);
    SwappedRun(hash, factory, openWrites);
    var e := Swapped();
    var f := e + [Sample(true, true)];
    var g := f + [MarkBooted(false)];
    RunAppend(hash, factory, openWrites, e, Sample(true, true));
    RunAppend(hash, factory, openWrites, f, MarkBooted(false));
    CheckReachesDigest(hash, Run(hash, factory, openWrites, g));
    RunAppend(hash, factory, openWrites, g, FetchVersion(2));
    RunAppend(hash, factory, openWrites, g + [FetchVersion(2)], FetchSha(65));
  }

  /** Where writes in a trial are taken, the run that needs the condition exists: a device from the factory, one honest
      release, one failed confirmation and one bad download settle it on bytes nobody built. */
  lemma FailedConfirmationCanSettleAnything(hash: Hash, factory: seq<Byte>, body: seq<Byte>)
    requires hash(body) != hash([1]) && body != factory
    ensures var after := Run(hash, factory, true, OpenTrial() + [Download(body, true)] + [Reset]);
            && after.device.flag.Settled? && after.device.active == body
            && !BuiltBySome(after.server, body) && !Trustworthy(hash, after, factory, body)
  {
    hide Run, OpenTrial, Release;
    ReleaseRun(hash, factory, true);
    OpenTrialRun(hash, factory, true);
    PolicyStays(hash, factory, true, OpenTrial());
    TrialWriteIsFinal(hash, factory, true, OpenTrial(), body);
  }

  // ---- The update task as steps of the machine ----

  ghost function Deployed(hash: Hash, w: World, steps: seq<DeployAction>): World {
    if steps == [] then w
    else Step(hash, Deployed(hash, w, steps[..|steps| - 1]), Deploying(steps[|steps| - 1]))
  }

  lemma {:induction false} DeployedTouchesServer(hash: Hash, w: World, steps: seq<DeployAction>)
    ensures Deployed(hash, w, steps) == w.(server := RunFrom(hash, w.server, steps))
  {
    if steps != [] {
      DeployedTouchesServer(hash, w, steps[..|steps| - 1]);
    }
  }

  /** The server answers on that connection for the file whose name the request asks for under the root, with what the
      file holds at that moment: whatever small body was read is a front part of it. For a missing file it sends none. */
  ghost predicate Serves(files: map<File, seq<Byte>>, root: seq<Byte>, exchange: UpdateTask.Exchange, cap: nat) {
    forall file :: Asked(exchange, root + [Url.SLASH] + FileName(file)) ==> ReadOff(files, file, exchange, cap)
  }

  predicate Asked(exchange: UpdateTask.Exchange, target: seq<Byte>) {
    var r := RequestReader.ReadRequest(exchange.request);
    r.Some? && r.value.target == target
  }

  ghost predicate ReadOff(files: map<File, seq<Byte>>, file: File, exchange: UpdateTask.Exchange, cap: nat) {
    forall text :: UpdateTask.TextBody(exchange, cap, text) ==> file in files && text <= files[file]
  }

  /** The three requests of an accepted check ask for the version file, that version's checksum and its image. */
  lemma RequestsAsk(
    c: UpdateTask.Config, uri: Url.Uri, seen: seq<UpdateTask.Exchange>, version: nat, expected: Digest, length: nat)
    requires UpdateTask.Accepted(c, uri, seen, version, expected, length)
    ensures |seen| == 3 && Asked(seen[0], uri.path + [Url.SLASH] + FileName(VersionFile))
    ensures Asked(seen[1], uri.path + [Url.SLASH] + FileName(Sha(Digits(version))))
    ensures Asked(seen[2], uri.path + [Url.SLASH] + FileName(Bin(Digits(version))))
  {
    hide UpdateTask.RequestText, Url.UrlOf, RequestReader.ReadRequest, VersionOf, ShaOf, UpdateTask.TextBody, FileName;
    var text :| UpdateTask.TextBody(seen[0], UpdateTask.VERSION_MAX_BYTES, text) && VersionOf(text) == Some(version);
    UpdateTask.Fits32(text);
    UpdateTask.FileNames(version);
    UpdateRequest.RequestRead(c.base, c.project, uri, UpdateTask.VersionName(), c.user, c.pass);
    UpdateRequest.RequestRead(c.base, c.project, uri, UpdateTask.ShaName(version), c.user, c.pass);
    UpdateRequest.RequestRead(c.base, c.project, uri, UpdateTask.BinName(version), c.user, c.pass);
  }

  lemma FrontServed(files: map<File, seq<Byte>>, file: File, text: seq<Byte>)
    requires file in files && text <= files[file]
    ensures Served(files, file, |text|) == Some(text)
  {
    assert files[file][..|text|] == text;
  }

  lemma VersionTaken(hash: Hash, w: World, text: seq<Byte>, version: nat)
    requires w.device.program.Idle? && VersionFile in w.server.files && text <= w.server.files[VersionFile]
    requires VersionOf(text) == Some(version)
    ensures Step(hash, w, FetchVersion(|text|)) == w.(device := w.device.(program := KnowsVersion(version)))
  {
    hide VersionOf;
    FrontServed(w.server.files, VersionFile, text);
  }

  lemma DigestTaken(hash: Hash, w: World, text: seq<Byte>, version: nat, expected: Digest)
    requires w.device.program == KnowsVersion(version)
    requires Sha(Digits(version)) in w.server.files && text <= w.server.files[Sha(Digits(version))]
    requires ShaOf(text) == Some(expected)
    ensures Step(hash, w, FetchSha(|text|)) == w.(device := w.device.(program := KnowsDigest(expected)))
  {
    hide ShaOf;
    FrontServed(w.server.files, Sha(Digits(version)), text);
  }

  lemma BodyEnds(hash: Hash, w: World, body: seq<Byte>, expected: Digest)
    requires w.device.program == KnowsDigest(expected) && !RefusesWrites(w)
    ensures var t := Step(hash, w, Download(body, true));
            hash(body) == expected ==>
              && t.log == w.log + [Marked(body, expected)]
              && t.device == Device(w.device.active, body, SwapPending, AwaitingReset)
    ensures Step(hash, w, Download(body, false)) == w.(device := w.device.(dfu := body, program := Idle))
    ensures Step(hash, w, GiveUp) == w.(device := w.device.(program := Idle))
  {
  }

  /** Any write now would be refused. */
  predicate RefusesWrites(w: World) {
    w.device.flag.Trial? && !w.openWrites
  }

  /** The device of this machine covers the update task. Where a check accepts a version, a checksum and an image head
      from a server that serves each request the file it asks for, as it stands then, the machine accepts the same
      version and the same digest, whatever deploys did between the fetches. Then a commit is its mark of the same body;
      a session that stopped, leaving whatever it left in the partition, is its download of those contents without a
      mark; and an end before the first write is its giving up. */
  lemma CheckCovered(
    hash: Hash, w: World, between: seq<DeployAction>, later: seq<DeployAction>,
    c: UpdateTask.Config, uri: Url.Uri, seen: seq<UpdateTask.Exchange>, version: nat, expected: Digest, length: nat,
    log: seq<Session.FlashCall>, dfu: seq<Byte>)
    returns (v: nat, n: nat)
    requires w.device.program.Idle? && !RefusesWrites(w)
    requires UpdateTask.Accepted(c, uri, seen, version, expected, length)
    requires Serves(w.server.files, uri.path, seen[0], UpdateTask.VERSION_MAX_BYTES)
    requires Serves(RunFrom(hash, w.server, between).files, uri.path, seen[1], UpdateTask.SHA_MAX_BYTES)
    ensures var known := Deployed(hash, Step(hash, w, FetchVersion(v)), between);
            var ready := Deployed(hash, Step(hash, known, FetchSha(n)), later);
            && (UpdateTask.Committed(seen[2], length, expected, hash, log, dfu) ==>
                  var body := UpdateTask.Body(seen[2])[..length];
                  var t := Step(hash, ready, Download(body, true));
                  && t.log == w.log + [Marked(body, expected)]
                  && t.device == Device(w.device.active, body, SwapPending, AwaitingReset))
            && (var t := Step(hash, ready, Download(dfu, false));
                t.log == w.log && t.device == w.device.(dfu := dfu))
            && (var t := Step(hash, ready, GiveUp); t.log == w.log && t.device == w.device)
  {
    RequestsAsk(c, uri, seen, version, expected, length);
    assert ReadOff(w.server.files, VersionFile, seen[0], UpdateTask.VERSION_MAX_BYTES) by {
      hide Asked, FileName, ReadOff;
    }
    assert ReadOff(RunFrom(hash, w.server, between).files, Sha(Digits(version)), seen[1], UpdateTask.SHA_MAX_BYTES) by {
      hide Asked, FileName, ReadOff;
    }
    hide *;
    var announced, checksum := TextsSeen(c, uri, seen, version, expected, length);
    v, n := |announced|, |checksum|;
    var first := Step(hash, w, FetchVersion(v));
    OnServer(w.server.files, VersionFile, seen[0], UpdateTask.VERSION_MAX_BYTES, announced);
    VersionTaken(hash, w, announced, version);
    DeployedTouchesServer(hash, first, between);
    var known := Deployed(hash, first, between);
    OnServer(known.server.files, Sha(Digits(version)), seen[1], UpdateTask.SHA_MAX_BYTES, checksum);
    DigestTaken(hash, known, checksum, version, expected);
    var second := Step(hash, known, FetchSha(n));
    DeployedTouchesServer(hash, second, later);
    var ready := Deployed(hash, second, later);
    RefusalStays(w, ready);
    BodyEnds(hash, ready, dfu, expected);
    if UpdateTask.Committed(seen[2], length, expected, hash, log, dfu) {
      BodyMatches(seen[2], length, expected, hash, log, dfu);
      BodyEnds(hash, ready, UpdateTask.Body(seen[2])[..length], expected);
    }
  }

  lemma RefusalStays(w: World, t: World)
    requires t.device.flag == w.device.flag && t.openWrites == w.openWrites
    ensures RefusesWrites(t) == RefusesWrites(w)
  {
  }

  lemma TextsSeen(
    c: UpdateTask.Config, uri: Url.Uri, seen: seq<UpdateTask.Exchange>, version: nat, expected: Digest, length: nat)
    returns (announced: seq<Byte>, checksum: seq<Byte>)
    requires UpdateTask.Accepted(c, uri, seen, version, expected, length)
    ensures |seen| == 3
    ensures UpdateTask.TextBody(seen[0], UpdateTask.VERSION_MAX_BYTES, announced) && VersionOf(announced) == Some(version)
    ensures UpdateTask.TextBody(seen[1], UpdateTask.SHA_MAX_BYTES, checksum) && ShaOf(checksum) == Some(expected)
  {
    hide VersionOf, ShaOf, UpdateTask.TextBody;
    announced :| UpdateTask.TextBody(seen[0], UpdateTask.VERSION_MAX_BYTES, announced)
                 && VersionOf(announced) == Some(version);
    checksum :| UpdateTask.TextBody(seen[1], UpdateTask.SHA_MAX_BYTES, checksum) && ShaOf(checksum) == Some(expected);
  }

  lemma OnServer(
    files: map<File, seq<Byte>>, file: File, exchange: UpdateTask.Exchange, cap: nat, text: seq<Byte>)
    requires ReadOff(files, file, exchange, cap) && UpdateTask.TextBody(exchange, cap, text)
    ensures file in files && text <= files[file]
  {
  }

  lemma BodyMatches(
    image: UpdateTask.Exchange, length: nat, expected: Digest, hash: Hash, log: seq<Session.FlashCall>, dfu: seq<Byte>)
    requires UpdateTask.Committed(image, length, expected, hash, log, dfu)
    ensures length <= |UpdateTask.Body(image)| && hash(UpdateTask.Body(image)[..length]) == expected
  {
  }

  // ---- The self-test as steps of the machine ----

  ghost function From(hash: Hash, w: World, actions: seq<Action>): World {
    if actions == [] then w else Step(hash, From(hash, w, actions[..|actions| - 1]), actions[|actions| - 1])
  }

  /** The samples of a self-test trace, and the sightings they log. */
  function Samples(trace: seq<SelfTest.Turn>): seq<Action> {
    if trace == [] then []
    else
      var signals := trace[|trace| - 1].signals;
      Samples(trace[..|trace| - 1]) + [Sample(signals.bleAdvertising, signals.lampReady)]
  }

  function Sightings(trace: seq<SelfTest.Turn>): seq<Entry> {
    if trace == [] then []
    else
      var signals := trace[|trace| - 1].signals;
      Sightings(trace[..|trace| - 1])
      + (if signals.bleAdvertising then [SawBle] else []) + (if signals.lampReady then [SawLamp] else [])
  }

  /** How a boot goes on after its self-test, as a step. */
  function Ending(after: SelfTest.AfterBoot): Action {
    match after
    case Confirmed => MarkBooted(true)
    case Unconfirmed => MarkBooted(false)
    case _ => Reset
  }

  lemma FromAppend(hash: Hash, w: World, actions: seq<Action>, a: Action)
    ensures From(hash, w, actions + [a]) == Step(hash, From(hash, w, actions), a)
  {
    assert (actions + [a])[..|actions|] == actions;
  }

  lemma SampleTaken(hash: Hash, w: World, ble: bool, lamp: bool)
    requires w.device.program.SelfTesting? && !(w.device.program.ble && w.device.program.lamp)
    ensures Step(hash, w, Sample(ble, lamp)) ==
            w.(device := w.device.(program := SelfTesting(w.device.program.ble || ble, w.device.program.lamp || lamp)),
               log := w.log + (if ble then [SawBle] else []) + (if lamp then [SawLamp] else []))
  {
  }

  lemma {:induction false} SamplesTaken(hash: Hash, w: World, trace: seq<SelfTest.Turn>)
    requires w.device.program == SelfTesting(false, false)
    requires forall n :: 0 <= n < |trace| ==> SelfTest.GoesOn(trace[..n])
    ensures From(hash, w, Samples(trace)) ==
            w.(device := w.device.(program := SelfTesting(SelfTest.SeenBle(trace), SelfTest.SeenLamp(trace))),
               log := w.log + Sightings(trace))
  {
    hide Step, SelfTest.SeenBle, SelfTest.SeenLamp;
    SelfTest.NothingSeen();
    if trace != [] {
      var k := |trace| - 1;
      var before, turn := trace[..k], trace[k];
      assert trace == before + [turn];
      forall n | 0 <= n < k ensures SelfTest.GoesOn(before[..n]) {
        assert before[..n] == trace[..n];
      }
      SamplesTaken(hash, w, before);
      SelfTest.SeenMore(before, turn);
      var mid := From(hash, w, Samples(before));
      SampleTaken(hash, mid, turn.signals.bleAdvertising, turn.signals.lampReady);
      FromAppend(hash, w, Samples(before), Sample(turn.signals.bleAdvertising, turn.signals.lampReady));
      AssocLog(w.log, Sightings(before), if turn.signals.bleAdvertising then [SawBle] else [],
               if turn.signals.lampReady then [SawLamp] else []);
    } else {
      assert w.log + [] == w.log;
    }
  }

  lemma AssocLog(a: seq<Entry>, b: seq<Entry>, c: seq<Entry>, d: seq<Entry>)
    ensures a + (b + c + d) == a + b + c + d
  {
  }

  /** The self-test of this machine covers the boot code: from a freshly swapped boot, the samples of any trace the boot
      code can take and the way it goes on are a run of the machine that logs just those sightings, confirms exactly
      when the boot code did, and otherwise reboots or goes on with the trial open. */
  lemma SelfTestCovered(hash: Hash, w: World, trace: seq<SelfTest.Turn>, after: SelfTest.AfterBoot)
    requires w.device.program == SelfTesting(false, false) && SelfTest.BootRun(trace, after)
    ensures var t := From(hash, w, Samples(trace) + [Ending(after)]);
            var sighted := w.log + Sightings(trace);
            match after
            case Confirmed =>
              t.device == w.device.(flag := Settled, program := Idle) && t.log == sighted + [Confirmed(w.device.active)]
            case Unconfirmed => t.device == w.device.(program := Idle) && t.log == sighted
            case ResetToRevert => t.device == Reboot(w.device) && t.log == sighted + [RebootEntry(w.device)]
            case NothingToConfirm => false
  {
    hide From, SelfTest.SeenBle, SelfTest.SeenLamp, Samples, Sightings;
    var r :| SelfTest.IsRun(trace, r)
      && (r.verdict == SelfTest.Confirm <==> after == SelfTest.Confirmed || after == SelfTest.Unconfirmed)
      && (r.verdict == SelfTest.Revert <==> after == SelfTest.ResetToRevert);
    SamplesTaken(hash, w, trace);
    FromAppend(hash, w, Samples(trace), Ending(after));
  }
}
