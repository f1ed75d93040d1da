/** The release directory and the deploys that write it: image, then checksum, then version, then prune. Any number
    of deploys may be under way, every upload may stop half way, and any deploy may abort at any step. */
module ReleaseServer {
  import opened Bytes
  import opened Decimal
  import opened ReleaseFiles

  const MAX_IMAGE_BYTES: nat := 780 * 1024

  /** How far a deploy has come. */
  datatype Stage =
    | Built
    | SendingBin
    | SentBin
    | SendingSha
    | SentSha
    | Truncated
    | Published
    | Pruning(prev: Option<int>)
    | Over

  /** One run of the script: the text of the VERSION file, the image it built. */
  datatype Deploy = Deploy(version: seq<Byte>, image: seq<Byte>, stage: Stage)

  datatype Server = Server(files: map<File, seq<Byte>>, deploys: seq<Deploy>)

  datatype DeployAction =
    | Start(version: seq<Byte>, image: seq<Byte>)
    | SendBin(i: nat, torn: seq<Byte>)
    | FinishBin(i: nat)
    | SendSha(i: nat, upTo: nat)
    | FinishSha(i: nat)
    | TruncateVersion(i: nat)
    | PublishVersion(i: nat)
    | StartPrune(i: nat, prev: Option<int>)
    | PruneFile(i: nat, file: File)
    | Abort(i: nat)

  const EMPTY: Server := Server(map[], [])

  /** The checksum file: lowercase hexadecimal and a newline. */
  function ShaText(hash: Hash, image: seq<Byte>): seq<Byte> {
    Hex(hash(image)) + [LF]
  }

  /** `$((10#$base))`: 64-bit signed, wrapping. */
  function BashNumber(digits: seq<Byte>): int
    requires AllDigits(digits)
  {
    (DecValue(digits) + 0x8000_0000_0000_0000) % 0x1_0000_0000_0000_0000 - 0x8000_0000_0000_0000
  }

  /** A name the prune loops look at. */
  predicate IsNumber(base: seq<Byte>) {
    base != [] && AllDigits(base)
  }

  /** `prev` after the first prune loop: the largest number below `version` among the images present. */
  ghost predicate LargestBelow(files: map<File, seq<Byte>>, version: int, prev: Option<int>) {
    && (forall b :: Bin(b) in files && IsNumber(b) && BashNumber(b) < version ==> prev.Some? && BashNumber(b) <= prev.value)
    && (prev.Some? ==> exists b :: Bin(b) in files && IsNumber(b) && BashNumber(b) == prev.value < version)
  }

  /** A name the second loop leaves alone. */
  predicate Spared(base: seq<Byte>, version: int, prev: Option<int>) {
    !IsNumber(base) || BashNumber(base) == version || (prev.Some? && BashNumber(base) == prev.value)
  }

  // ---- The script, step by step ----

  ghost predicate Enabled(s: Server, a: DeployAction) {
    match a
    case Start(version, image) => IsNumber(version) && 0 < |image| <= MAX_IMAGE_BYTES
    case SendBin(i, _) => i < |s.deploys| && (s.deploys[i].stage.Built? || s.deploys[i].stage.SendingBin?)
    case FinishBin(i) => i < |s.deploys| && (s.deploys[i].stage.Built? || s.deploys[i].stage.SendingBin?)
    case SendSha(i, n) => i < |s.deploys| && (s.deploys[i].stage.SentBin? || s.deploys[i].stage.SendingSha?) && n <= 64
    case FinishSha(i) => i < |s.deploys| && (s.deploys[i].stage.SentBin? || s.deploys[i].stage.SendingSha?)
    case TruncateVersion(i) => i < |s.deploys| && s.deploys[i].stage.SentSha?
    case PublishVersion(i) => i < |s.deploys| && s.deploys[i].stage.Truncated?
    case StartPrune(i, prev) =>
      i < |s.deploys| && s.deploys[i].stage.Published?
      && IsNumber(s.deploys[i].version) && LargestBelow(s.files, BashNumber(s.deploys[i].version), prev)
    case PruneFile(i, file) =>
      i < |s.deploys| && s.deploys[i].stage.Pruning? && !file.VersionFile?
      && IsNumber(s.deploys[i].version)
      && !Spared(file.base, BashNumber(s.deploys[i].version), s.deploys[i].stage.prev)
    case Abort(i) => i < |s.deploys|
  }

  function At(s: Server, i: nat, stage: Stage): Server
    requires i < |s.deploys|
  {
    s.(deploys := s.deploys[i := s.deploys[i].(stage := stage)])
  }

  function Put(s: Server, file: File, content: seq<Byte>): Server {
    s.(files := s.files[file := content])
  }

  /** What an enabled step does; anything else changes nothing. */
  ghost function Step(hash: Hash, s: Server, a: DeployAction): Server {
    if !Enabled(s, a) then s
    else
      match a
      case Start(version, image) => s.(deploys := s.deploys + [Deploy(version, image, Built)])
      case SendBin(i, torn) => Put(At(s, i, SendingBin), Bin(s.deploys[i].version), torn)
      case FinishBin(i) => Put(At(s, i, SentBin), Bin(s.deploys[i].version), s.deploys[i].image)
      case SendSha(i, n) => Put(At(s, i, SendingSha), Sha(s.deploys[i].version), ShaText(hash, s.deploys[i].image)[..n])
      case FinishSha(i) => Put(At(s, i, SentSha), Sha(s.deploys[i].version), ShaText(hash, s.deploys[i].image))
      case TruncateVersion(i) => Put(At(s, i, Truncated), VersionFile, [])
      case PublishVersion(i) => Put(At(s, i, Published), VersionFile, s.deploys[i].version + [LF])
      case StartPrune(i, prev) => At(s, i, Pruning(prev))
      case PruneFile(i, file) => s.(files := s.files - {file})
      case Abort(i) => At(s, i, Over)
  }

  ghost function RunFrom(hash: Hash, s: Server, actions: seq<DeployAction>): Server {
    if actions == [] then s else Step(hash, RunFrom(hash, s, actions[..|actions| - 1]), actions[|actions| - 1])
  }

  ghost function Run(hash: Hash, actions: seq<DeployAction>): Server {
    RunFrom(hash, EMPTY, actions)
  }

  lemma RunFromAppend(hash: Hash, s: Server, actions: seq<DeployAction>, a: DeployAction)
    ensures RunFrom(hash, s, actions + [a]) == Step(hash, RunFrom(hash, s, actions), a)
  {
    assert (actions + [a])[..|actions|] == actions;
  }

  // ---- Checksums always tell the truth about some built image ----

  ghost predicate BuiltBySome(s: Server, image: seq<Byte>) {
    exists i :: 0 <= i < |s.deploys| && s.deploys[i].image == image
  }

  /** Every checksum file is the front part, possibly all, of the true checksum text of a built image. */
  ghost predicate TrueChecksums(hash: Hash, s: Server) {
    forall b :: Sha(b) in s.files ==> exists image :: BuiltBySome(s, image) && s.files[Sha(b)] <= ShaText(hash, image)
  }

  lemma BuiltStays(hash: Hash, s: Server, a: DeployAction, image: seq<Byte>)
    requires BuiltBySome(s, image)
    ensures BuiltBySome(Step(hash, s, a), image)
  {
    var i :| 0 <= i < |s.deploys| && s.deploys[i].image == image;
    assert Step(hash, s, a).deploys[i].image == image;
  }

  lemma StepKeepsTrue(hash: Hash, s: Server, a: DeployAction)
    requires TrueChecksums(hash, s)
    ensures TrueChecksums(hash, Step(hash, s, a))
  {
    hide Hex;
    var t := Step(hash, s, a);
    forall b | Sha(b) in t.files
      ensures exists image :: BuiltBySome(t, image) && t.files[Sha(b)] <= ShaText(hash, image)
    {
      if Sha(b) in s.files && t.files[Sha(b)] == s.files[Sha(b)] {
        var image :| BuiltBySome(s, image) && s.files[Sha(b)] <= ShaText(hash, image);
        BuiltStays(hash, s, a, image);
      } else {
        assert a.SendSha? || a.FinishSha?;
        var image := s.deploys[a.i].image;
        assert BuiltBySome(s, image);
        BuiltStays(hash, s, a, image);
        assert t.files[Sha(b)] <= ShaText(hash, image);
      }
    }
  }

  /** In every run, with any interleaving of deploys, torn uploads, republished versions and aborts. */
  lemma {:induction false} AlwaysTrueChecksums(hash: Hash, actions: seq<DeployAction>)
    ensures TrueChecksums(hash, Run(hash, actions))
  {
    if actions != [] {
      AlwaysTrueChecksums(hash, actions[..|actions| - 1]);
      StepKeepsTrue(hash, Run(hash, actions[..|actions| - 1]), actions[|actions| - 1]);
    }
  }

  /** A digest read from any front part of a checksum file is the digest of a built image. */
  lemma ReadDigestIsTrue(hash: Hash, s: Server, b: seq<Byte>, text: seq<Byte>, d: Digest)
    requires TrueChecksums(hash, s) && Sha(b) in s.files && text <= s.files[Sha(b)]
    requires ShaOf(text) == Some(d)
    ensures exists image :: BuiltBySome(s, image) && hash(image) == d
  {
    var image :| BuiltBySome(s, image) && s.files[Sha(b)] <= ShaText(hash, image);
    TornChecksum(hash(image), text, d);
  }

  /** A torn checksum text either fails to parse or already holds all 64 digits. */
  lemma TornChecksum(whole: Digest, text: seq<Byte>, d: Digest)
    requires text <= Hex(whole) + [LF] && ShaOf(text) == Some(d)
    ensures d == whole
  {
    var full := Hex(whole) + [LF];
    var before, after := TrimSplits(text);
    assert text == before + Hex(d) + after;
    assert |text| >= 64;
    assert text[0] == full[0] == Hex(whole)[0];
    assert !IsSpace(text[0]);
    assert before == [];
    assert Hex(d) == text[..64] == full[..64] == Hex(whole);
    HexInjective(d, whole);
  }

  // ---- What is announced stays whole ----

  /** A number too large for the device to read as a version. */
  predicate TooBig(version: seq<Byte>) {
    IsNumber(version) && DecValue(version) > U32_MAX
  }

  /** The device can read a version off the version file. */
  predicate Readable(s: Server) {
    VersionFile in s.files && VersionOf(s.files[VersionFile]).Some?
  }

  /** The version file says exactly this VERSION. */
  predicate Says(s: Server, version: seq<Byte>) {
    VersionFile in s.files && s.files[VersionFile] == version + [LF]
  }

  /** Deploy `i`'s version is what the version file says. */
  predicate Announces(s: Server, i: nat) {
    i < |s.deploys| && Says(s, s.deploys[i].version)
  }

  /** The image and checksum of deploy `i` are on the server, whole. */
  ghost predicate Complete(hash: Hash, s: Server, i: nat) {
    && i < |s.deploys|
    && Bin(s.deploys[i].version) in s.files && s.files[Bin(s.deploys[i].version)] == s.deploys[i].image
    && Sha(s.deploys[i].version) in s.files && s.files[Sha(s.deploys[i].version)] == ShaText(hash, s.deploys[i].image)
  }

  /** What the device reads off the version file, if anything, is an announced deploy whose files are whole, under the
      very names the device asks for. */
  ghost predicate Available(hash: Hash, s: Server) {
    Readable(s) ==>
      exists i: nat :: Announces(s, i) && Complete(hash, s, i)
                       && Digits(VersionOf(s.files[VersionFile]).value) == s.deploys[i].version
  }

  /** Deploy `i`, if it is pruning, leaves files with this name alone. */
  predicate Spares(s: Server, i: nat, base: seq<Byte>)
    requires i < |s.deploys|
  {
    s.deploys[i].stage.Pruning? ==>
      IsNumber(s.deploys[i].version) && Spared(base, BashNumber(s.deploys[i].version), s.deploys[i].stage.prev)
  }

  /** Every deploy has ended or has only pruning left. */
  predicate Quiet(s: Server) {
    forall i :: 0 <= i < |s.deploys| ==> s.deploys[i].stage.Over? || s.deploys[i].stage.Pruning?
  }

  /** When a version may be started: the device cannot read it anyway, or it is spelled canonically, is not the one
      announced, and every prune still going on spares it. Going back to a lower version is allowed. */
  predicate MayStart(s: Server, version: seq<Byte>) {
    TooBig(version) ||
    (Canonical(version) && !Says(s, version) && forall i: nat :: i < |s.deploys| ==> Spares(s, i, version))
  }

  ghost predicate InOrder(s: Server, a: DeployAction) {
    a.Start? ==> Quiet(s) && MayStart(s, a.version)
  }

  ghost predicate AllInOrder(hash: Hash, s: Server, actions: seq<DeployAction>) {
    forall n :: 0 <= n < |actions| ==> InOrder(RunFrom(hash, s, actions[..n]), actions[n])
  }

  /** The invariant of such runs: what is readable off the version file is a whole deploy that every prune spares; the
      newest deploy is the only one not over or pruning, and has put on the server what its stage says. */
  ghost predicate Orderly(hash: Hash, s: Server) {
    && (forall i :: 0 <= i < |s.deploys| ==> s.deploys[i].image != [] && (Canonical(s.deploys[i].version) || TooBig(s.deploys[i].version)))
    && (forall i: nat :: i < |s.deploys| - 1 ==> BesideLast(s, i))
    && (Readable(s) ==> exists k: nat :: Announces(s, k) && Complete(hash, s, k))
    && (forall i: nat, k: nat :: i < |s.deploys| && Readable(s) && Announces(s, k) ==> Spares(s, i, s.deploys[k].version))
    && (s.deploys != [] ==> StageHolds(hash, s, |s.deploys| - 1))
  }

  predicate BesideLast(s: Server, i: nat)
    requires i < |s.deploys|
  {
    var last := s.deploys[|s.deploys| - 1].version;
    (s.deploys[i].stage.Over? || s.deploys[i].stage.Pruning?) && (TooBig(last) || Spares(s, i, last))
  }

  ghost predicate StageHolds(hash: Hash, s: Server, n: nat)
    requires n < |s.deploys|
  {
    var d := s.deploys[n];
    && (d.stage.Published? || d.stage.Pruning? ==> Announces(s, n))
    && (TooBig(d.version) || d.stage.Over? ||
        match d.stage
        case Built => !Announces(s, n)
        case SendingBin => !Announces(s, n)
        case SentBin => !Announces(s, n) && Bin(d.version) in s.files && s.files[Bin(d.version)] == d.image
        case SendingSha => !Announces(s, n) && Bin(d.version) in s.files && s.files[Bin(d.version)] == d.image
        case SentSha => !Announces(s, n) && Complete(hash, s, n)
        case _ => Complete(hash, s, n))
  }

  lemma AnnouncedVersion(version: seq<Byte>)
    requires AllDigits(version) && version != []
    ensures VersionOf(version + [LF]) == if DecValue(version) <= U32_MAX then Some(DecValue(version)) else None
  {
    TrimPadded([], version, [LF]);
    assert [] + version + [LF] == version + [LF];
  }

  /** The device asks for the canonical spelling of the number it read, so a published VERSION leads it to the
      deploy's own files exactly when that VERSION is canonical and fits 32 bits. */
  lemma DeviceFindsIff(version: seq<Byte>)
    requires IsNumber(version)
    ensures (exists n :: VersionOf(version + [LF]) == Some(n) && Digits(n) == version)
            <==> Canonical(version) && DecValue(version) <= U32_MAX
  {
    AnnouncedVersion(version);
    CanonicalPrints(version);
  }

  /** A leading zero publishes version 7 under names nobody asks for. */
  lemma LeadingZeroIsLost()
    ensures IsNumber([48, 48, 55]) && VersionOf([48, 48, 55] + [LF]) == Some(7) && Digits(7) != [48, 48, 55]
  {
    var s: seq<Byte> := [48, 48, 55];
    AnnouncedVersion(s);
    var a := s[..2];
    var b := a[..1];
    assert b[..0] == [] && b[0] == a[0] == a[1] == 48;
    assert DecValue(b) == 0;
    assert DecValue(a) == 0;
    assert DecValue(s) == 7;
  }

  lemma SaysOne(s: Server, a: seq<Byte>, b: seq<Byte>)
    requires Says(s, a) && Says(s, b)
    ensures a == b
  {
    var text := s.files[VersionFile];
    assert text[..|text| - 1] == a;
    assert text[..|text| - 1] == b;
  }

  lemma BigUnread(s: Server, version: seq<Byte>)
    requires TooBig(version) && Says(s, version)
    ensures !Readable(s)
  {
    AnnouncedVersion(version);
  }

  lemma OrderlyIsAvailable(hash: Hash, s: Server)
    requires Orderly(hash, s)
    ensures Available(hash, s)
  {
    hide ShaText, Spares, BesideLast, StageHolds, VersionOf;
    if Readable(s) {
      var i: nat :| Announces(s, i) && Complete(hash, s, i);
      AnnouncedVersion(s.deploys[i].version);
      CanonicalPrints(s.deploys[i].version);
    }
  }

  /** What a step has to leave alone for the invariant to hold after it, when the version file stays as it is. */
  lemma StillOrderly(hash: Hash, s: Server, t: Server)
    requires Orderly(hash, s) && |t.deploys| == |s.deploys| > 0
    requires forall i :: 0 <= i < |s.deploys| ==>
               t.deploys[i].version == s.deploys[i].version && t.deploys[i].image == s.deploys[i].image
    requires forall i: nat :: i < |s.deploys| - 1 ==>
               t.deploys[i].stage == s.deploys[i].stage || t.deploys[i].stage.Over?
    requires var n := |s.deploys| - 1; t.deploys[n].stage == s.deploys[n].stage || !t.deploys[n].stage.Pruning?
    requires (VersionFile in t.files) == (VersionFile in s.files)
    requires VersionFile in s.files ==> t.files[VersionFile] == s.files[VersionFile]
    requires forall k: nat :: Readable(s) && Announces(s, k) && Complete(hash, s, k) ==> Complete(hash, t, k)
    requires StageHolds(hash, t, |s.deploys| - 1)
    ensures Orderly(hash, t)
  {
    hide ShaText, Canonical, TooBig, StageHolds, VersionOf, Spared, BashNumber, Complete;
    assert Readable(t) == Readable(s);
    assert forall k: nat :: Announces(t, k) == Announces(s, k);
    forall i: nat | i < |t.deploys| - 1 ensures BesideLast(t, i) {
      assert BesideLast(s, i);
    }
    if Readable(s) {
      var k: nat :| Announces(s, k) && Complete(hash, s, k);
      assert Announces(t, k) && Complete(hash, t, k);
    }
    forall i: nat, k: nat | i < |t.deploys| && Readable(t) && Announces(t, k) ensures Spares(t, i, t.deploys[k].version) {
      assert Spares(s, i, s.deploys[k].version);
    }
  }

  lemma ActiveIsLast(hash: Hash, s: Server, i: nat)
    requires Orderly(hash, s) && i < |s.deploys| && !s.deploys[i].stage.Over? && !s.deploys[i].stage.Pruning?
    ensures i == |s.deploys| - 1
  {
    hide StageHolds, Complete, VersionOf;
    assert i < |s.deploys| - 1 ==> BesideLast(s, i);
  }

  /** A started deploy changes no file. */
  lemma StartOrderly(hash: Hash, s: Server, a: DeployAction)
    requires Orderly(hash, s) && InOrder(s, a) && Enabled(s, a) && a.Start?
    ensures Orderly(hash, Step(hash, s, a))
  {
    hide ShaText, Canonical, TooBig, VersionOf, Spared, BashNumber;
    var t := Step(hash, s, a);
    var n := |s.deploys|;
    assert t.deploys[n] == Deploy(a.version, a.image, Built) && forall i :: 0 <= i < n ==> t.deploys[i] == s.deploys[i];
    if Readable(s) {
      var k: nat :| Announces(s, k) && Complete(hash, s, k);
      assert Announces(t, k) && Complete(hash, t, k);
      forall i: nat, j: nat | i < |t.deploys| && Announces(t, j) ensures Spares(t, i, t.deploys[j].version) {
        SaysOne(s, s.deploys[k].version, t.deploys[j].version);
        if i < n {
          assert Spares(s, i, s.deploys[k].version);
        }
      }
    }
    forall i: nat | i < n ensures BesideLast(t, i) {
      assert TooBig(a.version) || Spares(s, i, a.version);
    }
  }

  lemma UploadOrderly(hash: Hash, s: Server, a: DeployAction)
    requires Orderly(hash, s) && Enabled(s, a)
    requires a.SendBin? || a.FinishBin? || a.SendSha? || a.FinishSha?
    ensures Orderly(hash, Step(hash, s, a))
  {
    hide ShaText, Canonical, TooBig, VersionOf, Spares, Readable;
    var t := Step(hash, s, a);
    var n := |s.deploys| - 1;
    ActiveIsLast(hash, s, a.i);
    forall k: nat | Readable(s) && Announces(s, k) && Complete(hash, s, k) ensures Complete(hash, t, k) {
      if TooBig(s.deploys[n].version) && Announces(s, n) {
        BigUnread(s, s.deploys[n].version);
      }
      assert s.deploys[k].version != s.deploys[n].version;
    }
    assert Announces(t, n) == Announces(s, n);
    StillOrderly(hash, s, t);
  }

  lemma PublishOrderly(hash: Hash, s: Server, a: DeployAction)
    requires Orderly(hash, s) && Enabled(s, a) && (a.TruncateVersion? || a.PublishVersion?)
    ensures Orderly(hash, Step(hash, s, a))
  {
    hide ShaText, Canonical, TooBig, Spared, BashNumber;
    var t := Step(hash, s, a);
    var n := |s.deploys| - 1;
    ActiveIsLast(hash, s, a.i);
    forall i: nat | i < n ensures BesideLast(t, i) {
      assert BesideLast(s, i);
    }
    if a.PublishVersion? {
      var version := s.deploys[n].version;
      assert Announces(t, n);
      if TooBig(version) {
        BigUnread(t, version);
      } else {
        assert Complete(hash, t, n);
        forall i: nat, k: nat | i < |t.deploys| && Announces(t, k) ensures Spares(t, i, t.deploys[k].version) {
          SaysOne(t, t.deploys[k].version, version);
          assert i < n ==> BesideLast(s, i);
        }
      }
    } else {
      assert !Readable(t);
    }
  }

  lemma SameFiles(hash: Hash, s: Server, t: Server, k: nat)
    requires Complete(hash, s, k) && k < |t.deploys| && t.files == s.files
    requires t.deploys[k].version == s.deploys[k].version && t.deploys[k].image == s.deploys[k].image
    ensures Complete(hash, t, k)
  {
  }

  lemma StartPruneOrderly(hash: Hash, s: Server, a: DeployAction)
    requires Orderly(hash, s) && Enabled(s, a) && a.StartPrune?
    ensures Orderly(hash, Step(hash, s, a))
  {
    hide ShaText, Canonical, TooBig, LargestBelow, BashNumber, VersionOf, Complete;
    var t := Step(hash, s, a);
    var n := |s.deploys| - 1;
    ActiveIsLast(hash, s, a.i);
    forall i: nat | i < n ensures BesideLast(t, i) {
      assert BesideLast(s, i);
    }
    assert forall k: nat :: Announces(t, k) == Announces(s, k);
    forall k: nat | k < |s.deploys| && Complete(hash, s, k) ensures Complete(hash, t, k) {
      SameFiles(hash, s, t, k);
    }
    forall i: nat, k: nat | i < |t.deploys| && Readable(t) && Announces(t, k) ensures Spares(t, i, t.deploys[k].version) {
      SaysOne(s, s.deploys[k].version, s.deploys[n].version);
      assert i < n ==> Spares(s, i, s.deploys[k].version);
    }
  }

  lemma PruneOrderly(hash: Hash, s: Server, a: DeployAction)
    requires Orderly(hash, s) && Enabled(s, a) && a.PruneFile?
    ensures Orderly(hash, Step(hash, s, a))
  {
    hide ShaText, Canonical, TooBig, LargestBelow, BashNumber, VersionOf;
    var t := Step(hash, s, a);
    var n := |s.deploys| - 1;
    assert t.deploys == s.deploys;
    forall k: nat | Readable(s) && Announces(s, k) && Complete(hash, s, k) ensures Complete(hash, t, k) {
      assert Spares(s, a.i, s.deploys[k].version);
    }
    assert a.i < n ==> BesideLast(s, a.i);
    assert TooBig(s.deploys[n].version) || a.file.base != s.deploys[n].version;
    assert Announces(t, n) == Announces(s, n);
    StillOrderly(hash, s, t);
  }

  lemma AbortOrderly(hash: Hash, s: Server, a: DeployAction)
    requires Orderly(hash, s) && Enabled(s, a) && a.Abort?
    ensures Orderly(hash, Step(hash, s, a))
  {
    hide ShaText, Canonical, TooBig, VersionOf;
    var t := Step(hash, s, a);
    var n := |s.deploys| - 1;
    assert a.i < n ==> t.deploys[n] == s.deploys[n];
    assert Announces(t, n) == Announces(s, n);
    StillOrderly(hash, s, t);
  }

  lemma StepOrderly(hash: Hash, s: Server, a: DeployAction)
    requires Orderly(hash, s) && InOrder(s, a)
    ensures Orderly(hash, Step(hash, s, a))
  {
    hide Orderly, InOrder;
    if Enabled(s, a) {
      match a
      case Start(_, _) => StartOrderly(hash, s, a);
      case SendBin(_, _) => UploadOrderly(hash, s, a);
      case FinishBin(_) => UploadOrderly(hash, s, a);
      case SendSha(_, _) => UploadOrderly(hash, s, a);
      case FinishSha(_) => UploadOrderly(hash, s, a);
      case TruncateVersion(_) => PublishOrderly(hash, s, a);
      case PublishVersion(_) => PublishOrderly(hash, s, a);
      case StartPrune(_, _) => StartPruneOrderly(hash, s, a);
      case PruneFile(_, _) => PruneOrderly(hash, s, a);
      case Abort(_) => AbortOrderly(hash, s, a);
    }
  }

  lemma {:induction false} StaysOrderly(hash: Hash, s: Server, actions: seq<DeployAction>)
    requires Orderly(hash, s) && AllInOrder(hash, s, actions)
    ensures Orderly(hash, RunFrom(hash, s, actions))
  {
    hide Orderly, InOrder, Step;
    if actions != [] {
      var init := actions[..|actions| - 1];
      forall n | 0 <= n < |init| ensures InOrder(RunFrom(hash, s, init[..n]), init[n]) {
        assert init[..n] == actions[..n];
      }
      StaysOrderly(hash, s, init);
      StepOrderly(hash, RunFrom(hash, s, init), actions[|init|]);
    }
  }

  lemma EmptyOrderly(hash: Hash)
    ensures Orderly(hash, EMPTY)
  {
  }

  /** When each version is startable at its start, what the device reads is a whole release after every step, under the
      names the device asks for: through uploads, aborts, half-done prunes, rollbacks and overlapping prunes. */
  lemma AlwaysAvailable(hash: Hash, actions: seq<DeployAction>)
    requires AllInOrder(hash, EMPTY, actions)
    ensures Available(hash, Run(hash, actions))
  {
    hide Orderly, Available, AllInOrder, RunFrom;
    EmptyOrderly(hash);
    StaysOrderly(hash, EMPTY, actions);
    OrderlyIsAvailable(hash, Run(hash, actions));
  }

  // ---- And only then ----

  /** Whatever happens from here on, as long as later starts are in order, what is announced stays whole. */
  ghost predicate SafeFrom(hash: Hash, s: Server) {
    forall later :: AllInOrder(hash, s, later) ==> Available(hash, RunFrom(hash, s, later))
  }

  predicate NoStart(actions: seq<DeployAction>) {
    forall n :: 0 <= n < |actions| ==> !actions[n].Start?
  }

  lemma UnsafeBy(hash: Hash, s: Server, later: seq<DeployAction>)
    requires NoStart(later) && !Available(hash, RunFrom(hash, s, later))
    ensures !SafeFrom(hash, s)
  {
    hide Available, RunFrom;
    assert AllInOrder(hash, s, later);
  }

  /** Uploading the image of the announced version again takes that image off the server at once. */
  lemma RepublishTears(hash: Hash, s: Server, j: nat)
    requires Enabled(s, SendBin(j, [])) && Says(s, s.deploys[j].version)
    requires IsNumber(s.deploys[j].version) && DecValue(s.deploys[j].version) <= U32_MAX
    requires forall k :: 0 <= k < |s.deploys| ==> s.deploys[k].image != []
    ensures !Available(hash, Step(hash, s, SendBin(j, [])))
  {
    hide ShaText, VersionOf;
    var t := Step(hash, s, SendBin(j, []));
    AnnouncedVersion(s.deploys[j].version);
    forall k: nat | Announces(t, k) ensures !Complete(hash, t, k) {
      SaysOne(s, t.deploys[k].version, s.deploys[j].version);
    }
  }

  /** A prune that does not spare the announced version takes its image off the server: an older deploy still pruning
      removes what a newer one has just announced. */
  lemma ConcurrentPruneTears(hash: Hash, s: Server, i: nat, j: nat)
    requires Announces(s, j) && Readable(s) && Enabled(s, PruneFile(i, Bin(s.deploys[j].version)))
    ensures !Available(hash, Step(hash, s, PruneFile(i, Bin(s.deploys[j].version))))
  {
    hide ShaText, VersionOf;
    var t := Step(hash, s, PruneFile(i, Bin(s.deploys[j].version)));
    forall k: nat | Announces(t, k) ensures !Complete(hash, t, k) {
      SaysOne(s, t.deploys[k].version, s.deploys[j].version);
    }
  }

  function Release(i: nat): seq<DeployAction> {
    [FinishBin(i)] + [FinishSha(i)] + [TruncateVersion(i)] + [PublishVersion(i)]
  }

  /** A started deploy that runs through undisturbed ends up announced, and every other deploy is where it was. */
  lemma ReleasePublishes(hash: Hash, s: Server, i: nat)
    requires i < |s.deploys| && s.deploys[i].stage.Built?
    ensures var t := RunFrom(hash, s, Release(i));
            && t.deploys == s.deploys[i := s.deploys[i].(stage := Published)]
            && Says(t, s.deploys[i].version)
  {
    hide RunFrom, ShaText, Step;
    RunFromNothing(hash, s);
    var a := [FinishBin(i)];
    var b := a + [FinishSha(i)];
    var c := b + [TruncateVersion(i)];
    RunFromAppend(hash, s, [], FinishBin(i));
    assert [] + a == a;
    Advances(hash, s, i, FinishBin(i), SentBin);
    RunFromAppend(hash, s, a, FinishSha(i));
    Advances(hash, RunFrom(hash, s, a), i, FinishSha(i), SentSha);
    RunFromAppend(hash, s, b, TruncateVersion(i));
    Advances(hash, RunFrom(hash, s, b), i, TruncateVersion(i), Truncated);
    RunFromAppend(hash, s, c, PublishVersion(i));
    Advances(hash, RunFrom(hash, s, c), i, PublishVersion(i), Published);
  }

  /** The four steps that move a deploy on. */
  lemma Advances(hash: Hash, s: Server, i: nat, a: DeployAction, stage: Stage)
    requires i < |s.deploys| && Enabled(s, a)
    requires (a, stage) in {(FinishBin(i), SentBin), (FinishSha(i), SentSha), (TruncateVersion(i), Truncated),
                            (PublishVersion(i), Published)}
    ensures Step(hash, s, a).deploys == s.deploys[i := s.deploys[i].(stage := stage)]
    ensures a.PublishVersion? ==> Says(Step(hash, s, a), s.deploys[i].version)
  {
    hide ShaText;
  }

  lemma RunFromNothing(hash: Hash, s: Server)
    ensures RunFrom(hash, s, []) == s
  {
  }

  lemma {:induction false} RunFromFirst(hash: Hash, s: Server, a: DeployAction, rest: seq<DeployAction>)
    ensures RunFrom(hash, s, [a] + rest) == RunFrom(hash, Step(hash, s, a), rest)
  {
    hide Step;
    var all := [a] + rest;
    if rest == [] {
      assert all[..0] == [] && RunFrom(hash, s, all[..0]) == s;
    } else {
      var init := rest[..|rest| - 1];
      RunFromFirst(hash, s, a, init);
      assert all[..|all| - 1] == [a] + init;
    }
  }

  /** Waiting until only pruning is left is needed too: a newer version started while an older deploy has published but
      not begun its prune can be removed by that prune as soon as it is announced. */
  lemma RacingStartTears(
    hash: Hash, s: Server, i: nat, prev: Option<int>, version: seq<Byte>, image: seq<Byte>)
    requires i < |s.deploys| && Enabled(s, StartPrune(i, prev)) && Enabled(s, Start(version, image))
    requires DecValue(version) <= U32_MAX && BashNumber(version) > BashNumber(s.deploys[i].version)
    ensures !SafeFrom(hash, Step(hash, s, Start(version, image)))
  {
    hide SafeFrom, Available, Complete, RunFrom, BashNumber, VersionOf, LargestBelow;
    var t := Step(hash, s, Start(version, image));
    var n := |s.deploys|;
    assert t.deploys[n] == Deploy(version, image, Built) && t.deploys[i] == s.deploys[i] && t.files == s.files;
    var u := Step(hash, t, StartPrune(i, prev));
    assert u.deploys[n] == t.deploys[n] && u.deploys[i] == s.deploys[i].(stage := Pruning(prev));
    ReleasePublishes(hash, u, n);
    RunFromFirst(hash, t, StartPrune(i, prev), Release(n));
    var later := [StartPrune(i, prev)] + Release(n);
    AnnouncedVersion(version);
    BelowVersion(s.files, BashNumber(s.deploys[i].version), prev);
    ConcurrentPruneTears(hash, RunFrom(hash, t, later), i, n);
    RunFromAppend(hash, t, later, PruneFile(i, Bin(version)));
    UnsafeBy(hash, t, later + [PruneFile(i, Bin(version))]);
  }

  lemma BelowVersion(files: map<File, seq<Byte>>, version: int, prev: Option<int>)
    requires LargestBelow(files, version, prev)
    ensures prev.Some? ==> prev.value < version
  {
  }

  /** Exactly when a start is safe, at any time when no deploy has more than pruning left to do: every continuation
      keeps what the device reads whole if and only if the version may be started. */
  lemma StartSafeIff(hash: Hash, s: Server, version: seq<Byte>, image: seq<Byte>)
    requires Orderly(hash, s) && Quiet(s) && Enabled(s, Start(version, image))
    ensures SafeFrom(hash, Step(hash, s, Start(version, image))) <==> MayStart(s, version)
  {
    hide Orderly, Quiet, MayStart, AllInOrder, Available, RunFrom, Step;
    var t := Step(hash, s, Start(version, image));
    if MayStart(s, version) {
      StepOrderly(hash, s, Start(version, image));
      forall later | AllInOrder(hash, t, later) ensures Available(hash, RunFrom(hash, t, later)) {
        StaysOrderly(hash, t, later);
        OrderlyIsAvailable(hash, RunFrom(hash, t, later));
      }
    } else {
      BadStart(hash, s, version, image);
    }
  }

  lemma BadStart(hash: Hash, s: Server, version: seq<Byte>, image: seq<Byte>)
    requires Orderly(hash, s) && Enabled(s, Start(version, image)) && !MayStart(s, version)
    ensures !SafeFrom(hash, Step(hash, s, Start(version, image)))
  {
    hide Orderly, SafeFrom, Available, Complete, RunFrom, BashNumber, Spared, VersionOf;
    var t := Step(hash, s, Start(version, image));
    var n := |s.deploys|;
    assert t.deploys[n] == Deploy(version, image, Built) && forall i :: 0 <= i < n ==> t.deploys[i] == s.deploys[i];
    assert t.files == s.files;
    DeploysBuilt(hash, s);
    if Canonical(version) && Says(s, version) {
      RepublishTears(hash, t, n);
      RunFromNothing(hash, t);
      RunFromAppend(hash, t, [], SendBin(n, []));
      UnsafeBy(hash, t, [] + [SendBin(n, [])]);
    } else {
      ReleasePublishes(hash, t, n);
      var u := RunFrom(hash, t, Release(n));
      AnnouncedVersion(version);
      if !Canonical(version) {
        Misspelled(hash, u, version);
        UnsafeBy(hash, t, Release(n));
      } else {
        var i: nat :| i < n && !Spares(s, i, version);
        ConcurrentPruneTears(hash, u, i, n);
        RunFromAppend(hash, t, Release(n), PruneFile(i, Bin(version)));
        UnsafeBy(hash, t, Release(n) + [PruneFile(i, Bin(version))]);
      }
    }
  }

  lemma DeploysBuilt(hash: Hash, s: Server)
    requires Orderly(hash, s)
    ensures forall i :: 0 <= i < |s.deploys| ==> s.deploys[i].image != [] && IsNumber(s.deploys[i].version)
  {
    hide StageHolds, Complete, VersionOf, BesideLast, Spares;
  }

  lemma Misspelled(hash: Hash, s: Server, version: seq<Byte>)
    requires Says(s, version) && IsNumber(version) && !Canonical(version) && DecValue(version) <= U32_MAX
    ensures !Available(hash, s)
  {
    hide Complete, VersionOf, Canonical;
    AnnouncedVersion(version);
    CanonicalPrints(version);
    forall i: nat | Announces(s, i) ensures Digits(DecValue(version)) != s.deploys[i].version {
      SaysOne(s, s.deploys[i].version, version);
    }
  }

  // ---- The prune script itself ----

  class RemoteDir {
    var files: map<File, seq<Byte>>

    /** `rm` may fail here. */
    const faulty: bool

    /** `*.bin`: every image name, in some order. */
    method Glob() returns (names: seq<seq<Byte>>)
      ensures forall b :: b in names <==> Bin(b) in files
    {
      names := [];
      var rest := files.Keys;
      while rest != {}
        invariant rest <= files.Keys
        invariant forall b :: b in names <==> Bin(b) in files && Bin(b) !in rest
        decreases rest
      {
        var f :| f in rest;
        rest := rest - {f};
        if f.Bin? {
          names := names + [f.base];
        }
      }
    }

    /** The first loop: the largest number below the version. */
    method FindPrev(version: int) returns (prev: Option<int>)
      ensures LargestBelow(files, version, prev)
    {
      var names := Glob();
      prev := None;
      for k := 0 to |names|
        invariant forall i :: 0 <= i < k && IsNumber(names[i]) && BashNumber(names[i]) < version ==>
                                prev.Some? && BashNumber(names[i]) <= prev.value
        invariant prev.Some? ==> exists b :: Bin(b) in files && IsNumber(b) && BashNumber(b) == prev.value < version
      {
        var base := names[k];
        assert base in names;
        if IsNumber(base) && BashNumber(base) < version && (prev.None? || BashNumber(base) > prev.value) {
          prev := Some(BashNumber(base));
        }
      }
      forall b | Bin(b) in files && IsNumber(b) && BashNumber(b) < version
        ensures prev.Some? && BashNumber(b) <= prev.value
      {
        assert b in names;
      }
    }

    /** The second loop: delete every other numbered pair. `rm` may fail, which ends the script there. */
    method DeleteOthers(version: int, prev: Option<int>) returns (ok: bool)
      modifies this
      ensures !faulty ==> ok
      ensures forall f :: f in files ==> f in old(files) && files[f] == old(files)[f]
      ensures forall f :: f in old(files) && f !in files ==>
                !f.VersionFile? && Bin(f.base) in old(files) && !Spared(f.base, version, prev)
      ensures ok ==> forall b :: Bin(b) in old(files) && !Spared(b, version, prev) ==> Bin(b) !in files && Sha(b) !in files
    {
      var names := Glob();
      for k := 0 to |names|
        invariant forall f :: f in files ==> f in old(files) && files[f] == old(files)[f]
        invariant forall f :: f in old(files) && f !in files ==>
                    !f.VersionFile? && Bin(f.base) in old(files) && !Spared(f.base, version, prev)
        invariant forall i :: 0 <= i < k && !Spared(names[i], version, prev) ==>
                                Bin(names[i]) !in files && Sha(names[i]) !in files
      {
        var base := names[k];
        assert base in names;
        if !Spared(base, version, prev) {
          var stops: bool := *;
          if faulty && stops {
            var half: bool := *;
            if half {
              files := files - {Bin(base)};
            }
            return false;
          }
          files := files - {Bin(base), Sha(base)};
        }
      }
      return true;
    }

    /** The whole prune. Whether or not it gets to its end, only pairs other than the current and the previous version
        go, and nothing is changed in place. A completed prune leaves, of the numbered images, exactly those whose
        number is the current one or the largest below it. */
    method Prune(version: seq<Byte>) returns (ok: bool)
      requires IsNumber(version)
      modifies this
      ensures !faulty ==> ok
      ensures forall f :: f in files ==> f in old(files) && files[f] == old(files)[f]
      ensures exists prev :: LargestBelow(old(files), BashNumber(version), prev)
                && (forall f :: f in old(files) && f !in files ==>
                      !f.VersionFile? && Bin(f.base) in old(files) && !Spared(f.base, BashNumber(version), prev))
                && (ok ==> forall b :: IsNumber(b) ==>
                      (Bin(b) in files <==>
                       Bin(b) in old(files) && (BashNumber(b) == BashNumber(version) || prev == Some(BashNumber(b)))))
    {
      var current := BashNumber(version);
      var prev := FindPrev(current);
      ok := DeleteOthers(current, prev);
    }
  }

  /** The previous version is determined by the directory. */
  lemma LargestBelowUnique(files: map<File, seq<Byte>>, version: int, p: Option<int>, q: Option<int>)
    requires LargestBelow(files, version, p) && LargestBelow(files, version, q)
    ensures p == q
  {
  }

  /** Below 2^63 bash's number is the number. */
  lemma BashNumberExact(digits: seq<Byte>)
    requires AllDigits(digits)
    ensures BashNumber(digits) == DecValue(digits) <==> DecValue(digits) < 0x8000_0000_0000_0000
  {
  }

  // ---- The script's prune as steps of the machine ----

  lemma {:induction false} RemovedBySteps(hash: Hash, s: Server, i: nat, removed: set<File>)
    returns (actions: seq<DeployAction>)
    requires i < |s.deploys| && s.deploys[i].stage.Pruning? && IsNumber(s.deploys[i].version)
    requires forall f :: f in removed ==>
               !f.VersionFile? && !Spared(f.base, BashNumber(s.deploys[i].version), s.deploys[i].stage.prev)
    ensures RunFrom(hash, s, actions) == s.(files := s.files - removed)
    decreases removed
  {
    hide Spared, BashNumber;
    if removed == {} {
      actions := [];
      assert s.files - removed == s.files;
    } else {
      var f :| f in removed;
      var before := RemovedBySteps(hash, s, i, removed - {f});
      actions := before + [PruneFile(i, f)];
      assert actions[..|before|] == before;
      assert s.files - (removed - {f}) - {f} == s.files - removed;
    }
  }

  /** Whatever directory `Prune` can leave behind, finished or cut short, a run of the machine leaves behind too, so
      the results over all runs cover the script. */
  lemma PruneCovered(hash: Hash, s: Server, i: nat, prev: Option<int>, after: map<File, seq<Byte>>)
    returns (actions: seq<DeployAction>)
    requires i < |s.deploys| && s.deploys[i].stage.Published? && IsNumber(s.deploys[i].version)
    requires LargestBelow(s.files, BashNumber(s.deploys[i].version), prev)
    requires forall f :: f in after ==> f in s.files && after[f] == s.files[f]
    requires forall f :: f in s.files && f !in after ==>
               !f.VersionFile? && !Spared(f.base, BashNumber(s.deploys[i].version), prev)
    ensures RunFrom(hash, s, actions) == At(s, i, Pruning(prev)).(files := after)
  {
    hide Spared, BashNumber, LargestBelow;
    var started := At(s, i, Pruning(prev));
    var removed := s.files.Keys - after.Keys;
    assert Step(hash, s, StartPrune(i, prev)) == started;
    var rest := RemovedBySteps(hash, started, i, removed);
    assert s.files - removed == after;
    actions := [StartPrune(i, prev)] + rest;
    RunFromFirst(hash, s, StartPrune(i, prev), rest);
  }
}
