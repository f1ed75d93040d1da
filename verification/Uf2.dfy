/** The UF2 image builder: placed files become one gap-filled image, cut into numbered 512-byte blocks that a loader
    can replay into flash. */
module Uf2 {
  import opened Bytes

  const MAGIC0: nat := 0x0A324655
  const MAGIC1: nat := 0x9E5D5157
  const MAGIC_END: nat := 0x0AB16F30
  const FLAG_FAMILY: nat := 0x00002000
  const RP2040_FAMILY: nat := 0xE48BFF56
  const PAYLOAD: nat := 256
  const WORD_LIMIT: nat := 0x1_0000_0000

  /** A file placed at an offset from the base. */
  datatype Placed = Placed(offset: nat, data: seq<Byte>)

  function Max(a: nat, b: nat): nat {
    if a < b then b else a
  }

  /** End of the highest file. */
  function HighestEnd(pairs: seq<Placed>): nat {
    if pairs == [] then 0
    else Max(HighestEnd(pairs[..|pairs| - 1]), pairs[|pairs| - 1].offset + |pairs[|pairs| - 1].data|)
  }

  /** ... rounded up to whole payloads. */
  function ImageEnd(pairs: seq<Placed>): nat {
    (HighestEnd(pairs) + PAYLOAD - 1) / PAYLOAD * PAYLOAD
  }

  predicate Covers(p: Placed, i: nat) {
    p.offset <= i < p.offset + |p.data|
  }

  /** The byte the image holds at `i`: the last listed file covering it decides, zero in the gaps. */
  ghost predicate Holds(pairs: seq<Placed>, i: nat, b: Byte) {
    (exists k :: 0 <= k < |pairs| && Covers(pairs[k], i) && b == pairs[k].data[i - pairs[k].offset]
                 && forall j :: k < j < |pairs| ==> !Covers(pairs[j], i))
    || (b == 0 && forall k :: 0 <= k < |pairs| ==> !Covers(pairs[k], i))
  }

  lemma {:induction false} CoveredBelowEnd(pairs: seq<Placed>, k: nat)
    requires k < |pairs|
    ensures pairs[k].offset + |pairs[k].data| <= HighestEnd(pairs)
  {
    if k < |pairs| - 1 {
      CoveredBelowEnd(pairs[..|pairs| - 1], k);
    }
  }

  /** The image ends at the first whole payload that no file reaches beyond. */
  lemma ImageEndLeast(pairs: seq<Placed>, end: nat)
    requires end % PAYLOAD == 0
    ensures ImageEnd(pairs) % PAYLOAD == 0
    ensures ImageEnd(pairs) <= end <==> forall k :: 0 <= k < |pairs| ==> pairs[k].offset + |pairs[k].data| <= end
  {
    HighestIs(pairs, end);
    RoundedUp(HighestEnd(pairs), end);
  }

  lemma {:induction false} HighestIs(pairs: seq<Placed>, end: nat)
    ensures HighestEnd(pairs) <= end <==> forall k :: 0 <= k < |pairs| ==> pairs[k].offset + |pairs[k].data| <= end
  {
    if pairs != [] {
      var init, last := pairs[..|pairs| - 1], pairs[|pairs| - 1];
      HighestIs(init, end);
      assert pairs == init + [last];
    }
  }

  lemma RoundedUp(n: nat, end: nat)
    requires end % PAYLOAD == 0
    ensures var up := (n + PAYLOAD - 1) / PAYLOAD * PAYLOAD; up % PAYLOAD == 0 && (up <= end <==> n <= end)
  {
    var q := (n + PAYLOAD - 1) / PAYLOAD;
    assert PAYLOAD * q <= n + PAYLOAD - 1 < PAYLOAD * q + PAYLOAD;
    assert end == PAYLOAD * (end / PAYLOAD);
  }

  lemma HoldsUnique(pairs: seq<Placed>, i: nat, a: Byte, b: Byte)
    requires Holds(pairs, i, a) && Holds(pairs, i, b)
    ensures a == b
  {
  }

  lemma HoldsAdded(pairs: seq<Placed>, k: nat, i: nat, under: Byte, over: Byte)
    requires k < |pairs| && Holds(pairs[..k], i, under)
    requires over == if Covers(pairs[k], i) then pairs[k].data[i - pairs[k].offset] else under
    ensures Holds(pairs[..k + 1], i, over)
  {
    var before, after := pairs[..k], pairs[..k + 1];
    assert after[k] == pairs[k] && forall j :: 0 <= j < k ==> after[j] == before[j];
  }

  // ---- Blocks ----

  function Le32(n: nat): (w: seq<Byte>)
    requires n < WORD_LIMIT
    ensures |w| == 4
  {
    [n % 256, n / 256 % 256, n / 65536 % 256, n / 16777216]
  }

  function FromLe32(w: seq<Byte>): nat
    requires |w| == 4
  {
    (w[0] as int) + (w[1] as int) * 256 + (w[2] as int) * 65536 + (w[3] as int) * 16777216
  }

  lemma Le32RoundTrip(n: nat)
    requires n < WORD_LIMIT
    ensures FromLe32(Le32(n)) == n
  {
    var a := n / 256;
    var b := a / 256;
    DivTwice(n, 256, 256);
    DivTwice(n, 65536, 256);
    assert n == 256 * a + n % 256 && a == 256 * b + a % 256 && b == 256 * (b / 256) + b % 256;
  }

  lemma DivTwice(n: nat, d: nat, e: nat)
    requires (d == 256 || d == 65536) && e == 256
    ensures n / (d * e) == n / d / e
  {
  }

  /** Little-endian words one after the other. */
  function Words(ws: seq<nat>): (bytes: seq<Byte>)
    requires forall i :: 0 <= i < |ws| ==> ws[i] < WORD_LIMIT
    ensures |bytes| == 4 * |ws|
  {
    if ws == [] then [] else Words(ws[..|ws| - 1]) + Le32(ws[|ws| - 1])
  }

  lemma {:induction false} WordAt(ws: seq<nat>, k: nat)
    requires k < |ws| && forall i :: 0 <= i < |ws| ==> ws[i] < WORD_LIMIT
    ensures Words(ws)[4 * k..4 * k + 4] == Le32(ws[k])
  {
    var init := ws[..|ws| - 1];
    if k < |init| {
      WordAt(init, k);
      assert Words(ws)[4 * k..4 * k + 4] == Words(init)[4 * k..4 * k + 4];
    }
  }

  function Header(addr: nat, n: nat, total: nat): seq<nat> {
    [MAGIC0, MAGIC1, FLAG_FAMILY, addr, PAYLOAD, n, total, RP2040_FAMILY]
  }

  /** The bytes of one block. */
  predicate IsBlock(block: seq<Byte>, addr: nat, n: nat, total: nat, payload: seq<Byte>)
    requires addr < WORD_LIMIT && n < WORD_LIMIT && total < WORD_LIMIT
  {
    && |block| == 512
    && block[0..32] == Words(Header(addr, n, total))
    && block[32..288] == payload
    && block[508..512] == Le32(MAGIC_END)
  }

  /** `struct.pack_into`: little-endian words at one place. */
  method PackInto(block: array<Byte>, at: nat, ws: seq<nat>)
    requires forall i :: 0 <= i < |ws| ==> ws[i] < WORD_LIMIT
    requires at + 4 * |ws| <= block.Length
    modifies block
    ensures block[at..at + 4 * |ws|] == Words(ws)
    ensures block[..at] == old(block[..at]) && block[at + 4 * |ws|..] == old(block[at + 4 * |ws|..])
  {
    for k := 0 to |ws|
      invariant block[at..at + 4 * k] == Words(ws[..k])
      invariant block[..at] == old(block[..at]) && block[at + 4 * |ws|..] == old(block[at + 4 * |ws|..])
    {
      PutWord(block, at, at + 4 * k, at + 4 * |ws|, ws[k]);
      assert ws[..k + 1][..k] == ws[..k];
    }
    assert ws[..|ws|] == ws;
  }

  method PutWord(block: array<Byte>, lo: nat, at: nat, hi: nat, n: nat)
    requires lo <= at && at + 4 <= hi <= block.Length && n < WORD_LIMIT
    modifies block
    ensures block[lo..at + 4] == old(block[lo..at]) + Le32(n)
    ensures block[..lo] == old(block[..lo]) && block[hi..] == old(block[hi..])
  {
    hide Le32;
    var w := Le32(n);
    block[at], block[at + 1], block[at + 2], block[at + 3] := w[0], w[1], w[2], w[3];
  }

  method MakeBlock(addr: nat, n: nat, total: nat, payload: seq<Byte>) returns (block: seq<Byte>)
    requires addr < WORD_LIMIT && n < WORD_LIMIT && total < WORD_LIMIT && |payload| == PAYLOAD
    ensures |block| == 512 && IsBlock(block, addr, n, total, payload)
  {
    hide Words, Le32;
    var blk := new Byte[512](_ => 0);
    PackInto(blk, 0, Header(addr, n, total));
    ghost var header := blk[0..32];
    CopyInto(blk, 32, payload);
    assert blk[0..32] == blk[..32] == header;
    assert blk[32..288] == payload;
    PackInto(blk, 508, [MAGIC_END]);
    OneWord(MAGIC_END);
    assert blk[0..32] == blk[..508][0..32] && blk[32..288] == blk[..508][32..288];
    block := blk[..];
  }

  lemma OneWord(n: nat)
    requires n < WORD_LIMIT
    ensures Words([n]) == Le32(n)
  {
  }

  // ---- The builder ----

  /** Every address, block number and the total fit their 32-bit fields. */
  predicate Packable(base: nat, end: nat) {
    end > 0 ==> base + end - PAYLOAD < WORD_LIMIT && end / PAYLOAD < WORD_LIMIT
  }

  /** The blocks of an image, numbered linearly from `base` on. */
  ghost predicate IsStream(out: seq<Byte>, base: nat, image: seq<Byte>, total: nat)
    requires |image| == PAYLOAD * total && Packable(base, |image|)
  {
    && |out| == 512 * total
    && forall n :: 0 <= n < total ==> BlockOf(out, base, image, total, n)
  }

  ghost predicate BlockOf(out: seq<Byte>, base: nat, image: seq<Byte>, total: nat, n: int)
    requires 0 <= n < total && |image| == PAYLOAD * total && 512 * n + 512 <= |out| && Packable(base, |image|)
  {
    IsBlock(out[512 * n..512 * n + 512], base + n * PAYLOAD, n, total, image[n * PAYLOAD..n * PAYLOAD + PAYLOAD])
  }

  /** The overlay loop: later files win. */
  method Overlay(pairs: seq<Placed>, end: nat) returns (image: seq<Byte>)
    requires HighestEnd(pairs) <= end
    ensures |image| == end && forall i :: 0 <= i < end ==> Holds(pairs, i, image[i])
  {
    var buffer := new Byte[end](_ => 0);
    for k := 0 to |pairs|
      invariant forall i :: 0 <= i < end ==> Holds(pairs[..k], i, buffer[i])
    {
      var Placed(offset, data) := pairs[k];
      CoveredBelowEnd(pairs, k);
      ghost var before := buffer[..];
      CopyInto(buffer, offset, data);
      Overlaid(before, offset, data, buffer[..]);
      forall i | 0 <= i < end ensures Holds(pairs[..k + 1], i, buffer[i]) {
        HoldsAdded(pairs, k, i, before[i], buffer[i]);
      }
    }
    assert pairs[..|pairs|] == pairs;
    image := buffer[..];
  }

  lemma Overlaid(before: seq<Byte>, offset: nat, data: seq<Byte>, after: seq<Byte>)
    requires |after| == |before| && offset + |data| <= |before|
    requires after[..offset] == before[..offset] && after[offset..offset + |data|] == data
    requires after[offset + |data|..] == before[offset + |data|..]
    ensures forall i :: 0 <= i < |before| ==>
              after[i] == if offset <= i < offset + |data| then data[i - offset] else before[i]
  {
    var end := offset + |data|;
    forall i | 0 <= i < |before|
      ensures after[i] == if offset <= i < end then data[i - offset] else before[i]
    {
      if i < offset {
        assert after[..offset][i] == before[..offset][i];
      } else if i < end {
        assert after[offset..end][i - offset] == data[i - offset];
      } else {
        assert after[end..][i - end] == before[end..][i - end];
      }
    }
  }

  /** `build`: nothing when a field would not fit 32 bits, else the block stream of the overlaid image. */
  method Build(base: nat, pairs: seq<Placed>) returns (r: Option<(seq<Byte>, nat, nat)>, ghost image: seq<Byte>)
    ensures |image| == ImageEnd(pairs) && forall i :: 0 <= i < |image| ==> Holds(pairs, i, image[i])
    ensures r.Some? <==> Packable(base, ImageEnd(pairs))
    ensures r.Some? ==>
              var (out, total, end) := r.value;
              && end == ImageEnd(pairs) == PAYLOAD * total
              && IsStream(out, base, image, total)
  {
    var end := 0;
    for k := 0 to |pairs|
      invariant end == HighestEnd(pairs[..k])
    {
      assert pairs[..k + 1][..k] == pairs[..k];
      end := Max(end, pairs[k].offset + |pairs[k].data|);
    }
    assert pairs[..|pairs|] == pairs;
    end := (end + PAYLOAD - 1) / PAYLOAD * PAYLOAD;
    var bytes := Overlay(pairs, end);
    image := bytes;
    var total := end / PAYLOAD;
    if !Packable(base, end) {
      return None, image;
    }
    var out := Cut(base, bytes, total);
    r := Some((out, total, end));
  }

  /** The block loop. */
  method Cut(base: nat, image: seq<Byte>, total: nat) returns (out: seq<Byte>)
    requires |image| == PAYLOAD * total && Packable(base, |image|)
    ensures IsStream(out, base, image, total)
  {
    hide IsBlock;
    out := [];
    for n := 0 to total
      invariant |out| == 512 * n
      invariant forall k :: 0 <= k < n ==> BlockOf(out, base, image, total, k)
    {
      var block := MakeBlock(base + n * PAYLOAD, n, total, image[n * PAYLOAD..n * PAYLOAD + PAYLOAD]);
      ghost var before := out;
      out := out + block;
      assert out[512 * n..512 * n + 512] == block;
      forall k | 0 <= k < n ensures BlockOf(out, base, image, total, k) {
        assert BlockOf(before, base, image, total, k);
        assert out[512 * k..512 * k + 512] == before[512 * k..512 * k + 512];
      }
    }
  }

  // ---- The loader ----

  /** A block as a loader reads it: address and payload, if the magic numbers, the flag and the payload size are the
      ones it accepts. */
  function ReadBlock(block: seq<Byte>): Option<(nat, seq<Byte>)>
    requires |block| == 512
  {
    if FromLe32(block[0..4]) == MAGIC0 && FromLe32(block[4..8]) == MAGIC1 && FromLe32(block[508..512]) == MAGIC_END
       && FromLe32(block[8..12]) == FLAG_FAMILY && FromLe32(block[16..20]) == PAYLOAD
       && FromLe32(block[28..32]) == RP2040_FAMILY
    then Some((FromLe32(block[12..16]), block[32..288]))
    else None
  }

  lemma HeaderWord(block: seq<Byte>, addr: nat, n: nat, total: nat, payload: seq<Byte>, k: nat)
    requires addr < WORD_LIMIT && n < WORD_LIMIT && total < WORD_LIMIT && IsBlock(block, addr, n, total, payload) && k < 8
    ensures FromLe32(block[4 * k..4 * k + 4]) == Header(addr, n, total)[k]
  {
    hide FromLe32, Words;
    WordAt(Header(addr, n, total), k);
    Le32RoundTrip(Header(addr, n, total)[k]);
    assert block[0..32][4 * k..4 * k + 4] == block[4 * k..4 * k + 4];
  }

  /** A loader reads from a block what the builder put there, block number and total included. */
  lemma BlockReads(block: seq<Byte>, addr: nat, n: nat, total: nat, payload: seq<Byte>)
    requires addr < WORD_LIMIT && n < WORD_LIMIT && total < WORD_LIMIT && IsBlock(block, addr, n, total, payload)
    ensures ReadBlock(block) == Some((addr, payload))
    ensures FromLe32(block[20..24]) == n && FromLe32(block[24..28]) == total
  {
    hide FromLe32, Words;
    HeaderWord(block, addr, n, total, payload, 0);
    HeaderWord(block, addr, n, total, payload, 1);
    HeaderWord(block, addr, n, total, payload, 2);
    HeaderWord(block, addr, n, total, payload, 3);
    HeaderWord(block, addr, n, total, payload, 4);
    HeaderWord(block, addr, n, total, payload, 5);
    HeaderWord(block, addr, n, total, payload, 6);
    HeaderWord(block, addr, n, total, payload, 7);
    Le32RoundTrip(MAGIC_END);
  }

  /** A block opens with the bytes of "UF2" and a newline, so its words are written low byte first. */
  lemma BlockMagic(block: seq<Byte>, addr: nat, n: nat, total: nat, payload: seq<Byte>)
    requires addr < WORD_LIMIT && n < WORD_LIMIT && total < WORD_LIMIT && IsBlock(block, addr, n, total, payload)
    ensures block[0..4] == Ascii("UF2\n")
    ensures forall k :: 0 <= k < 4 ==> block[12 + k] as int == Shifted(addr, k) % 256
  {
    hide Words;
    WordAt(Header(addr, n, total), 0);
    WordAt(Header(addr, n, total), 3);
    assert block[0..32][0..4] == block[0..4] && block[0..32][12..16] == block[12..16];
    assert block[12..16] == Le32(addr);
    forall k | 0 <= k < 4 ensures block[12 + k] as int == Shifted(addr, k) % 256 {
      assert block[12 + k] == block[12..16][k];
      ShiftedBytes(addr);
    }
  }

  /** The number shifted right by whole bytes. */
  function Shifted(n: nat, k: nat): nat {
    if k == 0 then n else Shifted(n, k - 1) / 256
  }

  lemma ShiftedBytes(n: nat)
    requires n < WORD_LIMIT
    ensures Shifted(n, 0) == n && Shifted(n, 1) == n / 256 && Shifted(n, 2) == n / 65536
    ensures Shifted(n, 3) == n / 16777216 && n / 16777216 < 256
  {
    DivTwice(n, 256, 256);
    DivTwice(n, 65536, 256);
  }

  predicate Within(a: nat, lo: nat) {
    lo <= a
  }

  /** Memory after the first `k` blocks of a stream were written. */
  function Replayed(out: seq<Byte>, k: nat): map<nat, Byte>
    requires 512 * k <= |out|
  {
    if k == 0 then map[]
    else
      var r := ReadBlock(out[512 * (k - 1)..512 * k]);
      Replayed(out, k - 1) +
      if r.None? then map[]
      else map a: nat | r.value.0 <= a < r.value.0 + |r.value.1| && Within(a, r.value.0) :: r.value.1[a - r.value.0]
  }

  /** Replaying the stream writes exactly the image, at exactly the addresses from `base` on. */
  lemma {:induction false} ReplayGivesImage(out: seq<Byte>, base: nat, image: seq<Byte>, total: nat, k: nat)
    requires |image| == PAYLOAD * total && Packable(base, |image|) && IsStream(out, base, image, total) && k <= total
    ensures forall a: nat :: a in Replayed(out, k) <==> base <= a < base + PAYLOAD * k
    ensures forall a: nat :: base <= a < base + PAYLOAD * k ==> Replayed(out, k)[a] == image[a - base]
  {
    hide IsBlock, ReadBlock;
    if k > 0 {
      var n := k - 1;
      ReplayGivesImage(out, base, image, total, n);
      assert BlockOf(out, base, image, total, n);
      BlockReads(out[512 * n..512 * n + 512], base + n * PAYLOAD, n, total, image[n * PAYLOAD..n * PAYLOAD + PAYLOAD]);
    }
  }

  /** End to end: after a replay, each address holds the byte of the last listed file covering it, or zero in a gap. */
  lemma ReplayHolds(pairs: seq<Placed>, out: seq<Byte>, base: nat, image: seq<Byte>, total: nat, i: nat)
    requires |image| == PAYLOAD * total == ImageEnd(pairs) && Packable(base, |image|) && IsStream(out, base, image, total)
    requires forall j :: 0 <= j < |image| ==> Holds(pairs, j, image[j])
    ensures base + i in Replayed(out, total) <==> i < ImageEnd(pairs)
    ensures i < ImageEnd(pairs) ==> Holds(pairs, i, Replayed(out, total)[base + i])
  {
    hide Holds, IsStream, Replayed;
    ReplayGivesImage(out, base, image, total, total);
  }
}
