/** The streaming verified update: read a bounded body, hash it while writing it to the DFU partition, and commit
    only a complete image whose digest matches. SHA-256 is an unspecified function `hash` of the bytes absorbed. */
module Session {
  import opened Bytes
  import opened Decimal
  import opened Transport

  const ACTIVE_BYTES: nat := 780 * 1024
  const CHUNK_BYTES: nat := 4096

  // ---- The flash side ----

  datatype FlashCall = Write(offset: nat, data: seq<Byte>, ok: bool) | Mark(ok: bool)

  /** The updater's DFU partition. A failed write may leave anything from its offset on; a good one stores the data
      and may erase what follows. The log of calls is what the ordering claims are about. */
  class Flasher {
    var dfu: seq<Byte>
    const reliable: bool
    ghost var calls: seq<FlashCall>

    method Write(offset: nat, data: seq<Byte>) returns (ok: bool)
      modifies this
      ensures calls == old(calls) + [FlashCall.Write(offset, data, ok)]
      ensures |dfu| == |old(dfu)|
      ensures offset <= |dfu| ==> dfu[..offset] == old(dfu)[..offset]
      ensures ok ==> offset + |data| <= |dfu| && dfu[offset..offset + |data|] == data
      ensures reliable && offset + |data| <= |dfu| ==> ok
    {
      var works: bool := *;
      ok := offset + |data| <= |dfu| && (works || reliable);
      if ok {
        dfu := dfu[..offset] + data + seq(|dfu| - offset - |data|, _ => 255);
      }
      calls := calls + [FlashCall.Write(offset, data, ok)];
    }

    method MarkUpdated() returns (ok: bool)
      modifies this`calls
      ensures calls == old(calls) + [Mark(ok)]
      ensures reliable ==> ok
    {
      var works: bool := *;
      ok := works || reliable;
      calls := calls + [Mark(ok)];
    }
  }

  /** Successful writes that store `image` from offset 0 on: contiguous, in order, none empty, none over a chunk. */
  ghost predicate Stores(log: seq<FlashCall>, image: seq<Byte>) {
    if log == [] then image == []
    else
      var last := log[|log| - 1];
      && last.Write? && last.ok
      && 0 < |last.data| <= CHUNK_BYTES
      && last.offset + |last.data| == |image|
      && image[last.offset..] == last.data
      && Stores(log[..|log| - 1], image[..last.offset])
  }

  lemma StoresMore(log: seq<FlashCall>, image: seq<Byte>, data: seq<Byte>)
    requires Stores(log, image) && 0 < |data| <= CHUNK_BYTES
    ensures Stores(log + [FlashCall.Write(|image|, data, true)], image + data)
  {
  }

  // ---- The reading side ----

  /** Any other body source: it may fail, stop early, or even claim more bytes than it was asked for. */
  class AnyReader {
    ghost var delivered: seq<Byte>

    method Read(buf: array<Byte>, limit: nat) returns (r: Result<nat, FetchError>)
      requires limit <= buf.Length
      modifies this, buf
      ensures r.Err? ==> delivered == old(delivered)
      ensures r.Ok? && r.value <= limit ==> delivered == old(delivered) + buf[..r.value]
      ensures r.Ok? && r.value > limit ==> delivered == old(delivered)
    {
      if * {
        return Err(ReadFailed);
      }
      var claim: int := *;
      var n: nat := if claim < 0 then 0 else claim;
      if n <= limit {
        for i := 0 to n
          invariant delivered == old(delivered)
        {
          buf[i] := *;
        }
        delivered := delivered + buf[..n];
      }
      return Ok(n);
    }
  }

  /** The body sources `apply_update` is used with. */
  datatype Reader = Http(body: HttpBody) | Other(source: AnyReader) {
    ghost function Footprint(): set<object> {
      match this
      case Http(body) => {body, body.link}
      case Other(source) => {source}
    }

    ghost predicate Valid()
      reads Footprint()
    {
      Http? ==> body.Valid()
    }

    /** No read fails and none returns more than asked for. */
    predicate Reliable() {
      Http? && body.link.reliable
    }

    ghost function Delivered(): seq<Byte>
      reads Footprint()
    {
      match this
      case Http(body) => body.delivered
      case Other(source) => source.delivered
    }

    method Read(buf: array<Byte>, limit: nat) returns (r: Result<nat, FetchError>)
      requires Valid() && limit <= buf.Length && buf !in Footprint()
      modifies Footprint(), buf
      ensures Valid()
      ensures r.Err? ==> !Reliable() && Delivered() == old(Delivered())
      ensures r.Ok? && r.value <= limit ==> Delivered() == old(Delivered()) + buf[..r.value]
      ensures r.Ok? && r.value > limit ==> Other? && Delivered() == old(Delivered())
      ensures r == Ok(0) && Http? ==> limit == 0 || Delivered() == body.whole
    {
      match this
      case Http(body) => r := body.Read(buf, limit);
      case Other(source) => r := source.Read(buf, limit);
    }
  }

  // ---- The session ----

  datatype UpdateError =
    | Oversize(length: nat, capacity: nat)
    | TooShort
    | TooLong
    | HashMismatch
    | Flash
    | Read(error: FetchError)

  /** What one run of the session may have done, given the bytes `got` taken from the reader and the flash calls
      `log` it made. */
  ghost predicate Outcome(
    r: Result<(), UpdateError>, hash: Hash, length: nat, expected: Digest,
    got: seq<Byte>, log: seq<FlashCall>, dfu: seq<Byte>)
  {
    match r
    case Err(Oversize(l, c)) => l == length > c == ACTIVE_BYTES && got == [] && log == []
    case Err(TooShort) => Stores(log, got) && got <= dfu && |got| < length
    case Err(TooLong) => Stores(log, got) && got <= dfu && |got| < length
    case Err(Read(_)) => Stores(log, got) && got <= dfu && |got| < length
    case Err(HashMismatch) => Stores(log, got) && got <= dfu && |got| == length && hash(got) != expected
    case Err(Flash) =>
      && log != [] && |got| <= length
      && var last := log[|log| - 1];
         if last.Mark? then
           && !last.ok && Stores(log[..|log| - 1], got) && got <= dfu
           && |got| == length && hash(got) == expected
         else
           && !last.ok && last.offset + |last.data| == |got| && got[last.offset..] == last.data
           && Stores(log[..|log| - 1], got[..last.offset]) && got[..last.offset] <= dfu
    case Ok(_) =>
      && log != [] && log[|log| - 1] == Mark(true) && Stores(log[..|log| - 1], got) && got <= dfu
      && |got| == length <= ACTIVE_BYTES && hash(got) == expected
  }

  /** Neither side fails: the link delivers, the flash stores whatever fits the active slot. */
  ghost predicate Dependable(flasher: Flasher, reader: Reader)
    reads flasher
  {
    flasher.reliable && |flasher.dfu| >= ACTIVE_BYTES && reader.Reliable()
  }

  datatype Turn = Stopped(error: UpdateError) | NoMore | Moved(data: seq<Byte>)

  /** Write one piece behind what is already stored. */
  method Store(
    flasher: Flasher, data: seq<Byte>, offset: nat, ghost got: seq<Byte>, ghost log: seq<FlashCall>,
    ghost length: nat, ghost expected: Digest, ghost hash: Hash)
    returns (ok: bool, ghost made: seq<FlashCall>)
    requires 0 < |data| <= CHUNK_BYTES && offset == |got| && offset + |data| <= length
    requires Stores(log, got) && got <= flasher.dfu
    modifies flasher
    ensures flasher.calls == old(flasher.calls) + made
    ensures |flasher.dfu| == |old(flasher.dfu)|
    ensures flasher.reliable && offset + |data| <= |old(flasher.dfu)| ==> ok
    ensures if ok then Stores(log + made, got + data) && got + data <= flasher.dfu
            else Outcome(Err(Flash), hash, length, expected, got + data, log + made, flasher.dfu)
  {
    hide Stores;
    ok := flasher.Write(offset, data);
    made := [FlashCall.Write(offset, data, ok)];
    if ok {
      StoresMore(log, got, data);
    }
    Extended(got, data, flasher.dfu, ok);
    FailedWrite(log, got, data);
  }

  lemma FailedWrite(log: seq<FlashCall>, got: seq<Byte>, data: seq<Byte>)
    ensures (log + [FlashCall.Write(|got|, data, false)])[..|log|] == log
    ensures (got + data)[..|got|] == got && (got + data)[|got|..] == data
  {
  }

  /** One turn of the loop: read at most `remaining` bytes and store what came at `offset`. */
  method Pump(
    flasher: Flasher, reader: Reader, buf: array<Byte>, remaining: nat, offset: nat,
    ghost got: seq<Byte>, ghost log: seq<FlashCall>, ghost length: nat, ghost expected: Digest,
    ghost hash: Hash)
    returns (turn: Turn, ghost piece: seq<Byte>, ghost made: seq<FlashCall>)
    requires reader.Valid() && flasher !in reader.Footprint() && buf !in reader.Footprint()
    requires 0 < remaining <= buf.Length == CHUNK_BYTES && offset == |got| && offset + remaining <= length <= ACTIVE_BYTES
    requires Stores(log, got) && got <= flasher.dfu
    modifies flasher, reader.Footprint(), buf
    ensures reader.Valid()
    ensures reader.Delivered() == old(reader.Delivered()) + piece
    ensures flasher.calls == old(flasher.calls) + made
    ensures match turn
            case Stopped(e) =>
              Outcome(Err(e), hash, length, expected, got + piece, log + made, flasher.dfu) && !e.TooShort? && !e.Oversize?
            case NoMore => piece == [] && made == [] && got <= flasher.dfu
            case Moved(data) =>
              data == piece && 0 < |data| <= remaining && Stores(log + made, got + piece) && got + piece <= flasher.dfu
    ensures turn.NoMore? && reader.Http? ==> reader.Delivered() == reader.body.whole
    ensures turn == Stopped(TooLong) ==> reader.Other?
    ensures |flasher.dfu| == |old(flasher.dfu)|
    ensures Dependable(flasher, reader) ==> !turn.Stopped?
  {
    hide Stores;
    piece, made := [], [];
    assert got + [] == got && log + [] == log;
    var reading := reader.Read(buf, remaining);
    if reading.Err? {
      return Stopped(UpdateError.Read(reading.error)), [], [];
    }
    var n := reading.value;
    if n == 0 {
      assert buf[..n] == [];
      return NoMore, [], [];
    }
    if n > remaining {
      return Stopped(TooLong), [], [];
    }
    piece := buf[..n];
    var ok;
    ok, made := Store(flasher, buf[..n], offset, got, log, length, expected, hash);
    turn := if ok then Moved(buf[..n]) else Stopped(Flash);
  }

  /** The end of the session: length check, digest check, commit. */
  method Commit(
    flasher: Flasher, contentLength: nat, expected: Digest, hash: Hash,
    absorbed: seq<Byte>, ghost log: seq<FlashCall>)
    returns (r: Result<(), UpdateError>, ghost made: seq<FlashCall>)
    requires Stores(log, absorbed) && absorbed <= flasher.dfu && |absorbed| <= contentLength <= ACTIVE_BYTES
    modifies flasher`calls
    ensures flasher.calls == old(flasher.calls) + made
    ensures Outcome(r, hash, contentLength, expected, absorbed, log + made, flasher.dfu)
    ensures r == Err(TooShort) ==> |absorbed| < contentLength
    ensures r.Err? ==> !r.error.Oversize? && !r.error.TooLong? && !r.error.Read?
    ensures flasher.reliable ==> r != Err(Flash)
  {
    made := [];
    assert log + [] == log;
    if |absorbed| != contentLength {
      return Err(TooShort), [];
    }
    if hash(absorbed) != expected {
      return Err(HashMismatch), [];
    }
    var marked := flasher.MarkUpdated();
    made := [Mark(marked)];
    assert (log + made)[..|log|] == log;
    r := if marked then Ok(()) else Err(Flash);
  }

  /** The read loop: `length - total` bounds the number of turns, whatever the reader does. */
  method Stream(
    flasher: Flasher, reader: Reader, length: nat, ghost expected: Digest, ghost hash: Hash)
    returns (failed: Option<UpdateError>, absorbed: seq<Byte>, ghost got: seq<Byte>, ghost log: seq<FlashCall>)
    requires reader.Valid() && flasher !in reader.Footprint() && length <= ACTIVE_BYTES
    modifies flasher, reader.Footprint()
    ensures reader.Valid()
    ensures reader.Delivered() == old(reader.Delivered()) + got
    ensures flasher.calls == old(flasher.calls) + log
    ensures old(Dependable(flasher, reader)) ==> failed.None?
    ensures if failed.Some? then
              && Outcome(Err(failed.value), hash, length, expected, got, log, flasher.dfu)
              && !failed.value.TooShort? && !failed.value.Oversize?
              && (failed.value.TooLong? ==> reader.Other?)
            else
              && absorbed == got && Stores(log, got) && got <= flasher.dfu && |got| <= length
              && (|got| < length && reader.Http? ==> reader.Delivered() == reader.body.whole)
  {
    assert Stores([], []);
    hide Stores, Outcome;
    got, log := [], [];
    var buf := new Byte[CHUNK_BYTES](_ => 0);
    absorbed := [];
    var total := 0;
    while total < length
      invariant reader.Valid() && fresh(buf) && buf !in reader.Footprint()
      invariant reader.Delivered() == old(reader.Delivered()) + got
      invariant flasher.calls == old(flasher.calls) + log
      invariant Stores(log, got) && got <= flasher.dfu
      invariant absorbed == got && total == |got| <= length
      invariant |flasher.dfu| == |old(flasher.dfu)|
      decreases length - total
    {
      var remaining := if length - total < buf.Length then length - total else buf.Length;
      var turn;
      ghost var piece, made;
      turn, piece, made := Pump(flasher, reader, buf, remaining, total, got, log, length, expected, hash);
      if turn.NoMore? {
        return None, absorbed, got, log;
      }
      Assoc(old(reader.Delivered()), got, piece);
      Assoc(old(flasher.calls), log, made);
      got, log := got + piece, log + made;
      if turn.Stopped? {
        return Some(turn.error), absorbed, got, log;
      }
      absorbed := absorbed + turn.data;
      total := total + |turn.data|;
    }
    failed := None;
  }

  /** `apply_update`, for any reader. The results beside `r` name what was taken from the reader and which flash
      calls were made. */
  method ApplyUpdate(
    flasher: Flasher, reader: Reader, contentLength: nat, expected: Digest, hash: Hash)
    returns (r: Result<(), UpdateError>, ghost got: seq<Byte>, ghost log: seq<FlashCall>)
    requires reader.Valid() && flasher !in reader.Footprint()
    modifies flasher, reader.Footprint()
    ensures reader.Valid()
    ensures reader.Delivered() == old(reader.Delivered()) + got
    ensures flasher.calls == old(flasher.calls) + log
    ensures Outcome(r, hash, contentLength, expected, got, log, flasher.dfu)
    ensures contentLength > ACTIVE_BYTES <==> r.Err? && r.error.Oversize?
    ensures contentLength > ACTIVE_BYTES ==> flasher.dfu == old(flasher.dfu)
    ensures r == Err(TooShort) && reader.Http? ==> reader.Delivered() == reader.body.whole
    ensures r == Err(TooLong) ==> reader.Other?
    ensures old(Dependable(flasher, reader)) && r.Err? ==> r.error.Oversize? || r.error.TooShort? || r.error.HashMismatch?
  {
    got, log := [], [];
    if contentLength > ACTIVE_BYTES {
      return Err(Oversize(contentLength, ACTIVE_BYTES)), [], [];
    }
    hide Stores, Outcome;
    var failed, absorbed;
    failed, absorbed, got, log := Stream(flasher, reader, contentLength, expected, hash);
    if failed.Some? {
      return Err(failed.value), got, log;
    }
    ghost var made;
    r, made := Commit(flasher, contentLength, expected, hash, absorbed, log);
    Assoc(old(flasher.calls), log, made);
    log := log + made;
  }

  lemma Extended(got: seq<Byte>, data: seq<Byte>, dfu: seq<Byte>, ok: bool)
    requires |got| <= |dfu| && dfu[..|got|] == got
    requires ok ==> |got| + |data| <= |dfu| && dfu[|got|..|got| + |data|] == data
    ensures got <= dfu
    ensures ok ==> got + data <= dfu
  {
  }

  /** Every stored image is the concatenation of the writes that stored it, each starting where the last one ended. */
  lemma {:induction false} StoresContiguous(log: seq<FlashCall>, image: seq<Byte>, i: nat)
    requires Stores(log, image) && i < |log|
    ensures log[i].Write? && log[i].ok
    ensures WriteEnd(log[i]) <= |image| && image[log[i].offset..WriteEnd(log[i])] == log[i].data
    ensures log[i].offset == if i == 0 then 0 else WriteEnd(log[i - 1])
    ensures i == |log| - 1 ==> WriteEnd(log[i]) == |image|
  {
    var k := |log| - 1;
    if i < k {
      var before := image[..log[k].offset];
      StoresContiguous(log[..k], before, i);
      assert before[log[i].offset..WriteEnd(log[i])] == image[log[i].offset..WriteEnd(log[i])];
    } else if k > 0 {
      StoresContiguous(log[..k], image[..log[k].offset], k - 1);
    }
  }

  function WriteEnd(call: FlashCall): nat {
    if call.Write? then call.offset + |call.data| else 0
  }

  /** A run makes at most one successful commit, as its last call, and then the flash holds the whole image under a
      matching digest. */
  lemma CommitLast(
    r: Result<(), UpdateError>, hash: Hash, length: nat, expected: Digest,
    got: seq<Byte>, log: seq<FlashCall>, dfu: seq<Byte>, i: nat)
    requires Outcome(r, hash, length, expected, got, log, dfu)
    requires i < |log| && log[i] == Mark(true)
    ensures r.Ok? && i == |log| - 1 && |got| == length && got <= dfu && hash(got) == expected
    ensures forall j :: 0 <= j < i ==> log[j].Write?
  {
    var stored := if log[|log| - 1].Mark? then log[..|log| - 1] else log;
    assert i == |log| - 1 by {
      if i < |stored| {
        if Stores(stored, got) {
          StoresContiguous(stored, got, i);
        } else {
          StoresContiguous(log[..|log| - 1], got[..log[|log| - 1].offset], i);
        }
      }
    }
    forall j | 0 <= j < i ensures log[j].Write? {
      StoresContiguous(log[..i], got, j);
    }
  }
}
