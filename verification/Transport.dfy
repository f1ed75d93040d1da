/** One HTTP/1.0 GET over a byte stream: the head is fed to the parser from fixed-size reads, the body bytes read
    along with it are kept, and the body reader gives those back before it reads the link again. */
module Transport {
  import opened Bytes
  import opened HeadGrammar
  import opened HeadParsing

  const READ_CHUNK: nat := 256

  datatype FetchError =
    | Timeout
    | WriteFailed
    | FlushFailed
    | ReadFailed
    | Closed
    | Head(error: HeadError)
    | Leftover
    | BodyTooLarge

  /** An open connection. What the peer will send is fixed but unknown; each read delivers any nonempty piece of it,
      so a proof about a reader holds for every fragmentation. Unless the link is reliable, any operation may fail. */
  class Link {
    var incoming: seq<Byte>
    var sent: seq<Byte>
    const reliable: bool

    constructor (stream: seq<Byte>, reliable: bool)
      ensures incoming == stream && sent == [] && this.reliable == reliable
    {
      incoming, sent := stream, [];
      this.reliable := reliable;
    }

    /** Whether the next operation fails. */
    method Fails() returns (b: bool)
      ensures reliable ==> !b
    {
      b := *;
      if reliable {
        b := false;
      }
    }

    /** `read` into `buf[lo..hi]`: 0 bytes only at the end of the stream or for an empty slice. */
    method Read(buf: array<Byte>, lo: nat, hi: nat) returns (r: Result<nat, FetchError>)
      requires lo <= hi <= buf.Length
      modifies this`incoming, buf
      ensures reliable ==> r.Ok?
      ensures r.Err? ==> incoming == old(incoming) && (r.error == Timeout || r.error == ReadFailed)
      ensures r.Ok? ==>
                var n := r.value;
                && n <= hi - lo && n <= |old(incoming)|
                && (n == 0 <==> lo == hi || old(incoming) == [])
                && buf[..lo] == old(buf[..lo])
                && buf[lo..lo + n] == old(incoming)[..n]
                && incoming == old(incoming)[n..]
    {
      var late := Fails();
      var broken := Fails();
      if late || broken {
        return Err(if late then Timeout else ReadFailed);
      }
      var most := if hi - lo < |incoming| then hi - lo else |incoming|;
      var n := most;
      if most > 0 {
        n :| 1 <= n <= most;
      }
      Deliver(buf, lo, n);
      return Ok(n);
    }

    method Deliver(buf: array<Byte>, lo: nat, n: nat)
      requires n <= |incoming| && lo + n <= buf.Length
      modifies this`incoming, buf
      ensures buf[..lo] == old(buf[..lo]) && buf[lo..lo + n] == old(incoming)[..n]
      ensures incoming == old(incoming)[n..]
    {
      CopyInto(buf, lo, incoming[..n]);
      incoming := incoming[n..];
    }

    /** `write_all` followed by `flush`. */
    method Send(request: seq<Byte>) returns (r: Result<(), FetchError>)
      modifies this`sent
      ensures reliable ==> r.Ok?
      ensures r.Ok? ==> sent == old(sent) + request
      ensures r.Err? ==> r.error == Timeout || r.error == WriteFailed || r.error == FlushFailed
    {
      var late := Fails();
      var broken := Fails();
      if late || broken {
        return Err(if late then Timeout else WriteFailed);
      }
      sent := sent + request;
      late := Fails();
      broken := Fails();
      if late || broken {
        return Err(if late then Timeout else FlushFailed);
      }
      return Ok(());
    }
  }

  /** Push bytes until the parser decides or the fragment ends; `used` counts the bytes pushed. */
  method FeedFragment(parser: HeadParser, buf: array<Byte>, n: nat) returns (event: HeadEvent, used: nat)
    requires parser.Valid() && Event(parser.fed).NeedMore? && 0 < n <= buf.Length && buf != parser.line
    modifies parser, parser.line
    ensures parser.Valid() && parser.line == old(parser.line)
    ensures 0 < used <= n && parser.fed == old(parser.fed) + buf[..used]
    ensures event == Event(parser.fed)
    ensures event.NeedMore? ==> used == n
    ensures !event.NeedMore? ==> Consumed(parser.fed) == |parser.fed|
  {
    hide *;
    used := 0;
    event := NeedMore;
    while used < n && event.NeedMore?
      invariant used <= n && parser.Valid() && parser.line == old(parser.line)
      invariant parser.fed == old(parser.fed) + buf[..used]
      invariant event == Event(parser.fed)
      invariant used == 0 ==> event.NeedMore?
      invariant !event.NeedMore? ==> Consumed(parser.fed) == |parser.fed|
      decreases n - used
    {
      ghost var before := parser.fed;
      var b := buf[used];
      event := parser.Push(b);
      used := used + 1;
      assert buf[..used] == buf[..used - 1] + [b];
      if !event.NeedMore? {
        JustDecided(before, b);
      }
    }
  }

  lemma JustDecided(p: seq<Byte>, b: Byte)
    requires Event(p).NeedMore? && !Event(p + [b]).NeedMore?
    ensures Consumed(p + [b]) == |p| + 1
  {
  }

  datatype Fragment = AtEnd | Fed(event: HeadEvent, used: nat, n: nat)

  /** One turn of the read loop: read a fragment and push it. `stream` is everything since the request. */
  method ReadFragment(link: Link, parser: HeadParser, buf: array<Byte>, ghost stream: seq<Byte>)
    returns (r: Result<Fragment, FetchError>)
    requires parser.Valid() && Event(parser.fed).NeedMore? && buf.Length == READ_CHUNK && buf != parser.line
    requires stream == parser.fed + link.incoming
    modifies link`incoming, parser, parser.line, buf
    ensures r.Err? ==> !link.reliable && (r.error == Timeout || r.error == ReadFailed)
    ensures parser.line == old(parser.line)
    ensures r == Ok(AtEnd) ==> link.incoming == [] && Event(stream).NeedMore?
    ensures r.Ok? && r.value.Fed? ==>
              var Fed(event, used, n) := r.value;
              && 0 < used <= n <= READ_CHUNK
              && if event.NeedMore? then
                   && parser.Valid() && Event(parser.fed).NeedMore?
                   && stream == parser.fed + link.incoming && |link.incoming| < |old(link.incoming)|
                 else
                   event == Event(stream) && stream[Consumed(stream)..] == buf[used..n] + link.incoming
  {
    assert READ_CHUNK > 0;
    hide *;
    ghost var fed, pending := parser.fed, link.incoming;
    var reading := link.Read(buf, 0, READ_CHUNK);
    if reading.Err? {
      return Err(reading.error);
    }
    var n := reading.value;
    if n == 0 {
      assert pending == [] && stream == parser.fed;
      return Ok(AtEnd);
    }
    var event, used := FeedFragment(parser, buf, n);
    ghost var rest := buf[used..n] + link.incoming;
    Reassemble(stream, fed, pending, buf[..n], used, link.incoming);
    assert buf[0..n] == buf[..n] && buf[..n][..used] == buf[..used] && buf[..n][used..] == buf[used..n];
    assert stream == parser.fed + rest;
    if event.NeedMore? {
      assert rest == link.incoming;
    } else {
      EventSticks(parser.fed, rest);
    }
    return Ok(Fed(event, used, n));
  }

  lemma Reassemble(stream: seq<Byte>, fed: seq<Byte>, pending: seq<Byte>, piece: seq<Byte>, used: nat, after: seq<Byte>)
    requires stream == fed + pending && used <= |piece| <= |pending|
    requires piece == pending[..|piece|] && after == pending[|piece|..]
    ensures stream == fed + piece[..used] + (piece[used..] + after)
  {
  }

  /** `get`. However the stream is cut up, success means the stream starts with exactly the head returned, and the
      over-read bytes followed by what is still on the link are exactly the stream after that head. A buffer as
      large as one read, which is what the caller passes, never overflows. */
  method Get(link: Link, request: seq<Byte>, leftover: array<Byte>)
    returns (r: Result<(ResponseHead, nat), FetchError>)
    modifies link, leftover
    ensures match r
            case Ok((head, extra)) =>
              && Event(old(link.incoming)) == Complete(head)
              && extra <= leftover.Length
              && leftover[..extra] + link.incoming == old(link.incoming)[Consumed(old(link.incoming))..]
              && link.sent == old(link.sent) + request
            case Err(Closed) => Event(old(link.incoming)).NeedMore? && link.incoming == []
            case Err(Head(error)) => Event(old(link.incoming)) == Reject(error)
            case Err(Leftover) => Event(old(link.incoming)).Complete? && leftover.Length < READ_CHUNK - 1
            case Err(e) => e != BodyTooLarge && !link.reliable
  {
    hide *;
    ghost var stream := link.incoming;
    var sending := link.Send(request);
    if sending.Err? {
      return Err(sending.error);
    }
    var parser := new HeadParser();
    var buf := new Byte[READ_CHUNK](_ => 0);
    NothingYet();
    while true
      invariant parser.Valid() && fresh(parser) && fresh(parser.line) && fresh(buf)
      invariant buf.Length == READ_CHUNK && buf != parser.line && buf != leftover
      invariant stream == parser.fed + link.incoming && Event(parser.fed).NeedMore?
      invariant link.sent == old(link.sent) + request
      decreases |link.incoming|
    {
      var turn := ReadFragment(link, parser, buf, stream);
      match turn
      case Err(error) =>
        return Err(error);
      case Ok(AtEnd) =>
        return Err(Closed);
      case Ok(Fed(NeedMore, _, _)) =>
      case Ok(Fed(Reject(error), _, _)) =>
        return Err(Head(error));
      case Ok(Fed(Complete(head), used, n)) =>
        var extra := n - used;
        if extra > leftover.Length {
          return Err(Leftover);
        }
        CopyOut(buf, used, n, leftover);
        return Ok((head, extra));
    }
  }

  method CopyOut(source: array<Byte>, lo: nat, hi: nat, target: array<Byte>)
    requires lo <= hi <= source.Length && hi - lo <= target.Length && source != target
    modifies target
    ensures target[..hi - lo] == source[lo..hi]
  {
    CopyInto(target, 0, source[lo..hi]);
    assert target[0..hi - lo] == target[..hi - lo];
  }

  lemma NothingYet()
    ensures Event([]).NeedMore?
  {
  }

  lemma Extends(body: seq<Byte>, n: nat, more: nat)
    requires n + more <= |body|
    ensures body[..n + more] == body[..n] + body[n..][..more]
    ensures body[n + more..] == body[n..][more..]
  {
  }

  /** `as usize` on the 32-bit target: the low 32 bits, so the number itself when it fits. */
  function Usize(n: nat): (r: nat)
    ensures r < 0x1_0000_0000 && (n < 0x1_0000_0000 ==> r == n)
    ensures exists high: nat :: n == 0x1_0000_0000 * high + r
  {
    assert n == 0x1_0000_0000 * (n / 0x1_0000_0000) + n % 0x1_0000_0000;
    n % 0x1_0000_0000
  }

  /** `read_small`: the over-read bytes first, then the link, until `length` bytes or the end of the stream. What it
      returns is always a prefix of the body; a short count happens only when the stream ended early. */
  method ReadSmall(link: Link, leftover: seq<Byte>, length: nat, out: array<Byte>)
    returns (r: Result<nat, FetchError>)
    modifies link`incoming, out
    ensures r.Ok? ==>
              var n := r.value;
              var body := leftover + old(link.incoming);
              && n <= Usize(length) <= out.Length && n <= |body|
              && out[..n] == body[..n]
              && (n < Usize(length) ==> n == |body|)
              && (length < 0x1_0000_0000 ==> n == if length < |body| then length else |body|)
    ensures r == Err(BodyTooLarge) <==> Usize(length) > out.Length
    ensures r.Err? ==> r.error == BodyTooLarge || (!link.reliable && (r.error == Timeout || r.error == ReadFailed))
  {
    if Usize(length) > out.Length {
      return Err(BodyTooLarge);
    }
    var len := Usize(length);
    ghost var body := leftover + link.incoming;
    var take := if |leftover| < len then |leftover| else len;
    CopyInto(out, 0, leftover[..take]);
    var n := take;
    assert out[..n] == out[0..n] == leftover[..n] == body[..n];
    assert n < len ==> leftover[..n] == leftover && body[n..] == link.incoming;
    while n < len
      invariant take <= n <= len && n <= |body|
      invariant out[..n] == body[..n]
      invariant n < len ==> body[n..] == link.incoming
      decreases len - n
    {
      var reading := ReadOn(link, out, n, len, body);
      if reading.Err? {
        return Err(reading.error);
      }
      if reading.value == 0 {
        break;
      }
      n := n + reading.value;
    }
    return Ok(n);
  }

  /** One turn of `read_small`: what comes next on the link continues the body. */
  method ReadOn(link: Link, out: array<Byte>, n: nat, len: nat, ghost body: seq<Byte>)
    returns (r: Result<nat, FetchError>)
    requires n < len <= out.Length && n <= |body| && out[..n] == body[..n] && body[n..] == link.incoming
    modifies link`incoming, out
    ensures r.Err? ==> !link.reliable && (r.error == Timeout || r.error == ReadFailed)
    ensures r.Ok? ==>
              var read := r.value;
              && n + read <= len && n + read <= |body|
              && out[..n + read] == body[..n + read] && body[n + read..] == link.incoming
              && (read == 0 ==> n == |body|)
  {
    r := link.Read(out, n, len);
    if r.Ok? {
      var end := n + r.value;
      assert out[..end] == out[..n] + out[n..end];
      Extends(body, n, r.value);
    }
  }

  /** The streaming body source: over-read bytes first, then the connection. */
  class HttpBody {
    const link: Link
    var leftover: seq<Byte>

    /** The whole body stream as it stood when the head ended, and the part handed out so far. */
    ghost const whole: seq<Byte>
    ghost var delivered: seq<Byte>

    ghost predicate Valid()
      reads this, link
    {
      whole == delivered + (leftover + link.incoming)
    }

    constructor (link: Link, leftover: seq<Byte>)
      ensures Valid() && this.link == link && this.leftover == leftover
      ensures delivered == [] && whole == leftover + link.incoming
    {
      this.link, this.leftover := link, leftover;
      whole, delivered := leftover + link.incoming, [];
    }

    /** `read` into `buf[..limit]`: hands out the next bytes of the stream, none lost, repeated or reordered. */
    method Read(buf: array<Byte>, limit: nat) returns (r: Result<nat, FetchError>)
      requires Valid() && limit <= buf.Length
      modifies this`leftover, this`delivered, link`incoming, buf
      ensures Valid()
      ensures r.Err? ==> !link.reliable && delivered == old(delivered)
      ensures r.Ok? ==>
                && r.value <= limit
                && delivered == old(delivered) + buf[..r.value]
                && (r.value == 0 ==> limit == 0 || delivered == whole)
    {
      if leftover != [] {
        var n := if limit < |leftover| then limit else |leftover|;
        CopyInto(buf, 0, leftover[..n]);
        assert buf[..n] == buf[0..n];
        delivered := delivered + leftover[..n];
        leftover := leftover[n..];
        return Ok(n);
      }
      r := link.Read(buf, 0, limit);
      if r.Ok? {
        assert buf[0..r.value] == buf[..r.value];
        delivered := delivered + buf[..r.value];
      }
    }
  }
}
