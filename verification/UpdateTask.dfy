/** One update check: three GETs in order (version, checksum, image), then the verified session and a reset. */
module UpdateTask {
  import opened Bytes
  import opened Decimal
  import opened HeadGrammar
  import opened ReleaseFiles
  import Base64
  import opened Transport
  import opened Session
  import opened Url

  const VERSION_MAX_BYTES: nat := 64
  const SHA_MAX_BYTES: nat := 128
  const REQUEST_MAX_BYTES: nat := 512
  const AUTH_MAX_BYTES: nat := 192

  datatype OtaError =
    | UrlInvalid
    | Unreachable
    | RequestTooLong
    | AuthTooLong
    | BadHead
    | BadVersion
    | BadSha
    | TransportFailed(fetch: FetchError)
    | UpdateFailed(update: UpdateError)

  // ---- Requests ----

  /** A fixed-capacity text sink: a write that does not fit fails and changes nothing. */
  class TextBuf {
    const buf: array<Byte>
    var len: nat

    ghost predicate Valid()
      reads this
    {
      len <= buf.Length
    }

    ghost function Text(): seq<Byte>
      requires Valid()
      reads this, buf
    {
      buf[..len]
    }

    constructor (capacity: nat)
      ensures Valid() && fresh(buf) && buf.Length == capacity && Text() == []
    {
      buf := new Byte[capacity](_ => 0);
      len := 0;
    }

    method Write(s: seq<Byte>) returns (ok: bool)
      requires Valid()
      modifies this`len, buf
      ensures Valid()
      ensures ok == (|old(Text())| + |s| <= buf.Length)
      ensures Text() == if ok then old(Text()) + s else old(Text())
    {
      var end := len + |s|;
      if end > buf.Length {
        return false;
      }
      CopyInto(buf, len, s);
      assert buf[..end] == buf[..len] + buf[len..end];
      len := end;
      return true;
    }
  }

  function CloseLines(): seq<Byte> { Ascii("Connection: close\r\n\r\n") }

  function RequestLine(uri: Uri, name: seq<Byte>): seq<Byte> {
    Ascii("GET ") + uri.path + Ascii("/") + name + Ascii(" HTTP/1.0\r\nHost: ") + uri.host + Ascii("\r\n")
  }

  function AuthLine(user: seq<Byte>, pass: seq<Byte>): seq<Byte> {
    if user == [] && pass == [] then []
    else Ascii("Authorization: ") + Base64.Credentials(user, pass) + Ascii("\r\n")
  }

  function RequestText(uri: Uri, name: seq<Byte>, user: seq<Byte>, pass: seq<Byte>): seq<Byte> {
    RequestLine(uri, name) + AuthLine(user, pass) + CloseLines()
  }

  /** The `Authorization` line through its 192-byte buffer. */
  method AuthHeader(user: seq<Byte>, pass: seq<Byte>) returns (r: Option<seq<Byte>>)
    requires user != [] || pass != []
    ensures r == if |Base64.Credentials(user, pass)| > AUTH_MAX_BYTES then None else Some(AuthLine(user, pass))
  {
    hide Base64.Credentials;
    var auth := new Byte[AUTH_MAX_BYTES](_ => 0);
    var n := Base64.BasicAuthorization(user, pass, auth);
    if n.None? {
      return None;
    }
    return Some(Ascii("Authorization: ") + auth[..n.value] + Ascii("\r\n"));
  }

  lemma NoAuth()
    ensures AuthLine([], []) == []
  {
  }

  /** `build_request`: the credentials are left out when both are empty; each part must fit its buffer. */
  method BuildRequest(uri: Uri, name: seq<Byte>, user: seq<Byte>, pass: seq<Byte>)
    returns (r: Result<seq<Byte>, OtaError>)
    ensures r ==
            if |RequestLine(uri, name)| > REQUEST_MAX_BYTES then Err(RequestTooLong)
            else if (user != [] || pass != []) && |Base64.Credentials(user, pass)| > AUTH_MAX_BYTES then Err(AuthTooLong)
            else if |RequestText(uri, name, user, pass)| > REQUEST_MAX_BYTES then Err(RequestTooLong)
            else Ok(RequestText(uri, name, user, pass))
  {
    hide RequestLine, AuthLine, CloseLines, Base64.Credentials;
    var out := new TextBuf(REQUEST_MAX_BYTES);
    var first := RequestLine(uri, name);
    var ok := out.Write(first);
    assert [] + first == first;
    if !ok {
      return Err(RequestTooLong);
    }
    if user != [] || pass != [] {
      var line := AuthHeader(user, pass);
      if line.None? {
        return Err(AuthTooLong);
      }
      ok := out.Write(line.value);
      if !ok {
        return Err(RequestTooLong);
      }
    } else {
      NoAuth();
      assert first + [] == first;
    }
    ok := out.Write(CloseLines());
    if !ok {
      return Err(RequestTooLong);
    }
    return Ok(out.buf[..out.len]);
  }

  // ---- The three fetches ----

  /** A request sent on a fresh connection, and everything the peer had to say on it. */
  datatype Exchange = Exchange(request: seq<Byte>, stream: seq<Byte>)

  /** The part of a connection's stream after its head. */
  ghost function Body(exchange: Exchange): seq<Byte> {
    exchange.stream[Consumed(exchange.stream)..]
  }

  /** What a failed GET says about the peer: it stopped before its head was whole, or sent a head that is rejected for
      just that reason; otherwise the connection itself failed. A leftover never overflows. */
  ghost predicate PeerFailure(exchange: Exchange, error: FetchError) {
    match error
    case Closed => Event(exchange.stream).NeedMore?
    case Head(e) => Event(exchange.stream) == Reject(e)
    case Leftover => false
    case BodyTooLarge => false
    case _ => true
  }

  /** Why a file could not be fetched. */
  ghost predicate FetchFailure(
    uri: Uri, name: seq<Byte>, user: seq<Byte>, pass: seq<Byte>, exchange: Exchange, error: OtaError)
  {
    match error
    case RequestTooLong => |RequestText(uri, name, user, pass)| > REQUEST_MAX_BYTES
    case AuthTooLong => (user != [] || pass != []) && |Base64.Credentials(user, pass)| > AUTH_MAX_BYTES
    case Unreachable => true
    case TransportFailed(e) => PeerFailure(exchange, e)
    case _ => false
  }

  /** DNS, TCP and TLS: a connection to an unknown peer, or a failure. */
  method Open() returns (r: Result<Link, OtaError>)
    ensures r.Ok? ==> fresh(r.value) && r.value.sent == []
    ensures r.Err? ==> r.error == Unreachable
  {
    if * {
      return Err(Unreachable);
    }
    var stream: seq<Byte> := *;
    var reliable: bool := *;
    var link := new Link(stream, reliable);
    return Ok(link);
  }

  datatype Reply = Reply(link: Link, head: ResponseHead, leftover: seq<Byte>)

  /** Open a connection, send the request for `name`, read the head. */
  method Fetch(uri: Uri, name: seq<Byte>, user: seq<Byte>, pass: seq<Byte>, leftover: array<Byte>)
    returns (r: Result<Reply, OtaError>, ghost exchange: Exchange)
    requires leftover.Length == READ_CHUNK
    modifies leftover
    ensures r.Ok? ==>
              var Reply(link, head, extra) := r.value;
              && fresh(link)
              && exchange.request == RequestText(uri, name, user, pass)
              && Event(exchange.stream) == Complete(head)
              && extra + link.incoming == Body(exchange)
    ensures r.Err? ==> FetchFailure(uri, name, user, pass, exchange, r.error)
  {
    hide Event, Consumed, RequestText, RequestLine;
    exchange := Exchange([], []);
    var request := BuildRequest(uri, name, user, pass);
    if request.Err? {
      LineInText(uri, name, user, pass);
      return Err(request.error), exchange;
    }
    var connected := Open();
    if connected.Err? {
      return Err(connected.error), exchange;
    }
    var link := connected.value;
    exchange := Exchange(request.value, link.incoming);
    var got := Get(link, request.value, leftover);
    if got.Err? {
      return Err(TransportFailed(got.error)), exchange;
    }
    var (head, extra) := got.value;
    assert [] + request.value == request.value;
    return Ok(Reply(link, head, leftover[..extra])), exchange;
  }

  lemma LineInText(uri: Uri, name: seq<Byte>, user: seq<Byte>, pass: seq<Byte>)
    ensures |RequestLine(uri, name)| <= |RequestText(uri, name, user, pass)|
  {
  }

  /** The text a small body was read as: at most `Usize(length)` bytes, fewer when the stream ended early. */
  ghost predicate TextBody(exchange: Exchange, cap: nat, text: seq<Byte>) {
    var body := Body(exchange);
    exists n :: Event(exchange.stream) == Complete(ResponseHead(200, Some(n))) && Usize(n) <= cap
                && text == body[..if Usize(n) < |body| then Usize(n) else |body|]
  }

  /** A length below 2^32 is not cut: the text is the whole declared body, or what the stream held of it. */
  lemma SmallBodyWhole(exchange: Exchange, cap: nat, text: seq<Byte>, length: nat)
    requires TextBody(exchange, cap, text) && length < 0x1_0000_0000
    requires Event(exchange.stream) == Complete(ResponseHead(200, Some(length)))
    ensures length <= cap
    ensures var body := Body(exchange); text == body[..if length < |body| then length else |body|]
  {
    hide Event, Consumed, Body;
  }

  /** The peer answered with a whole head that is not a 200. */
  ghost predicate NotOk(exchange: Exchange) {
    exists head :: Event(exchange.stream) == Complete(head) && head.status != 200
  }

  /** The peer answered 200 with a body too long for its buffer. */
  ghost predicate TooLongBody(exchange: Exchange, cap: nat) {
    exists head :: Event(exchange.stream) == Complete(head) && head.status == 200
                   && (head.contentLength.None? || Usize(head.contentLength.value) > cap)
  }

  /** A small text file, or `None` when the server does not answer 200. */
  method FetchText(uri: Uri, name: seq<Byte>, user: seq<Byte>, pass: seq<Byte>, leftover: array<Byte>, cap: nat)
    returns (r: Result<Option<seq<Byte>>, OtaError>, ghost exchange: Exchange)
    requires leftover.Length == READ_CHUNK
    modifies leftover
    ensures r.Ok? && r.value.Some? ==>
              exchange.request == RequestText(uri, name, user, pass) && TextBody(exchange, cap, r.value.value)
    ensures r == Ok(None) ==> NotOk(exchange)
    ensures r == Err(BadHead) ==> TooLongBody(exchange, cap)
    ensures r.Err? && r.error != BadHead ==> FetchFailure(uri, name, user, pass, exchange, r.error)
  {
    hide Event, Consumed, RequestText, Usize;
    var got;
    got, exchange := Fetch(uri, name, user, pass, leftover);
    if got.Err? {
      return Err(got.error), exchange;
    }
    var Reply(link, head, extra) := got.value;
    if head.status != 200 {
      return Ok(None), exchange;
    }
    if head.contentLength.None? || Usize(head.contentLength.value) > cap {
      return Err(BadHead), exchange;
    }
    var length := head.contentLength.value;
    var out := new Byte[cap](_ => 0);
    var read := ReadSmall(link, extra, length, out);
    if read.Err? {
      return Err(TransportFailed(read.error)), exchange;
    }
    assert Event(exchange.stream) == Complete(ResponseHead(200, Some(length)));
    return Ok(Some(out[..read.value])), exchange;
  }

  // ---- The check ----

  datatype Config = Config(base: seq<Byte>, project: seq<Byte>, user: seq<Byte>, pass: seq<Byte>, version: nat)

  datatype CheckResult = NoUpdate | Failed(error: OtaError) | Reset

  predicate Decide(local: nat, remote: nat) {
    local != remote
  }

  function VersionName(): seq<Byte> { FileName(VersionFile) }

  function ShaName(version: nat): seq<Byte> { FileName(Sha(Digits(version))) }

  function BinName(version: nat): seq<Byte> { FileName(Bin(Digits(version))) }

  /** What had to be seen before flash may be touched: a version other than the running one, the checksum text of
      exactly that version, and a head for exactly that version's image. */
  ghost predicate Accepted(c: Config, uri: Uri, seen: seq<Exchange>, version: nat, expected: Digest, length: nat) {
    && UrlOf(c.base, c.project) == Ok(uri)
    && |seen| == 3
    && seen[0].request == RequestText(uri, VersionName(), c.user, c.pass)
    && seen[1].request == RequestText(uri, ShaName(version), c.user, c.pass)
    && seen[2].request == RequestText(uri, BinName(version), c.user, c.pass)
    && (exists text :: TextBody(seen[0], VERSION_MAX_BYTES, text) && VersionOf(text) == Some(version))
    && version != c.version
    && (exists text :: TextBody(seen[1], SHA_MAX_BYTES, text) && ShaOf(text) == Some(expected))
    && Event(seen[2].stream) == Complete(ResponseHead(200, Some(length)))
  }

  /** The commit: the declared body is stored whole, its digest is the published one, the mark came last. */
  ghost predicate Committed(
    image: Exchange, length: nat, expected: Digest, hash: Hash, log: seq<FlashCall>, dfu: seq<Byte>)
  {
    && length <= |Body(image)| && Body(image)[..length] <= dfu && hash(Body(image)[..length]) == expected
    && log != [] && log[|log| - 1] == Mark(true) && Stores(log[..|log| - 1], Body(image)[..length])
  }

  /** The body holds the declared bytes, they fit the active slot, and they have the published digest. */
  ghost predicate Installable(image: Exchange, length: nat, expected: Digest, hash: Hash) {
    length <= ACTIVE_BYTES && length <= |Body(image)| && hash(Body(image)[..length]) == expected
  }

  /** A session that failed: the flash got a front part of the body, in order, and no successful mark. */
  ghost predicate Stopped(
    error: UpdateError, image: Exchange, length: nat, expected: Digest, hash: Hash,
    log: seq<FlashCall>, dfu: seq<Byte>)
  {
    exists got :: got <= Body(image) && Outcome(Err(error), hash, length, expected, got, log, dfu)
  }

  /** A file name the check asks for. */
  ghost predicate IsFileName(name: seq<Byte>) {
    name == VersionName() || exists v: nat :: v <= U32_MAX && (name == ShaName(v) || name == BinName(v))
  }

  /** Why a check ended without touching flash, for every way it can: `Reset` and a failed session do touch it. */
  ghost predicate Explained(c: Config, r: CheckResult, seen: seq<Exchange>) {
    match r
    case NoUpdate =>
      0 < |seen| <= 3 &&
      (NotOk(seen[|seen| - 1]) ||
       (|seen| == 1 && exists text :: TextBody(seen[0], VERSION_MAX_BYTES, text) && VersionOf(text) == Some(c.version)))
    case Failed(UrlInvalid) => UrlOf(c.base, c.project).Err?
    case Failed(BadVersion) =>
      |seen| == 1 && exists text :: TextBody(seen[0], VERSION_MAX_BYTES, text) && VersionOf(text) == None
    case Failed(BadSha) =>
      |seen| == 2 && exists text :: TextBody(seen[1], SHA_MAX_BYTES, text) && ShaOf(text) == None
    case Failed(BadHead) =>
      (|seen| == 1 && TooLongBody(seen[0], VERSION_MAX_BYTES)) || (|seen| == 2 && TooLongBody(seen[1], SHA_MAX_BYTES))
    case Failed(RequestTooLong) =>
      exists uri, name :: UrlOf(c.base, c.project) == Ok(uri) && IsFileName(name)
                          && |RequestText(uri, name, c.user, c.pass)| > REQUEST_MAX_BYTES
    case Failed(AuthTooLong) => (c.user != [] || c.pass != []) && |Base64.Credentials(c.user, c.pass)| > AUTH_MAX_BYTES
    case Failed(Unreachable) => 0 < |seen| <= 3
    case Failed(TransportFailed(e)) => 0 < |seen| <= 3 && PeerFailure(seen[|seen| - 1], e)
    case Failed(UpdateFailed(_)) => |seen| == 3
    case Reset => |seen| == 3
  }

  lemma FetchExplained(c: Config, uri: Uri, name: seq<Byte>, seen: seq<Exchange>, error: OtaError)
    requires UrlOf(c.base, c.project) == Ok(uri) && IsFileName(name) && 0 < |seen| <= 3
    requires FetchFailure(uri, name, c.user, c.pass, seen[|seen| - 1], error)
    ensures Explained(c, Failed(error), seen)
    ensures error != TransportFailed(Leftover) && !error.UpdateFailed?
  {
    hide UrlOf, RequestText, IsFileName;
  }

  lemma FileNames(v: nat)
    requires v <= U32_MAX
    ensures IsFileName(VersionName()) && IsFileName(ShaName(v)) && IsFileName(BinName(v))
  {
  }

  /** `check_and_update`. Flash is called only after all three answers were accepted; it then receives bytes from the
      start of the image body in order; and a reset happens only with the whole declared body stored, its digest
      equal to the one published for that version, and the commit made last. Nothing else commits. */
  method CheckAndUpdate(c: Config, flasher: Flasher, hash: Hash)
    returns (r: CheckResult, ghost seen: seq<Exchange>, ghost log: seq<FlashCall>)
    modifies flasher
    ensures flasher.calls == old(flasher.calls) + log
    ensures log != [] ==> exists uri, version, expected, length: nat ::
                Accepted(c, uri, seen, version, expected, length) && length <= ACTIVE_BYTES
    ensures r.Reset? ==> exists uri, version, expected, length: nat ::
                Accepted(c, uri, seen, version, expected, length)
                && Committed(seen[2], length, expected, hash, log, flasher.dfu)
    ensures r.Failed? && r.error.UpdateFailed? ==> exists uri, version, expected, length: nat ::
                Accepted(c, uri, seen, version, expected, length)
                && Stopped(r.error.update, seen[2], length, expected, hash, log, flasher.dfu)
    ensures !r.Reset? ==> forall i :: 0 <= i < |log| ==> log[i] != Mark(true)
    ensures r != Failed(TransportFailed(Leftover)) && r != Failed(UpdateFailed(TooLong))
    ensures Explained(c, r, seen)
    ensures UrlOf(c.base, c.project).Err? ==> r == Failed(UrlInvalid) && seen == [] && log == []
  {
    hide Event, Consumed, RequestText, UrlOf, ShaOf, VersionOf, TextBody, NotOk, TooLongBody, Committed, Stopped;
    hide FetchFailure, PeerFailure, IsFileName, VersionName, ShaName, BinName;
    FileNames(0);
    seen, log := [], [];
    var uri := ParseUrl(c.base, c.project);
    if uri.Err? {
      return Failed(UrlInvalid), seen, log;
    }
    var leftover := new Byte[READ_CHUNK](_ => 0);
    var announced;
    ghost var exchange;
    announced, exchange := FetchText(uri.value, VersionName(), c.user, c.pass, leftover, VERSION_MAX_BYTES);
    seen := [exchange];
    if announced.Err? {
      if announced.error != BadHead {
        FetchExplained(c, uri.value, VersionName(), seen, announced.error);
      }
      return Failed(announced.error), seen, log;
    }
    if announced.value.None? {
      return NoUpdate, seen, log;
    }
    var remote := ParseVersion(announced.value.value);
    if remote.None? {
      return Failed(BadVersion), seen, log;
    }
    var version := remote.value;
    Fits32(announced.value.value);
    FileNames(version);
    if !Decide(c.version, version) {
      return NoUpdate, seen, log;
    }
    var checksum;
    checksum, exchange := FetchText(uri.value, ShaName(version), c.user, c.pass, leftover, SHA_MAX_BYTES);
    seen := seen + [exchange];
    if checksum.Err? {
      if checksum.error != BadHead {
        FetchExplained(c, uri.value, ShaName(version), seen, checksum.error);
      }
      return Failed(checksum.error), seen, log;
    }
    if checksum.value.None? {
      return NoUpdate, seen, log;
    }
    var expected := ParseSha256Hex(checksum.value.value);
    if expected.None? {
      return Failed(BadSha), seen, log;
    }
    var image;
    image, exchange := Fetch(uri.value, BinName(version), c.user, c.pass, leftover);
    seen := seen + [exchange];
    if image.Err? {
      FetchExplained(c, uri.value, BinName(version), seen, image.error);
      return Failed(image.error), seen, log;
    }
    var Reply(link, head, extra) := image.value;
    if head.status != 200 {
      AnsweredNotOk(exchange, head);
      return NoUpdate, seen, log;
    }
    // A complete 200 head always declares its length.
    LengthDeclared(exchange.stream, head);
    if head.contentLength.None? {
      assert false;
    }
    assert Accepted(c, uri.value, seen, version, expected.value, head.contentLength.value);
    r, log := Install(flasher, link, extra, exchange, head.contentLength.value, expected.value, hash);
  }

  lemma Fits32(text: seq<Byte>)
    requires VersionOf(text).Some?
    ensures VersionOf(text).value <= U32_MAX
  {
  }

  lemma AnsweredNotOk(exchange: Exchange, head: ResponseHead)
    requires Event(exchange.stream) == Complete(head) && head.status != 200
    ensures NotOk(exchange)
  {
  }

  /** Only a 404 head may come without a length, so the missing-length branch behind a 200 is never taken. */
  lemma LengthDeclared(stream: seq<Byte>, head: ResponseHead)
    requires Event(stream) == Complete(head) && head.status != 404
    ensures head.contentLength.Some?
  {
    hide Event, Consumed;
    var lines, crlf := CompleteStartsWithHead(stream, head);
  }

  /** The last stage: stream the body into flash and commit. When neither the link nor the flash fails, it commits
      exactly the installable bodies. */
  method Install(
    flasher: Flasher, link: Link, leftover: seq<Byte>, ghost exchange: Exchange, length: nat, expected: Digest,
    hash: Hash)
    returns (r: CheckResult, ghost log: seq<FlashCall>)
    requires leftover + link.incoming == Body(exchange)
    modifies flasher, link
    ensures flasher.calls == old(flasher.calls) + log
    ensures log != [] ==> length <= ACTIVE_BYTES
    ensures match r
            case NoUpdate => false
            case Reset => Committed(exchange, length, expected, hash, log, flasher.dfu)
            case Failed(UpdateFailed(e)) => Stopped(e, exchange, length, expected, hash, log, flasher.dfu) && e != TooLong
            case Failed(_) => false
    ensures !r.Reset? ==> forall i :: 0 <= i < |log| ==> log[i] != Mark(true)
    ensures link.reliable && flasher.reliable && |old(flasher.dfu)| >= ACTIVE_BYTES ==>
              (r.Reset? <==> Installable(exchange, length, expected, hash))
  {
    hide Body, Stores;
    var body := new HttpBody(link, leftover);
    var result;
    ghost var got;
    result, got, log := ApplyUpdate(flasher, Http(body), length, expected, hash);
    assert [] + got == got && got <= body.whole;
    forall i | 0 <= i < |log| && result.Err? ensures log[i] != Mark(true) {
      if log[i] == Mark(true) {
        CommitLast(result, hash, length, expected, got, log, flasher.dfu, i);
      }
    }
    r := if result.Ok? then Reset else Failed(UpdateFailed(result.error));
  }
}
