/** The OTA base URL and project name: what `parse_url` accepts and what it makes of them. Text is UTF-8 bytes. */
module Url {
  import opened Bytes
  import opened Decimal

  const SLASH: Byte := 47
  const PLUS: Byte := 43
  const PATH_BYTES: nat := 192

  datatype UrlError = Scheme | Host | Port | Project | Path

  datatype Uri = Uri(tls: bool, host: seq<Byte>, port: nat, path: seq<Byte>)

  predicate ValidHostByte(b: Byte) {
    IsDigit(b) || 65 <= b <= 90 || 97 <= b <= 122 || b == 46 || b == 45 || b == 95
  }

  predicate ValidSegment(s: seq<Byte>) {
    s != [] && forall i :: 0 <= i < |s| ==> ValidHostByte(s[i])
  }

  // ---- Where the parts end ----

  /** Start of the first "://", or the length when there is none. */
  function SchemeEnd(s: seq<Byte>): (n: nat)
    ensures n <= |s|
    ensures n < |s| ==> n + 3 <= |s| && s[n] == COLON && s[n + 1] == SLASH && s[n + 2] == SLASH
  {
    if |s| < 3 then |s|
    else if s[0] == COLON && s[1] == SLASH && s[2] == SLASH then 0
    else SchemeEnd(s[1..]) + 1
  }

  lemma {:induction false} SchemeEndAt(scheme: seq<Byte>, rest: seq<Byte>)
    requires COLON !in scheme
    ensures SchemeEnd(scheme + [COLON, SLASH, SLASH] + rest) == |scheme|
  {
    var s := scheme + [COLON, SLASH, SLASH] + rest;
    if scheme != [] {
      SchemeEndAt(scheme[1..], rest);
      assert s[1..] == scheme[1..] + [COLON, SLASH, SLASH] + rest;
      assert s[0] == scheme[0];
    }
  }

  /** Index of the last `b`. */
  function LastIndex(s: seq<Byte>, b: Byte): (r: Option<nat>)
    ensures r.Some? ==> r.value < |s| && s[r.value] == b && b !in s[r.value + 1..]
    ensures r.None? ==> b !in s
  {
    if s == [] then None
    else if s[|s| - 1] == b then Some(|s| - 1)
    else
      var r := LastIndex(s[..|s| - 1], b);
      assert s == s[..|s| - 1] + [s[|s| - 1]];
      assert r.Some? ==> s[r.value + 1..] == s[..|s| - 1][r.value + 1..] + [s[|s| - 1]];
      r
  }

  lemma {:induction false} LastIndexUnique(left: seq<Byte>, b: Byte, right: seq<Byte>)
    requires b !in right
    ensures LastIndex(left + [b] + right, b) == Some(|left|)
  {
    if right != [] {
      var init := right[..|right| - 1];
      LastIndexUnique(left, b, init);
      assert (left + [b] + right)[..|left| + 1 + |init|] == left + [b] + init;
    }
  }

  // ---- The authority ----

  /** `str::parse::<u16>`: an optional plus sign, then digits, in range. */
  function PortOf(s: seq<Byte>): Option<nat> {
    var digits := if s != [] && s[0] == PLUS then s[1..] else s;
    if digits != [] && AllDigits(digits) && DecValue(digits) <= U16_MAX then Some(DecValue(digits)) else None
  }

  function AuthorityOf(authority: seq<Byte>, tls: bool): Result<(seq<Byte>, nat), UrlError> {
    var colon := LastIndex(authority, COLON);
    var host := if colon.Some? then authority[..colon.value] else authority;
    var port := if colon.Some? then PortOf(authority[colon.value + 1..]) else Some(if tls then 443 else 80);
    if port.None? || port.value == 0 then Err(Port)
    else if !ValidSegment(host) then Err(Host)
    else Ok((host, port.value))
  }

  // ---- The path ----

  /** Every segment with its slash in front. */
  function Join(segments: seq<seq<Byte>>): seq<Byte> {
    if segments == [] then [] else Join(segments[..|segments| - 1]) + [SLASH] + segments[|segments| - 1]
  }

  lemma {:induction false} JoinPrefix(segments: seq<seq<Byte>>, i: nat)
    requires i <= |segments|
    ensures |Join(segments[..i])| <= |Join(segments)|
    ensures i < |segments| ==> Join(segments[..i + 1]) == Join(segments[..i]) + [SLASH] + segments[i]
  {
    if i < |segments| {
      assert segments[..i + 1][..i] == segments[..i];
      JoinPrefix(segments[..|segments| - 1], i);
      assert segments[..|segments| - 1][..i] == segments[..i];
    } else {
      assert segments[..i] == segments;
    }
  }

  /** Splitting undoes joining for slash-free, nonempty segments. */
  lemma {:induction false} PiecesOfJoin(segments: seq<seq<Byte>>)
    requires forall i :: 0 <= i < |segments| ==> segments[i] != [] && SLASH !in segments[i]
    ensures Pieces(Join(segments), SLASH) == segments
  {
    if segments != [] {
      var init, last := segments[..|segments| - 1], segments[|segments| - 1];
      PiecesOfJoin(init);
      PiecesAppend(Join(init), SLASH, last);
      PiecesOne(last, SLASH);
      assert segments == init + [last];
    }
  }

  /** What a base URL and project mean. A path error is exactly an invalid segment or a joined path over 192 bytes. */
  function UrlOf(base: seq<Byte>, project: seq<Byte>): Result<Uri, UrlError> {
    var n := SchemeEnd(base);
    if n == |base| || (base[..n] != Ascii("https") && base[..n] != Ascii("http")) then Err(Scheme)
    else if !ValidSegment(project) then Err(Project)
    else
      RestOf(base[n + 3..], base[..n] == Ascii("https"), project)
  }

  /** The part after the scheme: authority up to the first slash, then the path. */
  function RestOf(rest: seq<Byte>, tls: bool, project: seq<Byte>): Result<Uri, UrlError> {
    var slash := Until(rest, SLASH);
    var authority := AuthorityOf(rest[..slash], tls);
    var segments := Pieces(rest[slash..], SLASH) + [project];
    if authority.Err? then Err(authority.error)
    else if (exists i :: 0 <= i < |segments| && !ValidSegment(segments[i])) || |Join(segments)| > PATH_BYTES then Err(Path)
    else Ok(Uri(tls, authority.value.0, authority.value.1, Join(segments)))
  }

  method PutSegment(path: array<Byte>, len: nat, segment: seq<Byte>)
    requires len + 1 + |segment| <= path.Length
    modifies path
    ensures path[..len + 1 + |segment|] == old(path[..len]) + [SLASH] + segment
  {
    path[len] := SLASH;
    CopyInto(path, len + 1, segment);
    var end := len + 1 + |segment|;
    assert path[..end] == path[..len + 1] + path[len + 1..end];
  }

  /** The segment loop of `parse_url`: fill a 192-byte buffer, checking each segment before it is copied. */
  method FillPath(segments: seq<seq<Byte>>) returns (r: Option<seq<Byte>>)
    ensures r.Some? <==> (forall i :: 0 <= i < |segments| ==> ValidSegment(segments[i])) && |Join(segments)| <= PATH_BYTES
    ensures r.Some? ==> r.value == Join(segments)
  {
    var path := new Byte[PATH_BYTES](_ => 0);
    var len: nat := 0;
    for k := 0 to |segments|
      invariant len <= PATH_BYTES && path[..len] == Join(segments[..k])
      invariant forall i :: 0 <= i < k ==> ValidSegment(segments[i])
    {
      var segment := segments[k];
      JoinPrefix(segments, k);
      JoinPrefix(segments, k + 1);
      if len + 1 + |segment| > PATH_BYTES || !ValidSegment(segment) {
        return None;
      }
      PutSegment(path, len, segment);
      len := len + 1 + |segment|;
    }
    assert segments[..|segments|] == segments;
    r := Some(path[..len]);
  }

  /** `parse_url`. */
  method ParseUrl(base: seq<Byte>, project: seq<Byte>) returns (r: Result<Uri, UrlError>)
    ensures r == UrlOf(base, project)
  {
    hide Join, Pieces;
    var n := SchemeEnd(base);
    if n == |base| {
      return Err(Scheme);
    }
    var scheme, rest := base[..n], base[n + 3..];
    if scheme != Ascii("https") && scheme != Ascii("http") {
      return Err(Scheme);
    }
    var tls := scheme == Ascii("https");
    if !ValidSegment(project) {
      return Err(Project);
    }
    var slash := Until(rest, SLASH);
    var authority := AuthorityOf(rest[..slash], tls);
    if authority.Err? {
      return Err(authority.error);
    }
    var path := FillPath(Pieces(rest[slash..], SLASH) + [project]);
    if path.None? {
      return Err(Path);
    }
    return Ok(Uri(tls, authority.value.0, authority.value.1, path.value));
  }

  // ---- What an accepted URL is ----

  predicate NoDoubleSlash(s: seq<Byte>) {
    forall i :: 0 <= i < |s| - 1 ==> s[i] != SLASH || s[i + 1] != SLASH
  }

  lemma SegmentNoSlash(s: seq<Byte>)
    requires ValidSegment(s)
    ensures SLASH !in s && COLON !in s
  {
  }

  lemma {:induction false} JoinShape(segments: seq<seq<Byte>>)
    requires forall i :: 0 <= i < |segments| ==> ValidSegment(segments[i])
    ensures NoDoubleSlash(Join(segments))
    ensures forall i :: 0 <= i < |Join(segments)| ==> Join(segments)[i] < 128
    ensures segments != [] ==> Join(segments) != [] && Join(segments)[0] == SLASH
                               && Join(segments)[|Join(segments)| - 1] != SLASH
  {
    if segments != [] {
      JoinShape(segments[..|segments| - 1]);
      SegmentNoSlash(segments[|segments| - 1]);
    }
  }

  /** An accepted path starts with a slash, ends with the project, never doubles a slash, is ASCII and fits; its
      segments are the nonempty prefix segments followed by the project. */
  lemma AcceptedPath(base: seq<Byte>, project: seq<Byte>, uri: Uri)
    requires UrlOf(base, project) == Ok(uri)
    ensures var path := uri.path;
            && NoDoubleSlash(path) && path != [] && path[0] == SLASH && |path| <= PATH_BYTES
            && (forall i :: 0 <= i < |path| ==> path[i] < 128)
            && exists segments :: Pieces(path, SLASH) == segments + [project] && Join(segments + [project]) == path
                                  && forall i :: 0 <= i < |segments| ==> ValidSegment(segments[i])
  {
    hide UrlOf, Join, Pieces, PrefixSegments;
    var prefix := PrefixSegments(base);
    var segments := prefix + [project];
    AcceptedSegments(base, project, uri);
    JoinShape(segments);
    forall i | 0 <= i < |segments| ensures segments[i] != [] && SLASH !in segments[i] {
      SegmentNoSlash(segments[i]);
    }
    PiecesOfJoin(segments);
    assert forall i :: 0 <= i < |prefix| ==> prefix[i] == segments[i];
  }

  lemma AcceptedSegments(base: seq<Byte>, project: seq<Byte>, uri: Uri)
    requires UrlOf(base, project) == Ok(uri)
    ensures var segments := PrefixSegments(base) + [project];
            && (forall i :: 0 <= i < |segments| ==> ValidSegment(segments[i]))
            && uri.path == Join(segments) && |Join(segments)| <= PATH_BYTES
  {
    hide Join, Pieces, AuthorityOf, ValidSegment;
  }

  function PrefixSegments(base: seq<Byte>): seq<seq<Byte>> {
    var n := SchemeEnd(base);
    if n == |base| then [] else
      var rest := base[n + 3..];
      Pieces(rest[Until(rest, SLASH)..], SLASH)
  }

  /** The canonical text of the base part of an accepted URL. */
  function RenderBase(uri: Uri, prefix: seq<seq<Byte>>): seq<Byte> {
    (if uri.tls then Ascii("https") else Ascii("http")) + [COLON, SLASH, SLASH]
    + (uri.host + [COLON] + Digits(uri.port) + Join(prefix))
  }

  lemma DigitsPort(port: nat)
    requires port <= U16_MAX
    ensures PortOf(Digits(port)) == Some(port)
    ensures COLON !in Digits(port) && SLASH !in Digits(port)
  {
    DigitsValue(port);
  }

  lemma RenderedAuthority(host: seq<Byte>, port: nat, tls: bool)
    requires ValidSegment(host) && 0 < port <= U16_MAX
    ensures AuthorityOf(host + [COLON] + Digits(port), tls) == Ok((host, port))
    ensures SLASH !in host + [COLON] + Digits(port)
  {
    DigitsPort(port);
    SegmentNoSlash(host);
    LastIndexUnique(host, COLON, Digits(port));
    assert (host + [COLON] + Digits(port))[..|host|] == host;
    assert (host + [COLON] + Digits(port))[|host| + 1..] == Digits(port);
  }

  /** The part of a rendered base after the scheme splits where it was joined. */
  lemma RenderedRest(uri: Uri, prefix: seq<seq<Byte>>, project: seq<Byte>)
    requires ValidSegment(uri.host) && 0 < uri.port <= U16_MAX && ValidSegment(project)
    requires forall i :: 0 <= i < |prefix| ==> ValidSegment(prefix[i])
    requires uri.path == Join(prefix + [project]) && |uri.path| <= PATH_BYTES
    ensures RestOf(uri.host + [COLON] + Digits(uri.port) + Join(prefix), uri.tls, project) == Ok(uri)
  {
    hide Join, Pieces, AuthorityOf, Until, ValidSegment;
    var authority, path := uri.host + [COLON] + Digits(uri.port), Join(prefix);
    RenderedAuthority(uri.host, uri.port, uri.tls);
    JoinIsPath(prefix);
    UntilAt(authority, SLASH, path);
    var rest := authority + path;
    assert rest[..|authority|] == authority && rest[|authority|..] == path;
  }

  lemma JoinIsPath(prefix: seq<seq<Byte>>)
    requires forall i :: 0 <= i < |prefix| ==> ValidSegment(prefix[i])
    ensures Join(prefix) == [] || Join(prefix)[0] == SLASH
    ensures Pieces(Join(prefix), SLASH) == prefix
  {
    hide Pieces;
    JoinShape(prefix);
    forall i | 0 <= i < |prefix| ensures prefix[i] != [] && SLASH !in prefix[i] {
      SegmentNoSlash(prefix[i]);
    }
    PiecesOfJoin(prefix);
  }

  /** The canonical text of an accepted URL is accepted again and means the same thing, whatever the original's
      doubled slashes, trailing slash, missing port, plus sign or leading zeros. */
  lemma CanonicalReparses(base: seq<Byte>, project: seq<Byte>, uri: Uri)
    requires UrlOf(base, project) == Ok(uri)
    ensures UrlOf(RenderBase(uri, PrefixSegments(base)), project) == Ok(uri)
  {
    var prefix := PrefixSegments(base);
    var segments := prefix + [project];
    assert forall i :: 0 <= i < |segments| ==> ValidSegment(segments[i]);
    assert forall i :: 0 <= i < |prefix| ==> prefix[i] == segments[i];
    AuthorityShape(base, project, uri);
    RenderedRest(uri, prefix, project);
    ReparseScheme(uri.tls, uri.host + [COLON] + Digits(uri.port) + Join(prefix), project);
  }

  lemma AuthorityShape(base: seq<Byte>, project: seq<Byte>, uri: Uri)
    requires UrlOf(base, project) == Ok(uri)
    ensures ValidSegment(uri.host) && 0 < uri.port <= U16_MAX
  {
    hide Join, Pieces, Until, SchemeEnd, LastIndex, DecValue;
  }

  lemma ReparseScheme(tls: bool, rest: seq<Byte>, project: seq<Byte>)
    requires ValidSegment(project)
    ensures UrlOf((if tls then Ascii("https") else Ascii("http")) + [COLON, SLASH, SLASH] + rest, project)
            == RestOf(rest, tls, project)
  {
    hide RestOf, SchemeEnd;
    var scheme := if tls then Ascii("https") else Ascii("http");
    var text := scheme + [COLON, SLASH, SLASH] + rest;
    assert COLON !in scheme;
    SchemeEndAt(scheme, rest);
    assert text[..|scheme|] == scheme && text[|scheme| + 3..] == rest;
    assert |Ascii("https")| != |Ascii("http")|;
  }
}
