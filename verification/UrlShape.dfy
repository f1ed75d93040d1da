/** What an update URL is, described by its parts rather than by how it is taken apart. */
module UrlShape {
  import opened Bytes
  import opened Decimal
  import opened Url

  /** The two schemes with the separator behind them. */
  function SchemeText(tls: bool): (s: seq<Byte>)
    ensures s != []
  {
    if tls then Ascii("https://") else Ascii("http://")
  }

  /** Host, an optional port text that starts with the last colon, and a tail that is empty or starts with a slash. */
  predicate IsParts(base: seq<Byte>, tls: bool, host: seq<Byte>, portText: seq<Byte>, tail: seq<Byte>) {
    && base == SchemeText(tls) + (host + portText + tail)
    && SLASH !in host && SLASH !in portText && (tail == [] || tail[0] == SLASH)
    && if portText == [] then COLON !in host else portText[0] == COLON && COLON !in portText[1..]
  }

  /** A colon, perhaps a plus, and the digits of a number from 1 to 65535. */
  ghost predicate PortDigits(portText: seq<Byte>, n: nat) {
    0 < n <= U16_MAX &&
    exists digits ::
      (portText == [COLON] + digits || portText == [COLON] + ([PLUS] + digits))
      && digits != [] && AllDigits(digits) && DecValue(digits) == n
  }

  predicate GoodPath(tail: seq<Byte>, project: seq<Byte>) {
    var segments := Pieces(tail, SLASH) + [project];
    (forall i :: 0 <= i < |segments| ==> ValidSegment(segments[i])) && |Join(segments)| <= PATH_BYTES
  }

  /** What the parts say, the first thing wrong with them first. */
  ghost predicate PartsSay(
    tls: bool, host: seq<Byte>, portText: seq<Byte>, tail: seq<Byte>, project: seq<Byte>, r: Result<Uri, UrlError>)
  {
    if !ValidSegment(project) then r == Err(Project)
    else if portText != [] && forall n: nat :: !PortDigits(portText, n) then r == Err(Port)
    else if !ValidSegment(host) then r == Err(Host)
    else if !GoodPath(tail, project) then r == Err(Path)
    else
      && r.Ok? && r.value.tls == tls && r.value.host == host
      && (if portText == [] then r.value.port == (if tls then 443 else 80) else PortDigits(portText, r.value.port))
      && r.value.path == Join(Pieces(tail, SLASH) + [project])
  }

  /** The bytes hosts and segments are made of. */
  lemma HostBytes(b: Byte)
    ensures ValidHostByte(b) <==>
            || (exists i :: 0 <= i < 26 && (b == UPPER[i] as int || b == LOWER[i] as int))
            || (exists i :: 0 <= i < 10 && b == DIGITS[i] as int)
            || b == '.' as int || b == '-' as int || b == '_' as int
  {
    forall i | 0 <= i < 26 ensures UPPER[i] as int == 65 + i && LOWER[i] as int == 97 + i {
      UpperTable(i);
      LowerTable(i);
    }
    if 65 <= b <= 90 {
      assert b == UPPER[b - 65] as int;
    } else if 97 <= b <= 122 {
      assert b == LOWER[b - 97] as int;
    } else if IsDigit(b) {
      assert b == DIGITS[b - 48] as int;
    }
  }

  // ---- Reading the parts ----

  lemma PortRead(text: seq<Byte>, n: nat)
    requires COLON !in text
    ensures PortOf(text) == Some(n) && n > 0 <==> PortDigits([COLON] + text, n)
  {
    hide DecValue;
    assert ([COLON] + text)[1..] == text;
    if PortOf(text) == Some(n) && n > 0 {
      var digits := if text[0] == PLUS then text[1..] else text;
      assert text == digits || text == [PLUS] + digits;
    }
    if PortDigits([COLON] + text, n) {
      var digits :|
        ([COLON] + text == [COLON] + digits || [COLON] + text == [COLON] + ([PLUS] + digits))
        && digits != [] && AllDigits(digits) && DecValue(digits) == n;
      assert ([COLON] + digits)[1..] == digits && ([COLON] + ([PLUS] + digits))[1..] == [PLUS] + digits;
      assert ([PLUS] + digits)[1..] == digits;
    }
  }

  /** What the authority comes to. */
  ghost predicate AuthoritySays(
    tls: bool, host: seq<Byte>, portText: seq<Byte>, a: Result<(seq<Byte>, nat), UrlError>)
  {
    if portText != [] && forall n: nat :: !PortDigits(portText, n) then a == Err(Port)
    else if !ValidSegment(host) then a == Err(Host)
    else
      a.Ok? && a.value.0 == host
      && if portText == [] then a.value.1 == (if tls then 443 else 80) else PortDigits(portText, a.value.1)
  }

  lemma AuthorityReads(tls: bool, host: seq<Byte>, portText: seq<Byte>)
    requires if portText == [] then COLON !in host else portText[0] == COLON && COLON !in portText[1..]
    ensures AuthoritySays(tls, host, portText, AuthorityOf(host + portText, tls))
  {
    hide PortOf, PortDigits, ValidSegment;
    var authority := host + portText;
    if portText == [] {
      assert authority == host;
      NoColon(host);
    } else {
      var text := portText[1..];
      assert portText == [COLON] + text;
      assert authority == host + [COLON] + text;
      LastIndexUnique(host, COLON, text);
      assert authority[..|host|] == host && authority[|host| + 1..] == text;
      forall n: nat ensures PortOf(text) == Some(n) && n > 0 <==> PortDigits(portText, n) {
        PortRead(text, n);
      }
      if PortOf(text).Some? && PortOf(text).value > 0 {
        assert PortDigits(portText, PortOf(text).value);
      }
    }
  }

  lemma NoColon(host: seq<Byte>)
    requires COLON !in host
    ensures LastIndex(host, COLON) == None
  {
  }

  lemma PartsRead(
    base: seq<Byte>, tls: bool, host: seq<Byte>, portText: seq<Byte>, tail: seq<Byte>, project: seq<Byte>)
    requires IsParts(base, tls, host, portText, tail)
    ensures PartsSay(tls, host, portText, tail, project, UrlOf(base, project))
  {
    hide Join, Pieces, AuthorityOf, Until, ValidSegment, PortDigits, UrlOf;
    var authority := host + portText;
    var rest := authority + tail;
    SchemeBytes(tls);
    if ValidSegment(project) {
      ReparseScheme(tls, rest, project);
      UntilAt(authority, SLASH, tail);
      assert rest[..|authority|] == authority && rest[|authority|..] == tail;
      AuthorityReads(tls, host, portText);
    } else {
      BadProject(tls, rest, project);
    }
  }

  lemma SchemeBytes(tls: bool)
    ensures SchemeText(tls) == (if tls then Ascii("https") else Ascii("http")) + [COLON, SLASH, SLASH]
  {
    hide Ascii;
    AsciiJoin("https", "://");
    AsciiJoin("http", "://");
    assert "https" + "://" == "https://" && "http" + "://" == "http://";
    Separator();
  }

  lemma Separator()
    ensures Ascii("://") == [COLON, SLASH, SLASH]
  {
  }

  lemma BadProject(tls: bool, rest: seq<Byte>, project: seq<Byte>)
    requires !ValidSegment(project)
    ensures UrlOf(SchemeText(tls) + rest, project) == Err(Project)
  {
    hide RestOf, SchemeEnd, ValidSegment;
    SchemeBytes(tls);
    var scheme := if tls then Ascii("https") else Ascii("http");
    var text := scheme + [COLON, SLASH, SLASH] + rest;
    assert COLON !in scheme;
    SchemeEndAt(scheme, rest);
    assert text[..|scheme|] == scheme;
    assert |Ascii("https")| != |Ascii("http")|;
  }

  // ---- Every URL has its parts ----

  lemma PartsExist(base: seq<Byte>, tls: bool) returns (host: seq<Byte>, portText: seq<Byte>, tail: seq<Byte>)
    requires SchemeText(tls) <= base
    ensures IsParts(base, tls, host, portText, tail)
  {
    hide Ascii, Until, LastIndex;
    var rest := base[|SchemeText(tls)|..];
    var n := Until(rest, SLASH);
    var authority := rest[..n];
    tail := rest[n..];
    var colon := LastIndex(authority, COLON);
    if colon.None? {
      host, portText := authority, [];
      assert host + portText == authority;
    } else {
      host, portText := authority[..colon.value], authority[colon.value..];
      assert portText[1..] == authority[colon.value + 1..];
      assert host + portText == authority;
    }
    assert authority + tail == rest && SchemeText(tls) + rest == base;
    assert forall i :: 0 <= i < |host| ==> host[i] == authority[i];
    assert forall i :: 0 <= i < |portText| ==> portText[i] == authority[|host| + i];
  }

  lemma NoScheme(base: seq<Byte>, project: seq<Byte>)
    requires !(SchemeText(true) <= base) && !(SchemeText(false) <= base)
    ensures UrlOf(base, project) == Err(Scheme)
  {
    hide RestOf, ValidSegment, Ascii;
    SchemeBytes(true);
    SchemeBytes(false);
    var n := SchemeEnd(base);
    if n < |base| {
      assert base[..n + 3] == base[..n] + [COLON, SLASH, SLASH];
      assert base[..n + 3] <= base;
    }
  }

  /** A base URL and project mean just what the parts say: without one of the two schemes the scheme is at fault; with
      one, the parts exist, and the result is what they say, errors in this order. A missing port is 443 for https and
      80 for http. */
  lemma UrlIff(base: seq<Byte>, project: seq<Byte>, r: Result<Uri, UrlError>)
    ensures UrlOf(base, project) == r <==>
            if !(SchemeText(true) <= base) && !(SchemeText(false) <= base) then r == Err(Scheme)
            else exists tls, host, portText, tail ::
                   IsParts(base, tls, host, portText, tail) && PartsSay(tls, host, portText, tail, project, r)
  {
    hide UrlOf, IsParts, PartsSay, SchemeText;
    if !(SchemeText(true) <= base) && !(SchemeText(false) <= base) {
      NoScheme(base, project);
    } else {
      var host, portText, tail := PartsExist(base, SchemeText(true) <= base);
      PartsRead(base, SchemeText(true) <= base, host, portText, tail, project);
      if tls, host, portText, tail :|
        IsParts(base, tls, host, portText, tail) && PartsSay(tls, host, portText, tail, project, r)
      {
        PartsRead(base, tls, host, portText, tail, project);
        SaysOnce(tls, host, portText, tail, project, r, UrlOf(base, project));
      }
    }
  }

  lemma SaysOnce(
    tls: bool, host: seq<Byte>, portText: seq<Byte>, tail: seq<Byte>, project: seq<Byte>,
    r: Result<Uri, UrlError>, q: Result<Uri, UrlError>)
    requires PartsSay(tls, host, portText, tail, project, r) && PartsSay(tls, host, portText, tail, project, q)
    ensures r == q
  {
    hide GoodPath, ValidSegment, Join, Pieces, PortDigits;
    if r.Ok? && q.Ok? && portText != [] {
      PortOnce(portText, r.value.port, q.value.port);
    }
  }

  lemma PortOnce(portText: seq<Byte>, m: nat, n: nat)
    requires PortDigits(portText, m) && PortDigits(portText, n)
    ensures m == n
  {
    hide DecValue;
    var a :| (portText == [COLON] + a || portText == [COLON] + ([PLUS] + a)) && a != [] && AllDigits(a) && DecValue(a) == m;
    var b :| (portText == [COLON] + b || portText == [COLON] + ([PLUS] + b)) && b != [] && AllDigits(b) && DecValue(b) == n;
    assert ([COLON] + a)[1..] == a && ([COLON] + ([PLUS] + a))[2..] == a;
    assert ([COLON] + b)[1..] == b && ([COLON] + ([PLUS] + b))[2..] == b;
    assert portText[1] == PLUS <==> portText == [COLON] + ([PLUS] + a);
    assert portText[1] == PLUS <==> portText == [COLON] + ([PLUS] + b);
  }

  // ---- A port left out ----

  function DefaultPortText(tls: bool): seq<Byte> {
    if tls then Ascii(":443") else Ascii(":80")
  }

  lemma DefaultPortDigits(tls: bool)
    ensures DefaultPortText(tls) != [] && DefaultPortText(tls)[0] == COLON && COLON !in DefaultPortText(tls)[1..]
    ensures SLASH !in DefaultPortText(tls)
    ensures PortDigits(DefaultPortText(tls), if tls then 443 else 80)
  {
    var digits: seq<Byte> := if tls then [52, 52, 51] else [56, 48];
    assert DefaultPortText(tls) == [COLON] + digits;
    DecimalDigits(if tls then 4 else 8, if tls then 4 else 0, 3);
    assert DecValue(digits) == if tls then 443 else 80;
  }

  lemma DecimalDigits(a: nat, b: nat, c: nat)
    requires a < 10 && b < 10 && c < 10
    ensures DecValue([48 + a, 48 + b]) == 10 * a + b
    ensures DecValue([48 + a, 48 + b, 48 + c]) == 100 * a + 10 * b + c
  {
    var one: seq<Byte> := [48 + a];
    var two: seq<Byte> := [48 + a, 48 + b];
    var three: seq<Byte> := [48 + a, 48 + b, 48 + c];
    assert one[..0] == [] && two[..1] == one && three[..2] == two;
    assert DecValue(one) == a;
  }

  /** Writing the default port out changes nothing: for every valid host, tail and project, https without a port is
      https with ":443", and http without a port is http with ":80". */
  lemma DefaultPort(tls: bool, host: seq<Byte>, tail: seq<Byte>, project: seq<Byte>)
    requires ValidSegment(host) && (tail == [] || tail[0] == SLASH)
    ensures UrlOf(SchemeText(tls) + (host + tail), project)
            == UrlOf(SchemeText(tls) + (host + DefaultPortText(tls) + tail), project)
  {
    hide UrlOf, SchemeText, PortDigits, GoodPath, Join, Pieces, DefaultPortText;
    SegmentNoSlash(host);
    DefaultPortDigits(tls);
    var port := DefaultPortText(tls);
    var short, long := SchemeText(tls) + (host + tail), SchemeText(tls) + (host + port + tail);
    assert host + [] + tail == host + tail;
    PartsRead(short, tls, host, [], tail, project);
    PartsRead(long, tls, host, port, tail, project);
    if UrlOf(long, project).Ok? {
      PortOnce(port, UrlOf(long, project).value.port, if tls then 443 else 80);
    }
  }
}
