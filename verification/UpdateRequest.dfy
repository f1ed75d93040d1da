/** What a server reads off the requests of the update task. */
module UpdateRequest {
  import opened Bytes
  import opened Decimal
  import Base64
  import opened Url
  import opened ReleaseFiles
  import opened RequestReader
  import opened UpdateTask

  /** A GET for the target, with the host, the credentials exactly when one of them is set, and a request to close. */
  ghost predicate Asks(r: Request, target: seq<Byte>, host: seq<Byte>, user: seq<Byte>, pass: seq<Byte>) {
    && r.verb == Ascii("GET") && r.target == target && r.version == Ascii("HTTP/1.0") && r.body == []
    && if user == [] && pass == [] then r.fields == [HostField(host), CloseField()]
       else exists token ::
         r.fields == [HostField(host), Field(Ascii("Authorization"), Ascii("Basic ") + token), CloseField()]
         && Base64.Decode(token) == Some(user + [COLON] + pass)
  }

  function HostField(host: seq<Byte>): Field { Field(Ascii("Host"), host) }

  function CloseField(): Field { Field(Ascii("Connection"), Ascii("close")) }

  function AuthFields(user: seq<Byte>, pass: seq<Byte>): (fields: seq<Field>)
    ensures |fields| <= 1
  {
    if user == [] && pass == [] then [] else [Field(Ascii("Authorization"), Base64.Credentials(user, pass))]
  }

  /** The request as its parts. */
  function TheRequest(uri: Uri, name: seq<Byte>, user: seq<Byte>, pass: seq<Byte>): Request {
    Request(Ascii("GET"), uri.path + [SLASH] + name, Ascii("HTTP/1.0"),
            [HostField(uri.host)] + AuthFields(user, pass) + [CloseField()], [])
  }

  // ---- The text is the written request ----

  lemma SmallTexts()
    ensures Ascii(" ") == [SP] && Ascii("/") == [SLASH] && Ascii("\r\n") == CRLF && Ascii(": ") == [COLON] + [SP]
  {
  }

  lemma GetLiteral()
    ensures Ascii("GET ") == Ascii("GET") + [SP]
  {
    SmallTexts();
    hide Ascii;
    AsciiJoin("GET", " ");
    assert "GET" + " " == "GET ";
  }

  lemma VersionLiteral()
    ensures Ascii(" HTTP/1.0\r\nHost: ") == [SP] + Ascii("HTTP/1.0") + CRLF + Ascii("Host") + ([COLON] + [SP])
  {
    SmallTexts();
    hide Ascii;
    AsciiJoin(" ", "HTTP/1.0");
    AsciiJoin(" " + "HTTP/1.0", "\r\n");
    AsciiJoin(" " + "HTTP/1.0" + "\r\n", "Host");
    AsciiJoin(" " + "HTTP/1.0" + "\r\n" + "Host", ": ");
    assert " " + "HTTP/1.0" + "\r\n" + "Host" + ": " == " HTTP/1.0\r\nHost: ";
  }

  lemma AuthLiteral()
    ensures Ascii("Authorization: ") == Ascii("Authorization") + ([COLON] + [SP])
  {
    SmallTexts();
    hide Ascii;
    AsciiJoin("Authorization", ": ");
    assert "Authorization" + ": " == "Authorization: ";
  }

  lemma CloseLiteral()
    ensures CloseLines() == Ascii("Connection") + ([COLON] + [SP]) + Ascii("close") + CRLF + CRLF
  {
    SmallTexts();
    hide Ascii;
    AsciiJoin("Connection", ": ");
    AsciiJoin("Connection" + ": ", "close");
    AsciiJoin("Connection" + ": " + "close", "\r\n");
    AsciiJoin("Connection" + ": " + "close" + "\r\n", "\r\n");
    assert "Connection" + ": " + "close" + "\r\n" + "\r\n" == "Connection: close\r\n\r\n";
  }

  lemma LineIs(uri: Uri, name: seq<Byte>)
    ensures RequestLine(uri, name)
            == RequestLineText(Ascii("GET"), uri.path + [SLASH] + name, Ascii("HTTP/1.0")) + CRLF
               + (FieldLine(HostField(uri.host)) + CRLF)
  {
    SmallTexts();
    GetLiteral();
    VersionLiteral();
    hide Ascii;
  }

  lemma AuthIs(user: seq<Byte>, pass: seq<Byte>)
    ensures AuthFields(user, pass) == [] ==> AuthLine(user, pass) == []
    ensures AuthFields(user, pass) != [] ==> AuthLine(user, pass) == FieldLine(AuthFields(user, pass)[0]) + CRLF
  {
    SmallTexts();
    AuthLiteral();
    hide Ascii, Base64.Credentials;
  }

  lemma CloseIs()
    ensures CloseLines() == FieldsText([CloseField()])
  {
    CloseLiteral();
    hide Ascii;
    NoFields();
  }

  lemma NoFields()
    ensures FieldsText([]) == CRLF
  {
  }

  lemma TextIs(uri: Uri, name: seq<Byte>, user: seq<Byte>, pass: seq<Byte>)
    ensures RequestText(uri, name, user, pass) == WriteRequest(TheRequest(uri, name, user, pass))
  {
    LineIs(uri, name);
    AuthIs(user, pass);
    CloseIs();
    hide Ascii, AuthFields, AuthLine, CloseLines, RequestLine, FieldLine, FieldsText, RequestLineText, HostField, CloseField;
    var auth := AuthFields(user, pass);
    var line := RequestLineText(Ascii("GET"), uri.path + [SLASH] + name, Ascii("HTTP/1.0"));
    FieldsJoined(HostField(uri.host), auth, CloseField());
    PiecesJoined(line + CRLF, FieldLine(HostField(uri.host)) + CRLF, AuthLine(user, pass), CloseLines());
  }

  lemma PiecesJoined(line: seq<Byte>, host: seq<Byte>, auth: seq<Byte>, close: seq<Byte>)
    ensures line + host + auth + close == line + (host + (auth + close) + [])
  {
  }

  lemma FieldsJoined(host: Field, auth: seq<Field>, close: Field)
    requires |auth| <= 1
    ensures FieldsText([host] + auth + [close])
            == FieldLine(host) + CRLF + ((if auth == [] then [] else FieldLine(auth[0]) + CRLF) + FieldsText([close]))
  {
    hide FieldLine;
    var all := [host] + auth + [close];
    assert all[1..] == auth + [close];
    if auth != [] {
      assert (auth + [close])[1..] == [close];
    } else {
      assert auth + [close] == [close];
    }
  }

  // ---- Nothing in the parts breaks a line ----

  predicate NoSpace(s: seq<Byte>) {
    forall i :: 0 <= i < |s| ==> !IsSpace(s[i])
  }

  lemma NoSpaceIsPlain(s: seq<Byte>)
    requires NoSpace(s)
    ensures Plain(s) && CR !in s
  {
  }

  lemma SegmentNoSpace(s: seq<Byte>)
    requires ValidSegment(s)
    ensures NoSpace(s)
  {
  }

  lemma {:induction false} JoinNoSpace(segments: seq<seq<Byte>>)
    requires forall i :: 0 <= i < |segments| ==> ValidSegment(segments[i])
    ensures NoSpace(Join(segments))
  {
    hide ValidSegment;
    if segments != [] {
      JoinNoSpace(segments[..|segments| - 1]);
      SegmentNoSpace(segments[|segments| - 1]);
    }
  }

  lemma NamePartsNoSpace(v: nat)
    ensures NoSpace(Ascii("version")) && NoSpace(Ascii(".bin")) && NoSpace(Ascii(".bin.sha256")) && NoSpace(Digits(v))
  {
    assert forall i :: 0 <= i < |Digits(v)| ==> IsDigit(Digits(v)[i]);
  }

  lemma FileNameNoSpace(name: seq<Byte>)
    requires IsFileName(name)
    ensures NoSpace(name)
  {
    hide Ascii, IsSpace, Digits;
    if v: nat :| v <= U32_MAX && (name == ShaName(v) || name == BinName(v)) {
      NamePartsNoSpace(v);
    }
    NamePartsNoSpace(0);
  }

  lemma QuadNoSpace(b0: Byte, b1: Option<Byte>, b2: Option<Byte>)
    ensures NoSpace(Base64.Quad(b0, b1, b2))
  {
    hide Base64.Word, Base64.Sextet0, Base64.Sextet1, Base64.Sextet2, Base64.Sextet3;
  }

  lemma {:induction false} EncodeNoSpace(s: seq<Byte>)
    ensures NoSpace(Base64.Encode(s)) && (s != [] ==> Base64.Encode(s) != [])
  {
    hide Base64.Quad, IsSpace;
    if |s| >= 3 {
      QuadNoSpace(s[0], Some(s[1]), Some(s[2]));
      EncodeNoSpace(s[3..]);
    } else if |s| > 0 {
      QuadNoSpace(s[0], if |s| == 2 then Some(s[1]) else None, None);
    }
  }

  lemma AuthWritable(user: seq<Byte>, pass: seq<Byte>)
    ensures Writable(Field(Ascii("Authorization"), Base64.Credentials(user, pass)))
  {
    var pair := user + [COLON] + pass;
    hide Base64.Encode;
    EncodeNoSpace(pair);
    var value := Base64.Credentials(user, pass);
    assert value == Ascii("Basic ") + Base64.Encode(pair);
  }

  lemma HostWritable(host: seq<Byte>)
    requires ValidSegment(host)
    ensures Writable(HostField(host)) && Writable(CloseField())
  {
    SegmentNoSpace(host);
  }

  lemma VerbPlain()
    ensures Plain(Ascii("GET")) && Plain(Ascii("HTTP/1.0"))
  {
  }

  lemma PathNoSpace(base: seq<Byte>, project: seq<Byte>, uri: Uri)
    requires UrlOf(base, project) == Ok(uri)
    ensures NoSpace(uri.path)
  {
    hide UrlOf, Join, Pieces, PrefixSegments, ValidSegment;
    AcceptedSegments(base, project, uri);
    JoinNoSpace(PrefixSegments(base) + [project]);
  }

  /** What a server reads. For every accepted URL, every file the update task asks for and all credentials, the bytes
      of the request are read back as a GET for that file under the URL's path, in HTTP/1.0, with the URL's host, with
      the decodable credentials exactly when one of them is set, asking to close, and with nothing behind the blank
      line. */
  lemma RequestRead(
    base: seq<Byte>, project: seq<Byte>, uri: Uri, name: seq<Byte>, user: seq<Byte>, pass: seq<Byte>)
    requires UrlOf(base, project) == Ok(uri) && IsFileName(name)
    ensures var r := ReadRequest(RequestText(uri, name, user, pass));
            r.Some? && Asks(r.value, uri.path + [SLASH] + name, uri.host, user, pass)
  {
    var r := TheRequest(uri, name, user, pass);
    PartsPlain(base, project, uri, name, user, pass);
    hide UrlOf, ReadRequest, WriteRequest, RequestText, Plain, Writable;
    TextIs(uri, name, user, pass);
    RequestReads(r);
    PartsAsk(uri, name, user, pass);
  }

  lemma PartsPlain(
    base: seq<Byte>, project: seq<Byte>, uri: Uri, name: seq<Byte>, user: seq<Byte>, pass: seq<Byte>)
    requires UrlOf(base, project) == Ok(uri) && IsFileName(name)
    ensures var r := TheRequest(uri, name, user, pass);
            && Plain(r.verb) && Plain(r.target) && Plain(r.version)
            && forall i :: 0 <= i < |r.fields| ==> Writable(r.fields[i])
  {
    hide UrlOf, Ascii, Base64.Credentials, Writable, HostField, CloseField, IsFileName, IsSpace;
    VerbPlain();
    PathNoSpace(base, project, uri);
    FileNameNoSpace(name);
    TargetPlain(uri.path, name);
    AuthorityShape(base, project, uri);
    HostWritable(uri.host);
    AuthWritable(user, pass);
  }

  lemma TargetPlain(path: seq<Byte>, name: seq<Byte>)
    requires NoSpace(path) && NoSpace(name)
    ensures Plain(path + [SLASH] + name)
  {
  }

  lemma PartsAsk(uri: Uri, name: seq<Byte>, user: seq<Byte>, pass: seq<Byte>)
    ensures Asks(TheRequest(uri, name, user, pass), uri.path + [SLASH] + name, uri.host, user, pass)
  {
    hide Ascii, Base64.Encode, Base64.Decode;
    if user != [] || pass != [] {
      var token := Base64.Encode(user + [COLON] + pass);
      Base64.DecodeEncode(user + [COLON] + pass);
      assert Base64.Credentials(user, pass) == Ascii("Basic ") + token;
    }
  }
}
