/** What a response head means, said once over the whole byte stream: LF-terminated lines with one trailing CR
    dropped, a status line, header lines, a blank line, all within 2048 bytes. Section 6.1 of RFC 1945 gives the
    status line and section 10.4 the length header; section 2.2 of RFC 9112 allows the bare LF. The incremental
    parser is proved to agree with this module byte by byte. */
module HeadGrammar {
  import opened Bytes
  import opened Decimal
  import opened HeaderShape

  const MAX_HEAD_BYTES: nat := 2048

  datatype ResponseHead = ResponseHead(status: nat, contentLength: Option<nat>)

  datatype HeadError =
    | MalformedStatusLine
    | TooFewStatusTokens
    | NonNumericStatus
    | UnexpectedStatus
    | TransferEncoding
    | MissingContentLength
    | DuplicateContentLength
    | MalformedHeader
    | OversizedHeader

  datatype HeadEvent = NeedMore | Complete(head: ResponseHead) | Reject(error: HeadError)

  // ---- Lines ----

  function StripCr(s: seq<Byte>): seq<Byte> {
    if s != [] && s[|s| - 1] == CR then s[..|s| - 1] else s
  }

  /** The bytes after the last LF. */
  function Partial(s: seq<Byte>): (rest: seq<Byte>)
    ensures |rest| <= |s| && LF !in rest
  {
    if s == [] || s[|s| - 1] == LF then [] else Partial(s[..|s| - 1]) + [s[|s| - 1]]
  }

  /** The LF-terminated lines of a stream, without terminator. */
  function Lines(s: seq<Byte>): seq<seq<Byte>> {
    if s == [] then []
    else if s[|s| - 1] == LF then Lines(s[..|s| - 1]) + [StripCr(Partial(s[..|s| - 1]))]
    else Lines(s[..|s| - 1])
  }

  function WithCr(line: seq<Byte>, crlf: bool): seq<Byte> {
    if crlf then line + [CR] else line
  }

  /** One line written with the terminator of the sender's choice. */
  function Terminated(line: seq<Byte>, crlf: bool): seq<Byte> {
    WithCr(line, crlf) + [LF]
  }

  lemma DropLast<T>(a: seq<T>, b: seq<T>, c: T)
    ensures (a + (b + [c]))[..|a| + |b|] == a + b
    ensures a + (b + [c]) == a + b + [c]
  {
  }

  function Render(lines: seq<seq<Byte>>, crlf: seq<bool>): seq<Byte>
    requires |lines| == |crlf|
  {
    if lines == [] then [] else
      Render(lines[..|lines| - 1], crlf[..|lines| - 1]) + Terminated(lines[|lines| - 1], crlf[|lines| - 1])
  }

  /** A text that can stand as a line under the given terminator: LF-free, and with a bare LF not ending in CR. */
  predicate IsLine(line: seq<Byte>, crlf: bool) {
    LF !in line && (!crlf ==> line == [] || line[|line| - 1] != CR)
  }

  lemma {:induction false} PartialAppend(s: seq<Byte>, t: seq<Byte>)
    requires LF !in t
    ensures Partial(s + t) == Partial(s) + t
    ensures Lines(s + t) == Lines(s)
  {
    if t == [] {
      assert s + t == s;
    } else {
      var init, last := t[..|t| - 1], t[|t| - 1];
      PartialAppend(s, init);
      assert t == init + [last];
      OneMore(s + init, last);
      hide Partial, Lines;
      Assoc(s, init, [last]);
      Assoc(Partial(s), init, [last]);
    }
  }

  lemma OneMore(s: seq<Byte>, b: Byte)
    requires b != LF
    ensures Partial(s + [b]) == Partial(s) + [b] && Lines(s + [b]) == Lines(s)
  {
  }

  lemma LineFeed(s: seq<Byte>)
    ensures Lines(s + [LF]) == Lines(s) + [StripCr(Partial(s))] && Partial(s + [LF]) == []
  {
  }

  /** A terminated line written at a line start is read back as that line. */
  lemma AppendLine(s: seq<Byte>, line: seq<Byte>, crlf: bool)
    requires IsLine(line, crlf) && Partial(s) == []
    ensures Lines(s + Terminated(line, crlf)) == Lines(s) + [line]
    ensures Partial(s + Terminated(line, crlf)) == []
  {
    hide Lines, Partial;
    var body := WithCr(line, crlf);
    PartialAppend(s, body);
    assert [] + body == body;
    LineFeed(s + body);
    DropLast(s, body, LF);
  }

  lemma RenderAppend(lines: seq<seq<Byte>>, crlf: seq<bool>, line: seq<Byte>, last: bool)
    requires |lines| == |crlf|
    ensures Render(lines + [line], crlf + [last]) == Render(lines, crlf) + Terminated(line, last)
  {
  }

  /** Splitting undoes rendering: mixed CRLF and bare-LF terminators give back the same lines. */
  lemma {:induction false} RenderSplits(lines: seq<seq<Byte>>, crlf: seq<bool>)
    requires |lines| == |crlf|
    requires forall i :: 0 <= i < |lines| ==> IsLine(lines[i], crlf[i])
    ensures Lines(Render(lines, crlf)) == lines
    ensures Partial(Render(lines, crlf)) == []
  {
    if lines != [] {
      var k := |lines| - 1;
      var before, line, ending := lines[..k], lines[k], crlf[k];
      assert lines == before + [line];
      RenderSplits(before, crlf[..k]);
      AppendLine(Render(before, crlf[..k]), line, ending);
    }
  }

  /** Rendering undoes splitting: a stream is the rendering of its lines followed by the unfinished one. */
  lemma {:induction false} SplitRenders(s: seq<Byte>) returns (crlf: seq<bool>)
    ensures |crlf| == |Lines(s)|
    ensures s == Render(Lines(s), crlf) + Partial(s)
    ensures forall i :: 0 <= i < |crlf| ==> IsLine(Lines(s)[i], crlf[i])
  {
    if s == [] {
      crlf := [];
    } else {
      hide *;
      var init, b := s[..|s| - 1], s[|s| - 1];
      var before := SplitRenders(init);
      assert s == init + [b];
      if b == LF {
        crlf := SplitLine(init, before);
      } else {
        PartialAppend(init, [b]);
        crlf := before;
        Assoc(Render(Lines(init), before), Partial(init), [b]);
      }
    }
  }

  /** The step of the above at a line end. */
  lemma SplitLine(s: seq<Byte>, before: seq<bool>) returns (crlf: seq<bool>)
    requires |before| == |Lines(s)| && s == Render(Lines(s), before) + Partial(s)
    requires forall i :: 0 <= i < |before| ==> IsLine(Lines(s)[i], before[i])
    ensures |crlf| == |Lines(s + [LF])|
    ensures s + [LF] == Render(Lines(s + [LF]), crlf) + Partial(s + [LF])
    ensures forall i :: 0 <= i < |crlf| ==> IsLine(Lines(s + [LF])[i], crlf[i])
  {
    hide Lines, Partial, Render;
    var body := Partial(s);
    var hasCr := body != [] && body[|body| - 1] == CR;
    var line := StripCr(body);
    assert WithCr(line, hasCr) == body && IsLine(line, hasCr);
    LineFeed(s);
    var rendered := Render(Lines(s), before);
    DropLast(rendered, body, LF);
    RenderAppend(Lines(s), before, line, hasCr);
    crlf := before + [hasCr];
    assert Partial(s + [LF]) == [] && Lines(s + [LF]) == Lines(s) + [line];
    assert rendered + Terminated(line, hasCr) + [] == rendered + (body + [LF]);
  }

  // ---- The status line ----

  function Http10(): seq<Byte> { Ascii("HTTP/1.0 ") }

  function Http11(): seq<Byte> { Ascii("HTTP/1.1 ") }

  function StatusOf(line: seq<Byte>): Result<nat, HeadError> {
    if !StartsWith(line, Http10()) && !StartsWith(line, Http11()) then Err(MalformedStatusLine)
    else if |Pieces(line, SP)| < 3 then Err(TooFewStatusTokens)
    else
      var rest := line[9..];
      var code := rest[..Until(rest, SP)];
      if code == [] || !AllDigits(code) || DecValue(code) > U16_MAX then Err(NonNumericStatus)
      else Ok(DecValue(code))
  }

  /** The shape of an accepted status line: version, digits, space, and a reason that is not blank. */
  ghost predicate IsStatusLine(line: seq<Byte>, code: seq<Byte>, reason: seq<Byte>) {
    && (line == Http10() + code + [SP] + reason || line == Http11() + code + [SP] + reason)
    && code != [] && AllDigits(code) && DecValue(code) <= U16_MAX
    && exists i :: 0 <= i < |reason| && reason[i] != SP
  }

  lemma ProtocolPieces(line: seq<Byte>)
    requires StartsWith(line, Http10()) || StartsWith(line, Http11())
    ensures |Pieces(line, SP)| == 1 + |Pieces(line[9..], SP)|
  {
    var protocol := line[..8];
    assert line[..9] == Http10() || line[..9] == Http11();
    assert forall i :: 0 <= i < 8 ==> protocol[i] == line[..9][i];
    assert SP !in protocol;
    assert line == protocol + [SP] + line[9..];
    PiecesAppend(protocol, SP, line[9..]);
    PiecesOne(protocol, SP);
  }

  lemma AfterProtocol(line: seq<Byte>, protocol: seq<Byte>, code: seq<Byte>, reason: seq<Byte>)
    requires |protocol| == 9 && line == protocol + code + [SP] + reason
    ensures protocol <= line && line[9..] == code + [SP] + reason
  {
  }

  lemma ShapeAccepted(line: seq<Byte>, code: seq<Byte>, reason: seq<Byte>)
    requires IsStatusLine(line, code, reason)
    ensures StatusOf(line) == Ok(DecValue(code))
  {
    hide Pieces, Until, DecValue;
    var rest := line[9..];
    AfterProtocol(line, if line == Http10() + code + [SP] + reason then Http10() else Http11(), code, reason);
    ProtocolPieces(line);
    PiecesStep(code, SP, reason);
    PiecesNone(reason, SP);
    UntilUnique(code, SP, reason);
    assert rest[..|code|] == code;
  }

  lemma AfterCode(rest: seq<Byte>, code: seq<Byte>) returns (reason: seq<Byte>)
    requires |Pieces(rest, SP)| >= 2 && code == rest[..Until(rest, SP)]
    ensures rest == code + [SP] + reason
    ensures exists i :: 0 <= i < |reason| && reason[i] != SP
  {
    PiecesOne(code, SP);
    assert |code| == |rest| ==> rest == code;
    reason := rest[|code| + 1..];
    PiecesNone(reason, SP);
  }

  lemma Rejoin(line: seq<Byte>, code: seq<Byte>, reason: seq<Byte>)
    requires |line| >= 9 && line[9..] == code + [SP] + reason
    ensures line == line[..9] + code + [SP] + reason
  {
  }

  lemma AcceptedShape(line: seq<Byte>) returns (code: seq<Byte>, reason: seq<Byte>)
    requires StatusOf(line).Ok?
    ensures IsStatusLine(line, code, reason)
  {
    var rest := line[9..];
    code := rest[..Until(rest, SP)];
    ProtocolPieces(line);
    reason := AfterCode(rest, code);
    var protocol := line[..9];
    assert protocol == Http10() || protocol == Http11();
    Rejoin(line, code, reason);
  }

  /** A status line is accepted with a value exactly when it has the shape above and its digits have that value. */
  lemma StatusAccepted(line: seq<Byte>, v: nat)
    ensures StatusOf(line) == Ok(v) <==> exists code, reason :: IsStatusLine(line, code, reason) && DecValue(code) == v
  {
    if StatusOf(line) == Ok(v) {
      var code, reason := AcceptedShape(line);
      ShapeAccepted(line, code, reason);
    }
    if code, reason :| IsStatusLine(line, code, reason) && DecValue(code) == v {
      ShapeAccepted(line, code, reason);
    }
  }

  // ---- A header line ----

  datatype HeaderUpdate = HeaderUpdate(transferEncoding: bool, contentLength: Option<nat>)

  function HeaderName(line: seq<Byte>): seq<Byte> {
    Lower(Trim(line[..Until(line, COLON)]))
  }

  function HeaderOf(line: seq<Byte>): Result<HeaderUpdate, HeadError> {
    var colon := Until(line, COLON);
    if colon == |line| then Err(MalformedHeader) else
      var value := Trim(line[colon + 1..]);
      if HeaderName(line) == Ascii("transfer-encoding") then Ok(HeaderUpdate(true, None))
      else if HeaderName(line) != Ascii("content-length") then Ok(HeaderUpdate(false, None))
      else if value == [] || !AllDigits(value) || DecValue(value) > U64_MAX then Err(MalformedHeader)
      else Ok(HeaderUpdate(false, Some(DecValue(value))))
  }

  /** What a field says: chunked, a length, or nothing that matters. */
  ghost predicate FieldSays(name: seq<Byte>, value: seq<Byte>, u: HeaderUpdate) {
    if NamesTransferEncoding(name) then u == HeaderUpdate(true, None)
    else if NamesContentLength(name) then
      !u.transferEncoding && u.contentLength.Some? && Numbers(value, u.contentLength.value)
    else u == HeaderUpdate(false, None)
  }

  ghost predicate HeaderSays(line: seq<Byte>, u: HeaderUpdate) {
    exists name, value :: IsHeaderLine(line, name, value) && FieldSays(name, value, u)
  }

  lemma CutAtColon(line: seq<Byte>) returns (name: seq<Byte>, value: seq<Byte>)
    requires COLON in line
    ensures IsHeaderLine(line, name, value)
    ensures name == line[..Until(line, COLON)] && Until(line, COLON) < |line| && value == line[Until(line, COLON) + 1..]
  {
    var n := Until(line, COLON);
    assert line[..|line|] == line;
    name, value := line[..n], line[n + 1..];
  }

  lemma CutOnce(line: seq<Byte>, name: seq<Byte>, value: seq<Byte>)
    requires IsHeaderLine(line, name, value)
    ensures Until(line, COLON) == |name| < |line| && name == line[..|name|] && value == line[|name| + 1..]
  {
    UntilUnique(name, COLON, value);
  }

  lemma FieldAccepted(line: seq<Byte>, name: seq<Byte>, value: seq<Byte>, u: HeaderUpdate)
    requires IsHeaderLine(line, name, value)
    ensures HeaderOf(line) == Ok(u) <==> FieldSays(name, value, u)
  {
    hide Until, Trim, Lower, DecValue, NamesTransferEncoding, NamesContentLength, Named, Numbers, Ascii;
    CutOnce(line, name, value);
    NamesRead(name);
    assert |Ascii("transfer-encoding")| != |Ascii("content-length")|;
    if u.contentLength.Some? {
      NumbersIff(value, u.contentLength.value);
    }
  }

  lemma NamesRead(name: seq<Byte>)
    ensures Lower(Trim(name)) == Ascii("transfer-encoding") <==> NamesTransferEncoding(name)
    ensures Lower(Trim(name)) == Ascii("content-length") <==> NamesContentLength(name)
  {
    hide Trim, Lower, Named, CasePair, Ascii;
    TransferEncodingPair();
    ContentLengthPair();
    NamedIff(name, Ascii("transfer-encoding"), Ascii("TRANSFER-ENCODING"));
    NamedIff(name, Ascii("content-length"), Ascii("CONTENT-LENGTH"));
  }

  /** A header line is read as what its shape says, and only as that: field names in any mix of cases and with white
      space around them, a length as the number in the value. */
  lemma HeaderAccepted(line: seq<Byte>, u: HeaderUpdate)
    ensures HeaderOf(line) == Ok(u) <==> HeaderSays(line, u)
  {
    hide HeaderOf, FieldSays, IsHeaderLine;
    if COLON in line {
      var name, value := CutAtColon(line);
      FieldAccepted(line, name, value, u);
    }
    NoColon(line);
    if name, value :| IsHeaderLine(line, name, value) && FieldSays(name, value, u) {
      FieldAccepted(line, name, value, u);
    }
  }

  lemma NoColon(line: seq<Byte>)
    ensures COLON !in line ==> HeaderOf(line) == Err(MalformedHeader)
    ensures HeaderOf(line).Err? ==> HeaderOf(line).error == MalformedHeader
  {
    if COLON !in line {
      UntilUnique(line, COLON, []);
    }
  }

  /** A length header whose value is no 64-bit number. */
  ghost predicate BadLength(line: seq<Byte>) {
    exists name, value ::
      IsHeaderLine(line, name, value) && NamesContentLength(name) && forall n: nat :: !Numbers(value, n)
  }

  lemma FieldRejected(line: seq<Byte>, name: seq<Byte>, value: seq<Byte>)
    requires IsHeaderLine(line, name, value)
    ensures HeaderOf(line).Err? <==> NamesContentLength(name) && forall n: nat :: !Numbers(value, n)
  {
    hide Until, Trim, Lower, DecValue, NamesTransferEncoding, NamesContentLength, Named, Numbers, Ascii;
    CutOnce(line, name, value);
    NamesRead(name);
    assert |Ascii("transfer-encoding")| != |Ascii("content-length")|;
    assert (exists n: nat :: Numbers(value, n)) <==>
           Trim(value) != [] && AllDigits(Trim(value)) && DecValue(Trim(value)) <= U64_MAX by {
      if Trim(value) != [] && AllDigits(Trim(value)) {
        NumbersIff(value, DecValue(Trim(value)));
      }
      if n: nat :| Numbers(value, n) {
        NumbersIff(value, n);
      }
    }
  }

  /** A header line is malformed exactly when it has no colon or is a length header without a proper length. */
  lemma BadHeader(line: seq<Byte>)
    ensures HeaderOf(line).Err? <==> COLON !in line || BadLength(line)
    ensures HeaderOf(line).Err? ==> HeaderOf(line).error == MalformedHeader
  {
    hide HeaderOf, IsHeaderLine, NamesContentLength, Numbers;
    NoColon(line);
    if COLON in line {
      var name, value := CutAtColon(line);
      FieldRejected(line, name, value);
    }
    if name, value :| IsHeaderLine(line, name, value) && NamesContentLength(name) && forall n: nat :: !Numbers(value, n) {
      FieldRejected(line, name, value);
    }
  }

  // ---- A list of complete lines ----

  predicate IsChunked(line: seq<Byte>) {
    HeaderOf(line).Ok? && HeaderOf(line).value.transferEncoding
  }

  predicate HasLength(line: seq<Byte>) {
    HeaderOf(line).Ok? && HeaderOf(line).value.contentLength.Some?
  }

  /** The lines so far decide nothing: a good status line, then good nonblank headers with at most one length. */
  predicate Open(lines: seq<seq<Byte>>) {
    lines != [] ==>
      && StatusOf(lines[0]).Ok?
      && (forall i :: 1 <= i < |lines| ==> lines[i] != [] && HeaderOf(lines[i]).Ok?)
      && (forall i, j :: 1 <= i < j < |lines| ==> !HasLength(lines[i]) || !HasLength(lines[j]))
  }

  predicate Chunked(lines: seq<seq<Byte>>) {
    exists i :: 1 <= i < |lines| && IsChunked(lines[i])
  }

  /** The length some header line declares. */
  function DeclaredLength(lines: seq<seq<Byte>>): (r: Option<nat>)
    ensures r.None? <==> forall i :: 1 <= i < |lines| ==> !HasLength(lines[i])
    ensures r.Some? ==> exists i :: 1 <= i < |lines| && HasLength(lines[i]) && HeaderOf(lines[i]).value.contentLength == r
  {
    if |lines| <= 1 then None
    else
      var init, last := lines[..|lines| - 1], lines[|lines| - 1];
      if HasLength(last) then HeaderOf(last).value.contentLength
      else
        assert forall i :: 0 <= i < |init| ==> init[i] == lines[i];
        DeclaredLength(init)
  }

  predicate AcceptedStatus(status: nat) {
    200 <= status <= 299 || status == 404
  }

  /** The verdict at the blank line. */
  function Ending(lines: seq<seq<Byte>>): (e: HeadEvent)
    requires lines != [] && Open(lines)
    ensures !e.NeedMore?
  {
    var status := StatusOf(lines[0]).value;
    if Chunked(lines) then Reject(TransferEncoding)
    else if !AcceptedStatus(status) then Reject(UnexpectedStatus)
    else if DeclaredLength(lines).None? && status != 404 then Reject(MissingContentLength)
    else Complete(ResponseHead(status, DeclaredLength(lines)))
  }

  /** What one more line does to lines that have decided nothing. */
  function Verdict(lines: seq<seq<Byte>>, line: seq<Byte>): HeadEvent
    requires Open(lines)
  {
    if lines == [] then if StatusOf(line).Err? then Reject(StatusOf(line).error) else NeedMore
    else if line == [] then Ending(lines)
    else if HeaderOf(line).Err? then Reject(HeaderOf(line).error)
    else if HasLength(line) && DeclaredLength(lines).Some? then Reject(DuplicateContentLength)
    else NeedMore
  }

  lemma LengthAdded(lines: seq<seq<Byte>>, line: seq<Byte>)
    requires lines != []
    ensures DeclaredLength(lines + [line]) ==
            if HasLength(line) then HeaderOf(line).value.contentLength else DeclaredLength(lines)
  {
  }

  lemma FirstLine(line: seq<Byte>)
    ensures DeclaredLength([]) == None == DeclaredLength([line]) && !Chunked([]) && !Chunked([line])
  {
  }

  lemma ChunkedAdded(lines: seq<seq<Byte>>, line: seq<Byte>)
    requires lines != []
    ensures Chunked(lines + [line]) == (Chunked(lines) || IsChunked(line))
  {
    var all := lines + [line];
    assert all[|lines|] == line;
    if Chunked(lines) {
      var i :| 1 <= i < |lines| && IsChunked(lines[i]);
      assert IsChunked(all[i]);
    }
  }

  lemma OpenNext(lines: seq<seq<Byte>>, line: seq<Byte>)
    requires Open(lines)
    ensures Open(lines + [line]) <==> Verdict(lines, line).NeedMore?
  {
    var all := lines + [line];
    assert all[|lines|] == line && forall i :: 0 <= i < |lines| ==> all[i] == lines[i];
  }

  /** The event the first deciding line gives. */
  function Judge(lines: seq<seq<Byte>>): (e: HeadEvent)
    ensures e.NeedMore? <==> Open(lines)
  {
    if Open(lines) then NeedMore else Decided(lines)
  }

  lemma LastDecides(lines: seq<seq<Byte>>)
    requires !Open(lines)
    ensures lines != []
    ensures var init, last := lines[..|lines| - 1], lines[|lines| - 1];
            Open(init) ==> !Verdict(init, last).NeedMore?
  {
    assert lines != [];
    hide Open, Verdict;
    var init, last := lines[..|lines| - 1], lines[|lines| - 1];
    assert lines == init + [last];
    if Open(init) {
      OpenNext(init, last);
    }
  }

  function Decided(lines: seq<seq<Byte>>): (e: HeadEvent)
    requires !Open(lines)
    ensures !e.NeedMore?
  {
    var init, last := lines[..|lines| - 1], lines[|lines| - 1];
    if !Open(init) then Decided(init)
    else
      LastDecides(lines);
      Verdict(init, last)
  }

  lemma JudgeNext(lines: seq<seq<Byte>>, line: seq<Byte>)
    requires Open(lines)
    ensures Judge(lines + [line]) == Verdict(lines, line)
  {
    OpenNext(lines, line);
    assert (lines + [line])[..|lines|] == lines;
  }

  lemma OpenPrefix(lines: seq<seq<Byte>>, more: seq<seq<Byte>>)
    requires Open(lines + more)
    ensures Open(lines)
  {
    if lines != [] {
      var all := lines + more;
      assert forall i :: 0 <= i < |lines| ==> lines[i] == all[i];
    }
  }

  /** Adding a line to a decided list changes nothing. */
  lemma JudgeSticks(lines: seq<seq<Byte>>, line: seq<Byte>)
    requires !Open(lines)
    ensures Judge(lines + [line]) == Judge(lines)
  {
    var all := lines + [line];
    if Open(all) {
      OpenPrefix(lines, [line]);
    }
    assert all[..|all| - 1] == lines;
  }

  // ---- The stream ----

  /** The one-shot reading of everything received so far. */
  function Event(p: seq<Byte>): HeadEvent {
    var seen := if |p| <= MAX_HEAD_BYTES then p else p[..MAX_HEAD_BYTES];
    var e := Judge(Lines(seen));
    if e.NeedMore? && |p| > MAX_HEAD_BYTES then Reject(OversizedHeader) else e
  }

  /** Length of the shortest prefix that decides, or everything while nothing does. */
  function Consumed(p: seq<Byte>): (n: nat)
    ensures n <= |p|
    ensures Event(p).NeedMore? ==> n == |p|
  {
    if Event(p).NeedMore? || p == [] || Event(p[..|p| - 1]).NeedMore? then |p| else Consumed(p[..|p| - 1])
  }

  lemma EventSticksOnce(p: seq<Byte>, b: Byte)
    requires !Event(p).NeedMore?
    ensures Event(p + [b]) == Event(p)
    ensures Consumed(p + [b]) == Consumed(p)
  {
    var q := p + [b];
    assert q[..|p|] == p;
    if |q| <= MAX_HEAD_BYTES {
      if b == LF {
        JudgeSticks(Lines(p), StripCr(Partial(p)));
      }
    } else {
      assert q[..MAX_HEAD_BYTES] == if |p| <= MAX_HEAD_BYTES then p else p[..MAX_HEAD_BYTES];
    }
  }

  /** A byte inside an undecided line decides nothing. */
  lemma ByteContinues(p: seq<Byte>, b: Byte)
    requires Event(p).NeedMore? && |p| < MAX_HEAD_BYTES && b != LF
    ensures Lines(p + [b]) == Lines(p) && Partial(p + [b]) == Partial(p) + [b]
    ensures Event(p + [b]).NeedMore?
  {
    hide Lines, Partial, Judge;
    PartialAppend(p, [b]);
  }

  /** The LF that ends an undecided line brings that line's verdict. */
  lemma LineEnds(p: seq<Byte>)
    requires Event(p).NeedMore? && |p| < MAX_HEAD_BYTES
    ensures Lines(p + [LF]) == Lines(p) + [StripCr(Partial(p))] && Partial(p + [LF]) == []
    ensures Open(Lines(p)) && Event(p + [LF]) == Verdict(Lines(p), StripCr(Partial(p)))
    ensures Consumed(p + [LF]) == |p| + 1
  {
    hide Judge, Lines, Partial, Open, Verdict;
    LineFeed(p);
    JudgeNext(Lines(p), StripCr(Partial(p)));
    assert (p + [LF])[..|p|] == p;
  }

  /** Once decided, neither the event nor the consumed count depends on what follows. */
  lemma {:induction false} EventSticks(p: seq<Byte>, more: seq<Byte>)
    requires !Event(p).NeedMore?
    ensures Event(p + more) == Event(p)
    ensures Consumed(p + more) == Consumed(p)
  {
    hide Event, Consumed;
    if more == [] {
      assert p + more == p;
    } else {
      var init := more[..|more| - 1];
      EventSticks(p, init);
      EventSticksOnce(p + init, more[|more| - 1]);
      assert p + more == p + init + [more[|more| - 1]];
    }
  }

  lemma EmptyUndecided()
    ensures Event([]).NeedMore?
  {
  }

  /** Nothing decides before `Consumed`, and the bytes up to it decide on their own. */
  lemma {:induction false} ConsumedDecides(p: seq<Byte>)
    requires !Event(p).NeedMore?
    ensures Event(p[..Consumed(p)]) == Event(p)
    ensures 0 < Consumed(p)
    ensures forall k :: 0 <= k < Consumed(p) ==> Event(p[..k]).NeedMore?
  {
    EmptyUndecided();
    hide Event;
    if Event(p[..|p| - 1]).NeedMore? {
      assert p[..|p|] == p;
      forall k | 0 <= k < |p| ensures Event(p[..k]).NeedMore? {
        assert p[..|p| - 1] == p[..k] + p[k..|p| - 1];
        if !Event(p[..k]).NeedMore? {
          EventSticks(p[..k], p[k..|p| - 1]);
        }
      }
    } else {
      var init := p[..|p| - 1];
      EventSticksOnce(init, p[|p| - 1]);
      assert p == init + [p[|p| - 1]];
      ConsumedDecides(init);
      assert forall k :: 0 <= k <= |init| ==> init[..k] == p[..k];
    }
  }

  // ---- When a head completes ----

  /** A complete, acceptable head, described by the shape of its lines: a status line with an accepted status, header
      lines, a blank line; never chunked; one length, which only a 404 may omit. */
  ghost predicate LegalHead(lines: seq<seq<Byte>>, head: ResponseHead) {
    && |lines| >= 2 && lines[|lines| - 1] == []
    && AcceptedStatus(head.status)
    && (exists code, reason :: IsStatusLine(lines[0], code, reason) && DecValue(code) == head.status)
    && match head.contentLength
       case None =>
         head.status == 404 && forall i :: 1 <= i < |lines| - 1 ==> HeaderSays(lines[i], HeaderUpdate(false, None))
       case Some(n) =>
         exists k :: 1 <= k < |lines| - 1 && HeaderSays(lines[k], HeaderUpdate(false, Some(n)))
                     && forall i :: 1 <= i < |lines| - 1 && i != k ==> HeaderSays(lines[i], HeaderUpdate(false, None))
  }

  /** The same head as the reading functions see it. */
  ghost predicate ParsedHead(lines: seq<seq<Byte>>, head: ResponseHead) {
    && |lines| >= 2
    && StatusOf(lines[0]) == Ok(head.status) && AcceptedStatus(head.status)
    && lines[|lines| - 1] == []
    && (forall i :: 1 <= i < |lines| - 1 ==> lines[i] != [] && HeaderOf(lines[i]).Ok? && !IsChunked(lines[i]))
    && match head.contentLength
       case None => head.status == 404 && forall i :: 1 <= i < |lines| - 1 ==> !HasLength(lines[i])
       case Some(n) =>
         exists k :: 1 <= k < |lines| - 1 && HeaderOf(lines[k]) == Ok(HeaderUpdate(false, Some(n)))
                     && forall i :: 1 <= i < |lines| - 1 && i != k ==> !HasLength(lines[i])
  }

  lemma HeaderReads(line: seq<Byte>)
    ensures HeaderSays(line, HeaderUpdate(false, None)) <==> HeaderOf(line).Ok? && !IsChunked(line) && !HasLength(line)
    ensures forall n :: HeaderSays(line, HeaderUpdate(false, Some(n))) <==> HeaderOf(line) == Ok(HeaderUpdate(false, Some(n)))
    ensures HeaderOf(line).Ok? ==> line != [] && !(IsChunked(line) && HasLength(line))
  {
    HeaderAccepted(line, HeaderUpdate(false, None));
    forall n: nat ensures HeaderSays(line, HeaderUpdate(false, Some(n))) <==> HeaderOf(line) == Ok(HeaderUpdate(false, Some(n))) {
      HeaderAccepted(line, HeaderUpdate(false, Some(n)));
    }
  }

  lemma LegalIsParsed(lines: seq<seq<Byte>>, head: ResponseHead)
    ensures LegalHead(lines, head) <==> ParsedHead(lines, head)
  {
    if |lines| >= 2 {
      hide HeaderSays, HeaderOf, StatusOf, IsStatusLine, IsChunked, HasLength, AcceptedStatus;
      StatusAccepted(lines[0], head.status);
      forall i | 1 <= i < |lines| - 1 ensures HeaderFacts(lines[i]) {
        HeaderReads(lines[i]);
      }
    }
  }

  ghost predicate HeaderFacts(line: seq<Byte>) {
    && (HeaderSays(line, HeaderUpdate(false, None)) <==> HeaderOf(line).Ok? && !IsChunked(line) && !HasLength(line))
    && (forall n :: HeaderSays(line, HeaderUpdate(false, Some(n))) <==> HeaderOf(line) == Ok(HeaderUpdate(false, Some(n))))
    && (HeaderOf(line).Ok? ==> line != [])
  }

  lemma LegalIsOpen(lines: seq<seq<Byte>>, head: ResponseHead)
    requires ParsedHead(lines, head)
    ensures Open(lines[..|lines| - 1]) && !Open(lines)
    ensures !Chunked(lines[..|lines| - 1])
  {
    var init := lines[..|lines| - 1];
    assert forall i :: 0 <= i < |init| ==> init[i] == lines[i];
  }

  lemma LegalJudged(lines: seq<seq<Byte>>, head: ResponseHead)
    requires ParsedHead(lines, head)
    ensures Judge(lines) == Complete(head)
  {
    var init := lines[..|lines| - 1];
    LegalIsOpen(lines, head);
    assert forall i :: 0 <= i < |init| ==> init[i] == lines[i];
    assert DeclaredLength(init) == head.contentLength by {
      if head.contentLength.Some? {
        var k :| 1 <= k < |init| && HeaderOf(lines[k]) == Ok(HeaderUpdate(false, head.contentLength))
                 && forall i :: 1 <= i < |init| && i != k ==> !HasLength(lines[i]);
        assert HasLength(init[k]);
      }
    }
  }

  lemma CompleteIsBlank(lines: seq<seq<Byte>>, head: ResponseHead)
    requires lines != [] && Open(lines[..|lines| - 1]) && Judge(lines) == Complete(head)
    ensures |lines| >= 2 && lines[|lines| - 1] == [] && Ending(lines[..|lines| - 1]) == Complete(head)
  {
    hide Ending, Open, StatusOf, HeaderOf;
  }

  lemma EndingIsLegal(lines: seq<seq<Byte>>, head: ResponseHead)
    requires |lines| >= 2 && lines[|lines| - 1] == []
    requires Open(lines[..|lines| - 1]) && Ending(lines[..|lines| - 1]) == Complete(head)
    ensures ParsedHead(lines, head)
  {
    var init := lines[..|lines| - 1];
    assert forall i :: 0 <= i < |init| ==> init[i] == lines[i];
    var found := DeclaredLength(init);
    if found.Some? {
      var k :| 1 <= k < |init| && HasLength(init[k]) && HeaderOf(init[k]).value.contentLength == found;
      assert !IsChunked(lines[k]);
      assert HeaderOf(lines[k]) == Ok(HeaderUpdate(false, found));
      assert forall i :: 1 <= i < |init| && i != k ==> !HasLength(lines[i]);
    }
  }

  /** A legal head within the byte bound completes as soon as its blank line ends, whatever body follows. */
  lemma LegalCompletes(lines: seq<seq<Byte>>, crlf: seq<bool>, head: ResponseHead, body: seq<Byte>)
    requires |lines| == |crlf| && forall i :: 0 <= i < |lines| ==> IsLine(lines[i], crlf[i])
    requires LegalHead(lines, head) && |Render(lines, crlf)| <= MAX_HEAD_BYTES
    ensures Event(Render(lines, crlf) + body) == Complete(head)
    ensures Consumed(Render(lines, crlf) + body) == |Render(lines, crlf)|
  {
    assert lines != [];
    hide Open, Lines, Render, IsLine, LegalHead, ParsedHead;
    var p := Render(lines, crlf);
    RenderSplits(lines, crlf);
    RenderLast(lines, crlf);
    LegalIsParsed(lines, head);
    LegalJudged(lines, head);
    LegalIsOpen(lines, head);
    EventSticks(p, body);
  }

  lemma RenderLast(lines: seq<seq<Byte>>, crlf: seq<bool>)
    requires |lines| == |crlf| && lines != []
    requires forall i :: 0 <= i < |lines| ==> IsLine(lines[i], crlf[i])
    ensures Render(lines, crlf) != []
    ensures Lines(Render(lines, crlf)[..|Render(lines, crlf)| - 1]) == lines[..|lines| - 1]
  {
    var k := |lines| - 1;
    var before := Render(lines[..k], crlf[..k]);
    RenderSplits(lines[..k], crlf[..k]);
    PartialAppend(before, WithCr(lines[k], crlf[k]));
    DropLast(before, WithCr(lines[k], crlf[k]), LF);
  }

  lemma OverrunRejects(q: seq<Byte>)
    requires q != [] && Event(q[..|q| - 1]).NeedMore?
    ensures |q| > MAX_HEAD_BYTES ==> Event(q) == Reject(OversizedHeader) && Consumed(q) == |q|
  {
    if |q| > MAX_HEAD_BYTES {
      assert q[..MAX_HEAD_BYTES] == q[..|q| - 1];
    }
  }

  /** The shortest deciding prefix, if it is not an overrun, ends in the LF of the deciding line. */
  lemma DecidedAtLineEnd(q: seq<Byte>)
    requires !Event(q).NeedMore? && Event(q) != Reject(OversizedHeader)
    requires q != [] && Event(q[..|q| - 1]).NeedMore?
    ensures |q| <= MAX_HEAD_BYTES && q[|q| - 1] == LF && Partial(q) == []
    ensures Open(Lines(q)[..|Lines(q)| - 1]) && Event(q) == Judge(Lines(q))
  {
    hide Event, Lines, Partial, Open, Judge, Verdict;
    var init, b := q[..|q| - 1], q[|q| - 1];
    assert q == init + [b];
    OverrunRejects(q);
    if b != LF {
      ByteContinues(init, b);
    } else {
      LineEnds(init);
      JudgeNext(Lines(init), StripCr(Partial(init)));
      assert Lines(q)[..|Lines(q)| - 1] == Lines(init);
    }
  }

  /** `p` starts with the rendering of a legal head of at most 2048 bytes. */
  ghost predicate StartsWithHead(p: seq<Byte>, lines: seq<seq<Byte>>, crlf: seq<bool>, head: ResponseHead) {
    && |lines| == |crlf| && (forall i :: 0 <= i < |lines| ==> IsLine(lines[i], crlf[i]))
    && LegalHead(lines, head)
    && Render(lines, crlf) <= p && |Render(lines, crlf)| <= MAX_HEAD_BYTES
  }

  lemma CompleteStartsWithHead(p: seq<Byte>, head: ResponseHead) returns (lines: seq<seq<Byte>>, crlf: seq<bool>)
    requires Event(p) == Complete(head)
    ensures StartsWithHead(p, lines, crlf, head) && Consumed(p) == |Render(lines, crlf)|
  {
    var q := p[..Consumed(p)];
    ConsumedDecides(p);
    assert q[..|q| - 1] == p[..Consumed(p) - 1];
    DecidedAtLineEnd(q);
    lines := Lines(q);
    crlf := SplitRenders(q);
    assert Render(lines, crlf) == q;
    CompleteIsBlank(lines, head);
    EndingIsLegal(lines, head);
    LegalIsParsed(lines, head);
  }

  /** The stream completes with a head exactly when it starts with the rendering of a legal head of at most 2048
      bytes; that rendering is what was consumed. */
  lemma CompletesIff(p: seq<Byte>, head: ResponseHead)
    ensures Event(p) == Complete(head) <==>
            exists lines, crlf :: StartsWithHead(p, lines, crlf, head) && Consumed(p) == |Render(lines, crlf)|
  {
    hide *;
    if Event(p) == Complete(head) {
      var lines, crlf := CompleteStartsWithHead(p, head);
    }
    if lines, crlf :| StartsWithHead(p, lines, crlf, head) {
      StartedCompletes(p, lines, crlf, head);
    }
  }

  lemma StartedCompletes(p: seq<Byte>, lines: seq<seq<Byte>>, crlf: seq<bool>, head: ResponseHead)
    requires StartsWithHead(p, lines, crlf, head)
    ensures Event(p) == Complete(head) && Consumed(p) == |Render(lines, crlf)|
  {
    hide Event, Consumed, Render, LegalHead, IsLine;
    var n := |Render(lines, crlf)|;
    LegalCompletes(lines, crlf, head, p[n..]);
    assert p == Render(lines, crlf) + p[n..];
  }

  // ---- When a head is rejected ----

  /** Why a line that follows lines which decided nothing rejects the head. */
  ghost predicate Blames(before: seq<seq<Byte>>, line: seq<Byte>, error: HeadError) {
    match error
    case MalformedStatusLine => before == [] && !(Http10() <= line) && !(Http11() <= line)
    case TooFewStatusTokens =>
      before == [] && (Http10() <= line || Http11() <= line) && |Pieces(line, SP)| < 3
    case NonNumericStatus =>
      before == [] && (Http10() <= line || Http11() <= line) && |Pieces(line, SP)| >= 3
      && forall code, reason :: !IsStatusLine(line, code, reason)
    case TransferEncoding => before != [] && line == [] && Chunked(before)
    case UnexpectedStatus =>
      before != [] && line == [] && !Chunked(before)
      && exists status :: StatusOf(before[0]) == Ok(status) && !AcceptedStatus(status)
    case MissingContentLength =>
      before != [] && line == [] && !Chunked(before)
      && (forall i :: 1 <= i < |before| ==> !HasLength(before[i]))
      && exists status :: StatusOf(before[0]) == Ok(status) && AcceptedStatus(status) && status != 404
    case DuplicateContentLength =>
      before != [] && line != [] && HasLength(line) && exists i :: 1 <= i < |before| && HasLength(before[i])
    case MalformedHeader =>
      before != [] && line != []
      && (COLON !in line || BadLength(line))
    case OversizedHeader => false
  }

  lemma NotNumeric(line: seq<Byte>)
    ensures StatusOf(line) == Err(NonNumericStatus) <==>
            (Http10() <= line || Http11() <= line) && |Pieces(line, SP)| >= 3
            && forall code, reason :: !IsStatusLine(line, code, reason)
  {
    hide Pieces, IsStatusLine;
    if StatusOf(line).Ok? {
      var code, reason := AcceptedShape(line);
    }
    if code, reason :| IsStatusLine(line, code, reason) {
      ShapeAccepted(line, code, reason);
    }
  }

  lemma BlamedIff(before: seq<seq<Byte>>, line: seq<Byte>, error: HeadError)
    requires Open(before)
    ensures Verdict(before, line) == Reject(error) <==> Blames(before, line, error)
  {
    hide StatusOf, HeaderOf, Pieces, IsStatusLine, Http10, Http11, Ascii, AcceptedStatus, BadLength;
    if before == [] {
      StatusErrors(line);
      NotNumeric(line);
    } else {
      BadHeader(line);
    }
  }

  lemma StatusErrors(line: seq<Byte>)
    ensures StatusOf(line) == Err(MalformedStatusLine) <==> !(Http10() <= line) && !(Http11() <= line)
    ensures StatusOf(line) == Err(TooFewStatusTokens) <==>
            (Http10() <= line || Http11() <= line) && |Pieces(line, SP)| < 3
    ensures StatusOf(line).Err? ==>
              StatusOf(line).error in {MalformedStatusLine, TooFewStatusTokens, NonNumericStatus}
  {
  }

  /** The first line that is not open after the lines before it is the one that decides. */
  lemma {:induction false} JudgedByFirst(lines: seq<seq<Byte>>, k: nat)
    requires k < |lines| && Open(lines[..k]) && !Open(lines[..k + 1])
    ensures Judge(lines) == Verdict(lines[..k], lines[k])
  {
    hide Open, Verdict;
    if k + 1 == |lines| {
      assert lines[..k + 1] == lines == lines[..k] + [lines[k]];
      JudgeNext(lines[..k], lines[k]);
    } else {
      var init := lines[..|lines| - 1];
      assert init[..k] == lines[..k] && init[..k + 1] == lines[..k + 1];
      JudgedByFirst(init, k);
      assert lines == lines[..k + 1] + lines[k + 1..];
      if Open(lines) {
        OpenPrefix(lines[..k + 1], lines[k + 1..]);
      }
      assert init == init[..k + 1] + init[k + 1..];
      if Open(init) {
        OpenPrefix(init[..k + 1], init[k + 1..]);
      }
    }
  }

  lemma {:induction false} FirstDecider(lines: seq<seq<Byte>>) returns (k: nat)
    requires !Open(lines)
    ensures k < |lines| && Open(lines[..k]) && !Open(lines[..k + 1])
  {
    var n := |lines| - 1;
    if Open(lines[..n]) {
      k := n;
      assert lines[..n + 1] == lines;
    } else {
      k := FirstDecider(lines[..n]);
      assert lines[..n][..k] == lines[..k] && lines[..n][..k + 1] == lines[..k + 1];
    }
  }

  /** Line `k` is to blame: nothing before it decides, and it is rejected for that error. */
  ghost predicate RejectedAt(lines: seq<seq<Byte>>, k: int, error: HeadError) {
    0 <= k < |lines| && Open(lines[..k]) && Blames(lines[..k], lines[k], error)
  }

  /** Every rejection is accounted for: the stream is rejected for an error exactly when some line within the byte
      bound, with nothing decided before it, is to blame for that error; and for its size exactly when 2048 bytes
      went by without a decision and there is one more. */
  lemma RejectsIff(p: seq<Byte>, error: HeadError)
    ensures var seen := if |p| <= MAX_HEAD_BYTES then p else p[..MAX_HEAD_BYTES];
            Event(p) == Reject(error) <==>
            if error == OversizedHeader then |p| > MAX_HEAD_BYTES && Open(Lines(seen))
            else exists k :: RejectedAt(Lines(seen), k, error)
  {
    hide Open, Verdict, Blames, Lines, RejectedAt;
    var seen := if |p| <= MAX_HEAD_BYTES then p else p[..MAX_HEAD_BYTES];
    var e := Judge(Lines(seen));
    JudgedReject(Lines(seen), error);
    assert e.NeedMore? <==> Open(Lines(seen));
    assert Event(p) == if e.NeedMore? && |p| > MAX_HEAD_BYTES then Reject(OversizedHeader) else e;
    if error != OversizedHeader {
      assert Event(p) == Reject(error) <==> e == Reject(error);
    }
  }

  lemma JudgedReject(lines: seq<seq<Byte>>, error: HeadError)
    ensures Judge(lines) == Reject(error) <==> exists k :: RejectedAt(lines, k, error)
    ensures Judge(lines) != Reject(OversizedHeader)
  {
    hide Open, Verdict, Blames, Judge;
    if !Open(lines) {
      var k := FirstDecider(lines);
      var before, line := lines[..k], lines[k];
      JudgedByFirst(lines, k);
      BlamedIff(before, line, error);
      NotOversized(before, line);
      assert Blames(before, line, error) ==> RejectedAt(lines, k, error);
    }
    if k :| RejectedAt(lines, k, error) {
      var before, line := lines[..k], lines[k];
      BlamedIff(before, line, error);
      OpenNext(before, line);
      assert lines[..k + 1] == before + [line];
      JudgedByFirst(lines, k);
    }
  }

  lemma NotOversized(before: seq<seq<Byte>>, line: seq<Byte>)
    requires Open(before)
    ensures Verdict(before, line) != Reject(OversizedHeader)
  {
  }
}
