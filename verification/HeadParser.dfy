/** The byte-fed response-head parser. Its state is tied to the bytes pushed so far by the one-shot reading of
    HeadGrammar, so `Push` returns the same event whichever way the stream was cut up. */
module HeadParsing {
  import opened Bytes
  import opened Decimal
  import opened HeadGrammar

  datatype State = StatusLine | Headers | Done

  /** `parse_status`: the value is accumulated digit by digit and checked against 16 bits each time. */
  method ParseStatus(line: seq<Byte>) returns (r: Result<nat, HeadError>)
    ensures r == StatusOf(line)
  {
    if !StartsWith(line, Http10()) && !StartsWith(line, Http11()) {
      return Err(MalformedStatusLine);
    }
    if |Pieces(line, SP)| < 3 {
      return Err(TooFewStatusTokens);
    }
    var rest := line[9..];
    var code := rest[..Until(rest, SP)];
    if code == [] || !AllDigits(code) {
      return Err(NonNumericStatus);
    }
    var value: nat := 0;
    for i := 0 to |code|
      invariant value == DecValue(code[..i]) <= U16_MAX
    {
      assert code[..i + 1][..i] == code[..i];
      PrefixAtMost(code, i + 1);
      value := value * 10 + (code[i] - 48);
      if value > U16_MAX {
        return Err(NonNumericStatus);
      }
    }
    assert code[..|code|] == code;
    return Ok(value);
  }

  /** `parse_header`: a length is checked for digits and for 64-bit overflow at every byte. */
  method ParseHeader(line: seq<Byte>) returns (r: Result<HeaderUpdate, HeadError>)
    ensures r == HeaderOf(line)
  {
    hide Until, Trim, Lower, DecValue;
    var colon := Until(line, COLON);
    if colon == |line| {
      return Err(MalformedHeader);
    }
    var name := TrimAscii(line[..colon]);
    var value := TrimAscii(line[colon + 1..]);
    if Lower(name) == Ascii("transfer-encoding") {
      return Ok(HeaderUpdate(true, None));
    } else if Lower(name) != Ascii("content-length") {
      return Ok(HeaderUpdate(false, None));
    }
    if value == [] {
      return Err(MalformedHeader);
    }
    var parsed := AccumulateLength(value);
    return if parsed.None? then Err(MalformedHeader) else Ok(HeaderUpdate(false, parsed));
  }

  /** The digit loop of `parse_header`. */
  method AccumulateLength(value: seq<Byte>) returns (r: Option<nat>)
    ensures r == if AllDigits(value) && DecValue(value) <= U64_MAX then Some(DecValue(value)) else None
  {
    var parsed: nat := 0;
    for i := 0 to |value|
      invariant AllDigits(value[..i])
      invariant parsed == DecValue(value[..i]) <= U64_MAX
    {
      if !IsDigit(value[i]) {
        return None;
      }
      assert value[..i + 1][..i] == value[..i];
      if parsed * 10 > U64_MAX || parsed * 10 + (value[i] - 48) > U64_MAX {
        if AllDigits(value) {
          PrefixAtMost(value, i + 1);
        }
        return None;
      }
      parsed := parsed * 10 + (value[i] - 48);
    }
    assert value[..|value|] == value;
    return Some(parsed);
  }

  class HeadParser {
    var state: State
    var terminal: Option<HeadEvent>
    var line: array<Byte>
    var lineLen: nat
    var total: nat
    var status: nat
    var contentLength: Option<nat>
    var transferEncoding: bool

    /** Every byte ever pushed, including those pushed after the terminal event. */
    ghost var fed: seq<Byte>

    ghost predicate Valid()
      reads this, line
    {
      && line.Length == MAX_HEAD_BYTES
      && if Event(fed).NeedMore? then
           && terminal == None
           && total == |fed| <= MAX_HEAD_BYTES
           && lineLen <= total && line[..lineLen] == Partial(fed)
           && Tracks(Lines(fed))
         else
           && terminal == Some(Event(fed))
           && state == Done
           && total == Consumed(fed)
    }

    /** The fields say what the undecided lines read so far say. */
    ghost predicate Tracks(lines: seq<seq<Byte>>)
      reads `state, `status, `contentLength, `transferEncoding
    {
      && state == (if lines == [] then StatusLine else Headers)
      && (lines != [] && StatusOf(lines[0]).Ok? ==> status == StatusOf(lines[0]).value)
      && contentLength == DeclaredLength(lines)
      && transferEncoding == Chunked(lines)
    }

    constructor ()
      ensures Valid() && fed == [] && fresh(line)
    {
      state, terminal := StatusLine, None;
      line := new Byte[MAX_HEAD_BYTES](_ => 0);
      lineLen, total, status := 0, 0, 0;
      contentLength, transferEncoding := None, false;
      fed := [];
    }

    /** `consumed`: the length of the shortest deciding prefix once decided. */
    method ConsumedBytes() returns (n: nat)
      requires Valid()
      ensures n == Consumed(fed)
    {
      n := total;
    }

    /** Push one byte. The event is the one-shot reading of everything pushed, the new byte included. */
    method Push(b: Byte) returns (event: HeadEvent)
      requires Valid()
      modifies this, line
      ensures Valid() && line == old(line)
      ensures fed == old(fed) + [b]
      ensures event == Event(fed)
    {
      hide Judge, Lines, Partial, Chunked, DeclaredLength, Open;
      ghost var before := fed;
      fed := fed + [b];
      if terminal.Some? {
        EventSticksOnce(before, b);
        return terminal.value;
      }
      assert fed[..|before|] == before;
      total := total + 1;
      if total > MAX_HEAD_BYTES {
        OverrunRejects(fed);
        event := Reject(OversizedHeader);
        Finish(event);
        return;
      }
      if b != LF {
        // Fewer than 2048 bytes came before this one, so the line buffer cannot be full.
        if lineLen >= line.Length {
          assert false;
        }
        ByteContinues(before, b);
        line[lineLen] := b;
        lineLen := lineLen + 1;
        assert line[..lineLen] == line[..lineLen - 1] + [b];
        return NeedMore;
      }
      event := PushLf(before);
    }

    /** The LF case of `push`: drop one CR, act on the line, start the next one. */
    method PushLf(ghost before: seq<Byte>) returns (event: HeadEvent)
      requires Event(before).NeedMore? && fed == before + [LF] && |before| < MAX_HEAD_BYTES
      requires line.Length == MAX_HEAD_BYTES && terminal == None && total == |fed|
      requires lineLen <= MAX_HEAD_BYTES && line[..lineLen] == Partial(before) && Tracks(Lines(before))
      modifies this
      ensures Valid() && line == old(line) && fed == old(fed)
      ensures event == Event(fed)
    {
      hide Event, Consumed, Verdict, Lines, Partial, Chunked, DeclaredLength, Open, StatusOf, Tracks;
      LineEnds(before);
      var end := lineLen;
      if end > 0 && line[end - 1] == CR {
        end := end - 1;
      }
      var text := line[..end];
      assert text == StripCr(Partial(before));
      lineLen := 0;
      event := EndLine(Lines(before), text);
      if !event.NeedMore? {
        Finish(event);
      }
    }

    /** The action of a completed line. */
    method EndLine(ghost lines: seq<seq<Byte>>, text: seq<Byte>) returns (event: HeadEvent)
      requires Open(lines) && Tracks(lines)
      modifies this`state, this`status, this`contentLength, this`transferEncoding
      ensures event == Verdict(lines, text)
      ensures event.NeedMore? ==> Tracks(lines + [text])
    {
      hide StatusOf, HeaderOf, Open, Chunked, DeclaredLength, Ending;
      if state == StatusLine {
        var parsed := ParseStatus(text);
        if parsed.Err? {
          return Reject(parsed.error);
        }
        FirstLine(text);
        assert lines + [text] == [text];
        status := parsed.value;
        state := Headers;
        return NeedMore;
      }
      if text == [] {
        event := BlankLine(lines);
        return;
      }
      event := HeaderLine(lines, text);
    }

    /** The header case: a length or a transfer encoding is remembered, a second length rejected. */
    method HeaderLine(ghost lines: seq<seq<Byte>>, text: seq<Byte>) returns (event: HeadEvent)
      requires lines != [] && text != [] && Open(lines) && Tracks(lines)
      modifies this`contentLength, this`transferEncoding
      ensures event == Verdict(lines, text)
      ensures event.NeedMore? ==> Tracks(lines + [text])
    {
      hide StatusOf, HeaderOf, Open, Chunked, DeclaredLength;
      var parsed := ParseHeader(text);
      if parsed.Err? {
        return Reject(parsed.error);
      }
      LengthAdded(lines, text);
      ChunkedAdded(lines, text);
      if parsed.value.transferEncoding {
        transferEncoding := true;
      }
      if parsed.value.contentLength.Some? {
        if contentLength.Some? {
          return Reject(DuplicateContentLength);
        }
        contentLength := parsed.value.contentLength;
      }
      return NeedMore;
    }

    /** `finish`: the fields tell the blank line what all lines before it would. */
    method BlankLine(ghost lines: seq<seq<Byte>>) returns (event: HeadEvent)
      requires lines != [] && Open(lines) && Tracks(lines)
      ensures event == Ending(lines)
    {
      if transferEncoding {
        return Reject(TransferEncoding);
      }
      if !(200 <= status <= 299) && status != 404 {
        return Reject(UnexpectedStatus);
      }
      match contentLength
      case Some(length) => return Complete(ResponseHead(status, Some(length)));
      case None => return if status == 404 then Complete(ResponseHead(status, None)) else Reject(MissingContentLength);
    }

    /** `complete` and `reject`: with the decision on everything pushed latched, the parser is in order for good. */
    method Finish(event: HeadEvent)
      requires event == Event(fed) && !event.NeedMore? && total == Consumed(fed) && line.Length == MAX_HEAD_BYTES
      modifies this`state, this`terminal
      ensures Valid()
    {
      hide Event, Consumed;
      state := Done;
      terminal := Some(event);
    }
  }
}
