/** How a server reads a request: section 5 of RFC 1945. A request line of method, target and version, header lines up
    to a blank line, and whatever is behind it. */
module RequestReader {
  import opened Bytes

  datatype Field = Field(name: seq<Byte>, value: seq<Byte>)

  datatype Request = Request(verb: seq<Byte>, target: seq<Byte>, version: seq<Byte>, fields: seq<Field>, body: seq<Byte>)

  const CRLF: seq<Byte> := [CR, LF]

  // ---- Reading ----

  /** Start of the first CRLF, or the length when there is none. */
  function LineEnd(s: seq<Byte>): (n: nat)
    ensures n <= |s|
    ensures n < |s| ==> n + 1 < |s| && s[n] == CR && s[n + 1] == LF
  {
    if |s| < 2 then |s|
    else if s[0] == CR && s[1] == LF then 0
    else LineEnd(s[1..]) + 1
  }

  /** The header fields up to the blank line, and what follows it. */
  function FieldsOf(s: seq<Byte>): Option<(seq<Field>, seq<Byte>)>
    decreases |s|
  {
    var n := LineEnd(s);
    if n == |s| then None
    else if n == 0 then Some(([], s[2..]))
    else
      var line := s[..n];
      var colon := Until(line, COLON);
      var more := FieldsOf(s[n + 2..]);
      if colon == n || more.None? then None
      else Some(([Field(line[..colon], Trim(line[colon + 1..]))] + more.value.0, more.value.1))
  }

  /** The three words of a request line. */
  function WordsOf(line: seq<Byte>): Option<(seq<Byte>, seq<Byte>, seq<Byte>)> {
    var a := Until(line, SP);
    if a == |line| then None else
      var rest := line[a + 1..];
      var b := Until(rest, SP);
      if b == |rest| || SP in rest[b + 1..] then None
      else Some((line[..a], rest[..b], rest[b + 1..]))
  }

  function ReadRequest(s: seq<Byte>): Option<Request> {
    var n := LineEnd(s);
    if n == |s| then None else
      var words := WordsOf(s[..n]);
      var fields := FieldsOf(s[n + 2..]);
      if words.None? || fields.None? then None
      else Some(Request(words.value.0, words.value.1, words.value.2, fields.value.0, fields.value.1))
  }

  // ---- Writing ----

  predicate Plain(s: seq<Byte>) {
    SP !in s && CR !in s
  }

  /** A field that fits on its line and whose value has no white space at its ends. */
  predicate Writable(f: Field) {
    && COLON !in f.name && CR !in f.name && CR !in f.value
    && (f.value != [] ==> !IsSpace(f.value[0]) && !IsSpace(f.value[|f.value| - 1]))
  }

  function FieldLine(f: Field): seq<Byte> {
    f.name + [COLON] + ([SP] + f.value)
  }

  function FieldsText(fields: seq<Field>): seq<Byte> {
    if fields == [] then CRLF else FieldLine(fields[0]) + CRLF + FieldsText(fields[1..])
  }

  function RequestLineText(verb: seq<Byte>, target: seq<Byte>, version: seq<Byte>): seq<Byte> {
    verb + [SP] + (target + [SP] + version)
  }

  function WriteRequest(r: Request): seq<Byte> {
    RequestLineText(r.verb, r.target, r.version) + CRLF + (FieldsText(r.fields) + r.body)
  }

  lemma {:induction false} LineEndAt(line: seq<Byte>, rest: seq<Byte>)
    requires CR !in line
    ensures LineEnd(line + CRLF + rest) == |line|
    ensures (line + CRLF + rest)[..|line|] == line && (line + CRLF + rest)[|line| + 2..] == rest
  {
    var s := line + CRLF + rest;
    if line != [] {
      LineEndAt(line[1..], rest);
      assert s[1..] == line[1..] + CRLF + rest;
      assert s[0] == line[0];
    }
  }

  lemma WordsRead(verb: seq<Byte>, target: seq<Byte>, version: seq<Byte>)
    requires Plain(verb) && Plain(target) && Plain(version)
    ensures WordsOf(RequestLineText(verb, target, version)) == Some((verb, target, version))
    ensures CR !in RequestLineText(verb, target, version)
  {
    var rest := target + [SP] + version;
    var line := verb + [SP] + rest;
    UntilUnique(verb, SP, rest);
    assert line[..|verb|] == verb && line[|verb| + 1..] == rest;
    UntilUnique(target, SP, version);
    assert rest[..|target|] == target && rest[|target| + 1..] == version;
  }

  lemma FieldRead(f: Field)
    requires Writable(f)
    ensures var line := FieldLine(f);
            && CR !in line && Until(line, COLON) == |f.name| < |line|
            && line[..|f.name|] == f.name && Trim(line[|f.name| + 1..]) == f.value
  {
    hide Trim;
    var line := FieldLine(f);
    UntilUnique(f.name, COLON, [SP] + f.value);
    assert line[..|f.name|] == f.name && line[|f.name| + 1..] == [SP] + f.value;
    TrimPadded([SP], f.value, []);
    assert [SP] + f.value + [] == [SP] + f.value;
  }

  lemma {:induction false} FieldsRead(fields: seq<Field>, body: seq<Byte>)
    requires forall i :: 0 <= i < |fields| ==> Writable(fields[i])
    ensures FieldsOf(FieldsText(fields) + body) == Some((fields, body))
  {
    hide LineEnd, Trim, Until;
    var s := FieldsText(fields) + body;
    if fields == [] {
      LineEndAt([], body);
      assert [] + CRLF + body == s;
    } else {
      var f, rest := fields[0], fields[1..];
      hide FieldLine, Writable;
      FieldRead(f);
      FieldsRead(rest, body);
      LineEndAt(FieldLine(f), FieldsText(rest) + body);
      Assoc(FieldLine(f) + CRLF, FieldsText(rest), body);
      assert fields == [f] + rest;
    }
  }

  /** A server reads off a written request what was written. */
  lemma RequestReads(r: Request)
    requires Plain(r.verb) && Plain(r.target) && Plain(r.version)
    requires forall i :: 0 <= i < |r.fields| ==> Writable(r.fields[i])
    ensures ReadRequest(WriteRequest(r)) == Some(r)
  {
    hide LineEnd, WordsOf, FieldsOf, FieldsText, RequestLineText;
    WordsRead(r.verb, r.target, r.version);
    FieldsRead(r.fields, r.body);
    LineEndAt(RequestLineText(r.verb, r.target, r.version), FieldsText(r.fields) + r.body);
  }
}
