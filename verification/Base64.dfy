/** Base64 (section 4 of RFC 4648) as the request builder writes it, and the Basic credentials made from it
    (section 2 of RFC 7617). */
module Base64 {
  import opened Bytes

  const PAD: Byte := 61

  type Sextet = v: int | 0 <= v < 64

  /** The alphabet in order: A-Z, a-z, 0-9, plus, slash. */
  function Char(v: Sextet): Byte {
    if v < 26 then 65 + v
    else if v < 52 then 97 + (v - 26)
    else if v < 62 then 48 + (v - 52)
    else if v == 62 then 43
    else 47
  }

  function Value(c: Byte): (r: Option<Sextet>)
    ensures r.Some? ==> Char(r.value) == c
    ensures r.None? ==> forall v: Sextet :: Char(v) != c
  {
    if 65 <= c <= 90 then Some(c - 65)
    else if 97 <= c <= 122 then Some(c - 97 + 26)
    else if 48 <= c <= 57 then Some(c - 48 + 52)
    else if c == 43 then Some(62)
    else if c == 47 then Some(63)
    else None
  }

  /** Table 1 of RFC 4648. */
  const B64: string := UPPER + LOWER + REST
  const REST: string := "0123456789+/"

  /** The characters are those of the table at the same places. */
  lemma AlphabetTable(v: Sextet)
    ensures |B64| == 64 && Char(v) == B64[v] as int
  {
    if v < 26 {
      UpperTable(v);
    } else if v < 52 {
      LowerTable(v - 26);
    } else {
      assert B64[v] == REST[v - 52];
    }
  }

  lemma CharValue(v: Sextet)
    ensures Value(Char(v)) == Some(v) && Char(v) != PAD
  {
  }

  /** Three bytes as one 24-bit number. */
  function Word(b0: Byte, b1: Byte, b2: Byte): (n: nat)
    ensures n < 0x100_0000
  {
    b0 * 65536 + b1 * 256 + b2
  }

  function Sextet0(n: nat): Sextet { n / 262144 % 64 }

  function Sextet1(n: nat): Sextet { n / 4096 % 64 }

  function Sextet2(n: nat): Sextet { n / 64 % 64 }

  function Sextet3(n: nat): Sextet { n % 64 }

  function OrZero(b: Option<Byte>): Byte {
    if b.Some? then b.value else 0
  }

  /** The four characters of up to three bytes; a missing byte counts as zero and its character is the pad. */
  function Quad(b0: Byte, b1: Option<Byte>, b2: Option<Byte>): (q: seq<Byte>)
    ensures |q| == 4
  {
    var n := Word(b0, OrZero(b1), OrZero(b2));
    [Char(Sextet0(n)), Char(Sextet1(n)),
     if b1.Some? then Char(Sextet2(n)) else PAD,
     if b2.Some? then Char(Sextet3(n)) else PAD]
  }

  function Encode(s: seq<Byte>): seq<Byte> {
    if |s| == 0 then []
    else if |s| == 1 then Quad(s[0], None, None)
    else if |s| == 2 then Quad(s[0], Some(s[1]), None)
    else Quad(s[0], Some(s[1]), Some(s[2])) + Encode(s[3..])
  }

  lemma {:induction false} EncodeLength(s: seq<Byte>)
    ensures |Encode(s)| == (|s| + 2) / 3 * 4
  {
    hide Quad;
    if |s| >= 3 {
      EncodeLength(s[3..]);
    }
  }

  // ---- The inverse, from the standard ----

  function Byte0(v0: Sextet, v1: Sextet): Byte { v0 * 4 + v1 / 16 }

  function Byte1(v1: Sextet, v2: Sextet): Byte { v1 % 16 * 16 + v2 / 4 }

  function Byte2(v2: Sextet, v3: Sextet): Byte { v2 % 4 * 64 + v3 }

  /** Strict decoding: whole quads, padding only at the end, unused bits zero. */
  function Decode(t: seq<Byte>): Option<seq<Byte>> {
    if t == [] then Some([])
    else if |t| < 4 || Value(t[0]).None? || Value(t[1]).None? then None
    else
      var v0, v1 := Value(t[0]).value, Value(t[1]).value;
      if |t| == 4 && t[2] == PAD && t[3] == PAD then
        if v1 % 16 != 0 then None else Some([Byte0(v0, v1)])
      else if Value(t[2]).None? then None
      else
        var v2 := Value(t[2]).value;
        if |t| == 4 && t[3] == PAD then
          if v2 % 4 != 0 then None else Some([Byte0(v0, v1), Byte1(v1, v2)])
        else if Value(t[3]).None? || Decode(t[4..]).None? then None
        else Some([Byte0(v0, v1), Byte1(v1, v2), Byte2(v2, Value(t[3]).value)] + Decode(t[4..]).value)
  }

  lemma TopSextets(b0: Byte, b1: Byte, b2: Byte)
    ensures Word(b0, b1, b2) / 262144 == b0 / 4
    ensures Word(b0, b1, b2) / 4096 == 16 * b0 + b1 / 16
  {
  }

  lemma LowSextets(b0: Byte, b1: Byte, b2: Byte)
    ensures Word(b0, b1, b2) / 64 == 1024 * b0 + 4 * b1 + b2 / 64
    ensures Word(b0, b1, b2) % 64 == b2 % 64
  {
  }

  /** The sextets of a word are the standard regrouping of its bytes' bits. */
  lemma Regroup(b0: Byte, b1: Byte, b2: Byte)
    ensures var n := Word(b0, b1, b2);
            && Sextet0(n) == b0 / 4
            && Sextet1(n) == b0 % 4 * 16 + b1 / 16
            && Sextet2(n) == b1 % 16 * 4 + b2 / 64
            && Sextet3(n) == b2 % 64
  {
    hide Word;
    TopSextets(b0, b1, b2);
    LowSextets(b0, b1, b2);
    LowSix(b0 / 4, b0 % 4 * 16 + b1 / 16);
    LowSix(16 * b0 + b1 / 16, b1 % 16 * 4 + b2 / 64);
  }

  /** The low six bits of a number built from sixty-fours. */
  lemma LowSix(high: nat, low: nat)
    requires low < 64
    ensures (64 * high + low) % 64 == low
  {
  }

  /** Four characters, no padding: decoding the quad gives back the bytes. */
  lemma UnpackWord(b0: Byte, b1: Byte, b2: Byte)
    ensures var n := Word(b0, b1, b2);
            && Byte0(Sextet0(n), Sextet1(n)) == b0
            && Byte1(Sextet1(n), Sextet2(n)) == b1
            && Byte2(Sextet2(n), Sextet3(n)) == b2
            && (b1 == 0 ==> Sextet1(n) % 16 == 0)
            && (b2 == 0 ==> Sextet2(n) % 4 == 0)
  {
    hide Word, Sextet0, Sextet1, Sextet2, Sextet3;
    Regroup(b0, b1, b2);
  }

  lemma PackWord(v0: Sextet, v1: Sextet, v2: Sextet, v3: Sextet)
    ensures var n := Word(Byte0(v0, v1), Byte1(v1, v2), Byte2(v2, v3));
            Sextet0(n) == v0 && Sextet1(n) == v1 && Sextet2(n) == v2 && Sextet3(n) == v3
  {
    hide Word, Sextet0, Sextet1, Sextet2, Sextet3;
    Regroup(Byte0(v0, v1), Byte1(v1, v2), Byte2(v2, v3));
  }

  lemma QuadValues(b0: Byte, b1: Byte, b2: Byte)
    ensures var q := Quad(b0, Some(b1), Some(b2)); var n := Word(b0, b1, b2);
            && Value(q[0]) == Some(Sextet0(n)) && Value(q[1]) == Some(Sextet1(n))
            && Value(q[2]) == Some(Sextet2(n)) && Value(q[3]) == Some(Sextet3(n))
            && q[2] != PAD && q[3] != PAD
  {
    hide Word, Sextet0, Sextet1, Sextet2, Sextet3, Char, Value;
    var n := Word(b0, b1, b2);
    CharValue(Sextet0(n));
    CharValue(Sextet1(n));
    CharValue(Sextet2(n));
    CharValue(Sextet3(n));
  }

  /** Decoding undoes encoding, for every input. */
  lemma {:induction false} DecodeEncode(s: seq<Byte>)
    ensures Decode(Encode(s)) == Some(s)
  {
    hide Word, Sextet0, Sextet1, Sextet2, Sextet3, Char, Value, Byte0, Byte1, Byte2;
    if |s| >= 3 {
      hide Encode, Decode;
      DecodeEncode(s[3..]);
      DecodeWhole(s);
    } else if |s| > 0 {
      var b1 := if |s| > 1 then s[1] else 0;
      UnpackWord(s[0], b1, 0);
      QuadValues(s[0], b1, 0);
      assert s == if |s| == 1 then [s[0]] else [s[0], s[1]];
    }
  }

  lemma DecodeWhole(s: seq<Byte>)
    requires |s| >= 3 && Decode(Encode(s[3..])) == Some(s[3..])
    ensures Decode(Encode(s)) == Some(s)
  {
    hide *;
    var t, n := Encode(s), Word(s[0], s[1], s[2]);
    EncodeWhole(s);
    QuadValues(s[0], s[1], s[2]);
    BehindFour(t, Quad(s[0], Some(s[1]), Some(s[2])), Encode(s[3..]));
    DecodeFour(t, Sextet0(n), Sextet1(n), Sextet2(n), Sextet3(n));
    UnpackWord(s[0], s[1], s[2]);
    ThreeAndRest(s);
  }

  lemma BehindFour(t: seq<Byte>, q: seq<Byte>, rest: seq<Byte>)
    requires |q| == 4 && t == q + rest
    ensures t[..4] == q && t[4..] == rest && t[0] == q[0] && t[1] == q[1] && t[2] == q[2] && t[3] == q[3]
  {
  }

  lemma ThreeAndRest(s: seq<Byte>)
    requires |s| >= 3
    ensures s == [s[0], s[1], s[2]] + s[3..]
  {
  }

  lemma DecodeFour(t: seq<Byte>, v0: Sextet, v1: Sextet, v2: Sextet, v3: Sextet)
    requires |t| >= 4 && t[2] != PAD && t[3] != PAD && Decode(t[4..]).Some?
    requires Value(t[0]) == Some(v0) && Value(t[1]) == Some(v1) && Value(t[2]) == Some(v2) && Value(t[3]) == Some(v3)
    ensures Decode(t) == Some([Byte0(v0, v1), Byte1(v1, v2), Byte2(v2, v3)] + Decode(t[4..]).value)
  {
    hide Value, Byte0, Byte1, Byte2;
  }

  lemma EncodeWhole(s: seq<Byte>)
    requires |s| >= 3
    ensures Encode(s) == Quad(s[0], Some(s[1]), Some(s[2])) + Encode(s[3..])
  {
  }

  /** Encoding undoes decoding: each accepted text is the encoding of what it decodes to. */
  lemma {:induction false} EncodeDecode(t: seq<Byte>)
    requires Decode(t).Some?
    ensures Encode(Decode(t).value) == t
  {
    if t != [] {
      if |t| == 4 && t[3] == PAD {
        EncodePadded(t);
      } else {
        DecodeTail(t);
        EncodeDecode(t[4..]);
        EncodeTail(t);
      }
    }
  }

  lemma EncodePadded(t: seq<Byte>)
    requires |t| == 4 && t[3] == PAD && Decode(t).Some?
    ensures Encode(Decode(t).value) == t
  {
    hide Word, Sextet0, Sextet1, Sextet2, Sextet3, Char, Value, Byte0, Byte1, Byte2;
    PackPadded(Value(t[0]).value, Value(t[1]).value, if t[2] == PAD then 0 else Value(t[2]).value);
  }

  lemma DecodeTail(t: seq<Byte>)
    requires t != [] && !(|t| == 4 && t[3] == PAD) && Decode(t).Some?
    ensures |t| >= 4 && Value(t[0]).Some? && Value(t[1]).Some? && Value(t[2]).Some? && Value(t[3]).Some?
    ensures Decode(t[4..]).Some?
    ensures var v0, v1, v2, v3 := Value(t[0]).value, Value(t[1]).value, Value(t[2]).value, Value(t[3]).value;
            Decode(t).value == [Byte0(v0, v1), Byte1(v1, v2), Byte2(v2, v3)] + Decode(t[4..]).value
  {
    hide Value, Byte0, Byte1, Byte2;
  }

  lemma EncodeTail(t: seq<Byte>)
    requires t != [] && !(|t| == 4 && t[3] == PAD) && Decode(t).Some?
    requires |t| >= 4 && Decode(t[4..]).Some? && Encode(Decode(t[4..]).value) == t[4..]
    ensures Encode(Decode(t).value) == t
  {
    DecodeTail(t);
    hide *;
    var d, rest := Decode(t).value, Decode(t[4..]).value;
    EncodeQuad(t, Value(t[0]).value, Value(t[1]).value, Value(t[2]).value, Value(t[3]).value);
    BehindThree(d, rest);
    EncodeWhole(d);
    FrontAndRest(t);
  }

  lemma EncodeQuad(t: seq<Byte>, v0: Sextet, v1: Sextet, v2: Sextet, v3: Sextet)
    requires |t| >= 4
    requires Value(t[0]) == Some(v0) && Value(t[1]) == Some(v1) && Value(t[2]) == Some(v2) && Value(t[3]) == Some(v3)
    ensures Quad(Byte0(v0, v1), Some(Byte1(v1, v2)), Some(Byte2(v2, v3))) == t[..4]
  {
    hide Word, Sextet0, Sextet1, Sextet2, Sextet3, Char, Value, Byte0, Byte1, Byte2;
    PackWord(v0, v1, v2, v3);
  }

  lemma BehindThree(d: seq<Byte>, rest: seq<Byte>)
    requires |d| >= 3 && d == [d[0], d[1], d[2]] + rest
    ensures d[3..] == rest
  {
  }

  lemma FrontAndRest(t: seq<Byte>)
    requires |t| >= 4
    ensures t == t[..4] + t[4..]
  {
  }

  lemma PackPadded(v0: Sextet, v1: Sextet, v2: Sextet)
    ensures v2 % 4 == 0 ==>
              var n := Word(Byte0(v0, v1), Byte1(v1, v2), 0);
              Sextet0(n) == v0 && Sextet1(n) == v1 && Sextet2(n) == v2
    ensures v1 % 16 == 0 ==>
              var n := Word(Byte0(v0, v1), 0, 0);
              Sextet0(n) == v0 && Sextet1(n) == v1
  {
    if v2 % 4 == 0 {
      assert Byte2(v2, 0) == 0;
      PackWord(v0, v1, v2, 0);
    }
    if v1 % 16 == 0 {
      assert Byte1(v1, 0) == 0 && Byte2(0, 0) == 0;
      PackWord(v0, v1, 0, 0);
    }
  }

  /** A byte iterator: what `next()` has left to hand out. */
  class Source {
    var rest: seq<Byte>

    constructor (bytes: seq<Byte>)
      ensures rest == bytes
    {
      rest := bytes;
    }

    method Next() returns (b: Option<Byte>)
      modifies this
      ensures if old(rest) == [] then b == None && rest == [] else b == Some(old(rest)[0]) && rest == old(rest)[1..]
    {
      if rest == [] {
        return None;
      }
      b := Some(rest[0]);
      rest := rest[1..];
    }
  }

  /** The next up to three bytes. */
  method NextThree(source: Source) returns (b0: Option<Byte>, b1: Option<Byte>, b2: Option<Byte>)
    modifies source
    ensures b0.None? ==> old(source.rest) == []
    ensures b0.Some? ==> old(source.rest) != []
    ensures b0.Some? ==> Encode(old(source.rest)) == Quad(b0.value, b1, b2) + Encode(source.rest)
    ensures b2.Some? ==> |old(source.rest)| >= 3 && source.rest == old(source.rest)[3..]
    ensures b2.None? ==> source.rest == []
  {
    hide Quad;
    b0 := source.Next();
    b1 := source.Next();
    b2 := source.Next();
  }

  method Put(out: array<Byte>, lo: nat, at: nat, q: seq<Byte>)
    requires lo <= at && at + 4 <= out.Length && |q| == 4
    modifies out
    ensures out[..lo] == old(out[..lo])
    ensures out[lo..at + 4] == old(out[lo..at]) + q
  {
    out[at], out[at + 1], out[at + 2], out[at + 3] := q[0], q[1], q[2], q[3];
  }

  lemma QuadWritten(before: seq<Byte>, q: seq<Byte>, after: seq<Byte>, all: seq<Byte>)
    requires all == before + (q + after)
    ensures all == before + q + after
  {
  }

  datatype QuadTurn = RanDry | NoRoom | Filled(last: bool)

  /** One turn of `base64_fill`: three bytes to four characters at `out[lo + o..]`. `all` is the whole encoding. */
  method FillQuad(source: Source, out: array<Byte>, lo: nat, o: nat, ghost all: seq<Byte>) returns (turn: QuadTurn)
    requires lo + o <= out.Length && all == out[lo..lo + o] + Encode(source.rest)
    modifies source, out
    ensures out[..lo] == old(out[..lo])
    ensures match turn
            case RanDry => all == out[lo..lo + o]
            case NoRoom => lo + |all| > out.Length
            case Filled(last) =>
              && lo + o + 4 <= out.Length && all == out[lo..lo + o + 4] + Encode(source.rest)
              && |source.rest| <= |old(source.rest)| && (if last then source.rest == [] else |source.rest| < |old(source.rest)|)
  {
    NothingEncoded();
    hide Encode, Quad;
    ghost var written := out[lo..lo + o];
    var b0, b1, b2 := NextThree(source);
    if b0.None? {
      return RanDry;
    }
    if out.Length - lo < o + 4 {
      return NoRoom;
    }
    var q := Quad(b0.value, b1, b2);
    QuadWritten(written, q, Encode(source.rest), all);
    Put(out, lo, lo + o, q);
    turn := Filled(b2.None?);
  }

  lemma NothingEncoded()
    ensures Encode([]) == []
  {
  }

  /** `base64_fill` into `out[lo..]`: three bytes at a time until the source runs dry. The room check comes before
      each quad, so the result is `None` exactly when the whole encoding does not fit. */
  method Base64Fill(source: Source, out: array<Byte>, lo: nat) returns (r: Option<nat>)
    requires lo <= out.Length
    modifies source, out
    ensures r == if lo + |Encode(old(source.rest))| <= out.Length then Some(|Encode(old(source.rest))|) else None
    ensures r.Some? ==> out[lo..lo + r.value] == Encode(old(source.rest))
    ensures out[..lo] == old(out[..lo])
  {
    NothingEncoded();
    hide Encode, Quad;
    ghost var all := Encode(source.rest);
    var o := 0;
    while true
      invariant lo + o <= out.Length && all == out[lo..lo + o] + Encode(source.rest)
      invariant out[..lo] == old(out[..lo])
      decreases |source.rest|
    {
      var turn := FillQuad(source, out, lo, o, all);
      match turn
      case RanDry =>
        return Some(o);
      case NoRoom =>
        return None;
      case Filled(last) =>
        o := o + 4;
        if last {
          return Some(o);
        }
    }
  }

  /** `base64` of a whole slice. */
  method EncodeInto(input: seq<Byte>, out: array<Byte>) returns (r: Option<nat>)
    modifies out
    ensures r == if |Encode(input)| <= out.Length then Some(|Encode(input)|) else None
    ensures r.Some? ==> out[..r.value] == Encode(input)
  {
    var source := new Source(input);
    r := Base64Fill(source, out, 0);
    if r.Some? {
      assert out[..r.value] == out[0..0 + r.value];
    }
  }

  function Prefix(): (p: seq<Byte>)
    ensures |p| == 6
  {
    Ascii("Basic ")
  }

  /** The credentials text. */
  function Credentials(user: seq<Byte>, pass: seq<Byte>): seq<Byte> {
    Prefix() + Encode(user + [COLON] + pass)
  }

  /** `basic_authorization`: nothing for empty credentials, else the text if it fits. */
  method BasicAuthorization(user: seq<Byte>, pass: seq<Byte>, out: array<Byte>) returns (r: Option<nat>)
    modifies out
    ensures r.Some? <==> (user != [] || pass != []) && |Credentials(user, pass)| <= out.Length
    ensures r.Some? ==> r.value == |Credentials(user, pass)| && out[..r.value] == Credentials(user, pass)
  {
    if user == [] && pass == [] {
      return None;
    }
    if out.Length < 6 {
      return None;
    }
    hide Encode;
    CopyInto(out, 0, Prefix());
    assert out[..6] == out[0..6];
    var source := new Source(user + [COLON] + pass);
    var n := Base64Fill(source, out, 6);
    if n.None? {
      return None;
    }
    assert out[..6 + n.value] == out[..6] + out[6..6 + n.value];
    r := Some(6 + n.value);
  }

  /** Both credentials come back from the text when the user holds no colon. */
  lemma CredentialsRecovered(user: seq<Byte>, pass: seq<Byte>)
    requires COLON !in user
    ensures var text := Credentials(user, pass);
            && Prefix() <= text
            && Decode(text[6..]).Some?
            && var pair := Decode(text[6..]).value;
               var n := Until(pair, COLON);
               n < |pair| && pair[..n] == user && pair[n + 1..] == pass
  {
    var pair := user + [COLON] + pass;
    DecodeEncode(pair);
    assert Credentials(user, pass)[6..] == Encode(pair);
    UntilUnique(user, COLON, pass);
  }

  /** A colon in the user makes another pair produce the same text, so the condition above is needed. */
  lemma ColonIsAmbiguous(user: seq<Byte>, rest: seq<Byte>, pass: seq<Byte>)
    ensures Credentials(user + [COLON] + rest, pass) == Credentials(user, rest + [COLON] + pass)
  {
    assert user + [COLON] + rest + [COLON] + pass == user + [COLON] + (rest + [COLON] + pass);
  }
}
