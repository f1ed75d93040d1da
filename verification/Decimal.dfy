/** The number and digest texts of the release files: `version` and `<n>.bin.sha256` bodies. */
module Decimal {
  import opened Bytes

  const U16_MAX: nat := 0xFFFF
  const U32_MAX: nat := 0xFFFF_FFFF
  const U64_MAX: nat := 0xFFFF_FFFF_FFFF_FFFF

  /** The full, unbounded value of a digit string, leading zeros included. */
  function DecValue(s: seq<Byte>): nat
    requires AllDigits(s)
  {
    if s == [] then 0 else DecValue(s[..|s| - 1]) * 10 + (s[|s| - 1] - 48)
  }

  /** A prefix never exceeds the whole, so a check made digit by digit fails only when the full value is too big. */
  lemma {:induction false} PrefixAtMost(s: seq<Byte>, i: nat)
    requires AllDigits(s) && i <= |s|
    ensures DecValue(s[..i]) <= DecValue(s)
  {
    if i == |s| {
      assert s[..i] == s;
    } else {
      PrefixAtMost(s[..|s| - 1], i);
      assert s[..|s| - 1][..i] == s[..i];
    }
  }

  /** Canonical decimal printing (`{}` of an unsigned integer). */
  function Digits(n: nat): (s: seq<Byte>)
    ensures s != [] && AllDigits(s)
  {
    if n < 10 then [48 + n] else Digits(n / 10) + [48 + n % 10]
  }

  lemma {:induction false} DigitsValue(n: nat)
    ensures DecValue(Digits(n)) == n
  {
    if n >= 10 {
      DigitsValue(n / 10);
      var s := Digits(n);
      assert s[..|s| - 1] == Digits(n / 10);
    }
  }

  /** A digit string is what printing would give: nonempty and without a needless leading zero. */
  predicate Canonical(s: seq<Byte>) {
    AllDigits(s) && s != [] && (|s| > 1 ==> s[0] != 48)
  }

  lemma {:induction false} DigitsCanonical(n: nat)
    ensures Canonical(Digits(n))
    ensures n > 0 ==> Digits(n)[0] != 48
  {
    if n >= 10 {
      DigitsCanonical(n / 10);
    }
  }

  /** Printing undoes parsing exactly on the canonical strings. */
  lemma {:induction false} CanonicalPrints(s: seq<Byte>)
    requires AllDigits(s) && s != []
    ensures Canonical(s) <==> Digits(DecValue(s)) == s
  {
    if Canonical(s) {
      if |s| > 1 {
        var init := s[..|s| - 1];
        CanonicalPrints(init);
        CanonicalPositive(init);
        assert s == init + [s[|s| - 1]];
        assert DecValue(s) / 10 == DecValue(init);
      } else {
        assert DecValue(s) == s[0] - 48 by { assert DecValue(s[..0]) == 0; }
      }
    } else {
      DigitsCanonical(DecValue(s));
    }
  }

  lemma {:induction false} CanonicalPositive(s: seq<Byte>)
    requires AllDigits(s) && s != [] && s[0] != 48
    ensures DecValue(s) > 0
  {
    PrefixAtMost(s, 1);
    assert DecValue(s[..1]) == s[0] - 48 by { assert s[..1][..0] == []; }
  }

  // ---- parse_version ----

  /** What a `version` body means: the value of its trimmed text, if that is a number that fits 32 bits. */
  function VersionOf(body: seq<Byte>): Option<nat> {
    var s := Trim(body);
    if s != [] && AllDigits(s) && DecValue(s) <= U32_MAX then Some(DecValue(s)) else None
  }

  /** `parse_version`: the checked multiply and add are the test against `U32_MAX` at every digit. */
  method ParseVersion(body: seq<Byte>) returns (r: Option<nat>)
    ensures r == VersionOf(body)
  {
    var s := TrimAscii(body);
    if s == [] || !AllDigits(s) {
      return None;
    }
    var value: nat := 0;
    for i := 0 to |s|
      invariant value == DecValue(s[..i]) <= U32_MAX
    {
      assert s[..i + 1][..i] == s[..i];
      PrefixAtMost(s, i + 1);
      if value * 10 > U32_MAX || value * 10 + (s[i] - 48) > U32_MAX {
        return None;
      }
      value := value * 10 + (s[i] - 48);
    }
    assert s[..|s|] == s;
    return Some(value);
  }

  /** A body is read as a version exactly when it is a digit string of that 32-bit value with white space around it. */
  lemma VersionIff(body: seq<Byte>, v: nat)
    ensures VersionOf(body) == Some(v) <==>
            v <= U32_MAX &&
            exists before, digits, after ::
              body == before + digits + after && AllSpace(before) && AllSpace(after)
              && digits != [] && AllDigits(digits) && DecValue(digits) == v
  {
    hide Trim, DecValue;
    if VersionOf(body) == Some(v) {
      var before, after := TrimSplits(body);
    }
    if v <= U32_MAX {
      if before, digits, after :|
        body == before + digits + after && AllSpace(before) && AllSpace(after)
        && digits != [] && AllDigits(digits) && DecValue(digits) == v
      {
        TrimPadded(before, digits, after);
      }
    }
  }

  /** Every 32-bit version survives printing and parsing, whatever whitespace surrounds it. */
  lemma VersionRoundTrip(n: nat, before: seq<Byte>, after: seq<Byte>)
    requires AllSpace(before) && AllSpace(after)
    ensures VersionOf(before + Digits(n) + after) == if n <= U32_MAX then Some(n) else None
  {
    DigitsValue(n);
    TrimPadded(before, Digits(n), after);
  }

  // ---- parse_sha256_hex ----

  const DIGEST_BYTES: nat := 32

  type Digest = d: seq<Byte> | |d| == 32 witness seq(32, _ => 0)

  /** SHA-256 stands for any function from byte strings to digests. */
  type Hash = seq<Byte> -> Digest

  /** Lowercase hexadecimal only. */
  function HexNibble(b: Byte): (r: Option<nat>)
    ensures r.Some? ==> r.value < 16 && HexDigit(r.value) == b
  {
    if 48 <= b <= 57 then Some(b - 48)
    else if 97 <= b <= 102 then Some(b - 97 + 10)
    else None
  }

  function HexDigit(n: nat): (b: Byte)
    requires n < 16
    ensures !IsSpace(b)
  {
    if n < 10 then 48 + n else 97 + (n - 10)
  }

  const HEX_DIGITS: string := "0123456789abcdef"

  /** The digits are the sixteen of the table, and no other byte is one. */
  lemma HexTable(n: nat)
    requires n < 16
    ensures HexDigit(n) == HEX_DIGITS[n] as int && HexNibble(HEX_DIGITS[n] as int) == Some(n)
  {
  }

  lemma HexOnly(b: Byte)
    ensures HexNibble(b).Some? <==> exists n :: 0 <= n < 16 && b == HEX_DIGITS[n] as int
  {
    if HexNibble(b).Some? {
      HexTable(HexNibble(b).value);
    }
    if n: nat :| n < 16 && b == HEX_DIGITS[n] as int {
      HexTable(n);
    }
  }

  /** Lowercase hexadecimal text of a byte string, two digits a byte. */
  function Hex(d: seq<Byte>): (s: seq<Byte>)
    ensures |s| == 2 * |d|
  {
    seq(2 * |d|, k requires 0 <= k < 2 * |d| =>
      HexDigit(if k % 2 == 0 then d[k / 2] / 16 else d[k / 2] % 16))
  }

  lemma NibbleOfDigit(n: nat)
    requires n < 16
    ensures HexNibble(HexDigit(n)) == Some(n)
  {
  }

  /** Hexadecimal text determines the bytes. */
  lemma HexInjective(d: seq<Byte>, e: seq<Byte>)
    requires Hex(d) == Hex(e)
    ensures d == e
  {
    assert |Hex(d)| == |Hex(e)|;
    forall i | 0 <= i < |d| ensures d[i] == e[i] {
      assert Hex(d)[2 * i] == Hex(e)[2 * i];
      assert Hex(d)[2 * i + 1] == Hex(e)[2 * i + 1];
      NibbleOfDigit(d[i] / 16);
      NibbleOfDigit(e[i] / 16);
      NibbleOfDigit(d[i] % 16);
      NibbleOfDigit(e[i] % 16);
    }
  }

  /** What a checksum body means: the digest whose text it is, if there is one. */
  ghost function ShaOf(body: seq<Byte>): (r: Option<Digest>)
    ensures r.Some? ==> Trim(body) == Hex(r.value)
  {
    if exists d: Digest :: Trim(body) == Hex(d) then
      var d: Digest :| Trim(body) == Hex(d);
      Some(d)
    else None
  }

  lemma ShaIs(body: seq<Byte>, d: Digest)
    requires Trim(body) == Hex(d)
    ensures ShaOf(body) == Some(d)
  {
    HexInjective(d, ShaOf(body).value);
  }

  lemma HexByPairs(s: seq<Byte>, d: seq<Byte>)
    requires |s| == 2 * |d|
    requires forall j :: 0 <= j < |d| ==> s[2 * j] == HexDigit(d[j] / 16) && s[2 * j + 1] == HexDigit(d[j] % 16)
    ensures s == Hex(d)
  {
  }

  lemma NotHex(s: seq<Byte>, i: nat)
    requires |s| == 64 && i < 32
    requires HexNibble(s[2 * i]).None? || HexNibble(s[2 * i + 1]).None?
    ensures forall d: Digest :: s != Hex(d)
  {
  }

  /** `parse_sha256_hex`: fills a 32-byte buffer two nibbles at a time. It accepts exactly the texts whose
      trimmed form is the lowercase hexadecimal of some digest, and returns that digest. */
  method ParseSha256Hex(body: seq<Byte>) returns (r: Option<Digest>)
    ensures r == ShaOf(body)
  {
    var s := TrimAscii(body);
    if |s| != 64 {
      return None;
    }
    var out := new Byte[32](_ => 0);
    for i := 0 to 32
      invariant forall j :: 0 <= j < i ==> s[2 * j] == HexDigit(out[j] / 16) && s[2 * j + 1] == HexDigit(out[j] % 16)
    {
      var hi := HexNibble(s[2 * i]);
      var lo := HexNibble(s[2 * i + 1]);
      if hi.None? || lo.None? {
        NotHex(s, i);
        return None;
      }
      out[i] := hi.value * 16 + lo.value;
    }
    HexByPairs(s, out[..]);
    ShaIs(body, out[..]);
    return Some(out[..]);
  }

  /** The text deploy writes for a digest reads back as that digest under any whitespace padding. */
  lemma ShaRoundTrip(d: Digest, before: seq<Byte>, after: seq<Byte>)
    requires AllSpace(before) && AllSpace(after)
    ensures ShaOf(before + Hex(d) + after) == Some(d)
  {
    TrimPadded(before, Hex(d), after);
    ShaIs(before + Hex(d) + after, d);
  }
}
