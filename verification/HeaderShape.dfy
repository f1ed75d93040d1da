/** What a header line is, described without reading it: a colon, a name in any mix of cases with white space around
    it, a number with white space around it. Section 4.2 of RFC 1945 makes field names case-insensitive. */
module HeaderShape {
  import opened Bytes
  import opened Decimal

  /** The line is cut at its first colon. */
  predicate IsHeaderLine(line: seq<Byte>, name: seq<Byte>, value: seq<Byte>) {
    COLON !in name && line == name + [COLON] + value
  }

  /** Each letter of `word` is the one of `lower` or the one of `upper` at its place. */
  predicate Spells(word: seq<Byte>, lower: seq<Byte>, upper: seq<Byte>) {
    |word| == |lower| == |upper| && forall i :: 0 <= i < |word| ==> word[i] == lower[i] || word[i] == upper[i]
  }

  predicate Around(text: seq<Byte>, before: seq<Byte>, word: seq<Byte>, after: seq<Byte>) {
    text == before + word + after && AllSpace(before) && AllSpace(after)
  }

  ghost predicate Named(name: seq<Byte>, lower: seq<Byte>, upper: seq<Byte>) {
    exists before, word, after :: Around(name, before, word, after) && Spells(word, lower, upper)
  }

  ghost predicate NamesTransferEncoding(name: seq<Byte>) {
    Named(name, Ascii("transfer-encoding"), Ascii("TRANSFER-ENCODING"))
  }

  ghost predicate NamesContentLength(name: seq<Byte>) {
    Named(name, Ascii("content-length"), Ascii("CONTENT-LENGTH"))
  }

  /** The value is a decimal number of at most 64 bits. */
  ghost predicate Numbers(value: seq<Byte>, n: nat) {
    n <= U64_MAX &&
    exists before, digits, after ::
      Around(value, before, digits, after) && digits != [] && AllDigits(digits) && DecValue(digits) == n
  }

  // ---- White space ----

  lemma TrimIs(text: seq<Byte>, before: seq<Byte>, word: seq<Byte>, after: seq<Byte>)
    requires Around(text, before, word, after)
    requires word != [] && !IsSpace(word[0]) && !IsSpace(word[|word| - 1])
    ensures Trim(text) == word
  {
    TrimPadded(before, word, after);
  }

  lemma TrimAround(text: seq<Byte>) returns (before: seq<Byte>, after: seq<Byte>)
    ensures Around(text, before, Trim(text), after)
  {
    before, after := TrimSplits(text);
  }

  // ---- Names ----

  /** A lower-case letter and its upper case, or the same byte twice if it is no letter. */
  predicate CasesOf(l: Byte, u: Byte) {
    if 97 <= l <= 122 then u == l - 32 else l == u && !(65 <= l <= 90)
  }

  predicate CasePair(lower: seq<Byte>, upper: seq<Byte>) {
    && |lower| == |upper| > 0
    && (forall i :: 0 <= i < |lower| ==> CasesOf(lower[i], upper[i]))
    && (forall i :: 0 <= i < |lower| ==> !IsSpace(lower[i]) && !IsSpace(upper[i]))
  }

  lemma LowerSpells(word: seq<Byte>, lower: seq<Byte>, upper: seq<Byte>)
    requires CasePair(lower, upper)
    ensures Lower(word) == lower <==> Spells(word, lower, upper)
  {
    if Lower(word) == lower {
      forall i | 0 <= i < |word| ensures word[i] == lower[i] || word[i] == upper[i] {
        assert Lower(word)[i] == lower[i];
        assert CasesOf(lower[i], upper[i]);
      }
    }
    if Spells(word, lower, upper) {
      forall i | 0 <= i < |word| ensures Lower(word)[i] == lower[i] {
        assert CasesOf(lower[i], upper[i]);
      }
    }
  }

  lemma NamedIff(name: seq<Byte>, lower: seq<Byte>, upper: seq<Byte>)
    requires CasePair(lower, upper)
    ensures Lower(Trim(name)) == lower <==> Named(name, lower, upper)
  {
    hide Trim, Lower;
    LowerSpells(Trim(name), lower, upper);
    if Lower(Trim(name)) == lower {
      var before, after := TrimAround(name);
      assert Spells(Trim(name), lower, upper);
    }
    if before, word, after :| Around(name, before, word, after) && Spells(word, lower, upper) {
      TrimIs(name, before, word, after);
    }
  }

  lemma PairsJoin(a: seq<Byte>, b: seq<Byte>, c: seq<Byte>, d: seq<Byte>)
    requires CasePair(a, b) && CasePair(c, d)
    ensures CasePair(a + c, b + d)
  {
  }

  lemma Transfer()
    ensures CasePair(Ascii("transfer"), Ascii("TRANSFER"))
  {
  }

  lemma Encoding()
    ensures CasePair(Ascii("-encoding"), Ascii("-ENCODING"))
  {
  }

  lemma Content()
    ensures CasePair(Ascii("content"), Ascii("CONTENT"))
  {
  }

  lemma Length()
    ensures CasePair(Ascii("-length"), Ascii("-LENGTH"))
  {
  }

  lemma TransferEncodingPair()
    ensures CasePair(Ascii("transfer-encoding"), Ascii("TRANSFER-ENCODING"))
  {
    hide CasePair, Ascii;
    Transfer();
    Encoding();
    PairsJoin(Ascii("transfer"), Ascii("TRANSFER"), Ascii("-encoding"), Ascii("-ENCODING"));
    AsciiJoin("transfer", "-encoding");
    AsciiJoin("TRANSFER", "-ENCODING");
    assert "transfer" + "-encoding" == "transfer-encoding";
    assert "TRANSFER" + "-ENCODING" == "TRANSFER-ENCODING";
  }

  lemma ContentLengthPair()
    ensures CasePair(Ascii("content-length"), Ascii("CONTENT-LENGTH"))
  {
    hide CasePair, Ascii;
    Content();
    Length();
    PairsJoin(Ascii("content"), Ascii("CONTENT"), Ascii("-length"), Ascii("-LENGTH"));
    AsciiJoin("content", "-length");
    AsciiJoin("CONTENT", "-LENGTH");
    assert "content" + "-length" == "content-length";
    assert "CONTENT" + "-LENGTH" == "CONTENT-LENGTH";
  }

  // ---- Numbers ----

  lemma NumbersIff(value: seq<Byte>, n: nat)
    ensures Numbers(value, n) <==>
            Trim(value) != [] && AllDigits(Trim(value)) && DecValue(Trim(value)) == n <= U64_MAX
  {
    hide Trim, DecValue;
    if Trim(value) != [] && AllDigits(Trim(value)) && DecValue(Trim(value)) == n <= U64_MAX {
      var before, after := TrimAround(value);
    }
    if Numbers(value, n) {
      var before, digits, after :|
        Around(value, before, digits, after) && digits != [] && AllDigits(digits) && DecValue(digits) == n;
      TrimIs(value, before, digits, after);
    }
  }
}
