/** The bootloader's memory.x: its MEMORY block, as written, reads as the table the build accepts. */
module ShippedMap {
  import opened Bytes
  import opened MemoryMap
  import opened Partition

  // ---- The block ----

  const BOOT2_LINE: string := "    BOOT2  : ORIGIN = 0x10000000, LENGTH = 0x100"
  const FLASH_LINE: string := "    FLASH  : ORIGIN = 0x10000100, LENGTH = 24K - 0x100"
  const ACTIVE_LINE: string := "    ACTIVE : ORIGIN = 0x10006000, LENGTH = 780K"
  const DFU_LINE: string := "    DFU    : ORIGIN = 0x100C9000, LENGTH = 784K"
  const STATE_LINE: string := "    STATE  : ORIGIN = 0x1018D000, LENGTH = 4K"
  const RAM_LINE: string := "    RAM    : ORIGIN = 0x20000000, LENGTH = 264K"

  function BlockLines(): seq<string> {
    ["", BOOT2_LINE, FLASH_LINE, ACTIVE_LINE, DFU_LINE, STATE_LINE, RAM_LINE]
  }

  /** The file: a leading comment, the block, the symbols behind it. */
  function ShippedText(comment: string, behind: string): string {
    "/*" + comment + "*/" + FileText("\n", " ", BlockLines(), behind)
  }

  /** The same lines taken apart. */
  function Block(): seq<BlockLine> {
    [Blank(""),
     Declares("    BOOT2  ", " 0x10000000", " 0x100"),
     Declares("    FLASH  ", " 0x10000100", " 24K - 0x100"),
     Declares("    ACTIVE ", " 0x10006000", " 780K"),
     Declares("    DFU    ", " 0x100C9000", " 784K"),
     Declares("    STATE  ", " 0x1018D000", " 4K"),
     Declares("    RAM    ", " 0x20000000", " 264K")]
  }

  // ---- The numbers ----

  function D(value: nat): Digit { Digit(value, true) }

  /** The digits as written: the same for both cases up to 9, capitals from A to F. */
  function Text(values: seq<nat>): (s: string)
    requires forall i :: 0 <= i < |values| ==> values[i] < 16
  {
    DigitsText(Ds(values))
  }

  function Ds(values: seq<nat>): (ds: seq<Digit>)
    ensures |ds| == |values| && forall i :: 0 <= i < |ds| ==> ds[i] == D(values[i])
  {
    seq(|values|, i requires 0 <= i < |values| => D(values[i]))
  }

  /** The number, digit by digit from the left. */
  function Horner(acc: nat, values: seq<nat>, radix: nat): nat
    decreases |values|
  {
    if values == [] then acc else Horner(acc * radix + values[0], values[1..], radix)
  }

  lemma {:induction false} HornerAppend(acc: nat, values: seq<nat>, v: nat, radix: nat)
    ensures Horner(acc, values + [v], radix) == Horner(acc, values, radix) * radix + v
    decreases |values|
  {
    if values == [] {
      assert values + [v] == [v] && [v][1..] == [];
    } else {
      HornerAppend(acc * radix + values[0], values[1..], v, radix);
      assert (values + [v])[1..] == values[1..] + [v];
    }
  }

  lemma {:induction false} HornerNumber(values: seq<nat>, radix: nat)
    ensures DigitsNumber(Ds(values), radix) == Horner(0, values, radix)
  {
    if values == [] {
      assert Ds(values) == [];
    } else {
      var init, last := values[..|values| - 1], values[|values| - 1];
      HornerNumber(init, radix);
      HornerAppend(0, init, last, radix);
      assert values == init + [last];
      assert Ds(values)[..|values| - 1] == Ds(init);
    }
  }

  /** A term with a blank in front is the whole sum. */
  lemma TermSum(t: Term)
    requires TermOk(t)
    ensures SumOf(" " + TermText(t)) == Some(TermValue(t))
  {
    assert DigitsOk(t.digits, Radix(t));
    hide TermText, TermValue, SumOf, SignEnd, Contribution, TermOk, DigitsOk;
    var signed := Signed(false, " ", t, "");
    PieceReads(signed);
    var piece := " " + TermText(t) + "";
    assert piece == " " + TermText(t);
    SignEndAt("", piece);
    assert "" + piece == piece;
    OnePiece(piece);
  }

  lemma TermParts(t: Term)
    requires TermOk(t)
    ensures TermText(t) == PrefixText(t) + DigitsText(t.digits) + UnitText(t.unit, t.smallUnit)
  {
    hide DigitsText, DigitsNumber;
    assert "" + DigitsText(t.digits) + "" == DigitsText(t.digits);
  }

  lemma DsOk(values: seq<nat>, radix: nat)
    requires values != [] && forall i :: 0 <= i < |values| ==> values[i] < radix
    ensures DigitsOk(Ds(values), radix)
  {
  }

  lemma HexText(text: string)
    ensures " " + ("0x" + text + "") == " 0x" + text
  {
  }

  lemma KiloText(text: string)
    ensures " " + ("" + text + "K") == " " + text + "K"
  {
  }

  lemma HexTerm(ds: seq<Digit>, n: nat)
    requires DigitsOk(ds, 16) && DigitsNumber(ds, 16) == n <= I64_MAX
    ensures var t := Term(true, false, ds, One, false);
            TermOk(t) && TermValue(t) == n && PrefixText(t) == "0x" && UnitText(t.unit, t.smallUnit) == ""
  {
    hide DigitsNumber, DigitsOk;
  }

  lemma HexIs(values: seq<nat>, n: nat)
    requires values != [] && forall i :: 0 <= i < |values| ==> values[i] < 16
    requires Horner(0, values, 16) == n <= I64_MAX
    ensures SumOf(" 0x" + Text(values)) == Some(n)
  {
    assert Text(values) == DigitsText(Ds(values));
    hide *;
    HornerNumber(values, 16);
    DsOk(values, 16);
    HexTerm(Ds(values), n);
    var t := Term(true, false, Ds(values), One, false);
    TermSum(t);
    TermParts(t);
    HexText(DigitsText(Ds(values)));
  }
  lemma KiloTerm(ds: seq<Digit>, n: nat)
    requires DigitsOk(ds, 10) && DigitsNumber(ds, 10) == n <= I64_MAX
    ensures var t := Term(false, false, ds, Kilo, false);
            TermOk(t) && TermValue(t) == n * 1024 && PrefixText(t) == "" && UnitText(t.unit, t.smallUnit) == "K"
  {
    hide DigitsNumber, DigitsOk;
  }

  lemma KiloIs(values: seq<nat>, n: nat)
    requires values != [] && forall i :: 0 <= i < |values| ==> values[i] < 10
    requires Horner(0, values, 10) == n <= I64_MAX
    ensures SumOf(" " + Text(values) + "K") == Some(n * 1024)
  {
    assert Text(values) == DigitsText(Ds(values));
    hide *;
    HornerNumber(values, 10);
    DsOk(values, 10);
    KiloTerm(Ds(values), n);
    var t := Term(false, false, Ds(values), Kilo, false);
    TermSum(t);
    TermParts(t);
    KiloText(DigitsText(Ds(values)));
  }
  // ---- The addresses ----

  lemma Address(a: nat, b: nat, c: nat, d: nat, e: nat, f: nat, g: nat, h: nat)
    requires a < 16 && b < 16 && c < 16 && d < 16 && e < 16 && f < 16 && g < 16 && h < 16
    ensures SumOf(" 0x" + [CAPITAL_DIGITS[a], CAPITAL_DIGITS[b], CAPITAL_DIGITS[c], CAPITAL_DIGITS[d],
                           CAPITAL_DIGITS[e], CAPITAL_DIGITS[f], CAPITAL_DIGITS[g], CAPITAL_DIGITS[h]])
            == Some(a * 0x10000000 + b * 0x1000000 + c * 0x100000 + d * 0x10000 + e * 0x1000 + f * 0x100 + g * 0x10 + h)
  {
    hide SumOf;
    var values := [a, b, c, d, e, f, g, h];
    Horner8(a, b, c, d, e, f, g, h);
    HexIs(values, Horner(0, values, 16));
    assert Text(values) == [CAPITAL_DIGITS[a], CAPITAL_DIGITS[b], CAPITAL_DIGITS[c], CAPITAL_DIGITS[d],
                            CAPITAL_DIGITS[e], CAPITAL_DIGITS[f], CAPITAL_DIGITS[g], CAPITAL_DIGITS[h]];
  }

  lemma Horner8(a: nat, b: nat, c: nat, d: nat, e: nat, f: nat, g: nat, h: nat)
    ensures Horner(0, [a, b, c, d, e, f, g, h], 16)
            == a * 0x10000000 + b * 0x1000000 + c * 0x100000 + d * 0x10000 + e * 0x1000 + f * 0x100 + g * 0x10 + h
  {
    hide Horner;
    HornerStep(0, [a, b, c, d, e, f, g, h], 16);
    assert [a, b, c, d, e, f, g, h][1..] == [b, c, d, e, f, g, h];
    HornerStep(a, [b, c, d, e, f, g, h], 16);
    assert [b, c, d, e, f, g, h][1..] == [c, d, e, f, g, h];
    HornerStep(a * 16 + b, [c, d, e, f, g, h], 16);
    assert [c, d, e, f, g, h][1..] == [d, e, f, g, h];
    Horner5((a * 16 + b) * 16 + c, d, e, f, g, h, 16);
  }

  lemma Horner5(acc: nat, d: nat, e: nat, f: nat, g: nat, h: nat, radix: nat)
    ensures Horner(acc, [d, e, f, g, h], radix)
            == ((((acc * radix + d) * radix + e) * radix + f) * radix + g) * radix + h
  {
    hide Horner;
    HornerStep(acc, [d, e, f, g, h], radix);
    assert [d, e, f, g, h][1..] == [e, f, g, h];
    HornerStep(acc * radix + d, [e, f, g, h], radix);
    assert [e, f, g, h][1..] == [f, g, h];
    Horner3((acc * radix + d) * radix + e, f, g, h, radix);
  }

  lemma Horner3(acc: nat, f: nat, g: nat, h: nat, radix: nat)
    ensures Horner(acc, [f, g, h], radix) == ((acc * radix + f) * radix + g) * radix + h
    ensures Horner(acc, [g, h], radix) == (acc * radix + g) * radix + h
    ensures Horner(acc, [h], radix) == acc * radix + h
  {
    hide Horner;
    assert [f, g, h][1..] == [g, h] && [g, h][1..] == [h] && [h][1..] == [];
    HornerStep(acc, [f, g, h], radix);
    HornerStep(acc * radix + f, [g, h], radix);
    HornerStep((acc * radix + f) * radix + g, [h], radix);
    HornerStep(acc, [g, h], radix);
    HornerStep(acc * radix + g, [h], radix);
    HornerStep(acc, [h], radix);
    HornerDone(((acc * radix + f) * radix + g) * radix + h, radix);
    HornerDone((acc * radix + g) * radix + h, radix);
    HornerDone(acc * radix + h, radix);
  }

  lemma HornerStep(acc: nat, values: seq<nat>, radix: nat)
    requires values != []
    ensures Horner(acc, values, radix) == Horner(acc * radix + values[0], values[1..], radix)
  {
  }

  lemma HornerDone(acc: nat, radix: nat)
    ensures Horner(acc, [], radix) == acc
  {
  }

  // ---- The lengths ----

  lemma ThreeDigits(a: nat, b: nat, c: nat)
    requires a < 16 && b < 16 && c < 16
    ensures SumOf(" 0x" + [CAPITAL_DIGITS[a], CAPITAL_DIGITS[b], CAPITAL_DIGITS[c]]) == Some(a * 0x100 + b * 0x10 + c)
    ensures a < 10 && b < 10 && c < 10 ==>
              SumOf(" " + [CAPITAL_DIGITS[a], CAPITAL_DIGITS[b], CAPITAL_DIGITS[c]] + "K")
              == Some((a * 100 + b * 10 + c) * 1024)
    ensures c < 10 ==> SumOf(" " + [CAPITAL_DIGITS[c]] + "K") == Some(c * 1024)
  {
    hide SumOf;
    Horner3(0, a, b, c, 16);
    Horner3(0, a, b, c, 10);
    HexIs([a, b, c], a * 0x100 + b * 0x10 + c);
    assert Text([a, b, c]) == [CAPITAL_DIGITS[a], CAPITAL_DIGITS[b], CAPITAL_DIGITS[c]];
    assert Text([c]) == [CAPITAL_DIGITS[c]];
    if a < 10 && b < 10 && c < 10 {
      KiloIs([a, b, c], a * 100 + b * 10 + c);
    }
    if c < 10 {
      KiloIs([c], c);
    }
  }

  /** The one length that is a difference. */
  lemma Difference()
    ensures SumOf(" 24K - 0x100") == Some(24 * 1024 - 0x100)
  {
    hide SumOf, SumText, SumValue, TermText, TermValue;
    var k := Term(false, false, Ds([2, 4]), Kilo, false);
    var x := Term(true, false, Ds([1, 0, 0]), One, false);
    TwoTerms(k, x);
    var terms := [Signed(false, " ", k, " "), Signed(true, " ", x, "")];
    SumReads(terms);
    TwoSummed(terms[0], terms[1]);
    var text := " 24K - 0x100";
    assert SumText(terms) == "+" + text;
    LeadingPlus(text);
  }

  lemma TwoTerms(k: Term, x: Term)
    requires k == Term(false, false, Ds([2, 4]), Kilo, false) && x == Term(true, false, Ds([1, 0, 0]), One, false)
    ensures TermOk(k) && TermOk(x) && TermValue(k) == 24 * 1024 && TermValue(x) == 0x100
    ensures TermText(k) == "24K" && TermText(x) == "0x100"
  {
    hide DigitsNumber;
    HornerNumber([2, 4], 10);
    HornerNumber([1, 0, 0], 16);
    Horner3(0, 0, 2, 4, 10);
    Horner3(0, 1, 0, 0, 16);
    assert DigitsText(Ds([2, 4])) == ['2', '4'] && DigitsText(Ds([1, 0, 0])) == ['1', '0', '0'];
  }

  lemma TwoSummed(a: Signed, b: Signed)
    requires Printable(a) && Printable(b)
    ensures forall i :: 0 <= i < 2 ==> Printable([a, b][i])
    ensures SumText([a, b]) == SignedText(a) + SignedText(b)
    ensures SumValue([a, b]) == (if a.minus then -1 else 1) * TermValue(a.term) + (if b.minus then -1 else 1) * TermValue(b.term)
  {
    hide SignedText, TermValue, TermOk, AllWhite;
    assert [a, b][..1] == [a] && [a][..0] == [];
    assert [a][0] == a && Printable([a][0]);
    assert forall i :: 0 <= i < 1 ==> Printable([a][i]);
    assert SumText([]) == "";
    assert SumText([a]) == SumText([a][..0]) + SignedText(a);
    assert SumValue([]) == 0;
  }

  // ---- The lines ----

  lemma Boot2Line()
    ensures RegionLine("    BOOT2  ", " 0x10000000", " 0x100") == BOOT2_LINE
  {
  }

  lemma FlashLine()
    ensures RegionLine("    FLASH  ", " 0x10000100", " 24K - 0x100") == FLASH_LINE
  {
  }

  lemma ActiveLine()
    ensures RegionLine("    ACTIVE ", " 0x10006000", " 780K") == ACTIVE_LINE
  {
  }

  lemma DfuLine()
    ensures RegionLine("    DFU    ", " 0x100C9000", " 784K") == DFU_LINE
  {
  }

  lemma StateLine()
    ensures RegionLine("    STATE  ", " 0x1018D000", " 4K") == STATE_LINE
  {
  }

  lemma RamLine()
    ensures RegionLine("    RAM    ", " 0x20000000", " 264K") == RAM_LINE
  {
  }

  lemma LinesAre()
    ensures LineText(Block()[1]) == BOOT2_LINE && LineText(Block()[2]) == FLASH_LINE && LineText(Block()[3]) == ACTIVE_LINE
    ensures LineText(Block()[4]) == DFU_LINE && LineText(Block()[5]) == STATE_LINE && LineText(Block()[6]) == RAM_LINE
  {
    hide RegionLine;
    Boot2Line();
    FlashLine();
    ActiveLine();
    DfuLine();
    StateLine();
    RamLine();
  }

  lemma BlockIs()
    ensures LineTexts(Block()) == BlockLines()
  {
    LinesAre();
    hide LineText;
    NoText();
  }

  lemma NoText()
    ensures LineText(Blank("")) == ""
  {
  }

  predicate PlainLine(s: string) {
    forall i :: 0 <= i < |s| ==> s[i] != '\n' && s[i] != '\r' && s[i] != '}' && s[i] != '/'
  }

  lemma PlainJoin(a: string, b: string)
    requires PlainLine(a) && PlainLine(b)
    ensures PlainLine(a + b)
  {
  }

  lemma PartsPlain()
    ensures PlainLine(":") && PlainLine(" ORIGIN =") && PlainLine(", LENGTH =")
  {
  }

  lemma LinePlain(name: string, origin: string, length: string)
    requires PlainLine(name) && PlainLine(origin) && PlainLine(length)
    ensures PlainLine(RegionLine(name, origin, length))
  {
    hide PlainLine;
    PartsPlain();
    PlainJoin(" ORIGIN =", origin);
    PlainJoin(" ORIGIN =" + origin, ", LENGTH =");
    PlainJoin(" ORIGIN =" + origin + ", LENGTH =", length);
    PlainJoin(name, ":");
    PlainJoin(name + ":", " ORIGIN =" + origin + ", LENGTH =" + length);
  }

  /** The parts of a declaration hold none of the characters the reader stops at. */
  predicate DeclOk(name: string, origin: string, length: string) {
    && PlainLine(name) && PlainLine(origin) && PlainLine(length) && length != ""
    && ':' !in name && PlainText(origin) && PlainText(length)
  }

  lemma Boot2Ok()
    ensures DeclOk("    BOOT2  ", " 0x10000000", " 0x100")
  {
  }

  lemma FlashOk()
    ensures DeclOk("    FLASH  ", " 0x10000100", " 24K - 0x100")
  {
  }

  lemma ActiveOk()
    ensures DeclOk("    ACTIVE ", " 0x10006000", " 780K")
  {
  }

  lemma DfuOk()
    ensures DeclOk("    DFU    ", " 0x100C9000", " 784K")
  {
  }

  lemma StateOk()
    ensures DeclOk("    STATE  ", " 0x1018D000", " 4K")
  {
  }

  lemma RamOk()
    ensures DeclOk("    RAM    ", " 0x20000000", " 264K")
  {
  }

  lemma DeclWritten(name: string, origin: string, length: string)
    requires DeclOk(name, origin, length)
    requires TrimText(name) != "" && SumOf(origin).Some? && SumOf(length).Some?
    ensures WellWritten(Declares(name, origin, length))
  {
    hide SumOf, TrimText, RegionLine;
    LinePlain(name, origin, length);
    var line := RegionLine(name, origin, length);
    assert forall i :: 0 <= i < |line| ==> line[i] != '\n' && line[i] != '\r' && line[i] != '}';
  }

  lemma BlankWritten()
    ensures WellWritten(Blank(""))
  {
  }

  /** A line of the block is well written and has these two values. */
  predicate LineSays(i: nat, origin: nat, length: nat) {
    i < 7 && WellWritten(Block()[i]) && Block()[i].Declares?
    && SumOf(Block()[i].origin) == Some(origin) && SumOf(Block()[i].length) == Some(length)
  }

  lemma LineIs(i: nat, name: string, o: string, l: string, origin: nat, length: nat)
    requires i < 7 && Block()[i] == Declares(name, o, l) && DeclOk(name, o, l) && TrimText(name) != ""
    requires SumOf(o) == Some(origin) && SumOf(l) == Some(length)
    ensures LineSays(i, origin, length)
  {
    hide SumOf, TrimText, WellWritten, DeclOk, Block;
    DeclWritten(name, o, l);
  }

  lemma Boot2Says()
    ensures LineSays(1, 0x10000000, 0x100)
  {
    Boot2Ok();
    Boot2Name();
    assert Block()[1] == Declares("    BOOT2  ", " 0x10000000", " 0x100");
    hide *;
    Boot2Sums();
    LineIs(1, "    BOOT2  ", " 0x10000000", " 0x100", 0x10000000, 0x100);
  }

  lemma Boot2Name()
    ensures TrimText("    BOOT2  ") == "BOOT2"
  {
    hide TrimText;
    TrimTextPadded("    ", "BOOT2", "  ");
    assert "    BOOT2  " == "    " + "BOOT2" + "  ";
  }

  lemma Boot2Sums()
    ensures SumOf(" 0x10000000") == Some(0x10000000) && SumOf(" 0x100") == Some(0x100)
  {
    hide SumOf;
    Address(1, 0, 0, 0, 0, 0, 0, 0);
    assert " 0x10000000" == " 0x" + ['1', '0', '0', '0', '0', '0', '0', '0'];
    ThreeDigits(1, 0, 0);
    assert " 0x100" == " 0x" + ['1', '0', '0'];
  }

  lemma FlashSays()
    ensures LineSays(2, 0x10000100, 24 * 1024 - 0x100)
  {
    FlashOk();
    FlashName();
    assert Block()[2] == Declares("    FLASH  ", " 0x10000100", " 24K - 0x100");
    hide *;
    FlashSums();
    LineIs(2, "    FLASH  ", " 0x10000100", " 24K - 0x100", 0x10000100, 24 * 1024 - 0x100);
  }

  lemma FlashName()
    ensures TrimText("    FLASH  ") == "FLASH"
  {
    hide TrimText;
    TrimTextPadded("    ", "FLASH", "  ");
    assert "    FLASH  " == "    " + "FLASH" + "  ";
  }

  lemma FlashSums()
    ensures SumOf(" 0x10000100") == Some(0x10000100) && SumOf(" 24K - 0x100") == Some(24 * 1024 - 0x100)
  {
    hide SumOf;
    Address(1, 0, 0, 0, 0, 1, 0, 0);
    assert " 0x10000100" == " 0x" + ['1', '0', '0', '0', '0', '1', '0', '0'];
    Difference();
  }

  lemma ActiveSays()
    ensures LineSays(3, 0x10006000, 780 * 1024)
  {
    ActiveOk();
    ActiveName();
    assert Block()[3] == Declares("    ACTIVE ", " 0x10006000", " 780K");
    hide *;
    ActiveSums();
    LineIs(3, "    ACTIVE ", " 0x10006000", " 780K", 0x10006000, 780 * 1024);
  }

  lemma ActiveName()
    ensures TrimText("    ACTIVE ") == "ACTIVE"
  {
    hide TrimText;
    TrimTextPadded("    ", "ACTIVE", " ");
    assert "    ACTIVE " == "    " + "ACTIVE" + " ";
  }

  lemma ActiveSums()
    ensures SumOf(" 0x10006000") == Some(0x10006000) && SumOf(" 780K") == Some(780 * 1024)
  {
    hide SumOf;
    Address(1, 0, 0, 0, 6, 0, 0, 0);
    assert " 0x10006000" == " 0x" + ['1', '0', '0', '0', '6', '0', '0', '0'];
    ThreeDigits(7, 8, 0);
    assert " 780K" == " " + ['7', '8', '0'] + "K";
  }

  lemma DfuSays()
    ensures LineSays(4, 0x100C9000, 784 * 1024)
  {
    DfuOk();
    DfuName();
    assert Block()[4] == Declares("    DFU    ", " 0x100C9000", " 784K");
    hide *;
    DfuSums();
    LineIs(4, "    DFU    ", " 0x100C9000", " 784K", 0x100C9000, 784 * 1024);
  }

  lemma DfuName()
    ensures TrimText("    DFU    ") == "DFU"
  {
    hide TrimText;
    TrimTextPadded("    ", "DFU", "    ");
    assert "    DFU    " == "    " + "DFU" + "    ";
  }

  lemma DfuSums()
    ensures SumOf(" 0x100C9000") == Some(0x100C9000) && SumOf(" 784K") == Some(784 * 1024)
  {
    hide SumOf;
    Address(1, 0, 0, 12, 9, 0, 0, 0);
    assert " 0x100C9000" == " 0x" + ['1', '0', '0', 'C', '9', '0', '0', '0'];
    ThreeDigits(7, 8, 4);
    assert " 784K" == " " + ['7', '8', '4'] + "K";
  }

  lemma StateSays()
    ensures LineSays(5, 0x1018D000, 4 * 1024)
  {
    StateOk();
    StateName();
    assert Block()[5] == Declares("    STATE  ", " 0x1018D000", " 4K");
    hide *;
    StateSums();
    LineIs(5, "    STATE  ", " 0x1018D000", " 4K", 0x1018D000, 4 * 1024);
  }

  lemma StateName()
    ensures TrimText("    STATE  ") == "STATE"
  {
    hide TrimText;
    TrimTextPadded("    ", "STATE", "  ");
    assert "    STATE  " == "    " + "STATE" + "  ";
  }

  lemma StateSums()
    ensures SumOf(" 0x1018D000") == Some(0x1018D000) && SumOf(" 4K") == Some(4 * 1024)
  {
    hide SumOf;
    Address(1, 0, 1, 8, 13, 0, 0, 0);
    assert " 0x1018D000" == " 0x" + ['1', '0', '1', '8', 'D', '0', '0', '0'];
    ThreeDigits(0, 0, 4);
    assert " 4K" == " " + ['4'] + "K";
  }

  lemma RamSays()
    ensures LineSays(6, 0x20000000, 264 * 1024)
  {
    RamOk();
    RamName();
    assert Block()[6] == Declares("    RAM    ", " 0x20000000", " 264K");
    hide *;
    RamSums();
    LineIs(6, "    RAM    ", " 0x20000000", " 264K", 0x20000000, 264 * 1024);
  }

  lemma RamName()
    ensures TrimText("    RAM    ") == "RAM"
  {
    hide TrimText;
    TrimTextPadded("    ", "RAM", "    ");
    assert "    RAM    " == "    " + "RAM" + "    ";
  }

  lemma RamSums()
    ensures SumOf(" 0x20000000") == Some(0x20000000) && SumOf(" 264K") == Some(264 * 1024)
  {
    hide SumOf;
    Address(2, 0, 0, 0, 0, 0, 0, 0);
    assert " 0x20000000" == " 0x" + ['2', '0', '0', '0', '0', '0', '0', '0'];
    ThreeDigits(2, 6, 4);
    assert " 264K" == " " + ['2', '6', '4'] + "K";
  }

  lemma BlockWritten()
    ensures forall i :: 0 <= i < 7 ==> WellWritten(Block()[i])
  {
    BlankWritten();
    Boot2Says();
    FlashSays();
    ActiveSays();
    DfuSays();
    StateSays();
    RamSays();
    hide SumOf, WellWritten;
  }

  // ---- The table ----

  lemma NamesAre(i: nat, name: string)
    requires i < 7
    ensures Names(Block()[i], name) <==> i > 0 && name == ["BOOT2", "FLASH", "ACTIVE", "DFU", "STATE", "RAM"][i - 1]
  {
    hide TrimText;
    Boot2Name();
    FlashName();
    ActiveName();
    DfuName();
    StateName();
    RamName();
  }

  lemma NameOnce(i: nat)
    requires 0 < i < 7
    ensures LastNaming(Block(), i, ["BOOT2", "FLASH", "ACTIVE", "DFU", "STATE", "RAM"][i - 1])
  {
    hide Names;
    var name := ["BOOT2", "FLASH", "ACTIVE", "DFU", "STATE", "RAM"][i - 1];
    forall j | 0 <= j < 7 ensures Names(Block()[j], name) <==> j == i {
      NamesAre(j, name);
      NamesDiffer(i, j);
    }
  }

  lemma NamesDiffer(i: nat, j: nat)
    requires 0 < i < 7 && j < 7
    ensures var names := ["BOOT2", "FLASH", "ACTIVE", "DFU", "STATE", "RAM"]; j > 0 && names[i - 1] == names[j - 1] ==> i == j
  {
    assert "BOOT2"[0] == 'B' && "FLASH"[0] == 'F' && "ACTIVE"[0] == 'A' && "DFU"[0] == 'D' && "STATE"[0] == 'S' && "RAM"[0] == 'R';
  }

  /** The region a declared line gives its name. */
  lemma RegionOf(m: map<string, Region>, i: nat, origin: nat, length: nat)
    requires Declared(Block(), m) && 0 < i && LineSays(i, origin, length) && origin < U32 && length < U32
    ensures var name := ["BOOT2", "FLASH", "ACTIVE", "DFU", "STATE", "RAM"][i - 1];
            name in m && m[name] == Region(origin, length)
  {
    hide SumOf, LastNaming, Names, Block, WellWritten;
    NameOnce(i);
  }

  lemma OnlyThose(m: map<string, Region>)
    requires Declared(Block(), m)
    ensures forall name :: name in m ==> name in ShippedTable()
  {
    hide SumOf, TrimText, LastNaming, Names;
    forall name | name in m ensures name in ShippedTable() {
      var i :| 0 <= i < 7 && Names(Block()[i], name);
      NamesAre(i, name);
    }
  }

  lemma DeclaredTable(m: map<string, Region>)
    requires Declared(Block(), m)
    ensures m == ShippedTable()
  {
    hide LineSays, LastNaming, Names, Block, Declared;
    Boot2Says();
    RegionOf(m, 1, 0x10000000, 0x100);
    FlashSays();
    RegionOf(m, 2, 0x10000100, 24 * 1024 - 0x100);
    ActiveSays();
    RegionOf(m, 3, 0x10006000, 780 * 1024);
    DfuSays();
    RegionOf(m, 4, 0x100C9000, 784 * 1024);
    StateSays();
    RegionOf(m, 5, 0x1018D000, 4 * 1024);
    RamSays();
    RegionOf(m, 6, 0x20000000, 264 * 1024);
    OnlyThose(m);
    assert m.Keys == ShippedTable().Keys;
  }

  // ---- The file ----

  lemma SlashFree(front: string, behind: string)
    requires '/' !in front && CommentFree(behind)
    ensures CommentFree(front + behind)
  {
  }

  lemma {:induction false} WrittenSlashFree(lines: seq<string>)
    requires forall i :: 0 <= i < |lines| ==> '/' !in lines[i]
    ensures '/' !in Written(lines)
  {
    if lines != [] {
      WrittenSlashFree(lines[..|lines| - 1]);
    }
  }

  lemma FileFree(behind: string)
    requires CommentFree(behind)
    ensures CommentFree(FileText("\n", " ", BlockLines(), behind))
  {
    BlockIs();
    BlockPlain();
    WrittenSlashFree(BlockLines());
    hide Written, BlockLines, CommentFree;
    var front := "\n" + "MEMORY" + (" " + "{" + (Written(BlockLines()) + "}"));
    SlashFree(front, behind);
    assert front + behind == FileText("\n", " ", BlockLines(), behind);
  }

  lemma BlockPlain()
    ensures forall i :: 0 <= i < |BlockLines()| ==> '/' !in BlockLines()[i]
  {
    BlockIs();
    hide BlockLines, RegionLine;
    Boot2Ok();
    LinePlain("    BOOT2  ", " 0x10000000", " 0x100");
    FlashOk();
    LinePlain("    FLASH  ", " 0x10000100", " 24K - 0x100");
    ActiveOk();
    LinePlain("    ACTIVE ", " 0x10006000", " 780K");
    DfuOk();
    LinePlain("    DFU    ", " 0x100C9000", " 784K");
    StateOk();
    LinePlain("    STATE  ", " 0x1018D000", " 4K");
    RamOk();
    LinePlain("    RAM    ", " 0x20000000", " 264K");
    forall i | 0 <= i < 7 ensures '/' !in LineText(Block()[i]) {
      assert PlainLine(LineText(Block()[i]));
    }
  }

  /** The bootloader's file reads as the bootloader's table, with any leading comment and anything comment-free behind
      the block. */
  lemma ShippedReads(comment: string, behind: string)
    requires (forall i :: !ClosesBlock(comment + "*", i)) && CommentFree(behind)
    ensures TableIn(ShippedText(comment, behind)) == Some(ShippedTable())
  {
    hide *;
    var file := FileText("\n", " ", BlockLines(), behind);
    FileFree(behind);
    NothingFree();
    StripBlock("", comment, file);
    CommentFreeStays(file);
    StrippedIs(comment, behind);
    BlockIs();
    BlockWritten();
    SmallParts();
    RegionsRead(ShippedText(comment, behind), "\n", " ", Block(), behind);
    DeclaredTable(TableIn(ShippedText(comment, behind)).value);
  }

  lemma SmallParts()
    ensures 'M' !in "\n" && '{' !in " " && |Block()| == 7
    ensures forall t: string :: "" + t == t
  {
  }

  lemma StrippedIs(comment: string, behind: string)
    ensures ShippedText(comment, behind) == "" + ("/*" + comment + "*/" + FileText("\n", " ", BlockLines(), behind))
  {
    hide FileText;
  }
}
