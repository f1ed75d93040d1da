/** The bootloader build's reading of memory.x: comments, region expressions and the partition checks. */
module MemoryMap {
  import opened Bytes

  // ---- Comments ----

  /** The text after the first "*" followed by "/", or nothing. */
  function AfterBlock(s: string): (rest: string)
    ensures |rest| <= |s|
  {
    if s == "" then ""
    else if s[0] == '*' && |s| > 1 && s[1] == '/' then s[2..]
    else AfterBlock(s[1..])
  }

  /** The text from the first newline on, or nothing. */
  function FromNewline(s: string): (rest: string)
    ensures |rest| <= |s|
    ensures rest != "" ==> rest[0] == '\n'
  {
    if s == "" || s[0] == '\n' then s else FromNewline(s[1..])
  }

  /** Block comments vanish, a line comment leaves its newline, the rest stays. */
  function Strip(s: string): string
    decreases |s|
  {
    if s == "" then ""
    else if |s| > 1 && s[0] == '/' && s[1] == '*' then Strip(AfterBlock(s[2..]))
    else if |s| > 1 && s[0] == '/' && s[1] == '/' then
      var rest := FromNewline(s[2..]);
      if rest == "" then "" else "\n" + Strip(rest[1..])
    else [s[0]] + Strip(s[1..])
  }

  /** The inner block-comment loop: the position just behind the comment. */
  method SkipBlock(text: string, start: nat) returns (i: nat)
    requires start <= |text|
    ensures start <= i <= |text| && text[i..] == AfterBlock(text[start..])
  {
    i := start;
    while i < |text|
      invariant start <= i <= |text| && AfterBlock(text[start..]) == AfterBlock(text[i..])
    {
      var c := text[i];
      i := i + 1;
      if c == '*' && i < |text| && text[i] == '/' {
        i := i + 1;
        assert text[i - 2..][2..] == text[i..];
        return;
      }
      assert text[i - 1..][1..] == text[i..];
    }
  }

  /** The inner line-comment loop: the position of the newline, or the end. */
  method SkipLine(text: string, start: nat) returns (i: nat)
    requires start <= |text|
    ensures start <= i <= |text| && text[i..] == FromNewline(text[start..])
  {
    i := start;
    while i < |text| && text[i] != '\n'
      invariant start <= i <= |text| && FromNewline(text[start..]) == FromNewline(text[i..])
    {
      i := i + 1;
      assert text[i - 1..][1..] == text[i..];
    }
  }

  predicate OpensBlock(s: string) {
    |s| > 1 && s[0] == '/' && s[1] == '*'
  }

  predicate OpensLine(s: string) {
    |s| > 1 && s[0] == '/' && s[1] == '/'
  }

  lemma StripOpened(s: string)
    requires OpensBlock(s)
    ensures Strip(s) == Strip(AfterBlock(s[2..]))
  {
  }

  lemma StripLine(s: string)
    requires OpensLine(s)
    ensures var rest := FromNewline(s[2..]); Strip(s) == if rest == "" then "" else "\n" + Strip(rest[1..])
  {
  }

  lemma StripChar(s: string)
    requires s != "" && !OpensBlock(s) && !OpensLine(s)
    ensures Strip(s) == [s[0]] + Strip(s[1..])
  {
  }

  lemma StripNothing()
    ensures Strip("") == ""
  {
  }

  /** `strip_comments`. */
  method StripComments(text: string) returns (out: string)
    ensures out == Strip(text)
  {
    hide AfterBlock, FromNewline, Strip;
    StripNothing();
    out := "";
    var i := 0;
    while i < |text|
      invariant i <= |text| && out + Strip(text[i..]) == Strip(text)
    {
      ghost var before, rest := out, text[i..];
      if text[i] == '/' && i + 1 < |text| && text[i + 1] == '*' {
        assert rest[2..] == text[i + 2..];
        StripOpened(rest);
        i := SkipBlock(text, i + 2);
      } else if text[i] == '/' && i + 1 < |text| && text[i + 1] == '/' {
        assert rest[2..] == text[i + 2..];
        StripLine(rest);
        i := SkipLine(text, i + 2);
        if i < |text| {
          out := out + "\n";
          i := i + 1;
          assert text[i - 1..][1..] == text[i..];
          AssocText(before, "\n", Strip(text[i..]));
        }
      } else {
        StripChar(rest);
        out := out + [text[i]];
        i := i + 1;
        assert rest[1..] == text[i..];
        AssocText(before, [text[i - 1]], Strip(text[i..]));
      }
    }
    assert text[i..] == "";
  }

  /** No comment opens anywhere in the text. */
  predicate CommentFree(s: string) {
    forall i :: 0 <= i < |s| - 1 ==> s[i] != '/' || (s[i + 1] != '/' && s[i + 1] != '*')
  }

  /** Stripping never joins characters into a new comment opener. */
  lemma {:induction false} StripIsCommentFree(s: string)
    ensures CommentFree(Strip(s))
    ensures s != "" && s[0] != '/' ==> Strip(s) != "" && Strip(s)[0] == s[0]
    decreases |s|
  {
    hide AfterBlock, FromNewline;
    if s == "" {
    } else if |s| > 1 && s[0] == '/' && s[1] == '*' {
      StripIsCommentFree(AfterBlock(s[2..]));
    } else if |s| > 1 && s[0] == '/' && s[1] == '/' {
      var rest := FromNewline(s[2..]);
      if rest != "" {
        StripIsCommentFree(rest[1..]);
      }
    } else {
      StripIsCommentFree(s[1..]);
    }
  }

  /** Comment-free text is left alone. */
  lemma {:induction false} CommentFreeStays(s: string)
    requires CommentFree(s)
    ensures Strip(s) == s
  {
    if s != "" {
      CommentFreeStays(s[1..]);
    }
  }

  lemma StripIdempotent(s: string)
    ensures Strip(Strip(s)) == Strip(s)
  {
    StripIsCommentFree(s);
    CommentFreeStays(Strip(s));
  }

  /** Text in front of a comment is kept when nothing in it opens one and it does not end in a slash. */
  lemma {:induction false} StripPrefix(t: string, rest: string)
    requires CommentFree(t) && (t != "" ==> t[|t| - 1] != '/')
    ensures Strip(t + rest) == t + Strip(rest)
  {
    hide Strip;
    if t == "" {
      assert t + rest == rest;
    } else {
      var u, all := t[1..], t + rest;
      StripPrefix(u, rest);
      assert all[1..] == u + rest;
      assert !OpensBlock(all) && !OpensLine(all);
      StripChar(all);
      assert t == [t[0]] + u;
      AssocText([t[0]], u, Strip(rest));
    }
  }

  predicate ClosesBlock(s: string, i: int) {
    0 <= i < |s| - 1 && s[i] == '*' && s[i + 1] == '/'
  }

  lemma {:induction false} AfterBlockAt(body: string, rest: string)
    requires forall i :: !ClosesBlock(body + "*", i)
    ensures AfterBlock(body + "*/" + rest) == rest
  {
    var s := body + "*/" + rest;
    if body != "" {
      forall i ensures !ClosesBlock(body[1..] + "*", i) {
        assert !ClosesBlock(body + "*", i + 1);
      }
      assert !ClosesBlock(body + "*", 0);
      AfterBlockAt(body[1..], rest);
      assert s[1..] == body[1..] + "*/" + rest;
    }
  }

  /** A block comment vanishes between what stands before and after it. */
  lemma StripBlock(t: string, body: string, rest: string)
    requires CommentFree(t) && (t != "" ==> t[|t| - 1] != '/')
    requires forall i :: !ClosesBlock(body + "*", i)
    ensures Strip(t + ("/*" + body + "*/" + rest)) == t + Strip(rest)
  {
    hide Strip, AfterBlock, CommentFree;
    var comment := "/*" + body + "*/" + rest;
    StripPrefix(t, comment);
    AfterBlockAt(body, rest);
    assert comment[2..] == body + "*/" + rest;
    StripOpened(comment);
  }

  lemma {:induction false} FromNewlineAt(body: string, rest: string)
    requires '\n' !in body && (rest == "" || rest[0] == '\n')
    ensures FromNewline(body + rest) == rest
  {
    if body == "" {
      assert body + rest == rest;
    } else {
      FromNewlineAt(body[1..], rest);
      assert (body + rest)[1..] == body[1..] + rest;
    }
  }

  /** A line comment vanishes but for its newline; the last one may do without. */
  lemma StripLineComment(t: string, body: string, rest: string)
    requires CommentFree(t) && (t != "" ==> t[|t| - 1] != '/') && '\n' !in body
    ensures Strip(t + ("//" + body + ("\n" + rest))) == t + ("\n" + Strip(rest))
    ensures Strip(t + ("//" + body)) == t
  {
    hide Strip, FromNewline, CommentFree;
    var behind := "\n" + rest;
    var comment := "//" + body + behind;
    StripPrefix(t, comment);
    FromNewlineAt(body, behind);
    assert comment[2..] == body + behind && behind[1..] == rest;
    StripLine(comment);
    var last := "//" + body;
    StripPrefix(t, last);
    FromNewlineAt(body, "");
    assert last[2..] == body && body + "" == body;
    StripLine(last);
    assert t + "" == t;
  }

  // ---- Expressions ----

  const I64_MAX: nat := 0x7FFF_FFFF_FFFF_FFFF
  const U32: nat := 0x1_0000_0000

  predicate IsWhite(c: char) {
    c == ' ' || c == '\t' || c == '\n' || c == '\r' || c == 11 as char || c == 12 as char
  }

  predicate AllWhite(s: string) {
    forall i :: 0 <= i < |s| ==> IsWhite(s[i])
  }

  function TrimText(s: string): (t: string)
    ensures |t| <= |s|
    ensures t != "" ==> !IsWhite(t[0]) && !IsWhite(t[|t| - 1])
    decreases |s|
  {
    if s != "" && IsWhite(s[0]) then TrimText(s[1..])
    else if s != "" && IsWhite(s[|s| - 1]) then TrimText(s[..|s| - 1])
    else s
  }

  lemma {:induction false} TrimTextPadded(before: string, t: string, after: string)
    requires AllWhite(before) && AllWhite(after)
    requires t != "" && !IsWhite(t[0]) && !IsWhite(t[|t| - 1])
    ensures TrimText(before + t + after) == t
    decreases |before| + |after|
  {
    var s := before + t + after;
    if before != "" {
      assert s[1..] == before[1..] + t + after;
      TrimTextPadded(before[1..], t, after);
    } else if after != "" {
      assert s[..|s| - 1] == before + t + after[..|after| - 1];
      TrimTextPadded(before, t, after[..|after| - 1]);
    } else {
      assert s == t;
    }
  }

  /** Value of one digit in the radix. */
  function DigitValue(c: char, radix: nat): Option<nat>
    requires radix == 10 || radix == 16
  {
    if '0' <= c <= '9' then Some(c as int - 48)
    else if radix == 16 && 'a' <= c <= 'f' then Some(c as int - 97 + 10)
    else if radix == 16 && 'A' <= c <= 'F' then Some(c as int - 65 + 10)
    else None
  }

  /** The number a digit string denotes, if every character is a digit. */
  function NumberOf(s: string, radix: nat): Option<nat>
    requires radix == 10 || radix == 16
  {
    if s == "" then Some(0)
    else
      var high := NumberOf(s[..|s| - 1], radix);
      var low := DigitValue(s[|s| - 1], radix);
      if high.None? || low.None? then None else Some(high.value * radix + low.value)
  }

  /** `from_str_radix` on a signless text. */
  function ParseRadix(s: string, radix: nat): Option<nat>
    requires radix == 10 || radix == 16
  {
    if s == "" || NumberOf(s, radix).None? || NumberOf(s, radix).value > I64_MAX then None else NumberOf(s, radix)
  }

  function Scale(c: char): nat {
    if c == 'K' || c == 'k' then 1024
    else if c == 'M' || c == 'm' then 1024 * 1024
    else 1
  }

  predicate StartsHex(s: string) {
    |s| >= 2 && s[0] == '0' && (s[1] == 'x' || s[1] == 'X')
  }

  /** `parse_term`: an optional K or M, then hexadecimal behind "0x" or decimal. `None` is the build's panic. */
  function ParseTerm(term: string): Option<nat> {
    var scale := if term == "" then 1 else Scale(term[|term| - 1]);
    var digits := if scale == 1 then term else term[..|term| - 1];
    var value := if StartsHex(digits) then ParseRadix(TrimText(digits[2..]), 16) else ParseRadix(TrimText(digits), 10);
    if value.None? then None else Some(value.value * scale)
  }

  predicate IsSign(c: char) {
    c == '+' || c == '-'
  }

  predicate SignFree(s: string) {
    forall i :: 0 <= i < |s| ==> !IsSign(s[i])
  }

  function SignOf(c: char): int {
    if c == '-' then -1 else 1
  }

  /** What a piece between signs adds: nothing when blank, else its value. */
  function Contribution(piece: string): Option<nat> {
    if TrimText(piece) == "" then Some(0) else ParseTerm(TrimText(piece))
  }

  /** One past the last sign; 0 when there is none. */
  function SignEnd(s: string): (n: nat)
    ensures n <= |s|
    ensures n > 0 ==> IsSign(s[n - 1])
    ensures forall i :: n <= i < |s| ==> !IsSign(s[i])
  {
    if s == "" then 0
    else if IsSign(s[|s| - 1]) then |s|
    else SignEnd(s[..|s| - 1])
  }

  /** The signed sum an expression denotes; each piece takes the sign right in front of it. */
  function SumOf(s: string): Option<int>
    decreases |s|
  {
    var n := SignEnd(s);
    var last := Contribution(s[n..]);
    if n == 0 then last
    else
      var before := SumOf(s[..n - 1]);
      if before.None? || last.None? then None else Some(before.value + SignOf(s[n - 1]) * last.value)
  }

  lemma {:induction false} SignEndAt(left: string, piece: string)
    requires SignFree(piece) && (left != "" ==> IsSign(left[|left| - 1]))
    ensures SignEnd(left + piece) == |left|
  {
    if piece == "" {
      assert left + piece == left;
    } else {
      var init := piece[..|piece| - 1];
      SignEndAt(left, init);
      assert (left + piece)[..|left| + |init|] == left + init;
    }
  }

  lemma {:induction false} TrimBlankFront(blank: string, s: string)
    requires AllWhite(blank)
    ensures TrimText(blank + s) == TrimText(s)
  {
    if blank == "" {
      assert blank + s == s;
    } else {
      TrimBlankFront(blank[1..], s);
      assert (blank + s)[1..] == blank[1..] + s;
    }
  }

  lemma {:induction false} TrimBlank(s: string)
    ensures TrimText(s) == "" <==> AllWhite(s)
    decreases |s|
  {
    if s != "" && IsWhite(s[0]) {
      TrimBlank(s[1..]);
      assert s == [s[0]] + s[1..];
    } else if s != "" && IsWhite(s[|s| - 1]) {
      TrimBlank(s[..|s| - 1]);
      assert s == s[..|s| - 1] + [s[|s| - 1]];
    }
  }

  /** A malformed piece in front of a sign spoils the whole expression. */
  lemma {:induction false} SumFails(s: string, k: nat)
    requires k < |s| && IsSign(s[k]) && SumOf(s[..k]).None?
    ensures SumOf(s).None?
    decreases |s|
  {
    hide Contribution;
    var n := SignEnd(s);
    assert n > k;
    if n - 1 > k {
      assert s[..n - 1][..k] == s[..k];
      SumFails(s[..n - 1], k);
    }
  }

  /** The state between characters: `total` is the sum up to the last sign, `sign` that sign, and `term` the piece so
      far behind some blanks. */
  ghost predicate Reading(s: string, start: nat, total: int, sign: int, term: string, blank: string) {
    && start <= |s| && SignEnd(s) == start
    && AllWhite(blank) && term == blank + s[start..]
    && (if start == 0 then total == 0 && sign == 1
        else SumOf(s[..start - 1]) == Some(total) && sign == SignOf(s[start - 1]))
  }

  lemma CharRead(s: string, start: nat, total: int, sign: int, term: string, blank: string, ch: char)
    requires Reading(s, start, total, sign, term, blank) && !IsSign(ch)
    ensures Reading(s + [ch], start, total, sign, term + [ch], blank)
  {
    hide SumOf;
    var t := s + [ch];
    assert t[..|s|] == s && t[start..] == s[start..] + [ch];
    assert start > 0 ==> t[..start - 1] == s[..start - 1];
    assert term + [ch] == blank + t[start..];
  }

  lemma PieceEnds(s: string, start: nat, total: int, sign: int, term: string, blank: string)
    requires Reading(s, start, total, sign, term, blank)
    ensures TrimText(term) == "" ==> AllWhite(term) && SumOf(s) == Some(total)
    ensures TrimText(term) != "" ==>
              SumOf(s) == if ParseTerm(TrimText(term)).None? then None
                          else Some(total + sign * ParseTerm(TrimText(term)).value)
  {
    hide ParseTerm, TrimText;
    TrimBlankFront(blank, s[start..]);
    TrimBlank(term);
  }

  lemma SignRead(s: string, total: int, term: string, ch: char)
    requires IsSign(ch) && SumOf(s) == Some(total) && AllWhite(term)
    ensures Reading(s + [ch], |s| + 1, total, SignOf(ch), term, term)
  {
  }

  /** `eval_expr`: one pass over the characters and a final plus. A blank piece is not cleared but only pads the next
      one. The total is cut to 32 bits. `None` is the panic on a malformed term. */
  method EvalExpr(expr: string) returns (r: Option<nat>)
    ensures r == if SumOf(expr).None? then None else Some(SumOf(expr).value % U32)
  {
    hide ParseTerm, TrimText, SumOf, Reading;
    var total, sign := 0, 1;
    var term := "";
    ghost var start: nat, blank := 0, "";
    StartReading();
    for i := 0 to |expr| + 1
      invariant i <= |expr| ==> Reading(expr[..i], start, total, sign, term, blank)
      invariant i == |expr| + 1 ==> SumOf(expr) == Some(total)
    {
      var ch := if i < |expr| then expr[i] else '+';
      ghost var before := expr[..i];
      assert i < |expr| ==> expr[..i + 1] == before + [ch];
      assert i == |expr| ==> before == expr;
      if IsSign(ch) {
        PieceEnds(before, start, total, sign, term, blank);
        if TrimText(term) != "" {
          var value := ParseTerm(TrimText(term));
          if value.None? {
            if i < |expr| {
              SumFails(expr, i);
            }
            return None;
          }
          total := total + sign * value.value;
          term := "";
        }
        sign := SignOf(ch);
        SignRead(before, total, term, ch);
        start, blank := i + 1, term;
      } else {
        CharRead(before, start, total, sign, term, blank, ch);
        term := term + [ch];
      }
    }
    r := Some(total % U32);
  }

  lemma StartReading()
    ensures Reading("", 0, 0, 1, "", "")
  {
  }

  // ---- Written expressions ----

  /** A digit as it is written: its value and, for A to F, whether it is a capital. */
  datatype Digit = Digit(value: nat, capital: bool)

  predicate DigitsOk(ds: seq<Digit>, radix: nat) {
    ds != [] && forall i :: 0 <= i < |ds| ==> ds[i].value < radix
  }

  const SMALL_DIGITS: string := "0123456789abcdef"
  const CAPITAL_DIGITS: string := "0123456789ABCDEF"

  function DigitChar(d: Digit): char
    requires d.value < 16
  {
    if d.capital then CAPITAL_DIGITS[d.value] else SMALL_DIGITS[d.value]
  }

  function DigitsText(ds: seq<Digit>): (s: string)
    requires forall i :: 0 <= i < |ds| ==> ds[i].value < 16
    ensures |s| == |ds|
  {
    seq(|ds|, i requires 0 <= i < |ds| => DigitChar(ds[i]))
  }

  /** The number the digits denote, leading zeros included. */
  function DigitsNumber(ds: seq<Digit>, radix: nat): nat {
    if ds == [] then 0 else DigitsNumber(ds[..|ds| - 1], radix) * radix + ds[|ds| - 1].value
  }

  /** The digits of a number, in either case. */
  function NumDigits(n: nat, radix: nat, capital: bool): (ds: seq<Digit>)
    requires radix == 10 || radix == 16
    ensures DigitsOk(ds, radix)
  {
    if n < radix then [Digit(n, capital)] else NumDigits(n / radix, radix, capital) + [Digit(n % radix, capital)]
  }

  lemma {:induction false} NumDigitsNumber(n: nat, radix: nat, capital: bool)
    requires radix == 10 || radix == 16
    ensures DigitsNumber(NumDigits(n, radix, capital), radix) == n
  {
    var ds := NumDigits(n, radix, capital);
    if n >= radix {
      NumDigitsNumber(n / radix, radix, capital);
      assert ds[..|ds| - 1] == NumDigits(n / radix, radix, capital);
    } else {
      assert ds[..0] == [];
    }
  }

  lemma DigitCharShape(d: Digit, radix: nat)
    requires (radix == 10 || radix == 16) && d.value < radix
    ensures var c := DigitChar(d);
            DigitValue(c, radix) == Some(d.value) && !IsWhite(c) && !IsSign(c) && Scale(c) == 1 && c != 'x' && c != 'X'
  {
  }

  lemma DigitRead(c: char, radix: nat) returns (d: Digit)
    requires (radix == 10 || radix == 16) && DigitValue(c, radix).Some?
    ensures d.value < radix && d.value < 16 && DigitChar(d) == c
  {
    d := Digit(DigitValue(c, radix).value, 'A' <= c <= 'F');
  }

  /** Digits are read as their number, and nothing else is. */
  lemma {:induction false} DigitsRead(ds: seq<Digit>, radix: nat)
    requires (radix == 10 || radix == 16) && forall i :: 0 <= i < |ds| ==> ds[i].value < radix
    ensures NumberOf(DigitsText(ds), radix) == Some(DigitsNumber(ds, radix))
  {
    hide DigitChar, DigitValue;
    if ds != [] {
      var init, last, s := ds[..|ds| - 1], ds[|ds| - 1], DigitsText(ds);
      DigitsRead(init, radix);
      DigitCharShape(last, radix);
      assert s[..|s| - 1] == DigitsText(init);
    }
  }

  lemma {:induction false} DigitsFound(s: string, radix: nat) returns (ds: seq<Digit>)
    requires (radix == 10 || radix == 16) && NumberOf(s, radix).Some?
    ensures |ds| == |s| && (forall i :: 0 <= i < |ds| ==> ds[i].value < radix && ds[i].value < 16)
    ensures s == DigitsText(ds)
  {
    hide DigitChar, DigitValue;
    if s == "" {
      ds := [];
    } else {
      var init := DigitsFound(s[..|s| - 1], radix);
      var last := DigitRead(s[|s| - 1], radix);
      ds := init + [last];
      assert s == s[..|s| - 1] + [s[|s| - 1]];
    }
  }

  datatype Unit = One | Kilo | Mega

  /** A term as it is written: decimal or hexadecimal, with a small or a capital X and unit. */
  datatype Term = Term(hex: bool, capitalX: bool, digits: seq<Digit>, unit: Unit, smallUnit: bool)

  function Radix(t: Term): nat {
    if t.hex then 16 else 10
  }

  predicate TermOk(t: Term) {
    DigitsOk(t.digits, Radix(t)) && DigitsNumber(t.digits, Radix(t)) <= I64_MAX
  }

  function PrefixText(t: Term): string {
    if !t.hex then "" else if t.capitalX then "0X" else "0x"
  }

  function UnitText(unit: Unit, small: bool): string {
    match unit
    case One => ""
    case Kilo => if small then "k" else "K"
    case Mega => if small then "m" else "M"
  }

  function UnitFactor(unit: Unit): nat {
    match unit case One => 1 case Kilo => 1024 case Mega => 1024 * 1024
  }

  /** The term with blanks around its digits. */
  function SpacedText(t: Term, before: string, after: string): (s: string)
    requires DigitsOk(t.digits, Radix(t))
    ensures s != ""
  {
    PrefixText(t) + (before + DigitsText(t.digits) + after) + UnitText(t.unit, t.smallUnit)
  }

  function TermText(t: Term): (s: string)
    requires DigitsOk(t.digits, Radix(t))
    ensures s != ""
  {
    SpacedText(t, "", "")
  }

  function TermValue(t: Term): nat {
    DigitsNumber(t.digits, Radix(t)) * UnitFactor(t.unit)
  }

  lemma DigitsShape(ds: seq<Digit>, radix: nat)
    requires (radix == 10 || radix == 16) && DigitsOk(ds, radix)
    ensures forall i :: 0 <= i < |ds| ==>
              var c := DigitsText(ds)[i]; !IsWhite(c) && !IsSign(c) && Scale(c) == 1 && c != 'x' && c != 'X'
  {
    hide DigitChar;
    forall i | 0 <= i < |ds|
      ensures var c := DigitsText(ds)[i]; !IsWhite(c) && !IsSign(c) && Scale(c) == 1 && c != 'x' && c != 'X'
    {
      DigitCharShape(ds[i], radix);
    }
  }

  lemma WhiteShape(s: string)
    requires AllWhite(s)
    ensures forall i :: 0 <= i < |s| ==> Scale(s[i]) == 1 && s[i] != '0' && s[i] != 'x' && s[i] != 'X'
  {
  }

  /** The part without the unit. */
  lemma BodyParses(t: Term, before: string, after: string)
    requires TermOk(t) && AllWhite(before) && AllWhite(after)
    ensures var body := PrefixText(t) + (before + DigitsText(t.digits) + after);
            && body != "" && Scale(body[|body| - 1]) == 1
            && (if StartsHex(body) then ParseRadix(TrimText(body[2..]), 16) else ParseRadix(TrimText(body), 10))
               == Some(DigitsNumber(t.digits, Radix(t)))
  {
    hide DigitsText, DigitsNumber, NumberOf, TrimText;
    var text := DigitsText(t.digits);
    var middle := before + text + after;
    var body := PrefixText(t) + middle;
    DigitsShape(t.digits, Radix(t));
    DigitsRead(t.digits, Radix(t));
    WhiteShape(before);
    WhiteShape(after);
    TrimTextPadded(before, text, after);
    assert middle[|middle| - 1] == if after == "" then text[|text| - 1] else after[|after| - 1];
    if t.hex {
      assert body[2..] == middle;
    } else {
      assert body == middle;
      NotHex(before, text, after);
    }
  }

  lemma NotHex(before: string, text: string, after: string)
    requires text != "" && forall i :: 0 <= i < |text| ==> text[i] != 'x' && text[i] != 'X'
    requires forall i :: 0 <= i < |before| ==> before[i] != '0'
    requires forall i :: 0 <= i < |after| ==> after[i] != 'x' && after[i] != 'X'
    ensures !StartsHex(before + text + after)
  {
    var s := before + text + after;
    if |s| >= 2 && before == "" {
      assert s[1] == if |text| > 1 then text[1] else after[0];
    }
  }

  lemma SpacedReads(t: Term, before: string, after: string)
    requires TermOk(t) && AllWhite(before) && AllWhite(after)
    ensures ParseTerm(SpacedText(t, before, after)) == Some(TermValue(t))
  {
    hide DigitsText, DigitsNumber, StartsHex, ParseRadix, TrimText;
    BodyParses(t, before, after);
    var body := PrefixText(t) + (before + DigitsText(t.digits) + after);
    var s := SpacedText(t, before, after);
    if t.unit.One? {
      assert s == body;
    } else {
      assert s[..|s| - 1] == body && Scale(s[|s| - 1]) == (if t.unit.Kilo? then 1024 else 1024 * 1024);
    }
  }

  ghost predicate IsTerm(s: string, v: nat) {
    exists t, before, after ::
      TermOk(t) && AllWhite(before) && AllWhite(after) && s == SpacedText(t, before, after) && v == TermValue(t)
  }

  lemma DigitsIn(middle: string, radix: nat) returns (ds: seq<Digit>, before: string, after: string)
    requires (radix == 10 || radix == 16) && ParseRadix(TrimText(middle), radix).Some?
    ensures DigitsOk(ds, radix) && (forall i :: 0 <= i < |ds| ==> ds[i].value < 16)
    ensures AllWhite(before) && AllWhite(after) && middle == before + DigitsText(ds) + after
    ensures ParseRadix(TrimText(middle), radix) == Some(DigitsNumber(ds, radix)) && DigitsNumber(ds, radix) <= I64_MAX
  {
    hide DigitsText, DigitsNumber, NumberOf, TrimText, AllWhite;
    before, after := TrimTextSplits(middle);
    ds := DigitsFound(TrimText(middle), radix);
    DigitsRead(ds, radix);
  }

  lemma BodyFound(body: string, unit: Unit, smallUnit: bool) returns (t: Term, before: string, after: string)
    requires if StartsHex(body) then ParseRadix(TrimText(body[2..]), 16).Some? else ParseRadix(TrimText(body), 10).Some?
    ensures TermOk(t) && AllWhite(before) && AllWhite(after) && t.unit == unit && t.smallUnit == smallUnit
    ensures body == PrefixText(t) + (before + DigitsText(t.digits) + after)
    ensures (if StartsHex(body) then ParseRadix(TrimText(body[2..]), 16) else ParseRadix(TrimText(body), 10))
            == Some(DigitsNumber(t.digits, Radix(t)))
  {
    hide DigitsText, DigitsNumber, ParseRadix, TrimText, AllWhite, DigitsOk;
    if StartsHex(body) {
      var ds;
      ds, before, after := DigitsIn(body[2..], 16);
      t := Term(true, body[1] == 'X', ds, unit, smallUnit);
      HexFront(body);
    } else {
      var ds;
      ds, before, after := DigitsIn(body, 10);
      t := Term(false, false, ds, unit, smallUnit);
      NoFront(body);
    }
  }

  lemma HexFront(body: string)
    requires StartsHex(body)
    ensures body == (if body[1] == 'X' then "0X" else "0x") + body[2..]
  {
  }

  lemma NoFront(body: string)
    ensures body == "" + body
  {
  }

  lemma TrimFront(s: string)
    requires s != "" && IsWhite(s[0])
    ensures TrimText(s) == TrimText(s[1..])
  {
  }

  lemma TrimBack(s: string)
    requires s != "" && !IsWhite(s[0]) && IsWhite(s[|s| - 1])
    ensures TrimText(s) == TrimText(s[..|s| - 1])
  {
  }

  lemma WhiteJoins(a: string, b: string)
    requires AllWhite(a) && AllWhite(b)
    ensures AllWhite(a + b)
  {
  }

  lemma {:induction false} TrimTextSplits(s: string) returns (before: string, after: string)
    ensures AllWhite(before) && AllWhite(after) && s == before + TrimText(s) + after
    decreases |s|
  {
    hide IsWhite;
    if s != "" && IsWhite(s[0]) {
      var front, rest := s[0], s[1..];
      before, after := TrimTextSplits(rest);
      TrimFront(s);
      WhiteJoins([front], before);
      hide TrimText, AllWhite;
      AssocText([front], before + TrimText(rest), after);
      AssocText([front], before, TrimText(rest));
      assert s == [front] + rest;
      before := [front] + before;
    } else if s != "" && IsWhite(s[|s| - 1]) {
      var back, rest := s[|s| - 1], s[..|s| - 1];
      before, after := TrimTextSplits(rest);
      TrimBack(s);
      WhiteJoins(after, [back]);
      hide TrimText, AllWhite;
      AssocText(before + TrimText(rest), after, [back]);
      assert s == rest + [back];
      after := after + [back];
    } else {
      before, after := "", "";
    }
  }

  /** A term is accepted with a value exactly when it is written as one: decimal digits, or hexadecimal ones in any mix
      of cases behind 0x or 0X, blanks around them, and a K or M of either case. */
  lemma TermIff(s: string, v: nat)
    ensures ParseTerm(s) == Some(v) <==> IsTerm(s, v)
  {
    if ParseTerm(s) == Some(v) {
      TermFound(s, v);
    }
    if t, before, after :|
      TermOk(t) && AllWhite(before) && AllWhite(after) && s == SpacedText(t, before, after) && v == TermValue(t)
    {
      SpacedReads(t, before, after);
    }
  }

  /** The number in the part without the unit. */
  function BodyNumber(body: string): Option<nat> {
    if StartsHex(body) then ParseRadix(TrimText(body[2..]), 16) else ParseRadix(TrimText(body), 10)
  }

  lemma UnitCut(s: string, v: nat) returns (body: string, unit: Unit, small: bool)
    requires ParseTerm(s) == Some(v)
    ensures s == body + UnitText(unit, small)
    ensures BodyNumber(body).Some? && v == BodyNumber(body).value * UnitFactor(unit)
  {
    hide StartsHex, ParseRadix, TrimText;
    if s == "" || Scale(s[|s| - 1]) == 1 {
      body, unit, small := s, One, false;
    } else {
      var c := s[|s| - 1];
      body, unit, small := s[..|s| - 1], if c == 'K' || c == 'k' then Kilo else Mega, c == 'k' || c == 'm';
    }
  }

  lemma TermFound(s: string, v: nat)
    requires ParseTerm(s) == Some(v)
    ensures IsTerm(s, v)
  {
    var body, unit, small := UnitCut(s, v);
    hide StartsHex, ParseRadix, TrimText, DigitsText, DigitsNumber, IsTerm, TermOk, AllWhite, UnitText, UnitFactor, PrefixText;
    var t, before, after := BodyFound(body, unit, small);
    TermAssembled(t, before, after, body, UnitText(unit, small));
  }

  lemma TermAssembled(t: Term, before: string, after: string, body: string, unit: string)
    requires TermOk(t) && AllWhite(before) && AllWhite(after)
    requires body == PrefixText(t) + (before + DigitsText(t.digits) + after) && unit == UnitText(t.unit, t.smallUnit)
    ensures IsTerm(body + unit, TermValue(t))
  {
    hide DigitsText, DigitsNumber;
    assert body + unit == SpacedText(t, before, after);
  }

  /** A written term is read back with its value, and holds no sign or blank that could break it up. */
  lemma TermReads(t: Term)
    requires TermOk(t)
    ensures ParseTerm(TermText(t)) == Some(TermValue(t))
    ensures var s := TermText(t); SignFree(s) && !IsWhite(s[0]) && !IsWhite(s[|s| - 1])
  {
    hide DigitsNumber, ParseTerm, DigitsText;
    SpacedReads(t, "", "");
    DigitsShape(t.digits, Radix(t));
    var text := DigitsText(t.digits);
    assert "" + text + "" == text;
    assert TermText(t) == PrefixText(t) + text + UnitText(t.unit, t.smallUnit);
  }

  /** One signed term with the blanks written around it. */
  datatype Signed = Signed(minus: bool, before: string, term: Term, after: string)

  function SignedText(t: Signed): string
    requires TermOk(t.term)
  {
    (if t.minus then "-" else "+") + (t.before + TermText(t.term) + t.after)
  }

  function SumText(terms: seq<Signed>): string
    requires forall i :: 0 <= i < |terms| ==> Printable(terms[i])
  {
    if terms == [] then ""
    else
      assert Printable(terms[|terms| - 1]);
      SumText(terms[..|terms| - 1]) + SignedText(terms[|terms| - 1])
  }

  function SumValue(terms: seq<Signed>): int {
    if terms == [] then 0
    else
      var last := terms[|terms| - 1];
      SumValue(terms[..|terms| - 1]) + (if last.minus then -1 else 1) * TermValue(last.term)
  }

  predicate Printable(t: Signed) {
    AllWhite(t.before) && AllWhite(t.after) && TermOk(t.term)
  }

  lemma PieceReads(t: Signed)
    requires Printable(t)
    ensures var piece := t.before + TermText(t.term) + t.after;
            SignFree(piece) && Contribution(piece) == Some(TermValue(t.term))
  {
    hide TermText, ParseTerm, TermValue, TrimText;
    TermReads(t.term);
    TrimTextPadded(t.before, TermText(t.term), t.after);
  }

  /** Any printed signed sum of decimal, hexadecimal, K and M terms evaluates to its value, with any blanks. */
  lemma {:induction false} SumReads(terms: seq<Signed>)
    requires forall i :: 0 <= i < |terms| ==> Printable(terms[i])
    ensures SumOf(SumText(terms)) == Some(SumValue(terms))
  {
    hide Contribution, TermText, TermValue;
    if terms == [] {
      EmptySum();
    } else {
      SumReads(terms[..|terms| - 1]);
      TermAppended(SumText(terms[..|terms| - 1]), terms[|terms| - 1]);
    }
  }

  lemma TermAppended(text: string, t: Signed)
    requires Printable(t) && SumOf(text).Some?
    ensures SumOf(text + SignedText(t)) == Some(SumOf(text).value + (if t.minus then -1 else 1) * TermValue(t.term))
  {
    hide Contribution, TermText, TermValue, SumOf, SignEnd;
    PieceReads(t);
    var sign := if t.minus then "-" else "+";
    var left, piece := text + sign, t.before + TermText(t.term) + t.after;
    SignEndAt(left, piece);
    SumSplit(left, piece);
    AssocText(text, sign, piece);
    assert left[..|left| - 1] == text;
  }

  /** The plus in front of a first term may be left out. */
  lemma {:induction false} LeadingPlus(s: string)
    ensures SumOf("+" + s) == SumOf(s)
    decreases |s|
  {
    hide Contribution, SumOf, SignEnd;
    var n := SignEnd(s);
    var left, piece := s[..n], s[n..];
    assert s == left + piece;
    AssocText("+", left, piece);
    SignEndAt("+" + left, piece);
    SumSplit("+" + left, piece);
    if n > 0 {
      SumSplit(left, piece);
      LeadingPlus(left[..n - 1]);
      assert ("+" + left)[..n] == "+" + left[..n - 1];
    } else {
      EmptySum();
      OnePiece(s);
      assert ("+" + left)[..n] == "";
    }
  }

  lemma OnePiece(s: string)
    requires SignEnd(s) == 0
    ensures SumOf(s) == Contribution(s)
  {
  }

  lemma AssocText(a: string, b: string, c: string)
    ensures a + (b + c) == a + b + c
  {
  }

  lemma SumSplit(left: string, piece: string)
    requires left != "" && SignEnd(left + piece) == |left|
    ensures SumOf(left + piece) ==
            if SumOf(left[..|left| - 1]).None? || Contribution(piece).None? then None
            else Some(SumOf(left[..|left| - 1]).value + SignOf(left[|left| - 1]) * Contribution(piece).value)
  {
    hide Contribution;
    var s := left + piece;
    assert s[|left|..] == piece && s[..|left| - 1] == left[..|left| - 1];
  }

  lemma EmptySum()
    ensures SumOf("") == Some(0)
  {
  }

  /** So `eval_expr` returns the value itself whenever it fits 32 bits. */
  lemma EvalsToValue(terms: seq<Signed>)
    requires forall i :: 0 <= i < |terms| ==> Printable(terms[i])
    requires 0 <= SumValue(terms) < U32
    ensures SumOf(SumText(terms)).Some? && SumOf(SumText(terms)).value % U32 == SumValue(terms)
  {
    hide SumOf, SumText, SumValue, Printable;
    SumReads(terms);
  }

  // ---- Malformed expressions ----

  /** A stretch between two signs, or an end of the text. */
  predicate IsPiece(s: string, i: int, j: int) {
    && 0 <= i <= j <= |s| && SignFree(s[i..j])
    && (i == 0 || IsSign(s[i - 1])) && (j == |s| || IsSign(s[j]))
  }

  ghost predicate BadPiece(s: string, i: int, j: int) {
    IsPiece(s, i, j) && TrimText(s[i..j]) != "" && forall v: nat :: !IsTerm(TrimText(s[i..j]), v)
  }

  lemma ContributionIff(piece: string)
    ensures Contribution(piece).None? <==> TrimText(piece) != "" && forall v: nat :: !IsTerm(TrimText(piece), v)
  {
    hide ParseTerm, IsTerm;
    var text := TrimText(piece);
    if ParseTerm(text).Some? {
      TermIff(text, ParseTerm(text).value);
    }
    forall v: nat ensures ParseTerm(text) == Some(v) <==> IsTerm(text, v) {
      TermIff(text, v);
    }
  }

  lemma {:induction false} BadSpoils(s: string, i: int, j: int)
    requires BadPiece(s, i, j)
    ensures SumOf(s).None?
    decreases |s|
  {
    hide Contribution, BadPiece;
    PieceWhere(s, i, j);
    LastPiece(s);
    if j < SignEnd(s) {
      PieceKept(s, i, j);
      BadSpoils(s[..SignEnd(s) - 1], i, j);
    }
  }

  lemma {:induction false} BadFound(s: string) returns (i: int, j: int)
    requires SumOf(s).None?
    ensures BadPiece(s, i, j)
    decreases |s|
  {
    hide Contribution, BadPiece;
    LastPiece(s);
    var n := SignEnd(s);
    if Contribution(s[n..]).None? {
      i, j := n, |s|;
    } else {
      i, j := BadFound(s[..n - 1]);
      PieceKept(s, i, j);
    }
  }

  /** An expression is malformed exactly when some stretch between its signs is neither blank nor a term. */
  lemma MalformedIff(s: string)
    ensures SumOf(s).None? <==> exists i, j :: BadPiece(s, i, j)
  {
    hide *;
    if SumOf(s).None? {
      var i, j := BadFound(s);
    }
    if i, j :| BadPiece(s, i, j) {
      BadSpoils(s, i, j);
    }
  }

  /** The stretch behind the last sign. */
  lemma LastPiece(s: string)
    ensures Contribution(s[SignEnd(s)..]).None? <==> BadPiece(s, SignEnd(s), |s|)
  {
    hide Contribution, IsTerm, TrimText;
    var n := SignEnd(s);
    assert s[n..] == s[n..|s|];
    ContributionIff(s[n..]);
  }

  /** Stretches in front of the last sign are those of the text before it. */
  lemma PieceKept(s: string, i: int, j: int)
    requires SignEnd(s) > 0
    ensures j < SignEnd(s) ==> (BadPiece(s, i, j) <==> BadPiece(s[..SignEnd(s) - 1], i, j))
    ensures BadPiece(s[..SignEnd(s) - 1], i, j) ==> j < SignEnd(s)
  {
    hide IsTerm, TrimText, IsSign;
    var n := SignEnd(s);
    if 0 <= i <= j < n {
      assert s[..n - 1][i..j] == s[i..j];
    }
  }

  /** A piece is the last one or ends in front of the last sign. */
  lemma PieceWhere(s: string, i: int, j: int)
    requires BadPiece(s, i, j)
    ensures (i == SignEnd(s) && j == |s|) || 0 <= j < SignEnd(s)
  {
    hide IsSign, IsTerm, TrimText;
    forall k | i <= k < j ensures !IsSign(s[k]) {
      assert s[i..j][k - i] == s[k];
    }
  }
}
