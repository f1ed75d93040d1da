/** The partition table of memory.x: reading the MEMORY block and the checks that guard the build. */
module Partition {
  import opened Bytes
  import opened MemoryMap

  const FLASH_BASE: nat := 0x1000_0000
  const FLASH_END: nat := 0x1000_0000 + 2 * 1024 * 1024
  const PAGE_BYTES: nat := 4096

  datatype Region = Region(origin: nat, length: nat)

  function End(r: Region): nat {
    r.origin + r.length
  }

  // ---- Reading ----

  /** `split_once`: around the first occurrence. */
  function SplitOnce(s: string, pat: string): Option<(string, string)>
    requires pat != ""
  {
    if |s| < |pat| then None
    else if s[..|pat|] == pat then Some(("", s[|pat|..]))
    else
      var r := SplitOnce(s[1..], pat);
      if r.None? then None else Some(([s[0]] + r.value.0, r.value.1))
  }

  /** The text is cut around an occurrence that has none before it. */
  ghost predicate FirstAt(s: string, pat: string, before: string, after: string) {
    s == before + pat + after && forall i :: 0 <= i < |before| ==> !OccursAt(s, pat, i)
  }

  lemma SplitOnceIff(s: string, pat: string, before: string, after: string)
    requires pat != ""
    ensures SplitOnce(s, pat) == Some((before, after)) <==> FirstAt(s, pat, before, after)
  {
    if SplitOnce(s, pat).Some? {
      SplitsFirst(s, pat);
      var (b, a) := SplitOnce(s, pat).value;
      if FirstAt(s, pat, before, after) {
        FirstOnce(s, pat, before, after, b, a);
      }
    } else if FirstAt(s, pat, before, after) {
      assert s[|before|..|before| + |pat|] == pat;
      assert OccursAt(s, pat, |before|);
      MentionsIff(s, pat);
    }
  }

  lemma {:induction false} SplitsFirst(s: string, pat: string)
    requires pat != "" && SplitOnce(s, pat).Some?
    ensures FirstAt(s, pat, SplitOnce(s, pat).value.0, SplitOnce(s, pat).value.1)
  {
    var (before, after) := SplitOnce(s, pat).value;
    if s[..|pat|] == pat {
      assert s == "" + pat + s[|pat|..];
    } else {
      var rest := s[1..];
      SplitsFirst(rest, pat);
      var (b, a) := SplitOnce(rest, pat).value;
      assert s == [s[0]] + rest && before == [s[0]] + b;
      assert s == before + pat + after;
      forall i | 0 <= i < |before| ensures !OccursAt(s, pat, i) {
        if i > 0 {
          assert !OccursAt(rest, pat, i - 1);
          assert i + |pat| <= |s| ==> s[i..i + |pat|] == rest[i - 1..i - 1 + |pat|];
        }
      }
    }
  }

  lemma FirstOnce(s: string, pat: string, b: string, a: string, d: string, c: string)
    requires pat != "" && FirstAt(s, pat, b, a) && FirstAt(s, pat, d, c)
    ensures b == d && a == c
  {
    assert s[|b|..|b| + |pat|] == pat && s[|d|..|d| + |pat|] == pat;
    assert OccursAt(s, pat, |b|) && OccursAt(s, pat, |d|);
    assert |b| == |d|;
    assert b == s[..|b|] && d == s[..|d|] && a == s[|b| + |pat|..] && c == s[|d| + |pat|..];
  }

  lemma {:induction false} SplitOnceAt(left: string, pat: string, right: string)
    requires pat != "" && pat[0] !in left
    ensures SplitOnce(left + pat + right, pat) == Some((left, right))
  {
    var s := left + pat + right;
    if left == "" {
      assert s == pat + right;
      assert s[..|pat|] == pat && s[|pat|..] == right;
    } else {
      assert s[..|pat|][0] == left[0];
      assert s[1..] == left[1..] + pat + right;
      SplitOnceAt(left[1..], pat, right);
      assert left == [left[0]] + left[1..];
    }
  }

  /** The part before the first comma. */
  function BeforeComma(s: string): string {
    if s == "" || s[0] == ',' then "" else [s[0]] + BeforeComma(s[1..])
  }

  lemma {:induction false} BeforeCommaAt(left: string, right: string)
    requires ',' !in left && (right == "" || right[0] == ',')
    ensures BeforeComma(left + right) == left
  {
    if left != "" {
      BeforeCommaAt(left[1..], right);
      assert (left + right)[1..] == left[1..] + right;
      assert left == [left[0]] + left[1..];
    } else {
      assert left + right == right;
    }
  }

  /** What reading a value came to: no such key, a panic on its expression, or the value. */
  datatype Reading = Absent | Panic | Value(n: nat)

  /** `value_after`. */
  function ValueAfter(rest: string, key: string): Reading
    requires key != ""
  {
    var keyed := SplitOnce(rest, key);
    if keyed.None? then Absent else
      var equated := SplitOnce(keyed.value.1, "=");
      if equated.None? then Absent else
        var sum := SumOf(BeforeComma(equated.value.1));
        if sum.None? then Panic else Value(sum.value % U32)
  }

  /** The expression of a key: behind the first equals sign behind the key's first occurrence, up to a comma. */
  ghost predicate Equated(rest: string, key: string, expr: string) {
    exists before, between, tail ::
      FirstAt(rest, key, before, between + "=" + tail) && '=' !in between && UpToComma(tail, expr)
  }

  ghost predicate UpToComma(tail: string, expr: string) {
    ',' !in expr && (tail == expr || exists more :: tail == expr + "," + more)
  }

  /** The value a key is given, as 32 bits. */
  ghost predicate Gives(rest: string, key: string, n: nat) {
    exists expr :: Equated(rest, key, expr) && SumOf(expr).Some? && n == SumOf(expr).value % U32
  }

  ghost predicate Garbles(rest: string, key: string) {
    exists expr :: Equated(rest, key, expr) && SumOf(expr).None?
  }

  ghost predicate Lacks(rest: string, key: string) {
    forall expr :: !Equated(rest, key, expr)
  }

  lemma {:induction false} BeforeCommaIs(tail: string)
    ensures UpToComma(tail, BeforeComma(tail))
  {
    if tail != "" && tail[0] != ',' {
      var rest := tail[1..];
      BeforeCommaIs(rest);
      var expr := BeforeComma(rest);
      assert tail == [tail[0]] + rest;
      if more :| rest == expr + "," + more {
        assert tail == [tail[0]] + expr + "," + more;
      }
    } else if tail != "" {
      assert tail == "" + "," + tail[1..];
    }
  }

  lemma BeforeCommaIff(tail: string, expr: string)
    ensures BeforeComma(tail) == expr <==> UpToComma(tail, expr)
  {
    hide BeforeComma;
    BeforeCommaIs(tail);
    if UpToComma(tail, expr) {
      if tail == expr {
        BeforeCommaAt(expr, "");
        assert expr + "" == tail;
      } else {
        var more :| tail == expr + "," + more;
        BeforeCommaAt(expr, "," + more);
        assert expr + ("," + more) == tail;
      }
    }
  }

  lemma EqualsIff(s: string, between: string, tail: string)
    ensures SplitOnce(s, "=") == Some((between, tail)) <==> s == between + "=" + tail && '=' !in between
  {
    hide SplitOnce;
    SplitOnceIff(s, "=", between, tail);
    if s == between + "=" + tail {
      forall i | 0 <= i < |between| ensures OccursAt(s, "=", i) <==> between[i] == '=' {
        assert s[i..i + 1] == [between[i]];
      }
    }
  }

  /** The one expression a key can have. */
  lemma EquatedIff(rest: string, key: string, expr: string)
    requires key != ""
    ensures Equated(rest, key, expr) <==>
            var keyed := SplitOnce(rest, key);
            keyed.Some? && var equated := SplitOnce(keyed.value.1, "=");
            equated.Some? && BeforeComma(equated.value.1) == expr
  {
    hide SplitOnce, BeforeComma, FirstAt, UpToComma;
    var keyed := SplitOnce(rest, key);
    if keyed.Some? {
      SplitOnceIff(rest, key, keyed.value.0, keyed.value.1);
      var equated := SplitOnce(keyed.value.1, "=");
      if equated.Some? {
        EqualsIff(keyed.value.1, equated.value.0, equated.value.1);
        BeforeCommaIff(equated.value.1, expr);
      }
    }
    if before, between, tail :|
      FirstAt(rest, key, before, between + "=" + tail) && '=' !in between && UpToComma(tail, expr)
    {
      SplitOnceIff(rest, key, before, between + "=" + tail);
      EqualsIff(between + "=" + tail, between, tail);
      BeforeCommaIff(tail, expr);
    }
  }

  /** What a key comes to: nothing, a panic, or the value of its expression. */
  lemma ValueIff(rest: string, key: string, n: nat)
    requires key != ""
    ensures ValueAfter(rest, key) == Absent <==> Lacks(rest, key)
    ensures ValueAfter(rest, key) == Panic <==> Garbles(rest, key)
    ensures ValueAfter(rest, key) == Value(n) <==> Gives(rest, key, n)
  {
    hide SplitOnce, BeforeComma, Equated, SumOf;
    forall expr ensures Equated(rest, key, expr) <==>
            var keyed := SplitOnce(rest, key);
            keyed.Some? && var equated := SplitOnce(keyed.value.1, "=");
            equated.Some? && BeforeComma(equated.value.1) == expr
    {
      EquatedIff(rest, key, expr);
    }
    var keyed := SplitOnce(rest, key);
    if keyed.Some? && SplitOnce(keyed.value.1, "=").Some? {
      assert Equated(rest, key, BeforeComma(SplitOnce(keyed.value.1, "=").value.1));
    }
  }

  datatype LineResult = Skip | Malformed | Entry(name: string, region: Region)

  /** One line of the MEMORY block. */
  function LineOf(line: string): LineResult {
    var named := SplitOnce(line, ":");
    if named.None? || TrimText(named.value.0) == "" then Skip
    else
      var origin := ValueAfter(named.value.1, "ORIGIN");
      if origin.Absent? then Skip
      else if origin.Panic? then Malformed
      else
        var length := ValueAfter(named.value.1, "LENGTH");
        if length.Absent? then Skip
        else if length.Panic? then Malformed
        else Entry(TrimText(named.value.0), Region(origin.n, length.n))
  }

  /** A line with a name that is not blank in front of its first colon. */
  ghost predicate NamedLine(line: string, name: string, rest: string) {
    name != "" && exists before :: FirstAt(line, ":", before, rest) && TrimText(before) == name
  }

  /** What a line says, by its parts: it declares a region when it has a name and both keys have values; it stops the
      build when the first of the two keys whose expression is malformed comes before any missing one; every other line
      says nothing. */
  lemma LineIff(line: string, name: string, region: Region)
    ensures LineOf(line) == Entry(name, region) <==>
            exists rest :: NamedLine(line, name, rest) && Gives(rest, "ORIGIN", region.origin) && Gives(rest, "LENGTH", region.length)
    ensures LineOf(line) == Malformed <==>
            exists n, rest :: NamedLine(line, n, rest) && Stops(rest)
  {
    hide SplitOnce, ValueAfter, Gives, Garbles, Lacks, TrimText, FirstAt;
    var named := SplitOnce(line, ":");
    if named.Some? {
      var (before, rest) := named.value;
      SplitOnceIff(line, ":", before, rest);
      ValueIff(rest, "ORIGIN", region.origin);
      ValueIff(rest, "LENGTH", region.length);
      if TrimText(before) != "" {
        assert NamedLine(line, TrimText(before), rest);
      }
    }
    forall n, rest | NamedLine(line, n, rest) ensures named.Some? && rest == named.value.1 && TrimText(named.value.0) == n {
      var before :| FirstAt(line, ":", before, rest) && TrimText(before) == n;
      SplitOnceIff(line, ":", before, rest);
    }
  }

  /** The origin's expression is malformed, or it has a value and the length's is malformed. */
  ghost predicate Stops(rest: string) {
    Garbles(rest, "ORIGIN") || (!Lacks(rest, "ORIGIN") && Garbles(rest, "LENGTH"))
  }

  /** The table the lines declare: a later line for the same name replaces an earlier one. */
  function TableOf(lines: seq<string>): Option<map<string, Region>> {
    if lines == [] then Some(map[])
    else
      var before := TableOf(lines[..|lines| - 1]);
      if before.None? then None
      else
        match LineOf(lines[|lines| - 1])
        case Skip => before
        case Malformed => None
        case Entry(name, region) => Some(before.value[name := region])
  }

  lemma {:induction false} TableFails(lines: seq<string>, k: nat)
    requires k <= |lines| && TableOf(lines[..k]).None?
    ensures TableOf(lines).None?
  {
    if k < |lines| {
      assert lines[..|lines| - 1][..k] == lines[..k];
      TableFails(lines[..|lines| - 1], k);
    } else {
      assert lines[..k] == lines;
    }
  }

  /** The line loop of `parse_memory_x`. */
  method ParseLines(lines: seq<string>) returns (r: Option<map<string, Region>>)
    ensures r == TableOf(lines)
  {
    hide LineOf;
    var regions: map<string, Region> := map[];
    for k := 0 to |lines|
      invariant TableOf(lines[..k]) == Some(regions)
    {
      assert lines[..k + 1][..k] == lines[..k];
      match LineOf(lines[k])
      case Skip =>
      case Malformed =>
        TableFails(lines, k + 1);
        return None;
      case Entry(name, region) => regions := regions[name := region];
    }
    assert lines[..|lines|] == lines;
    r := Some(regions);
  }

  function WithoutCr(line: string): string {
    if line != "" && line[|line| - 1] == '\r' then line[..|line| - 1] else line
  }

  /** `lines`: the pieces between newlines, each without a carriage return at its end. An empty last piece, which
      `lines` drops, declares nothing. */
  function LinesOf(s: string): (lines: seq<string>)
    ensures lines != []
  {
    if s == "" then [""]
    else
      var before := LinesOf(s[..|s| - 1]);
      var c := s[|s| - 1];
      if c == '\n' then before[..|before| - 1] + [WithoutCr(before[|before| - 1]), ""]
      else before[..|before| - 1] + [before[|before| - 1] + [c]]
  }

  /** `parse_memory_x`: the table in the braces behind the first "MEMORY", comments gone; `None` is the panic. */
  function TableIn(text: string): Option<map<string, Region>> {
    var memory := SplitOnce(Strip(text), "MEMORY");
    if memory.None? then None else
      var open := SplitOnce(memory.value.1, "{");
      if open.None? then None else
        var close := SplitOnce(open.value.1, "}");
        if close.None? then None else TableOf(LinesOf(close.value.0))
  }

  method ParseMemoryX(text: string) returns (r: Option<map<string, Region>>)
    ensures r == TableIn(text)
  {
    var stripped := StripComments(text);
    var memory := SplitOnce(stripped, "MEMORY");
    if memory.None? {
      return None;
    }
    var open := SplitOnce(memory.value.1, "{");
    if open.None? {
      return None;
    }
    var close := SplitOnce(open.value.1, "}");
    if close.None? {
      return None;
    }
    r := ParseLines(LinesOf(close.value.0));
  }

  /** A line as the file writes it. */
  function RegionLine(name: string, origin: string, length: string): string {
    name + ":" + (" ORIGIN =" + origin + ", LENGTH =" + length)
  }

  predicate PlainText(s: string) {
    forall i :: 0 <= i < |s| ==> s[i] != ',' && s[i] != 'L' && s[i] != '='
  }

  /** A written region line is read back as that region, whatever sums its two expressions are. */
  lemma RegionLineReads(name: string, origin: string, length: string)
    requires ':' !in name && TrimText(name) != "" && PlainText(origin) && PlainText(length)
    requires SumOf(origin).Some? && SumOf(length).Some?
    ensures LineOf(RegionLine(name, origin, length)) ==
            Entry(TrimText(name), Region(SumOf(origin).value % U32, SumOf(length).value % U32))
  {
    hide SumOf, TrimText, SplitOnce, BeforeComma, PlainText;
    var rest := " ORIGIN =" + origin + ", LENGTH =" + length;
    SplitOnceAt(name, ":", rest);
    OriginReads(origin, ", LENGTH =" + length);
    assert rest == " ORIGIN =" + origin + (", LENGTH =" + length);
    LengthReads(origin, length);
  }

  lemma OriginReads(origin: string, after: string)
    requires PlainText(origin) && SumOf(origin).Some? && after != "" && after[0] == ','
    ensures ValueAfter(" ORIGIN =" + origin + after, "ORIGIN") == Value(SumOf(origin).value % U32)
  {
    hide SumOf, SplitOnce, BeforeComma;
    SplitOnceAt(" ", "ORIGIN", " =" + (origin + after));
    assert " ORIGIN =" + origin + after == " " + "ORIGIN" + (" =" + (origin + after));
    SplitOnceAt(" ", "=", origin + after);
    assert " =" + (origin + after) == " " + "=" + (origin + after);
    BeforeCommaAt(origin, after);
  }

  lemma LengthReads(origin: string, length: string)
    requires PlainText(origin) && PlainText(length) && SumOf(length).Some?
    ensures ValueAfter(" ORIGIN =" + origin + ", LENGTH =" + length, "LENGTH") == Value(SumOf(length).value % U32)
  {
    hide SumOf, SplitOnce, BeforeComma;
    var left := " ORIGIN =" + origin + ", ";
    SplitOnceAt(left, "LENGTH", " =" + length);
    assert " ORIGIN =" + origin + ", LENGTH =" + length == left + "LENGTH" + (" =" + length);
    SplitOnceAt(" ", "=", length);
    assert " =" + length == " " + "=" + length;
    BeforeCommaAt(length, "");
    assert length + "" == length;
  }

  /** Written lines are split at the newlines they were written with. */
  function Written(lines: seq<string>): string {
    if lines == [] then "" else Written(lines[..|lines| - 1]) + lines[|lines| - 1] + "\n"
  }

  predicate IsLine(line: string) {
    '\n' !in line && (line == "" || line[|line| - 1] != '\r')
  }

  lemma LinesAdded(s: string, c: char)
    ensures var before := LinesOf(s);
            LinesOf(s + [c]) ==
            if c == '\n' then before[..|before| - 1] + [WithoutCr(before[|before| - 1]), ""]
            else before[..|before| - 1] + [before[|before| - 1] + [c]]
  {
    assert (s + [c])[..|s|] == s;
  }

  lemma {:induction false} LineGrows(s: string, lines: seq<string>, line: string)
    requires LinesOf(s) == lines + [""] && '\n' !in line
    ensures LinesOf(s + line) == lines + [line]
  {
    hide LinesOf;
    if line == "" {
      assert s + line == s;
    } else {
      var init, c := line[..|line| - 1], line[|line| - 1];
      LineGrows(s, lines, init);
      LinesAdded(s + init, c);
      assert line == init + [c];
      AssocText(s, init, [c]);
      assert (lines + [init])[..|lines|] == lines;
    }
  }

  lemma LineEnded(s: string, lines: seq<string>, line: string)
    requires LinesOf(s) == lines + [""] && IsLine(line)
    ensures LinesOf(s + line + "\n") == lines + [line] + [""]
  {
    hide LinesOf;
    var all := lines + [line];
    LineGrows(s, lines, line);
    LinesAdded(s + line, '\n');
    assert all[..|all| - 1] == lines && WithoutCr(line) == line;
    assert lines + [line, ""] == all + [""];
  }

  lemma {:induction false} WrittenSplits(lines: seq<string>)
    requires forall i :: 0 <= i < |lines| ==> IsLine(lines[i])
    ensures LinesOf(Written(lines)) == lines + [""]
  {
    if lines != [] {
      hide LinesOf, IsLine;
      var init, last := lines[..|lines| - 1], lines[|lines| - 1];
      WrittenSplits(init);
      LineEnded(Written(init), init, last);
      assert lines == init + [last];
    }
  }

  /** A file without comments: something before the MEMORY block, its lines, something behind. */
  function FileText(before: string, between: string, lines: seq<string>, behind: string): string {
    before + "MEMORY" + (between + "{" + (Written(lines) + "}" + behind))
  }

  /** A whole file reads back as the table its region lines declare, whatever comments it holds and where, and whatever
      free of a capital M stands before the block and of braces inside it. */
  lemma FileReads(text: string, before: string, between: string, lines: seq<string>, behind: string)
    requires Strip(text) == FileText(before, between, lines, behind)
    requires 'M' !in before && '{' !in between && '}' !in Written(lines)
    requires forall i :: 0 <= i < |lines| ==> IsLine(lines[i])
    ensures TableIn(text) == TableOf(lines)
  {
    hide SplitOnce, TableOf, Written, LinesOf, Strip;
    SplitOnceAt(before, "MEMORY", between + "{" + (Written(lines) + "}" + behind));
    SplitOnceAt(between, "{", Written(lines) + "}" + behind);
    SplitOnceAt(Written(lines), "}", behind);
    WrittenSplits(lines);
    EmptyLineSkipped(lines);
  }

  /** So does a file that opens with a block comment, as the bootloader's does. */
  lemma CommentedFileReads(comment: string, before: string, between: string, lines: seq<string>, behind: string)
    requires forall i :: !ClosesBlock(comment + "*", i)
    requires CommentFree(FileText(before, between, lines, behind))
    requires 'M' !in before && '{' !in between && '}' !in Written(lines)
    requires forall i :: 0 <= i < |lines| ==> IsLine(lines[i])
    ensures TableIn("/*" + comment + "*/" + FileText(before, between, lines, behind)) == TableOf(lines)
  {
    hide Strip, CommentFree, TableIn, TableOf, FileText, Written;
    var file := FileText(before, between, lines, behind);
    NothingFree();
    StripBlock("", comment, file);
    assert "" + ("/*" + comment + "*/" + file) == "/*" + comment + "*/" + file && "" + Strip(file) == Strip(file);
    CommentFreeStays(file);
    FileReads("/*" + comment + "*/" + file, before, between, lines, behind);
  }

  lemma NothingFree()
    ensures CommentFree("")
  {
  }

  lemma EmptyLineSkipped(lines: seq<string>)
    ensures TableOf(lines + [""]) == TableOf(lines)
  {
  }

  // ---- The table a written block declares ----

  /** A line of the block: blank, or the declaration of a region. */
  datatype BlockLine = Blank(text: string) | Declares(name: string, origin: string, length: string)

  function LineText(l: BlockLine): string {
    match l
    case Blank(text) => text
    case Declares(name, origin, length) => RegionLine(name, origin, length)
  }

  function LineTexts(ls: seq<BlockLine>): (texts: seq<string>)
    ensures |texts| == |ls|
  {
    seq(|ls|, i requires 0 <= i < |ls| => LineText(ls[i]))
  }

  predicate WellWritten(l: BlockLine) {
    && IsLine(LineText(l)) && '}' !in LineText(l)
    && match l
       case Blank(text) => AllWhite(text)
       case Declares(name, origin, length) =>
         && ':' !in name && TrimText(name) != "" && PlainText(origin) && PlainText(length)
         && SumOf(origin).Some? && SumOf(length).Some?
  }

  predicate Names(l: BlockLine, name: string) {
    l.Declares? && TrimText(l.name) == name
  }

  /** The table has just the declared names, each with the origin and the length of the last line declaring it. */
  ghost predicate Declared(ls: seq<BlockLine>, regions: map<string, Region>) {
    && (forall name :: name in regions <==> exists i :: 0 <= i < |ls| && Names(ls[i], name))
    && (forall i, name | LastNaming(ls, i, name) && SumOf(ls[i].origin).Some? && SumOf(ls[i].length).Some? ::
          name in regions && regions[name].origin == SumOf(ls[i].origin).value % U32
          && regions[name].length == SumOf(ls[i].length).value % U32)
  }

  predicate LastNaming(ls: seq<BlockLine>, i: int, name: string) {
    0 <= i < |ls| && Names(ls[i], name) && forall j :: i < j < |ls| ==> !Names(ls[j], name)
  }

  lemma BlankSkipped(text: string)
    requires AllWhite(text)
    ensures LineOf(text) == Skip
  {
    MentionsIff(text, ":");
    forall i ensures !OccursAt(text, ":", i) {
      assert OccursAt(text, ":", i) ==> text[i..i + 1][0] == ':';
      assert 0 <= i < |text| ==> IsWhite(text[i]);
    }
  }

  lemma {:induction false} TableDeclared(ls: seq<BlockLine>)
    requires forall i :: 0 <= i < |ls| ==> WellWritten(ls[i])
    ensures TableOf(LineTexts(ls)).Some? && Declared(ls, TableOf(LineTexts(ls)).value)
  {
    hide LineOf, SumOf, TrimText, IsLine, PlainText, RegionLine;
    if ls == [] {
      assert LineTexts(ls) == [];
    } else {
      var init, last := ls[..|ls| - 1], ls[|ls| - 1];
      TableDeclared(init);
      var texts := LineTexts(ls);
      assert texts[..|texts| - 1] == LineTexts(init) && texts[|texts| - 1] == LineText(last);
      assert WellWritten(last);
      LineAdded(init, last, TableOf(LineTexts(init)).value);
      assert ls == init + [last];
    }
  }

  /** What one more line does to the table. */
  function WithLine(regions: map<string, Region>, line: string): Option<map<string, Region>> {
    match LineOf(line)
    case Skip => Some(regions)
    case Malformed => None
    case Entry(name, region) => Some(regions[name := region])
  }

  lemma LineAdded(ls: seq<BlockLine>, l: BlockLine, regions: map<string, Region>)
    requires Declared(ls, regions) && WellWritten(l)
    ensures WithLine(regions, LineText(l)).Some? && Declared(ls + [l], WithLine(regions, LineText(l)).value)
  {
    hide LineOf, SumOf, TrimText, IsLine, PlainText, RegionLine;
    var all := ls + [l];
    assert all[|ls|] == l && forall i :: 0 <= i < |ls| ==> all[i] == ls[i];
    if l.Blank? {
      BlankSkipped(l.text);
    } else {
      RegionLineReads(l.name, l.origin, l.length);
    }
    var after := WithLine(regions, LineText(l)).value;
    forall i, name | LastNaming(all, i, name) && SumOf(all[i].origin).Some? && SumOf(all[i].length).Some?
      ensures name in after && after[name].origin == SumOf(all[i].origin).value % U32
              && after[name].length == SumOf(all[i].length).value % U32
    {
      if i < |ls| {
        assert !Names(all[|ls|], name);
        assert LastNaming(ls, i, name);
      }
    }
    forall name ensures name in after <==> exists i :: 0 <= i < |all| && Names(all[i], name) {
      if name in regions {
        var i :| 0 <= i < |ls| && Names(ls[i], name);
        assert Names(all[i], name);
      }
      assert Names(l, name) ==> Names(all[|ls|], name);
    }
  }

  /** The table of a whole file, without reference to how it is read: its names are the declared ones, and each has the
      origin and the length of its last declaration, whatever blank lines stand between and whatever comments anywhere. */
  lemma RegionsRead(text: string, before: string, between: string, ls: seq<BlockLine>, behind: string)
    requires Strip(text) == FileText(before, between, LineTexts(ls), behind)
    requires 'M' !in before && '{' !in between && forall i :: 0 <= i < |ls| ==> WellWritten(ls[i])
    ensures TableIn(text).Some? && Declared(ls, TableIn(text).value)
  {
    hide Strip, FileText, TableIn, TableOf, Declared, Written;
    TableDeclared(ls);
    var texts := LineTexts(ls);
    assert forall i :: 0 <= i < |texts| ==> IsLine(texts[i]) && '}' !in texts[i] by {
      assert forall i :: 0 <= i < |ls| ==> WellWritten(ls[i]);
    }
    NoBrace(texts);
    FileReads(text, before, between, texts, behind);
  }

  lemma {:induction false} NoBrace(lines: seq<string>)
    requires forall i :: 0 <= i < |lines| ==> '}' !in lines[i]
    ensures '}' !in Written(lines)
  {
    if lines != [] {
      NoBrace(lines[..|lines| - 1]);
    }
  }

  // ---- The checks ----

  function Partitions(): seq<string> {
    ["BOOT2", "FLASH", "ACTIVE", "DFU", "STATE"]
  }

  datatype Problem =
    | Unreadable
    | MissingSymbol
    | AbsoluteSymbol
    | MissingRegion
    | PastFlashEnd
    | Unaligned
    | DfuNotBehindActive
    | DfuNotOnePageLarger
    | Overlap

  predicate HasAll(regions: map<string, Region>) {
    "BOOT2" in regions && "FLASH" in regions && "ACTIVE" in regions && "DFU" in regions && "STATE" in regions
  }

  function Listed(regions: map<string, Region>): (rs: seq<Region>)
    requires HasAll(regions)
    ensures |rs| == 5
    ensures forall i :: 0 <= i < 5 ==> Partitions()[i] in regions && rs[i] == regions[Partitions()[i]]
  {
    [regions["BOOT2"], regions["FLASH"], regions["ACTIVE"], regions["DFU"], regions["STATE"]]
  }

  /** Insert behind the regions that start no later: what a stable sort by origin does. */
  function Insert(r: Region, sorted: seq<Region>): seq<Region> {
    if sorted == [] || sorted[|sorted| - 1].origin <= r.origin then sorted + [r]
    else Insert(r, sorted[..|sorted| - 1]) + [sorted[|sorted| - 1]]
  }

  function SortByOrigin(rs: seq<Region>): seq<Region> {
    if rs == [] then [] else Insert(rs[|rs| - 1], SortByOrigin(rs[..|rs| - 1]))
  }

  predicate SortedByOrigin(rs: seq<Region>) {
    forall i, j :: 0 <= i < j < |rs| ==> rs[i].origin <= rs[j].origin
  }

  lemma {:induction false} InsertKeeps(r: Region, sorted: seq<Region>)
    ensures multiset(Insert(r, sorted)) == multiset(sorted) + multiset{r}
  {
    if sorted != [] && sorted[|sorted| - 1].origin > r.origin {
      var init, last := sorted[..|sorted| - 1], sorted[|sorted| - 1];
      InsertKeeps(r, init);
      assert sorted == init + [last];
    }
  }

  lemma {:induction false} InsertSorts(r: Region, sorted: seq<Region>)
    requires SortedByOrigin(sorted)
    ensures SortedByOrigin(Insert(r, sorted))
  {
    if sorted != [] && sorted[|sorted| - 1].origin > r.origin {
      var init, last := sorted[..|sorted| - 1], sorted[|sorted| - 1];
      InsertSorts(r, init);
      InsertKeeps(r, init);
      BelowLast(Insert(r, init), init, r, last);
    }
  }

  lemma BelowLast(all: seq<Region>, init: seq<Region>, r: Region, last: Region)
    requires multiset(all) == multiset(init) + multiset{r}
    requires r.origin <= last.origin && forall i :: 0 <= i < |init| ==> init[i].origin <= last.origin
    ensures forall i :: 0 <= i < |all| ==> all[i].origin <= last.origin
  {
    forall i | 0 <= i < |all| ensures all[i].origin <= last.origin {
      assert all[i] in multiset(all);
      assert all[i] in init || all[i] == r;
    }
  }

  lemma {:induction false} SortSorts(rs: seq<Region>)
    ensures SortedByOrigin(SortByOrigin(rs))
    ensures multiset(SortByOrigin(rs)) == multiset(rs)
  {
    hide Insert, SortedByOrigin;
    if rs != [] {
      SortSorts(rs[..|rs| - 1]);
      InsertSorts(rs[|rs| - 1], SortByOrigin(rs[..|rs| - 1]));
      InsertKeeps(rs[|rs| - 1], SortByOrigin(rs[..|rs| - 1]));
      assert rs == rs[..|rs| - 1] + [rs[|rs| - 1]];
    } else {
      NothingSorted();
    }
  }

  lemma NothingSorted()
    ensures SortedByOrigin([])
  {
  }

  /** The adjacent-pair check on the sorted list. */
  predicate NeighboursClear(sorted: seq<Region>) {
    forall i :: 0 <= i < |sorted| - 1 ==> End(sorted[i]) <= sorted[i + 1].origin
  }

  predicate Apart(a: Region, b: Region) {
    End(a) <= b.origin || End(b) <= a.origin
  }

  predicate PairwiseApart(rs: seq<Region>) {
    forall i, j :: 0 <= i < j < |rs| ==> Apart(rs[i], rs[j])
  }

  predicate PageAligned(r: Region) {
    r.origin % PAGE_BYTES == 0 && r.length % PAGE_BYTES == 0
  }

  /** What `validate` demands of the table. */
  predicate Acceptable(regions: map<string, Region>) {
    && HasAll(regions)
    && (forall i :: 0 <= i < 5 ==> End(Listed(regions)[i]) <= FLASH_END)
    && PageAligned(regions["ACTIVE"]) && PageAligned(regions["DFU"]) && PageAligned(regions["STATE"])
    && regions["DFU"].origin == End(regions["ACTIVE"])
    && regions["DFU"].length == regions["ACTIVE"].length + PAGE_BYTES
    && NeighboursClear(SortByOrigin(Listed(regions)))
  }

  /** A reported problem is really there. */
  predicate Complaint(regions: map<string, Region>, problem: Problem) {
    if problem.MissingRegion? then !HasAll(regions)
    else
      HasAll(regions) &&
      match problem
      case PastFlashEnd => exists i :: 0 <= i < 5 && End(Listed(regions)[i]) > FLASH_END
      case Unaligned => !PageAligned(regions["ACTIVE"]) || !PageAligned(regions["DFU"]) || !PageAligned(regions["STATE"])
      case DfuNotBehindActive => regions["DFU"].origin != End(regions["ACTIVE"])
      case DfuNotOnePageLarger => regions["DFU"].length != regions["ACTIVE"].length + PAGE_BYTES
      case Overlap => !NeighboursClear(SortByOrigin(Listed(regions)))
      case _ => false
  }

  /** The first loop of `validate`. */
  method AllPresent(regions: map<string, Region>) returns (ok: bool)
    ensures ok <==> HasAll(regions)
  {
    var names := Partitions();
    for i := 0 to 5
      invariant forall j :: 0 <= j < i ==> names[j] in regions
    {
      if names[i] !in regions {
        return false;
      }
    }
    assert names[0] in regions && names[1] in regions && names[2] in regions && names[3] in regions && names[4] in regions;
    return true;
  }

  /** The second loop. */
  method AllEndInFlash(rs: seq<Region>) returns (ok: bool)
    ensures ok <==> forall i :: 0 <= i < |rs| ==> End(rs[i]) <= FLASH_END
  {
    for i := 0 to |rs|
      invariant forall j :: 0 <= j < i ==> End(rs[j]) <= FLASH_END
    {
      if End(rs[i]) > FLASH_END {
        return false;
      }
    }
    return true;
  }

  /** The window loop. */
  method NoOverlap(ordered: seq<Region>) returns (ok: bool)
    ensures ok <==> NeighboursClear(ordered)
  {
    var i := 1;
    while i < |ordered|
      invariant 1 <= i
      invariant forall j :: 0 <= j < i - 1 && j + 1 < |ordered| ==> End(ordered[j]) <= ordered[j + 1].origin
    {
      if End(ordered[i - 1]) > ordered[i].origin {
        assert !(End(ordered[i - 1]) <= ordered[i - 1 + 1].origin);
        return false;
      }
      i := i + 1;
    }
    return true;
  }

  /** The region checks of `validate`, in order; `None` means accepted. */
  method CheckRegions(regions: map<string, Region>) returns (problem: Option<Problem>)
    ensures problem == None <==> Acceptable(regions)
    ensures problem.Some? ==> Complaint(regions, problem.value)
  {
    hide SortByOrigin, NeighboursClear;
    var ok := AllPresent(regions);
    if !ok {
      return Some(MissingRegion);
    }
    ok := AllEndInFlash(Listed(regions));
    if !ok {
      return Some(PastFlashEnd);
    }
    if !PageAligned(regions["ACTIVE"]) || !PageAligned(regions["DFU"]) || !PageAligned(regions["STATE"]) {
      return Some(Unaligned);
    }
    var active, dfu := regions["ACTIVE"], regions["DFU"];
    if dfu.origin != End(active) {
      return Some(DfuNotBehindActive);
    }
    if dfu.length != active.length + PAGE_BYTES {
      return Some(DfuNotOnePageLarger);
    }
    ok := NoOverlap(SortByOrigin(Listed(regions)));
    return if ok then None else Some(Overlap);
  }

  // ---- The linker symbols ----

  /** `contains`. */
  predicate Mentions(s: string, pat: string)
    requires pat != ""
  {
    SplitOnce(s, pat).Some?
  }

  predicate OccursAt(s: string, pat: string, i: int) {
    0 <= i <= |s| - |pat| && s[i..i + |pat|] == pat
  }

  lemma {:induction false} MentionsIff(s: string, pat: string)
    requires pat != ""
    ensures Mentions(s, pat) <==> exists i :: OccursAt(s, pat, i)
  {
    if |s| >= |pat| && s[..|pat|] != pat {
      var rest := s[1..];
      MentionsIff(rest, pat);
      assert forall i :: i > 0 && OccursAt(s, pat, i) ==> OccursAt(rest, pat, i - 1) by {
        forall i | i > 0 && OccursAt(s, pat, i) ensures OccursAt(rest, pat, i - 1) {
          assert rest[i - 1..i - 1 + |pat|] == s[i..i + |pat|];
        }
      }
      if i :| OccursAt(rest, pat, i) {
        assert s[i + 1..i + 1 + |pat|] == rest[i..i + |pat|];
        assert OccursAt(s, pat, i + 1);
      }
      assert !OccursAt(s, pat, 0);
    } else if |s| >= |pat| {
      assert OccursAt(s, pat, 0);
    }
  }

  function Symbols(): (names: seq<string>)
    ensures |names| == 6 && forall i :: 0 <= i < 6 ==> names[i] != ""
  {
    ["__bootloader_state_start", "__bootloader_state_end", "__bootloader_active_start", "__bootloader_active_end",
     "__bootloader_dfu_start", "__bootloader_dfu_end"]
  }

  predicate SymbolsNamed(text: string) {
    forall i :: 0 <= i < 6 ==> Mentions(text, Symbols()[i])
  }

  /** A line that sets a bootloader symbol says so relative to some region's origin. */
  predicate FlashRelative(line: string) {
    var t := TrimText(line);
    "__bootloader_" <= t ==> Mentions(t, "ORIGIN(")
  }

  /** A line in order, by its parts: if it starts, behind blanks, as a bootloader symbol does, then "ORIGIN(" occurs in
      it. */
  lemma FlashRelativeIff(line: string)
    ensures FlashRelative(line) <==>
            ((exists before, rest :: AllWhite(before) && line == before + "__bootloader_" + rest)
             ==> exists i :: OccursAt(line, "ORIGIN(", i))
  {
    hide TrimText, SplitOnce, Mentions;
    var t := TrimText(line);
    var before, after := TrimTextSplits(line);
    MentionsIff(t, "ORIGIN(");
    OccursTrimmed(line, before, t, after);
    if "__bootloader_" <= t {
      assert t == "__bootloader_" + t[13..];
      assert line == before + "__bootloader_" + (t[13..] + after);
    }
    if b, rest :| AllWhite(b) && line == b + "__bootloader_" + rest {
      StartsTrimmed(line, b, rest, before, t, after);
    }
  }

  lemma InMiddle(line: string, before: string, t: string, after: string, i: nat)
    requires line == before + t + after && AllWhite(before) && AllWhite(after)
    requires i < |line| && !IsWhite(line[i])
    ensures |before| <= i < |before| + |t|
  {
    assert forall k :: 0 <= k < |before| ==> line[k] == before[k];
    assert forall k :: 0 <= k < |after| ==> line[|before| + |t| + k] == after[k];
    var k := i - |before| - |t|;
    assert i == |before| + |t| + k;
  }

  lemma OccursTrimmed(line: string, before: string, t: string, after: string)
    requires line == before + t + after && AllWhite(before) && AllWhite(after)
    ensures (exists i :: OccursAt(line, "ORIGIN(", i)) <==> (exists i :: OccursAt(t, "ORIGIN(", i))
  {
    if i :| OccursAt(t, "ORIGIN(", i) {
      assert line[|before| + i..|before| + i + 7] == t[i..i + 7];
      assert OccursAt(line, "ORIGIN(", |before| + i);
    }
    if i :| OccursAt(line, "ORIGIN(", i) {
      assert line[i] == line[i..i + 7][0] == 'O' && line[i + 6] == line[i..i + 7][6] == '(';
      InMiddle(line, before, t, after, i);
      InMiddle(line, before, t, after, i + 6);
      assert t[i - |before|..i - |before| + 7] == line[i..i + 7];
      assert OccursAt(t, "ORIGIN(", i - |before|);
    }
  }

  lemma StartsTrimmed(line: string, b: string, rest: string, before: string, t: string, after: string)
    requires AllWhite(b) && line == b + "__bootloader_" + rest
    requires line == before + t + after && AllWhite(before) && AllWhite(after)
    requires t != "" ==> !IsWhite(t[0]) && !IsWhite(t[|t| - 1])
    ensures "__bootloader_" <= t
  {
    assert line[|b|] == '_' && line[|b| + 12] == '_';
    InMiddle(line, before, t, after, |b|);
    InMiddle(line, before, t, after, |b| + 12);
    assert forall k :: 0 <= k < |b| ==> line[k] == b[k];
    assert line[|before|] == t[0];
    assert line[|b|..|b| + 13] == "__bootloader_";
    assert t[..13] == line[|b|..|b| + 13];
  }

  predicate AllFlashRelative(lines: seq<string>) {
    forall i :: 0 <= i < |lines| ==> FlashRelative(lines[i])
  }

  /** The last two loops of `validate`. They read the text with its comments in place. */
  method CheckSymbols(text: string) returns (problem: Option<Problem>)
    ensures problem == None <==> SymbolsNamed(text) && AllFlashRelative(LinesOf(text))
    ensures problem == Some(MissingSymbol) <==> !SymbolsNamed(text)
    ensures problem.Some? ==> problem.value.MissingSymbol? || problem.value.AbsoluteSymbol?
  {
    hide SplitOnce, LinesOf;
    var names := Symbols();
    for i := 0 to 6
      invariant forall j :: 0 <= j < i ==> Mentions(text, names[j])
    {
      if !Mentions(text, names[i]) {
        return Some(MissingSymbol);
      }
    }
    var lines := LinesOf(text);
    for i := 0 to |lines|
      invariant AllFlashRelative(lines[..i])
    {
      assert lines[..i + 1] == lines[..i] + [lines[i]];
      if !FlashRelative(lines[i]) {
        return Some(AbsoluteSymbol);
      }
    }
    assert lines[..|lines|] == lines;
    return None;
  }

  /** `validate`: the build goes on exactly when the table can be read and is acceptable and the symbols are named and
      relative; `Unreadable` is the reader's own panic. */
  method Validate(text: string) returns (problem: Option<Problem>)
    ensures problem == None <==>
            TableIn(text).Some? && Acceptable(TableIn(text).value) && SymbolsNamed(text) && AllFlashRelative(LinesOf(text))
    ensures problem == Some(Unreadable) <==> TableIn(text).None?
  {
    hide TableIn, Acceptable, Complaint, SymbolsNamed, AllFlashRelative, LinesOf;
    var regions := ParseMemoryX(text);
    if regions.None? {
      return Some(Unreadable);
    }
    problem := CheckRegions(regions.value);
    if problem.Some? {
      ReadableComplaint(regions.value, problem.value);
      return;
    }
    problem := CheckSymbols(text);
  }

  lemma ReadableComplaint(regions: map<string, Region>, problem: Problem)
    requires Complaint(regions, problem)
    ensures !problem.Unreadable?
  {
  }

  // ---- What acceptance means ----

  lemma {:induction false} ClearIsApart(sorted: seq<Region>, i: nat, j: nat)
    requires NeighboursClear(sorted) && i < j < |sorted|
    ensures End(sorted[i]) <= sorted[j].origin
  {
    if i < j - 1 {
      ClearIsApart(sorted, i, j - 1);
    }
  }

  /** Pairwise separation only depends on which regions there are. */
  lemma ApartPermutes(a: seq<Region>, b: seq<Region>)
    requires multiset(a) == multiset(b) && PairwiseApart(a)
    ensures PairwiseApart(b)
  {
    forall i, j | 0 <= i < j < |b| ensures Apart(b[i], b[j]) {
      TwoOf(b, i, j);
      var x, y := TwoPlaces(a, b[i], b[j]);
    }
  }

  lemma TwoOf(b: seq<Region>, i: nat, j: nat)
    requires i < j < |b|
    ensures multiset{b[i], b[j]} <= multiset(b)
  {
    assert b == b[..i] + [b[i]] + b[i + 1..j] + [b[j]] + b[j + 1..];
  }

  lemma {:induction false} TwoPlaces(a: seq<Region>, r: Region, s: Region) returns (x: nat, y: nat)
    requires multiset{r, s} <= multiset(a)
    ensures x < |a| && y < |a| && x != y && a[x] == r && a[y] == s
  {
    assert r in multiset(a);
    x :| x < |a| && a[x] == r;
    var rest := a[..x] + a[x + 1..];
    assert a == a[..x] + [r] + a[x + 1..];
    assert multiset(rest) == multiset(a) - multiset{r};
    assert s in multiset(rest);
    var z: nat :| z < |rest| && rest[z] == s;
    y := if z < x then z else z + 1;
  }

  /** The adjacent-pair check is enough: an accepted table's regions are pairwise disjoint. */
  lemma AcceptedDisjoint(regions: map<string, Region>, i: nat, j: nat)
    requires Acceptable(regions) && i < j < 5
    ensures Apart(regions[Partitions()[i]], regions[Partitions()[j]])
  {
    hide SortByOrigin;
    var rs := Listed(regions);
    var sorted := SortByOrigin(rs);
    SortSorts(rs);
    forall x, y | 0 <= x < y < |sorted| ensures Apart(sorted[x], sorted[y]) {
      ClearIsApart(sorted, x, y);
    }
    ApartPermutes(sorted, rs);
    assert Apart(rs[i], rs[j]);
  }

  /** And it asks no more than that of nonempty regions. */
  lemma DisjointPasses(rs: seq<Region>)
    requires PairwiseApart(rs) && forall i :: 0 <= i < |rs| ==> rs[i].length > 0
    ensures NeighboursClear(SortByOrigin(rs))
  {
    hide SortByOrigin;
    var sorted := SortByOrigin(rs);
    SortSorts(rs);
    ApartPermutes(rs, sorted);
    forall i | 0 <= i < |sorted| - 1 ensures End(sorted[i]) <= sorted[i + 1].origin {
      assert sorted[i + 1] in multiset(rs);
      assert sorted[i + 1] in rs;
      assert Apart(sorted[i], sorted[i + 1]);
    }
  }

  /** For nonempty regions the check is exactly pairwise separation. */
  lemma OverlapCheckExact(rs: seq<Region>)
    requires forall i :: 0 <= i < |rs| ==> rs[i].length > 0
    ensures NeighboursClear(SortByOrigin(rs)) <==> PairwiseApart(rs)
  {
    hide SortByOrigin;
    var sorted := SortByOrigin(rs);
    if NeighboursClear(sorted) {
      SortSorts(rs);
      forall x, y | 0 <= x < y < |sorted| ensures Apart(sorted[x], sorted[y]) {
        ClearIsApart(sorted, x, y);
      }
      ApartPermutes(sorted, rs);
    } else if PairwiseApart(rs) {
      DisjointPasses(rs);
    }
  }

  // ---- In flash or not ----

  predicate Occupies(r: Region, address: int) {
    r.origin <= address < End(r)
  }

  /** Every address of every region is a flash address. */
  ghost predicate InsideFlash(regions: map<string, Region>)
    requires HasAll(regions)
  {
    forall i, a | 0 <= i < 5 && Occupies(Listed(regions)[i], a) :: FLASH_BASE <= a < FLASH_END
  }

  /** An accepted table of nonempty regions lies in flash exactly when the region with the lowest origin does not
      start below the flash base: `validate` bounds the other side only. */
  lemma AcceptedInFlashIff(regions: map<string, Region>)
    requires Acceptable(regions) && forall i :: 0 <= i < 5 ==> Listed(regions)[i].length > 0
    ensures SortByOrigin(Listed(regions)) != []
    ensures InsideFlash(regions) <==> SortByOrigin(Listed(regions))[0].origin >= FLASH_BASE
  {
    hide SortByOrigin, NeighboursClear, Listed, PageAligned;
    var rs := Listed(regions);
    LowestFirst(rs);
    if InsideFlash(regions) {
      var i :| 0 <= i < 5 && rs[i] == SortByOrigin(rs)[0];
      assert Occupies(rs[i], rs[i].origin);
    }
  }

  lemma LowestFirst(rs: seq<Region>)
    requires rs != []
    ensures SortByOrigin(rs) != [] && SortByOrigin(rs)[0] in rs
    ensures forall i :: 0 <= i < |rs| ==> SortByOrigin(rs)[0].origin <= rs[i].origin
  {
    hide SortByOrigin;
    var sorted := SortByOrigin(rs);
    SortSorts(rs);
    assert rs[0] in multiset(sorted);
    assert sorted[0] in multiset(rs);
    forall i | 0 <= i < |rs| ensures sorted[0].origin <= rs[i].origin {
      assert rs[i] in multiset(sorted);
      var j :| 0 <= j < |sorted| && sorted[j] == rs[i];
    }
  }

  /** A table that lies wholly under flash. */
  function LowTable(): map<string, Region> {
    map["BOOT2" := Region(0, 256), "FLASH" := Region(256, 3840), "ACTIVE" := Region(4096, 4096),
        "DFU" := Region(8192, 8192), "STATE" := Region(16384, 4096)]
  }

  /** Nothing is checked below the flash base: that table is accepted. */
  lemma LowTableAccepted()
    ensures Acceptable(LowTable()) && !InsideFlash(LowTable())
  {
    var rs := Listed(LowTable());
    assert rs == [Region(0, 256), Region(256, 3840), Region(4096, 4096), Region(8192, 8192), Region(16384, 4096)];
    DisjointPasses(rs);
    assert Occupies(rs[0], 0);
  }

  /** The bootloader's own table, RAM included. */
  function ShippedTable(): map<string, Region> {
    map["BOOT2" := Region(0x10000000, 0x100), "FLASH" := Region(0x10000100, 24 * 1024 - 0x100),
        "ACTIVE" := Region(0x10006000, 780 * 1024), "DFU" := Region(0x100C9000, 784 * 1024),
        "STATE" := Region(0x1018D000, 4 * 1024), "RAM" := Region(0x20000000, 264 * 1024)]
  }

  /** It is accepted, and wholly in flash but for RAM. */
  lemma ShippedTableAccepted()
    ensures Acceptable(ShippedTable()) && InsideFlash(ShippedTable())
  {
    hide SortByOrigin, NeighboursClear;
    var rs := Listed(ShippedTable());
    assert rs == [
      Region(0x10000000, 0x100), Region(0x10000100, 24 * 1024 - 0x100), Region(0x10006000, 780 * 1024),
      Region(0x100C9000, 784 * 1024), Region(0x1018D000, 4 * 1024)];
    DisjointPasses(rs);
  }
}
