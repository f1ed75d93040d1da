/** Bytes, ASCII classes and the slice helpers shared by the OTA parsers. Rust's `&[u8]` and the UTF-8 bytes
    of a `&str` are both `seq<Byte>` here. */
module Bytes {

  type Byte = b: int | 0 <= b < 256

  datatype Option<+T> = None | Some(value: T)

  datatype Result<+T, +E> = Ok(value: T) | Err(error: E)

  const TAB: Byte := 9
  const LF: Byte := 10
  const FF: Byte := 12
  const CR: Byte := 13
  const SP: Byte := 32
  const COLON: Byte := 58

  /** The bytes of an ASCII literal. */
  function Ascii(s: string): (bytes: seq<Byte>)
    requires forall i :: 0 <= i < |s| ==> s[i] as int < 128
    ensures |bytes| == |s|
  {
    seq(|s|, i requires 0 <= i < |s| => s[i] as int)
  }

  predicate IsAscii(s: string) {
    forall i :: 0 <= i < |s| ==> s[i] as int < 128
  }

  lemma AsciiJoin(a: string, b: string)
    requires IsAscii(a) && IsAscii(b)
    ensures IsAscii(a + b) && Ascii(a + b) == Ascii(a) + Ascii(b)
  {
  }

  predicate IsDigit(b: Byte) {
    48 <= b <= 57
  }

  /** `u8::is_ascii_whitespace`: vertical tab is not in the class. */
  predicate IsSpace(b: Byte) {
    b == SP || b == TAB || b == LF || b == FF || b == CR
  }

  const UPPER: string := "ABCDEFGHIJKLMNOPQRSTUVWXYZ"
  const LOWER: string := "abcdefghijklmnopqrstuvwxyz"
  const DIGITS: string := "0123456789"

  lemma UpperTable(v: nat)
    requires v < 26
    ensures UPPER[v] as int == 65 + v
  {
  }

  lemma LowerTable(v: nat)
    requires v < 26
    ensures LOWER[v] as int == 97 + v
  {
  }

  /** The class, byte by byte: tab, line feed, form feed, carriage return, space. */
  lemma SpaceBytes(b: Byte)
    ensures IsSpace(b) <==> b in [9, 10, 12, 13, 32]
  {
  }

  function ToLower(b: Byte): Byte {
    if 65 <= b <= 90 then b + 32 else b
  }

  function Lower(s: seq<Byte>): (t: seq<Byte>)
    ensures |t| == |s|
  {
    seq(|s|, i requires 0 <= i < |s| => ToLower(s[i]))
  }

  predicate AllDigits(s: seq<Byte>) {
    forall i :: 0 <= i < |s| ==> IsDigit(s[i])
  }

  predicate AllSpace(s: seq<Byte>) {
    forall i :: 0 <= i < |s| ==> IsSpace(s[i])
  }

  predicate StartsWith(s: seq<Byte>, prefix: seq<Byte>) {
    prefix <= s
  }

  /** Length of the longest prefix of `s` that does not hold `b`. */
  function Until(s: seq<Byte>, b: Byte): (n: nat)
    ensures n <= |s|
    ensures b !in s[..n]
    ensures n < |s| ==> s[n] == b
  {
    if s == [] || s[0] == b then 0 else
      var n := Until(s[1..], b);
      assert s[..n + 1] == [s[0]] + s[1..][..n];
      n + 1
  }

  /** The first-occurrence split is the only split around a `b`-free left part. */
  lemma UntilUnique(left: seq<Byte>, b: Byte, right: seq<Byte>)
    requires b !in left
    ensures Until(left + [b] + right, b) == |left|
    ensures Until(left, b) == |left|
  {
    var s := left + [b] + right;
    assert s[|left|] == b;
    assert forall i :: 0 <= i < |left| ==> s[i] == left[i];
    assert b !in s[..Until(s, b)];
  }

  lemma UntilAt(left: seq<Byte>, b: Byte, right: seq<Byte>)
    requires b !in left && (right == [] || right[0] == b)
    ensures Until(left + right, b) == |left|
  {
    if right == [] {
      assert left + right == left;
      UntilUnique(left, b, []);
    } else {
      hide Until;
      var rest := right[1..];
      assert right == [b] + rest;
      Assoc(left, [b], rest);
      UntilUnique(left, b, rest);
    }
  }

  /** The nonempty pieces between separators (`split` followed by dropping the empty ones). */
  function Pieces(s: seq<Byte>, sep: Byte): seq<seq<Byte>> {
    var n := Until(s, sep);
    var head := if n == 0 then [] else [s[..n]];
    if n == |s| then head else head + Pieces(s[n + 1..], sep)
  }

  lemma PiecesStep(left: seq<Byte>, sep: Byte, right: seq<Byte>)
    requires sep !in left
    ensures Pieces(left + [sep] + right, sep) == (if left == [] then [] else [left]) + Pieces(right, sep)
  {
    var s := left + [sep] + right;
    UntilUnique(left, sep, right);
    assert s[..|left|] == left && s[|left| + 1..] == right;
  }

  lemma PiecesAppendStep(a: seq<Byte>, sep: Byte, b: seq<Byte>, n: nat)
    requires n == Until(a, sep) < |a|
    ensures Pieces(a + [sep] + b, sep) == (if n == 0 then [] else [a[..n]]) + Pieces(a[n + 1..] + [sep] + b, sep)
  {
    hide Pieces;
    PiecesStep(a[..n], sep, a[n + 1..] + [sep] + b);
    assert a + [sep] + b == a[..n] + [sep] + (a[n + 1..] + [sep] + b);
  }

  lemma {:induction false} PiecesAppend(a: seq<Byte>, sep: Byte, b: seq<Byte>)
    ensures Pieces(a + [sep] + b, sep) == Pieces(a, sep) + Pieces(b, sep)
  {
    var n := Until(a, sep);
    if n == |a| {
      PiecesOne(a, sep);
      PiecesStep(a, sep, b);
    } else {
      var head, right := if n == 0 then [] else [a[..n]], a[n + 1..];
      assert Pieces(a, sep) == head + Pieces(right, sep);
      PiecesAppendStep(a, sep, b, n);
      PiecesAppend(right, sep, b);
      Assoc(head, Pieces(right, sep), Pieces(b, sep));
    }
  }

  lemma Assoc<T>(a: seq<T>, b: seq<T>, c: seq<T>)
    ensures a + b + c == a + (b + c)
  {
  }

  lemma PiecesOne(s: seq<Byte>, sep: Byte)
    requires sep !in s
    ensures Pieces(s, sep) == if s == [] then [] else [s]
  {
    UntilUnique(s, sep, []);
    assert s[..|s|] == s;
  }

  lemma {:induction false} PiecesNone(s: seq<Byte>, sep: Byte)
    ensures Pieces(s, sep) == [] <==> forall i :: 0 <= i < |s| ==> s[i] == sep
  {
    var n := Until(s, sep);
    if n == 0 && s != [] {
      PiecesNone(s[1..], sep);
      assert s == [s[0]] + s[1..];
    } else if n > 0 {
      assert s[..n][0] == s[0];
    }
  }

  /** What is left after removing whitespace at both ends. */
  function Trim(s: seq<Byte>): (t: seq<Byte>)
    ensures t != [] ==> !IsSpace(t[0]) && !IsSpace(t[|t| - 1])
    decreases |s|
  {
    if s != [] && IsSpace(s[0]) then Trim(s[1..])
    else if s != [] && IsSpace(s[|s| - 1]) then Trim(s[..|s| - 1])
    else s
  }

  /** Any whitespace padding around a text that neither starts nor ends with whitespace is removed. */
  lemma {:induction false} TrimPadded(before: seq<Byte>, t: seq<Byte>, after: seq<Byte>)
    requires AllSpace(before) && AllSpace(after)
    requires t != [] ==> !IsSpace(t[0]) && !IsSpace(t[|t| - 1])
    ensures Trim(before + t + after) == t
    decreases |before| + |after|
  {
    var s := before + t + after;
    if before != [] {
      assert s[1..] == before[1..] + t + after;
      TrimPadded(before[1..], t, after);
    } else if after != [] {
      if t == [] {
        assert s[1..] == before + t + after[1..];
        TrimPadded(before, t, after[1..]);
      } else {
        assert s[..|s| - 1] == before + t + after[..|after| - 1];
        TrimPadded(before, t, after[..|after| - 1]);
      }
    } else {
      assert s == t;
    }
  }

  lemma TrimFirst(s: seq<Byte>)
    requires s != [] && IsSpace(s[0])
    ensures Trim(s) == Trim(s[1..])
  {
  }

  lemma TrimLast(s: seq<Byte>)
    requires s != [] && !IsSpace(s[0]) && IsSpace(s[|s| - 1])
    ensures Trim(s) == Trim(s[..|s| - 1])
  {
  }

  lemma TrimFront(s: seq<Byte>, before: seq<Byte>, after: seq<Byte>)
    requires s != [] && IsSpace(s[0])
    requires s[1..] == before + Trim(s[1..]) + after
    ensures s == [s[0]] + before + Trim(s) + after
  {
    TrimFirst(s);
    hide *;
    CutFirst(s);
    OneMore([s[0]], before, Trim(s), after);
  }

  lemma TrimBack(s: seq<Byte>, before: seq<Byte>, after: seq<Byte>)
    requires s != [] && !IsSpace(s[0]) && IsSpace(s[|s| - 1])
    requires s[..|s| - 1] == before + Trim(s[..|s| - 1]) + after
    ensures s == before + Trim(s) + (after + [s[|s| - 1]])
  {
    TrimLast(s);
    hide *;
    CutLast(s);
    Assoc(before + Trim(s), after, [s[|s| - 1]]);
  }

  lemma CutFirst(s: seq<Byte>)
    requires s != []
    ensures s == [s[0]] + s[1..]
  {
  }

  lemma CutLast(s: seq<Byte>)
    requires s != []
    ensures s == s[..|s| - 1] + [s[|s| - 1]]
  {
  }

  lemma OneMore(a: seq<Byte>, b: seq<Byte>, t: seq<Byte>, c: seq<Byte>)
    ensures a + (b + t + c) == a + b + t + c
  {
    Assoc(a, b + t, c);
    Assoc(a, b, t);
  }

  lemma SpaceAdded(s: seq<Byte>, b: Byte)
    requires AllSpace(s) && IsSpace(b)
    ensures AllSpace([b] + s) && AllSpace(s + [b])
  {
  }

  /** Trimming only removes whitespace, and only at the ends. */
  lemma {:induction false} TrimSplits(s: seq<Byte>) returns (before: seq<Byte>, after: seq<Byte>)
    ensures AllSpace(before) && AllSpace(after)
    ensures s == before + Trim(s) + after
    decreases |s|
  {
    if s != [] && IsSpace(s[0]) {
      hide Trim, AllSpace;
      before, after := TrimSplits(s[1..]);
      TrimFront(s, before, after);
      SpaceAdded(before, s[0]);
      before := [s[0]] + before;
    } else if s != [] && IsSpace(s[|s| - 1]) {
      hide Trim, AllSpace;
      before, after := TrimSplits(s[..|s| - 1]);
      TrimBack(s, before, after);
      SpaceAdded(after, s[|s| - 1]);
      after := after + [s[|s| - 1]];
    } else {
      before, after := [], [];
    }
  }

  /** `copy_from_slice` into `target[lo..]`. */
  method CopyInto(target: array<Byte>, lo: nat, piece: seq<Byte>)
    requires lo + |piece| <= target.Length
    modifies target
    ensures target[..lo] == old(target[..lo]) && target[lo..lo + |piece|] == piece
    ensures target[lo + |piece|..] == old(target[lo + |piece|..])
  {
    var end := lo + |piece|;
    forall i | lo <= i < end {
      target[i] := piece[i - lo];
    }
    assert forall k :: 0 <= k < |piece| ==> target[lo..end][k] == piece[k];
  }

  /** The two index loops of `trim_ascii`. */
  method TrimAscii(input: seq<Byte>) returns (out: seq<Byte>)
    ensures out == Trim(input)
  {
    var start, end := 0, |input|;
    while start < end && IsSpace(input[start])
      invariant 0 <= start <= end
      invariant AllSpace(input[..start])
    {
      start := start + 1;
    }
    while end > start && IsSpace(input[end - 1])
      invariant start <= end <= |input|
      invariant start < end ==> !IsSpace(input[start])
      invariant AllSpace(input[end..])
    {
      end := end - 1;
    }
    out := input[start..end];
    TrimPadded(input[..start], out, input[end..]);
    assert input == input[..start] + out + input[end..];
  }
}
