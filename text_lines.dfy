/**
 * The text primitives both comparison components rest on: splitting a text
 * into lines the way Rust's `str::lines` does, the `char::is_whitespace` /
 * `str::trim` pair that decides whether a line is blank, and the UTF-8 byte
 * length that a highlight range is measured in.
 *
 * Strings are sequences of Unicode scalar values (`char`).
 */
module TextLines {

  /**
   * Rust's `char::is_whitespace`: the Unicode White_Space property. On
   * ASCII it is exactly the space and the controls '\t' to '\r'.
   */
  predicate IsWhitespace(c: char)
    ensures (c as int) < 0x80 ==> (IsWhitespace(c) <==> c == ' ' || '\t' <= c <= '\r')
    ensures IsWhitespace(c) ==> (c as int) <= 0x3000
  {
    var n := c as int;
    (0x09 <= n <= 0x0D) || n == 0x20 || n == 0x85 || n == 0xA0 || n == 0x1680 ||
    (0x2000 <= n <= 0x200A) || n == 0x2028 || n == 0x2029 || n == 0x202F ||
    n == 0x205F || n == 0x3000
  }

  /** A line is blank when every character in it is whitespace. */
  predicate IsBlank(s: string) {
    forall i :: 0 <= i < |s| ==> IsWhitespace(s[i])
  }

  /** Rust's `str::trim_start`: drops the leading whitespace. */
  function TrimStart(s: string): (r: string)
    ensures |r| <= |s| && r == s[|s| - |r|..]
    ensures forall i :: 0 <= i < |s| - |r| ==> IsWhitespace(s[i])
    ensures r != [] ==> !IsWhitespace(r[0])
  {
    if s != [] && IsWhitespace(s[0]) then
      var r := TrimStart(s[1..]);
      assert s[1..][|s| - 1 - |r|..] == s[|s| - |r|..];
      assert forall i :: 1 <= i < |s| ==> s[1..][i - 1] == s[i];
      r
    else s
  }

  /** Rust's `str::trim_end`: drops the trailing whitespace. */
  function TrimEnd(s: string): (r: string)
    ensures |r| <= |s| && r == s[..|r|]
    ensures forall i :: |r| <= i < |s| ==> IsWhitespace(s[i])
    ensures r != [] ==> !IsWhitespace(r[|r| - 1])
  {
    if s != [] && IsWhitespace(s[|s| - 1]) then
      var r := TrimEnd(s[..|s| - 1]);
      assert s[..|s| - 1][..|r|] == s[..|r|];
      r
    else s
  }

  /**
   * Rust's `str::trim`: both ends' whitespace dropped. It is empty exactly
   * when `s` is blank, which is why the rest of the model writes
   * `IsBlank(s)` where the source tests `s.trim().is_empty()`.
   */
  function Trim(s: string): (r: string)
    ensures |r| <= |s|
    ensures r == [] <==> IsBlank(s)
    ensures r != [] ==> !IsWhitespace(r[0]) && !IsWhitespace(r[|r| - 1])
  {
    TrimEnd(TrimStart(s))
  }

  /**
   * `r` is the infix of `s` starting at `a`, and everything before and after
   * it in `s` is whitespace.
   */
  predicate TrimmedAt(s: string, r: string, a: nat) {
    a <= |s| - |r| && r == s[a..a + |r|] &&
    (forall i :: 0 <= i < a ==> IsWhitespace(s[i])) &&
    (forall i :: a + |r| <= i < |s| ==> IsWhitespace(s[i]))
  }

  /**
   * What `str::trim` returns: the infix of `s` left after its leading and
   * trailing whitespace is dropped.
   */
  lemma TrimIsInfix(s: string)
    ensures exists a: nat :: TrimmedAt(s, Trim(s), a)
  {
    var t := TrimStart(s);
    var a := |s| - |t|;
    var r := Trim(s);
    assert t == s[a..];
    assert r == t[..|r|];
    assert r == s[a..a + |r|];
    assert forall i :: a + |r| <= i < |s| ==> s[i] == t[i - a];
    assert TrimmedAt(s, r, a);
  }

  /** Number of bytes the UTF-8 encoding of `c` occupies. */
  function Utf8Width(c: char): (w: nat)
    ensures 1 <= w <= 4
    ensures w == 1 <==> (c as int) < 0x80
  {
    var n := c as int;
    if n < 0x80 then 1 else if n < 0x800 then 2 else if n < 0x10000 then 3 else 4
  }

  /** Rust's `str::len`: the length of the UTF-8 encoding, in bytes. */
  function Utf8Length(s: string): (n: nat)
    ensures |s| <= n <= 4 * |s|
    ensures n == |s| <==> forall i :: 0 <= i < |s| ==> (s[i] as int) < 0x80
  {
    if s == [] then 0 else Utf8Width(s[0]) + Utf8Length(s[1..])
  }

  /** Index of the first '\n' in `s`, or `|s|` when there is none. */
  function NewlineIndex(s: string): (k: nat)
    ensures k <= |s|
    ensures k < |s| ==> s[k] == '\n'
    ensures forall j :: 0 <= j < k ==> s[j] != '\n'
  {
    if s == [] || s[0] == '\n' then 0 else 1 + NewlineIndex(s[1..])
  }

  /** Drops one trailing '\r' (the first half of a "\r\n" terminator). */
  function StripCarriageReturn(piece: string): (r: string)
  {
    if piece != [] && piece[|piece| - 1] == '\r' then piece[..|piece| - 1] else piece
  }

  /**
   * Rust's `str::lines`: the pieces between '\n' terminators, each with one
   * trailing '\r' removed when it came before a '\n'. A final terminator
   * does not start an extra empty line, so "" has no lines at all; a bare
   * '\r' at the very end (not followed by '\n') stays in the last line.
   */
  function Lines(s: string): (r: seq<string>)
    decreases |s|
    ensures s == [] <==> r == []
    ensures forall i :: 0 <= i < |r| ==> '\n' !in r[i]
  {
    if s == [] then []
    else
      var k := NewlineIndex(s);
      if k == |s| then [s]
      else [StripCarriageReturn(s[..k])] + Lines(s[k + 1..])
  }

  /**
   * The first line of a non-empty text: everything before the first '\n',
   * less a '\r' just before it, or the whole text when there is no '\n'.
   */
  lemma FirstLine(s: string)
    requires s != []
    ensures Lines(s)[0] == if NewlineIndex(s) == |s| then s else StripCarriageReturn(s[..NewlineIndex(s)])
  {
  }

  /** Each line followed by a '\n': the text whose `Lines` are `ls`. */
  function Terminated(ls: seq<string>): (s: string)
  {
    if ls == [] then [] else ls[0] + "\n" + Terminated(ls[1..])
  }

  /**
   * Round trip: splitting a text made of terminated lines gives the lines
   * back, as long as no line holds a '\n' or ends in a '\r' (which `lines`
   * would take for part of the terminator).
   */
  lemma {:induction false} LinesOfTerminated(ls: seq<string>)
    requires forall i :: 0 <= i < |ls| ==> '\n' !in ls[i]
    requires forall i :: 0 <= i < |ls| ==> ls[i] == [] || ls[i][|ls[i]| - 1] != '\r'
    ensures Lines(Terminated(ls)) == ls
  {
    if ls != [] {
      var l, rest := ls[0], Terminated(ls[1..]);
      var s := Terminated(ls);
      assert s == l + ("\n" + rest);
      NewlineIndexAfter(l, "\n" + rest);
      assert NewlineIndex(s) == |l|;
      assert s[..|l|] == l;
      assert s[|l| + 1..] == rest;
      LinesOfTerminated(ls[1..]);
    }
  }

  /** The first '\n' of `a + b` is the first '\n' of `b`, shifted, when `a` has none. */
  lemma {:induction false} NewlineIndexAfter(a: string, b: string)
    requires '\n' !in a
    ensures NewlineIndex(a + b) == |a| + NewlineIndex(b)
  {
    if a == [] {
      assert a + b == b;
    } else {
      assert (a + b)[0] == a[0] && a[0] != '\n';
      assert (a + b)[1..] == a[1..] + b;
      NewlineIndexAfter(a[1..], b);
    }
  }

  /** The first '\n' of `a + b` is the first '\n' of `a`, when `a` has one. */
  lemma {:induction false} NewlineIndexBefore(a: string, b: string)
    requires NewlineIndex(a) < |a|
    ensures NewlineIndex(a + b) == NewlineIndex(a)
  {
    assert (a + b)[0] == a[0];
    if a[0] != '\n' {
      assert (a + b)[1..] == a[1..] + b;
      NewlineIndexBefore(a[1..], b);
    }
  }

  /**
   * The final line ending is optional: a '\n' added to a non-empty text
   * that does not already end in a line ending (or a '\r' that would join
   * it) leaves the lines unchanged.
   */
  lemma {:induction false} FinalTerminatorOptional(s: string)
    requires s != [] && s[|s| - 1] != '\n' && s[|s| - 1] != '\r'
    ensures Lines(s + "\n") == Lines(s)
    decreases |s|
  {
    var k := NewlineIndex(s);
    var t := s + "\n";
    if k == |s| {
      NewlineIndexAfter(s, "\n");
      assert t[..k] == s && t[k + 1..] == [];
    } else {
      NewlineIndexBefore(s, "\n");
      assert t[..k] == s[..k];
      assert t[k + 1..] == s[k + 1..] + "\n";
      FinalTerminatorOptional(s[k + 1..]);
    }
  }
}
