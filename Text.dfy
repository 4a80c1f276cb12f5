/** The conventional optional value, standing for Python's `None`. */
module Wrappers {
  datatype Option<+T> = None | Some(value: T)
}

/**
 * The few operations on Python `str` values that the automation script
 * relies on: `strip`, `splitlines`, `startswith`, `lower`, substring tests
 * and `join`. Strings are sequences of Unicode code points, as in Python.
 */
module Text {

  /** The sets of characters the script strips. */
  datatype CharClass =
    | Whitespace   // what `str.strip()` removes: the characters for which `str.isspace()` holds
    | DashOrSpace  // what `str.strip('- ')` removes

  predicate InClass(c: char, cs: CharClass) {
    match cs
    case Whitespace =>
      ('\t' <= c <= '\r') || ('\U{1C}' <= c <= ' ') || c == '\U{85}' || c == '\U{A0}' || c == '\U{1680}' ||
      ('\U{2000}' <= c <= '\U{200A}') || c == '\U{2028}' || c == '\U{2029}' || c == '\U{202F}' ||
      c == '\U{205F}' || c == '\U{3000}'
    case DashOrSpace => c == '-' || c == ' '
  }

  /** The characters at which Python's `str.splitlines()` ends a line ("\r\n" counts as one break). */
  predicate IsLineBreak(c: char) {
    ('\n' <= c <= '\r') || ('\U{1C}' <= c <= '\U{1E}') || c == '\U{85}' || c == '\U{2028}' || c == '\U{2029}'
  }

  /** `s.lstrip(cs)`: drops the longest prefix made of characters in `cs`. */
  function StripStart(s: string, cs: CharClass): (r: string)
    ensures |r| <= |s|
    ensures r != [] ==> !InClass(r[0], cs)
  {
    if s != [] && InClass(s[0], cs) then StripStart(s[1..], cs) else s
  }

  /** `s.rstrip(cs)`: drops the longest suffix made of characters in `cs`. */
  function StripEnd(s: string, cs: CharClass): (r: string)
    ensures |r| <= |s| && r == s[..|r|]
    ensures r != [] ==> !InClass(r[|r| - 1], cs)
  {
    if s != [] && InClass(s[|s| - 1], cs) then StripEnd(s[..|s| - 1], cs) else s
  }

  /**
   * `s.strip(cs)`: what is left is an infix of `s` that neither starts nor
   * ends with a character of `cs`, and every character outside `cs` survives.
   */
  function Strip(s: string, cs: CharClass): (r: string)
    ensures |r| <= |s|
    ensures r != [] ==> !InClass(r[0], cs) && !InClass(r[|r| - 1], cs)
  {
    StripEnd(StripStart(s, cs), cs)
  }

  lemma {:induction false} StripStartKeeps(s: string, cs: CharClass, c: char)
    requires !InClass(c, cs)
    ensures c in StripStart(s, cs) <==> c in s
  {
    if s != [] && InClass(s[0], cs) {
      assert s == [s[0]] + s[1..];
      StripStartKeeps(s[1..], cs, c);
    }
  }

  lemma {:induction false} StripEndKeeps(s: string, cs: CharClass, c: char)
    requires !InClass(c, cs)
    ensures c in StripEnd(s, cs) <==> c in s
  {
    if s != [] && InClass(s[|s| - 1], cs) {
      assert s == s[..|s| - 1] + [s[|s| - 1]];
      StripEndKeeps(s[..|s| - 1], cs, c);
    }
  }

  /** Stripping removes only characters of `cs`: every other character of `s` survives. */
  lemma StripKeeps(s: string, cs: CharClass, c: char)
    requires !InClass(c, cs)
    ensures c in Strip(s, cs) <==> c in s
  {
    StripStartKeeps(s, cs, c);
    StripEndKeeps(StripStart(s, cs), cs, c);
  }

  /** `s.startswith(p)`. */
  predicate StartsWith(s: string, p: string) {
    |p| <= |s| && s[..|p|] == p
  }

  /** `p in s` for strings: `p` occurs in `s` as a contiguous infix. */
  predicate Contains(s: string, p: string) {
    exists i | 0 <= i <= |s| - |p| :: OccursAt(s, p, i)
  }

  /** `p` occurs in `s` starting at index `i`. */
  predicate OccursAt(s: string, p: string, i: int) {
    0 <= i <= |s| - |p| && s[i..i + |p|] == p
  }

  /** An occurrence of `q` inside an occurrence of `p` inside `s` is an occurrence of `q` in `s`. */
  lemma ContainsTransitive(s: string, p: string, q: string)
    requires Contains(s, p) && Contains(p, q)
    ensures Contains(s, q)
  {
    var i :| 0 <= i <= |s| - |p| && OccursAt(s, p, i);
    var j :| 0 <= j <= |p| - |q| && OccursAt(p, q, j);
    forall k | 0 <= k < |q| ensures s[i + j + k] == q[k] {
      assert s[i + j + k] == s[i..i + |p|][j + k];
      assert p[j + k] == p[j..j + |q|][k];
    }
    assert s[i + j..i + j + |q|] == q;
    assert OccursAt(s, q, i + j);
  }

  /** Case mapping of one character: only the ASCII letters A-Z change. */
  function LowerChar(c: char): char {
    if 'A' <= c <= 'Z' then (c as int - 'A' as int + 'a' as int) as char else c
  }

  /** `s.lower()` restricted to ASCII letters. */
  function Lower(s: string): (r: string)
    ensures |r| == |s|
  {
    seq(|s|, i requires 0 <= i < |s| => LowerChar(s[i]))
  }

  /** `sep.join(parts)`. */
  function Join(parts: seq<string>, sep: string): string {
    if |parts| == 0 then ""
    else if |parts| == 1 then parts[0]
    else parts[0] + sep + Join(parts[1..], sep)
  }

  /** The index of the first line break in `s`, or `|s|` when there is none. */
  function LineEnd(s: string): (i: nat)
    ensures i <= |s|
    ensures forall k :: 0 <= k < i ==> !IsLineBreak(s[k])
    ensures i < |s| ==> IsLineBreak(s[i])
  {
    if s == [] || IsLineBreak(s[0]) then 0 else 1 + LineEnd(s[1..])
  }

  /**
   * `s.splitlines()`: the lines of `s` without their line breaks; a final
   * line break does not open an empty last line, and "\r\n" is one break.
   */
  function SplitLines(s: string): (lines: seq<string>)
    ensures forall k, c :: 0 <= k < |lines| && c in lines[k] ==> !IsLineBreak(c)
    decreases |s|
  {
    if s == [] then []
    else
      var i := LineEnd(s);
      if i == |s| then [s]
      else
        var next := if s[i] == '\r' && i + 1 < |s| && s[i + 1] == '\n' then i + 2 else i + 1;
        [s[..i]] + SplitLines(s[next..])
  }

  /** A string holds no line break. */
  predicate OneLine(s: string) {
    forall c :: c in s ==> !IsLineBreak(c)
  }

  lemma LineEndOfJoined(a: string, b: string)
    requires OneLine(a)
    requires b != [] && IsLineBreak(b[0])
    ensures LineEnd(a + b) == |a|
  {
    assert forall k :: 0 <= k < |a| ==> (a + b)[k] == a[k];
    assert (a + b)[|a|] == b[0];
  }

  /**
   * Splitting lines joined with "\n" gives the lines back, as long as no
   * line holds a break and the last line is not empty.
   */
  lemma {:induction false} SplitLinesOfJoin(lines: seq<string>)
    requires forall k :: 0 <= k < |lines| ==> OneLine(lines[k])
    requires lines != [] ==> lines[|lines| - 1] != []
    ensures SplitLines(Join(lines, "\n")) == lines
  {
    if |lines| == 1 {
      var s := lines[0];
      assert LineEnd(s) == |s|;
    } else if |lines| > 1 {
      var rest := Join(lines[1..], "\n");
      var s := lines[0] + "\n" + rest;
      assert s == lines[0] + ("\n" + rest);
      LineEndOfJoined(lines[0], "\n" + rest);
      assert s[..|lines[0]|] == lines[0];
      assert s[|lines[0]| + 1..] == rest;
      SplitLinesOfJoin(lines[1..]);
    }
  }

  /** The decimal digits of a natural number, as `str(n)` writes them. */
  function NatToString(n: nat): (r: string)
    ensures |r| >= 1
    ensures forall k :: 0 <= k < |r| ==> '0' <= r[k] <= '9'
    decreases n
  {
    var d := ['0' + (n % 10) as char];
    if n < 10 then d else NatToString(n / 10) + d
  }
}
