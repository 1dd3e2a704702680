/**
 * The small pieces of .NET string handling the rewriter relies on, over a
 * fixed whitespace set and a single line terminator.
 */
module Text {

  /** The one line terminator of the model (both for reading and for AppendLine). */
  const NewLine: char := '\n'

  /** A fixed stand-in for .NET's Char.IsWhiteSpace / the regex class \s. */
  predicate IsWhiteSpace(c: char) {
    c == ' ' || c == '\t' || c == '\n' || c == '\r' || c == '\U{0B}' || c == '\U{0C}'
  }

  /** string.IsNullOrWhiteSpace: empty, or whitespace only. */
  predicate IsNullOrWhiteSpace(s: string) {
    forall i :: 0 <= i < |s| ==> IsWhiteSpace(s[i])
  }

  /** The text produced by a StringBuilder that appends every line with AppendLine. */
  function LinesToString(lines: seq<string>): (r: string)
    ensures |lines| == 0 <==> r == []
    ensures |lines| > 0 ==> r[|r| - 1] == NewLine
  {
    if lines == [] then [] else lines[0] + [NewLine] + LinesToString(lines[1..])
  }

  /** Appending lines one list after another appends their texts. */
  lemma {:induction false} LinesToStringAppend(a: seq<string>, b: seq<string>)
    ensures LinesToString(a + b) == LinesToString(a) + LinesToString(b)
  {
    if a != [] {
      assert (a + b)[1..] == a[1..] + b;
      LinesToStringAppend(a[1..], b);
    } else {
      assert a + b == b;
    }
  }

  /** Length of the first line of s: the number of characters before the first terminator. */
  function LineLength(s: string): (k: nat)
    ensures k <= |s|
    ensures NewLine !in s[..k]
    ensures k < |s| ==> s[k] == NewLine
  {
    if s == [] || s[0] == NewLine then 0 else 1 + LineLength(s[1..])
  }

  /**
   * The lines a StringReader yields with ReadLine: split at each terminator;
   * a final terminator does not start an empty last line, and empty text has
   * no lines.
   */
  function Lines(s: string): (r: seq<string>)
    ensures forall i :: 0 <= i < |r| ==> NewLine !in r[i]
    decreases |s|
  {
    if s == [] then []
    else
      var k := LineLength(s);
      if k == |s| then [s] else [s[..k]] + Lines(s[k + 1..])
  }

  /** Text that ReadLine splits without losing anything: empty or terminator-ended. */
  predicate EndsWithNewLine(s: string) {
    s == [] || s[|s| - 1] == NewLine
  }

  /** Text cut at a terminator is the part before it, the terminator and the rest. */
  lemma SplitAtNewLine(s: string, k: nat)
    requires k < |s| && s[k] == NewLine
    ensures s == s[..k] + [NewLine] + s[k + 1..]
  {
    assert s[k..] == [NewLine] + s[k + 1..];
    assert s == s[..k] + s[k..];
  }

  /** A line in front of more lines adds itself and a terminator in front of their text. */
  lemma LinesToStringCons(l: string, ls: seq<string>)
    ensures LinesToString([l] + ls) == l + [NewLine] + LinesToString(ls)
  {
    assert ([l] + ls)[1..] == ls;
  }

  /** Whether text ends with a terminator is decided by what follows its first one. */
  lemma EndsWithNewLineAfter(head: string, tail: string)
    ensures EndsWithNewLine(head + [NewLine] + tail) <==> EndsWithNewLine(tail)
  {
    var s := head + [NewLine] + tail;
    if tail != [] {
      assert s[|s| - 1] == tail[|tail| - 1];
    }
  }

  /** Splitting then re-appending terminators gives back terminated text. */
  lemma {:induction false} LinesToStringOfLines(s: string)
    ensures LinesToString(Lines(s)) == (if EndsWithNewLine(s) then s else s + [NewLine])
    decreases |s|
  {
    if s != [] {
      var k := LineLength(s);
      if k == |s| {
        assert s[..k] == s;
        assert s[|s| - 1] in s[..k];
        assert Lines(s) == [s];
        LinesToStringCons(s, []);
      } else {
        var head, tail := s[..k], s[k + 1..];
        SplitAtNewLine(s, k);
        LinesToStringOfLines(tail);
        assert Lines(s) == [head] + Lines(tail);
        LinesToStringCons(head, Lines(tail));
        EndsWithNewLineAfter(head, tail);
        if !EndsWithNewLine(tail) {
          assert s + [NewLine] == head + [NewLine] + (tail + [NewLine]);
        }
      }
    }
  }

  /** Joining terminator-free lines and splitting again gives back the same lines. */
  lemma {:induction false} LinesOfLinesToString(lines: seq<string>)
    requires forall i :: 0 <= i < |lines| ==> NewLine !in lines[i]
    ensures Lines(LinesToString(lines)) == lines
  {
    if lines != [] {
      LinesOfLinesToString(lines[1..]);
      LinesOfLine(lines[0], LinesToString(lines[1..]));
      assert [lines[0]] + lines[1..] == lines;
    }
  }

  /** One terminator-free line in front of terminated text becomes one more line. */
  lemma {:induction false} LinesOfLine(l: string, rest: string)
    requires NewLine !in l
    ensures Lines(l + [NewLine] + rest) == [l] + Lines(rest)
  {
    var s := l + [NewLine] + rest;
    LineLengthOfPrefix(l, [NewLine] + rest);
    assert s == l + ([NewLine] + rest);
    assert s[..|l|] == l;
    assert s[|l| + 1..] == rest;
  }

  /** The first line of `l + t` is `l` when `l` holds no terminator and `t` starts with one. */
  lemma {:induction false} LineLengthOfPrefix(l: string, t: string)
    requires NewLine !in l
    requires |t| > 0 && t[0] == NewLine
    ensures LineLength(l + t) == |l|
  {
    if l != [] {
      assert (l + t)[1..] == l[1..] + t;
      assert l[0] in l;
      LineLengthOfPrefix(l[1..], t);
    } else {
      assert l + t == t;
    }
  }

  /** string.TrimEnd(): drop trailing whitespace. */
  function TrimEnd(s: string): (r: string)
    ensures |r| <= |s| && r == s[..|r|]
    ensures forall i :: |r| <= i < |s| ==> IsWhiteSpace(s[i])
    ensures r == [] || !IsWhiteSpace(r[|r| - 1])
  {
    if s != [] && IsWhiteSpace(s[|s| - 1]) then TrimEnd(s[..|s| - 1]) else s
  }

  /** Trimming text that ends in one terminator after a non-whitespace character drops just the terminator. */
  lemma TrimEndOfLastLine(s: string)
    requires s != [] && !IsWhiteSpace(s[|s| - 1])
    ensures TrimEnd(s + [NewLine]) == s
  {
    assert (s + [NewLine])[..|s|] == s;
  }

  /** Leading whitespace dropped. */
  function TrimStart(s: string): (r: string)
    ensures |r| <= |s| && r == s[|s| - |r|..]
    ensures forall i :: 0 <= i < |s| - |r| ==> IsWhiteSpace(s[i])
    ensures r == [] || !IsWhiteSpace(r[0])
  {
    if s != [] && IsWhiteSpace(s[0]) then TrimStart(s[1..]) else s
  }

  /** string.Trim(): whitespace dropped at both ends. */
  function Trim(s: string): string {
    TrimStart(TrimEnd(s))
  }

  /** ToLowerInvariant on one character, for the ASCII letters. */
  function ToLowerChar(c: char): (d: char)
    ensures 'A' <= c <= 'Z' ==> d as int == c as int + 32
    ensures !('A' <= c <= 'Z') ==> d == c
  {
    if 'A' <= c <= 'Z' then (c as int + 32) as char else c
  }

  /** ToLowerInvariant on a string, character by character. */
  function ToLower(s: string): (r: string)
    ensures |r| == |s|
    ensures forall i :: 0 <= i < |s| ==> r[i] == ToLowerChar(s[i])
  {
    seq(|s|, i requires 0 <= i < |s| => ToLowerChar(s[i]))
  }
}
