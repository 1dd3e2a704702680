/**
 * The padding model of CSharpCommentRewriter: a `///` comment block is split
 * into lines, each line into its pad (leading whitespace, `///`, at most one
 * space) and its content; after editing, the new lines are padded again with
 * the first original pad on the head line and the second one on every other.
 */
module Padding {
  import opened Wrappers
  import opened Text

  /** One physical line of a doc comment: its pad and what follows it. */
  datatype PaddedLine = PaddedLine(pad: string, content: string)

  /** The ArgumentException "Malformed C# doc comment.". */
  datatype RewriteError = MalformedDocComment

  /** The marker `///` starts at index w of the line. */
  predicate MarkerAt(line: string, w: nat) {
    w + 3 <= |line| && line[w] == '/' && line[w + 1] == '/' && line[w + 2] == '/'
  }

  /** Number of whitespace characters the line starts with. */
  function LeadingWhiteSpace(s: string): (k: nat)
    ensures k <= |s|
    ensures IsNullOrWhiteSpace(s[..k])
    ensures k < |s| ==> !IsWhiteSpace(s[k])
  {
    if s != [] && IsWhiteSpace(s[0]) then
      var k := 1 + LeadingWhiteSpace(s[1..]);
      assert forall i :: 1 <= i < k ==> s[..k][i] == s[1..][..k - 1][i - 1];
      k
    else 0
  }

  /** The line starts with some whitespace and then the marker `///`. */
  ghost predicate HasMarker(line: string) {
    exists w: nat :: w <= |line| && IsNullOrWhiteSpace(line[..w]) && MarkerAt(line, w)
  }

  /**
   * The shape of a pad: whitespace, the marker, then at most one space.
   * The `///` is at index |pad| - 3, or at |pad| - 4 before a final space.
   */
  ghost predicate IsPad(pad: string) {
    || (|pad| >= 3 && MarkerAt(pad, |pad| - 3) && IsNullOrWhiteSpace(pad[..|pad| - 3]))
    || (|pad| >= 4 && MarkerAt(pad, |pad| - 4) && pad[|pad| - 1] == ' ' && IsNullOrWhiteSpace(pad[..|pad| - 4]))
  }

  /** A non-whitespace character behind only whitespace ends the leading whitespace. */
  lemma {:induction false} FirstNonWhiteSpace(line: string, v: nat)
    requires v < |line| && IsNullOrWhiteSpace(line[..v]) && !IsWhiteSpace(line[v])
    ensures LeadingWhiteSpace(line) == v
    decreases v
  {
    if v > 0 {
      assert line[..v][0] == line[0];
      assert line[1..][..v - 1] == line[..v][1..];
      FirstNonWhiteSpace(line[1..], v - 1);
    }
  }

  /** Whether a line has the marker depends only on what follows its leading whitespace. */
  lemma MarkerAfterWhiteSpace(line: string)
    ensures HasMarker(line) <==> MarkerAt(line, LeadingWhiteSpace(line))
  {
    var w := LeadingWhiteSpace(line);
    if MarkerAt(line, w) {
      assert IsNullOrWhiteSpace(line[..w]) && MarkerAt(line, w);
    }
    if HasMarker(line) {
      var v: nat :| v <= |line| && IsNullOrWhiteSpace(line[..v]) && MarkerAt(line, v);
      FirstNonWhiteSpace(line, v);
    }
  }

  /** The pad of a line whose marker ends at index e: up to e, and one space more if there is one. */
  function PadEnd(line: string, e: nat): (p: nat)
    requires e <= |line|
    ensures e <= p <= |line|
  {
    if e < |line| && line[e] == ' ' then e + 1 else e
  }

  /** The pad cut from a line: its leading whitespace, the marker and one optional space. */
  lemma PadShape(line: string, w: nat)
    requires w == LeadingWhiteSpace(line) && MarkerAt(line, w)
    ensures IsPad(line[..PadEnd(line, w + 3)])
  {
    var p := PadEnd(line, w + 3);
    var pad := line[..p];
    assert pad[..w] == line[..w];
  }

  /**
   * Matches the pad pattern (line start, whitespace, `///`, an optional
   * space) against one line: the match is the pad, the text after it the
   * content. The optional space is taken whenever present.
   */
  function SplitPad(line: string): (r: Option<PaddedLine>)
    ensures r.Some? <==> HasMarker(line)
    ensures r.Some? ==> r.value.pad + r.value.content == line && IsPad(r.value.pad)
    ensures r.Some? && r.value.pad[|r.value.pad| - 1] == '/' ==>
              r.value.content == [] || r.value.content[0] != ' '
  {
    var w := LeadingWhiteSpace(line);
    MarkerAfterWhiteSpace(line);
    if MarkerAt(line, w) then
      var p := PadEnd(line, w + 3);
      PadShape(line, w);
      assert line[..p] + line[p..] == line;
      Some(PaddedLine(line[..p], line[p..]))
    else
      None
  }

  /**
   * GetPadLineTuples over every line. A blank line takes the
   * IsNullOrWhiteSpace branch, but that branch does not skip the marker
   * check after it, so a blank line fails like any other line without `///`.
   */
  function PadLineTuples(lines: seq<string>): (r: Result<seq<PaddedLine>, RewriteError>)
    ensures r.Success? <==> forall i :: 0 <= i < |lines| ==> SplitPad(lines[i]).Some?
    ensures r.Success? ==> |r.value| == |lines|
  {
    if lines == [] then Success([])
    else
      var head := SplitPad(lines[0]);
      var tail := PadLineTuples(lines[1..]);
      assert forall i :: 1 <= i < |lines| ==> lines[i] == lines[1..][i - 1];
      if head.None? then Failure(MalformedDocComment)
      else if tail.Failure? then Failure(tail.error)
      else Success([head.value] + tail.value)
  }

  /** The i-th tuple is the i-th line's split. */
  lemma {:induction false} PadLineTuplesAt(lines: seq<string>, i: nat)
    requires PadLineTuples(lines).Success? && i < |lines|
    ensures PadLineTuples(lines).value[i] == SplitPad(lines[i]).value
    decreases |lines|
  {
    if i > 0 {
      PadLineTuplesAt(lines[1..], i - 1);
    }
  }

  /** Every tuple is its line cut into a pad of the right shape and the rest. */
  lemma PadLineTuplesSplit(lines: seq<string>)
    requires PadLineTuples(lines).Success?
    ensures var t := PadLineTuples(lines).value;
      forall i :: 0 <= i < |lines| ==> t[i].pad + t[i].content == lines[i] && IsPad(t[i].pad)
  {
    forall i | 0 <= i < |lines|
      ensures PadLineTuples(lines).value[i].pad + PadLineTuples(lines).value[i].content == lines[i]
      ensures IsPad(PadLineTuples(lines).value[i].pad)
    {
      PadLineTuplesAt(lines, i);
    }
  }

  /** The raw comment split into lines and each line into pad and content. */
  function Decompose(raw: string): (r: Result<seq<PaddedLine>, RewriteError>)
    ensures r.Success? <==> AllMarked(Lines(raw))
    ensures r.Success? ==> |r.value| == |Lines(raw)|
  {
    var lines := Lines(raw);
    AllSplit(lines);
    PadLineTuples(lines)
  }

  /** Every line has the marker. */
  ghost predicate AllMarked(lines: seq<string>) {
    forall i :: 0 <= i < |lines| ==> HasMarker(lines[i])
  }

  /** Every line splits exactly when every line has the marker. */
  lemma AllSplit(lines: seq<string>)
    ensures (forall i :: 0 <= i < |lines| ==> SplitPad(lines[i]).Some?) <==> AllMarked(lines)
  {
    if AllMarked(lines) {
      forall i | 0 <= i < |lines| ensures SplitPad(lines[i]).Some? {
        assert HasMarker(lines[i]);
      }
    }
  }

  function Contents(tuples: seq<PaddedLine>): (r: seq<string>)
    ensures |r| == |tuples| && forall i :: 0 <= i < |r| ==> r[i] == tuples[i].content
  {
    seq(|tuples|, i requires 0 <= i < |tuples| => tuples[i].content)
  }

  /** The text handed to the editor: every content line, each with a terminator. */
  function EditorText(tuples: seq<PaddedLine>): (r: string)
    ensures r == [] <==> tuples == []
    ensures r != [] ==> r[|r| - 1] == NewLine
  {
    LinesToString(Contents(tuples))
  }

  /** `paddings.FirstOrDefault() ?? string.Empty` */
  function FirstPad(tuples: seq<PaddedLine>): string {
    if |tuples| > 0 then tuples[0].pad else ""
  }

  /** `paddings.Skip(1).FirstOrDefault() ?? string.Empty` */
  function SecondPad(tuples: seq<PaddedLine>): string {
    if |tuples| > 1 then tuples[1].pad else ""
  }

  /** The head line gets the first pad, every later line the second pad. */
  function Repad(first: string, second: string, lines: seq<string>): (r: seq<string>)
    ensures |r| == |lines|
    decreases |lines|
  {
    if lines == [] then [] else [first + lines[0]] + Repad(second, second, lines[1..])
  }

  /** The i-th re-padded line is the i-th line behind its pad. */
  lemma {:induction false} RepadAt(first: string, second: string, lines: seq<string>, i: nat)
    requires i < |lines|
    ensures Repad(first, second, lines)[i] == (if i == 0 then first else second) + lines[i]
    decreases i
  {
    if i > 0 {
      RepadAt(second, second, lines[1..], i - 1);
    }
  }

  /** The edited text split into lines, padded again, and joined with terminators. */
  function Recompose(first: string, second: string, rewritten: string): (r: string)
    ensures r == [] <==> Lines(rewritten) == []
    ensures r != [] ==> r[|r| - 1] == NewLine
  {
    LinesToString(Repad(first, second, Lines(rewritten)))
  }

  /** Every line of the raw comment is one decomposed line, and nothing of it is lost. */
  lemma {:induction false} DecomposeRecovers(raw: string)
    requires Decompose(raw).Success?
    ensures var t := Decompose(raw).value;
      LinesToString(seq(|t|, i requires 0 <= i < |t| => t[i].pad + t[i].content))
        == (if EndsWithNewLine(raw) then raw else raw + [NewLine])
  {
    var t := Decompose(raw).value;
    PadLineTuplesSplit(Lines(raw));
    assert seq(|t|, i requires 0 <= i < |t| => t[i].pad + t[i].content) == Lines(raw);
    LinesToStringOfLines(raw);
  }

  /** A decomposition fails exactly when some line lacks the marker; a blank line always does. */
  lemma BlankLineIsMalformed(raw: string, i: nat)
    requires i < |Lines(raw)| && IsNullOrWhiteSpace(Lines(raw)[i])
    ensures Decompose(raw) == Failure(MalformedDocComment)
  {
    var line := Lines(raw)[i];
    assert LeadingWhiteSpace(line) == |line|;
    assert SplitPad(Lines(raw)[i]).None?;
    var d := PadLineTuples(Lines(raw));
    assert d.Failure?;
    assert d.error == MalformedDocComment;
    assert d == Failure(MalformedDocComment);
  }

  /** The content of a decomposed line never holds a terminator. */
  lemma ContentsHaveNoNewLine(raw: string)
    requires Decompose(raw).Success?
    ensures var c := Contents(Decompose(raw).value);
      forall i :: 0 <= i < |c| ==> NewLine !in c[i]
  {
    var t := Decompose(raw).value;
    var ls := Lines(raw);
    PadLineTuplesSplit(ls);
    forall i | 0 <= i < |t| ensures NewLine !in t[i].content {
      assert t[i].content == ls[i][|t[i].pad|..];
    }
  }

  /** The editor sees exactly the contents, line by line, in their original order. */
  lemma EditorTextLines(raw: string)
    requires Decompose(raw).Success?
    ensures Lines(EditorText(Decompose(raw).value)) == Contents(Decompose(raw).value)
  {
    ContentsHaveNoNewLine(raw);
    LinesOfLinesToString(Contents(Decompose(raw).value));
  }

  /**
   * Re-padding of non-empty edited text: each edited line comes back as one
   * line, the head one behind the first pad, every other behind the second
   * pad, and the result ends with a terminator.
   */
  lemma RecomposeLines(first: string, second: string, rewritten: string)
    requires NewLine !in first && NewLine !in second
    requires rewritten != []
    ensures var r := Recompose(first, second, rewritten);
      var ls := Lines(rewritten);
      && r != [] && r[|r| - 1] == NewLine
      && |Lines(r)| == |ls| > 0
      && Lines(r)[0] == first + ls[0]
      && forall i :: 1 <= i < |ls| ==> Lines(r)[i] == second + ls[i]
  {
    var ls := Lines(rewritten);
    var padded := Repad(first, second, ls);
    assert ls != [] by {
      LinesToStringOfLines(rewritten);
    }
    forall i | 0 <= i < |padded| ensures padded[i] == (if i == 0 then first else second) + ls[i] {
      RepadAt(first, second, ls, i);
    }
    LinesOfLinesToString(padded);
  }

  /**
   * When the editor hands back its input unchanged, the block is rebuilt
   * exactly, provided the raw text ends with a terminator and every line
   * after the head shares the second line's pad.
   */
  lemma IdentityEditRoundTrip(raw: string)
    requires EndsWithNewLine(raw)
    requires var d := Decompose(raw);
      d.Success? && forall i :: 1 <= i < |d.value| ==> d.value[i].pad == d.value[1].pad
    ensures var t := Decompose(raw).value;
      Recompose(FirstPad(t), SecondPad(t), EditorText(t)) == raw
  {
    var t := Decompose(raw).value;
    PadLineTuplesSplit(Lines(raw));
    EditorTextLines(raw);
    var lines := Lines(raw);
    var padded := Repad(FirstPad(t), SecondPad(t), Contents(t));
    forall i | 0 <= i < |padded| ensures padded[i] == lines[i] {
      RepadAt(FirstPad(t), SecondPad(t), Contents(t), i);
    }
    assert padded == lines;
    LinesToStringOfLines(raw);
  }
}
