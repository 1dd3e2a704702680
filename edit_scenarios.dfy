/**
 * The two reordering scenarios of TestEdits, on the nodes the wrapped test
 * inputs parse into (whitespace text between them included), with each node's
 * text as it serializes.
 */
module EditScenarios {
  import opened Wrappers
  import opened Text
  import opened Edits

  /** The tag ranking the reordering test expects: summary, param, returns, exception, remarks. */
  const TestOrdering: seq<string> := ["summary", "param", "returns", "exception", "remarks"]

  /**
   * The root's children when the given nodes are written one per line: a
   * line break before each of them, and one more at the end.
   */
  function OnePerLine(ec: seq<Node>): (nodes: seq<Node>)
    ensures |nodes| == 2 * |ec| + 1
  {
    if ec == [] then [Other([NewLine])] else [Other([NewLine]), ec[0]] + OnePerLine(ec[1..])
  }

  /** Dropping the line breaks of OnePerLine gives the nodes back. */
  lemma {:induction false} ElementsAndCommentsOnePerLine(ec: seq<Node>)
    requires ElementsAndCommentsOnly(ec)
    ensures ElementsAndComments(OnePerLine(ec)) == ec
  {
    if ec != [] {
      var nodes := OnePerLine(ec);
      ElementsAndCommentsOnePerLine(ec[1..]);
      assert nodes[1..] == [ec[0]] + OnePerLine(ec[1..]);
      assert nodes[1..][1..] == OnePerLine(ec[1..]);
      assert ElementsAndComments(nodes) == ElementsAndComments(nodes[1..]);
      assert [ec[0]] + ec[1..] == ec;
    }
  }

  /** The elements and comments of the first test, with their serialized texts x[0] .. x[8]. */
  function FirstTestElementsAndComments(x: seq<string>): seq<Node>
    requires |x| == 9
  {
    [ Element("summary", x[0]), Element("param", x[1]), Element("remarks", x[2]),
      Element("exception", x[3]), Element("param", x[4]), Comment(x[5]),
      Element("param", x[6]), Element("returns", x[7]), Comment(x[8]) ]
  }

  /** The ranks of the five tags. */
  lemma TestRanks()
    ensures Rank(TestOrdering, "summary") == 0
    ensures Rank(TestOrdering, "param") == 1
    ensures Rank(TestOrdering, "returns") == 2
    ensures Rank(TestOrdering, "exception") == 3
    ensures Rank(TestOrdering, "remarks") == 4
    ensures RanksAsInTest(TestOrdering)
  {
    var o := TestOrdering;
    assert o[0][0] == 's' && o[1][0] == 'p' && o[2][0] == 'r' && o[3][0] == 'e' && o[4][0] == 'r';
    assert o[2][2] == 't' && o[4][2] == 'm';
    RankOf(o, "summary", 0);
    RankOf(o, "param", 1);
    RankOf(o, "returns", 2);
    RankOf(o, "exception", 3);
    RankOf(o, "remarks", 4);
  }

  /** Orderings that rank the five tags as the test expects: summary, param, returns, exception, remarks. */
  predicate RanksAsInTest(ord: seq<string>) {
    && Rank(ord, "summary") < Rank(ord, "param")
    && Rank(ord, "param") < Rank(ord, "returns")
    && Rank(ord, "returns") < Rank(ord, "exception")
    && Rank(ord, "exception") < Rank(ord, "remarks")
  }

  /** The element positions of the first test, in document order. */
  lemma FirstTestPositions(x: seq<string>)
    requires |x| == 9
    ensures ElementPositions(FirstTestElementsAndComments(x)) == [0, 1, 2, 3, 4, 6, 7]
  {
    var ec := FirstTestElementsAndComments(x);
    assert ElementsBelow(ec, 0) == [];
    assert ElementsBelow(ec, 1) == [0];
    assert ElementsBelow(ec, 2) == [0, 1];
    assert ElementsBelow(ec, 3) == [0, 1, 2];
    assert ElementsBelow(ec, 4) == [0, 1, 2, 3];
    assert ElementsBelow(ec, 5) == [0, 1, 2, 3, 4];
    assert ElementsBelow(ec, 6) == [0, 1, 2, 3, 4];
    assert ElementsBelow(ec, 7) == [0, 1, 2, 3, 4, 6];
    assert ElementsBelow(ec, 8) == [0, 1, 2, 3, 4, 6, 7];
  }

  /** Neighbours in the expected element order are in comparer order. */
  lemma FirstTestNeighbours(ord: seq<string>, x: seq<string>)
    requires RanksAsInTest(ord) && |x| == 9
    ensures var ec := FirstTestElementsAndComments(x);
      && Before(ord, ec, 0, 1) && Before(ord, ec, 1, 4)
      && Before(ord, ec, 4, 6) && Before(ord, ec, 6, 7)
      && Before(ord, ec, 7, 3) && Before(ord, ec, 3, 2)
  {
  }

  /** Seven positions whose neighbours are in comparer order are in comparer order. */
  lemma OrderedSeven(ord: seq<string>, ec: seq<Node>, a: nat, b: nat, c: nat, d: nat, e: nat, f: nat, g: nat)
    requires Before(ord, ec, a, b) && Before(ord, ec, b, c) && Before(ord, ec, c, d)
    requires Before(ord, ec, d, e) && Before(ord, ec, e, f) && Before(ord, ec, f, g)
    ensures Ordered(ord, ec, [a, b, c, d, e, f, g])
  {
    var ps := [a, b, c, d, e, f, g];
    forall i | 0 <= i < |ps| - 1 ensures Before(ord, ec, ps[i], ps[i + 1]) {
      assert i in {0, 1, 2, 3, 4, 5};
    }
    OrderedFromNeighbours(ord, ec, ps);
  }

  /** The expected element order is in comparer order. */
  lemma FirstTestExpectedOrdered(ord: seq<string>, x: seq<string>)
    requires RanksAsInTest(ord) && |x| == 9
    ensures Ordered(ord, FirstTestElementsAndComments(x), [0, 1, 4, 6, 7, 3, 2])
  {
    FirstTestNeighbours(ord, x);
    OrderedSeven(ord, FirstTestElementsAndComments(x), 0, 1, 4, 6, 7, 3, 2);
  }

  /** The expected element order holds the same positions as document order. */
  lemma FirstTestSamePositions()
    ensures multiset([0, 1, 2, 3, 4, 6, 7]) == multiset([0, 1, 4, 6, 7, 3, 2])
  {
    var a: seq<nat> := [0, 1, 2, 3, 4, 6, 7];
    var b: seq<nat> := [0, 1, 4, 6, 7, 3, 2];
    assert a == [0, 1] + [2, 3] + [4, 6, 7];
    assert b == [0, 1] + [4, 6, 7] + [3, 2];
    assert multiset([2, 3]) == multiset([3, 2]);
  }

  /** The elements of the first test in tag order. */
  lemma FirstTestSorted(ord: seq<string>, x: seq<string>)
    requires RanksAsInTest(ord) && |x| == 9
    ensures OrderedElements(ord, FirstTestElementsAndComments(x)) == [0, 1, 4, 6, 7, 3, 2]
  {
    var ec := FirstTestElementsAndComments(x);
    FirstTestPositions(x);
    FirstTestSamePositions();
    FirstTestExpectedOrdered(ord, x);
    OrderedUnique(ord, ec, OrderedElements(ord, ec), [0, 1, 4, 6, 7, 3, 2]);
  }

  /** The blocks of the first test's elements: only the fifth param has a comment before it. */
  lemma FirstTestBlocks(x: seq<string>)
    requires |x| == 9
    ensures var ec := FirstTestElementsAndComments(x);
      && Block(ec, 0) == [0] && Block(ec, 1) == [1] && Block(ec, 2) == [2] && Block(ec, 3) == [3]
      && Block(ec, 4) == [4] && Block(ec, 6) == [5, 6] && Block(ec, 7) == [7]
      && Trailing(ec) == [8]
  {
    var ec := FirstTestElementsAndComments(x);
    assert RunStart(ec, 5) == 5;
    assert RunStart(ec, 6) == 5;
    assert RunStart(ec, 8) == 8;
    assert RunStart(ec, 9) == 8;
  }

  /** The blocks of the last three elements in tag order. */
  lemma FirstTestEmitTail(x: seq<string>)
    requires |x| == 9
    ensures Emit(FirstTestElementsAndComments(x), [7, 3, 2]) == [7, 3, 2]
  {
    var ec := FirstTestElementsAndComments(x);
    FirstTestBlocks(x);
    EmitCons(ec, 2, []);
    assert Emit(ec, [2]) == [2] by { assert [2] + [] == [2]; }
    EmitCons(ec, 3, [2]);
    assert Emit(ec, [3, 2]) == [3, 2] by { assert [3] + [2] == [3, 2]; }
    EmitCons(ec, 7, [3, 2]);
    assert [7] + [3, 2] == [7, 3, 2];
  }

  /** The blocks of the last five elements in tag order. */
  lemma FirstTestEmitMiddle(x: seq<string>)
    requires |x| == 9
    ensures Emit(FirstTestElementsAndComments(x), [4, 6, 7, 3, 2]) == [4, 5, 6, 7, 3, 2]
  {
    var ec := FirstTestElementsAndComments(x);
    FirstTestBlocks(x);
    FirstTestEmitTail(x);
    EmitCons(ec, 6, [7, 3, 2]);
    assert Emit(ec, [6, 7, 3, 2]) == [5, 6, 7, 3, 2] by {
      assert [6] + [7, 3, 2] == [6, 7, 3, 2];
      assert [5, 6] + [7, 3, 2] == [5, 6, 7, 3, 2];
    }
    EmitCons(ec, 4, [6, 7, 3, 2]);
    assert [4] + [6, 7, 3, 2] == [4, 6, 7, 3, 2];
    assert [4] + [5, 6, 7, 3, 2] == [4, 5, 6, 7, 3, 2];
  }

  /** The blocks of the first test's elements, in tag order. */
  lemma FirstTestEmit(x: seq<string>)
    requires |x| == 9
    ensures Emit(FirstTestElementsAndComments(x), [0, 1, 4, 6, 7, 3, 2]) == [0, 1, 4, 5, 6, 7, 3, 2]
  {
    var ec := FirstTestElementsAndComments(x);
    FirstTestBlocks(x);
    FirstTestEmitMiddle(x);
    EmitCons(ec, 1, [4, 6, 7, 3, 2]);
    assert Emit(ec, [1, 4, 6, 7, 3, 2]) == [1, 4, 5, 6, 7, 3, 2] by {
      assert [1] + [4, 6, 7, 3, 2] == [1, 4, 6, 7, 3, 2];
      assert [1] + [4, 5, 6, 7, 3, 2] == [1, 4, 5, 6, 7, 3, 2];
    }
    EmitCons(ec, 0, [1, 4, 6, 7, 3, 2]);
    assert [0] + [1, 4, 6, 7, 3, 2] == [0, 1, 4, 6, 7, 3, 2];
    assert [0] + [1, 4, 5, 6, 7, 3, 2] == [0, 1, 4, 5, 6, 7, 3, 2];
  }

  /**
   * A commented param moves ahead of returns, exception and remarks together
   * with its comment, and the trailing comment stays last.
   */
  lemma FirstTestOrder(ord: seq<string>, x: seq<string>)
    requires RanksAsInTest(ord) && |x| == 9
    ensures EmitOrder(ord, FirstTestElementsAndComments(x)) == [0, 1, 4, 5, 6, 7, 3, 2, 8]
  {
    FirstTestSorted(ord, x);
    FirstTestEmit(x);
    FirstTestBlocks(x);
  }

  /** The texts of the first test's nodes in the order they are written. */
  lemma FirstTestTexts(x: seq<string>)
    requires |x| == 9
    ensures Texts(FirstTestElementsAndComments(x), [0, 1, 4, 5, 6, 7, 3, 2, 8])
         == [x[0], x[1], x[4], x[5], x[6], x[7], x[3], x[2], x[8]]
  {
  }

  /**
   * The first test: for any ordering that ranks summary, param, returns,
   * exception, remarks in that order, the comment comes out as summary,
   * the three params (the commented one with its comment), returns,
   * exception, remarks and the trailing comment.
   */
  lemma FirstTestReorder(ord: seq<string>, x: seq<string>)
    requires RanksAsInTest(ord) && |x| == 9
    ensures ReorderTags(ord, Some(OnePerLine(FirstTestElementsAndComments(x))))
         == Some(TrimEnd(LinesToString([x[0], x[1], x[4], x[5], x[6], x[7], x[3], x[2], x[8]])))
  {
    var ec := FirstTestElementsAndComments(x);
    var order: seq<nat> := [0, 1, 4, 5, 6, 7, 3, 2, 8];
    ElementsAndCommentsOnePerLine(ec);
    FirstTestOrder(ord, x);
    FirstTestTexts(x);
    assert ReorderTags(ord, Some(OnePerLine(ec))) == Some(Render(ec, EmitOrder(ord, ec)));
    assert Render(ec, order) == TrimEnd(LinesToString(Texts(ec, order)));
  }

  /** The first test with the tag ordering it uses. */
  lemma FirstTestWithTestOrdering(x: seq<string>)
    requires |x| == 9
    ensures ReorderTags(TestOrdering, Some(OnePerLine(FirstTestElementsAndComments(x))))
         == Some(TrimEnd(LinesToString([x[0], x[1], x[4], x[5], x[6], x[7], x[3], x[2], x[8]])))
  {
    TestRanks();
    FirstTestReorder(TestOrdering, x);
  }

  /** The second test's nodes keep their places. */
  lemma SecondTestOrder(ord: seq<string>, summary: string, comment: string)
    ensures EmitOrder(ord, [Element("summary", summary), Comment(comment)]) == [0, 1]
  {
    ElementThenCommentInPlace(ord, [Element("summary", summary), Comment(comment)]);
  }

  /** An element followed by a comment is written in place. */
  lemma ElementThenCommentInPlace(ord: seq<string>, ec: seq<Node>)
    requires |ec| == 2 && ec[0].Element? && ec[1].Comment?
    ensures EmitOrder(ord, ec) == [0, 1]
  {
    assert ElementsAndCommentsOnly(ec);
    assert RanksAscend(ord, ec);
    AlreadyOrdered(ord, ec);
    assert Range(0, 2) == [0, 1];
  }

  /** The second test's two nodes written in place, one line each, trimmed. */
  lemma SecondTestRender(summary: string, comment: string)
    requires comment != [] && !IsWhiteSpace(comment[|comment| - 1])
    ensures Render([Element("summary", summary), Comment(comment)], [0, 1]) == summary + [NewLine] + comment
  {
    var ec := [Element("summary", summary), Comment(comment)];
    var body := summary + [NewLine] + comment;
    assert Texts(ec, [0, 1]) == [summary] + [comment];
    LinesToStringCons(summary, [comment]);
    LinesToStringCons(comment, []);
    assert [comment] == [comment] + [];
    assert LinesToString(Texts(ec, [0, 1])) == body + [NewLine];
    TrimEndOfLastLine(body);
  }

  /**
   * The second test: a summary followed by a comment comes out unchanged,
   * whatever the ordering, when the comment does not end in whitespace.
   */
  lemma SecondTestUnchanged(ord: seq<string>, summary: string, comment: string)
    requires comment != [] && !IsWhiteSpace(comment[|comment| - 1])
    ensures ReorderTags(ord, Some(OnePerLine([Element("summary", summary), Comment(comment)])))
         == Some(summary + [NewLine] + comment)
  {
    var ec := [Element("summary", summary), Comment(comment)];
    ElementsAndCommentsOnePerLine(ec);
    SecondTestOrder(ord, summary, comment);
    SecondTestRender(summary, comment);
  }
}
