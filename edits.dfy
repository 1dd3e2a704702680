/**
 * Tag reordering of Edits.TryEditReorderTags. The comment body, wrapped in a
 * synthetic root, is parsed into the root's child nodes; the elements are
 * stably sorted by their tag's rank in a tag ordering, each element carries
 * along the run of comments right before it, and the comments after the last
 * element close the result.
 *
 * The XML parser is not modelled: the input is the root's child nodes, or
 * None when the wrapped body does not parse. Every node comes with the text
 * it serializes to.
 */
module Edits {
  import opened Wrappers
  import opened Text

  /** A child node of the synthetic root element. */
  datatype Node =
    | Element(localName: string, text: string)
    | Comment(text: string)
    | Other(text: string)

  /** Positions lo, lo + 1, ..., hi - 1. */
  function Range(lo: nat, hi: nat): (r: seq<nat>)
    requires lo <= hi
    ensures |r| == hi - lo
    ensures forall i :: 0 <= i < |r| ==> r[i] == lo + i
  {
    seq(hi - lo, i requires 0 <= i < hi - lo => lo + i)
  }

  /** No two positions are the same. */
  ghost predicate Distinct(s: seq<nat>) {
    forall i, j :: 0 <= i < j < |s| ==> s[i] != s[j]
  }

  /** Only elements and comments: the nodes the rewrite works on. */
  ghost predicate ElementsAndCommentsOnly(ec: seq<Node>) {
    forall i :: 0 <= i < |ec| ==> !ec[i].Other?
  }

  /** The root's nodes of element or comment type, in document order (text and the rest dropped). */
  function ElementsAndComments(nodes: seq<Node>): (ec: seq<Node>)
    ensures ElementsAndCommentsOnly(ec)
    ensures |ec| <= |nodes|
    ensures forall n :: n in ec ==> n in nodes
    ensures ElementsAndCommentsOnly(nodes) ==> ec == nodes
  {
    if nodes == [] then []
    else if nodes[0].Other? then ElementsAndComments(nodes[1..])
    else
      var rest := ElementsAndComments(nodes[1..]);
      assert ElementsAndCommentsOnly(nodes) ==> ElementsAndCommentsOnly(nodes[1..]);
      assert ElementsAndCommentsOnly(nodes) ==> [nodes[0]] + nodes[1..] == nodes;
      [nodes[0]] + rest
  }

  /** A single node is kept exactly when it is an element or a comment. */
  lemma ElementsAndCommentsOfOne(n: Node)
    ensures ElementsAndComments([n]) == if n.Other? then [] else [n]
  {
    assert [n][1..] == [];
  }

  /** Filtering a concatenation filters each part and keeps them in order. */
  lemma {:induction false} ElementsAndCommentsAppend(a: seq<Node>, b: seq<Node>)
    ensures ElementsAndComments(a + b) == ElementsAndComments(a) + ElementsAndComments(b)
  {
    if a == [] {
      assert a + b == b;
    } else {
      assert (a + b)[0] == a[0];
      assert (a + b)[1..] == a[1..] + b;
      ElementsAndCommentsAppend(a[1..], b);
    }
  }

  /**
   * Every element and comment of the input is kept as often as it occurs,
   * and nothing else is kept.
   */
  lemma {:induction false} ElementsAndCommentsCount(nodes: seq<Node>)
    ensures forall n :: multiset(ElementsAndComments(nodes))[n] == if n.Other? then 0 else multiset(nodes)[n]
  {
    if nodes != [] {
      ElementsAndCommentsCount(nodes[1..]);
      assert nodes == [nodes[0]] + nodes[1..];
      assert multiset(nodes) == multiset{nodes[0]} + multiset(nodes[1..]);
      if !nodes[0].Other? {
        var rest := ElementsAndComments(nodes[1..]);
        assert multiset([nodes[0]] + rest) == multiset{nodes[0]} + multiset(rest);
      }
    }
  }

  /**
   * The number of tags of the ordering before the first one equal to the
   * name; a name the ordering lacks gets its length, after every known tag.
   */
  function Rank(tagOrdering: seq<string>, name: string): (r: nat)
    ensures r <= |tagOrdering|
  {
    if tagOrdering == [] || tagOrdering[0] == name then 0
    else 1 + Rank(tagOrdering[1..], name)
  }

  /** The rank is the index of the first occurrence of the name, or the length of the ordering. */
  lemma {:induction false} RankIsFirstIndex(tagOrdering: seq<string>, name: string)
    ensures var r := Rank(tagOrdering, name);
      && (r < |tagOrdering| <==> name in tagOrdering)
      && (r < |tagOrdering| ==> tagOrdering[r] == name)
      && name !in tagOrdering[..r]
  {
    if tagOrdering != [] && tagOrdering[0] != name {
      var r := Rank(tagOrdering, name);
      RankIsFirstIndex(tagOrdering[1..], name);
      assert tagOrdering[..r] == [tagOrdering[0]] + tagOrdering[1..][..r - 1];
      assert tagOrdering == [tagOrdering[0]] + tagOrdering[1..];
    }
  }

  /** The rank of a name is the index of its first occurrence in the ordering. */
  lemma RankOf(tagOrdering: seq<string>, name: string, k: nat)
    requires k < |tagOrdering| && tagOrdering[k] == name
    requires forall i :: 0 <= i < k ==> tagOrdering[i] != name
    ensures Rank(tagOrdering, name) == k
  {
    RankIsFirstIndex(tagOrdering, name);
  }

  /** The rank of the element at position p (positions that are not elements rank last). */
  function RankAt(tagOrdering: seq<string>, ec: seq<Node>, p: nat): nat {
    if p < |ec| && ec[p].Element? then Rank(tagOrdering, ec[p].localName) else |tagOrdering|
  }

  /**
   * The comparer of the sort: by rank, then by original document order
   * (document order of elements is the order of their positions).
   */
  predicate Before(tagOrdering: seq<string>, ec: seq<Node>, p: nat, q: nat) {
    var rp := RankAt(tagOrdering, ec, p);
    var rq := RankAt(tagOrdering, ec, q);
    rp < rq || (rp == rq && p < q)
  }

  /** Positions in strictly increasing comparer order. */
  ghost predicate Ordered(tagOrdering: seq<string>, ec: seq<Node>, ps: seq<nat>) {
    forall i, j :: 0 <= i < j < |ps| ==> Before(tagOrdering, ec, ps[i], ps[j])
  }

  /** Positions of the elements among the first n nodes, in document order. */
  function ElementsBelow(ec: seq<Node>, n: nat): (r: seq<nat>)
    requires n <= |ec|
    ensures forall i :: 0 <= i < |r| ==> r[i] < n && ec[r[i]].Element?
  {
    if n == 0 then []
    else ElementsBelow(ec, n - 1) + (if ec[n - 1].Element? then [n - 1] else [])
  }

  /** The element positions below n are listed in increasing order. */
  lemma {:induction false} ElementsBelowIncreasing(ec: seq<Node>, n: nat)
    requires n <= |ec|
    ensures forall i, j :: 0 <= i < j < |ElementsBelow(ec, n)| ==> ElementsBelow(ec, n)[i] < ElementsBelow(ec, n)[j]
  {
    if n > 0 {
      var prev := ElementsBelow(ec, n - 1);
      var r := ElementsBelow(ec, n);
      ElementsBelowIncreasing(ec, n - 1);
      assert r == prev + (if ec[n - 1].Element? then [n - 1] else []);
      forall i, j | 0 <= i < j < |r| ensures r[i] < r[j] {
        assert r[i] == prev[i] && prev[i] < n - 1;
        if j < |prev| {
          assert r[j] == prev[j];
        } else {
          assert r[j] == n - 1;
        }
      }
    }
  }

  /** The root's elements, by position. */
  function ElementPositions(ec: seq<Node>): seq<nat> {
    ElementsBelow(ec, |ec|)
  }

  /** The comparer is transitive. */
  lemma BeforeTransitive(tagOrdering: seq<string>, ec: seq<Node>, p: nat, q: nat, r: nat)
    requires Before(tagOrdering, ec, p, q) && Before(tagOrdering, ec, q, r)
    ensures Before(tagOrdering, ec, p, r)
  {
  }

  /** Insertion of one position into an ordered list of positions. */
  function Insert(tagOrdering: seq<string>, ec: seq<Node>, p: nat, ps: seq<nat>): (r: seq<nat>)
    requires Ordered(tagOrdering, ec, ps) && p !in ps
    ensures Ordered(tagOrdering, ec, r)
    ensures multiset(r) == multiset(ps) + multiset{p}
  {
    if ps == [] then [p]
    else if Before(tagOrdering, ec, p, ps[0]) then
      InsertBeforeHead(tagOrdering, ec, p, ps);
      [p] + ps
    else
      var rest := Insert(tagOrdering, ec, p, ps[1..]);
      InsertAfterHead(tagOrdering, ec, p, ps, rest);
      [ps[0]] + rest
  }

  /** A position before the head of an ordered list goes in front of it. */
  lemma InsertBeforeHead(tagOrdering: seq<string>, ec: seq<Node>, p: nat, ps: seq<nat>)
    requires Ordered(tagOrdering, ec, ps) && ps != [] && Before(tagOrdering, ec, p, ps[0])
    ensures Ordered(tagOrdering, ec, [p] + ps)
  {
    forall x | x in ps ensures Before(tagOrdering, ec, p, x) {
      var j :| 0 <= j < |ps| && ps[j] == x;
      if j > 0 {
        BeforeTransitive(tagOrdering, ec, p, ps[0], ps[j]);
      }
    }
    InsertAtFront(tagOrdering, ec, p, ps);
  }

  /** A position not before the head of an ordered list is inserted behind the head. */
  lemma InsertAfterHead(tagOrdering: seq<string>, ec: seq<Node>, p: nat, ps: seq<nat>, rest: seq<nat>)
    requires Ordered(tagOrdering, ec, ps) && ps != [] && p !in ps && !Before(tagOrdering, ec, p, ps[0])
    requires Ordered(tagOrdering, ec, rest) && multiset(rest) == multiset(ps[1..]) + multiset{p}
    ensures Ordered(tagOrdering, ec, [ps[0]] + rest)
    ensures multiset([ps[0]] + rest) == multiset(ps) + multiset{p}
  {
    assert ps == [ps[0]] + ps[1..];
    assert p != ps[0];
    assert Before(tagOrdering, ec, ps[0], p);
    forall x | x in rest ensures Before(tagOrdering, ec, ps[0], x) {
      assert x in multiset(rest);
      if x != p {
        assert x in multiset(ps[1..]);
        var m :| 0 <= m < |ps[1..]| && ps[1..][m] == x;
        assert ps[m + 1] == x;
      }
    }
    InsertAtFront(tagOrdering, ec, ps[0], rest);
  }

  /** A position before everything of an ordered list may go in front of it. */
  lemma InsertAtFront(tagOrdering: seq<string>, ec: seq<Node>, p: nat, ps: seq<nat>)
    requires Ordered(tagOrdering, ec, ps)
    requires forall x :: x in ps ==> Before(tagOrdering, ec, p, x)
    ensures Ordered(tagOrdering, ec, [p] + ps)
  {
    var r := [p] + ps;
    forall i, j | 0 <= i < j < |r| ensures Before(tagOrdering, ec, r[i], r[j]) {
      assert r[j] == ps[j - 1];
      if i > 0 {
        assert r[i] == ps[i - 1];
      }
    }
  }

  /** `OrderBy` with the comparer: the positions sorted by rank, then by position. */
  function SortPositions(tagOrdering: seq<string>, ec: seq<Node>, ps: seq<nat>): (r: seq<nat>)
    requires Distinct(ps)
    ensures Ordered(tagOrdering, ec, r)
    ensures multiset(r) == multiset(ps)
  {
    if ps == [] then []
    else
      DistinctTail(ps);
      var rest := SortPositions(tagOrdering, ec, ps[1..]);
      NotInSameMultiset(ps[0], ps[1..], rest);
      assert multiset(ps) == multiset(ps[1..]) + multiset{ps[0]} by {
        assert ps == [ps[0]] + ps[1..];
      }
      Insert(tagOrdering, ec, ps[0], rest)
  }

  /** The tail of a duplicate-free list is duplicate-free and lacks the head. */
  lemma DistinctTail(ps: seq<nat>)
    requires ps != [] && Distinct(ps)
    ensures Distinct(ps[1..]) && ps[0] !in ps[1..]
  {
    forall i, j | 0 <= i < j < |ps[1..]| ensures ps[1..][i] != ps[1..][j] {
      assert ps[1..][i] == ps[i + 1] && ps[1..][j] == ps[j + 1];
    }
  }

  /** A value missing from a list is missing from every list with the same multiset. */
  lemma NotInSameMultiset(x: nat, a: seq<nat>, b: seq<nat>)
    requires x !in a && multiset(a) == multiset(b)
    ensures x !in b
  {
    assert multiset(b)[x] == multiset(a)[x] == 0;
  }

  /** The elements in the order they are written: a reordering of the element positions. */
  function OrderedElements(tagOrdering: seq<string>, ec: seq<Node>): (r: seq<nat>)
    ensures Ordered(tagOrdering, ec, r)
    ensures multiset(r) == multiset(ElementPositions(ec))
    ensures forall i :: 0 <= i < |r| ==> r[i] < |ec| && ec[r[i]].Element?
  {
    var ps := ElementsBelow(ec, |ec|);
    ElementsBelowIncreasing(ec, |ec|);
    var r := SortPositions(tagOrdering, ec, ps);
    assert forall i :: 0 <= i < |r| ==> r[i] < |ec| && ec[r[i]].Element? by {
      forall i | 0 <= i < |r| ensures r[i] < |ec| && ec[r[i]].Element? {
        assert r[i] in multiset(ps);
        var m :| 0 <= m < |ps| && ps[m] == r[i];
      }
    }
    r
  }

  /**
   * Where the maximal run of comments ending right before position p starts
   * (GetComments, which walks back from p while it sees comments).
   */
  function RunStart(ec: seq<Node>, p: nat): (s: nat)
    requires p <= |ec|
    ensures s <= p
    ensures forall k :: s <= k < p ==> ec[k].Comment?
    ensures s == 0 || !ec[s - 1].Comment?
  {
    if p == 0 || !ec[p - 1].Comment? then p else RunStart(ec, p - 1)
  }

  /** An element together with the run of comments before it. */
  function Block(ec: seq<Node>, p: nat): seq<nat>
    requires p < |ec|
  {
    Range(RunStart(ec, p), p + 1)
  }

  /** The blocks of the given elements, one after another. */
  function Emit(ec: seq<Node>, ps: seq<nat>): (r: seq<nat>)
    requires forall i :: 0 <= i < |ps| ==> ps[i] < |ec|
    ensures forall k :: 0 <= k < |r| ==> r[k] < |ec|
  {
    if ps == [] then [] else Block(ec, ps[0]) + Emit(ec, ps[1..])
  }

  /** The comments after the last element (all comments when there is no element). */
  function Trailing(ec: seq<Node>): (r: seq<nat>)
    ensures forall k :: 0 <= k < |r| ==> r[k] < |ec| && ec[r[k]].Comment?
  {
    Range(RunStart(ec, |ec|), |ec|)
  }

  /** The positions of the nodes in the order they are written. */
  function EmitOrder(tagOrdering: seq<string>, ec: seq<Node>): (out: seq<nat>)
    ensures forall k :: 0 <= k < |out| ==> out[k] < |ec|
  {
    Emit(ec, OrderedElements(tagOrdering, ec)) + Trailing(ec)
  }

  /** The texts of the nodes at the given positions. */
  function Texts(ec: seq<Node>, order: seq<nat>): (r: seq<string>)
    requires forall k :: 0 <= k < |order| ==> order[k] < |ec|
    ensures |r| == |order|
  {
    seq(|order|, k requires 0 <= k < |order| => ec[order[k]].text)
  }

  /** The written nodes, each with a line break, trailing whitespace trimmed. */
  function Render(ec: seq<Node>, order: seq<nat>): (r: string)
    requires forall k :: 0 <= k < |order| ==> order[k] < |ec|
    ensures r == [] || !IsWhiteSpace(r[|r| - 1])
  {
    TrimEnd(LinesToString(Texts(ec, order)))
  }

  /** TryEditReorderTags: None when the wrapped body fails to parse, else the reordered body. */
  function ReorderTags(tagOrdering: seq<string>, parsed: Option<seq<Node>>): (r: Option<string>)
    ensures r.Some? <==> parsed.Some?
  {
    match parsed
    case None => None
    case Some(nodes) =>
      var ec := ElementsAndComments(nodes);
      Some(Render(ec, EmitOrder(tagOrdering, ec)))
  }

  // ---------------------------------------------------------------------
  // Every element and comment is written exactly once.

  lemma {:induction false} EmitAppend(ec: seq<Node>, a: seq<nat>, b: seq<nat>)
    requires forall i :: 0 <= i < |a| ==> a[i] < |ec|
    requires forall i :: 0 <= i < |b| ==> b[i] < |ec|
    ensures Emit(ec, a + b) == Emit(ec, a) + Emit(ec, b)
  {
    if a == [] {
      assert a + b == b;
    } else {
      assert (a + b)[1..] == a[1..] + b;
      EmitAppend(ec, a[1..], b);
    }
  }

  /** One more position on the open run extends the covered range by one. */
  lemma RangeExtend(e: seq<nat>, s: nat, m: nat)
    requires s <= m && e + Range(s, m) == Range(0, m)
    ensures e + Range(s, m + 1) == Range(0, m + 1)
  {
    assert Range(s, m + 1) == Range(s, m) + [m];
    assert Range(0, m + 1) == Range(0, m) + [m];
    assert e + (Range(s, m) + [m]) == (e + Range(s, m)) + [m];
  }

  /** An element closes the open run into its block. */
  lemma ElementStep(ec: seq<Node>, n: nat)
    requires 0 < n <= |ec| && ec[n - 1].Element?
    ensures Emit(ec, ElementsBelow(ec, n)) == Emit(ec, ElementsBelow(ec, n - 1)) + Range(RunStart(ec, n - 1), n)
  {
    EmitAppend(ec, ElementsBelow(ec, n - 1), [n - 1]);
    EmitOne(ec, n - 1);
  }

  /** The blocks of a single element are its block. */
  lemma EmitOne(ec: seq<Node>, p: nat)
    requires p < |ec|
    ensures Emit(ec, [p]) == Block(ec, p)
  {
    assert Emit(ec, [p]) == Block(ec, p) + Emit(ec, []);
    assert Block(ec, p) + [] == Block(ec, p);
  }

  /** A comment extends the open run. */
  lemma CommentStep(ec: seq<Node>, n: nat)
    requires 0 < n <= |ec| && ec[n - 1].Comment?
    ensures ElementsBelow(ec, n) == ElementsBelow(ec, n - 1)
    ensures RunStart(ec, n) == RunStart(ec, n - 1)
  {
    assert ElementsBelow(ec, n) == ElementsBelow(ec, n - 1) + [];
  }

  /** An element ends the open run: what is covered is the blocks alone. */
  lemma ElementCovers(ec: seq<Node>, n: nat)
    requires 0 < n <= |ec| && ec[n - 1].Element?
    requires Emit(ec, ElementsBelow(ec, n - 1)) + Range(RunStart(ec, n - 1), n) == Range(0, n)
    ensures Emit(ec, ElementsBelow(ec, n)) + Range(RunStart(ec, n), n) == Range(0, n)
  {
    ElementStep(ec, n);
    assert RunStart(ec, n) == n;
    assert Emit(ec, ElementsBelow(ec, n)) + Range(n, n) == Emit(ec, ElementsBelow(ec, n));
  }

  /**
   * The blocks of the elements among the first n nodes, followed by the run
   * of comments still open at n, are the positions 0 .. n - 1 in order.
   */
  ghost predicate Covered(ec: seq<Node>, n: nat)
    requires n <= |ec|
  {
    Emit(ec, ElementsBelow(ec, n)) + Range(RunStart(ec, n), n) == Range(0, n)
  }

  /** One more node keeps the blocks and the open run covering every position once. */
  lemma DocumentOrderStep(ec: seq<Node>, n: nat)
    requires ElementsAndCommentsOnly(ec) && 0 < n <= |ec|
    requires Covered(ec, n - 1)
    ensures Covered(ec, n)
  {
    RangeExtend(Emit(ec, ElementsBelow(ec, n - 1)), RunStart(ec, n - 1), n - 1);
    if ec[n - 1].Element? {
      ElementCovers(ec, n);
    } else {
      CommentStep(ec, n);
    }
  }

  /** In document order, the blocks and the open run after them cover every position once. */
  lemma EmitInDocumentOrder(ec: seq<Node>, n: nat)
    requires ElementsAndCommentsOnly(ec) && n <= |ec|
    ensures Covered(ec, n)
  {
    var m := 0;
    assert Covered(ec, 0) by {
      assert Range(RunStart(ec, 0), 0) == [];
    }
    while m < n
      invariant m <= n && Covered(ec, m)
    {
      DocumentOrderStep(ec, m + 1);
      m := m + 1;
    }
  }

  /** Positions with the multiset of bounded positions are bounded too. */
  lemma SameMultisetBounded(ps: seq<nat>, qs: seq<nat>, n: nat)
    requires forall i :: 0 <= i < |ps| ==> ps[i] < n
    requires multiset(ps) == multiset(qs)
    ensures forall i :: 0 <= i < |qs| ==> qs[i] < n
  {
    forall i | 0 <= i < |qs| ensures qs[i] < n {
      assert qs[i] in multiset(ps);
      var j :| 0 <= j < |ps| && ps[j] == qs[i];
    }
  }

  /** A position occurring in qs splits qs around one of its occurrences. */
  lemma SplitAround(qs: seq<nat>, p: nat) returns (a: seq<nat>, c: seq<nat>)
    requires p in multiset(qs)
    ensures qs == a + [p] + c
    ensures multiset(qs) == multiset{p} + multiset(a + c)
  {
    var k :| 0 <= k < |qs| && qs[k] == p;
    a, c := qs[..k], qs[k + 1..];
    assert qs == a + ([p] + c);
  }

  /**
   * Taking the first of ps out of qs leaves a and c around it,
   * together with the same multiset as the rest of ps.
   */
  lemma RemoveFirst(ps: seq<nat>, qs: seq<nat>) returns (a: seq<nat>, c: seq<nat>)
    requires ps != [] && multiset(ps) == multiset(qs)
    ensures qs == a + [ps[0]] + c
    ensures multiset(ps[1..]) == multiset(a + c)
  {
    var p := ps[0];
    assert ps == [p] + ps[1..];
    a, c := SplitAround(qs, p);
    forall x ensures multiset(ps[1..])[x] == multiset(a + c)[x] {
      assert (multiset{p} + multiset(ps[1..]))[x] == (multiset{p} + multiset(a + c))[x];
    }
  }

  /** The parts of bounded positions are bounded. */
  lemma PartsBounded(a: seq<nat>, p: nat, c: seq<nat>, n: nat)
    requires forall i :: 0 <= i < |a + [p] + c| ==> (a + [p] + c)[i] < n
    ensures p < n
    ensures forall i :: 0 <= i < |a| ==> a[i] < n
    ensures forall i :: 0 <= i < |c| ==> c[i] < n
    ensures forall i :: 0 <= i < |a + c| ==> (a + c)[i] < n
  {
    var q := a + [p] + c;
    assert q[|a|] == p;
    forall i | 0 <= i < |a| ensures a[i] < n { assert q[i] == a[i]; }
    forall i | 0 <= i < |c| ensures c[i] < n { assert q[|a| + 1 + i] == c[i]; }
  }

  /** The blocks of a + [p] + c are those of a, then p's, then those of c. */
  lemma EmitAround(ec: seq<Node>, a: seq<nat>, p: nat, c: seq<nat>)
    requires p < |ec|
    requires forall i :: 0 <= i < |a| ==> a[i] < |ec|
    requires forall i :: 0 <= i < |c| ==> c[i] < |ec|
    ensures Emit(ec, a + [p] + c) == Emit(ec, a) + Block(ec, p) + Emit(ec, c)
    ensures Emit(ec, a + c) == Emit(ec, a) + Emit(ec, c)
  {
    assert a + [p] + c == a + ([p] + c);
    EmitAppend(ec, a, [p] + c);
    assert ([p] + c)[1..] == c;
    EmitAppend(ec, a, c);
  }

  /** Reordering the elements only reorders their blocks. */
  lemma {:induction false} EmitPermutation(ec: seq<Node>, ps: seq<nat>, qs: seq<nat>)
    requires forall i :: 0 <= i < |ps| ==> ps[i] < |ec|
    requires multiset(ps) == multiset(qs)
    ensures forall i :: 0 <= i < |qs| ==> qs[i] < |ec|
    ensures multiset(Emit(ec, ps)) == multiset(Emit(ec, qs))
    decreases |ps|
  {
    SameMultisetBounded(ps, qs, |ec|);
    if ps != [] {
      var p := ps[0];
      var a, c := RemoveFirst(ps, qs);
      PartsBounded(a, p, c, |ec|);
      EmitPermutation(ec, ps[1..], a + c);
      EmitAround(ec, a, p, c);
      assert multiset(Block(ec, p) + (Emit(ec, a) + Emit(ec, c))) == multiset(Emit(ec, a) + Block(ec, p) + Emit(ec, c));
    }
  }

  lemma {:induction false} DistinctCount(s: seq<nat>, x: nat)
    requires Distinct(s)
    ensures multiset(s)[x] <= 1
  {
    if s != [] {
      assert s == [s[0]] + s[1..];
      DistinctCount(s[1..], x);
      if x == s[0] {
        assert x !in s[1..];
      }
    }
  }

  /** A sequence with the multiset of a duplicate-free one is duplicate-free. */
  lemma SameMultisetDistinct(a: seq<nat>, b: seq<nat>)
    requires multiset(a) == multiset(b) && Distinct(b)
    ensures Distinct(a)
  {
    forall i, j | 0 <= i < j < |a| ensures a[i] != a[j] {
      if a[i] == a[j] {
        assert a == a[..j] + a[j..];
        assert a[i] in a[..j] && a[j] in a[j..];
        assert multiset(a)[a[i]] == multiset(a[..j])[a[i]] + multiset(a[j..])[a[i]];
        DistinctCount(b, a[i]);
      }
    }
  }

  /**
   * Every element and comment node is written exactly once: the written
   * positions are the positions 0 .. |ec| - 1, each once, in some order.
   */
  lemma EachNodeOnce(tagOrdering: seq<string>, ec: seq<Node>)
    requires ElementsAndCommentsOnly(ec)
    ensures var out := EmitOrder(tagOrdering, ec);
      && multiset(out) == multiset(Range(0, |ec|))
      && |out| == |ec|
      && Distinct(out)
      && forall p :: 0 <= p < |ec| ==> p in out
  {
    var out := EmitOrder(tagOrdering, ec);
    var sorted := OrderedElements(tagOrdering, ec);
    EmitInDocumentOrder(ec, |ec|);
    EmitPermutation(ec, ElementPositions(ec), sorted);
    assert multiset(out) == multiset(Range(0, |ec|));
    SameMultisetDistinct(out, Range(0, |ec|));
    assert |out| == |multiset(out)| == |ec|;
    forall p | 0 <= p < |ec| ensures p in out {
      assert Range(0, |ec|)[p] == p;
      assert p in multiset(Range(0, |ec|));
    }
  }

  /** The nodes at positions a + [p] + c are those at a, then p's node, then those at c. */
  lemma PickAround(ec: seq<Node>, a: seq<nat>, p: nat, c: seq<nat>)
    requires forall i :: 0 <= i < |a + [p] + c| ==> (a + [p] + c)[i] < |ec|
    ensures p < |ec|
    ensures forall i :: 0 <= i < |a| ==> a[i] < |ec|
    ensures forall i :: 0 <= i < |c| ==> c[i] < |ec|
    ensures forall i :: 0 <= i < |a + c| ==> (a + c)[i] < |ec|
    ensures Pick(ec, a + [p] + c) == Pick(ec, a) + [ec[p]] + Pick(ec, c)
    ensures Pick(ec, a + c) == Pick(ec, a) + Pick(ec, c)
  {
    PartsBounded(a, p, c, |ec|);
  }

  /** Picking the same positions in another order picks the same nodes in another order. */
  lemma {:induction false} PickPermutation(ec: seq<Node>, ps: seq<nat>, qs: seq<nat>)
    requires forall i :: 0 <= i < |ps| ==> ps[i] < |ec|
    requires multiset(ps) == multiset(qs)
    ensures forall i :: 0 <= i < |qs| ==> qs[i] < |ec|
    ensures multiset(Pick(ec, ps)) == multiset(Pick(ec, qs))
    decreases |ps|
  {
    SameMultisetBounded(ps, qs, |ec|);
    if ps != [] {
      var p := ps[0];
      var a, c := RemoveFirst(ps, qs);
      PickAround(ec, a, p, c);
      PickPermutation(ec, ps[1..], a + c);
      PickAround(ec, [], p, ps[1..]);
      assert [] + [p] + ps[1..] == ps;
      assert Pick(ec, []) == [];
    }
  }

  /**
   * TryEditReorderTags on parsed nodes writes every element and comment of
   * the input exactly once, as often as it occurs there, and no other node.
   */
  lemma ReorderWritesEachNodeOnce(tagOrdering: seq<string>, nodes: seq<Node>)
    ensures var ec := ElementsAndComments(nodes);
      var out := EmitOrder(tagOrdering, ec);
      && ReorderTags(tagOrdering, Some(nodes)) == Some(Render(ec, out))
      && |out| == |ec| && Distinct(out)
      && (forall p :: 0 <= p < |ec| ==> p in out)
      && forall n :: multiset(Pick(ec, out))[n] == if n.Other? then 0 else multiset(nodes)[n]
  {
    var ec := ElementsAndComments(nodes);
    var out := EmitOrder(tagOrdering, ec);
    EachNodeOnce(tagOrdering, ec);
    PickPermutation(ec, out, Range(0, |ec|));
    assert Pick(ec, Range(0, |ec|)) == ec;
    ElementsAndCommentsCount(nodes);
  }

  // ---------------------------------------------------------------------
  // Elements come out in comparer order.

  /** The elements written in Emit(ps) are among ps. */
  lemma {:induction false} EmitElementsFrom(ec: seq<Node>, ps: seq<nat>, k: nat)
    requires forall i :: 0 <= i < |ps| ==> ps[i] < |ec|
    requires k < |Emit(ec, ps)| && ec[Emit(ec, ps)[k]].Element?
    ensures Emit(ec, ps)[k] in ps
  {
    var b := Block(ec, ps[0]);
    if k >= |b| {
      EmitElementsFrom(ec, ps[1..], k - |b|);
    }
  }

  /** Inside one block only its last position is an element. */
  lemma BlockElementIsLast(ec: seq<Node>, p: nat, i: nat)
    requires p < |ec| && i < |Block(ec, p)| && ec[Block(ec, p)[i]].Element?
    ensures i == |Block(ec, p)| - 1 && Block(ec, p)[i] == p
  {
  }

  /** What follows the head of an ordered list is ordered. */
  lemma OrderedTail(tagOrdering: seq<string>, ec: seq<Node>, ps: seq<nat>)
    requires ps != [] && Ordered(tagOrdering, ec, ps)
    ensures Ordered(tagOrdering, ec, ps[1..])
  {
    forall x, y | 0 <= x < y < |ps[1..]| ensures Before(tagOrdering, ec, ps[1..][x], ps[1..][y]) {
      assert ps[1..][x] == ps[x + 1] && ps[1..][y] == ps[y + 1];
    }
  }

  /** An element written after the head's block comes from the rest of an ordered list, so after the head. */
  lemma EmitAfterHead(tagOrdering: seq<string>, ec: seq<Node>, ps: seq<nat>, j: nat)
    requires forall k :: 0 <= k < |ps| ==> ps[k] < |ec|
    requires ps != [] && Ordered(tagOrdering, ec, ps)
    requires j < |Emit(ec, ps[1..])| && ec[Emit(ec, ps[1..])[j]].Element?
    ensures Before(tagOrdering, ec, ps[0], Emit(ec, ps[1..])[j])
  {
    EmitElementsFrom(ec, ps[1..], j);
    var m :| 0 <= m < |ps[1..]| && ps[1..][m] == Emit(ec, ps[1..])[j];
    assert ps[m + 1] == Emit(ec, ps[1..])[j];
  }

  /** A position of Emit(ps) lies in the head's block or in the blocks of the rest. */
  lemma EmitHeadBlock(ec: seq<Node>, ps: seq<nat>, k: nat)
    requires forall i :: 0 <= i < |ps| ==> ps[i] < |ec|
    requires ps != [] && k < |Emit(ec, ps)|
    ensures var b := Block(ec, ps[0]);
      && (k < |b| ==> Emit(ec, ps)[k] == b[k])
      && (k >= |b| ==> k - |b| < |Emit(ec, ps[1..])| && Emit(ec, ps)[k] == Emit(ec, ps[1..])[k - |b|])
  {
  }

  /** Two elements written in Emit(ps) come out in the order of ps. */
  lemma {:induction false} EmitOrderedAt(tagOrdering: seq<string>, ec: seq<Node>, ps: seq<nat>, i: nat, j: nat)
    requires forall k :: 0 <= k < |ps| ==> ps[k] < |ec|
    requires Ordered(tagOrdering, ec, ps)
    requires i < j < |Emit(ec, ps)|
    requires ec[Emit(ec, ps)[i]].Element? && ec[Emit(ec, ps)[j]].Element?
    ensures Before(tagOrdering, ec, Emit(ec, ps)[i], Emit(ec, ps)[j])
    decreases |ps|
  {
    var b := Block(ec, ps[0]);
    EmitHeadBlock(ec, ps, i);
    EmitHeadBlock(ec, ps, j);
    if i < |b| {
      BlockElementIsLast(ec, ps[0], i);
      EmitAfterHead(tagOrdering, ec, ps, j - |b|);
    } else {
      OrderedTail(tagOrdering, ec, ps);
      EmitOrderedAt(tagOrdering, ec, ps[1..], i - |b|, j - |b|);
    }
  }

  /** The trailing run holds only comments. */
  lemma TrailingComments(ec: seq<Node>)
    ensures forall k :: 0 <= k < |Trailing(ec)| ==> Trailing(ec)[k] < |ec| && ec[Trailing(ec)[k]].Comment?
  {
  }

  /** Behind blocks of comparer-ordered elements, a run of comments adds no element. */
  lemma EmitThenCommentsOrdered(tagOrdering: seq<string>, ec: seq<Node>, ps: seq<nat>, t: seq<nat>)
    requires forall k :: 0 <= k < |ps| ==> ps[k] < |ec|
    requires Ordered(tagOrdering, ec, ps)
    requires forall k :: 0 <= k < |t| ==> t[k] < |ec| && ec[t[k]].Comment?
    ensures var out := Emit(ec, ps) + t;
      forall i, j :: 0 <= i < j < |out| && ec[out[i]].Element? && ec[out[j]].Element? ==>
        Before(tagOrdering, ec, out[i], out[j])
  {
    var e := Emit(ec, ps);
    var out := e + t;
    forall i, j | 0 <= i < j < |out| && ec[out[i]].Element? && ec[out[j]].Element?
      ensures Before(tagOrdering, ec, out[i], out[j])
    {
      assert j < |e|;
      assert out[i] == e[i] && out[j] == e[j];
      EmitOrderedAt(tagOrdering, ec, ps, i, j);
    }
  }

  /**
   * Elements are written by rank, and elements of equal rank (the same tag,
   * or two unknown tags) in their original order.
   */
  lemma ElementsInOrder(tagOrdering: seq<string>, ec: seq<Node>)
    ensures var out := EmitOrder(tagOrdering, ec);
      forall i, j :: 0 <= i < j < |out| && ec[out[i]].Element? && ec[out[j]].Element? ==>
        || RankAt(tagOrdering, ec, out[i]) < RankAt(tagOrdering, ec, out[j])
        || (RankAt(tagOrdering, ec, out[i]) == RankAt(tagOrdering, ec, out[j]) && out[i] < out[j])
  {
    var out := EmitOrder(tagOrdering, ec);
    TrailingComments(ec);
    EmitThenCommentsOrdered(tagOrdering, ec, OrderedElements(tagOrdering, ec), Trailing(ec));
    assert out == Emit(ec, OrderedElements(tagOrdering, ec)) + Trailing(ec);
    forall i, j | 0 <= i < j < |out| && ec[out[i]].Element? && ec[out[j]].Element?
      ensures Before(tagOrdering, ec, out[i], out[j])
    {
    }
  }

  // ---------------------------------------------------------------------
  // Comments stay attached to the node that followed them.

  /** Every written comment is followed by the node that followed it in the document. */
  ghost predicate CommentsAttached(ec: seq<Node>, out: seq<nat>)
    requires forall k :: 0 <= k < |out| ==> out[k] < |ec|
  {
    forall k :: 0 <= k < |out| - 1 && ec[out[k]].Comment? ==> out[k + 1] == out[k] + 1
  }

  /** Gluing a run whose last node is not a comment in front of another run keeps comments attached. */
  lemma AttachedAppend(ec: seq<Node>, a: seq<nat>, b: seq<nat>)
    requires forall k :: 0 <= k < |a| ==> a[k] < |ec|
    requires forall k :: 0 <= k < |b| ==> b[k] < |ec|
    requires CommentsAttached(ec, a) && CommentsAttached(ec, b)
    requires a != [] ==> !ec[a[|a| - 1]].Comment?
    ensures CommentsAttached(ec, a + b)
  {
    var x := a + b;
    forall k | 0 <= k < |x| - 1 && ec[x[k]].Comment? ensures x[k + 1] == x[k] + 1 {
      if k < |a| {
        assert x[k] == a[k];
        assert k + 1 < |a|;
        assert x[k + 1] == a[k + 1];
      } else {
        assert x[k] == b[k - |a|] && x[k + 1] == b[k + 1 - |a|];
      }
    }
  }

  /** The blocks of elements end in an element. */
  lemma {:induction false} EmitEndsInElement(ec: seq<Node>, ps: seq<nat>)
    requires forall i :: 0 <= i < |ps| ==> ps[i] < |ec| && ec[ps[i]].Element?
    ensures var e := Emit(ec, ps); e != [] ==> ec[e[|e| - 1]].Element?
  {
    if ps != [] {
      var b := Block(ec, ps[0]);
      var rest := Emit(ec, ps[1..]);
      EmitEndsInElement(ec, ps[1..]);
      var e := Emit(ec, ps);
      if rest != [] {
        assert e[|e| - 1] == rest[|rest| - 1];
      } else {
        assert e[|e| - 1] == b[|b| - 1] == ps[0];
      }
    }
  }

  /** The blocks of elements keep every comment before its successor. */
  lemma {:induction false} EmitAttached(ec: seq<Node>, ps: seq<nat>)
    requires forall i :: 0 <= i < |ps| ==> ps[i] < |ec| && ec[ps[i]].Element?
    ensures CommentsAttached(ec, Emit(ec, ps))
  {
    if ps != [] {
      EmitAttached(ec, ps[1..]);
      AttachedAppend(ec, Block(ec, ps[0]), Emit(ec, ps[1..]));
    }
  }

  /** After the blocks of elements and the trailing run, the last node is the document's last or an element. */
  lemma LastOfBlocksAndTrailing(ec: seq<Node>, ps: seq<nat>)
    requires forall i :: 0 <= i < |ps| ==> ps[i] < |ec| && ec[ps[i]].Element?
    ensures var out := Emit(ec, ps) + Trailing(ec);
      out != [] ==> out[|out| - 1] == |ec| - 1 || ec[out[|out| - 1]].Element?
  {
    var e := Emit(ec, ps);
    var t := Trailing(ec);
    EmitEndsInElement(ec, ps);
    if t != [] {
      assert (e + t)[|e + t| - 1] == t[|t| - 1];
    } else {
      assert e + t == e;
    }
  }

  /** The last written node is the document's last node or an element. */
  lemma LastWritten(tagOrdering: seq<string>, ec: seq<Node>)
    ensures var out := EmitOrder(tagOrdering, ec);
      out != [] ==> out[|out| - 1] == |ec| - 1 || ec[out[|out| - 1]].Element?
  {
    LastOfBlocksAndTrailing(ec, OrderedElements(tagOrdering, ec));
  }

  /** Every written comment is followed by the node that followed it in the document. */
  lemma CommentsLeadOn(tagOrdering: seq<string>, ec: seq<Node>)
    ensures var out := EmitOrder(tagOrdering, ec);
      forall k :: 0 <= k < |out| - 1 && ec[out[k]].Comment? ==> out[k + 1] == out[k] + 1
  {
    var sorted := OrderedElements(tagOrdering, ec);
    var e := Emit(ec, sorted);
    EmitAttached(ec, sorted);
    EmitEndsInElement(ec, sorted);
    AttachedAppend(ec, e, Trailing(ec));
  }

  /**
   * In a list that writes every node once, keeps comments attached and ends
   * in the last node or an element, the node before a comment's successor
   * is that comment.
   */
  lemma AttachedBackwards(ec: seq<Node>, out: seq<nat>, k: nat)
    requires forall i :: 0 <= i < |out| ==> out[i] < |ec|
    requires Distinct(out) && forall p :: 0 <= p < |ec| ==> p in out
    requires out != [] ==> out[|out| - 1] == |ec| - 1 || ec[out[|out| - 1]].Element?
    requires CommentsAttached(ec, out)
    requires k < |out| && 0 < out[k] && ec[out[k] - 1].Comment?
    ensures 0 < k && out[k - 1] == out[k] - 1
  {
    var c := out[k] - 1;
    assert c in out;
    var m :| 0 <= m < |out| && out[m] == c;
    assert m < |out| - 1;
    assert out[m + 1] == out[k];
  }

  /**
   * Every node that followed a comment in the document is written right
   * after it: the run of comments moves together with the element after it.
   */
  lemma CommentsStayAttached(tagOrdering: seq<string>, ec: seq<Node>)
    requires ElementsAndCommentsOnly(ec)
    ensures var out := EmitOrder(tagOrdering, ec);
      forall k :: 0 <= k < |out| && 0 < out[k] && ec[out[k] - 1].Comment? ==>
        0 < k && out[k - 1] == out[k] - 1
  {
    var out := EmitOrder(tagOrdering, ec);
    LastWritten(tagOrdering, ec);
    EachNodeOnce(tagOrdering, ec);
    CommentsLeadOn(tagOrdering, ec);
    assert CommentsAttached(ec, out);
    forall k | 0 <= k < |out| && 0 < out[k] && ec[out[k] - 1].Comment?
      ensures 0 < k && out[k - 1] == out[k] - 1
    {
      AttachedBackwards(ec, out, k);
    }
  }

  /** Where the block of ps[i] sits among the blocks of ps and what follows them. */
  lemma BlockAt(ec: seq<Node>, ps: seq<nat>, i: nat, tail: seq<nat>)
    requires forall k :: 0 <= k < |ps| ==> ps[k] < |ec|
    requires i < |ps|
    ensures var out := Emit(ec, ps) + tail;
      var k := |Emit(ec, ps[..i])|;
      var b := Block(ec, ps[i]);
      k + |b| <= |out| && out[k..k + |b|] == b
  {
    var p := ps[i];
    var a, c := ps[..i], ps[i + 1..];
    assert ps == ps[..i] + [ps[i]] + ps[i + 1..];
    PartsBounded(a, p, c, |ec|);
    EmitAround(ec, a, p, c);
    var ea, b := Emit(ec, a), Block(ec, p);
    SliceMiddle(ea, b, Emit(ec, c), tail);
  }

  /** The middle part of a concatenation, sliced out again. */
  lemma SliceMiddle(x: seq<nat>, y: seq<nat>, z: seq<nat>, w: seq<nat>)
    ensures (x + y + z) + w == x + y + (z + w)
    ensures (x + y + (z + w))[|x|..|x| + |y|] == y
  {
  }

  /**
   * Each element is written right after exactly the maximal run of comments
   * that preceded it in the document, at the place its rank gives it.
   */
  lemma BlockTravels(tagOrdering: seq<string>, ec: seq<Node>, i: nat)
    requires i < |OrderedElements(tagOrdering, ec)|
    ensures var sorted := OrderedElements(tagOrdering, ec);
      var out := EmitOrder(tagOrdering, ec);
      var p := sorted[i];
      var k := |Emit(ec, sorted[..i])|;
      k + (p + 1 - RunStart(ec, p)) <= |out| && out[k..k + (p + 1 - RunStart(ec, p))] == Range(RunStart(ec, p), p + 1)
  {
    BlockAt(ec, OrderedElements(tagOrdering, ec), i, Trailing(ec));
  }

  /** The blocks of elements below n stay below n. */
  lemma {:induction false} EmitBelow(ec: seq<Node>, ps: seq<nat>, n: nat)
    requires forall i :: 0 <= i < |ps| ==> ps[i] < |ec| && ps[i] < n
    ensures forall k :: 0 <= k < |Emit(ec, ps)| ==> Emit(ec, ps)[k] < n
  {
    if ps != [] {
      EmitBelow(ec, ps[1..], n);
      var b, rest := Block(ec, ps[0]), Emit(ec, ps[1..]);
      forall k | 0 <= k < |b + rest| ensures (b + rest)[k] < n {
        if k < |b| {
          assert b[k] <= ps[0];
        } else {
          assert (b + rest)[k] == rest[k - |b|];
        }
      }
    }
  }

  /**
   * The maximal run of comments after the last element is written once, in
   * document order, after everything else: every node written before it
   * comes before it in the document.
   */
  lemma TrailingLast(tagOrdering: seq<string>, ec: seq<Node>)
    ensures var out := EmitOrder(tagOrdering, ec);
      var t := Range(RunStart(ec, |ec|), |ec|);
      && |t| <= |out| && out[|out| - |t|..] == t
      && forall k :: 0 <= k < |out| - |t| ==> out[k] < RunStart(ec, |ec|)
  {
    var sorted := OrderedElements(tagOrdering, ec);
    var s := RunStart(ec, |ec|);
    forall i | 0 <= i < |sorted| ensures sorted[i] < s {
    }
    EmitBelow(ec, sorted, s);
    var e := Emit(ec, sorted);
    var out := e + Trailing(ec);
    assert out[|e|..] == Trailing(ec);
    forall k | 0 <= k < |e| ensures out[k] < s {
      assert out[k] == e[k];
    }
  }

  // ---------------------------------------------------------------------
  // Comments already in order are left as they are.

  /** The comparer never puts two positions before each other. */
  lemma BeforeAsymmetric(tagOrdering: seq<string>, ec: seq<Node>, p: nat, q: nat)
    requires Before(tagOrdering, ec, p, q)
    ensures !Before(tagOrdering, ec, q, p)
  {
  }

  /** A list whose neighbours are in comparer order is in comparer order. */
  lemma {:induction false} OrderedFromNeighbours(tagOrdering: seq<string>, ec: seq<Node>, ps: seq<nat>)
    requires forall i :: 0 <= i < |ps| - 1 ==> Before(tagOrdering, ec, ps[i], ps[i + 1])
    ensures Ordered(tagOrdering, ec, ps)
  {
    if ps != [] {
      var rest := ps[1..];
      forall i | 0 <= i < |rest| - 1 ensures Before(tagOrdering, ec, rest[i], rest[i + 1]) {
        assert rest[i] == ps[i + 1] && rest[i + 1] == ps[i + 2];
      }
      OrderedFromNeighbours(tagOrdering, ec, rest);
      forall j | 0 < j < |ps| ensures Before(tagOrdering, ec, ps[0], ps[j]) {
        if j > 1 {
          assert Before(tagOrdering, ec, rest[0], rest[j - 1]);
          BeforeTransitive(tagOrdering, ec, ps[0], ps[1], ps[j]);
        }
      }
      forall i, j | 0 <= i < j < |ps| ensures Before(tagOrdering, ec, ps[i], ps[j]) {
        if i > 0 {
          assert Before(tagOrdering, ec, rest[i - 1], rest[j - 1]);
        }
      }
    }
  }

  /** Two comparer-ordered lists of the same positions start with the same position. */
  lemma OrderedHeads(tagOrdering: seq<string>, ec: seq<Node>, a: seq<nat>, b: seq<nat>)
    requires Ordered(tagOrdering, ec, a) && Ordered(tagOrdering, ec, b)
    requires multiset(a) == multiset(b) && a != []
    ensures b != [] && a[0] == b[0]
  {
    assert a[0] in multiset(b);
    var m :| 0 <= m < |b| && b[m] == a[0];
    assert b[0] in multiset(a);
    var l :| 0 <= l < |a| && a[l] == b[0];
    if a[0] != b[0] {
      assert Before(tagOrdering, ec, a[0], a[l]);
      BeforeAsymmetric(tagOrdering, ec, b[0], b[m]);
      assert false;
    }
  }

  /** Dropping the first of two lists that start alike keeps their multisets equal. */
  lemma SameTails(a: seq<nat>, b: seq<nat>)
    requires multiset(a) == multiset(b) && a != [] && b != [] && a[0] == b[0]
    ensures multiset(a[1..]) == multiset(b[1..])
  {
    assert a == [a[0]] + a[1..] && b == [b[0]] + b[1..];
    assert multiset(a[1..]) == multiset(a) - multiset{a[0]};
    assert multiset(b[1..]) == multiset(b) - multiset{b[0]};
  }

  /** Two comparer-ordered lists of the same positions are the same list. */
  lemma {:induction false} OrderedUnique(tagOrdering: seq<string>, ec: seq<Node>, a: seq<nat>, b: seq<nat>)
    requires Ordered(tagOrdering, ec, a) && Ordered(tagOrdering, ec, b)
    requires multiset(a) == multiset(b)
    ensures a == b
    decreases |a|
  {
    if a == [] {
      assert |b| == |multiset(b)| == 0;
    } else {
      OrderedHeads(tagOrdering, ec, a, b);
      SameTails(a, b);
      OrderedUnique(tagOrdering, ec, a[1..], b[1..]);
      assert a == [a[0]] + a[1..] && b == [b[0]] + b[1..];
    }
  }

  /** Elements whose ranks never decrease in document order. */
  ghost predicate RanksAscend(tagOrdering: seq<string>, ec: seq<Node>) {
    forall p, q :: 0 <= p < q < |ec| && ec[p].Element? && ec[q].Element? ==>
      RankAt(tagOrdering, ec, p) <= RankAt(tagOrdering, ec, q)
  }

  /**
   * When the elements already follow the tag ordering (in particular when
   * there is no element), every node stays where it is.
   */
  lemma AlreadyOrdered(tagOrdering: seq<string>, ec: seq<Node>)
    requires ElementsAndCommentsOnly(ec)
    requires RanksAscend(tagOrdering, ec)
    ensures EmitOrder(tagOrdering, ec) == Range(0, |ec|)
  {
    var ps := ElementsBelow(ec, |ec|);
    ElementsBelowIncreasing(ec, |ec|);
    assert Ordered(tagOrdering, ec, ps);
    OrderedUnique(tagOrdering, ec, OrderedElements(tagOrdering, ec), ps);
    EmitInDocumentOrder(ec, |ec|);
    assert RunStart(ec, |ec|) <= |ec|;
  }

  /** The nodes at the given positions, in that order. */
  function Pick(ec: seq<Node>, order: seq<nat>): (r: seq<Node>)
    requires forall k :: 0 <= k < |order| ==> order[k] < |ec|
    ensures |r| == |order|
    ensures forall k :: 0 <= k < |r| ==> r[k] == ec[order[k]]
  {
    seq(|order|, k requires 0 <= k < |order| => ec[order[k]])
  }

  /**
   * Reordering is idempotent: the nodes of a reordered comment, reordered
   * again, stay where they are.
   */
  lemma ReorderIdempotent(tagOrdering: seq<string>, ec: seq<Node>)
    requires ElementsAndCommentsOnly(ec)
    ensures var ec' := Pick(ec, EmitOrder(tagOrdering, ec));
      EmitOrder(tagOrdering, ec') == Range(0, |ec'|)
  {
    var out := EmitOrder(tagOrdering, ec);
    var ec' := Pick(ec, out);
    ElementsInOrder(tagOrdering, ec);
    forall p, q | 0 <= p < q < |ec'| && ec'[p].Element? && ec'[q].Element?
      ensures RankAt(tagOrdering, ec', p) <= RankAt(tagOrdering, ec', q)
    {
      assert RankAt(tagOrdering, ec', p) == RankAt(tagOrdering, ec, out[p]);
      assert RankAt(tagOrdering, ec', q) == RankAt(tagOrdering, ec, out[q]);
    }
    AlreadyOrdered(tagOrdering, ec');
  }

  // ---------------------------------------------------------------------
  // The string builder loops of TryEditReorderTags.

  /** The lines of two lists of positions, one after the other. */
  lemma TextsAppend(ec: seq<Node>, a: seq<nat>, b: seq<nat>)
    requires forall k :: 0 <= k < |a| ==> a[k] < |ec|
    requires forall k :: 0 <= k < |b| ==> b[k] < |ec|
    ensures forall k :: 0 <= k < |a + b| ==> (a + b)[k] < |ec|
    ensures LinesToString(Texts(ec, a + b)) == LinesToString(Texts(ec, a)) + LinesToString(Texts(ec, b))
  {
    assert Texts(ec, a + b) == Texts(ec, a) + Texts(ec, b);
    LinesToStringAppend(Texts(ec, a), Texts(ec, b));
  }

  /** The line of one position. */
  lemma TextsSingle(ec: seq<Node>, p: nat)
    requires p < |ec|
    ensures LinesToString(Texts(ec, [p])) == ec[p].text + [NewLine]
  {
    assert Texts(ec, [p]) == [ec[p].text];
  }

  /** Appends the nodes at positions lo .. hi - 1, one line each (the comment loops). */
  method AppendLines(ec: seq<Node>, sb: string, lo: nat, hi: nat) returns (r: string)
    requires lo <= hi <= |ec|
    ensures r == sb + LinesToString(Texts(ec, Range(lo, hi)))
  {
    r := sb;
    var q := lo;
    while q < hi
      invariant lo <= q <= hi
      invariant r == sb + LinesToString(Texts(ec, Range(lo, q)))
    {
      assert Range(lo, q + 1) == Range(lo, q) + [q];
      TextsAppend(ec, Range(lo, q), [q]);
      TextsSingle(ec, q);
      r := r + (ec[q].text + [NewLine]);
      q := q + 1;
    }
  }

  /** The blocks of one more element. */
  lemma EmitStep(ec: seq<Node>, ps: seq<nat>, i: nat)
    requires forall k :: 0 <= k < |ps| ==> ps[k] < |ec|
    requires i < |ps|
    ensures Emit(ec, ps[..i + 1]) == Emit(ec, ps[..i]) + Range(RunStart(ec, ps[i]), ps[i]) + [ps[i]]
  {
    var p := ps[i];
    assert ps[..i + 1] == ps[..i] + [p];
    EmitAppend(ec, ps[..i], [p]);
    EmitSingle(ec, p);
  }

  /** The blocks of p and more elements: p's block first. */
  lemma EmitCons(ec: seq<Node>, p: nat, ps: seq<nat>)
    requires p < |ec|
    requires forall k :: 0 <= k < |ps| ==> ps[k] < |ec|
    ensures Emit(ec, [p] + ps) == Block(ec, p) + Emit(ec, ps)
  {
    assert ([p] + ps)[1..] == ps;
  }

  /** The blocks of a single element: its comment run, then itself. */
  lemma EmitSingle(ec: seq<Node>, p: nat)
    requires p < |ec|
    ensures Emit(ec, [p]) == Range(RunStart(ec, p), p) + [p]
  {
    assert Emit(ec, [p]) == Block(ec, p) + Emit(ec, []);
    assert Range(RunStart(ec, p), p + 1) == Range(RunStart(ec, p), p) + [p];
  }

  /** The builder after one more element block. */
  lemma BlockLines(ec: seq<Node>, ps: seq<nat>, i: nat)
    requires forall k :: 0 <= k < |ps| ==> ps[k] < |ec|
    requires i < |ps|
    ensures LinesToString(Texts(ec, Emit(ec, ps[..i + 1])))
         == LinesToString(Texts(ec, Emit(ec, ps[..i])))
          + LinesToString(Texts(ec, Range(RunStart(ec, ps[i]), ps[i])))
          + (ec[ps[i]].text + [NewLine])
  {
    var before, run := Emit(ec, ps[..i]), Range(RunStart(ec, ps[i]), ps[i]);
    EmitStep(ec, ps, i);
    TextsAppend(ec, before, run);
    TextsAppend(ec, before + run, [ps[i]]);
    TextsSingle(ec, ps[i]);
  }

  /**
   * TryEditReorderTags: false and no comment when the wrapped body does not
   * parse; otherwise each element in sorted order with the comments before
   * it, then the trailing comments, one line each, trailing whitespace trimmed.
   */
  method TryEditReorderTags(tagOrdering: seq<string>, parsed: Option<seq<Node>>)
    returns (ok: bool, editedComment: Option<string>)
    ensures ok <==> parsed.Some?
    ensures ok <==> editedComment.Some?
    ensures editedComment == ReorderTags(tagOrdering, parsed)
  {
    if parsed.None? {
      return false, None;
    }
    var ec := ElementsAndComments(parsed.value);
    var sorted := OrderedElements(tagOrdering, ec);
    var sb: string := [];
    var i := 0;
    while i < |sorted|
      invariant i <= |sorted|
      invariant sb == LinesToString(Texts(ec, Emit(ec, sorted[..i])))
    {
      var element := sorted[i];
      BlockLines(ec, sorted, i);
      sb := AppendLines(ec, sb, RunStart(ec, element), element);
      sb := sb + (ec[element].text + [NewLine]);
      i := i + 1;
    }
    assert sorted[..i] == sorted;
    TextsAppend(ec, Emit(ec, sorted), Trailing(ec));
    sb := AppendLines(ec, sb, RunStart(ec, |ec|), |ec|);
    ok, editedComment := true, Some(TrimEnd(sb));
  }
}
