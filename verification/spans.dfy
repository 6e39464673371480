/**
 * Re-splicing the cached pre-order list when a node moves (hapi_server.py,
 * `Storage.move`, the part after the tree has been re-linked). Everything
 * here is about lists only: where the moved node's block is, where it has to
 * go, and how the source shifts it there by exchanging two adjacent spans.
 */
module Spans {
  import opened Wrappers
  import opened Seqs

  /** `s[i:j] = v` (Python slice assignment). */
  function SliceAssign<T>(s: seq<T>, i: nat, j: nat, v: seq<T>): seq<T>
    requires i <= j <= |s|
  {
    s[..i] + v + s[j..]
  }

  /**
   * The in-place exchange of the adjacent spans `s[a:b]` and `s[b:c]`: the
   * shorter span is buffered, the longer one is shifted over it, and the
   * buffer is written into the space left behind.
   */
  function SwapSpans<T>(s: seq<T>, a: nat, b: nat, c: nat): (r: seq<T>)
    requires a <= b <= c <= |s|
    ensures r == s[..a] + s[b..c] + s[a..b] + s[c..]
  {
    var span1, span2 := b - a, c - b;
    if span1 < span2 then
      var tmp := s[a..b];
      var s1 := SliceAssign(s, a, a + span2, s[b..c]);
      ShortFirstSwap(s, a, b, c);
      SliceAssign(s1, c - span1, c, tmp)
    else
      var tmp := s[b..c];
      var s1 := SliceAssign(s, a + span2, c, s[a..b]);
      LongFirstSwap(s, a, b, c);
      SliceAssign(s1, a, a + span2, tmp)
  }

  /** The branch taken when the first span is the shorter one. */
  lemma ShortFirstSwap<T>(s: seq<T>, a: nat, b: nat, c: nat)
    requires a <= b <= c <= |s| && b - a < c - b
    ensures var s1 := SliceAssign(s, a, a + (c - b), s[b..c]);
      && c - (b - a) <= c <= |s1|
      && SliceAssign(s1, c - (b - a), c, s[a..b]) == s[..a] + s[b..c] + s[a..b] + s[c..]
  {
    var m := a + (c - b);
    var s1 := s[..a] + s[b..c] + s[m..];
    assert s1[..m] == s[..a] + s[b..c];
    assert s1[c..] == s[c..];
  }

  /** The branch taken when the second span is the shorter one (or both are equal). */
  lemma LongFirstSwap<T>(s: seq<T>, a: nat, b: nat, c: nat)
    requires a <= b <= c <= |s| && b - a >= c - b
    ensures var s1 := SliceAssign(s, a + (c - b), c, s[a..b]);
      && a + (c - b) <= |s1|
      && SliceAssign(s1, a, a + (c - b), s[b..c]) == s[..a] + s[b..c] + s[a..b] + s[c..]
  {
    var m := a + (c - b);
    var s1 := s[..m] + s[a..b] + s[c..];
    assert s1[..a] == s[..a];
    assert s1[m..] == s[a..b] + s[c..];
  }

  /** The exchange only reorders: every element keeps its number of occurrences. */
  lemma SwapSpansPermutes<T>(s: seq<T>, a: nat, b: nat, c: nat)
    requires a <= b <= c <= |s|
    ensures |SwapSpans(s, a, b, c)| == |s|
    ensures multiset(SwapSpans(s, a, b, c)) == multiset(s)
  {
    assert s == s[..a] + s[a..b] + s[b..c] + s[c..];
  }

  /**
   * The block branch as the source writes it: the block from `start` to
   * `lastAt` inclusive, of `lastAt - start + 1` ids, goes to `newPos`, counted
   * in the list before the move. `None` stands for the exception raised when
   * `newPos` is neither past the block nor before it, where neither branch
   * binds the three span bounds.
   */
  function MoveBlock<T>(s: seq<T>, start: nat, lastAt: nat, newPos: nat): Option<seq<T>>
    requires start <= lastAt < |s| && newPos <= |s|
  {
    var size := lastAt - start + 1;
    if newPos > start + size then Some(SwapSpans(s, start, start + size, newPos))
    else if newPos < start then Some(SwapSpans(s, newPos, start, start + size))
    else None
  }

  /** The block branch with the exception replaced by leaving the list as it is. */
  function MoveBlockFixed<T>(s: seq<T>, start: nat, lastAt: nat, newPos: nat): seq<T>
    requires start <= lastAt < |s| && newPos <= |s|
  {
    var size := lastAt - start + 1;
    if newPos > start + size then SwapSpans(s, start, start + size, newPos)
    else if newPos < start then SwapSpans(s, newPos, start, start + size)
    else s
  }

  /** The leaf branch as the source writes it: `x` is removed, then inserted at `newPos`. */
  function MoveLeaf<T(==)>(s: seq<T>, x: T, newPos: nat): seq<T>
  {
    Insert(RemoveFirst(s, x), newPos, x)
  }

  /** The leaf branch corrected: `x` goes right after `pred` in the list it was removed from. */
  function MoveLeafAfter<T(==)>(s: seq<T>, x: T, pred: T): seq<T>
  {
    InsertAfter(RemoveFirst(s, x), pred, x)
  }

  /**
   * The re-splice as the source writes it. `x` is the moved node, `pred` its
   * pre-order predecessor after the move, `leaf` whether it has no children
   * and `last` the last id of its subtree block. The new position is looked
   * up in the list before the move, also for a leaf, which is removed first.
   */
  function Resplice<T(==)>(s: seq<T>, x: T, pred: T, leaf: bool, last: T): Option<seq<T>>
    requires x in s && pred in s && last in s
    requires IndexOf(s, x) <= IndexOf(s, last)
  {
    var newPos := IndexOf(s, pred) + 1;
    if leaf then
      Some(MoveLeaf(s, x, newPos))
    else MoveBlock(s, IndexOf(s, x), IndexOf(s, last), newPos)
  }

  /**
   * The re-splice with both defects removed: a leaf is re-inserted after
   * its predecessor's position in the list it was removed from, and a block
   * whose new position is its current one stays where it is.
   */
  function RespliceFixed<T(==)>(s: seq<T>, x: T, pred: T, leaf: bool, last: T): seq<T>
    requires x in s && pred in s && last in s
    requires IndexOf(s, x) <= IndexOf(s, last)
  {
    if leaf then MoveLeafAfter(s, x, pred)
    else MoveBlockFixed(s, IndexOf(s, x), IndexOf(s, last), IndexOf(s, pred) + 1)
  }

  /**
   * Both re-splices of a block, once the three positions and the outcome of
   * the two block moves are known.
   */
  lemma RespliceBlockAt<T>(s: seq<T>, x: T, pred: T, last: T, start: nat, lastAt: nat, newPos: nat, t: seq<T>, same: bool)
    requires x in s && pred in s && last in s && start <= lastAt
    requires IndexOf(s, x) == start && IndexOf(s, last) == lastAt
    requires IndexOf(s, pred) + 1 == newPos
    requires MoveBlockFixed(s, start, lastAt, newPos) == t
    requires MoveBlock(s, start, lastAt, newPos).None? <==> same
    requires !same ==> MoveBlock(s, start, lastAt, newPos) == Some(t)
    ensures RespliceFixed(s, x, pred, false, last) == t
    ensures Resplice(s, x, pred, false, last).None? <==> same
    ensures !same ==> Resplice(s, x, pred, false, last) == Some(t)
  {
  }
}

/**
 * Where a relocated block must land, stated on lists alone. Before the move
 * the list is `a + b + c` with the moved block `b`; removing the block leaves
 * `a + c`, and the walk of the re-linked tree puts `b` back after the prefix
 * `a2` of `a + c`, whose last element is the new pre-order predecessor.
 */
module Landing {
  import opened Wrappers
  import opened Seqs
  import opened Spans

  /** Facts about positions in `a + b + c` shared by the proofs below. */
  lemma Positions<T>(a: seq<T>, b: seq<T>, c: seq<T>, a2: seq<T>, c2: seq<T>)
    requires Distinct(a + b + c) && |b| >= 1
    requires a + c == a2 + c2 && |a2| >= 1
    ensures var s := a + b + c; var pred := a2[|a2| - 1];
      && b[0] in s && pred in s && b[|b| - 1] in s
      && IndexOf(s, b[0]) == |a|
      && IndexOf(s, b[|b| - 1]) == |a| + |b| - 1
      && pred !in b
      && (|a2| <= |a| ==> IndexOf(s, pred) == |a2| - 1)
      && (|a2| > |a| ==> IndexOf(s, pred) == |a2| - 1 + |b|)
  {
    var s := a + b + c;
    var pred := a2[|a2| - 1];
    assert s[|a|] == b[0];
    assert s[|a| + |b| - 1] == b[|b| - 1];
    IndexOfDistinct(s, |a|);
    IndexOfDistinct(s, |a| + |b| - 1);
    DistinctAppend(a + b, c);
    DistinctAppend(a, b);
    assert pred == (a + c)[|a2| - 1];
    if |a2| <= |a| {
      assert pred == a[|a2| - 1] == s[|a2| - 1];
      IndexOfDistinct(s, |a2| - 1);
    } else {
      assert pred == c[|a2| - 1 - |a|] == s[|a2| - 1 + |b|];
      IndexOfDistinct(s, |a2| - 1 + |b|);
    }
  }

  /** Removing a leaf's id from a list without repetitions leaves the rest in order. */
  lemma RemoveLeaf<T>(a: seq<T>, x: T, c: seq<T>)
    requires Distinct(a + [x] + c)
    ensures RemoveFirst(a + [x] + c, x) == a + c
    ensures Distinct(a + c) && x !in a + c
  {
    var s := a + [x] + c;
    assert s[|a|] == x;
    IndexOfDistinct(s, |a|);
    assert s[..|a|] == a;
    assert s[|a| + 1..] == c;
    DistinctAppend(a + [x], c);
    DistinctAppend(a, [x]);
    DistinctAppend(a, c);
  }

  /** Inserting one slot past a split point is right only when nothing follows it. */
  lemma InsertOneLate<T>(a2: seq<T>, x: T, c2: seq<T>)
    requires x !in c2
    ensures Insert(a2 + c2, |a2| + 1, x) == a2 + [x] + c2 <==> c2 == []
  {
    var rest := a2 + c2;
    if c2 != [] {
      var r := Insert(rest, |a2| + 1, x);
      assert r[|a2|] == rest[|a2|] == c2[0];
      assert (a2 + [x] + c2)[|a2|] == x;
    } else {
      assert rest == a2;
    }
  }

  /** Both re-splices of a leaf insert it into the list it was removed from; they differ only in the position. */
  lemma LeafResplices<T>(s: seq<T>, x: T, pred: T, rest: seq<T>)
    requires x in s && pred in s && RemoveFirst(s, x) == rest
    ensures Resplice(s, x, pred, true, x) == Some(Insert(rest, IndexOf(s, pred) + 1, x))
    ensures RespliceFixed(s, x, pred, true, x) == Insert(rest, IndexOf(rest, pred) + 1, x)
  {
    assert MoveLeaf(s, x, IndexOf(s, pred) + 1) == Insert(rest, IndexOf(s, pred) + 1, x);
    assert MoveLeafAfter(s, x, pred) == InsertAfter(rest, pred, x);
  }

  /** A leaf (a block of one) put back after its new predecessor. */
  lemma LeafLands<T>(a: seq<T>, x: T, c: seq<T>, a2: seq<T>, c2: seq<T>)
    requires Distinct(a + [x] + c)
    requires a + c == a2 + c2 && |a2| >= 1
    ensures var s := a + [x] + c; var pred := a2[|a2| - 1];
      && x in s && pred in s
      && RespliceFixed(s, x, pred, true, x) == a2 + [x] + c2
      && (Resplice(s, x, pred, true, x) == Some(a2 + [x] + c2) <==> !(|a2| > |a| && c2 != []))
  {
    var s := a + [x] + c;
    var pred := a2[|a2| - 1];
    Positions(a, [x], c, a2, c2);
    RemoveLeaf(a, x, c);
    var rest := a + c;
    LeafResplices(s, x, pred, rest);
    assert IndexOf(rest, pred) == |a2| - 1 by {
      assert rest[|a2| - 1] == pred;
      IndexOfDistinct(rest, |a2| - 1);
    }
    InsertAtCut(a2, c2, x);
    var np := IndexOf(s, pred) + 1;
    if |a2| > |a| {
      assert np == |a2| + 1;
      assert x !in c2 by {
        assert forall y :: y in c2 ==> y in rest;
      }
      InsertOneLate(a2, x, c2);
    } else {
      assert np == |a2|;
    }
  }

  /** The block moves towards the front: the span before it is exchanged with it. */
  lemma BlockMovesEarlier<T>(a: seq<T>, b: seq<T>, c: seq<T>, a2: seq<T>, c2: seq<T>)
    requires a + c == a2 + c2 && |a2| < |a|
    ensures var s := a + b + c;
      SwapSpans(s, |a2|, |a|, |a| + |b|) == a2 + b + c2
  {
    CutAt(a, c, a2, c2);
    var x, y := a[..|a2|], a[|a2|..];
    assert a == x + y;
    Parts4(x, y, b, c);
    assert a + b + c == x + y + b + c;
  }

  /** The block moves towards the back: it is exchanged with the span after it. */
  lemma BlockMovesLater<T>(a: seq<T>, b: seq<T>, c: seq<T>, a2: seq<T>, c2: seq<T>)
    requires a + c == a2 + c2 && |a2| > |a|
    ensures var s := a + b + c;
      SwapSpans(s, |a|, |a| + |b|, |a2| + |b|) == a2 + b + c2
  {
    CutPast(a, c, a2, c2);
    var x, y := c[..|a2| - |a|], c[|a2| - |a|..];
    assert c == x + y;
    Parts4(a, b, x, y);
    assert a + b + c == a + b + x + y;
  }

  /**
   * A block of one or more ids relocated by exchanging spans: its new
   * position `np`, counted in `a + b + c`, is just past the new prefix `a2`,
   * or past `a2` and the block itself when `a2` reaches beyond the block.
   */
  lemma BlockLands<T>(a: seq<T>, b: seq<T>, c: seq<T>, a2: seq<T>, c2: seq<T>, start: nat, last: nat, np: nat)
    requires |b| >= 1 && a + c == a2 + c2
    requires start == |a| && last == |a| + |b| - 1 && np == if |a2| <= |a| then |a2| else |a2| + |b|
    ensures var s := a + b + c;
      && start <= last < |s| && np <= |s|
      && MoveBlockFixed(s, start, last, np) == a2 + b + c2
      && (MoveBlock(s, start, last, np).None? <==> |a2| == |a|)
      && (|a2| != |a| ==> MoveBlock(s, start, last, np) == Some(a2 + b + c2))
  {
    if |a2| < |a| {
      BlockMovesEarlier(a, b, c, a2, c2);
    } else if |a2| == |a| {
      assert a2 == (a + c)[..|a|] == a;
      assert c2 == (a + c)[|a|..] == c;
    } else {
      BlockMovesLater(a, b, c, a2, c2);
    }
  }

  /** Where the block, its last id and the new predecessor sit in `a + b + c`. */
  lemma BlockPositions<T>(a: seq<T>, b: seq<T>, c: seq<T>, a2: seq<T>, c2: seq<T>, start: nat, last: nat, np: nat)
    requires Distinct(a + b + c) && |b| >= 1
    requires a + c == a2 + c2 && |a2| >= 1
    requires start == |a| && last == |a| + |b| - 1 && np == if |a2| <= |a| then |a2| else |a2| + |b|
    ensures var s, pred := a + b + c, a2[|a2| - 1];
      && b[0] in s && pred in s && b[|b| - 1] in s && start <= last
      && IndexOf(s, b[0]) == start && IndexOf(s, b[|b| - 1]) == last
      && IndexOf(s, pred) + 1 == np
  {
    Positions(a, b, c, a2, c2);
  }

  /**
   * Both re-splices of a block of `a + b + c`, the block being `b`: the
   * corrected one puts the block right after the new prefix `a2`, and so
   * does the one as written, except that it raises when `a2` is as long as
   * `a`, the block's new position being its old one.
   */
  lemma BlockResplice<T>(a: seq<T>, b: seq<T>, c: seq<T>, a2: seq<T>, c2: seq<T>)
    requires Distinct(a + b + c) && |b| >= 1
    requires a + c == a2 + c2 && |a2| >= 1
    ensures var s := a + b + c; var pred := a2[|a2| - 1];
      && b[0] in s && pred in s && b[|b| - 1] in s
      && IndexOf(s, b[0]) <= IndexOf(s, b[|b| - 1])
      && RespliceFixed(s, b[0], pred, false, b[|b| - 1]) == a2 + b + c2
      && (Resplice(s, b[0], pred, false, b[|b| - 1]).None? <==> |a2| == |a|)
      && (|a2| != |a| ==> Resplice(s, b[0], pred, false, b[|b| - 1]) == Some(a2 + b + c2))
  {
    var start, last, np := |a|, |a| + |b| - 1, if |a2| <= |a| then |a2| else |a2| + |b|;
    BlockPositions(a, b, c, a2, c2, start, last, np);
    BlockLands(a, b, c, a2, c2, start, last, np);
    RespliceBlockAt(a + b + c, b[0], a2[|a2| - 1], b[|b| - 1], start, last, np, a2 + b + c2, |a2| == |a|);
  }

  /**
   * The corrected re-splice of a block `b` (a leaf when `b` is the moved
   * node alone) puts it after the new prefix `a2`, whichever branch it takes.
   */
  lemma LandsAfterPrefix<T>(s: seq<T>, b: seq<T>, x: T, pred: T, last: T, leaf: bool, post: seq<T>,
                            a: seq<T>, c: seq<T>, a2: seq<T>, c2: seq<T>)
    requires s == a + b + c && Distinct(s) && |b| >= 1 && b[0] == x && b[|b| - 1] == last
    requires a + c == a2 + c2 && |a2| >= 1 && a2[|a2| - 1] == pred
    requires (leaf <==> b == [x]) && post == a2 + b + c2
    ensures x in s && pred in s && last in s && IndexOf(s, x) <= IndexOf(s, last)
    ensures RespliceFixed(s, x, pred, leaf, last) == post
  {
    if leaf {
      LeafLands(a, x, c, a2, c2);
    } else {
      BlockResplice(a, b, c, a2, c2);
    }
  }
}
