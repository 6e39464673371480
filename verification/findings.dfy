/**
 * Two concrete stores on which `move` as written goes wrong, one for each
 * re-splice defect: a leaf moved forward lands one slot too late, and a
 * node with children whose new predecessor is the id just before it makes
 * the call raise after the tree has been re-linked.
 */
module Findings {
  import opened Wrappers
  import opened Seqs
  import opened Tree
  import opened Links
  import opened Nodes
  import opened Edits
  import opened Relink
  import Names
  import Spans
  import opened Storage
  import opened Moving
  import Query

  /** A leaf whose id is also its name. */
  function Leaf(x: Id, d: int): Node
  {
    Node(x, x, d, [])
  }

  /** The root `r` with the leaves `a`, `b` and `c`. */
  const Leaves := Node("r", "r", 0, [Leaf("a", 1), Leaf("b", 1), Leaf("c", 1)])

  const LeavesStore := Store(Some(Leaves), Some("r"), ["r", "a", "b", "c"])

  /** `Leaves` with `a` moved below `b`. */
  const LeavesMoved := Node("r", "r", 0, [Node("b", "b", 1, [Leaf("a", 2)]), Leaf("c", 1)])

  lemma LeavesWalk()
    ensures Flatten(Leaves) == ["r", "a", "b", "c"]
    ensures Flatten(LeavesMoved) == ["r", "b", "a", "c"]
  {
  }

  lemma LeavesValid()
    ensures Valid(LeavesStore)
  {
    LeavesWalk();
    assert WellFormed(Leaves);
  }

  lemma LeavesFound()
    ensures Find(Leaves, "a") == Some(Leaf("a", 1)) && Find(Leaves, "b") == Some(Leaf("b", 1))
  {
  }

  lemma LeavesMovable()
    ensures Movable(Leaves, "a", "b") && Allowed(LeavesStore, "a", "b")
  {
    LeavesValid();
    LeavesFound();
    assert ParentOf(Leaves, "a") == Some(Leaves);
    assert Ancestors(Leaves, "b") == ["r"];
  }

  lemma LeavesPruned()
    ensures Movable(Leaves, "a", "b")
    ensures Find(Pruned(Leaves, "a"), "b") == Some(Leaf("b", 1))
    ensures Pruned(Leaves, "a") == Node("r", "r", 0, [Leaf("b", 1), Leaf("c", 1)])
  {
    LeavesMovable();
    assert ParentOf(Leaves, "a") == Some(Leaves);
  }

  /** `add_child` of the leaf `a` to the leaf `b`. */
  lemma LeavesGraft()
    ensures AddChild(Leaf("b", 1), Some(Leaf("a", 1))) == Some(Node("b", "b", 1, [Leaf("a", 2)]))
  {
    assert SetDepth(Leaf("a", 1), 2) == Leaf("a", 2);
    assert NamesOf([]) == [];
  }

  lemma LeavesDestination()
    ensures Movable(Leaves, "a", "b")
    ensures Destination(Leaves, "a", "b") == Node("b", "b", 1, [Leaf("a", 2)])
  {
    LeavesPruned();
    LeavesFound();
    LeavesGraft();
  }

  lemma LeavesRelinked()
    ensures Movable(Leaves, "a", "b")
    ensures Relinked(Leaves, "a", "b") == LeavesMoved
  {
    LeavesPruned();
    LeavesDestination();
  }

  lemma LeavesPredecessor()
    ensures Movable(Leaves, "a", "b")
    ensures NewPredecessor(Leaves, "a", "b") == "b"
  {
    LeavesPruned();
    LeavesDestination();
    LeavesFound();
  }

  /** Both re-splices of the leaf `a` of `r, a, b, c` whose new predecessor is `b`. */
  lemma LeavesResplice()
    ensures var pre := ["r", "a", "b", "c"];
      && "a" in pre && "b" in pre
      && Spans.Resplice(pre, "a", "b", true, "a") == Some(["r", "b", "c", "a"])
      && Spans.RespliceFixed(pre, "a", "b", true, "a") == ["r", "b", "a", "c"]
  {
    var pre := ["r", "a", "b", "c"];
    var rest := ["r", "b", "c"];
    assert IndexOf(pre, "b") == 2 && IndexOf(pre, "a") == 1;
    assert pre[..1] + pre[2..] == rest;
    assert RemoveFirst(pre, "a") == rest;
    assert Insert(rest, 3, "a") == rest + ["a"] == ["r", "b", "c", "a"];
    assert Spans.MoveLeaf(pre, "a", 3) == ["r", "b", "c", "a"];
    assert IndexOf(rest, "b") == 1;
    assert Insert(rest, 2, "a") == rest[..2] + ["a"] + rest[2..];
  }

  /**
   * Moving the leaf `a` below its next sibling `b` reports success, but the
   * cached walk becomes `r, b, c, a` where the walk of the new tree is
   * `r, b, a, c`: the leaf lands one slot too late.
   */
  lemma LeafLandsLate()
    ensures Valid(LeavesStore) && Flatten(LeavesMoved) == ["r", "b", "a", "c"]
    ensures Move(LeavesStore, "a", "b") == Returned(Reply(Store(Some(LeavesMoved), Some("r"), ["r", "b", "c", "a"]), true))
  {
    LeavesWalk();
    LeavesValid();
    LeavesMovable();
    LeavesFound();
    LeavesRelinked();
    LeavesPredecessor();
    LeavesResplice();
  }

  /**
   * The store that move leaves behind is no longer one the other operations
   * expect: its cached walk is not the walk of its tree, so it is neither
   * valid nor a store a query reads correctly.
   */
  lemma LeafMoveBreaksStore()
    ensures Valid(LeavesStore) && Move(LeavesStore, "a", "b").Returned?
    ensures var st := Move(LeavesStore, "a", "b").reply.store;
      && st.tree == Some(LeavesMoved) && st.preorder[2] == "c" && Flatten(LeavesMoved)[2] == "a"
      && !Valid(st) && !Query.Cached(st)
  {
    LeafLandsLate();
  }

  /** The root `r` with the children `a` (above `a1`) and `c` (above `c1`). */
  const Pairs := Node("r", "r", 0, [Node("a", "a", 1, [Leaf("a1", 2)]), Node("c", "c", 1, [Leaf("c1", 2)])])

  const PairsStore := Store(Some(Pairs), Some("r"), ["r", "a", "a1", "c", "c1"])

  /** `Pairs` with `c` moved below `a`. */
  const PairsMoved := Node("r", "r", 0, [Node("a", "a", 1, [Leaf("a1", 2), Node("c", "c", 2, [Leaf("c1", 3)])])])

  lemma PairsWalk()
    ensures Flatten(Pairs) == ["r", "a", "a1", "c", "c1"]
    ensures Flatten(PairsMoved) == ["r", "a", "a1", "c", "c1"]
  {
  }

  lemma PairsWellFormed()
    ensures WellFormed(Pairs)
  {
    assert Names.Less("a", "c");
  }

  lemma PairsPositions()
    ensures var pre := ["r", "a", "a1", "c", "c1"];
      Distinct(pre) && IndexOf(pre, "a1") == 2 && IndexOf(pre, "c") == 3
  {
  }

  lemma PairsValid()
    ensures Valid(PairsStore)
  {
    PairsWalk();
    PairsWellFormed();
    PairsPositions();
  }

  lemma PairsFound()
    ensures Find(Pairs, "c") == Some(Node("c", "c", 1, [Leaf("c1", 2)]))
    ensures Find(Pairs, "a") == Some(Node("a", "a", 1, [Leaf("a1", 2)]))
  {
  }

  lemma PairsMovable()
    ensures Movable(Pairs, "c", "a") && Allowed(PairsStore, "c", "a")
  {
    PairsValid();
    PairsFound();
    assert ParentOf(Pairs, "c") == Some(Pairs);
    assert Ancestors(Pairs, "a") == ["r"];
  }

  lemma PairsPruned()
    ensures Movable(Pairs, "c", "a")
    ensures Find(Pruned(Pairs, "c"), "a") == Some(Node("a", "a", 1, [Leaf("a1", 2)]))
    ensures Pruned(Pairs, "c") == Node("r", "r", 0, [Node("a", "a", 1, [Leaf("a1", 2)])])
  {
    PairsMovable();
    assert ParentOf(Pairs, "c") == Some(Pairs);
    PairsDetach();
    ReplaceSelf(Pairs, "r", Pairs);
    assert Replace(Pairs, "r", Node("r", "r", 0, [Node("a", "a", 1, [Leaf("a1", 2)])])) == Node("r", "r", 0, [Node("a", "a", 1, [Leaf("a1", 2)])]);
  }

  /** `remove_child` of `c`, forced, at the root of `Pairs`. */
  lemma PairsDetach()
    ensures RemoveChild(Pairs, "c", true) == Some(Node("r", "r", 0, [Node("a", "a", 1, [Leaf("a1", 2)])]))
  {
    assert IdsOf(Pairs.children) == ["a", "c"];
    assert ChildIndex(Pairs.children, "c") == 1;
    assert NamesOf(Pairs.children) == ["a", "c"];
    assert IndexOfName(Pairs.children, "c") == 1;
    assert Pairs.children[..1] + Pairs.children[2..] == [Node("a", "a", 1, [Leaf("a1", 2)])];
  }

  /** `add_child` of `c` (above `c1`) to `a` (above `a1`). */
  lemma PairsGraft()
    ensures AddChild(Node("a", "a", 1, [Leaf("a1", 2)]), Some(Node("c", "c", 1, [Leaf("c1", 2)]))) ==
      Some(Node("a", "a", 1, [Leaf("a1", 2), Node("c", "c", 2, [Leaf("c1", 3)])]))
  {
    var a, c := Node("a", "a", 1, [Leaf("a1", 2)]), Node("c", "c", 1, [Leaf("c1", 2)]);
    assert SetDepth(c, 2) == Node("c", "c", 2, [Leaf("c1", 3)]);
    assert Names.Less("a1", "c");
    assert InsertPos(a.children, "c") == 1;
    assert NamesOf(a.children) == ["a1"];
    assert InsertByName(a.children, SetDepth(c, 2)) == [Leaf("a1", 2), Node("c", "c", 2, [Leaf("c1", 3)])];
    assert AddChild(a, Some(c)) == Some(Node("a", "a", 1, [Leaf("a1", 2), Node("c", "c", 2, [Leaf("c1", 3)])]));
  }

  lemma PairsDestination()
    ensures Movable(Pairs, "c", "a")
    ensures Destination(Pairs, "c", "a") == Node("a", "a", 1, [Leaf("a1", 2), Node("c", "c", 2, [Leaf("c1", 3)])])
  {
    PairsPruned();
    PairsFound();
    PairsGraft();
  }

  lemma PairsRelinked()
    ensures Movable(Pairs, "c", "a")
    ensures Relinked(Pairs, "c", "a") == PairsMoved
  {
    PairsPruned();
    PairsDestination();
  }

  /** Below `a`, the predecessor of `c` is the last node of the block of `a1`. */
  lemma PairsPredecessorIn()
    ensures "c" in NamesOf([Leaf("a1", 2), Node("c", "c", 2, [Leaf("c1", 3)])])
    ensures PredecessorIn(Node("a", "a", 1, [Leaf("a1", 2), Node("c", "c", 2, [Leaf("c1", 3)])]), Node("c", "c", 1, [Leaf("c1", 2)])) == "a1"
  {
    var cs := [Leaf("a1", 2), Node("c", "c", 2, [Leaf("c1", 3)])];
    assert NamesOf(cs) == ["a1", "c"];
    assert IndexOf(NamesOf(cs), "c") == 1;
  }

  lemma PairsPredecessor()
    ensures Movable(Pairs, "c", "a")
    ensures NewPredecessor(Pairs, "c", "a") == "a1"
  {
    PairsPruned();
    PairsDestination();
    PairsFound();
    PairsPredecessorIn();
  }

  /**
   * Moving `c` below its preceding sibling `a` raises: `c`'s new
   * predecessor `a1` sits just before it, so its new position is its old
   * one. By then the tree is re-linked, while the call reports an error.
   */
  lemma BlockMoveRaises()
    ensures Valid(PairsStore) && Flatten(PairsMoved) == ["r", "a", "a1", "c", "c1"]
    ensures Move(PairsStore, "c", "a") == Raised(Store(Some(PairsMoved), Some("r"), ["r", "a", "a1", "c", "c1"]))
  {
    PairsWalk();
    PairsValid();
    PairsMovable();
    PairsFound();
    PairsRelinked();
    PairsPredecessor();
    PairsPositions();
    SpliceBlockAsWritten(Pairs, "c", "a");
  }
}
