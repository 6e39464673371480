/**
 * The tree half of `Storage.move` (hapi_server.py:180-213): the checks that
 * let a move go ahead, detaching the node from its old parent, attaching it
 * below the new one, and its pre-order predecessor in the re-linked tree.
 * The lemmas describe the pre-order walk before and after: the moved
 * subtree is one contiguous block that is lifted out and put back right
 * after its new predecessor.
 */
module Relink {
  import opened Wrappers
  import opened Seqs
  import opened Tree
  import opened Nodes
  import opened Links
  import opened Edits

  /**
   * Every check of `move` passes: both ids exist and differ, `nid` has a
   * parent and that parent is not `to`, `nid` is not above `to`, and `to`
   * has no child with `nid`'s name. The tree itself has the shape the store
   * keeps.
   */
  predicate Movable(t: Node, nid: Id, to: Id)
  {
    && WellFormed(t) && Distinct(Flatten(t))
    && nid in Flatten(t) && to in Flatten(t) && nid != to
    && ParentOf(t, nid).Some? && ParentOf(t, nid).value.id != to
    && nid !in Ancestors(t, to)
    && Find(t, nid).value.name !in NamesOf(Find(t, to).value.children)
  }

  /** The tree after `old_parent.remove_child(nid, True)`. */
  function Pruned(t: Node, nid: Id): Node
    requires ParentOf(t, nid).Some?
  {
    var op := ParentOf(t, nid).value;
    Replace(t, op.id, RemoveChild(op, nid, true).value)
  }

  /** The new parent after `add_child(target)`, taken in the pruned tree. */
  function Destination(t: Node, nid: Id, to: Id): Node
    requires Movable(t, nid, to)
  {
    PruneKeepsDestination(t, nid, to);
    AddChild(Find(Pruned(t, nid), to).value, Some(Find(t, nid).value)).value
  }

  /** The moved node in its new place, re-depthed below the new parent. */
  function Moved(t: Node, nid: Id, to: Id): Node
    requires Movable(t, nid, to)
  {
    PruneKeepsDestination(t, nid, to);
    SetDepth(Find(t, nid).value, Find(Pruned(t, nid), to).value.depth + 1)
  }

  /** The re-linked tree. */
  function Relinked(t: Node, nid: Id, to: Id): Node
    requires Movable(t, nid, to)
  {
    Replace(Pruned(t, nid), to, Destination(t, nid, to))
  }

  /**
   * `target.preorder_predecessor()` once the node hangs below `to`; the
   * sibling position is looked up by name, which re-depthing leaves as it is.
   */
  function NewPredecessor(t: Node, nid: Id, to: Id): Id
    requires Movable(t, nid, to)
  {
    PruneKeepsDestination(t, nid, to);
    AddChildNamed(Find(Pruned(t, nid), to).value, Find(t, nid).value);
    PredecessorIn(Destination(t, nid, to), Find(t, nid).value)
  }

  /** Facts about the old parent shared by the proofs below. */
  lemma OldParent(t: Node, nid: Id) returns (a: seq<Id>, c: seq<Id>)
    requires WellFormed(t) && Distinct(Flatten(t)) && nid in Flatten(t) && ParentOf(t, nid).Some?
    ensures var op := ParentOf(t, nid).value;
      && op.id in Flatten(t) && Find(t, op.id) == Some(op) && WellFormed(op)
      && Find(t, nid).value == op.children[ChildIndex(op.children, nid)]
      && RemoveChild(op, nid, true).Some?
      && Flatten(op) == a + Flatten(Find(t, nid).value) + c
      && Flatten(RemoveChild(op, nid, true).value) == a + c
      && op.id in a
  {
    ParentOfFound(t, nid);
    var op := ParentOf(t, nid).value;
    FindWellFormed(t, op.id);
    a, c := RemoveChildFlatten(op, nid);
  }

  /** Detaching the node cuts its block out of the walk. */
  lemma PruneShape(t: Node, nid: Id) returns (a: seq<Id>, c: seq<Id>)
    requires WellFormed(t) && Distinct(Flatten(t)) && nid in Flatten(t) && ParentOf(t, nid).Some?
    ensures Flatten(t) == a + Flatten(Find(t, nid).value) + c
    ensures Flatten(Pruned(t, nid)) == a + c
  {
    var op := ParentOf(t, nid).value;
    var op2 := RemoveChild(op, nid, true).value;
    var a1, c1 := OldParent(t, nid);
    var p, s := ReplaceFlatten(t, op.id, op2);
    Splice(Flatten(Pruned(t, nid)), Flatten(t), p, s, Flatten(op2), Flatten(op), a1, Flatten(Find(t, nid).value), c1);
    a, c := p + a1, c1 + s;
  }

  /** Detaching the node keeps the tree well-formed, free of repeated ids, and rooted where it was. */
  lemma PruneWellFormed(t: Node, nid: Id)
    requires WellFormed(t) && Distinct(Flatten(t)) && nid in Flatten(t) && ParentOf(t, nid).Some?
    ensures WellFormed(Pruned(t, nid)) && Distinct(Flatten(Pruned(t, nid)))
    ensures Pruned(t, nid).id == t.id && Pruned(t, nid).depth == t.depth
  {
    var op := ParentOf(t, nid).value;
    var op2 := RemoveChild(op, nid, true).value;
    var a, c := PruneShape(t, nid);
    DistinctDrop(a, Flatten(Find(t, nid).value), c);
    var a1, c1 := OldParent(t, nid);
    RemoveChildWellFormed(op, nid, true);
    ReplaceWellFormed(t, op.id, op2);
    ReplaceKeepsId(t, op.id, op2);
  }

  /**
   * After the node is detached, `to` is still in the tree and its children
   * carry the same names as before, so the name check `add_child` makes
   * before the detach gives the same answer after it.
   */
  lemma PruneKeepsDestination(t: Node, nid: Id, to: Id)
    requires Movable(t, nid, to)
    ensures to in Flatten(Pruned(t, nid))
    ensures NamesOf(Find(Pruned(t, nid), to).value.children) == NamesOf(Find(t, to).value.children)
    ensures Find(t, nid).value.name !in NamesOf(Find(Pruned(t, nid), to).value.children)
  {
    var op := ParentOf(t, nid).value;
    var op2 := RemoveChild(op, nid, true).value;
    var target := Find(t, nid).value;
    AncestorsMeaning(t, to, nid);
    assert to !in Flatten(target);
    var a1, c1 := OldParent(t, nid);
    var a, c := PruneShape(t, nid);
    PruneWellFormed(t, nid);
    var t1 := Pruned(t, nid);
    if to in Flatten(op) {
      assert to in Flatten(op2);
      FindReplaceInside(t, op.id, op2, to);
      var i := ChildIndex(op.children, nid);
      assert op2 == op.(children := op.children[..i] + op.children[i + 1..]);
      FindDistinct(t, op.id);
      FindAfterRemoval(op, i, to);
      FindNested(t, op.id, to);
    } else {
      FindReplaceOutside(t, op.id, op2, to);
      var dest := Find(t, to).value;
      if op.id in Flatten(dest) {
        FindDistinct(t, to);
        FindNested(t, to, op.id);
        ReplaceChildNames(dest, op.id, op2);
      }
    }
  }

  /**
   * The walk of a parent with a child inserted at `j`: the child's block
   * follows the parent and the siblings before it.
   */
  lemma InsertedFlatten(dest: Node, dest2: Node, c: Node, j: nat) returns (before: seq<Id>)
    requires j <= |dest.children| && dest2.id == dest.id
    requires dest2.children == dest.children[..j] + [c] + dest.children[j..]
    requires SortedByName(dest2.children)
    ensures c.name in NamesOf(dest2.children)
    ensures Flatten(dest) == before + FlattenAll(dest.children[j..])
    ensures Flatten(dest2) == before + Flatten(c) + FlattenAll(dest.children[j..])
    ensures |before| >= 1 && before[|before| - 1] == PredecessorIn(dest2, c)
  {
    var ds := dest.children;
    assert dest2.children[j] == c;
    before := PredecessorPrecedes(dest2, j);
    assert dest2.children[..j] == ds[..j] && dest2.children[j + 1..] == ds[j..];
    assert ds == ds[..j] + ds[j..];
    FlattenAllAppend(ds[..j], ds[j..]);
  }

  /**
   * Attaching the node below `to` puts its block right after the new
   * predecessor: the walk without the block is cut at that point.
   */
  lemma GraftShape(t1: Node, to: Id, n: Node) returns (a2: seq<Id>, c2: seq<Id>)
    requires to in Flatten(t1) && SortedByName(Find(t1, to).value.children)
    requires n.name !in NamesOf(Find(t1, to).value.children)
    ensures var dest := Find(t1, to).value;
      var dest2 := AddChild(dest, Some(n)).value;
      && AddChild(dest, Some(n)).Some? && n.name in NamesOf(dest2.children)
      && Flatten(t1) == a2 + c2
      && Flatten(Replace(t1, to, dest2)) == a2 + Flatten(n) + c2
      && |a2| >= 1 && a2[|a2| - 1] == PredecessorIn(dest2, n)
  {
    var dest := Find(t1, to).value;
    var c, j := AddChildShape(dest, n);
    var dest2 := AddChild(dest, Some(n)).value;
    var before := InsertedFlatten(dest, dest2, c, j);
    a2, c2 := GraftAt(t1, to, dest2, before, Flatten(c), FlattenAll(dest.children[j..]));
  }

  /** Replacing the subtree at `to` by one whose walk has `mid` inserted into the old walk. */
  lemma GraftAt(t1: Node, to: Id, r: Node, before: seq<Id>, mid: seq<Id>, rest: seq<Id>) returns (a2: seq<Id>, c2: seq<Id>)
    requires to in Flatten(t1) && |before| >= 1
    requires Flatten(Find(t1, to).value) == before + rest
    requires Flatten(r) == before + mid + rest
    ensures Flatten(t1) == a2 + c2
    ensures Flatten(Replace(t1, to, r)) == a2 + mid + c2
    ensures |a2| >= 1 && a2[|a2| - 1] == before[|before| - 1]
  {
    var p, s := ReplaceFlatten(t1, to, r);
    Splice(Flatten(t1), Flatten(Replace(t1, to, r)), p, s, Flatten(Find(t1, to).value), Flatten(r), before, mid, rest);
    a2, c2 := p + before, rest + s;
  }

  /**
   * The whole re-link: the walk before is `a + block + c`, the walk after
   * is `a2 + block + c2` with `a + c == a2 + c2`, and the new predecessor
   * is the last id of `a2`.
   */
  lemma RelinkShape(t: Node, nid: Id, to: Id) returns (a: seq<Id>, c: seq<Id>, a2: seq<Id>, c2: seq<Id>)
    requires Movable(t, nid, to)
    ensures Flatten(t) == a + Flatten(Find(t, nid).value) + c
    ensures a + c == a2 + c2 && |a2| >= 1
    ensures a2[|a2| - 1] == NewPredecessor(t, nid, to)
    ensures Flatten(Relinked(t, nid, to)) == a2 + Flatten(Find(t, nid).value) + c2
  {
    a, c := PruneShape(t, nid);
    var t1 := Pruned(t, nid);
    var target := Find(t, nid).value;
    RelinkParts(t, nid, to);
    a2, c2 := GraftShape(t1, to, target);
  }

  /** The parts of a move spelled out: where `to` sits after the detach, and what is grafted there. */
  lemma RelinkParts(t: Node, nid: Id, to: Id)
    requires Movable(t, nid, to)
    ensures var t1, target := Pruned(t, nid), Find(t, nid).value;
      && to in Flatten(t1) && SortedByName(Find(t1, to).value.children)
      && target.name !in NamesOf(Find(t1, to).value.children)
      && Destination(t, nid, to) == AddChild(Find(t1, to).value, Some(target)).value
      && Moved(t, nid, to) == SetDepth(target, Find(t1, to).value.depth + 1)
      && Relinked(t, nid, to) == Replace(t1, to, Destination(t, nid, to))
  {
    PruneWellFormed(t, nid);
    PruneKeepsDestination(t, nid, to);
    FoundSiblingsSorted(Pruned(t, nid), to);
  }

  /**
   * The re-linked tree keeps the shape the store maintains, keeps its root,
   * and the node now hangs below `to`.
   */
  lemma RelinkWellFormed(t: Node, nid: Id, to: Id)
    requires Movable(t, nid, to)
    ensures WellFormed(Relinked(t, nid, to)) && Distinct(Flatten(Relinked(t, nid, to)))
    ensures Relinked(t, nid, to).id == t.id && Relinked(t, nid, to).depth == t.depth
    ensures Find(Relinked(t, nid, to), to) == Some(Destination(t, nid, to))
    ensures Moved(t, nid, to) in Destination(t, nid, to).children
  {
    var a, c, a2, c2 := RelinkShape(t, nid, to);
    DistinctRegroup(a, Flatten(Find(t, nid).value), c, a2, c2);
    var t1 := Pruned(t, nid);
    PruneWellFormed(t, nid);
    PruneKeepsDestination(t, nid, to);
    var dest := Find(t1, to).value;
    var target := Find(t, nid).value;
    FindWellFormed(t1, to);
    FindWellFormed(t, nid);
    AddChildWellFormed(dest, target);
    var dest2 := Destination(t, nid, to);
    assert dest2 == AddChild(dest, Some(target)).value;
    assert Moved(t, nid, to) == SetDepth(target, dest.depth + 1);
    ReplaceWellFormed(t1, to, dest2);
    ReplaceKeepsId(t1, to, dest2);
    FindReplaceInside(t1, to, dest2, to);
  }

  /** `b` stands where `a` stood: the same name, and every child id of `a` but `gone` among its children's ids. */
  predicate KeepsLinks(a: Node, b: Node, gone: Id)
  {
    && a.name == b.name
    && forall c :: c in IdsOf(a.children) && c != gone ==> c in IdsOf(b.children)
  }

  /** Detaching the node leaves every node outside its block where it was, less that one child. */
  lemma PruneKeeps(t: Node, nid: Id, y: Id)
    requires WellFormed(t) && Distinct(Flatten(t)) && nid in Flatten(t) && ParentOf(t, nid).Some?
    requires y in Flatten(t) && y !in Flatten(Find(t, nid).value)
    ensures y in Flatten(Pruned(t, nid))
    ensures var m, m1 := Find(t, y).value, Find(Pruned(t, nid), y).value;
      KeepsLinks(m, m1, nid) && m1.depth == m.depth
  {
    var op := ParentOf(t, nid).value;
    var op2 := RemoveChild(op, nid, true).value;
    var a1, c1 := OldParent(t, nid);
    var t1 := Pruned(t, nid);
    assert y in Flatten(t1) by {
      var a, c := PruneShape(t, nid);
    }
    PruneWellFormed(t, nid);
    var i := ChildIndex(op.children, nid);
    assert op2 == op.(children := op.children[..i] + op.children[i + 1..]);
    var m := Find(t, y).value;
    if y == op.id {
      FindReplaced(t, op.id, op2);
      RemoveChildKeepsIds(op, nid, true);
    } else if y in Flatten(op) {
      assert y in Flatten(op2);
      FindReplaceInside(t, op.id, op2, y);
      FindDistinct(t, op.id);
      FindAfterRemoval(op, i, y);
      FindNested(t, op.id, y);
    } else {
      FindReplaceOutside(t, op.id, op2, y);
      if op.id in Flatten(m) {
        ReplaceBelow(m, op.id, op2);
      }
    }
  }

  /** Attaching the node below `to` leaves every node of the pruned tree where it was, keeping all its children. */
  lemma GraftKeeps(t: Node, nid: Id, to: Id, y: Id)
    requires Movable(t, nid, to) && y in Flatten(Pruned(t, nid))
    ensures y in Flatten(Relinked(t, nid, to))
    ensures var m1, m2 := Find(Pruned(t, nid), y).value, Find(Relinked(t, nid, to), y).value;
      KeepsLinks(m1, m2, nid) && m2.depth == m1.depth
  {
    var t1, t2 := Pruned(t, nid), Relinked(t, nid, to);
    var target := Find(t, nid).value;
    RelinkParts(t, nid, to);
    PruneWellFormed(t, nid);
    RelinkWellFormed(t, nid, to);
    var dest, dest2 := Find(t1, to).value, Destination(t, nid, to);
    var c, j := AddChildShape(dest, target);
    var before := InsertedFlatten(dest, dest2, c, j);
    var ds, ds2 := dest.children, dest2.children;
    var m1 := Find(t1, y).value;
    if y == to {
      FindReplaced(t1, to, dest2);
      AddChildKeepsIds(dest, target);
    } else if y in Flatten(dest) {
      assert y in Flatten(dest2);
      FindReplaceInside(t1, to, dest2, y);
      FindDistinct(t1, to);
      FindDistinct(t2, to);
      var q := FlattenAllMember(ds, y);
      FindInChild(dest, q, y);
      var q2 := InsertedSibling(ds, j, c, q);
      FindInChild(dest2, q2, y);
      FindNested(t1, to, y);
    } else {
      FindReplaceOutside(t1, to, dest2, y);
      if to in Flatten(m1) {
        ReplaceBelow(m1, to, dest2);
      }
    }
  }

  /** The moved block keeps its names and children, and every depth in it shifts by the same amount. */
  lemma BlockMoves(t: Node, nid: Id, to: Id, y: Id)
    requires Movable(t, nid, to) && y in Flatten(t) && y in Flatten(Find(t, nid).value)
    ensures y in Flatten(Relinked(t, nid, to))
    ensures var m, m2 := Find(t, y).value, Find(Relinked(t, nid, to), y).value;
      && KeepsLinks(m, m2, nid) && IdsOf(m2.children) == IdsOf(m.children)
      && m2.depth == m.depth + Find(t, to).value.depth + 1 - Find(t, nid).value.depth
  {
    var t1, t2 := Pruned(t, nid), Relinked(t, nid, to);
    var target := Find(t, nid).value;
    RelinkParts(t, nid, to);
    PruneWellFormed(t, nid);
    RelinkWellFormed(t, nid, to);
    var dest, dest2 := Find(t1, to).value, Destination(t, nid, to);
    var c, j := AddChildShape(dest, target);
    var before := InsertedFlatten(dest, dest2, c, j);
    assert dest2.children[j] == c;
    FindReplaceInside(t1, to, dest2, y);
    FindDistinct(t2, to);
    FindInChild(dest2, j, y);
    FindWellFormed(t, nid);
    SetDepthFind(target, dest.depth + 1, y);
    FindNested(t, nid, y);
    AncestorsMeaning(t, to, nid);
    PruneKeeps(t, nid, to);
  }

  /** One node across the whole re-link: inside the block it shifts in depth, outside it stays. */
  lemma RelinkKeeps(t: Node, nid: Id, to: Id, y: Id)
    requires Movable(t, nid, to) && y in Flatten(t)
    ensures y in Flatten(Relinked(t, nid, to))
    ensures var m, m2 := Find(t, y).value, Find(Relinked(t, nid, to), y).value;
      && KeepsLinks(m, m2, nid)
      && (y !in Flatten(Find(t, nid).value) ==> m2.depth == m.depth)
      && (y in Flatten(Find(t, nid).value) ==>
            m2.depth == m.depth + Find(t, to).value.depth + 1 - Find(t, nid).value.depth)
  {
    if y in Flatten(Find(t, nid).value) {
      BlockMoves(t, nid, to, y);
    } else {
      PruneKeeps(t, nid, y);
      GraftKeeps(t, nid, to, y);
    }
  }

  /** A node other than the root and the moved one has the same parent after the re-link. */
  lemma RelinkKeepsParent(t: Node, nid: Id, to: Id, x: Id)
    requires Movable(t, nid, to) && x in Flatten(t) && x != t.id && x != nid
    ensures ParentOf(t, x).Some? && ParentOf(Relinked(t, nid, to), x).Some?
    ensures ParentOf(Relinked(t, nid, to), x).value.id == ParentOf(t, x).value.id
  {
    var t2 := Relinked(t, nid, to);
    assert x in FlattenAll(t.children);
    ParentOfFound(t, x);
    var p := ParentOf(t, x).value;
    assert IdsOf(p.children)[ChildIndex(p.children, x)] == x;
    RelinkKeeps(t, nid, to, p.id);
    var q2 := Find(t2, p.id).value;
    var k := IndexOf(IdsOf(q2.children), x);
    assert q2.children[k].id == x;
    RelinkWellFormed(t, nid, to);
    ParentOfChild(t2, q2, k);
  }

  /**
   * What a move leaves alone: every node keeps its name; every node outside
   * the moved block keeps its depth, while the block shifts by the one
   * amount that puts the moved node right below `to`; and every node other
   * than the root and the moved one keeps its parent.
   */
  lemma RelinkFrame(t: Node, nid: Id, to: Id)
    requires Movable(t, nid, to)
    ensures var t2, block := Relinked(t, nid, to), Flatten(Find(t, nid).value);
      && (forall x :: x in Flatten(t) ==> x in Flatten(t2) && Find(t2, x).value.name == Find(t, x).value.name)
      && (forall x :: x in Flatten(t) && x !in block ==> Find(t2, x).value.depth == Find(t, x).value.depth)
      && (forall x :: x in block ==>
            && x in Flatten(t) && x in Flatten(t2)
            && Find(t2, x).value.depth == Find(t, x).value.depth + Find(t, to).value.depth + 1 - Find(t, nid).value.depth)
      && (forall x :: x in Flatten(t) && x != t.id && x != nid ==>
            ParentOf(t, x).Some? && ParentOf(t2, x).Some? && ParentOf(t2, x).value.id == ParentOf(t, x).value.id)
  {
    var t2, block := Relinked(t, nid, to), Flatten(Find(t, nid).value);
    FindWithin(t, nid);
    forall x | x in Flatten(t)
      ensures x in Flatten(t2) && Find(t2, x).value.name == Find(t, x).value.name
      ensures x !in block ==> Find(t2, x).value.depth == Find(t, x).value.depth
      ensures x in block ==> Find(t2, x).value.depth == Find(t, x).value.depth + Find(t, to).value.depth + 1 - Find(t, nid).value.depth
    {
      RelinkKeeps(t, nid, to, x);
    }
    forall x | x in Flatten(t) && x != t.id && x != nid
      ensures ParentOf(t, x).Some? && ParentOf(t2, x).Some? && ParentOf(t2, x).value.id == ParentOf(t, x).value.id
    {
      RelinkKeepsParent(t, nid, to, x);
    }
  }
}
