/**
 * `Storage.move` (hapi_server.py:180-239) on the store: the checks, the
 * re-link of the tree, and the re-splice of the cached pre-order list.
 * `Move` is the operation as the source writes it, `MoveFixed` the same
 * operation with the two re-splice defects removed; the lemmas say exactly
 * when the two differ.
 */
module Moving {
  import opened Wrappers
  import opened Seqs
  import opened Tree
  import opened Nodes
  import opened Links
  import opened Relink
  import opened Spans
  import opened Landing
  import opened Storage

  /**
   * How a call of `move` ends: with the flag it returns, or with the
   * exception the block branch raises when no span bounds are bound. Either
   * way with the store as the call leaves it.
   */
  datatype Outcome = Returned(reply: Reply) | Raised(store: Store)

  /**
   * Every check of `move` passes, in the order the source makes them: both
   * ids are known and differ, the node has a parent and it is not `to`, the
   * walk up from `to`'s parent does not meet the node, and `add_child` finds
   * no child of `to` with the node's name.
   */
  predicate Allowed(s: Store, nid: Id, to: Id)
  {
    && Known(s, nid) && Known(s, to) && nid != to
    && ParentOf(s.tree.value, nid).Some? && ParentOf(s.tree.value, nid).value.id != to
    && nid !in Ancestors(s.tree.value, to)
    && Find(s.tree.value, nid).value.name !in NamesOf(Find(s.tree.value, to).value.children)
  }

  /**
   * `move(nid, to)` as written. The node is attached below `to` and
   * detached from its old parent; the cached walk is then re-spliced with
   * the new position computed in the walk before the move. The exception
   * of the block branch leaves the tree re-linked and the walk untouched.
   */
  function Move(s: Store, nid: Id, to: Id): (r: Outcome)
    requires Valid(s)
    ensures r == Returned(Reply(s, false)) <==> !Allowed(s, nid, to)
    ensures r.Returned? && !r.reply.ok ==> r.reply.store == s
    ensures r.Raised? ==> r.store.preorder == s.preorder && r.store.root == s.root
  {
    if !Allowed(s, nid, to) then Returned(Reply(s, false))
    else
      var t := s.tree.value;
      var target := Find(t, nid).value;
      SpliceOutcome(t, nid, to);
      var t2 := Relinked(t, nid, to);
      match Resplice(s.preorder, nid, NewPredecessor(t, nid, to), IsLeaf(target), LastPreorderChild(target).id)
      case Some(p) => Returned(Reply(Store(Some(t2), s.root, p), true))
      case None => Raised(Store(Some(t2), s.root, s.preorder))
  }

  /**
   * `move(nid, to)` with both re-splice defects removed: a leaf is put back
   * after its new predecessor in the list it was removed from, and a block
   * whose position does not change is left where it is.
   */
  function MoveFixed(s: Store, nid: Id, to: Id): (r: Reply)
    requires Valid(s)
    ensures r.ok <==> Allowed(s, nid, to)
    ensures !r.ok ==> r.store == s
    ensures r.store.root == s.root
  {
    if !Allowed(s, nid, to) then Reply(s, false)
    else
      var t := s.tree.value;
      var target := Find(t, nid).value;
      SpliceOutcome(t, nid, to);
      var p := RespliceFixed(s.preorder, nid, NewPredecessor(t, nid, to), IsLeaf(target), LastPreorderChild(target).id);
      Reply(Store(Some(Relinked(t, nid, to)), s.root, p), true)
  }

  /**
   * The walk of an allowed move: before it is `a + b + c` with `b` the
   * block of the moved node, after it `a2 + b + c2` with `a + c == a2 + c2`
   * and the new predecessor last in `a2`.
   */
  lemma SpliceParts(t: Node, nid: Id, to: Id) returns (a: seq<Id>, c: seq<Id>, a2: seq<Id>, c2: seq<Id>)
    requires Movable(t, nid, to)
    ensures var b := Flatten(Find(t, nid).value);
      && Flatten(t) == a + b + c && Distinct(a + b + c) && |b| >= 1
      && a + c == a2 + c2 && |a2| >= 1 && a2[|a2| - 1] == NewPredecessor(t, nid, to)
      && Flatten(Relinked(t, nid, to)) == a2 + b + c2
      && b[0] == nid && b[|b| - 1] == LastPreorderChild(Find(t, nid).value).id
      && (IsLeaf(Find(t, nid).value) <==> b == [nid])
  {
    a, c, a2, c2 := RelinkShape(t, nid, to);
    LeafBlock(Find(t, nid).value);
  }

  /**
   * The corrected re-splice of an allowed move yields the walk of the
   * re-linked tree; the ids it looks up are all in the walk before.
   */
  lemma SpliceOutcome(t: Node, nid: Id, to: Id)
    requires Movable(t, nid, to)
    ensures var pre, target := Flatten(t), Find(t, nid).value;
      var pred, last := NewPredecessor(t, nid, to), LastPreorderChild(target).id;
      && nid in pre && pred in pre && last in pre && IndexOf(pre, nid) <= IndexOf(pre, last)
      && RespliceFixed(pre, nid, pred, IsLeaf(target), last) == Flatten(Relinked(t, nid, to))
  {
    var a, c, a2, c2 := SpliceParts(t, nid, to);
    var target := Find(t, nid).value;
    LandsAfterPrefix(Flatten(t), Flatten(target), nid, NewPredecessor(t, nid, to), LastPreorderChild(target).id,
                     IsLeaf(target), Flatten(Relinked(t, nid, to)), a, c, a2, c2);
  }

  /**
   * The leaf branch as written: it is right exactly unless the new
   * predecessor comes after the leaf in the walk and is not the last id.
   */
  lemma SpliceLeafAsWritten(t: Node, nid: Id, to: Id)
    requires Movable(t, nid, to) && IsLeaf(Find(t, nid).value)
    ensures var pre, pred := Flatten(t), NewPredecessor(t, nid, to);
      && nid in pre && pred in pre
      && (Resplice(pre, nid, pred, true, nid) == Some(Flatten(Relinked(t, nid, to))) <==>
          !(IndexOf(pre, nid) < IndexOf(pre, pred) < |pre| - 1))
  {
    var a, c, a2, c2 := SpliceParts(t, nid, to);
    LeafLands(a, nid, c, a2, c2);
    Positions(a, [nid], c, a2, c2);
  }

  /**
   * The block branch as written: it raises exactly when the new predecessor
   * is the id just before the block, and is right otherwise.
   */
  lemma SpliceBlockAsWritten(t: Node, nid: Id, to: Id)
    requires Movable(t, nid, to) && !IsLeaf(Find(t, nid).value)
    ensures var pre, pred, last := Flatten(t), NewPredecessor(t, nid, to), LastPreorderChild(Find(t, nid).value).id;
      && nid in pre && pred in pre && last in pre && IndexOf(pre, nid) <= IndexOf(pre, last)
      && (Resplice(pre, nid, pred, false, last).None? <==> IndexOf(pre, pred) + 1 == IndexOf(pre, nid))
      && (Resplice(pre, nid, pred, false, last).Some? ==>
          Resplice(pre, nid, pred, false, last) == Some(Flatten(Relinked(t, nid, to))))
      && (Resplice(pre, nid, pred, false, last).None? ==> Flatten(Relinked(t, nid, to)) == pre)
  {
    var a, c, a2, c2 := SpliceParts(t, nid, to);
    var b := Flatten(Find(t, nid).value);
    BlockResplice(a, b, c, a2, c2);
    Positions(a, b, c, a2, c2);
    if |a2| == |a| {
      CutAt(a, c, a2, c2);
    }
  }

  /**
   * After the re-link the node hangs below `to`, as the moved (re-depthed)
   * copy of its subtree.
   */
  lemma MovedBelow(t: Node, nid: Id, to: Id)
    requires Movable(t, nid, to)
    ensures var t2 := Relinked(t, nid, to);
      && nid in Flatten(t2) && Find(t2, nid) == Some(Moved(t, nid, to))
      && ParentOf(t2, nid) == Some(Destination(t, nid, to))
  {
    RelinkWellFormed(t, nid, to);
    var t2 := Relinked(t, nid, to);
    var dest2 := Destination(t, nid, to);
    var m := Moved(t, nid, to);
    var k :| 0 <= k < |dest2.children| && dest2.children[k] == m;
    ParentOfChild(t2, dest2, k);
    FindDistinct(t2, to);
    ChildrenDistinct(dest2);
    IdsDistinct(dest2.children);
    assert IdsOf(dest2.children)[k] == nid;
    IndexOfDistinct(IdsOf(dest2.children), k);
    assert nid in FlattenAll(t2.children);
    ParentOfFound(t2, nid);
  }

  /**
   * The checks of `move`, said in terms of the tree: both ids are known,
   * the node is not the root, `to` is neither the node nor inside its
   * subtree, and no child of `to` has the node's name. (A parent `to` is
   * covered by the last condition, the node itself being such a child.)
   */
  lemma AllowedMeaning(s: Store, nid: Id, to: Id)
    requires Valid(s)
    ensures Allowed(s, nid, to) <==>
      && Known(s, nid) && Known(s, to)
      && nid != s.tree.value.id
      && to !in Flatten(Find(s.tree.value, nid).value)
      && Find(s.tree.value, nid).value.name !in NamesOf(Find(s.tree.value, to).value.children)
  {
    if Known(s, nid) && Known(s, to) {
      var t := s.tree.value;
      ChildrenDistinct(t);
      AncestorsMeaning(t, to, nid);
      assert nid in Flatten(Find(t, nid).value);
      if nid != t.id {
        assert nid in FlattenAll(t.children);
        ParentOfFound(t, nid);
        var op := ParentOf(t, nid).value;
        var ci := ChildIndex(op.children, nid);
        assert NamesOf(op.children)[ci] == Find(t, nid).value.name;
      }
    }
  }

  /**
   * The corrected move keeps the store valid and its set of ids; on
   * success the node hangs below `to`, one deeper than it, with the same
   * subtree walk as before, and the cached walk places it right after its
   * pre-order predecessor.
   */
  lemma MoveFixedKeepsValid(s: Store, nid: Id, to: Id)
    requires Valid(s)
    ensures var r := MoveFixed(s, nid, to);
      && Valid(r.store)
      && (forall x :: Known(r.store, x) <==> Known(s, x))
      && (r.ok ==> MovedInStore(s, r.store, nid, to) && LeftAlone(s, r.store, nid, to))
  {
    if Allowed(s, nid, to) {
      var t := s.tree.value;
      var t2 := Relinked(t, nid, to);
      var a, c, a2, c2 := SpliceParts(t, nid, to);
      SpliceOutcome(t, nid, to);
      RelinkWellFormed(t, nid, to);
      RegroupMembers(a, Flatten(Find(t, nid).value), c, a2, c2);
      MovedInRelinked(t, nid, to);
      RelinkFrame(t, nid, to);
    }
  }

  /**
   * In `s2`, the store after moving `nid` below `to` in `s`, every node
   * keeps its name, every node but the root and the moved one keeps its
   * parent, nodes outside the moved subtree keep their depth, and the
   * moved subtree shifts by the one amount that puts `nid` right below `to`.
   */
  predicate LeftAlone(s: Store, s2: Store, nid: Id, to: Id)
  {
    && s.tree.Some? && s2.tree.Some?
    && nid in Flatten(s.tree.value) && to in Flatten(s.tree.value)
    && var t, t2 := s.tree.value, s2.tree.value;
       var block, shift := Flatten(Find(t, nid).value), Find(t, to).value.depth + 1 - Find(t, nid).value.depth;
       && (forall x :: x in Flatten(t) ==> x in Flatten(t2) && Find(t2, x).value.name == Find(t, x).value.name)
       && (forall x :: x in Flatten(t) && x !in block ==> Find(t2, x).value.depth == Find(t, x).value.depth)
       && (forall x :: x in block ==>
             && x in Flatten(t) && x in Flatten(t2)
             && Find(t2, x).value.depth == Find(t, x).value.depth + shift)
       && (forall x :: x in Flatten(t) && x != t.id && x != nid ==>
             ParentOf(t, x).Some? && ParentOf(t2, x).Some? && ParentOf(t2, x).value.id == ParentOf(t, x).value.id)
  }

  /**
   * In `s2`, the store after moving `nid` below `to` in `s`, the node's
   * parent is `to`, its depth is one more than `to`'s, its subtree walk is
   * the one it had in `s`, and its predecessor comes right before it in
   * the cached walk.
   */
  predicate MovedInStore(s: Store, s2: Store, nid: Id, to: Id)
  {
    && Known(s, nid) && Known(s2, nid) && Known(s2, to)
    && ParentOf(s2.tree.value, nid).Some? && ParentOf(s2.tree.value, nid).value.id == to
    && Find(s2.tree.value, nid).value.depth == Find(s2.tree.value, to).value.depth + 1
    && Flatten(Find(s2.tree.value, nid).value) == Flatten(Find(s.tree.value, nid).value)
    && IndexOf(s2.preorder, nid) >= 1 && IndexOf(s2.preorder, nid) < |s2.preorder|
    && PreorderPredecessor(s2.tree.value, nid) == Some(s2.preorder[IndexOf(s2.preorder, nid) - 1])
  }

  /** `MovedInStore` for the re-linked tree and its walk. */
  lemma MovedInRelinked(t: Node, nid: Id, to: Id)
    requires Movable(t, nid, to) && t.depth == 0
    ensures var t2 := Relinked(t, nid, to);
      MovedInStore(Store(Some(t), Some(t.id), Flatten(t)), Store(Some(t2), Some(t.id), Flatten(t2)), nid, to)
  {
    var t2 := Relinked(t, nid, to);
    RelinkWellFormed(t, nid, to);
    RelinkParts(t, nid, to);
    MovedBelow(t, nid, to);
    var t1 := Pruned(t, nid);
    assert Destination(t, nid, to).depth == Find(t1, to).value.depth;
    assert nid != t2.id by {
      assert nid in FlattenAll(t2.children);
      ChildrenDistinct(t2);
    }
    PredecessorIsPrevious(t2, nid);
  }

  /**
   * A leaf moved as written: the move always reports success, and the
   * store it leaves is the corrected one exactly unless the new predecessor
   * comes after the leaf in the old walk and is not its last id. In that
   * case the leaf lands one slot too late.
   */
  lemma MoveLeafAsWritten(s: Store, nid: Id, to: Id)
    requires Valid(s) && Allowed(s, nid, to) && IsLeaf(Find(s.tree.value, nid).value)
    ensures var pre, pred := s.preorder, NewPredecessor(s.tree.value, nid, to);
      && Move(s, nid, to).Returned? && Move(s, nid, to).reply.ok
      && nid in pre && pred in pre
      && (Move(s, nid, to) == Returned(MoveFixed(s, nid, to)) <==>
          !(IndexOf(pre, nid) < IndexOf(pre, pred) < |pre| - 1))
  {
    var t := s.tree.value;
    var target := Find(t, nid).value;
    LeafBlock(target);
    var pred, last := NewPredecessor(t, nid, to), LastPreorderChild(target).id;
    SpliceLeafAsWritten(t, nid, to);
    SpliceOutcome(t, nid, to);
    MoveParts(s, nid, to, t, target, pred, last);
  }

  /** Both moves of an allowed node, written with the two re-splices of the cached walk. */
  lemma MoveParts(s: Store, nid: Id, to: Id, t: Node, target: Node, pred: Id, last: Id)
    requires Valid(s) && Allowed(s, nid, to)
    requires t == s.tree.value && target == Find(t, nid).value
    requires pred == NewPredecessor(t, nid, to) && last == LastPreorderChild(target).id
    requires nid in s.preorder && pred in s.preorder && last in s.preorder
    requires IndexOf(s.preorder, nid) <= IndexOf(s.preorder, last)
    ensures var p := Resplice(s.preorder, nid, pred, IsLeaf(target), last);
      Move(s, nid, to) ==
        if p.Some? then Returned(Reply(Store(Some(Relinked(t, nid, to)), s.root, p.value), true))
        else Raised(Store(Some(Relinked(t, nid, to)), s.root, s.preorder))
    ensures MoveFixed(s, nid, to) ==
      Reply(Store(Some(Relinked(t, nid, to)), s.root, RespliceFixed(s.preorder, nid, pred, IsLeaf(target), last)), true)
  {
  }

  /**
   * A node with children moved as written: when the new predecessor is the
   * id just before the node in the old walk, the call raises after the
   * tree has been re-linked, leaving the store the corrected move returns;
   * otherwise it returns what the corrected move returns.
   */
  lemma MoveBlockAsWritten(s: Store, nid: Id, to: Id)
    requires Valid(s) && Allowed(s, nid, to) && !IsLeaf(Find(s.tree.value, nid).value)
    ensures var pre, pred := s.preorder, NewPredecessor(s.tree.value, nid, to);
      && nid in pre && pred in pre
      && Move(s, nid, to) ==
         if IndexOf(pre, pred) + 1 == IndexOf(pre, nid) then Raised(MoveFixed(s, nid, to).store)
         else Returned(MoveFixed(s, nid, to))
  {
    var t := s.tree.value;
    SpliceBlockAsWritten(t, nid, to);
    SpliceOutcome(t, nid, to);
  }

  /** A raising move has already changed the tree: the node no longer hangs below its old parent. */
  lemma RaisedAfterRelink(s: Store, nid: Id, to: Id)
    requires Valid(s) && Move(s, nid, to).Raised?
    ensures Move(s, nid, to).store.tree != s.tree
  {
    var t := s.tree.value;
    MovedBelow(t, nid, to);
    RelinkParts(t, nid, to);
  }
}
