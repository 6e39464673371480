/**
 * `Storage` (hapi_server.py:113-178): the id index `_nodes`, the root
 * `_root` and the cached pre-order list `_preorder`, with the operations
 * `add` and `delete`. The store is a value; an operation returns the new
 * store together with the flag the source returns, and a refused operation
 * returns the store it was given.
 */
module Storage {
  import opened Wrappers
  import opened Seqs
  import Names
  import opened Tree
  import opened Nodes
  import opened Links
  import opened Edits
  import opened Relink
  import opened Landing

  /**
   * The store. `tree` is the whole tree, `None` while `_nodes` is empty;
   * `_nodes` is the set of its ids, looked up with `Find`. `root` is
   * `_root`, kept apart from the tree because deleting the sole node does
   * not reset it.
   */
  datatype Store = Store(tree: Option<Node>, root: Option<Id>, preorder: seq<Id>)

  /** A new store state and the flag the operation returns. */
  datatype Reply = Reply(store: Store, ok: bool)

  /** The store as constructed. */
  const Empty := Store(None, None, [])

  /** `x in self._nodes`. */
  predicate Known(s: Store, x: Id)
  {
    s.tree.Some? && x in Flatten(s.tree.value)
  }

  /**
   * What every operation keeps: the root has depth 0, siblings are strictly
   * ascending by name, each child is one deeper than its parent, no id
   * occurs twice, `_root` is the root, and `_preorder` is the pre-order
   * walk of the tree.
   */
  predicate Valid(s: Store)
  {
    match s.tree
    case None => s.preorder == []
    case Some(t) =>
      && s.root == Some(t.id) && t.depth == 0
      && WellFormed(t) && Distinct(Flatten(t))
      && s.preorder == Flatten(t)
  }

  /**
   * `add(Node(id, name), parent)`, the node being a new leaf as the request
   * handler builds it. `parent == ""` stands for a missing parent, which
   * asks for a root. A child is inserted into the cached walk right after
   * its pre-order predecessor.
   */
  function Add(s: Store, id: Id, name: Names.Name, parent: Id): (r: Reply)
    ensures !r.ok ==> r.store == s
    ensures r.ok <==>
      && !Known(s, id)
      && (if parent == "" then s.tree.None?
          else Known(s, parent) && name !in NamesOf(Find(s.tree.value, parent).value.children))
    ensures r.ok ==> r.store.root == if parent == "" then Some(id) else s.root
  {
    var leaf := Node(id, name, 0, []);
    if Known(s, id) then Reply(s, false)
    else if parent == "" then
      if s.tree.Some? then Reply(s, false)
      else Reply(Store(Some(leaf), Some(id), s.preorder + [id]), true)
    else if !Known(s, parent) then Reply(s, false)
    else
      var t := s.tree.value;
      var p := Find(t, parent).value;
      match AddChild(p, Some(leaf))
      case None => Reply(s, false)
      case Some(p2) =>
        AddChildNamed(p, leaf);
        Reply(Store(Some(Replace(t, parent, p2)), s.root, InsertAfter(s.preorder, PredecessorIn(p2, leaf), id)), true)
  }

  /**
   * `delete(nid)`: a node with a parent goes when `remove_child` (without
   * force) lets it go, that is when it is a leaf; a node without parent
   * goes only when it is the sole node, and `_root` is left as it was.
   */
  function Delete(s: Store, nid: Id): (r: Reply)
    ensures !r.ok ==> r.store == s
    ensures r.store.root == s.root
  {
    if !Known(s, nid) then Reply(s, false)
    else
      var t := s.tree.value;
      match ParentOf(t, nid)
      case Some(p) =>
        (match RemoveChild(p, nid, false)
         case Some(p2) => Reply(Store(Some(Replace(t, p.id, p2)), s.root, RemoveFirst(s.preorder, nid)), true)
         case None => Reply(s, false))
      case None =>
        if |Flatten(t)| == 1 then Reply(Store(None, s.root, []), true) else Reply(s, false)
  }

  /**
   * `add` keeps the store valid; on success the id index gains exactly the
   * new id, and taking the new id out of the cached walk gives back the
   * walk as it was.
   */
  lemma AddKeepsValid(s: Store, id: Id, name: Names.Name, parent: Id)
    requires Valid(s)
    ensures var r := Add(s, id, name, parent);
      && Valid(r.store)
      && (r.ok ==> forall x :: Known(r.store, x) <==> Known(s, x) || x == id)
      && (r.ok ==> |r.store.preorder| == |s.preorder| + 1)
      && (r.ok ==> RemoveFirst(r.store.preorder, id) == s.preorder)
  {
    var r := Add(s, id, name, parent);
    if r.ok {
      if parent == "" {
        RemoveLeaf([], id, []);
      } else {
        var t, p, p2, a2, c2 := AddBelow(s, id, name, parent);
        DistinctInsert(a2, id, c2);
        RemoveLeaf(a2, id, c2);
      }
    }
  }

  /** The parts of a successful `add` below a parent, named. */
  lemma AddParts(s: Store, id: Id, name: Names.Name, parent: Id) returns (t: Node, p: Node, p2: Node)
    requires parent != "" && Add(s, id, name, parent).ok
    ensures s.tree == Some(t) && parent in Flatten(t) && id !in Flatten(t)
    ensures Find(t, parent) == Some(p) && AddChild(p, Some(Node(id, name, 0, []))) == Some(p2)
    ensures name in NamesOf(p2.children)
    ensures Add(s, id, name, parent).store ==
      Store(Some(Replace(t, parent, p2)), s.root,
            InsertAfter(s.preorder, PredecessorIn(p2, Node(id, name, 0, [])), id))
  {
    t := s.tree.value;
    p := Find(t, parent).value;
    p2 := AddChild(p, Some(Node(id, name, 0, []))).value;
    AddChildNamed(p, Node(id, name, 0, []));
  }

  /** Grafting a new leaf below `parent` keeps the tree well-formed and rooted where it was. */
  lemma GraftLeafWellFormed(t: Node, parent: Id, p: Node, leaf: Node, p2: Node)
    requires WellFormed(t) && parent in Flatten(t) && Find(t, parent) == Some(p)
    requires leaf.children == [] && AddChild(p, Some(leaf)) == Some(p2)
    ensures WellFormed(Replace(t, parent, p2))
    ensures Replace(t, parent, p2).id == t.id && Replace(t, parent, p2).depth == t.depth
    ensures SetDepth(leaf, p.depth + 1) in p2.children
  {
    FindWellFormed(t, parent);
    AddChildWellFormed(p, leaf);
    ReplaceWellFormed(t, parent, p2);
    ReplaceKeepsId(t, parent, p2);
  }

  /**
   * Grafting a new leaf below `parent`: the walk is cut after the
   * predecessor, and inserting the id after the predecessor's position in
   * the old walk gives the new walk.
   */
  lemma GraftLeafWalk(t: Node, parent: Id, p: Node, leaf: Node, p2: Node, pred: Id) returns (a2: seq<Id>, c2: seq<Id>)
    requires Distinct(Flatten(t)) && parent in Flatten(t) && Find(t, parent) == Some(p)
    requires SortedByName(p.children) && leaf.children == [] && leaf.id !in Flatten(t)
    requires AddChild(p, Some(leaf)) == Some(p2) && leaf.name in NamesOf(p2.children)
    requires pred == PredecessorIn(p2, leaf)
    ensures Flatten(t) == a2 + c2
    ensures Flatten(Replace(t, parent, p2)) == a2 + [leaf.id] + c2
    ensures InsertAfter(Flatten(t), pred, leaf.id) == a2 + [leaf.id] + c2
    ensures Distinct(a2 + [leaf.id] + c2)
  {
    a2, c2 := GraftLeafCut(t, parent, p, leaf, p2, pred);
    InsertAfterLast(Flatten(t), a2, c2, pred, leaf.id);
    DistinctInsert(a2, leaf.id, c2);
  }

  /** The cut of the walk that grafting a new leaf below `parent` makes. */
  lemma GraftLeafCut(t: Node, parent: Id, p: Node, leaf: Node, p2: Node, pred: Id) returns (a2: seq<Id>, c2: seq<Id>)
    requires parent in Flatten(t) && Find(t, parent) == Some(p)
    requires SortedByName(p.children) && leaf.children == []
    requires AddChild(p, Some(leaf)) == Some(p2) && leaf.name in NamesOf(p2.children)
    requires pred == PredecessorIn(p2, leaf)
    ensures Flatten(t) == a2 + c2 && |a2| >= 1 && a2[|a2| - 1] == pred
    ensures Flatten(Replace(t, parent, p2)) == a2 + [leaf.id] + c2
  {
    a2, c2 := GraftShape(t, parent, leaf);
    assert Flatten(leaf) == [leaf.id];
  }

  /**
   * A child added below `parent`: the new tree is the old one with the
   * parent replaced, and the walk is the old one cut after the predecessor
   * with the new id put in at the cut.
   */
  lemma AddBelow(s: Store, id: Id, name: Names.Name, parent: Id) returns (t: Node, p: Node, p2: Node, a2: seq<Id>, c2: seq<Id>)
    requires Valid(s) && parent != "" && Add(s, id, name, parent).ok
    ensures s.tree == Some(t) && parent in Flatten(t) && Find(t, parent) == Some(p)
    ensures AddChild(p, Some(Node(id, name, 0, []))) == Some(p2)
    ensures Add(s, id, name, parent).store == Store(Some(Replace(t, parent, p2)), s.root, a2 + [id] + c2)
    ensures Valid(Add(s, id, name, parent).store)
    ensures s.preorder == a2 + c2 && id !in s.preorder
  {
    t, p, p2 := AddParts(s, id, name, parent);
    a2, c2 := GraftLeaf(t, parent, p, Node(id, name, 0, []), p2);
  }

  /** Grafting a new leaf below `parent`, in the terms of the tree alone. */
  lemma GraftLeaf(t: Node, parent: Id, p: Node, leaf: Node, p2: Node) returns (a2: seq<Id>, c2: seq<Id>)
    requires WellFormed(t) && Distinct(Flatten(t)) && parent in Flatten(t) && Find(t, parent) == Some(p)
    requires leaf.children == [] && leaf.id !in Flatten(t) && AddChild(p, Some(leaf)) == Some(p2)
    ensures leaf.name in NamesOf(p2.children)
    ensures var t2 := Replace(t, parent, p2);
      && WellFormed(t2) && t2.id == t.id && t2.depth == t.depth
      && Flatten(t) == a2 + c2 && Flatten(t2) == a2 + [leaf.id] + c2 && Distinct(Flatten(t2))
      && InsertAfter(Flatten(t), PredecessorIn(p2, leaf), leaf.id) == Flatten(t2)
  {
    GraftLeafWellFormed(t, parent, p, leaf, p2);
    FoundSiblingsSorted(t, parent);
    AddChildNamed(p, leaf);
    a2, c2 := GraftLeafWalk(t, parent, p, leaf, p2, PredecessorIn(p2, leaf));
  }

  /** A new leaf grafted below `parent` is a child of it, one deeper. */
  lemma GraftLeafChild(t: Node, parent: Id, p: Node, leaf: Node, p2: Node)
    requires WellFormed(t) && Distinct(Flatten(t)) && parent in Flatten(t) && Find(t, parent) == Some(p)
    requires leaf.children == [] && leaf.id !in Flatten(t) && AddChild(p, Some(leaf)) == Some(p2)
    ensures var t2 := Replace(t, parent, p2);
      parent in Flatten(t2) && HasLeafChild(Find(t2, parent).value, leaf.id, leaf.name)
  {
    GraftLeafWellFormed(t, parent, p, leaf, p2);
    FindReplaced(t, parent, p2);
    assert SetDepth(leaf, p.depth + 1) == Node(leaf.id, leaf.name, p2.depth + 1, []);
  }

  /** A new leaf grafted below `parent` comes in the new walk directly after its pre-order predecessor. */
  lemma GraftLeafPredecessor(t: Node, parent: Id, p: Node, leaf: Node, p2: Node)
    requires WellFormed(t) && Distinct(Flatten(t)) && parent in Flatten(t) && Find(t, parent) == Some(p)
    requires leaf.children == [] && leaf.id !in Flatten(t) && AddChild(p, Some(leaf)) == Some(p2)
    ensures var t2 := Replace(t, parent, p2);
      && leaf.id in Flatten(t2) && IndexOf(Flatten(t2), leaf.id) >= 1
      && PreorderPredecessor(t2, leaf.id) == Some(Flatten(t2)[IndexOf(Flatten(t2), leaf.id) - 1])
  {
    var a2, c2 := GraftLeaf(t, parent, p, leaf, p2);
    var t2 := Replace(t, parent, p2);
    assert leaf.id in Flatten(t2) by {
      assert Flatten(t2) == a2 + [leaf.id] + c2;
    }
    assert leaf.id != t2.id by {
      assert t.id in Flatten(t);
    }
    PredecessorIsPrevious(t2, leaf.id);
  }

  /**
   * A child added below `parent` is a leaf child of it, one deeper, and
   * sits in the cached walk directly after its pre-order predecessor in the
   * new tree.
   */
  lemma AddPlacesAfterPredecessor(s: Store, id: Id, name: Names.Name, parent: Id)
    requires Valid(s) && parent != "" && Add(s, id, name, parent).ok
    ensures var r := Add(s, id, name, parent).store;
      && Known(r, id) && Known(r, parent)
      && HasLeafChild(Find(r.tree.value, parent).value, id, name)
      && IndexOf(r.preorder, id) >= 1
      && PreorderPredecessor(r.tree.value, id) == Some(r.preorder[IndexOf(r.preorder, id) - 1])
  {
    var t, p, p2 := AddParts(s, id, name, parent);
    var a2, c2 := GraftLeaf(t, parent, p, Node(id, name, 0, []), p2);
    GraftLeafChild(t, parent, p, Node(id, name, 0, []), p2);
    GraftLeafPredecessor(t, parent, p, Node(id, name, 0, []), p2);
    var t2 := Replace(t, parent, p2);
    assert Add(s, id, name, parent).store == Store(Some(t2), s.root, Flatten(t2));
  }

  /** `p` has a leaf child with this id and name, one deeper than `p`. */
  predicate HasLeafChild(p: Node, id: Id, name: Names.Name)
  {
    Node(id, name, p.depth + 1, []) in p.children
  }

  /**
   * `delete` keeps the store valid and succeeds exactly on a leaf (the
   * root is a leaf only when it is the sole node); on success the id index
   * and the cached walk lose exactly that id.
   */
  lemma DeleteKeepsValid(s: Store, nid: Id)
    requires Valid(s)
    ensures var r := Delete(s, nid);
      && Valid(r.store)
      && (r.ok <==> Known(s, nid) && IsLeaf(Find(s.tree.value, nid).value))
      && (r.ok ==> forall x :: Known(r.store, x) <==> Known(s, x) && x != nid)
      && (r.ok ==> |r.store.preorder| == |s.preorder| - 1)
      && (r.ok ==> forall x :: x in r.store.preorder <==> x in s.preorder && x != nid)
      && (r.ok ==> nid in s.preorder && Insert(r.store.preorder, IndexOf(s.preorder, nid), nid) == s.preorder)
  {
    if Known(s, nid) {
      var t := s.tree.value;
      ChildrenDistinct(t);
      LeafBlock(Find(t, nid).value);
      if nid == t.id {
        assert ParentOf(t, nid).None?;
        LeafBlock(t);
        assert |Flatten(t)| == 1 <==> IsLeaf(t);
      } else {
        DeleteLeaf(s, nid);
        RemoveFirstUndone(s.preorder, nid);
      }
    }
  }

  /** Deleting a node below the root is detaching it as `move` does, when it is a leaf. */
  lemma DeleteLeaf(s: Store, nid: Id)
    requires Valid(s) && Known(s, nid) && nid != s.tree.value.id
    ensures var t, r := s.tree.value, Delete(s, nid);
      && ParentOf(t, nid).Some?
      && (r.ok <==> IsLeaf(Find(t, nid).value))
      && (r.ok ==> r.store.tree == Some(Pruned(t, nid)))
      && (r.ok ==> Valid(r.store))
      && (r.ok ==> forall x :: x in r.store.preorder <==> x in s.preorder && x != nid)
      && (r.ok ==> |r.store.preorder| == |s.preorder| - 1)
  {
    var t := s.tree.value;
    assert nid in FlattenAll(t.children);
    ParentOfFound(t, nid);
    var p := ParentOf(t, nid).value;
    var target := Find(t, nid).value;
    if IsLeaf(target) {
      assert RemoveChild(p, nid, false) == RemoveChild(p, nid, true);
      var a, c := PruneShape(t, nid);
      PruneWellFormed(t, nid);
      LeafBlock(target);
      RemoveLeaf(a, nid, c);
    }
  }

  /**
   * Adding a child and deleting it again gives back the store as it was:
   * the parent regains its old children and the walk its old ids.
   */
  lemma AddThenDelete(s: Store, id: Id, name: Names.Name, parent: Id)
    requires Valid(s) && parent != "" && Add(s, id, name, parent).ok
    ensures Valid(Add(s, id, name, parent).store)
    ensures Delete(Add(s, id, name, parent).store, id) == Reply(s, true)
  {
    var t, p, p2, a2, c2 := AddBelow(s, id, name, parent);
    var s2 := Add(s, id, name, parent).store;
    GraftLeafUndone(t, parent, p, Node(id, name, 0, []), p2);
    DistinctInsert(a2, id, c2);
    RemoveLeaf(a2, id, c2);
    DeleteAt(s2, id, p2, p);
  }

  /**
   * Removing a new leaf grafted below `parent` from its parent, and putting
   * the parent back, gives the tree before the graft.
   */
  lemma GraftLeafUndone(t: Node, parent: Id, p: Node, leaf: Node, p2: Node)
    requires WellFormed(t) && Distinct(Flatten(t)) && parent in Flatten(t) && Find(t, parent) == Some(p)
    requires leaf.children == [] && leaf.id !in Flatten(t) && AddChild(p, Some(leaf)) == Some(p2)
    ensures var t2 := Replace(t, parent, p2);
      && ParentOf(t2, leaf.id) == Some(p2)
      && RemoveChild(p2, leaf.id, false) == Some(p)
      && Replace(t2, p2.id, p) == t
  {
    var a2, c2 := GraftLeaf(t, parent, p, leaf, p2);
    var t2 := Replace(t, parent, p2);
    FindReplaced(t, parent, p2);
    FoundSiblingsSorted(t, parent);
    var i := UngraftLeaf(t2, parent, p, p2, leaf);
    ReplaceTwice(t, parent, p2, p);
    ReplaceSelf(t, parent, p);
  }

  /**
   * Removing the leaf just grafted below `parent`: it is found with that
   * parent, and removing it gives the parent back.
   */
  lemma UngraftLeaf(t2: Node, parent: Id, p: Node, p2: Node, leaf: Node) returns (i: nat)
    requires Distinct(Flatten(t2)) && parent in Flatten(t2) && Find(t2, parent) == Some(p2)
    requires SortedByName(p.children) && leaf.children == [] && AddChild(p, Some(leaf)) == Some(p2)
    ensures ParentOf(t2, leaf.id) == Some(p2)
    ensures RemoveChild(p2, leaf.id, false) == Some(p)
    ensures i < |p2.children| && p2.children[i].id == leaf.id
  {
    var c, j := AddChildShape(p, leaf);
    i := j;
    assert c.children == [];
    assert p2.children[i] == c;
    ParentOfChild(t2, p2, i);
    FindDistinct(t2, parent);
    ChildrenDistinct(p2);
    RemoveInserted(p, p2, c, i);
  }

  /** `remove_child` of the child just put in at `i`, in a list whose ids are distinct, gives the parent back. */
  lemma RemoveInserted(p: Node, p2: Node, c: Node, i: nat)
    requires Distinct(FlattenAll(p2.children)) && SortedByName(p2.children) && c.children == []
    requires i <= |p.children| && p2.children == p.children[..i] + [c] + p.children[i..]
    requires p2.id == p.id && p2.name == p.name && p2.depth == p.depth
    ensures RemoveChild(p2, c.id, false) == Some(p)
  {
    var ds := p2.children;
    IdsDistinct(ds);
    assert IdsOf(ds)[i] == c.id;
    IndexOfDistinct(IdsOf(ds), i);
    IndexOfNameSorted(ds, i);
    DropInserted(p.children, i, c, ds);
  }

  /** `delete` of a node whose parent and whose removal from it are known. */
  lemma DeleteAt(s: Store, nid: Id, p: Node, q: Node)
    requires Valid(s) && Known(s, nid)
    requires ParentOf(s.tree.value, nid) == Some(p) && RemoveChild(p, nid, false) == Some(q)
    ensures Delete(s, nid) == Reply(Store(Some(Replace(s.tree.value, p.id, q)), s.root, RemoveFirst(s.preorder, nid)), true)
  {
  }

  /**
   * Adding a root to an empty store and deleting it again empties the tree
   * and the walk, but `_root` keeps naming the deleted node.
   */
  lemma AddRootThenDelete(s: Store, id: Id, name: Names.Name)
    requires Valid(s) && s.tree.None?
    ensures Add(s, id, name, "").ok
    ensures var r := Delete(Add(s, id, name, "").store, id);
      && r.ok && r.store.tree == None && r.store.preorder == []
      && r.store.root == Some(id) && !Known(r.store, id)
  {
  }
}
