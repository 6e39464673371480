/**
 * The methods of `Node` (hapi_server.py:8-110) as pure functions on the
 * immutable tree. A mutating method returns the updated node, or `None`
 * where the source returns `False` and changes nothing. Node equality and
 * `<` compare names only, so `children.index`, `in` and `remove` on a
 * sibling list work by name; `_children_by_id` is the lookup of a child by
 * id over the same list.
 */
module Nodes {
  import opened Wrappers
  import opened Seqs
  import Names
  import opened Tree

  /** The names of a sibling list, in order. */
  function NamesOf(cs: seq<Node>): seq<Names.Name>
  {
    seq(|cs|, i requires 0 <= i < |cs| => cs[i].name)
  }

  /** The ids of a sibling list, in order (the keys of `_children_by_id`). */
  function IdsOf(cs: seq<Node>): seq<Id>
  {
    seq(|cs|, i requires 0 <= i < |cs| => cs[i].id)
  }

  /** `children.index(node)`: the first sibling whose name equals `name`. */
  function IndexOfName(cs: seq<Node>, name: Names.Name): nat
  {
    IndexOf(NamesOf(cs), name)
  }

  /** `_children_by_id[nid]`: the position of the child with id `nid`, `|cs|` when there is none. */
  function ChildIndex(cs: seq<Node>, nid: Id): nat
  {
    IndexOf(IdsOf(cs), nid)
  }

  /** Under the sibling order no two siblings share a name, so a name finds its own sibling. */
  lemma IndexOfNameSorted(cs: seq<Node>, i: nat)
    requires SortedByName(cs) && i < |cs|
    ensures IndexOfName(cs, cs[i].name) == i
  {
    var ns := NamesOf(cs);
    forall j, k | 0 <= j < k < |ns|
      ensures ns[j] != ns[k]
    {
      if ns[j] == ns[k] {
        Names.LessIrreflexive(ns[j]);
      }
    }
    IndexOfDistinct(ns, i);
  }

  lemma IndexOfNameWhenSorted(cs: seq<Node>, i: nat)
    requires i < |cs|
    ensures SortedByName(cs) ==> IndexOfName(cs, cs[i].name) == i
  {
    if SortedByName(cs) {
      IndexOfNameSorted(cs, i);
    }
  }

  /** `is_leaf`. */
  predicate IsLeaf(n: Node)
  {
    n.children == []
  }

  /** A node is a leaf exactly when its pre-order block is the node alone. */
  lemma LeafBlock(n: Node)
    ensures IsLeaf(n) <==> Flatten(n) == [n.id]
  {
    if !IsLeaf(n) {
      assert |Flatten(n.children[0])| >= 1;
    }
  }

  /**
   * `last_preorder_child`: follow the last child down to a leaf. That leaf
   * is the last id of the node's pre-order block.
   */
  function LastPreorderChild(n: Node): (r: Node)
    ensures IsLeaf(r)
    ensures r.id == Flatten(n)[|Flatten(n)| - 1]
    decreases n
  {
    if n.children == [] then n
    else
      var k := |n.children| - 1;
      FlattenAllSplit(n.children, k);
      assert n.children[k + 1..] == [];
      LastPreorderChild(n.children[k])
  }

  /** `set_depth`: the node gets depth `d` and every descendant one more than its parent. */
  function SetDepth(n: Node, d: int): (r: Node)
    ensures r.id == n.id && r.name == n.name && r.depth == d
    ensures Flatten(r) == Flatten(n)
    ensures NamesOf(r.children) == NamesOf(n.children)
    ensures Depths(r)
    decreases n, 1
  {
    var cs := SetDepthAll(n.children, d + 1);
    var r := n.(depth := d, children := cs);
    assert NamesOf(cs) == NamesOf(n.children);
    r
  }

  function SetDepthAll(cs: seq<Node>, d: int): (rs: seq<Node>)
    ensures |rs| == |cs|
    ensures FlattenAll(rs) == FlattenAll(cs)
    ensures forall i :: 0 <= i < |cs| ==>
      && rs[i].id == cs[i].id && rs[i].name == cs[i].name && rs[i].depth == d
      && Depths(rs[i])
    decreases cs, 0
  {
    if cs == [] then []
    else
      var rs := [SetDepth(cs[0], d)] + SetDepthAll(cs[1..], d);
      assert rs[1..] == SetDepthAll(cs[1..], d);
      rs
  }

  /** Re-depthing leaves the sibling order alone. */
  lemma {:induction false} SetDepthSorted(n: Node, d: int)
    ensures Sorted(SetDepth(n, d)) <==> Sorted(n)
    decreases n, 1
  {
    var r := SetDepth(n, d);
    SetDepthAllSorted(n.children, d + 1);
    assert r.children == SetDepthAll(n.children, d + 1);
    forall i | 0 <= i < |n.children|
      ensures r.children[i].name == NamesOf(n.children)[i] == n.children[i].name
    {
      assert NamesOf(r.children)[i] == r.children[i].name;
    }
  }

  lemma {:induction false} SetDepthAllSorted(cs: seq<Node>, d: int)
    ensures forall i :: 0 <= i < |cs| ==> (Sorted(SetDepthAll(cs, d)[i]) <==> Sorted(cs[i]))
    decreases cs, 0
  {
    if cs != [] {
      var rs := SetDepthAll(cs, d);
      SetDepthSorted(cs[0], d);
      SetDepthAllSorted(cs[1..], d);
      assert rs[0] == SetDepth(cs[0], d);
      forall i | 1 <= i < |cs|
        ensures rs[i] == SetDepthAll(cs[1..], d)[i - 1] && cs[i] == cs[1..][i - 1]
      {
      }
    }
  }

  /**
   * Re-depthing changes depths only: every node of the subtree keeps its
   * name and its children's ids, and, when the depths below `n` already
   * follow the tree, moves by as much as `n` itself does.
   */
  lemma {:induction false} SetDepthFind(n: Node, d: int, y: Id)
    requires y in Flatten(n)
    ensures Find(SetDepth(n, d), y).Some?
    ensures var m, r := Find(n, y).value, Find(SetDepth(n, d), y).value;
      && r.name == m.name && IdsOf(r.children) == IdsOf(m.children)
      && (Depths(n) ==> r.depth == m.depth - n.depth + d)
    decreases n
  {
    var cs := n.children;
    var rs := SetDepthAll(cs, d + 1);
    if n.id == y {
      assert IdsOf(rs) == IdsOf(cs);
    } else {
      var k := SetDepthAllFind(cs, d + 1, y);
      SetDepthFind(cs[k], d + 1, y);
    }
  }

  /** Looking an id up among re-depthed siblings goes to the same sibling as before. */
  lemma {:induction false} SetDepthAllFind(cs: seq<Node>, d: int, y: Id) returns (k: nat)
    requires y in FlattenAll(cs)
    ensures k < |cs| && y in Flatten(cs[k])
    ensures FindAll(cs, y) == Find(cs[k], y)
    ensures FindAll(SetDepthAll(cs, d), y) == Find(SetDepth(cs[k], d), y)
    decreases cs
  {
    var rs := SetDepthAll(cs, d);
    assert rs[0] == SetDepth(cs[0], d);
    if y in Flatten(cs[0]) {
      k := 0;
    } else {
      assert rs[1..] == SetDepthAll(cs[1..], d);
      var j := SetDepthAllFind(cs[1..], d, y);
      k := j + 1;
    }
  }

  /** A sibling of the list before an insertion, and where it sits after it. */
  lemma InsertedSibling(ds: seq<Node>, j: nat, c: Node, q: nat) returns (q2: nat)
    requires j <= |ds| && q < |ds|
    ensures var ds2 := ds[..j] + [c] + ds[j..];
      && q2 < |ds2| && ds2[q2] == ds[q] && IdsOf(ds2)[q2] == ds[q].id
  {
    q2 := if q < j then q else q + 1;
  }

  /** A sibling of the list before a removal at `i`, other than the removed one, and where it sits after it. */
  lemma RemovedSibling(ds: seq<Node>, i: nat, q: nat) returns (q2: nat)
    requires i < |ds| && q < |ds| && q != i
    ensures var ds2 := ds[..i] + ds[i + 1..];
      && q2 < |ds2| && ds2[q2] == ds[q] && IdsOf(ds2)[q2] == ds[q].id
  {
    q2 := if q < i then q else q - 1;
  }

  /** The first position whose sibling's name is not below `name`. */
  function InsertPos(cs: seq<Node>, name: Names.Name): (i: nat)
    ensures i <= |cs|
    ensures forall j :: 0 <= j < i ==> Names.Less(cs[j].name, name)
    ensures i < |cs| ==> !Names.Less(cs[i].name, name)
  {
    if cs == [] then 0
    else if Names.Less(cs[0].name, name) then 1 + InsertPos(cs[1..], name)
    else 0
  }

  /**
   * `children.append(node); children.sort()` on a list that is already
   * strictly ascending and lacks the new name: the node goes in at its
   * place in the order.
   */
  function InsertByName(cs: seq<Node>, c: Node): (r: seq<Node>)
    ensures var i := InsertPos(cs, c.name); r == cs[..i] + [c] + cs[i..]
    ensures SortedByName(cs) && c.name !in NamesOf(cs) ==> SortedByName(r)
  {
    var i := InsertPos(cs, c.name);
    var r := Insert(cs, i, c);
    assert r == cs[..i] + [c] + cs[i..];
    InsertKeepsOrder(cs, c, i);
    r
  }

  /** Inserting is appending and re-ordering: the same siblings plus the new one. */
  lemma InsertByNamePermutes(cs: seq<Node>, c: Node)
    ensures multiset(InsertByName(cs, c)) == multiset(cs + [c])
  {
    InsertPermutes(cs, InsertPos(cs, c.name), c, InsertByName(cs, c));
  }

  lemma InsertKeepsOrder(cs: seq<Node>, c: Node, i: nat)
    requires i == InsertPos(cs, c.name)
    ensures SortedByName(cs) && c.name !in NamesOf(cs) ==> SortedByName(cs[..i] + [c] + cs[i..])
  {
    if SortedByName(cs) && c.name !in NamesOf(cs) {
      InsertKeepsOrderSorted(cs, c, i);
    }
  }

  lemma InsertKeepsOrderSorted(cs: seq<Node>, c: Node, i: nat)
    requires SortedByName(cs) && c.name !in NamesOf(cs)
    requires i == InsertPos(cs, c.name)
    ensures SortedByName(cs[..i] + [c] + cs[i..])
  {
    var r := cs[..i] + [c] + cs[i..];
    forall j | i <= j < |cs|
      ensures Names.Less(c.name, cs[j].name)
    {
      assert NamesOf(cs)[i] == cs[i].name;
      Names.LessTotal(c.name, cs[i].name);
      if j > i {
        Names.LessTransitive(c.name, cs[i].name, cs[j].name);
      }
    }
    forall j, k | 0 <= j < k < |r|
      ensures Names.Less(r[j].name, r[k].name)
    {
      if k < i {
        assert r[j] == cs[j] && r[k] == cs[k];
      } else if k == i {
        assert r[j] == cs[j];
      } else if j < i {
        assert r[j] == cs[j] && r[k] == cs[k - 1];
        Names.LessTransitive(cs[j].name, c.name, cs[k - 1].name);
      } else if j == i {
        assert r[k] == cs[k - 1];
      } else {
        assert r[j] == cs[j - 1] && r[k] == cs[k - 1];
      }
    }
  }

  /**
   * `add_child`: refused (`None`) when there is no node or a child already
   * has its name. Otherwise the node, re-depthed below this one, joins the
   * children at its place in the name order.
   */
  function AddChild(p: Node, n: Option<Node>): (r: Option<Node>)
    ensures r.None? <==> n.None? || n.value.name in NamesOf(p.children)
    ensures r.Some? ==>
      && r.value.id == p.id && r.value.name == p.name && r.value.depth == p.depth
      && (var i := InsertPos(p.children, n.value.name);
          r.value.children == p.children[..i] + [SetDepth(n.value, p.depth + 1)] + p.children[i..])
      && (SortedByName(p.children) ==> SortedByName(r.value.children))
  {
    if n.None? || n.value.name in NamesOf(p.children) then None
    else Some(p.(children := InsertByName(p.children, SetDepth(n.value, p.depth + 1))))
  }

  /** After `add_child` a child carries the added node's name. */
  lemma AddChildNamed(p: Node, n: Node)
    requires n.name !in NamesOf(p.children)
    ensures AddChild(p, Some(n)).Some?
    ensures n.name in NamesOf(AddChild(p, Some(n)).value.children)
  {
    var cs := AddChild(p, Some(n)).value.children;
    var i := InsertPos(p.children, n.name);
    assert cs[i].name == n.name;
    assert NamesOf(cs)[i] == n.name;
  }

  /**
   * After a successful `add_child` the node sits among the children with
   * every depth below it consistent, and a well-formed parent stays
   * well-formed.
   */
  lemma AddChildWellFormed(p: Node, n: Node)
    requires WellFormed(p) && Sorted(n) && n.name !in NamesOf(p.children)
    ensures AddChild(p, Some(n)).Some?
    ensures var q := AddChild(p, Some(n)).value; var c := SetDepth(n, p.depth + 1);
      && c in q.children && c.depth == p.depth + 1 && Depths(c)
      && WellFormed(q)
  {
    var c, i := AddChildShape(p, n);
    SetDepthSorted(n, p.depth + 1);
    GraftWellFormed(p, AddChild(p, Some(n)).value, c, i);
  }

  /** A successful `add_child` keeps every child the parent had. */
  lemma AddChildKeepsIds(p: Node, n: Node)
    requires n.name !in NamesOf(p.children)
    ensures AddChild(p, Some(n)).Some?
    ensures forall x :: x in IdsOf(p.children) ==> x in IdsOf(AddChild(p, Some(n)).value.children)
  {
    var ds := p.children;
    var i := InsertPos(ds, n.name);
    forall x | x in IdsOf(ds)
      ensures x in IdsOf(AddChild(p, Some(n)).value.children)
    {
      var q := IndexOf(IdsOf(ds), x);
      assert ds[q].id == x;
      var q2 := InsertedSibling(ds, i, SetDepth(n, p.depth + 1), q);
    }
  }

  /** The parts of a successful `add_child` on a parent whose children are in name order. */
  lemma AddChildShape(p: Node, n: Node) returns (c: Node, i: nat)
    requires SortedByName(p.children) && n.name !in NamesOf(p.children)
    ensures AddChild(p, Some(n)).Some?
    ensures c == SetDepth(n, p.depth + 1) && i <= |p.children|
    ensures var q := AddChild(p, Some(n)).value;
      && q.depth == p.depth && q.children == p.children[..i] + [c] + p.children[i..]
      && SortedByName(q.children)
  {
    c := SetDepth(n, p.depth + 1);
    i := InsertPos(p.children, n.name);
  }

  /** A well-formed parent with a well-formed child of the next depth inserted in name order. */
  lemma GraftWellFormed(p: Node, q: Node, c: Node, i: nat)
    requires WellFormed(p) && i <= |p.children|
    requires q.depth == p.depth && q.children == p.children[..i] + [c] + p.children[i..]
    requires c.depth == p.depth + 1 && Depths(c) && Sorted(c)
    requires SortedByName(q.children)
    ensures c in q.children && WellFormed(q)
  {
    var cs := p.children;
    assert q.children[i] == c;
    forall k | 0 <= k < |q.children|
      ensures q.children[k].depth == q.depth + 1 && Depths(q.children[k]) && Sorted(q.children[k])
    {
      if k < i {
        assert q.children[k] == cs[k];
      } else if k > i {
        assert q.children[k] == cs[k - 1];
      }
    }
  }

  /**
   * `remove_child`: refused (`None`) for an id that is not a child, or for a
   * child with children of its own unless `force` is set. Otherwise the first
   * child with that child's name is dropped from the list.
   */
  function RemoveChild(p: Node, nid: Id, force: bool): (r: Option<Node>)
    ensures var i := ChildIndex(p.children, nid);
      r.None? <==> i == |p.children| || (!force && !IsLeaf(p.children[i]))
    ensures r.Some? ==> r.value.id == p.id && r.value.name == p.name && r.value.depth == p.depth
    ensures r.Some? && SortedByName(p.children) ==>
      var i := ChildIndex(p.children, nid);
      i < |p.children| && p.children[i].id == nid &&
      r.value.children == p.children[..i] + p.children[i + 1..]
  {
    var i := ChildIndex(p.children, nid);
    if i == |p.children| then None
    else if !IsLeaf(p.children[i]) && !force then None
    else
      var k := IndexOfName(p.children, p.children[i].name);
      assert NamesOf(p.children)[i] == p.children[i].name;
      assert IdsOf(p.children)[i] == nid;
      IndexOfNameWhenSorted(p.children, i);
      assert SortedByName(p.children) ==> k == i;
      Some(p.(children := p.children[..k] + p.children[k + 1..]))
  }

  /** A successful `remove_child` keeps every other child the parent had. */
  lemma RemoveChildKeepsIds(p: Node, nid: Id, force: bool)
    requires SortedByName(p.children) && RemoveChild(p, nid, force).Some?
    ensures forall x :: x in IdsOf(p.children) && x != nid ==> x in IdsOf(RemoveChild(p, nid, force).value.children)
  {
    var ds := p.children;
    var i := ChildIndex(ds, nid);
    forall x | x in IdsOf(ds) && x != nid
      ensures x in IdsOf(RemoveChild(p, nid, force).value.children)
    {
      var q := IndexOf(IdsOf(ds), x);
      assert ds[q].id == x;
      var q2 := RemovedSibling(ds, i, q);
    }
  }

  /** Removing a child keeps a well-formed parent well-formed. */
  lemma RemoveChildWellFormed(p: Node, nid: Id, force: bool)
    requires WellFormed(p) && RemoveChild(p, nid, force).Some?
    ensures WellFormed(RemoveChild(p, nid, force).value)
  {
    var i := RemoveChildShape(p, nid, force);
    DropWellFormed(p, RemoveChild(p, nid, force).value, i);
  }

  /** The position of the child a successful `remove_child` drops from a parent whose children are in name order. */
  lemma RemoveChildShape(p: Node, nid: Id, force: bool) returns (i: nat)
    requires SortedByName(p.children) && RemoveChild(p, nid, force).Some?
    ensures var q := RemoveChild(p, nid, force).value;
      && i < |p.children| && q.depth == p.depth
      && q.children == p.children[..i] + p.children[i + 1..]
  {
    i := ChildIndex(p.children, nid);
  }

  /** A well-formed parent with one child dropped. */
  lemma DropWellFormed(p: Node, q: Node, i: nat)
    requires WellFormed(p) && i < |p.children|
    requires q.depth == p.depth && q.children == p.children[..i] + p.children[i + 1..]
    ensures WellFormed(q)
  {
    var cs := p.children;
    forall j | 0 <= j < |q.children|
      ensures q.children[j] == cs[if j < i then j else j + 1]
    {
    }
    forall j, k | 0 <= j < k < |q.children|
      ensures Names.Less(q.children[j].name, q.children[k].name)
    {
      assert q.children[j] == cs[if j < i then j else j + 1];
      assert q.children[k] == cs[if k < i then k else k + 1];
    }
    forall j | 0 <= j < |q.children|
      ensures q.children[j].depth == q.depth + 1 && Depths(q.children[j]) && Sorted(q.children[j])
    {
      assert q.children[j] == cs[if j < i then j else j + 1];
    }
  }

  /**
   * `preorder_predecessor` of the child `c` of `p`: `p` itself for the first
   * child, otherwise the last pre-order node of the sibling just before it.
   */
  function PredecessorIn(p: Node, c: Node): Id
    requires c.name in NamesOf(p.children)
  {
    var idx := IndexOfName(p.children, c.name);
    if idx == 0 then p.id else LastPreorderChild(p.children[idx - 1]).id
  }

  /**
   * In the walk of `p`, the predecessor of its `i`-th child is the id
   * immediately before that child's block.
   */
  lemma PredecessorPrecedes(p: Node, i: nat) returns (before: seq<Id>)
    requires SortedByName(p.children) && i < |p.children|
    ensures p.children[i].name in NamesOf(p.children)
    ensures Flatten(p) == before + Flatten(p.children[i]) + FlattenAll(p.children[i + 1..])
    ensures |before| >= 1 && before[|before| - 1] == PredecessorIn(p, p.children[i])
    ensures before == [p.id] + FlattenAll(p.children[..i])
  {
    var cs := p.children;
    assert NamesOf(cs)[i] == cs[i].name;
    IndexOfNameSorted(cs, i);
    FlattenAllSplit(cs, i);
    before := [p.id] + FlattenAll(cs[..i]);
    RegroupBefore([p.id], FlattenAll(cs[..i]), Flatten(cs[i]), FlattenAll(cs[i + 1..]));
    if i > 0 {
      PrefixWalkLast(cs, i);
    } else {
      assert cs[..i] == [];
    }
  }

  /** The walk of the first `i` siblings ends with the last pre-order node of sibling `i - 1`. */
  lemma PrefixWalkLast(cs: seq<Node>, i: nat)
    requires 0 < i <= |cs|
    ensures var w := FlattenAll(cs[..i]); |w| >= 1 && w[|w| - 1] == LastPreorderChild(cs[i - 1]).id
  {
    var ds := cs[..i];
    FlattenAllSplit(ds, i - 1);
    assert ds[i - 1] == cs[i - 1] && ds[i..] == [];
  }
}
