/**
 * The parent links of `Node`, recovered from the immutable tree: a node's
 * parent (`node.parent`), the chain of its ancestors that `Storage.move`
 * walks to refuse a cycle (hapi_server.py:195-201), and
 * `preorder_predecessor` (hapi_server.py:56-74) on a whole tree.
 */
module Links {
  import opened Wrappers
  import opened Seqs
  import opened Tree
  import opened Nodes

  /** `node.parent` for the node with id `x`: `None` for the root, or when `x` is not in the tree. */
  function ParentOf(n: Node, x: Id): (r: Option<Node>)
    ensures r.Some? <==> x in FlattenAll(n.children)
    ensures r.Some? ==> ChildIndex(r.value.children, x) < |r.value.children|
    decreases n, 1
  {
    if ChildIndex(n.children, x) < |n.children| then
      assert IdsOf(n.children)[ChildIndex(n.children, x)] == x;
      FlattenAllContains(n.children, ChildIndex(n.children, x));
      Some(n)
    else ParentOfAll(n.children, x)
  }

  function ParentOfAll(cs: seq<Node>, x: Id): (r: Option<Node>)
    requires x !in IdsOf(cs)
    ensures r.Some? <==> x in FlattenAll(cs)
    ensures r.Some? ==> ChildIndex(r.value.children, x) < |r.value.children|
    decreases cs, 0
  {
    if cs == [] then None
    else if x in Flatten(cs[0]) then
      assert IdsOf(cs)[0] == cs[0].id;
      ParentOf(cs[0], x)
    else
      assert forall i :: 0 <= i < |cs| - 1 ==> IdsOf(cs[1..])[i] == IdsOf(cs)[i + 1];
      ParentOfAll(cs[1..], x)
  }

  lemma {:induction false} ParentOfAllAt(cs: seq<Node>, k: nat, x: Id)
    requires Distinct(FlattenAll(cs)) && k < |cs| && x in Flatten(cs[k]) && x !in IdsOf(cs)
    ensures ParentOfAll(cs, x) == ParentOf(cs[k], x)
    decreases k
  {
    OnlyBlock(cs, k, x);
    if k > 0 {
      TailDistinct(cs);
      assert cs[1..][k - 1] == cs[k];
      assert forall i :: 0 <= i < |cs| - 1 ==> IdsOf(cs[1..])[i] == IdsOf(cs)[i + 1];
      ParentOfAllAt(cs[1..], k - 1, x);
    }
  }

  /** The child of a sibling list with a given id is what looking that id up finds. */
  lemma FindChild(cs: seq<Node>, i: nat)
    requires Distinct(FlattenAll(cs)) && i < |cs|
    ensures FindAll(cs, cs[i].id) == Some(cs[i])
  {
    FindAllAt(cs, i, cs[i].id);
  }

  /**
   * The parent found for `x` is the node the id index holds under its id,
   * and its child at the position `_children_by_id` gives is the node `x`.
   */
  lemma {:induction false} ParentOfFound(n: Node, x: Id)
    requires Distinct(Flatten(n)) && x in FlattenAll(n.children)
    ensures var p := ParentOf(n, x).value;
      && p.id in Flatten(n) && Find(n, p.id) == Some(p)
      && Find(n, x) == Some(p.children[ChildIndex(p.children, x)])
    decreases n
  {
    var cs := n.children;
    ChildrenDistinct(n);
    var ci := ChildIndex(cs, x);
    if ci < |cs| {
      assert IdsOf(cs)[ci] == x;
      FindChild(cs, ci);
    } else {
      var k := FlattenAllMember(cs, x);
      ParentOfAllAt(cs, k, x);
      BlockDistinct(cs, k);
      assert x != cs[k].id by {
        assert IdsOf(cs)[k] == cs[k].id;
      }
      ParentOfFound(cs[k], x);
      var p := ParentOf(n, x).value;
      FindWithin(cs[k], p.id);
      FindAllAt(cs, k, p.id);
      FindAllAt(cs, k, x);
      FlattenAllContains(cs, k);
    }
  }

  /** The ids of the nodes strictly above `x`, from the root down to its parent. */
  function Ancestors(n: Node, x: Id): seq<Id>
    decreases n, 1
  {
    if x in FlattenAll(n.children) then [n.id] + AncestorsAll(n.children, x) else []
  }

  function AncestorsAll(cs: seq<Node>, x: Id): seq<Id>
    decreases cs, 0
  {
    if cs == [] then []
    else if x in Flatten(cs[0]) then Ancestors(cs[0], x)
    else AncestorsAll(cs[1..], x)
  }

  lemma {:induction false} AncestorsAllAt(cs: seq<Node>, k: nat, x: Id)
    requires Distinct(FlattenAll(cs)) && k < |cs| && x in Flatten(cs[k])
    ensures AncestorsAll(cs, x) == Ancestors(cs[k], x)
    decreases k
  {
    OnlyBlock(cs, k, x);
    if k > 0 {
      TailDistinct(cs);
      assert cs[1..][k - 1] == cs[k];
      AncestorsAllAt(cs[1..], k - 1, x);
    }
  }

  /**
   * The ancestor walk meets `y` exactly when `x` lies in the subtree of `y`
   * and is not `y` itself: this is what makes the walk a cycle check.
   */
  lemma {:induction false} AncestorsMeaning(n: Node, x: Id, y: Id)
    requires Distinct(Flatten(n)) && x in Flatten(n)
    ensures y in Ancestors(n, x) <==> y in Flatten(n) && y != x && x in Flatten(Find(n, y).value)
    decreases n
  {
    var cs := n.children;
    ChildrenDistinct(n);
    if x == n.id {
      if y in Flatten(n) && y != n.id {
        var k := FindBelow(n, y);
      }
    } else {
      var k := FlattenAllMember(cs, x);
      AncestorsAllAt(cs, k, x);
      BlockDistinct(cs, k);
      AncestorsMeaning(cs[k], x, y);
      FlattenAllContains(cs, k);
      if y in Flatten(n) && y != n.id {
        var k2 := FindBelow(n, y);
        if x in Flatten(Find(n, y).value) {
          OnlyBlock(cs, k, x);
        }
        if y in Flatten(cs[k]) {
          OnlyBlock(cs, k, y);
        }
      }
      if y == n.id {
        assert y !in Flatten(cs[k]);
      }
    }
  }

  /**
   * `preorder_predecessor` of the node with id `x`: `None` for the root (a
   * node without parent), otherwise the parent for a first child and the
   * last pre-order node of the preceding sibling for any other.
   */
  function PreorderPredecessor(t: Node, x: Id): Option<Id>
  {
    match ParentOf(t, x)
    case None => None
    case Some(p) =>
      var c := p.children[ChildIndex(p.children, x)];
      assert NamesOf(p.children)[ChildIndex(p.children, x)] == c.name;
      Some(PredecessorIn(p, c))
  }

  /**
   * The predecessor is the id just before `x` in the pre-order walk, and
   * there is none for the root.
   */
  lemma PredecessorIsPrevious(t: Node, x: Id)
    requires WellFormed(t) && Distinct(Flatten(t)) && x in Flatten(t)
    ensures x == t.id <==> PreorderPredecessor(t, x).None?
    ensures x != t.id ==>
      var i := IndexOf(Flatten(t), x);
      i >= 1 && PreorderPredecessor(t, x) == Some(Flatten(t)[i - 1])
  {
    if x != t.id {
      assert x in FlattenAll(t.children);
      ParentOfFound(t, x);
      var p := ParentOf(t, x).value;
      var ci := ChildIndex(p.children, x);
      assert IdsOf(p.children)[ci] == x;
      FoundSiblingsSorted(t, p.id);
      PredecessorOfChild(t, p, ci);
    }
  }

  /** The predecessor of the `ci`-th child of a node `p` of `t` is the id just before that child in the walk of `t`. */
  lemma PredecessorOfChild(t: Node, p: Node, ci: nat)
    requires Distinct(Flatten(t)) && p.id in Flatten(t) && Find(t, p.id) == Some(p)
    requires SortedByName(p.children) && ci < |p.children|
    ensures p.children[ci].name in NamesOf(p.children)
    ensures var i := IndexOf(Flatten(t), p.children[ci].id);
      i >= 1 && Flatten(t)[i - 1] == PredecessorIn(p, p.children[ci])
  {
    var c := p.children[ci];
    var pre, post := ReplaceFlatten(t, p.id, p);
    var before := PredecessorPrecedes(p, ci);
    assert Flatten(c)[0] == c.id;
    PositionAfter(Flatten(t), pre, before, Flatten(c), FlattenAll(p.children[ci + 1..]), post);
  }

  /** In a list without repetitions, the head of a later part sits right after the part before it. */
  lemma PositionAfter(f: seq<Id>, pre: seq<Id>, before: seq<Id>, b: seq<Id>, rest: seq<Id>, post: seq<Id>)
    requires f == pre + (before + b + rest) + post && Distinct(f) && |before| >= 1 && |b| >= 1
    ensures IndexOf(f, b[0]) >= 1 && f[IndexOf(f, b[0]) - 1] == before[|before| - 1]
  {
    var i := |pre| + |before|;
    assert f[i] == b[0];
    assert f[i - 1] == before[|before| - 1];
    IndexOfDistinct(f, i);
  }

  /** Siblings of a list whose walk has no repetitions have distinct ids. */
  lemma IdsDistinct(cs: seq<Node>)
    requires Distinct(FlattenAll(cs))
    ensures Distinct(IdsOf(cs))
  {
    forall j, k | 0 <= j < k < |cs|
      ensures IdsOf(cs)[j] != IdsOf(cs)[k]
    {
      assert cs[j].id in Flatten(cs[j]);
      OnlyBlock(cs, j, cs[j].id);
    }
  }

  /**
   * Parent links are unique: a child of any node of the tree has that node
   * as its parent.
   */
  lemma {:induction false} ParentOfChild(t: Node, q: Node, k: nat)
    requires Distinct(Flatten(t)) && q.id in Flatten(t) && Find(t, q.id) == Some(q)
    requires k < |q.children|
    ensures ParentOf(t, q.children[k].id) == Some(q)
    decreases t
  {
    var x := q.children[k].id;
    var cs := t.children;
    if t.id == q.id {
      assert IdsOf(cs)[k] == x;
    } else {
      var j := FindBelow(t, q.id);
      var c := cs[j];
      ChildrenDistinct(t);
      BlockDistinct(cs, j);
      ChildrenDistinct(c);
      assert x in FlattenAll(q.children) by {
        assert q.children[k].id in Flatten(q.children[k]);
        FlattenAllContains(q.children, k);
      }
      assert x in FlattenAll(c.children) by {
        if q.id != c.id {
          var j2 := FindBelow(c, q.id);
          FlattenAllContains(c.children, j2);
        }
      }
      assert x !in IdsOf(cs) by {
        OnlyBlock(cs, j, x);
        forall i | 0 <= i < |cs|
          ensures IdsOf(cs)[i] != x
        {
          assert cs[i].id in Flatten(cs[i]);
        }
      }
      ParentOfAllAt(cs, j, x);
      ParentOfChild(c, q, k);
    }
  }
}
