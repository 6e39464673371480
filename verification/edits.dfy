/**
 * Locating nodes after a subtree edit. `Storage.move` checks the new
 * parent's children before it detaches the moved node from its old parent
 * (hapi_server.py:204-209); the model detaches first and grafts after, and
 * the lemmas here show the new parent is the same node, with the same
 * child names, either way.
 */
module Edits {
  import opened Wrappers
  import opened Seqs
  import opened Tree
  import opened Nodes

  /**
   * Two walks that agree outside one block, where the block of the second
   * is the block of the first with `mid` inserted after `before`.
   */
  lemma Splice<T>(f: seq<T>, g: seq<T>, p: seq<T>, s: seq<T>, x: seq<T>, y: seq<T>, before: seq<T>, mid: seq<T>, rest: seq<T>)
    requires f == p + x + s && x == before + rest
    requires g == p + y + s && y == before + mid + rest
    ensures f == (p + before) + (rest + s)
    ensures g == (p + before) + mid + (rest + s)
  {
  }

  /** Replacement below a sibling list rewrites the first sibling whose walk holds `x`, and only it. */
  lemma {:induction false} ReplaceAllAt(cs: seq<Node>, x: Id, r: Node, k: nat)
    requires k < |cs| && x in Flatten(cs[k])
    requires forall j :: 0 <= j < k ==> x !in Flatten(cs[j])
    ensures ReplaceAll(cs, x, r) == cs[..k] + [Replace(cs[k], x, r)] + cs[k + 1..]
    decreases k
  {
    if k > 0 {
      assert x !in Flatten(cs[0]);
      var tl := cs[1..];
      forall j | 0 <= j < k - 1
        ensures x !in Flatten(tl[j])
      {
        assert tl[j] == cs[j + 1];
      }
      ReplaceAllAt(tl, x, r, k - 1);
      assert [cs[0]] + tl[..k - 1] == cs[..k];
      assert tl[k - 1] == cs[k] && tl[k..] == cs[k + 1..];
    }
  }

  /** A replacement carrying the replaced id keeps the id of the tree's root. */
  lemma ReplaceKeepsId(n: Node, x: Id, r: Node)
    requires r.id == x
    ensures Replace(n, x, r).id == n.id
  {
  }

  /** Replacing strictly below a node keeps its id, name, depth and the ids of its children. */
  lemma ReplaceBelow(m: Node, x: Id, r: Node)
    requires m.id != x && r.id == x
    ensures var m2 := Replace(m, x, r);
      && m2.id == m.id && m2.name == m.name && m2.depth == m.depth
      && IdsOf(m2.children) == IdsOf(m.children)
  {
    ReplaceAllIds(m.children, x, r);
  }

  lemma {:induction false} ReplaceAllIds(cs: seq<Node>, x: Id, r: Node)
    requires r.id == x
    ensures IdsOf(ReplaceAll(cs, x, r)) == IdsOf(cs)
    decreases cs
  {
    if cs != [] {
      var rs := ReplaceAll(cs, x, r);
      if x in Flatten(cs[0]) {
        ReplaceKeepsId(cs[0], x, r);
        assert forall i :: 1 <= i < |cs| ==> rs[i] == cs[i];
      } else {
        var tl := ReplaceAll(cs[1..], x, r);
        ReplaceAllIds(cs[1..], x, r);
        assert forall i :: 1 <= i < |cs| ==> rs[i] == tl[i - 1] && rs[i].id == IdsOf(tl)[i - 1];
      }
      assert forall i :: 0 <= i < |cs| ==> IdsOf(rs)[i] == IdsOf(cs)[i];
    }
  }

  /** The sibling whose walk holds `x`, with the list rewritten at that sibling. */
  lemma ReplacedChild(n: Node, x: Id, r: Node) returns (k: nat)
    requires Distinct(Flatten(n)) && x in Flatten(n) && x != n.id
    ensures k < |n.children| && x in Flatten(n.children[k])
    ensures Find(n, x) == Find(n.children[k], x)
    ensures forall j :: 0 <= j < |n.children| && j != k ==> x !in Flatten(n.children[j])
    ensures Replace(n, x, r).children == n.children[..k] + [Replace(n.children[k], x, r)] + n.children[k + 1..]
  {
    ChildrenDistinct(n);
    k := FlattenAllMember(n.children, x);
    FindAllAt(n.children, k, x);
    OnlyBlock(n.children, k, x);
    ReplaceAllAt(n.children, x, r, k);
  }

  /**
   * An id inside the replacement is found where the replacement has it,
   * provided the edited tree still has no repeated ids.
   */
  lemma {:induction false} FindReplaceInside(n: Node, x: Id, r: Node, y: Id)
    requires x in Flatten(n) && r.id == x && y in Flatten(r)
    requires Distinct(Flatten(Replace(n, x, r)))
    ensures Find(Replace(n, x, r), y) == Find(r, y)
    decreases n
  {
    if n.id != x {
      var cs := n.children;
      var k := FlattenAllMember(cs, x);
      ReplaceAllAt(cs, x, r, k);
      var rs := ReplaceAll(cs, x, r);
      var m := Replace(n, x, r);
      assert rs[k] == Replace(cs[k], x, r);
      var pre, post := ReplaceFlatten(cs[k], x, r);
      assert y in Flatten(rs[k]);
      ChildrenDistinct(m);
      FlattenAllContains(rs, k);
      assert y != m.id;
      FindAllAt(rs, k, y);
      BlockDistinct(rs, k);
      FindReplaceInside(cs[k], x, r, y);
    }
  }

  /**
   * An id outside the replaced subtree is found as before, except that the
   * subtree found carries the replacement when it lies above it.
   */
  lemma {:induction false} FindReplaceOutside(n: Node, x: Id, r: Node, y: Id)
    requires Distinct(Flatten(n)) && Distinct(Flatten(Replace(n, x, r)))
    requires x in Flatten(n) && y in Flatten(n) && y !in Flatten(Find(n, x).value)
    requires r.id == x && r.name == Find(n, x).value.name
    ensures Find(Replace(n, x, r), y) ==
      if x in Flatten(Find(n, y).value) then Some(Replace(Find(n, y).value, x, r)) else Find(n, y)
    decreases n
  {
    if n.id == x {
      assert false;
    } else if y != n.id {
      var cs := n.children;
      var k := ReplacedChild(n, x, r);
      var rs := ReplaceAll(cs, x, r);
      var m := Replace(n, x, r);
      var k2 := FindBelow(n, y);
      ChildrenDistinct(n);
      ChildrenDistinct(m);
      BlockDistinct(cs, k);
      if k2 == k {
        var pre, post := ReplaceFlatten(cs[k], x, r);
        assert rs[k] == Replace(cs[k], x, r);
        assert y in Flatten(rs[k]);
        FlattenAllContains(rs, k);
        FindAllAt(rs, k, y);
        BlockDistinct(rs, k);
        FindReplaceOutside(cs[k], x, r, y);
      } else {
        assert rs[k2] == cs[k2];
        FlattenAllContains(rs, k2);
        FindAllAt(rs, k2, y);
        assert x !in Flatten(Find(n, y).value);
      }
    }
  }

  /**
   * Replacing a subtree strictly below `m` by one with the same name leaves
   * the names of `m`'s children as they were.
   */
  lemma ReplaceChildNames(m: Node, x: Id, r: Node)
    requires Distinct(Flatten(m)) && x in Flatten(m) && x != m.id
    requires r.name == Find(m, x).value.name
    ensures NamesOf(Replace(m, x, r).children) == NamesOf(m.children)
  {
    var cs := m.children;
    var k := ReplacedChild(m, x, r);
    var rs := Replace(m, x, r).children;
    assert rs[k].name == cs[k].name;
    assert |rs| == |cs|;
    forall j | 0 <= j < |cs|
      ensures NamesOf(rs)[j] == NamesOf(cs)[j]
    {
      if j != k {
        assert rs[j] == cs[j];
      }
    }
  }

  /**
   * Dropping the `i`-th child of `p` does not change what is found for an
   * id outside that child's subtree.
   */
  lemma FindAfterRemoval(p: Node, i: nat, y: Id)
    requires Distinct(Flatten(p)) && i < |p.children|
    requires y in Flatten(p) && y != p.id && y !in Flatten(p.children[i])
    ensures Find(p.(children := p.children[..i] + p.children[i + 1..]), y) == Find(p, y)
  {
    var cs := p.children;
    var rs := cs[..i] + cs[i + 1..];
    ChildrenDistinct(p);
    FlattenAllSplit(cs, i);
    FlattenAllAppend(cs[..i], cs[i + 1..]);
    DistinctDrop(FlattenAll(cs[..i]), Flatten(cs[i]), FlattenAll(cs[i + 1..]));
    var k := FlattenAllMember(cs, y);
    FindAllAt(cs, k, y);
    var k2 := if k < i then k else k - 1;
    assert rs[k2] == cs[k];
    FlattenAllContains(rs, k2);
    FindAllAt(rs, k2, y);
  }

  /**
   * `remove_child(nid, True)` on a sorted parent: the walk of the parent
   * loses exactly the block of the removed child.
   */
  lemma RemoveChildFlatten(p: Node, nid: Id) returns (a: seq<Id>, c: seq<Id>)
    requires SortedByName(p.children) && ChildIndex(p.children, nid) < |p.children|
    ensures RemoveChild(p, nid, true).Some?
    ensures var i := ChildIndex(p.children, nid);
      && Flatten(p) == a + Flatten(p.children[i]) + c
      && Flatten(RemoveChild(p, nid, true).value) == a + c
      && a == [p.id] + FlattenAll(p.children[..i])
  {
    var cs := p.children;
    var i := ChildIndex(cs, nid);
    assert RemoveChild(p, nid, true).value == p.(children := cs[..i] + cs[i + 1..]);
    a, c := DropChildFlatten(p, i);
  }

  /** The walk of `p` without its `i`-th child is the walk of `p` without that child's block. */
  lemma DropChildFlatten(p: Node, i: nat) returns (a: seq<Id>, c: seq<Id>)
    requires i < |p.children|
    ensures Flatten(p) == a + Flatten(p.children[i]) + c
    ensures Flatten(p.(children := p.children[..i] + p.children[i + 1..])) == a + c
    ensures a == [p.id] + FlattenAll(p.children[..i])
  {
    var cs := p.children;
    FlattenAllSplit(cs, i);
    FlattenAllAppend(cs[..i], cs[i + 1..]);
    a, c := [p.id] + FlattenAll(cs[..i]), FlattenAll(cs[i + 1..]);
  }

  /** Putting back the subtree that is already there changes nothing. */
  lemma {:induction false} ReplaceSelf(n: Node, x: Id, r: Node)
    requires Find(n, x) == Some(r)
    ensures Replace(n, x, r) == n
    decreases n, 1
  {
    if n.id != x {
      ReplaceAllSelf(n.children, x, r);
    }
  }

  lemma {:induction false} ReplaceAllSelf(cs: seq<Node>, x: Id, r: Node)
    requires FindAll(cs, x) == Some(r)
    ensures ReplaceAll(cs, x, r) == cs
    decreases cs, 0
  {
    assert [cs[0]] + cs[1..] == cs;
    if x in Flatten(cs[0]) {
      ReplaceSelf(cs[0], x, r);
    } else {
      ReplaceAllSelf(cs[1..], x, r);
    }
  }

  /** A second replacement at the same id overrides the first. */
  lemma {:induction false} ReplaceTwice(n: Node, x: Id, r1: Node, r2: Node)
    requires x in Flatten(n) && r1.id == x
    ensures Replace(Replace(n, x, r1), x, r2) == Replace(n, x, r2)
    decreases n, 1
  {
    if n.id != x {
      ReplaceAllTwice(n.children, x, r1, r2);
    }
  }

  lemma {:induction false} ReplaceAllTwice(cs: seq<Node>, x: Id, r1: Node, r2: Node)
    requires x in FlattenAll(cs) && r1.id == x
    ensures ReplaceAll(ReplaceAll(cs, x, r1), x, r2) == ReplaceAll(cs, x, r2)
    decreases cs, 0
  {
    var rs := ReplaceAll(cs, x, r1);
    if x in Flatten(cs[0]) {
      var pre, post := ReplaceFlatten(cs[0], x, r1);
      assert x in Flatten(r1);
      assert rs[0] == Replace(cs[0], x, r1) && rs[1..] == cs[1..];
      ReplaceTwice(cs[0], x, r1, r2);
    } else {
      assert rs[0] == cs[0] && rs[1..] == ReplaceAll(cs[1..], x, r1);
      ReplaceAllTwice(cs[1..], x, r1, r2);
    }
  }

  /** After a replacement at `x` by a node with id `x`, looking `x` up finds the replacement. */
  lemma {:induction false} FindReplaced(n: Node, x: Id, r: Node)
    requires x in Flatten(n) && r.id == x
    ensures x in Flatten(Replace(n, x, r)) && Find(Replace(n, x, r), x) == Some(r)
    decreases n, 1
  {
    if n.id != x {
      FindReplacedAll(n.children, x, r);
    }
  }

  lemma {:induction false} FindReplacedAll(cs: seq<Node>, x: Id, r: Node)
    requires x in FlattenAll(cs) && r.id == x
    ensures x in FlattenAll(ReplaceAll(cs, x, r)) && FindAll(ReplaceAll(cs, x, r), x) == Some(r)
    decreases cs, 0
  {
    var rs := ReplaceAll(cs, x, r);
    if x in Flatten(cs[0]) {
      FindReplaced(cs[0], x, r);
      assert rs[0] == Replace(cs[0], x, r);
      FlattenAllContains(rs, 0);
    } else {
      FindReplacedAll(cs[1..], x, r);
      assert rs[0] == cs[0] && rs[1..] == ReplaceAll(cs[1..], x, r);
    }
  }
}
