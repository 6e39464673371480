/**
 * The tree of `Node`s (hapi_server.py, class `Node`) as an immutable value:
 * a node holds its id, name, cached depth and its children in sibling order.
 * Parent links are not stored; they are recovered from the tree (see
 * `Links`). This module defines the pre-order walk, locating a subtree by
 * id, replacing a subtree, and the well-formedness the store maintains.
 */
module Tree {
  import opened Wrappers
  import opened Seqs
  import Names

  type Id = string

  datatype Node = Node(id: Id, name: Names.Name, depth: int, children: seq<Node>)

  /** The pre-order walk of a subtree: the node's id, then each child's walk in order. */
  function Flatten(n: Node): seq<Id>
    decreases n, 1
  {
    [n.id] + FlattenAll(n.children)
  }

  /** The pre-order walks of a list of siblings, one after the other. */
  function FlattenAll(cs: seq<Node>): seq<Id>
    decreases cs, 0
  {
    if cs == [] then [] else Flatten(cs[0]) + FlattenAll(cs[1..])
  }

  lemma {:induction false} FlattenAllAppend(a: seq<Node>, b: seq<Node>)
    ensures FlattenAll(a + b) == FlattenAll(a) + FlattenAll(b)
    decreases |a|
  {
    if a == [] {
      assert a + b == b;
    } else {
      assert (a + b)[1..] == a[1..] + b;
      FlattenAllAppend(a[1..], b);
    }
  }

  /** The walk of a sibling list, cut around its `i`-th member. */
  lemma FlattenAllSplit(cs: seq<Node>, i: nat)
    requires i < |cs|
    ensures FlattenAll(cs) == FlattenAll(cs[..i]) + Flatten(cs[i]) + FlattenAll(cs[i + 1..])
  {
    var a, b := cs[..i], cs[i..];
    assert cs == a + b;
    FlattenAllAppend(a, b);
    assert b[0] == cs[i] && b[1..] == cs[i + 1..];
  }

  /** Every id of the sibling walk comes from the walk of one of the siblings. */
  lemma FlattenAllMember(cs: seq<Node>, x: Id) returns (k: nat)
    requires x in FlattenAll(cs)
    ensures k < |cs| && x in Flatten(cs[k])
    ensures forall j :: 0 <= j < k ==> x !in Flatten(cs[j])
    decreases |cs|
  {
    if x in Flatten(cs[0]) {
      k := 0;
    } else {
      var k' := FlattenAllMember(cs[1..], x);
      k := k' + 1;
      assert forall j :: 1 <= j < k ==> cs[j] == cs[1..][j - 1];
    }
  }

  /** The walk of a sibling contributes to the walk of the list. */
  lemma FlattenAllContains(cs: seq<Node>, k: nat)
    requires k < |cs|
    ensures forall x :: x in Flatten(cs[k]) ==> x in FlattenAll(cs)
  {
    FlattenAllSplit(cs, k);
  }

  /** One id of a sibling's walk, found in the walk of the list. */
  lemma FlattenAllHas(cs: seq<Node>, k: nat, y: Id)
    requires k < |cs|
    ensures y in Flatten(cs[k]) ==> y in FlattenAll(cs)
  {
    FlattenAllSplit(cs, k);
  }

  /**
   * `Find(n, x)` is the subtree rooted at the node with id `x` (the store's
   * id index, `_nodes[x]`), or `None` when no node of `n` has that id.
   */
  function Find(n: Node, x: Id): (r: Option<Node>)
    ensures r.Some? <==> x in Flatten(n)
    ensures r.Some? ==> r.value.id == x
    decreases n, 1
  {
    if n.id == x then Some(n) else FindAll(n.children, x)
  }

  function FindAll(cs: seq<Node>, x: Id): (r: Option<Node>)
    ensures r.Some? <==> x in FlattenAll(cs)
    ensures r.Some? ==> r.value.id == x
    decreases cs, 0
  {
    if cs == [] then None
    else if x in Flatten(cs[0]) then Find(cs[0], x)
    else FindAll(cs[1..], x)
  }

  /** `n` with the subtree rooted at the node with id `x` replaced by `r`. */
  function Replace(n: Node, x: Id, r: Node): Node
    decreases n, 1
  {
    if n.id == x then r else n.(children := ReplaceAll(n.children, x, r))
  }

  function ReplaceAll(cs: seq<Node>, x: Id, r: Node): seq<Node>
    decreases cs, 0
  {
    if cs == [] then []
    else if x in Flatten(cs[0]) then [Replace(cs[0], x, r)] + cs[1..]
    else [cs[0]] + ReplaceAll(cs[1..], x, r)
  }

  /**
   * The subtree found at `x` occupies one contiguous block of the walk, and
   * replacing it swaps that block for the walk of the replacement, leaving
   * everything before and after it as it was.
   */
  lemma {:induction false} ReplaceFlatten(n: Node, x: Id, r: Node) returns (pre: seq<Id>, post: seq<Id>)
    requires x in Flatten(n)
    ensures Flatten(n) == pre + Flatten(Find(n, x).value) + post
    ensures Flatten(Replace(n, x, r)) == pre + Flatten(r) + post
    ensures x != n.id ==> |pre| >= 1 && pre[0] == n.id
    decreases n, 1
  {
    if n.id == x {
      pre, post := [], [];
    } else {
      var p, q := ReplaceAllFlatten(n.children, x, r);
      pre, post := [n.id] + p, q;
    }
  }

  lemma {:induction false} ReplaceAllFlatten(cs: seq<Node>, x: Id, r: Node) returns (pre: seq<Id>, post: seq<Id>)
    requires x in FlattenAll(cs)
    ensures FlattenAll(cs) == pre + Flatten(FindAll(cs, x).value) + post
    ensures FlattenAll(ReplaceAll(cs, x, r)) == pre + Flatten(r) + post
    decreases cs, 0
  {
    var rs := ReplaceAll(cs, x, r);
    var rest := FlattenAll(cs[1..]);
    assert FlattenAll(cs) == Flatten(cs[0]) + rest;
    if x in Flatten(cs[0]) {
      var p, q := ReplaceFlatten(cs[0], x, r);
      assert FindAll(cs, x) == Find(cs[0], x);
      assert rs[0] == Replace(cs[0], x, r) && rs[1..] == cs[1..];
      assert FlattenAll(rs) == Flatten(rs[0]) + rest;
      RegroupAfter(p, Flatten(Find(cs[0], x).value), q, rest);
      RegroupAfter(p, Flatten(r), q, rest);
      pre, post := p, q + rest;
    } else {
      var p, q := ReplaceAllFlatten(cs[1..], x, r);
      assert FindAll(cs, x) == FindAll(cs[1..], x);
      assert rs[0] == cs[0] && rs[1..] == ReplaceAll(cs[1..], x, r);
      assert FlattenAll(rs) == Flatten(rs[0]) + FlattenAll(rs[1..]);
      RegroupBefore(Flatten(cs[0]), p, Flatten(FindAll(cs[1..], x).value), q);
      RegroupBefore(Flatten(cs[0]), p, Flatten(r), q);
      pre, post := Flatten(cs[0]) + p, q;
    }
  }

  /** Siblings strictly ascending by name: sorted, and no two of them share a name. */
  predicate SortedByName(cs: seq<Node>)
  {
    forall i, j :: 0 <= i < j < |cs| ==> Names.Less(cs[i].name, cs[j].name)
  }

  /** Every sibling list of the subtree is strictly ascending by name. */
  predicate Sorted(n: Node)
    decreases n
  {
    && SortedByName(n.children)
    && forall i :: 0 <= i < |n.children| ==> Sorted(n.children[i])
  }

  /** Every child's depth is its parent's depth plus one, throughout the subtree. */
  predicate Depths(n: Node)
    decreases n
  {
    forall i :: 0 <= i < |n.children| ==> n.children[i].depth == n.depth + 1 && Depths(n.children[i])
  }

  /** The shape the store keeps every subtree in. */
  predicate WellFormed(n: Node)
  {
    Sorted(n) && Depths(n)
  }

  /** A subtree of a well-formed tree is well-formed. */
  lemma {:induction false} FindWellFormed(n: Node, x: Id)
    requires WellFormed(n) && x in Flatten(n)
    ensures WellFormed(Find(n, x).value)
    decreases n, 1
  {
    if n.id != x {
      FindAllWellFormed(n.children, x);
    }
  }

  /** In a well-formed tree the children of every node are in name order. */
  lemma FoundSiblingsSorted(t: Node, x: Id)
    requires WellFormed(t) && x in Flatten(t)
    ensures SortedByName(Find(t, x).value.children)
  {
    FindWellFormed(t, x);
  }

  lemma {:induction false} FindAllWellFormed(cs: seq<Node>, x: Id)
    requires forall i :: 0 <= i < |cs| ==> WellFormed(cs[i])
    requires x in FlattenAll(cs)
    ensures WellFormed(FindAll(cs, x).value)
    decreases cs, 0
  {
    if x in Flatten(cs[0]) {
      FindWellFormed(cs[0], x);
    } else {
      FindAllWellFormed(cs[1..], x);
    }
  }

  /**
   * Replacing a subtree by a well-formed one with the same name and depth
   * keeps the tree well-formed and keeps the name and depth of its root.
   */
  lemma {:induction false} ReplaceWellFormed(n: Node, x: Id, r: Node)
    requires WellFormed(n) && x in Flatten(n) && WellFormed(r)
    requires r.name == Find(n, x).value.name && r.depth == Find(n, x).value.depth
    ensures WellFormed(Replace(n, x, r))
    ensures Replace(n, x, r).name == n.name && Replace(n, x, r).depth == n.depth
    ensures x != n.id ==> Replace(n, x, r).id == n.id
    decreases n, 1
  {
    if n.id != x {
      var cs := n.children;
      var rs := ReplaceAll(cs, x, r);
      ReplaceAllWellFormed(cs, x, r, n.depth + 1);
      var m := Replace(n, x, r);
      assert m.children == rs;
      assert SortedByName(rs) by {
        forall i, j | 0 <= i < j < |rs|
          ensures Names.Less(rs[i].name, rs[j].name)
        {
          assert rs[i].name == cs[i].name && rs[j].name == cs[j].name;
        }
      }
    }
  }

  lemma {:induction false} ReplaceAllWellFormed(cs: seq<Node>, x: Id, r: Node, d: int)
    requires forall i :: 0 <= i < |cs| ==> WellFormed(cs[i]) && cs[i].depth == d
    requires x in FlattenAll(cs) && WellFormed(r)
    requires r.name == FindAll(cs, x).value.name && r.depth == FindAll(cs, x).value.depth
    ensures |ReplaceAll(cs, x, r)| == |cs|
    ensures forall i :: 0 <= i < |cs| ==>
      && WellFormed(ReplaceAll(cs, x, r)[i])
      && ReplaceAll(cs, x, r)[i].name == cs[i].name
      && ReplaceAll(cs, x, r)[i].depth == d
    decreases cs, 0
  {
    var rs := ReplaceAll(cs, x, r);
    if x in Flatten(cs[0]) {
      ReplaceWellFormed(cs[0], x, r);
      assert rs == [Replace(cs[0], x, r)] + cs[1..];
    } else {
      ReplaceAllWellFormed(cs[1..], x, r, d);
      assert rs == [cs[0]] + ReplaceAll(cs[1..], x, r);
    }
  }

  /** A subtree of a tree without repeated ids has none either. */
  lemma FindDistinct(n: Node, x: Id)
    requires Distinct(Flatten(n)) && x in Flatten(n)
    ensures Distinct(Flatten(Find(n, x).value))
  {
    var pre, post := ReplaceFlatten(n, x, n);
    var f := Flatten(Find(n, x).value);
    DistinctAppend(pre + f, post);
    DistinctAppend(pre, f);
  }

  /**
   * Looking a node up inside a subtree finds the same node as looking it up
   * in the whole tree, when no id repeats.
   */
  lemma {:induction false} FindNested(n: Node, x: Id, y: Id)
    requires Distinct(Flatten(n)) && x in Flatten(n)
    requires y in Flatten(Find(n, x).value)
    ensures Find(Find(n, x).value, y) == Find(n, y)
    decreases n, 1
  {
    if n.id != x {
      assert n.id != y by {
        var pre, post := ReplaceFlatten(n, x, n);
        DistinctAppend(pre + Flatten(Find(n, x).value), post);
        DistinctAppend(pre, Flatten(Find(n, x).value));
        assert n.id in pre;
      }
      ChildrenDistinct(n);
      FindAllNested(n.children, x, y);
    }
  }

  lemma {:induction false} FindAllNested(cs: seq<Node>, x: Id, y: Id)
    requires Distinct(FlattenAll(cs)) && x in FlattenAll(cs)
    requires y in Flatten(FindAll(cs, x).value)
    ensures Find(FindAll(cs, x).value, y) == FindAll(cs, y)
    decreases cs, 0
  {
    DistinctAppend(Flatten(cs[0]), FlattenAll(cs[1..]));
    if x in Flatten(cs[0]) {
      var pre, post := ReplaceFlatten(cs[0], x, cs[0]);
      assert y in Flatten(cs[0]);
      FindNested(cs[0], x, y);
    } else {
      var pre, post := ReplaceAllFlatten(cs[1..], x, cs[0]);
      assert y in FlattenAll(cs[1..]);
      FindAllNested(cs[1..], x, y);
    }
  }

  /** Without repeated ids in a node's walk, its children's walks have none either. */
  lemma ChildrenDistinct(n: Node)
    requires Distinct(Flatten(n))
    ensures Distinct(FlattenAll(n.children))
    ensures n.id !in FlattenAll(n.children)
  {
    DistinctAppend([n.id], FlattenAll(n.children));
  }

  /** In a sibling list without repeated ids, each sibling's walk is itself free of repetitions. */
  lemma BlockDistinct(cs: seq<Node>, k: nat)
    requires Distinct(FlattenAll(cs)) && k < |cs|
    ensures Distinct(Flatten(cs[k]))
  {
    FlattenAllSplit(cs, k);
    DistinctAppend(FlattenAll(cs[..k]) + Flatten(cs[k]), FlattenAll(cs[k + 1..]));
    DistinctAppend(FlattenAll(cs[..k]), Flatten(cs[k]));
  }

  /** In a sibling list without repeated ids, an id lies in the walk of one sibling only. */
  lemma OnlyBlock(cs: seq<Node>, k: nat, y: Id)
    requires Distinct(FlattenAll(cs)) && k < |cs| && y in Flatten(cs[k])
    ensures forall j :: 0 <= j < |cs| && j != k ==> y !in Flatten(cs[j])
  {
    FlattenAllSplit(cs, k);
    DistinctOutside(FlattenAll(cs[..k]), Flatten(cs[k]), FlattenAll(cs[k + 1..]), y);
    OnlyBlockApart(cs, k, y);
  }

  lemma OnlyBlockApart(cs: seq<Node>, k: nat, y: Id)
    requires k < |cs| && y !in FlattenAll(cs[..k]) && y !in FlattenAll(cs[k + 1..])
    ensures forall j :: 0 <= j < |cs| && j != k ==> y !in Flatten(cs[j])
  {
    forall j | 0 <= j < |cs| && j != k
      ensures y !in Flatten(cs[j])
    {
      if j < k {
        assert cs[..k][j] == cs[j];
        FlattenAllHas(cs[..k], j, y);
      } else {
        assert cs[k + 1..][j - k - 1] == cs[j];
        FlattenAllHas(cs[k + 1..], j - k - 1, y);
      }
    }
  }

  /** The walk of the tail of a sibling list without repetitions has none either. */
  lemma TailDistinct(cs: seq<Node>)
    requires Distinct(FlattenAll(cs)) && cs != []
    ensures Distinct(FlattenAll(cs[1..]))
    ensures forall y :: y in Flatten(cs[0]) ==> y !in FlattenAll(cs[1..])
  {
    DistinctAppend(Flatten(cs[0]), FlattenAll(cs[1..]));
  }

  /** Looking up an id among siblings descends into the one sibling whose walk holds it. */
  lemma {:induction false} FindAllAt(cs: seq<Node>, k: nat, y: Id)
    requires Distinct(FlattenAll(cs)) && k < |cs| && y in Flatten(cs[k])
    ensures FindAll(cs, y) == Find(cs[k], y)
    decreases k
  {
    OnlyBlock(cs, k, y);
    if k > 0 {
      TailDistinct(cs);
      assert cs[1..][k - 1] == cs[k];
      FindAllAt(cs[1..], k - 1, y);
    }
  }

  /** Every id of a subtree found in `n` is an id of `n`. */
  lemma FindWithin(n: Node, x: Id)
    requires x in Flatten(n)
    ensures forall y :: y in Flatten(Find(n, x).value) ==> y in Flatten(n)
  {
    var pre, post := ReplaceFlatten(n, x, n);
  }

  /**
   * Below the root, the subtree found for `y` lies inside the walk of the
   * children, and does not contain the root's id when ids do not repeat.
   */
  lemma FindBelow(n: Node, y: Id) returns (k: nat)
    requires Distinct(Flatten(n)) && y in Flatten(n) && y != n.id
    ensures k < |n.children| && y in Flatten(n.children[k])
    ensures Find(n, y) == Find(n.children[k], y)
    ensures forall z :: z in Flatten(Find(n, y).value) ==> z in Flatten(n.children[k])
    ensures n.id !in Flatten(Find(n, y).value)
  {
    ChildrenDistinct(n);
    k := FlattenAllMember(n.children, y);
    FindAllAt(n.children, k, y);
    FindWithin(n.children[k], y);
    FlattenAllContains(n.children, k);
  }

  /** Inside a child's walk, looking up from the parent or from that child finds the same subtree. */
  lemma FindInChild(p: Node, k: nat, y: Id)
    requires Distinct(Flatten(p)) && k < |p.children| && y in Flatten(p.children[k])
    ensures Find(p, y) == Find(p.children[k], y)
  {
    ChildrenDistinct(p);
    FlattenAllContains(p.children, k);
    FindAllAt(p.children, k, y);
  }
}
