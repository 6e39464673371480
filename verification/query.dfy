/**
 * `Storage.query` (hapi_server.py:241-310): the nodes of the store chosen
 * by ids, by names, or by subtrees with a depth window relative to each
 * subtree's root, listed in pre-order. A node is reported by its id.
 */
module Query {
  import opened Wrappers
  import opened Seqs
  import Names
  import opened Tree
  import opened Nodes
  import opened Storage

  /**
   * The part of the store invariant a query relies on: the root id names
   * the tree's root, and the cached walk is the tree's walk, without
   * repeated ids. Every store satisfying `Storage.Valid` satisfies it.
   */
  predicate Cached(s: Store)
  {
    match s.tree
    case None => s.preorder == []
    case Some(t) => s.root == Some(t.id) && Distinct(Flatten(t)) && s.preorder == Flatten(t)
  }

  /** `x` is a node of `t` whose depth lies in `lo..hi`, both ends included. */
  predicate InWindow(t: Node, x: Id, lo: int, hi: int)
  {
    x in Flatten(t) && lo <= Find(t, x).value.depth <= hi
  }

  /** `x` is a node of `t` whose name is one of `names`. */
  predicate NameIn(t: Node, x: Id, names: seq<Names.Name>)
  {
    x in Flatten(t) && Find(t, x).value.name in names
  }

  /**
   * `query(ids, names, roots, min_depth, max_depth)`. An empty list stands
   * for a missing one, and a depth bound of 0 for a missing bound, as the
   * source tests them for truth. `ids` (narrowed by `names`) wins over
   * `names`, which wins over `roots`; without roots the whole tree is the
   * one subtree queried. A missing `max_depth` becomes the number of nodes.
   */
  function Query(s: Store, ids: seq<Id>, names: seq<Names.Name>, roots: seq<Id>, minDepth: int, maxDepth: int): (r: seq<Id>)
    requires Cached(s)
    ensures s.tree.None? ==> r == []
    ensures minDepth != 0 && maxDepth != 0 && maxDepth < minDepth ==> r == []
    ensures ids == [] && names == [] && roots != [] && (forall y :: y in roots ==> !Known(s, y)) ==> r == []
  {
    if s.tree.None? || (minDepth != 0 && maxDepth != 0 && maxDepth < minDepth) then []
    else
      var t := s.tree.value;
      var hi := if maxDepth == 0 then |s.preorder| else maxDepth;
      if ids != [] then
        Filter(s.preorder, x => x in ids && (names == [] || NameIn(t, x, names)))
      else if names != [] then
        Filter(s.preorder, x => NameIn(t, x, names))
      else
        var rs := if roots != [] then KnownRoots(s, roots) else [s.root.value];
        Subtrees(s, rs, minDepth, hi)
  }

  /** The known ids among `roots`, each once, in the order of their first occurrence. */
  function KnownRoots(s: Store, roots: seq<Id>): (r: seq<Id>)
    ensures forall x :: x in r <==> x in roots && Known(s, x)
    ensures (forall x :: x in roots ==> !Known(s, x)) ==> r == []
    ensures Distinct(r) && InOrderOf(r, roots)
  {
    var f := x => Known(s, x);
    var d := Dedup(roots);
    FilterKeepsOrder(d, f);
    InOrderTrans(Filter(d, f), d, roots);
    if forall x :: x in roots ==> !Known(s, x) then
      FilterNone(d, f);
      Filter(d, f)
    else
      Filter(d, f)
  }

  /** The subtree queries of the roots `rs`, one after the other. */
  function Subtrees(s: Store, rs: seq<Id>, lo: int, hi: int): (r: seq<Id>)
    requires s.root.Some?
    requires forall x :: x in rs ==> Known(s, x)
  {
    if rs == [] then [] else Subtree(s, rs[0], lo, hi) + Subtrees(s, rs[1..], lo, hi)
  }

  /**
   * The query of the subtree below `root`, with the window shifted by the
   * root's depth: for the root of the tree a filter of the whole cached
   * walk, for any other node a filter of its stretch of the walk.
   */
  function Subtree(s: Store, root: Id, lo: int, hi: int): seq<Id>
    requires Known(s, root) && s.root.Some?
  {
    var t := s.tree.value;
    var sub := Find(t, root).value;
    if root == s.root.value then Window(t, s.preorder, lo + sub.depth, hi + sub.depth)
    else Window(t, Stretch(s.preorder, sub), lo + sub.depth, hi + sub.depth)
  }

  /** The part of the walk `pre` from the id of `sub` to the id of its `last_preorder_child`. */
  function Stretch(pre: seq<Id>, sub: Node): seq<Id>
  {
    Slice(pre, IndexOf(pre, sub.id), IndexOf(pre, LastPreorderChild(sub).id) + 1)
  }

  /** The ids of `xs` that are nodes of `t` at a depth within `lo..hi`, in the order of `xs`. */
  function Window(t: Node, xs: seq<Id>, lo: int, hi: int): (r: seq<Id>)
    ensures forall x :: x in r <==> x in xs && InWindow(t, x, lo, hi)
    ensures Distinct(xs) ==> Distinct(r) && InOrderOf(r, xs)
  {
    var f := x => InWindow(t, x, lo, hi);
    if Distinct(xs) then
      FilterKeepsOrder(xs, f);
      Filter(xs, f)
    else
      Filter(xs, f)
  }

  /**
   * In a walk without repetitions, the stretch from a node to the last id
   * of its block is the walk of its subtree.
   */
  lemma SubtreeSlice(t: Node, root: Id)
    requires Distinct(Flatten(t)) && root in Flatten(t)
    ensures Stretch(Flatten(t), Find(t, root).value) == Flatten(Find(t, root).value)
  {
    var f, sub := Flatten(t), Find(t, root).value;
    var pre, post := ReplaceFlatten(t, root, sub);
    var b := Flatten(sub);
    var i, j := |pre|, |pre| + |b| - 1;
    assert IndexOf(f, sub.id) == i by {
      assert f[i] == b[0];
      IndexOfDistinct(f, i);
    }
    var last := LastPreorderChild(sub).id;
    assert IndexOf(f, last) == j by {
      assert last == b[|b| - 1];
      assert f[j] == last;
      IndexOfDistinct(f, j);
    }
    assert f[i..j + 1] == b;
  }

  /** The two branches of `Subtree`, unfolded apart from the store invariant. */
  lemma SubtreeUnfold(s: Store, root: Id, lo: int, hi: int)
    requires Known(s, root) && s.root.Some?
    ensures var t := s.tree.value; var sub := Find(t, root).value;
      Subtree(s, root, lo, hi) == Window(t, if root == s.root.value then s.preorder else Stretch(s.preorder, sub), lo + sub.depth, hi + sub.depth)
  {
  }

  /**
   * The query of one subtree is the subtree's own walk, filtered by the
   * window shifted by the root's depth, whichever branch the source takes.
   */
  lemma SubtreeWalk(s: Store, root: Id, lo: int, hi: int)
    requires Cached(s) && Known(s, root)
    ensures var t := s.tree.value; var sub := Find(t, root).value;
      Subtree(s, root, lo, hi) == Window(t, Flatten(sub), lo + sub.depth, hi + sub.depth)
  {
    var t := s.tree.value;
    SubtreeUnfold(s, root, lo, hi);
    if root == t.id {
      assert Find(t, root).value == t;
    } else {
      SubtreeSlice(t, root);
    }
  }

  /**
   * A node is in the query of a subtree exactly when it lies below the
   * subtree's root at a relative depth within `lo..hi`; the result lists
   * each such node once, in the order of the cached walk.
   */
  lemma SubtreeMembers(s: Store, root: Id, lo: int, hi: int)
    requires Cached(s) && Known(s, root)
    ensures var r := Subtree(s, root, lo, hi);
      && (forall x :: x in r <==> Below(s.tree.value, root, x, lo, hi))
      && Distinct(r) && InOrderOf(r, s.preorder)
  {
    SubtreeWalk(s, root, lo, hi);
    WindowBelow(s.tree.value, s.preorder, root, lo, hi, Subtree(s, root, lo, hi));
  }

  /** The depth window over the walk of the subtree of `root`, as a set of descendants and as an order. */
  lemma WindowBelow(t: Node, pre: seq<Id>, root: Id, lo: int, hi: int, w: seq<Id>)
    requires pre == Flatten(t) && Distinct(pre) && root in pre
    requires w == Window(t, Flatten(Find(t, root).value), lo + Find(t, root).value.depth, hi + Find(t, root).value.depth)
    ensures forall x :: x in w <==> Below(t, root, x, lo, hi)
    ensures Distinct(w) && InOrderOf(w, pre)
  {
    FindWithin(t, root);
    FindDistinct(t, root);
    SubwalkOrder(t, root, w);
  }

  /** A list in the order of a subtree's walk is in the order of the whole walk. */
  lemma SubwalkOrder(t: Node, root: Id, r: seq<Id>)
    requires Distinct(Flatten(t)) && root in Flatten(t)
    requires InOrderOf(r, Flatten(Find(t, root).value))
    requires forall x :: x in r ==> x in Flatten(Find(t, root).value)
    ensures InOrderOf(r, Flatten(t))
  {
    var b := Flatten(Find(t, root).value);
    var pre, post := ReplaceFlatten(t, root, Find(t, root).value);
    forall x | x in b
      ensures IndexOf(Flatten(t), x) == |pre| + IndexOf(b, x)
    {
      IndexOfMiddle(pre, b, post, x);
    }
  }

  /**
   * In a tree whose children are one deeper than their parents, every node
   * is at least as deep as the root and shallower than the root's depth
   * plus the number of nodes.
   */
  lemma {:induction false} DepthWithin(n: Node, x: Id)
    requires Depths(n) && Distinct(Flatten(n)) && x in Flatten(n)
    ensures n.depth <= Find(n, x).value.depth < n.depth + |Flatten(n)|
    decreases n
  {
    if x != n.id {
      var k := FindBelow(n, x);
      ChildrenDistinct(n);
      BlockDistinct(n.children, k);
      DepthWithin(n.children[k], x);
      FlattenAllSplit(n.children, k);
    }
  }

  /**
   * The query by ids: the known nodes among `ids`, narrowed to the names
   * in `names` when there are any, each once and in pre-order.
   */
  lemma QueryByIds(s: Store, ids: seq<Id>, names: seq<Names.Name>, roots: seq<Id>, minDepth: int, maxDepth: int)
    requires Cached(s) && ids != []
    requires !(minDepth != 0 && maxDepth != 0 && maxDepth < minDepth)
    ensures var r := Query(s, ids, names, roots, minDepth, maxDepth);
      && (forall x :: x in r <==> Known(s, x) && x in ids && (names == [] || Find(s.tree.value, x).value.name in names))
      && Distinct(r) && InOrderOf(r, s.preorder)
  {
    if s.tree.Some? {
      var t := s.tree.value;
      FilterKeepsOrder(s.preorder, x => x in ids && (names == [] || NameIn(t, x, names)));
    }
  }

  /** The query by names alone: the nodes whose name is in `names`, each once and in pre-order. */
  lemma QueryByNames(s: Store, names: seq<Names.Name>, roots: seq<Id>, minDepth: int, maxDepth: int)
    requires Cached(s) && names != []
    requires !(minDepth != 0 && maxDepth != 0 && maxDepth < minDepth)
    ensures var r := Query(s, [], names, roots, minDepth, maxDepth);
      && (forall x :: x in r <==> Known(s, x) && Find(s.tree.value, x).value.name in names)
      && Distinct(r) && InOrderOf(r, s.preorder)
  {
    if s.tree.Some? {
      var t := s.tree.value;
      FilterKeepsOrder(s.preorder, x => NameIn(t, x, names));
    }
  }

  /**
   * A node is in the concatenated subtree queries exactly when one of the
   * roots has it in its subtree at a relative depth within `lo..hi`.
   */
  lemma {:induction false} SubtreesMembers(s: Store, rs: seq<Id>, lo: int, hi: int, x: Id)
    requires Cached(s) && s.tree.Some? && forall y :: y in rs ==> Known(s, y)
    ensures x in Subtrees(s, rs, lo, hi) <==> exists y :: y in rs && Below(s.tree.value, y, x, lo, hi)
    decreases |rs|
  {
    if rs != [] {
      SubtreeMembers(s, rs[0], lo, hi);
      SubtreesMembers(s, rs[1..], lo, hi, x);
      if x in Subtrees(s, rs[1..], lo, hi) {
        var y :| y in rs[1..] && Below(s.tree.value, y, x, lo, hi);
        assert y in rs;
      }
      if exists y :: y in rs && Below(s.tree.value, y, x, lo, hi) {
        var y :| y in rs && Below(s.tree.value, y, x, lo, hi);
        if y != rs[0] {
          assert y in rs[1..];
        }
      }
    }
  }

  /** `x` lies in the subtree of `y` in `t`, at a depth below `y` within `lo..hi`. */
  predicate Below(t: Node, y: Id, x: Id, lo: int, hi: int)
  {
    && y in Flatten(t) && x in Flatten(t)
    && x in Flatten(Find(t, y).value)
    && lo <= Find(t, x).value.depth - Find(t, y).value.depth <= hi
  }

  /** The walk of the subtree of `y` in `t`, cut to the nodes `lo..hi` levels below `y`. */
  function RootWalk(t: Node, y: Id, lo: int, hi: int): seq<Id>
    requires y in Flatten(t)
  {
    var sub := Find(t, y).value;
    Window(t, Flatten(sub), lo + sub.depth, hi + sub.depth)
  }

  /** The cut subtree walks of the roots `rs`, one per root, in the order of `rs`. */
  function RootWalks(t: Node, rs: seq<Id>, lo: int, hi: int): (r: seq<seq<Id>>)
    requires forall y :: y in rs ==> y in Flatten(t)
    ensures |r| == |rs|
  {
    if rs == [] then [] else [RootWalk(t, rs[0], lo, hi)] + RootWalks(t, rs[1..], lo, hi)
  }

  /** The `k`-th cut walk belongs to the `k`-th root. */
  lemma {:induction false} RootWalksAt(t: Node, rs: seq<Id>, k: nat, lo: int, hi: int)
    requires forall y :: y in rs ==> y in Flatten(t)
    requires k < |rs|
    ensures RootWalks(t, rs, lo, hi)[k] == RootWalk(t, rs[k], lo, hi)
    decreases |rs|
  {
    if k > 0 {
      assert rs[1..][k - 1] == rs[k];
      RootWalksAt(t, rs[1..], k - 1, lo, hi);
    }
  }

  /** The window over the walk of the subtree of `root`, shifted by its depth, is the cut walk of `root`. */
  lemma WindowIsRootWalk(t: Node, root: Id, lo: int, hi: int, w: seq<Id>)
    requires root in Flatten(t)
    requires w == Window(t, Flatten(Find(t, root).value), lo + Find(t, root).value.depth, hi + Find(t, root).value.depth)
    ensures w == RootWalk(t, root, lo, hi)
  {
  }

  /** The subtree queries of the loop over roots are the cut subtree walks, root by root. */
  lemma {:induction false} SubtreesWalks(s: Store, rs: seq<Id>, lo: int, hi: int)
    requires Cached(s) && s.tree.Some? && forall y :: y in rs ==> y in Flatten(s.tree.value)
    ensures Subtrees(s, rs, lo, hi) == Concat(RootWalks(s.tree.value, rs, lo, hi))
    decreases |rs|
  {
    if rs != [] {
      var t := s.tree.value;
      var ws := RootWalks(t, rs, lo, hi);
      var rest := Subtrees(s, rs[1..], lo, hi);
      SubtreesHead(s, rs, lo, hi, rest);
      RootWalksAt(t, rs, 0, lo, hi);
      assert Concat(ws[1..]) == rest by {
        assert ws[1..] == RootWalks(t, rs[1..], lo, hi);
        SubtreesWalks(s, rs[1..], lo, hi);
      }
      ConcatCons(ws, RootWalk(t, rs[0], lo, hi), rest);
    }
  }

  /** The subtree queries of `rs` are the cut walk of the first root followed by the queries of the others. */
  lemma SubtreesHead(s: Store, rs: seq<Id>, lo: int, hi: int, rest: seq<Id>)
    requires Cached(s) && s.tree.Some? && rs != [] && forall y :: y in rs ==> y in Flatten(s.tree.value)
    requires rest == Subtrees(s, rs[1..], lo, hi)
    ensures Subtrees(s, rs, lo, hi) == RootWalk(s.tree.value, rs[0], lo, hi) + rest
  {
    SubtreeIsRootWalk(s, rs[0], lo, hi);
  }

  /** The query of one root's subtree is its cut subtree walk. */
  lemma SubtreeIsRootWalk(s: Store, y: Id, lo: int, hi: int)
    requires Cached(s) && Known(s, y)
    ensures Subtree(s, y, lo, hi) == RootWalk(s.tree.value, y, lo, hi)
  {
    var w := Subtree(s, y, lo, hi);
    SubtreeWalk(s, y, lo, hi);
    WindowIsRootWalk(s.tree.value, y, lo, hi, w);
  }

  /**
   * The query by roots: the known roots, each once and in the caller's
   * order, each contributing the walk of its subtree cut to the depths
   * `min_depth..hi` below it (`hi` is the number of nodes when `max_depth`
   * is 0). So a node is in the result exactly when it lies in the subtree
   * of a known root from `roots` at a relative depth within the bounds.
   */
  lemma QueryByRoots(s: Store, roots: seq<Id>, minDepth: int, maxDepth: int, x: Id)
    requires Cached(s) && s.tree.Some? && roots != []
    requires !(minDepth != 0 && maxDepth != 0 && maxDepth < minDepth)
    ensures var hi := if maxDepth == 0 then |s.preorder| else maxDepth;
      Query(s, [], [], roots, minDepth, maxDepth) == Concat(RootWalks(s.tree.value, KnownRoots(s, roots), minDepth, hi))
    ensures var hi := if maxDepth == 0 then |s.preorder| else maxDepth;
      x in Query(s, [], [], roots, minDepth, maxDepth) <==>
        exists y :: y in roots && Below(s.tree.value, y, x, minDepth, hi)
  {
    var hi := if maxDepth == 0 then |s.preorder| else maxDepth;
    var rs := KnownRoots(s, roots);
    SubtreesWalks(s, rs, minDepth, hi);
    SubtreesMembers(s, rs, minDepth, hi, x);
    if exists y :: y in roots && Below(s.tree.value, y, x, minDepth, hi) {
      var y :| y in roots && Below(s.tree.value, y, x, minDepth, hi);
      assert y in rs;
    }
  }

  /**
   * Roots are not merged: a listed root `z` inside the subtree of another
   * listed root `y`, within the depth window of both, is reported twice,
   * once for each of them.
   */
  lemma NestedRootRepeats(s: Store, roots: seq<Id>, minDepth: int, maxDepth: int, y: Id, z: Id)
    requires Cached(s) && s.tree.Some? && minDepth <= 0 <= maxDepth
    requires y in roots && z in roots && y != z
    requires Below(s.tree.value, y, z, minDepth, if maxDepth == 0 then |s.preorder| else maxDepth)
    ensures multiset(Query(s, [], [], roots, minDepth, maxDepth))[z] >= 2
  {
    var t := s.tree.value;
    var hi := if maxDepth == 0 then |s.preorder| else maxDepth;
    var rs := KnownRoots(s, roots);
    QueryByRoots(s, roots, minDepth, maxDepth, z);
    assert y in rs && z in rs;
    BelowInWalk(t, y, z, minDepth, hi);
    assert Below(t, z, z, minDepth, hi) by {
      assert z in Flatten(Find(t, z).value);
    }
    BelowInWalk(t, z, z, minDepth, hi);
    WalksRepeat(t, rs, y, z, minDepth, hi);
  }

  /** A node below `y` within the window is in the cut walk of `y`. */
  lemma BelowInWalk(t: Node, y: Id, x: Id, lo: int, hi: int)
    requires Below(t, y, x, lo, hi)
    ensures x in RootWalk(t, y, lo, hi)
  {
  }

  /** An id in the cut walks of two different roots occurs twice in their concatenation. */
  lemma WalksRepeat(t: Node, rs: seq<Id>, y: Id, z: Id, lo: int, hi: int)
    requires forall x :: x in rs ==> x in Flatten(t)
    requires y in rs && z in rs && y != z
    requires z in RootWalk(t, y, lo, hi) && z in RootWalk(t, z, lo, hi)
    ensures multiset(Concat(RootWalks(t, rs, lo, hi)))[z] >= 2
  {
    var ws := RootWalks(t, rs, lo, hi);
    var i, j := IndexOf(rs, y), IndexOf(rs, z);
    assert rs[i] == y && rs[j] == z && i != j;
    RootWalksAt(t, rs, i, lo, hi);
    RootWalksAt(t, rs, j, lo, hi);
    assert z in ws[i] && z in ws[j];
    if i < j {
      ConcatRepeat(ws, i, j, z);
    } else {
      ConcatRepeat(ws, j, i, z);
    }
  }

  /**
   * The number of nodes bounds every relative depth, so the default upper
   * bound cuts nothing off: the query of a subtree from relative depth 0 to
   * the number of nodes is the subtree's whole walk.
   */
  lemma SubtreeWhole(s: Store, root: Id)
    requires Cached(s) && Known(s, root) && WellFormed(s.tree.value)
    ensures Subtree(s, root, 0, |s.preorder|) == Flatten(Find(s.tree.value, root).value)
  {
    SubtreeWalk(s, root, 0, |s.preorder|);
    WindowWhole(s.tree.value, root, |s.preorder|, Subtree(s, root, 0, |s.preorder|));
  }

  lemma WindowWhole(t: Node, root: Id, n: int, w: seq<Id>)
    requires WellFormed(t) && Distinct(Flatten(t)) && root in Flatten(t) && |Flatten(t)| <= n
    requires w == Window(t, Flatten(Find(t, root).value), 0 + Find(t, root).value.depth, n + Find(t, root).value.depth)
    ensures w == Flatten(Find(t, root).value)
  {
    var sub := Find(t, root).value;
    FindWellFormed(t, root);
    FindDistinct(t, root);
    var pre, post := ReplaceFlatten(t, root, sub);
    forall x | x in Flatten(sub)
      ensures InWindow(t, x, sub.depth, n + sub.depth)
    {
      FindNested(t, root, x);
      DepthWithin(sub, x);
    }
    WindowAll(t, Flatten(sub), sub.depth, n + sub.depth);
  }

  /**
   * Without ids, names or roots the whole tree is queried with the window
   * counted from the root: exactly the nodes of depth `min_depth..hi`, each
   * once and in pre-order. With no depth bounds either, that is the whole
   * cached walk.
   */
  lemma QueryWholeTree(s: Store, minDepth: int, maxDepth: int)
    requires Valid(s) && s.tree.Some?
    requires !(minDepth != 0 && maxDepth != 0 && maxDepth < minDepth)
    ensures var r, hi := Query(s, [], [], [], minDepth, maxDepth), if maxDepth == 0 then |s.preorder| else maxDepth;
      && (forall x :: x in r <==> Known(s, x) && minDepth <= Find(s.tree.value, x).value.depth <= hi)
      && Distinct(r) && InOrderOf(r, s.preorder)
    ensures Query(s, [], [], [], 0, 0) == s.preorder
  {
    var t := s.tree.value;
    var hi := if maxDepth == 0 then |s.preorder| else maxDepth;
    assert Find(t, t.id) == Some(t);
    assert Subtrees(s, [t.id], minDepth, hi) == Subtree(s, t.id, minDepth, hi) + [];
    assert Subtrees(s, [t.id], 0, |s.preorder|) == Subtree(s, t.id, 0, |s.preorder|) + [];
    SubtreeWhole(s, t.id);
  }

  /** A window every id of `xs` falls in keeps all of `xs`. */
  lemma WindowAll(t: Node, xs: seq<Id>, lo: int, hi: int)
    requires forall x :: x in xs ==> InWindow(t, x, lo, hi)
    ensures Window(t, xs, lo, hi) == xs
  {
    FilterAll(xs, x => InWindow(t, x, lo, hi));
  }
}
