/**
 * The Python list operations the store relies on, as pure functions on
 * sequences: `index`, `insert`, `remove`, slicing with clipping, list
 * comprehensions that filter, and the order-preserving de-duplication done
 * with `OrderedDict.fromkeys`.
 */
module Seqs {

  /** No element occurs twice. */
  predicate Distinct<T(==)>(s: seq<T>)
  {
    forall i, j :: 0 <= i < j < |s| ==> s[i] != s[j]
  }

  /**
   * `s.index(x)`: the position of the first occurrence of `x`. Python raises
   * when `x` is absent; here the result is then `|s|`.
   */
  function IndexOf<T(==)>(s: seq<T>, x: T): (i: nat)
    ensures i <= |s|
    ensures i < |s| <==> x in s
    ensures i < |s| ==> s[i] == x
  {
    if s == [] then 0
    else if s[0] == x then 0
    else 1 + IndexOf(s[1..], x)
  }

  /** `index` finds the first occurrence: nothing before it is `x`. */
  lemma {:induction false} IndexOfFirst<T>(s: seq<T>, x: T)
    ensures x !in s[..IndexOf(s, x)]
  {
    if s != [] && s[0] != x {
      IndexOfFirst(s[1..], x);
      assert s[..IndexOf(s, x)] == [s[0]] + s[1..][..IndexOf(s[1..], x)];
    }
  }

  /** In a sequence without repetitions every element is found at its own position. */
  lemma IndexOfDistinct<T>(s: seq<T>, i: int)
    requires Distinct(s) && 0 <= i < |s|
    ensures IndexOf(s, s[i]) == i
  {
  }

  /** Locating an element after a known prefix that does not contain it. */
  lemma {:induction false} IndexOfAfter<T>(a: seq<T>, b: seq<T>, x: T)
    requires x !in a && x in b
    ensures IndexOf(a + b, x) == |a| + IndexOf(b, x)
  {
    if a != [] {
      assert (a + b)[1..] == a[1..] + b;
      IndexOfAfter(a[1..], b, x);
    } else {
      assert a + b == b;
    }
  }

  /** Locating an element inside a prefix that contains it. */
  lemma {:induction false} IndexOfBefore<T>(a: seq<T>, b: seq<T>, x: T)
    requires x in a
    ensures IndexOf(a + b, x) == IndexOf(a, x)
  {
    if a[0] != x {
      assert (a + b)[1..] == a[1..] + b;
      IndexOfBefore(a[1..], b, x);
    }
  }

  /** `Distinct` of a concatenation, in both directions. */
  lemma DistinctAppend<T>(a: seq<T>, b: seq<T>)
    ensures Distinct(a + b) <==> Distinct(a) && Distinct(b) && forall x :: x in a ==> x !in b
  {
    if Distinct(a + b) {
      forall i, j | 0 <= i < j < |a|
        ensures a[i] != a[j]
      {
        assert (a + b)[i] == a[i] && (a + b)[j] == a[j];
      }
      forall i, j | 0 <= i < j < |b|
        ensures b[i] != b[j]
      {
        assert (a + b)[|a| + i] == b[i] && (a + b)[|a| + j] == b[j];
      }
      forall x | x in a
        ensures x !in b
      {
        var i :| 0 <= i < |a| && a[i] == x;
        assert (a + b)[i] == x;
        forall j | 0 <= j < |b|
          ensures b[j] != x
        {
          assert (a + b)[|a| + j] == b[j];
        }
      }
    }
    if Distinct(a) && Distinct(b) && forall x :: x in a ==> x !in b {
      forall i, j | 0 <= i < j < |a + b|
        ensures (a + b)[i] != (a + b)[j]
      {
        if j < |a| {
          assert (a + b)[i] == a[i] && (a + b)[j] == a[j];
        } else if i >= |a| {
          assert (a + b)[i] == b[i - |a|] && (a + b)[j] == b[j - |a|];
        } else {
          var x, y := a[i], b[j - |a|];
          assert (a + b)[i] == x && (a + b)[j] == y;
          assert x in a && y in b;
        }
      }
    }
  }

  /** Dropping the middle part of a list without repetitions leaves one without repetitions. */
  lemma DistinctDrop<T>(a: seq<T>, b: seq<T>, c: seq<T>)
    requires Distinct(a + b + c)
    ensures Distinct(a + c)
    ensures forall x :: x in b ==> x !in a + c
  {
    DistinctAppend(a + b, c);
    DistinctAppend(a, b);
    DistinctAppend(a, c);
  }

  /** An element of the middle part of a list without repetitions occurs in neither outer part. */
  lemma DistinctOutside<T>(a: seq<T>, b: seq<T>, c: seq<T>, y: T)
    requires Distinct(a + b + c) && y in b
    ensures y !in a && y !in c
  {
    DistinctDrop(a, b, c);
  }

  /** In a list without repetitions, an element of the middle part is found past the first part. */
  lemma IndexOfMiddle<T>(a: seq<T>, b: seq<T>, c: seq<T>, x: T)
    requires Distinct(a + b + c) && x in b
    ensures IndexOf(a + b + c, x) == |a| + IndexOf(b, x)
  {
    DistinctOutside(a, b, c, x);
    IndexOfBefore(b, c, x);
    assert a + b + c == a + (b + c);
    IndexOfAfter(a, b + c, x);
  }

  /** Putting the middle part back at another cut of the rest keeps the list free of repetitions. */
  lemma DistinctRegroup<T>(a: seq<T>, b: seq<T>, c: seq<T>, a2: seq<T>, c2: seq<T>)
    requires Distinct(a + b + c) && a + c == a2 + c2
    ensures Distinct(a2 + b + c2)
  {
    DistinctDrop(a, b, c);
    DistinctAppend(a2, c2);
    DistinctAppend(a + b, c);
    DistinctAppend(a, b);
    DistinctAppend(a2, b);
    DistinctAppend(a2 + b, c2);
  }

  /** Regrouping the parts around `b` keeps the members. */
  lemma RegroupMembers<T>(a: seq<T>, b: seq<T>, c: seq<T>, a2: seq<T>, c2: seq<T>)
    requires a + c == a2 + c2
    ensures forall x :: x in a + b + c <==> x in a2 + b + c2
  {
    forall x
      ensures x in a + b + c <==> x in a2 + b + c2
    {
      assert x in a + c <==> x in a2 + c2;
    }
  }

  /**
   * `s.insert(i, x)` for a non-negative `i`: `x` ends up at position `i`, or
   * at the end when `i` is past the end of the list.
   */
  function Insert<T>(s: seq<T>, i: nat, x: T): (r: seq<T>)
    ensures |r| == |s| + 1
    ensures var p := if i < |s| then i else |s|;
      r[p] == x && r[..p] == s[..p] && r[p + 1..] == s[p..]
  {
    if i >= |s| then s + [x] else s[..i] + [x] + s[i..]
  }

  /** The four parts of a concatenation, cut back out of it. */
  lemma Parts4<T>(p1: seq<T>, p2: seq<T>, p3: seq<T>, p4: seq<T>)
    ensures var s, i, j, k := p1 + p2 + p3 + p4, |p1|, |p1| + |p2|, |p1| + |p2| + |p3|;
      && s[..i] == p1 && s[i..j] == p2 && s[j..k] == p3 && s[k..] == p4
  {
    var s := p1 + p2 + p3 + p4;
    var i, j, k := |p1|, |p1| + |p2|, |p1| + |p2| + |p3|;
    assert s[..i] == p1 by {
      forall n | 0 <= n < i ensures s[n] == p1[n] {}
    }
    assert s[i..j] == p2 by {
      forall n | 0 <= n < |p2| ensures s[i + n] == p2[n] {}
    }
    assert s[j..k] == p3 by {
      forall n | 0 <= n < |p3| ensures s[j + n] == p3[n] {}
    }
    assert s[k..] == p4 by {
      forall n | 0 <= n < |p4| ensures s[k + n] == p4[n] {}
    }
  }

  /** A cut of a concatenation at the length of its first part. */
  lemma CutAt<T>(x: seq<T>, y: seq<T>, u: seq<T>, v: seq<T>)
    requires x + y == u + v && |u| <= |x|
    ensures u == x[..|u|] && v == x[|u|..] + y
  {
    assert u == (u + v)[..|u|] == (x + y)[..|u|];
    assert v == (u + v)[|u|..] == (x + y)[|u|..];
  }

  /** A cut of a concatenation past the end of its first part. */
  lemma CutPast<T>(x: seq<T>, y: seq<T>, u: seq<T>, v: seq<T>)
    requires x + y == u + v && |u| >= |x|
    ensures u == x + y[..|u| - |x|] && v == y[|u| - |x|..]
  {
    var k := |u| - |x|;
    assert x + y == (x + y[..k]) + y[k..];
    assert u == (u + v)[..|u|];
    assert v == (u + v)[|u|..];
  }

  /** Inserting at the length of the first part of a concatenation puts the element between the parts. */
  lemma InsertAtCut<T>(a: seq<T>, c: seq<T>, x: T)
    ensures Insert(a + c, |a|, x) == a + [x] + c
  {
    var s := a + c;
    assert s[..|a|] == a && s[|a|..] == c;
  }

  /** `s.insert(s.index(pred) + 1, x)`: `x` goes in right after the first occurrence of `pred`. */
  function InsertAfter<T(==)>(s: seq<T>, pred: T, x: T): seq<T>
  {
    Insert(s, IndexOf(s, pred) + 1, x)
  }

  /** Inserting after the element that ends the first part of a cut puts the new element at the cut. */
  lemma InsertAfterLast<T>(s: seq<T>, a: seq<T>, c: seq<T>, pred: T, x: T)
    requires s == a + c && Distinct(s) && |a| >= 1 && a[|a| - 1] == pred
    ensures InsertAfter(s, pred, x) == a + [x] + c
  {
    assert s[|a| - 1] == pred;
    IndexOfDistinct(s, |a| - 1);
    InsertAtCut(a, c, x);
  }

  /** Dropping the element just put in at `i` gives back the list it was put into. */
  lemma DropInserted<T>(s: seq<T>, i: nat, x: T, r: seq<T>)
    requires i <= |s| && r == s[..i] + [x] + s[i..]
    ensures r[..i] + r[i + 1..] == s
  {
    assert r[..i] == s[..i] && r[i + 1..] == s[i..];
    assert s == s[..i] + s[i..];
  }

  /** A new element put between two parts of a list without repetitions keeps it free of them. */
  lemma DistinctInsert<T>(a: seq<T>, x: T, c: seq<T>)
    requires Distinct(a + c) && x !in a + c
    ensures Distinct(a + [x] + c)
  {
    DistinctAppend(a, c);
    DistinctAppend(a, [x]);
    DistinctAppend(a + [x], c);
  }

  /** Concatenation regrouped with a part appended after the middle. */
  lemma RegroupAfter<T>(p: seq<T>, m: seq<T>, q: seq<T>, z: seq<T>)
    ensures (p + m + q) + z == p + m + (q + z)
  {
  }

  /** Concatenation regrouped with a part put before the middle. */
  lemma RegroupBefore<T>(z: seq<T>, p: seq<T>, m: seq<T>, q: seq<T>)
    ensures z + (p + m + q) == (z + p) + m + q
  {
  }

  /** Putting `x` in at any position keeps the same elements as appending it. */
  lemma InsertPermutes<T>(s: seq<T>, i: nat, x: T, r: seq<T>)
    requires i <= |s| && r == s[..i] + [x] + s[i..]
    ensures multiset(r) == multiset(s + [x])
  {
    assert s == s[..i] + s[i..];
  }

  /**
   * `s.remove(x)`: drops the first occurrence of `x`. Python raises when
   * `x` is absent; here the list is then returned unchanged.
   */
  function RemoveFirst<T(==)>(s: seq<T>, x: T): (r: seq<T>)
    ensures |r| == if x in s then |s| - 1 else |s|
    ensures x !in s ==> r == s
  {
    if x in s then
      var i := IndexOf(s, x);
      s[..i] + s[i + 1..]
    else s
  }

  /**
   * `remove` drops exactly the first occurrence: putting the element back
   * where `list.index` finds it restores the list.
   */
  lemma RemoveFirstUndone<T>(s: seq<T>, x: T)
    requires x in s
    ensures Insert(RemoveFirst(s, x), IndexOf(s, x), x) == s
  {
    var i := IndexOf(s, x);
    var a, c := s[..i], s[i + 1..];
    assert s == a + [x] + c;
    assert RemoveFirst(s, x) == a + c;
    InsertAtCut(a, c, x);
  }

  /** `s[i:j]` for non-negative bounds: Python clips `j` to the length and yields `[]` when `i >= j`. */
  function Slice<T>(s: seq<T>, i: nat, j: nat): (r: seq<T>)
    ensures i <= j <= |s| ==> r == s[i..j]
    ensures i <= |s| <= j ==> r == s[i..]
    ensures j <= i || |s| <= i ==> r == []
  {
    if j > |s| then Slice(s, i, |s|)
    else if i >= j then []
    else s[i..j]
  }

  /** `[x for x in s if f(x)]`. */
  function Filter<T(!new)>(s: seq<T>, f: T -> bool): (r: seq<T>)
    ensures |r| <= |s|
    ensures forall x :: x in r <==> x in s && f(x)
  {
    if s == [] then []
    else (if f(s[0]) then [s[0]] else []) + Filter(s[1..], f)
  }

  lemma {:induction false} FilterAppend<T(!new)>(a: seq<T>, b: seq<T>, f: T -> bool)
    ensures Filter(a + b, f) == Filter(a, f) + Filter(b, f)
  {
    if a == [] {
      assert a + b == b;
    } else {
      assert (a + b)[1..] == a[1..] + b;
      FilterAppend(a[1..], b, f);
    }
  }

  /** Filtering by a condition no element meets leaves nothing. */
  lemma {:induction false} FilterNone<T(!new)>(s: seq<T>, f: T -> bool)
    requires forall x :: x in s ==> !f(x)
    ensures Filter(s, f) == []
  {
    if s != [] {
      FilterNone(s[1..], f);
    }
  }

  /** Filtering by a condition every element meets keeps the whole list. */
  lemma {:induction false} FilterAll<T(!new)>(s: seq<T>, f: T -> bool)
    requires forall x :: x in s ==> f(x)
    ensures Filter(s, f) == s
  {
    if s != [] {
      FilterAll(s[1..], f);
    }
  }

  /** The lists of `ps`, one after the other. */
  function Concat<T>(ps: seq<seq<T>>): seq<T>
  {
    if ps == [] then [] else ps[0] + Concat(ps[1..])
  }

  /** The concatenation of lists is the first list followed by the concatenation of the others. */
  lemma ConcatCons<T>(ps: seq<seq<T>>, p: seq<T>, rest: seq<T>)
    requires ps != [] && ps[0] == p && Concat(ps[1..]) == rest
    ensures Concat(ps) == p + rest
  {
  }

  /** Every element of every list of `ps` is in their concatenation. */
  lemma {:induction false} ConcatHas<T>(ps: seq<seq<T>>, k: nat, x: T)
    requires k < |ps| && x in ps[k]
    ensures x in Concat(ps)
    decreases |ps|
  {
    if k > 0 {
      assert ps[1..][k - 1] == ps[k];
      ConcatHas(ps[1..], k - 1, x);
    }
  }

  /** An element of two different lists of `ps` occurs at least twice in their concatenation. */
  lemma {:induction false} ConcatRepeat<T>(ps: seq<seq<T>>, i: nat, j: nat, x: T)
    requires i < j < |ps| && x in ps[i] && x in ps[j]
    ensures multiset(Concat(ps))[x] >= 2
    decreases |ps|
  {
    var rest := Concat(ps[1..]);
    assert multiset(Concat(ps)) == multiset(ps[0]) + multiset(rest);
    assert ps[1..][j - 1] == ps[j];
    if i == 0 {
      ConcatHas(ps[1..], j - 1, x);
      assert multiset(ps[0])[x] >= 1 && multiset(rest)[x] >= 1;
    } else {
      assert ps[1..][i - 1] == ps[i];
      ConcatRepeat(ps[1..], i - 1, j - 1, x);
    }
  }

  /** `r` lists its elements in the order in which they first occur in `s`. */
  ghost predicate InOrderOf<T>(r: seq<T>, s: seq<T>)
  {
    forall i, j :: 0 <= i < j < |r| ==> IndexOf(s, r[i]) < IndexOf(s, r[j])
  }

  /** Following the order of a list that follows the order of `s` is following the order of `s`. */
  lemma InOrderTrans<T>(r: seq<T>, d: seq<T>, s: seq<T>)
    requires InOrderOf(r, d) && InOrderOf(d, s)
    requires forall x :: x in r ==> x in d
    ensures InOrderOf(r, s)
  {
    forall i, j | 0 <= i < j < |r|
      ensures IndexOf(s, r[i]) < IndexOf(s, r[j])
    {
      var p, q := IndexOf(d, r[i]), IndexOf(d, r[j]);
      assert d[p] == r[i] && d[q] == r[j];
    }
  }

  /** Filtering a list without repetitions keeps it free of repetitions and keeps its order. */
  lemma {:induction false} FilterKeepsOrder<T(!new)>(s: seq<T>, f: T -> bool)
    requires Distinct(s)
    ensures Distinct(Filter(s, f)) && InOrderOf(Filter(s, f), s)
  {
    if s != [] {
      var rest := Filter(s[1..], f);
      assert Distinct(s[1..]) by {
        forall i, j | 0 <= i < j < |s[1..]| ensures s[1..][i] != s[1..][j] {
          assert s[1..][i] == s[i + 1] && s[1..][j] == s[j + 1];
        }
      }
      FilterKeepsOrder(s[1..], f);
      forall y | y in rest
        ensures IndexOf(s, y) == 1 + IndexOf(s[1..], y) && y != s[0]
      {
        var k :| 0 <= k < |s[1..]| && s[1..][k] == y;
        assert s[k + 1] == y;
      }
      var head := if f(s[0]) then [s[0]] else [];
      assert Filter(s, f) == head + rest;
      DistinctAppend(head, rest);
      forall i, j | 0 <= i < j < |head + rest|
        ensures IndexOf(s, (head + rest)[i]) < IndexOf(s, (head + rest)[j])
      {
        if i < |head| {
          assert (head + rest)[j] == rest[j - |head|];
        } else {
          assert (head + rest)[i] == rest[i - |head|] && (head + rest)[j] == rest[j - |head|];
        }
      }
    }
  }

  /**
   * `list(OrderedDict.fromkeys(s))`: the elements of `s`, each once, in the
   * order of their first occurrence.
   */
  function Dedup<T(==,!new)>(s: seq<T>): (r: seq<T>)
    ensures Distinct(r)
    ensures forall x :: x in r <==> x in s
    ensures InOrderOf(r, s)
    decreases |s|
  {
    if s == [] then []
    else
      var init := s[..|s| - 1];
      var last := s[|s| - 1];
      var d := Dedup(init);
      assert s == init + [last];
      forall x | x in init
        ensures IndexOf(s, x) == IndexOf(init, x) < |init|
      {
        IndexOfBefore(init, [last], x);
      }
      if last in d then d
      else
        IndexOfAfter(init, [last], last);
        DistinctAppend(d, [last]);
        d + [last]
  }
}
