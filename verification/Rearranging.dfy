/** Sorting the child lists below some nodes, one list at a time. */
module Rearranging {
  import opened OwnerGraph
  import opened Sorting

  /** d rearranges c, keeps sorted lists sorted, and every list under xs is sorted in it. */
  ghost predicate Sorts<T>(p: Parents<T>, c: Children<T>, d: Children<T>, xs: seq<T>, le: (T, T) -> bool)
    requires Closed(p)
  {
    && Rearranged(c, d)
    && (forall x {:trigger KeepsOrder(le, c[x], d[x])} :: x in c ==> KeepsOrder(le, c[x], d[x]))
    && (forall y <- p :: Under(p, xs, y) ==> y in d && SortedBy(le, d[y]))
  }

  ghost predicate KeepsOrder<T>(le: (T, T) -> bool, a: seq<T>, b: seq<T>) {
    SortedBy(le, a) ==> SortedBy(le, b)
  }

  lemma SortsNone<T>(p: Parents<T>, c: Children<T>, le: (T, T) -> bool)
    requires Closed(p)
    ensures Sorts(p, c, c, [], le)
  {
  }

  lemma SortsOneMore<T>(
    p: Parents<T>, c: Children<T>, d: Children<T>, e: Children<T>, xs: seq<T>, i: nat, le: (T, T) -> bool)
    requires Closed(p) && i < |xs| && Sorts(p, c, d, xs[..i], le) && Sorts(p, d, e, [xs[i]], le)
    ensures Sorts(p, c, e, xs[..i + 1], le)
  {
    forall x | x in c
      ensures Permuted(c[x], e[x]) && KeepsOrder(le, c[x], e[x])
    {
      assert Permuted(c[x], d[x]) && Permuted(d[x], e[x]) && KeepsOrder(le, c[x], d[x]) && KeepsOrder(le, d[x], e[x]);
    }
    forall y | y in p && Under(p, xs[..i + 1], y)
      ensures y in e && SortedBy(le, e[y])
    {
      var z :| z in xs[..i + 1] && Above(p, z, y);
      if z in xs[..i] {
        assert Under(p, xs[..i], y);
        assert KeepsOrder(le, d[y], e[y]);
      } else {
        assert xs[i] in [xs[i]] && Under(p, [xs[i]], y);
      }
    }
  }

  lemma UnderTop<T>(p: Parents<T>, built: Children<T>, x: T, sorted: seq<T>, y: T)
    requires Mirrors(p, built) && x in p && y in p && Permuted(built[x], sorted)
    ensures Under(p, [x], y) ==> y == x || Under(p, sorted, y)
  {
    if Under(p, [x], y) {
      AboveByChild(p, built, x, y);
      if y != x {
        var z :| z in built[x] && Above(p, z, y);
        RearrangedHold(built[x], sorted);
        assert z in sorted;
      }
    }
  }

  /** Sorting a node's own list and then everything under its children sorts the whole subtree. */
  lemma SortsTop<T>(
    p: Parents<T>, built: Children<T>, c: Children<T>, d: Children<T>, e: Children<T>, x: T, sorted: seq<T>,
    le: (T, T) -> bool)
    requires Mirrors(p, built) && x in p && Permuted(built[x], sorted) && SortedBy(le, sorted)
    requires x in c && Permuted(c[x], sorted) && d == c[x := sorted] && Sorts(p, d, e, sorted, le)
    ensures Sorts(p, c, e, [x], le)
  {
    forall y | y in c
      ensures Permuted(c[y], e[y]) && KeepsOrder(le, c[y], e[y])
    {
      assert Permuted(d[y], e[y]) && KeepsOrder(le, d[y], e[y]);
    }
    forall y | y in p && Under(p, [x], y)
      ensures y in e && SortedBy(le, e[y])
    {
      UnderTop(p, built, x, sorted, y);
      assert y == x ==> KeepsOrder(le, d[x], e[x]);
    }
  }

  /** A permutation of a list that has changed order before is one of the list as it was built. */
  lemma SortedAgain<T>(built: Children<T>, c: Children<T>, x: T, sorted: seq<T>)
    requires Rearranged(built, c) && x in c && Permuted(c[x], sorted)
    ensures Permuted(built[x], sorted) && Rearranged(built, c[x := sorted])
  {
    assert Permuted(built[x], c[x]);
    forall y | y in built
      ensures Permuted(built[y], c[x := sorted][y])
    {
      assert Permuted(built[y], c[y]);
    }
  }

  lemma RearrangedOnce<T>(c: Children<T>)
    ensures Rearranged(c, c)
  {
  }

  lemma RearrangedTwice<T>(c: Children<T>, d: Children<T>, e: Children<T>)
    requires Rearranged(c, d) && Rearranged(d, e)
    ensures Rearranged(c, e)
  {
    forall x | x in c
      ensures Permuted(c[x], e[x])
    {
      assert Permuted(c[x], d[x]) && Permuted(d[x], e[x]);
    }
  }

  lemma SortedAreRooted<T>(p: Parents<T>, list: seq<T>, k: nat, sorted: seq<T>)
    requires AllRootedAt(p, list, k) && Permuted(list, sorted)
    ensures AllRootedAt(p, sorted, k)
  {
    RearrangedHold(list, sorted);
    forall i | 0 <= i < |sorted|
      ensures RootedAt(p, sorted[i], k)
    {
      assert sorted[i] in sorted && sorted[i] in list;
    }
  }

  /** After sorting a node's own list, the walk goes on one level deeper. */
  lemma SortedIsReady<T>(
    p: Parents<T>, built: Children<T>, c: Children<T>, d: Children<T>, x: T, k: nat, sorted: seq<T>)
    requires Mirrors(p, built) && Rearranged(built, c) && RootedAt(p, x, k) && Permuted(c[x], sorted)
    requires d == c[x := sorted]
    ensures Permuted(built[x], sorted) && Rearranged(built, d)
    ensures k < |p| && AllRootedAt(p, sorted, k + 1)
  {
    SortedAgain(built, c, x, sorted);
    ChildIsDeeper(p, built, x, k);
    SortedAreRooted(p, built[x], k + 1, sorted);
  }
}
