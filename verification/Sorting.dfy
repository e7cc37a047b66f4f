/** slices.SortFunc: sorts by a comparison, leaving the order of ties open. */
module Sorting {

  ghost predicate TotalPreorder<T>(le: (T, T) -> bool, items: seq<T>) {
    && (forall a <- items, b <- items :: le(a, b) || le(b, a))
    && (forall a <- items, b <- items, c <- items :: le(a, b) && le(b, c) ==> le(a, c))
  }

  ghost predicate SortedBy<T>(le: (T, T) -> bool, s: seq<T>) {
    forall i, j :: 0 <= i < j < |s| ==> le(s[i], s[j])
  }

  method SortFunc<T>(items: seq<T>, le: (T, T) -> bool) returns (sorted: seq<T>)
    requires TotalPreorder(le, items)
    ensures multiset(sorted) == multiset(items) && SortedBy(le, sorted)
  {
    sorted := [];
    for i := 0 to |items|
      invariant multiset(sorted) == multiset(items[..i]) && SortedBy(le, sorted)
    {
      SameElements(sorted, items[..i]);
      assert items[i] in items;
      var k := Place(sorted, items[i], le);
      assert sorted == sorted[..k] + sorted[k..];
      sorted := sorted[..k] + [items[i]] + sorted[k..];
      assert items[..i + 1] == items[..i] + [items[i]];
    }
    assert items[..|items|] == items;
  }

  lemma SameElements<T>(a: seq<T>, b: seq<T>)
    requires multiset(a) == multiset(b)
    ensures forall x :: x in a <==> x in b
  {
    assert forall x :: x in a <==> x in multiset(a);
    assert forall x :: x in b <==> x in multiset(b);
  }

  method Place<T>(sorted: seq<T>, x: T, le: (T, T) -> bool) returns (k: nat)
    requires TotalPreorder(le, sorted + [x]) && SortedBy(le, sorted)
    ensures k <= |sorted| && SortedBy(le, sorted[..k] + [x] + sorted[k..])
  {
    k := 0;
    while k < |sorted| && le(sorted[k], x)
      invariant 0 <= k <= |sorted|
      invariant forall a :: 0 <= a < k ==> le(sorted[a], x)
    {
      k := k + 1;
    }
    forall b | k <= b < |sorted|
      ensures le(x, sorted[b])
    {
      assert k < b ==> le(sorted[k], sorted[b]);
      assert sorted[k] in sorted + [x] && sorted[b] in sorted + [x] && x in sorted + [x];
    }
    InsertSorted(sorted, x, le, k);
  }

  lemma InsertSorted<T>(s: seq<T>, x: T, le: (T, T) -> bool, k: nat)
    requires SortedBy(le, s) && k <= |s|
    requires (forall a :: 0 <= a < k ==> le(s[a], x)) && (forall b :: k <= b < |s| ==> le(x, s[b]))
    ensures SortedBy(le, s[..k] + [x] + s[k..])
  {
    var t := s[..k] + [x] + s[k..];
    forall i, j | 0 <= i < j < |t|
      ensures le(t[i], t[j])
    {
      if i < k {
        assert t[i] == s[i] && (j < k ==> t[j] == s[j]) && (j > k ==> t[j] == s[j - 1]);
      } else if i == k {
        assert t[j] == s[j - 1];
      } else {
        assert t[i] == s[i - 1] && t[j] == s[j - 1];
      }
    }
  }
}
