/** Small value-level definitions shared by the other modules. */
module Prelude {

  datatype Option<+T> = None | Some(value: T)

  ghost predicate Distinct<T>(s: seq<T>) {
    forall i, j :: 0 <= i < j < |s| ==> s[i] != s[j]
  }

  /** The elements of a sequence as a set. */
  ghost function Elements<T>(s: seq<T>): set<T> {
    set x | x in s
  }

  lemma {:induction false} DistinctCardinality<T>(s: seq<T>)
    ensures |Elements(s)| <= |s|
    ensures Distinct(s) <==> |Elements(s)| == |s|
  {
    if s == [] {
      assert Elements(s) == {};
    } else {
      var last, front := s[|s| - 1], s[..|s| - 1];
      DistinctCardinality(front);
      assert s == front + [last];
      assert Elements(s) == Elements(front) + {last};
      if last in front {
        assert Elements(s) == Elements(front);
      } else {
        assert |Elements(s)| == |Elements(front)| + 1;
        assert Distinct(front) ==> Distinct(s);
      }
    }
  }

  lemma MultisetWithout<T>(s: seq<T>, k: nat)
    requires k < |s|
    ensures multiset(s[..k] + s[k + 1..]) == multiset(s) - multiset{s[k]}
  {
    assert s == s[..k] + [s[k]] + s[k + 1..];
  }

  lemma MultisetTail<T>(s: seq<T>)
    requires s != []
    ensures multiset(s[1..]) == multiset(s) - multiset{s[0]}
  {
    assert s == [s[0]] + s[1..];
  }

  lemma HeadIsIn<T>(s: seq<T>)
    ensures s == [] || s[0] in s
  {
  }
}
