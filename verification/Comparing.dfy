/** strings.Compare and comparisons built from it. */
module Comparing {

  /** Lexicographic order; code points compare as their UTF-8 bytes do. */
  function Compare(a: string, b: string): int {
    if a == [] then if b == [] then 0 else -1
    else if b == [] then 1
    else if a[0] < b[0] then -1
    else if b[0] < a[0] then 1
    else Compare(a[1..], b[1..])
  }

  lemma {:induction false} CompareIsZero(a: string, b: string)
    ensures Compare(a, b) == 0 <==> a == b
  {
    if a != [] && b != [] {
      CompareIsZero(a[1..], b[1..]);
      assert a == [a[0]] + a[1..] && b == [b[0]] + b[1..];
    }
  }

  lemma {:induction false} CompareIsAntisymmetric(a: string, b: string)
    ensures Compare(a, b) == -Compare(b, a)
  {
    if a != [] && b != [] {
      CompareIsAntisymmetric(a[1..], b[1..]);
    }
  }

  lemma {:induction false} CompareIsTransitive(a: string, b: string, c: string)
    requires Compare(a, b) <= 0 && Compare(b, c) <= 0
    ensures Compare(a, c) <= 0
  {
    if a != [] && b != [] && c != [] {
      if a[0] == b[0] == c[0] {
        CompareIsTransitive(a[1..], b[1..], c[1..]);
      }
    }
  }

  /** Up to k the strings agree; there a ends, or has the smaller character. */
  ghost predicate LessAt(a: string, b: string, k: nat) {
    && k <= |a| && k <= |b| && a[..k] == b[..k]
    && ((k == |a| && k < |b|) || (k < |a| && k < |b| && a[k] < b[k]))
  }

  /** a is a proper prefix of b, or has the smaller character where they first differ. */
  ghost predicate Before(a: string, b: string) {
    exists k: nat :: LessAt(a, b, k)
  }

  lemma {:induction false} CompareIsBefore(a: string, b: string)
    ensures Compare(a, b) < 0 <==> Before(a, b)
  {
    if a == [] || b == [] || a[0] != b[0] {
      assert LessAt(a, b, 0) <==> Compare(a, b) < 0;
      assert forall k: nat :: LessAt(a, b, k) ==> k == 0 || (k <= |a| && k <= |b| && a[..k][0] == b[..k][0]);
    } else {
      CompareIsBefore(a[1..], b[1..]);
      if k: nat :| LessAt(a, b, k) {
        LessAtTail(a, b, k - 1);
      }
      if k: nat :| LessAt(a[1..], b[1..], k) {
        LessAtTail(a, b, k);
        assert LessAt(a, b, k + 1);
      }
    }
  }

  lemma LessAtTail(a: string, b: string, k: nat)
    requires a != [] && b != [] && a[0] == b[0]
    ensures LessAt(a, b, k + 1) <==> LessAt(a[1..], b[1..], k)
  {
    if k < |a| && k < |b| {
      assert a[..k + 1] == [a[0]] + a[1..][..k] && b[..k + 1] == [b[0]] + b[1..][..k];
      assert a[1..][..k] == a[..k + 1][1..] && b[1..][..k] == b[..k + 1][1..];
    }
  }

  /** The first difference among three keys decides. */
  function Compare3(a: (string, string, string), b: (string, string, string)): int {
    if Compare(a.0, b.0) != 0 then Compare(a.0, b.0)
    else if Compare(a.1, b.1) != 0 then Compare(a.1, b.1)
    else Compare(a.2, b.2)
  }

  lemma Compare3IsZero(a: (string, string, string), b: (string, string, string))
    ensures Compare3(a, b) == 0 <==> a == b
  {
    CompareIsZero(a.0, b.0);
    CompareIsZero(a.1, b.1);
    CompareIsZero(a.2, b.2);
  }

  lemma Compare3IsAntisymmetric(a: (string, string, string), b: (string, string, string))
    ensures Compare3(a, b) == -Compare3(b, a)
  {
    CompareIsAntisymmetric(a.0, b.0);
    CompareIsAntisymmetric(a.1, b.1);
    CompareIsAntisymmetric(a.2, b.2);
  }

  lemma Compare3IsTransitive(
    a: (string, string, string), b: (string, string, string), c: (string, string, string))
    requires Compare3(a, b) <= 0 && Compare3(b, c) <= 0
    ensures Compare3(a, c) <= 0
  {
    CompareIsTransitive(a.0, b.0, c.0);
    CompareIsZero(a.0, b.0);
    CompareIsZero(b.0, c.0);
    CompareIsZero(a.0, c.0);
    if Compare(a.0, c.0) == 0 {
      CompareIsAntisymmetric(a.0, b.0);
      CompareIsAntisymmetric(b.0, c.0);
      ZeroBetween(a.0, b.0, c.0);
      CompareIsTransitive(a.1, b.1, c.1);
      CompareIsZero(a.1, b.1);
      CompareIsZero(b.1, c.1);
      if Compare(a.1, c.1) == 0 {
        CompareIsZero(a.1, c.1);
        ZeroBetween(a.1, b.1, c.1);
        CompareIsTransitive(a.2, b.2, c.2);
      }
    }
  }

  lemma ZeroBetween(a: string, b: string, c: string)
    requires a == c && Compare(a, b) <= 0 && Compare(b, c) <= 0
    ensures a == b
  {
    CompareIsAntisymmetric(a, b);
    CompareIsZero(a, b);
  }
}
