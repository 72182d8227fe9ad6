/** Sorting by a caller-supplied "less than" predicate, standing in for
    std::sort: an insertion sort whose result is a permutation of its input,
    fully ordered whenever `less` is a strict weak order. */
module Sorting {

  /** less(a, b) and less(b, a) never hold together. */
  ghost predicate Asymmetric<T(!new)>(less: (T, T) -> bool) {
    forall a, b :: less(a, b) ==> !less(b, a)
  }

  /** "not less" is transitive: together with asymmetry this makes `less` a
      strict weak order. */
  ghost predicate NegativelyTransitive<T(!new)>(less: (T, T) -> bool) {
    forall a, b, c :: !less(a, b) && !less(b, c) ==> !less(a, c)
  }

  /** No element is less than any element before it. */
  predicate Ordered<T>(s: seq<T>, less: (T, T) -> bool) {
    forall i, j :: 0 <= i < j < |s| ==> !less(s[j], s[i])
  }

  /** Inserts x after the leading elements that are less than it. */
  function Insert<T>(x: T, s: seq<T>, less: (T, T) -> bool): (r: seq<T>)
    ensures multiset(r) == multiset(s) + multiset{x}
    ensures |r| == |s| + 1
  {
    if s == [] || !less(s[0], x) then [x] + s
    else
      assert s == [s[0]] + s[1..];
      [s[0]] + Insert(x, s[1..], less)
  }

  /** The sorted copy of s. */
  function SortBy<T>(s: seq<T>, less: (T, T) -> bool): (r: seq<T>)
    ensures multiset(r) == multiset(s)
    ensures |r| == |s|
  {
    if s == [] then []
    else
      assert s == [s[0]] + s[1..];
      Insert(s[0], SortBy(s[1..], less), less)
  }

  lemma {:induction false} InsertOrdered<T(!new)>(x: T, s: seq<T>, less: (T, T) -> bool)
    requires Asymmetric(less) && NegativelyTransitive(less) && Ordered(s, less)
    ensures Ordered(Insert(x, s, less), less)
    decreases |s|
  {
    if s == [] || !less(s[0], x) {
      var r := [x] + s;
      forall i, j | 0 <= i < j < |r| ensures !less(r[j], r[i]) {
        if i == 0 {
          assert !less(s[j - 1], s[0]);
        }
      }
    } else {
      var t := Insert(x, s[1..], less);
      InsertOrdered(x, s[1..], less);
      var r := [s[0]] + t;
      assert multiset(t) == multiset(s[1..]) + multiset{x};
      forall j | 0 < j < |r| ensures !less(r[j], r[0]) {
        var e := t[j - 1];
        assert e in multiset(t);
        if e != x {
          assert e in multiset(s[1..]);
          var m :| 0 <= m < |s[1..]| && s[1..][m] == e;
          assert !less(s[m + 1], s[0]);
        }
      }
    }
  }

  /** With a strict weak order, the result is fully ordered. */
  lemma {:induction false} SortByOrdered<T(!new)>(s: seq<T>, less: (T, T) -> bool)
    requires Asymmetric(less) && NegativelyTransitive(less)
    ensures Ordered(SortBy(s, less), less)
    decreases |s|
  {
    if s != [] {
      SortByOrdered(s[1..], less);
      InsertOrdered(s[0], SortBy(s[1..], less), less);
    }
  }
}
