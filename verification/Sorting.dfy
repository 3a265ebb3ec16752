/** Strict total orders, and sorting the elements of a set, as sort.Slice does with the
    distinct elements that the program collects in a map. */
module Sorting {
  ghost predicate StrictOrder<T(!new)>(less: (T, T) -> bool) {
    && (forall x :: !less(x, x))
    && (forall x, y, z :: less(x, y) && less(y, z) ==> less(x, z))
    && (forall x, y :: x == y || less(x, y) || less(y, x))
  }

  ghost predicate Sorted<T>(less: (T, T) -> bool, s: seq<T>) {
    forall i, j :: 0 <= i < j < |s| ==> less(s[i], s[j])
  }

  ghost predicate SameElements<T(!new)>(s: seq<T>, t: set<T>) {
    forall x :: x in s <==> x in t
  }

  ghost predicate IsLeast<T(!new)>(less: (T, T) -> bool, s: set<T>, m: T) {
    m in s && forall x :: x in s ==> x == m || less(m, x)
  }

  lemma {:induction false} HasLeast<T(!new)>(less: (T, T) -> bool, s: set<T>) returns (m: T)
    requires StrictOrder(less) && s != {}
    ensures IsLeast(less, s, m)
    decreases |s|
  {
    var y :| y in s;
    m := y;
    if s != {y} {
      var m' := HasLeast(less, s - {y});
      m := if less(y, m') then y else m';
      forall x | x in s && x != m ensures less(m, x) {
        if x != y && x != m' { assert x in s - {y} && less(m', x); }
      }
    }
  }

  lemma LeastExists<T(!new)>(less: (T, T) -> bool, s: set<T>)
    requires StrictOrder(less) && s != {}
    ensures exists m :: IsLeast(less, s, m)
  {
    var m := HasLeast(less, s);
  }

  function Least<T(==, !new)>(less: (T, T) -> bool, s: set<T>): (m: T)
    requires StrictOrder(less) && s != {}
    ensures IsLeast(less, s, m)
  {
    LeastExists(less, s);
    assert exists m :: m in s && IsLeast(less, s, m);
    var m :| m in s && forall x :: x in s ==> x == m || less(m, x);
    m
  }

  /** The elements of `s` in ascending order. */
  function SortSet<T(==, !new)>(less: (T, T) -> bool, s: set<T>): (r: seq<T>)
    requires StrictOrder(less)
    ensures Sorted(less, r) && SameElements(r, s) && |r| == |s|
    decreases |s|
  {
    if s == {} then [] else
      var m := Least(less, s);
      var rest := SortSet(less, s - {m});
      [m] + rest
  }

  /** A sorted sequence is determined by its elements. */
  lemma {:induction false} SortedUnique<T(!new)>(less: (T, T) -> bool, s: seq<T>, t: seq<T>)
    requires StrictOrder(less) && Sorted(less, s) && Sorted(less, t)
    requires forall x :: x in s <==> x in t
    ensures s == t
    decreases |s|
  {
    assert |s| > 0 ==> s[0] in t;
    assert |t| > 0 ==> t[0] in s;
    if |s| > 0 {
      assert s[0] == t[0];
      forall x ensures x in s[1..] <==> x in t[1..] {
        if x in s[1..] {
          var i :| 0 <= i < |s[1..]| && s[1..][i] == x;
          assert less(s[0], s[i + 1]) && x in t;
        }
        if x in t[1..] {
          var i :| 0 <= i < |t[1..]| && t[1..][i] == x;
          assert less(t[0], t[i + 1]) && x in s;
        }
      }
      SortedUnique(less, s[1..], t[1..]);
    }
  }

  /** sort.Search: the least index of a monotone condition, by binary search. */
  method Search(n: nat, holds: int --> bool) returns (r: nat)
    requires forall i :: 0 <= i < n ==> holds.requires(i)
    ensures r <= n
    ensures (forall i, j :: 0 <= i < j < n && holds(i) ==> holds(j)) ==>
      (forall i :: 0 <= i < r ==> !holds(i)) && forall i :: r <= i < n ==> holds(i)
  {
    var low, high := 0, n;
    while low < high
      invariant 0 <= low <= high <= n
      invariant (forall i, j :: 0 <= i < j < n && holds(i) ==> holds(j)) ==> forall i :: 0 <= i < low ==> !holds(i)
      invariant (forall i, j :: 0 <= i < j < n && holds(i) ==> holds(j)) ==> forall i :: high <= i < n ==> holds(i)
    {
      var mid := (low + high) / 2;
      if holds(mid) { high := mid; } else { low := mid + 1; }
    }
    return low;
  }
}
