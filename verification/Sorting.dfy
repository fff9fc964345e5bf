/**
 Sorting by any total order, in place of Go's sort.Slice.

 Go's sort is not stable, so its callers can rely on no more than this: the result has the
 same elements as often as before, and no later element belongs strictly before an earlier
 one. Elements that the order does not tell apart may come out in any order. The method here
 happens to insert each element behind its equals, but its contract does not say so, and no
 proof in the modules that sort depends on it.
 */
module Sorting {

  ghost predicate TotalPreorder<T(!new)>(le: (T, T) -> bool) {
    (forall x, y :: le(x, y) || le(y, x)) &&
    forall x, y, z :: le(x, y) && le(y, z) ==> le(x, z)
  }

  predicate Sorted<T>(s: seq<T>, le: (T, T) -> bool) {
    forall i, j | 0 <= i < j < |s| :: le(s[i], s[j])
  }

  method Sort<T(!new, ==)>(s: seq<T>, le: (T, T) -> bool) returns (sorted: seq<T>)
    requires TotalPreorder(le)
    ensures multiset(sorted) == multiset(s) && Sorted(sorted, le)
  {
    sorted := [];
    for i := 0 to |s|
      invariant multiset(sorted) == multiset(s[..i]) && Sorted(sorted, le)
    {
      sorted := Insert(sorted, s[i], le);
      assert s[..i + 1] == s[..i] + [s[i]];
    }
    assert s[..|s|] == s;
  }

  method Insert<T(!new, ==)>(sorted: seq<T>, x: T, le: (T, T) -> bool) returns (longer: seq<T>)
    requires TotalPreorder(le) && Sorted(sorted, le)
    ensures multiset(longer) == multiset(sorted) + multiset{x} && Sorted(longer, le)
  {
    var j := 0;
    while j < |sorted| && le(sorted[j], x)
      invariant 0 <= j <= |sorted|
      invariant forall k | 0 <= k < j :: le(sorted[k], x)
    {
      j := j + 1;
    }
    longer := sorted[..j] + [x] + sorted[j..];
    InsertSorted(sorted, j, x, le);
  }

  lemma InsertSorted<T(!new)>(sorted: seq<T>, j: nat, x: T, le: (T, T) -> bool)
    requires TotalPreorder(le) && Sorted(sorted, le) && j <= |sorted|
    requires forall k | 0 <= k < j :: le(sorted[k], x)
    requires j < |sorted| ==> !le(sorted[j], x)
    ensures var longer := sorted[..j] + [x] + sorted[j..];
            Sorted(longer, le) && multiset(longer) == multiset(sorted) + multiset{x}
  {
    assert sorted == sorted[..j] + sorted[j..];
    var longer := sorted[..j] + [x] + sorted[j..];
    forall a, b | 0 <= a < b < |longer| ensures le(longer[a], longer[b]) {
      InsertedPair(sorted, j, x, le, a, b);
    }
  }

  lemma InsertedPair<T(!new)>(sorted: seq<T>, j: nat, x: T, le: (T, T) -> bool, a: nat, b: nat)
    requires TotalPreorder(le) && Sorted(sorted, le) && j <= |sorted| && a < b <= |sorted|
    requires forall k | 0 <= k < j :: le(sorted[k], x)
    requires j < |sorted| ==> !le(sorted[j], x)
    ensures var longer := sorted[..j] + [x] + sorted[j..]; le(longer[a], longer[b])
  {
    if a == j {
      assert le(x, sorted[j]);
      assert j < b - 1 ==> le(sorted[j], sorted[b - 1]);
    }
  }

  /** Cutting a sorted sequence in two. */
  lemma SortedParts<T(!new)>(sorted: seq<T>, le: (T, T) -> bool, i: nat)
    requires Sorted(sorted, le) && i <= |sorted|
    ensures forall x, y | x in sorted[..i] && y in sorted[i..] :: le(x, y)
    ensures multiset(sorted[..i]) + multiset(sorted[i..]) == multiset(sorted)
  {
    assert sorted == sorted[..i] + sorted[i..];
  }

  /** Every sequence has a sorted arrangement. */
  lemma {:induction false} SortedExists<T(!new)>(s: seq<T>, le: (T, T) -> bool) returns (sorted: seq<T>)
    requires TotalPreorder(le)
    ensures multiset(sorted) == multiset(s) && Sorted(sorted, le)
  {
    if s == [] {
      sorted := [];
    } else {
      var k := |s| - 1;
      var front := SortedExists(s[..k], le);
      var j := Place(front, s[k], le, 0);
      sorted := front[..j] + [s[k]] + front[j..];
      InsertSorted(front, j, s[k], le);
      assert s == s[..k] + [s[k]];
    }
  }

  lemma {:induction false} Place<T(!new)>(sorted: seq<T>, x: T, le: (T, T) -> bool, from: nat) returns (j: nat)
    requires from <= |sorted| && forall k | 0 <= k < from :: le(sorted[k], x)
    ensures j <= |sorted| && (forall k | 0 <= k < j :: le(sorted[k], x)) && (j < |sorted| ==> !le(sorted[j], x))
    decreases |sorted| - from
  {
    j := from;
    if from < |sorted| && le(sorted[from], x) {
      j := Place(sorted, x, le, from + 1);
    }
  }
}
