/**
 Sequence helpers of the `ArrayUtils` class: `indexOf`-based de-duplication
 (`getUniqueItems`) and an order-preserving intersection (`getCommon`).
 JavaScript arrays are modelled as `seq<T>` and `===` as Dafny equality.
 */
module ArrayUtils {

  /** No element occurs twice. */
  predicate Distinct<T(==)>(s: seq<T>) {
    forall i, j | 0 <= i < j < |s| :: s[i] != s[j]
  }

  /** `s.indexOf(x)`: the first index holding `x`, or -1. */
  function IndexOf<T(==)>(s: seq<T>, x: T): (i: int)
    ensures -1 <= i < |s|
    ensures i == -1 ==> x !in s
    ensures 0 <= i ==> s[i] == x && forall j | 0 <= j < i :: s[j] != x
  {
    if |s| == 0 then -1
    else if s[0] == x then 0
    else
      var j := IndexOf(s[1..], x);
      if j < 0 then -1 else j + 1
  }

  /** What the filter of `getUniqueItems` has produced after the first `n` indices. */
  predicate FirstOccurrencesSoFar<T(==)>(arr: seq<T>, n: nat, r: seq<T>)
    requires n <= |arr|
  {
    && Distinct(r)
    && (forall i | 0 <= i < |r| :: 0 <= IndexOf(arr, r[i]) < n)
    && (forall i {:trigger arr[i] in r} | 0 <= i < n :: arr[i] in r)
    && (forall i, j | 0 <= i < j < |r| :: IndexOf(arr, r[i]) < IndexOf(arr, r[j]))
  }

  /**
   The elements among the first `n` of `arr` that pass the filter
   `arr.indexOf(item) === i`, in order.
   */
  function FirstOccurrences<T(==)>(arr: seq<T>, n: nat): (r: seq<T>)
    requires n <= |arr|
    ensures FirstOccurrencesSoFar(arr, n, r)
  {
    if n == 0 then []
    else
      var prev := FirstOccurrences(arr, n - 1);
      var x := arr[n - 1];
      var r := if IndexOf(arr, x) == n - 1 then prev + [x] else prev;
      FirstOccurrencesStep(arr, n, prev, r);
      r
  }

  lemma FirstOccurrencesStep<T>(arr: seq<T>, n: nat, prev: seq<T>, r: seq<T>)
    requires 0 < n <= |arr|
    requires FirstOccurrencesSoFar(arr, n - 1, prev)
    requires r == if IndexOf(arr, arr[n - 1]) == n - 1 then prev + [arr[n - 1]] else prev
    ensures FirstOccurrencesSoFar(arr, n, r)
  {
    if IndexOf(arr, arr[n - 1]) == n - 1 {
      FirstOccurrencesKeep(arr, n, prev);
    } else {
      FirstOccurrencesSkip(arr, n, prev);
    }
  }

  /** A repeated element fails the filter and is already kept. */
  lemma FirstOccurrencesSkip<T>(arr: seq<T>, n: nat, prev: seq<T>)
    requires 0 < n <= |arr|
    requires FirstOccurrencesSoFar(arr, n - 1, prev)
    requires IndexOf(arr, arr[n - 1]) != n - 1
    ensures FirstOccurrencesSoFar(arr, n, prev)
  {
    var first := IndexOf(arr, arr[n - 1]);
    assert arr[first] in prev;
    forall i | 0 <= i < n
      ensures arr[i] in prev
    {
      if i < n - 1 {
        assert arr[i] in prev;
      }
    }
  }

  /** A first occurrence passes the filter and is appended. */
  lemma FirstOccurrencesKeep<T>(arr: seq<T>, n: nat, prev: seq<T>)
    requires 0 < n <= |arr|
    requires FirstOccurrencesSoFar(arr, n - 1, prev)
    requires IndexOf(arr, arr[n - 1]) == n - 1
    ensures FirstOccurrencesSoFar(arr, n, prev + [arr[n - 1]])
  {
    var x := arr[n - 1];
    var r := prev + [x];
    forall i | 0 <= i < |prev|
      ensures r[i] == prev[i] && r[i] != x
    {
      assert IndexOf(arr, prev[i]) < n - 1;
    }
    assert r[|prev|] == x;
    forall i | 0 <= i < n
      ensures arr[i] in r
    {
      if i < n - 1 {
        assert arr[i] in prev;
      }
    }
  }

  /**
   `getUniqueItems(arr)`: keeps the first occurrence of each element. The
   result has no duplicates, holds exactly the elements of `arr`, and lists
   them in the order of their first occurrence in `arr`.
   */
  function GetUniqueItems<T(==)>(arr: seq<T>): (r: seq<T>)
    ensures Distinct(r)
    ensures forall i | 0 <= i < |r| :: r[i] in arr
    ensures forall i | 0 <= i < |arr| :: arr[i] in r
    ensures forall i, j | 0 <= i < j < |r| :: IndexOf(arr, r[i]) < IndexOf(arr, r[j])
  {
    var r := FirstOccurrences(arr, |arr|);
    assert FirstOccurrencesSoFar(arr, |arr|, r);
    r
  }

  /** On a sequence without duplicates the filter keeps every element. */
  lemma {:induction false} FirstOccurrencesOfDistinct<T>(s: seq<T>, n: nat)
    requires n <= |s|
    requires Distinct(s)
    ensures FirstOccurrences(s, n) == s[..n]
  {
    if n > 0 {
      FirstOccurrencesOfDistinct(s, n - 1);
      assert IndexOf(s, s[n - 1]) == n - 1;
      TakeSnoc(s, n);
    }
  }

  lemma TakeSnoc<T>(s: seq<T>, n: nat)
    requires 0 < n <= |s|
    ensures s[..n] == s[..n - 1] + [s[n - 1]]
  {
  }

  /** `getUniqueItems` is the identity on duplicate-free input. */
  lemma GetUniqueItemsOfDistinct<T>(s: seq<T>)
    requires Distinct(s)
    ensures GetUniqueItems(s) == s
  {
    FirstOccurrencesOfDistinct(s, |s|);
    assert s[..|s|] == s;
  }

  /** `getUniqueItems` is idempotent. */
  lemma GetUniqueItemsIdempotent<T>(arr: seq<T>)
    ensures GetUniqueItems(GetUniqueItems(arr)) == GetUniqueItems(arr)
  {
    GetUniqueItemsOfDistinct(GetUniqueItems(arr));
  }

  /**
   The elements of `left` that `right.indexOf` finds, in `left`'s order: the
   array the `forEach` loop of `getCommon` pushes into.
   */
  function CommonCandidates<T(==)>(left: seq<T>, right: seq<T>): (r: seq<T>)
    ensures forall i | 0 <= i < |r| :: r[i] in left && r[i] in right
    ensures forall i | 0 <= i < |left| :: left[i] in right ==> left[i] in r
  {
    if |left| == 0 then []
    else if IndexOf(right, left[0]) < 0 then CommonCandidates(left[1..], right)
    else [left[0]] + CommonCandidates(left[1..], right)
  }

  /** Filtering keeps the relative order of first occurrences. */
  lemma {:induction false} CommonCandidatesOrder<T>(left: seq<T>, right: seq<T>, x: T, y: T)
    requires x in right && y in right && x in left && y in left
    ensures IndexOf(CommonCandidates(left, right), x) < IndexOf(CommonCandidates(left, right), y)
        <==> IndexOf(left, x) < IndexOf(left, y)
  {
    var c := CommonCandidates(left, right);
    if left[0] == x || left[0] == y {
      assert IndexOf(right, left[0]) >= 0;
      assert c == [left[0]] + CommonCandidates(left[1..], right);
    } else {
      CommonCandidatesOrder(left[1..], right, x, y);
      if IndexOf(right, left[0]) >= 0 {
        assert c == [left[0]] + CommonCandidates(left[1..], right);
      }
    }
  }

  /**
   `getCommon(left, right)`: every element of `left` that `right` also holds,
   exactly once, in the order of first occurrence in `left`.
   */
  function GetCommon<T(==)>(left: seq<T>, right: seq<T>): (r: seq<T>)
    ensures forall i | 0 <= i < |r| :: r[i] in left && r[i] in right
    ensures forall i | 0 <= i < |left| :: left[i] in right ==> left[i] in r
    ensures Distinct(r)
    ensures forall i, j | 0 <= i < j < |r| :: IndexOf(left, r[i]) < IndexOf(left, r[j])
    ensures |left| == 0 || |right| == 0 ==> r == []
  {
    var r := GetUniqueItems(CommonCandidates(left, right));
    CommonOrder(left, right, r);
    r
  }

  lemma CommonOrder<T>(left: seq<T>, right: seq<T>, r: seq<T>)
    requires r == GetUniqueItems(CommonCandidates(left, right))
    ensures forall i, j | 0 <= i < j < |r| :: IndexOf(left, r[i]) < IndexOf(left, r[j])
  {
    var c := CommonCandidates(left, right);
    forall i, j | 0 <= i < j < |r|
      ensures IndexOf(left, r[i]) < IndexOf(left, r[j])
    {
      assert r[i] in c && r[j] in c;
      assert IndexOf(c, r[i]) < IndexOf(c, r[j]);
      CommonCandidatesOrder(left, right, r[i], r[j]);
    }
  }
}
