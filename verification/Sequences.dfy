/** Sequences without repeats and the removal of one element, as linked lists use them. */
module Sequences {
  ghost predicate Distinct<T>(s: seq<T>) {
    forall i, j :: 0 <= i < j < |s| ==> s[i] != s[j]
  }

  /** s with x unlinked, if it is there. */
  function Without<T(==)>(s: seq<T>, x: T): (r: seq<T>)
    ensures forall y :: y in r ==> y in s
    ensures forall y :: y in s && y != x ==> y in r
    ensures x !in s ==> r == s
  {
    if s == [] then []
    else if s[0] == x then s[1..]
    else [s[0]] + Without(s[1..], x)
  }

  lemma {:induction false} WithoutCuts<T>(s: seq<T>, k: nat)
    requires Distinct(s) && k < |s|
    ensures Without(s, s[k]) == s[..k] + s[k + 1..]
  {
    if k == 0 {
      assert s[..0] + s[1..] == s[1..];
    } else {
      WithoutCuts(s[1..], k - 1);
      assert s[..k] + s[k + 1..] == [s[0]] + (s[1..][..k - 1] + s[1..][k..]);
    }
  }

  lemma CutDistinct<T>(s: seq<T>, k: nat)
    requires Distinct(s) && k < |s|
    ensures Distinct(s[..k] + s[k + 1..]) && s[k] !in s[..k] + s[k + 1..]
  {
  }

  lemma WithoutAt<T>(s: seq<T>, k: nat)
    requires Distinct(s) && k < |s|
    ensures Without(s, s[k]) == s[..k] + s[k + 1..]
    ensures Distinct(Without(s, s[k])) && s[k] !in Without(s, s[k])
  {
    WithoutCuts(s, k);
    CutDistinct(s, k);
  }

  function InsertAt<T>(s: seq<T>, i: nat, x: T): (r: seq<T>)
    requires i <= |s|
    ensures |r| == |s| + 1 && r[i] == x
    ensures forall k :: 0 <= k < i ==> r[k] == s[k]
    ensures forall k :: i < k < |r| ==> r[k] == s[k - 1]
    ensures forall y :: y in s ==> y in r
    ensures forall y :: y in r ==> y in s || y == x
  {
    var r := s[..i] + [x] + s[i..];
    assert forall k :: 0 <= k < |s| ==> s[k] == r[if k < i then k else k + 1];
    r
  }

  lemma Assoc<T>(a: seq<T>, b: seq<T>, c: seq<T>)
    ensures a + (b + c) == a + b + c
  {
  }
}
