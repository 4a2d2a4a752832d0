/** Generic sequence helpers: first-appearance de-duplication, positions, last match. */
module Sequences {
  import opened Wrappers

  predicate Distinct<T(==)>(s: seq<T>) {
    forall i, j :: 0 <= i < j < |s| ==> s[i] != s[j]
  }

  /** The distinct elements of s in order of first appearance (pandas `unique()`,
      and the key order of a dict filled by scanning s). */
  function Unique<T(==, !new)>(s: seq<T>): (u: seq<T>)
    ensures Distinct(u)
    ensures forall x :: x in u <==> x in s
  {
    if s == [] then []
    else
      var u := Unique(s[..|s| - 1]);
      assert forall x :: x in s <==> x in s[..|s| - 1] || x == s[|s| - 1] by {
        assert s == s[..|s| - 1] + [s[|s| - 1]];
      }
      if s[|s| - 1] in u then u else u + [s[|s| - 1]]
  }

  /** Extending the scanned prefix by one element appends it when it is new. */
  /** The position where x first appears in s. */
  function FirstIndexOf<T(==)>(s: seq<T>, x: T): (r: nat)
    requires x in s
    ensures r < |s| && s[r] == x
    ensures forall j :: 0 <= j < r ==> s[j] != x
  {
    if s[0] == x then 0 else 1 + FirstIndexOf(s[1..], x)
  }

  /** Unique lists its elements in order of first appearance in s. */
  lemma {:induction false} UniqueInFirstAppearanceOrder<T(!new)>(s: seq<T>)
    ensures forall i, j :: 0 <= i < j < |Unique(s)| ==> FirstIndexOf(s, Unique(s)[i]) < FirstIndexOf(s, Unique(s)[j])
  {
    if s != [] {
      var n := |s| - 1;
      var p := s[..n];
      UniqueInFirstAppearanceOrder(p);
      forall x | x in p
        ensures FirstIndexOf(s, x) == FirstIndexOf(p, x)
      {
        FirstIndexOfPrefix(s, n, x);
      }
      if s[n] !in Unique(p) {
        assert s[n] !in p;
        assert FirstIndexOf(s, s[n]) == n;
      }
    }
  }

  /** Where x already appears in the first k elements, its first position is found there. */
  lemma FirstIndexOfPrefix<T>(s: seq<T>, k: nat, x: T)
    requires k <= |s| && x in s[..k]
    ensures FirstIndexOf(s, x) == FirstIndexOf(s[..k], x)
  {
    var r := FirstIndexOf(s[..k], x);
    var q := FirstIndexOf(s, x);
    assert s[r] == x;
    forall j | 0 <= j < r
      ensures s[j] != x
    {
      assert s[..k][j] == s[j];
    }
  }

  lemma UniqueStep<T(!new)>(s: seq<T>, k: nat)
    requires k < |s|
    ensures Unique(s[..k + 1]) == if s[k] in Unique(s[..k]) then Unique(s[..k]) else Unique(s[..k]) + [s[k]]
  {
    assert s[..k + 1][..k] == s[..k];
  }

  /** The positions of s holding x, in increasing order. */
  function IndicesOf<T(==)>(s: seq<T>, x: T): (r: seq<nat>)
  {
    if s == [] then []
    else IndicesOf(s[..|s| - 1], x) + (if s[|s| - 1] == x then [|s| - 1] else [])
  }

  /** IndicesOf lists exactly the positions holding x, each once and in increasing order. */
  lemma {:induction false} IndicesOfExact<T>(s: seq<T>, x: T)
    ensures forall k :: 0 <= k < |IndicesOf(s, x)| ==> IndicesOf(s, x)[k] < |s| && s[IndicesOf(s, x)[k]] == x
    ensures forall i :: 0 <= i < |s| && s[i] == x ==> i in IndicesOf(s, x)
    ensures forall a, b :: 0 <= a < b < |IndicesOf(s, x)| ==> IndicesOf(s, x)[a] < IndicesOf(s, x)[b]
  {
    if s != [] {
      var p := s[..|s| - 1];
      IndicesOfExact(p, x);
      var r := IndicesOf(p, x);
      assert forall k :: 0 <= k < |r| ==> r[k] < |p| && s[r[k]] == x;
    }
  }

  /** Position of the last element of s satisfying p, if any. */
  function LastIndexWhere<T>(s: seq<T>, p: T -> bool): (r: Option<nat>)
    ensures r.Some? ==> r.value < |s| && p(s[r.value])
    ensures r.Some? ==> forall j :: r.value < j < |s| ==> !p(s[j])
    ensures r.None? <==> forall j :: 0 <= j < |s| ==> !p(s[j])
  {
    if s == [] then None
    else if p(s[|s| - 1]) then Some(|s| - 1)
    else LastIndexWhere(s[..|s| - 1], p)
  }
}
