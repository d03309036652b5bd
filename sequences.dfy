/** Facts about id sequences and order-preserving sub-lists. */
module Sequences {
  import opened Wrappers

  /** Each element is smaller than every later one (so no value repeats). */
  predicate StrictlyIncreasing(s: seq<int>) {
    forall i, j :: 0 <= i < j < |s| ==> s[i] < s[j]
  }

  /**
   * Position of the first occurrence of `x` in `s`, the index a front-to-back
   * search stops at; `None` exactly when `x` does not occur.
   */
  function FirstIndex(s: seq<int>, x: int): (r: Option<nat>)
    ensures r.None? <==> x !in s
    ensures r.Some? ==> r.value < |s| && s[r.value] == x && x !in s[..r.value]
  {
    if s == [] then None
    else if s[0] == x then Some(0)
    else
      match FirstIndex(s[1..], x)
      case None => None
      case Some(k) =>
        assert s[..k + 1] == [s[0]] + s[1..][..k];
        Some(k + 1)
  }

  /** A search that meets `x` at `i` without meeting it before has found the first index. */
  lemma FirstIndexAt(s: seq<int>, x: int, i: nat)
    requires i < |s| && s[i] == x && x !in s[..i]
    ensures FirstIndex(s, x) == Some(i)
  {
  }

  /** In a strictly increasing sequence the first index is the only index. */
  lemma FirstIndexUnique(s: seq<int>, x: int, i: nat)
    requires StrictlyIncreasing(s)
    requires i < |s| && s[i] == x
    ensures FirstIndex(s, x) == Some(i)
  {
    assert x !in s[..i] by {
      forall j | 0 <= j < i ensures s[..i][j] != x {
        assert s[j] < s[i];
      }
    }
    FirstIndexAt(s, x, i);
  }

  /**
   * `a` is `b` with some elements left out and the rest in their original
   * order (the last element of `b` is either dropped or matched).
   */
  predicate IsSubsequence<T(==)>(a: seq<T>, b: seq<T>)
    decreases |b|
  {
    if b == [] then a == []
    else IsSubsequence(a, b[..|b| - 1])
         || (a != [] && a[|a| - 1] == b[|b| - 1] && IsSubsequence(a[..|a| - 1], b[..|b| - 1]))
  }

  lemma {:induction false} SubsequenceReflexive<T>(s: seq<T>)
    ensures IsSubsequence(s, s)
    decreases |s|
  {
    if s != [] {
      SubsequenceReflexive(s[..|s| - 1]);
    }
  }

  /** Removing the element at `i` keeps the order of all the others. */
  lemma {:induction false} RemoveAtIsSubsequence<T>(s: seq<T>, i: nat)
    requires i < |s|
    ensures IsSubsequence(s[..i] + s[i + 1..], s)
    decreases |s|
  {
    var n := |s| - 1;
    var a := s[..i] + s[i + 1..];
    if i == n {
      assert a == s[..n];
      SubsequenceReflexive(s[..n]);
    } else {
      var p := s[..n];
      assert a[..|a| - 1] == p[..i] + p[i + 1..];
      assert a[|a| - 1] == s[n];
      RemoveAtIsSubsequence(p, i);
    }
  }

  /** Dropping an element from a strictly increasing sequence keeps it strictly increasing. */
  lemma RemoveAtIncreasing(s: seq<int>, i: nat)
    requires i < |s| && StrictlyIncreasing(s)
    ensures StrictlyIncreasing(s[..i] + s[i + 1..])
  {
    var a := s[..i] + s[i + 1..];
    forall p, q | 0 <= p < q < |a| ensures a[p] < a[q] {
      var p' := if p < i then p else p + 1;
      var q' := if q < i then q else q + 1;
      assert a[p] == s[p'] && a[q] == s[q'];
    }
  }

  /** Dropping the position of a value from a strictly increasing sequence removes that value. */
  lemma RemoveAtDropsValue(s: seq<int>, i: nat)
    requires i < |s| && StrictlyIncreasing(s)
    ensures s[i] !in s[..i] + s[i + 1..]
  {
    var a := s[..i] + s[i + 1..];
    forall p | 0 <= p < |a| ensures a[p] != s[i] {
      if p < i { assert a[p] == s[p]; } else { assert a[p] == s[p + 1]; }
    }
  }
}
