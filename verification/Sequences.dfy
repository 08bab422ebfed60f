/** Sequences without repetitions, and sums over the elements of a sequence. */
module Sequences {

  ghost predicate NoDup<T>(s: seq<T>) {
    forall i, j | 0 <= i < j < |s| :: s[i] != s[j]
  }

  function Sum<T>(f: T -> int, s: seq<T>): int {
    if s == [] then 0 else Sum(f, s[..|s| - 1]) + f(s[|s| - 1])
  }

  lemma {:induction false} SumUpdate<T>(f: T -> int, s: seq<T>, i: nat, x: T)
    requires i < |s|
    ensures Sum(f, s[i := x]) == Sum(f, s) - f(s[i]) + f(x)
  {
    var n := |s| - 1;
    if i == n {
      assert s[i := x][..n] == s[..n];
    } else {
      assert s[i := x][..n] == s[..n][i := x];
      SumUpdate(f, s[..n], i, x);
    }
  }

  lemma SumSnoc<T>(f: T -> int, s: seq<T>, x: T)
    ensures Sum(f, s + [x]) == Sum(f, s) + f(x)
  {
    assert (s + [x])[..|s|] == s;
  }

  /** With every other element contributing at most bound, the sum is at most i's share and bound for each other. */
  lemma {:induction false} SumBound<T>(f: T -> int, s: seq<T>, i: nat, bound: int)
    requires i < |s| && forall u | 0 <= u < |s| && u != i :: f(s[u]) <= bound
    ensures Sum(f, s) <= f(s[i]) + (|s| - 1) * bound
  {
    var n := |s| - 1;
    if i == n {
      SumAtMost(f, s[..n], bound);
    } else {
      SumBound(f, s[..n], i, bound);
    }
  }

  lemma {:induction false} SumAtMost<T>(f: T -> int, s: seq<T>, bound: int)
    requires forall u | 0 <= u < |s| :: f(s[u]) <= bound
    ensures Sum(f, s) <= |s| * bound
  {
    if s != [] {
      SumAtMost(f, s[..|s| - 1], bound);
    }
  }

  lemma {:induction false} SumZero<T>(f: T -> int, s: seq<T>)
    requires forall u | 0 <= u < |s| :: f(s[u]) == 0
    ensures Sum(f, s) == 0
  {
    if s != [] {
      SumZero(f, s[..|s| - 1]);
    }
  }

  lemma {:induction false} SumAtLeast<T>(f: T -> int, s: seq<T>, i: nat)
    requires i < |s| && forall u | 0 <= u < |s| :: f(s[u]) >= 0
    ensures Sum(f, s) >= f(s[i])
  {
    var n := |s| - 1;
    if i == n {
      SumNonNegative(f, s[..n]);
    } else {
      SumAtLeast(f, s[..n], i);
    }
  }

  lemma {:induction false} SumNonNegative<T>(f: T -> int, s: seq<T>)
    requires forall u | 0 <= u < |s| :: f(s[u]) >= 0
    ensures Sum(f, s) >= 0
  {
    if s != [] {
      SumNonNegative(f, s[..|s| - 1]);
    }
  }
}
