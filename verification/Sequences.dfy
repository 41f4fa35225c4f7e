/** Edits of a sequence, defined element by element. */
module Sequences {

  /** `s` with the slice from `d` up to `u` replaced by `m`. */
  function Splice<T>(s: seq<T>, d: nat, u: nat, m: seq<T>): (r: seq<T>)
    requires d <= u <= |s|
    ensures |r| == d + |m| + |s| - u
  {
    seq(d + |m| + |s| - u, i requires 0 <= i < d + |m| + |s| - u =>
      if i < d then s[i] else if i < d + |m| then m[i - d] else s[i - d - |m| + u])
  }

  /** `s` without its `k`-th element. */
  function Without<T>(s: seq<T>, k: nat): (r: seq<T>)
    requires k < |s|
    ensures |r| == |s| - 1
  {
    seq(|s| - 1, x requires 0 <= x < |s| - 1 => if x < k then s[x] else s[x + 1])
  }

  /** `s` with `v` put in front of its `k`-th element. */
  function With<T>(s: seq<T>, k: nat, v: T): (r: seq<T>)
    requires k <= |s|
    ensures |r| == |s| + 1
  {
    seq(|s| + 1, x requires 0 <= x < |s| + 1 => if x < k then s[x] else if x == k then v else s[x - 1])
  }

  ghost predicate Distinct<T>(s: seq<T>) {
    forall i, j {:trigger s[i], s[j]} :: 0 <= i < j < |s| ==> s[i] != s[j]
  }

  lemma WithoutDistinct<T>(s: seq<T>, k: nat)
    requires k < |s| && Distinct(s)
    ensures Distinct(Without(s, k))
  {
  }

  lemma WithDistinct<T>(s: seq<T>, k: nat, v: T)
    requires k <= |s| && Distinct(s) && v !in s
    ensures Distinct(With(s, k, v))
  {
  }
}
