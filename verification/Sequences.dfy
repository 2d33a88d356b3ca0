/** Equations between sequences that the proofs of the other modules name instead of repeating. */
module Sequences {
  lemma TailOfConcat<T>(a: seq<T>, b: seq<T>)
    requires a != []
    ensures (a + b)[0] == a[0] && (a + b)[1..] == a[1..] + b
  {
  }

  lemma Associative<T>(a: seq<T>, b: seq<T>, c: seq<T>)
    ensures (a + b) + c == a + (b + c)
  {
  }

  lemma SplitAt<T>(a: seq<T>, k: nat)
    requires k <= |a|
    ensures a == a[..k] + a[k..]
  {
  }

  lemma PrefixStep<T>(a: seq<T>, i: nat)
    requires i < |a|
    ensures a[..i + 1] == a[..i] + [a[i]] && a[..i + 1][..i] == a[..i]
  {
  }

  lemma ThreeParts<T>(a: seq<T>, k: nat, m: nat)
    requires k <= m <= |a|
    ensures a == a[..k] + (a[k..m] + a[m..])
  {
  }

  /** The positions before `n` that meet `p`. */
  ghost function Where<T>(p: T -> bool, xs: seq<T>, n: nat): set<int>
    requires n <= |xs|
  {
    set i | 0 <= i < n && p(xs[i])
  }

  lemma WhereStep<T>(p: T -> bool, xs: seq<T>, n: nat)
    requires n < |xs|
    ensures |Where(p, xs, n + 1)| == |Where(p, xs, n)| + if p(xs[n]) then 1 else 0
  {
    assert Where(p, xs, n + 1) == Where(p, xs, n) + if p(xs[n]) then {n} else {};
  }

  /** Two counts that start alike and step alike stay alike. */
  lemma {:induction false} StepAlike(f: nat -> int, g: nat -> int, n: nat)
    requires f(0) == g(0) && forall k: nat | k < n :: f(k + 1) - f(k) == g(k + 1) - g(k)
    ensures f(n) == g(n)
  {
    if n > 0 { StepAlike(f, g, n - 1); }
  }
}
