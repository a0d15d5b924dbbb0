/** What the fixed-step and the accelerated projected gradient loops share:
    the gradient A l + c of the dual cost that mkl_sparse_d_mv computes into
    m_dg (the buffer starts as c, and the product is added with weight 1),
    the projected step and the stopping test. */
module GradientLoop {
  import opened LinAlg

  /** A square system of the size of l with a right-hand side c of the same size. */
  ghost predicate Fits(a: seq<seq<real>>, c: seq<real>, n: nat) {
    |a| == n && |c| == n && Columns(a, n)
  }

  /** dg = A x + c. */
  function Gradient(a: seq<seq<real>>, c: seq<real>, x: seq<real>): (r: seq<real>)
    requires Fits(a, c, |x|)
    ensures |r| == |x|
  {
    Add(MatVec(a, x), c)
  }

  /** projection_cone(x - rho (A x + c)). */
  function ProjectedStep(a: seq<seq<real>>, c: seq<real>, rho: real, proj: seq<real> -> seq<real>, x: seq<real>): (r: seq<real>)
    requires Fits(a, c, |x|) && PreservesLength(proj)
    ensures |r| == |x|
  {
    proj(Sub(x, Scale(rho, Gradient(a, c, x))))
  }

  /** n is what a loop of at most maxIter passes returns when it stops
      after the first pass k (from 0) with stops(k), returning k + 1: no
      earlier pass met the test, and a count below maxIter means pass n - 1 did. */
  ghost predicate FirstHit(stops: nat -> bool, maxIter: nat, n: nat) {
    && n <= maxIter
    && (forall k :: 0 <= k < n - 1 ==> !stops(k))
    && (n < maxIter ==> 1 <= n && stops(n - 1))
  }

  /** No pass before n met the test: the invariant of the solver loops. */
  ghost predicate NoneBefore(stops: nat -> bool, n: nat) {
    forall k :: 0 <= k < n ==> !stops(k)
  }

  /** A pass that does not meet the test extends NoneBefore by one. */
  lemma NoneBeforeNext(stops: nat -> bool, n: nat)
    requires NoneBefore(stops, n) && !stops(n)
    ensures NoneBefore(stops, n + 1)
  {
  }

  /** Returning k + 1 from pass k, the first to meet the test, is FirstHit. */
  lemma FirstHitAtStop(stops: nat -> bool, maxIter: nat, k: nat)
    requires NoneBefore(stops, k) && k < maxIter && stops(k)
    ensures FirstHit(stops, maxIter, k + 1)
  {
  }

  /** Running out of passes is FirstHit with maxIter. */
  lemma FirstHitAtEnd(stops: nat -> bool, maxIter: nat)
    requires NoneBefore(stops, maxIter)
    ensures FirstHit(stops, maxIter, maxIter)
  {
  }

  /** The count is at most one past any pass that meets the test. */
  lemma FirstHitBefore(stops: nat -> bool, maxIter: nat, n: nat, k: nat)
    requires FirstHit(stops, maxIter, n) && stops(k)
    ensures n <= k + 1
  {
  }

  /** FirstHit fixes the count: the first pass meeting the test plus one, or
      maxIter when no pass before the last meets it. */
  lemma {:induction false} FirstHitUnique(stops: nat -> bool, maxIter: nat, n1: nat, n2: nat)
    requires FirstHit(stops, maxIter, n1) && FirstHit(stops, maxIter, n2)
    ensures n1 == n2
  {
    if n1 < maxIter {
      FirstHitBefore(stops, maxIter, n2, n1 - 1);
    }
    if n2 < maxIter {
      FirstHitBefore(stops, maxIter, n1, n2 - 1);
    }
  }

  /** A loop whose passes before the last never meet the test reports maxIter. */
  lemma FirstHitNone(stops: nat -> bool, maxIter: nat, n: nat)
    requires FirstHit(stops, maxIter, n)
    requires forall k :: 0 <= k < maxIter - 1 ==> !stops(k)
    ensures n == maxIter
  {
  }

  /** With maxIter = 0 no pass runs. */
  lemma FirstHitZero(stops: nat -> bool, n: nat)
    requires FirstHit(stops, 0, n)
    ensures n == 0
  {
  }

  /** xt::noalias(l) = v: l takes the values of v. */
  method Overwrite(l: array<real>, v: seq<real>)
    requires |v| == l.Length
    modifies l
    ensures l[..] == v
  {
    forall k | 0 <= k < l.Length {
      l[k] := v[k];
    }
  }
}
