/** uzawa::projection: the fixed-step projected gradient descent
    l := projection_cone(l - rho (A l + c)), stopped as soon as one step
    moves l by less than tol_l relative to the previous l, or after max_iter
    steps. A is a dense matrix here and projection_cone an arbitrary map
    that keeps lengths; the default is max(., 0). */
module Uzawa {
  import opened LinAlg
  import opened GradientLoop

  /** The multipliers after k steps from l0. */
  function Iterate(a: seq<seq<real>>, c: seq<real>, rho: real, proj: seq<real> -> seq<real>, l0: seq<real>, k: nat): (r: seq<real>)
    requires Fits(a, c, |l0|) && PreservesLength(proj)
    ensures |r| == |l0|
    decreases k
  {
    if k == 0 then l0 else ProjectedStep(a, c, rho, proj, Iterate(a, c, rho, proj, l0, k - 1))
  }

  /** Step k + 1 (counting from 1) meets the stopping test diff_lambda < tol_l. */
  ghost predicate StopsAt(a: seq<seq<real>>, c: seq<real>, rho: real, proj: seq<real> -> seq<real>, tolL: real, l0: seq<real>, k: nat) {
    && Fits(a, c, |l0|) && PreservesLength(proj)
    && RelativeChange(Iterate(a, c, rho, proj, l0, k + 1), Iterate(a, c, rho, proj, l0, k)) < tolL
  }

  ghost function Stops(a: seq<seq<real>>, c: seq<real>, rho: real, proj: seq<real> -> seq<real>, tolL: real, l0: seq<real>): nat -> bool {
    (k: nat) => StopsAt(a, c, rho, proj, tolL, l0, k)
  }

  /** The returned count n with the multipliers l it leaves: n is one past
      the first step meeting the test, or max_iter, and l is the iterate
      after n steps. */
  ghost predicate Outcome(a: seq<seq<real>>, c: seq<real>, rho: real, proj: seq<real> -> seq<real>, tolL: real,
                          maxIter: nat, l0: seq<real>, n: nat, l: seq<real>)
    requires Fits(a, c, |l0|) && PreservesLength(proj)
  {
    l == Iterate(a, c, rho, proj, l0, n) && FirstHit(Stops(a, c, rho, proj, tolL, l0), maxIter, n)
  }

  /** The outcome is unique. In particular max_iter = 0 returns 0 and leaves
      l as it was. */
  lemma OutcomeUnique(a: seq<seq<real>>, c: seq<real>, rho: real, proj: seq<real> -> seq<real>, tolL: real,
                      maxIter: nat, l0: seq<real>, n1: nat, l1: seq<real>, n2: nat, l2: seq<real>)
    requires Fits(a, c, |l0|) && PreservesLength(proj)
    requires Outcome(a, c, rho, proj, tolL, maxIter, l0, n1, l1) && Outcome(a, c, rho, proj, tolL, maxIter, l0, n2, l2)
    ensures n1 == n2 && l1 == l2
    ensures maxIter == 0 ==> n1 == 0 && l1 == l0
  {
    FirstHitUnique(Stops(a, c, rho, proj, tolL, l0), maxIter, n1, n2);
  }

  /** The default projection max(., 0) keeps lengths. */
  lemma ProjectionMaxPreservesLength()
    ensures PreservesLength(ProjectionMax)
  {
  }

  /** With the default projection every multiplier is non-negative after at least one step. */
  lemma {:induction false} NonNegativeAfterStep(a: seq<seq<real>>, c: seq<real>, rho: real, l0: seq<real>, k: nat)
    requires Fits(a, c, |l0|) && k >= 1
    ensures PreservesLength(ProjectionMax)
    ensures forall i :: 0 <= i < |l0| ==> Iterate(a, c, rho, ProjectionMax, l0, k)[i] >= 0.0
  {
    ProjectionMaxPreservesLength();
    var prev := Iterate(a, c, rho, ProjectionMax, l0, k - 1);
    ProjectionMaxProperties(Sub(prev, Scale(rho, Gradient(a, c, prev))));
  }

  class Uzawa {
    /** m_max_iter, m_rho, m_tol_dg (unused by the loop), m_tol_l and m_verbose. */
    const maxIter: nat
    const rho: real
    const tolDg: real
    const tolL: real
    const verbose: bool
    /** projection_cone, inherited from the projection policy. */
    const projectionCone: seq<real> -> seq<real>
    /** The scratch vectors m_lambda_prev, m_dg and m_uu. */
    var lambdaPrev: seq<real>
    var dg: seq<real>
    var uu: seq<real>

    /** The constructor with the projection policy's projection_cone. */
    constructor(maxIter: nat, rho: real, tolDg: real, tolL: real, verbose: bool, projectionCone: seq<real> -> seq<real>)
      ensures this.maxIter == maxIter && this.rho == rho && this.tolDg == tolDg && this.tolL == tolL
      ensures this.verbose == verbose && this.projectionCone == projectionCone
    {
      this.maxIter := maxIter;
      this.rho := rho;
      this.tolDg := tolDg;
      this.tolL := tolL;
      this.verbose := verbose;
      this.projectionCone := projectionCone;
    }

    /** uzawa::projection: returns the number of steps taken, with l
        overwritten by the last multipliers. */
    method Projection(a: seq<seq<real>>, c: seq<real>, l: array<real>) returns (n: nat)
      requires Fits(a, c, l.Length) && PreservesLength(projectionCone)
      modifies this, l
      ensures Outcome(a, c, rho, projectionCone, tolL, maxIter, old(l[..]), n, l[..])
      ensures !verbose ==> uu == old(uu)
    {
      ghost var l0 := l[..];
      ghost var stops := Stops(a, c, rho, projectionCone, tolL, l0);
      n := 0;
      while n < maxIter
        invariant n <= maxIter && l.Length == |l0|
        invariant l[..] == Iterate(a, c, rho, projectionCone, l0, n)
        invariant NoneBefore(stops, n)
        invariant !verbose ==> uu == old(uu)
      {
        var diffLambda := Pass(a, c, l, l0, n);
        if diffLambda < tolL {
          FirstHitAtStop(stops, maxIter, n);
          n := n + 1;
          return;
        }
        NoneBeforeNext(stops, n);
        n := n + 1;
      }
      FirstHitAtEnd(stops, maxIter);
    }

    /** The body of the loop of uzawa::projection: one projected step on l,
        with the relative change it made; the verbose block leaves m_uu = 1/2 A l: it holds A l + c for the
        logged constraint until the cost product overwrites it. */
    method Pass(a: seq<seq<real>>, c: seq<real>, l: array<real>, ghost l0: seq<real>, ghost k: nat) returns (diffLambda: real)
      requires Fits(a, c, l.Length) && PreservesLength(projectionCone) && |l0| == l.Length
      requires l[..] == Iterate(a, c, rho, projectionCone, l0, k)
      modifies this, l
      ensures l[..] == Iterate(a, c, rho, projectionCone, l0, k + 1)
      ensures diffLambda < tolL <==> Stops(a, c, rho, projectionCone, tolL, l0)(k)
      ensures lambdaPrev == old(l[..]) && dg == Gradient(a, c, old(l[..]))
      ensures uu == if verbose then Scale(0.5, MatVec(a, l[..])) else old(uu)
    {
      var prev := l[..];
      lambdaPrev := prev;
      var g := Gradient(a, c, prev);
      dg := g;
      var next := projectionCone(Sub(prev, Scale(rho, g)));
      Overwrite(l, next);
      diffLambda := RelativeChange(next, prev);
      if verbose {
        uu := Gradient(a, c, next);
        uu := Scale(0.5, MatVec(a, next));
      }
    }
  }
}
