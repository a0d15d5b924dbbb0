/** apgd::projection: the accelerated projected gradient descent. Each pass
    takes the projected step from the extrapolated point y, then moves y past
    the new multipliers by beta times the last change, with the momentum
    weights theta and beta of Nesterov's scheme. std::sqrt is a parameter
    known only through IsSqrt. */
module Apgd {
  import opened LinAlg
  import opened GradientLoop

  /** theta = (theta_old sqrt(4 + theta_old^2) - theta_old^2) / 2. */
  function Theta(sqrt: real -> real, thetaOld: real): real {
    0.5 * (thetaOld * sqrt(4.0 + thetaOld * thetaOld) - thetaOld * thetaOld)
  }

  /** beta = theta_old (1 - theta_old) / (theta_old^2 + theta). */
  function Beta(thetaOld: real, theta: real): real
    requires thetaOld * thetaOld + theta != 0.0
  {
    thetaOld * (1.0 - thetaOld) / (thetaOld * thetaOld + theta)
  }

  lemma PositiveFactorOf(x: real, y: real, p: real)
    requires p == x * y && p > 0.0 && y > 0.0
    ensures x > 0.0
  {
  }

  lemma PositiveProduct(x: real, y: real)
    requires x > 0.0 && y > 0.0
    ensures x * y > 0.0
  {
  }

  lemma PositiveQuotient(x: real, y: real)
    requires x > 0.0 && y > 0.0
    ensures x / y > 0.0
  {
  }

  lemma ProductLess(t: real, x: real, y: real)
    requires t > 0.0 && x < y
    ensures t * x < t * y
  {
  }

  lemma SquareNonNegative(t: real)
    ensures t * t >= 0.0
  {
  }

  /** For t > 0, the non-negative root s of 4 + t^2 lies strictly between
      t and t + 2: (s - t)(s + t) = 4 and (t + 2 - s)(t + 2 + s) = 4t. */
  lemma RootBounds(t: real, s: real)
    requires t > 0.0 && s >= 0.0 && s * s == 4.0 + t * t
    ensures t < s < t + 2.0
  {
    PositiveFactorOf(s - t, s + t, 4.0);
    PositiveFactorOf(t + 2.0 - s, t + 2.0 + s, 4.0 * t);
  }

  lemma ThetaFromRoot(t: real, s: real, theta: real)
    requires t > 0.0 && t < s < t + 2.0 && theta == 0.5 * (t * s - t * t)
    ensures 0.0 < theta < t
    ensures t * t + theta > 0.0
  {
    PositiveProduct(t, s - t);
    ProductLess(t, s - t, 2.0);
    SquareNonNegative(t);
  }

  /** The momentum weight stays positive and decreases at every pass:
      0 < theta < theta_old. So the denominator of beta is positive. */
  lemma ThetaBounds(sqrt: real -> real, t: real)
    requires IsSqrt(sqrt) && t > 0.0
    ensures 0.0 < Theta(sqrt, t) < t
    ensures t * t + Theta(sqrt, t) > 0.0
  {
    var s := sqrt(4.0 + t * t);
    SquareNonNegative(t);
    assert s >= 0.0 && s * s == 4.0 + t * t;
    RootBounds(t, s);
    ThetaFromRoot(t, s, Theta(sqrt, t));
  }

  /** On (0, 1] the numerator theta_old (1 - theta_old) of beta is
      non-negative and vanishes only at 1. */
  lemma MomentumNumerator(t: real)
    requires 0.0 < t <= 1.0
    ensures t * (1.0 - t) >= 0.0
    ensures t * (1.0 - t) == 0.0 <==> t == 1.0
  {
    if t < 1.0 {
      PositiveProduct(t, 1.0 - t);
    } else {
      assert 1.0 - t == 0.0;
    }
  }

  lemma QuotientSign(num: real, den: real)
    requires num >= 0.0 && den > 0.0
    ensures num / den >= 0.0
    ensures num / den == 0.0 <==> num == 0.0
  {
    if num > 0.0 {
      PositiveQuotient(num, den);
    }
  }

  /** With 0 < theta_old <= 1 the extrapolation weight is never negative,
      and it is 0 exactly at theta_old = 1. */
  lemma BetaSign(sqrt: real -> real, t: real)
    requires IsSqrt(sqrt) && 0.0 < t <= 1.0
    ensures t * t + Theta(sqrt, t) > 0.0
    ensures Beta(t, Theta(sqrt, t)) >= 0.0
    ensures Beta(t, Theta(sqrt, t)) == 0.0 <==> t == 1.0
  {
    ThetaBounds(sqrt, t);
    var num, den := t * (1.0 - t), t * t + Theta(sqrt, t);
    assert Beta(t, Theta(sqrt, t)) == num / den;
    MomentumNumerator(t);
    QuotientSign(num, den);
  }

  /** The state the loop carries from pass to pass: l, m_y and theta_old. */
  datatype State = State(l: seq<real>, y: seq<real>, theta: real)

  /** The problem and the helpers fit vectors of length n. */
  ghost predicate Setting(a: seq<seq<real>>, c: seq<real>, proj: seq<real> -> seq<real>, sqrt: real -> real, n: nat) {
    Fits(a, c, n) && PreservesLength(proj) && IsSqrt(sqrt)
  }

  /** l and y have the same length and theta_old is positive. */
  predicate Shaped(s: State) {
    |s.y| == |s.l| && s.theta > 0.0
  }

  /** The state is one the loop can run from. */
  ghost predicate Runnable(a: seq<seq<real>>, c: seq<real>, proj: seq<real> -> seq<real>, sqrt: real -> real, s: State) {
    Setting(a, c, proj, sqrt, |s.l|) && Shaped(s)
  }

  /** One pass of apgd::projection: l_old := l, l := projection_cone(y - rho (A y + c)),
      y := l + beta (l - l_old), and theta_old takes the new theta. */
  function Step(a: seq<seq<real>>, c: seq<real>, rho: real, proj: seq<real> -> seq<real>, sqrt: real -> real, s: State): (r: State)
    requires Runnable(a, c, proj, sqrt, s)
    ensures Shaped(r) && |r.l| == |s.l| && r.theta < s.theta
  {
    ThetaBounds(sqrt, s.theta);
    var l := ProjectedStep(a, c, rho, proj, s.y);
    var theta := Theta(sqrt, s.theta);
    var beta := Beta(s.theta, theta);
    State(l, Add(l, Scale(beta, Sub(l, s.l))), theta)
  }

  /** The state after k passes that did not stop. */
  function Iterate(a: seq<seq<real>>, c: seq<real>, rho: real, proj: seq<real> -> seq<real>, sqrt: real -> real, s0: State, k: nat): (r: State)
    requires Runnable(a, c, proj, sqrt, s0)
    ensures Shaped(r) && |r.l| == |s0.l| && r.theta <= s0.theta
    decreases k
  {
    if k == 0 then s0 else Step(a, c, rho, proj, sqrt, Iterate(a, c, rho, proj, sqrt, s0, k - 1))
  }

  /** The state the loop starts from: theta_old = 1 and m_y = l. */
  function Start(l: seq<real>): State {
    State(l, l, 1.0)
  }

  /** Pass k + 1 (counting from 1) meets the stopping test: it compares the
      new l with l_old, the l before the pass, and not with y. */
  ghost predicate StopsAt(a: seq<seq<real>>, c: seq<real>, rho: real, proj: seq<real> -> seq<real>, sqrt: real -> real,
                          tolL: real, s0: State, k: nat) {
    && Runnable(a, c, proj, sqrt, s0)
    && RelativeChange(Iterate(a, c, rho, proj, sqrt, s0, k + 1).l, Iterate(a, c, rho, proj, sqrt, s0, k).l) < tolL
  }

  ghost function Stops(a: seq<seq<real>>, c: seq<real>, rho: real, proj: seq<real> -> seq<real>, sqrt: real -> real,
                       tolL: real, s0: State): nat -> bool {
    (k: nat) => StopsAt(a, c, rho, proj, sqrt, tolL, s0, k)
  }

  /** The returned count n with the l and m_y it leaves: n is one past the
      first pass meeting the test, or max_iter, and l and y are those of the
      state after n passes. */
  ghost predicate Outcome(a: seq<seq<real>>, c: seq<real>, rho: real, proj: seq<real> -> seq<real>, sqrt: real -> real,
                          tolL: real, maxIter: nat, s0: State, n: nat, l: seq<real>, y: seq<real>) {
    && Runnable(a, c, proj, sqrt, s0)
    && l == Iterate(a, c, rho, proj, sqrt, s0, n).l
    && y == Iterate(a, c, rho, proj, sqrt, s0, n).y
    && FirstHit(Stops(a, c, rho, proj, sqrt, tolL, s0), maxIter, n)
  }

  /** The outcome is unique. In particular max_iter = 0 returns 0 and leaves
      l as it was. */
  lemma OutcomeUnique(a: seq<seq<real>>, c: seq<real>, rho: real, proj: seq<real> -> seq<real>, sqrt: real -> real,
                      tolL: real, maxIter: nat, s0: State, n1: nat, l1: seq<real>, y1: seq<real>, n2: nat, l2: seq<real>, y2: seq<real>)
    requires Outcome(a, c, rho, proj, sqrt, tolL, maxIter, s0, n1, l1, y1)
    requires Outcome(a, c, rho, proj, sqrt, tolL, maxIter, s0, n2, l2, y2)
    ensures n1 == n2 && l1 == l2 && y1 == y2
    ensures maxIter == 0 ==> n1 == 0 && l1 == s0.l
  {
    FirstHitUnique(Stops(a, c, rho, proj, sqrt, tolL, s0), maxIter, n1, n2);
  }

  /** On the first pass beta = 0 since 1 - theta_old = 0, so y becomes the new l. */
  lemma FirstPassNoMomentum(a: seq<seq<real>>, c: seq<real>, rho: real, proj: seq<real> -> seq<real>, sqrt: real -> real, l: seq<real>)
    requires Runnable(a, c, proj, sqrt, Start(l))
    ensures Step(a, c, rho, proj, sqrt, Start(l)).y == Step(a, c, rho, proj, sqrt, Start(l)).l
  {
    BetaSign(sqrt, 1.0);
    var r := Step(a, c, rho, proj, sqrt, Start(l));
    var beta := Beta(1.0, Theta(sqrt, 1.0));
    assert beta == 0.0;
    var d := Scale(beta, Sub(r.l, l));
    assert forall k :: 0 <= k < |d| ==> d[k] == 0.0;
    assert r.y == Add(r.l, d);
  }

  /** The momentum weight after k passes from theta_old = 1. It depends
      on k alone, not on the problem data. */
  function ThetaAt(sqrt: real -> real, k: nat): (r: real)
    requires IsSqrt(sqrt)
    ensures 0.0 < r <= 1.0
    decreases k
  {
    if k == 0 then 1.0
    else
      var t := ThetaAt(sqrt, k - 1);
      ThetaBounds(sqrt, t);
      Theta(sqrt, t)
  }

  /** The loop's theta_old after k passes is ThetaAt(k). */
  lemma {:induction false} IterateTheta(a: seq<seq<real>>, c: seq<real>, rho: real, proj: seq<real> -> seq<real>,
                                        sqrt: real -> real, l: seq<real>, k: nat)
    requires Runnable(a, c, proj, sqrt, Start(l))
    ensures Iterate(a, c, rho, proj, sqrt, Start(l), k).theta == ThetaAt(sqrt, k)
    decreases k
  {
    if k > 0 {
      IterateTheta(a, c, rho, proj, sqrt, l, k - 1);
    }
  }

  /** From the start, theta_old stays in (0, 1] and strictly decreases, so
      every beta the loop uses is non-negative, and only the first is 0. */
  lemma MomentumNonNegative(sqrt: real -> real, k: nat)
    requires IsSqrt(sqrt)
    ensures ThetaAt(sqrt, k + 1) < ThetaAt(sqrt, k)
    ensures var t := ThetaAt(sqrt, k);
            t * t + Theta(sqrt, t) > 0.0 && Beta(t, Theta(sqrt, t)) >= 0.0
            && (Beta(t, Theta(sqrt, t)) == 0.0 <==> k == 0)
  {
    var t := ThetaAt(sqrt, k);
    ThetaBounds(sqrt, t);
    BetaSign(sqrt, t);
    if k > 0 {
      ThetaBounds(sqrt, ThetaAt(sqrt, k - 1));
    }
  }

  class Apgd {
    /** m_max_iter, m_rho, m_tol_dg (unused by the loop), m_tol_l and m_verbose. */
    const maxIter: nat
    const rho: real
    const tolDg: real
    const tolL: real
    const verbose: bool
    /** projection_cone, from the problem's projection. */
    const projectionCone: seq<real> -> seq<real>
    /** std::sqrt. */
    const sqrt: real -> real
    /** The vectors m_y, m_l_old, m_dg and m_uu. */
    var y: seq<real>
    var lOld: seq<real>
    var dg: seq<real>
    var uu: seq<real>

    constructor(maxIter: nat, rho: real, tolDg: real, tolL: real, verbose: bool,
                projectionCone: seq<real> -> seq<real>, sqrt: real -> real)
      ensures this.maxIter == maxIter && this.rho == rho && this.tolDg == tolDg && this.tolL == tolL
      ensures this.verbose == verbose && this.projectionCone == projectionCone && this.sqrt == sqrt
    {
      this.maxIter := maxIter;
      this.rho := rho;
      this.tolDg := tolDg;
      this.tolL := tolL;
      this.verbose := verbose;
      this.projectionCone := projectionCone;
      this.sqrt := sqrt;
    }

    /** apgd::projection: returns the number of passes taken, with l
        overwritten by the last multipliers and m_y by the last
        extrapolated point. */
    method Projection(a: seq<seq<real>>, c: seq<real>, l: array<real>) returns (n: nat)
      requires Fits(a, c, l.Length) && PreservesLength(projectionCone) && IsSqrt(sqrt)
      modifies this, l
      ensures Outcome(a, c, rho, projectionCone, sqrt, tolL, maxIter, Start(old(l[..])), n, l[..], y)
      ensures !verbose ==> uu == old(uu)
    {
      ghost var s0 := Start(l[..]);
      ghost var stops := Stops(a, c, rho, projectionCone, sqrt, tolL, s0);
      ghost var uu0 := uu;
      n := 0;
      var thetaOld := 1.0;
      y := l[..];
      while n < maxIter
        invariant n <= maxIter && l.Length == |s0.l|
        invariant State(l[..], y, thetaOld) == Iterate(a, c, rho, projectionCone, sqrt, s0, n)
        invariant NoneBefore(stops, n)
        invariant !verbose ==> uu == uu0
      {
        var diffLambda, theta := Pass(a, c, l, thetaOld, s0, n);
        if diffLambda < tolL {
          FirstHitAtStop(stops, maxIter, n);
          n := n + 1;
          return;
        }
        NoneBeforeNext(stops, n);
        thetaOld := theta;
        n := n + 1;
      }
      FirstHitAtEnd(stops, maxIter);
    }

    /** The body of the loop of apgd::projection: the projected step from
        m_y, the new momentum weights and m_y, and the relative change of l;
        the verbose block leaves m_uu = 1/2 A l: it holds A l + c for the
        logged constraint until the cost product overwrites it. */
    method Pass(a: seq<seq<real>>, c: seq<real>, l: array<real>, thetaOld: real, ghost s0: State, ghost k: nat)
      returns (diffLambda: real, theta: real)
      requires Runnable(a, c, projectionCone, sqrt, s0) && |s0.l| == l.Length
      requires State(l[..], y, thetaOld) == Iterate(a, c, rho, projectionCone, sqrt, s0, k)
      modifies this, l
      ensures State(l[..], y, theta) == Iterate(a, c, rho, projectionCone, sqrt, s0, k + 1)
      ensures diffLambda < tolL <==> Stops(a, c, rho, projectionCone, sqrt, tolL, s0)(k)
      ensures lOld == old(l[..]) && dg == Gradient(a, c, old(y))
      ensures !verbose ==> uu == old(uu)
      ensures verbose ==> uu == Scale(0.5, MatVec(a, l[..]))
    {
      ThetaBounds(sqrt, thetaOld);
      var prev := l[..];
      lOld := prev;
      var g := Gradient(a, c, y);
      dg := g;
      var next := projectionCone(Sub(y, Scale(rho, g)));
      Overwrite(l, next);
      theta := Theta(sqrt, thetaOld);
      var beta := Beta(thetaOld, theta);
      y := Add(next, Scale(beta, Sub(next, prev)));
      diffLambda := RelativeChange(next, prev);
      if verbose {
        uu := Gradient(a, c, next);
        uu := Scale(0.5, MatVec(a, next));
      }
    }
  }
}
