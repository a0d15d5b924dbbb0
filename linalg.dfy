/** Dense vectors and matrices over the reals that stand in for the xtensor
    arrays, the MKL sparse matrix-vector product and the norms used by the
    gradient solvers. Floating-point rounding is not modelled. */
module LinAlg {

  /** A vector of R^3 (a contact normal, a lever arm). */
  type Vec3 = v: seq<real> | |v| == 3 witness [0.0, 0.0, 0.0]

  /** A 3x3 matrix stored row by row. */
  type Mat3 = m: seq<Vec3> | |m| == 3 witness Zero3x3()

  function Zero3(): Vec3 { [0.0, 0.0, 0.0] }

  function Zero3x3(): seq<Vec3> { [Zero3(), Zero3(), Zero3()] }

  function Abs(x: real): real {
    if x < 0.0 then -x else x
  }

  function Max(a: real, b: real): real {
    if a < b then b else a
  }

  function Sub3(a: Vec3, b: Vec3): Vec3 {
    [a[0] - b[0], a[1] - b[1], a[2] - b[2]]
  }

  /** Row r of a times column c of b. */
  function RowCol3(a: Mat3, b: Mat3, r: nat, c: nat): real
    requires r < 3 && c < 3
  {
    a[r][0] * b[0][c] + a[r][1] * b[1][c] + a[r][2] * b[2][c]
  }

  /** The matrix product xt::linalg::dot(a, b). */
  function MatMul3(a: Mat3, b: Mat3): Mat3 {
    [[RowCol3(a, b, 0, 0), RowCol3(a, b, 0, 1), RowCol3(a, b, 0, 2)],
     [RowCol3(a, b, 1, 0), RowCol3(a, b, 1, 1), RowCol3(a, b, 1, 2)],
     [RowCol3(a, b, 2, 0), RowCol3(a, b, 2, 1), RowCol3(a, b, 2, 2)]]
  }

  /** n[0]*m(0, c) + n[1]*m(1, c) + n[2]*m(2, c): the component c of the row vector n^T m. */
  function NormalTimesColumn(n: Vec3, m: Mat3, c: nat): real
    requires c < 3
  {
    n[0] * m[0][c] + n[1] * m[1][c] + n[2] * m[2][c]
  }

  function Add(a: seq<real>, b: seq<real>): (r: seq<real>)
    requires |a| == |b|
    ensures |r| == |a|
  {
    seq(|a|, k requires 0 <= k < |a| => a[k] + b[k])
  }

  function Sub(a: seq<real>, b: seq<real>): (r: seq<real>)
    requires |a| == |b|
    ensures |r| == |a|
  {
    seq(|a|, k requires 0 <= k < |a| => a[k] - b[k])
  }

  function Scale(x: real, a: seq<real>): (r: seq<real>)
    ensures |r| == |a|
  {
    seq(|a|, k requires 0 <= k < |a| => x * a[k])
  }

  function DotProduct(a: seq<real>, b: seq<real>): real
    requires |a| == |b|
    decreases |a|
  {
    if |a| == 0 then 0.0 else DotProduct(a[..|a| - 1], b[..|b| - 1]) + a[|a| - 1] * b[|b| - 1]
  }

  /** A has |x| columns. */
  ghost predicate Columns(mat: seq<seq<real>>, width: nat) {
    forall r :: 0 <= r < |mat| ==> |mat[r]| == width
  }

  /** The product mat * x that mkl_sparse_d_mv computes. */
  function MatVec(mat: seq<seq<real>>, x: seq<real>): (r: seq<real>)
    requires Columns(mat, |x|)
    ensures |r| == |mat|
  {
    seq(|mat|, k requires 0 <= k < |mat| => DotProduct(mat[k], x))
  }

  /** xt::amax(xt::abs(v)): the infinity norm, 0 for the empty vector. */
  function MaxAbs(v: seq<real>): real
    decreases |v|
  {
    if |v| == 0 then 0.0 else Max(MaxAbs(v[..|v| - 1]), Abs(v[|v| - 1]))
  }

  /** The infinity norm is never negative, bounds every entry in absolute
      value and is attained by one of them. */
  lemma {:induction false} MaxAbsIsMax(v: seq<real>)
    ensures MaxAbs(v) >= 0.0
    ensures forall k :: 0 <= k < |v| ==> Abs(v[k]) <= MaxAbs(v)
    ensures |v| > 0 ==> exists k :: 0 <= k < |v| && MaxAbs(v) == Abs(v[k])
    decreases |v|
  {
    if |v| > 0 {
      var init := v[..|v| - 1];
      MaxAbsIsMax(init);
      assert forall k :: 0 <= k < |v| - 1 ==> v[k] == init[k];
      if |init| > 0 {
        var k :| 0 <= k < |init| && MaxAbs(init) == Abs(init[k]);
        assert MaxAbs(v) == Abs(v[k]) || MaxAbs(v) == Abs(v[|v| - 1]);
      }
    }
  }

  /** The stopping test shared by the gradient solvers:
      max|l - prev| / (max|prev| + 1). */
  function RelativeChange(l: seq<real>, prev: seq<real>): real
    requires |l| == |prev|
  {
    MaxAbs(Sub(l, prev)) / (MaxAbs(prev) + 1.0)
  }

  /** The infinity norm of a difference vanishes exactly when the two
      vectors are equal. */
  lemma {:induction false} MaxAbsSubZero(l: seq<real>, prev: seq<real>)
    requires |l| == |prev|
    ensures MaxAbs(Sub(l, prev)) == 0.0 <==> l == prev
  {
    var d := Sub(l, prev);
    MaxAbsIsMax(d);
    if l == prev {
      assert forall k :: 0 <= k < |d| ==> Abs(d[k]) == 0.0;
      if |d| > 0 {
        var k :| 0 <= k < |d| && MaxAbs(d) == Abs(d[k]);
      }
    } else {
      var k :| 0 <= k < |l| && l[k] != prev[k];
      assert Abs(d[k]) > 0.0;
    }
  }

  /** The +1 keeps the denominator at least 1, so the quotient is always
      defined, and the change is never negative; it is 0 exactly when the
      iterate did not move. */
  lemma {:induction false} RelativeChangeDefined(l: seq<real>, prev: seq<real>)
    requires |l| == |prev|
    ensures MaxAbs(prev) + 1.0 >= 1.0
    ensures RelativeChange(l, prev) >= 0.0
    ensures RelativeChange(l, prev) == 0.0 <==> l == prev
  {
    MaxAbsSubZero(l, prev);
    MaxAbsIsMax(Sub(l, prev));
    MaxAbsIsMax(prev);
    var num, den := MaxAbs(Sub(l, prev)), MaxAbs(prev) + 1.0;
    assert RelativeChange(l, prev) == num / den;
    QuotientZero(num, den);
  }

  lemma QuotientZero(num: real, den: real)
    requires num >= 0.0 && den >= 1.0
    ensures num / den >= 0.0
    ensures num / den == 0.0 <==> num == 0.0
  {
    if num / den == 0.0 {
      assert num == (num / den) * den;
    }
  }

  /** The default cone projection of the Uzawa solver, max(v, 0) entrywise. */
  function ProjectionMax(v: seq<real>): (r: seq<real>)
    ensures |r| == |v|
  {
    seq(|v|, k requires 0 <= k < |v| => Max(v[k], 0.0))
  }

  /** The projection max(., 0) lands in the non-negative orthant, does not
      move a point already there, and is therefore idempotent. */
  lemma ProjectionMaxProperties(v: seq<real>)
    ensures forall k :: 0 <= k < |v| ==> ProjectionMax(v)[k] >= 0.0
    ensures (forall k :: 0 <= k < |v| ==> v[k] >= 0.0) ==> ProjectionMax(v) == v
    ensures ProjectionMax(ProjectionMax(v)) == ProjectionMax(v)
  {
  }

  /** A projection keeps the vector's length. */
  ghost predicate PreservesLength(proj: seq<real> -> seq<real>) {
    forall v :: |proj(v)| == |v|
  }

  /** The properties of std::sqrt the solvers rely on: it returns the
      non-negative square root of a non-negative argument. */
  ghost predicate IsSqrt(sqrt: real -> real) {
    forall x :: x >= 0.0 ==> sqrt(x) >= 0.0 && sqrt(x) * sqrt(x) == x
  }
}
