/** The values of the triplets of create_matrix_constraint_coo_impl: the
    repeated friction rows and whether the friction blocks are tangential
    to the contact normal. */
module ViscousFriction {
  import opened LinAlg
  import opened ViscousMatrix
  import opened ViscousRegimes

  /** Entry t of the columns sits at position t for a single row, and at
      positions 2t (the row) and 2t + 1 (the mirror, with the negated value)
      for a pair of rows: the mirror row of a contact carries the negated
      normal entries. */
  lemma {:induction false} EntriesAt(s: Slots, cols: seq<int>, vals: seq<real>, t: nat)
    requires |cols| == |vals| && t < |cols|
    ensures var e := Entries(s, cols, vals);
            match s
            case Single(a) => e[t] == Triplet(a, cols[t], vals[t])
            case Pair(a, b) => e[2 * t] == Triplet(a, cols[t], vals[t]) && e[2 * t + 1] == Triplet(b, cols[t], -vals[t])
    decreases |cols|
  {
    if t < |cols| - 1 {
      EntriesAt(s, cols[..|cols| - 1], vals[..|vals| - 1], t);
    }
  }

  /** The friction rows of both normal rows carry the same values. */
  lemma FrictionRowsRepeated(a: int, b: int, cols: seq<int>, f: Mat3, r: nat, c: nat)
    requires |cols| == 3 && r < 3 && c < 3
    ensures var e := FrictionRows(a, b, cols, f);
            e[6 * r + c] == Triplet(a + 1 + r, cols[c], f[r][c])
            && e[6 * r + 3 + c] == Triplet(b + 1 + r, cols[c], f[r][c])
  {
  }

  /** Negating the values of one column loop negates every entry it writes
      and keeps its rows, whatever the columns. */
  lemma {:induction false} EntriesNegated(s: Slots, cols: seq<int>, cols2: seq<int>, vals: seq<real>, vals2: seq<real>)
    requires |cols| == |vals| == |cols2| == |vals2|
    requires forall t :: 0 <= t < |vals| ==> vals2[t] == -vals[t]
    ensures var e, e2 := Entries(s, cols, vals), Entries(s, cols2, vals2);
            |e2| == |e| && forall t :: 0 <= t < |e| ==> e2[t].row == e[t].row && e2[t].value == -e[t].value
    decreases |cols|
  {
    if |cols| > 0 {
      var m := |cols| - 1;
      EntriesNegated(s, cols[..m], cols2[..m], vals[..m], vals2[..m]);
    }
  }

  /** The translational friction block of particle j is that of particle i negated. */
  lemma TransFrictionNegated(n: Vec3, k: real, r: nat, c: nat)
    requires r < 3 && c < 3
    ensures TransFriction(n, -k)[r][c] == -TransFriction(n, k)[r][c]
  {
    assert TransFriction(n, -k)[r][c] == TransFrictionEntry(n, -k, r, c);
    assert TransFriction(n, k)[r][c] == TransFrictionEntry(n, k, r, c);
  }

  /** Rows equal and values negated, entry by entry. */
  predicate Opposite(e: seq<Triplet>, e2: seq<Triplet>) {
    |e2| == |e| && forall t :: 0 <= t < |e| ==> e2[t].row == e[t].row && e2[t].value == -e[t].value
  }

  lemma OppositeAppend(a: seq<Triplet>, a2: seq<Triplet>, b: seq<Triplet>, b2: seq<Triplet>)
    requires Opposite(a, a2) && Opposite(b, b2)
    ensures Opposite(a + b, a2 + b2)
  {
    forall t | 0 <= t < |a + b| ensures (a2 + b2)[t].row == (a + b)[t].row && (a2 + b2)[t].value == -(a + b)[t].value {
      if t >= |a| {
        assert (a + b)[t] == b[t - |a|] && (a2 + b2)[t] == b2[t - |a|];
      }
    }
  }

  /** Negating a friction block negates the entries of its rows. */
  lemma FrictionRowsNegated(a: int, b: int, cols: seq<int>, cols2: seq<int>, f: Mat3, f2: Mat3)
    requires |cols| == 3 && |cols2| == 3
    requires forall r, c :: 0 <= r < 3 && 0 <= c < 3 ==> f2[r][c] == -f[r][c]
    ensures Opposite(FrictionRows(a, b, cols, f), FrictionRows(a, b, cols2, f2))
  {
    assert Opposite(FrictionRow(a, b, cols, f, 0), FrictionRow(a, b, cols2, f2, 0));
    assert Opposite(FrictionRow(a, b, cols, f, 1), FrictionRow(a, b, cols2, f2, 1));
    assert Opposite(FrictionRow(a, b, cols, f, 2), FrictionRow(a, b, cols2, f2, 2));
    OppositeAppend(FrictionRow(a, b, cols, f, 0), FrictionRow(a, b, cols2, f2, 0),
                   FrictionRow(a, b, cols, f, 1), FrictionRow(a, b, cols2, f2, 1));
    OppositeAppend(FrictionRow(a, b, cols, f, 0) + FrictionRow(a, b, cols, f, 1),
                   FrictionRow(a, b, cols2, f2, 0) + FrictionRow(a, b, cols2, f2, 1),
                   FrictionRow(a, b, cols, f, 2), FrictionRow(a, b, cols2, f2, 2));
  }

  /** The end blocks of two column sets whose values and friction blocks are negated are opposite. */
  lemma EndBlockNegated(s: Slots, regime: Regime, ci: seq<int>, cj: seq<int>, vi: seq<real>, vj: seq<real>, fi: Mat3, fj: Mat3)
    requires |ci| == 3 && |cj| == 3 && |vi| == 3 && |vj| == 3
    requires forall t :: 0 <= t < 3 ==> vj[t] == -vi[t]
    requires forall r, col :: 0 <= r < 3 && 0 <= col < 3 ==> fj[r][col] == -fi[r][col]
    ensures Opposite(EndBlock(s, regime, ci, vi, fi), EndBlock(s, regime, cj, vj, fj))
  {
    EntriesNegated(s, ci, cj, vi, vj);
    if regime == Bonded {
      var a, b := s.row, if s.Pair? then s.mirror else s.row;
      FrictionRowsNegated(a, b, ci, cj, fi, fj);
      OppositeAppend(Entries(s, ci, vi), Entries(s, cj, vj), FrictionRows(a, b, ci, fi), FrictionRows(a, b, cj, fj));
    }
  }

  /** When both particles of a non-bonded contact are active, the velocity
      entries of j sit on the same rows as those of i and carry the negated
      values: the contact constrains the relative normal velocity of i and j.
      (For a bonded contact the friction blocks are negated as well; see
      TransFrictionNegated and EndBlockNegated.) */
  lemma TransEndsOpposite(g: Geometry, asm: Assembly, c: Contact, regime: Regime, s: Slots)
    requires regime != Bonded && c.i >= g.nbInactive && c.j >= g.nbInactive
    ensures Opposite(TransBlock(g, asm, c, regime, s, EndI), TransBlock(g, asm, c, regime, s, EndJ))
  {
    var vi, vj := NormalValues(c.nij, Signed(EndI, -asm.law.dt)), NormalValues(c.nij, Signed(EndJ, -asm.law.dt));
    var ci, cj := TransCols(asm.firstCol, Particle(c, EndI) - g.nbInactive), TransCols(asm.firstCol, Particle(c, EndJ) - g.nbInactive);
    EntriesNegated(s, ci, cj, vi, vj);
  }

  /** The triplets of a bonded end block after its six normal entries. */
  lemma BondedFrictionAt(s: Slots, cols: seq<int>, vals: seq<real>, f: Mat3, d: nat)
    requires s.Pair? && |cols| == 3 && |vals| == 3 && d < 3
    ensures var t := EndBlock(s, Bonded, cols, vals, f);
            |t| == 24 && t[6 + 6 * d + d] == Triplet(s.row + 1 + d, cols[d], f[d][d])
            && t[6 + 6 * d + 3 + d] == Triplet(s.mirror + 1 + d, cols[d], f[d][d])
  {
    var e := Entries(s, cols, vals);
    var rows := FrictionRows(s.row, s.mirror, cols, f);
    assert EndBlock(s, Bonded, cols, vals, f) == e + rows;
    FrictionRowsRepeated(s.row, s.mirror, cols, f, d, d);
  }

  /** The diagonal of k (I - n n^T). */
  lemma TransFrictionDiagonal(n: Vec3, k: real, d: nat)
    requires d < 3
    ensures TransFriction(n, k)[d][d] == k - k * n[d] * n[d]
  {
    assert TransFriction(n, k)[d][d] == TransFrictionEntry(n, k, d, d);
  }

  /** The velocity column d of active particle k. */
  lemma TransColsAt(firstCol: int, k: int, d: nat)
    requires d < 3
    ensures TransCols(firstCol, k)[d] == firstCol + 3 * k + d
  {
    if d == 0 {} else if d == 1 {} else {}
  }

  /** The diagonal friction entry of a bonded end on an active particle k,
      as the bonded branch of TransBlock assembles it: dt mu - dt mu n_d^2,
      on the friction row d after the normal row and on the one after the
      mirror, at the velocity column d of k. */
  lemma BondedDiagonal(s: Slots, n: Vec3, firstCol: int, k: int, dt: real, mu: real, d: nat)
    requires s.Pair? && d < 3
    ensures var t := EndBlock(s, Bonded, TransCols(firstCol, k), NormalValues(n, -dt), TransFriction(n, dt * mu));
            var col, v := firstCol + 3 * k + d, dt * mu - dt * mu * n[d] * n[d];
            && |t| == 24
            && t[6 + 6 * d + d] == Triplet(s.row + 1 + d, col, v)
            && t[6 + 6 * d + 3 + d] == Triplet(s.mirror + 1 + d, col, v)
  {
    BondedFrictionAt(s, TransCols(firstCol, k), NormalValues(n, -dt), TransFriction(n, dt * mu), d);
    TransColsAt(firstCol, k, d);
    TransFrictionDiagonal(n, dt * mu, d);
  }

  /** The unit normal. */
  predicate Unit(n: Vec3) {
    n[0] * n[0] + n[1] * n[1] + n[2] * n[2] == 1.0
  }

  lemma WeightedSquares(n0: real, n1: real, n2: real, x: real)
    ensures n0 * (x * n0) + n1 * (x * n1) + n2 * (x * n2) == x * (n0 * n0 + n1 * n1 + n2 * n2)
  {
  }

  /** A column f = x n + d with n . d = -x is orthogonal to the unit normal n. */
  lemma OrthogonalColumn(n0: real, n1: real, n2: real, x: real, d0: real, d1: real, d2: real, f0: real, f1: real, f2: real)
    requires n0 * n0 + n1 * n1 + n2 * n2 == 1.0
    requires f0 == x * n0 + d0 && f1 == x * n1 + d1 && f2 == x * n2 + d2
    requires n0 * d0 + n1 * d1 + n2 * d2 == -x
    ensures n0 * f0 + n1 * f1 + n2 * f2 == 0.0
  {
    assert n0 * f0 == n0 * (x * n0) + n0 * d0;
    assert n1 * f1 == n1 * (x * n1) + n1 * d1;
    assert n2 * f2 == n2 * (x * n2) + n2 * d2;
    WeightedSquares(n0, n1, n2, x);
  }

  /** The entries of column c of k (I - n n^T), weighted by n, sum to 0. */
  lemma TransEntriesOrthogonal(n: Vec3, k: real, c: nat)
    requires Unit(n) && c < 3
    ensures n[0] * TransFrictionEntry(n, k, 0, c) + n[1] * TransFrictionEntry(n, k, 1, c)
            + n[2] * TransFrictionEntry(n, k, 2, c) == 0.0
  {
    var x := -k * n[c];
    var d0, d1, d2 := (if c == 0 then k else 0.0), (if c == 1 then k else 0.0), (if c == 2 then k else 0.0);
    var e0, e1, e2 := TransFrictionEntry(n, k, 0, c), TransFrictionEntry(n, k, 1, c), TransFrictionEntry(n, k, 2, c);
    assert e0 == x * n[0] + d0 by { assert -k * n[0] * n[c] == x * n[0]; }
    assert e1 == x * n[1] + d1 by { assert -k * n[1] * n[c] == x * n[1]; }
    assert e2 == x * n[2] + d2 by { assert -k * n[2] * n[c] == x * n[2]; }
    assert n[0] * d0 + n[1] * d1 + n[2] * d2 == -x;
    OrthogonalColumn(n[0], n[1], n[2], x, d0, d1, d2, e0, e1, e2);
  }

  /** The translational friction rows are tangential: n^T k (I - n n^T) = 0
      for a unit normal, so they do not constrain the normal velocity. */
  lemma TransFrictionTangential(n: Vec3, k: real, c: nat)
    requires Unit(n) && c < 3
    ensures NormalTimesColumn(n, TransFriction(n, k), c) == 0.0
  {
    var f := TransFriction(n, k);
    assert f[0][c] == TransFrictionEntry(n, k, 0, c) && f[1][c] == TransFrictionEntry(n, k, 1, c)
           && f[2][c] == TransFrictionEntry(n, k, 2, c);
    TransEntriesOrthogonal(n, k, c);
  }

  /** The rotational friction rows as written are not tangential: with the
      unit normal (0.6, 0.8, 0) and the identity as lever, n^T of column 0 is
      0.24 k instead of 0. */
  lemma RotFrictionNotTangential(k: real)
    requires k != 0.0
    ensures var n, id := [0.6, 0.8, 0.0], [[1.0, 0.0, 0.0], [0.0, 1.0, 0.0], [0.0, 0.0, 1.0]];
            Unit(n) && NormalTimesColumn(n, RotFriction(n, id, k), 0) == 0.24 * k != 0.0
  {
  }

  /** The entries of column c of -k (I - n n^T) D, weighted by n, sum to 0. */
  lemma ProjectedEntriesOrthogonal(n: Vec3, lever: Mat3, k: real, c: nat)
    requires Unit(n) && c < 3
    ensures n[0] * ProjectedRotFrictionEntry(n, lever, k, 0, c) + n[1] * ProjectedRotFrictionEntry(n, lever, k, 1, c)
            + n[2] * ProjectedRotFrictionEntry(n, lever, k, 2, c) == 0.0
  {
    var m := NormalTimesColumn(n, lever, c);
    var x := k * m;
    var d0, d1, d2 := -k * lever[0][c], -k * lever[1][c], -k * lever[2][c];
    var e0, e1, e2 := ProjectedRotFrictionEntry(n, lever, k, 0, c), ProjectedRotFrictionEntry(n, lever, k, 1, c),
                      ProjectedRotFrictionEntry(n, lever, k, 2, c);
    assert e0 == x * n[0] + d0;
    assert e1 == x * n[1] + d1;
    assert e2 == x * n[2] + d2;
    assert n[0] * d0 + n[1] * d1 + n[2] * d2 == -x;
    OrthogonalColumn(n[0], n[1], n[2], x, d0, d1, d2, e0, e1, e2);
  }

  /** With the factor n_r of the projector restored, the rotational
      friction rows are tangential like the translational ones. */
  lemma ProjectedRotFrictionTangential(n: Vec3, lever: Mat3, k: real, c: nat)
    requires Unit(n) && c < 3
    ensures NormalTimesColumn(n, ProjectedRotFriction(n, lever, k), c) == 0.0
  {
    var f := ProjectedRotFriction(n, lever, k);
    assert f[0][c] == ProjectedRotFrictionEntry(n, lever, k, 0, c) && f[1][c] == ProjectedRotFrictionEntry(n, lever, k, 1, c)
           && f[2][c] == ProjectedRotFrictionEntry(n, lever, k, 2, c);
    ProjectedEntriesOrthogonal(n, lever, k, c);
  }
}
