/** OptimBase: the part of the solver front end shared by all solvers. It
    owns the problem and the cost vector c, whose entries from c_dec on hold
    minus the momentum of the a priori velocities of the active particles. */
module OptimBase {
  import opened LinAlg
  import opened ViscousRegimes
  import opened ScopiContainer
  import opened ViscousWithFriction

  /** The entry that create_vector_c writes for component d of the velocity of active particle i. */
  function MassSlot(cDec: nat, i: nat, d: nat): nat {
    cDec + 3 * i + d
  }

  /** The entry that create_vector_c writes for component d of the rotation of active particle i. */
  function MomentSlot(cDec: nat, nbActive: nat, i: nat, d: nat): nat {
    cDec + 3 * nbActive + 3 * i + d
  }

  /** Entry k is the velocity slot of one of the first count active
      particles: only the first dim of every three slots are written. */
  predicate MassWritten(cDec: nat, dim: nat, count: nat, k: int) {
    cDec <= k < cDec + 3 * count && (k - cDec) % 3 < dim
  }

  /** Entry k is among those create_vector_c writes: the dim velocity
      components of every active particle, then the three rotation components. */
  predicate Written(cDec: nat, dim: nat, nbActive: nat, k: int) {
    MassWritten(cDec, dim, nbActive, k) || cDec + 3 * nbActive <= k < cDec + 6 * nbActive
  }

  /** The momentum terms -m vd of create_vector_c: row i holds the dim
      components of the active particle off + i. */
  function MassTerms(m: seq<real>, vd: seq<seq<real>>, off: nat, na: nat, dim: nat): (r: seq<seq<real>>)
    requires off + na <= |m| && off + na <= |vd|
    requires forall k :: off <= k < off + na ==> dim <= |vd[k]|
    ensures |r| == na
    ensures forall i :: 0 <= i < na ==> r[i] == Scaled(-m[off + i], vd[off + i], dim)
  {
    seq(na, i requires 0 <= i < na => Scaled(-m[off + i], vd[off + i], dim))
  }

  /** The first dim components of x v. */
  function Scaled(x: real, v: seq<real>, dim: nat): (r: seq<real>)
    requires dim <= |v|
    ensures |r| == dim && forall d :: 0 <= d < dim ==> r[d] == x * v[d]
  {
    seq(dim, d requires 0 <= d < dim => x * v[d])
  }

  /** The rotation terms -j(d) omega(d) of create_vector_c, one vector per active particle. */
  function MomentTerms(j: seq<Vec3>, omega: seq<Vec3>, off: nat, na: nat): (r: seq<Vec3>)
    requires off + na <= |j| && off + na <= |omega|
    ensures |r| == na
    ensures forall i :: 0 <= i < na ==> r[i] == MomentRow(j[off + i], omega[off + i])
  {
    seq<Vec3>(na, i requires 0 <= i < na => MomentRow(j[off + i], omega[off + i]))
  }

  /** -j(d) omega(d) for the three components. */
  function MomentRow(j: Vec3, omega: Vec3): (r: Vec3)
    ensures forall d :: 0 <= d < 3 ==> r[d] == -j[d] * omega[d]
  {
    seq(3, d requires 0 <= d < 3 => -j[d] * omega[d])
  }

  /** c holds what create_vector_c leaves in m_c when it held prev before:
      the momentum terms from c_dec on, three slots per particle, the first
      dim of them written; the rotation terms after them; prev elsewhere. */
  ghost predicate VectorCCreated(c: seq<real>, prev: seq<real>, cDec: nat, dim: nat, massT: seq<seq<real>>, momT: seq<Vec3>) {
    var na := |momT|;
    && dim <= 3 && |c| == |prev| && |massT| == na && cDec + 6 * na <= |c|
    && (forall i :: 0 <= i < na ==> |massT[i]| == dim)
    && (forall i, d :: 0 <= i < na && 0 <= d < dim ==> c[MassSlot(cDec, i, d)] == massT[i][d])
    && (forall i, d :: 0 <= i < na && 0 <= d < 3 ==> c[MomentSlot(cDec, na, i, d)] == momT[i][d])
    && (forall k :: 0 <= k < |c| && !Written(cDec, dim, na, k) ==> c[k] == prev[k])
  }

  lemma MassSlotWritten(cDec: nat, dim: nat, nbActive: nat, i: nat, d: nat)
    requires i < nbActive && d < dim <= 3
    ensures Written(cDec, dim, nbActive, MassSlot(cDec, i, d))
  {
    assert MassSlot(cDec, i, d) - cDec == 3 * i + d;
    assert (3 * i + d) % 3 == d;
  }

  /** Every written entry is the slot of one velocity or rotation component,
      so the clauses of VectorCCreated fix c completely. */
  lemma WrittenIsSlot(cDec: nat, dim: nat, nbActive: nat, k: int)
    requires Written(cDec, dim, nbActive, k)
    ensures (exists i, d :: 0 <= i < nbActive && 0 <= d < dim && k == MassSlot(cDec, i, d))
         || (exists i, d :: 0 <= i < nbActive && 0 <= d < 3 && k == MomentSlot(cDec, nbActive, i, d))
  {
    if k < cDec + 3 * nbActive {
      var i, d := (k - cDec) / 3, (k - cDec) % 3;
      assert k == MassSlot(cDec, i, d);
    } else {
      var i, d := (k - cDec - 3 * nbActive) / 3, (k - cDec - 3 * nbActive) % 3;
      assert k == MomentSlot(cDec, nbActive, i, d);
    }
  }

  /** create_vector_c determines m_c: two results from the same previous
      content agree everywhere. */
  lemma {:induction false} VectorCUnique(c1: seq<real>, c2: seq<real>, prev: seq<real>, cDec: nat, dim: nat,
                                         massT: seq<seq<real>>, momT: seq<Vec3>)
    requires VectorCCreated(c1, prev, cDec, dim, massT, momT) && VectorCCreated(c2, prev, cDec, dim, massT, momT)
    ensures c1 == c2
  {
    forall k | 0 <= k < |c1| ensures c1[k] == c2[k] {
      if Written(cDec, dim, |momT|, k) {
        WrittenIsSlot(cDec, dim, |momT|, k);
      }
    }
  }

  /** In 2D the third velocity slot of every active particle keeps its value. */
  lemma ThirdVelocitySlotKept(c: seq<real>, prev: seq<real>, cDec: nat, massT: seq<seq<real>>, momT: seq<Vec3>, i: nat)
    requires VectorCCreated(c, prev, cDec, 2, massT, momT)
    requires i < |momT|
    ensures c[MassSlot(cDec, i, 2)] == prev[MassSlot(cDec, i, 2)]
  {
    var k := MassSlot(cDec, i, 2);
    assert k - cDec == 3 * i + 2;
    assert (3 * i + 2) % 3 == 2;
    assert !Written(cDec, 2, |momT|, k);
  }

  /** c holds what the loop of create_vector_c has written for the first
      count active particles, and prev everywhere else. */
  ghost predicate FilledUpTo(c: seq<real>, prev: seq<real>, cDec: nat, dim: nat, massT: seq<seq<real>>, momT: seq<Vec3>, count: nat) {
    var na := |momT|;
    && dim <= 3 && |c| == |prev| && |massT| == na && count <= na && cDec + 6 * na <= |c|
    && (forall i :: 0 <= i < na ==> |massT[i]| == dim)
    && (forall i, d :: 0 <= i < count && 0 <= d < dim ==> c[MassSlot(cDec, i, d)] == massT[i][d])
    && (forall i, d :: 0 <= i < count && 0 <= d < 3 ==> c[MomentSlot(cDec, na, i, d)] == momT[i][d])
    && (forall k :: 0 <= k < |c| && !MassWritten(cDec, dim, count, k) && !(cDec + 3 * na <= k < cDec + 3 * na + 3 * count) ==>
          c[k] == prev[k])
  }

  /** Filling all active particles is what create_vector_c promises. */
  lemma FilledAll(c: seq<real>, prev: seq<real>, cDec: nat, dim: nat, massT: seq<seq<real>>, momT: seq<Vec3>)
    requires FilledUpTo(c, prev, cDec, dim, massT, momT, |momT|)
    ensures VectorCCreated(c, prev, cDec, dim, massT, momT)
  {
  }

  /** The rows of particle i occupy the dim velocity slots and the three rotation slots. */
  predicate OwnSlot(cDec: nat, dim: nat, na: nat, i: nat, k: int) {
    MassSlot(cDec, i, 0) <= k < MassSlot(cDec, i, 0) + dim || MomentSlot(cDec, na, i, 0) <= k < MomentSlot(cDec, na, i, 0) + 3
  }

  /** One pass of the outer loop of create_vector_c: writing the slots of
      particle i extends what is filled by one particle. */
  lemma FilledStep(before: seq<real>, after: seq<real>, prev: seq<real>, cDec: nat, dim: nat,
                   massT: seq<seq<real>>, momT: seq<Vec3>, i: nat)
    requires dim <= 3 && i < |momT|
    requires FilledUpTo(before, prev, cDec, dim, massT, momT, i)
    requires |after| == |before|
    requires forall d :: 0 <= d < dim ==> after[MassSlot(cDec, i, d)] == massT[i][d]
    requires forall d :: 0 <= d < 3 ==> after[MomentSlot(cDec, |momT|, i, d)] == momT[i][d]
    requires forall k :: 0 <= k < |before| && !OwnSlot(cDec, dim, |momT|, i, k) ==> after[k] == before[k]
    ensures FilledUpTo(after, prev, cDec, dim, massT, momT, i + 1)
  {
    var na := |momT|;
    forall i', d | 0 <= i' < i && 0 <= d < dim
      ensures after[MassSlot(cDec, i', d)] == massT[i'][d]
    {
      assert !OwnSlot(cDec, dim, na, i, MassSlot(cDec, i', d));
    }
    forall i', d | 0 <= i' < i && 0 <= d < 3
      ensures after[MomentSlot(cDec, na, i', d)] == momT[i'][d]
    {
      assert !OwnSlot(cDec, dim, na, i, MomentSlot(cDec, na, i', d));
    }
    forall k | 0 <= k < |after| && !MassWritten(cDec, dim, i + 1, k) && !(cDec + 3 * na <= k < cDec + 3 * na + 3 * (i + 1))
      ensures after[k] == prev[k]
    {
      if cDec + 3 * i <= k < cDec + 3 * i + 3 {
        assert (k - cDec) % 3 == k - cDec - 3 * i;
      }
      assert !OwnSlot(cDec, dim, na, i, k);
    }
  }

  /** The inner loops of create_vector_c for active particle i, of mass
      mass, a priori velocity vd, moment j and desired rotation omega: its
      dim momentum slots, then its three rotation slots; nothing else changes. */
  method WriteParticle(c: array<real>, cDec: nat, na: nat, dim: nat, i: nat,
                       mass: real, vd: seq<real>, j: Vec3, omega: Vec3)
    requires dim <= 3 && dim <= |vd| && i < na && cDec + 6 * na <= c.Length
    modifies c
    ensures forall d :: 0 <= d < dim ==> c[MassSlot(cDec, i, d)] == Scaled(-mass, vd, dim)[d]
    ensures forall d :: 0 <= d < 3 ==> c[MomentSlot(cDec, na, i, d)] == MomentRow(j, omega)[d]
    ensures forall k :: 0 <= k < c.Length && !OwnSlot(cDec, dim, na, i, k) ==> c[k] == old(c[k])
  {
    var massDec := cDec;
    var momentDec := massDec + 3 * na;
    WriteScaled(c, massDec + 3 * i, dim, -mass, vd);
    WriteProducts(c, momentDec + 3 * i, j, omega);
  }

  /** One pass of the outer loop of create_vector_c: writing the slots of
      active particle i, whose terms are massT[i] and momT[i], extends what
      is filled by one particle. */
  method FillParticle(c: array<real>, cDec: nat, na: nat, dim: nat, i: nat, mass: real, vd: seq<real>, j: Vec3, omega: Vec3,
                      ghost prev: seq<real>, ghost massT: seq<seq<real>>, ghost momT: seq<Vec3>)
    requires dim <= 3 && dim <= |vd| && i < na == |momT|
    requires FilledUpTo(c[..], prev, cDec, dim, massT, momT, i)
    requires massT[i] == Scaled(-mass, vd, dim) && momT[i] == MomentRow(j, omega)
    modifies c
    ensures FilledUpTo(c[..], prev, cDec, dim, massT, momT, i + 1)
  {
    ghost var before := c[..];
    WriteParticle(c, cDec, na, dim, i, mass, vd, j, omega);
    FilledStep(before, c[..], prev, cDec, dim, massT, momT, i);
  }

  /** The outer loop of create_vector_c over the na active particles from
      off on, of masses m, a priori velocities vd, moments j and desired
      rotations omega. */
  method FillVectorC(c: array<real>, cDec: nat, dim: nat, off: nat, na: nat,
                     m: seq<real>, vd: seq<seq<real>>, j: seq<Vec3>, omega: seq<Vec3>)
    requires dim <= 3 && off + na <= |m| && off + na <= |vd| && off + na <= |j| && off + na <= |omega|
    requires forall k :: off <= k < off + na ==> dim <= |vd[k]|
    requires cDec + 6 * na <= c.Length
    modifies c
    ensures VectorCCreated(c[..], old(c[..]), cDec, dim, MassTerms(m, vd, off, na, dim), MomentTerms(j, omega, off, na))
  {
    ghost var massT := MassTerms(m, vd, off, na, dim);
    ghost var momT := MomentTerms(j, omega, off, na);
    ghost var prev := c[..];
    var i := 0;
    while i < na
      invariant 0 <= i <= na
      invariant FilledUpTo(c[..], prev, cDec, dim, massT, momT, i)
    {
      FillParticle(c, cDec, na, dim, i, m[off + i], vd[off + i], j[off + i], omega[off + i], prev, massT, momT);
      i := i + 1;
    }
    FilledAll(c[..], prev, cDec, dim, massT, momT);
  }

  /** The loop over d < dim: c[base + d] := x v[d]; nothing else changes. */
  method WriteScaled(c: array<real>, base: nat, dim: nat, x: real, v: seq<real>)
    requires base + dim <= c.Length && dim <= |v|
    modifies c
    ensures forall d :: 0 <= d < dim ==> c[base + d] == Scaled(x, v, dim)[d]
    ensures forall k :: 0 <= k < c.Length && !(base <= k < base + dim) ==> c[k] == old(c[k])
  {
    var d := 0;
    while d < dim
      invariant 0 <= d <= dim
      invariant forall d' :: 0 <= d' < d ==> c[base + d'] == x * v[d']
      invariant forall k :: 0 <= k < c.Length && !(base <= k < base + d) ==> c[k] == old(c[k])
    {
      c[base + d] := x * v[d];
      d := d + 1;
    }
  }

  /** The loop over the three rotation components: c[base + d] := -j(d) omega(d). */
  method WriteProducts(c: array<real>, base: nat, j: Vec3, omega: Vec3)
    requires base + 3 <= c.Length
    modifies c
    ensures forall d :: 0 <= d < 3 ==> c[base + d] == MomentRow(j, omega)[d]
    ensures forall k :: 0 <= k < c.Length && !(base <= k < base + 3) ==> c[k] == old(c[k])
  {
    var d := 0;
    while d < 3
      invariant 0 <= d <= 3
      invariant forall d' :: 0 <= d' < d ==> c[base + d'] == -j[d'] * omega[d']
      invariant forall k :: 0 <= k < c.Length && !(base <= k < base + d) ==> c[k] == old(c[k])
    {
      c[base + d] := -j[d] * omega[d];
      d := d + 1;
    }
  }

  class OptimBase {
    /** m_nparts. */
    const nparts: nat
    /** m_c, with cSize entries. */
    const c: array<real>
    /** m_c_dec: the index of the first a priori velocity in c. */
    const cDec: nat
    /** m_problem. */
    const problem: ViscousWithFriction

    /** The constructor: the problem for nparts particles and time step dt,
        and c as cSize zeros. */
    constructor(nparts: nat, dt: real, cSize: nat, cDec: nat, tol: real)
      ensures this.nparts == nparts && this.cDec == cDec
      ensures fresh(c) && c.Length == cSize && forall k :: 0 <= k < cSize ==> c[k] == 0.0
      ensures fresh(problem) && problem.nparticles == nparts && problem.dt == dt && problem.tol == tol
      ensures problem.gamma == [] && problem.Valid()
    {
      this.nparts := nparts;
      this.cDec := cDec;
      problem := new ViscousWithFriction(nparts, dt, tol);
      c := new real[cSize](_ => 0.0);
    }

    /** create_vector_c: from c_dec on, minus mass times a priori velocity for
        the dim components of each active particle, then from
        c_dec + 3 nb_active on minus moment times desired rotation for the
        three components; every other entry of m_c keeps its value. */
    method CreateVectorC(p: Particles, dim: nat)
      requires dim == 2 || dim == 3
      requires p.HoldsActive(dim) && cDec + 6 * p.nbActive <= c.Length
      modifies c
      ensures VectorCCreated(c[..], old(c[..]), cDec, dim, MassTerms(p.m, p.vd, p.nbInactive, p.nbActive, dim),
                             MomentTerms(p.j, p.desiredOmega, p.nbInactive, p.nbActive))
    {
      FillVectorC(c, cDec, dim, p.nbInactive, p.nbActive, p.m, p.vd, p.j, p.desiredOmega);
    }

    /** run: builds c, then the problem's distances; the solve that follows
        belongs to the solver deriving from OptimBase. */
    method Run(p: Particles, dim: nat, contacts: seq<Contact>)
      requires dim == 2 || dim == 3
      requires p.HoldsActive(dim) && cDec + 6 * p.nbActive <= c.Length
      requires |contacts| == |problem.gamma|
      requires DistanceInBounds(AsWritten, problem.gamma, problem.LawOf(), problem.nbGammaNeg, problem.nbGammaMin)
      modifies c, problem
      ensures VectorCCreated(c[..], old(c[..]), cDec, dim, MassTerms(p.m, p.vd, p.nbInactive, p.nbActive, dim),
                             MomentTerms(p.j, p.desiredOmega, p.nbInactive, p.nbActive))
      ensures problem.gamma == old(problem.gamma) && problem.nbGammaNeg == old(problem.nbGammaNeg)
      ensures problem.nbGammaMin == old(problem.nbGammaMin)
      ensures problem.gammaOld == old(problem.gammaOld) && problem.contactsOld == old(problem.contactsOld)
      ensures problem.aRows == old(problem.aRows) && problem.aCols == old(problem.aCols) && problem.aValues == old(problem.aValues)
      ensures problem.shouldSolve == old(problem.shouldSolve)
      ensures problem.distances[..] == DistancesUpTo(AsWritten, contacts, problem.gamma, problem.LawOf(), problem.nbGammaNeg, problem.nbGammaMin, |contacts|)
    {
      CreateVectorC(p, dim);
      problem.CreateVectorDistances(contacts);
    }

    /** should_solve: the answer of the problem's own should_solve. */
    function ShouldSolve(): (r: bool)
      reads this, problem
      ensures r <==> problem.shouldSolve
    {
      problem.shouldSolve
    }

    /** get_lagrange_multiplier: the first number_row_matrix(contacts)
        entries of the solver's multiplier buffer. */
    function GetLagrangeMultiplier(contacts: seq<Contact>, data: seq<real>): (r: seq<real>)
      reads this, problem
      requires problem.NumberRowMatrix(contacts) <= |data|
      ensures |r| == problem.NumberRowMatrix(contacts)
      ensures forall k :: 0 <= k < |r| ==> r[k] == data[k]
    {
      data[..problem.NumberRowMatrix(contacts)]
    }
  }
}
