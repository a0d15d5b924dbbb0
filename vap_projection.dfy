/** vap_projection: the a priori velocity of the projection scheme. It
    stores the velocities u and rotations w set from outside and copies
    them into the active particles. */
module VapProjection {
  import opened ScopiContainer

  /** Row i of u has dim columns for each of the first count active
      particles, whose velocity rows have dim entries. */
  ghost predicate RowsFit(vd: seq<seq<real>>, u: seq<seq<real>>, activePtr: nat, count: nat, dim: nat) {
    && activePtr + count <= |vd| && count <= |u|
    && forall i :: 0 <= i < count ==> dim <= |u[i]| && dim <= |vd[activePtr + i]|
  }

  /** Row i of w has the three columns whose column 2 is read. */
  ghost predicate OmegasFit(omega: seq<real>, w: seq<seq<real>>, activePtr: nat, count: nat) {
    && activePtr + count <= |omega| && count <= |w|
    && forall i :: 0 <= i < count ==> 3 <= |w[i]|
  }

  /** The stored arrays can be copied into particles activePtr ..
      activePtr + count - 1. */
  ghost predicate Copyable(vd: seq<seq<real>>, omega: seq<real>, u: seq<seq<real>>, w: seq<seq<real>>,
                           activePtr: nat, count: nat, dim: nat) {
    RowsFit(vd, u, activePtr, count, dim) && OmegasFit(omega, w, activePtr, count)
  }

  lemma FitsPrefix(vd: seq<seq<real>>, omega: seq<real>, u: seq<seq<real>>, w: seq<seq<real>>,
                   activePtr: nat, count: nat, n: nat, dim: nat)
    requires Copyable(vd, omega, u, w, activePtr, count, dim) && n <= count
    ensures Copyable(vd, omega, u, w, activePtr, n, dim)
  {
  }

  /** A velocity row whose first dim components are taken from src. */
  function RowAfter(row: seq<real>, src: seq<real>, dim: nat): (r: seq<real>)
    requires dim <= |row| && dim <= |src|
    ensures |r| == |row|
  {
    src[..dim] + row[dim..]
  }

  /** The velocities after the first count active particles received u. */
  function VelocityAfter(vd: seq<seq<real>>, u: seq<seq<real>>, activePtr: nat, count: nat, dim: nat): (r: seq<seq<real>>)
    requires RowsFit(vd, u, activePtr, count, dim)
    ensures |r| == |vd|
  {
    seq(|vd|, k requires 0 <= k < |vd| =>
      if activePtr <= k < activePtr + count then RowAfter(vd[k], u[k - activePtr], dim) else vd[k])
  }

  /** The rotations after the first count active particles received w(i, 2). */
  function OmegaAfter(omega: seq<real>, w: seq<seq<real>>, activePtr: nat, count: nat): (r: seq<real>)
    requires OmegasFit(omega, w, activePtr, count)
    ensures |r| == |omega|
  {
    seq(|omega|, k requires 0 <= k < |omega| =>
      if activePtr <= k < activePtr + count then w[k - activePtr][2] else omega[k])
  }

  /** What the copy does, component by component: vd(activePtr + i)(d) = u(i, d)
      for d < dim, the other components and all particles outside the
      range keep their values, and omega(activePtr + i) = w(i, 2). */
  lemma CopyEntries(vd: seq<seq<real>>, omega: seq<real>, u: seq<seq<real>>, w: seq<seq<real>>,
                    activePtr: nat, count: nat, dim: nat)
    requires Copyable(vd, omega, u, w, activePtr, count, dim)
    ensures forall k, d :: activePtr <= k < activePtr + count && 0 <= d < |vd[k]| ==>
              VelocityAfter(vd, u, activePtr, count, dim)[k][d] == if d < dim then u[k - activePtr][d] else vd[k][d]
    ensures forall k :: 0 <= k < |vd| && !(activePtr <= k < activePtr + count) ==>
              VelocityAfter(vd, u, activePtr, count, dim)[k] == vd[k]
    ensures forall k :: activePtr <= k < activePtr + count ==> OmegaAfter(omega, w, activePtr, count)[k] == w[k - activePtr][2]
    ensures forall k :: 0 <= k < |omega| && !(activePtr <= k < activePtr + count) ==>
              OmegaAfter(omega, w, activePtr, count)[k] == omega[k]
  {
    forall k, d | activePtr <= k < activePtr + count && 0 <= d < |vd[k]|
      ensures VelocityAfter(vd, u, activePtr, count, dim)[k][d] == if d < dim then u[k - activePtr][d] else vd[k][d]
    {
      assert dim <= |vd[activePtr + (k - activePtr)]|;
      assert VelocityAfter(vd, u, activePtr, count, dim)[k] == u[k - activePtr][..dim] + vd[k][dim..];
    }
  }

  /** One more particle done: the velocities change in row activePtr + count only. */
  lemma VelocityStep(vd: seq<seq<real>>, u: seq<seq<real>>, activePtr: nat, count: nat, dim: nat)
    requires RowsFit(vd, u, activePtr, count + 1, dim)
    ensures RowsFit(vd, u, activePtr, count, dim)
    ensures VelocityAfter(vd, u, activePtr, count, dim)[activePtr + count] == vd[activePtr + count]
    ensures VelocityAfter(vd, u, activePtr, count + 1, dim)
            == VelocityAfter(vd, u, activePtr, count, dim)[activePtr + count := RowAfter(vd[activePtr + count], u[count], dim)]
  {
  }

  /** One more particle done: the rotations change at activePtr + count only. */
  lemma OmegaStep(omega: seq<real>, w: seq<seq<real>>, activePtr: nat, count: nat)
    requires OmegasFit(omega, w, activePtr, count + 1)
    ensures OmegasFit(omega, w, activePtr, count)
    ensures OmegaAfter(omega, w, activePtr, count + 1)
            == OmegaAfter(omega, w, activePtr, count)[activePtr + count := w[count][2]]
  {
  }

  /** Copying component d extends the copied prefix by one. */
  lemma PrefixStep(src: seq<real>, row: seq<real>, d: nat)
    requires d < |src| && d < |row|
    ensures (src[..d] + row[d..])[d := src[d]] == src[..d + 1] + row[d + 1..]
  {
  }

  /** Only column 2 of w is read: two w that agree there give the same rotations. */
  lemma OmegaReadsColumnTwo(omega: seq<real>, w: seq<seq<real>>, w2: seq<seq<real>>, activePtr: nat, count: nat)
    requires OmegasFit(omega, w, activePtr, count) && OmegasFit(omega, w2, activePtr, count)
    requires forall i :: 0 <= i < count ==> w[i][2] == w2[i][2]
    ensures OmegaAfter(omega, w, activePtr, count) == OmegaAfter(omega, w2, activePtr, count)
  {
    var r, r2 := OmegaAfter(omega, w, activePtr, count), OmegaAfter(omega, w2, activePtr, count);
    forall k | 0 <= k < |omega|
      ensures r[k] == r2[k]
    {
      if activePtr <= k < activePtr + count {
        assert w[k - activePtr][2] == w2[k - activePtr][2];
      }
    }
  }

  /** Copying twice gives what copying once gives. */
  lemma CopyIdempotent(vd: seq<seq<real>>, omega: seq<real>, u: seq<seq<real>>, w: seq<seq<real>>,
                       activePtr: nat, count: nat, dim: nat)
    requires Copyable(vd, omega, u, w, activePtr, count, dim)
    ensures Copyable(VelocityAfter(vd, u, activePtr, count, dim), OmegaAfter(omega, w, activePtr, count), u, w, activePtr, count, dim)
    ensures VelocityAfter(VelocityAfter(vd, u, activePtr, count, dim), u, activePtr, count, dim)
            == VelocityAfter(vd, u, activePtr, count, dim)
    ensures OmegaAfter(OmegaAfter(omega, w, activePtr, count), w, activePtr, count) == OmegaAfter(omega, w, activePtr, count)
  {
    var once := VelocityAfter(vd, u, activePtr, count, dim);
    var twice := VelocityAfter(once, u, activePtr, count, dim);
    forall k | 0 <= k < |vd|
      ensures twice[k] == once[k]
    {
      if activePtr <= k < activePtr + count {
        var src := u[k - activePtr];
        assert once[k] == src[..dim] + vd[k][dim..];
        assert twice[k] == src[..dim] + once[k][dim..];
        assert once[k][dim..] == vd[k][dim..];
      }
    }
  }

  class VapProjection {
    /** m_Nactive, m_active_ptr and m_dt of vap_base. */
    const nActive: nat
    const activePtr: nat
    const dt: real
    /** m_u and m_w: one row per active particle. */
    var u: seq<seq<real>>
    var w: seq<seq<real>>

    /** The constructor of src/vap/vap_projection.cpp: it forwards Nactive,
        active_ptr and dt to vap_base and drops its third argument; m_u and
        m_w start empty. */
    constructor(nActive: nat, activePtr: nat, unused: nat, dt: real)
      ensures this.nActive == nActive && this.activePtr == activePtr && this.dt == dt
      ensures u == [] && w == []
    {
      this.nActive := nActive;
      this.activePtr := activePtr;
      this.dt := dt;
      u := [];
      w := [];
    }

    /** set_u_w: stores u and w whatever was stored before; nActive,
        activePtr and dt are constants. */
    method SetUW(u: seq<seq<real>>, w: seq<seq<real>>)
      modifies this
      ensures this.u == u && this.w == w
    {
      this.u := u;
      this.w := w;
    }

    /** set_a_priori_velocity_impl: the vd and omega of the active
        particles take the stored values; nothing else changes. */
    method SetAPrioriVelocity(particles: Particles, dim: nat)
      requires Copyable(particles.vd, particles.omega, u, w, activePtr, nActive, dim)
      modifies particles
      ensures particles.nbInactive == old(particles.nbInactive) && particles.nbActive == old(particles.nbActive)
      ensures particles.m == old(particles.m) && particles.j == old(particles.j)
      ensures particles.desiredOmega == old(particles.desiredOmega)
      ensures particles.vd == VelocityAfter(old(particles.vd), u, activePtr, nActive, dim)
      ensures particles.omega == OmegaAfter(old(particles.omega), w, activePtr, nActive)
    {
      ghost var vd0 := particles.vd;
      ghost var omega0 := particles.omega;
      for i := 0 to nActive
        invariant Copyable(vd0, omega0, u, w, activePtr, i, dim)
        invariant particles.nbInactive == old(particles.nbInactive) && particles.nbActive == old(particles.nbActive)
        invariant particles.m == old(particles.m) && particles.j == old(particles.j)
        invariant particles.desiredOmega == old(particles.desiredOmega)
        invariant particles.vd == VelocityAfter(vd0, u, activePtr, i, dim)
        invariant particles.omega == OmegaAfter(omega0, w, activePtr, i)
      {
        FitsPrefix(vd0, omega0, u, w, activePtr, nActive, i + 1, dim);
        CopyRow(particles, dim, i, vd0, omega0);
        OmegaStep(omega0, w, activePtr, i);
        particles.omega := particles.omega[activePtr + i := w[i][2]];
      }
    }

    /** The inner loop for particle activePtr + i: components 0 .. dim - 1 of
        its velocity take row i of u. */
    method CopyRow(particles: Particles, dim: nat, i: nat, ghost vd0: seq<seq<real>>, ghost omega0: seq<real>)
      requires Copyable(vd0, omega0, u, w, activePtr, i + 1, dim)
      requires particles.vd == VelocityAfter(vd0, u, activePtr, i, dim)
      modifies particles
      ensures particles.nbInactive == old(particles.nbInactive) && particles.nbActive == old(particles.nbActive)
      ensures particles.m == old(particles.m) && particles.j == old(particles.j)
      ensures particles.desiredOmega == old(particles.desiredOmega) && particles.omega == old(particles.omega)
      ensures particles.vd == VelocityAfter(vd0, u, activePtr, i + 1, dim)
    {
      var k := activePtr + i;
      ghost var before := particles.vd;
      ghost var row0 := vd0[k];
      ghost var src := u[i];
      VelocityStep(vd0, u, activePtr, i, dim);
      assert src[..0] + row0[0..] == row0;
      for d := 0 to dim
        invariant particles.nbInactive == old(particles.nbInactive) && particles.nbActive == old(particles.nbActive)
        invariant particles.m == old(particles.m) && particles.j == old(particles.j)
        invariant particles.desiredOmega == old(particles.desiredOmega) && particles.omega == old(particles.omega)
        invariant particles.vd == before[k := src[..d] + row0[d..]]
      {
        PrefixStep(src, row0, d);
        particles.vd := particles.vd[k := particles.vd[k][d := u[i][d]]];
      }
    }

    /** update_velocity_impl: does nothing. */
    method UpdateVelocity(particles: Particles, uadapt: seq<seq<real>>, wadapt: seq<seq<real>>)
      ensures unchanged(particles) && unchanged(this)
    {
    }
  }
}
