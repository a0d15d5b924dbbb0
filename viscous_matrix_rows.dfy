/** Where the triplets of create_matrix_constraint_coo_impl land: every
    entry of a contact lies on the rows its placement owns and inside the
    velocity and rotation column blocks. */
module ViscousMatrixRows {
  import opened LinAlg
  import opened ViscousRegimes
  import opened ViscousMatrix

  /** Every triplet of ts lies on a row of rows. */
  predicate RowsIn(ts: seq<Triplet>, rows: set<int>) {
    forall k :: 0 <= k < |ts| ==> ts[k].row in rows
  }

  /** Every triplet of ts lies in a column of [lo, hi). */
  predicate ColsIn(ts: seq<Triplet>, lo: int, hi: int) {
    forall k :: 0 <= k < |ts| ==> lo <= ts[k].col < hi
  }

  lemma RowsInAppend(a: seq<Triplet>, b: seq<Triplet>, rows: set<int>)
    requires RowsIn(a, rows) && RowsIn(b, rows)
    ensures RowsIn(a + b, rows)
  {
    forall k | 0 <= k < |a + b| ensures (a + b)[k].row in rows {
      if k >= |a| {
        assert (a + b)[k] == b[k - |a|];
      }
    }
  }

  lemma ColsInAppend(a: seq<Triplet>, b: seq<Triplet>, lo: int, hi: int)
    requires ColsIn(a, lo, hi) && ColsIn(b, lo, hi)
    ensures ColsIn(a + b, lo, hi)
  {
    forall k | 0 <= k < |a + b| ensures lo <= (a + b)[k].col < hi {
      if k >= |a| {
        assert (a + b)[k] == b[k - |a|];
      }
    }
  }

  /** The columns of one end's velocity block: the three of its particle
      inside the velocity block [firstCol, firstCol + 3 nbActive). */
  lemma TransBlockCols(g: Geometry, asm: Assembly, c: Contact, regime: Regime, s: Slots, e: End)
    requires Particle(c, e) >= g.nbInactive ==> Particle(c, e) - g.nbInactive < g.nbActive
    ensures ColsIn(TransBlock(g, asm, c, regime, s, e), asm.firstCol, asm.firstCol + 3 * g.nbActive)
  {
    var t := TransBlock(g, asm, c, regime, s, e);
    var cols := TransCols(asm.firstCol, Particle(c, e) - g.nbInactive);
    if |t| > 0 {
      assert forall x :: x in cols ==> asm.firstCol <= x < asm.firstCol + 3 * g.nbActive;
    }
  }

  /** The columns of one end's rotation block, inside the rotation block
      [firstCol + 3 nbActive, firstCol + 6 nbActive) when m_nparticles
      equals the number of active particles. */
  lemma RotBlockCols(g: Geometry, asm: Assembly, c: Contact, regime: Regime, s: Slots, e: End)
    requires Indexed(g, c)
    requires Particle(c, e) >= g.nbInactive ==> Particle(c, e) - g.nbInactive < g.nbActive
    requires regime == Bonded ==> asm.nparticles == g.nbActive
    ensures ColsIn(RotBlock(g, asm, c, regime, s, e), asm.firstCol + 3 * g.nbActive, asm.firstCol + 6 * g.nbActive)
  {
    var t := RotBlock(g, asm, c, regime, s, e);
    var cols := RotCols(asm.firstCol, g.nbActive, Particle(c, e) - g.nbInactive);
    if |t| > 0 {
      assert forall x :: x in cols ==> asm.firstCol + 3 * g.nbActive <= x < asm.firstCol + 6 * g.nbActive;
    }
  }

  /** Every triplet of a contact lies on one of the rows its placement owns. */
  lemma ContactTripletRows(g: Geometry, asm: Assembly, c: Contact, regime: Regime, s: Slots)
    requires Indexed(g, c) && Shaped(s, regime)
    ensures RowsIn(ContactTriplets(g, asm, c, regime, s), OwnedRows(s, regime))
  {
    var rows := OwnedRows(s, regime);
    var ti, tj := TransBlock(g, asm, c, regime, s, EndI), TransBlock(g, asm, c, regime, s, EndJ);
    var ri, rj := RotBlock(g, asm, c, regime, s, EndI), RotBlock(g, asm, c, regime, s, EndJ);
    RowsInAppend(ti, tj, rows);
    RowsInAppend(ti + tj, ri, rows);
    RowsInAppend(ti + tj + ri, rj, rows);
  }

  /** Every triplet of a contact lies in the velocity block
      [firstCol, firstCol + 3 nbActive) or the rotation block after it, when
      the contact's active particles are among the nbActive active ones and
      m_nparticles equals nbActive. */
  lemma ContactTripletCols(g: Geometry, asm: Assembly, c: Contact, regime: Regime, s: Slots)
    requires Indexed(g, c) && Shaped(s, regime)
    requires c.i >= g.nbInactive ==> c.i - g.nbInactive < g.nbActive
    requires c.j >= g.nbInactive ==> c.j - g.nbInactive < g.nbActive
    requires regime == Bonded ==> asm.nparticles == g.nbActive
    ensures ColsIn(ContactTriplets(g, asm, c, regime, s), asm.firstCol, asm.firstCol + 6 * g.nbActive)
  {
    var lo, hi := asm.firstCol, asm.firstCol + 6 * g.nbActive;
    var ti, tj := TransBlock(g, asm, c, regime, s, EndI), TransBlock(g, asm, c, regime, s, EndJ);
    var ri, rj := RotBlock(g, asm, c, regime, s, EndI), RotBlock(g, asm, c, regime, s, EndJ);
    TransBlockCols(g, asm, c, regime, s, EndI);
    TransBlockCols(g, asm, c, regime, s, EndJ);
    RotBlockCols(g, asm, c, regime, s, EndI);
    RotBlockCols(g, asm, c, regime, s, EndJ);
    assert lo <= asm.firstCol + 3 * g.nbActive <= hi;
    FourBlocksCols(ti, tj, ri, rj, lo, asm.firstCol + 3 * g.nbActive, hi);
  }

  /** Two velocity blocks in [lo, mid) and two rotation blocks in [mid, hi)
      concatenate to a sequence in [lo, hi). */
  lemma FourBlocksCols(ti: seq<Triplet>, tj: seq<Triplet>, ri: seq<Triplet>, rj: seq<Triplet>,
                       lo: int, mid: int, hi: int)
    requires lo <= mid <= hi
    requires ColsIn(ti, lo, mid) && ColsIn(tj, lo, mid) && ColsIn(ri, mid, hi) && ColsIn(rj, mid, hi)
    ensures ColsIn(ti + tj + ri + rj, lo, hi)
  {
    ColsInWiden(ti, lo, mid, lo, hi);
    ColsInWiden(tj, lo, mid, lo, hi);
    ColsInWiden(ri, mid, hi, lo, hi);
    ColsInWiden(rj, mid, hi, lo, hi);
    ColsInAppend(ti, tj, lo, hi);
    ColsInAppend(ti + tj, ri, lo, hi);
    ColsInAppend(ti + tj + ri, rj, lo, hi);
  }

  lemma ColsInWiden(ts: seq<Triplet>, lo: int, hi: int, lo': int, hi': int)
    requires ColsIn(ts, lo, hi) && lo' <= lo && hi <= hi'
    ensures ColsIn(ts, lo', hi')
  {
  }

  /** A bonded contact addresses the rotation of its particle i at the same
      columns as a free contact does exactly when m_nparticles equals the
      number of active particles. */
  lemma RotationColumnsAgreeIff(asm: Assembly, g: Geometry, k: int)
    ensures RotCols(asm.firstCol, asm.nparticles, k) == RotCols(asm.firstCol, g.nbActive, k)
            <==> asm.nparticles == g.nbActive
  {
    if RotCols(asm.firstCol, asm.nparticles, k) == RotCols(asm.firstCol, g.nbActive, k) {
      assert RotCols(asm.firstCol, asm.nparticles, k)[0] == RotCols(asm.firstCol, g.nbActive, k)[0];
    }
  }
}
