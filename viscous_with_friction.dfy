/** The problem class ViscousWithFriction<dim> of
    include/scopi/problems/ViscousWithFriction.hpp: the per-contact bond
    strengths gamma, the two counters set_gamma derives from them, and the
    buffers it fills for the solvers (the COO triplets of the constraint
    matrix and the distances vector). */
module ViscousWithFriction {
  import opened LinAlg
  import opened ViscousRegimes
  import opened ViscousMatrix

  /** std::vector::resize: the old prefix is kept and new elements are zero. */
  function Resized<T>(old_: seq<T>, size: nat, zero: T): (r: seq<T>)
    ensures |r| == size
    ensures forall k :: 0 <= k < size ==> r[k] == (if k < |old_| then old_[k] else zero)
  {
    if size <= |old_| then old_[..size] else old_ + seq(size - |old_|, _ => zero)
  }

  function RowsOf(ts: seq<Triplet>): (r: seq<int>)
    ensures |r| == |ts| && forall k :: 0 <= k < |ts| ==> r[k] == ts[k].row
  {
    seq(|ts|, k requires 0 <= k < |ts| => ts[k].row)
  }

  function ColsOf(ts: seq<Triplet>): (r: seq<int>)
    ensures |r| == |ts| && forall k :: 0 <= k < |ts| ==> r[k] == ts[k].col
  {
    seq(|ts|, k requires 0 <= k < |ts| => ts[k].col)
  }

  function ValuesOf(ts: seq<Triplet>): (r: seq<real>)
    ensures |r| == |ts| && forall k :: 0 <= k < |ts| ==> r[k] == ts[k].value
  {
    seq(|ts|, k requires 0 <= k < |ts| => ts[k].value)
  }

  lemma TripletFieldsAppend(a: seq<Triplet>, b: seq<Triplet>)
    ensures RowsOf(a + b) == RowsOf(a) + RowsOf(b)
    ensures ColsOf(a + b) == ColsOf(a) + ColsOf(b)
    ensures ValuesOf(a + b) == ValuesOf(a) + ValuesOf(b)
  {
  }

  /** std::vector::resize on a buffer: a new array with the old prefix and zeros after it. */
  method ResizedArray<T>(a: array<T>, size: nat, zero: T) returns (r: array<T>)
    ensures fresh(r) && r[..] == Resized(a[..], size, zero)
  {
    var init := Resized(a[..], size, zero);
    r := new T[size](k requires 0 <= k < size => init[k]);
  }

  /** Writes xs into a right after the part done that is already written;
      the rest of init stays. */
  method WriteAfter<T>(a: array<T>, index: nat, xs: seq<T>, ghost done: seq<T>, ghost init: seq<T>)
    requires index == |done| && |done| + |xs| <= |init| == a.Length && a[..] == done + init[|done|..]
    modifies a
    ensures a[..] == (done + xs) + init[|done| + |xs|..]
  {
    forall t | 0 <= t < |xs| {
      a[index + t] := xs[t];
    }
    assert a[..] == (done + xs) + init[|done| + |xs|..] by {
      forall t | 0 <= t < a.Length ensures a[t] == ((done + xs) + init[|done| + |xs|..])[t] {
        if t < |done| {
          assert a[t] == old(a[..])[t];
        } else if t >= |done| + |xs| {
          assert a[t] == old(a[..])[t];
        }
      }
    }
  }

  /** The buffers rows, cols and vals hold the fields of the triplets ts in
      order, followed by what r0, c0 and v0 hold after |ts|. */
  predicate BuffersHold(rows: seq<int>, cols: seq<int>, vals: seq<real>, ts: seq<Triplet>,
                        r0: seq<int>, c0: seq<int>, v0: seq<real>)
  {
    && |ts| <= |r0| && |ts| <= |c0| && |ts| <= |v0|
    && rows == RowsOf(ts) + r0[|ts|..]
    && cols == ColsOf(ts) + c0[|ts|..]
    && vals == ValuesOf(ts) + v0[|ts|..]
  }

  /** The inner loop of create_matrix_constraint_coo_impl over one
      contact's entries: the triplets ts go to the three buffers right after
      the triplets done already written; the rest of the buffers stays. */
  method WriteTriplets(rows: array<int>, cols: array<int>, vals: array<real>, index: nat, ts: seq<Triplet>,
                       ghost done: seq<Triplet>, ghost r0: seq<int>, ghost c0: seq<int>, ghost v0: seq<real>)
    requires rows != cols && index == |done| && |done| + |ts| <= |r0| == |c0| == |v0|
    requires |r0| == rows.Length == cols.Length == vals.Length
    requires BuffersHold(rows[..], cols[..], vals[..], done, r0, c0, v0)
    modifies rows, cols, vals
    ensures BuffersHold(rows[..], cols[..], vals[..], done + ts, r0, c0, v0)
  {
    TripletFieldsAppend(done, ts);
    WriteAfter(rows, index, RowsOf(ts), RowsOf(done), r0);
    ghost var rowsNow := rows[..];
    WriteAfter(cols, index, ColsOf(ts), ColsOf(done), c0);
    ghost var colsNow := cols[..];
    WriteAfter(vals, index, ValuesOf(ts), ValuesOf(done), v0);
    assert rows[..] == rowsNow && cols[..] == colsNow;
  }

  /** The loop over the contacts of create_matrix_constraint_coo_impl: the
      triplets of contact ic (blocks[ic]) go to the buffers right after those
      of the contacts before it. */
  method FillTriplets(blocks: seq<seq<Triplet>>, rows: array<int>, cols: array<int>, vals: array<real>)
    requires rows != cols && |Flatten(blocks)| <= rows.Length == cols.Length == vals.Length
    modifies rows, cols, vals
    ensures BuffersHold(rows[..], cols[..], vals[..], Flatten(blocks), old(rows[..]), old(cols[..]), old(vals[..]))
  {
    ghost var initRows, initCols, initValues := rows[..], cols[..], vals[..];
    var index := 0;
    var ic := 0;
    assert blocks[..0] == [];
    while ic < |blocks|
      invariant 0 <= ic <= |blocks|
      invariant index == |Flatten(blocks[..ic])| <= rows.Length
      invariant BuffersHold(rows[..], cols[..], vals[..], Flatten(blocks[..ic]), initRows, initCols, initValues)
    {
      ghost var done := Flatten(blocks[..ic]);
      var ts := blocks[ic];
      FlattenStep(blocks, ic);
      FlattenMono(blocks, ic + 1, |blocks|);
      assert blocks[..|blocks|] == blocks;
      WriteTriplets(rows, cols, vals, index, ts, done, initRows, initCols, initValues);
      index := index + |ts|;
      ic := ic + 1;
    }
    assert blocks[..ic] == blocks;
  }

  /** The COO buffers rows, cols and vals hold the triplets ts in order,
      followed by what resizing r0, c0 and v0 to size left after them. */
  predicate CooFilled(ts: seq<Triplet>, size: nat, r0: seq<int>, c0: seq<int>, v0: seq<real>,
                      rows: seq<int>, cols: seq<int>, vals: seq<real>)
  {
    BuffersHold(rows, cols, vals, ts, Resized(r0, size, 0), Resized(c0, size, 0), Resized(v0, size, 0.0))
  }

  /** The body of create_matrix_constraint_coo_impl: the three buffers
      resized to 6 * number_row_matrix, then the triplets of every contact
      in order, on the rows the source gives them (MatrixSlots). The
      triplets must fit in the buffer: BufferAsWrittenOverflows shows a
      contact that does not. */
  method AssembleCoo(g: Geometry, asm: Assembly, contacts: seq<Contact>, gs: seq<real>, nneg: nat, nmin: nat,
                     oldRows: array<int>, oldCols: array<int>, oldValues: array<real>)
    returns (rows: array<int>, cols: array<int>, vals: array<real>)
    requires |contacts| == |gs| && AllIndexed(g, contacts)
    requires |TripletsUpTo(AsWritten, g, asm, contacts, gs, nneg, nmin, |gs|)| <= BufferAsWritten(RowCount(|gs|, nneg, nmin))
    ensures fresh(rows) && fresh(cols) && fresh(vals)
    ensures RowCount(|gs|, nneg, nmin) >= 0
    ensures CooFilled(TripletsUpTo(AsWritten, g, asm, contacts, gs, nneg, nmin, |gs|), BufferAsWritten(RowCount(|gs|, nneg, nmin)),
                      oldRows[..], oldCols[..], oldValues[..], rows[..], cols[..], vals[..])
  {
    var size := BufferAsWritten(RowCount(|gs|, nneg, nmin));
    rows := ResizedArray(oldRows, size, 0);
    cols := ResizedArray(oldCols, size, 0);
    vals := ResizedArray(oldValues, size, 0.0);
    var blocks := PerContact(AsWritten, g, asm, contacts, gs, nneg, nmin);
    assert blocks[..|gs|] == blocks;
    FillTriplets(blocks, rows, cols, vals);
  }

  /** The loop of update_gamma_impl over m_gamma_old resized to the size of
      gamma: decode the force of contact i with the running counters
      ind_gamma_neg and ind_gamma_min, then clamp and snap gamma_i - dt f. */
  method DecodeAndSnap(gs: seq<real>, law: Law, nneg: nat, nmin: nat, lambda: seq<real>, prev: seq<real>)
    returns (updated: seq<real>)
    requires DecodeInBounds(AsWritten, gs, law, nneg, nmin, |lambda|)
    ensures updated == UpdatedGamma(AsWritten, gs, law, nneg, nmin, lambda)
  {
    var n := |gs|;
    ghost var target := UpdatedGamma(AsWritten, gs, law, nneg, nmin, lambda);
    updated := Resized(prev, n, 0.0);
    var indNeg, indMin := 0, 0;
    var i := 0;
    while i < n
      invariant 0 <= i <= n && |updated| == n
      invariant indNeg == Before(gs, law, i, NegativeGamma) && indMin == Before(gs, law, i, Bonded)
      invariant forall k :: 0 <= k < i ==> updated[k] == target[k]
    {
      var g := UpdateOne(gs, law, nneg, nmin, lambda, i, indNeg, indMin);
      assert g == target[i];
      BeforeStep(gs, law, i, NegativeGamma);
      BeforeStep(gs, law, i, Bonded);
      if gs[i] != law.gammaMin {
        if gs[i] < -law.tol {
          indNeg := indNeg + 1;
        }
      } else {
        indMin := indMin + 1;
      }
      updated := updated[i := g];
      i := i + 1;
    }
  }

  /** One pass of the loop of update_gamma_impl: gamma_i - dt f_i, clamped and snapped. */
  method UpdateOne(gs: seq<real>, law: Law, nneg: nat, nmin: nat, lambda: seq<real>, i: nat, indNeg: nat, indMin: nat)
    returns (g: real)
    requires DecodeInBounds(AsWritten, gs, law, nneg, nmin, |lambda|) && i < |gs|
    requires indNeg == Before(gs, law, i, NegativeGamma) && indMin == Before(gs, law, i, Bonded)
    ensures g == UpdatedAt(AsWritten, gs, law, nneg, nmin, lambda, i)
  {
    var f := DecodeForce(gs, law, nneg, nmin, lambda, i, indNeg, indMin);
    g := ClampAndSnap(gs[i] - law.dt * f, law);
  }

  /** The contact force of contact i in update_gamma_impl: lambda(i) for a
      free contact, minus lambda(n - nmin + ind_gamma_neg) for a negative
      one, and the difference of the two normal rows of a bonded one. */
  method DecodeForce(gs: seq<real>, law: Law, nneg: nat, nmin: nat, lambda: seq<real>, i: nat, indNeg: nat, indMin: nat)
    returns (f: real)
    requires DecodeInBounds(AsWritten, gs, law, nneg, nmin, |lambda|) && i < |gs|
    requires indNeg == Before(gs, law, i, NegativeGamma) && indMin == Before(gs, law, i, Bonded)
    ensures f == Force(AsWritten, gs, law, nneg, nmin, lambda, i)
  {
    DecodeSlotsByCounters(gs, law, nneg, nmin, i, indNeg, indMin);
    assert SlotsWithin(DecodePlacement(AsWritten, gs, law, nneg, nmin, i), |lambda|);
    var n := |gs|;
    if gs[i] != law.gammaMin {
      if gs[i] < -law.tol {
        f := lambda[i] - lambda[n - nmin + indNeg];
      } else {
        f := lambda[i];
      }
    } else {
      f := lambda[n - nmin + nneg + 4 * indMin] - lambda[n - nmin + nneg + 4 * nmin + 4 * indMin];
    }
  }

  /** The clamp of gamma - dt f to [gammaMin, 0] and the two snaps that
      follow it in update_gamma_impl. */
  method ClampAndSnap(x: real, law: Law) returns (g: real)
    ensures g == Snap(x, law)
  {
    g := Max(law.gammaMin, if 0.0 < x then 0.0 else x);
    if g - law.gammaMin < law.tol {
      g := law.gammaMin;
    }
    if g > -law.tol {
      g := 0.0;
    }
  }

  /** The body of create_vector_distances_impl: a zero vector of the row
      count, then the loop over the contacts with its running counters
      index_dry and index_friciton. Every slot it writes must lie in the
      vector: MirrorRowOutOfRange shows a mirror that does not. */
  method FillDistances(contacts: seq<Contact>, gs: seq<real>, law: Law, nneg: nat, nmin: nat) returns (d: array<real>)
    requires |contacts| == |gs| && DistanceInBounds(AsWritten, gs, law, nneg, nmin)
    ensures fresh(d) && d[..] == DistancesUpTo(AsWritten, contacts, gs, law, nneg, nmin, |gs|)
  {
    var n := |contacts|;
    d := new real[RowCount(n, nneg, nmin)](_ => 0.0);
    assert d[..] == DistancesUpTo(AsWritten, contacts, gs, law, nneg, nmin, 0);
    var indexDry, indexFriction := 0, 0;
    var i := 0;
    while i < n
      invariant 0 <= i <= n
      invariant indexDry == DryBefore(gs, law, i) && indexFriction == Before(gs, law, i, Bonded)
      invariant d[..] == DistancesUpTo(AsWritten, contacts, gs, law, nneg, nmin, i)
    {
      WriteContactDistance(d, gs, law, nneg, nmin, i, indexDry, indexFriction, contacts[i].dij);
      BeforeStep(gs, law, i, Bonded);
      if gs[i] != law.gammaMin {
        indexDry := indexDry + 1;
      } else {
        indexFriction := indexFriction + 1;
      }
      i := i + 1;
    }
  }

  /** The writes of contact i in create_vector_distances_impl, addressed by
      the running counters: the gap at index_dry and, for a negative
      contact, its negation at n - nmin + index_dry; for a bonded contact
      the gap and its negation at the heads of its two blocks. */
  method WriteContactDistance(d: array<real>, gs: seq<real>, law: Law, nneg: nat, nmin: nat, i: nat,
                              indexDry: nat, indexFriction: nat, dij: real)
    requires i < |gs| && indexDry == DryBefore(gs, law, i) && indexFriction == Before(gs, law, i, Bonded)
    requires d.Length == RowCount(|gs|, nneg, nmin) && DistanceInBounds(AsWritten, gs, law, nneg, nmin)
    modifies d
    ensures d[..] == WriteSlots(old(d[..]), DistancePlacement(AsWritten, gs, law, nneg, nmin, i), dij)
  {
    DistanceSlotsByCounters(gs, law, nneg, nmin, i, indexDry, indexFriction);
    assert SlotsWithin(DistancePlacement(AsWritten, gs, law, nneg, nmin, i), d.Length);
    var n := |gs|;
    var base := n - nmin + nneg;
    if gs[i] != law.gammaMin {
      d[indexDry] := dij;
      if gs[i] < -law.tol {
        d[n - nmin + indexDry] := -dij;
      }
    } else {
      d[base + 4 * indexFriction] := dij;
      d[base + 4 * nmin + 4 * indexFriction] := -dij;
    }
  }

  class ViscousWithFriction {
    /** m_nparticles, the time step m_dt and the tolerance m_tol of the viscous base class. */
    const nparticles: nat
    const dt: real
    const tol: real
    /** m_gamma_min and the friction coefficient m_mu. */
    const gammaMin: real := -3.0
    const mu: real := 0.1

    /** m_gamma, as set_gamma_base leaves it, and m_gamma_old, as update_gamma_impl computes it. */
    var gamma: seq<real>
    var gammaOld: seq<real>
    var contactsOld: seq<Contact>
    /** m_nb_gamma_neg and m_nb_gamma_min. */
    var nbGammaNeg: nat
    var nbGammaMin: nat
    /** The COO buffers m_A_rows, m_A_cols, m_A_values and m_distances. */
    var aRows: array<int>
    var aCols: array<int>
    var aValues: array<real>
    var distances: array<real>
    /** The answer of should_solve, which the problem base class keeps and
        sets; that class is not part of this model. */
    var shouldSolve: bool

    function LawOf(): Law {
      Law(gammaMin, tol, dt)
    }

    function AssemblyOf(firstCol: int): Assembly {
      Assembly(LawOf(), mu, firstCol, nparticles)
    }

    /** The counters agree with gamma. */
    ghost predicate Valid()
      reads this
    {
      Consistent(gamma, LawOf(), nbGammaNeg, nbGammaMin)
    }

    /** The constructor: gamma_min = -3 and mu = 0.1; the counters start at 0. */
    constructor(nparticles: nat, dt: real, tol: real)
      ensures this.nparticles == nparticles && this.dt == dt && this.tol == tol
      ensures gammaMin == -3.0 && mu == 0.1
      ensures gamma == [] && gammaOld == [] && contactsOld == []
      ensures nbGammaNeg == 0 && nbGammaMin == 0 && Valid()
      ensures aRows.Length == 0 && aCols.Length == 0 && aValues.Length == 0 && distances.Length == 0
    {
      this.nparticles := nparticles;
      this.dt := dt;
      this.tol := tol;
      gamma, gammaOld, contactsOld := [], [], [];
      nbGammaNeg, nbGammaMin := 0, 0;
      aRows := new int[0];
      aCols := new int[0];
      aValues := new real[0];
      distances := new real[0];
    }

    /** set_gamma: takes the gamma that set_gamma_base produced for the new
        contacts and counts the negative (-tol > gamma > gammaMin) and the
        bonded (gamma == gammaMin) entries. */
    method SetGamma(newGamma: seq<real>)
      modifies this
      ensures gamma == newGamma && Valid()
      ensures nbGammaNeg == CountNegative(newGamma, LawOf()) && nbGammaMin == CountRegime(newGamma, LawOf(), Bonded)
      ensures nbGammaNeg + nbGammaMin <= |newGamma|
      ensures gammaOld == old(gammaOld) && contactsOld == old(contactsOld)
      ensures aRows == old(aRows) && aCols == old(aCols) && aValues == old(aValues) && distances == old(distances)
      ensures shouldSolve == old(shouldSolve)
    {
      gamma := newGamma;
      nbGammaNeg := 0;
      nbGammaMin := 0;
      var k := 0;
      while k < |gamma|
        invariant 0 <= k <= |gamma| && gamma == newGamma
        invariant nbGammaNeg == CountNegative(gamma[..k], LawOf())
        invariant nbGammaMin == CountRegime(gamma[..k], LawOf(), Bonded)
        invariant gammaOld == old(gammaOld) && contactsOld == old(contactsOld)
        invariant aRows == old(aRows) && aCols == old(aCols) && aValues == old(aValues) && distances == old(distances)
        invariant shouldSolve == old(shouldSolve)
      {
        assert gamma[..k + 1][..k] == gamma[..k];
        var g := gamma[k];
        if g < -tol && g > gammaMin {
          nbGammaNeg := nbGammaNeg + 1;
        } else if g == gammaMin {
          nbGammaMin := nbGammaMin + 1;
        }
        k := k + 1;
      }
      assert gamma[..k] == gamma;
      CountsBounded(gamma, LawOf());
    }

    /** number_row_matrix_impl: the rows of the constraint matrix. With
        counters that agree with gamma, at least one row per contact, and with
        every gamma at least gammaMin exactly the rows the regimes allocate. */
    function NumberRowMatrix(contacts: seq<Contact>): (r: int)
      reads this
      ensures Valid() && |contacts| == |gamma| ==> r == |contacts| + nbGammaNeg + 7 * nbGammaMin >= |contacts|
      ensures Valid() && |contacts| == |gamma| && AboveMin(gamma, LawOf()) ==> r == SumRows(gamma, LawOf())
    {
      RowCountFacts(gamma, LawOf(), nbGammaNeg, nbGammaMin);
      RowCount(|contacts|, nbGammaNeg, nbGammaMin)
    }

    /** get_nb_gamma_min_impl: the number of bonded contacts. */
    function GetNbGammaMin(): (r: nat)
      reads this
      ensures Valid() ==> r == CountRegime(gamma, LawOf(), Bonded)
    {
      nbGammaMin
    }

    /** update_gamma_impl: decodes the force of every contact from the
        number_row_matrix multipliers, at the rows the source reads them
        (DecodeSlots), and stores the snapped new bond strengths in
        m_gamma_old (resized to the size of gamma); remembers the contacts. */
    method UpdateGamma(contacts: seq<Contact>, lambda: seq<real>)
      requires |contacts| == |gamma| && Valid() && AboveMin(gamma, LawOf())
      requires |lambda| == NumberRowMatrix(contacts)
      modifies this
      ensures gamma == old(gamma) && nbGammaNeg == old(nbGammaNeg) && nbGammaMin == old(nbGammaMin)
      ensures contactsOld == contacts
      ensures DecodeInBounds(AsWritten, gamma, LawOf(), nbGammaNeg, nbGammaMin, |lambda|)
      ensures gammaOld == UpdatedGamma(AsWritten, gamma, LawOf(), nbGammaNeg, nbGammaMin, lambda)
      ensures forall k :: 0 <= k < |gammaOld| ==> gammaMin <= gammaOld[k] <= 0.0
      ensures aRows == old(aRows) && aCols == old(aCols) && aValues == old(aValues) && distances == old(distances)
      ensures shouldSolve == old(shouldSolve)
    {
      contactsOld := contacts;
      DecodeInBoundsAtRowCount(AsWritten, gamma, LawOf(), nbGammaNeg, nbGammaMin, |lambda|);
      gammaOld := DecodeAndSnap(gamma, LawOf(), nbGammaNeg, nbGammaMin, lambda, gammaOld);
      UpdatedGammaInRange(AsWritten, gamma, LawOf(), nbGammaNeg, nbGammaMin, lambda);
    }

    /** create_vector_distances_impl: a zero vector of number_row_matrix
        entries with the gap of every contact at the rows the source writes
        (DistanceSlots), which must lie in the vector. */
    method CreateVectorDistances(contacts: seq<Contact>)
      requires |contacts| == |gamma| && DistanceInBounds(AsWritten, gamma, LawOf(), nbGammaNeg, nbGammaMin)
      modifies this
      ensures gamma == old(gamma) && gammaOld == old(gammaOld) && contactsOld == old(contactsOld)
      ensures nbGammaNeg == old(nbGammaNeg) && nbGammaMin == old(nbGammaMin)
      ensures fresh(distances)
      ensures distances[..] == DistancesUpTo(AsWritten, contacts, gamma, LawOf(), nbGammaNeg, nbGammaMin, |contacts|)
      ensures distances.Length == RowCount(|contacts|, nbGammaNeg, nbGammaMin)
      ensures aRows == old(aRows) && aCols == old(aCols) && aValues == old(aValues) && shouldSolve == old(shouldSolve)
    {
      distances := FillDistances(contacts, gamma, LawOf(), nbGammaNeg, nbGammaMin);
    }

    /** create_matrix_constraint_coo_impl: resizes the three COO buffers to
        6 * number_row_matrix and writes the triplets of every contact in
        order, at the rows the source gives them (MatrixSlots); the triplets
        must fit in the buffers, and the part past the last triplet keeps
        what resize left there. */
    method CreateMatrixConstraintCoo(g: Geometry, contacts: seq<Contact>, firstCol: int)
      requires |contacts| == |gamma| && AllIndexed(g, contacts)
      requires |TripletsUpTo(AsWritten, g, AssemblyOf(firstCol), contacts, gamma, nbGammaNeg, nbGammaMin, |contacts|)|
               <= BufferAsWritten(RowCount(|contacts|, nbGammaNeg, nbGammaMin))
      modifies this`aRows, this`aCols, this`aValues
      ensures RowCount(|contacts|, nbGammaNeg, nbGammaMin) >= 0
      ensures CooFilled(TripletsUpTo(AsWritten, g, AssemblyOf(firstCol), contacts, gamma, nbGammaNeg, nbGammaMin, |contacts|),
                        BufferAsWritten(RowCount(|contacts|, nbGammaNeg, nbGammaMin)),
                        old(aRows[..]), old(aCols[..]), old(aValues[..]), aRows[..], aCols[..], aValues[..])
      ensures fresh(aRows) && fresh(aCols) && fresh(aValues)
    {
      var asm, gs, nneg, nmin := AssemblyOf(firstCol), gamma, nbGammaNeg, nbGammaMin;
      var rows, cols, vals := AssembleCoo(g, asm, contacts, gs, nneg, nmin, aRows, aCols, aValues);
      aRows, aCols, aValues := rows, cols, vals;
    }
  }
}
