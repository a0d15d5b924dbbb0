/** The regime bookkeeping of the viscous-with-friction contact law
    (include/scopi/problems/ViscousWithFriction.hpp): every contact carries a
    persistent bond strength gamma in [gammaMin, 0], which puts it in one of
    three regimes, and the regime decides how many rows of the constraint
    matrix the contact owns and where they are.

    Three different conventions place those rows: the matrix assembly, the
    distances vector and the decoding of the multipliers. They are written
    out here side by side with the packing that the row count implies, and
    the lemmas say when they agree. A Layout selects one or the other: the
    methods compute AsWritten, the structural facts are proved for Packed,
    and the agreement lemmas carry them over where the two coincide. */
module ViscousRegimes {
  import opened LinAlg

  /** A contact from the detection stage (neighbor<dim>): particle indices i
      and j, the contact points pi and pj, the unit normal nij and the signed
      gap dij. */
  datatype Contact = Contact(i: nat, j: nat, pi: Vec3, pj: Vec3, nij: Vec3, dij: real)

  /** The constants of the law: gammaMin (-3 in the source), the snapping
      tolerance tol of the viscous base class, and the time step dt. */
  datatype Law = Law(gammaMin: real, tol: real, dt: real)

  datatype Regime = Free | NegativeGamma | Bonded

  /** The classification that the assembly, the distances and the decoding
      use: gamma == gammaMin is bonded, otherwise gamma < -tol is negative. */
  function RegimeOf(g: real, law: Law): Regime {
    if g != law.gammaMin then (if g < -law.tol then NegativeGamma else Free) else Bonded
  }

  /** The criterion of set_gamma's first counter, gamma < -tol && gamma > gammaMin. */
  predicate CountedNegative(g: real, law: Law) {
    g < -law.tol && g > law.gammaMin
  }

  /** The number of entries that set_gamma counts into m_nb_gamma_neg. */
  function CountNegative(gs: seq<real>, law: Law): (r: nat)
    ensures r <= |gs|
    decreases |gs|
  {
    if |gs| == 0 then 0
    else CountNegative(gs[..|gs| - 1], law) + (if CountedNegative(gs[|gs| - 1], law) then 1 else 0)
  }

  /** The number of entries in regime r. */
  function CountRegime(gs: seq<real>, law: Law, r: Regime): (c: nat)
    ensures c <= |gs|
    decreases |gs|
  {
    if |gs| == 0 then 0
    else CountRegime(gs[..|gs| - 1], law, r) + (if RegimeOf(gs[|gs| - 1], law) == r then 1 else 0)
  }

  /** The number of contacts before position i that are in regime r: this is
      what the running counters ind_gamma_neg, ind_gamma_min, index_dry and
      index_friciton of the source hold. */
  function Before(gs: seq<real>, law: Law, i: nat, r: Regime): (c: nat)
    requires i <= |gs|
    ensures c <= i
  {
    CountRegime(gs[..i], law, r)
  }

  /** The number of non-bonded contacts before position i (index_dry). */
  function DryBefore(gs: seq<real>, law: Law, i: nat): nat
    requires i <= |gs|
  {
    i - Before(gs, law, i, Bonded)
  }

  /** The counters set_gamma leaves in m_nb_gamma_neg and m_nb_gamma_min. */
  ghost predicate Consistent(gs: seq<real>, law: Law, nneg: nat, nmin: nat) {
    nneg == CountNegative(gs, law) && nmin == CountRegime(gs, law, Bonded)
  }

  /** An entry that the assembly treats as negative-gamma but that set_gamma
      does not count: gamma below gammaMin. */
  predicate Undercounted(g: real, law: Law) {
    RegimeOf(g, law) == NegativeGamma && !CountedNegative(g, law)
  }

  /** Every gamma is at least gammaMin, the invariant the update maintains. */
  ghost predicate AboveMin(gs: seq<real>, law: Law) {
    forall k :: 0 <= k < |gs| ==> gs[k] >= law.gammaMin
  }

  // ---------------------------------------------------------------------
  // Counting

  lemma {:induction false} CountsBounded(gs: seq<real>, law: Law)
    ensures CountNegative(gs, law) + CountRegime(gs, law, Bonded) <= |gs|
    decreases |gs|
  {
    if |gs| > 0 {
      CountsBounded(gs[..|gs| - 1], law);
    }
  }

  /** The three regimes partition the contacts. */
  lemma {:induction false} RegimesPartition(gs: seq<real>, law: Law)
    ensures CountRegime(gs, law, Free) + CountRegime(gs, law, NegativeGamma) + CountRegime(gs, law, Bonded) == |gs|
    decreases |gs|
  {
    if |gs| > 0 {
      RegimesPartition(gs[..|gs| - 1], law);
    }
  }

  /** set_gamma never counts more negative contacts than the assembly sees,
      and it counts exactly as many iff no gamma lies below gammaMin (and
      below -tol). */
  lemma {:induction false} NegativeCountMatches(gs: seq<real>, law: Law)
    ensures CountNegative(gs, law) <= CountRegime(gs, law, NegativeGamma)
    ensures CountNegative(gs, law) == CountRegime(gs, law, NegativeGamma)
            <==> forall k :: 0 <= k < |gs| ==> !Undercounted(gs[k], law)
    decreases |gs|
  {
    if |gs| > 0 {
      var init := gs[..|gs| - 1];
      NegativeCountMatches(init, law);
      assert forall k :: 0 <= k < |init| ==> init[k] == gs[k];
      if CountNegative(gs, law) == CountRegime(gs, law, NegativeGamma) {
        assert !Undercounted(gs[|gs| - 1], law);
        assert CountNegative(init, law) == CountRegime(init, law, NegativeGamma);
      }
    }
  }

  lemma NoUndercountAboveMin(gs: seq<real>, law: Law)
    requires AboveMin(gs, law)
    ensures forall k :: 0 <= k < |gs| ==> !Undercounted(gs[k], law)
  {
  }

  /** Before(i + 1) adds contact i. */
  lemma BeforeStep(gs: seq<real>, law: Law, i: nat, r: Regime)
    requires i < |gs|
    ensures Before(gs, law, i + 1, r) == Before(gs, law, i, r) + (if RegimeOf(gs[i], law) == r then 1 else 0)
  {
    assert gs[..i + 1][..i] == gs[..i];
  }

  /** Between positions i and j the count grows by at most j - i, and by at
      least one when contact i is itself in regime r. */
  lemma {:induction false} BeforeMono(gs: seq<real>, law: Law, i: nat, j: nat, r: Regime)
    requires i <= j <= |gs|
    ensures Before(gs, law, i, r) <= Before(gs, law, j, r) <= Before(gs, law, i, r) + (j - i)
    ensures i < j && RegimeOf(gs[i], law) == r ==> Before(gs, law, i, r) + 1 <= Before(gs, law, j, r)
    ensures i < j && RegimeOf(gs[i], law) != r ==> Before(gs, law, j, r) <= Before(gs, law, i, r) + (j - i) - 1
    decreases j - i
  {
    if i < j {
      BeforeStep(gs, law, i, r);
      BeforeMono(gs, law, i + 1, j, r);
    }
  }

  lemma BeforeAll(gs: seq<real>, law: Law, r: Regime)
    ensures Before(gs, law, |gs|, r) == CountRegime(gs, law, r)
  {
    assert gs[..|gs|] == gs;
  }

  /** A contact in regime r is preceded by fewer than CountRegime(r)
      contacts of that regime. */
  lemma BeforeBelowTotal(gs: seq<real>, law: Law, i: nat)
    requires i < |gs|
    ensures Before(gs, law, i, RegimeOf(gs[i], law)) < CountRegime(gs, law, RegimeOf(gs[i], law))
  {
    BeforeMono(gs, law, i, |gs|, RegimeOf(gs[i], law));
    BeforeAll(gs, law, RegimeOf(gs[i], law));
  }

  /** The regimes partition every prefix as well. */
  lemma BeforePartition(gs: seq<real>, law: Law, i: nat)
    requires i <= |gs|
    ensures Before(gs, law, i, Free) + Before(gs, law, i, NegativeGamma) + Before(gs, law, i, Bonded) == i
  {
    RegimesPartition(gs[..i], law);
  }

  /** A non-bonded contact is preceded by fewer than n - nmin non-bonded ones. */
  lemma DryBelowTotal(gs: seq<real>, law: Law, i: nat)
    requires i < |gs| && RegimeOf(gs[i], law) != Bonded
    ensures DryBefore(gs, law, i) < |gs| - CountRegime(gs, law, Bonded)
  {
    BeforeMono(gs, law, i, |gs|, Bonded);
    BeforeAll(gs, law, Bonded);
  }

  // ---------------------------------------------------------------------
  // Row count

  /** number_row_matrix_impl and the length of m_distances:
      n - nmin + nneg + 2*4*nmin. */
  function RowCount(n: nat, nneg: nat, nmin: nat): int {
    n - nmin + nneg + 2 * 4 * nmin
  }

  /** The first row of the bonded block, n - nmin + nneg. */
  function Base(n: nat, nneg: nat, nmin: nat): int {
    n - nmin + nneg
  }

  /** With counters that set_gamma computed, nmin <= n, so the unsigned
      subtraction n - nmin cannot wrap, and the row count is at least the
      number of contacts: n + nneg + 7 nmin. */
  lemma RowCountBounds(gs: seq<real>, law: Law, nneg: nat, nmin: nat)
    requires Consistent(gs, law, nneg, nmin)
    ensures nmin + nneg <= |gs|
    ensures RowCount(|gs|, nneg, nmin) == |gs| + nneg + 7 * nmin
    ensures RowCount(|gs|, nneg, nmin) >= |gs|
  {
    CountsBounded(gs, law);
  }

  /** The facts about the row count, stated for any counters. */
  lemma RowCountFacts(gs: seq<real>, law: Law, nneg: nat, nmin: nat)
    ensures Consistent(gs, law, nneg, nmin) ==> nmin + nneg <= |gs| && RowCount(|gs|, nneg, nmin) == |gs| + nneg + 7 * nmin
    ensures Consistent(gs, law, nneg, nmin) && AboveMin(gs, law) ==> RowCount(|gs|, nneg, nmin) == SumRows(gs, law)
  {
    if Consistent(gs, law, nneg, nmin) {
      RowCountBounds(gs, law, nneg, nmin);
      if AboveMin(gs, law) {
        NoUndercountAboveMin(gs, law);
        RowCountIsSumOfAllocations(gs, law, nneg, nmin);
      }
    }
  }

  /** The rows a regime owns: 1 for a free contact, 2 for a negative-gamma
      contact (the constraint and its mirror), 8 for a bonded contact (two
      normal rows, each followed by three friction rows). */
  function RowsPerContact(r: Regime): nat {
    match r
    case Free => 1
    case NegativeGamma => 2
    case Bonded => 8
  }

  function SumRows(gs: seq<real>, law: Law): nat
    decreases |gs|
  {
    if |gs| == 0 then 0 else SumRows(gs[..|gs| - 1], law) + RowsPerContact(RegimeOf(gs[|gs| - 1], law))
  }

  /** The row count is the sum of the per-regime allocations exactly when set_gamma's
      negative counter agrees with the assembly's classification. */
  lemma {:induction false} SumRowsByRegime(gs: seq<real>, law: Law)
    ensures SumRows(gs, law) == CountRegime(gs, law, Free) + 2 * CountRegime(gs, law, NegativeGamma)
                                + 8 * CountRegime(gs, law, Bonded)
    decreases |gs|
  {
    if |gs| > 0 {
      SumRowsByRegime(gs[..|gs| - 1], law);
    }
  }

  lemma RowCountIsSumOfAllocations(gs: seq<real>, law: Law, nneg: nat, nmin: nat)
    requires Consistent(gs, law, nneg, nmin)
    ensures RowCount(|gs|, nneg, nmin) == SumRows(gs, law)
            <==> forall k :: 0 <= k < |gs| ==> !Undercounted(gs[k], law)
  {
    SumRowsByRegime(gs, law);
    RegimesPartition(gs, law);
    NegativeCountMatches(gs, law);
  }

  // ---------------------------------------------------------------------
  // Row placement: the three conventions of the source and the packing

  /** Where a contact's rows go: a free contact owns one row; a negative
      contact owns a row and its mirror; a bonded contact owns two normal
      rows, row and mirror, each followed by three friction rows. */
  datatype Slots = Single(row: int) | Pair(row: int, mirror: int)

  /** The matrix assembly (create_matrix_constraint_coo_impl) places every
      contact by its overall position ic: row ic, mirror n - nmin + ic (:62,
      :68), bonded rows base + 4 ic and base + 4 nmin + 4 ic (:146, :151). */
  function MatrixSlots(gs: seq<real>, law: Law, nneg: nat, nmin: nat, i: nat): Slots
    requires i < |gs|
  {
    var n := |gs|;
    match RegimeOf(gs[i], law)
    case Free => Single(i)
    case NegativeGamma => Pair(i, n - nmin + i)
    case Bonded => Pair(Base(n, nneg, nmin) + 4 * i, Base(n, nneg, nmin) + 4 * nmin + 4 * i)
  }

  /** create_vector_distances_impl counts non-bonded contacts (index_dry) and
      bonded ones (index_friciton): row index_dry, mirror n - nmin +
      index_dry (:391, :394), bonded rows base + 4 k and base + 4 nmin + 4 k (:400-401). */
  function DistanceSlots(gs: seq<real>, law: Law, nneg: nat, nmin: nat, i: nat): Slots
    requires i < |gs|
  {
    var n := |gs|;
    var k := Before(gs, law, i, Bonded);
    match RegimeOf(gs[i], law)
    case Free => Single(DryBefore(gs, law, i))
    case NegativeGamma => Pair(DryBefore(gs, law, i), n - nmin + DryBefore(gs, law, i))
    case Bonded => Pair(Base(n, nneg, nmin) + 4 * k, Base(n, nneg, nmin) + 4 * nmin + 4 * k)
  }

  /** update_gamma_impl reads the row i (:356), the mirror n - nmin +
      ind_gamma_neg (:351) and the bonded rows base + 4 ind_gamma_min and base + 4 nmin + 4
      ind_gamma_min (:361-362). */
  function DecodeSlots(gs: seq<real>, law: Law, nneg: nat, nmin: nat, i: nat): Slots
    requires i < |gs|
  {
    var n := |gs|;
    var k := Before(gs, law, i, Bonded);
    match RegimeOf(gs[i], law)
    case Free => Single(i)
    case NegativeGamma => Pair(i, n - nmin + Before(gs, law, i, NegativeGamma))
    case Bonded => Pair(Base(n, nneg, nmin) + 4 * k, Base(n, nneg, nmin) + 4 * nmin + 4 * k)
  }

  /** The packing that the row count n - nmin + nneg + 8 nmin implies: the
      non-bonded rows first in contact order, then the mirrors of the
      negative contacts, then the bonded blocks. */
  function PackedSlots(gs: seq<real>, law: Law, nneg: nat, nmin: nat, i: nat): Slots
    requires i < |gs|
  {
    var n := |gs|;
    var k := Before(gs, law, i, Bonded);
    match RegimeOf(gs[i], law)
    case Free => Single(DryBefore(gs, law, i))
    case NegativeGamma => Pair(DryBefore(gs, law, i), n - nmin + Before(gs, law, i, NegativeGamma))
    case Bonded => Pair(Base(n, nneg, nmin) + 4 * k, Base(n, nneg, nmin) + 4 * nmin + 4 * k)
  }

  /** Which placement a computation uses: the one the source's loop
      computes (a different one in the assembly, the distances and the
      decoding), or the packing. */
  datatype Layout = AsWritten | Packed

  /** The rows create_matrix_constraint_coo_impl gives contact i. */
  function MatrixPlacement(layout: Layout, gs: seq<real>, law: Law, nneg: nat, nmin: nat, i: nat): Slots
    requires i < |gs|
  {
    if layout == AsWritten then MatrixSlots(gs, law, nneg, nmin, i) else PackedSlots(gs, law, nneg, nmin, i)
  }

  /** The slots create_vector_distances_impl writes for contact i. */
  function DistancePlacement(layout: Layout, gs: seq<real>, law: Law, nneg: nat, nmin: nat, i: nat): Slots
    requires i < |gs|
  {
    if layout == AsWritten then DistanceSlots(gs, law, nneg, nmin, i) else PackedSlots(gs, law, nneg, nmin, i)
  }

  /** The multipliers update_gamma_impl reads for contact i. */
  function DecodePlacement(layout: Layout, gs: seq<real>, law: Law, nneg: nat, nmin: nat, i: nat): Slots
    requires i < |gs|
  {
    if layout == AsWritten then DecodeSlots(gs, law, nneg, nmin, i) else PackedSlots(gs, law, nneg, nmin, i)
  }

  /** Every row a contact owns under a placement, friction rows included. */
  function OwnedRows(s: Slots, r: Regime): set<int> {
    match s
    case Single(a) => {a}
    case Pair(a, b) =>
      if r == Bonded then {a, a + 1, a + 2, a + 3, b, b + 1, b + 2, b + 3} else {a, b}
  }

  predicate Within(rows: set<int>, count: int) {
    forall x :: x in rows ==> 0 <= x < count
  }

  /** Negative contacts form a prefix of the contact list. */
  ghost predicate NegativePrefix(gs: seq<real>, law: Law) {
    forall i, j :: 0 <= i < j < |gs| && RegimeOf(gs[j], law) == NegativeGamma ==> RegimeOf(gs[i], law) == NegativeGamma
  }

  /** The packing puts every row of every contact inside the n - nmin + nneg + 8 nmin rows. */
  lemma PackedSlotsInBounds(gs: seq<real>, law: Law, nneg: nat, nmin: nat, i: nat)
    requires Consistent(gs, law, nneg, nmin) && AboveMin(gs, law) && i < |gs|
    ensures Within(OwnedRows(PackedSlots(gs, law, nneg, nmin, i), RegimeOf(gs[i], law)), RowCount(|gs|, nneg, nmin))
  {
    RowCountBounds(gs, law, nneg, nmin);
    NoUndercountAboveMin(gs, law);
    NegativeCountMatches(gs, law);
    BeforeBelowTotal(gs, law, i);
    if RegimeOf(gs[i], law) != Bonded {
      DryBelowTotal(gs, law, i);
    }
  }

  /** The rows of a placement: one or four rows from the row on, and as
      many from the mirror on. */
  lemma OwnedRowsSpan(s: Slots, r: Regime, x: int)
    requires x in OwnedRows(s, r)
    ensures var w := if r == Bonded && s.Pair? then 4 else 1;
            (s.row <= x < s.row + w) || (s.Pair? && s.mirror <= x < s.mirror + w)
  {
  }

  /** Rows of the packing belong to one of four consecutive blocks, and
      within a block the position grows strictly with the contact index. */
  lemma PackedSlotsDisjoint(gs: seq<real>, law: Law, nneg: nat, nmin: nat, i: nat, j: nat)
    requires Consistent(gs, law, nneg, nmin) && AboveMin(gs, law)
    requires i < j < |gs|
    ensures OwnedRows(PackedSlots(gs, law, nneg, nmin, i), RegimeOf(gs[i], law))
            !! OwnedRows(PackedSlots(gs, law, nneg, nmin, j), RegimeOf(gs[j], law))
  {
    var ri, rj := RegimeOf(gs[i], law), RegimeOf(gs[j], law);
    var pi, pj := PackedSlots(gs, law, nneg, nmin, i), PackedSlots(gs, law, nneg, nmin, j);
    // every row of a contact, by block: dry rows below n - nmin, mirrors
    // below base, bonded rows from base on
    PackedBlocks(gs, law, nneg, nmin, i);
    PackedBlocks(gs, law, nneg, nmin, j);
    PackedOrder(gs, law, nneg, nmin, i, j);
    forall x | x in OwnedRows(pi, ri) ensures x !in OwnedRows(pj, rj) {
      OwnedRowsSpan(pi, ri, x);
      if x in OwnedRows(pj, rj) {
        OwnedRowsSpan(pj, rj, x);
      }
    }
  }

  /** Within a block the packed position grows with the contact index. */
  lemma PackedOrder(gs: seq<real>, law: Law, nneg: nat, nmin: nat, i: nat, j: nat)
    requires i < j < |gs|
    ensures var ri, rj := RegimeOf(gs[i], law), RegimeOf(gs[j], law);
            var pi, pj := PackedSlots(gs, law, nneg, nmin, i), PackedSlots(gs, law, nneg, nmin, j);
            && (ri != Bonded && rj != Bonded ==> pi.row < pj.row)
            && (ri == NegativeGamma && rj == NegativeGamma ==> pi.mirror < pj.mirror)
            && (ri == Bonded && rj == Bonded ==> pi.row + 4 <= pj.row && pi.mirror + 4 <= pj.mirror)
  {
    BeforeMono(gs, law, i, j, Bonded);
    BeforeMono(gs, law, i, j, NegativeGamma);
  }

  /** Where the packed rows of one contact lie. */
  lemma PackedBlocks(gs: seq<real>, law: Law, nneg: nat, nmin: nat, i: nat)
    requires Consistent(gs, law, nneg, nmin) && AboveMin(gs, law) && i < |gs|
    ensures var n, base, s := |gs|, Base(|gs|, nneg, nmin), PackedSlots(gs, law, nneg, nmin, i);
            match RegimeOf(gs[i], law)
            case Free => s.Single? && 0 <= s.row < n - nmin
            case NegativeGamma => s.Pair? && 0 <= s.row < n - nmin <= s.mirror < base
            case Bonded => s.Pair? && base <= s.row && s.row + 4 <= base + 4 * nmin <= s.mirror
                           && s.mirror + 4 <= base + 8 * nmin
  {
    RowCountBounds(gs, law, nneg, nmin);
    NoUndercountAboveMin(gs, law);
    NegativeCountMatches(gs, law);
    BeforeBelowTotal(gs, law, i);
    if RegimeOf(gs[i], law) != Bonded {
      DryBelowTotal(gs, law, i);
    }
  }

  // ---------------------------------------------------------------------
  // When the three conventions agree

  lemma CountZeroNone(gs: seq<real>, law: Law, r: Regime, k: nat)
    requires CountRegime(gs, law, r) == 0 && k < |gs|
    ensures RegimeOf(gs[k], law) != r
  {
    BeforeBelowTotal(gs, law, k);
  }

  lemma CountFullAll(gs: seq<real>, law: Law, r: Regime, k: nat)
    requires CountRegime(gs, law, r) == |gs| && k < |gs|
    ensures RegimeOf(gs[k], law) == r
  {
    if RegimeOf(gs[k], law) != r {
      BeforeMono(gs, law, k, |gs|, r);
      BeforeAll(gs, law, r);
    }
  }

  lemma {:induction false} BeforeAllSame(gs: seq<real>, law: Law, r: Regime, i: nat)
    requires i <= |gs|
    requires forall k :: 0 <= k < i ==> RegimeOf(gs[k], law) == r
    ensures Before(gs, law, i, r) == i
  {
    if i > 0 {
      BeforeAllSame(gs, law, r, i - 1);
      BeforeStep(gs, law, i - 1, r);
    }
  }

  lemma {:induction false} BeforeNone(gs: seq<real>, law: Law, r: Regime, i: nat)
    requires i <= |gs|
    requires forall k :: 0 <= k < i ==> RegimeOf(gs[k], law) != r
    ensures Before(gs, law, i, r) == 0
  {
    if i > 0 {
      BeforeNone(gs, law, r, i - 1);
      BeforeStep(gs, law, i - 1, r);
    }
  }

  /** The placements agree on contact i. */
  ghost predicate AgreeAt(gs: seq<real>, law: Law, nneg: nat, nmin: nat, i: nat)
    requires i < |gs|
  {
    MatrixSlots(gs, law, nneg, nmin, i) == DistanceSlots(gs, law, nneg, nmin, i)
    && DistanceSlots(gs, law, nneg, nmin, i) == DecodeSlots(gs, law, nneg, nmin, i)
  }

  /** With no bonded contact and the negative ones first, or with every
      contact bonded, matrix, distances and decoding put every contact on the
      same rows, and those are the packed rows. */
  lemma AgreeWhenOrdered(gs: seq<real>, law: Law, nneg: nat, nmin: nat, i: nat)
    requires nmin == CountRegime(gs, law, Bonded) && i < |gs|
    requires (nmin == 0 && NegativePrefix(gs, law)) || nmin == |gs|
    ensures AgreeAt(gs, law, nneg, nmin, i)
    ensures MatrixSlots(gs, law, nneg, nmin, i) == PackedSlots(gs, law, nneg, nmin, i)
  {
    if nmin == |gs| {
      forall k | 0 <= k < |gs| ensures RegimeOf(gs[k], law) == Bonded {
        CountFullAll(gs, law, Bonded, k);
      }
      BeforeAllSame(gs, law, Bonded, i);
    } else {
      forall k | 0 <= k < |gs| ensures RegimeOf(gs[k], law) != Bonded {
        CountZeroNone(gs, law, Bonded, k);
      }
      BeforeNone(gs, law, Bonded, i);
      if RegimeOf(gs[i], law) == NegativeGamma {
        BeforeAllSame(gs, law, NegativeGamma, i);
      }
    }
  }

  /** Conversely, whenever the contacts are not so ordered, some contact is
      placed differently by two of the conventions. */
  lemma DisagreeOtherwise(gs: seq<real>, law: Law, nneg: nat, nmin: nat)
    requires nmin == CountRegime(gs, law, Bonded)
    requires !((nmin == 0 && NegativePrefix(gs, law)) || nmin == |gs|)
    ensures exists i :: 0 <= i < |gs| && !AgreeAt(gs, law, nneg, nmin, i)
  {
    var n := |gs|;
    if nmin == 0 {
      var i, j :| 0 <= i < j < n && RegimeOf(gs[j], law) == NegativeGamma && RegimeOf(gs[i], law) != NegativeGamma;
      BeforeMono(gs, law, i, j, NegativeGamma);
      BeforeMono(gs, law, 0, i, NegativeGamma);
      assert Before(gs, law, 0, NegativeGamma) == 0;
      assert !AgreeAt(gs, law, nneg, nmin, j);
    } else {
      // 0 < nmin < n: there is a bonded contact and a non-bonded one.
      var b :| 0 <= b < n && RegimeOf(gs[b], law) == Bonded by {
        if forall k :: 0 <= k < n ==> RegimeOf(gs[k], law) != Bonded {
          BeforeNone(gs, law, Bonded, n);
          BeforeAll(gs, law, Bonded);
        }
      }
      var f :| 0 <= f < n && RegimeOf(gs[f], law) != Bonded by {
        if forall k :: 0 <= k < n ==> RegimeOf(gs[k], law) == Bonded {
          BeforeAllSame(gs, law, Bonded, n);
          BeforeAll(gs, law, Bonded);
        }
      }
      if b < f {
        // a bonded contact before a non-bonded one shifts index_dry below ic
        BeforeMono(gs, law, b, f, Bonded);
        assert !AgreeAt(gs, law, nneg, nmin, f);
      } else {
        // a non-bonded contact before a bonded one shifts index_friciton below ic
        BeforeMono(gs, law, f, b, Bonded);
        BeforeMono(gs, law, 0, f, Bonded);
        assert Before(gs, law, 0, Bonded) == 0;
        assert !AgreeAt(gs, law, nneg, nmin, b);
      }
    }
  }

  /** The three conventions coincide on every contact iff there is no bonded
      contact and the negative ones come first, or every contact is bonded. */
  lemma ConventionsAgreeIff(gs: seq<real>, law: Law, nneg: nat, nmin: nat)
    requires nmin == CountRegime(gs, law, Bonded)
    ensures (forall i :: 0 <= i < |gs| ==> AgreeAt(gs, law, nneg, nmin, i))
            <==> (nmin == 0 && NegativePrefix(gs, law)) || nmin == |gs|
  {
    if (nmin == 0 && NegativePrefix(gs, law)) || nmin == |gs| {
      forall i | 0 <= i < |gs| ensures AgreeAt(gs, law, nneg, nmin, i) {
        AgreeWhenOrdered(gs, law, nneg, nmin, i);
      }
    } else {
      DisagreeOtherwise(gs, law, nneg, nmin);
    }
  }

  /** In those configurations each of the three computations, as written,
      places contact i on its packed rows. */
  lemma PlacementsAgreeWhenOrdered(gs: seq<real>, law: Law, nneg: nat, nmin: nat, i: nat)
    requires nmin == CountRegime(gs, law, Bonded) && i < |gs|
    requires (nmin == 0 && NegativePrefix(gs, law)) || nmin == |gs|
    ensures MatrixPlacement(AsWritten, gs, law, nneg, nmin, i) == PackedSlots(gs, law, nneg, nmin, i)
    ensures DistancePlacement(AsWritten, gs, law, nneg, nmin, i) == PackedSlots(gs, law, nneg, nmin, i)
    ensures DecodePlacement(AsWritten, gs, law, nneg, nmin, i) == PackedSlots(gs, law, nneg, nmin, i)
  {
    AgreeWhenOrdered(gs, law, nneg, nmin, i);
  }

  /** Under the same ordering every row the assembly writes is a row of the
      matrix. */
  lemma MatrixSlotsInBoundsWhenOrdered(gs: seq<real>, law: Law, nneg: nat, nmin: nat, i: nat)
    requires Consistent(gs, law, nneg, nmin) && AboveMin(gs, law) && i < |gs|
    requires (nmin == 0 && NegativePrefix(gs, law)) || nmin == |gs|
    ensures Within(OwnedRows(MatrixSlots(gs, law, nneg, nmin, i), RegimeOf(gs[i], law)), RowCount(|gs|, nneg, nmin))
  {
    AgreeWhenOrdered(gs, law, nneg, nmin, i);
    PackedSlotsInBounds(gs, law, nneg, nmin, i);
  }

  const SampleLaw := Law(-3.0, 0.5, 1.0)

  /** A free contact followed by a negative one: the assembly's mirror row
      n - nmin + ic and the distances' mirror slot n - nmin + index_dry are
      both 3, one past the last of the 3 rows; the decoding reads row 2. */
  lemma MirrorRowOutOfRange()
    ensures var gs := [0.0, -1.0];
            Consistent(gs, SampleLaw, 1, 0) && RowCount(2, 1, 0) == 3
            && MatrixSlots(gs, SampleLaw, 1, 0, 1) == Pair(1, 3)
            && DistanceSlots(gs, SampleLaw, 1, 0, 1) == Pair(1, 3)
            && DecodeSlots(gs, SampleLaw, 1, 0, 1) == Pair(1, 2)
            && PackedSlots(gs, SampleLaw, 1, 0, 1) == Pair(1, 2)
  {
    var gs := [0.0, -1.0];
    assert gs[..1] == [0.0];
    assert gs[..1][..0] == [];
    assert gs[..0] == [];
  }

  /** A bonded contact followed by a free one: the assembly puts the free
      contact on row ic = 1, which is the bonded contact's first normal row
      base + 4*0 = 1, and the decoding reads its force from that row; its
      distance sits on row index_dry = 0. */
  lemma FreeRowCollidesWithBonded()
    ensures var gs := [-3.0, 0.0];
            Consistent(gs, SampleLaw, 0, 1) && RowCount(2, 0, 1) == 9
            && MatrixSlots(gs, SampleLaw, 0, 1, 1) == Single(1)
            && MatrixSlots(gs, SampleLaw, 0, 1, 0) == Pair(1, 5)
            && DecodeSlots(gs, SampleLaw, 0, 1, 1) == Single(1)
            && DistanceSlots(gs, SampleLaw, 0, 1, 1) == Single(0)
            && PackedSlots(gs, SampleLaw, 0, 1, 1) == Single(0)
  {
    var gs := [-3.0, 0.0];
    assert gs[..1] == [-3.0];
    assert gs[..1][..0] == [];
    assert gs[..0] == [];
  }

  /** A free contact followed by a bonded one: the assembly puts the bonded
      block at base + 4 ic = 5 and base + 4 nmin + 4 ic = 9, so its last rows
      9..12 are past the 9 rows of the matrix. */
  lemma BondedRowOutOfRange()
    ensures var gs := [0.0, -3.0];
            Consistent(gs, SampleLaw, 0, 1) && RowCount(2, 0, 1) == 9
            && MatrixSlots(gs, SampleLaw, 0, 1, 1) == Pair(5, 9)
            && !Within(OwnedRows(MatrixSlots(gs, SampleLaw, 0, 1, 1), Bonded), 9)
            && DistanceSlots(gs, SampleLaw, 0, 1, 1) == Pair(1, 5)
            && PackedSlots(gs, SampleLaw, 0, 1, 1) == Pair(1, 5)
  {
    var gs := [0.0, -3.0];
    assert gs[..1] == [0.0];
    assert gs[..1][..0] == [];
    assert gs[..0] == [];
    assert 9 in OwnedRows(Pair(5, 9), Bonded);
  }

  // ---------------------------------------------------------------------
  // Gamma update: decoding and snapping

  /** A placement stays inside a vector of the given length. */
  predicate SlotsWithin(s: Slots, len: int) {
    match s
    case Single(a) => 0 <= a < len
    case Pair(a, b) => 0 <= a < len && 0 <= b < len
  }

  /** Every row the decoding reads lies in a multiplier vector of length len. */
  ghost predicate DecodeInBounds(layout: Layout, gs: seq<real>, law: Law, nneg: nat, nmin: nat, len: nat) {
    forall i :: 0 <= i < |gs| ==> SlotsWithin(DecodePlacement(layout, gs, law, nneg, nmin, i), len)
  }

  /** A placement whose rows are all in bounds has its row and mirror in bounds. */
  lemma SlotsWithinOwned(s: Slots, r: Regime, len: int)
    requires Within(OwnedRows(s, r), len)
    ensures SlotsWithin(s, len)
  {
    assert s.row in OwnedRows(s, r);
    if s.Pair? {
      assert s.mirror in OwnedRows(s, r);
    }
  }

  /** The rows update_gamma_impl reads for contact i, in terms of its two
      running counters ind_gamma_neg and ind_gamma_min. */
  lemma DecodeSlotsByCounters(gs: seq<real>, law: Law, nneg: nat, nmin: nat, i: nat, indNeg: nat, indMin: nat)
    requires i < |gs| && indNeg == Before(gs, law, i, NegativeGamma) && indMin == Before(gs, law, i, Bonded)
    ensures var n, base := |gs|, Base(|gs|, nneg, nmin);
            DecodePlacement(AsWritten, gs, law, nneg, nmin, i)
            == if gs[i] != law.gammaMin then
                 (if gs[i] < -law.tol then Pair(i, n - nmin + indNeg) else Single(i))
               else Pair(base + 4 * indMin, base + 4 * nmin + 4 * indMin)
  {
  }

  /** The contact force recovered from the multipliers: lambda at the row, minus lambda at
      the mirror for a negative or bonded contact. */
  function Force(layout: Layout, gs: seq<real>, law: Law, nneg: nat, nmin: nat, lambda: seq<real>, i: nat): real
    requires i < |gs| && SlotsWithin(DecodePlacement(layout, gs, law, nneg, nmin, i), |lambda|)
  {
    match DecodePlacement(layout, gs, law, nneg, nmin, i)
    case Single(a) => lambda[a]
    case Pair(a, b) => lambda[a] - lambda[b]
  }

  /** The clamp to [gammaMin, 0] followed by the two snaps of update_gamma_impl:
      within tol of gammaMin becomes gammaMin, then above -tol becomes 0. */
  function Snap(x: real, law: Law): real {
    var clamped := Max(law.gammaMin, if 0.0 < x then 0.0 else x);
    var low := if clamped - law.gammaMin < law.tol then law.gammaMin else clamped;
    if low > -law.tol then 0.0 else low
  }

  /** m_gamma_old after update_gamma_impl. */
  function UpdatedGamma(layout: Layout, gs: seq<real>, law: Law, nneg: nat, nmin: nat, lambda: seq<real>): (r: seq<real>)
    requires DecodeInBounds(layout, gs, law, nneg, nmin, |lambda|)
    ensures |r| == |gs|
  {
    seq(|gs|, i requires 0 <= i < |gs| => UpdatedAt(layout, gs, law, nneg, nmin, lambda, i))
  }

  function UpdatedAt(layout: Layout, gs: seq<real>, law: Law, nneg: nat, nmin: nat, lambda: seq<real>, i: nat): real
    requires DecodeInBounds(layout, gs, law, nneg, nmin, |lambda|) && i < |gs|
  {
    Snap(gs[i] - law.dt * Force(layout, gs, law, nneg, nmin, lambda, i), law)
  }

  /** Entry i of the update is the snap of gamma_i - dt f_i. */
  lemma UpdatedGammaEntry(layout: Layout, gs: seq<real>, law: Law, nneg: nat, nmin: nat, lambda: seq<real>, i: nat)
    requires DecodeInBounds(layout, gs, law, nneg, nmin, |lambda|) && i < |gs|
    ensures UpdatedGamma(layout, gs, law, nneg, nmin, lambda)[i]
            == Snap(gs[i] - law.dt * Force(layout, gs, law, nneg, nmin, lambda, i), law)
  {
  }

  /** The force update_gamma_impl decodes for contact i, regime by regime:
      lambda(i) for a free contact; lambda(i) - lambda(n - nmin + k) for the
      k-th negative contact; lambda(base + 4k) - lambda(base + 4 nmin + 4k)
      for the k-th bonded contact. */
  lemma DecodedForce(gs: seq<real>, law: Law, nneg: nat, nmin: nat, lambda: seq<real>, i: nat)
    requires DecodeInBounds(AsWritten, gs, law, nneg, nmin, |lambda|) && i < |gs|
    ensures var n, base := |gs|, Base(|gs|, nneg, nmin);
            var kn, kb := Before(gs, law, i, NegativeGamma), Before(gs, law, i, Bonded);
            var f := Force(AsWritten, gs, law, nneg, nmin, lambda, i);
            && (RegimeOf(gs[i], law) == Free ==> i < |lambda| && f == lambda[i])
            && (RegimeOf(gs[i], law) == NegativeGamma ==>
                  i < |lambda| && 0 <= n - nmin + kn < |lambda| && f == lambda[i] - lambda[n - nmin + kn])
            && (RegimeOf(gs[i], law) == Bonded ==>
                  0 <= base + 4 * kb && base + 4 * nmin + 4 * kb < |lambda|
                  && f == lambda[base + 4 * kb] - lambda[base + 4 * nmin + 4 * kb])
  {
    assert SlotsWithin(DecodePlacement(AsWritten, gs, law, nneg, nmin, i), |lambda|);
  }

  /** Every updated bond strength lies in [gammaMin, 0], whatever the multipliers. */
  lemma {:induction false} UpdatedGammaInRange(layout: Layout, gs: seq<real>, law: Law, nneg: nat, nmin: nat, lambda: seq<real>)
    requires DecodeInBounds(layout, gs, law, nneg, nmin, |lambda|) && law.gammaMin <= 0.0
    ensures forall k :: 0 <= k < |gs| ==> law.gammaMin <= UpdatedGamma(layout, gs, law, nneg, nmin, lambda)[k] <= 0.0
  {
    forall k | 0 <= k < |gs| ensures law.gammaMin <= UpdatedGamma(layout, gs, law, nneg, nmin, lambda)[k] <= 0.0 {
      SnapInRange(gs[k] - law.dt * Force(layout, gs, law, nneg, nmin, lambda, k), law);
    }
  }

  /** With consistent counters and every gamma at least gammaMin, a
      multiplier vector of the matrix's row count is long enough for every
      read of the decoding, as written and packed: the row i of a
      non-bonded contact is below n, the other rows are packed rows. */
  lemma DecodeInBoundsAtRowCount(layout: Layout, gs: seq<real>, law: Law, nneg: nat, nmin: nat, len: nat)
    requires Consistent(gs, law, nneg, nmin) && AboveMin(gs, law)
    requires len == RowCount(|gs|, nneg, nmin)
    ensures DecodeInBounds(layout, gs, law, nneg, nmin, len)
  {
    RowCountBounds(gs, law, nneg, nmin);
    forall i | 0 <= i < |gs| ensures SlotsWithin(DecodePlacement(layout, gs, law, nneg, nmin, i), len) {
      PackedSlotsInBounds(gs, law, nneg, nmin, i);
      SlotsWithinOwned(PackedSlots(gs, law, nneg, nmin, i), RegimeOf(gs[i], law), len);
    }
  }

  /** When the contacts are ordered as in AgreeWhenOrdered, the source's
      decoding gives the gammas that the packing gives. */
  lemma UpdatedGammaAgreesWhenOrdered(gs: seq<real>, law: Law, nneg: nat, nmin: nat, lambda: seq<real>)
    requires nmin == CountRegime(gs, law, Bonded) && ((nmin == 0 && NegativePrefix(gs, law)) || nmin == |gs|)
    requires DecodeInBounds(Packed, gs, law, nneg, nmin, |lambda|)
    ensures DecodeInBounds(AsWritten, gs, law, nneg, nmin, |lambda|)
    ensures UpdatedGamma(AsWritten, gs, law, nneg, nmin, lambda) == UpdatedGamma(Packed, gs, law, nneg, nmin, lambda)
  {
    forall i | 0 <= i < |gs| ensures DecodePlacement(AsWritten, gs, law, nneg, nmin, i) == DecodePlacement(Packed, gs, law, nneg, nmin, i) {
      PlacementsAgreeWhenOrdered(gs, law, nneg, nmin, i);
    }
    SamePlacementSameUpdate(AsWritten, Packed, gs, law, nneg, nmin, lambda);
  }

  /** Two layouts that read the same rows for every contact give the same update. */
  lemma SamePlacementSameUpdate(l1: Layout, l2: Layout, gs: seq<real>, law: Law, nneg: nat, nmin: nat, lambda: seq<real>)
    requires DecodeInBounds(l2, gs, law, nneg, nmin, |lambda|)
    requires forall i :: 0 <= i < |gs| ==> DecodePlacement(l1, gs, law, nneg, nmin, i) == DecodePlacement(l2, gs, law, nneg, nmin, i)
    ensures DecodeInBounds(l1, gs, law, nneg, nmin, |lambda|)
    ensures UpdatedGamma(l1, gs, law, nneg, nmin, lambda) == UpdatedGamma(l2, gs, law, nneg, nmin, lambda)
  {
    assert DecodeInBounds(l1, gs, law, nneg, nmin, |lambda|);
    forall i | 0 <= i < |gs|
      ensures UpdatedAt(l1, gs, law, nneg, nmin, lambda, i) == UpdatedAt(l2, gs, law, nneg, nmin, lambda, i)
    {
      assert Force(l1, gs, law, nneg, nmin, lambda, i) == Force(l2, gs, law, nneg, nmin, lambda, i);
    }
  }

  /** The snapped value lies in [gammaMin, 0]. */
  lemma SnapInRange(x: real, law: Law)
    requires law.gammaMin <= 0.0
    ensures law.gammaMin <= Snap(x, law) <= 0.0
  {
  }

  /** After snapping a value is either exactly 0 or at most -tol: it never
      lingers just below 0. */
  lemma SnapAwayFromZero(x: real, law: Law)
    ensures Snap(x, law) == 0.0 || Snap(x, law) <= -law.tol
  {
  }

  /** When the two snapping bands do not overlap, a snapped value is exactly
      gammaMin or at least gammaMin + tol. */
  lemma SnapAwayFromMin(x: real, law: Law)
    requires law.gammaMin <= 0.0 && law.tol >= 0.0 && law.gammaMin + law.tol <= -law.tol
    ensures Snap(x, law) == law.gammaMin || Snap(x, law) >= law.gammaMin + law.tol
  {
  }

  /** Snapping twice is snapping once: at the regime boundaries repeated
      updates do not drift. */
  lemma SnapIdempotent(x: real, law: Law)
    requires law.gammaMin <= 0.0 && law.tol >= 0.0
    ensures Snap(Snap(x, law), law) == Snap(x, law)
  {
  }

  /** Decoding an all-zero multiplier vector gives a zero force on every contact,
      so the update gives back any gamma that is already a snapped value. */
  lemma ZeroMultipliersKeepSnappedGamma(layout: Layout, gs: seq<real>, law: Law, nneg: nat, nmin: nat, lambda: seq<real>)
    requires DecodeInBounds(layout, gs, law, nneg, nmin, |lambda|)
    requires forall k :: 0 <= k < |lambda| ==> lambda[k] == 0.0
    requires forall k :: 0 <= k < |gs| ==> Snap(gs[k], law) == gs[k]
    ensures forall i :: 0 <= i < |gs| ==> Force(layout, gs, law, nneg, nmin, lambda, i) == 0.0
    ensures UpdatedGamma(layout, gs, law, nneg, nmin, lambda) == gs
  {
    assert forall i :: 0 <= i < |gs| ==> Force(layout, gs, law, nneg, nmin, lambda, i) == 0.0;
  }

  // ---------------------------------------------------------------------
  // Distances vector

  /** Every slot the distances loop writes lies in the vector of number_row_matrix entries. */
  ghost predicate DistanceInBounds(layout: Layout, gs: seq<real>, law: Law, nneg: nat, nmin: nat) {
    nmin <= |gs| && forall i :: 0 <= i < |gs| ==> SlotsWithin(DistancePlacement(layout, gs, law, nneg, nmin, i), RowCount(|gs|, nneg, nmin))
  }

  /** The writes of one contact: the gap at the row, its negation at the mirror. */
  function WriteSlots(v: seq<real>, s: Slots, dij: real): (r: seq<real>)
    requires SlotsWithin(s, |v|)
    ensures |r| == |v|
  {
    match s
    case Single(a) => v[a := dij]
    case Pair(a, b) => v[a := dij][b := -dij]
  }

  /** m_distances after the loop of create_vector_distances_impl has handled
      the first k contacts. */
  function DistancesUpTo(layout: Layout, contacts: seq<Contact>, gs: seq<real>, law: Law, nneg: nat, nmin: nat, k: nat): (r: seq<real>)
    requires |contacts| == |gs| && k <= |gs| && DistanceInBounds(layout, gs, law, nneg, nmin)
    ensures |r| == RowCount(|gs|, nneg, nmin)
  {
    if k == 0 then seq(RowCount(|gs|, nneg, nmin), _ => 0.0)
    else WriteSlots(DistancesUpTo(layout, contacts, gs, law, nneg, nmin, k - 1), DistancePlacement(layout, gs, law, nneg, nmin, k - 1),
                    contacts[k - 1].dij)
  }

  /** The slots one contact writes: its row and its mirror. */
  function Targets(s: Slots): set<int> {
    match s
    case Single(a) => {a}
    case Pair(a, b) => {a, b}
  }

  lemma TargetsOwned(s: Slots, r: Regime)
    ensures Targets(s) <= OwnedRows(s, r)
  {
  }

  /** Slot x keeps its value while no contact in [k1, k2) writes it. */
  lemma {:induction false} DistancesUntouched(layout: Layout, contacts: seq<Contact>, gs: seq<real>, law: Law, nneg: nat, nmin: nat,
                                              k1: nat, k2: nat, x: nat)
    requires |contacts| == |gs| && k1 <= k2 <= |gs| && DistanceInBounds(layout, gs, law, nneg, nmin)
    requires x < RowCount(|gs|, nneg, nmin)
    requires forall k :: k1 <= k < k2 ==> x !in Targets(DistancePlacement(layout, gs, law, nneg, nmin, k))
    ensures DistancesUpTo(layout, contacts, gs, law, nneg, nmin, k2)[x] == DistancesUpTo(layout, contacts, gs, law, nneg, nmin, k1)[x]
    decreases k2 - k1
  {
    if k1 < k2 {
      DistancesUntouched(layout, contacts, gs, law, nneg, nmin, k1, k2 - 1, x);
    }
  }

  /** Consistent counters and every gamma at least gammaMin keep every write
      of the distances inside the vector. */
  lemma DistanceInBoundsAtRowCount(gs: seq<real>, law: Law, nneg: nat, nmin: nat)
    requires Consistent(gs, law, nneg, nmin) && AboveMin(gs, law)
    ensures DistanceInBounds(Packed, gs, law, nneg, nmin)
  {
    RowCountBounds(gs, law, nneg, nmin);
    forall i | 0 <= i < |gs| ensures SlotsWithin(PackedSlots(gs, law, nneg, nmin, i), RowCount(|gs|, nneg, nmin)) {
      PackedSlotsInBounds(gs, law, nneg, nmin, i);
      SlotsWithinOwned(PackedSlots(gs, law, nneg, nmin, i), RegimeOf(gs[i], law), RowCount(|gs|, nneg, nmin));
    }
  }

  /** Right after contact i, its gap is at its row and the negated gap at
      its mirror, when the two differ. */
  lemma WrittenByContact(layout: Layout, contacts: seq<Contact>, gs: seq<real>, law: Law, nneg: nat, nmin: nat, i: nat)
    requires |contacts| == |gs| && i < |gs| && DistanceInBounds(layout, gs, law, nneg, nmin)
    requires var s := DistancePlacement(layout, gs, law, nneg, nmin, i); s.Pair? ==> s.row != s.mirror
    ensures SlotsWithin(DistancePlacement(layout, gs, law, nneg, nmin, i), RowCount(|gs|, nneg, nmin))
    ensures var s, d := DistancePlacement(layout, gs, law, nneg, nmin, i), DistancesUpTo(layout, contacts, gs, law, nneg, nmin, i + 1);
            d[s.row] == contacts[i].dij && (s.Pair? ==> d[s.mirror] == -contacts[i].dij)
  {
    var s := DistancePlacement(layout, gs, law, nneg, nmin, i);
    var prev := DistancesUpTo(layout, contacts, gs, law, nneg, nmin, i);
    assert DistancesUpTo(layout, contacts, gs, law, nneg, nmin, i + 1) == WriteSlots(prev, s, contacts[i].dij);
  }

  /** No other contact writes a row that contact i owns. */
  lemma OthersAvoidOwnedRows(gs: seq<real>, law: Law, nneg: nat, nmin: nat, i: nat, m: nat, x: int)
    requires Consistent(gs, law, nneg, nmin) && AboveMin(gs, law)
    requires i < |gs| && m < |gs| && m != i
    requires x in OwnedRows(PackedSlots(gs, law, nneg, nmin, i), RegimeOf(gs[i], law))
    ensures x !in Targets(PackedSlots(gs, law, nneg, nmin, m))
  {
    TargetsOwned(PackedSlots(gs, law, nneg, nmin, m), RegimeOf(gs[m], law));
    if i < m {
      PackedSlotsDisjoint(gs, law, nneg, nmin, i, m);
    } else {
      PackedSlotsDisjoint(gs, law, nneg, nmin, m, i);
    }
  }

  /** Every contact's gap ends up at its row and its negation at its mirror:
      the non-bonded gaps at slots 0 .. n - nmin - 1 in contact order, the
      negated gaps of the negative contacts after them, and for the k-th
      bonded contact the gap at base + 4k and its negation at
      base + 4 nmin + 4k. */
  lemma DistanceOfContact(contacts: seq<Contact>, gs: seq<real>, law: Law, nneg: nat, nmin: nat, i: nat)
    requires |contacts| == |gs| && Consistent(gs, law, nneg, nmin) && AboveMin(gs, law) && i < |gs|
    ensures DistanceInBounds(Packed, gs, law, nneg, nmin)
    ensures var s, d := PackedSlots(gs, law, nneg, nmin, i), DistancesUpTo(Packed, contacts, gs, law, nneg, nmin, |gs|);
            SlotsWithin(s, |d|) && d[s.row] == contacts[i].dij && (s.Pair? ==> d[s.mirror] == -contacts[i].dij)
  {
    DistanceInBoundsAtRowCount(gs, law, nneg, nmin);
    var n, s, r := |gs|, PackedSlots(gs, law, nneg, nmin, i), RegimeOf(gs[i], law);
    PackedBlocks(gs, law, nneg, nmin, i);
    WrittenByContact(Packed, contacts, gs, law, nneg, nmin, i);
    assert s.row in OwnedRows(s, r);
    forall m | i + 1 <= m < n ensures s.row !in Targets(PackedSlots(gs, law, nneg, nmin, m)) {
      OthersAvoidOwnedRows(gs, law, nneg, nmin, i, m, s.row);
    }
    DistancesUntouched(Packed, contacts, gs, law, nneg, nmin, i + 1, n, s.row);
    if s.Pair? {
      assert s.mirror in OwnedRows(s, r);
      forall m | i + 1 <= m < n ensures s.mirror !in Targets(PackedSlots(gs, law, nneg, nmin, m)) {
        OthersAvoidOwnedRows(gs, law, nneg, nmin, i, m, s.mirror);
      }
      DistancesUntouched(Packed, contacts, gs, law, nneg, nmin, i + 1, n, s.mirror);
    }
  }

  /** The three friction slots after each normal slot of a bonded contact
      are never written and stay 0. */
  lemma FrictionDistancesZero(contacts: seq<Contact>, gs: seq<real>, law: Law, nneg: nat, nmin: nat, i: nat, t: nat)
    requires |contacts| == |gs| && Consistent(gs, law, nneg, nmin) && AboveMin(gs, law)
    requires i < |gs| && RegimeOf(gs[i], law) == Bonded && 1 <= t <= 3
    ensures DistanceInBounds(Packed, gs, law, nneg, nmin)
    ensures Before(gs, law, i, Bonded) < nmin
    ensures var base, k := Base(|gs|, nneg, nmin), Before(gs, law, i, Bonded);
            var d := DistancesUpTo(Packed, contacts, gs, law, nneg, nmin, |gs|);
            base + 4 * nmin + 4 * k + t < |d| && d[base + 4 * k + t] == 0.0 && d[base + 4 * nmin + 4 * k + t] == 0.0
  {
    DistanceInBoundsAtRowCount(gs, law, nneg, nmin);
    BeforeBelowTotal(gs, law, i);
    FrictionSlotsZero(contacts, gs, law, nneg, nmin, i, t);
  }

  lemma FrictionSlotsZero(contacts: seq<Contact>, gs: seq<real>, law: Law, nneg: nat, nmin: nat, i: nat, t: nat)
    requires |contacts| == |gs| && Consistent(gs, law, nneg, nmin) && AboveMin(gs, law)
    requires DistanceInBounds(Packed, gs, law, nneg, nmin) && i < |gs| && RegimeOf(gs[i], law) == Bonded && 1 <= t <= 3
    requires Before(gs, law, i, Bonded) < nmin
    ensures var base, k := Base(|gs|, nneg, nmin), Before(gs, law, i, Bonded);
            var d := DistancesUpTo(Packed, contacts, gs, law, nneg, nmin, |gs|);
            base + 4 * nmin + 4 * k + t < |d| && d[base + 4 * k + t] == 0.0 && d[base + 4 * nmin + 4 * k + t] == 0.0
  {
    var n, base, k := |gs|, Base(|gs|, nneg, nmin), Before(gs, law, i, Bonded);
    var a, b := base + 4 * k, base + 4 * nmin + 4 * k;
    assert RowCount(n, nneg, nmin) == base + 8 * nmin;
    FrictionSlotZero(contacts, gs, law, nneg, nmin, i, t, a + t);
    FrictionSlotZero(contacts, gs, law, nneg, nmin, i, t, b + t);
  }

  /** A friction slot x of a bonded contact is written by no contact and stays 0. */
  lemma FrictionSlotZero(contacts: seq<Contact>, gs: seq<real>, law: Law, nneg: nat, nmin: nat, i: nat, t: nat, x: nat)
    requires |contacts| == |gs| && Consistent(gs, law, nneg, nmin) && AboveMin(gs, law)
    requires DistanceInBounds(Packed, gs, law, nneg, nmin) && x < RowCount(|gs|, nneg, nmin)
    requires i < |gs| && RegimeOf(gs[i], law) == Bonded && 1 <= t <= 3
    requires var base, k := Base(|gs|, nneg, nmin), Before(gs, law, i, Bonded);
             x == base + 4 * k + t || x == base + 4 * nmin + 4 * k + t
    ensures DistancesUpTo(Packed, contacts, gs, law, nneg, nmin, |gs|)[x] == 0.0
  {
    forall m | 0 <= m < |gs| ensures x !in Targets(PackedSlots(gs, law, nneg, nmin, m)) {
      FrictionSlotNotWritten(gs, law, nneg, nmin, i, m, t);
    }
    UnwrittenSlotZero(contacts, gs, law, nneg, nmin, x);
  }

  /** A slot that no contact writes keeps its initial 0. */
  lemma UnwrittenSlotZero(contacts: seq<Contact>, gs: seq<real>, law: Law, nneg: nat, nmin: nat, x: nat)
    requires |contacts| == |gs| && DistanceInBounds(Packed, gs, law, nneg, nmin) && x < RowCount(|gs|, nneg, nmin)
    requires forall k :: 0 <= k < |gs| ==> x !in Targets(PackedSlots(gs, law, nneg, nmin, k))
    ensures DistancesUpTo(Packed, contacts, gs, law, nneg, nmin, |gs|)[x] == 0.0
  {
    DistancesUntouched(Packed, contacts, gs, law, nneg, nmin, 0, |gs|, x);
  }

  /** The friction rows of a bonded contact are its own, and it writes
      only its two normal rows. */
  lemma FrictionSlotNotWritten(gs: seq<real>, law: Law, nneg: nat, nmin: nat, i: nat, m: nat, t: nat)
    requires Consistent(gs, law, nneg, nmin) && AboveMin(gs, law)
    requires i < |gs| && m < |gs| && RegimeOf(gs[i], law) == Bonded && 1 <= t <= 3
    ensures var base, k := Base(|gs|, nneg, nmin), Before(gs, law, i, Bonded);
            base + 4 * k + t !in Targets(PackedSlots(gs, law, nneg, nmin, m))
            && base + 4 * nmin + 4 * k + t !in Targets(PackedSlots(gs, law, nneg, nmin, m))
  {
    var base, k := Base(|gs|, nneg, nmin), Before(gs, law, i, Bonded);
    var s := PackedSlots(gs, law, nneg, nmin, i);
    assert s == Pair(base + 4 * k, base + 4 * nmin + 4 * k);
    if m != i {
      assert base + 4 * k + t in OwnedRows(s, Bonded);
      assert base + 4 * nmin + 4 * k + t in OwnedRows(s, Bonded);
      OthersAvoidOwnedRows(gs, law, nneg, nmin, i, m, base + 4 * k + t);
      OthersAvoidOwnedRows(gs, law, nneg, nmin, i, m, base + 4 * nmin + 4 * k + t);
    } else {
      BeforeBelowTotal(gs, law, i);
    }
  }

  /** The slots create_vector_distances_impl writes for contact i, in terms
      of its two running counters index_dry and index_friciton. */
  lemma DistanceSlotsByCounters(gs: seq<real>, law: Law, nneg: nat, nmin: nat, i: nat, indexDry: nat, indexFriction: nat)
    requires i < |gs| && indexDry == DryBefore(gs, law, i) && indexFriction == Before(gs, law, i, Bonded)
    ensures var n, base := |gs|, Base(|gs|, nneg, nmin);
            DistancePlacement(AsWritten, gs, law, nneg, nmin, i)
            == if gs[i] != law.gammaMin then
                 (if gs[i] < -law.tol then Pair(indexDry, n - nmin + indexDry) else Single(indexDry))
               else Pair(base + 4 * indexFriction, base + 4 * nmin + 4 * indexFriction)
  {
  }

  /** When the contacts are ordered as in AgreeWhenOrdered, every write of
      the source's distances loop stays in the vector and the loop builds
      the packed vector, prefix by prefix. */
  lemma {:induction false} DistancesAgreeWhenOrdered(contacts: seq<Contact>, gs: seq<real>, law: Law, nneg: nat, nmin: nat, k: nat)
    requires |contacts| == |gs| && k <= |gs| && Consistent(gs, law, nneg, nmin) && AboveMin(gs, law)
    requires (nmin == 0 && NegativePrefix(gs, law)) || nmin == |gs|
    ensures DistanceInBounds(AsWritten, gs, law, nneg, nmin) && DistanceInBounds(Packed, gs, law, nneg, nmin)
    ensures DistancesUpTo(AsWritten, contacts, gs, law, nneg, nmin, k) == DistancesUpTo(Packed, contacts, gs, law, nneg, nmin, k)
  {
    DistanceInBoundsAtRowCount(gs, law, nneg, nmin);
    forall i | 0 <= i < |gs| ensures DistancePlacement(AsWritten, gs, law, nneg, nmin, i) == DistancePlacement(Packed, gs, law, nneg, nmin, i) {
      PlacementsAgreeWhenOrdered(gs, law, nneg, nmin, i);
    }
    if k > 0 {
      DistancesAgreeWhenOrdered(contacts, gs, law, nneg, nmin, k - 1);
    }
  }

  /** In those configurations the vector the source builds holds every
      contact's gap at its packed row and the negated gap at its packed
      mirror. */
  lemma DistanceOfContactWhenOrdered(contacts: seq<Contact>, gs: seq<real>, law: Law, nneg: nat, nmin: nat, i: nat)
    requires |contacts| == |gs| && Consistent(gs, law, nneg, nmin) && AboveMin(gs, law) && i < |gs|
    requires (nmin == 0 && NegativePrefix(gs, law)) || nmin == |gs|
    ensures DistanceInBounds(AsWritten, gs, law, nneg, nmin)
    ensures var s, d := PackedSlots(gs, law, nneg, nmin, i), DistancesUpTo(AsWritten, contacts, gs, law, nneg, nmin, |gs|);
            SlotsWithin(s, |d|) && d[s.row] == contacts[i].dij && (s.Pair? ==> d[s.mirror] == -contacts[i].dij)
  {
    DistancesAgreeWhenOrdered(contacts, gs, law, nneg, nmin, |gs|);
    DistanceOfContact(contacts, gs, law, nneg, nmin, i);
  }

  /** Two free contacts, a negative one and a bonded one: all writes of the
      distances loop stay in the 12 entries, but the negated gap of contact 2
      lands on its mirror n - nmin + index_dry = 5, which is the first
      friction row base + 4*0 + 1 of the bonded contact 3; the packing puts it
      on row 3. */
  lemma NegativeMirrorOnFrictionRow(contacts: seq<Contact>)
    requires |contacts| == 4
    ensures var gs := [0.0, 0.0, -1.0, -3.0];
            && Consistent(gs, SampleLaw, 1, 1) && RowCount(4, 1, 1) == 12 && Base(4, 1, 1) + 4 * 0 + 1 == 5
            && RegimeOf(gs[3], SampleLaw) == Bonded && Before(gs, SampleLaw, 3, Bonded) == 0
            && DistancePlacement(AsWritten, gs, SampleLaw, 1, 1, 2) == Pair(2, 5)
            && PackedSlots(gs, SampleLaw, 1, 1, 2) == Pair(2, 3)
            && DistanceInBounds(AsWritten, gs, SampleLaw, 1, 1)
            && DistancesUpTo(AsWritten, contacts, gs, SampleLaw, 1, 1, 4)[5] == -contacts[2].dij
  {
    var gs := [0.0, 0.0, -1.0, -3.0];
    assert gs[..3] == [0.0, 0.0, -1.0];
    assert gs[..2] == [0.0, 0.0];
    assert gs[..1] == [0.0];
    assert gs[..0] == [];
    assert gs[..4] == gs;
    assert gs[..3][..2] == gs[..2] && gs[..2][..1] == gs[..1] && gs[..1][..0] == gs[..0];
    assert gs[..4][..3] == gs[..3];
    assert Before(gs, SampleLaw, 3, Bonded) == 0 && Before(gs, SampleLaw, 2, Bonded) == 0;
    assert DistancePlacement(AsWritten, gs, SampleLaw, 1, 1, 3) == Pair(4, 8);
  }
}
