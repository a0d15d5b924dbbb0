/** The coordinate (COO) triplets that create_matrix_constraint_coo_impl of
    include/scopi/problems/ViscousWithFriction.hpp emits for one contact, as a
    pure function of the contact, its regime and the particles' geometry,
    with the facts about their number, rows, columns and values. */
module ViscousMatrix {
  import opened LinAlg
  import opened ViscousRegimes

  /** One entry of the constraint matrix in coordinate format. */
  datatype Triplet = Triplet(row: int, col: int, value: real)

  /** What the assembly reads from the particle container: the positions,
      the rotation matrix of each particle's quaternion
      (rotation_matrix<3>(q(k))), the number of inactive particles, which
      come first, and of active ones. The skew matrix of the cross product
      (cross_product<dim>) is a collaborator that is not part of this model. */
  datatype Geometry = Geometry(pos: seq<Vec3>, rotation: seq<Mat3>, nbInactive: nat, nbActive: nat,
                               cross: Vec3 -> Mat3)

  /** The contact's particles exist in the container. */
  predicate Indexed(g: Geometry, c: Contact) {
    c.i < |g.pos| && c.j < |g.pos| && c.i < |g.rotation| && c.j < |g.rotation|
  }

  /** dot(cross_product(p - pos(k)), R(q(k))): the lever of the contact point p on particle k. */
  function Lever(g: Geometry, k: nat, p: Vec3): Mat3
    requires k < |g.pos| && k < |g.rotation|
  {
    MatMul3(g.cross(Sub3(p, g.pos[k])), g.rotation[k])
  }

  /** The three velocity columns of active particle k: firstCol + 3k + d. */
  function TransCols(firstCol: int, k: int): seq<int> {
    [firstCol + 3 * k, firstCol + 3 * k + 1, firstCol + 3 * k + 2]
  }

  /** The three rotation columns of active particle k, after the 3*width
      velocity columns: firstCol + 3 width + 3k + ip. */
  function RotCols(firstCol: int, width: int, k: int): seq<int> {
    [firstCol + 3 * width + 3 * k, firstCol + 3 * width + 3 * k + 1, firstCol + 3 * width + 3 * k + 2]
  }

  /** scale * n[d] for d = 0, 1, 2. */
  function NormalValues(n: Vec3, scale: real): seq<real> {
    [scale * n[0], scale * n[1], scale * n[2]]
  }

  /** scale * (n . D(:, ip)) for ip = 0, 1, 2. */
  function LeverValues(n: Vec3, lever: Mat3, scale: real): seq<real> {
    [scale * NormalTimesColumn(n, lever, 0), scale * NormalTimesColumn(n, lever, 1), scale * NormalTimesColumn(n, lever, 2)]
  }

  /** The entries of one column: value at the row, and for a pair of rows
      the negated value at the mirror. */
  function EntryAt(s: Slots, col: int, v: real): seq<Triplet> {
    match s
    case Single(a) => [Triplet(a, col, v)]
    case Pair(a, b) => [Triplet(a, col, v), Triplet(b, col, -v)]
  }

  /** The loop over d (or ip) that writes one entry per column and, for a
      pair of rows, the mirror entry right after it. */
  function Entries(s: Slots, cols: seq<int>, vals: seq<real>): (r: seq<Triplet>)
    requires |cols| == |vals|
    ensures |r| == if s.Single? then |cols| else 2 * |cols|
    ensures forall k :: 0 <= k < |r| ==> r[k].col in cols && (r[k].row == s.row || (s.Pair? && r[k].row == s.mirror))
    decreases |cols|
  {
    if |cols| == 0 then []
    else Entries(s, cols[..|cols| - 1], vals[..|vals| - 1]) + EntryAt(s, cols[|cols| - 1], vals[|vals| - 1])
  }

  /** Row r of a 3x3 friction block on the normal row a + 1 + r, then the
      same values on the mirrored row b + 1 + r. */
  function FrictionRow(a: int, b: int, cols: seq<int>, f: Mat3, r: nat): seq<Triplet>
    requires |cols| == 3 && r < 3
  {
    [Triplet(a + 1 + r, cols[0], f[r][0]), Triplet(a + 1 + r, cols[1], f[r][1]), Triplet(a + 1 + r, cols[2], f[r][2]),
     Triplet(b + 1 + r, cols[0], f[r][0]), Triplet(b + 1 + r, cols[1], f[r][1]), Triplet(b + 1 + r, cols[2], f[r][2])]
  }

  /** The loops over ind_row and ind_col of a bonded contact. */
  function FrictionRows(a: int, b: int, cols: seq<int>, f: Mat3): seq<Triplet>
    requires |cols| == 3
  {
    FrictionRow(a, b, cols, f, 0) + FrictionRow(a, b, cols, f, 1) + FrictionRow(a, b, cols, f, 2)
  }

  /** -k n_r n_c, plus k on the diagonal: k (I - n n^T), the tangential
      projector of the translational friction rows. */
  function TransFrictionEntry(n: Vec3, k: real, r: nat, c: nat): real
    requires r < 3 && c < 3
  {
    -k * n[r] * n[c] + (if r == c then k else 0.0)
  }

  function TransFrictionRow(n: Vec3, k: real, r: nat): Vec3
    requires r < 3
  {
    seq(3, c requires 0 <= c < 3 => TransFrictionEntry(n, k, r, c))
  }

  function TransFriction(n: Vec3, k: real): Mat3 {
    seq(3, r requires 0 <= r < 3 => TransFrictionRow(n, k, r))
  }

  /** The rotational friction entry as the source writes it,
      -k D(r, c) + k (n . D(:, c)): the factor n_r of the tangential
      projector is missing from the second term. */
  function RotFrictionEntry(n: Vec3, lever: Mat3, k: real, r: nat, c: nat): real
    requires r < 3 && c < 3
  {
    -k * lever[r][c] + k * NormalTimesColumn(n, lever, c)
  }

  function RotFrictionRow(n: Vec3, lever: Mat3, k: real, r: nat): Vec3
    requires r < 3
  {
    seq(3, c requires 0 <= c < 3 => RotFrictionEntry(n, lever, k, r, c))
  }

  function RotFriction(n: Vec3, lever: Mat3, k: real): Mat3 {
    seq(3, r requires 0 <= r < 3 => RotFrictionRow(n, lever, k, r))
  }

  /** The tangential projection (I - n n^T) applied to the lever, scaled by -k:
      -k (D(r, c) - n_r (n . D(:, c))). */
  function ProjectedRotFrictionEntry(n: Vec3, lever: Mat3, k: real, r: nat, c: nat): real
    requires r < 3 && c < 3
  {
    -k * (lever[r][c] - n[r] * NormalTimesColumn(n, lever, c))
  }

  /** The projected entries: -k (I - n n^T) D. */
  function ProjectedRotFrictionRow(n: Vec3, lever: Mat3, k: real, r: nat): Vec3
    requires r < 3
  {
    seq(3, c requires 0 <= c < 3 => ProjectedRotFrictionEntry(n, lever, k, r, c))
  }

  function ProjectedRotFriction(n: Vec3, lever: Mat3, k: real): Mat3 {
    seq(3, r requires 0 <= r < 3 => ProjectedRotFrictionRow(n, lever, k, r))
  }

  /** The parameters of one assembly: the viscous law, the friction
      coefficient mu, the first column, and m_nparticles, the width of the
      rotation block that the bonded rows use. */
  datatype Assembly = Assembly(law: Law, mu: real, firstCol: int, nparticles: nat)

  /** The two ends of a contact: particle i and particle j. */
  datatype End = EndI | EndJ

  function Particle(c: Contact, e: End): nat {
    if e == EndI then c.i else c.j
  }

  function ContactPoint(c: Contact, e: End): Vec3 {
    if e == EndI then c.pi else c.pj
  }

  /** x for particle i and -x for particle j: the two ends enter the
      relative velocity at the contact with opposite signs. */
  function Signed(e: End, x: real): real {
    if e == EndI then x else -x
  }

  /** The entries of one end in one column block: the normal entries, and
      for a bonded contact the friction block on the three rows after the
      row and after the mirror. */
  function EndBlock(s: Slots, regime: Regime, cols: seq<int>, vals: seq<real>, f: Mat3): (r: seq<Triplet>)
    requires |cols| == 3 && |vals| == 3
    ensures Shaped(s, regime) ==> |r| == 3 * RowsPerContact(regime)
    ensures Shaped(s, regime) ==> forall k :: 0 <= k < |r| ==> r[k].row in OwnedRows(s, regime) && r[k].col in cols
  {
    var normal := Entries(s, cols, vals);
    if regime != Bonded then normal
    else normal + FrictionRows(s.row, if s.Pair? then s.mirror else s.row, cols, f)
  }

  /** The velocity entries of one end (the loops over d): -dt n[d] for i and
      +dt n[d] for j, followed for a bonded contact by the translational
      friction block with dt mu (I - n n^T) for i and its negation for j.
      An inactive end writes nothing. */
  function TransBlock(g: Geometry, asm: Assembly, c: Contact, regime: Regime, s: Slots, e: End): (r: seq<Triplet>)
    ensures Shaped(s, regime) ==> |r| == if Particle(c, e) < g.nbInactive then 0 else 3 * RowsPerContact(regime)
    ensures Shaped(s, regime) ==> forall k :: 0 <= k < |r| ==> r[k].row in OwnedRows(s, regime)
    ensures forall k :: 0 <= k < |r| ==> r[k].col in TransCols(asm.firstCol, Particle(c, e) - g.nbInactive)
  {
    var k := Particle(c, e);
    if k < g.nbInactive then []
    else EndBlock(s, regime, TransCols(asm.firstCol, k - g.nbInactive), NormalValues(c.nij, Signed(e, -asm.law.dt)),
                  TransFriction(c.nij, Signed(e, asm.law.dt * asm.mu)))
  }

  /** The rotation entries of one end (the loops over ip): dt (n . D(:, ip))
      for i and its negation for j, followed for a bonded contact by the
      rotational friction block as the source writes it,
      -dt mu D + dt mu (n . D) (RotFriction), for i and its negation for j.
      The non-bonded rows place the rotation
      columns after 3 nb_active velocity columns, the bonded rows after
      3 m_nparticles. */
  function RotBlock(g: Geometry, asm: Assembly, c: Contact, regime: Regime, s: Slots, e: End): (r: seq<Triplet>)
    requires Indexed(g, c)
    ensures Shaped(s, regime) ==> |r| == if Particle(c, e) < g.nbInactive then 0 else 3 * RowsPerContact(regime)
    ensures Shaped(s, regime) ==> forall k :: 0 <= k < |r| ==> r[k].row in OwnedRows(s, regime)
    ensures forall k :: 0 <= k < |r| ==>
              r[k].col in RotCols(asm.firstCol, if regime != Bonded then g.nbActive else asm.nparticles, Particle(c, e) - g.nbInactive)
  {
    var k := Particle(c, e);
    if k < g.nbInactive then []
    else
      var lever := Lever(g, k, ContactPoint(c, e));
      var width := if regime != Bonded then g.nbActive else asm.nparticles;
      EndBlock(s, regime, RotCols(asm.firstCol, width, k - g.nbInactive), LeverValues(c.nij, lever, Signed(e, asm.law.dt)),
               RotFriction(c.nij, lever, Signed(e, asm.mu * asm.law.dt)))
  }

  /** The triplets of one contact in the order the source writes them:
      velocity entries of i, then of j, then rotation entries of i, then of j;
      s is the placement of the contact's rows. */
  function ContactTriplets(g: Geometry, asm: Assembly, c: Contact, regime: Regime, s: Slots): (r: seq<Triplet>)
    requires Indexed(g, c)
    ensures Shaped(s, regime) ==> |r| == 6 * Weight(g, c, regime)
  {
    TransBlock(g, asm, c, regime, s, EndI) + TransBlock(g, asm, c, regime, s, EndJ)
    + RotBlock(g, asm, c, regime, s, EndI) + RotBlock(g, asm, c, regime, s, EndJ)
  }

  /** The contacts' particles exist in the container. */
  ghost predicate AllIndexed(g: Geometry, contacts: seq<Contact>) {
    forall k :: 0 <= k < |contacts| ==> Indexed(g, contacts[k])
  }

  /** The triplets of every contact, one sequence per contact, each on the
      rows the layout gives it: as written (MatrixSlots, which can leave the
      matrix and overlap) or packed. */
  function PerContact(layout: Layout, g: Geometry, asm: Assembly, contacts: seq<Contact>, gs: seq<real>, nneg: nat, nmin: nat)
    : (r: seq<seq<Triplet>>)
    requires |contacts| == |gs| && AllIndexed(g, contacts)
    ensures |r| == |gs|
    ensures forall k :: 0 <= k < |gs| ==> |r[k]| == 6 * Weight(g, contacts[k], RegimeOf(gs[k], asm.law))
  {
    seq(|gs|, k requires 0 <= k < |gs| =>
      PlacementShaped(layout, gs, asm.law, nneg, nmin, k);
      ContactTriplets(g, asm, contacts[k], RegimeOf(gs[k], asm.law), MatrixPlacement(layout, gs, asm.law, nneg, nmin, k)))
  }

  /** The concatenation of the per-contact sequences, in order. */
  function Flatten(ss: seq<seq<Triplet>>): seq<Triplet>
    decreases |ss|
  {
    if |ss| == 0 then [] else Flatten(ss[..|ss| - 1]) + ss[|ss| - 1]
  }

  /** Flattening one more sequence appends it. */
  lemma FlattenStep(ss: seq<seq<Triplet>>, k: nat)
    requires k < |ss|
    ensures Flatten(ss[..k + 1]) == Flatten(ss[..k]) + ss[k]
  {
    assert ss[..k + 1][..k] == ss[..k];
  }

  /** A longer prefix flattens to at least as many triplets. */
  lemma {:induction false} FlattenMono(ss: seq<seq<Triplet>>, i: nat, j: nat)
    requires i <= j <= |ss|
    ensures |Flatten(ss[..i])| <= |Flatten(ss[..j])|
    decreases j - i
  {
    if i < j {
      FlattenStep(ss, i);
      FlattenMono(ss, i + 1, j);
    }
  }

  /** The triplets of contacts 0 .. k-1, in the order the loop over the contacts writes them. */
  function TripletsUpTo(layout: Layout, g: Geometry, asm: Assembly, contacts: seq<Contact>, gs: seq<real>, nneg: nat, nmin: nat, k: nat)
    : seq<Triplet>
    requires |contacts| == |gs| && k <= |gs| && AllIndexed(g, contacts)
  {
    Flatten(PerContact(layout, g, asm, contacts, gs, nneg, nmin)[..k])
  }

  /** One more contact appends its own triplets. */
  lemma TripletsUpToStep(layout: Layout, g: Geometry, asm: Assembly, contacts: seq<Contact>, gs: seq<real>, nneg: nat, nmin: nat, k: nat)
    requires |contacts| == |gs| && k < |gs| && AllIndexed(g, contacts)
    ensures TripletsUpTo(layout, g, asm, contacts, gs, nneg, nmin, k + 1)
            == TripletsUpTo(layout, g, asm, contacts, gs, nneg, nmin, k)
               + ContactTriplets(g, asm, contacts[k], RegimeOf(gs[k], asm.law), MatrixPlacement(layout, gs, asm.law, nneg, nmin, k))
  {
    var ss := PerContact(layout, g, asm, contacts, gs, nneg, nmin);
    assert ss[..k + 1][..k] == ss[..k];
  }

  /** Fewer contacts, fewer triplets. */
  lemma {:induction false} TripletsUpToMono(layout: Layout, g: Geometry, asm: Assembly, contacts: seq<Contact>, gs: seq<real>,
                                            nneg: nat, nmin: nat, i: nat, j: nat)
    requires |contacts| == |gs| && i <= j <= |gs| && AllIndexed(g, contacts)
    ensures |TripletsUpTo(layout, g, asm, contacts, gs, nneg, nmin, i)| <= |TripletsUpTo(layout, g, asm, contacts, gs, nneg, nmin, j)|
    decreases j - i
  {
    if i < j {
      TripletsUpToStep(layout, g, asm, contacts, gs, nneg, nmin, i);
      TripletsUpToMono(layout, g, asm, contacts, gs, nneg, nmin, i + 1, j);
    }
  }

  /** The number of active endpoints of a contact. */
  function ActiveEnds(g: Geometry, c: Contact): nat {
    (if c.i >= g.nbInactive then 1 else 0) + (if c.j >= g.nbInactive then 1 else 0)
  }

  /** A placement has the shape its regime needs. */
  predicate Shaped(s: Slots, regime: Regime) {
    if regime == Free then s.Single? else s.Pair?
  }

  // ---------------------------------------------------------------------
  // Counting the triplets against the 6 * rows buffer

  /** Active endpoints times rows: the contact's share of the triplets, in units of 6. */
  function Weight(g: Geometry, c: Contact, regime: Regime): nat {
    match regime
    case Free => ActiveEnds(g, c)
    case NegativeGamma => 2 * ActiveEnds(g, c)
    case Bonded => 8 * ActiveEnds(g, c)
  }

  /** The weighted sum of rows, active endpoints times rows, over the first k contacts. */
  function ActiveRows(g: Geometry, contacts: seq<Contact>, gs: seq<real>, law: Law, k: nat): nat
    requires |contacts| == |gs| && k <= |gs|
  {
    if k == 0 then 0
    else ActiveRows(g, contacts, gs, law, k - 1) + Weight(g, contacts[k - 1], RegimeOf(gs[k - 1], law))
  }

  /** Both layouts give a free contact one row and the others a pair. */
  lemma PlacementShaped(layout: Layout, gs: seq<real>, law: Law, nneg: nat, nmin: nat, i: nat)
    requires i < |gs|
    ensures Shaped(MatrixPlacement(layout, gs, law, nneg, nmin, i), RegimeOf(gs[i], law))
  {
  }

  /** The assembly writes 6 entries per active endpoint and per row. */
  lemma {:induction false} TripletCount(layout: Layout, g: Geometry, asm: Assembly, contacts: seq<Contact>, gs: seq<real>,
                                        nneg: nat, nmin: nat, k: nat)
    requires |contacts| == |gs| && k <= |gs| && AllIndexed(g, contacts)
    ensures |TripletsUpTo(layout, g, asm, contacts, gs, nneg, nmin, k)| == 6 * ActiveRows(g, contacts, gs, asm.law, k)
  {
    FlattenCount(PerContact(layout, g, asm, contacts, gs, nneg, nmin), g, contacts, gs, asm.law, k);
  }

  /** The count of TripletCount for any per-contact sequences of the right lengths. */
  lemma {:induction false} FlattenCount(ss: seq<seq<Triplet>>, g: Geometry, contacts: seq<Contact>, gs: seq<real>, law: Law, k: nat)
    requires |ss| == |contacts| == |gs| && k <= |gs|
    requires forall m :: 0 <= m < |gs| ==> |ss[m]| == 6 * Weight(g, contacts[m], RegimeOf(gs[m], law))
    ensures |Flatten(ss[..k])| == 6 * ActiveRows(g, contacts, gs, law, k)
  {
    if k > 0 {
      FlattenCount(ss, g, contacts, gs, law, k - 1);
      FlattenStep(ss, k - 1);
    }
  }

  /** The prefix sum of the per-contact allocations. */
  lemma {:induction false} ActiveRowsBounds(g: Geometry, contacts: seq<Contact>, gs: seq<real>, law: Law, k: nat)
    requires |contacts| == |gs| && k <= |gs|
    ensures ActiveRows(g, contacts, gs, law, k) <= 2 * SumRows(gs[..k], law)
    ensures (forall m :: 0 <= m < k ==> ActiveEnds(g, contacts[m]) == 1)
            ==> ActiveRows(g, contacts, gs, law, k) == SumRows(gs[..k], law)
  {
    if k > 0 {
      ActiveRowsBounds(g, contacts, gs, law, k - 1);
      assert gs[..k][..k - 1] == gs[..k - 1];
    }
  }

  /** With consistent counters and every gamma at least gammaMin, the
      triplets fill the 6 * rows buffer exactly when every contact has one
      active endpoint, and never exceed 12 * rows. */
  lemma TripletsAgainstBuffer(layout: Layout, g: Geometry, asm: Assembly, contacts: seq<Contact>, gs: seq<real>, nneg: nat, nmin: nat)
    requires |contacts| == |gs| && AllIndexed(g, contacts)
    requires Consistent(gs, asm.law, nneg, nmin) && AboveMin(gs, asm.law)
    ensures var total := |TripletsUpTo(layout, g, asm, contacts, gs, nneg, nmin, |gs|)|;
            && total <= 12 * RowCount(|gs|, nneg, nmin)
            && ((forall m :: 0 <= m < |gs| ==> ActiveEnds(g, contacts[m]) == 1) ==> total == 6 * RowCount(|gs|, nneg, nmin))
  {
    TripletCount(layout, g, asm, contacts, gs, nneg, nmin, |gs|);
    ActiveRowsBounds(g, contacts, gs, asm.law, |gs|);
    assert gs[..|gs|] == gs;
    NoUndercountAboveMin(gs, asm.law);
    RowCountIsSumOfAllocations(gs, asm.law, nneg, nmin);
  }

  /** The buffer size as written, 6 * number_row_matrix. */
  function BufferAsWritten(rows: int): int {
    6 * rows
  }

  /** The buffer size that two active endpoints per contact need. */
  function BufferNeeded(rows: int): int {
    12 * rows
  }

  /** With consistent counters and gammas at least gammaMin, 12 * rows is
      enough for every configuration of active endpoints. */
  lemma BufferNeededSuffices(layout: Layout, g: Geometry, asm: Assembly, contacts: seq<Contact>, gs: seq<real>, nneg: nat, nmin: nat)
    requires |contacts| == |gs| && AllIndexed(g, contacts)
    requires Consistent(gs, asm.law, nneg, nmin) && AboveMin(gs, asm.law)
    ensures |TripletsUpTo(layout, g, asm, contacts, gs, nneg, nmin, |gs|)| <= BufferNeeded(RowCount(|gs|, nneg, nmin))
  {
    TripletsAgainstBuffer(layout, g, asm, contacts, gs, nneg, nmin);
  }

  /** One free contact between two active particles: 12 entries are written
      into a buffer of 6 * 1. */
  lemma BufferAsWrittenOverflows(g: Geometry, asm: Assembly, c: Contact)
    requires Indexed(g, c) && c.i >= g.nbInactive && c.j >= g.nbInactive
    requires asm.law == SampleLaw
    ensures var gs := [0.0];
            Consistent(gs, asm.law, 0, 0) && RowCount(1, 0, 0) == 1
            && |TripletsUpTo(AsWritten, g, asm, [c], gs, 0, 0, 1)| == 12 > BufferAsWritten(RowCount(1, 0, 0))
  {
    var gs := [0.0];
    assert gs[..0] == [];
    TripletCount(AsWritten, g, asm, [c], gs, 0, 0, 1);
  }

  /** Two layouts that give every contact the same rows give the same triplets. */
  lemma SamePlacementSameTriplets(l1: Layout, l2: Layout, g: Geometry, asm: Assembly, contacts: seq<Contact>, gs: seq<real>,
                                  nneg: nat, nmin: nat)
    requires |contacts| == |gs| && AllIndexed(g, contacts)
    requires forall i :: 0 <= i < |gs| ==> MatrixPlacement(l1, gs, asm.law, nneg, nmin, i) == MatrixPlacement(l2, gs, asm.law, nneg, nmin, i)
    ensures PerContact(l1, g, asm, contacts, gs, nneg, nmin) == PerContact(l2, g, asm, contacts, gs, nneg, nmin)
  {
  }

  /** When there is no bonded contact and the negative contacts come first,
      or every contact is bonded, the assembly as written emits the packed
      triplets, contact by contact. */
  lemma TripletsAgreeWhenOrdered(g: Geometry, asm: Assembly, contacts: seq<Contact>, gs: seq<real>, nneg: nat, nmin: nat, k: nat)
    requires |contacts| == |gs| && k <= |gs| && AllIndexed(g, contacts)
    requires nmin == CountRegime(gs, asm.law, Bonded) && ((nmin == 0 && NegativePrefix(gs, asm.law)) || nmin == |gs|)
    ensures TripletsUpTo(AsWritten, g, asm, contacts, gs, nneg, nmin, k) == TripletsUpTo(Packed, g, asm, contacts, gs, nneg, nmin, k)
  {
    forall i | 0 <= i < |gs|
      ensures MatrixPlacement(AsWritten, gs, asm.law, nneg, nmin, i) == MatrixPlacement(Packed, gs, asm.law, nneg, nmin, i)
    {
      PlacementsAgreeWhenOrdered(gs, asm.law, nneg, nmin, i);
    }
    SamePlacementSameTriplets(AsWritten, Packed, g, asm, contacts, gs, nneg, nmin);
  }
}
