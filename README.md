# scopi: the viscous-with-friction contact problem and its gradient solvers

scopi simulates rigid particles in contact. At every time step it builds
and solves a constrained optimisation problem over the particle velocities.
This project models, in Dafny, the following parts of that step and proves
properties of them:

- the problem class `ViscousWithFriction<dim>`:
  - every contact carries a bond strength gamma in [gamma_min, 0] (gamma_min = -3, friction coefficient mu = 0.1);
  - gamma puts the contact in one of three regimes:
    - free (gamma = 0, or gamma above -tol): 1 constraint row;
    - negative gamma (-tol > gamma > gamma_min): the row and a mirror row;
    - bonded (gamma = gamma_min): two normal rows, each followed by three friction rows, so 8 rows;
  - the regime decides how many rows of the constraint matrix a contact owns, where they sit, which COO triplets fill them and which entries of the distances vector they read;
  - `update_gamma` decodes the Lagrange multipliers back into a new gamma per contact, clamps it to [gamma_min, 0] and snaps it to gamma_min or to 0 within tol;
- `OptimBase`:
  - construction;
  - the a priori velocity vector `c`, with mass and moment terms for the active particles;
  - `run`, without its solve step;
  - the view on the Lagrange multipliers;
- the projected-gradient solvers `uzawa` and `apgd`:
  - the iteration l <- P(l - rho (A l + c)) in Uzawa's plain form and in Nesterov's accelerated form with the momentum sequence theta, beta;
  - the stopping test max|l - l_prev| / (max|l_prev| + 1) < tol_l;
  - the returned iteration count;
- `vap_projection`: copying the solved velocities `u` and rotations `w` into the particles' a priori velocities.

State that the source changes in place is modelled as Dafny classes and
arrays:

- the gamma vectors, counters and buffers of the problem;
- the `c` vector of `OptimBase`;
- the multiplier array `l` of the solvers;
- the particle container updated by `vap_projection`.

Every method is proved against a specification function:

- `UpdatedGamma`, `DistancesUpTo` and `TripletsUpTo` define the gamma update, the distances vector and the COO buffer;
- `VectorCCreated` defines the `c` vector;
- `Iterate` and `Outcome` define the solver loops;
- `VelocityAfter` and `OmegaAfter` define what `vap_projection` writes.

The properties of the source are lemmas about these functions.

The row layout is the central fact. The row count is
n - nmin + nneg + 8 nmin (number_row_matrix_impl). It implies one packing of
the rows:

- free and negative-gamma contacts take consecutive primary rows in contact order;
- their mirrors follow at n - nmin + (rank among the negative contacts);
- each bonded contact k takes a block of 4 rows at base + 4 k;
- a second block of 4 rows at base + 4 nmin + 4 k;
- base = n - nmin + nneg.

This packing is `ViscousRegimes.PackedSlots`. The three functions of the
source that place rows use three other conventions, written out as
`MatrixSlots`, `DistanceSlots` and `DecodeSlots`. The `Layout` value
`AsWritten` selects these three, and `Packed` selects the packing. Each
specification function (`TripletsUpTo`, `DistancesUpTo`, `UpdatedGamma`)
takes the layout as a parameter.

The methods compute the source as written:

- rows placed by `MatrixSlots`, `DistanceSlots` and `DecodeSlots`;
- a COO buffer of 6 x number_row_matrix entries;
- the rotational friction as the source writes it.

Where a write of the source would fall outside its buffer, the method requires that it does not.
`ViscousRegimes.ConventionsAgreeIff` proves when the three conventions agree with the
packing. When they do not, a row lands out of range or two contacts share
a row (see Findings). The structural facts (disjoint rows, rows in range,
every distance on its contact's rows) are proved for the packing. The
lemmas `TripletsAgreeWhenOrdered`, `DistancesAgreeWhenOrdered` and
`UpdatedGammaAgreesWhenOrdered` carry those facts over to the as-written
methods in the two configurations where the conventions agree:

- no bonded contact, with the negative contacts first;
- every contact bonded.

Two corrections are kept beside the as-written forms, with their intended
property proved: a COO buffer of 12 rows' worth of triplets, and the
rotational friction projected with (I - n n^T).

## Model

| member | source | states |
|---|---|---|
| LinAlg.MaxAbsIsMax | include/scopi/solvers/gradient/uzawa.hpp:122 | xt::amax(xt::abs(v)) is non-negative, bounds every entry in absolute value and is attained by one entry |
| LinAlg.MaxAbsSubZero | include/scopi/solvers/gradient/uzawa.hpp:122 | the infinity norm of l - l_prev is 0 exactly when l equals l_prev |
| LinAlg.RelativeChangeDefined | include/scopi/solvers/gradient/uzawa.hpp:122 | the +1 keeps the denominator of the stopping ratio at least 1; the ratio is non-negative and 0 exactly when the iterate did not move |
| LinAlg.ProjectionMaxProperties | include/scopi/solvers/gradient/uzawa.hpp:29 | the default cone projection max(v, 0) lands in the non-negative orthant, fixes points already there and is idempotent |
| GradientLoop.FirstHitAtStop | include/scopi/solvers/gradient/uzawa.hpp:138-142 | when pass k is the first whose test succeeds, the count returned is k + 1 |
| GradientLoop.FirstHitAtEnd | include/scopi/solvers/gradient/uzawa.hpp:143-146 | when no pass below max_iter succeeds, the count returned is max_iter |
| GradientLoop.FirstHitBefore | include/scopi/solvers/gradient/uzawa.hpp:138-142 | the count returned never exceeds k + 1 for any pass k whose test succeeds |
| GradientLoop.FirstHitUnique | include/scopi/solvers/gradient/uzawa.hpp:109-146 | the count returned by the loop is determined by the stopping tests |
| GradientLoop.FirstHitNone | include/scopi/solvers/gradient/uzawa.hpp:143-146 | if none of the first max_iter - 1 passes stops, the count is max_iter |
| GradientLoop.FirstHitZero | include/scopi/solvers/gradient/uzawa.hpp:109 | with max_iter = 0 the loop body never runs and 0 is returned |
| Uzawa.OutcomeUnique | include/scopi/solvers/gradient/uzawa.hpp:105-147 | the iteration count and the final multipliers of the Uzawa loop are unique; with max_iter = 0, l is returned unchanged with count 0 |
| Uzawa.ProjectionMaxPreservesLength | include/scopi/solvers/gradient/uzawa.hpp:29 | the default projection keeps the vector's length, so the class can be instantiated with it |
| Uzawa.NonNegativeAfterStep | include/scopi/solvers/gradient/uzawa.hpp:118 | with projection_max every Uzawa iterate after the first pass is entrywise non-negative |
| Uzawa.Uzawa.constructor | include/scopi/solvers/gradient/uzawa.hpp:95-102 | stores max_iter, rho, tol_dg, tol_l, verbose and the projection |
| Uzawa.Uzawa.Pass | include/scopi/solvers/gradient/uzawa.hpp:111-136 | one pass moves l from iterate k to iterate k + 1, keeps l_prev and dg = A l + c, and the ratio it computes is below tol_l exactly when the stopping test of pass k holds; in verbose mode uu ends as 1/2 A l, otherwise it is unchanged |
| Uzawa.Uzawa.Projection | include/scopi/solvers/gradient/uzawa.hpp:105-147 | the returned count and final l are the unique outcome: the first pass whose relative change is below tol_l, plus one, or max_iter, with l the matching iterate of l <- P(l - rho (A l + c)) |
| Apgd.ThetaBounds | include/scopi/solvers/gradient/apgd.hpp:140 | for theta_old > 0 the new theta satisfies 0 < theta < theta_old, and theta_old^2 + theta > 0 |
| Apgd.BetaSign | include/scopi/solvers/gradient/apgd.hpp:140-141 | for theta_old in (0, 1] the denominator of beta is positive, beta >= 0, and beta = 0 exactly when theta_old = 1 |
| Apgd.Step | include/scopi/solvers/gradient/apgd.hpp:133-142 | one accelerated step keeps the lengths of l and y and strictly decreases theta |
| Apgd.Iterate | include/scopi/solvers/gradient/apgd.hpp:131-170 | the k-th accelerated iterate keeps the lengths and never increases theta |
| Apgd.ThetaAt | include/scopi/solvers/gradient/apgd.hpp:129 | the k-th element of the theta sequence started at 1 lies in (0, 1] |
| Apgd.IterateTheta | include/scopi/solvers/gradient/apgd.hpp:168 | after k passes from theta_old = 1, the solver's theta is ThetaAt(k), whatever the multipliers |
| Apgd.MomentumNonNegative | include/scopi/solvers/gradient/apgd.hpp:140-142 | the theta sequence decreases strictly; every beta of APGD is defined and non-negative, and it is 0 only on the first pass |
| Apgd.FirstPassNoMomentum | include/scopi/solvers/gradient/apgd.hpp:129-142 | starting from theta_old = 1 and y = l, the first pass gives beta = 0, so y equals the projected l |
| Apgd.OutcomeUnique | include/scopi/solvers/gradient/apgd.hpp:122-173 | the count, the final l and the final y of the APGD loop are unique; with max_iter = 0 the count is 0 and l is unchanged |
| Apgd.Apgd.constructor | include/scopi/solvers/gradient/apgd.hpp:111-119 | stores max_iter, rho, tol_dg, tol_l, verbose, the projection and sqrt |
| Apgd.Apgd.Pass | include/scopi/solvers/gradient/apgd.hpp:133-160 | one pass moves (l, y, theta) from state k to state k + 1, keeps l_old and dg = A y + c, and its ratio is below tol_l exactly when the test of pass k holds; in verbose mode uu ends as 1/2 A l, otherwise it is unchanged |
| Apgd.Apgd.Projection | include/scopi/solvers/gradient/apgd.hpp:122-173 | the returned count, final l and y are the unique outcome of the accelerated iteration started from theta = 1, y = l |
| OptimBase.VectorCUnique | include/scopi/solvers/OptimBase.hpp:183-206 | the vector c that create_vector_c leaves is determined by the particles and by c's old contents |
| OptimBase.ThirdVelocitySlotKept | include/scopi/solvers/OptimBase.hpp:195 | in 2D the third mass slot of every active particle keeps its old value |
| OptimBase.FillVectorC | include/scopi/solvers/OptimBase.hpp:193-205 | c[c_dec + 3 i + d] = -m_i vd_i[d] for d < dim, c[c_dec + 3 na + 3 i + d] = -j_i[d] omega_i[d], every other entry unchanged |
| OptimBase.OptimBase.constructor | include/scopi/solvers/OptimBase.hpp:172-179 | c is a fresh zero vector of size cSize, the problem is built for nparts particles, dt and tol, and c_dec is stored |
| OptimBase.OptimBase.CreateVectorC | include/scopi/solvers/OptimBase.hpp:183-206 | the active particles' mass and moment terms are written at c_dec and c_dec + 3 nb_active; the rest of c is unchanged |
| OptimBase.OptimBase.Run | include/scopi/solvers/OptimBase.hpp:158-169 | run leaves c as create_vector_c defines it and the problem's distances vector as create_vector_distances writes it; gamma, the counters, m_gamma_old, m_contacts_old, the COO buffers and the should_solve answer are unchanged |
| OptimBase.OptimBase.ShouldSolve | include/scopi/solvers/OptimBase.hpp:257-261 | should_solve answers exactly what the problem's should_solve answers |
| OptimBase.OptimBase.GetLagrangeMultiplier | include/scopi/solvers/OptimBase.hpp:231-235 | the view has number_row_matrix entries, equal to the first entries of the solver's data |
| VapProjection.CopyEntries | include/scopi/vap/vap_projection.hpp:30-37 | particle active_ptr + i gets u(i, d) for d < dim and w(i, 2) as omega; its other velocity components and every other particle are untouched |
| VapProjection.OmegaReadsColumnTwo | include/scopi/vap/vap_projection.hpp:36 | only column 2 of w matters: two w that agree there give the same omegas |
| VapProjection.CopyIdempotent | include/scopi/vap/vap_projection.hpp:27-38 | setting the a priori velocity twice is the same as setting it once |
| VapProjection.VapProjection.constructor | src/vap/vap_projection.cpp:6-9 | stores N_active, active_ptr and dt; the third argument is ignored |
| VapProjection.VapProjection.SetUW | src/vap/vap_projection.cpp:11-15 | stores u and w |
| VapProjection.VapProjection.CopyRow | include/scopi/vap/vap_projection.hpp:32-35 | the inner loop copies row i of u into particle active_ptr + i and changes nothing else |
| VapProjection.VapProjection.SetAPrioriVelocity | include/scopi/vap/vap_projection.hpp:27-38 | vd and omega become VelocityAfter and OmegaAfter of their old values; the other fields of the container are unchanged |
| VapProjection.VapProjection.UpdateVelocity | include/scopi/vap/vap_projection.hpp:40-42 | changes nothing |
| ViscousRegimes.CountsBounded | include/scopi/problems/ViscousWithFriction.hpp:323-333 | set_gamma's two counters together never exceed the number of contacts, so n - nmin does not wrap |
| ViscousRegimes.RegimesPartition | include/scopi/problems/ViscousWithFriction.hpp:56-66 | every contact is in exactly one of the free, negative and bonded regimes |
| ViscousRegimes.NegativeCountMatches | include/scopi/problems/ViscousWithFriction.hpp:325 | set_gamma's count of negative gammas is at most the assembly's; the two are equal exactly when no gamma is below gamma_min |
| ViscousRegimes.NoUndercountAboveMin | include/scopi/problems/ViscousWithFriction.hpp:325 | when every gamma is at least gamma_min, set_gamma misses no negative contact |
| ViscousRegimes.RowCountBounds | include/scopi/problems/ViscousWithFriction.hpp:376-379 | with set_gamma's counters, the row count is n + nneg + 7 nmin, at least n |
| ViscousRegimes.RowCountFacts | include/scopi/problems/ViscousWithFriction.hpp:376-379 | with consistent counters and gammas at least gamma_min, the row count is the sum of the regimes' allocations (1, 2, 8 rows) |
| ViscousRegimes.SumRowsByRegime | include/scopi/problems/ViscousWithFriction.hpp:378 | the allocation sum is (free) + 2 (negative) + 8 (bonded) |
| ViscousRegimes.RowCountIsSumOfAllocations | include/scopi/problems/ViscousWithFriction.hpp:376-379 | the row count equals the sum of the allocations exactly when the two classifications of negative contacts agree |
| ViscousRegimes.PackedSlotsInBounds | include/scopi/problems/ViscousWithFriction.hpp:378 | every row the packing gives a contact lies in [0, row count) |
| ViscousRegimes.PackedSlotsDisjoint | include/scopi/problems/ViscousWithFriction.hpp:54-304 | two different contacts own disjoint sets of rows in the packing |
| ViscousRegimes.PackedOrder | include/scopi/problems/ViscousWithFriction.hpp:385-403 | the packing keeps contact order inside each block |
| ViscousRegimes.PackedBlocks | include/scopi/problems/ViscousWithFriction.hpp:376-384 | free and negative primaries lie below n - nmin, negative mirrors in [n - nmin, base), bonded blocks in [base, base + 4 nmin) and [base + 4 nmin, base + 8 nmin) |
| ViscousRegimes.DecodeSlotsByCounters | include/scopi/problems/ViscousWithFriction.hpp:346-362 | the running counters ind_gamma_neg and ind_gamma_min give exactly the rows update_gamma_impl reads: i, n - nmin + ind_gamma_neg, or the two bonded block heads |
| ViscousRegimes.DistanceSlotsByCounters | include/scopi/problems/ViscousWithFriction.hpp:385-403 | the running counters index_dry and index_friciton give exactly the rows create_vector_distances_impl writes: index_dry, n - nmin + index_dry, or the two bonded block heads |
| ViscousRegimes.PlacementsAgreeWhenOrdered | include/scopi/problems/ViscousWithFriction.hpp:62-68 | with no bonded contact and the negative contacts first, or every contact bonded, the matrix, distances and decoding placements as written all equal the packing |
| ViscousRegimes.AgreeWhenOrdered | include/scopi/problems/ViscousWithFriction.hpp:62-68 | when there is no bonded contact and the negative contacts come first, or every contact is bonded, the matrix placement equals the packing and all three conventions agree |
| ViscousRegimes.DisagreeOtherwise | include/scopi/problems/ViscousWithFriction.hpp:62-68 | in every other configuration some contact is placed differently by the three conventions |
| ViscousRegimes.ConventionsAgreeIff | include/scopi/problems/ViscousWithFriction.hpp:62-68 | the matrix, distances and decoding conventions agree with the packing everywhere if and only if the configuration is one of the two above |
| ViscousRegimes.MatrixSlotsInBoundsWhenOrdered | include/scopi/problems/ViscousWithFriction.hpp:146-151 | in those configurations the as-written matrix rows lie inside the row count |
| ViscousRegimes.MirrorRowOutOfRange | include/scopi/problems/ViscousWithFriction.hpp:68 | for gammas (0, -1) the matrix and distances put the mirror of contact 1 at row 3 of 3 rows; decoding and the packing use row 2 |
| ViscousRegimes.FreeRowCollidesWithBonded | include/scopi/problems/ViscousWithFriction.hpp:62 | for gammas (-3, 0) the matrix puts the free contact 1 on row 1, inside the bonded block of contact 0; the distances and the packing use row 0 |
| ViscousRegimes.BondedRowOutOfRange | include/scopi/problems/ViscousWithFriction.hpp:146-151 | for gammas (0, -3) the matrix puts the second block of the bonded contact at rows 9..12 of 9 rows |
| ViscousRegimes.DecodedForce | include/scopi/problems/ViscousWithFriction.hpp:346-364 | regime by regime, the decoded force is lambda(i) for a free contact, lambda(i) - lambda(n - nmin + ind_gamma_neg) for a negative one, and lambda(base + 4 ind_gamma_min) - lambda(base + 4 nmin + 4 ind_gamma_min) for a bonded one, every index inside lambda |
| ViscousRegimes.UpdatedGammaAgreesWhenOrdered | include/scopi/problems/ViscousWithFriction.hpp:344-370 | in the two ordered configurations the as-written gamma update reads the packed rows and gives the same new gammas |
| ViscousRegimes.UpdatedGammaInRange | include/scopi/problems/ViscousWithFriction.hpp:365-370 | every updated gamma lies in [gamma_min, 0] |
| ViscousRegimes.DecodeInBoundsAtRowCount | include/scopi/problems/ViscousWithFriction.hpp:351-362 | a multiplier vector of number_row_matrix entries covers every row the decoding reads, as written and in the packing |
| ViscousRegimes.SnapInRange | include/scopi/problems/ViscousWithFriction.hpp:365-370 | clamping then snapping gives a value in [gamma_min, 0] |
| ViscousRegimes.SnapAwayFromZero | include/scopi/problems/ViscousWithFriction.hpp:369-370 | a snapped gamma is 0 or at most -tol |
| ViscousRegimes.SnapAwayFromMin | include/scopi/problems/ViscousWithFriction.hpp:367-368 | when gamma_min + tol <= -tol, a snapped gamma is gamma_min or at least gamma_min + tol |
| ViscousRegimes.SnapIdempotent | include/scopi/problems/ViscousWithFriction.hpp:365-370 | snapping a snapped value changes nothing |
| ViscousRegimes.ZeroMultipliersKeepSnappedGamma | include/scopi/problems/ViscousWithFriction.hpp:344-370 | zero multipliers give zero forces and leave already snapped gammas unchanged |
| ViscousRegimes.DistanceInBoundsAtRowCount | include/scopi/problems/ViscousWithFriction.hpp:384-403 | with consistent counters every packed slot fits in the zero vector of row-count length |
| ViscousRegimes.DistancesAgreeWhenOrdered | include/scopi/problems/ViscousWithFriction.hpp:384-403 | in the two ordered configurations every as-written write lies in the vector and the distances vector as written equals the packed one |
| ViscousRegimes.DistanceOfContactWhenOrdered | include/scopi/problems/ViscousWithFriction.hpp:382-405 | in those configurations the as-written distances vector holds d_ij at each contact's packed primary row and -d_ij at its mirror |
| ViscousRegimes.NegativeMirrorOnFrictionRow | include/scopi/problems/ViscousWithFriction.hpp:394 | for gammas (0, 0, -1, -3) the mirror of the negative contact 2 is written at row 5, a friction row of the bonded contact 3, and the finished vector holds -d_ij there |
| ViscousRegimes.WrittenByContact | include/scopi/problems/ViscousWithFriction.hpp:391-401 | in either layout, after contact i its primary slot holds d_ij and its mirror slot holds -d_ij |
| ViscousRegimes.DistanceOfContact | include/scopi/problems/ViscousWithFriction.hpp:382-405 | in the packed distances vector each contact's primary holds d_ij and its mirror -d_ij, whatever the later contacts write |
| ViscousRegimes.FrictionDistancesZero | include/scopi/problems/ViscousWithFriction.hpp:400-401 | in the packed distances vector the three friction rows after each normal row of a bonded contact stay 0 |
| ViscousRegimes.UnwrittenSlotZero | include/scopi/problems/ViscousWithFriction.hpp:384 | in the packed distances vector a row no contact writes keeps the 0 of xt::zeros |
| ViscousMatrix.Entries | include/scopi/problems/ViscousWithFriction.hpp:60-72 | one entry per column, two for a pair of rows; each lands on the contact's row or mirror, in one of the given columns |
| ViscousMatrix.EndBlock | include/scopi/problems/ViscousWithFriction.hpp:142-182 | an endpoint writes 3 triplets per owned row (3, 6 or 24), all on the contact's rows and in the endpoint's columns |
| ViscousMatrix.TransBlock | include/scopi/problems/ViscousWithFriction.hpp:58-92 | an inactive endpoint writes nothing; an active one writes 3 rows' worth of triplets in its three velocity columns |
| ViscousMatrix.RotBlock | include/scopi/problems/ViscousWithFriction.hpp:99-301 | the same for the rotation columns, offset by 3 nb_active, or by 3 m_nparticles for a bonded contact; the friction values are those the source writes |
| ViscousMatrix.ContactTriplets | include/scopi/problems/ViscousWithFriction.hpp:56-302 | a contact emits 6 triplets per owned row for each active endpoint |
| ViscousMatrix.TripletCount | include/scopi/problems/ViscousWithFriction.hpp:54-304 | the loop emits 6 x (owned rows x active endpoints) triplets in total |
| ViscousMatrix.ActiveRowsBounds | include/scopi/problems/ViscousWithFriction.hpp:58-76 | the weighted row total is at most twice the owned rows, and equal to them when every contact has exactly one active endpoint |
| ViscousMatrix.TripletsAgainstBuffer | include/scopi/problems/ViscousWithFriction.hpp:47-50 | the triplets number at most 12 x rows, and exactly 6 x rows when every contact has one active endpoint |
| ViscousMatrix.BufferNeededSuffices | include/scopi/problems/ViscousWithFriction.hpp:47-50 | a buffer of 12 x rows holds all triplets |
| ViscousMatrix.BufferAsWrittenOverflows | include/scopi/problems/ViscousWithFriction.hpp:47 | one free contact with both endpoints active emits 12 triplets into the 6-entry buffer |
| ViscousMatrix.TripletsAgreeWhenOrdered | include/scopi/problems/ViscousWithFriction.hpp:54-304 | in the two ordered configurations the as-written assembly emits the packed triplets, contact by contact |
| ViscousMatrixRows.TransBlockCols | include/scopi/problems/ViscousWithFriction.hpp:58-92 | the velocity triplets of an endpoint among the active particles lie in the velocity columns [firstCol, firstCol + 3 nb_active) |
| ViscousMatrixRows.RotBlockCols | include/scopi/problems/ViscousWithFriction.hpp:231-301 | the rotation triplets of such an endpoint lie in the rotation columns [firstCol + 3 nb_active, firstCol + 6 nb_active), when m_nparticles = nb_active for a bonded contact |
| ViscousMatrixRows.ContactTripletRows | include/scopi/problems/ViscousWithFriction.hpp:56-302 | every triplet of a contact lies on a row the contact owns |
| ViscousMatrixRows.ContactTripletCols | include/scopi/problems/ViscousWithFriction.hpp:56-302 | every triplet of a contact lies in the 6 nb_active columns after firstCol |
| ViscousMatrixRows.RotationColumnsAgreeIff | include/scopi/problems/ViscousWithFriction.hpp:238 | offsetting the bonded rotation columns by m_nparticles gives the non-bonded columns if and only if m_nparticles = nb_active |
| ViscousFriction.EntriesAt | include/scopi/problems/ViscousWithFriction.hpp:60-72 | the triplet for column t sits at index t, or at 2t on the row and 2t + 1 on the mirror with the negated value |
| ViscousFriction.FrictionRowsRepeated | include/scopi/problems/ViscousWithFriction.hpp:156-181 | friction row r, column c is written on row + 1 + r and on mirror + 1 + r with the same value f[r][c] |
| ViscousFriction.EndBlockNegated | include/scopi/problems/ViscousWithFriction.hpp:142-223 | negated normal values and friction give triplets on the same rows with the negated values |
| ViscousFriction.TransEndsOpposite | include/scopi/problems/ViscousWithFriction.hpp:58-92 | for a non-bonded contact the velocity triplets of j are those of i negated |
| ViscousFriction.BondedFrictionAt | include/scopi/problems/ViscousWithFriction.hpp:156-181 | an endpoint of a bonded contact writes 24 triplets; the diagonal friction entry d sits on row + 1 + d and on mirror + 1 + d |
| ViscousFriction.TransFrictionDiagonal | include/scopi/problems/ViscousWithFriction.hpp:162-166 | the diagonal of the translational friction is k - k n_d^2 |
| ViscousFriction.BondedDiagonal | include/scopi/problems/ViscousWithFriction.hpp:144-166 | for endpoint i of a bonded contact the triplet at row + 1 + d, column firstCol + 3k + d holds dt mu - dt mu n_d^2, on both blocks |
| ViscousFriction.TransFrictionTangential | include/scopi/problems/ViscousWithFriction.hpp:162-166 | for a unit normal, every column of the translational friction block is orthogonal to n |
| ViscousFriction.RotFrictionNotTangential | include/scopi/problems/ViscousWithFriction.hpp:253 | the rotational friction as written is not tangential: n = (0.6, 0.8, 0) and the identity lever give n^T F e_0 = 0.24 k |
| ViscousFriction.ProjectedRotFrictionTangential | include/scopi/problems/ViscousWithFriction.hpp:253 | the projected rotational friction -k (I - n n^T) D is orthogonal to n column by column |
| ViscousWithFriction.Resized | include/scopi/problems/ViscousWithFriction.hpp:48-50 | std::vector::resize: size as asked, old prefix kept, new entries zero |
| ViscousWithFriction.FillTriplets | include/scopi/problems/ViscousWithFriction.hpp:54-304 | the buffers hold the rows, columns and values of the triplets in order, followed by their old contents |
| ViscousWithFriction.AssembleCoo | include/scopi/problems/ViscousWithFriction.hpp:42-308 | the COO buffers, resized to 6 x rows, start with every contact's triplets at their as-written rows, in contact order |
| ViscousWithFriction.DecodeAndSnap | include/scopi/problems/ViscousWithFriction.hpp:344-372 | the loop with its two running counters computes the as-written gamma update |
| ViscousWithFriction.UpdateOne | include/scopi/problems/ViscousWithFriction.hpp:346-370 | with the running counters, one iteration computes the updated gamma of contact i |
| ViscousWithFriction.DecodeForce | include/scopi/problems/ViscousWithFriction.hpp:346-364 | f_contact is lambda(i), minus lambda(n - nmin + ind_gamma_neg) for a negative contact, and the difference of the two block heads for a bonded one |
| ViscousWithFriction.ClampAndSnap | include/scopi/problems/ViscousWithFriction.hpp:365-370 | max(gamma_min, min(0, x)) followed by the two snaps |
| ViscousWithFriction.FillDistances | include/scopi/problems/ViscousWithFriction.hpp:384-404 | with the running counters index_dry and index_friciton, the distances vector is the as-written one over all contacts |
| ViscousWithFriction.WriteContactDistance | include/scopi/problems/ViscousWithFriction.hpp:389-403 | one iteration writes d_ij and -d_ij into the contact's as-written slots and nothing else |
| ViscousWithFriction.ViscousWithFriction.constructor | include/scopi/problems/ViscousWithFriction.hpp:311-315 | gamma_min = -3, mu = 0.1, empty gamma vectors, zero counters, empty buffers |
| ViscousWithFriction.ViscousWithFriction.SetGamma | include/scopi/problems/ViscousWithFriction.hpp:318-334 | nb_gamma_neg counts gammas in (gamma_min, -tol), nb_gamma_min counts gammas equal to gamma_min; their sum is at most the number of contacts; m_gamma_old, m_contacts_old, the buffers and the should_solve answer are unchanged |
| ViscousWithFriction.ViscousWithFriction.NumberRowMatrix | include/scopi/problems/ViscousWithFriction.hpp:376-379 | the row count is n + nneg + 7 nmin >= n and, with gammas at least gamma_min, the sum of the per-regime allocations |
| ViscousWithFriction.ViscousWithFriction.GetNbGammaMin | include/scopi/problems/ViscousWithFriction.hpp:408-411 | the number of bonded contacts |
| ViscousWithFriction.ViscousWithFriction.UpdateGamma | include/scopi/problems/ViscousWithFriction.hpp:337-373 | m_contacts_old becomes the contacts and m_gamma_old the as-written update, every entry in [gamma_min, 0], every read inside the multipliers; gamma, the counters, the buffers and the should_solve answer are unchanged |
| ViscousWithFriction.ViscousWithFriction.CreateVectorDistances | include/scopi/problems/ViscousWithFriction.hpp:382-405 | the distances vector has number_row_matrix entries and is the as-written one; the rest of the state is unchanged |
| ViscousWithFriction.ViscousWithFriction.CreateMatrixConstraintCoo | include/scopi/problems/ViscousWithFriction.hpp:42-308 | the three COO buffers are fresh, sized 6 x rows, and start with the as-written triplets of every contact in order |

## Left out

- set_gamma_base (ViscousBase) is not part of this model. SetGamma takes the new gamma vector directly. The methods require |contacts| = |gamma|, which set_gamma_base establishes.
- m_tol comes from ViscousBase, which is not part of this model. The ViscousWithFriction and OptimBase constructors take it as an extra parameter.
- cross_product and rotation_matrix are not part of this model. The skew matrix is a function in the Geometry value; the rotation matrices are data.
- std::sqrt is a function parameter of the APGD solver, constrained by IsSqrt.
- Floating-point rounding: all arithmetic is on reals.
- Unsigned wrap-around of std::size_t: indices are unbounded integers. CountsBounded shows that n - nmin cannot wrap under set_gamma's counters.
- PLOG logging, the PLOG_WARNING in update_gamma_impl and tic/toc timing in run: output only.
- MKL status codes: none is modelled.
- The MKL sparse matrix: the solvers take a dense matrix A.
- The verbose printouts of the solvers: the cost and constraint values. m_uu is modelled only in its final value 1/2 A l; the A l + c it holds first feeds the printed constraint.
- m_tol_dg of both solvers is stored and never read, as the source documents.
- OptimBase.OptimBase.Run: the solve_optimization_problem step (a derived-class hook) and get_nb_active_contacts are not modelled.
- get_uadapt, get_wadapt, get_params, problem(), extra_steps and constraint_data of OptimBase: views on the derived solver's data that are not part of this model.
- The problem's own should_solve belongs to the problem base class, which is not part of this model. The problem class carries its answer as the field shouldSolve.
- get_omega is not part of this model. The container stores j and desired_omega as the vectors of R^3 it returns.
- vap omega: one scalar per particle, the 2D form that the write of w(i, 2) implies.
- The constructor of vap_projection: the header declares it with three arguments (hpp:17), the .cpp file defines it with four. The model follows the definition.
- The solver of include/scopi/solvers/gradient/projected_gradient.hpp is not modelled. The Dafny module GradientLoop (gradient_loop.dfy) holds only the gradient step and the loop-exit lemmas that uzawa and apgd share.
- ViscousFriction.TransEndsOpposite is stated for non-bonded contacts only. For a bonded contact the friction values of j are also negated; EndBlockNegated covers that case.
- ViscousWithFriction.ViscousWithFriction.UpdateGamma requires every gamma to be at least gamma_min. The clamp at :365 keeps that invariant from update to update. Below gamma_min the source miscounts; NegativeCountMatches says when.
- ViscousWithFriction.ViscousWithFriction.CreateVectorDistances, FillDistances, WriteContactDistance and OptimBase.OptimBase.Run require that every distance write falls inside the vector. Otherwise the source writes out of range (MirrorRowOutOfRange), which is undefined behaviour in C++ and is not represented. DistancesAgreeWhenOrdered shows that the two ordered configurations meet this requirement.
- ViscousWithFriction.ViscousWithFriction.CreateMatrixConstraintCoo and AssembleCoo require that the triplets fit the 6 x rows buffer. The source overflows it otherwise (BufferAsWrittenOverflows). TripletsAgainstBuffer shows the fit holds when every contact has one active endpoint.
- The as-written methods are not promised the packing's disjointness and range facts outside the two ordered configurations. There, two contacts can share a row (FreeRowCollidesWithBonded, NegativeMirrorOnFrictionRow).
- LinAlg.MaxAbs of the empty vector is 0. xt::amax reduces from the lowest double, so the source's stopping ratio for an empty l differs. Zero contacts are screened out by should_solve before any solver runs.
- ViscousMatrixRows.ContactTripletCols and ViscousMatrixRows.RotBlockCols require m_nparticles = nb_active for a bonded contact. Otherwise its rotation columns differ from the non-bonded ones (RotationColumnsAgreeIff).

## Findings

| source | as written | input that shows it | evidently intended | confidence | as-written member | corrected member |
|---|---|---|---|---|---|---|
| include/scopi/problems/ViscousWithFriction.hpp:68 | the mirror row of a negative-gamma contact is n - nmin + ic, using the overall contact index; the distances at :394 use n - nmin + index_dry, see the next row | gammas (0, -1): the mirror of contact 1 is row 3 in a matrix of 3 rows | n - nmin + (rank among negative contacts), as update_gamma_impl reads it at :351 | not executed | ViscousRegimes.MirrorRowOutOfRange | ViscousRegimes.PackedSlotsInBounds |
| include/scopi/problems/ViscousWithFriction.hpp:62 | the primary row of a non-bonded contact is ic, and update_gamma_impl reads lambda(i) at :356, both counting bonded contacts | gammas (-3, 0): the free contact 1 gets row 1, inside the bonded block of contact 0, which starts at row 1 | the dry index index_dry, as create_vector_distances_impl uses at :391 | not executed | ViscousRegimes.FreeRowCollidesWithBonded | ViscousRegimes.PackedSlotsDisjoint |
| include/scopi/problems/ViscousWithFriction.hpp:394 | the mirror distance of a negative-gamma contact is written at n - nmin + index_dry, using the dry index | gammas (0, 0, -1, -3): the mirror of contact 2 goes to row 5, the first friction row of the bonded contact 3, while update_gamma_impl reads that mirror at row 3 | n - nmin + (rank among negative contacts), the row update_gamma_impl reads at :351, leaving the friction rows 0 | not executed | ViscousRegimes.NegativeMirrorOnFrictionRow | ViscousRegimes.FrictionDistancesZero |
| include/scopi/problems/ViscousWithFriction.hpp:146-151 | the bonded blocks start at base + 4 ic and base + 4 nmin + 4 ic, using the overall contact index | gammas (0, -3): the second bonded block is rows 9..12 of a 9-row matrix | the bonded rank, as index_friciton at :400 and ind_gamma_min at :361 | not executed | ViscousRegimes.BondedRowOutOfRange | ViscousRegimes.PackedBlocks |
| include/scopi/problems/ViscousWithFriction.hpp:47 | the COO buffers get 6 x number_row_matrix entries | one free contact whose two particles are both active: 12 triplets, 6 slots | 12 x rows, enough when both endpoints are active | not executed | ViscousMatrix.BufferAsWrittenOverflows | ViscousMatrix.BufferNeededSuffices |
| include/scopi/problems/ViscousWithFriction.hpp:253 | rotational friction entry -mu dt D(r, c) + mu dt (n . D(:, c)), without the factor n_r on the second term (also :261, :289, :297) | n = (0.6, 0.8, 0), D = identity: n^T F e_0 = 0.24 mu dt, not 0 | -mu dt (I - n n^T) D, tangential like the translational block at :162 | not executed | ViscousFriction.RotFrictionNotTangential | ViscousFriction.ProjectedRotFrictionTangential |
