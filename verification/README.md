# Nearest-segment displacement maps of VAST, in Dafny

VAST's `generate_mappings_m3l.py` couples a beam solver to the vortex-lattice
solver. It transfers nodal quantities between two point clouds, the mesh nodes
(`mesh`, n points) and the target nodes (`oml`, m points). What the mesh is
depends on the caller:

- `VASTNodelDisplacements` (line 30) passes `initial_mesh[i]`, the vortex-lattice
  surface mesh, to `fmap`;
- `EBBeamNodalDisplacements` (lines 109-113) passes the beam mesh to `umap`.

In both cases `oml` is `nodal_displacements_mesh`. The transfer goes through a
sparse weight matrix:

- `fmap` builds an n×m matrix, filled column by column.
- `umap` builds an m×n matrix, filled row by row.

For every target node p, both builders go through the same three steps:

1. pick the two mesh nodes nearest to p, `ia` and `ib` (`np.argsort(dist)[:2]`);
2. project p onto the line through a = mesh[ia] and b = mesh[ib];
3. write two interpolation weights, `(l - ac)/length` at a and `(l - bc)/length`
   at b, where `l = max(length, bc)`.

The matrix is then applied to a field with `csdl.matmat`.

The model is split into modules:

- `Geometry`: points and exact real vector algebra.
- `Selection`: the nearest-two choice.
- `Weights`: the weight pair.
  - It is written over the square-root-free ratio u = (p-a)·(b-a)/|b-a|².
  - It is linked by `CodeWeightsAgree` to the code's own sequence of norms and divisions.
- `Matrices`: dense matrices, transpose and product.
- `Mapping`: the two builders as functions.
- `MappingArrays`: the two builders as loops over 2-D arrays, proved equal to the functions.
- `Transfer`: `matmat` with its shape error, and what the transfer computes.

The builders' second loop is modelled for any admissible index array `d`
(`FMapWith`, `UMapWith`). The theorems about that layer (`UMapIsTransposeWith`,
`FMapLocalityWith`, `FMapColumn` and the `Transfer` lemmas) therefore hold for
whichever nearest pairs numpy's unstable argsort returns. `WellPosed` demands
that every nearest pair of every target, in any tie order, names two distinct
points, and `ChoiceAdmissible` turns any such choice into an admissible `d`.
`FMap` and `UMap` plug in the stable pairs that `NearestPairs` chooses, and so
do the theorems that name them: `FMapLocality`, `UMapIsTranspose`, `FMapArray`
and `UMapArray`.

Two things the code does that a reader might not expect:

- **The foot point is not clamped, the weights are.** The comment on line 91
  calls `c` the closest point on the line *segment*, but `t` is never clamped,
  so `c` lies on the infinite line. Lines 95-98 correct for this only on one
  side: `max(length, bc)` pins the pair at (1, 0) before a.
  - Taken over arbitrary a, b and p, lines 95-98 give negative weights past b,
    and the two weights no longer sum to 1. `PartitionOfUnity`,
    `NonNegativeWeights` and `ClampIsOneSided` state exactly where.
  - The builders never reach that regime. `ia` is the nearer node, so every
    target projects no further than the midpoint of its segment
    (`NearestNeverPastMidpoint`, for any tie order). Its weights are those of
    its closest point on the segment [a, b] (`NearerEndWeights`): a weighs
    between 1/2 and 1, b between 0 and 1/2, and the pair sums to 1.
  - So every entry of both matrices lies in [0, 1], every `fmap` column sums
    to 1, `umap` reproduces constant fields and `fmap` conserves totals, with
    no proviso (`EntriesBounded`, `FMapColumnsSumToOne`,
    `UMapReproducesConstant`, `FMapTotalConserved`).
- **Ties between equal distances are unspecified.** Index order decides them only
  under a stable sort, and the code calls the default (non-stable) argsort.
  `NearestTwo` makes the stable choice. The theorems of the `FMapWith` layer are
  stated for any nearest choice; those about `FMap` and `UMap` for the stable one.

## Model

| member | source | states |
|---|---|---|
| Selection.SqDists | VAST/core/generate_mappings_m3l.py:78 | one squared distance per mesh node, entry k being the squared distance from node k to the target; none is negative, and a node on the target is at distance 0 |
| Geometry.SqDistSign | VAST/core/generate_mappings_m3l.py:78 | a sum of squared coordinate differences is nonnegative, and zero between equal points |
| Selection.NearestTwo | VAST/core/generate_mappings_m3l.py:79 | the first two argsort positions: two distinct nodes, the first no farther than the second, every other node no nearer than the second; ties resolved toward the lower index |
| Selection.NearestFirst | VAST/core/generate_mappings_m3l.py:79 | the first index of the pair is a nearest node overall |
| Selection.StableChoiceUnique | VAST/core/generate_mappings_m3l.py:79 | nearest-pair plus lower-index tie-breaking determines the pair uniquely |
| Selection.NearestPairs | VAST/core/generate_mappings_m3l.py:76-79 | the index array `d`: one pair per target, each a nearest pair for that target's distances |
| MappingArrays.IndexArray | VAST/core/generate_mappings_m3l.py:155-158 | the loop filling `d` yields, for every target, a nearest pair of its distance vector, and agrees with `NearestPairs` |
| Weights.SegmentWeights | VAST/core/generate_mappings_m3l.py:94-98 | the weight pair in its four regimes of u: (1-u, u) on the segment, (1, 0) before a, (1-u, 2-u) for 1<u≤2, (-1, 0) beyond |
| Weights.UnitDirection | VAST/core/generate_mappings_m3l.py:89 | `norm` scaled back by `length` is b - a, and it has unit length when `length` is the norm of b - a |
| Weights.ScalarProjection | VAST/core/generate_mappings_m3l.py:90 | when `length` is the norm of b - a, t/length is the square-root-free projection ratio u |
| Weights.ClosestPoint | VAST/core/generate_mappings_m3l.py:92 | when `length` is the norm of b - a, the foot c lies at squared distance t² from a and (t - length)² from b |
| Weights.FootDistances | VAST/core/generate_mappings_m3l.py:88-94 | for c = a + t·norm with `norm` the unit direction, the squared distance from c to a is t² and from c to b is (t - length)² |
| Weights.CodeWeights | VAST/core/generate_mappings_m3l.py:95-98 | the weight at b is nonnegative, the two weights differ by (bc - ac)/length, and when ac + bc = length the clamp is inactive and the pair is (bc, ac)/length |
| Weights.NearerEndProjection | VAST/core/generate_mappings_m3l.py:78-90 | a target is no farther from a than from b if and only if its projection u is at most 1/2 |
| Weights.NearerEndWeights | VAST/core/generate_mappings_m3l.py:90-98 | for a target no farther from a than from b, the pair is (1 - s, s) with s = max(0, u), the weights of its closest point on the segment: wa in [1/2, 1], wb in [0, 1/2], sum 1 |
| Weights.CodeWeightsAgree | VAST/core/generate_mappings_m3l.py:88-98 | the code's steps (norm, t, c, ac, bc, max clamp, two divisions) give the closed-form pair for every nonnegative choice of the three square roots |
| Weights.PartitionOfUnity | VAST/core/generate_mappings_m3l.py:95-98 | the two weights sum to 1 if and only if the projection does not pass b |
| Weights.NonNegativeWeights | VAST/core/generate_mappings_m3l.py:95-98 | both weights are nonnegative if and only if the projection does not pass b |
| Weights.BoundedWeights | VAST/core/generate_mappings_m3l.py:95-98 | whatever the target, the weight at a stays in [-1, 1] and the weight at b in [0, 1] |
| Weights.OnSegmentExact | VAST/core/generate_mappings_m3l.py:90-98 | a target at fraction f in [0, 1] along the segment gets exactly (1-f, f) |
| Weights.CoincidentTarget | VAST/core/generate_mappings_m3l.py:94-98 | a target sitting on node a gets weights (1, 0) |
| Weights.ProjectionReversed | VAST/core/generate_mappings_m3l.py:89-90 | measuring from b instead of a turns u into 1 - u |
| Weights.SwapInvariantOnSegment | VAST/core/generate_mappings_m3l.py:84-98 | on the segment, exchanging ia and ib exchanges the two weights and nothing else |
| Weights.ClampIsOneSided | VAST/core/generate_mappings_m3l.py:95 | past b, the exchanged pair would be (1, 0) while the pair as computed gives a a negative weight |
| Matrices.Zeros | VAST/core/generate_mappings_m3l.py:82 | `np.zeros((n, m))`: an n×m matrix whose every entry is 0 |
| Matrices.Set | VAST/core/generate_mappings_m3l.py:97 | one entry assignment: the named cell takes the value, every other cell keeps its own |
| Mapping.StencilTotal | VAST/core/generate_mappings_m3l.py:84-98 | the stencil of target i spreads a total weight of 1 exactly when the target does not project past b |
| Mapping.WriteColumn | VAST/core/generate_mappings_m3l.py:97-98 | the two assignments set rows ia and ib of column i to the stencil and leave every other cell as it was |
| Mapping.WriteRow | VAST/core/generate_mappings_m3l.py:176-177 | the two assignments set columns ia and ib of row i to the stencil and leave every other cell as it was |
| Mapping.FillColumns | VAST/core/generate_mappings_m3l.py:82-98 | after k iterations, visited columns hold their target's stencil and later columns are still zero |
| Mapping.FillRows | VAST/core/generate_mappings_m3l.py:161-177 | after k iterations, visited rows hold their target's stencil and later rows are still zero |
| Mapping.FMapWith | VAST/core/generate_mappings_m3l.py:82-100 | n×m matrix; column i holds the segment weights at rows ia and ib and zero everywhere else |
| Mapping.FMap | VAST/core/generate_mappings_m3l.py:70-100 | with the stable nearest pairs: n×m, column i holds the segment weights of target i at its two nearest nodes and zero at every other node |
| Mapping.UMap | VAST/core/generate_mappings_m3l.py:149-179 | with the stable nearest pairs: m×n, row i holds the segment weights of target i at its two nearest nodes and zero at every other node |
| Mapping.CoincidentChoiceIllPosed | VAST/core/generate_mappings_m3l.py:76-89 | if any nearest pair of some target, in any tie order, names two nodes at the same position, the input is not well posed (`length` would be 0) |
| Mapping.ChoiceAdmissible | VAST/core/generate_mappings_m3l.py:76-88 | on well-posed input, every index array argsort could return (any tie order) is admissible for the second loop |
| Mapping.UMapWith | VAST/core/generate_mappings_m3l.py:161-179 | m×n matrix; row i holds the segment weights at columns ia and ib and zero everywhere else |
| Mapping.FMapColumn | VAST/core/generate_mappings_m3l.py:82-98 | every column of the `fmap` matrix is exactly its target's stencil |
| Mapping.UMapIsTranspose | VAST/core/generate_mappings_m3l.py:149-179 | `umap(mesh, oml)` is the transpose of `fmap(mesh, oml)` |
| Mapping.UMapIsTransposeWith | VAST/core/generate_mappings_m3l.py:161-177 | for any admissible index array, the row-wise matrix is the transpose of the column-wise one |
| Mapping.NearestNeverPastMidpoint | VAST/core/generate_mappings_m3l.py:76-98 | for any nearest pair argsort returns, the target projects at most to the midpoint, and its weights satisfy wa in [1/2, 1], wb in [0, 1/2], wa + wb = 1 |
| Mapping.ChoiceEntriesBounded | VAST/core/generate_mappings_m3l.py:76-98 | for any nearest choice on well-posed input, every entry of both matrices lies in [0, 1] |
| Mapping.EntriesBounded | VAST/core/generate_mappings_m3l.py:70-100 | every entry of `fmap(mesh, oml)` and of `umap(mesh, oml)` lies in [0, 1] |
| Mapping.FMapLocalityWith | VAST/core/generate_mappings_m3l.py:76-98 | for any nearest choice on well-posed input, a nonzero entry of column i lies at one of the two chosen nodes |
| Mapping.FMapLocality | VAST/core/generate_mappings_m3l.py:76-98 | a nonzero entry of `fmap` lies at one of the two argsort-nearest nodes of its target |
| MappingArrays.FMapArray | VAST/core/generate_mappings_m3l.py:70-100 | the loop over a zeroed n×m array produces, entry for entry, the functional `fmap` matrix |
| MappingArrays.UMapArray | VAST/core/generate_mappings_m3l.py:149-179 | the loop over a zeroed m×n array produces, entry for entry, the functional `umap` matrix |
| MappingArrays.FillColumnsArray | VAST/core/generate_mappings_m3l.py:81-98 | for any admissible index array, the column-writing loop produces the matrix `FMapWith` describes |
| MappingArrays.FillRowsArray | VAST/core/generate_mappings_m3l.py:160-177 | for any admissible index array, the row-writing loop produces the matrix `UMapWith` describes |
| Matrices.MatMul | VAST/core/generate_mappings_m3l.py:117 | a·b has a's rows and b's columns, entry (i, j) being row i of a against column j of b |
| Transfer.Apply | VAST/core/generate_mappings_m3l.py:117 | `matmat` fails exactly when the inner dimensions differ, reporting both; otherwise the product has the outer shape |
| Transfer.UMapTransfer | VAST/core/generate_mappings_m3l.py:117 | every target's mapped value is wa·field[ia] + wb·field[ib], component by component |
| Transfer.ConstantFieldReproduced | VAST/core/generate_mappings_m3l.py:117 | for an arbitrary admissible index array, a constant field reaches every target that does not project past b unchanged |
| Transfer.FMapColumnSum | VAST/core/generate_mappings_m3l.py:97-98 | for an arbitrary admissible index array, a column of the `fmap` matrix sums to 1 if and only if its target does not project past b |
| Transfer.FMapConservesTotal | VAST/core/generate_mappings_m3l.py:34 | for an arbitrary admissible index array under which no target projects past b, applying the `fmap` matrix preserves each component's total over the nodes |
| Transfer.ChoiceColumnsSumToOne | VAST/core/generate_mappings_m3l.py:76-98 | for any nearest choice on well-posed input, every column of the `fmap` matrix sums to exactly 1 |
| Transfer.FMapColumnsSumToOne | VAST/core/generate_mappings_m3l.py:70-100 | every column of `fmap(mesh, oml)` sums to exactly 1 |
| Transfer.ChoiceReproducesConstant | VAST/core/generate_mappings_m3l.py:117 | for any nearest choice on well-posed input, the `umap` matrix carries a constant field to every target unchanged |
| Transfer.UMapReproducesConstant | VAST/core/generate_mappings_m3l.py:117 | `matmat(umap(mesh, oml), field)` gives every target the value of a constant field |
| Transfer.ChoiceConservesTotal | VAST/core/generate_mappings_m3l.py:34 | for any nearest choice on well-posed input, applying the `fmap` matrix preserves each component's total |
| Transfer.FMapTotalConserved | VAST/core/generate_mappings_m3l.py:34 | `matmat(fmap(mesh, oml), field)` preserves each component's total over the nodes |
| Matrices.ProductColumnSum | VAST/core/generate_mappings_m3l.py:34 | summing a column of a·b over rows equals weighting b's column by a's column sums |

## Left out

- The m3l/CSDL operation classes: `initialize`, `compute` and `evaluate` (lines
  12-67 and 102-146). They only register variables in a computational graph. Of
  them, the model keeps the one arithmetic step, the `matmat` on lines 34 and 117.
  Line 35 uses two names that are never defined (`flatenned_vlm_mesh_forces`,
  `num_nodes`). That graph code is not part of this model.
- `VAST/core/submodels/friction_submodels/eel_viscous_force.py` is not part of
  this model. It does not build or use the nearest-segment weights.
- Floating point: coordinates and weights are exact reals. `np.linalg.norm` takes
  square roots, which the model does not compute. `CodeWeightsAgree` takes the
  three norms as parameters that square to the right values, so the model says
  nothing about rounding.
- The `reshape((-1, 3))` of the callers (lines 30 and 113) is left out. Point
  clouds are sequences of 3-D points.
- Mapping.FMap: requires `WellPosed` (at least two mesh nodes, and for every
  target every nearest pair names two distinct points). With one node, numpy
  broadcasts a single index into both slots of `d`. With coincident nodes,
  `length` is 0. In either case the code divides by zero and yields NaN
  weights rather than raising, and the model does not represent NaN.
  `WellPosed` asks this of every nearest pair in every tie order, not only of
  the stable one, because numpy may return any of them.
- Mapping.UMap: requires `WellPosed`, for the same reason as `FMap`.
- Mapping.FMapWith: requires the index array to be admissible (in range, two
  distinct nodes a nonzero distance apart). That is what the second loop needs
  to avoid the division by zero above.
- Mapping.UMapWith: requires an admissible index array, as `FMapWith` does.
- Selection.NearestTwo: numpy's default argsort (introsort) may order equal
  distances either way. The model fixes the stable order. Which of two tied
  nodes comes first is therefore a choice of the model, not of the code. The
  `FMapWith`-layer theorems take the index array as a parameter and hold for
  every choice. `FMap`, `UMap`, `FMapLocality`, `UMapIsTranspose`, `FMapArray`
  and `UMapArray` are stated for the stable choice only.
- Selection.SqDists: does not promise the converse, that distance 0 means the
  node sits on the target. Over the reals this needs a sum of three squares to
  vanish only when each does, a nonlinear step the model does not prove.
- The index array `d` is stored as floats and converted with `int` on lines 84
  and 163. Indices are small integers, so the model keeps them as naturals.
