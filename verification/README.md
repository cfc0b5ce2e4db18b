# Mortimer scene, BVH and environment-light core in Dafny

A model of the CPU-side preparation step of the mortimer path tracer:

- **Scene** (`src/scene.c`): a scene holds a list of objects, each a loaded
  mesh with a material, plus an environment light. `scene_create_unified_mesh`
  flattens every object's mesh into one vertex buffer and one index buffer.
  Indices are rebased by the vertex count of the earlier meshes, and each
  vertex is tagged with its object's ordinal. It then hands the buffers to
  `trimesh_new`.
- **BVH builder** (`src/trimesh.c`):
  - `trimesh_new` boxes every triangle, with `1e-5` padding.
  - `recursive_split` builds a binary tree over the triangle records and
    appends it in postorder to a flat array of `2n - 1` nodes.
  - The split uses a 12-bucket surface-area heuristic (SAH). Two triangles
    use an equal-counts split about the centroid midpoint instead. The code
    also falls through to that split when the SAH partition sends nothing
    left; under the offset convention described at the end this never happens on three
    or more triangles.
  - The generic swap-based `partition` does the reordering.
- **Environment light** (`src/envlight.c`): `envlight_init_distribution`
  turns a radiance image into the sampling tables. Those are:
  - the per-texel luminance, weighted by each row's `sin(theta)`;
  - the image mean;
  - the marginal inverse CDF over rows;
  - the conditional inverse CDF over the columns of each row.

  `envlight_new_blank_sky` is a 1 by 32 gradient run through the same
  builder.

Modules:
- `Geometry` (`geometry.dfy`): vectors and boxes.
- `Seqs` (`seqs.dfy`): sequence facts.
- `Trimesh` (`trimesh.dfy`).
- `Envlight` (`envlight.dfy`).
- `Scene` (`scene.dfy`).

How C constructs are represented:
- C arrays mutated in place are sequence values that the operations return.
- f32 is `real`, except for the NaN of `0 / 0`. That NaN is kept as a value
  because it decides what the inverse-CDF scans return on black rows and
  black images.
- Row-major `v * width + u` buffers are sequences of rows.

## Model

| member | source | states |
|---|---|---|
| Geometry.Union | src/trimesh.c:91-94 | the union of two boxes encloses both and every point of either; it is solid when one box is solid and the other ordered |
| Geometry.Expand | src/trimesh.c:106-110 | growing a box by a point contains the point and everything the box contained |
| Geometry.SurfaceArea | src/trimesh.c:147-149 | the surface area is positive for a solid box and non-negative for an ordered one, so the SAH division is well defined |
| Geometry.MaxExtentAxis | src/trimesh.c:111 | the chosen axis has the largest extent |
| Geometry.OffsetAlong | src/trimesh.c:72-76 | a point inside the box has offset in `[0, 1]` along every axis |
| Geometry.Centroid | src/trimesh.c:235 | the centre of an ordered box lies inside it |
| Trimesh.Partition | src/trimesh.c:19-41 | the result is a permutation of the input in which the returned `k` splits satisfying from failing items, and `k` equals the count of satisfying items. When every item satisfies, `k` is `count - 1` and the range comes out rotated by one |
| Trimesh.PartitionCounts | src/trimesh.c:28-40 | after the swap loop, where `first` stopped is determined by how many items satisfy the predicate |
| Trimesh.GetBucket | src/trimesh.c:72-76 | the bucket is the truncation of `12 * offset`, clamped to 11 |
| Trimesh.BucketOf | src/trimesh.c:78-84 | every centroid inside the centroid bounds maps to a bucket below `BUCKET_COUNT`, which is the assertion the partition predicate makes |
| Trimesh.BoundsOf | src/trimesh.c:91-94 | the node box encloses every triangle box of its range and is solid |
| Trimesh.CentroidBounds | src/trimesh.c:106-110 | the centroid box contains every centroid of the range |
| Trimesh.LowestCentroid | src/trimesh.c:106-110 | some centroid of the range lies on the lower face of the centroid box along each axis |
| Trimesh.EmptyBuckets | src/trimesh.c:120 | all twelve buckets start empty, each box a single point at the origin |
| Trimesh.FillBuckets | src/trimesh.c:120-127 | bucket `b`'s count is the number of triangles whose centroid falls in bucket `b`. Each triangle's box is enclosed by its bucket's box, and every bucket box also contains the origin, where the zeroed array starts it |
| Trimesh.SplitCost | src/trimesh.c:131-150 | every split cost is at least the traversal cost 1 |
| Trimesh.SplitCosts | src/trimesh.c:129-150 | there are eleven candidate costs, one per split after buckets `0..10`, each at least the traversal cost 1 |
| Trimesh.ArgMinCost | src/trimesh.c:152-159 | the chosen index has the least cost and is the first index of least cost (ties keep the earlier bucket) |
| Trimesh.SahSplitIndex | src/trimesh.c:119-159 | the split index chosen for a range is a bucket boundary below 11 whose cost, over the buckets filled along the longest centroid axis, is least, and no earlier index is as cheap |
| Trimesh.BucketCountsMatchPartition | src/trimesh.c:131-168 | the left count `c0` of split `i` equals the number of triangles the bucket partition sends left, and `c0 + c1` is the range size |
| Trimesh.SahSplit | src/trimesh.c:119-172 | the SAH case permutes the range, uses the least-cost split index, and puts the triangles of buckets up to it first. Where `first` stops relates to the left count as in `partition` |
| Trimesh.LowestGoesLeft | src/trimesh.c:72-83 | a centroid on the lower face of the centroid box along the split axis lands in bucket 0 and so goes left for every split index |
| Trimesh.SahLeftCountPositive | src/trimesh.c:119-172 | the SAH partition of a non-empty range of solid boxes sends at least one triangle left |
| Trimesh.SplitRange | src/trimesh.c:111-184 | the range is permuted and the middle is strictly inside it. Two triangles, or an empty SAH left side, use equal counts with middle `n / 2`; the range then holds the triangles whose centroid lies below the midpoint of the centroid box first, exactly `CountSat` of them. Three or more triangles always keep the SAH split: the middle is the SAH left count, or `n - 1` when every triangle goes left, and the triangles before it are exactly ones from buckets up to the chosen index |
| Trimesh.RecursiveSplit | src/trimesh.c:86-204 | the nodes appended for a range form one postorder subtree with `2n - 1` nodes. The subtree's leaves are the range's triangles, one each. Every internal node's box encloses both of its children's boxes, and the root is last and carries the union of the range's boxes |
| Trimesh.BuildHalves | src/trimesh.c:190-200 | building the two halves and then appending their parent, whose box is the whole range's union, yields the subtree for the whole range |
| Trimesh.RootEnclosesSubtree | src/trimesh.c:91-94 | when every internal node encloses its children, a subtree's root encloses every node below it |
| Trimesh.HalvesWithin | src/trimesh.c:91-94 | the union of a range's boxes encloses the union over either half of any rearrangement of the range, so each parent encloses its children |
| Trimesh.BoundsOfLeast | src/trimesh.c:91-94 | the union of a range's boxes is the least box enclosing them all |
| Trimesh.SubtreeSize | src/trimesh.c:209 | a postorder subtree with `m` leaves has `2m - 1` nodes |
| Trimesh.SubtreeChildrenBefore | src/trimesh.h:14-24 | in a postorder subtree every internal node's children lie before it, left before right |
| Trimesh.LeafFor | src/trimesh.c:99-104 | a leaf stores its triangle's index in both `l` and `r` |
| Trimesh.TriangleBounds | src/trimesh.c:222-231 | a triangle's box is solid and holds each of its three corners with the `1e-5` padding to spare |
| Trimesh.TriangleInfos | src/trimesh.c:220-238 | one record per whole triangle; record `i` has index `i`, the triangle's padded box, and the centre of that box as centroid, which lies inside the box |
| Trimesh.MeshBounds | src/trimesh.c:91-94 | the union of the boxes of triangles `0..n-1` encloses each of them and is solid |
| Trimesh.InfosBounds | src/trimesh.c:91-94 | the union of the records' boxes equals the union of the triangles' boxes |
| Trimesh.TrimeshNew | src/trimesh.c:206-247 | the mesh keeps the buffers and has `2n - 1` nodes forming one postorder tree rooted at the last node, each internal node after its children. Every triangle `0..n-1` labels exactly one leaf and each leaf carries its triangle's box. Every internal node encloses its children, and the root is exactly the union of all triangle boxes and encloses every node |
| Trimesh.TreeShape | src/trimesh.c:206-247 | the subtree built over all triangle records has the shape of the BVH: `2n - 1` nodes, children before parents, each triangle in exactly one leaf |
| Trimesh.TreeBoxes | src/trimesh.c:91-104 | the boxes of that subtree: leaves carry their triangles' boxes, internal nodes enclose their children, and the root is the union of all triangle boxes |
| Trimesh.EachTriangleOnce | src/trimesh.h:14-18 | the leaf labels are a permutation of `0..n-1` |
| Trimesh.LeafBoxes | src/trimesh.c:99-104 | each leaf's box is the box of the triangle it names |
| Envlight.Luminance | src/envlight.c:11-15 | the luminance lies between the smallest and largest channel, equals the channel value on grey, and is positive for any non-black non-negative colour |
| Envlight.Quotient | src/envlight.c:39 | an f32 quotient is a number exactly when the divisor is non-zero, and then times the divisor gives the dividend; `0 / 0` is NaN |
| Envlight.Luminances | src/envlight.c:21-30 | each entry is the texel's luminance times its row's weight; a non-negative image gives a non-negative grid |
| Envlight.Mean | src/envlight.c:29-31 | the row average times the width is the row sum; it is zero exactly when the row is black |
| Envlight.RowAverages | src/envlight.c:21-32 | each row average times the width is that row's sum, non-negative, and zero exactly on black rows |
| Envlight.ImageAverage | src/envlight.c:28-33 | the image mean times the height is the sum of the row averages; it is non-negative and zero exactly when the whole image is black |
| Envlight.Marginal | src/envlight.c:38-40 | each marginal weight times the image mean gives the row average; a black image gives NaN throughout |
| Envlight.ConditionalRow | src/envlight.c:45-50 | each conditional weight times the row mean gives the luminance; a black row gives NaN throughout |
| Envlight.MarginalSumsToOne | src/envlight.c:56-59 | with a lit image, the running sum of `marginal[y] / height` over all rows is exactly 1 |
| Envlight.ConditionalSumsToOne | src/envlight.c:74-77 | for a lit row, the conditional weights are non-negative and the running sum of `conditional / width` over the row is exactly 1 |
| Envlight.Scan | src/envlight.c:58-63 | a search stops at the first position whose running sum reaches the target, or runs off the end |
| Envlight.FirstReach | src/envlight.c:55-64 | the reference for one fresh search: the first cell whose prefix reaches the target, with no earlier prefix reaching it |
| Envlight.FirstReachMonotone | src/envlight.c:58-63 | a higher target is reached no earlier |
| Envlight.InverseTable | src/envlight.c:53-66 | the marginal inverse is non-decreasing and every entry lies in `(0, (n + 0.5) / n]`. A non-negative first weight puts entry 0 at `0.5 / n`; when the total reaches `(n - 1) / n`, every entry is below 1 |
| Envlight.InverseTableNaN | src/envlight.c:53-66 | on a black image every search runs off the end, so every entry is `(n + 0.5) / n` |
| Envlight.NormalisedInside | src/envlight.c:53-66 | weights whose running sum over the table ends at exactly 1 give a marginal inverse strictly inside `(0, 1)` |
| Envlight.NormalisedRowInside | src/envlight.c:68-85 | non-negative weights whose running sum ends at exactly 1 give a conditional inverse row strictly inside `(0, 1)` |
| Envlight.ScanRow | src/envlight.c:74-83 | the conditional entries from a carried-over position onward never decrease and stay between that position's midpoint and `(n + 0.5) / n` |
| Envlight.ConditionalInverseRow | src/envlight.c:68-85 | one conditional inverse row is non-decreasing and lies in `(0, (n + 0.5) / n]`; a non-negative first weight puts entry 0 at `0.5 / n` |
| Envlight.ConditionalBelowPlain | src/envlight.c:71-84 | over non-negative weights, each conditional entry is at most the entry that a fresh search per output index would give, because the carried-over scan re-adds the weight it stopped on |
| Envlight.UniformRowOfThree | src/envlight.c:71-84 | on a uniform row of three the carried-over scan gives `[1/6, 1/6, 1/6]`, while fresh searches give `[1/6, 1/6, 1/2]` |
| Envlight.ScanRowNaN | src/envlight.c:74-83 | on a black row every conditional entry is `(n + 0.5) / n` |
| Envlight.ConditionalTable | src/envlight.c:68-85 | a lit row's conditional inverse is non-decreasing, starts at the first cell's midpoint and stays inside `(0, 1)`; a black row's entries are all `(n + 0.5) / n` |
| Envlight.ConditionalTables | src/envlight.c:68-85 | the same, for every row of the grid |
| Envlight.MarginalTable | src/envlight.c:36-66 | the marginal inverse is non-decreasing. A lit image starts it at the first row's midpoint and keeps it inside `(0, 1)`; a black image puts every entry at `(h + 0.5) / h` |
| Envlight.InitDistribution | src/envlight.c:17-88 | the light keeps its texels and size, and the luminance is the weighted luminance grid of that size. The image mean and both inverse tables are the ones built from that grid |
| Envlight.WhiteSquareOfTwo | src/envlight.c:53-85 | a uniform white 2 by 2 image gives `[0.25, 0.25]` for the marginal inverse and for each conditional row |
| Envlight.BlankSkyTexels | src/envlight.c:91-96 | the blank sky has 32 rows of one non-negative texel each, every one with positive luminance |
| Envlight.BlankSky | src/envlight.c:90-107 | the blank sky is 1 by 32; its conditional inverse is 0.5 in every row and every marginal entry lies strictly inside `(0, 1)` |
| Scene.SceneNew | src/scene.c:9-16 | a new scene has no objects and the blank sky as environment light |
| Scene.AddObject | src/scene.c:18-29 | adding an object stores the mesh and the material at position `object_count` and increases the count by one. Earlier objects and the light are unchanged |
| Scene.AddObjectsInOrder | src/scene.c:18-29 | adding objects one after another to a new scene leaves exactly those objects, in the order added |
| Scene.UnifiedIndices | src/scene.c:47-52 | the index buffer after `k` meshes holds as many indices as those meshes have together |
| Scene.UnifiedVertices | src/scene.c:53-60 | the vertex buffer after `k` meshes holds as many vertices as those meshes have together |
| Scene.UnifiedIndexAt | src/scene.c:50-52 | index `j` of mesh `i` lands at `index offset(i) + j` and is moved up by the vertex count of the meshes before `i`. When the mesh's indices are in range, it lands below the end of mesh `i`'s vertices |
| Scene.UnifiedVertexAt | src/scene.c:53-59 | vertex `j` of mesh `i` lands at `vertex offset(i) + j` with its position and normal and object index `i` |
| Scene.IndexOrigin | src/scene.c:47-52 | every position of the unified index buffer comes from some index `j` of some mesh `i` |
| Scene.VertexOrigin | src/scene.c:47-59 | every position of the unified vertex buffer comes from some vertex `j` of some mesh `i` |
| Scene.ObjectIndexStretch | src/scene.c:53-59 | a unified vertex has object index `i` if and only if it lies in mesh `i`'s stretch of the buffer |
| Scene.UnifiedIndicesValid | src/scene.c:47-62 | when each mesh's indices name its own vertices, every unified index names a unified vertex |
| Scene.CopyIndices | src/scene.c:50-52 | the inner index loop yields the mesh's indices, each moved up by the vertex offset |
| Scene.CopyVertices | src/scene.c:53-59 | the inner vertex loop yields the mesh's positions and normals, tagged with the object index |
| Scene.CreateUnifiedMesh | src/scene.c:36-63 | the unified mesh holds the totals of the counts and the concatenated rebased indices and tagged vertices. Its BVH has `2n - 1` nodes, and each of the `n` whole triangles is in exactly one leaf |

## Left out

- Floating point rounding: all arithmetic is over `real`, so f32 rounding,
  infinities and signed zeros are not modelled. The NaN of `0 / 0` is
  modelled.
- `sin` and `PI` (`src/envlight.c:23`): the per-row `sin(theta)` factors are a
  caller-supplied sequence of positive reals.
- Box helpers: `aabb_new`, `aabb_union`, `aabb_expand`, `aabb_centroid`,
  `aabb_offset`, `aabb_surface_area` and `aabb_max_extent_idx` are defined
  outside the modelled files. Module `Geometry` gives them their
  conventional definitions, so those definitions are assumed rather than
  taken from the source.
- Memory: `malloc`, `realloc`, `free`, `trimesh_destroy`, `scene_destroy`
  and `envlight_destroy` are left out; sequences need no freeing.
- Integer width: u32 overflow of the totals in `scene_create_unified_mesh`
  and of the rebased indices is not modelled, and counts are unbounded.
- Trimesh.TrimeshNew: requires at least one whole triangle and indices that
  name existing vertices. For `n = 0` the C node count `2n - 1` wraps
  around, and an out-of-range index would be read out of bounds.
- Scene.CreateUnifiedMesh: likewise, a scene without a whole triangle is not
  accepted.
- Scene.CreateUnifiedMesh: it also requires every mesh's indices to name its
  own vertices. The C code does not check this and would read out of bounds
  otherwise.
- Trimesh.Partition: requires a count of at least one. With zero items the
  C loop starts past `last` and never meets it.
- Envlight.InitDistribution: requires a non-empty image with equal rows,
  non-negative radiance and positive row weights. With them, every zero
  divisor has a zero dividend, so negative radiance and the infinities it
  could produce are outside the model.
- File input: `load_obj`, `envlight_new_from_file` and `scene_set_envlight`
  read files. A loaded mesh is a parameter of `Scene.AddObject`, and the
  file-based light is not modelled.
- Mesh UVs and the material padding word are carried by the C structs but
  never read by the modelled code, so they are omitted.
- `partition_triangle_infos_by_centroid_fn`: the equal-counts split's
  predicate is modelled as `Trimesh.BelowMidpoint`. It has no contract of
  its own because it is a plain comparison.
- `partition_triangle_infos_by_bucket_fn` (`src/trimesh.c:78-84`): the SAH
  split's predicate is modelled as `Trimesh.InLeftBuckets`, and the number
  of triangles it accepts as `Trimesh.SahLeftCount`. Neither has a contract
  of its own. What they mean is stated by `Trimesh.SahSplit`,
  `Trimesh.BucketCountsMatchPartition`, `Trimesh.LowestGoesLeft` and
  `Trimesh.SahLeftCountPositive`. The `assert(b < BUCKET_COUNT)` at line 82
  always holds by `Trimesh.GetBucket`'s contract.
- The GPU upload of the tables and of the node array, including the
  256-bit node packing, is not modelled; only the node fields are.

## Behaviour of the code worth knowing

The model follows the code in each of these cases. Each is compared with
the textbook form of the algorithm.

- **Carried-over conditional scan.** `src/envlight.c:74-83` keeps `x` and
  the running sum from one output index to the next and re-adds
  `conditional[x]` on the next search. So each conditional entry is at or
  below what a fresh inverse-CDF lookup per output index gives
  (`Envlight.ScanRow`, `Envlight.ConditionalBelowPlain`). On a uniform row
  of three it gives `[1/6, 1/6, 1/6]` where fresh lookups give
  `[1/6, 1/6, 1/2]` (`Envlight.UniformRowOfThree`).
- **Searches stop on reaching the target.** `src/envlight.c:58-63` and
  `src/envlight.c:76-80` stop as soon as the running sum is `>=` the target
  `v / n`. On a uniform white 2 by 2 image the first cell already holds
  half the mass, so both tables are `[0.25, 0.25]` rather than the two cell
  centres `0.25` and `0.75` (`Envlight.WhiteSquareOfTwo`).
- **Black rows and black images.** `src/envlight.c:47-48` divides by the
  row mean with no guard, so a black row's weights are all the NaN of
  `0 / 0`. Every search then runs off the end and every entry of that row
  is `(W + 0.5) / W` (`Envlight.ScanRowNaN`). `src/envlight.c:39` does the
  same for a black image, giving `(H + 0.5) / H` throughout
  (`Envlight.InverseTableNaN`).
- **`partition` when every item satisfies the predicate.**
  `src/trimesh.c:22-41` returns `count - 1`, not `count`, and rotates the
  range by one (`Trimesh.Partition`). In the SAH case the split then has
  middle `n - 1`.
- **Bucket boxes start at the origin.** `src/trimesh.c:120` zeroes the
  bucket array, so every bucket box starts as the point at the origin and
  `aabb_union` at line 125 grows it from there (`Trimesh.EmptyBuckets`,
  `Trimesh.FillBuckets`). Every `b0` and `b1` in the cost at lines 132-149
  therefore contains the origin. The cost is the surface-area heuristic
  over those origin-stretched boxes, not over the triangles' own boxes.
- **`.mid` reads `ctx.dim` inside `ctx`'s own initializer.** At
  `src/trimesh.c:174-179`, `.mid` is computed from
  `centroid_bounds.min.v[ctx.dim]` and `centroid_bounds.max.v[ctx.dim]`.
  Section 6.7.9 paragraph 23 of the C11 standard leaves the evaluations of
  the initializer expressions indeterminately sequenced, so `ctx.dim` may
  be read before `.dim` is stored. The model assumes it is read after and
  uses the split axis `dim` (`Trimesh.BelowMidpoint`, `Trimesh.SplitRange`).
  Only the equal-counts split depends on this. That split serves two
  triangles here, and longer ranges only if the fall-through below is
  reached.
- **The equal-counts fall-through is unreachable.** `src/trimesh.c:169-171`
  falls through to the equal-counts split when the SAH partition moved
  nothing. With three or more triangles that cannot happen here: a
  triangle whose centroid lies on the lower face of the centroid box has
  offset 0, lands in bucket 0 and goes left for every split index
  (`Trimesh.SahLeftCountPositive`, `Trimesh.SplitRange`). This rests on the
  `aabb_offset` convention assumed in `Geometry.OffsetAlong`, which
  returns the raw distance along a flat axis. `aabb_offset` is not part of
  this model. If it divided by a zero extent instead, the offset along a
  flat axis would be NaN, the cast at `src/trimesh.c:74` would be
  undefined, and the fall-through could be reached.
