/**
 The CPU-side BVH builder of `src/trimesh.c`: a generic partition, the
 12-bucket surface-area-heuristic split with its equal-counts fallback, the
 recursive postorder serialisation into a flat node array, and the
 `trimesh_new` driver.

 Box arithmetic is over `real` (see module Geometry). The C code permutes the
 triangle-info array in place; here each range is a sequence value that the
 operations return permuted, so "nothing outside the range is touched" holds
 by construction.
 */
module Trimesh {
  import opened Geometry
  import opened Seqs

  /** `BUCKET_COUNT`. */
  const BucketCount: nat := 12

  /** Outward padding of every triangle box, so that flat triangles still
      have volume. */
  const Padding: real := 0.00001

  datatype Vertex = Vertex(position: Vec3, objectIndex: nat, normal: Vec3)

  /** A node is a leaf when `l == r`, and then that value is a triangle
      index; otherwise `l` and `r` are the positions of its two children. */
  datatype BvhNode = BvhNode(min: Vec3, l: nat, max: Vec3, r: nat)

  datatype TriangleMesh = TriangleMesh(
    vertexCount: nat,
    vertices: seq<Vertex>,
    indexCount: nat,
    indices: seq<nat>,
    bvhNodeCount: nat,
    bvhNodes: seq<BvhNode>)

  /** Per-triangle build record; `index` is the triangle's ordinal in the
      index buffer and is never changed, only moved around. */
  datatype TriangleInfo = TriangleInfo(bounds: Aabb, centroid: Vec3, index: nat)

  /** One SAH bucket: the number of triangles in it and the union of their
      boxes (the C field is named `cost`). */
  datatype Bucket = Bucket(count: nat, bounds: Aabb)

  /** Which split a range of two or more triangles ended up using. */
  datatype SplitMethod = Sah(minIdx: nat) | EqualCounts

  predicate IsLeaf(n: BvhNode) { n.l == n.r }

  // ---------------------------------------------------------------------
  // partition (trimesh.c:19-41)
  // ---------------------------------------------------------------------

  /** Moves the elements satisfying `p` to the front by swaps and returns the
      final position of the C `first` pointer. The scan first looks for an
      element failing `p`; when there is none, `first` stays at the start and
      every later element is swapped with it, so the range is rotated by one
      and the result is `count - 1`, not `count`. A count of zero is not
      allowed: the C loop then never meets `last`. */
  method Partition<T>(s: seq<T>, p: T -> bool) returns (r: seq<T>, k: nat)
    requires |s| >= 1
    ensures |r| == |s| && multiset(r) == multiset(s)
    ensures k < |s|
    ensures forall i | 0 <= i < k :: p(r[i])
    ensures forall i | k < i < |r| :: !p(r[i])
    ensures p(r[k]) <==> CountSat(s, p) == |s|
    ensures CountSat(s, p) < |s| ==> k == CountSat(s, p)
    ensures CountSat(s, p) == |s| ==> k == |s| - 1 && r == s[1..] + s[..1]
  {
    var i := 0;
    while i < |s| && p(s[i])
      invariant 0 <= i <= |s|
      invariant forall j | 0 <= j < i :: p(s[j])
    {
      i := i + 1;
    }
    var first := 0;
    ghost var allSat := i == |s|;
    if i < |s| {
      first := i;
    }
    r := s;
    var item := first + 1;
    while item < |r|
      invariant first < item <= |r| == |s|
      invariant multiset(r) == multiset(s)
      invariant forall j | 0 <= j < first :: p(r[j])
      invariant forall j | first < j < item :: !p(r[j])
      invariant allSat ==> first == item - 1 && r[first] == s[0]
      invariant allSat ==> forall j | 0 <= j < first :: r[j] == s[j + 1]
      invariant allSat ==> forall j | item <= j < |r| :: r[j] == s[j]
      invariant !allSat ==> !p(r[first])
    {
      if p(r[item]) {
        ghost var before := r;
        r := r[item := r[first]][first := r[item]];
        PartitionSwap(s, before, p, first, item, allSat);
        first := first + 1;
      }
      item := item + 1;
    }
    k := first;
    if allSat {
      Rotated(s, r);
    }
    PartitionCounts(s, r, p, k, allSat);
  }

  /** One swap of `Partition`'s second loop keeps its invariant. */
  lemma PartitionSwap<T>(s: seq<T>, before: seq<T>, p: T -> bool, first: nat, item: nat, allSat: bool)
    requires first < item < |before| == |s|
    requires multiset(before) == multiset(s)
    requires p(before[item])
    requires forall j | 0 <= j < first :: p(before[j])
    requires forall j | first < j < item :: !p(before[j])
    requires allSat ==> first == item - 1 && before[first] == s[0]
    requires allSat ==> forall j | 0 <= j < first :: before[j] == s[j + 1]
    requires allSat ==> forall j | item <= j < |before| :: before[j] == s[j]
    requires !allSat ==> !p(before[first])
    ensures var r := before[item := before[first]][first := before[item]];
      && multiset(r) == multiset(s)
      && (forall j | 0 <= j < first + 1 :: p(r[j]))
      && (forall j | first + 1 < j < item + 1 :: !p(r[j]))
      && (allSat ==> first + 1 == item && r[first + 1] == s[0])
      && (allSat ==> forall j | 0 <= j < first + 1 :: r[j] == s[j + 1])
      && (allSat ==> forall j | item + 1 <= j < |r| :: r[j] == s[j])
      && (!allSat ==> !p(r[first + 1]))
  {
    SwapMultiset(before, first, item);
  }

  /** The index-wise description of a rotation by one. */
  lemma Rotated<T>(s: seq<T>, r: seq<T>)
    requires |r| == |s| >= 1 && r[|s| - 1] == s[0]
    requires forall j | 0 <= j < |s| - 1 :: r[j] == s[j + 1]
    ensures r == s[1..] + s[..1]
  {}

  /** Exchanging two positions keeps the multiset. */
  lemma SwapMultiset<T>(before: seq<T>, a: nat, b: nat)
    requires a < b < |before|
    ensures multiset(before[b := before[a]][a := before[b]]) == multiset(before)
  {
    var mid := before[b := before[a]];
    assert multiset(mid) == multiset(before) - multiset{before[b]} + multiset{before[a]};
    assert mid[a] == before[a];
  }

  /** Turns the final loop state of `Partition` into the counting facts. */
  lemma PartitionCounts<T>(s: seq<T>, r: seq<T>, p: T -> bool, k: nat, allSat: bool)
    requires |r| == |s| >= 1 && multiset(r) == multiset(s) && k < |s|
    requires forall j | 0 <= j < k :: p(r[j])
    requires forall j | k < j < |r| :: !p(r[j])
    requires allSat ==> k == |s| - 1 && r == s[1..] + s[..1] && forall j | 0 <= j < |s| :: p(s[j])
    requires !allSat ==> !p(r[k])
    ensures p(r[k]) <==> CountSat(s, p) == |s|
    ensures CountSat(s, p) < |s| ==> k == CountSat(s, p)
    ensures CountSat(s, p) == |s| ==> k == |s| - 1 && r == s[1..] + s[..1]
  {
    CountSatPermutation(r, s, p);
    if allSat {
      CountSatSplit(s, p, |s|);
    } else {
      CountSatSplit(r, p, k);
    }
  }

  // ---------------------------------------------------------------------
  // Range bounds (trimesh.c:91-94, 106-111)
  // ---------------------------------------------------------------------

  predicate AllSolid(s: seq<TriangleInfo>) {
    forall i | 0 <= i < |s| :: Solid(s[i].bounds)
  }

  /** The union of the boxes of a range, folded left from its first element. */
  function BoundsOf(s: seq<TriangleInfo>): (b: Aabb)
    requires |s| >= 1
    ensures forall i | 0 <= i < |s| :: Encloses(b, s[i].bounds)
    ensures AllSolid(s) ==> Solid(b)
  {
    if |s| == 1 then s[0].bounds
    else Union(BoundsOf(s[..|s| - 1]), s[|s| - 1].bounds)
  }

  /** The box of the centroids of a range, grown one point at a time. */
  function CentroidBounds(s: seq<TriangleInfo>): (b: Aabb)
    requires |s| >= 1
    ensures Ordered(b)
    ensures forall i | 0 <= i < |s| :: Contains(b, s[i].centroid)
  {
    if |s| == 1 then FromPoint(s[0].centroid)
    else Expand(CentroidBounds(s[..|s| - 1]), s[|s| - 1].centroid)
  }

  /** The centroid box is tight from below: some centroid of the range lies
      on its lower face along each axis. */
  lemma {:induction false} LowestCentroid(s: seq<TriangleInfo>, d: Axis) returns (i: nat)
    requires |s| >= 1
    ensures i < |s| && s[i].centroid.Get(d) == CentroidBounds(s).min.Get(d)
    decreases |s|
  {
    if |s| == 1 {
      i := 0;
    } else {
      var front := s[..|s| - 1];
      var c := s[|s| - 1].centroid;
      assert CentroidBounds(s).min.Get(d) == Min(CentroidBounds(front).min.Get(d), c.Get(d));
      if CentroidBounds(front).min.Get(d) < c.Get(d) {
        i := LowestCentroid(front, d);
        assert s[i] == front[i];
      } else {
        i := |s| - 1;
      }
    }
  }

  // ---------------------------------------------------------------------
  // Buckets (trimesh.c:66-84, 120-127)
  // ---------------------------------------------------------------------

  /** `get_bucket` applied to the centroid's offset `o` along the split axis:
      `min(BUCKET_COUNT - 1, (u32)(BUCKET_COUNT * o))`. The cast truncates,
      which is the floor for the non-negative offsets it receives. */
  function GetBucket(o: real): (b: nat)
    requires 0.0 <= o
    ensures b < BucketCount
    ensures BucketCount as real * o < (BucketCount - 1) as real ==>
              b as real <= BucketCount as real * o < b as real + 1.0
    ensures BucketCount as real * o >= (BucketCount - 1) as real ==> b == BucketCount - 1
  {
    var t := (BucketCount as real * o).Floor;
    if t < BucketCount - 1 then t else BucketCount - 1
  }

  function BucketOf(cb: Aabb, dim: Axis, t: TriangleInfo): (b: nat)
    requires Contains(cb, t.centroid)
    ensures b < BucketCount
  {
    GetBucket(OffsetAlong(cb, t.centroid, dim))
  }

  /** The comparator `partition_triangle_infos_by_bucket_fn`: the triangle
      goes left when its bucket is at most `minIdx`. The `Contains` guard only
      keeps the function total: every range it is applied to has its
      centroids inside `cb` (see CentroidBounds), where the C cast is
      defined. */
  function InLeftBuckets(cb: Aabb, dim: Axis, minIdx: nat): TriangleInfo -> bool {
    (t: TriangleInfo) => Contains(cb, t.centroid) && BucketOf(cb, dim, t) <= minIdx
  }

  /** Membership of one bucket, with the same guard as InLeftBuckets. */
  function InBucket(cb: Aabb, dim: Axis, b: nat): TriangleInfo -> bool {
    (t: TriangleInfo) => Contains(cb, t.centroid) && BucketOf(cb, dim, t) == b
  }

  /** The bucket array before any triangle is added: `{0}` zeroes both the
      count and the box, so every bucket box starts as the point at the
      origin. */
  function EmptyBuckets(): (bs: seq<Bucket>)
    ensures |bs| == BucketCount
    ensures forall b | 0 <= b < |bs| ::
              bs[b].count == 0 && Contains(bs[b].bounds, Origin) && bs[b].bounds.min == bs[b].bounds.max
  {
    seq(BucketCount, _ => Bucket(0, FromPoint(Origin)))
  }

  /** The bucket pass over a range: each triangle adds one to its bucket's
      count and its box to the bucket's box. */
  function FillBuckets(s: seq<TriangleInfo>, cb: Aabb, dim: Axis): (bs: seq<Bucket>)
    requires forall i | 0 <= i < |s| :: Contains(cb, s[i].centroid)
    ensures |bs| == BucketCount
    ensures forall b | 0 <= b < BucketCount :: bs[b].count == CountSat(s, InBucket(cb, dim, b))
    ensures forall b | 0 <= b < BucketCount :: Ordered(bs[b].bounds) && Contains(bs[b].bounds, Origin)
    ensures forall i | 0 <= i < |s| :: Encloses(bs[BucketOf(cb, dim, s[i])].bounds, s[i].bounds)
  {
    if |s| == 0 then EmptyBuckets()
    else
      var bs := FillBuckets(s[..|s| - 1], cb, dim);
      var t := s[|s| - 1];
      var b := BucketOf(cb, dim, t);
      var bs' := bs[b := Bucket(bs[b].count + 1, Union(bs[b].bounds, t.bounds))];
      assert forall i | 0 <= i < |s| :: Encloses(bs'[BucketOf(cb, dim, s[i])].bounds, s[i].bounds) by {
        forall i | 0 <= i < |s|
          ensures Encloses(bs'[BucketOf(cb, dim, s[i])].bounds, s[i].bounds)
        {
          if i < |s| - 1 && BucketOf(cb, dim, s[i]) == b {
            assert s[i] == s[..|s| - 1][i];
            EnclosesTrans(bs'[b].bounds, bs[b].bounds, s[i].bounds);
          } else if i < |s| - 1 {
            assert s[i] == s[..|s| - 1][i];
          }
        }
      }
      bs'
  }

  // ---------------------------------------------------------------------
  // SAH costs and the cheapest split (trimesh.c:129-159)
  // ---------------------------------------------------------------------

  /** Triangles in buckets `lo .. hi-1`, summed left to right. */
  function CountRange(bs: seq<Bucket>, lo: nat, hi: nat): nat
    requires lo <= hi <= |bs|
    decreases hi - lo
  {
    if lo == hi then 0 else CountRange(bs, lo, hi - 1) + bs[hi - 1].count
  }

  /** Union of the boxes of buckets `lo .. hi-1`, folded from `lo`. */
  function UnionRange(bs: seq<Bucket>, lo: nat, hi: nat): (b: Aabb)
    requires lo < hi <= |bs|
    requires forall j | lo <= j < hi :: Ordered(bs[j].bounds)
    ensures Ordered(b)
    decreases hi - lo
  {
    if hi == lo + 1 then bs[lo].bounds else Union(UnionRange(bs, lo, hi - 1), bs[hi - 1].bounds)
  }

  predicate OrderedBuckets(bs: seq<Bucket>) {
    forall j | 0 <= j < |bs| :: Ordered(bs[j].bounds)
  }

  /** Cost of splitting after bucket `i`: one traversal step plus each side's
      triangle count weighted by the ratio of its surface area to the
      node's. */
  function SplitCost(bs: seq<Bucket>, i: nat, bounds: Aabb): (c: real)
    requires |bs| == BucketCount && OrderedBuckets(bs) && i < BucketCount - 1
    requires Solid(bounds)
    ensures c >= 1.0
  {
    var c0 := CountRange(bs, 0, i + 1);
    var c1 := CountRange(bs, i + 1, BucketCount);
    var b0 := UnionRange(bs, 0, i + 1);
    var b1 := UnionRange(bs, i + 1, BucketCount);
    NonNegativeProduct(c0 as real, SurfaceArea(b0));
    NonNegativeProduct(c1 as real, SurfaceArea(b1));
    NonNegativeRatio(c0 as real * SurfaceArea(b0) + c1 as real * SurfaceArea(b1), SurfaceArea(bounds));
    1.0 + (c0 as real * SurfaceArea(b0) + c1 as real * SurfaceArea(b1)) / SurfaceArea(bounds)
  }

  /** The eleven candidate costs `costs[0..10]`. */
  function SplitCosts(bs: seq<Bucket>, bounds: Aabb): (costs: seq<real>)
    requires |bs| == BucketCount && OrderedBuckets(bs) && Solid(bounds)
    ensures |costs| == BucketCount - 1
    ensures forall i | 0 <= i < |costs| :: costs[i] >= 1.0
  {
    seq(BucketCount - 1, i requires 0 <= i < BucketCount - 1 => SplitCost(bs, i, bounds))
  }

  /** The minimum search from position `i` on, with the best index so far in
      `best`: an index replaces the best only when strictly cheaper. */
  function LowestMinFrom(costs: seq<real>, i: nat, best: nat): (m: nat)
    requires best < i <= |costs|
    requires forall j | 0 <= j < i :: costs[best] <= costs[j]
    requires forall j | 0 <= j < best :: costs[best] < costs[j]
    ensures m < |costs|
    ensures forall j | 0 <= j < |costs| :: costs[m] <= costs[j]
    ensures forall j | 0 <= j < m :: costs[m] < costs[j]
    decreases |costs| - i
  {
    if i == |costs| then best
    else if costs[best] > costs[i] then LowestMinFrom(costs, i + 1, i)
    else LowestMinFrom(costs, i + 1, best)
  }

  /** `min_idx`: the first index of minimal cost. */
  function ArgMinCost(costs: seq<real>): (m: nat)
    requires |costs| >= 1
    ensures m < |costs|
    ensures forall j | 0 <= j < |costs| :: costs[m] <= costs[j]
    ensures forall j | 0 <= j < m :: costs[m] < costs[j]
  {
    LowestMinFrom(costs, 1, 0)
  }

  /** The bucket index the SAH picks for a range: buckets along the longest
      axis of the centroid box, costs against the range's box. */
  function SahSplitIndex(s: seq<TriangleInfo>): (m: nat)
    requires |s| >= 1 && AllSolid(s)
    ensures m < BucketCount - 1
    ensures var cb := CentroidBounds(s);
            var costs := SplitCosts(FillBuckets(s, cb, MaxExtentAxis(cb)), BoundsOf(s));
            (forall j | 0 <= j < |costs| :: costs[m] <= costs[j]) && (forall j | 0 <= j < m :: costs[m] < costs[j])
  {
    var cb := CentroidBounds(s);
    var bs := FillBuckets(s, cb, MaxExtentAxis(cb));
    ArgMinCost(SplitCosts(bs, BoundsOf(s)))
  }

  /** The triangles of a range that the SAH split sends left. */
  function SahLeftCount(s: seq<TriangleInfo>): nat
    requires |s| >= 1 && AllSolid(s)
  {
    var cb := CentroidBounds(s);
    CountSat(s, InLeftBuckets(cb, MaxExtentAxis(cb), SahSplitIndex(s)))
  }

  /** The SAH split sends at least one triangle left: a triangle whose
      centroid lies on the lower face of the centroid box has offset 0 along
      the split axis, so it falls in bucket 0, which is never to the right of
      the chosen split. */
  lemma SahLeftCountPositive(s: seq<TriangleInfo>)
    requires |s| >= 1 && AllSolid(s)
    ensures SahLeftCount(s) >= 1
  {
    var cb := CentroidBounds(s);
    var dim := MaxExtentAxis(cb);
    var i := LowestCentroid(s, dim);
    LowestGoesLeft(cb, dim, SahSplitIndex(s), s[i]);
    CountSatAt(s, i, InLeftBuckets(cb, dim, SahSplitIndex(s)));
  }

  /** A centroid on the lower face of the centroid box lands in bucket 0. */
  lemma LowestGoesLeft(cb: Aabb, dim: Axis, minIdx: nat, t: TriangleInfo)
    requires Contains(cb, t.centroid) && t.centroid.Get(dim) == cb.min.Get(dim)
    ensures BucketOf(cb, dim, t) == 0
    ensures InLeftBuckets(cb, dim, minIdx)(t)
  {
    assert OffsetAlong(cb, t.centroid, dim) == 0.0;
  }

  /** The left-hand count `c0` that the cost of splitting after bucket `i`
      uses is exactly the number of triangles the bucket partition sends
      left; with `c1` it accounts for every triangle of the range. */
  lemma BucketCountsMatchPartition(s: seq<TriangleInfo>, cb: Aabb, dim: Axis, i: nat)
    requires forall j | 0 <= j < |s| :: Contains(cb, s[j].centroid)
    requires i < BucketCount
    ensures CountRange(FillBuckets(s, cb, dim), 0, i + 1) == CountSat(s, InLeftBuckets(cb, dim, i))
    ensures CountRange(FillBuckets(s, cb, dim), 0, i + 1) + CountRange(FillBuckets(s, cb, dim), i + 1, BucketCount) == |s|
  {
    LeftBucketsCount(s, cb, dim, i);
    AllBucketsCount(s, cb, dim);
    CountRangeSplit(FillBuckets(s, cb, dim), 0, i + 1, BucketCount);
  }

  lemma {:induction false} LeftBucketsCount(s: seq<TriangleInfo>, cb: Aabb, dim: Axis, i: nat)
    requires forall j | 0 <= j < |s| :: Contains(cb, s[j].centroid)
    requires i < BucketCount
    ensures CountRange(FillBuckets(s, cb, dim), 0, i + 1) == CountSat(s, InLeftBuckets(cb, dim, i))
    decreases |s|
  {
    var bs := FillBuckets(s, cb, dim);
    if |s| == 0 {
      EmptyCountRange(bs, 0, i + 1);
    } else {
      var s' := s[..|s| - 1];
      var b := BucketOf(cb, dim, s[|s| - 1]);
      LeftBucketsCount(s', cb, dim, i);
      FillBucketsStep(s, cb, dim);
      CountRangeBump(FillBuckets(s', cb, dim), bs, b, 0, i + 1);
      assert CountSat(s, InLeftBuckets(cb, dim, i))
          == CountSat(s', InLeftBuckets(cb, dim, i)) + (if b <= i then 1 else 0);
    }
  }

  /** Every triangle of the range lands in exactly one bucket. */
  lemma {:induction false} AllBucketsCount(s: seq<TriangleInfo>, cb: Aabb, dim: Axis)
    requires forall j | 0 <= j < |s| :: Contains(cb, s[j].centroid)
    ensures CountRange(FillBuckets(s, cb, dim), 0, BucketCount) == |s|
    decreases |s|
  {
    var bs := FillBuckets(s, cb, dim);
    if |s| == 0 {
      EmptyCountRange(bs, 0, BucketCount);
    } else {
      var s' := s[..|s| - 1];
      AllBucketsCount(s', cb, dim);
      FillBucketsStep(s, cb, dim);
      CountRangeBump(FillBuckets(s', cb, dim), bs, BucketOf(cb, dim, s[|s| - 1]), 0, BucketCount);
    }
  }

  lemma {:induction false} CountRangeSplit(bs: seq<Bucket>, lo: nat, mid: nat, hi: nat)
    requires lo <= mid <= hi <= |bs|
    ensures CountRange(bs, lo, hi) == CountRange(bs, lo, mid) + CountRange(bs, mid, hi)
    decreases hi - mid
  {
    if mid < hi {
      CountRangeSplit(bs, lo, mid, hi - 1);
    }
  }

  /** Adding the last triangle of a range to the buckets adds one to its
      bucket's count and leaves the other counts alone. */
  lemma FillBucketsStep(s: seq<TriangleInfo>, cb: Aabb, dim: Axis)
    requires |s| > 0 && forall j | 0 <= j < |s| :: Contains(cb, s[j].centroid)
    ensures var before := FillBuckets(s[..|s| - 1], cb, dim);
            var after := FillBuckets(s, cb, dim);
            var b := BucketOf(cb, dim, s[|s| - 1]);
            && after[b].count == before[b].count + 1
            && forall j | 0 <= j < BucketCount && j != b :: after[j].count == before[j].count
  {}

  lemma {:induction false} EmptyCountRange(bs: seq<Bucket>, lo: nat, hi: nat)
    requires lo <= hi <= |bs|
    requires forall j | lo <= j < hi :: bs[j].count == 0
    ensures CountRange(bs, lo, hi) == 0
    decreases hi - lo
  {
    if lo < hi {
      EmptyCountRange(bs, lo, hi - 1);
    }
  }

  /** Adding one triangle to bucket `b` adds one to every range holding `b`. */
  lemma {:induction false} CountRangeBump(before: seq<Bucket>, after: seq<Bucket>, b: nat, lo: nat, hi: nat)
    requires |before| == |after| && lo <= hi <= |before| && b < |before|
    requires after[b].count == before[b].count + 1
    requires forall j | 0 <= j < |before| && j != b :: after[j].count == before[j].count
    ensures CountRange(after, lo, hi) == CountRange(before, lo, hi) + (if lo <= b < hi then 1 else 0)
    decreases hi - lo
  {
    if lo < hi {
      CountRangeBump(before, after, b, lo, hi - 1);
    }
  }

  // ---------------------------------------------------------------------
  // Choosing the middle of a range (trimesh.c:106-184)
  // ---------------------------------------------------------------------

  /** The comparator `partition_triangle_infos_by_centroid_fn`: the centroid
      lies below the midpoint of the centroid box along `dim`. */
  function BelowMidpoint(cb: Aabb, dim: Axis): TriangleInfo -> bool {
    var mid := (cb.min.Get(dim) + cb.max.Get(dim)) * 0.5;
    (t: TriangleInfo) => t.centroid.Get(dim) < mid
  }

  /** The SAH case of the split switch: bucket the range along the longest
      centroid axis, pick the cheapest split and partition by bucket. The
      returned `k` is where the partition left its `first` pointer: the
      number of triangles sent left, except that when all of them go left it
      is `n - 1`. */
  method SahSplit(s: seq<TriangleInfo>) returns (r: seq<TriangleInfo>, k: nat, minIdx: nat)
    requires |s| >= 2 && AllSolid(s)
    ensures |r| == |s| && multiset(r) == multiset(s)
    ensures minIdx == SahSplitIndex(s)
    ensures k < |s|
    ensures SahLeftCount(s) < |s| ==> k == SahLeftCount(s)
    ensures SahLeftCount(s) == |s| ==> k == |s| - 1
    ensures k == 0 <==> SahLeftCount(s) == 0
    ensures var cb := CentroidBounds(s);
            forall i | 0 <= i < k :: InLeftBuckets(cb, MaxExtentAxis(cb), minIdx)(r[i])
  {
    var cb := CentroidBounds(s);
    var dim := MaxExtentAxis(cb);
    minIdx := SahSplitIndex(s);
    r, k := Partition(s, InLeftBuckets(cb, dim, minIdx));
  }

  /** Splits a range of two or more triangles. Two triangles always use the
      equal-counts split. Otherwise the SAH split is kept when its partition
      moved the `first` pointer off the start; when it did not, the code falls
      through to the equal-counts split, which partitions around the
      centroid midpoint but places the middle at `n / 2` whatever that
      partition returned. The triangles whose centroid lies below the
      midpoint then come first. */
  method SplitRange(s: seq<TriangleInfo>) returns (r: seq<TriangleInfo>, middle: nat, how: SplitMethod)
    requires |s| >= 2 && AllSolid(s)
    ensures |r| == |s| && multiset(r) == multiset(s)
    ensures 0 < middle < |s|
    ensures |s| == 2 ==> how == EqualCounts && middle == 1
    ensures how == EqualCounts ==> middle == |s| / 2
    ensures how.Sah? ==> how.minIdx == SahSplitIndex(s)
    ensures how == EqualCounts <==> |s| == 2 || SahLeftCount(s) == 0
    ensures how.Sah? && SahLeftCount(s) < |s| ==> middle == SahLeftCount(s)
    ensures how.Sah? && SahLeftCount(s) == |s| ==> middle == |s| - 1
    ensures how.Sah? ==> var cb := CentroidBounds(s);
            forall i | 0 <= i < middle :: InLeftBuckets(cb, MaxExtentAxis(cb), how.minIdx)(r[i])
    ensures |s| >= 3 ==> how.Sah?
    ensures how == EqualCounts ==> var cb := CentroidBounds(s);
            var below := BelowMidpoint(cb, MaxExtentAxis(cb));
            forall i | 0 <= i < |r| :: below(r[i]) <==> i < CountSat(s, below)
  {
    SahLeftCountPositive(s);
    var cb := CentroidBounds(s);
    var dim := MaxExtentAxis(cb);
    var n := |s|;
    r := s;
    if n != 2 {
      var k, minIdx;
      r, k, minIdx := SahSplit(s);
      if k != 0 {
        middle := k;
        how := Sah(minIdx);
        return;
      }
    }
    // SPLIT_METHOD_EQUAL_COUNTS, reached directly or by falling through
    how := EqualCounts;
    middle := n / 2;
    var below := BelowMidpoint(cb, dim);
    CountSatPermutation(r, s, below);
    var ignored;
    r, ignored := Partition(r, below);
  }

  // ---------------------------------------------------------------------
  // Tree shape of the flat node array
  // ---------------------------------------------------------------------

  /** `ns[lo..hi]` holds one complete subtree in postorder with its root at
      `hi - 1`: a single leaf, or an internal node whose left subtree fills
      `lo .. l` and whose right subtree fills `l+1 .. hi-2`. */
  ghost predicate Subtree(ns: seq<BvhNode>, lo: nat, hi: nat)
    requires lo < hi <= |ns|
    decreases hi - lo
  {
    var n := ns[hi - 1];
    if hi - lo == 1 then IsLeaf(n)
    else
      && lo <= n.l && n.l + 1 < hi - 1 && n.r == hi - 2
      && Subtree(ns, lo, n.l + 1)
      && Subtree(ns, n.l + 1, hi - 1)
  }

  /** The box a node stores, as read back by the traversal. */
  function NodeBox(n: BvhNode): Aabb {
    Aabb(n.min, n.max)
  }

  /** Node `i` is a leaf, or its children lie inside the array and its box
      encloses both children's boxes. */
  predicate EnclosesChildren(ns: seq<BvhNode>, i: nat)
    requires i < |ns|
  {
    var n := ns[i];
    IsLeaf(n) ||
      (&& n.l < |ns| && n.r < |ns|
       && Encloses(NodeBox(n), NodeBox(ns[n.l]))
       && Encloses(NodeBox(n), NodeBox(ns[n.r])))
  }

  /** Every internal node among `ns[lo..hi]` encloses its children. */
  ghost predicate ChildrenBoxed(ns: seq<BvhNode>, lo: nat, hi: nat)
    requires hi <= |ns|
  {
    forall i | lo <= i < hi :: EnclosesChildren(ns, i)
  }

  /** In a subtree whose internal nodes enclose their children, the root's
      box encloses the box of every node below it. */
  lemma {:induction false} RootEnclosesSubtree(ns: seq<BvhNode>, lo: nat, hi: nat)
    requires lo < hi <= |ns|
    requires Subtree(ns, lo, hi) && ChildrenBoxed(ns, lo, hi)
    ensures forall i | lo <= i < hi :: Encloses(NodeBox(ns[hi - 1]), NodeBox(ns[i]))
    decreases hi - lo
  {
    var n := ns[hi - 1];
    if hi - lo > 1 {
      RootEnclosesSubtree(ns, lo, n.l + 1);
      RootEnclosesSubtree(ns, n.l + 1, hi - 1);
      assert EnclosesChildren(ns, hi - 1);
      forall i | lo <= i < hi
        ensures Encloses(NodeBox(n), NodeBox(ns[i]))
      {
        if i < n.l + 1 {
          EnclosesTrans(NodeBox(n), NodeBox(ns[n.l]), NodeBox(ns[i]));
        } else if i < hi - 1 {
          EnclosesTrans(NodeBox(n), NodeBox(ns[n.r]), NodeBox(ns[i]));
        }
      }
    }
  }

  /** Appending nodes after a subtree does not disturb it. */
  lemma {:induction false} SubtreeExtend(ns: seq<BvhNode>, longer: seq<BvhNode>, lo: nat, hi: nat)
    requires lo < hi <= |ns| <= |longer| && longer[..|ns|] == ns
    requires Subtree(ns, lo, hi)
    ensures Subtree(longer, lo, hi)
    decreases hi - lo
  {
    var n := ns[hi - 1];
    assert longer[hi - 1] == n;
    if hi - lo > 1 {
      SubtreeExtend(ns, longer, lo, n.l + 1);
      SubtreeExtend(ns, longer, n.l + 1, hi - 1);
    }
  }

  /** In a subtree every internal node's children lie inside the subtree and
      before it, left child first. */
  lemma {:induction false} SubtreeChildrenBefore(ns: seq<BvhNode>, lo: nat, hi: nat)
    requires lo < hi <= |ns|
    requires Subtree(ns, lo, hi)
    ensures forall i | lo <= i < hi && !IsLeaf(ns[i]) :: lo <= ns[i].l < ns[i].r < i
    decreases hi - lo
  {
    var n := ns[hi - 1];
    if hi - lo > 1 {
      SubtreeChildrenBefore(ns, lo, n.l + 1);
      SubtreeChildrenBefore(ns, n.l + 1, hi - 1);
    }
  }

  /** A subtree holding `k` leaves takes `2k - 1` nodes. */
  lemma {:induction false} SubtreeSize(ns: seq<BvhNode>, lo: nat, hi: nat)
    requires lo < hi <= |ns|
    requires Subtree(ns, lo, hi)
    ensures hi - lo == 2 * |LeafNodes(ns[lo..hi])| - 1
    decreases hi - lo
  {
    var n := ns[hi - 1];
    if hi - lo == 1 {
      assert ns[lo..hi] == [n];
      assert LeafNodes(ns[lo..hi]) == LeafNodes([]) + [n];
    } else {
      SubtreeSize(ns, lo, n.l + 1);
      SubtreeSize(ns, n.l + 1, hi - 1);
      assert ns[lo..hi] == ns[lo..n.l + 1] + ns[n.l + 1..hi - 1] + [n];
      LeafNodesConcat(ns[lo..n.l + 1] + ns[n.l + 1..hi - 1], [n]);
      LeafNodesConcat(ns[lo..n.l + 1], ns[n.l + 1..hi - 1]);
      assert LeafNodes([n]) == [] by {
        assert [n][..0] == [];
      }
    }
  }

  /** The leaf nodes of `ns`, in array order. */
  function LeafNodes(ns: seq<BvhNode>): (leaves: seq<BvhNode>)
    ensures |leaves| <= |ns|
    ensures forall i | 0 <= i < |leaves| :: IsLeaf(leaves[i])
  {
    if |ns| == 0 then []
    else LeafNodes(ns[..|ns| - 1]) + (if IsLeaf(ns[|ns| - 1]) then [ns[|ns| - 1]] else [])
  }

  lemma {:induction false} LeafNodesConcat(a: seq<BvhNode>, b: seq<BvhNode>)
    ensures LeafNodes(a + b) == LeafNodes(a) + LeafNodes(b)
    decreases |b|
  {
    if |b| == 0 {
      assert a + b == a;
    } else {
      assert (a + b)[..|a + b| - 1] == a + b[..|b| - 1];
      LeafNodesConcat(a, b[..|b| - 1]);
    }
  }

  /** Every leaf of `ns` is listed by LeafNodes; `j` is its position there. */
  lemma {:induction false} LeafListed(ns: seq<BvhNode>, i: nat) returns (j: nat)
    requires i < |ns| && IsLeaf(ns[i])
    ensures j < |LeafNodes(ns)| && LeafNodes(ns)[j] == ns[i]
    decreases |ns|
  {
    if i < |ns| - 1 {
      j := LeafListed(ns[..|ns| - 1], i);
    } else {
      j := |LeafNodes(ns[..|ns| - 1])|;
    }
  }

  /** The leaf written for one triangle (trimesh.c:99-104). */
  function LeafFor(t: TriangleInfo): (n: BvhNode)
    ensures IsLeaf(n) && n.l == t.index
  {
    BvhNode(t.bounds.min, t.index, t.bounds.max, t.index)
  }

  // ---------------------------------------------------------------------
  // recursive_split (trimesh.c:86-204)
  // ---------------------------------------------------------------------

  /** What building the subtree for range `s` promises: `r` is the range as
      the partitions left it (a permutation of `s`), `nodes'` extends `nodes`
      by exactly `2|s| - 1` nodes that form one subtree rooted at the last
      slot, that subtree's leaves are those of `r`, in order, and each of
      its internal nodes encloses its children. */
  ghost predicate Built(s: seq<TriangleInfo>, r: seq<TriangleInfo>, nodes: seq<BvhNode>, nodes': seq<BvhNode>)
  {
    && |s| >= 1
    && |r| == |s| && multiset(r) == multiset(s)
    && |nodes'| == |nodes| + 2 * |s| - 1
    && nodes'[..|nodes|] == nodes
    && Subtree(nodes', |nodes|, |nodes'|)
    && LeafNodes(nodes'[|nodes|..]) == Map(LeafFor, r)
    && ChildrenBoxed(nodes', |nodes|, |nodes'|)
  }

  /** Builds the subtree for one range, appending its nodes to `nodes` in
      postorder; returns the range as the partitions left it, the extended
      array and the position of the node written last, whose box is the
      union of the range's boxes. */
  method RecursiveSplit(s: seq<TriangleInfo>, nodes: seq<BvhNode>)
    returns (r: seq<TriangleInfo>, nodes': seq<BvhNode>, root: nat)
    requires |s| >= 1 && AllSolid(s)
    ensures Built(s, r, nodes, nodes')
    ensures root == |nodes'| - 1
    ensures nodes'[root].min == BoundsOf(s).min && nodes'[root].max == BoundsOf(s).max
    decreases |s|, 1
  {
    if |s| == 1 {
      r := s;
      nodes' := nodes + [LeafFor(s[0])];
      SingleLeaf(nodes, LeafFor(s[0]));
      root := |nodes'| - 1;
    } else {
      var s1, middle, _ := SplitRange(s);
      PermutationKeepsSolid(s, s1);
      r, nodes', root := BuildHalves(s, s1, middle, nodes);
    }
  }

  /** The internal-node case of `recursive_split` once the range `s` has been
      rearranged into `s1` and split at `middle`: build the left half's
      subtree, then the right half's after it, then append their parent,
      whose box is the union of the whole range's boxes. */
  method BuildHalves(s: seq<TriangleInfo>, s1: seq<TriangleInfo>, middle: nat, nodes: seq<BvhNode>)
    returns (r: seq<TriangleInfo>, nodes': seq<BvhNode>, root: nat)
    requires |s1| == |s| && multiset(s1) == multiset(s) && 0 < middle < |s1|
    requires AllSolid(s) && AllSolid(s1)
    ensures Built(s, r, nodes, nodes')
    ensures root == |nodes'| - 1
    ensures nodes'[root].min == BoundsOf(s).min && nodes'[root].max == BoundsOf(s).max
    decreases |s|, 0
  {
    var bounds := BoundsOf(s);
    var left, nodes1, a := RecursiveSplit(s1[..middle], nodes);
    var right, nodes2, b := RecursiveSplit(s1[middle..], nodes1);
    nodes' := nodes2 + [BvhNode(bounds.min, a, bounds.max, b)];
    r := left + right;
    HalvesWithin(s, s1, middle);
    JoinBuilt(s, s1, middle, nodes, left, nodes1, right, nodes2, nodes');
    root := |nodes'| - 1;
  }

  /** The parent appended after the subtrees built over the two halves of a
      permuted range completes the subtree for the whole range. */
  lemma JoinBuilt(s: seq<TriangleInfo>, s1: seq<TriangleInfo>, middle: nat, nodes: seq<BvhNode>,
                  left: seq<TriangleInfo>, nodes1: seq<BvhNode>,
                  right: seq<TriangleInfo>, nodes2: seq<BvhNode>, ns: seq<BvhNode>)
    requires |s1| == |s| && multiset(s1) == multiset(s) && 0 < middle < |s1|
    requires Built(s1[..middle], left, nodes, nodes1)
    requires Built(s1[middle..], right, nodes1, nodes2)
    requires |ns| == |nodes2| + 1 && ns[..|nodes2|] == nodes2
    requires ns[|nodes2|].l == |nodes1| - 1 && ns[|nodes2|].r == |nodes2| - 1
    requires Encloses(NodeBox(ns[|nodes2|]), NodeBox(nodes1[|nodes1| - 1]))
    requires Encloses(NodeBox(ns[|nodes2|]), NodeBox(nodes2[|nodes2| - 1]))
    ensures Built(s, left + right, nodes, ns)
  {
    JoinPermutations(s1, middle, left, right);
    JoinChildren(middle, |s1|, nodes, nodes1, nodes2, ns);
    JoinLeaves(nodes, nodes1, nodes2, left, right, ns);
    JoinBoxes(nodes, nodes1, nodes2, ns);
  }

  /** The appended parent encloses its two children, and the internal nodes
      of both subtrees keep enclosing theirs. */
  lemma JoinBoxes(nodes: seq<BvhNode>, nodes1: seq<BvhNode>, nodes2: seq<BvhNode>, ns: seq<BvhNode>)
    requires |nodes| < |nodes1| < |nodes2| && |ns| == |nodes2| + 1
    requires nodes2[..|nodes1|] == nodes1 && ns[..|nodes2|] == nodes2
    requires ChildrenBoxed(nodes1, |nodes|, |nodes1|) && ChildrenBoxed(nodes2, |nodes1|, |nodes2|)
    requires ns[|nodes2|].l == |nodes1| - 1 && ns[|nodes2|].r == |nodes2| - 1
    requires Encloses(NodeBox(ns[|nodes2|]), NodeBox(nodes1[|nodes1| - 1]))
    requires Encloses(NodeBox(ns[|nodes2|]), NodeBox(nodes2[|nodes2| - 1]))
    ensures ChildrenBoxed(ns, |nodes|, |ns|)
  {
    forall i | |nodes| <= i < |ns|
      ensures EnclosesChildren(ns, i)
    {
      if i < |nodes1| {
        assert EnclosesChildren(nodes1, i);
        assert ns[i] == nodes2[i] == nodes1[i];
        if !IsLeaf(nodes1[i]) {
          assert ns[nodes1[i].l] == nodes2[nodes1[i].l] == nodes1[nodes1[i].l];
          assert ns[nodes1[i].r] == nodes2[nodes1[i].r] == nodes1[nodes1[i].r];
        }
      } else if i < |nodes2| {
        assert EnclosesChildren(nodes2, i);
        assert ns[i] == nodes2[i];
        if !IsLeaf(nodes2[i]) {
          assert ns[nodes2[i].l] == nodes2[nodes2[i].l];
          assert ns[nodes2[i].r] == nodes2[nodes2[i].r];
        }
      } else {
        assert ns[|nodes1| - 1] == nodes2[|nodes1| - 1] == nodes1[|nodes1| - 1];
        assert ns[|nodes2| - 1] == nodes2[|nodes2| - 1];
      }
    }
  }

  /** The box of a range encloses the boxes of both halves of any
      rearrangement of it. */
  lemma HalvesWithin(s: seq<TriangleInfo>, s1: seq<TriangleInfo>, middle: nat)
    requires |s1| == |s| && multiset(s1) == multiset(s) && 0 < middle < |s1|
    ensures Encloses(BoundsOf(s), BoundsOf(s1[..middle]))
    ensures Encloses(BoundsOf(s), BoundsOf(s1[middle..]))
  {
    forall i | 0 <= i < |s1|
      ensures Encloses(BoundsOf(s), s1[i].bounds)
    {
      assert s1[i] in multiset(s);
      var j := PositionOf(s, s1[i]);
    }
    BoundsOfLeast(s1[..middle], BoundsOf(s));
    BoundsOfLeast(s1[middle..], BoundsOf(s));
  }

  /** The box of a range is the least box enclosing all its boxes. */
  lemma {:induction false} BoundsOfLeast(s: seq<TriangleInfo>, outer: Aabb)
    requires |s| >= 1
    requires forall i | 0 <= i < |s| :: Encloses(outer, s[i].bounds)
    ensures Encloses(outer, BoundsOf(s))
    decreases |s|
  {
    if |s| > 1 {
      BoundsOfLeast(s[..|s| - 1], outer);
    }
  }

  /** A single appended leaf is a subtree of its own. */
  lemma SingleLeaf(nodes: seq<BvhNode>, leaf: BvhNode)
    requires IsLeaf(leaf)
    ensures Subtree(nodes + [leaf], |nodes|, |nodes| + 1)
    ensures LeafNodes((nodes + [leaf])[|nodes|..]) == [leaf]
    ensures ChildrenBoxed(nodes + [leaf], |nodes|, |nodes| + 1)
  {
    assert (nodes + [leaf])[|nodes|..] == [leaf];
    assert LeafNodes([leaf]) == LeafNodes([]) + [leaf];
  }

  /** Permuting each half of a range permutes the whole range. */
  lemma JoinPermutations<T>(s: seq<T>, middle: nat, left: seq<T>, right: seq<T>)
    requires middle <= |s|
    requires multiset(left) == multiset(s[..middle]) && multiset(right) == multiset(s[middle..])
    ensures multiset(left + right) == multiset(s)
  {
    assert s == s[..middle] + s[middle..];
  }

  /** The parent appended after the subtrees built over the two halves of a
      split range roots one subtree, and the nodes before them stay put. */
  lemma JoinChildren(middle: nat, total: nat, nodes: seq<BvhNode>,
                     nodes1: seq<BvhNode>, nodes2: seq<BvhNode>, ns: seq<BvhNode>)
    requires 0 < middle < total
    requires |nodes1| == |nodes| + 2 * middle - 1 && nodes1[..|nodes|] == nodes
    requires |nodes2| == |nodes1| + 2 * (total - middle) - 1 && nodes2[..|nodes1|] == nodes1
    requires Subtree(nodes1, |nodes|, |nodes1|) && Subtree(nodes2, |nodes1|, |nodes2|)
    requires |ns| == |nodes2| + 1 && ns[..|nodes2|] == nodes2
    requires ns[|nodes2|].l == |nodes1| - 1 && ns[|nodes2|].r == |nodes2| - 1
    ensures ns[..|nodes|] == nodes
    ensures Subtree(ns, |nodes|, |ns|)
  {
    PrefixTrans(nodes1, nodes2, ns);
    PrefixTrans(nodes, nodes1, ns);
    JoinSubtrees(nodes1, nodes2, ns, |nodes|);
  }

  /** One unfolding of Subtree for an internal root. */
  lemma SubtreeIntro(ns: seq<BvhNode>, lo: nat, hi: nat)
    requires lo + 1 < hi <= |ns|
    requires lo <= ns[hi - 1].l && ns[hi - 1].l + 1 < hi - 1 && ns[hi - 1].r == hi - 2
    requires Subtree(ns, lo, ns[hi - 1].l + 1) && Subtree(ns, ns[hi - 1].l + 1, hi - 1)
    ensures Subtree(ns, lo, hi)
  {}

  /** Appending the parent of two adjacent subtrees gives one subtree. */
  lemma JoinSubtrees(nodes1: seq<BvhNode>, nodes2: seq<BvhNode>, ns: seq<BvhNode>, lo: nat)
    requires lo < |nodes1| < |nodes2| && |ns| == |nodes2| + 1
    requires Subtree(nodes1, lo, |nodes1|) && Subtree(nodes2, |nodes1|, |nodes2|)
    requires ns[..|nodes1|] == nodes1 && ns[..|nodes2|] == nodes2
    requires ns[|nodes2|].l == |nodes1| - 1 && ns[|nodes2|].r == |nodes2| - 1
    ensures Subtree(ns, lo, |ns|)
  {
    SubtreeExtend(nodes1, ns, lo, |nodes1|);
    assert Subtree(ns, lo, |nodes1|);
    SubtreeExtend(nodes2, ns, |nodes1|, |nodes2|);
    assert Subtree(ns, |nodes1|, |nodes2|);
    SubtreeIntro(ns, lo, |ns|);
  }

  /** The leaves under that parent are those of the left subtree followed by
      those of the right. */
  lemma JoinLeaves(nodes: seq<BvhNode>, nodes1: seq<BvhNode>, nodes2: seq<BvhNode>,
                   left: seq<TriangleInfo>, right: seq<TriangleInfo>, ns: seq<BvhNode>)
    requires |nodes| < |nodes1| < |nodes2|
    requires nodes1[..|nodes|] == nodes && nodes2[..|nodes1|] == nodes1
    requires LeafNodes(nodes1[|nodes|..]) == Map(LeafFor, left)
    requires LeafNodes(nodes2[|nodes1|..]) == Map(LeafFor, right)
    requires |ns| == |nodes2| + 1 && ns[..|nodes2|] == nodes2 && !IsLeaf(ns[|nodes2|])
    ensures LeafNodes(ns[|nodes|..]) == Map(LeafFor, left + right)
  {
    var node := ns[|nodes2|];
    var a := nodes1[|nodes|..];
    var b := nodes2[|nodes1|..];
    assert ns[|nodes|..] == a + b + [node] by {
      assert nodes1 == nodes + a;
      assert nodes2 == nodes1 + b;
      assert ns == nodes2 + [node];
    }
    LeafNodesConcat(a + b, [node]);
    LeafNodesConcat(a, b);
    assert LeafNodes([node]) == [] by {
      assert [node][..0] == [];
    }
    MapConcat(LeafFor, left, right);
  }

  /** Every element of a permutation of a range of solid boxes is solid. */
  lemma PermutationKeepsSolid(s: seq<TriangleInfo>, t: seq<TriangleInfo>)
    requires multiset(t) == multiset(s) && AllSolid(s)
    ensures AllSolid(t)
  {
    forall i | 0 <= i < |t|
      ensures Solid(t[i].bounds)
    {
      assert t[i] in multiset(s);
      var j := PositionOf(s, t[i]);
    }
  }

  // ---------------------------------------------------------------------
  // trimesh_new (trimesh.c:206-247)
  // ---------------------------------------------------------------------

  /** Every index of the whole triangles of the index buffer names a vertex;
      a trailing partial triangle is ignored by the C code. */
  predicate ValidIndices(vertices: seq<Vertex>, indices: seq<nat>) {
    forall j | 0 <= j < |indices| / 3 * 3 :: indices[j] < |vertices|
  }

  /** `p` lies inside `b` with at least the padding to spare on every side. */
  predicate PaddedAround(b: Aabb, p: Vec3) {
    && b.min.x + Padding <= p.x <= b.max.x - Padding
    && b.min.y + Padding <= p.y <= b.max.y - Padding
    && b.min.z + Padding <= p.z <= b.max.z - Padding
  }

  /** Position of corner `c` of triangle `i`. */
  function Corner(vertices: seq<Vertex>, indices: seq<nat>, i: nat, c: nat): Vec3
    requires ValidIndices(vertices, indices) && i < |indices| / 3 && c < 3
  {
    vertices[indices[3 * i + c]].position
  }

  /** The box of triangle `i`: the component-wise extremes of its corners,
      pushed out by the padding on every side. */
  function TriangleBounds(vertices: seq<Vertex>, indices: seq<nat>, i: nat): (b: Aabb)
    requires ValidIndices(vertices, indices) && i < |indices| / 3
    ensures Solid(b)
    ensures forall c | 0 <= c < 3 :: PaddedAround(b, Corner(vertices, indices, i, c))
  {
    var p0 := Corner(vertices, indices, i, 0);
    var p1 := Corner(vertices, indices, i, 1);
    var p2 := Corner(vertices, indices, i, 2);
    AabbNew(Sub(VecMin(p0, VecMin(p1, p2)), Splat(Padding)),
            Add(VecMax(p0, VecMax(p1, p2)), Splat(Padding)))
  }

  /** The union of the boxes of triangles `0 .. n-1`, in triangle order. */
  function MeshBounds(vertices: seq<Vertex>, indices: seq<nat>, n: nat): (b: Aabb)
    requires ValidIndices(vertices, indices) && 1 <= n <= |indices| / 3
    ensures forall t | 0 <= t < n :: Encloses(b, TriangleBounds(vertices, indices, t))
    ensures Solid(b)
  {
    if n == 1 then TriangleBounds(vertices, indices, 0)
    else Union(MeshBounds(vertices, indices, n - 1), TriangleBounds(vertices, indices, n - 1))
  }

  /** Folding the records' boxes gives the union of the triangles' boxes. */
  lemma {:induction false} InfosBounds(vertices: seq<Vertex>, indices: seq<nat>, infos: seq<TriangleInfo>)
    requires ValidIndices(vertices, indices) && 1 <= |infos| <= |indices| / 3
    requires forall i | 0 <= i < |infos| :: infos[i].bounds == TriangleBounds(vertices, indices, i)
    ensures BoundsOf(infos) == MeshBounds(vertices, indices, |infos|)
    decreases |infos|
  {
    if |infos| > 1 {
      var front := infos[..|infos| - 1];
      assert forall i | 0 <= i < |front| :: front[i] == infos[i];
      InfosBounds(vertices, indices, front);
    }
  }

  /** The loop of `trimesh_new` that fills one record per triangle. */
  method TriangleInfos(vertices: seq<Vertex>, indices: seq<nat>) returns (infos: seq<TriangleInfo>)
    requires ValidIndices(vertices, indices)
    ensures |infos| == |indices| / 3
    ensures forall i | 0 <= i < |infos| :: infos[i].index == i
    ensures forall i | 0 <= i < |infos| :: infos[i].bounds == TriangleBounds(vertices, indices, i)
    ensures forall i | 0 <= i < |infos| :: infos[i].centroid == Centroid(infos[i].bounds)
    ensures forall i | 0 <= i < |infos| :: Contains(infos[i].bounds, infos[i].centroid)
    ensures AllSolid(infos)
  {
    var n := |indices| / 3;
    infos := [];
    var i := 0;
    while i < n
      invariant i <= n && |infos| == i
      invariant forall j | 0 <= j < i :: infos[j].index == j
      invariant forall j | 0 <= j < i :: infos[j].bounds == TriangleBounds(vertices, indices, j)
      invariant forall j | 0 <= j < i :: infos[j].centroid == Centroid(infos[j].bounds)
      invariant forall j | 0 <= j < i :: Contains(infos[j].bounds, infos[j].centroid)
    {
      var bounds := TriangleBounds(vertices, indices, i);
      infos := infos + [TriangleInfo(bounds, Centroid(bounds), i)];
      i := i + 1;
    }
  }

  /** The triangle indices stored in the leaves of `ns`, in array order. */
  function LeafTriangles(ns: seq<BvhNode>): (ts: seq<nat>)
    ensures |ts| == |LeafNodes(ns)|
  {
    Map((n: BvhNode) => n.l, LeafNodes(ns))
  }

  /** The shape of the node array `trimesh_new` builds over `n` triangles:
      `2n - 1` nodes forming one postorder subtree rooted at the last node,
      every internal node after both of its children (left child first), and
      every triangle ordinal below `n` stored in exactly one leaf. */
  ghost predicate BvhShape(nodes: seq<BvhNode>, n: nat) {
    && n >= 1
    && |nodes| == 2 * n - 1
    && Subtree(nodes, 0, |nodes|)
    && (forall i | 0 <= i < |nodes| && !IsLeaf(nodes[i]) :: nodes[i].l < nodes[i].r < i)
    && (forall t: nat :: multiset(LeafTriangles(nodes))[t] == if t < n then 1 else 0)
  }

  /** The boxes of that node array: each leaf carries its triangle's box,
      each internal node encloses its children, and the root is exactly the
      union of all triangle boxes and encloses every node. */
  ghost predicate BvhBoxes(vertices: seq<Vertex>, indices: seq<nat>, nodes: seq<BvhNode>)
    requires ValidIndices(vertices, indices) && |indices| / 3 >= 1 && |nodes| >= 1
  {
    var root := nodes[|nodes| - 1];
    && (forall i | 0 <= i < |nodes| && IsLeaf(nodes[i]) ::
          && nodes[i].l < |indices| / 3
          && nodes[i].min == TriangleBounds(vertices, indices, nodes[i].l).min
          && nodes[i].max == TriangleBounds(vertices, indices, nodes[i].l).max)
    && ChildrenBoxed(nodes, 0, |nodes|)
    && NodeBox(root) == MeshBounds(vertices, indices, |indices| / 3)
    && (forall t | 0 <= t < |indices| / 3 :: Encloses(NodeBox(root), TriangleBounds(vertices, indices, t)))
    && (forall i | 0 <= i < |nodes| :: Encloses(NodeBox(root), NodeBox(nodes[i])))
  }

  /** Builds the mesh record and its BVH over all whole triangles. A buffer
      with no whole triangle is not accepted: the C node count `2n - 1`
      would wrap around for `n = 0`. */
  method TrimeshNew(vertices: seq<Vertex>, indices: seq<nat>) returns (mesh: TriangleMesh)
    requires |indices| / 3 >= 1 && ValidIndices(vertices, indices)
    ensures mesh.vertexCount == |vertices| && mesh.vertices == vertices
    ensures mesh.indexCount == |indices| && mesh.indices == indices
    ensures mesh.bvhNodeCount == |mesh.bvhNodes|
    ensures BvhShape(mesh.bvhNodes, |indices| / 3)
    ensures BvhBoxes(vertices, indices, mesh.bvhNodes)
  {
    var n := |indices| / 3;
    var infos := TriangleInfos(vertices, indices);
    var r, nodes, root := RecursiveSplit(infos, []);
    mesh := TriangleMesh(|vertices|, vertices, |indices|, indices, 2 * n - 1, nodes);
    TreeShape(infos, r, nodes);
    TreeBoxes(vertices, indices, infos, r, nodes);
  }

  /** The subtree built over all triangle records has the shape of a BVH
      over them. */
  lemma {:induction false} TreeShape(infos: seq<TriangleInfo>, r: seq<TriangleInfo>, nodes: seq<BvhNode>)
    requires forall i | 0 <= i < |infos| :: infos[i].index == i
    requires Built(infos, r, [], nodes)
    ensures BvhShape(nodes, |infos|)
  {
    assert nodes[0..] == nodes;
    SubtreeChildrenBefore(nodes, 0, |nodes|);
    EachTriangleOnce(infos, r, nodes);
  }

  /** The boxes of the subtree built over all triangle records, whose root
      holds the union of their boxes. */
  lemma {:induction false} TreeBoxes(vertices: seq<Vertex>, indices: seq<nat>, infos: seq<TriangleInfo>,
                  r: seq<TriangleInfo>, nodes: seq<BvhNode>)
    requires ValidIndices(vertices, indices) && |infos| == |indices| / 3
    requires forall i | 0 <= i < |infos| :: infos[i].index == i
    requires forall i | 0 <= i < |infos| :: infos[i].bounds == TriangleBounds(vertices, indices, i)
    requires Built(infos, r, [], nodes)
    requires NodeBox(nodes[|nodes| - 1]) == BoundsOf(infos)
    ensures BvhBoxes(vertices, indices, nodes)
  {
    assert nodes[0..] == nodes;
    LeafBoxes(vertices, indices, infos, r, nodes);
    InfosBounds(vertices, indices, infos);
    RootEnclosesSubtree(nodes, 0, |nodes|);
  }

  /** Every triangle ordinal below `n` labels exactly one leaf. */
  lemma EachTriangleOnce(infos: seq<TriangleInfo>, r: seq<TriangleInfo>, nodes: seq<BvhNode>)
    requires forall i | 0 <= i < |infos| :: infos[i].index == i
    requires multiset(r) == multiset(infos) && LeafNodes(nodes) == Map(LeafFor, r)
    ensures forall t: nat :: multiset(LeafTriangles(nodes))[t] == if t < |infos| then 1 else 0
  {
    var index := (t: TriangleInfo) => t.index;
    MapPermutation(index, r, infos);
    assert Map(index, infos) == Range(|infos|);
    assert LeafTriangles(nodes) == Map(index, r);
    forall t: nat
      ensures multiset(LeafTriangles(nodes))[t] == if t < |infos| then 1 else 0
    {
      RangeOccurrences(|infos|, t);
    }
  }

  /** Every leaf carries the box of the triangle it names. */
  lemma LeafBoxes(vertices: seq<Vertex>, indices: seq<nat>, infos: seq<TriangleInfo>,
                  r: seq<TriangleInfo>, nodes: seq<BvhNode>)
    requires ValidIndices(vertices, indices) && |infos| == |indices| / 3
    requires forall i | 0 <= i < |infos| :: infos[i].index == i
    requires forall i | 0 <= i < |infos| :: infos[i].bounds == TriangleBounds(vertices, indices, i)
    requires multiset(r) == multiset(infos) && LeafNodes(nodes) == Map(LeafFor, r)
    ensures forall i | 0 <= i < |nodes| && IsLeaf(nodes[i]) ::
              && nodes[i].l < |indices| / 3
              && nodes[i].min == TriangleBounds(vertices, indices, nodes[i].l).min
              && nodes[i].max == TriangleBounds(vertices, indices, nodes[i].l).max
  {
    forall i | 0 <= i < |nodes| && IsLeaf(nodes[i])
      ensures nodes[i].l < |indices| / 3
      ensures nodes[i].min == TriangleBounds(vertices, indices, nodes[i].l).min
      ensures nodes[i].max == TriangleBounds(vertices, indices, nodes[i].l).max
    {
      var j := LeafListed(nodes, i);
      assert r[j] in multiset(infos);
      var k := PositionOf(infos, r[j]);
    }
  }
}
