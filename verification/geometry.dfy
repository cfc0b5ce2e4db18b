/**
 Real-valued vectors and axis-aligned bounding boxes.

 The renderer's `aabb_*` helpers and the ccVector routines are not part of
 this model's source files; the definitions below are the conventional ones
 (component-wise min/max union, centre as centroid, `2(xy + yz + zx)` surface
 area, offset relative to the box extent) and are stated over `real`, so IEEE
 rounding is not modelled.
 */
module Geometry {

  /** An axis index: 0 = x, 1 = y, 2 = z. */
  type Axis = d: nat | d < 3

  function Min(a: real, b: real): real { if a < b then a else b }
  function Max(a: real, b: real): real { if a > b then a else b }

  datatype Vec3 = Vec3(x: real, y: real, z: real) {
    function Get(d: Axis): real {
      if d == 0 then x else if d == 1 then y else z
    }
  }

  function Add(a: Vec3, b: Vec3): Vec3 { Vec3(a.x + b.x, a.y + b.y, a.z + b.z) }
  function Sub(a: Vec3, b: Vec3): Vec3 { Vec3(a.x - b.x, a.y - b.y, a.z - b.z) }
  function Splat(c: real): Vec3 { Vec3(c, c, c) }
  function VecMin(a: Vec3, b: Vec3): Vec3 { Vec3(Min(a.x, b.x), Min(a.y, b.y), Min(a.z, b.z)) }
  function VecMax(a: Vec3, b: Vec3): Vec3 { Vec3(Max(a.x, b.x), Max(a.y, b.y), Max(a.z, b.z)) }

  const Origin: Vec3 := Vec3(0.0, 0.0, 0.0)

  datatype Aabb = Aabb(min: Vec3, max: Vec3)

  /** `min` is component-wise at most `max`. */
  predicate Ordered(b: Aabb) {
    b.min.x <= b.max.x && b.min.y <= b.max.y && b.min.z <= b.max.z
  }

  /** Every extent is strictly positive (a box with volume). */
  predicate Solid(b: Aabb) {
    b.min.x < b.max.x && b.min.y < b.max.y && b.min.z < b.max.z
  }

  predicate Contains(b: Aabb, p: Vec3) {
    b.min.x <= p.x <= b.max.x && b.min.y <= p.y <= b.max.y && b.min.z <= p.z <= b.max.z
  }

  /** `outer` reaches at least as far as `inner` on every side. */
  predicate Encloses(outer: Aabb, inner: Aabb) {
    && outer.min.x <= inner.min.x && outer.min.y <= inner.min.y && outer.min.z <= inner.min.z
    && inner.max.x <= outer.max.x && inner.max.y <= outer.max.y && inner.max.z <= outer.max.z
  }

  lemma EnclosesTrans(a: Aabb, b: Aabb, c: Aabb)
    requires Encloses(a, b) && Encloses(b, c)
    ensures Encloses(a, c)
  {}

  /** `aabb_new`: the box spanned by two corner points in any order. */
  function AabbNew(a: Vec3, b: Vec3): (r: Aabb)
    ensures Ordered(r) && Contains(r, a) && Contains(r, b)
  {
    Aabb(VecMin(a, b), VecMax(a, b))
  }

  /** `aabb_from_vec3`: the degenerate box holding one point. */
  function FromPoint(p: Vec3): (r: Aabb)
    ensures Ordered(r) && Contains(r, p)
  {
    Aabb(p, p)
  }

  /** `aabb_union`. */
  function Union(a: Aabb, b: Aabb): (r: Aabb)
    ensures Encloses(r, a) && Encloses(r, b)
    ensures forall p :: Contains(a, p) || Contains(b, p) ==> Contains(r, p)
    ensures Solid(a) && Ordered(b) ==> Solid(r)
    ensures Ordered(a) && Solid(b) ==> Solid(r)
    ensures Ordered(a) && Ordered(b) ==> Ordered(r)
  {
    Aabb(VecMin(a.min, b.min), VecMax(a.max, b.max))
  }

  /** `aabb_expand`: grow a box to take in a point. */
  function Expand(b: Aabb, p: Vec3): (r: Aabb)
    ensures Contains(r, p)
    ensures forall q :: Contains(b, q) ==> Contains(r, q)
    ensures Ordered(b) ==> Ordered(r)
  {
    Union(b, FromPoint(p))
  }

  /** `aabb_centroid`: the centre of the box. */
  function Centroid(b: Aabb): (c: Vec3)
    ensures Ordered(b) ==> Contains(b, c)
  {
    Vec3((b.min.x + b.max.x) * 0.5, (b.min.y + b.max.y) * 0.5, (b.min.z + b.max.z) * 0.5)
  }

  function Extent(b: Aabb): Vec3 { Sub(b.max, b.min) }

  /** `aabb_surface_area`. */
  function SurfaceArea(b: Aabb): (a: real)
    ensures Solid(b) ==> a > 0.0
    ensures Ordered(b) ==> a >= 0.0
  {
    var d := Extent(b);
    assert Solid(b) ==> d.x * d.y > 0.0 && d.y * d.z > 0.0 && d.z * d.x > 0.0 by {
      if Solid(b) {
        PositiveProduct(d.x, d.y);
        PositiveProduct(d.y, d.z);
        PositiveProduct(d.z, d.x);
      }
    }
    assert Ordered(b) ==> d.x * d.y >= 0.0 && d.y * d.z >= 0.0 && d.z * d.x >= 0.0 by {
      if Ordered(b) {
        NonNegativeProduct(d.x, d.y);
        NonNegativeProduct(d.y, d.z);
        NonNegativeProduct(d.z, d.x);
      }
    }
    2.0 * (d.x * d.y + d.y * d.z + d.z * d.x)
  }

  lemma PositiveProduct(a: real, b: real)
    requires a > 0.0 && b > 0.0
    ensures a * b > 0.0
  {}

  /** `aabb_max_extent_idx`: the axis along which the box is longest. Ties
      go to the later axis: x is picked only when strictly longer than both
      others, and y only when strictly longer than z. */
  function MaxExtentAxis(b: Aabb): (d: Axis)
    ensures forall e: Axis :: Extent(b).Get(e) <= Extent(b).Get(d)
  {
    var e := Extent(b);
    if e.x > e.y && e.x > e.z then 0 else if e.y > e.z then 1 else 2
  }

  /** Offset of `p` inside `b` along one axis, 0 at `min` and 1 at `max`;
      along an axis where the box is flat it is the raw distance from `min`. */
  function OffsetAlong(b: Aabb, p: Vec3, d: Axis): (o: real)
    ensures Contains(b, p) ==> 0.0 <= o <= 1.0
  {
    var lo := b.min.Get(d);
    var hi := b.max.Get(d);
    if hi > lo then
      assert Contains(b, p) ==> 0.0 <= (p.Get(d) - lo) / (hi - lo) <= 1.0 by {
        if Contains(b, p) { UnitRatio(p.Get(d) - lo, hi - lo); }
      }
      (p.Get(d) - lo) / (hi - lo)
    else
      p.Get(d) - lo
  }

  lemma NonNegativeProduct(a: real, b: real)
    requires a >= 0.0 && b >= 0.0
    ensures a * b >= 0.0
  {}

  lemma NonNegativeRatio(a: real, b: real)
    requires a >= 0.0 && b > 0.0
    ensures a / b >= 0.0
  {}

  /** A factor of a non-negative product whose other factor is positive is
      non-negative. */
  lemma NonNegativeFactor(q: real, d: real, a: real)
    requires d > 0.0 && a >= 0.0 && q * d == a
    ensures q >= 0.0
  {}

  lemma UnitRatio(a: real, w: real)
    requires w > 0.0 && 0.0 <= a <= w
    ensures 0.0 <= a / w <= 1.0
  {}
}
