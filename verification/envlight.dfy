/**
 The importance-sampling tables of `src/envlight.c`: per-texel luminance
 weighted by a per-row factor, row and image means, the marginal (per-row)
 and conditional (per-column) weights, and the two discretised inverse-CDF
 tables built by linear scans.

 f32 arithmetic is modelled over `real`, except that the NaN produced by
 `0 / 0` (a black row, or a black image) is kept: it absorbs every addition
 and fails every comparison, which decides what the scans return. The
 row-major buffers indexed `v * width + u` are sequences of rows here, and
 the `sin(theta)` factor of each row is a positive weight chosen by the
 caller.
 */
module Envlight {

  import opened Geometry

  /** A linear-RGB `vec4`; alpha is carried but not used. */
  datatype Texel = Texel(r: real, g: real, b: real, a: real)

  /** An f32 value as far as these tables need one: a number, or NaN. */
  datatype Float = Num(val: real) | NaN

  datatype EnvironmentLight = EnvironmentLight(
    lightData: seq<seq<Texel>>,
    width: nat,
    height: nat,
    luminance: seq<seq<real>>,
    imageAverage: real,
    cdfConditionalInverse: seq<seq<real>>,
    marginalInverse: seq<real>)

  // ---------------------------------------------------------------------
  // vec4_luminance (envlight.c:11-15)
  // ---------------------------------------------------------------------

  /** The Y row of the linear-sRGB to CIE XYZ matrix, i.e. the ITU-R BT.709
      luminance weights carried to six digits. The three weights sum to 1,
      so the result is a convex combination of the colour channels. */
  function Luminance(c: Texel): (l: real)
    ensures Min(c.r, Min(c.g, c.b)) <= l <= Max(c.r, Max(c.g, c.b))
    ensures c.r == c.g == c.b ==> l == c.r
    ensures c.r >= 0.0 && c.g >= 0.0 && c.b >= 0.0 && (c.r > 0.0 || c.g > 0.0 || c.b > 0.0) ==> l > 0.0
  {
    0.212671 * c.r + 0.715160 * c.g + 0.072169 * c.b
  }

  // ---------------------------------------------------------------------
  // f32 operations with NaN
  // ---------------------------------------------------------------------

  /** `a / b` for operands that never make an infinity: a zero divisor
      always comes with a zero dividend, and `0 / 0` is NaN. */
  function Quotient(a: real, b: real): (q: Float)
    requires b == 0.0 ==> a == 0.0
    ensures q.Num? <==> b != 0.0
    ensures q.Num? ==> q.val * b == a
  {
    if b == 0.0 then NaN else Num(a / b)
  }

  /** f32 addition: NaN absorbs. */
  function Plus(a: Float, b: Float): Float {
    if a.Num? && b.Num? then Num(a.val + b.val) else NaN
  }

  /** Division by a positive table size: NaN stays NaN. */
  function Over(a: Float, n: nat): Float
    requires n >= 1
  {
    if a.Num? then Num(a.val / n as real) else NaN
  }

  /** `a >= t`, which is false for NaN. */
  predicate AtLeast(a: Float, t: real) {
    a.Num? && a.val >= t
  }

  // ---------------------------------------------------------------------
  // Real sums
  // ---------------------------------------------------------------------

  function Sum(s: seq<real>): real {
    SumTo(s, |s|)
  }

  /** The sum of the first `k` terms, added in order. */
  function SumTo(s: seq<real>, k: nat): real
    requires k <= |s|
  {
    if k == 0 then 0.0 else SumTo(s, k - 1) + s[k - 1]
  }

  predicate AllNonNegative(s: seq<real>) {
    forall i | 0 <= i < |s| :: s[i] >= 0.0
  }

  predicate AllZero(s: seq<real>) {
    forall i | 0 <= i < |s| :: s[i] == 0.0
  }

  /** A sum of non-negative terms is non-negative, and zero only when every
      term is. */
  lemma SumNonNegative(s: seq<real>)
    requires AllNonNegative(s)
    ensures Sum(s) >= 0.0
    ensures Sum(s) == 0.0 <==> AllZero(s)
  {
    SumToNonNegative(s, |s|);
  }

  lemma {:induction false} SumToNonNegative(s: seq<real>, k: nat)
    requires k <= |s| && AllNonNegative(s)
    ensures SumTo(s, k) >= 0.0
    ensures SumTo(s, k) == 0.0 <==> forall i | 0 <= i < k :: s[i] == 0.0
  {
    if k > 0 {
      SumToNonNegative(s, k - 1);
    }
  }

  /** Scaling every term scales the sum. */
  lemma SumScaled(a: seq<real>, b: seq<real>, c: real)
    requires ScaledBy(a, c, b)
    ensures Sum(a) * c == Sum(b)
  {
    SumToScaled(a, b, c, |a|);
  }

  lemma {:induction false} SumToScaled(a: seq<real>, b: seq<real>, c: real, k: nat)
    requires ScaledBy(a, c, b) && k <= |a|
    ensures SumTo(a, k) * c == SumTo(b, k)
  {
    if k > 0 {
      SumToScaled(a, b, c, k - 1);
      assert SumTo(a, k) * c == SumTo(a, k - 1) * c + a[k - 1] * c;
    }
  }

  lemma DivAdd(a: real, b: real, n: real)
    requires n != 0.0
    ensures a / n + b / n == (a + b) / n
  {}

  lemma MulDivCancel(a: real, n: real)
    requires n != 0.0
    ensures a / n * n == a
  {}

  lemma DivMonotone(a: real, b: real, n: real)
    requires n > 0.0 && a <= b
    ensures a / n <= b / n
  {
    MulDivCancel(a, n);
    MulDivCancel(b, n);
  }

  lemma DivPositive(a: real, n: real)
    requires n > 0.0 && 0.0 < a
    ensures a / n > 0.0
  {}

  lemma DivBelowOne(a: real, n: real)
    requires n > 0.0 && a < n
    ensures a / n < 1.0
  {}

  // ---------------------------------------------------------------------
  // Running sums and scans
  // ---------------------------------------------------------------------

  /** `sum` plus `w[k] / |w|` for every `k` in `[x, j)`, added in order. */
  function Accum(w: seq<Float>, sum: Float, x: nat, j: nat): Float
    requires |w| >= 1 && x <= j <= |w|
    decreases j
  {
    if j == x then sum else Plus(Accum(w, sum, x, j - 1), Over(w[j - 1], |w|))
  }

  /** The running sum of the first `j` weights, each divided by `|w|`. */
  function Prefix(w: seq<Float>, j: nat): Float
    requires |w| >= 1 && j <= |w|
  {
    Accum(w, Num(0.0), 0, j)
  }

  /** Adding the first term into the starting sum does not change a
      running sum. */
  lemma {:induction false} AccumShift(w: seq<Float>, sum: Float, x: nat, j: nat)
    requires |w| >= 1 && x < j <= |w|
    ensures Accum(w, Plus(sum, Over(w[x], |w|)), x + 1, j) == Accum(w, sum, x, j)
    decreases j
  {
    if j > x + 1 {
      AccumShift(w, sum, x, j - 1);
    }
  }

  /** Continuing a running sum from where an earlier one stopped. */
  lemma {:induction false} AccumSplit(w: seq<Float>, sum: Float, x: nat, m: nat, j: nat)
    requires |w| >= 1 && x <= m <= j <= |w|
    ensures Accum(w, Accum(w, sum, x, m), m, j) == Accum(w, sum, x, j)
    decreases j
  {
    if j > m {
      AccumSplit(w, sum, x, m, j - 1);
    }
  }

  predicate NonNegativeWeights(w: seq<Float>) {
    forall k | 0 <= k < |w| :: w[k].Num? && w[k].val >= 0.0
  }

  /** Over non-negative weights a running sum is a number, grows with `j`,
      and keeps the order of its starting values. */
  lemma {:induction false} AccumMonotone(w: seq<Float>, s1: Float, s2: Float, x: nat, j: nat)
    requires |w| >= 1 && x <= j <= |w| && NonNegativeWeights(w)
    requires s1.Num? && s2.Num? && s1.val >= s2.val
    ensures Accum(w, s1, x, j).Num? && Accum(w, s2, x, j).Num?
    ensures Accum(w, s1, x, j).val >= Accum(w, s2, x, j).val
    ensures Accum(w, s1, x, j).val >= s1.val
    decreases j
  {
    if j > x {
      AccumMonotone(w, s1, s2, x, j - 1);
    }
  }

  /** A running sum that starts at or above the plain prefix stays at or
      above it. */
  lemma AccumDominates(w: seq<Float>, sum: Float, x: nat, j: nat)
    requires |w| >= 1 && x <= j <= |w| && NonNegativeWeights(w)
    requires sum.Num? && Prefix(w, x).Num? && sum.val >= Prefix(w, x).val
    ensures Accum(w, sum, x, j).Num? && Prefix(w, j).Num?
    ensures Accum(w, sum, x, j).val >= Prefix(w, j).val
  {
    AccumMonotone(w, sum, Prefix(w, x), x, j);
    AccumSplit(w, Num(0.0), 0, x, j);
  }

  /** Once the running sum is fed a NaN it stays NaN. */
  lemma {:induction false} AccumNaN(w: seq<Float>, sum: Float, x: nat, j: nat)
    requires |w| >= 1 && x < j <= |w|
    requires forall k | 0 <= k < |w| :: w[k] == NaN
    ensures Accum(w, sum, x, j) == NaN
    decreases j
  {
    if j > x + 1 {
      AccumNaN(w, sum, x, j - 1);
    }
  }

  /** The running sum of weights that are all numbers, as a real sum. */
  lemma {:induction false} PrefixOfNumbers(w: seq<Float>, vals: seq<real>, j: nat)
    requires |w| >= 1 && |vals| == |w| && j <= |w|
    requires forall k | 0 <= k < |w| :: w[k] == Num(vals[k])
    ensures Prefix(w, j) == Num(SumTo(vals, j) / |w| as real)
  {
    if j > 0 {
      PrefixOfNumbers(w, vals, j - 1);
      DivAdd(SumTo(vals, j - 1), vals[j - 1], |w| as real);
    }
  }

  /** One search of the C scans: starting at position `x` with running sum
      `sum`, add `w[x] / |w|` and stop at the first position where the sum
      reaches `t`, without advancing past it; run off the end otherwise.
      Returns the final position and the final sum. */
  function Scan(w: seq<Float>, t: real, x: nat, sum: Float): (r: (nat, Float))
    requires |w| >= 1 && x <= |w|
    ensures x <= r.0 <= |w|
    ensures r.0 < |w| ==> AtLeast(Accum(w, sum, x, r.0 + 1), t)
    ensures forall j | x < j <= r.0 :: !AtLeast(Accum(w, sum, x, j), t)
    ensures r.1 == Accum(w, sum, x, if r.0 < |w| then r.0 + 1 else |w|)
    decreases |w| - x
  {
    if x == |w| then (x, sum)
    else
      var s := Plus(sum, Over(w[x], |w|));
      if AtLeast(s, t) then (x, s)
      else
        var r := Scan(w, t, x + 1, s);
        assert forall j | x + 1 <= j <= |w| :: Accum(w, s, x + 1, j) == Accum(w, sum, x, j) by {
          forall j | x + 1 <= j <= |w| ensures Accum(w, s, x + 1, j) == Accum(w, sum, x, j) {
            AccumShift(w, sum, x, j);
          }
        }
        r
  }

  /** The row the marginal search of `envlight.c` settles on: the first `y`
      whose prefix `w[0]/n + ... + w[y]/n` reaches `t`, or `|w|` when none
      does. */
  function FirstReach(w: seq<Float>, t: real): (y: nat)
    requires |w| >= 1
    ensures y <= |w|
    ensures y < |w| ==> AtLeast(Prefix(w, y + 1), t)
    ensures forall j | 0 < j <= y :: !AtLeast(Prefix(w, j), t)
  {
    Scan(w, t, 0, Num(0.0)).0
  }

  /** A higher target is reached no earlier. */
  lemma FirstReachMonotone(w: seq<Float>, t1: real, t2: real)
    requires |w| >= 1 && t1 <= t2
    ensures FirstReach(w, t1) <= FirstReach(w, t2)
  {
    var y2 := FirstReach(w, t2);
    if y2 < |w| {
      assert AtLeast(Prefix(w, y2 + 1), t1);
    }

  }

  /** The centre of cell `y` of `n` cells, `(y + 0.5) / n`. */
  function Midpoint(y: nat, n: nat): real
    requires n >= 1
  {
    (y as real + 0.5) / n as real
  }

  lemma MidpointMonotone(y1: nat, y2: nat, n: nat)
    requires n >= 1 && y1 <= y2
    ensures Midpoint(y1, n) <= Midpoint(y2, n)
  {
    DivMonotone(y1 as real + 0.5, y2 as real + 0.5, n as real);
  }

  lemma MidpointBounds(y: nat, n: nat)
    requires n >= 1
    ensures 0.0 < Midpoint(y, n)
    ensures y < n ==> Midpoint(y, n) < 1.0
  {
    DivPositive(y as real + 0.5, n as real);
    if y < n {
      DivBelowOne(y as real + 0.5, n as real);
    }
  }

  /** A table whose running sum reaches `(|w| - 1) / |w|` stops its search
      before the end for every output index. */
  lemma ReachedBeforeEnd(w: seq<Float>, v: nat)
    requires |w| >= 1 && v < |w|
    requires AtLeast(Prefix(w, |w|), (|w| - 1) as real / |w| as real)
    ensures FirstReach(w, v as real / |w| as real) < |w|
  {
    var t := v as real / |w| as real;
    DivMonotone(v as real, (|w| - 1) as real, |w| as real);

  }

  // ---------------------------------------------------------------------
  // marginal inverse (envlight.c:53-66)
  // ---------------------------------------------------------------------

  /** The discretised inverse CDF of a weight table: entry `v` is the
      midpoint of the first cell whose prefix reaches `v / n`. This is the
      marginal-inverse loop; every output index starts a fresh search. */
  function InverseTable(w: seq<Float>): (table: seq<real>)
    requires |w| >= 1
    ensures |table| == |w|
    ensures forall v1, v2 | 0 <= v1 <= v2 < |w| :: table[v1] <= table[v2]
    ensures forall v | 0 <= v < |w| :: 0.0 < table[v] <= Midpoint(|w|, |w|)
    ensures w[0].Num? && w[0].val >= 0.0 ==> table[0] == Midpoint(0, |w|)
    ensures AtLeast(Prefix(w, |w|), (|w| - 1) as real / |w| as real) ==>
              forall v | 0 <= v < |w| :: table[v] < 1.0
    ensures IsInverseTable(w, table)
  {
    var table := seq(|w|, v requires 0 <= v < |w| => Midpoint(FirstReach(w, v as real / |w| as real), |w|));
    InverseTableOrdered(w, table);
    InverseTableBounds(w, table);
    InverseTableFirst(w, table);
    table
  }

  /** The table entry of output index `v`. */
  predicate IsInverseTable(w: seq<Float>, table: seq<real>)
    requires |w| >= 1
  {
    |table| == |w| &&
    forall v | 0 <= v < |w| :: table[v] == Midpoint(FirstReach(w, v as real / |w| as real), |w|)
  }

  lemma InverseTableOrdered(w: seq<Float>, table: seq<real>)
    requires |w| >= 1 && IsInverseTable(w, table)
    ensures forall v1, v2 | 0 <= v1 <= v2 < |w| :: table[v1] <= table[v2]
  {
    var n := |w|;
    forall v1, v2 | 0 <= v1 <= v2 < n ensures table[v1] <= table[v2] {
      DivMonotone(v1 as real, v2 as real, n as real);
      FirstReachMonotone(w, v1 as real / n as real, v2 as real / n as real);
      MidpointMonotone(FirstReach(w, v1 as real / n as real), FirstReach(w, v2 as real / n as real), n);
    }
  }

  lemma InverseTableFirst(w: seq<Float>, table: seq<real>)
    requires |w| >= 1 && IsInverseTable(w, table)
    ensures w[0].Num? && w[0].val >= 0.0 ==> table[0] == Midpoint(0, |w|)
  {
    if w[0].Num? && w[0].val >= 0.0 {
      assert AtLeast(Prefix(w, 1), 0 as real / |w| as real);
    }
  }

  lemma InverseTableBounds(w: seq<Float>, table: seq<real>)
    requires |w| >= 1 && IsInverseTable(w, table)
    ensures forall v | 0 <= v < |w| :: 0.0 < table[v] <= Midpoint(|w|, |w|)
    ensures AtLeast(Prefix(w, |w|), (|w| - 1) as real / |w| as real) ==>
              forall v | 0 <= v < |w| :: table[v] < 1.0
  {
    var n := |w|;
    forall v | 0 <= v < n
      ensures 0.0 < table[v] <= Midpoint(n, n)
      ensures AtLeast(Prefix(w, n), (n - 1) as real / n as real) ==> table[v] < 1.0
    {
      var y := FirstReach(w, v as real / n as real);
      MidpointBounds(y, n);
      MidpointMonotone(y, n, n);
      if AtLeast(Prefix(w, n), (n - 1) as real / n as real) {
        ReachedBeforeEnd(w, v);
      }
    }
  }

  // ---------------------------------------------------------------------
  // cdf conditional inverse (envlight.c:68-85)
  // ---------------------------------------------------------------------

  /** Entries `u..` of one row of the conditional inverse. The position `x`
      and the running sum carry over from one output index to the next:
      a search that stopped at `x` leaves `x` in place, so the next search
      adds `w[x] / n` a second time. */
  function ScanRow(w: seq<Float>, u: nat, x: nat, sum: Float): (row: seq<real>)
    requires |w| >= 1 && u <= |w| && x <= |w|
    ensures |row| == |w| - u
    ensures forall i | 0 <= i < |row| :: Midpoint(x, |w|) <= row[i] <= Midpoint(|w|, |w|)
    ensures forall i, j | 0 <= i <= j < |row| :: row[i] <= row[j]
    decreases |w| - u
  {
    if u == |w| then []
    else
      var r := Scan(w, u as real / |w| as real, x, sum);
      MidpointMonotone(x, r.0, |w|);
      MidpointMonotone(r.0, |w|, |w|);
      [Midpoint(r.0, |w|)] + ScanRow(w, u + 1, r.0, r.1)
  }

  /** One row of `cdf_conditional_inverse`: `x` and the sum start at zero
      for the row. Entries never decrease, whatever the weights, and a
      non-negative first weight pins the first entry to the first cell. */
  function ConditionalInverseRow(w: seq<Float>): (row: seq<real>)
    requires |w| >= 1
    ensures |row| == |w|
    ensures forall i, j | 0 <= i <= j < |row| :: row[i] <= row[j]
    ensures forall i | 0 <= i < |row| :: 0.0 < row[i] <= Midpoint(|w|, |w|)
    ensures w[0].Num? && w[0].val >= 0.0 ==> row[0] == Midpoint(0, |w|)
  {
    MidpointBounds(0, |w|);
    if w[0].Num? && w[0].val >= 0.0 then
      FirstSearchStops(w);
      ScanRow(w, 0, 0, Num(0.0))
    else
      ScanRow(w, 0, 0, Num(0.0))
  }

  /** A non-negative first weight meets the zero target at once. */
  lemma FirstSearchStops(w: seq<Float>)
    requires |w| >= 1 && w[0].Num? && w[0].val >= 0.0
    ensures Scan(w, 0 as real / |w| as real, 0, Num(0.0)).0 == 0
  {
    DivMonotone(0.0, w[0].val, |w| as real);
  }

  /** Over non-negative weights the re-adding scan runs ahead of the plain
      prefix sum, so it stops no later than a fresh search would: every
      entry is at most the plain inverse-CDF entry. */
  lemma ConditionalBelowPlain(w: seq<Float>)
    requires |w| >= 1 && NonNegativeWeights(w)
    ensures forall u | 0 <= u < |w| :: ConditionalInverseRow(w)[u] <= InverseTable(w)[u]
  {
    assert Behind(w, 0, 0, Num(0.0));
    ScanRowBelowPlain(w, 0, 0, Num(0.0));
  }

  lemma {:induction false} ScanRowBelowPlain(w: seq<Float>, u: nat, x: nat, sum: Float)
    requires |w| >= 1 && u <= |w| && x <= |w| && NonNegativeWeights(w)
    requires Behind(w, u, x, sum)
    ensures forall i | 0 <= i < |w| - u :: ScanRow(w, u, x, sum)[i] <= InverseTable(w)[u + i]
    decreases |w| - u
  {
    if u < |w| {
      var r := Scan(w, u as real / |w| as real, x, sum);
      StepBehind(w, u, x, sum);
      ScanRowBelowPlain(w, u + 1, r.0, r.1);
      assert ScanRow(w, u, x, sum) == [Midpoint(r.0, |w|)] + ScanRow(w, u + 1, r.0, r.1);
    }
  }

  /** The state of the conditional scan at output index `u`: a number no
      lower than the plain prefix at position `x`, and `x` no later than
      where a fresh search for index `u` stops. */
  predicate Behind(w: seq<Float>, u: nat, x: nat, sum: Float)
    requires |w| >= 1 && x <= |w|
  {
    && sum.Num? && Prefix(w, x).Num? && sum.val >= Prefix(w, x).val
    && (u < |w| ==> x <= FirstReach(w, u as real / |w| as real))
  }

  /** One output index of the conditional scan keeps it behind the plain
      search, and its entry is at most the plain entry. */
  lemma StepBehind(w: seq<Float>, u: nat, x: nat, sum: Float)
    requires |w| >= 1 && u < |w| && x <= |w| && NonNegativeWeights(w)
    requires Behind(w, u, x, sum)
    ensures var r := Scan(w, u as real / |w| as real, x, sum);
              Behind(w, u + 1, r.0, r.1) && Midpoint(r.0, |w|) <= InverseTable(w)[u]
  {
    var t := u as real / |w| as real;
    ScanStep(w, t, x, sum);
    StepBelow(w, t, Scan(w, t, x, sum).0);
    if u + 1 < |w| {
      LaterThreshold(w, u);
    }
  }

  /** A stop no later than the plain search's gives a midpoint no higher
      than the plain table's. */
  lemma StepBelow(w: seq<Float>, t: real, y: nat)
    requires |w| >= 1 && y <= FirstReach(w, t)
    ensures Midpoint(y, |w|) <= Midpoint(FirstReach(w, t), |w|)
  {
    MidpointMonotone(y, FirstReach(w, t), |w|);
  }

  /** The plain search for the next output index stops no earlier. */
  lemma LaterThreshold(w: seq<Float>, u: nat)
    requires |w| >= 1 && u + 1 < |w|
    ensures FirstReach(w, u as real / |w| as real) <= FirstReach(w, (u + 1) as real / |w| as real)
  {
    DivMonotone(u as real, (u + 1) as real, |w| as real);
    FirstReachMonotone(w, u as real / |w| as real, (u + 1) as real / |w| as real);
  }

  /** One search of the conditional scan, started no later than the plain
      search stops and with a sum no lower than the plain prefix, stops no
      later than the plain search and keeps its sum above the plain prefix. */
  lemma ScanStep(w: seq<Float>, t: real, x: nat, sum: Float)
    requires |w| >= 1 && x <= |w| && NonNegativeWeights(w)
    requires sum.Num? && Prefix(w, x).Num? && sum.val >= Prefix(w, x).val
    requires x <= FirstReach(w, t)
    ensures Scan(w, t, x, sum).0 <= FirstReach(w, t)
    ensures Scan(w, t, x, sum).1.Num? && Prefix(w, Scan(w, t, x, sum).0).Num?
    ensures Scan(w, t, x, sum).1.val >= Prefix(w, Scan(w, t, x, sum).0).val
  {
    var r := Scan(w, t, x, sum);
    var p := FirstReach(w, t);
    if p < |w| {
      ScanStopsBy(w, t, x, sum, p);
    }
    var k := if r.0 < |w| then r.0 + 1 else |w|;
    AccumDominates(w, sum, x, k);
    AccumMonotone(w, Num(0.0), Num(0.0), 0, r.0);
    if r.0 < |w| {
      AccumMonotone(w, Prefix(w, r.0), Prefix(w, r.0), r.0, r.0 + 1);
      AccumSplit(w, Num(0.0), 0, r.0, r.0 + 1);
    }
  }

  /** A scan that starts no lower than the plain prefix stops by the plain
      search's stopping point `p`. */
  lemma ScanStopsBy(w: seq<Float>, t: real, x: nat, sum: Float, p: nat)
    requires |w| >= 1 && x <= p < |w| && NonNegativeWeights(w)
    requires sum.Num? && Prefix(w, x).Num? && sum.val >= Prefix(w, x).val
    requires AtLeast(Prefix(w, p + 1), t)
    ensures Scan(w, t, x, sum).0 <= p
  {
    AccumDominates(w, sum, x, p + 1);
  }

  /** A row whose weights are all NaN (a black row) never stops early:
      every entry is the past-the-end midpoint. */
  lemma {:induction false} ScanRowNaN(w: seq<Float>, u: nat, x: nat, sum: Float)
    requires |w| >= 1 && u <= |w| && x <= |w|
    requires forall k | 0 <= k < |w| :: w[k] == NaN
    ensures forall i | 0 <= i < |w| - u :: ScanRow(w, u, x, sum)[i] == Midpoint(|w|, |w|)
    decreases |w| - u
  {
    if u < |w| {
      var r := Scan(w, u as real / |w| as real, x, sum);
      if r.0 < |w| {
        AccumNaN(w, sum, x, r.0 + 1);
        assert false;
      }
      ScanRowNaN(w, u + 1, r.0, r.1);
    }
  }

  /** A table of NaN weights (a black image) sends every output index past
      the end. */
  lemma InverseTableNaN(w: seq<Float>)
    requires |w| >= 1
    requires forall k | 0 <= k < |w| :: w[k] == NaN
    ensures forall v | 0 <= v < |w| :: InverseTable(w)[v] == Midpoint(|w|, |w|)
  {
    forall v | 0 <= v < |w| ensures InverseTable(w)[v] == Midpoint(|w|, |w|) {
      var y := FirstReach(w, v as real / |w| as real);
      assert y == |w|;
    }
  }

  /** The two scans differ: on a uniform row of width 3 the conditional scan
      keeps re-adding the first weight and never leaves the first column,
      while a fresh search per output index, as the marginal table does it,
      moves to the second column for the last output index. */
  lemma UniformRowOfThree()
    ensures ConditionalInverseRow(UniformThree()) == [1.0 / 6.0, 1.0 / 6.0, 1.0 / 6.0]
    ensures InverseTable(UniformThree()) == [1.0 / 6.0, 1.0 / 6.0, 1.0 / 2.0]
  {
    ConditionalOfThree();
    PlainOfThree();
  }

  function UniformThree(): (w: seq<Float>)
    ensures |w| == 3 && forall k | 0 <= k < 3 :: w[k] == Num(1.0)
  {
    [Num(1.0), Num(1.0), Num(1.0)]
  }

  lemma ConditionalOfThree()
    ensures ConditionalInverseRow(UniformThree()) == [1.0 / 6.0, 1.0 / 6.0, 1.0 / 6.0]
  {
    var w := UniformThree();
    var s1 := Num(1.0 / 3.0);
    var s2 := Num(2.0 / 3.0);
    var s3 := Num(1.0);
    ScanStopsAt(w, 0 as real / 3 as real, 0, Num(0.0));
    ScanStopsAt(w, 1 as real / 3 as real, 0, s1);
    ScanStopsAt(w, 2 as real / 3 as real, 0, s2);
    assert ScanRow(w, 2, 0, s2) == [Midpoint(0, 3)];
    assert ScanRow(w, 1, 0, s1) == [Midpoint(0, 3), Midpoint(0, 3)];
    assert ScanRow(w, 0, 0, Num(0.0)) == [Midpoint(0, 3), Midpoint(0, 3), Midpoint(0, 3)];
    SixthsOfThree();
  }

  lemma PlainOfThree()
    ensures InverseTable(UniformThree()) == [1.0 / 6.0, 1.0 / 6.0, 1.0 / 2.0]
  {
    var w := UniformThree();
    ReachOfThree();
    var table := InverseTable(w);
    assert table[0] == Midpoint(0, 3);
    assert table[1] == Midpoint(0, 3);
    assert table[2] == Midpoint(1, 3);
    assert table == [Midpoint(0, 3), Midpoint(0, 3), Midpoint(1, 3)];
    SixthsOfThree();
  }

  lemma SixthsOfThree()
    ensures Midpoint(0, 3) == 1.0 / 6.0 && Midpoint(1, 3) == 1.0 / 2.0
  {}

  lemma ReachOfThree()
    ensures FirstReach(UniformThree(), 0 as real / 3 as real) == 0
    ensures FirstReach(UniformThree(), 1 as real / 3 as real) == 0
    ensures FirstReach(UniformThree(), 2 as real / 3 as real) == 1
  {
    var w := UniformThree();
    assert Prefix(w, 1) == Num(1.0 / 3.0) by {
      assert Over(w[0], 3) == Num(1.0 / 3.0);
    }
    assert Prefix(w, 2) == Num(2.0 / 3.0) by {
      assert Over(w[1], 3) == Num(1.0 / 3.0);
    }
  }

  /** Unit weights on a row of three: each adds a third. */
  lemma ScanStopsAt(w: seq<Float>, t: real, x: nat, sum: Float)
    requires w == UniformThree() && x < 3 && sum.Num? && sum.val + 1.0 / 3.0 >= t
    ensures Scan(w, t, x, sum) == (x, Num(sum.val + 1.0 / 3.0))
  {
    assert Over(w[x], 3) == Num(1.0 / 3.0);
  }

  lemma ScanMovesOn(w: seq<Float>, t: real, x: nat, sum: Float)
    requires w == UniformThree() && x < 3 && sum.Num? && sum.val + 1.0 / 3.0 < t
    ensures Scan(w, t, x, sum) == Scan(w, t, x + 1, Num(sum.val + 1.0 / 3.0))
  {
    assert Over(w[x], 3) == Num(1.0 / 3.0);
  }

  /** A uniform white 2 by 2 image, whatever the common weight `s` of its
      two rows: both tables send every sample to the first cell, giving
      `[0.25, 0.25]` rather than the two cell centres `[0.25, 0.75]`. The
      first cell already holds half the mass, and a search stops as soon as
      its running sum reaches `v / n`, so the target `1 / 2` of the second
      output index is met there. */
  lemma WhiteSquareOfTwo(s: real)
    requires s > 0.0
    ensures ValidInput(WhiteSquare(), [s, s])
    ensures InitDistribution(WhiteSquare(), [s, s]).marginalInverse == [0.25, 0.25]
    ensures InitDistribution(WhiteSquare(), [s, s]).cdfConditionalInverse == [[0.25, 0.25], [0.25, 0.25]]
  {
    WhiteInput(s);
    WhiteLuminances(s);
    EvenMarginal(s);
    EvenConditionals(s);
  }

  lemma WhiteInput(s: real)
    requires s > 0.0
    ensures ValidInput(WhiteSquare(), [s, s])
  {}

  lemma EvenConditionals(s: real)
    requires s > 0.0
    ensures ConditionalTables([[s, s], [s, s]], 2) == [[0.25, 0.25], [0.25, 0.25]]
  {
    EvenRow(s);
  }

  lemma WhiteLuminances(s: real)
    requires s > 0.0
    ensures Luminances(WhiteSquare(), [s, s]) == [[s, s], [s, s]]
  {
    var lum := Luminances(WhiteSquare(), [s, s]);
    assert lum[0] == [s, s] && lum[1] == [s, s];
  }

  function WhiteSquare(): (light: seq<seq<Texel>>)
    ensures |light| == 2 && Rows(light, 2) && NonNegativeLight(light)
    ensures forall v, u | 0 <= v < 2 && 0 <= u < 2 :: Luminance(light[v][u]) == 1.0
  {
    var white := Texel(1.0, 1.0, 1.0, 1.0);
    [[white, white], [white, white]]
  }

  function UniformTwo(): (w: seq<Float>)
    ensures |w| == 2 && forall k | 0 <= k < 2 :: w[k] == Num(1.0)
  {
    [Num(1.0), Num(1.0)]
  }

  /** Two equal positive luminances: unit conditional weights. */
  lemma EvenRow(s: real)
    requires s > 0.0
    ensures ConditionalTable([s, s]) == [0.25, 0.25]
  {
    var row := [s, s];
    assert Sum(row) == s + s by {
      assert SumTo(row, 1) == s;
    }
    var avg := Mean(row, 2);
    assert avg == s;
    assert ConditionalRow(row, avg) == UniformTwo();
    UniformTwoScans();
  }

  /** Two rows of equal total: unit marginal weights. */
  lemma EvenMarginal(s: real)
    requires s > 0.0
    ensures MarginalTable([[s, s], [s, s]], 2) == [0.25, 0.25]
  {
    var lum := [[s, s], [s, s]];
    assert Sum(lum[0]) == s + s by {
      assert SumTo(lum[0], 1) == s;
    }
    assert Sum(lum[1]) == s + s by {
      assert SumTo(lum[1], 1) == s;
    }
    var ra := RowAverages(lum, 2);
    assert ra == [s, s];
    assert Sum(ra) == s + s by {
      assert SumTo(ra, 1) == s;
    }
    var ia := ImageAverage(lum, 2);
    assert ia == s;
    assert Marginal(ra, ia) == UniformTwo();
    UniformTwoScans();
  }

  lemma UniformTwoScans()
    ensures ConditionalInverseRow(UniformTwo()) == [0.25, 0.25]
    ensures InverseTable(UniformTwo()) == [0.25, 0.25]
  {
    var w := UniformTwo();
    assert Over(w[0], 2) == Num(0.5);
    assert Scan(w, 0 as real / 2 as real, 0, Num(0.0)) == (0, Num(0.5));
    assert Scan(w, 1 as real / 2 as real, 0, Num(0.5)) == (0, Num(1.0));
    assert Midpoint(0, 2) == 0.25;
    assert ScanRow(w, 1, 0, Num(0.5)) == [0.25];
    assert ScanRow(w, 0, 0, Num(0.0)) == [0.25, 0.25];
    assert Prefix(w, 1) == Num(0.5);
    assert FirstReach(w, 0 as real / 2 as real) == 0;
    assert FirstReach(w, 1 as real / 2 as real) == 0;
    var table := InverseTable(w);
    assert table[0] == 0.25 && table[1] == 0.25;
  }

  // ---------------------------------------------------------------------
  // envlight_init_distribution (envlight.c:17-88)
  // ---------------------------------------------------------------------

  /** Every row holds `width` texels. */
  predicate Rows<T>(grid: seq<seq<T>>, width: nat) {
    forall v | 0 <= v < |grid| :: |grid[v]| == width
  }

  /** Every colour channel of every texel is non-negative, as radiance is. */
  predicate NonNegativeLight(light: seq<seq<Texel>>) {
    forall v, u | 0 <= v < |light| && 0 <= u < |light[v]| ::
      light[v][u].r >= 0.0 && light[v][u].g >= 0.0 && light[v][u].b >= 0.0
  }

  predicate NonNegativeGrid(lum: seq<seq<real>>) {
    forall v | 0 <= v < |lum| :: AllNonNegative(lum[v])
  }

  /** The luminance of every texel, times its row's `sin(theta)`. */
  function Luminances(light: seq<seq<Texel>>, sinTheta: seq<real>): (lum: seq<seq<real>>)
    requires |sinTheta| == |light|
    ensures |lum| == |light|
    ensures forall v | 0 <= v < |light| :: |lum[v]| == |light[v]|
    ensures forall v, u | 0 <= v < |light| && 0 <= u < |light[v]| ::
              lum[v][u] == Luminance(light[v][u]) * sinTheta[v]
    ensures NonNegativeLight(light) && (forall v | 0 <= v < |sinTheta| :: sinTheta[v] > 0.0) ==>
              NonNegativeGrid(lum)
  {
    seq(|light|, v requires 0 <= v < |light| =>
      seq(|light[v]|, u requires 0 <= u < |light[v]| => Luminance(light[v][u]) * sinTheta[v]))
  }

  /** `sum / n`, the mean of `s` when `n` is its length. */
  function Mean(s: seq<real>, n: nat): (m: real)
    requires n >= 1
    ensures m * n as real == Sum(s)
    ensures AllNonNegative(s) ==> m >= 0.0 && (m == 0.0 <==> AllZero(s))
  {
    MulDivCancel(Sum(s), n as real);
    assert AllNonNegative(s) ==> Sum(s) >= 0.0 && (Sum(s) == 0.0 <==> AllZero(s)) by {
      if AllNonNegative(s) {
        SumNonNegative(s);
        DivMonotone(0.0, Sum(s), n as real);
      }
    }
    Sum(s) / n as real
  }

  /** `row_average`: the mean of each row. */
  function RowAverages(lum: seq<seq<real>>, width: nat): (avg: seq<real>)
    requires width >= 1 && Rows(lum, width)
    ensures |avg| == |lum|
    ensures ScaledBy(avg, width as real, RowSums(lum))
    ensures NonNegativeGrid(lum) ==> AllNonNegative(avg)
    ensures NonNegativeGrid(lum) ==> forall v | 0 <= v < |lum| :: avg[v] == 0.0 <==> AllZero(lum[v])
  {
    seq(|lum|, v requires 0 <= v < |lum| => Mean(lum[v], width))
  }

  /** The total of each row. */
  function RowSums(lum: seq<seq<real>>): (sums: seq<real>)
    ensures |sums| == |lum|
    ensures forall v | 0 <= v < |lum| :: sums[v] == Sum(lum[v])
  {
    seq(|lum|, v requires 0 <= v < |lum| => Sum(lum[v]))
  }

  /** `image_average`: the luminances are added onto the zero that both
      constructors store in the field (the empty sum), then divided by
      `height * width`. It is the mean of the row means. */
  function ImageAverage(lum: seq<seq<real>>, width: nat): (avg: real)
    requires |lum| >= 1 && width >= 1 && Rows(lum, width)
    ensures avg * |lum| as real == Sum(RowAverages(lum, width))
    ensures NonNegativeGrid(lum) ==> avg >= 0.0
    ensures NonNegativeGrid(lum) ==> (avg == 0.0 <==> forall v | 0 <= v < |lum| :: AllZero(lum[v]))
  {
    MeanOfMeans(RowSums(lum), RowAverages(lum, width), width);
    TotalSign(lum);
    Sum(RowSums(lum)) / (|lum| as real * width as real)
  }

  /** Means of parts relate to the mean of the whole: when `avgs[v] * w`
      is `sums[v]` for each of the `h` parts, the grand total over `h * w`
      times `h` is the total of the means. The quotient has the total's
      sign. */
  lemma MeanOfMeans(sums: seq<real>, avgs: seq<real>, w: nat)
    requires |sums| >= 1 && w >= 1 && ScaledBy(avgs, w as real, sums)
    ensures Sum(sums) / (|sums| as real * w as real) * |sums| as real == Sum(avgs)
    ensures SameSign(Sum(sums) / (|sums| as real * w as real), Sum(sums))
  {
    SumScaled(avgs, sums, w as real);
    ShareOfProduct(Sum(sums), |sums| as real, w as real, Sum(avgs));
  }

  /** The total of a non-negative grid is non-negative, and zero exactly
      when every row is all zero. */
  lemma TotalSign(lum: seq<seq<real>>)
    ensures NonNegativeGrid(lum) ==> Sum(RowSums(lum)) >= 0.0
    ensures NonNegativeGrid(lum) ==> (Sum(RowSums(lum)) == 0.0 <==> forall v | 0 <= v < |lum| :: AllZero(lum[v]))
  {
    if NonNegativeGrid(lum) {
      forall v | 0 <= v < |lum| ensures RowSums(lum)[v] >= 0.0 && (RowSums(lum)[v] == 0.0 <==> AllZero(lum[v])) {
        SumNonNegative(lum[v]);
      }
      SumNonNegative(RowSums(lum));
    }
  }

  /** `q` is non-negative, and zero, exactly when `t` is. */
  predicate SameSign(q: real, t: real) {
    (q >= 0.0 <==> t >= 0.0) && (q == 0.0 <==> t == 0.0)
  }

  /** Dividing a total by `h * w` and multiplying back by `h` leaves the
      total over `w`, here `x`; the sign and zeroness of the total carry
      over to the quotient. */
  lemma ShareOfProduct(total: real, h: real, w: real, x: real)
    requires h > 0.0 && w > 0.0 && x * w == total
    ensures total / (h * w) * h == x
    ensures SameSign(total / (h * w), total)
  {
    assert h * w > 0.0;
    assert total / (h * w) * h == total / w;
  }

  /** `marginal`: each row mean over the image mean. */
  function Marginal(rowAverage: seq<real>, imageAverage: real): (m: seq<Float>)
    requires imageAverage == 0.0 ==> AllZero(rowAverage)
    ensures |m| == |rowAverage|
    ensures forall v | 0 <= v < |m| :: m[v].Num? <==> imageAverage != 0.0
    ensures forall v | 0 <= v < |m| :: m[v].Num? ==> m[v].val * imageAverage == rowAverage[v]
    ensures imageAverage != 0.0 ==> ScaledBy(Values(m), imageAverage, rowAverage)
  {
    seq(|rowAverage|, v requires 0 <= v < |rowAverage| => Quotient(rowAverage[v], imageAverage))
  }

  /** One row of `conditional`: each luminance over the row's mean. */
  function ConditionalRow(row: seq<real>, rowAverage: real): (c: seq<Float>)
    requires rowAverage == 0.0 ==> AllZero(row)
    ensures |c| == |row|
    ensures forall u | 0 <= u < |row| :: c[u].Num? <==> rowAverage != 0.0
    ensures forall u | 0 <= u < |row| :: c[u].Num? ==> c[u].val * rowAverage == row[u]
    ensures rowAverage != 0.0 ==> ScaledBy(Values(c), rowAverage, row)
  {
    seq(|row|, u requires 0 <= u < |row| => Quotient(row[u], rowAverage))
  }

  /** What `envlight_init_distribution` needs: a non-empty grid of equal
      rows of non-negative radiance, and one positive `sin(theta)` per row. */
  predicate ValidInput(light: seq<seq<Texel>>, sinTheta: seq<real>) {
    && |light| >= 1 && |light[0]| >= 1 && Rows(light, |light[0]|)
    && NonNegativeLight(light)
    && |sinTheta| == |light| && forall v | 0 <= v < |sinTheta| :: sinTheta[v] > 0.0
  }

  /** `envlight_init_distribution`: the luminance grid, the image mean,
      and the two inverse-CDF tables built from them. */
  function InitDistribution(light: seq<seq<Texel>>, sinTheta: seq<real>): (e: EnvironmentLight)
    requires ValidInput(light, sinTheta)
    ensures e.lightData == light && e.height == |light| && e.width == |light[0]|
    ensures e.luminance == Luminances(light, sinTheta)
    ensures |e.luminance| == e.height && Rows(e.luminance, e.width) && NonNegativeGrid(e.luminance)
    ensures e.imageAverage == ImageAverage(e.luminance, e.width)
    ensures e.marginalInverse == MarginalTable(e.luminance, e.width)
    ensures e.cdfConditionalInverse == ConditionalTables(e.luminance, e.width)
  {
    var h := |light|;
    var w := |light[0]|;
    var lum := Luminances(light, sinTheta);
    EnvironmentLight(light, w, h, lum, ImageAverage(lum, w), ConditionalTables(lum, w), MarginalTable(lum, w))
  }

  /** The conditional inverse of every row of a luminance grid. Each row is
      non-decreasing; a lit row starts at the first column's midpoint and
      keeps every sample strictly inside `(0, 1)`; a black row sends every
      sample past the end. */
  function ConditionalTables(lum: seq<seq<real>>, width: nat): (ci: seq<seq<real>>)
    requires width >= 1 && Rows(lum, width) && NonNegativeGrid(lum)
    ensures |ci| == |lum| && Rows(ci, width)
    ensures forall v, u1, u2 | 0 <= v < |lum| && 0 <= u1 <= u2 < width :: ci[v][u1] <= ci[v][u2]
    ensures forall v | 0 <= v < |lum| && Sum(lum[v]) > 0.0 :: ci[v][0] == Midpoint(0, width)
    ensures forall v, u | 0 <= v < |lum| && 0 <= u < width && Sum(lum[v]) > 0.0 :: 0.0 < ci[v][u] < 1.0
    ensures forall v, u | 0 <= v < |lum| && 0 <= u < width && Sum(lum[v]) == 0.0 ::
              ci[v][u] == Midpoint(width, width)
  {
    seq(|lum|, v requires 0 <= v < |lum| => ConditionalTable(lum[v]))
  }

  /** `marginal_inverse` of a luminance grid, with what normalisation of the
      marginal weights gives it. */
  function MarginalTable(lum: seq<seq<real>>, width: nat): (mi: seq<real>)
    requires |lum| >= 1 && width >= 1 && Rows(lum, width) && NonNegativeGrid(lum)
    ensures |mi| == |lum|
    ensures forall v1, v2 | 0 <= v1 <= v2 < |lum| :: mi[v1] <= mi[v2]
    ensures ImageAverage(lum, width) > 0.0 ==> mi[0] == Midpoint(0, |lum|)
    ensures ImageAverage(lum, width) > 0.0 ==> forall v | 0 <= v < |lum| :: 0.0 < mi[v] < 1.0
    ensures ImageAverage(lum, width) == 0.0 ==> forall v | 0 <= v < |lum| :: mi[v] == Midpoint(|lum|, |lum|)
  {
    var rowAverage := RowAverages(lum, width);
    var imageAverage := ImageAverage(lum, width);
    var m := Marginal(rowAverage, imageAverage);
    var h := |lum|;
    if imageAverage > 0.0 then
      MarginalSumsToOne(rowAverage, imageAverage);
      NonNegativeFactor(m[0].val, imageAverage, rowAverage[0]);
      NormalisedInside(m);
      InverseTable(m)
    else
      InverseTableNaN(m);
      InverseTable(m)
  }

  /** One row of `cdf_conditional_inverse`, with what normalisation of the
      row's conditional weights gives it. */
  function ConditionalTable(row: seq<real>): (ci: seq<real>)
    requires |row| >= 1 && AllNonNegative(row)
    ensures |ci| == |row|
    ensures forall u1, u2 | 0 <= u1 <= u2 < |row| :: ci[u1] <= ci[u2]
    ensures Sum(row) > 0.0 ==> ci[0] == Midpoint(0, |row|)
    ensures Sum(row) > 0.0 ==> forall u | 0 <= u < |row| :: 0.0 < ci[u] < 1.0
    ensures Sum(row) == 0.0 ==> forall u | 0 <= u < |row| :: ci[u] == Midpoint(|row|, |row|)
  {
    var rowAverage := Mean(row, |row|);
    var c := ConditionalRow(row, rowAverage);
    SumNonNegative(row);
    if Sum(row) > 0.0 then
      ConditionalSumsToOne(row, rowAverage);
      NormalisedRowInside(c);
      ConditionalInverseRow(c)
    else
      ScanRowNaN(c, 0, 0, Num(0.0));
      ConditionalInverseRow(c)
  }

  /** Weights whose running sum ends at exactly 1 give a table inside
      `(0, 1)`. */
  lemma NormalisedInside(w: seq<Float>)
    requires |w| >= 1 && Prefix(w, |w|) == Num(1.0)
    ensures forall v | 0 <= v < |w| :: 0.0 < InverseTable(w)[v] < 1.0
  {
    AtMostOne(|w|);
    assert AtLeast(Prefix(w, |w|), (|w| - 1) as real / |w| as real);
  }

  /** The same for one conditional row, which lies below the fresh-search
      table. */
  lemma NormalisedRowInside(w: seq<Float>)
    requires |w| >= 1 && NonNegativeWeights(w) && Prefix(w, |w|) == Num(1.0)
    ensures forall u | 0 <= u < |w| :: 0.0 < ConditionalInverseRow(w)[u] < 1.0
  {
    NormalisedInside(w);
    ConditionalBelowPlain(w);
  }

  lemma AtMostOne(n: nat)
    requires n >= 1
    ensures (n - 1) as real / n as real <= 1.0
  {
    DivMonotone((n - 1) as real, n as real, n as real);
  }

  /** Normalisation of the marginal weights: `sum_v marginal[v] / height`
      is exactly one when the image mean is positive. */
  lemma MarginalSumsToOne(rowAverage: seq<real>, imageAverage: real)
    requires |rowAverage| >= 1 && imageAverage > 0.0
    requires imageAverage * |rowAverage| as real == Sum(rowAverage)
    ensures Prefix(Marginal(rowAverage, imageAverage), |rowAverage|) == Num(1.0)
  {
    var m := Marginal(rowAverage, imageAverage);
    var h := |rowAverage|;
    var vals := Values(m);
    PrefixOfNumbers(m, vals, h);
    NormalisedShares(vals, rowAverage, imageAverage);
    DivSelf(Sum(vals), h as real);
  }

  /** The numbers held by a table of numbers. */
  function Values(w: seq<Float>): (vals: seq<real>)
    requires forall i | 0 <= i < |w| :: w[i].Num?
    ensures |vals| == |w|
    ensures forall i | 0 <= i < |w| :: w[i] == Num(vals[i])
  {
    seq(|w|, i requires 0 <= i < |w| => w[i].val)
  }

  /** Every share times `mean` gives the matching part. */
  predicate ScaledBy(shares: seq<real>, mean: real, parts: seq<real>) {
    |shares| == |parts| && forall i | 0 <= i < |shares| :: shares[i] * mean == parts[i]
  }

  /** Shares of a total taken relative to its mean sum to the count:
      `sum_i parts[i] / mean == n` when `mean * n == sum_i parts[i]`. */
  lemma NormalisedShares(shares: seq<real>, parts: seq<real>, mean: real)
    requires |parts| >= 1 && mean > 0.0 && ScaledBy(shares, mean, parts)
    requires mean * |parts| as real == Sum(parts)
    ensures Sum(shares) == |shares| as real
  {
    SumScaled(shares, parts, mean);
    CancelFactor(Sum(shares), Sum(parts), |parts| as real, mean);
  }

  /** `x * c == s` and `c * n == s` with `c > 0` give `x == n`. */
  lemma CancelFactor(x: real, s: real, n: real, c: real)
    requires c > 0.0 && x * c == s && c * n == s
    ensures x == n
  {
    ZeroFactor(x - n, c);
  }

  lemma ZeroFactor(x: real, c: real)
    requires c > 0.0 && x * c == 0.0
    ensures x == 0.0
  {}

  lemma DivSelf(x: real, n: real)
    requires n > 0.0 && x == n
    ensures x / n == 1.0
  {}

  /** Normalisation of one row: `sum_u conditional[v,u] / width` is exactly
      one when the row's mean is positive, and every weight is a
      non-negative number. */
  lemma ConditionalSumsToOne(row: seq<real>, rowAverage: real)
    requires |row| >= 1 && AllNonNegative(row) && rowAverage > 0.0
    requires rowAverage * |row| as real == Sum(row)
    ensures NonNegativeWeights(ConditionalRow(row, rowAverage))
    ensures Prefix(ConditionalRow(row, rowAverage), |row|) == Num(1.0)
  {
    var c := ConditionalRow(row, rowAverage);
    var n := |row|;
    ConditionalNonNegative(row, rowAverage);
    var vals := Values(c);
    PrefixOfNumbers(c, vals, n);
    NormalisedShares(vals, row, rowAverage);
    DivSelf(Sum(vals), n as real);
  }

  lemma ConditionalNonNegative(row: seq<real>, rowAverage: real)
    requires AllNonNegative(row) && rowAverage > 0.0
    ensures NonNegativeWeights(ConditionalRow(row, rowAverage))
  {
    var c := ConditionalRow(row, rowAverage);
    forall u | 0 <= u < |row| ensures c[u].val >= 0.0 {
      NonNegativeFactor(c[u].val, rowAverage, row[u]);
    }
  }

  // ---------------------------------------------------------------------
  // envlight_new_blank_sky (envlight.c:90-107), distribution part
  // ---------------------------------------------------------------------

  /** `RESOLUTION`. */
  const BlankSkyResolution: nat := 32

  /** One texel per row, fading the green channel from 1 towards 0. */
  function BlankSkyTexels(): (light: seq<seq<Texel>>)
    ensures |light| == BlankSkyResolution && Rows(light, 1) && NonNegativeLight(light)
    ensures forall v | 0 <= v < |light| :: Luminance(light[v][0]) > 0.0
  {
    seq(BlankSkyResolution, i requires 0 <= i < BlankSkyResolution =>
      [Texel(1.0, 1.0 - i as real / BlankSkyResolution as real, 1.0, 1.0)])
  }

  /** The blank sky: a 1 by 32 image whose every luminance is positive, so
      its only column is always the one chosen, at midpoint 0.5, and every
      row sample lands strictly inside `(0, 1)`. */
  function BlankSky(sinTheta: seq<real>): (e: EnvironmentLight)
    requires |sinTheta| == BlankSkyResolution && forall v | 0 <= v < |sinTheta| :: sinTheta[v] > 0.0
    ensures e.width == 1 && e.height == BlankSkyResolution && e.lightData == BlankSkyTexels()
    ensures e.cdfConditionalInverse == seq(BlankSkyResolution, v => [0.5])
    ensures |e.marginalInverse| == e.height && forall v | 0 <= v < e.height :: 0.0 < e.marginalInverse[v] < 1.0
  {
    var light := BlankSkyTexels();
    var lum := Luminances(light, sinTheta);
    BlankSkyLit(sinTheta);
    LitColumns(lum);
    LitImage(lum, 1);
    InitDistribution(light, sinTheta)
  }

  /** A grid of one positive texel per row: every row's only column is
      chosen at midpoint 0.5. */
  lemma LitColumns(lum: seq<seq<real>>)
    requires forall v | 0 <= v < |lum| :: |lum[v]| == 1 && lum[v][0] > 0.0 && Sum(lum[v]) > 0.0
    ensures Rows(lum, 1) && NonNegativeGrid(lum)
    ensures ConditionalTables(lum, 1) == seq(|lum|, v => [0.5])
  {
    var ci := ConditionalTables(lum, 1);
    forall v | 0 <= v < |lum| ensures ci[v] == [0.5] {
      assert ci[v][0] == Midpoint(0, 1);
    }
  }

  /** A grid with a positive first texel has a positive image mean. */
  lemma LitImage(lum: seq<seq<real>>, width: nat)
    requires |lum| >= 1 && width >= 1 && Rows(lum, width) && NonNegativeGrid(lum)
    requires lum[0][0] > 0.0
    ensures ImageAverage(lum, width) > 0.0
  {
    assert !AllZero(lum[0]);
  }

  /** Every row of the blank sky carries light. */
  lemma BlankSkyLit(sinTheta: seq<real>)
    requires |sinTheta| == BlankSkyResolution && forall v | 0 <= v < |sinTheta| :: sinTheta[v] > 0.0
    ensures var lum := Luminances(BlankSkyTexels(), sinTheta);
              forall v | 0 <= v < |lum| :: |lum[v]| == 1 && lum[v][0] > 0.0 && Sum(lum[v]) > 0.0
  {
    var light := BlankSkyTexels();
    var lum := Luminances(light, sinTheta);
    forall v | 0 <= v < |lum| ensures |lum[v]| == 1 && lum[v][0] > 0.0 && Sum(lum[v]) > 0.0 {
      PositiveProduct(Luminance(light[v][0]), sinTheta[v]);
      assert Sum(lum[v]) == SumTo(lum[v], 0) + lum[v][0];
    }
  }
}
