/**
  Integer geometry used by the r*-tree: points with a fixed number of
  coordinates, axis-aligned bounding rectangles and the distance measures
  the tree prunes with.

  The tree stores integer rectangles (a point is the degenerate rectangle
  whose corners coincide).  Such an object is its own minimal bounding
  rectangle, its squared distance to a point is `MinDist2`, and it contains
  a point when `ContainsPoint` holds.
*/
module Geometry {

  /** Number of coordinates of every point. */
  const Dim: nat := 2

  type Point = p: seq<int> | |p| == Dim witness seq(Dim, _ => 0)

  /** A rectangle given by its lower and upper corner. */
  datatype BoundingRect = BoundingRect(lower: Point, upper: Point)

  predicate Ordered(r: BoundingRect) {
    forall k :: 0 <= k < Dim ==> r.lower[k] <= r.upper[k]
  }

  /** A well-formed rectangle: the lower corner is below the upper one on every axis. */
  type Rect = r: BoundingRect | Ordered(r) witness BoundingRect(seq(Dim, _ => 0), seq(Dim, _ => 0))

  /** The rectangle made of the single point `p`. */
  function PointRect(p: Point): (r: Rect)
    ensures ContainsPoint(r, p)
    ensures forall q: Point :: ContainsPoint(r, q) ==> q == p
  {
    var r := BoundingRect(p, p);
    assert forall q: Point :: ContainsPoint(r, q) ==> q == p by {
      forall q: Point | ContainsPoint(r, q) ensures q == p {
        assert forall k :: 0 <= k < Dim ==> q[k] == p[k];
      }
    }
    r
  }

  function Min(a: int, b: int): int { if a <= b then a else b }
  function Max(a: int, b: int): int { if a >= b then a else b }
  function Abs(a: int): nat { if a < 0 then -a else a }
  function Sq(a: int): nat { Abs(a) * Abs(a) }

  // ---------------------------------------------------------------------
  // Sums and products over the axes
  // ---------------------------------------------------------------------

  /** f(0) + ... + f(n - 1) */
  function Sum(f: int -> int, n: nat): int {
    if n == 0 then 0 else Sum(f, n - 1) + f(n - 1)
  }

  /** f(0) * ... * f(n - 1) */
  function Product(f: int -> int, n: nat): int {
    if n == 0 then 1 else Product(f, n - 1) * f(n - 1)
  }

  lemma {:induction false} SumMonotone(f: int -> int, g: int -> int, n: nat)
    requires forall k :: 0 <= k < n ==> f(k) <= g(k)
    ensures Sum(f, n) <= Sum(g, n)
  {
    if n > 0 { SumMonotone(f, g, n - 1); }
  }

  lemma {:induction false} SumNonNegative(f: int -> int, n: nat)
    requires forall k :: 0 <= k < n ==> 0 <= f(k)
    ensures 0 <= Sum(f, n)
    ensures Sum(f, n) == 0 ==> forall k :: 0 <= k < n ==> f(k) == 0
  {
    if n > 0 { SumNonNegative(f, n - 1); }
  }

  lemma {:induction false} SumOfZeros(f: int -> int, n: nat)
    requires forall k :: 0 <= k < n ==> f(k) == 0
    ensures Sum(f, n) == 0
  {
    if n > 0 { SumOfZeros(f, n - 1); }
  }

  /** Changing one term of a sum changes the sum by the difference of the terms. */
  lemma {:induction false} SumReplace(f: int -> int, g: int -> int, n: nat, j: nat)
    requires j < n
    requires forall k :: 0 <= k < n && k != j ==> f(k) == g(k)
    ensures Sum(g, n) == Sum(f, n) - f(j) + g(j)
  {
    if n - 1 == j {
      SumMonotone(f, g, j);
      SumMonotone(g, f, j);
    } else {
      SumReplace(f, g, n - 1, j);
    }
  }

  lemma MulMonotone(a: int, b: int, c: int, d: int)
    requires 0 <= a <= b && 0 <= c <= d
    ensures 0 <= a * c <= b * d
  {
    assert a * c <= b * c;
    assert b * c <= b * d;
  }

  lemma {:induction false} ProductMonotone(f: int -> int, g: int -> int, n: nat)
    requires forall k :: 0 <= k < n ==> 0 <= f(k) <= g(k)
    ensures 0 <= Product(f, n) <= Product(g, n)
  {
    if n > 0 {
      ProductMonotone(f, g, n - 1);
      MulMonotone(Product(f, n - 1), Product(g, n - 1), f(n - 1), g(n - 1));
    }
  }

  lemma SqMonotone(a: int, b: int)
    requires Abs(a) <= Abs(b)
    ensures Sq(a) <= Sq(b)
  {
    MulMonotone(Abs(a), Abs(b), Abs(a), Abs(b));
  }

  // ---------------------------------------------------------------------
  // Containment, intersection and the union of two rectangles
  // ---------------------------------------------------------------------

  predicate ContainsPoint(r: Rect, p: Point) {
    forall k :: 0 <= k < Dim ==> r.lower[k] <= p[k] <= r.upper[k]
  }

  predicate ContainsRect(r: Rect, s: Rect) {
    forall k :: 0 <= k < Dim ==> r.lower[k] <= s.lower[k] && s.upper[k] <= r.upper[k]
  }

  predicate Intersects(r: Rect, s: Rect) {
    forall k :: 0 <= k < Dim ==> r.lower[k] <= s.upper[k] && s.lower[k] <= r.upper[k]
  }

  /** Two rectangles intersect exactly when some point lies in both. */
  lemma IntersectsIffCommonPoint(r: Rect, s: Rect)
    ensures Intersects(r, s) <==> exists p: Point :: ContainsPoint(r, p) && ContainsPoint(s, p)
  {
    if Intersects(r, s) {
      var p: Point := seq(Dim, k requires 0 <= k < Dim => Max(r.lower[k], s.lower[k]));
      assert ContainsPoint(r, p) && ContainsPoint(s, p);
    }
  }

  lemma ContainsRectTransitive(a: Rect, b: Rect, c: Rect)
    requires ContainsRect(a, b) && ContainsRect(b, c)
    ensures ContainsRect(a, c)
  {
  }

  /** `add_rect`: the componentwise minimum of the lower and maximum of the upper corners. */
  function AddRect(a: Rect, b: Rect): (r: Rect)
    ensures ContainsRect(r, a) && ContainsRect(r, b)
    ensures forall k :: 0 <= k < Dim ==>
      (r.lower[k] == a.lower[k] || r.lower[k] == b.lower[k]) &&
      (r.upper[k] == a.upper[k] || r.upper[k] == b.upper[k])
  {
    BoundingRect(seq(Dim, k requires 0 <= k < Dim => Min(a.lower[k], b.lower[k])),
                 seq(Dim, k requires 0 <= k < Dim => Max(a.upper[k], b.upper[k])))
  }

  /** The union is the least rectangle containing both arguments. */
  lemma AddRectIsLeast(a: Rect, b: Rect, c: Rect)
    requires ContainsRect(c, a) && ContainsRect(c, b)
    ensures ContainsRect(c, AddRect(a, b))
  {
    var r := AddRect(a, b);
    forall k | 0 <= k < Dim ensures c.lower[k] <= r.lower[k] && r.upper[k] <= c.upper[k] {
      assert r.lower[k] == a.lower[k] || r.lower[k] == b.lower[k];
      assert r.upper[k] == a.upper[k] || r.upper[k] == b.upper[k];
    }
  }

  // ---------------------------------------------------------------------
  // Minimal bounding rectangles of collections
  // ---------------------------------------------------------------------

  /**
    `r` is the minimal bounding rectangle of the rectangles in `rs`: it
    contains each of them, and on every axis both of its faces are touched
    by one of them.
  */
  ghost predicate Tight(r: Rect, rs: seq<Rect>) {
    && (forall e :: e in rs ==> ContainsRect(r, e))
    && (forall k :: 0 <= k < Dim ==> AttainsLower(r, rs, k))
    && (forall k :: 0 <= k < Dim ==> AttainsUpper(r, rs, k))
  }

  /** Some member of `rs` has its lower face on axis `k` where `r` has. */
  ghost predicate AttainsLower(r: Rect, rs: seq<Rect>, k: int)
    requires 0 <= k < Dim
  {
    exists e :: e in rs && e.lower[k] == r.lower[k]
  }

  /** Some member of `rs` has its upper face on axis `k` where `r` has. */
  ghost predicate AttainsUpper(r: Rect, rs: seq<Rect>, k: int)
    requires 0 <= k < Dim
  {
    exists e :: e in rs && e.upper[k] == r.upper[k]
  }

  /** A tight rectangle is contained in every rectangle containing the collection. */
  lemma TightIsLeast(r: Rect, rs: seq<Rect>, c: Rect)
    requires Tight(r, rs)
    requires forall e :: e in rs ==> ContainsRect(c, e)
    ensures ContainsRect(c, r)
  {
    forall k | 0 <= k < Dim ensures c.lower[k] <= r.lower[k] && r.upper[k] <= c.upper[k] {
      var lo := LowerFaceWitness(r, rs, k);
      var hi := UpperFaceWitness(r, rs, k);
    }
  }

  /** Collections with the same members have the same tight rectangle. */
  lemma TightUnique(r1: Rect, rs1: seq<Rect>, r2: Rect, rs2: seq<Rect>)
    requires Tight(r1, rs1) && Tight(r2, rs2)
    requires forall e :: e in rs1 <==> e in rs2
    ensures r1 == r2
  {
    TightIsLeast(r1, rs1, r2);
    TightIsLeast(r2, rs2, r1);
    assert r1.lower == r2.lower;
    assert r1.upper == r2.upper;
  }

  lemma TightSingleton(e: Rect)
    ensures Tight(e, [e])
  {
    forall k | 0 <= k < Dim
      ensures AttainsLower(e, [e], k) && AttainsUpper(e, [e], k)
    {
      assert e in [e];
    }
  }

  /** A face of a tight rectangle is attained by a member: the lower one. */
  lemma LowerFaceWitness(r: Rect, rs: seq<Rect>, k: int) returns (e: Rect)
    requires Tight(r, rs) && 0 <= k < Dim
    ensures e in rs && e.lower[k] == r.lower[k]
  {
    assert AttainsLower(r, rs, k);
    e :| e in rs && e.lower[k] == r.lower[k];
  }

  /** A face of a tight rectangle is attained by a member: the upper one. */
  lemma UpperFaceWitness(r: Rect, rs: seq<Rect>, k: int) returns (e: Rect)
    requires Tight(r, rs) && 0 <= k < Dim
    ensures e in rs && e.upper[k] == r.upper[k]
  {
    assert AttainsUpper(r, rs, k);
    e :| e in rs && e.upper[k] == r.upper[k];
  }

  /** Tightness depends only on which rectangles are members. */
  lemma TightSameMembers(r: Rect, s: seq<Rect>, t: seq<Rect>)
    requires Tight(r, s)
    requires forall e :: e in s <==> e in t
    ensures Tight(r, t)
  {
    forall k | 0 <= k < Dim ensures AttainsLower(r, t, k) {
      var e := LowerFaceWitness(r, s, k);
      assert e in t && e.lower[k] == r.lower[k];
    }
    forall k | 0 <= k < Dim ensures AttainsUpper(r, t, k) {
      var e := UpperFaceWitness(r, s, k);
      assert e in t && e.upper[k] == r.upper[k];
    }
  }

  /** The union of the tight rectangles of two collections is tight for their concatenation. */
  lemma TightAddRect(a: Rect, s: seq<Rect>, b: Rect, t: seq<Rect>)
    requires Tight(a, s) && Tight(b, t)
    ensures Tight(AddRect(a, b), s + t)
  {
    var r := AddRect(a, b);
    forall e | e in s + t ensures ContainsRect(r, e) {
      if e in s { ContainsRectTransitive(r, a, e); } else { ContainsRectTransitive(r, b, e); }
    }
    forall k | 0 <= k < Dim ensures AttainsLower(r, s + t, k) {
      var e;
      if r.lower[k] == a.lower[k] {
        e := LowerFaceWitness(a, s, k);
      } else {
        e := LowerFaceWitness(b, t, k);
      }
      assert e in s + t && e.lower[k] == r.lower[k];
    }
    forall k | 0 <= k < Dim ensures AttainsUpper(r, s + t, k) {
      var e;
      if r.upper[k] == a.upper[k] {
        e := UpperFaceWitness(a, s, k);
      } else {
        e := UpperFaceWitness(b, t, k);
      }
      assert e in s + t && e.upper[k] == r.upper[k];
    }
  }

  // ---------------------------------------------------------------------
  // Area, margin and overlap (used only by the split and subtree heuristics)
  // ---------------------------------------------------------------------

  function Extent(r: Rect, k: int): int {
    if 0 <= k < Dim then r.upper[k] - r.lower[k] else 0
  }

  function Area(r: Rect): int {
    Product(k => Extent(r, k), |r.lower|)
  }

  /** A rectangle has no smaller area than any rectangle it contains. */
  lemma AreaMonotone(big: Rect, small: Rect)
    requires ContainsRect(big, small)
    ensures 0 <= Area(small) <= Area(big)
  {
    ProductMonotone(k => Extent(small, k), k => Extent(big, k), Dim);
  }

  /** Half of the rectangle's perimeter: the sum of its extents. */
  function HalfMargin(r: Rect): int {
    Sum(k => Extent(r, k), |r.lower|)
  }

  function OverlapExtent(r: Rect, s: Rect, k: int): int {
    if 0 <= k < Dim then Max(0, Min(r.upper[k], s.upper[k]) - Max(r.lower[k], s.lower[k])) else 0
  }

  /** The area of the intersection of two rectangles, zero when they are disjoint. */
  function OverlapArea(r: Rect, s: Rect): int {
    Product(k => OverlapExtent(r, s, k), |r.lower|)
  }

  // ---------------------------------------------------------------------
  // Distances
  // ---------------------------------------------------------------------

  /** Squared Euclidean distance between two points. */
  function Dist2(p: Point, q: Point): int {
    Sum(k => if 0 <= k < Dim then Sq(p[k] - q[k]) else 0, Dim)
  }

  /** Twice the centre of a rectangle (kept integral). */
  function DoubledCentre(r: Rect): Point {
    seq(Dim, k requires 0 <= k < Dim => r.lower[k] + r.upper[k])
  }

  /** Distance from `p` to the interval of `r` on axis `k`. */
  function AxisGap(r: Rect, p: Point, k: int): int {
    if !(0 <= k < Dim) then 0
    else if p[k] < r.lower[k] then r.lower[k] - p[k]
    else if r.upper[k] < p[k] then p[k] - r.upper[k]
    else 0
  }

  /** `min_dist2`: the squared distance from `p` to the nearest point of `r`. */
  function MinDist2(r: Rect, p: Point): int {
    Sum(k => Sq(AxisGap(r, p, k)), Dim)
  }

  /** The point of `r` closest to `p`. */
  function Clamp(r: Rect, p: Point): (q: Point)
    ensures ContainsPoint(r, q)
  {
    seq(Dim, k requires 0 <= k < Dim => Max(r.lower[k], Min(p[k], r.upper[k])))
  }

  /** No point of `r` is nearer to `p` than `MinDist2` says. */
  lemma MinDist2IsClosest(r: Rect, p: Point, x: Point)
    requires ContainsPoint(r, x)
    ensures MinDist2(r, p) <= Dist2(p, x)
  {
    var gap := k => Sq(AxisGap(r, p, k));
    forall k | 0 <= k < Dim ensures gap(k) <= Sq(p[k] - x[k]) {
      SqMonotone(AxisGap(r, p, k), p[k] - x[k]);
    }
    SumMonotone(gap, k => if 0 <= k < Dim then Sq(p[k] - x[k]) else 0, Dim);
  }

  /** The point of `r` nearest to `p` is as near as `MinDist2` says. */
  lemma ClampIsClosest(r: Rect, p: Point)
    ensures MinDist2(r, p) == Dist2(p, Clamp(r, p))
  {
    var q := Clamp(r, p);
    var gap := k => Sq(AxisGap(r, p, k));
    var dist := k => if 0 <= k < Dim then Sq(p[k] - q[k]) else 0;
    forall k | 0 <= k < Dim ensures gap(k) == dist(k) {
      assert Abs(AxisGap(r, p, k)) == Abs(p[k] - q[k]);
    }
    SumMonotone(gap, dist, Dim);
    SumMonotone(dist, gap, Dim);
  }

  /** `min_dist2` vanishes exactly on the points of the rectangle. */
  lemma MinDist2ZeroIffContains(r: Rect, p: Point)
    ensures 0 <= MinDist2(r, p)
    ensures MinDist2(r, p) == 0 <==> ContainsPoint(r, p)
  {
    SumNonNegative(k => Sq(AxisGap(r, p, k)), Dim);
    if ContainsPoint(r, p) {
      MinDist2Inside(r, p);
    } else {
      MinDist2Outside(r, p);
    }
  }

  lemma MinDist2Inside(r: Rect, p: Point)
    requires ContainsPoint(r, p)
    ensures MinDist2(r, p) == 0
  {
    var gap := k => Sq(AxisGap(r, p, k));
    forall k | 0 <= k < Dim ensures gap(k) == 0 {
      assert AxisGap(r, p, k) == 0;
    }
    SumOfZeros(gap, Dim);
  }

  lemma MinDist2Outside(r: Rect, p: Point)
    requires !ContainsPoint(r, p)
    ensures MinDist2(r, p) != 0
  {
    var gap := k => Sq(AxisGap(r, p, k));
    SumNonNegative(gap, Dim);
    var k :| 0 <= k < Dim && !(r.lower[k] <= p[k] <= r.upper[k]);
    var a := Abs(AxisGap(r, p, k));
    MulMonotone(1, a, 1, a);
    assert gap(k) == a * a;
  }

  /** A containing rectangle is never farther from a point than the rectangle it contains. */
  lemma MinDist2Monotone(big: Rect, small: Rect, p: Point)
    requires ContainsRect(big, small)
    ensures MinDist2(big, p) <= MinDist2(small, p)
  {
    forall k | 0 <= k < Dim ensures Sq(AxisGap(big, p, k)) <= Sq(AxisGap(small, p, k)) {
      SqMonotone(AxisGap(big, p, k), AxisGap(small, p, k));
    }
    SumMonotone(k => Sq(AxisGap(big, p, k)), k => Sq(AxisGap(small, p, k)), Dim);
  }

  // ---------------------------------------------------------------------
  // The min-max distance used to prune nearest-neighbour searches
  // ---------------------------------------------------------------------

  /** On axis `k`, the face of `r` nearer to `p`. */
  function NearFace(r: Rect, p: Point, k: int): int
    requires 0 <= k < Dim
  {
    if 2 * p[k] <= r.lower[k] + r.upper[k] then r.lower[k] else r.upper[k]
  }

  /** On axis `k`, the face of `r` farther from `p`. */
  function FarFace(r: Rect, p: Point, k: int): int
    requires 0 <= k < Dim
  {
    if 2 * p[k] >= r.lower[k] + r.upper[k] then r.lower[k] else r.upper[k]
  }

  function FarTerm(r: Rect, p: Point, k: int): int {
    if 0 <= k < Dim then Sq(p[k] - FarFace(r, p, k)) else 0
  }

  /** Squared distance from `p` to the farthest corner of `r`. */
  function FarDist2(r: Rect, p: Point): int {
    Sum(k => FarTerm(r, p, k), Dim)
  }

  /** Squared distance from `p` to the farthest point of the face of `r` nearer to `p` on axis `k`. */
  function FaceDist2(r: Rect, p: Point, k: int): int
    requires 0 <= k < Dim
  {
    FarDist2(r, p) - FarTerm(r, p, k) + Sq(p[k] - NearFace(r, p, k))
  }

  function MinFaceDist2(r: Rect, p: Point, n: nat): int
    requires 1 <= n <= Dim
  {
    if n == 1 then FaceDist2(r, p, 0) else Min(MinFaceDist2(r, p, n - 1), FaceDist2(r, p, n - 1))
  }

  /** `min_max_dist2`: the smallest of the face distances over all axes. */
  function MinMaxDist2(r: Rect, p: Point): int {
    MinFaceDist2(r, p, Dim)
  }

  lemma {:induction false} MinFaceAxis(r: Rect, p: Point, n: nat) returns (k: nat)
    requires 1 <= n <= Dim
    ensures k < n && MinFaceDist2(r, p, n) == FaceDist2(r, p, k)
  {
    if n == 1 {
      k := 0;
    } else {
      k := MinFaceAxis(r, p, n - 1);
      if FaceDist2(r, p, n - 1) < MinFaceDist2(r, p, n - 1) { k := n - 1; }
    }
  }

  /** On an axis other than the chosen one, a contained rectangle is no farther than the far face. */
  lemma GapWithinFarFace(big: Rect, e: Rect, p: Point, i: int)
    requires ContainsRect(big, e) && 0 <= i < Dim
    ensures Sq(AxisGap(e, p, i)) <= FarTerm(big, p, i)
  {
    SqMonotone(AxisGap(e, p, i), p[i] - FarFace(big, p, i));
  }

  /**
    The min-max guarantee: when `r` is the tight rectangle of a collection,
    some member of the collection lies within `MinMaxDist2(r, p)` of `p`.
  */
  lemma WithinMinMax(r: Rect, rs: seq<Rect>, p: Point) returns (e: Rect)
    requires Tight(r, rs)
    ensures e in rs && MinDist2(e, p) <= MinMaxDist2(r, p)
  {
    var k := MinFaceAxis(r, p, Dim);
    if NearFace(r, p, k) == r.lower[k] {
      e := LowerFaceWitness(r, rs, k);
    } else {
      e := UpperFaceWitness(r, rs, k);
    }
    var near := Sq(p[k] - NearFace(r, p, k));
    var bound := i => if i == k then near else FarTerm(r, p, i);
    SqMonotone(AxisGap(e, p, k), p[k] - NearFace(r, p, k));
    forall i | 0 <= i < Dim ensures Sq(AxisGap(e, p, i)) <= bound(i) {
      if i != k { GapWithinFarFace(r, e, p, i); }
    }
    SumMonotone(i => Sq(AxisGap(e, p, i)), bound, Dim);
    SumReplace(i => FarTerm(r, p, i), bound, Dim, k);
  }

  /** A rectangle is never farther than its own min-max distance. */
  lemma MinDist2AtMostMinMax(r: Rect, p: Point)
    ensures MinDist2(r, p) <= MinMaxDist2(r, p)
  {
    TightSingleton(r);
    var e := WithinMinMax(r, [r], p);
  }
}
