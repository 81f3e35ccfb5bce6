/** The geometry predicates of quadpy/quadtree.py: bounds are tuples
    (x_min, y_min, x_max, y_max), here with exact real coordinates. */
module Geometry {

  datatype Bounds = Bounds(xMin: real, yMin: real, xMax: real, yMax: real)

  /** Bounds whose minimum does not exceed its maximum on either axis. */
  predicate Proper(b: Bounds) {
    b.xMin <= b.xMax && b.yMin <= b.yMax
  }

  /** `fits`: `inner` lies entirely within `outer`, touching edges included. */
  predicate Fits(inner: Bounds, outer: Bounds) {
    inner.xMin >= outer.xMin && inner.xMax <= outer.xMax &&
    inner.yMin >= outer.yMin && inner.yMax <= outer.yMax
  }

  /** `overlaps`, exactly as written: on each axis, one minimum lies within the other interval. */
  predicate Overlaps(a: Bounds, b: Bounds) {
    var xOverlaps := (a.xMin <= b.xMin <= a.xMax) || (b.xMin <= a.xMin <= b.xMax);
    var yOverlaps := (a.yMin <= b.yMin <= a.yMax) || (b.yMin <= a.yMin <= b.yMax);
    xOverlaps && yOverlaps
  }

  /** `Node.fix_bounds`: swaps an inverted pair on each axis. */
  function FixBounds(b: Bounds): (r: Bounds)
    ensures Proper(r)
    ensures multiset{r.xMin, r.xMax} == multiset{b.xMin, b.xMax}
    ensures multiset{r.yMin, r.yMax} == multiset{b.yMin, b.yMax}
    ensures Proper(b) ==> r == b
  {
    var (x1, x2) := if b.xMin > b.xMax then (b.xMax, b.xMin) else (b.xMin, b.xMax);
    var (y1, y2) := if b.yMin > b.yMax then (b.yMax, b.yMin) else (b.yMin, b.yMax);
    Bounds(x1, y1, x2, y2)
  }

  /** The i-th cell made by `Node.subdivide`, split at the exact midpoint, in the order
      low-x/low-y, high-x/low-y, low-x/high-y, high-x/high-y. */
  function Quadrant(b: Bounds, i: nat): Bounds
    requires i < 4
  {
    var xCenter := (b.xMin + b.xMax) / 2.0;
    var yCenter := (b.yMin + b.yMax) / 2.0;
    match i
    case 0 => Bounds(b.xMin, b.yMin, xCenter, yCenter)
    case 1 => Bounds(xCenter, b.yMin, b.xMax, yCenter)
    case 2 => Bounds(b.xMin, yCenter, xCenter, b.yMax)
    case 3 => Bounds(xCenter, yCenter, b.xMax, b.yMax)
  }

  lemma FitsReflexive(a: Bounds)
    ensures Fits(a, a)
  {}

  lemma FitsTransitive(a: Bounds, b: Bounds, c: Bounds)
    requires Fits(a, b) && Fits(b, c)
    ensures Fits(a, c)
  {}

  /** Mutual containment is equality of the tuples. */
  lemma FitsAntisymmetric(a: Bounds, b: Bounds)
    ensures Fits(a, b) && Fits(b, a) <==> a == b
  {}

  lemma OverlapsSymmetric(a: Bounds, b: Bounds)
    ensures Overlaps(a, b) <==> Overlaps(b, a)
  {}

  lemma FitsImpliesOverlaps(a: Bounds, b: Bounds)
    requires Proper(a)
    ensures Fits(a, b) ==> Overlaps(a, b)
  {}

  /** For proper bounds `overlaps` is the usual closed-interval intersection test. */
  lemma OverlapsIff(a: Bounds, b: Bounds)
    requires Proper(a) && Proper(b)
    ensures Overlaps(a, b) <==>
      a.xMin <= b.xMax && b.xMin <= a.xMax && a.yMin <= b.yMax && b.yMin <= a.yMax
  {}

  lemma FixBoundsIdempotent(b: Bounds)
    ensures FixBounds(FixBounds(b)) == FixBounds(b)
  {}

  /** Each cell of a subdivision is proper and lies inside its parent. */
  lemma QuadrantInside(b: Bounds, i: nat)
    requires Proper(b) && i < 4
    ensures Proper(Quadrant(b, i)) && Fits(Quadrant(b, i), b)
  {}

  /** A proper rectangle inside `inner` cannot reach a region disjoint from `inner`. */
  lemma DisjointFromContainer(item: Bounds, inner: Bounds, region: Bounds)
    requires Proper(item) && Proper(inner) && Proper(region)
    requires Fits(item, inner) && !Overlaps(region, inner)
    ensures !Fits(item, region) && !Overlaps(item, region)
  {}

  /** A proper rectangle inside a region it is contained in also overlaps it. */
  lemma InsideContainer(item: Bounds, inner: Bounds, region: Bounds)
    requires Proper(item) && Fits(item, inner) && Fits(inner, region)
    ensures Fits(item, region) && Overlaps(item, region)
  {}
}
