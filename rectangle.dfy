/** The `Rectangle` entity of quadpy/rectangle.py, as a value. Object identity is an
    index into the heap of rectangles (module Quadtree). */
module Rectangles {
  import opened Results
  import opened Geometry

  /** `bounds` is mutable by callers; `qtData` is a user slot the index never reads;
      `qtParent` is the owning node id written by the quadtree, absent before the first insert. */
  datatype Rectangle = Rectangle(bounds: Bounds, qtData: Option<int>, qtParent: Option<nat>)

  /** `Rectangle(x_min, y_min, x_max, y_max)`: the x check is made first, degenerate
      rectangles are accepted. */
  function NewRectangle(xMin: real, yMin: real, xMax: real, yMax: real): (r: Result<Rectangle>)
    ensures r.Ok? <==> xMin <= xMax && yMin <= yMax
    ensures xMin > xMax ==> r == Err(XMinAboveXMax)
    ensures xMin <= xMax && yMin > yMax ==> r == Err(YMinAboveYMax)
    ensures r.Ok? ==> r.value.bounds == Bounds(xMin, yMin, xMax, yMax) && Proper(r.value.bounds)
    ensures r.Ok? ==> r.value.qtData == None && r.value.qtParent == None
  {
    if xMin > xMax then Err(XMinAboveXMax)
    else if yMin > yMax then Err(YMinAboveYMax)
    else Ok(Rectangle(Bounds(xMin, yMin, xMax, yMax), None, None))
  }

  /** `__eq__`: rectangles compare by their bounds only. */
  predicate Equal(a: Rectangle, b: Rectangle) {
    a.bounds == b.bounds
  }

  /** `__ne__`. */
  predicate NotEqual(a: Rectangle, b: Rectangle) {
    !Equal(a, b)
  }

  /** `__eq__` is an equivalence relation. */
  lemma EqualIsEquivalence(a: Rectangle, b: Rectangle, c: Rectangle)
    ensures Equal(a, a)
    ensures Equal(a, b) ==> Equal(b, a)
    ensures Equal(a, b) && Equal(b, c) ==> Equal(a, c)
  {}
}
