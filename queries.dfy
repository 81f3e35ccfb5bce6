/** The region and point queries of quadpy/quadtree.py, and what they return when every
    stored rectangle is proper and lies inside the node that stores it. */
module Queries {
  import opened Geometry
  import opened Rectangles
  import opened Arena

  /** A list comprehension `[ch for ch in s if p(ch)]`. */
  function Filter(s: seq<RectId>, p: RectId -> bool): seq<RectId>
  {
    if s == [] then []
    else (if p(s[0]) then [s[0]] else []) + Filter(s[1..], p)
  }

  /** A filter keeps exactly the elements that pass, never more often than they occur. */
  lemma {:induction false} FilterKeeps(s: seq<RectId>, p: RectId -> bool)
    ensures forall x :: x in Filter(s, p) <==> x in s && p(x)
    ensures multiset(Filter(s, p)) <= multiset(s)
  {
    if s != [] {
      FilterKeeps(s[1..], p);
      assert s == [s[0]] + s[1..];
    }
  }

  lemma {:induction false} FilterConcat(a: seq<RectId>, b: seq<RectId>, p: RectId -> bool)
    ensures Filter(a + b, p) == Filter(a, p) + Filter(b, p)
  {
    if a == [] {
      assert a + b == b;
    } else {
      assert (a + b)[0] == a[0];
      assert (a + b)[1..] == a[1..] + b;
      FilterConcat(a[1..], b, p);
    }
  }

  lemma {:induction false} FilterConcat5(d: seq<RectId>, c0: seq<RectId>, c1: seq<RectId>, c2: seq<RectId>, c3: seq<RectId>, p: RectId -> bool)
    ensures Filter(d + c0 + c1 + c2 + c3, p) ==
      Filter(d, p) + (Filter(c0, p) + Filter(c1, p) + Filter(c2, p) + Filter(c3, p))
  {
    var fd, f0, f1, f2, f3 := Filter(d, p), Filter(c0, p), Filter(c1, p), Filter(c2, p), Filter(c3, p);
    FilterConcat(d, c0, p);
    assert Filter(d + c0, p) == fd + f0;
    FilterConcat(d + c0, c1, p);
    assert Filter(d + c0 + c1, p) == fd + f0 + f1;
    FilterConcat(d + c0 + c1, c2, p);
    assert Filter(d + c0 + c1 + c2, p) == fd + f0 + f1 + f2;
    FilterConcat(d + c0 + c1 + c2, c3, p);
    assert Filter(d + c0 + c1 + c2 + c3, p) == fd + f0 + f1 + f2 + f3;
    assert fd + f0 + f1 + f2 + f3 == fd + (f0 + f1 + f2 + f3);
  }

  /** Two tests that agree on every element select the same elements. */
  lemma {:induction false} FilterAgree(s: seq<RectId>, p: RectId -> bool, q: RectId -> bool)
    requires forall x :: x in s ==> p(x) == q(x)
    ensures Filter(s, p) == Filter(s, q)
  {
    if s != [] {
      FilterAgree(s[1..], p, q);
    }
  }

  lemma {:induction false} FilterNone(s: seq<RectId>, p: RectId -> bool)
    requires forall x :: x in s ==> !p(x)
    ensures Filter(s, p) == []
  {
    if s != [] {
      FilterNone(s[1..], p);
    }
  }

  lemma {:induction false} FilterAll(s: seq<RectId>, p: RectId -> bool)
    requires forall x :: x in s ==> p(x)
    ensures Filter(s, p) == s
  {
    if s != [] {
      FilterAll(s[1..], p);
    }
  }

  /** The test of the enclosed query: the rectangle fits the region. */
  function EnclosedIn(rs: seq<Rectangle>, region: Bounds): RectId -> bool {
    (ch: RectId) => ch < |rs| && Fits(rs[ch].bounds, region)
  }

  /** The test of the overlap query: the rectangle overlaps the region. */
  function OverlapsWith(rs: seq<Rectangle>, region: Bounds): RectId -> bool {
    (ch: RectId) => ch < |rs| && Overlaps(rs[ch].bounds, region)
  }

  /** A point lies on or inside the rectangle. */
  function HoldsPoint(rs: seq<Rectangle>, x: real, y: real): RectId -> bool {
    (ch: RectId) => ch < |rs| && rs[ch].bounds.xMin <= x <= rs[ch].bounds.xMax
                    && rs[ch].bounds.yMin <= y <= rs[ch].bounds.yMax
  }

  /** `get_enclosed_children`: normalise the region; nothing if it misses the node, everything
      if it holds the node, else the fitting direct children and each quadrant's answer. */
  function EnclosedChildren(ns: seq<Node>, rs: seq<Rectangle>, n: NodeId, within: Bounds): seq<RectId>
    requires WellFormed(ns) && n < |ns|
    decreases ns[n].maxDepth
  {
    var wb := FixBounds(within);
    if !Overlaps(wb, ns[n].bounds) then []
    else if Fits(ns[n].bounds, wb) then GetChildren(ns, n)
    else
      var sub := if ns[n].quadrants == [] then [] else
        (EnclosedChildren(ns, rs, Quad(ns, n, 0), wb) + EnclosedChildren(ns, rs, Quad(ns, n, 1), wb)
         + EnclosedChildren(ns, rs, Quad(ns, n, 2), wb) + EnclosedChildren(ns, rs, Quad(ns, n, 3), wb));
      Filter(ns[n].direct, EnclosedIn(rs, wb)) + sub
  }

  /** `get_overlapped_children`, the same recursion with `overlaps` as the per-item test. */
  function OverlappedChildren(ns: seq<Node>, rs: seq<Rectangle>, n: NodeId, region: Bounds): seq<RectId>
    requires WellFormed(ns) && n < |ns|
    decreases ns[n].maxDepth
  {
    var wb := FixBounds(region);
    if !Overlaps(wb, ns[n].bounds) then []
    else if Fits(ns[n].bounds, wb) then GetChildren(ns, n)
    else
      var sub := if ns[n].quadrants == [] then [] else
        (OverlappedChildren(ns, rs, Quad(ns, n, 0), wb) + OverlappedChildren(ns, rs, Quad(ns, n, 1), wb)
         + OverlappedChildren(ns, rs, Quad(ns, n, 2), wb) + OverlappedChildren(ns, rs, Quad(ns, n, 3), wb));
      Filter(ns[n].direct, OverlapsWith(rs, wb)) + sub
  }

  /** `get_children_under_point`: the overlap query on the degenerate rectangle (x, y, x, y). */
  function ChildrenUnderPoint(ns: seq<Node>, rs: seq<Rectangle>, n: NodeId, x: real, y: real): seq<RectId>
    requires WellFormed(ns) && n < |ns|
  {
    OverlappedChildren(ns, rs, n, Bounds(x, y, x, y))
  }

  /** Every stored rectangle is proper and lies inside the node whose direct children hold it.
      Insertion.InsertKeepsPlaced and Removal.RemoveKeepsPlaced show that `insert` of a proper
      rectangle that fits and `_remove` keep it. */
  predicate Placed(ns: seq<Node>, rs: seq<Rectangle>) {
    forall t, j | 0 <= t < |ns| && 0 <= j < |ns[t].direct| ::
      ns[t].direct[j] < |rs| && Proper(rs[ns[t].direct[j]].bounds) &&
      Fits(rs[ns[t].direct[j]].bounds, ns[t].bounds)
  }

  lemma {:induction false} ChildrenFit(ns: seq<Node>, rs: seq<Rectangle>, n: NodeId)
    requires WellFormed(ns) && n < |ns| && Placed(ns, rs)
    ensures forall x :: x in GetChildren(ns, n) ==>
      x < |rs| && Proper(rs[x].bounds) && Fits(rs[x].bounds, ns[n].bounds)
    decreases ns[n].maxDepth
  {
    forall x | x in ns[n].direct
      ensures x < |rs| && Proper(rs[x].bounds) && Fits(rs[x].bounds, ns[n].bounds)
    {
      var j :| 0 <= j < |ns[n].direct| && ns[n].direct[j] == x;
    }
    if ns[n].quadrants != [] {
      forall i | 0 <= i < 4
        ensures forall x :: x in GetChildren(ns, Quad(ns, n, i)) ==>
          x < |rs| && Proper(rs[x].bounds) && Fits(rs[x].bounds, ns[n].bounds)
      {
        var q := Quad(ns, n, i);
        ChildrenFit(ns, rs, q);
        assert Fits(ns[q].bounds, ns[n].bounds) by {
          assert NodeOk(ns, n);
          QuadrantInside(ns[n].bounds, i);
        }
        forall x | x in GetChildren(ns, q) ensures Fits(rs[x].bounds, ns[n].bounds) {
          FitsTransitive(rs[x].bounds, ns[q].bounds, ns[n].bounds);
        }
      }
    }
  }

  /** A region that misses a node holds and meets none of the node's placed rectangles. */
  lemma {:induction false} MissedNode(ns: seq<Node>, rs: seq<Rectangle>, n: NodeId, wb: Bounds)
    requires WellFormed(ns) && n < |ns| && Placed(ns, rs) && Proper(wb) && !Overlaps(wb, ns[n].bounds)
    ensures Filter(GetChildren(ns, n), EnclosedIn(rs, wb)) == []
    ensures Filter(GetChildren(ns, n), OverlapsWith(rs, wb)) == []
  {
    var all := GetChildren(ns, n);
    ChildrenFit(ns, rs, n);
    assert NodeOk(ns, n);
    forall x | x in all ensures !EnclosedIn(rs, wb)(x) && !OverlapsWith(rs, wb)(x) {
      DisjointFromContainer(rs[x].bounds, ns[n].bounds, wb);
    }
    FilterNone(all, EnclosedIn(rs, wb));
    FilterNone(all, OverlapsWith(rs, wb));
  }

  /** A region that holds a node holds and meets all of the node's placed rectangles. */
  lemma {:induction false} CoveredNode(ns: seq<Node>, rs: seq<Rectangle>, n: NodeId, wb: Bounds)
    requires WellFormed(ns) && n < |ns| && Placed(ns, rs) && Fits(ns[n].bounds, wb)
    ensures Filter(GetChildren(ns, n), EnclosedIn(rs, wb)) == GetChildren(ns, n)
    ensures Filter(GetChildren(ns, n), OverlapsWith(rs, wb)) == GetChildren(ns, n)
  {
    var all := GetChildren(ns, n);
    ChildrenFit(ns, rs, n);
    forall x | x in all ensures EnclosedIn(rs, wb)(x) && OverlapsWith(rs, wb)(x) {
      InsideContainer(rs[x].bounds, ns[n].bounds, wb);
    }
    FilterAll(all, EnclosedIn(rs, wb));
    FilterAll(all, OverlapsWith(rs, wb));
  }

  /** When every rectangle is placed, `get_enclosed_children` returns exactly the stored
      rectangles that fit the normalised region, in `get_children` order. */
  lemma {:induction false} EnclosedExact(ns: seq<Node>, rs: seq<Rectangle>, n: NodeId, within: Bounds)
    requires WellFormed(ns) && n < |ns| && Placed(ns, rs)
    ensures EnclosedChildren(ns, rs, n, within) == Filter(GetChildren(ns, n), EnclosedIn(rs, FixBounds(within)))
    decreases ns[n].maxDepth
  {
    var wb := FixBounds(within);
    if !Overlaps(wb, ns[n].bounds) {
      MissedNode(ns, rs, n, wb);
    } else if Fits(ns[n].bounds, wb) {
      CoveredNode(ns, rs, n, wb);
    } else if ns[n].quadrants != [] {
      var q0, q1, q2, q3 := Quad(ns, n, 0), Quad(ns, n, 1), Quad(ns, n, 2), Quad(ns, n, 3);
      EnclosedExact(ns, rs, q0, wb);
      EnclosedExact(ns, rs, q1, wb);
      EnclosedExact(ns, rs, q2, wb);
      EnclosedExact(ns, rs, q3, wb);
      FilterConcat5(ns[n].direct, GetChildren(ns, q0), GetChildren(ns, q1),
                    GetChildren(ns, q2), GetChildren(ns, q3), EnclosedIn(rs, wb));
    }
  }

  /** When every rectangle is placed, `get_overlapped_children` returns exactly the stored
      rectangles that overlap the normalised region, in `get_children` order. */
  lemma {:induction false} OverlappedExact(ns: seq<Node>, rs: seq<Rectangle>, n: NodeId, region: Bounds)
    requires WellFormed(ns) && n < |ns| && Placed(ns, rs)
    ensures OverlappedChildren(ns, rs, n, region) == Filter(GetChildren(ns, n), OverlapsWith(rs, FixBounds(region)))
    decreases ns[n].maxDepth
  {
    var wb := FixBounds(region);
    if !Overlaps(wb, ns[n].bounds) {
      MissedNode(ns, rs, n, wb);
    } else if Fits(ns[n].bounds, wb) {
      CoveredNode(ns, rs, n, wb);
    } else if ns[n].quadrants != [] {
      var q0, q1, q2, q3 := Quad(ns, n, 0), Quad(ns, n, 1), Quad(ns, n, 2), Quad(ns, n, 3);
      OverlappedExact(ns, rs, q0, wb);
      OverlappedExact(ns, rs, q1, wb);
      OverlappedExact(ns, rs, q2, wb);
      OverlappedExact(ns, rs, q3, wb);
      FilterConcat5(ns[n].direct, GetChildren(ns, q0), GetChildren(ns, q1),
                    GetChildren(ns, q2), GetChildren(ns, q3), OverlapsWith(rs, wb));
    }
  }

  /** When every rectangle is placed, the point query returns exactly the stored rectangles
      on or around the point. */
  lemma {:induction false} UnderPointExact(ns: seq<Node>, rs: seq<Rectangle>, n: NodeId, x: real, y: real)
    requires WellFormed(ns) && n < |ns| && Placed(ns, rs)
    ensures ChildrenUnderPoint(ns, rs, n, x, y) == Filter(GetChildren(ns, n), HoldsPoint(rs, x, y))
  {
    var pt := Bounds(x, y, x, y);
    OverlappedExact(ns, rs, n, pt);
    ChildrenFit(ns, rs, n);
    FilterAgree(GetChildren(ns, n), OverlapsWith(rs, FixBounds(pt)), HoldsPoint(rs, x, y));
  }

  /** Whatever the state, the enclosed query only returns stored rectangles, each at most as
      often as it is stored. */
  lemma {:induction false} EnclosedReturnsStored(ns: seq<Node>, rs: seq<Rectangle>, n: NodeId, within: Bounds)
    requires WellFormed(ns) && n < |ns|
    ensures multiset(EnclosedChildren(ns, rs, n, within)) <= multiset(GetChildren(ns, n))
    decreases ns[n].maxDepth
  {
    var wb := FixBounds(within);
    if Overlaps(wb, ns[n].bounds) && !Fits(ns[n].bounds, wb) {
      FilterKeeps(ns[n].direct, EnclosedIn(rs, wb));
      if ns[n].quadrants != [] {
        var q0, q1, q2, q3 := Quad(ns, n, 0), Quad(ns, n, 1), Quad(ns, n, 2), Quad(ns, n, 3);
        EnclosedReturnsStored(ns, rs, q0, wb);
        EnclosedReturnsStored(ns, rs, q1, wb);
        EnclosedReturnsStored(ns, rs, q2, wb);
        EnclosedReturnsStored(ns, rs, q3, wb);
      }
    }
  }

  /** Whatever the state, the overlap query only returns stored rectangles, each at most as
      often as it is stored. */
  lemma {:induction false} OverlappedReturnsStored(ns: seq<Node>, rs: seq<Rectangle>, n: NodeId, region: Bounds)
    requires WellFormed(ns) && n < |ns|
    ensures multiset(OverlappedChildren(ns, rs, n, region)) <= multiset(GetChildren(ns, n))
    decreases ns[n].maxDepth
  {
    var wb := FixBounds(region);
    if Overlaps(wb, ns[n].bounds) && !Fits(ns[n].bounds, wb) {
      FilterKeeps(ns[n].direct, OverlapsWith(rs, wb));
      if ns[n].quadrants != [] {
        var q0, q1, q2, q3 := Quad(ns, n, 0), Quad(ns, n, 1), Quad(ns, n, 2), Quad(ns, n, 3);
        OverlappedReturnsStored(ns, rs, q0, wb);
        OverlappedReturnsStored(ns, rs, q1, wb);
        OverlappedReturnsStored(ns, rs, q2, wb);
        OverlappedReturnsStored(ns, rs, q3, wb);
      }
    }
  }
}
