/** The mutable side of quadpy/quadtree.py and quadpy/rectangle.py. Every `Node` and every
    `Rectangle` object lives in one heap and is named by its index there; each method updates
    the heap in place as the Python method updates its objects, and its contract ties the new
    heap to the pure transition (modules Insertion and Removal) whose properties are proved. */
module Quadtree {
  import opened Results
  import opened Geometry
  import opened Rectangles
  import opened Arena
  import opened Insertion
  import opened Removal

  /** The nodes below the first k quadrants of n. */
  ghost function Below(ns: seq<Node>, n: NodeId, k: nat): set<NodeId>
    requires WellFormed(ns) && n < |ns| && ns[n].quadrants != [] && k <= 4
  {
    if k == 0 then {} else Below(ns, n, k - 1) + Reach(ns, Quad(ns, n, k - 1))
  }

  /** A node below quadrant j is not below any quadrant before j. */
  lemma {:induction false} BelowDisjoint(ns: seq<Node>, n: NodeId, k: nat, j: nat, u: NodeId)
    requires WellFormed(ns) && n < |ns| && ns[n].quadrants != [] && k <= j < 4
    requires u in Reach(ns, Quad(ns, n, j))
    ensures u !in Below(ns, n, k)
  {
    if k > 0 {
      SiblingsDisjoint(ns, n, j, k - 1, u);
      BelowDisjoint(ns, n, k - 1, j, u);
    }
  }

  /** While `clear` works through n's quadrants, quadrant k's subtree is still intact. */
  lemma {:induction false} ClearNext(ns: seq<Node>, n: NodeId, k: nat)
    requires WellFormed(ns) && n < |ns| && ns[n].quadrants != [] && k < 4
    ensures var m := Emptied(WithDirect(ns, n, []), Below(ns, n, k));
      WellFormed(m) && Reach(m, Quad(ns, n, k)) == Reach(ns, Quad(ns, n, k))
  {
    var a := WithDirect(ns, n, []);
    var m := Emptied(a, Below(ns, n, k));
    EmptiedWellFormed(a, Below(ns, n, k));
    forall u | u in Reach(ns, Quad(ns, n, k)) ensures u < |m| && m[u] == ns[u] {
      BelowDisjoint(ns, n, k, k, u);
    }
    ReachFrame(ns, m, Quad(ns, n, k));
  }

  /** Once all four quadrants are cleared, dropping n's quadrant list completes `clear`. */
  lemma ClearDone(ns: seq<Node>, n: NodeId)
    requires WellFormed(ns) && n < |ns| && ns[n].quadrants != []
    ensures var m := Emptied(WithDirect(ns, n, []), Below(ns, n, 4));
      m[n := m[n].(quadrants := [])] == Cleared(ns, n)
  {
    var m := Emptied(WithDirect(ns, n, []), Below(ns, n, 4));
    var c := Cleared(ns, n);
    ReachSplit(ns, n);
    forall u | 0 <= u < |ns| ensures m[n := m[n].(quadrants := [])][u] == c[u] {
      if u != n {
        assert WithDirect(ns, n, [])[u] == ns[u];
      }
    }
  }

  /** A subdivided node's subtree is the node and what lies below its four quadrants. */
  lemma ReachSplit(ns: seq<Node>, n: NodeId)
    requires WellFormed(ns) && n < |ns| && ns[n].quadrants != []
    ensures Reach(ns, n) == {n} + Below(ns, n, 4)
    ensures n !in Below(ns, n, 4)
  {
    var r0, r1, r2, r3 := Reach(ns, Quad(ns, n, 0)), Reach(ns, Quad(ns, n, 1)),
                          Reach(ns, Quad(ns, n, 2)), Reach(ns, Quad(ns, n, 3));
    assert Below(ns, n, 1) == r0;
    assert Below(ns, n, 2) == r0 + r1;
    assert Below(ns, n, 3) == r0 + r1 + r2;
    assert Below(ns, n, 4) == r0 + r1 + r2 + r3;
    assert n !in r0 && n !in r1 && n !in r2 && n !in r3;
  }

  class Heap {
    /** The `Node` objects. */
    var nodes: seq<Node>
    /** The `Rectangle` objects. */
    var rects: seq<Rectangle>

    /** The arena is a well-formed forest, nodes hold only existing rectangles, and every
        `qt_parent` names an existing node. */
    ghost predicate Valid()
      reads this
    {
      && WellFormed(nodes)
      && Stored(nodes, |rects|)
      && forall id | 0 <= id < |rects| && rects[id].qtParent.Some? :: rects[id].qtParent.value < |nodes|
    }

    constructor ()
      ensures Valid() && nodes == [] && rects == []
    {
      nodes := [];
      rects := [];
    }

    /** `Node(x_min, y_min, x_max, y_max, max_depth=4, parent=None)`: the new node is appended
        to the heap, or the constructor's error is returned and nothing changes. */
    method NewNode(xMin: real, yMin: real, xMax: real, yMax: real, maxDepth: int := DefaultMaxDepth,
                   parent: Option<NodeId> := None) returns (r: Result<NodeId>)
      requires Valid() && (parent.Some? ==> parent.value < |nodes|)
      modifies this
      ensures Valid() && rects == old(rects)
      ensures match MakeNode(xMin, yMin, xMax, yMax, maxDepth, parent)
        case Ok(nd) => r == Ok(|old(nodes)|) && nodes == old(nodes) + [nd]
        case Err(e) => r == Err(e) && nodes == old(nodes)
    {
      var made := MakeNode(xMin, yMin, xMax, yMax, maxDepth, parent);
      match made {
        case Ok(nd) =>
          Allocated(nodes, nd);
          nodes := nodes + [nd];
          r := Ok(|nodes| - 1);
        case Err(e) =>
          r := Err(e);
      }
    }

    /** `Rectangle(x_min, y_min, x_max, y_max)`: the new rectangle is appended to the heap, or
        the constructor's error is returned and nothing changes. */
    method NewRect(xMin: real, yMin: real, xMax: real, yMax: real) returns (r: Result<RectId>)
      requires Valid()
      modifies this
      ensures Valid() && nodes == old(nodes)
      ensures match NewRectangle(xMin, yMin, xMax, yMax)
        case Ok(rc) => r == Ok(|old(rects)|) && rects == old(rects) + [rc]
        case Err(e) => r == Err(e) && rects == old(rects)
    {
      var made := NewRectangle(xMin, yMin, xMax, yMax);
      match made {
        case Ok(rc) =>
          rects := rects + [rc];
          r := Ok(|rects| - 1);
        case Err(e) =>
          r := Err(e);
      }
    }

    /** `rect.bounds = (...)`: callers move a rectangle by rebinding its bounds; the tree is not
        told. */
    method SetBounds(id: RectId, b: Bounds)
      requires Valid() && id < |rects|
      modifies this
      ensures Valid() && nodes == old(nodes)
      ensures rects == old(rects)[id := old(rects)[id].(bounds := b)]
    {
      rects := rects[id := rects[id].(bounds := b)];
    }

    /** `subdivide()`: four new nodes, built by the node constructor from n's corners and
        midpoints with one budget level less, become n's quadrants. With no budget left the
        first constructor call raises and nothing changes. */
    method Subdivide(n: NodeId) returns (out: Outcome)
      requires Valid() && n < |nodes|
      modifies this
      ensures Valid() && rects == old(rects)
      ensures old(nodes)[n].maxDepth == 0 ==> out == Fail(NegativeDepth) && nodes == old(nodes)
      ensures old(nodes)[n].maxDepth > 0 ==> out == Pass && nodes == Subdivided(old(nodes), n)
    {
      ghost var ns := nodes;
      assert NodeOk(nodes, n);
      var b := nodes[n].bounds;
      var xc, yc := (b.xMin + b.xMax) / 2.0, (b.yMin + b.yMax) / 2.0;
      var depth := nodes[n].maxDepth - 1;
      var k := |nodes|;
      var r0 := NewNode(b.xMin, b.yMin, xc, yc, depth, Some(n));
      if r0.Err? {
        return Fail(r0.error);
      }
      ghost var c := [Cell(ns[n], n, 0), Cell(ns[n], n, 1), Cell(ns[n], n, 2), Cell(ns[n], n, 3)];
      assert nodes == ns + c[..1];
      var r1 := NewNode(xc, b.yMin, b.xMax, yc, depth, Some(n));
      assert nodes == ns + c[..2];
      var r2 := NewNode(b.xMin, yc, xc, b.yMax, depth, Some(n));
      assert nodes == ns + c[..3];
      var r3 := NewNode(xc, yc, b.xMax, b.yMax, depth, Some(n));
      assert nodes == ns + c;
      nodes := nodes[n := nodes[n].(quadrants := [k, k + 1, k + 2, k + 3])];
      assert nodes == Split(ns, n);
      SplitWellFormed(ns, n);
      forall t, j | 0 <= t < |nodes| && 0 <= j < |nodes[t].direct| ensures nodes[t].direct[j] < |rects| {
        assert t < |ns| && nodes[t].direct == ns[t].direct;
      }
      out := Pass;
    }

    /** `clear()`: n's direct children are dropped, each quadrant is cleared in turn, then the
        quadrant list is dropped. */
    method Clear(n: NodeId)
      requires WellFormed(nodes) && n < |nodes|
      modifies this
      ensures nodes == Cleared(old(nodes), n) && rects == old(rects)
      ensures old(Valid()) ==> Valid()
      decreases nodes[n].maxDepth
    {
      ghost var ns := nodes;
      ghost var a := WithDirect(ns, n, []);
      nodes := nodes[n := nodes[n].(direct := [])];
      assert nodes == a;
      var qs := nodes[n].quadrants;
      assert NodeOk(ns, n);
      var k := 0;
      while k < |qs|
        invariant WellFormed(ns) && n < |ns| && 0 <= k <= |qs| && qs == ns[n].quadrants
        invariant qs != [] ==> |qs| == 4
        invariant qs != [] ==> nodes == Emptied(a, Below(ns, n, k))
        invariant qs == [] ==> nodes == a
        invariant WellFormed(nodes) && |nodes| == |ns| && Preserves(ns, nodes)
        invariant rects == old(rects)
      {
        assert NodeOk(ns, n);
        assert qs[k] == Quad(ns, n, k);
        ClearNext(ns, n, k);
        Clear(qs[k]);
        EmptiedTwice(a, Below(ns, n, k), Reach(ns, qs[k]));
        k := k + 1;
      }
      nodes := nodes[n := nodes[n].(quadrants := [])];
      if qs != [] {
        ClearDone(ns, n);
      } else {
        assert nodes == Cleared(ns, n);
      }
      ClearedKeepsStored(ns, n, |rects|);
    }

    /** `insert(child)`: the subdividing descent when the rectangle fits n, otherwise an
        append to n's own direct children; either way the rectangle's `qt_parent` is set. */
    method Insert(n: NodeId, id: RectId)
      requires Valid() && n < |nodes| && id < |rects|
      modifies this
      ensures Valid()
      ensures Pruned(old(nodes)) ==> Pruned(nodes)
      ensures var pl := Inserted(old(nodes), old(rects), n, id);
        nodes == pl.nodes && rects == Tagged(old(rects), id, pl.owner)
    {
      if Pruned(nodes) {
        InsertKeepsPruned(nodes, rects, n, id);
      }
      if Fits(rects[id].bounds, nodes[n].bounds) {
        PushDown(n, id);
      } else {
        Keep(n, id);
      }
    }

    /** `direct_children.append(child)` and `child.qt_parent = self` on node n. */
    method Keep(n: NodeId, id: RectId)
      requires Valid() && n < |nodes| && id < |rects|
      modifies this
      ensures Valid()
      ensures nodes == Appended(old(nodes), n, id) && rects == Tagged(old(rects), id, n)
    {
      AppendedStored(nodes, n, id, |rects|);
      nodes := nodes[n := nodes[n].(direct := nodes[n].direct + [id])];
      rects := rects[id := rects[id].(qtParent := Some(n))];
    }

    /** `_insert(child)`: split a leaf with budget left, then go down into the first quadrant
        the rectangle fits, or keep it here. */
    method PushDown(n: NodeId, id: RectId)
      requires Valid() && n < |nodes| && id < |rects|
      modifies this
      ensures Valid()
      ensures var pl := Pushed(old(nodes), n, old(rects)[id].bounds, id);
        nodes == pl.nodes && rects == Tagged(old(rects), id, pl.owner)
      decreases nodes[n].maxDepth
    {
      ghost var ns := nodes;
      var b := rects[id].bounds;
      if nodes[n].quadrants == [] && nodes[n].maxDepth > 0 {
        var _ := Subdivide(n);
      }
      assert nodes == MaybeSubdivided(ns, n);
      QuadsAllocated(nodes, n);
      var qs := nodes[n].quadrants;
      assert NodeOk(nodes, n);
      var k := 0;
      while k < |qs| && !Fits(b, nodes[qs[k]].bounds)
        invariant 0 <= k <= |qs|
        invariant forall j | 0 <= j < k :: !Fits(b, nodes[qs[j]].bounds)
      {
        k := k + 1;
      }
      assert FirstFitting(nodes, qs, b) == k;
      if k < |qs| {
        assert qs[k] == Quad(nodes, n, k);
        PushDown(qs[k], id);
      } else {
        Keep(n, id);
      }
    }

    /** `remove(child)`: removal from the node the child names as its `qt_parent`. */
    method Remove(child: RectId) returns (out: Outcome)
      requires Valid() && child < |rects|
      modifies this
      ensures Valid() && rects == old(rects)
      ensures Pruned(old(nodes)) ==> Pruned(nodes)
      ensures match Removed(old(nodes), old(rects), child)
        case Ok(ns) => out == Pass && nodes == ns
        case Err(e) => out == Fail(e) && nodes == old(nodes)
    {
      assert Claims(nodes, rects, child);
      match rects[child].qtParent {
        case None =>
          out := Fail(NotInserted);
        case Some(p) =>
          out := RemoveFrom(p, child);
      }
    }

    /** `_remove(child)`: `direct_children.remove(child)` on node p, then `_try_cleanup`. */
    method RemoveFrom(p: NodeId, child: RectId) returns (out: Outcome)
      requires Valid() && p < |nodes| && child < |rects|
      modifies this
      ensures Valid() && rects == old(rects)
      ensures Pruned(old(nodes)) ==> Pruned(nodes)
      ensures match RemovedFrom(old(nodes), old(rects), p, child)
        case Ok(ns) => out == Pass && nodes == ns
        case Err(e) => out == Fail(e) && nodes == old(nodes)
    {
      ghost var ns := nodes;
      out := Drop(p, child);
      DroppedSteps(ns, rects, p, child);
      if out.Pass? {
        TryCleanup(p);
        RemoveKeepsPlaced(ns, rects, p, child);
        if Pruned(ns) {
          RemoveKeepsPruned(ns, rects, p, child);
        }
      }
    }

    /** `direct_children.remove(child)` on node p: the first element equal to the child goes. */
    method Drop(p: NodeId, child: RectId) returns (out: Outcome)
      requires Valid() && p < |nodes| && child < |rects|
      modifies this
      ensures Valid() && rects == old(rects)
      ensures match Dropped(old(nodes), old(rects), p, child)
        case Ok(ns) => out == Pass && nodes == ns
        case Err(e) => out == Fail(e) && nodes == old(nodes)
    {
      ghost var ns := nodes;
      var ds := nodes[p].direct;
      var j := IndexOfEqual(rects, ds, rects[child].bounds);
      if j == |ds| {
        return Fail(NotFound);
      }
      nodes := nodes[p := nodes[p].(direct := ds[..j] + ds[j + 1..])];
      assert nodes == WithDirect(ns, p, Without(ds, j));
      DroppedSteps(ns, rects, p, child);
      out := Pass;
    }

    /** `_try_cleanup()`: while the node holds nothing below it, clear it and go on with its
        parent. */
    method TryCleanup(p: NodeId)
      requires WellFormed(nodes) && p < |nodes|
      modifies this
      ensures nodes == CleanedUp(old(nodes), p) && rects == old(rects)
      ensures old(Valid()) ==> Valid()
      decreases p
    {
      ghost var ns := nodes;
      CleanupKeepsStored(ns, p, |rects|);
      if GetChildren(nodes, p) == [] {
        Clear(p);
        if nodes[p].parent.Some? {
          TryCleanup(ParentOf(nodes, p));
        }
      }
    }

    /** `reinsert(child)`: `_remove` from the child's owner p, then `_reinsert` from p. */
    method Reinsert(child: RectId) returns (out: Outcome)
      requires Valid() && child < |rects|
      modifies this
      ensures Valid()
      ensures Pruned(old(nodes)) ==> Pruned(nodes)
      ensures var re := Reinserted(old(nodes), old(rects), child);
        && nodes == re.nodes
        && (re.outcome.Ok? ==> out == Pass && rects == Tagged(old(rects), child, re.outcome.value))
        && (re.outcome.Err? ==> out == Fail(re.outcome.error) && rects == old(rects))
    {
      assert Claims(nodes, rects, child);
      if Pruned(nodes) {
        ReinsertKeepsPruned(nodes, rects, child);
      }
      match rects[child].qtParent {
        case None =>
          out := Fail(NotInserted);
        case Some(p) =>
          out := RemoveFrom(p, child);
          if out.Pass? {
            out := ReinsertFrom(p, child);
          }
      }
    }

    /** `_reinsert(child)`: `_insert` here if the child fits, else ask the parent; at the root
        the climb fails. */
    method ReinsertFrom(t: NodeId, child: RectId) returns (out: Outcome)
      requires Valid() && t < |nodes| && child < |rects|
      modifies this
      ensures Valid()
      ensures match ClimbTarget(old(nodes), t, old(rects)[child].bounds)
        case None => out == Fail(DoesNotFit) && nodes == old(nodes) && rects == old(rects)
        case Some(a) =>
          var pl := Pushed(old(nodes), a, old(rects)[child].bounds, child);
          out == Pass && nodes == pl.nodes && rects == Tagged(old(rects), child, pl.owner)
      decreases t
    {
      if Fits(rects[child].bounds, nodes[t].bounds) {
        PushDown(t, child);
        out := Pass;
      } else if nodes[t].parent.None? {
        out := Fail(DoesNotFit);
      } else {
        out := ReinsertFrom(ParentOf(nodes, t), child);
      }
    }
  }
}
