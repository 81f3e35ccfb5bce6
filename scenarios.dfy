/** The insert, remove and reinsert scenarios of the repository's tests (tests/test_basic.py),
    stated on the model: a 1024 by 1024 root with depth budget d, one rectangle. */
module Scenarios {
  import opened Results
  import opened Geometry
  import opened Rectangles
  import opened Arena
  import opened Insertion
  import opened Removal

  // ---------------------------------------------------------------------------------------
  // Removing one of two equal rectangles

  /** Two distinct rectangles with equal bounds held by one node, the first ahead of the
      second: `remove` of the second takes the first out of the node, and the second stays. */
  lemma RemoveTakesTwin()
    ensures var b := Bounds(10.0, 10.0, 20.0, 20.0);
      var rs := [Rectangle(b, None, Some(0)), Rectangle(b, Some(7), Some(0))];
      var ns := [Node(Bounds(0.0, 0.0, 1000.0, 1000.0), 0, None, [], [0, 1])];
      && rs[0] != rs[1] && Equal(rs[0], rs[1])
      && WellFormed(ns) && Stored(ns, |rs|) && Claims(ns, rs, 1)
      && Removed(ns, rs, 1) == Ok([ns[0].(direct := [1])])
  {
    var b := Bounds(10.0, 10.0, 20.0, 20.0);
    var rs := [Rectangle(b, None, Some(0)), Rectangle(b, Some(7), Some(0))];
    var ns := [Node(Bounds(0.0, 0.0, 1000.0, 1000.0), 0, None, [], [0, 1])];
    assert WellFormed(ns) by { assert NodeOk(ns, 0); }
    assert IndexOfEqual(rs, ns[0].direct, b) == 0;
    assert Without(ns[0].direct, 0) == ns[0].direct[1..] == [1];
    var ms := WithDirect(ns, 0, [1]);
    assert ms == [ns[0].(direct := [1])];
    assert GetChildren(ms, 0) == [1];
  }

  // ---------------------------------------------------------------------------------------
  // Removing the only rectangle of a subtree

  /** `_remove` of the one rectangle a subtree s holds, from the node p that holds it, succeeds
      and leaves s an empty leaf: depth 0, one node. */
  lemma RemoveOnly(ns: seq<Node>, rs: seq<Rectangle>, p: NodeId, id: RectId, s: NodeId)
    requires WellFormed(ns) && p < |ns| && id < |rs| && Stored(ns, |rs|) && s < |ns|
    requires p in Reach(ns, s) && id in ns[p].direct && multiset(GetChildren(ns, s)) == multiset{id}
    ensures RemovedFrom(ns, rs, p, id).Ok?
    ensures var m := RemovedFrom(ns, rs, p, id).value;
      GetChildren(m, s) == [] && m[s].quadrants == [] && Depth(m, s) == 0 && NodeCount(m, s) == 1
  {
    RemoveFinds(ns, rs, p, id);
    RemovedChildren(ns, rs, p, id, s);
    var m := RemovedFrom(ns, rs, p, id).value;
    assert |multiset(GetChildren(m, s))| == 0;
    RemoveToEmpty(ns, rs, p, id, s);
  }

  /** Inserting a rectangle under a node whose subtree holds nothing and then removing it
      (through the `qt_parent` the insertion set) succeeds and leaves that node an empty leaf,
      even when it was split before: depth 0, one node (tests/test_basic.py:86-97). */
  lemma InsertThenRemove(ns: seq<Node>, rs: seq<Rectangle>, n: NodeId, id: RectId)
    requires WellFormed(ns) && n < |ns| && id < |rs| && Stored(ns, |rs|)
    requires GetChildren(ns, n) == []
    ensures var pl := Inserted(ns, rs, n, id); var ts := Tagged(rs, id, pl.owner);
      && Stored(pl.nodes, |ts|) && Claims(pl.nodes, ts, id)
      && Removed(pl.nodes, ts, id).Ok?
      && var m := Removed(pl.nodes, ts, id).value;
      GetChildren(m, n) == [] && m[n].quadrants == [] && Depth(m, n) == 0 && NodeCount(m, n) == 1
  {
    var pl := Inserted(ns, rs, n, id);
    var ts := Tagged(rs, id, pl.owner);
    InsertHolds(ns, rs, n, id);
    InsertAddsOne(ns, rs, n, id, n);
    RemoveOnly(pl.nodes, ts, pl.owner, id, n);
    assert Removed(pl.nodes, ts, id) == RemovedFrom(pl.nodes, ts, pl.owner, id);
  }

  /** The root of AppendedKeepsSplit: budget 1, holding rectangle 0, which lies outside it. */
  function OutsideRoot(): (ns: seq<Node>)
    ensures WellFormed(ns) && |ns| == 1 && ns[0].quadrants == [] && ns[0].direct == [0]
  {
    var ns := [Node(Bounds(0.0, 0.0, 1024.0, 1024.0), 1, None, [], [0])];
    assert NodeOk(ns, 0);
    ns
  }

  /** Rectangle 0 lies outside the root and is held there; rectangle 1 is new. */
  function OutsideRects(): seq<Rectangle> {
    [Rectangle(Bounds(2000.0, 2000.0, 2001.0, 2001.0), None, Some(0)),
     Rectangle(Bounds(1.0, 1.0, 2.0, 2.0), None, None)]
  }

  /** `insert` of rectangle 1 at that root splits it and appends the rectangle in quadrant 0,
      a leaf without budget. */
  lemma OutsideRootInsert()
    ensures OutsideRoot()[0].maxDepth == 1 && !Fits(OutsideRects()[0].bounds, OutsideRoot()[0].bounds)
    ensures var s := Subdivided(OutsideRoot(), 0);
      Inserted(OutsideRoot(), OutsideRects(), 0, 1) == Placement(Appended(s, 1, 1), 1)
  {
    var ns := OutsideRoot();
    var b := OutsideRects()[1].bounds;
    var s := Subdivided(ns, 0);
    assert MaybeSubdivided(ns, 0) == s;
    assert s[1].bounds == Bounds(0.0, 0.0, 512.0, 512.0);
    assert FirstFitting(s, s[0].quadrants, b) == 0;
    assert MaybeSubdivided(s, 1) == s;
    assert FirstFitting(s, s[1].quadrants, b) == 0;
  }

  /** `remove` of rectangle 1 from quadrant 0 of the split root: the cleanup clears the
      quadrant and stops at the root, which still holds rectangle 0. */
  lemma OutsideRootRemove()
    ensures var a := Appended(Subdivided(OutsideRoot(), 0), 1, 1); var ts := Tagged(OutsideRects(), 1, 1);
      && Stored(a, |ts|) && Claims(a, ts, 1) && Removed(a, ts, 1).Ok?
      && var m := Removed(a, ts, 1).value;
      GetChildren(m, 0) == [0] && Depth(m, 0) == 1 && NodeCount(m, 0) == 5
  {
    var s := Subdivided(OutsideRoot(), 0);
    var a := Appended(s, 1, 1);
    var ts := Tagged(OutsideRects(), 1, 1);
    AppendedStored(s, 1, 1, |ts|);
    assert a[1].direct == [1] && a[0] == s[0];
    assert IndexOfEqual(ts, a[1].direct, ts[1].bounds) == 0;
    assert Without(a[1].direct, 0) == [];
    var d := WithDirect(a, 1, []);
    assert GetChildren(d, 1) == [];
    var c := Cleared(d, 1);
    assert c[0] == d[0];
    assert ParentOf(c, 1) == 0;
    assert forall u | 1 <= u < 5 :: c[u].quadrants == [] && c[u].direct == [];
    assert GetChildren(c, 0) == [0];
    assert CleanedUp(d, 1) == c;
  }

  /** A root with budget 1 that holds a rectangle `insert` appended without splitting, because
      the rectangle lies outside it. Inserting a second rectangle that fits splits the root, and
      removing that one again stops the cleanup at the root, which still holds the first. The
      root keeps its four quadrants: depth 0 and one node before, depth 1 and five nodes after. */
  lemma AppendedKeepsSplit()
    ensures var ns := OutsideRoot(); var rs := OutsideRects();
      && Stored(ns, |rs|) && !Fits(rs[0].bounds, ns[0].bounds)
      && Depth(ns, 0) == 0 && NodeCount(ns, 0) == 1
      && var pl := Inserted(ns, rs, 0, 1); var ts := Tagged(rs, 1, pl.owner);
      && Stored(pl.nodes, |ts|) && Claims(pl.nodes, ts, 1) && Removed(pl.nodes, ts, 1).Ok?
      && var m := Removed(pl.nodes, ts, 1).value;
      GetChildren(m, 0) == [0] && Depth(m, 0) == 1 && NodeCount(m, 0) == 5
  {
    OutsideRootInsert();
    OutsideRootRemove();
  }

  /** The node `insert` on n picks lies in n's subtree and holds the rectangle. */
  lemma InsertHolds(ns: seq<Node>, rs: seq<Rectangle>, n: NodeId, id: RectId)
    requires WellFormed(ns) && n < |ns| && id < |rs|
    ensures var pl := Inserted(ns, rs, n, id);
      pl.owner in Reach(pl.nodes, n) && id in pl.nodes[pl.owner].direct
  {
    var pl := Inserted(ns, rs, n, id);
    InsertPlacement(ns, rs, n, id);
    var ds := pl.nodes[pl.owner].direct;
    assert ds[|ds| - 1] == id;
  }

  // ---------------------------------------------------------------------------------------
  // The test trees

  /** `Node(0, 0, 1024, 1024, d)`. */
  function TestRoot(d: nat): (r: Node)
    ensures MakeNode(0.0, 0.0, 1024.0, 1024.0, d, None) == Ok(r)
    ensures WellFormed([r]) && GetChildren([r], 0) == [] && Depth([r], 0) == 0 && NodeCount([r], 0) == 1
  {
    var r := Node(Square(0.0, 0.0, 1024.0), d, None, [], []);
    FreshTree(r);
    r
  }

  /** `Rectangle(x_min, y_min, x_max, y_max)` for well-ordered coordinates, not yet inserted. */
  function TestRect(b: Bounds): (r: Rectangle)
    requires Proper(b)
    ensures NewRectangle(b.xMin, b.yMin, b.xMax, b.yMax) == Ok(r)
  {
    Rectangle(b, None, None)
  }

  /** w halved k times stays above e when it does so halved more often. */
  lemma {:induction false} WithinFewer(e: real, w: real, k: nat, m: nat)
    requires e >= 0.0 && m <= k && Within(e, w, k)
    ensures Within(e, w, m)
    decreases m
  {
    if m == 0 {
      WithinBelow(e, w, k);
    } else {
      WithinFewer(e, w / 2.0, k - 1, m - 1);
    }
  }

  /** 0.002 is below 1024 / 2^18. */
  lemma TinyWithin(k: nat)
    requires k <= 18
    ensures Within(0.002, 1024.0, k)
  {
    assert Within(0.002, 0.00390625, 0);
    assert Within(0.002, 0.0078125, 1);
    assert Within(0.002, 0.015625, 2);
    assert Within(0.002, 0.03125, 3);
    assert Within(0.002, 0.0625, 4);
    assert Within(0.002, 0.125, 5);
    assert Within(0.002, 0.25, 6);
    assert Within(0.002, 0.5, 7);
    assert Within(0.002, 1.0, 8);
    assert Within(0.002, 2.0, 9);
    assert Within(0.002, 4.0, 10);
    assert Within(0.002, 8.0, 11);
    assert Within(0.002, 16.0, 12);
    assert Within(0.002, 32.0, 13);
    assert Within(0.002, 64.0, 14);
    assert Within(0.002, 128.0, 15);
    assert Within(0.002, 256.0, 16);
    assert Within(0.002, 512.0, 17);
    assert Within(0.002, 1024.0, 18);
    WithinFewer(0.002, 1024.0, 18, k);
  }
  // ---------------------------------------------------------------------------------------
  // Subdivision tests

  /** The rectangles of the corner test in the test's order: low-x/low-y, high-x/low-y,
      high-x/high-y, low-x/high-y. Each reaches 0.002 from its corner on both axes. */
  function CornerRect(c: nat): (b: Bounds)
    requires c < 4
    ensures Proper(b)
  {
    if c == 0 then Bounds(0.001, 0.001, 0.002, 0.002)
    else if c == 1 then Bounds(1023.998, 0.001, 1023.999, 0.002)
    else if c == 2 then Bounds(1023.998, 1023.998, 1023.999, 1023.999)
    else Bounds(0.001, 1023.998, 0.002, 1023.999)
  }

  /** The quadrant index of the corner the c-th rectangle of the corner test lies in. */
  function CornerOf(c: nat): (j: nat)
    requires c < 4
    ensures j < 4
  {
    if c == 2 then 3 else if c == 3 then 2 else c
  }

  /** tests/test_basic.py:37-57: a tiny rectangle in a corner of a fresh tree with budget d < 20
      makes `insert` split all the way down (depth d, 1 + 4d nodes); `remove` brings the tree
      back to depth 0 and one node. */
  lemma CornerTest(d: nat, c: nat)
    requires d < 20 && c < 4
    ensures var ns := [TestRoot(d)]; var rs := [TestRect(CornerRect(c))];
      var pl := Inserted(ns, rs, 0, 0); var ts := Tagged(rs, 0, pl.owner);
      && Depth(pl.nodes, 0) == d && NodeCount(pl.nodes, 0) == 1 + 4 * d
      && Stored(pl.nodes, |ts|) && Claims(pl.nodes, ts, 0)
      && Removed(pl.nodes, ts, 0).Ok?
      && Depth(Removed(pl.nodes, ts, 0).value, 0) == 0 && NodeCount(Removed(pl.nodes, ts, 0).value, 0) == 1
  {
    var ns := [TestRoot(d)];
    var rs := [TestRect(CornerRect(c))];
    CornerInserted(d, c);
    InsertThenRemove(ns, rs, 0, 0);
  }

  /** The insertion half of the corner test: one branch per level down to the budget. */
  lemma CornerInserted(d: nat, c: nat)
    requires d < 20 && c < 4
    ensures var pl := Inserted([TestRoot(d)], [TestRect(CornerRect(c))], 0, 0);
      Depth(pl.nodes, 0) == d && NodeCount(pl.nodes, 0) == 1 + 4 * d
  {
    var ns := [TestRoot(d)];
    var b := CornerRect(c);
    var rs := [TestRect(b)];
    CornerPlaced(d, c);
    assert Inserted(ns, rs, 0, 0) == Pushed(ns, 0, b, 0);
    CornerDescends(ns, 0, b, 0, 0.0, 0.0, 1024.0, CornerOf(c));
  }

  /** Each corner rectangle lies in the square and, for a budget below 20, close enough to
      its corner for every level of the descent. */
  lemma CornerPlaced(d: nat, c: nat)
    requires d < 20 && c < 4
    ensures Fits(CornerRect(c), Square(0.0, 0.0, 1024.0))
    ensures d > 0 ==> InCorner(CornerRect(c), 0.0, 0.0, 1024.0, CornerOf(c), d - 1)
  {
    var b, j := CornerRect(c), CornerOf(c);
    assert ExtentX(b, 0.0, 1024.0, j) == 0.002 && ExtentY(b, 0.0, 1024.0, j) == 0.002;
    if d > 0 {
      TinyWithin(d - 1);
    }
  }

  /** The rectangles of the border-crossing test, each across a midline of the 1024 square. */
  function CrossingRect(c: nat): (b: Bounds)
    requires c < 5
    ensures Proper(b)
  {
    if c == 0 then Bounds(511.0, 511.0, 513.0, 513.0)
    else if c == 1 then Bounds(20.0, 511.0, 22.0, 513.0)
    else if c == 2 then Bounds(720.0, 511.0, 722.0, 513.0)
    else if c == 3 then Bounds(511.0, 20.0, 513.0, 22.0)
    else Bounds(511.0, 720.0, 513.0, 722.0)
  }

  /** tests/test_basic.py:60-77: a rectangle across a midline of a fresh tree with budget
      0 < d < 20 splits the root once and stays in it: `get_children()` is that one rectangle,
      depth 1, five nodes. */
  lemma CrossingTest(d: nat, c: nat)
    requires 0 < d < 20 && c < 5
    ensures var pl := Inserted([TestRoot(d)], [TestRect(CrossingRect(c))], 0, 0);
      && pl.owner == 0 && GetChildren(pl.nodes, 0) == [0]
      && Depth(pl.nodes, 0) == 1 && NodeCount(pl.nodes, 0) == 5
  {
    var ns := [TestRoot(d)];
    var b := CrossingRect(c);
    var rs := [TestRect(b)];
    CrossingApart(c);
    assert Inserted(ns, rs, 0, 0) == Pushed(ns, 0, b, 0);
    CrossingStaysAtTop(ns, 0, b, 0);
    InsertAddsOne(ns, rs, 0, 0, 0);
    OnlyOne(GetChildren(Inserted(ns, rs, 0, 0).nodes, 0), 0);
  }

  /** Taking one x from both sides of a + {x} == {x, x}. */
  lemma Uncount(a: multiset<RectId>, x: RectId)
    requires a + multiset{x} == multiset{x} + multiset{x}
    ensures a == multiset{x}
  {
    forall y: RectId ensures a[y] == multiset{x}[y] {
      assert (a + multiset{x})[y] == a[y] + multiset{x}[y];
    }
  }

  /** Each crossing rectangle lies in the square but in none of its four cells. */
  lemma CrossingApart(c: nat)
    requires c < 5
    ensures Fits(CrossingRect(c), Square(0.0, 0.0, 1024.0))
    ensures forall i | 0 <= i < 4 :: !Fits(CrossingRect(c), Quadrant(Square(0.0, 0.0, 1024.0), i))
  {
    var sq := Square(0.0, 0.0, 1024.0);
    assert Quadrant(sq, 0) == Bounds(0.0, 0.0, 512.0, 512.0);
    assert Quadrant(sq, 1) == Bounds(512.0, 0.0, 1024.0, 512.0);
    assert Quadrant(sq, 2) == Bounds(0.0, 512.0, 512.0, 1024.0);
    assert Quadrant(sq, 3) == Bounds(512.0, 512.0, 1024.0, 1024.0);
  }

  /** The only sequence whose multiset is {x} is [x]. */
  lemma OnlyOne(s: seq<RectId>, x: RectId)
    requires multiset(s) == multiset{x}
    ensures s == [x]
  {
    assert |s| == |multiset(s)| == 1;
    assert s[0] in multiset(s);
  }
  // ---------------------------------------------------------------------------------------
  // Reinsert tests

  /** `_insert` into a leaf with budget left of a rectangle that fits its first cell splits the
      leaf and leaves the rectangle under the first quadrant. */
  lemma FirstQuadrantOwner(ns: seq<Node>, n: NodeId, b: Bounds, id: RectId)
    requires WellFormed(ns) && n < |ns| && ns[n].quadrants == [] && ns[n].maxDepth > 0
    requires Fits(b, Quadrant(ns[n].bounds, 0))
    ensures var r := Pushed(ns, n, b, id);
      && r.nodes[n].quadrants != [] && r.owner in Reach(r.nodes, Quad(r.nodes, n, 0))
      && Fits(b, r.nodes[r.owner].bounds)
  {
    var ms := MaybeSubdivided(ns, n);
    QuadsAllocated(ms, n);
    assert NodeOk(ms, n);
    var q := Quad(ms, n, 0);
    assert FirstFitting(ms, ms[n].quadrants, b) == 0;
    assert Pushed(ns, n, b, id) == Pushed(ms, q, b, id);
    PushedOwner(ms, q, b, id);
    PushedFrame(ms, q, b, id);
    var r := Pushed(ms, q, b, id).nodes;
    assert r[n] == ms[n];
    assert Quad(r, n, 0) == q;
  }

  /** The climb from a node t under root 0's first quadrant, in an arena ms with the same
      links and bounds, for bounds b that fit the root but not its first cell, stops at the root. */
  lemma ClimbToRoot(ns: seq<Node>, ms: seq<Node>, t: NodeId, b: Bounds)
    requires WellFormed(ns) && WellFormed(ms) && |ms| == |ns| && Preserves(ns, ms)
    requires 0 < |ns| && ns[0].parent == None && ns[0].quadrants != []
    requires t in Reach(ns, Quad(ns, 0, 0))
    requires Fits(b, ns[0].bounds) && !Fits(b, Quadrant(ns[0].bounds, 0))
    ensures ClimbTarget(ms, t, b) == Some(0)
  {
    var q := Quad(ns, 0, 0);
    QuadInReach(ns, 0, 0);
    ReachTransitive(ns, 0, q, t);
    ReachChain(ns, 0, t);
    ChainKept(ns, ms, t, 0);
    var r := ClimbTarget(ms, t, b);
    if r.Some? && r.value != 0 {
      var a := r.value;
      ChainKept(ns, ms, t, a);
      if q <= a {
        ChainInReach(ns, q, t, a);
        ReachFits(ns, q, a);
        FitsTransitive(b, ns[a].bounds, ns[q].bounds);
      } else {
        ReachChain(ns, q, t);
        ChainLinear(ns, t, a, q);
      }
      assert false;
    }
  }

  /** Inserting into the fresh test tree a rectangle that fits the first cell of the root
      splits the root and puts the rectangle under its first quadrant, as the only rectangle. */
  lemma FirstCellInsert(d: nat, b: Bounds)
    requires d > 0 && Proper(b) && Fits(b, Bounds(0.0, 0.0, 512.0, 512.0))
    ensures var pl := Inserted([TestRoot(d)], [TestRect(b)], 0, 0);
      && Stored(pl.nodes, 1) && |pl.nodes| > 0
      && pl.nodes[0].parent == None && pl.nodes[0].bounds == Square(0.0, 0.0, 1024.0)
      && pl.nodes[0].maxDepth == d && pl.nodes[0].quadrants != []
      && pl.owner in Reach(pl.nodes, Quad(pl.nodes, 0, 0)) && 0 in pl.nodes[pl.owner].direct
      && Fits(b, pl.nodes[pl.owner].bounds)
      && multiset(GetChildren(pl.nodes, 0)) == multiset{0}
  {
    var ns := [TestRoot(d)];
    var rs := [TestRect(b)];
    assert Quadrant(ns[0].bounds, 0) == Bounds(0.0, 0.0, 512.0, 512.0);
    assert Inserted(ns, rs, 0, 0) == Pushed(ns, 0, b, 0);
    FirstQuadrantOwner(ns, 0, b, 0);
    InsertHolds(ns, rs, 0, 0);
    InsertAddsOne(ns, rs, 0, 0, 0);
  }

  /** tests/test_basic.py:156-176, as the code behaves: after the corner insertion with budget
      0 < d < 20, `reinsert` with unchanged bounds reports success, but `_remove` has pruned the
      root's whole subtree and the climb stops at the old owner, now cut off: the child is kept
      there while the root is a bare leaf of depth 0 and one node, where the test expects depth
      d and 1 + 4d nodes. */
  lemma ReinsertSamePlace(d: nat)
    requires 0 < d < 20
    ensures var ns := [TestRoot(d)]; var rs := [TestRect(CornerRect(0))];
      var pl := Inserted(ns, rs, 0, 0); var ts := Tagged(rs, 0, pl.owner);
      && Stored(pl.nodes, |ts|) && Claims(pl.nodes, ts, 0)
      && var re := Reinserted(pl.nodes, ts, 0);
      && re.outcome.Ok? && re.outcome.value != 0 && 0 in re.nodes[re.outcome.value].direct
      && re.nodes[0].quadrants == [] && GetChildren(re.nodes, 0) == []
      && Depth(re.nodes, 0) == 0 && NodeCount(re.nodes, 0) == 1
  {
    var ns := [TestRoot(d)];
    var b := CornerRect(0);
    var rs := [TestRect(b)];
    var pl := Inserted(ns, rs, 0, 0);
    var ts := Tagged(rs, 0, pl.owner);
    assert b == Bounds(0.001, 0.001, 0.002, 0.002);
    assert Quadrant(ns[0].bounds, 0) == Bounds(0.0, 0.0, 512.0, 512.0);
    assert pl == Pushed(ns, 0, b, 0);
    FirstQuadrantOwner(ns, 0, b, 0);
    InsertThenRemove(ns, rs, 0, 0);
    var p := pl.owner;
    var ms := RemovedFrom(pl.nodes, ts, p, 0).value;
    assert ClimbTarget(ms, p, b) == Some(p);
    PushedOwner(ms, p, b, 0);
    ReinsertMayDetach(pl.nodes, ts, 0, 0);
  }

  /** `reinsert` of the only rectangle of a tree with root 0, owned under the root's first
      quadrant and moved to bounds that fit the root but not that quadrant: `_remove` prunes the
      tree back to the bare root, the climb reaches the root, and the rectangle is inserted
      there again as into an empty tree. */
  lemma ReinsertThroughRoot(ns: seq<Node>, rs: seq<Rectangle>, id: RectId)
    requires WellFormed(ns) && id < |rs| && Stored(ns, |rs|) && Claims(ns, rs, id)
    requires 0 < |ns| && ns[0].parent == None && ns[0].quadrants != []
    requires rs[id].qtParent.Some? && rs[id].qtParent.value in Reach(ns, Quad(ns, 0, 0))
    requires id in ns[rs[id].qtParent.value].direct && multiset(GetChildren(ns, 0)) == multiset{id}
    requires Fits(rs[id].bounds, ns[0].bounds) && !Fits(rs[id].bounds, Quadrant(ns[0].bounds, 0))
    ensures RemovedFrom(ns, rs, rs[id].qtParent.value, id).Ok?
    ensures var ms := RemovedFrom(ns, rs, rs[id].qtParent.value, id).value;
      var re := Reinserted(ns, rs, id);
      && ms[0].quadrants == [] && re.outcome.Ok?
      && re.nodes == Pushed(ms, 0, rs[id].bounds, id).nodes
      && GetChildren(re.nodes, 0) == [id]
  {
    var p := rs[id].qtParent.value;
    QuadInReach(ns, 0, 0);
    ReachTransitive(ns, 0, Quad(ns, 0, 0), p);
    RemoveOnly(ns, rs, p, id, 0);
    var ms := RemovedFrom(ns, rs, p, id).value;
    ClimbToRoot(ns, ms, p, rs[id].bounds);
    var pl := Pushed(ms, 0, rs[id].bounds, id);
    PushedOwner(ms, 0, rs[id].bounds, id);
    assert Reinserted(ns, rs, id) == Reinsertion(pl.nodes, Ok(pl.owner));
    assert ReinsertTarget(ns, rs, id) == 0;
    ReinsertKeepsChildren(ns, rs, id, 0);
    RemovedOnly(ns, rs, p, id);
    var g := GetChildren(Reinserted(ns, rs, id).nodes, 0);
    Uncount(multiset(g), id);
    OnlyOne(g, id);
  }

  /** Moving the only rectangle id of a tree, owned by p under the root's first quadrant, to
      bounds b that stay in corner j of the square root (but outside its first cell) for the
      whole budget d, and then calling `reinsert`, grows the tree back to depth d. */
  lemma MovedReinsert(ns: seq<Node>, rs: seq<Rectangle>, id: RectId, p: NodeId, b: Bounds, d: nat,
                      x0: real, y0: real, w: real, j: nat)
    requires WellFormed(ns) && id < |rs| && Stored(ns, |rs|) && p < |ns| && rs[id].qtParent == Some(p)
    requires 0 < |ns| && ns[0].parent == None && ns[0].quadrants != [] && j < 4
    requires p in Reach(ns, Quad(ns, 0, 0)) && id in ns[p].direct
    requires multiset(GetChildren(ns, 0)) == multiset{id}
    requires ns[0].bounds == Square(x0, y0, w) && ns[0].maxDepth == d
    requires Fits(b, Square(x0, y0, w)) && !Fits(b, Quadrant(Square(x0, y0, w), 0))
    requires d > 0 ==> InCorner(b, x0, y0, w, j, d - 1)
    ensures var ts := rs[id := rs[id].(bounds := b)];
      && Stored(ns, |ts|) && Claims(ns, ts, id)
      && var re := Reinserted(ns, ts, id);
      && re.outcome.Ok? && GetChildren(re.nodes, 0) == [id]
      && Depth(re.nodes, 0) == d && NodeCount(re.nodes, 0) == 1 + 4 * d
  {
    var ts := rs[id := rs[id].(bounds := b)];
    ReinsertThroughRoot(ns, ts, id);
    var ms := RemovedFrom(ns, ts, p, id).value;
    RegrowRoot(ns, ms, b, id, d, x0, y0, w, j);
  }

  /** CornerDescends at the root of an arena with the same root bounds and budget. */
  lemma RegrowRoot(ns: seq<Node>, ms: seq<Node>, b: Bounds, id: RectId, d: nat,
                   x0: real, y0: real, w: real, j: nat)
    requires WellFormed(ns) && WellFormed(ms) && 0 < |ns| <= |ms| && Preserves(ns, ms) && j < 4
    requires ms[0].quadrants == [] && ns[0].bounds == Square(x0, y0, w) && ns[0].maxDepth == d
    requires d > 0 ==> InCorner(b, x0, y0, w, j, d - 1)
    ensures Depth(Pushed(ms, 0, b, id).nodes, 0) == d
    ensures NodeCount(Pushed(ms, 0, b, id).nodes, 0) == 1 + 4 * d
  {
    CornerDescends(ms, 0, b, id, x0, y0, w, j);
  }

  /** In a tree whose only stored rectangle is id, `_remove` can only take out id itself. */
  lemma RemovedOnly(ns: seq<Node>, rs: seq<Rectangle>, p: NodeId, id: RectId)
    requires WellFormed(ns) && p < |ns| && id < |rs| && Stored(ns, |rs|)
    requires 0 < |ns| && p in Reach(ns, 0) && multiset(GetChildren(ns, 0)) == multiset{id}
    requires RemovedFrom(ns, rs, p, id).Ok?
    ensures RemovedId(ns, rs, p, id) == id
  {
    var e := RemovedId(ns, rs, p, id);
    OwnerInChildren(ns, 0, p, e);
  }

  /** The far-corner rectangle lies in the square but not in its first cell. */
  lemma FarCorner()
    ensures var b, sq := CornerRect(2), Square(0.0, 0.0, 1024.0);
      Fits(b, sq) && !Fits(b, Quadrant(sq, 0))
  {
    assert Quadrant(Square(0.0, 0.0, 1024.0), 0) == Bounds(0.0, 0.0, 512.0, 512.0);
  }

  /** tests/test_basic.py:178-202: after inserting (0.01, 0.01, 0.02, 0.02) with budget
      0 < d < 20, moving the rectangle to the far corner and calling `reinsert` climbs to the
      root and descends again: the tree still holds just that rectangle, with depth d and
      1 + 4d nodes. */
  lemma ReinsertElsewhere(d: nat)
    requires 0 < d < 20
    ensures var ns := [TestRoot(d)]; var rs := [TestRect(Bounds(0.01, 0.01, 0.02, 0.02))];
      var pl := Inserted(ns, rs, 0, 0); var tagged := Tagged(rs, 0, pl.owner);
      var ts := tagged[0 := tagged[0].(bounds := CornerRect(2))];
      && Stored(pl.nodes, |ts|) && Claims(pl.nodes, ts, 0)
      && var re := Reinserted(pl.nodes, ts, 0);
      && re.outcome.Ok? && GetChildren(re.nodes, 0) == [0]
      && Depth(re.nodes, 0) == d && NodeCount(re.nodes, 0) == 1 + 4 * d
  {
    var ns := [TestRoot(d)];
    var b1, b2 := Bounds(0.01, 0.01, 0.02, 0.02), CornerRect(2);
    var rs := [TestRect(b1)];
    var pl := Inserted(ns, rs, 0, 0);
    var tagged := Tagged(rs, 0, pl.owner);
    FirstCellInsert(d, b1);
    CornerPlaced(d, 2);
    FarCorner();
    MovedReinsert(pl.nodes, tagged, 0, pl.owner, b2, d, 0.0, 0.0, 1024.0, CornerOf(2));
  }
}
