/** Node construction, `subdivide`, `_insert` and `insert` of quadpy/quadtree.py as pure
    transitions of the arena, with what they guarantee about the stored rectangles. */
module Insertion {
  import opened Results
  import opened Geometry
  import opened Rectangles
  import opened Arena
  import opened Queries

  /** The depth budget `Node` gives a tree when the caller names none. */
  const DefaultMaxDepth: int := 4

  /** `Node(x_min, y_min, x_max, y_max, max_depth, parent)`: x is checked before y, y before the
      depth budget; a new node has no quadrants and no direct children. */
  function MakeNode(xMin: real, yMin: real, xMax: real, yMax: real, maxDepth: int,
                    parent: Option<NodeId>): (r: Result<Node>)
    ensures r.Ok? <==> xMin <= xMax && yMin <= yMax && maxDepth >= 0
    ensures xMin > xMax ==> r == Err(XMinAboveXMax)
    ensures xMin <= xMax && yMin > yMax ==> r == Err(YMinAboveYMax)
    ensures xMin <= xMax && yMin <= yMax && maxDepth < 0 ==> r == Err(NegativeDepth)
    ensures r.Ok? ==> r.value.bounds == Bounds(xMin, yMin, xMax, yMax) && Proper(r.value.bounds)
    ensures r.Ok? ==> r.value.maxDepth == maxDepth && r.value.parent == parent
    ensures r.Ok? ==> r.value.quadrants == [] && r.value.direct == []
  {
    if xMin > xMax then Err(XMinAboveXMax)
    else if yMin > yMax then Err(YMinAboveYMax)
    else if maxDepth < 0 then Err(NegativeDepth)
    else Ok(Node(Bounds(xMin, yMin, xMax, yMax), maxDepth, parent, [], []))
  }

  /** A fresh tree of one node is well formed, holds nothing, has depth 0 and one node. */
  lemma FreshTree(nd: Node)
    requires nd.maxDepth >= 0 && Proper(nd.bounds) && nd.parent == None
    requires nd.quadrants == [] && nd.direct == []
    ensures WellFormed([nd]) && Pruned([nd])
    ensures GetChildren([nd], 0) == [] && Depth([nd], 0) == 0 && NodeCount([nd], 0) == 1
  {
    assert NodeOk([nd], 0);
  }

  /** Allocating a fresh node whose parent (if any) already exists keeps the arena well formed
      and changes no subtree of the old nodes. */
  lemma {:induction false} Allocated(ns: seq<Node>, nd: Node)
    requires WellFormed(ns) && nd.maxDepth >= 0 && Proper(nd.bounds) && nd.quadrants == []
    requires nd.parent.Some? ==> nd.parent.value < |ns|
    ensures WellFormed(ns + [nd]) && Preserves(ns, ns + [nd])
    ensures forall s | 0 <= s < |ns| :: GetChildren(ns + [nd], s) == GetChildren(ns, s)
  {
    var r := ns + [nd];
    forall u | 0 <= u < |r| ensures NodeOk(r, u) {
      if u < |ns| {
        assert NodeOk(ns, u);
        if ns[u].quadrants != [] {
          forall i | 0 <= i < 4 ensures ChildOk(r, u, i) {
            assert ChildOk(ns, u, i);
          }
        }
      }
    }
    forall s | 0 <= s < |ns| ensures GetChildren(r, s) == GetChildren(ns, s) {
      ReachFrame(ns, r, s);
    }
  }

  /** The i-th new quadrant of node nd (id n): cell i of its bounds, one level down. */
  function Cell(nd: Node, n: NodeId, i: nat): Node
    requires i < 4
  {
    Node(Quadrant(nd.bounds, i), nd.maxDepth - 1, Some(n), [], [])
  }

  /** The arena with four new leaves allocated at the end as n's quadrants. */
  function Split(ns: seq<Node>, n: NodeId): seq<Node>
    requires n < |ns|
  {
    var nd := ns[n];
    ns[n := nd.(quadrants := Quads(|ns|))] + [Cell(nd, n, 0), Cell(nd, n, 1), Cell(nd, n, 2), Cell(nd, n, 3)]
  }

  lemma {:induction false} SplitWellFormed(ns: seq<Node>, n: NodeId)
    requires WellFormed(ns) && n < |ns| && ns[n].maxDepth > 0
    ensures WellFormed(Split(ns, n)) && Preserves(ns, Split(ns, n))
    ensures |Split(ns, n)| == |ns| + 4 && Split(ns, n)[n].quadrants == Quads(|ns|)
    ensures forall u | |ns| <= u < |ns| + 4 ::
      var c := Split(ns, n)[u];
      c.bounds == Quadrant(ns[n].bounds, u - |ns|) && c.maxDepth == ns[n].maxDepth - 1 &&
      c.parent == Some(n) && c.quadrants == [] && c.direct == []
    ensures forall u | 0 <= u < |ns| && u != n :: Split(ns, n)[u] == ns[u]
  {
    var r := Split(ns, n);
    var k := |ns|;
    forall u | 0 <= u < |r| ensures NodeOk(r, u) {
      if u < k && u != n {
        assert NodeOk(ns, u);
        if ns[u].quadrants != [] {
          forall i | 0 <= i < 4 ensures ChildOk(r, u, i) {
            assert ChildOk(ns, u, i);
          }
        }
      } else if u == n {
        assert NodeOk(ns, n);
        forall i | 0 <= i < 4 ensures ChildOk(r, n, i) {
          assert r[k + i] == Cell(ns[n], n, i);
        }
      } else {
        assert r[u] == Cell(ns[n], n, u - k) && NodeOk(ns, n);
        QuadrantInside(ns[n].bounds, u - k);
      }
    }
  }

  /** `subdivide` on a node with budget left: four empty leaves, each the corresponding cell of
      n's bounds one budget level down and parented to n, are appended and replace n's quadrants;
      nothing else changes. */
  function Subdivided(ns: seq<Node>, n: NodeId): (r: seq<Node>)
    requires WellFormed(ns) && n < |ns| && ns[n].maxDepth > 0
    ensures WellFormed(r) && Preserves(ns, r)
    ensures |r| == |ns| + 4 && r[n].quadrants == Quads(|ns|) && r[n].direct == ns[n].direct
    ensures forall u | |ns| <= u < |ns| + 4 ::
      r[u].bounds == Quadrant(ns[n].bounds, u - |ns|) && r[u].maxDepth == ns[n].maxDepth - 1 &&
      r[u].parent == Some(n) && r[u].quadrants == [] && r[u].direct == []
    ensures forall u | 0 <= u < |ns| && u != n :: r[u] == ns[u]
  {
    SplitWellFormed(ns, n);
    Split(ns, n)
  }

  /** The "subdivide in any case" step of `_insert`: only a leaf with budget left is split. */
  function MaybeSubdivided(ns: seq<Node>, n: NodeId): (r: seq<Node>)
    requires WellFormed(ns) && n < |ns|
    ensures WellFormed(r) && Preserves(ns, r)
    ensures r[n].quadrants == [] <==> ns[n].quadrants == [] && ns[n].maxDepth == 0
    ensures forall u | 0 <= u < |ns| && u != n :: r[u] == ns[u]
    ensures r[n].direct == ns[n].direct
    ensures ns[n].quadrants == [] && ns[n].maxDepth > 0 ==> r == Subdivided(ns, n)
    ensures !(ns[n].quadrants == [] && ns[n].maxDepth > 0) ==> r == ns
  {
    assert NodeOk(ns, n);
    if ns[n].quadrants == [] && ns[n].maxDepth > 0 then
      Subdivided(ns, n)
    else
      ns
  }

  /** The loop of `_insert`: the index of the first candidate whose bounds b fits in, or |qs|. */
  function FirstFitting(ns: seq<Node>, qs: seq<NodeId>, b: Bounds): (i: nat)
    requires forall j | 0 <= j < |qs| :: qs[j] < |ns|
    ensures i <= |qs|
    ensures i < |qs| ==> Fits(b, ns[qs[i]].bounds)
    ensures forall j | 0 <= j < i :: !Fits(b, ns[qs[j]].bounds)
  {
    if qs == [] then 0
    else if Fits(b, ns[qs[0]].bounds) then 0
    else 1 + FirstFitting(ns, qs[1..], b)
  }

  /** `direct_children.append(child)` on node n. */
  function Appended(ns: seq<Node>, n: NodeId, id: RectId): (r: seq<Node>)
    requires WellFormed(ns) && n < |ns|
    ensures WellFormed(r) && |r| == |ns| && Preserves(ns, r)
  {
    WithDirect(ns, n, ns[n].direct + [id])
  }

  /** The arena after an insertion and the node that took the rectangle (its new `qt_parent`). */
  datatype Placement = Placement(nodes: seq<Node>, owner: NodeId)

  /** `_insert(child)` on node n for a rectangle `id` with bounds b. */
  function Pushed(ns: seq<Node>, n: NodeId, b: Bounds, id: RectId): (r: Placement)
    requires WellFormed(ns) && n < |ns|
    ensures WellFormed(r.nodes) && Preserves(ns, r.nodes) && r.owner < |r.nodes|
    decreases ns[n].maxDepth
  {
    var ms := MaybeSubdivided(ns, n);
    QuadsAllocated(ms, n);
    assert NodeOk(ms, n);
    var i := FirstFitting(ms, ms[n].quadrants, b);
    if i < |ms[n].quadrants| then Pushed(ms, Quad(ms, n, i), b, id)
    else Placement(Appended(ms, n, id), n)
  }

  /** `insert(child)` on node n: the subdividing descent when the rectangle fits n,
      otherwise a plain append to n's direct children. */
  function Inserted(ns: seq<Node>, rs: seq<Rectangle>, n: NodeId, id: RectId): (r: Placement)
    requires WellFormed(ns) && n < |ns| && id < |rs|
    ensures WellFormed(r.nodes) && Preserves(ns, r.nodes) && r.owner < |r.nodes|
    ensures Stored(ns, |rs|) ==> Stored(r.nodes, |rs|)
  {
    if Fits(rs[id].bounds, ns[n].bounds) then
      PushedStored(ns, n, rs[id].bounds, id, |rs|);
      Pushed(ns, n, rs[id].bounds, id)
    else
      AppendedStored(ns, n, id, |rs|);
      Placement(Appended(ns, n, id), n)
  }

  /** The rectangle heap after an insertion: the rectangle's `qt_parent` is its owner. */
  function Tagged(rs: seq<Rectangle>, id: RectId, owner: NodeId): (r: seq<Rectangle>)
    requires id < |rs|
    ensures |r| == |rs| && r[id].qtParent == Some(owner)
    ensures forall x | 0 <= x < |rs| :: r[x].bounds == rs[x].bounds && r[x].qtData == rs[x].qtData
    ensures forall x | 0 <= x < |rs| && x != id :: r[x] == rs[x]
  {
    rs[id := rs[id].(qtParent := Some(owner))]
  }

  /** Every subdivided node holds at least one rectangle: `_try_cleanup` prunes the others. */
  predicate Pruned(ns: seq<Node>)
    requires WellFormed(ns)
  {
    forall t | 0 <= t < |ns| :: ns[t].quadrants != [] ==> GetChildren(ns, t) != []
  }

  // ---------------------------------------------------------------------------------------
  // Subdivision and appending

  /** Subdividing a leaf adds no rectangle anywhere and only grows subtrees. */
  lemma {:induction false} SubdividedKeeps(ns: seq<Node>, n: NodeId, s: NodeId)
    requires WellFormed(ns) && n < |ns| && ns[n].maxDepth > 0 && ns[n].quadrants == [] && s < |ns|
    ensures WellFormed(Subdivided(ns, n))
    ensures GetChildren(Subdivided(ns, n), s) == GetChildren(ns, s)
    ensures Reach(ns, s) <= Reach(Subdivided(ns, n), s)
    decreases ns[s].maxDepth
  {
    var r := Subdivided(ns, n);
    var k := |ns|;
    if s == n {
      assert Quad(r, n, 0) == k && Quad(r, n, 1) == k + 1 && Quad(r, n, 2) == k + 2 && Quad(r, n, 3) == k + 3;
      assert GetChildren(r, k) == [] && GetChildren(r, k + 1) == [] && GetChildren(r, k + 2) == [];
      assert GetChildren(r, k + 3) == [];
    } else if ns[s].quadrants != [] {
      forall i | 0 <= i < 4
        ensures Quad(r, s, i) == Quad(ns, s, i)
        ensures GetChildren(r, Quad(ns, s, i)) == GetChildren(ns, Quad(ns, s, i))
        ensures Reach(ns, Quad(ns, s, i)) <= Reach(r, Quad(ns, s, i))
      {
        SubdividedKeeps(ns, n, Quad(ns, s, i));
      }
    }
  }

  /** Appending to n adds exactly that one rectangle to every subtree holding n and to no other. */
  lemma {:induction false} AppendedChildren(ns: seq<Node>, n: NodeId, id: RectId, s: NodeId)
    requires WellFormed(ns) && n < |ns| && s < |ns|
    ensures Reach(Appended(ns, n, id), s) == Reach(ns, s)
    ensures n in Reach(ns, s) ==>
      multiset(GetChildren(Appended(ns, n, id), s)) == multiset(GetChildren(ns, s)) + multiset{id}
    ensures n !in Reach(ns, s) ==> GetChildren(Appended(ns, n, id), s) == GetChildren(ns, s)
  {
    DirectReplaced(ns, n, ns[n].direct + [id], s);
    if n in Reach(ns, s) {
      assert multiset(ns[n].direct + [id]) == multiset(ns[n].direct) + multiset{id};
      Cancel(multiset(GetChildren(Appended(ns, n, id), s)), multiset(GetChildren(ns, s)),
             multiset(ns[n].direct), multiset{id});
    }
  }

  // ---------------------------------------------------------------------------------------
  // The descent of `_insert`

  /** `_insert` on n changes no node outside n's subtree (new nodes aside). */
  lemma {:induction false} PushedFrame(ns: seq<Node>, n: NodeId, b: Bounds, id: RectId)
    requires WellFormed(ns) && n < |ns|
    ensures forall u | 0 <= u < |ns| && u !in Reach(ns, n) :: Pushed(ns, n, b, id).nodes[u] == ns[u]
    decreases ns[n].maxDepth
  {
    var ms := MaybeSubdivided(ns, n);
    QuadsAllocated(ms, n);
    assert NodeOk(ms, n);
    var i := FirstFitting(ms, ms[n].quadrants, b);
    var r := Pushed(ns, n, b, id).nodes;
    if i < |ms[n].quadrants| {
      var q := Quad(ms, n, i);
      PushedFrame(ms, q, b, id);
      assert r == Pushed(ms, q, b, id).nodes;
      if ms == ns {
        QuadInReach(ns, n, i);
      } else {
        assert q >= |ns|;
      }
    } else {
      assert r == Appended(ms, n, id);
    }
  }

  /** Where `_insert` on n leaves the rectangle: a node of n's subtree, appended to that node's
      previous direct children, inside b's container chain (b fits it whenever b fits n), either
      out of budget or with no quadrant b fits in. */
  lemma {:induction false} PushedOwner(ns: seq<Node>, n: NodeId, b: Bounds, id: RectId)
    requires WellFormed(ns) && n < |ns|
    ensures var r := Pushed(ns, n, b, id);
      && r.owner in Reach(r.nodes, n)
      && r.nodes[r.owner].direct == (if r.owner < |ns| then ns[r.owner].direct else []) + [id]
      && (Fits(b, ns[n].bounds) ==> Fits(b, r.nodes[r.owner].bounds))
      && (r.nodes[r.owner].quadrants == [] ==> r.nodes[r.owner].maxDepth == 0)
      && (r.nodes[r.owner].quadrants != [] ==>
            forall i | 0 <= i < 4 :: !Fits(b, r.nodes[Quad(r.nodes, r.owner, i)].bounds))
    decreases ns[n].maxDepth
  {
    var r := Pushed(ns, n, b, id);
    var ms := MaybeSubdivided(ns, n);
    QuadsAllocated(ms, n);
    assert NodeOk(ms, n);
    var i := FirstFitting(ms, ms[n].quadrants, b);
    if i < |ms[n].quadrants| {
      var q := Quad(ms, n, i);
      assert r == Pushed(ms, q, b, id);
      PushedOwner(ms, q, b, id);
      PushedFrame(ms, q, b, id);
      assert r.nodes[n] == ms[n];
      assert Quad(r.nodes, n, i) == q;
      QuadInReach(r.nodes, n, i);
      var o := r.owner;
      assert (if o < |ms| then ms[o].direct else []) == (if o < |ns| then ns[o].direct else []);
    } else {
      assert r == Placement(Appended(ms, n, id), n);
      assert r.nodes[n].quadrants == ms[n].quadrants;
      if ms[n].quadrants != [] {
        forall j | 0 <= j < 4 ensures !Fits(b, r.nodes[Quad(r.nodes, n, j)].bounds) {
          assert Quad(r.nodes, n, j) == Quad(ms, n, j);
        }
      }
    }
  }

  /** `_insert` on n adds exactly the one rectangle to every subtree that holds n. */
  lemma {:induction false} PushedChildren(ns: seq<Node>, n: NodeId, b: Bounds, id: RectId, s: NodeId)
    requires WellFormed(ns) && n < |ns| && s < |ns| && n in Reach(ns, s)
    ensures multiset(GetChildren(Pushed(ns, n, b, id).nodes, s)) == multiset(GetChildren(ns, s)) + multiset{id}
    decreases ns[n].maxDepth
  {
    var ms := MaybeSubdivided(ns, n);
    QuadsAllocated(ms, n);
    assert NodeOk(ms, n);
    if ms != ns {
      SubdividedKeeps(ns, n, s);
    }
    assert GetChildren(ms, s) == GetChildren(ns, s) && n in Reach(ms, s);
    var i := FirstFitting(ms, ms[n].quadrants, b);
    if i < |ms[n].quadrants| {
      var q := Quad(ms, n, i);
      QuadInReach(ms, n, i);
      ReachTransitive(ms, s, n, q);
      PushedChildren(ms, q, b, id, s);
    } else {
      AppendedChildren(ms, n, id, s);
    }
  }

  /** `_insert` never loses a rectangle from any subtree. */
  lemma {:induction false} PushedGrows(ns: seq<Node>, n: NodeId, b: Bounds, id: RectId, t: NodeId)
    requires WellFormed(ns) && n < |ns| && t < |ns|
    ensures multiset(GetChildren(ns, t)) <= multiset(GetChildren(Pushed(ns, n, b, id).nodes, t))
    decreases ns[n].maxDepth
  {
    var ms := MaybeSubdivided(ns, n);
    QuadsAllocated(ms, n);
    assert NodeOk(ms, n);
    if ms != ns {
      SubdividedKeeps(ns, n, t);
    }
    var i := FirstFitting(ms, ms[n].quadrants, b);
    if i < |ms[n].quadrants| {
      PushedGrows(ms, Quad(ms, n, i), b, id, t);
    } else {
      AppendedChildren(ms, n, id, t);
    }
  }

  /** Every node `_insert` subdivides ends up holding the inserted rectangle. */
  lemma {:induction false} PushedSubdividesForIt(ns: seq<Node>, n: NodeId, b: Bounds, id: RectId, t: NodeId)
    requires WellFormed(ns) && n < |ns|
    requires t < |Pushed(ns, n, b, id).nodes| && Pushed(ns, n, b, id).nodes[t].quadrants != []
    requires t >= |ns| || ns[t].quadrants == []
    ensures id in GetChildren(Pushed(ns, n, b, id).nodes, t)
    decreases ns[n].maxDepth
  {
    var r := Pushed(ns, n, b, id);
    var ms := MaybeSubdivided(ns, n);
    QuadsAllocated(ms, n);
    assert NodeOk(ms, n);
    var i := FirstFitting(ms, ms[n].quadrants, b);
    if i < |ms[n].quadrants| {
      var q := Quad(ms, n, i);
      if t == n {
        PushedOwner(ns, n, b, id);
        OwnerInChildren(r.nodes, n, r.owner, id);
      } else {
        PushedSubdividesForIt(ms, q, b, id, t);
      }
    } else {
      assert t == n;
      OwnerInChildren(r.nodes, n, n, id);
    }
  }

  /** Appending an allocated rectangle id keeps every stored id allocated. */
  lemma AppendedStored(ns: seq<Node>, n: NodeId, id: RectId, count: nat)
    requires WellFormed(ns) && n < |ns| && id < count
    ensures Stored(ns, count) ==> Stored(Appended(ns, n, id), count)
  {
    var r := Appended(ns, n, id);
    forall t, j | 0 <= t < |r| && 0 <= j < |r[t].direct| && Stored(ns, count) ensures r[t].direct[j] < count {
      if t == n && j == |ns[n].direct| {
        assert r[t].direct[j] == id;
      } else {
        assert r[t].direct[j] == ns[t].direct[j];
      }
    }
  }

  /** `_insert` of an allocated rectangle id keeps every stored id allocated. */
  lemma {:induction false} PushedStored(ns: seq<Node>, n: NodeId, b: Bounds, id: RectId, count: nat)
    requires WellFormed(ns) && n < |ns| && id < count
    ensures Stored(ns, count) ==> Stored(Pushed(ns, n, b, id).nodes, count)
    decreases ns[n].maxDepth
  {
    var ms := MaybeSubdivided(ns, n);
    QuadsAllocated(ms, n);
    assert NodeOk(ms, n);
    assert Stored(ns, count) ==> Stored(ms, count);
    var i := FirstFitting(ms, ms[n].quadrants, b);
    if i < |ms[n].quadrants| {
      PushedStored(ms, Quad(ms, n, i), b, id, count);
    } else {
      AppendedStored(ms, n, id, count);
    }
  }

  /** `_insert` of a well-placed rectangle (proper, inside n) keeps every stored rectangle
      inside the node that holds it. */
  lemma {:induction false} PushedPlaced(ns: seq<Node>, rs: seq<Rectangle>, n: NodeId, id: RectId)
    requires WellFormed(ns) && n < |ns| && id < |rs| && Placed(ns, rs)
    requires Proper(rs[id].bounds) && Fits(rs[id].bounds, ns[n].bounds)
    ensures Placed(Pushed(ns, n, rs[id].bounds, id).nodes, rs)
    decreases ns[n].maxDepth
  {
    var b := rs[id].bounds;
    var ms := MaybeSubdivided(ns, n);
    QuadsAllocated(ms, n);
    assert NodeOk(ms, n);
    assert Placed(ms, rs);
    var i := FirstFitting(ms, ms[n].quadrants, b);
    if i < |ms[n].quadrants| {
      PushedPlaced(ms, rs, Quad(ms, n, i), id);
    } else {
      var r := Appended(ms, n, id);
      forall t, j | 0 <= t < |r| && 0 <= j < |r[t].direct|
        ensures r[t].direct[j] < |rs| && Proper(rs[r[t].direct[j]].bounds)
        ensures Fits(rs[r[t].direct[j]].bounds, r[t].bounds)
      {
        if t == n && j == |ms[n].direct| {
          assert r[t].direct[j] == id;
        } else {
          assert r[t].direct[j] == ms[t].direct[j];
        }
      }
    }
  }

  /** `_insert` on a leaf grows it into a path: each level it descends adds four nodes, so the
      depth is the number of new nodes over four and stays within the budget. */
  lemma {:induction false} PushedShape(ns: seq<Node>, n: NodeId, b: Bounds, id: RectId)
    requires WellFormed(ns) && n < |ns| && ns[n].quadrants == []
    ensures var r := Pushed(ns, n, b, id).nodes;
      && 4 * Depth(r, n) == |r| - |ns|
      && NodeCount(r, n) == 1 + |r| - |ns|
      && Depth(r, n) <= ns[n].maxDepth
    decreases ns[n].maxDepth
  {
    var ms := MaybeSubdivided(ns, n);
    QuadsAllocated(ms, n);
    assert NodeOk(ms, n);
    var i := FirstFitting(ms, ms[n].quadrants, b);
    if i < |ms[n].quadrants| {
      var q := Quad(ms, n, i);
      PushedShape(ms, q, b, id);
      forall j | 0 <= j < 4 && j != i ensures ms[Quad(ms, n, j)].quadrants == [] {
        assert Quad(ms, n, j) == |ns| + j;
      }
      DescendBeside(ms, n, i, b, id);
    } else if ns[n].maxDepth > 0 {
      PushedShapeStop(ns, n, b, id);
    }
  }

  /** Descending into quadrant i of n when the other three are leaves: n ends one level above
      that quadrant, with four more nodes than it. */
  lemma {:induction false} DescendBeside(ns: seq<Node>, n: NodeId, i: nat, b: Bounds, id: RectId)
    requires WellFormed(ns) && n < |ns| && ns[n].quadrants != [] && i < 4
    requires forall j | 0 <= j < 4 && j != i :: ns[Quad(ns, n, j)].quadrants == []
    ensures var r := Pushed(ns, Quad(ns, n, i), b, id).nodes;
      Depth(r, n) == 1 + Depth(r, Quad(ns, n, i)) && NodeCount(r, n) == 4 + NodeCount(r, Quad(ns, n, i))
  {
    var q := Quad(ns, n, i);
    var r := Pushed(ns, q, b, id).nodes;
    PushedFrame(ns, q, b, id);
    assert r[n] == ns[n];
    forall j | 0 <= j < 4 && j != i ensures r[Quad(r, n, j)].quadrants == [] {
      SiblingsDisjoint(ns, n, j, i, Quad(ns, n, j));
      assert Quad(r, n, j) == Quad(ns, n, j);
    }
    assert Quad(r, n, i) == q;
    OnePath(r, n, i);
  }

  lemma {:induction false} PushedShapeStop(ns: seq<Node>, n: NodeId, b: Bounds, id: RectId)
    requires WellFormed(ns) && n < |ns| && ns[n].quadrants == [] && ns[n].maxDepth > 0
    requires FirstFitting(Subdivided(ns, n), Quads(|ns|), b) == 4
    ensures var r := Pushed(ns, n, b, id).nodes;
      && |r| == |ns| + 4 && Depth(r, n) == 1 && NodeCount(r, n) == 5
  {
    var ms := Subdivided(ns, n);
    var k := |ns|;
    assert MaybeSubdivided(ns, n) == ms;
    var r := Pushed(ns, n, b, id).nodes;
    assert r == Appended(ms, n, id);
    assert Quad(r, n, 0) == k && Quad(r, n, 1) == k + 1 && Quad(r, n, 2) == k + 2 && Quad(r, n, 3) == k + 3;
    assert r[k].quadrants == [] && r[k + 1].quadrants == [] && r[k + 2].quadrants == [] && r[k + 3].quadrants == [];
  }

  /** A rectangle that fits a leaf with budget left but none of its four cells splits that leaf
      once and stays there: depth 1, five nodes. */
  lemma {:induction false} CrossingStaysAtTop(ns: seq<Node>, n: NodeId, b: Bounds, id: RectId)
    requires WellFormed(ns) && n < |ns| && ns[n].quadrants == [] && ns[n].maxDepth > 0
    requires forall i | 0 <= i < 4 :: !Fits(b, Quadrant(ns[n].bounds, i))
    ensures var r := Pushed(ns, n, b, id);
      r.owner == n && Depth(r.nodes, n) == 1 && NodeCount(r.nodes, n) == 5
  {
    var ms := MaybeSubdivided(ns, n);
    QuadsAllocated(ms, n);
    assert NodeOk(ms, n);
    forall q | 0 <= q < 4 ensures !Fits(b, ms[Quad(ms, n, q)].bounds) {
      assert ms[Quad(ms, n, q)].bounds == Quadrant(ns[n].bounds, q);
    }
    assert FirstFitting(ms, ms[n].quadrants, b) == 4;
    PushedShape(ns, n, b, id);
  }

  // ---------------------------------------------------------------------------------------
  // `insert`

  /** Where `insert` on n puts rectangle id: in n's subtree, appended to that node's earlier
      direct children; if it fits n, in a node it fits that is out of budget or has no quadrant it
      fits; otherwise in n itself, with no node allocated. */
  lemma {:induction false} InsertPlacement(ns: seq<Node>, rs: seq<Rectangle>, n: NodeId, id: RectId)
    requires WellFormed(ns) && n < |ns| && id < |rs|
    ensures var r := Inserted(ns, rs, n, id); var b := rs[id].bounds;
      && r.owner in Reach(r.nodes, n)
      && r.nodes[r.owner].direct == (if r.owner < |ns| then ns[r.owner].direct else []) + [id]
      && (Fits(b, ns[n].bounds) ==>
            && Fits(b, r.nodes[r.owner].bounds)
            && (r.nodes[r.owner].quadrants == [] ==> r.nodes[r.owner].maxDepth == 0)
            && (r.nodes[r.owner].quadrants != [] ==>
                  forall i | 0 <= i < 4 :: !Fits(b, r.nodes[Quad(r.nodes, r.owner, i)].bounds)))
      && (!Fits(b, ns[n].bounds) ==> r.owner == n && |r.nodes| == |ns|)
  {
    if Fits(rs[id].bounds, ns[n].bounds) {
      PushedOwner(ns, n, rs[id].bounds, id);
    } else {
      AppendedChildren(ns, n, id, n);
    }
  }

  /** `insert` on n adds exactly the one rectangle to the children of every subtree holding n,
      n's own included, and removes none from any subtree. */
  lemma {:induction false} InsertAddsOne(ns: seq<Node>, rs: seq<Rectangle>, n: NodeId, id: RectId, s: NodeId)
    requires WellFormed(ns) && n < |ns| && id < |rs| && s < |ns|
    ensures n in Reach(ns, s) ==>
      multiset(GetChildren(Inserted(ns, rs, n, id).nodes, s)) == multiset(GetChildren(ns, s)) + multiset{id}
    ensures multiset(GetChildren(ns, s)) <= multiset(GetChildren(Inserted(ns, rs, n, id).nodes, s))
  {
    if Fits(rs[id].bounds, ns[n].bounds) {
      PushedGrows(ns, n, rs[id].bounds, id, s);
      if n in Reach(ns, s) {
        PushedChildren(ns, n, rs[id].bounds, id, s);
      }
    } else {
      AppendedChildren(ns, n, id, s);
    }
  }

  /** `insert` keeps every subdivided node non-empty. */
  lemma {:induction false} InsertKeepsPruned(ns: seq<Node>, rs: seq<Rectangle>, n: NodeId, id: RectId)
    requires WellFormed(ns) && n < |ns| && id < |rs| && Pruned(ns)
    ensures Pruned(Inserted(ns, rs, n, id).nodes)
  {
    var r := Inserted(ns, rs, n, id).nodes;
    forall t | 0 <= t < |r| && r[t].quadrants != [] ensures GetChildren(r, t) != [] {
      if t < |ns| && ns[t].quadrants != [] {
        InsertAddsOne(ns, rs, n, id, t);
        MultisetNonEmpty(GetChildren(ns, t), GetChildren(r, t));
      } else {
        if Fits(rs[id].bounds, ns[n].bounds) {
          PushedSubdividesForIt(ns, n, rs[id].bounds, id, t);
        }
      }
    }
  }

  /** A non-empty sequence's elements survive into any sequence whose multiset includes it. */
  lemma MultisetNonEmpty(a: seq<RectId>, b: seq<RectId>)
    requires a != [] && multiset(a) <= multiset(b)
    ensures b != []
  {
    assert a[0] in multiset(a);
  }

  /** `insert` of a proper rectangle that fits n keeps every stored rectangle inside its node. */
  lemma {:induction false} InsertKeepsPlaced(ns: seq<Node>, rs: seq<Rectangle>, n: NodeId, id: RectId)
    requires WellFormed(ns) && n < |ns| && id < |rs| && Placed(ns, rs)
    requires Proper(rs[id].bounds) && Fits(rs[id].bounds, ns[n].bounds)
    ensures var r := Inserted(ns, rs, n, id); Placed(r.nodes, Tagged(rs, id, r.owner))
  {
    PushedPlaced(ns, rs, n, id);
  }

  /** A rectangle that does not fit n is still kept, in n, where it breaks the geometry every
      query relies on: the node no longer contains all of its own children. */
  lemma {:induction false} InsertOutsideUnplaced(ns: seq<Node>, rs: seq<Rectangle>, n: NodeId, id: RectId)
    requires WellFormed(ns) && n < |ns| && id < |rs| && !Fits(rs[id].bounds, ns[n].bounds)
    ensures var r := Inserted(ns, rs, n, id);
      r.owner == n && id in r.nodes[n].direct && !Placed(r.nodes, Tagged(rs, id, r.owner))
  {
    var r := Inserted(ns, rs, n, id);
    var j := |ns[n].direct|;
    assert r.nodes[n].direct[j] == id;
  }

  /** The square of side w whose low corner is (x0, y0). */
  function Square(x0: real, y0: real, w: real): Bounds {
    Bounds(x0, y0, x0 + w, y0 + w)
  }

  /** How far rectangle b reaches from corner j of the square (x0, y0, x0 + w, y0 + w), along x
      and along y; corners are numbered as the quadrants are. */
  function ExtentX(b: Bounds, x0: real, w: real, j: nat): real {
    if j % 2 == 1 then x0 + w - b.xMin else b.xMax - x0
  }

  function ExtentY(b: Bounds, y0: real, w: real, j: nat): real {
    if j >= 2 then y0 + w - b.yMin else b.yMax - y0
  }

  /** e stays below w halved k times, that is below w / 2^k. */
  predicate Within(e: real, w: real, k: nat)
    decreases k
  {
    if k == 0 then e < w else Within(e, w / 2.0, k - 1)
  }

  /** b lies in the square and reaches less than w / 2^k from corner j. */
  predicate InCorner(b: Bounds, x0: real, y0: real, w: real, j: nat, k: nat) {
    && x0 <= b.xMin <= b.xMax <= x0 + w && y0 <= b.yMin <= b.yMax <= y0 + w
    && Within(ExtentX(b, x0, w, j), w, k) && Within(ExtentY(b, y0, w, j), w, k)
  }

  /** Corner j of the square, shrunk to half the size. */
  function CornerCell(x0: real, y0: real, w: real, j: nat): Bounds {
    var x := if j % 2 == 1 then x0 + w / 2.0 else x0;
    var y := if j >= 2 then y0 + w / 2.0 else y0;
    Bounds(x, y, x + w / 2.0, y + w / 2.0)
  }

  /** A rectangle that stays in corner j of a square leaf for every level of its budget makes
      `_insert` split all the way down: the tree's depth is the budget d and it has 1 + 4d nodes. */
  lemma {:induction false} CornerDescends(ns: seq<Node>, n: NodeId, b: Bounds, id: RectId,
                                          x0: real, y0: real, w: real, j: nat)
    requires WellFormed(ns) && n < |ns| && ns[n].quadrants == [] && j < 4
    requires ns[n].bounds == Square(x0, y0, w)
    requires ns[n].maxDepth > 0 ==> InCorner(b, x0, y0, w, j, ns[n].maxDepth - 1)
    ensures Depth(Pushed(ns, n, b, id).nodes, n) == ns[n].maxDepth
    ensures NodeCount(Pushed(ns, n, b, id).nodes, n) == 1 + 4 * ns[n].maxDepth
  {
    CornerGrows(ns, n, b, id, x0, y0, w, j);
    PushedShape(ns, n, b, id);
  }

  /** The corner descent allocates four nodes per level of budget. */
  lemma {:induction false} CornerGrows(ns: seq<Node>, n: NodeId, b: Bounds, id: RectId,
                                       x0: real, y0: real, w: real, j: nat)
    requires WellFormed(ns) && n < |ns| && ns[n].quadrants == [] && j < 4
    requires ns[n].bounds == Square(x0, y0, w)
    requires ns[n].maxDepth > 0 ==> InCorner(b, x0, y0, w, j, ns[n].maxDepth - 1)
    ensures |Pushed(ns, n, b, id).nodes| == |ns| + 4 * ns[n].maxDepth
    decreases ns[n].maxDepth
  {
    var d := ns[n].maxDepth;
    var ms := MaybeSubdivided(ns, n);
    QuadsAllocated(ms, n);
    assert NodeOk(ms, n);
    var i := FirstFitting(ms, ms[n].quadrants, b);
    if d > 1 {
      CornerSplit(ns, n, b, x0, y0, w, j);
      var c := CornerCell(x0, y0, w, j);
      var q := Quad(ms, n, j);
      CornerGrows(ms, q, b, id, c.xMin, c.yMin, w / 2.0, j);
      assert Pushed(ns, n, b, id).nodes == Pushed(ms, q, b, id).nodes;
    } else if d == 1 && i < |ms[n].quadrants| {
      PushedShape(ms, Quad(ms, n, i), b, id);
    }
  }

  /** The split of a square leaf whose rectangle stays in corner j: quadrant j is the first that
      fits, a square leaf of half the side in which the rectangle stays in corner j. */
  lemma CornerSplit(ns: seq<Node>, n: NodeId, b: Bounds, x0: real, y0: real, w: real, j: nat)
    requires WellFormed(ns) && n < |ns| && ns[n].quadrants == [] && j < 4 && ns[n].maxDepth > 1
    requires ns[n].bounds == Square(x0, y0, w)
    requires InCorner(b, x0, y0, w, j, ns[n].maxDepth - 1)
    ensures var ms := MaybeSubdivided(ns, n);
      && ms[n].quadrants != []
      && FirstFitting(ms, ms[n].quadrants, b) == j
      && var q := Quad(ms, n, j); var c := CornerCell(x0, y0, w, j);
      && ms[q].bounds == Square(c.xMin, c.yMin, w / 2.0)
      && ms[q].quadrants == [] && ms[q].maxDepth == ns[n].maxDepth - 1
      && InCorner(b, c.xMin, c.yMin, w / 2.0, j, ns[n].maxDepth - 2)
  {
    var ms := MaybeSubdivided(ns, n);
    CornerStep(b, x0, y0, w, j, ns[n].maxDepth - 1);
    assert Fits(b, ms[Quad(ms, n, j)].bounds);
    forall i' | 0 <= i' < j ensures !Fits(b, ms[Quad(ms, n, i')].bounds) {
    }
  }

  /** One level of the corner descent: cell j is the first of the four that b fits, and b stays
      in corner j of that cell for one level less. */
  lemma CornerStep(b: Bounds, x0: real, y0: real, w: real, j: nat, k: nat)
    requires k >= 1 && j < 4 && InCorner(b, x0, y0, w, j, k)
    ensures Quadrant(Square(x0, y0, w), j) == CornerCell(x0, y0, w, j)
    ensures Fits(b, CornerCell(x0, y0, w, j))
    ensures forall i | 0 <= i < j :: !Fits(b, Quadrant(Square(x0, y0, w), i))
    ensures var c := CornerCell(x0, y0, w, j); InCorner(b, c.xMin, c.yMin, w / 2.0, j, k - 1)
  {
    var ex, ey := ExtentX(b, x0, w, j), ExtentY(b, y0, w, j);
    HalfFits(ex, w, k);
    HalfFits(ey, w, k);
    CornerCellFirst(b, x0, y0, w, j);
    CellInCorner(b, x0, y0, w, j, k);
  }

  /** A rectangle inside cell j keeps its extents from that corner, against half the side. */
  lemma CellInCorner(b: Bounds, x0: real, y0: real, w: real, j: nat, k: nat)
    requires k >= 1 && b.xMin <= b.xMax && b.yMin <= b.yMax && Fits(b, CornerCell(x0, y0, w, j))
    requires Within(ExtentX(b, x0, w, j), w, k) && Within(ExtentY(b, y0, w, j), w, k)
    ensures var c := CornerCell(x0, y0, w, j); InCorner(b, c.xMin, c.yMin, w / 2.0, j, k - 1)
  {
    var c := CornerCell(x0, y0, w, j);
    CellExtents(b, x0, y0, w, j);
    var ex, ey := ExtentX(b, x0, w, j), ExtentY(b, y0, w, j);
    assert ExtentX(b, c.xMin, w / 2.0, j) == ex && ExtentY(b, c.yMin, w / 2.0, j) == ey;
    assert c.xMin <= b.xMin <= b.xMax <= c.xMin + w / 2.0;
    assert c.yMin <= b.yMin <= b.yMax <= c.yMin + w / 2.0;
  }

  /** Corner j of the cell is corner j of the square, so the extents carry over. */
  lemma CellExtents(b: Bounds, x0: real, y0: real, w: real, j: nat)
    ensures var c := CornerCell(x0, y0, w, j);
      ExtentX(b, c.xMin, w / 2.0, j) == ExtentX(b, x0, w, j) &&
      ExtentY(b, c.yMin, w / 2.0, j) == ExtentY(b, y0, w, j)
  {
  }

  /** A rectangle reaching less than half the side from corner j fits cell j and none before it. */
  lemma CornerCellFirst(b: Bounds, x0: real, y0: real, w: real, j: nat)
    requires j < 4 && x0 <= b.xMin <= b.xMax <= x0 + w && y0 <= b.yMin <= b.yMax <= y0 + w
    requires ExtentX(b, x0, w, j) < w / 2.0 && ExtentY(b, y0, w, j) < w / 2.0
    ensures Quadrant(Square(x0, y0, w), j) == CornerCell(x0, y0, w, j)
    ensures Fits(b, CornerCell(x0, y0, w, j))
    ensures forall i | 0 <= i < j :: !Fits(b, Quadrant(Square(x0, y0, w), i))
  {
    var sq := Square(x0, y0, w);
    assert (x0 + (x0 + w)) / 2.0 == x0 + w / 2.0 && (y0 + (y0 + w)) / 2.0 == y0 + w / 2.0;
    if j == 1 {
      assert !Fits(b, Quadrant(sq, 0));
    } else if j == 2 {
      assert !Fits(b, Quadrant(sq, 0)) && !Fits(b, Quadrant(sq, 1));
    } else if j == 3 {
      assert !Fits(b, Quadrant(sq, 0)) && !Fits(b, Quadrant(sq, 1)) && !Fits(b, Quadrant(sq, 2));
    }
  }

  /** A non-negative extent below w / 2^k, for k >= 1, is below half of w. */
  lemma HalfFits(e: real, w: real, k: nat)
    requires k >= 1 && e >= 0.0 && Within(e, w, k)
    ensures e < w / 2.0
  {
    WithinBelow(e, w / 2.0, k - 1);
  }

  /** A non-negative extent below w / 2^k is below w. */
  lemma {:induction false} WithinBelow(e: real, w: real, k: nat)
    requires e >= 0.0 && Within(e, w, k)
    ensures e < w
    decreases k
  {
    if k > 0 {
      WithinBelow(e, w / 2.0, k - 1);
    }
  }
}
