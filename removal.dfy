/** `clear`, `_try_cleanup`, `_remove`, `remove`, `_reinsert` and `reinsert` of
    quadpy/quadtree.py as pure transitions of the arena. */
module Removal {
  import opened Results
  import opened Geometry
  import opened Rectangles
  import opened Arena
  import opened Queries
  import opened Insertion

  /** The arena with the nodes of S emptied: no direct children, no quadrants. */
  function Emptied(ns: seq<Node>, S: set<NodeId>): (r: seq<Node>)
    ensures |r| == |ns|
  {
    seq(|ns|, (u: int) requires 0 <= u < |ns| =>
      if u in S then ns[u].(direct := [], quadrants := []) else ns[u])
  }

  /** Any set of nodes can be emptied: a node without quadrants constrains nothing. */
  lemma {:induction false} EmptiedWellFormed(ns: seq<Node>, S: set<NodeId>)
    requires WellFormed(ns)
    ensures WellFormed(Emptied(ns, S)) && Preserves(ns, Emptied(ns, S))
  {
    var r := Emptied(ns, S);
    forall u | 0 <= u < |r| ensures NodeOk(r, u) {
      assert NodeOk(ns, u);
      if r[u].quadrants != [] {
        forall i | 0 <= i < 4 ensures ChildOk(r, u, i) {
          assert ChildOk(ns, u, i);
        }
      }
    }
  }

  /** Emptying twice is emptying the union. */
  lemma EmptiedTwice(ns: seq<Node>, S: set<NodeId>, T: set<NodeId>)
    ensures Emptied(Emptied(ns, S), T) == Emptied(ns, S + T)
  {
  }

  /** `clear` on n: every node of n's subtree loses its direct children and its quadrants (the
      emptied records stay in the arena, unreachable); nodes outside the subtree are unchanged. */
  function Cleared(ns: seq<Node>, n: NodeId): (r: seq<Node>)
    requires WellFormed(ns) && n < |ns|
    ensures WellFormed(r) && |r| == |ns| && Preserves(ns, r)
    ensures forall u | 0 <= u < |ns| && u !in Reach(ns, n) :: r[u] == ns[u]
    ensures forall u | 0 <= u < |ns| && u in Reach(ns, n) :: r[u].direct == [] && r[u].quadrants == []
    ensures GetChildren(r, n) == [] && Depth(r, n) == 0 && NodeCount(r, n) == 1
  {
    EmptiedWellFormed(ns, Reach(ns, n));
    Emptied(ns, Reach(ns, n))
  }

  /** `_try_cleanup` on p: while the node holds no rectangle anywhere below it, clear it and go on
      with its parent. */
  function CleanedUp(ns: seq<Node>, p: NodeId): (r: seq<Node>)
    requires WellFormed(ns) && p < |ns|
    ensures WellFormed(r) && |r| == |ns| && Preserves(ns, r)
    decreases p
  {
    if GetChildren(ns, p) == [] then
      var ms := Cleared(ns, p);
      if ms[p].parent.Some? then CleanedUp(ms, ParentOf(ms, p)) else ms
    else
      ns
  }

  /** `list.remove`'s search: the index of the first id whose rectangle has bounds b (rectangles
      compare by bounds), or |ds| when there is none. */
  function IndexOfEqual(rs: seq<Rectangle>, ds: seq<RectId>, b: Bounds): (j: nat)
    requires forall k | 0 <= k < |ds| :: ds[k] < |rs|
    ensures j <= |ds|
    ensures j < |ds| ==> rs[ds[j]].bounds == b
    ensures forall k | 0 <= k < j :: rs[ds[k]].bounds != b
  {
    if ds == [] then 0
    else if rs[ds[0]].bounds == b then 0
    else 1 + IndexOfEqual(rs, ds[1..], b)
  }

  /** `list.remove` compares with `__eq__`: its search finds an element exactly when some held
      rectangle equals the child, and the one it finds is the first such, which need not be the
      child itself. */
  lemma {:induction false} IndexOfEqualIsFirstEqual(rs: seq<Rectangle>, ds: seq<RectId>, id: RectId)
    requires id < |rs| && forall k | 0 <= k < |ds| :: ds[k] < |rs|
    ensures var j := IndexOfEqual(rs, ds, rs[id].bounds);
      && (j < |ds| <==> exists k | 0 <= k < |ds| :: Equal(rs[ds[k]], rs[id]))
      && (j < |ds| ==> Equal(rs[ds[j]], rs[id]))
      && (forall k | 0 <= k < j :: NotEqual(rs[ds[k]], rs[id]))
  {
    var j := IndexOfEqual(rs, ds, rs[id].bounds);
    if j < |ds| {
      assert Equal(rs[ds[j]], rs[id]);
    }
  }

  /** The sequence without its j-th element. */
  function Without(ds: seq<RectId>, j: nat): (r: seq<RectId>)
    requires j < |ds|
    ensures |r| == |ds| - 1 && multiset(ds) == multiset(r) + multiset{ds[j]}
  {
    assert ds == ds[..j] + [ds[j]] + ds[j + 1..];
    ds[..j] + ds[j + 1..]
  }

  /** `_remove(child)` on node p: `direct_children.remove(child)` (an error when no element equals
      the child), then `_try_cleanup` from p. */
  function RemovedFrom(ns: seq<Node>, rs: seq<Rectangle>, p: NodeId, id: RectId): (r: Result<seq<Node>>)
    requires WellFormed(ns) && p < |ns| && id < |rs| && Stored(ns, |rs|)
    ensures r.Ok? ==> WellFormed(r.value) && |r.value| == |ns| && Preserves(ns, r.value)
    ensures r.Err? ==> r.error == NotFound
  {
    var ds := ns[p].direct;
    var j := IndexOfEqual(rs, ds, rs[id].bounds);
    if j == |ds| then Err(NotFound)
    else Ok(CleanedUp(WithDirect(ns, p, Without(ds, j)), p))
  }

  /** `direct_children.remove(child)` on node p alone: the first element equal to the child
      goes, and there is an error when none is equal. `_remove` is this step and then
      `_try_cleanup` from p. */
  function Dropped(ns: seq<Node>, rs: seq<Rectangle>, p: NodeId, id: RectId): (r: Result<seq<Node>>)
    requires WellFormed(ns) && p < |ns| && id < |rs| && Stored(ns, |rs|)
    ensures r.Ok? ==> WellFormed(r.value) && |r.value| == |ns| && Preserves(ns, r.value)
    ensures r.Err? ==> r.error == NotFound
  {
    var ds := ns[p].direct;
    var j := IndexOfEqual(rs, ds, rs[id].bounds);
    if j == |ds| then Err(NotFound)
    else Ok(WithDirect(ns, p, Without(ds, j)))
  }

  /** `_remove` is Dropped followed by `_try_cleanup`; Dropped only takes the removed rectangle
      out of p's direct children. */
  lemma DroppedSteps(ns: seq<Node>, rs: seq<Rectangle>, p: NodeId, id: RectId)
    requires WellFormed(ns) && p < |ns| && id < |rs| && Stored(ns, |rs|)
    ensures Dropped(ns, rs, p, id).Ok? <==> RemovedFrom(ns, rs, p, id).Ok?
    ensures Dropped(ns, rs, p, id).Ok? ==>
      var ms := Dropped(ns, rs, p, id).value;
      && RemovedFrom(ns, rs, p, id).value == CleanedUp(ms, p)
      && (forall u | 0 <= u < |ns| :: ms[u].quadrants == ns[u].quadrants)
      && (forall u | 0 <= u < |ns| && u != p :: ms[u] == ns[u])
      && multiset(ms[p].direct) + multiset{RemovedId(ns, rs, p, id)} == multiset(ns[p].direct)
      && Shrinks(ns, ms) && Stored(ms, |rs|)
  {
    var ds := ns[p].direct;
    var j := IndexOfEqual(rs, ds, rs[id].bounds);
    if j < |ds| {
      var w := Without(ds, j);
      var ms := WithDirect(ns, p, w);
      forall t, k | 0 <= t < |ms| && 0 <= k < |ms[t].direct| ensures ms[t].direct[k] in ns[t].direct {
        if t == p {
          assert ms[t].direct[k] in multiset(w);
        }
      }
      ShrinksKeeps(ns, ms, rs);
    }
  }

  /** The rectangle `_remove` actually takes out: the first one equal to the child. */
  function RemovedId(ns: seq<Node>, rs: seq<Rectangle>, p: NodeId, id: RectId): (e: RectId)
    requires WellFormed(ns) && p < |ns| && id < |rs| && Stored(ns, |rs|)
    requires RemovedFrom(ns, rs, p, id).Ok?
    ensures e in ns[p].direct && e < |rs| && rs[e].bounds == rs[id].bounds
  {
    ns[p].direct[IndexOfEqual(rs, ns[p].direct, rs[id].bounds)]
  }

  /** The owner a rectangle claims must be an allocated node. */
  predicate Claims(ns: seq<Node>, rs: seq<Rectangle>, id: RectId)
    requires id < |rs|
  {
    rs[id].qtParent.Some? ==> rs[id].qtParent.value < |ns|
  }

  /** `remove(child)`: removal from the node the child names as its `qt_parent`; a child that
      was never inserted has none, which is an error. */
  function Removed(ns: seq<Node>, rs: seq<Rectangle>, id: RectId): (r: Result<seq<Node>>)
    requires WellFormed(ns) && id < |rs| && Stored(ns, |rs|) && Claims(ns, rs, id)
    ensures r.Ok? ==> WellFormed(r.value) && |r.value| == |ns| && Preserves(ns, r.value)
    ensures rs[id].qtParent == None <==> r == Err(NotInserted)
  {
    match rs[id].qtParent
    case None => Err(NotInserted)
    case Some(p) => RemovedFrom(ns, rs, p, id)
  }

  // ---------------------------------------------------------------------------------------
  // `clear` and `_try_cleanup`

  /** Clearing a subtree that holds no rectangle changes the children of no subtree. */
  lemma {:induction false} ClearedKeepsChildren(ns: seq<Node>, n: NodeId, s: NodeId)
    requires WellFormed(ns) && n < |ns| && s < |ns| && GetChildren(ns, n) == []
    ensures GetChildren(Cleared(ns, n), s) == GetChildren(ns, s)
    decreases ns[s].maxDepth
  {
    var r := Cleared(ns, n);
    if s in Reach(ns, n) {
      ChildrenEmpty(ns, n);
      forall u | u in Reach(ns, s) ensures ns[u].direct == [] {
        ReachTransitive(ns, n, s, u);
      }
      ChildrenEmpty(ns, s);
    } else if ns[s].quadrants != [] {
      forall i | 0 <= i < 4
        ensures Quad(r, s, i) == Quad(ns, s, i)
        ensures GetChildren(r, Quad(ns, s, i)) == GetChildren(ns, Quad(ns, s, i))
      {
        ClearedKeepsChildren(ns, n, Quad(ns, s, i));
      }
    }
  }

  /** Clearing a subtree that holds no rectangle only drops quadrant lists of nodes that had
      no direct children. */
  lemma {:induction false} ClearedOnlyPrunes(ns: seq<Node>, n: NodeId)
    requires WellFormed(ns) && n < |ns| && GetChildren(ns, n) == []
    ensures forall u | 0 <= u < |ns| ::
      Cleared(ns, n)[u].direct == ns[u].direct &&
      (Cleared(ns, n)[u].quadrants == [] || Cleared(ns, n)[u].quadrants == ns[u].quadrants)
  {
    ChildrenEmpty(ns, n);
  }

  /** `_try_cleanup` changes the children of no subtree. */
  lemma {:induction false} CleanupKeepsChildren(ns: seq<Node>, p: NodeId, s: NodeId)
    requires WellFormed(ns) && p < |ns| && s < |ns|
    ensures GetChildren(CleanedUp(ns, p), s) == GetChildren(ns, s)
    decreases p
  {
    if GetChildren(ns, p) == [] {
      var ms := Cleared(ns, p);
      ClearedKeepsChildren(ns, p, s);
      if ms[p].parent.Some? {
        CleanupKeepsChildren(ms, ParentOf(ms, p), s);
      }
    }
  }

  /** `_try_cleanup` only drops quadrant lists, of nodes with no direct children. */
  lemma {:induction false} CleanupOnlyPrunes(ns: seq<Node>, p: NodeId)
    requires WellFormed(ns) && p < |ns|
    ensures forall u | 0 <= u < |ns| ::
      CleanedUp(ns, p)[u].direct == ns[u].direct &&
      (CleanedUp(ns, p)[u].quadrants == [] || CleanedUp(ns, p)[u].quadrants == ns[u].quadrants)
    decreases p
  {
    if GetChildren(ns, p) == [] {
      var ms := Cleared(ns, p);
      ClearedOnlyPrunes(ns, p);
      if ms[p].parent.Some? {
        CleanupOnlyPrunes(ms, ParentOf(ms, p));
      }
    }
  }

  /** `clear` only drops ids, so every id still held is allocated. */
  lemma ClearedKeepsStored(ns: seq<Node>, n: NodeId, count: nat)
    requires WellFormed(ns) && n < |ns|
    ensures Stored(ns, count) ==> Stored(Cleared(ns, n), count)
  {
  }

  /** `_try_cleanup` keeps every direct list, so every id still held is allocated. */
  lemma CleanupKeepsStored(ns: seq<Node>, p: NodeId, count: nat)
    requires WellFormed(ns) && p < |ns|
    ensures Stored(ns, count) ==> Stored(CleanedUp(ns, p), count)
  {
    CleanupOnlyPrunes(ns, p);
  }

  /** `_try_cleanup` from a node inside subtree s that has become empty leaves s a bare leaf. */
  lemma {:induction false} CleanupPrunes(ns: seq<Node>, p: NodeId, s: NodeId)
    requires WellFormed(ns) && p < |ns| && s < |ns| && p in Reach(ns, s) && GetChildren(ns, s) == []
    ensures CleanedUp(ns, p)[s].quadrants == []
    decreases p
  {
    ChildrenEmpty(ns, s);
    forall u | u in Reach(ns, p) ensures ns[u].direct == [] {
      ReachTransitive(ns, s, p, u);
    }
    ChildrenEmpty(ns, p);
    var ms := Cleared(ns, p);
    if p == s {
      if ms[p].parent.Some? {
        CleanupOnlyPrunes(ms, ParentOf(ms, p));
      }
    } else {
      ReachStep(ns, s, p);
      var pp := ParentOf(ns, p);
      ReachLowFrame(ns, ms, s, pp, p);
      ClearedKeepsChildren(ns, p, s);
      assert ParentOf(ms, p) == pp;
      CleanupPrunes(ms, pp, s);
    }
  }

  /** `_try_cleanup` keeps every subdivided node non-empty. */
  lemma {:induction false} CleanupKeepsPruned(ns: seq<Node>, p: NodeId)
    requires WellFormed(ns) && p < |ns| && Pruned(ns)
    ensures Pruned(CleanedUp(ns, p))
  {
    var r := CleanedUp(ns, p);
    CleanupOnlyPrunes(ns, p);
    forall t | 0 <= t < |r| && r[t].quadrants != [] ensures GetChildren(r, t) != [] {
      CleanupKeepsChildren(ns, p, t);
    }
  }

  // ---------------------------------------------------------------------------------------
  // `_remove` and `remove`

  /** Every id a node holds in ms it already held in ns. */
  predicate Shrinks(ns: seq<Node>, ms: seq<Node>)
    requires |ms| == |ns|
  {
    forall t, k | 0 <= t < |ms| && 0 <= k < |ms[t].direct| :: ms[t].direct[k] in ns[t].direct
  }

  /** Dropping ids keeps every held id allocated, and keeps every held rectangle in its node. */
  lemma {:induction false} ShrinksKeeps(ns: seq<Node>, ms: seq<Node>, rs: seq<Rectangle>)
    requires |ms| == |ns| && Preserves(ns, ms) && Shrinks(ns, ms)
    ensures Stored(ns, |rs|) ==> Stored(ms, |rs|)
    ensures Placed(ns, rs) ==> Placed(ms, rs)
  {
    forall t, k | 0 <= t < |ms| && 0 <= k < |ms[t].direct|
      ensures exists k' :: 0 <= k' < |ns[t].direct| && ns[t].direct[k'] == ms[t].direct[k]
    {
      assert ms[t].direct[k] in ns[t].direct;
    }
  }

  /** `_remove` only drops ids: it is `list.remove` followed by `_try_cleanup`. */
  lemma {:induction false} RemovedShrinks(ns: seq<Node>, rs: seq<Rectangle>, p: NodeId, id: RectId)
    requires WellFormed(ns) && p < |ns| && id < |rs| && Stored(ns, |rs|)
    requires RemovedFrom(ns, rs, p, id).Ok?
    ensures Shrinks(ns, RemovedFrom(ns, rs, p, id).value)
  {
    var ds := ns[p].direct;
    var w := Without(ds, IndexOfEqual(rs, ds, rs[id].bounds));
    var ms := WithDirect(ns, p, w);
    var r := RemovedFrom(ns, rs, p, id).value;
    CleanupOnlyPrunes(ms, p);
    forall t, k | 0 <= t < |r| && 0 <= k < |r[t].direct| ensures r[t].direct[k] in ns[t].direct {
      if t == p {
        assert r[t].direct[k] in multiset(w);
      }
    }
  }

  /** `_remove` fails exactly when no rectangle of the node equals the child; in particular it
      cannot fail on a node that holds the child itself. */
  lemma RemoveFinds(ns: seq<Node>, rs: seq<Rectangle>, p: NodeId, id: RectId)
    requires WellFormed(ns) && p < |ns| && id < |rs| && Stored(ns, |rs|)
    ensures RemovedFrom(ns, rs, p, id).Err? <==>
      forall k | 0 <= k < |ns[p].direct| :: rs[ns[p].direct[k]].bounds != rs[id].bounds
    ensures id in ns[p].direct ==> RemovedFrom(ns, rs, p, id).Ok?
  {
    var ds := ns[p].direct;
    var j := IndexOfEqual(rs, ds, rs[id].bounds);
    if id in ds {
      var k :| 0 <= k < |ds| && ds[k] == id;
      assert rs[ds[k]].bounds == rs[id].bounds;
    }
  }

  /** `_remove` takes out exactly one rectangle equal to the child from every subtree that
      contains the node, and changes no other subtree's children. */
  lemma {:induction false} RemovedChildren(ns: seq<Node>, rs: seq<Rectangle>, p: NodeId, id: RectId, s: NodeId)
    requires WellFormed(ns) && p < |ns| && id < |rs| && Stored(ns, |rs|) && s < |ns|
    requires RemovedFrom(ns, rs, p, id).Ok?
    ensures var r := RemovedFrom(ns, rs, p, id).value; var e := RemovedId(ns, rs, p, id);
      && (p in Reach(ns, s) ==> multiset(GetChildren(ns, s)) == multiset(GetChildren(r, s)) + multiset{e})
      && (p !in Reach(ns, s) ==> GetChildren(r, s) == GetChildren(ns, s))
  {
    var ds := ns[p].direct;
    var j := IndexOfEqual(rs, ds, rs[id].bounds);
    var w := Without(ds, j);
    var ms := WithDirect(ns, p, w);
    DirectReplaced(ns, p, w, s);
    CleanupKeepsChildren(ms, p, s);
    if p in Reach(ns, s) {
      Cancel(multiset(GetChildren(ns, s)), multiset(GetChildren(ms, s)), multiset(w), multiset{ds[j]});
    }
  }

  /** `_remove` keeps every subdivided node non-empty. */
  lemma {:induction false} RemoveKeepsPruned(ns: seq<Node>, rs: seq<Rectangle>, p: NodeId, id: RectId)
    requires WellFormed(ns) && p < |ns| && id < |rs| && Stored(ns, |rs|) && Pruned(ns)
    requires RemovedFrom(ns, rs, p, id).Ok?
    ensures Pruned(RemovedFrom(ns, rs, p, id).value)
  {
    var ds := ns[p].direct;
    var w := Without(ds, IndexOfEqual(rs, ds, rs[id].bounds));
    var ms := WithDirect(ns, p, w);
    var r := RemovedFrom(ns, rs, p, id).value;
    CleanupOnlyPrunes(ms, p);
    forall t | 0 <= t < |r| && r[t].quadrants != [] ensures GetChildren(r, t) != [] {
      CleanupKeepsChildren(ms, p, t);
      DirectReplaced(ns, p, w, t);
      if p in Reach(ns, t) && GetChildren(ms, t) == [] {
        CleanupPrunes(ms, p, t);
      }
    }
  }

  /** `_remove` keeps every held id allocated and every held rectangle inside its node. */
  lemma {:induction false} RemoveKeepsPlaced(ns: seq<Node>, rs: seq<Rectangle>, p: NodeId, id: RectId)
    requires WellFormed(ns) && p < |ns| && id < |rs| && Stored(ns, |rs|)
    requires RemovedFrom(ns, rs, p, id).Ok?
    ensures Stored(RemovedFrom(ns, rs, p, id).value, |rs|)
    ensures Placed(ns, rs) ==> Placed(RemovedFrom(ns, rs, p, id).value, rs)
  {
    RemovedShrinks(ns, rs, p, id);
    ShrinksKeeps(ns, RemovedFrom(ns, rs, p, id).value, rs);
  }

  /** When `_remove` empties a subtree that contained the node, `_try_cleanup` leaves that
      subtree a bare leaf: depth 0, one node. */
  lemma {:induction false} RemoveToEmpty(ns: seq<Node>, rs: seq<Rectangle>, p: NodeId, id: RectId, s: NodeId)
    requires WellFormed(ns) && p < |ns| && id < |rs| && Stored(ns, |rs|) && s < |ns| && p in Reach(ns, s)
    requires RemovedFrom(ns, rs, p, id).Ok?
    requires GetChildren(RemovedFrom(ns, rs, p, id).value, s) == []
    ensures var r := RemovedFrom(ns, rs, p, id).value;
      r[s].quadrants == [] && Depth(r, s) == 0 && NodeCount(r, s) == 1
  {
    var ds := ns[p].direct;
    var w := Without(ds, IndexOfEqual(rs, ds, rs[id].bounds));
    var ms := WithDirect(ns, p, w);
    DirectReplaced(ns, p, w, s);
    CleanupKeepsChildren(ms, p, s);
    CleanupPrunes(ms, p, s);
  }

  // ---------------------------------------------------------------------------------------
  // `_reinsert` and `reinsert`

  /** Parent links are all a chain is made of, so arenas that agree on them agree on chains. */
  lemma {:induction false} ChainKept(ns: seq<Node>, ms: seq<Node>, t: NodeId, a: NodeId)
    requires WellFormed(ns) && WellFormed(ms) && t < |ns| && |ms| == |ns| && Preserves(ns, ms)
    ensures Chain(ms, t, a) == Chain(ns, t, a)
    decreases t
  {
    if t != a && ns[t].parent.Some? {
      ChainKept(ns, ms, ParentOf(ns, t), a);
    }
  }

  /** The climb of `_reinsert` from t: the nearest node on t's parent chain whose bounds b fits,
      or None when not even the root fits it, where the source raises ValueError. */
  function ClimbTarget(ns: seq<Node>, t: NodeId, b: Bounds): (r: Option<NodeId>)
    requires WellFormed(ns) && t < |ns|
    ensures r.Some? ==> r.value <= t && Chain(ns, t, r.value) && Fits(b, ns[r.value].bounds)
    ensures r.Some? ==> forall a | r.value < a < |ns| && Chain(ns, t, a) :: !Fits(b, ns[a].bounds)
    ensures r.None? ==> forall a | 0 <= a < |ns| && Chain(ns, t, a) :: !Fits(b, ns[a].bounds)
    decreases t
  {
    if Fits(b, ns[t].bounds) then
      ChainsBelow(ns, t);
      Some(t)
    else if ns[t].parent.None? then None
    else
      ChainUp(ns, t);
      ClimbTarget(ns, ParentOf(ns, t), b)
  }

  /** A chain from t only goes down in index. */
  lemma ChainsBelow(ns: seq<Node>, t: NodeId)
    requires WellFormed(ns) && t < |ns|
    ensures forall a: NodeId | Chain(ns, t, a) :: a <= t
  {
    forall a: NodeId | Chain(ns, t, a) ensures a <= t {
      ChainBelow(ns, t, a);
    }
  }

  /** A chain from t that does not stop at t goes through t's parent. */
  lemma ChainUp(ns: seq<Node>, t: NodeId)
    requires WellFormed(ns) && t < |ns| && ns[t].parent.Some?
    ensures forall a | Chain(ns, t, a) && a != t :: Chain(ns, ParentOf(ns, t), a)
  {
  }

  /** The arena after `reinsert`, and either the new owner or the error raised. */
  datatype Reinsertion = Reinsertion(nodes: seq<Node>, outcome: Result<NodeId>)

  /** `reinsert(child)`: `_remove` from the child's owner p, then `_reinsert` from p. A failed
      climb leaves the child removed. */
  function Reinserted(ns: seq<Node>, rs: seq<Rectangle>, id: RectId): (r: Reinsertion)
    requires WellFormed(ns) && id < |rs| && Stored(ns, |rs|) && Claims(ns, rs, id)
    ensures WellFormed(r.nodes) && Preserves(ns, r.nodes)
    ensures rs[id].qtParent == None <==> r.outcome == Err(NotInserted)
    ensures r.outcome.Err? && r.outcome.error != DoesNotFit ==> r.nodes == ns
    ensures r.outcome == Err(DoesNotFit) ==>
      rs[id].qtParent.Some? && RemovedFrom(ns, rs, rs[id].qtParent.value, id) == Ok(r.nodes)
    ensures r.outcome.Ok? ==>
      r.outcome.value < |r.nodes| && id in r.nodes[r.outcome.value].direct &&
      Fits(rs[id].bounds, r.nodes[r.outcome.value].bounds)
  {
    match rs[id].qtParent
    case None => Reinsertion(ns, Err(NotInserted))
    case Some(p) =>
      match RemovedFrom(ns, rs, p, id)
      case Err(e) => Reinsertion(ns, Err(e))
      case Ok(ms) =>
        match ClimbTarget(ms, p, rs[id].bounds)
        case None => Reinsertion(ms, Err(DoesNotFit))
        case Some(a) =>
          var pl := Pushed(ms, a, rs[id].bounds, id);
          PushedOwner(ms, a, rs[id].bounds, id);
          Reinsertion(pl.nodes, Ok(pl.owner))
  }

  /** The node the climb of a successful `reinsert` stops at. */
  function ReinsertTarget(ns: seq<Node>, rs: seq<Rectangle>, id: RectId): NodeId
    requires WellFormed(ns) && id < |rs| && Stored(ns, |rs|) && Claims(ns, rs, id)
    requires Reinserted(ns, rs, id).outcome.Ok?
  {
    var p := rs[id].qtParent.value;
    ClimbTarget(RemovedFrom(ns, rs, p, id).value, p, rs[id].bounds).value
  }

  /** When the climb stops at a node still inside subtree s, `reinsert` moves one rectangle:
      the one `_remove` took out leaves s and the child comes back into it. */
  lemma {:induction false} ReinsertKeepsChildren(ns: seq<Node>, rs: seq<Rectangle>, id: RectId, s: NodeId)
    requires WellFormed(ns) && id < |rs| && Stored(ns, |rs|) && Claims(ns, rs, id) && s < |ns|
    requires Reinserted(ns, rs, id).outcome.Ok? && rs[id].qtParent.value in Reach(ns, s)
    requires ReinsertTarget(ns, rs, id) in Reach(RemovedFrom(ns, rs, rs[id].qtParent.value, id).value, s)
    ensures multiset(GetChildren(Reinserted(ns, rs, id).nodes, s)) + multiset{RemovedId(ns, rs, rs[id].qtParent.value, id)} ==
      multiset(GetChildren(ns, s)) + multiset{id}
  {
    var p := rs[id].qtParent.value;
    var ms := RemovedFrom(ns, rs, p, id).value;
    var e := RemovedId(ns, rs, p, id);
    var a := ReinsertTarget(ns, rs, id);
    RemovedChildren(ns, rs, p, id, s);
    PushedChildren(ms, a, rs[id].bounds, id, s);
    var r := Reinserted(ns, rs, id).nodes;
    assert r == Pushed(ms, a, rs[id].bounds, id).nodes;
    Swap(multiset(GetChildren(r, s)), multiset(GetChildren(ns, s)), multiset(GetChildren(ms, s)), e, id);
  }

  /** Multiset arithmetic for ReinsertKeepsChildren. */
  lemma Swap(a: multiset<RectId>, b: multiset<RectId>, c: multiset<RectId>, e: RectId, id: RectId)
    requires a == c + multiset{id} && b == c + multiset{e}
    ensures a + multiset{e} == b + multiset{id}
  {
    forall x: RectId ensures (a + multiset{e})[x] == (b + multiset{id})[x] {
      assert (a + multiset{e})[x] == c[x] + multiset{id}[x] + multiset{e}[x];
      assert (b + multiset{id})[x] == c[x] + multiset{e}[x] + multiset{id}[x];
    }
  }

  /** `reinsert` can lose the child: when `_remove` empties the whole tree under the root s,
      `_try_cleanup` detaches the old owner's branch, and a climb that stops below the root
      stores the child in a node the root no longer reaches. */
  lemma {:induction false} ReinsertMayDetach(ns: seq<Node>, rs: seq<Rectangle>, id: RectId, s: NodeId)
    requires WellFormed(ns) && id < |rs| && Stored(ns, |rs|) && Claims(ns, rs, id) && s < |ns|
    requires ns[s].parent == None
    requires Reinserted(ns, rs, id).outcome.Ok? && rs[id].qtParent.value in Reach(ns, s)
    requires GetChildren(RemovedFrom(ns, rs, rs[id].qtParent.value, id).value, s) == []
    requires ReinsertTarget(ns, rs, id) != s
    ensures var re := Reinserted(ns, rs, id);
      && id in re.nodes[re.outcome.value].direct
      && re.nodes[s].quadrants == [] && GetChildren(re.nodes, s) == []
  {
    var p := rs[id].qtParent.value;
    var ms := RemovedFrom(ns, rs, p, id).value;
    var a := ReinsertTarget(ns, rs, id);
    var b := rs[id].bounds;
    RemoveToEmpty(ns, rs, p, id, s);
    // a and s are both on p's parent chain and s has no parent, so a lies below s.
    ReachChain(ns, s, p);
    ChainKept(ns, ms, p, s);
    ChainKept(ns, ms, p, a);
    if a < s {
      ChainLinear(ms, p, a, s);
      assert false;
    }
    PushedFrame(ms, a, b, id);
    assert Reinserted(ns, rs, id).nodes[s] == ms[s];
  }

  /** `reinsert` keeps every subdivided node non-empty, whether the climb succeeds or not. */
  lemma ReinsertKeepsPruned(ns: seq<Node>, rs: seq<Rectangle>, id: RectId)
    requires WellFormed(ns) && id < |rs| && Stored(ns, |rs|) && Claims(ns, rs, id) && Pruned(ns)
    ensures Pruned(Reinserted(ns, rs, id).nodes)
  {
    if rs[id].qtParent.Some? {
      var p := rs[id].qtParent.value;
      if RemovedFrom(ns, rs, p, id).Ok? {
        var ms := RemovedFrom(ns, rs, p, id).value;
        RemoveKeepsPruned(ns, rs, p, id);
        var c := ClimbTarget(ms, p, rs[id].bounds);
        if c.Some? {
          InsertKeepsPruned(ms, rs, c.value, id);
          assert Inserted(ms, rs, c.value, id) == Pushed(ms, c.value, rs[id].bounds, id);
          assert Reinserted(ns, rs, id).nodes == Pushed(ms, c.value, rs[id].bounds, id).nodes;
        } else {
          assert Reinserted(ns, rs, id).nodes == ms;
        }
      }
    }
  }

  /** Rectangle id is held once in the whole arena, by node p. */
  predicate HeldOnce(ns: seq<Node>, id: RectId, p: NodeId) {
    p < |ns| && multiset(ns[p].direct)[id] == 1 &&
    forall t | 0 <= t < |ns| && t != p :: id !in ns[t].direct
  }

  /** `list.remove` of a child held once, from a tree placed but for that child's bounds,
      leaves a tree placed for the current bounds. */
  lemma DroppedPlaced(ns: seq<Node>, rs: seq<Rectangle>, before: seq<Rectangle>, p: NodeId, id: RectId)
    requires WellFormed(ns) && p < |ns| && id < |rs| && Stored(ns, |rs|)
    requires |before| == |rs| && Placed(ns, before)
    requires forall x | 0 <= x < |rs| && x != id :: before[x].bounds == rs[x].bounds
    requires HeldOnce(ns, id, p) && RemovedFrom(ns, rs, p, id).Ok? && RemovedId(ns, rs, p, id) == id
    ensures Dropped(ns, rs, p, id).Ok? && Placed(Dropped(ns, rs, p, id).value, rs)
  {
    DroppedSteps(ns, rs, p, id);
    var dr := Dropped(ns, rs, p, id).value;
    forall t, j | 0 <= t < |dr| && 0 <= j < |dr[t].direct|
      ensures dr[t].direct[j] < |rs| && Proper(rs[dr[t].direct[j]].bounds) &&
              Fits(rs[dr[t].direct[j]].bounds, dr[t].bounds)
    {
      var x := dr[t].direct[j];
      assert x in multiset(dr[t].direct);
      if t == p {
        assert multiset(dr[p].direct)[id] == 0;
        assert x in multiset(ns[p].direct);
      } else {
        assert dr[t] == ns[t];
      }
      assert x in ns[t].direct && x != id;
      var j' :| 0 <= j' < |ns[t].direct| && ns[t].direct[j'] == x;
    }
  }

  /** Moving a rectangle and reinserting it places it again. The tree was placed for the
      rectangles `before`, which differ from rs only in the bounds of the moved child id; the
      child is held once, by its owner, and `_remove` takes out the child itself, not an equal
      twin. Then, whether the climb succeeds or fails, every stored rectangle of the new arena
      is proper and lies inside the node that holds it. */
  lemma ReinsertPlaces(ns: seq<Node>, rs: seq<Rectangle>, before: seq<Rectangle>, id: RectId)
    requires WellFormed(ns) && id < |rs| && Stored(ns, |rs|) && Claims(ns, rs, id)
    requires |before| == |rs| && Placed(ns, before) && Proper(rs[id].bounds)
    requires forall x | 0 <= x < |rs| && x != id :: before[x].bounds == rs[x].bounds
    requires rs[id].qtParent.Some? && HeldOnce(ns, id, rs[id].qtParent.value)
    requires RemovedFrom(ns, rs, rs[id].qtParent.value, id).Ok?
    requires RemovedId(ns, rs, rs[id].qtParent.value, id) == id
    ensures Placed(Reinserted(ns, rs, id).nodes, rs)
  {
    var p := rs[id].qtParent.value;
    DroppedPlaced(ns, rs, before, p, id);
    DroppedSteps(ns, rs, p, id);
    var dr := Dropped(ns, rs, p, id).value;
    var ms := CleanedUp(dr, p);
    assert RemovedFrom(ns, rs, p, id) == Ok(ms);
    CleanupOnlyPrunes(dr, p);
    assert Placed(ms, rs);
    var c := ClimbTarget(ms, p, rs[id].bounds);
    if c.Some? {
      PushedPlaced(ms, rs, c.value, id);
      assert Reinserted(ns, rs, id).nodes == Pushed(ms, c.value, rs[id].bounds, id).nodes;
    } else {
      assert Reinserted(ns, rs, id).nodes == ms;
    }
  }

  /** A node on t's parent chain, no lower in index than s, is in s's subtree when t is. */
  lemma {:induction false} ChainInReach(ns: seq<Node>, s: NodeId, t: NodeId, a: NodeId)
    requires WellFormed(ns) && s < |ns| && t in Reach(ns, s) && Chain(ns, t, a) && s <= a
    ensures a in Reach(ns, s)
    decreases t
  {
    if t != a {
      if t == s {
        ChainBelow(ns, ParentOf(ns, t), a);
        assert false;
      }
      ReachStep(ns, s, t);
      ChainInReach(ns, s, ParentOf(ns, t), a);
    }
  }
}
