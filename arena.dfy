/** The `Node` objects of quadpy/quadtree.py as records in an arena: a node id stands for
    a reference to a `Node`, a rectangle id for a reference to a `Rectangle`. This module
    holds the records, the shape every reachable state keeps, and the read-only recursions
    `get_children`, `_get_depth` and `_get_number_of_nodes`. */
module Arena {
  import opened Results
  import opened Geometry

  type NodeId = nat
  type RectId = nat

  /** One node: its fixed bounds, its remaining subdivision budget (`max_depth`), its parent,
      its quadrants (none or four) and its `direct_children`. */
  datatype Node = Node(bounds: Bounds, maxDepth: int, parent: Option<NodeId>,
                       quadrants: seq<NodeId>, direct: seq<RectId>)

  /** The ids of four consecutive nodes, as `subdivide` allocates them. */
  function Quads(k: nat): seq<NodeId> {
    [k, k + 1, k + 2, k + 3]
  }

  /** Quadrant i of node n is the i-th cell of its bounds, one level further down, parented to n. */
  predicate ChildOk(ns: seq<Node>, n: NodeId, i: nat)
    requires n < |ns| && |ns[n].quadrants| == 4 && i < 4
  {
    var q := ns[n].quadrants[i];
    q < |ns| && ns[q].parent == Some(n) && ns[q].maxDepth == ns[n].maxDepth - 1 &&
    ns[q].bounds == Quadrant(ns[n].bounds, i)
  }

  predicate NodeOk(ns: seq<Node>, n: NodeId)
    requires n < |ns|
  {
    var nd := ns[n];
    && nd.maxDepth >= 0
    && Proper(nd.bounds)
    && (nd.parent.Some? ==> nd.parent.value < n)
    && (nd.quadrants != [] ==>
          && |nd.quadrants| == 4
          && nd.quadrants == Quads(nd.quadrants[0])
          && n < nd.quadrants[0]
          && forall i | 0 <= i < 4 :: ChildOk(ns, n, i))
  }

  /** The shape of every arena the operations produce: budgets never negative, quadrants empty
      or exactly four, children one level down inside their parent, parents allocated earlier. */
  predicate WellFormed(ns: seq<Node>) {
    forall n | 0 <= n < |ns| :: NodeOk(ns, n)
  }

  /** Every stored rectangle id refers to an allocated rectangle. */
  predicate Stored(ns: seq<Node>, rectCount: nat) {
    forall t, j | 0 <= t < |ns| && 0 <= j < |ns[t].direct| :: ns[t].direct[j] < rectCount
  }

  /** The i-th quadrant of a subdivided node, with the facts WellFormed gives about it. */
  function Quad(ns: seq<Node>, n: NodeId, i: nat): (q: NodeId)
    requires WellFormed(ns) && n < |ns| && ns[n].quadrants != [] && i < 4
    ensures |ns[n].quadrants| == 4 && n < q < |ns| && q == ns[n].quadrants[i] && q == ns[n].quadrants[0] + i
    ensures ns[q].parent == Some(n) && ns[q].maxDepth == ns[n].maxDepth - 1 >= 0
    ensures ns[q].bounds == Quadrant(ns[n].bounds, i)
  {
    assert NodeOk(ns, n) && ChildOk(ns, n, i);
    assert NodeOk(ns, ns[n].quadrants[i]);
    ns[n].quadrants[i]
  }

  /** Which quadrant's subtree holds a node below n. */
  function QuadOf(ns: seq<Node>, n: NodeId, t: NodeId): (i: nat)
    requires WellFormed(ns) && n < |ns| && t in Reach(ns, n) && t != n
    ensures ns[n].quadrants != [] && i < 4 && t in Reach(ns, Quad(ns, n, i))
  {
    if t in Reach(ns, Quad(ns, n, 0)) then 0
    else if t in Reach(ns, Quad(ns, n, 1)) then 1
    else if t in Reach(ns, Quad(ns, n, 2)) then 2
    else 3
  }

  /** The parent of a non-root node; it was allocated before the node. */
  function ParentOf(ns: seq<Node>, t: NodeId): (p: NodeId)
    requires WellFormed(ns) && t < |ns| && ns[t].parent.Some?
    ensures p < t && ns[t].parent == Some(p)
  {
    assert NodeOk(ns, t);
    ns[t].parent.value
  }

  /** The nodes of the subtree hanging from n through `quadrants`. */
  function Reach(ns: seq<Node>, n: NodeId): (r: set<NodeId>)
    requires WellFormed(ns) && n < |ns|
    ensures n in r && forall t :: t in r ==> n <= t < |ns|
    decreases ns[n].maxDepth
  {
    if ns[n].quadrants == [] then {n}
    else {n} + Reach(ns, Quad(ns, n, 0)) + Reach(ns, Quad(ns, n, 1))
             + Reach(ns, Quad(ns, n, 2)) + Reach(ns, Quad(ns, n, 3))
  }

  /** `get_children`: the node's direct children followed by those of each quadrant in order. */
  function GetChildren(ns: seq<Node>, n: NodeId): seq<RectId>
    requires WellFormed(ns) && n < |ns|
    decreases ns[n].maxDepth
  {
    if ns[n].quadrants == [] then ns[n].direct
    else ns[n].direct + GetChildren(ns, Quad(ns, n, 0)) + GetChildren(ns, Quad(ns, n, 1))
                      + GetChildren(ns, Quad(ns, n, 2)) + GetChildren(ns, Quad(ns, n, 3))
  }

  function Max(a: nat, b: nat): nat {
    if a >= b then a else b
  }

  /** `_get_depth`: 0 for a leaf, else one more than the deepest quadrant. */
  function Depth(ns: seq<Node>, n: NodeId): nat
    requires WellFormed(ns) && n < |ns|
    decreases ns[n].maxDepth
  {
    if ns[n].quadrants == [] then 0
    else 1 + Max(Max(Depth(ns, Quad(ns, n, 0)), Depth(ns, Quad(ns, n, 1))),
                 Max(Depth(ns, Quad(ns, n, 2)), Depth(ns, Quad(ns, n, 3))))
  }

  /** `_get_number_of_nodes`: the nodes of the subtree, this one included. */
  function NodeCount(ns: seq<Node>, n: NodeId): nat
    requires WellFormed(ns) && n < |ns|
    decreases ns[n].maxDepth
  {
    if ns[n].quadrants == [] then 1
    else 1 + NodeCount(ns, Quad(ns, n, 0)) + NodeCount(ns, Quad(ns, n, 1))
           + NodeCount(ns, Quad(ns, n, 2)) + NodeCount(ns, Quad(ns, n, 3))
  }

  /** Following `parent` links from t reaches a. */
  predicate Chain(ns: seq<Node>, t: NodeId, a: NodeId)
    requires WellFormed(ns) && t < |ns|
    decreases t
  {
    t == a || (ns[t].parent.Some? && Chain(ns, ParentOf(ns, t), a))
  }

  lemma {:induction false} ChainBelow(ns: seq<Node>, t: NodeId, a: NodeId)
    requires WellFormed(ns) && t < |ns| && Chain(ns, t, a)
    ensures a <= t
    decreases t
  {
    if t != a {
      ChainBelow(ns, ParentOf(ns, t), a);
    }
  }

  lemma {:induction false} ChainExtend(ns: seq<Node>, t: NodeId, q: NodeId, s: NodeId)
    requires WellFormed(ns) && t < |ns| && q < |ns|
    requires Chain(ns, t, q) && ns[q].parent == Some(s)
    ensures Chain(ns, t, s)
    decreases t
  {
    if t != q {
      ChainExtend(ns, ParentOf(ns, t), q, s);
    } else {
      assert Chain(ns, ParentOf(ns, q), s);
    }
  }

  /** The parent chain of a node is a single path: two nodes on it are chained to each other. */
  lemma {:induction false} ChainLinear(ns: seq<Node>, m: NodeId, a: NodeId, b: NodeId)
    requires WellFormed(ns) && m < |ns| && Chain(ns, m, a) && Chain(ns, m, b) && a <= b
    ensures b < |ns| && Chain(ns, b, a)
    decreases m
  {
    ChainBelow(ns, m, b);
    if m == b {
    } else if m == a {
      ChainBelow(ns, m, b);
    } else {
      ChainLinear(ns, ParentOf(ns, m), a, b);
    }
  }

  /** Every node of a subtree reaches its root by parent links. */
  lemma {:induction false} ReachChain(ns: seq<Node>, s: NodeId, t: NodeId)
    requires WellFormed(ns) && s < |ns| && t in Reach(ns, s)
    ensures Chain(ns, t, s)
    decreases ns[s].maxDepth
  {
    if t != s {
      var i := QuadOf(ns, s, t);
      ReachChain(ns, Quad(ns, s, i), t);
      ChainExtend(ns, t, Quad(ns, s, i), s);
    }
  }

  /** The subtrees of two different quadrants share no node: the arena is a forest. */
  lemma {:induction false} SiblingsDisjoint(ns: seq<Node>, n: NodeId, i: nat, j: nat, t: NodeId)
    requires WellFormed(ns) && n < |ns| && ns[n].quadrants != [] && i < 4 && j < 4 && i != j
    requires t in Reach(ns, Quad(ns, n, i))
    ensures t !in Reach(ns, Quad(ns, n, j))
  {
    if t in Reach(ns, Quad(ns, n, j)) {
      var lo, hi := if i < j then i else j, if i < j then j else i;
      ReachChain(ns, Quad(ns, n, i), t);
      ReachChain(ns, Quad(ns, n, j), t);
      ChainLinear(ns, t, Quad(ns, n, lo), Quad(ns, n, hi));
      assert Chain(ns, ParentOf(ns, Quad(ns, n, hi)), Quad(ns, n, lo));
      ChainBelow(ns, n, Quad(ns, n, lo));
      assert false;
    }
  }

  lemma {:induction false} ReachTransitive(ns: seq<Node>, s: NodeId, t: NodeId, u: NodeId)
    requires WellFormed(ns) && s < |ns| && t in Reach(ns, s) && u in Reach(ns, t)
    ensures u in Reach(ns, s)
    decreases ns[s].maxDepth
  {
    if t != s {
      var i := QuadOf(ns, s, t);
      ReachTransitive(ns, Quad(ns, s, i), t, u);
    }
  }

  /** Inside a subtree, the parent of every node but the top one is in the subtree too. */
  lemma {:induction false} ReachStep(ns: seq<Node>, s: NodeId, t: NodeId)
    requires WellFormed(ns) && s < |ns| && t in Reach(ns, s) && t != s
    ensures ns[t].parent.Some? && ParentOf(ns, t) in Reach(ns, s)
    decreases ns[s].maxDepth
  {
    var i := QuadOf(ns, s, t);
    if t != Quad(ns, s, i) {
      ReachStep(ns, Quad(ns, s, i), t);
    }
  }

  /** Every node of a subtree lies inside the subtree's top node. */
  lemma {:induction false} ReachFits(ns: seq<Node>, s: NodeId, t: NodeId)
    requires WellFormed(ns) && s < |ns| && t in Reach(ns, s)
    ensures Fits(ns[t].bounds, ns[s].bounds)
    decreases ns[s].maxDepth
  {
    if t != s {
      var i := QuadOf(ns, s, t);
      var q := Quad(ns, s, i);
      ReachFits(ns, q, t);
      assert Fits(ns[q].bounds, ns[s].bounds) by {
        assert NodeOk(ns, s);
        QuadrantInside(ns[s].bounds, i);
      }
      FitsTransitive(ns[t].bounds, ns[q].bounds, ns[s].bounds);
    }
  }

  /** The read-only recursions depend only on the records of the subtree. */
  lemma {:induction false} ReachFrame(ns: seq<Node>, ms: seq<Node>, s: NodeId)
    requires WellFormed(ns) && WellFormed(ms) && s < |ns| && s < |ms|
    requires forall u :: u in Reach(ns, s) ==> u < |ms| && ms[u] == ns[u]
    ensures Reach(ms, s) == Reach(ns, s)
    ensures GetChildren(ms, s) == GetChildren(ns, s)
    ensures Depth(ms, s) == Depth(ns, s) && NodeCount(ms, s) == NodeCount(ns, s)
    decreases ns[s].maxDepth, 1
  {
    assert ms[s] == ns[s];
    if ns[s].quadrants != [] {
      ReachFrameQuad(ns, ms, s, 0);
      ReachFrameQuad(ns, ms, s, 1);
      ReachFrameQuad(ns, ms, s, 2);
      ReachFrameQuad(ns, ms, s, 3);
    }
  }

  lemma {:induction false} ReachFrameQuad(ns: seq<Node>, ms: seq<Node>, s: NodeId, i: nat)
    requires WellFormed(ns) && WellFormed(ms) && s < |ns| && s < |ms| && i < 4
    requires forall u :: u in Reach(ns, s) ==> u < |ms| && ms[u] == ns[u]
    requires ns[s].quadrants != [] && ms[s] == ns[s]
    ensures Quad(ms, s, i) == Quad(ns, s, i)
    ensures Reach(ms, Quad(ms, s, i)) == Reach(ns, Quad(ns, s, i))
    ensures GetChildren(ms, Quad(ms, s, i)) == GetChildren(ns, Quad(ns, s, i))
    ensures Depth(ms, Quad(ms, s, i)) == Depth(ns, Quad(ns, s, i))
    ensures NodeCount(ms, Quad(ms, s, i)) == NodeCount(ns, Quad(ns, s, i))
    decreases ns[s].maxDepth, 0
  {
    var q := Quad(ns, s, i);
    forall u | u in Reach(ns, q) ensures u < |ms| && ms[u] == ns[u] {
      ReachTransitive(ns, s, q, u);
    }
    ReachFrame(ns, ms, q);
  }

  /** A subtree holds no rectangle iff none of its nodes has a direct child. */
  lemma {:induction false} ChildrenEmpty(ns: seq<Node>, s: NodeId)
    requires WellFormed(ns) && s < |ns|
    ensures GetChildren(ns, s) == [] <==> forall u :: u in Reach(ns, s) ==> ns[u].direct == []
    decreases ns[s].maxDepth
  {
    if ns[s].quadrants != [] {
      forall i | 0 <= i < 4 {
        ChildrenEmpty(ns, Quad(ns, s, i));
      }
    }
  }

  /** The direct children of every node of a subtree are among the subtree's children. */
  lemma {:induction false} DirectInChildren(ns: seq<Node>, s: NodeId, t: NodeId)
    requires WellFormed(ns) && s < |ns| && t in Reach(ns, s)
    ensures multiset(ns[t].direct) <= multiset(GetChildren(ns, s))
    decreases ns[s].maxDepth
  {
    if t != s {
      var i := QuadOf(ns, s, t);
      DirectInChildren(ns, Quad(ns, s, i), t);
    }
  }

  /** Records with ids below k fix membership of the nodes below k in a subtree. */
  lemma {:induction false} ReachLowFrame(ns: seq<Node>, ms: seq<Node>, s: NodeId, t: NodeId, k: nat)
    requires WellFormed(ns) && WellFormed(ms) && s < |ns| && |ms| == |ns|
    requires forall u :: 0 <= u < k && u < |ns| ==> ms[u] == ns[u]
    requires t in Reach(ns, s) && t < k
    ensures t in Reach(ms, s)
    decreases ns[s].maxDepth
  {
    assert ms[s] == ns[s];
    if t != s {
      var i := QuadOf(ns, s, t);
      ReachLowFrame(ns, ms, Quad(ns, s, i), t, k);
      assert Quad(ms, s, i) == Quad(ns, s, i);
    }
  }

  /** Later states keep every existing node's bounds, budget and parent. */
  predicate Preserves(ns: seq<Node>, ms: seq<Node>) {
    |ns| <= |ms| &&
    forall u | 0 <= u < |ns| ::
      ms[u].bounds == ns[u].bounds && ms[u].maxDepth == ns[u].maxDepth && ms[u].parent == ns[u].parent
  }

  /** A quadrant's subtree is part of its parent's. */
  lemma {:induction false} QuadInReach(ns: seq<Node>, n: NodeId, i: nat)
    requires WellFormed(ns) && n < |ns| && ns[n].quadrants != [] && i < 4
    ensures Reach(ns, Quad(ns, n, i)) <= Reach(ns, n)
  {
    if i == 0 {
    } else if i == 1 {
    } else if i == 2 {
    } else {
    }
  }

  /** States with the same quadrant lists have the same subtrees, depths and node counts. */
  lemma {:induction false} ReachShape(ns: seq<Node>, ms: seq<Node>, s: NodeId)
    requires WellFormed(ns) && WellFormed(ms) && |ms| == |ns| && s < |ns|
    requires forall u | 0 <= u < |ns| :: ms[u].quadrants == ns[u].quadrants && ms[u].maxDepth == ns[u].maxDepth
    ensures Reach(ms, s) == Reach(ns, s)
    ensures Depth(ms, s) == Depth(ns, s) && NodeCount(ms, s) == NodeCount(ns, s)
    decreases ns[s].maxDepth
  {
    if ns[s].quadrants != [] {
      assert Quad(ms, s, 0) == Quad(ns, s, 0) && Quad(ms, s, 3) == Quad(ns, s, 3);
      ReachShape(ns, ms, Quad(ns, s, 0));
      ReachShape(ns, ms, Quad(ns, s, 1));
      ReachShape(ns, ms, Quad(ns, s, 2));
      ReachShape(ns, ms, Quad(ns, s, 3));
    }
  }

  /** States that differ only in direct children are equally well formed. */
  lemma {:induction false} DirectOnlyWellFormed(ns: seq<Node>, ms: seq<Node>)
    requires WellFormed(ns) && |ms| == |ns|
    requires forall u | 0 <= u < |ns| ::
      ms[u].bounds == ns[u].bounds && ms[u].maxDepth == ns[u].maxDepth &&
      ms[u].parent == ns[u].parent && ms[u].quadrants == ns[u].quadrants
    ensures WellFormed(ms)
  {
    forall u | 0 <= u < |ms| ensures NodeOk(ms, u) {
      assert NodeOk(ns, u);
      if ns[u].quadrants != [] {
        forall i | 0 <= i < 4 ensures ChildOk(ms, u, i) {
          assert ChildOk(ns, u, i);
          var q := ns[u].quadrants[i];
          assert ms[q].bounds == ns[q].bounds && ms[q].parent == ns[q].parent;
        }
      }
    }
  }

  /** The state with node p's direct children replaced by d. */
  function WithDirect(ns: seq<Node>, p: NodeId, d: seq<RectId>): (ms: seq<Node>)
    requires WellFormed(ns) && p < |ns|
    ensures WellFormed(ms) && |ms| == |ns| && Preserves(ns, ms)
    ensures forall u | 0 <= u < |ns| :: ms[u].quadrants == ns[u].quadrants
  {
    var ms := ns[p := ns[p].(direct := d)];
    DirectOnlyWellFormed(ns, ms);
    ms
  }

  /** Replacing one node's direct children changes the children of exactly the subtrees that
      hold that node, and changes them by exactly that replacement. */
  lemma {:induction false} DirectReplaced(ns: seq<Node>, p: NodeId, d: seq<RectId>, s: NodeId)
    requires WellFormed(ns) && p < |ns| && s < |ns|
    ensures Reach(WithDirect(ns, p, d), s) == Reach(ns, s)
    ensures p in Reach(ns, s) ==>
      multiset(GetChildren(WithDirect(ns, p, d), s)) + multiset(ns[p].direct) ==
      multiset(GetChildren(ns, s)) + multiset(d)
    ensures p !in Reach(ns, s) ==> GetChildren(WithDirect(ns, p, d), s) == GetChildren(ns, s)
    decreases ns[s].maxDepth, 1
  {
    var ms := WithDirect(ns, p, d);
    ReachShape(ns, ms, s);
    if p !in Reach(ns, s) {
      ReachFrame(ns, ms, s);
    } else if ns[s].quadrants != [] {
      DirectReplacedBelow(ns, p, d, s);
    }
  }

  lemma {:induction false} DirectReplacedBelow(ns: seq<Node>, p: NodeId, d: seq<RectId>, s: NodeId)
    requires WellFormed(ns) && p < |ns| && s < |ns| && p in Reach(ns, s) && ns[s].quadrants != []
    ensures multiset(GetChildren(WithDirect(ns, p, d), s)) + multiset(ns[p].direct) ==
            multiset(GetChildren(ns, s)) + multiset(d)
    decreases ns[s].maxDepth, 0
  {
    var ms := WithDirect(ns, p, d);
    var q0, q1, q2, q3 := Quad(ns, s, 0), Quad(ns, s, 1), Quad(ns, s, 2), Quad(ns, s, 3);
    assert Quad(ms, s, 0) == q0 && Quad(ms, s, 1) == q1 && Quad(ms, s, 2) == q2 && Quad(ms, s, 3) == q3;
    DirectReplaced(ns, p, d, q0);
    DirectReplaced(ns, p, d, q1);
    DirectReplaced(ns, p, d, q2);
    DirectReplaced(ns, p, d, q3);
    var a0, a1, a2, a3 := multiset(GetChildren(ns, q0)), multiset(GetChildren(ns, q1)),
                          multiset(GetChildren(ns, q2)), multiset(GetChildren(ns, q3));
    var b0, b1, b2, b3 := multiset(GetChildren(ms, q0)), multiset(GetChildren(ms, q1)),
                          multiset(GetChildren(ms, q2)), multiset(GetChildren(ms, q3));
    assert multiset(GetChildren(ns, s)) == multiset(ns[s].direct) + a0 + a1 + a2 + a3;
    assert multiset(GetChildren(ms, s)) == multiset(ms[s].direct) + b0 + b1 + b2 + b3;
    var e, m := multiset(ns[p].direct), multiset(d);
    var x := multiset(ns[s].direct);
    if p == s {
      assert b0 == a0 && b1 == a1 && b2 == a2 && b3 == a3;
      assert multiset(GetChildren(ms, s)) == m + a0 + a1 + a2 + a3;
    } else {
      var j := QuadOf(ns, s, p);
      forall i | 0 <= i < 4 && i != j ensures p !in Reach(ns, Quad(ns, s, i)) {
        SiblingsDisjoint(ns, s, j, i, p);
      }
      assert ms[s].direct == ns[s].direct;
      assert j == 0 ==> b0 + e == a0 + m && b1 == a1 && b2 == a2 && b3 == a3;
      assert j == 1 ==> b1 + e == a1 + m && b0 == a0 && b2 == a2 && b3 == a3;
      assert j == 2 ==> b2 + e == a2 + m && b0 == a0 && b1 == a1 && b3 == a3;
      assert j == 3 ==> b3 + e == a3 + m && b0 == a0 && b1 == a1 && b2 == a2;
      Exchange(x, a0, a1, a2, a3, b0, b1, b2, b3, e, m, j);
    }
  }

  /** Multiset bookkeeping for DirectReplacedBelow: one quadrant's children change, the rest stay. */
  lemma Exchange(x: multiset<RectId>, a0: multiset<RectId>, a1: multiset<RectId>, a2: multiset<RectId>,
                 a3: multiset<RectId>, b0: multiset<RectId>, b1: multiset<RectId>, b2: multiset<RectId>,
                 b3: multiset<RectId>, e: multiset<RectId>, m: multiset<RectId>, j: nat)
    requires j < 4
    requires j == 0 ==> b0 + e == a0 + m && b1 == a1 && b2 == a2 && b3 == a3
    requires j == 1 ==> b1 + e == a1 + m && b0 == a0 && b2 == a2 && b3 == a3
    requires j == 2 ==> b2 + e == a2 + m && b0 == a0 && b1 == a1 && b3 == a3
    requires j == 3 ==> b3 + e == a3 + m && b0 == a0 && b1 == a1 && b2 == a2
    ensures x + b0 + b1 + b2 + b3 + e == x + a0 + a1 + a2 + a3 + m
  {
    forall r: RectId ensures (x + b0 + b1 + b2 + b3 + e)[r] == (x + a0 + a1 + a2 + a3 + m)[r] {
      assert (b0 + e)[r] == b0[r] + e[r] && (b1 + e)[r] == b1[r] + e[r];
      assert (b2 + e)[r] == b2[r] + e[r] && (b3 + e)[r] == b3[r] + e[r];
      assert (a0 + m)[r] == a0[r] + m[r] && (a1 + m)[r] == a1[r] + m[r];
      assert (a2 + m)[r] == a2[r] + m[r] && (a3 + m)[r] == a3[r] + m[r];
    }
  }

  /** A direct child of any node of a subtree is one of the subtree's children. */
  lemma {:induction false} OwnerInChildren(ns: seq<Node>, s: NodeId, t: NodeId, x: RectId)
    requires WellFormed(ns) && s < |ns| && t in Reach(ns, s) && x in ns[t].direct
    ensures x in GetChildren(ns, s)
  {
    DirectInChildren(ns, s, t);
    assert x in multiset(ns[t].direct);
  }

  /** A node's quadrant ids are allocated. */
  lemma QuadsAllocated(ns: seq<Node>, n: NodeId)
    requires WellFormed(ns) && n < |ns|
    ensures forall j | 0 <= j < |ns[n].quadrants| :: ns[n].quadrants[j] < |ns|
  {
    assert NodeOk(ns, n);
    if ns[n].quadrants != [] {
      forall j | 0 <= j < |ns[n].quadrants| ensures ns[n].quadrants[j] < |ns| {
        assert ChildOk(ns, n, j);
      }
    }
  }

  /** Multiset cancellation: removing a common summand. */
  lemma Cancel(a: multiset<RectId>, b: multiset<RectId>, c: multiset<RectId>, x: multiset<RectId>)
    requires a + c == b + (c + x)
    ensures a == b + x
  {
    forall r: RectId ensures a[r] == (b + x)[r] {
      assert (a + c)[r] == a[r] + c[r] && (b + (c + x))[r] == b[r] + c[r] + x[r];
    }
  }

  /** A node whose quadrants other than the i-th are leaves is one level above that quadrant
      and counts its nodes plus four. */
  lemma {:induction false} OnePath(ns: seq<Node>, n: NodeId, i: nat)
    requires WellFormed(ns) && n < |ns| && ns[n].quadrants != [] && i < 4
    requires forall j | 0 <= j < 4 && j != i :: ns[Quad(ns, n, j)].quadrants == []
    ensures Depth(ns, n) == 1 + Depth(ns, Quad(ns, n, i))
    ensures NodeCount(ns, n) == 4 + NodeCount(ns, Quad(ns, n, i))
  {
    var q0, q1, q2, q3 := Quad(ns, n, 0), Quad(ns, n, 1), Quad(ns, n, 2), Quad(ns, n, 3);
    if i == 0 {
      assert ns[q1].quadrants == [] && ns[q2].quadrants == [] && ns[q3].quadrants == [];
    } else if i == 1 {
      assert ns[q0].quadrants == [] && ns[q2].quadrants == [] && ns[q3].quadrants == [];
    } else if i == 2 {
      assert ns[q0].quadrants == [] && ns[q1].quadrants == [] && ns[q3].quadrants == [];
    } else {
      assert ns[q0].quadrants == [] && ns[q1].quadrants == [] && ns[q2].quadrants == [];
    }
  }
}
