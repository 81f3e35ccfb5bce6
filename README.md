# quadpy's MX-CIF quadtree, modelled in Dafny

quadpy is a Python quadtree of the MX-CIF kind: a spatial index over axis-aligned rectangles
`(x_min, y_min, x_max, y_max)`. A `Node` covers a rectangular cell and has a depth budget
`max_depth`. On demand it splits into four quadrant nodes (`subdivide`). An inserted rectangle
is pushed down to the deepest quadrant that contains it entirely (`insert` / `_insert`); a
rectangle that spans a midline, or reaches a node without budget, stays in that node's
`direct_children`. Each stored rectangle records its owner in `qt_parent`:
- `remove` goes straight to that owner and then prunes upwards (`_remove`, `_try_cleanup`,
  `clear`);
- `reinsert` removes the rectangle and climbs the old owner's `parent` links to the first node
  that still fits the rectangle's bounds (`_reinsert`).

Three recursive queries return the stored rectangles in a region: enclosed by it, overlapping
it, or under a point. Two diagnostics report a tree's depth and node count.

## How the model is built

- `Geometry` (geometry.dfy): bounds as four exact reals; `fits`, `overlaps`, `fix_bounds`; the
  four cells of `subdivide` as `Quadrant`.
- `Rectangles` (rectangle.dfy): the `Rectangle` record, its validating constructor, and `__eq__`
  / `__ne__`, which compare bounds only.
- `Arena` (arena.dfy): Python object references become indices.
  - The nodes live in a sequence `ns: seq<Node>`. A `Node` record holds its bounds, its budget,
    its `parent` id, its four `quadrants` ids (or none) and its `direct` children.
  - The direct children are ids into a sequence of rectangles.
  - `WellFormed` is the invariant every operation keeps. A node's quadrants are absent, or they
    are four consecutive later ids, each with the right cell of the parent's bounds, one less
    budget, and the node as its parent. Every parent id is smaller than its child's id.
  - `get_children`, `_get_depth` and `_get_number_of_nodes` are `GetChildren`, `Depth` and
    `NodeCount`.
- `Queries` (queries.dfy): the three region queries. Each is proved equal to a filter of
  `get_children`.
- `Insertion` (insertion.dfy): the node constructor, `subdivide`, `_insert` and `insert` as
  functions from one arena to the next, and their properties.
- `Removal` (removal.dfy): `clear`, `_try_cleanup`, `list.remove`, `_remove`, `remove`, the climb
  of `_reinsert`, and `reinsert`.
- `Quadtree` (heap.dfy): class `Heap` holds the two mutable sequences `nodes` and `rects`. Its
  methods are the imperative operations, written as the source writes them:
  - `Clear` recurses through the quadrants in a loop;
  - `PushDown` searches the quadrants with a loop;
  - `TryCleanup` and `ReinsertFrom` climb the parent links.

  Each method is proved to leave exactly the state the corresponding function of `Insertion` or
  `Removal` computes. Each keeps `Valid`: the arena is well formed, held ids are allocated, and
  every `qt_parent` names a node. `Clear` and `TryCleanup` also accept arenas that are only well
  formed; they keep `Valid` whenever it held before.
- `Scenarios` (scenarios.dfy): the repository's tests in tests/test_basic.py, stated as lemmas
  and proved for every depth budget the tests use.

### Behaviour of the code worth knowing

- `insert` does not normalise the rectangle's bounds. Only the queries call `fix_bounds`.
- `_remove` is `list.remove`. It deletes the first element of the node's `direct_children` that
  compares equal, by bounds, which may be a different rectangle with the same bounds. It does
  not clear `qt_parent`.
- `reinsert` climbs from the rectangle's old owner along the `parent` links. When no node on
  that chain, the root included, fits the new bounds, it raises and the rectangle stays removed.
- Inserting a rectangle under a node whose subtree holds nothing and then removing it leaves
  that node a bare leaf with depth 0 and one node, even when the node was already split
  (`Scenarios.InsertThenRemove`). Otherwise `_try_cleanup` clears upwards only as far as the
  first node whose subtree still holds a rectangle, and stops there. So a node that holds a
  rectangle `insert` appended without splitting, one that does not fit the node
  (quadpy/quadtree.py:89-90), keeps the split that a later insert makes: its depth goes from 0
  to 1 and stays 1 after that rectangle is removed (`Scenarios.AppendedKeepsSplit`).
- `reinsert` can lose the rectangle. The `_try_cleanup` inside `_remove` runs before the climb.
  When the rectangle was the only one under the root, the cleanup clears the root's quadrants.
  A climb that then stops below the root appends the rectangle to a node the root no longer
  reaches. `Removal.ReinsertMayDetach` states this in general. `Scenarios.ReinsertSamePlace`
  shows it on the same-place test of tests/test_basic.py:156-176. The model keeps the code's
  behaviour: after that reinsert the root is a bare leaf, where the test expects depth d.

## Model

| member | source | states |
|---|---|---|
| Geometry.Fits | quadpy/quadtree.py:33-38 | the four comparisons of `fits`; its properties are the lemmas below |
| Geometry.Overlaps | quadpy/quadtree.py:41-47 | the two chained comparisons per axis of `overlaps`; see Geometry.OverlapsIff |
| Geometry.Quadrant | quadpy/quadtree.py:68-79 | the i-th midpoint cell `subdivide` gives the i-th quadrant; see Geometry.QuadrantInside |
| Geometry.FitsReflexive | quadpy/quadtree.py:33-38 | every bounds fits itself |
| Geometry.FitsTransitive | quadpy/quadtree.py:33-38 | fitting is transitive |
| Geometry.FitsAntisymmetric | quadpy/quadtree.py:33-38 | two bounds fit each other exactly when they are equal |
| Geometry.OverlapsSymmetric | quadpy/quadtree.py:41-47 | `overlaps` is symmetric |
| Geometry.FitsImpliesOverlaps | quadpy/quadtree.py:33-47 | proper bounds that fit another also overlap it |
| Geometry.OverlapsIff | quadpy/quadtree.py:41-47 | for proper bounds, `overlaps` holds iff the closed intervals intersect on both axes |
| Geometry.FixBounds | quadpy/quadtree.py:146-152 | the result is proper, keeps each axis's pair of values as a multiset, and is the input itself when that was proper |
| Geometry.FixBoundsIdempotent | quadpy/quadtree.py:146-152 | normalising twice is normalising once |
| Geometry.QuadrantInside | quadpy/quadtree.py:68-79 | each of the four cells of proper bounds is proper and fits inside them |
| Geometry.DisjointFromContainer | quadpy/quadtree.py:158-160 | a rectangle inside a cell neither fits nor overlaps a region that misses the cell |
| Geometry.InsideContainer | quadpy/quadtree.py:162-164 | a rectangle inside a cell that fits a region fits and overlaps that region |
| Rectangles.NewRectangle | quadpy/rectangle.py:6-12 | succeeds iff x_min <= x_max and y_min <= y_max; the x check comes first; the new rectangle has exactly the given bounds, no `qt_data` and no owner |
| Rectangles.Equal | quadpy/rectangle.py:18-19 | `__eq__` compares bounds only; Removal.IndexOfEqualIsFirstEqual and Scenarios.RemoveTakesTwin show what that does to `list.remove` |
| Rectangles.NotEqual | quadpy/rectangle.py:21-22 | `__ne__`; `list.remove` passes over exactly the held rectangles it holds for (Removal.IndexOfEqualIsFirstEqual) |
| Rectangles.EqualIsEquivalence | quadpy/rectangle.py:18-19 | `__eq__` is reflexive, symmetric and transitive |
| Arena.Quad | quadpy/quadtree.py:74-79 | a subdivided node has four quadrants at consecutive later ids; each is parented to the node, has one less budget and covers cell i |
| Arena.QuadOf | quadpy/quadtree.py:142-144 | every node below a node lies under one of its four quadrants |
| Arena.GetChildren | quadpy/quadtree.py:142-144 | the node's direct children, then its quadrants' children in order; see Arena.DirectInChildren, Arena.ChildrenEmpty and Arena.ReachFrame |
| Arena.Depth | quadpy/quadtree.py:199-203 | 0 at a leaf, else one more than the deepest quadrant; see Arena.OnePath and Insertion.PushedShape |
| Arena.NodeCount | quadpy/quadtree.py:205-209 | 1 at a leaf, else one more than the quadrants' counts; see Arena.OnePath and Insertion.PushedShape |
| Arena.ParentOf | quadpy/quadtree.py:65 | a node's parent was allocated before it |
| Arena.Reach | quadpy/quadtree.py:142-144 | the subtree of n contains n and only nodes allocated from n on |
| Arena.ChainLinear | quadpy/quadtree.py:122-124 | a node's parent chain is a single path: two nodes on it are chained to each other |
| Arena.ReachChain | quadpy/quadtree.py:122-124 | every node of a subtree climbs to its top node through parent links |
| Arena.SiblingsDisjoint | quadpy/quadtree.py:74-79 | the subtrees of two different quadrants share no node |
| Arena.ReachTransitive | quadpy/quadtree.py:142-144 | a subtree of a subtree is part of the subtree |
| Arena.ReachStep | quadpy/quadtree.py:122-124 | inside a subtree, each non-top node's parent is in the subtree too |
| Arena.ReachFits | quadpy/quadtree.py:68-79 | every node of a subtree lies inside its top node |
| Arena.ReachFrame | quadpy/quadtree.py:142-144 | `get_children`, depth and node count of a subtree depend only on the subtree's records |
| Arena.ReachFrameQuad | quadpy/quadtree.py:142-144 | the same frame property for one quadrant of an unchanged node |
| Arena.ChildrenEmpty | quadpy/quadtree.py:137 | `get_children` is empty iff no node of the subtree has a direct child |
| Arena.DirectInChildren | quadpy/quadtree.py:142-144 | each node's direct children are, as a multiset, among the children of every subtree holding it |
| Arena.OwnerInChildren | quadpy/quadtree.py:142-144 | a rectangle held by a node is returned by `get_children` of every subtree holding that node |
| Arena.ReachLowFrame | quadpy/quadtree.py:142-144 | membership of earlier nodes in a subtree is fixed by the earlier records |
| Arena.QuadInReach | quadpy/quadtree.py:142-144 | a quadrant's subtree is part of its parent's |
| Arena.ReachShape | quadpy/quadtree.py:199-209 | arenas with the same quadrant lists and budgets have the same subtrees, depths and node counts |
| Arena.DirectOnlyWellFormed | quadpy/quadtree.py:131 | changing only direct children keeps the arena well formed |
| Arena.WithDirect | quadpy/quadtree.py:110 | replacing one node's direct children keeps the arena well formed and every node's bounds, budget, parent and quadrants |
| Arena.DirectReplaced | quadpy/quadtree.py:142-144 | replacing p's direct children changes the children of exactly the subtrees holding p, by the multiset difference |
| Arena.DirectReplacedBelow | quadpy/quadtree.py:143-144 | the same multiset exchange through a subdivided node's quadrant lists |
| Arena.OnePath | quadpy/quadtree.py:199-209 | a node whose other quadrants are leaves has one more level and four more nodes than quadrant i |
| Queries.FilterKeeps | quadpy/quadtree.py:170-171 | a comprehension keeps exactly the elements that pass, never more often than they occur |
| Queries.FilterConcat | quadpy/quadtree.py:167-173 | filtering distributes over concatenation |
| Queries.FilterAgree | quadpy/quadtree.py:170-171 | tests that agree on the elements select the same elements |
| Queries.FilterNone | quadpy/quadtree.py:158-160 | a test no element passes selects nothing |
| Queries.FilterAll | quadpy/quadtree.py:162-164 | a test every element passes selects everything |
| Queries.ChildrenFit | quadpy/quadtree.py:98-111 | in a placed tree, every rectangle a subtree returns is proper and lies inside the subtree's top node |
| Queries.MissedNode | quadpy/quadtree.py:158-160 | a region that misses a node encloses and overlaps none of its rectangles, so returning [] there loses nothing |
| Queries.CoveredNode | quadpy/quadtree.py:162-164 | a region holding a node encloses and overlaps all its rectangles, so returning `get_children` there is exact |
| Queries.EnclosedChildren | quadpy/quadtree.py:154-173 | `get_enclosed_children`, branch for branch; see Queries.EnclosedExact and Queries.EnclosedReturnsStored |
| Queries.OverlappedChildren | quadpy/quadtree.py:175-194 | `get_overlapped_children`, branch for branch; see Queries.OverlappedExact and Queries.OverlappedReturnsStored |
| Queries.ChildrenUnderPoint | quadpy/quadtree.py:196-197 | the overlap query on the degenerate region (x, y, x, y); see Queries.UnderPointExact |
| Queries.EnclosedExact | quadpy/quadtree.py:154-173 | in a placed tree, `get_enclosed_children` is exactly the rectangles of `get_children` that fit the normalised region, in order |
| Queries.OverlappedExact | quadpy/quadtree.py:175-194 | in a placed tree, `get_overlapped_children` is exactly the rectangles of `get_children` that overlap the normalised region, in order |
| Queries.UnderPointExact | quadpy/quadtree.py:196-197 | in a placed tree, `get_children_under_point` is exactly the rectangles of `get_children` that contain the point |
| Queries.EnclosedReturnsStored | quadpy/quadtree.py:154-173 | in any tree, the enclosed query returns only stored rectangles, each at most as often as stored |
| Queries.OverlappedReturnsStored | quadpy/quadtree.py:175-194 | in any tree, the overlap query returns only stored rectangles, each at most as often as stored |
| Insertion.MakeNode | quadpy/quadtree.py:51-66 | fails with the x error, then the y error, then the depth error, in that order; otherwise it is a node with the given bounds, budget and parent, no quadrants and no direct children |
| Insertion.FreshTree | quadpy/quadtree.py:51-66 | a new root is a well-formed tree holding nothing, with depth 0 and one node |
| Insertion.Allocated | quadpy/quadtree.py:74-79 | allocating a leaf keeps the arena well formed and every existing subtree's children |
| Insertion.SplitWellFormed | quadpy/quadtree.py:68-79 | the four new cells are leaves with the right bounds, one less budget and the node as parent; the node now lists them; nothing else changes |
| Insertion.Subdivided | quadpy/quadtree.py:68-79 | `subdivide` keeps the arena well formed and the node's direct children, and appends four leaf quadrants as above |
| Insertion.MaybeSubdivided | quadpy/quadtree.py:99-101 | `_insert` splits exactly the leaves with budget left and changes nothing otherwise |
| Insertion.FirstFitting | quadpy/quadtree.py:105-108 | the loop picks the first quadrant in list order that the rectangle fits, or none |
| Insertion.Appended | quadpy/quadtree.py:110 | appending a child keeps the arena well formed and every node's bounds, budget and parent |
| Insertion.Pushed | quadpy/quadtree.py:98-111 | `_insert` keeps the arena well formed and every existing node's bounds, budget and parent; the owner is allocated |
| Insertion.Inserted | quadpy/quadtree.py:86-91 | `insert` keeps the arena well formed and every stored id allocated |
| Insertion.Tagged | quadpy/quadtree.py:111 | `qt_parent` is set to the owner and no other field or rectangle changes |
| Insertion.SubdividedKeeps | quadpy/quadtree.py:68-79 | subdividing adds no rectangle to any subtree and only grows subtrees |
| Insertion.AppendedChildren | quadpy/quadtree.py:110 | appending at n adds exactly that id to every subtree holding n and changes no other subtree |
| Insertion.PushedFrame | quadpy/quadtree.py:98-111 | `_insert` on n changes no existing node outside n's subtree |
| Insertion.PushedOwner | quadpy/quadtree.py:98-111 | the owner is in n's subtree and has the id appended to its old direct children; when the rectangle fits n it fits the owner, and the owner is a leaf without budget or none of its quadrants fits the rectangle |
| Insertion.PushedChildren | quadpy/quadtree.py:98-111 | `_insert` adds exactly one occurrence of the id to every subtree holding n |
| Insertion.PushedGrows | quadpy/quadtree.py:98-111 | `_insert` loses no rectangle from any subtree |
| Insertion.PushedSubdividesForIt | quadpy/quadtree.py:99-101 | every node `_insert` subdivides ends up holding the new rectangle below it |
| Insertion.AppendedStored | quadpy/quadtree.py:110 | appending an allocated id keeps every stored id allocated |
| Insertion.PushedStored | quadpy/quadtree.py:98-111 | `_insert` of an allocated id keeps every stored id allocated |
| Insertion.PushedPlaced | quadpy/quadtree.py:98-111 | `_insert` of a proper rectangle that fits n keeps every stored rectangle inside its owner |
| Insertion.PushedShape | quadpy/quadtree.py:98-111 | from a leaf, `_insert` allocates four nodes per level it descends: depth is a quarter of the new nodes, the count is one more than them, and depth stays within the budget |
| Insertion.DescendBeside | quadpy/quadtree.py:199-209 | descending into quadrant i beside leaf siblings adds one level and four nodes above that quadrant |
| Insertion.PushedShapeStop | quadpy/quadtree.py:98-111 | a rectangle that fits no new cell splits the leaf once: depth 1 and five nodes |
| Insertion.CrossingStaysAtTop | quadpy/quadtree.py:98-111 | a rectangle crossing a midline stays in the node it was inserted at, after one split |
| Insertion.InsertPlacement | quadpy/quadtree.py:86-91 | `insert` appends the id to the owner's direct children; if the rectangle fits n, it fits the owner and no quadrant of the owner fits it; otherwise the owner is n and no node is allocated |
| Insertion.InsertAddsOne | quadpy/quadtree.py:86-91 | `insert` adds exactly one occurrence of the rectangle to every subtree holding n and removes none from any subtree |
| Insertion.InsertKeepsPruned | quadpy/quadtree.py:86-91 | `insert` keeps every subdivided node non-empty |
| Insertion.InsertKeepsPlaced | quadpy/quadtree.py:86-91 | inserting a proper rectangle that fits n keeps every stored rectangle inside its owner |
| Insertion.InsertOutsideUnplaced | quadpy/quadtree.py:89-96 | a rectangle that does not fit n is kept at n anyway, outside n's bounds |
| Insertion.CornerDescends | quadpy/quadtree.py:98-111 | a rectangle close enough to a corner of a square leaf, for its budget, descends to the full budget: depth = budget, 1 + 4 * budget nodes |
| Insertion.CornerGrows | quadpy/quadtree.py:98-111 | that descent allocates four nodes per level of budget |
| Insertion.CornerSplit | quadpy/quadtree.py:99-108 | at each level the rectangle picks the corner's quadrant, a leaf square of half the side, and stays close enough to the corner for the remaining budget |
| Insertion.CornerStep | quadpy/quadtree.py:105-108 | a rectangle near corner j fits cell j, no earlier cell, and is near corner j of cell j |
| Insertion.CellInCorner | quadpy/quadtree.py:74-79 | the distance to the corner carries over to the cell against half the side |
| Insertion.CornerCellFirst | quadpy/quadtree.py:105-108 | a rectangle less than half the side from corner j fits cell j and none before it |
| Removal.EmptiedWellFormed | quadpy/quadtree.py:82-84 | emptying any set of nodes keeps the arena well formed and every bounds, budget and parent |
| Removal.EmptiedTwice | quadpy/quadtree.py:83 | emptying twice is emptying the union |
| Removal.Cleared | quadpy/quadtree.py:81-84 | `clear` empties every node of the subtree and nothing outside it; the node then has no children, depth 0 and one node |
| Removal.CleanedUp | quadpy/quadtree.py:134-140 | `_try_cleanup` keeps the arena well formed and every bounds, budget and parent |
| Removal.IndexOfEqual | quadpy/quadtree.py:131 | `list.remove` finds the first element with equal bounds, or none |
| Removal.IndexOfEqualIsFirstEqual | quadpy/quadtree.py:131 | the search finds an element iff some held rectangle is `__eq__` to the child; the one found is `__eq__` to it, and `__ne__` holds for every element before it, so it may be a twin rather than the child |
| Removal.Without | quadpy/quadtree.py:131 | deleting one element removes exactly that occurrence |
| Removal.RemovedFrom | quadpy/quadtree.py:130-132 | `_remove` keeps the arena well formed; its only failure is no equal element |
| Removal.Dropped | quadpy/quadtree.py:131 | `list.remove` keeps the arena well formed; its only failure is no equal element |
| Removal.DroppedSteps | quadpy/quadtree.py:130-132 | `_remove` is `list.remove` then `_try_cleanup`; the first step only takes one equal rectangle out of p's direct children and keeps every stored id allocated |
| Removal.RemovedId | quadpy/quadtree.py:131 | the rectangle taken out is one of p's direct children with the child's bounds |
| Removal.Removed | quadpy/quadtree.py:126-128 | `remove` fails with the never-inserted error exactly when the child has no owner; on success the arena stays well formed with every bounds, budget and parent kept |
| Removal.ClearedKeepsChildren | quadpy/quadtree.py:81-84 | clearing an empty subtree changes no subtree's children |
| Removal.ClearedOnlyPrunes | quadpy/quadtree.py:81-84 | clearing an empty subtree only drops quadrant lists |
| Removal.CleanupKeepsChildren | quadpy/quadtree.py:134-140 | `_try_cleanup` changes no subtree's children |
| Removal.CleanupOnlyPrunes | quadpy/quadtree.py:134-140 | `_try_cleanup` keeps every node's direct children and only drops quadrant lists |
| Removal.CleanupPrunes | quadpy/quadtree.py:134-140 | cleanup from inside an empty subtree leaves the subtree's top a leaf |
| Removal.ClearedKeepsStored | quadpy/quadtree.py:81-84 | after `clear`, every id still held is allocated |
| Removal.CleanupKeepsStored | quadpy/quadtree.py:134-140 | after `_try_cleanup`, every id still held is allocated |
| Removal.CleanupKeepsPruned | quadpy/quadtree.py:134-140 | `_try_cleanup` keeps every subdivided node non-empty |
| Removal.ShrinksKeeps | quadpy/quadtree.py:131 | dropping ids keeps every stored id allocated and every stored rectangle inside its owner |
| Removal.RemovedShrinks | quadpy/quadtree.py:130-132 | `_remove` only drops ids |
| Removal.RemoveFinds | quadpy/quadtree.py:131 | `_remove` fails iff no direct child of p has the child's bounds; in particular it succeeds on the owner |
| Removal.RemovedChildren | quadpy/quadtree.py:130-132 | `_remove` takes exactly one equal rectangle out of every subtree holding p and changes no other subtree |
| Removal.RemoveKeepsPruned | quadpy/quadtree.py:130-132 | `_remove` keeps every subdivided node non-empty |
| Removal.RemoveKeepsPlaced | quadpy/quadtree.py:130-132 | `_remove` keeps every stored id allocated and every stored rectangle inside its owner |
| Removal.RemoveToEmpty | quadpy/quadtree.py:130-140 | when `_remove` empties a subtree holding p, the subtree's top becomes a leaf: depth 0, one node |
| Removal.ChainKept | quadpy/quadtree.py:122-124 | arenas with the same parent links have the same chains |
| Removal.ClimbTarget | quadpy/quadtree.py:118-124 | the climb stops at the first node on t's parent chain that the bounds fit, or fails when none does |
| Removal.ReinsertKeepsPruned | quadpy/quadtree.py:113-124 | `reinsert` keeps every subdivided node non-empty, whether the climb succeeds or fails |
| Removal.DroppedPlaced | quadpy/quadtree.py:131 | removing a child held once, from a tree placed but for the child's new bounds, gives a tree placed for the current bounds |
| Removal.ReinsertPlaces | quadpy/quadtree.py:113-124 | after the caller moves a child that is held once and that `_remove` itself takes out, `reinsert` leaves every stored rectangle proper and inside its node, whether the climb succeeds or fails |
| Removal.ChainInReach | quadpy/quadtree.py:122-124 | a node on the parent chain of a subtree's node, at or after the top's id, is in the subtree |
| Removal.Reinserted | quadpy/quadtree.py:113-116 | `reinsert` keeps the arena well formed; it fails with the never-inserted error exactly when the child has no owner; every failure before the climb changes nothing; when the climb fails the arena is the one `_remove` left; on success the new owner holds the child and the child's bounds fit it |
| Removal.ReinsertKeepsChildren | quadpy/quadtree.py:113-116 | when the climb stops inside subtree s, exactly the removed rectangle leaves s and the child comes back into it |
| Removal.ReinsertMayDetach | quadpy/quadtree.py:113-140 | when the removal empties the root's tree and the climb stops below the root, the child is held by a node while the root is a bare leaf with no children |
| Quadtree.BelowDisjoint | quadpy/quadtree.py:83 | a node under quadrant j is not under any earlier quadrant |
| Quadtree.ClearNext | quadpy/quadtree.py:83 | while `clear` iterates, the next quadrant's subtree is still intact |
| Quadtree.ClearDone | quadpy/quadtree.py:81-84 | clearing all four quadrants and dropping the list is `clear` |
| Quadtree.ReachSplit | quadpy/quadtree.py:142-144 | a subdivided node's subtree is the node plus the subtrees of its four quadrants |
| Quadtree.Heap.NewNode | quadpy/quadtree.py:51-66 | the constructor allocates the new node, or reports the constructor's error and changes nothing |
| Quadtree.Heap.NewRect | quadpy/rectangle.py:6-12 | the rectangle constructor allocates the record, or reports its error and changes nothing |
| Quadtree.Heap.SetBounds | tests/test_basic.py:195 | a caller moves a rectangle by assigning its bounds; nothing else changes |
| Quadtree.Heap.Subdivide | quadpy/quadtree.py:68-79 | splits the node as Subdivided does; with no budget left, the new quadrants' constructor fails on the negative depth and nothing changes |
| Quadtree.Heap.Clear | quadpy/quadtree.py:81-84 | the new arena is Cleared of the old one; `Valid` is kept whenever it held |
| Quadtree.Heap.Insert | quadpy/quadtree.py:86-91 | the new state is Inserted and Tagged of the old one, and stays valid; a pruned arena stays pruned |
| Quadtree.Heap.Keep | quadpy/quadtree.py:110-111 | appends the child at n and makes n its `qt_parent` |
| Quadtree.Heap.PushDown | quadpy/quadtree.py:98-111 | the new state is Pushed and Tagged of the old one, and stays valid |
| Quadtree.Heap.Remove | quadpy/quadtree.py:126-128 | the new arena is Removed of the old one, or the error is reported and nothing changes; a pruned arena stays pruned |
| Quadtree.Heap.RemoveFrom | quadpy/quadtree.py:130-132 | the new arena is RemovedFrom of the old one, or the error is reported and nothing changes; a pruned arena stays pruned |
| Quadtree.Heap.Drop | quadpy/quadtree.py:131 | the new arena is Dropped of the old one, or the error is reported and nothing changes |
| Quadtree.Heap.TryCleanup | quadpy/quadtree.py:134-140 | the new arena is CleanedUp of the old one; `Valid` is kept whenever it held |
| Quadtree.Heap.Reinsert | quadpy/quadtree.py:113-116 | the new state is Reinserted's, with `qt_parent` set on success; it stays valid and keeps every subdivided node non-empty |
| Quadtree.Heap.ReinsertFrom | quadpy/quadtree.py:118-124 | climbs to ClimbTarget and then behaves as PushDown there, or fails without change when not even the root fits |
| Scenarios.RemoveTakesTwin | quadpy/quadtree.py:126-132 | with two distinct but equal rectangles in one node, `remove` of the second takes out the first, and the second stays |
| Scenarios.RemoveOnly | quadpy/quadtree.py:130-140 | removing the only rectangle of a subtree leaves its top an empty leaf: depth 0, one node |
| Scenarios.InsertThenRemove | tests/test_basic.py:86-97 | insert then remove on a node holding nothing gives back an empty leaf with depth 0 and one node |
| Scenarios.OutsideRootInsert | quadpy/quadtree.py:86-111 | `insert` of a fitting rectangle at a budget-1 root that holds an outside rectangle splits the root and appends the new one in quadrant 0 |
| Scenarios.OutsideRootRemove | quadpy/quadtree.py:126-140 | removing that rectangle clears quadrant 0 and stops the cleanup at the root, which keeps its quadrants: `get_children` is the outside rectangle, depth 1, five nodes |
| Scenarios.AppendedKeepsSplit | quadpy/quadtree.py:86-140 | a root holding a rectangle appended without a split goes from depth 0 and one node to depth 1 and five nodes through an insert and the matching remove |
| Scenarios.InsertHolds | quadpy/quadtree.py:86-111 | the owner `insert` picks is in the subtree and holds the rectangle |
| Scenarios.TestRoot | tests/test_basic.py:48 | `Node(0, 0, 1024, 1024, d)` succeeds and is a fresh, empty tree |
| Scenarios.TestRect | tests/test_basic.py:51 | the test's rectangle constructor succeeds |
| Scenarios.CornerTest | tests/test_basic.py:37-57 | for each corner rectangle and each d < 20: after insert, depth d and 1 + 4d nodes; after remove, depth 0 and one node |
| Scenarios.CornerInserted | tests/test_basic.py:52-54 | the insertion half of the corner test |
| Scenarios.CornerPlaced | tests/test_basic.py:38-43 | each corner rectangle lies in the square and close enough to its corner for every budget below 20 |
| Scenarios.CrossingTest | tests/test_basic.py:60-77 | for each crossing rectangle and 0 < d < 20: it stays at the root, `get_children` is [rect], depth 1 and five nodes |
| Scenarios.CrossingApart | tests/test_basic.py:60-66 | each crossing rectangle lies in the square but in none of its cells |
| Scenarios.FirstQuadrantOwner | quadpy/quadtree.py:98-111 | a rectangle that fits the first cell of a leaf ends up under its first quadrant |
| Scenarios.ClimbToRoot | quadpy/quadtree.py:118-124 | from under the root's first quadrant, bounds that fit the root but not that cell climb to the root |
| Scenarios.FirstCellInsert | tests/test_basic.py:185-188 | the first insertion of the other-quadrant test puts the rectangle under the root's first quadrant, as the tree's only rectangle |
| Scenarios.ReinsertSamePlace | tests/test_basic.py:156-176 | as the code behaves: reinsert succeeds, but the child sits in a detached node and the root is a bare leaf of depth 0 and one node |
| Scenarios.ReinsertThroughRoot | quadpy/quadtree.py:113-124 | reinserting the only rectangle, moved out of the first cell, prunes to the bare root and inserts from the root again; the root then returns exactly [id] |
| Scenarios.MovedReinsert | tests/test_basic.py:194-198 | reinserting the only rectangle, moved near another corner, regrows the full descent: depth d, 1 + 4d nodes, and the root returns [id] |
| Scenarios.RegrowRoot | quadpy/quadtree.py:98-111 | the corner descent from a root pruned to a leaf |
| Scenarios.RemovedOnly | quadpy/quadtree.py:131 | in a tree whose only rectangle is id, `list.remove` can only take out id |
| Scenarios.FarCorner | tests/test_basic.py:181 | the far-corner bounds fit the square but not its first cell |
| Scenarios.ReinsertElsewhere | tests/test_basic.py:178-198 | for 0 < d < 20: insert near one corner, move the bounds to the far corner, reinsert; the result has depth d, 1 + 4d nodes, and the root returns [rect] |

## Left out

- Floating point. Coordinates are exact reals. In `subdivide` (quadpy/quadtree.py:71-72), Python
  2 rounds `/ 2` down toward minus infinity on integer bounds, and floats round. The model does
  neither.
- `__repr__` and `__hash__` (string formatting and Python's tuple hash), `random_bounds`,
  `random_rectangle`, demo/demo.py and setup.py (random numbers, a GUI, packaging): they are not
  part of this model.
- The clear test (tests/test_basic.py:145-152) inserts 300 random rectangles. Only its outcome is
  stated, for every tree: Removal.Cleared leaves no children.
- Exceptions are values. `ValueError` and the `AttributeError` of a never-inserted child become
  `Err` / `Fail` results. After a failure nothing changes, except that a failed `reinsert` climb
  leaves the child removed, as in the code.
- Object identity becomes ids. A rectangle's `qt_parent` is an owner id. `qt_data` is kept but
  never written, as in the source.
- Quadtree.Heap.Remove: takes no node argument, because the `self` of `Node.remove` is never used
  (quadpy/quadtree.py:126-128).
- Quadtree.Heap.Reinsert: takes no node argument, because the `self` of `Node.reinsert` is never
  used either (quadpy/quadtree.py:113-116).
- Quadtree.Heap.Subdivide: it re-subdivides a node that already has quadrants, as the source does.
  The old quadrant records stay in the arena, unreachable.
- Scenarios.ReinsertSamePlace: the same-place test expects depth d after the reinsert
  (tests/test_basic.py:173-176). The code as written does not achieve that, so the lemma states
  the code's outcome instead.
- Scenarios.ReinsertElsewhere: it does not state the test's check after the first insertion
  (depth d and 1 + 4d nodes with bounds (0.01, 0.01, 0.02, 0.02), tests/test_basic.py:187-188);
  Scenarios.FirstCellInsert states only where that rectangle goes. It is proved for 0 < d < 20,
  which includes the test's 1..13.
- Per-quadrant depth lists: no lemma states them (tests/test_basic.py:168-169, 175-176, 191-192,
  201-202). Only the whole tree's depth and node count are stated.
- The tabulated `fits` / `overlaps` cases (tests/test_basic.py:1-35) are not restated: they are
  instances of Geometry.Fits and Geometry.Overlaps.
- The two-rectangle tests (tests/test_basic.py:100-143) are covered only by the general lemmas
  Insertion.InsertAddsOne and Removal.RemovedChildren. Those lemmas state `get_children` as a
  multiset, not its order.
- The stress tests (tests/test_stress.py) run on random rectangles. tests/test_get_enclosed_and_overlapped.py
  runs on fixed tilings, 10 by 10 tiles over (0, 0, 1000, 1000) and overlapping 9 by 9 tiles every
  3 units over (0, 0, 90, 90); only the point offsets of its point test are random. Their
  concrete tilings are not restated. What they check is covered by the general lemmas
  Queries.EnclosedExact, Queries.OverlappedExact, Queries.UnderPointExact,
  Insertion.InsertAddsOne and Removal.RemovedChildren.
- Insertion.MakeNode takes the depth budget explicitly. The default `max_depth=4` of `Node`
  (quadpy/quadtree.py:51) is Insertion.DefaultMaxDepth, the default argument of Quadtree.Heap.NewNode.
- Rectangles.Equal compares two rectangles only. `__eq__` with an object of another type (the
  `isinstance` check of quadpy/rectangle.py:19) is not part of this model.
