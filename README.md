# QuadTree in Dafny

A Dafny model of the region quadtree in `QuadTree/QuadTree.cs`: the point and
query-region geometry (`QtRectangle`, `QtCircle`) and the `QuadTree` node with
its constructor, `subdivide`, `insert` and the two `query` overloads.

The project has three modules:

- `Geometry` (Geometry.dfy) holds the value types `Point`, `Rect` (centre
  plus half-extents), `Circle` (centre, radius and the cached `rSquared`) and
  `Region`, which is a box or a circle. It also holds the `contains` and
  `intersects` tests as predicates, written branch for branch as in the
  source, with lemmas saying what the tests mean.
- `QuadModel` (QuadModel.dfy) is the quadtree as a value: a `Tree` datatype
  with the invariant `Valid` and the abstraction `Elements`, which lists the
  stored points in visiting order. It has a functional `Insert` and an
  accumulator-style `Query` that mirrors `query(range, ref found)`. The
  lemmas prove the properties of insert and query.
- `QuadTrees` (QuadTrees.dfy) is the `QuadTree` class. Its mutable fields
  are `boundary`, `capacity`, `points`, `divided` and the four child
  references. A ghost field `model` holds the subtree's value and `Repr`
  holds its footprint. `Insert` is proved to change `model` exactly as
  `QuadModel.Insert` does. `Query`, a loop over the node's points followed
  by the recursive calls, is proved to return exactly `QuadModel.Query`.
  So every property proved in `QuadModel` holds for the class.

Point coordinates (C# `double`) are exact reals. Box and circle fields (C#
`int`) are unbounded integers. C# `w/2` is modelled by `QuadModel.Half`,
which truncates toward zero.

Behaviour of the code that the model makes explicit:

- **Odd half-extents leave gaps.** When a half-extent is odd, the four child
  boxes lie inside the parent but do not cover it, so no child accepts a
  point that falls in the gap.
  - `QuadModel.ChildrenMissPointWhenOdd` shows the first such node under the
    demonstration root box (200, 200, 200, 200).
  - `QuadModel.InsertIntoGapSubdividesAndFails` shows a full node that
    subdivides and then returns false for a point in such a gap.
- **A negative radius makes pruning wrong.** The circle constructor does not
  check the sign of the radius. With a negative radius, the circle test can
  reject a box that shares a point with the circle, so a circle query
  misses that point (`Geometry.NegativeRadiusPrunesWrongly`).
  - The query correctness lemmas therefore ask for `RegionWf`: a circle
    region must have `radius >= 0` and a consistent `rSquared`.
  - `QuadTrees.QuadTree.Query` itself has no such requirement.

## Model

| member | source | states |
|---|---|---|
| Geometry.Contains | QuadTree/QuadTree.cs:29-35 | `QtRectangle.contains` (the four inclusive comparisons) holds exactly when the point is within the half-extent of the centre on both axes |
| Geometry.CornersContained | QuadTree/QuadTree.cs:29-35 | all four edges of a box are inclusive: its corners are contained, and a point just past any of the four edges is not |
| Geometry.Intersects | QuadTree/QuadTree.cs:37-43 | `QtRectangle.intersects` (none of the four separation tests holds) is true exactly when on each axis the centres are at most the sum of the half-extents apart |
| Geometry.IntersectsSymmetric | QuadTree/QuadTree.cs:37-43 | the box intersection test gives the same answer with its arguments swapped |
| Geometry.IntersectsIffOverlap | QuadTree/QuadTree.cs:37-43 | for non-negative extents, `intersects` holds exactly when the two closed boxes share a point, so boxes that only touch intersect |
| Geometry.SharedPointIntersects | QuadTree/QuadTree.cs:29-43 | whatever the extents, a point contained by both boxes makes `intersects` true |
| Geometry.MakeCircle | QuadTree/QuadTree.cs:53-68 | the constructor keeps centre and radius; `contains(p)` then holds exactly when the squared distance from the centre is at most `radius * radius`, edge included |
| Geometry.CircleContains | QuadTree/QuadTree.cs:61-68 | `QtCircle.contains` compares the squared distance with the cached `rSquared`; with a consistent cache that is exactly a comparison with the square of the radius |
| Geometry.CircleIntersects | QuadTree/QuadTree.cs:70-94 | `QtCircle.intersects` (its three branches in order) only accepts a box that meets the circle's bounding square, and always accepts a box holding the centre when the radius is not negative |
| Geometry.CircleContainsWithinRadius | QuadTree/QuadTree.cs:61-68 | a point a well-formed circle contains is within `radius` of the centre on each axis |
| Geometry.CircleIntersectsSound | QuadTree/QuadTree.cs:70-94 | the circle test never rejects a box that shares a point with a circle whose radius is not negative |
| Geometry.NegativeRadiusPrunesWrongly | QuadTree/QuadTree.cs:53-94 | with radius -1 the circle contains (1, 0), the box (2, 0, 1, 1) contains it too, and the circle test still says they do not intersect |
| Geometry.RegionContains | QuadTree/QuadTree.cs:160-216 | the `range.contains(p)` of the `query` overload for the region's kind (lines 174 and 203); a point a well-formed region contains lies in the region's bounding box |
| Geometry.RegionIntersects | QuadTree/QuadTree.cs:160-216 | the `range.intersects(this.boundary)` of the `query` overload for the region's kind (lines 167 and 196) never accepts a boundary that the region's bounding box misses |
| Geometry.RegionIntersectsSound | QuadTree/QuadTree.cs:37-94 | for both kinds of query region, a region sharing a point with a box passes that box's intersection test |
| QuadModel.Half | QuadTree/QuadTree.cs:115-127 | `w/2` rounds toward zero: twice the result lies within 1 of `w`, on the same side of zero |
| QuadModel.ChildBox | QuadTree/QuadTree.cs:115-127 | the box `subdivide` gives a quadrant has half-extents `w/2`, `h/2`, lies inside a parent with non-negative extents, and lies on its own side of the parent's centre (west or east, and north, the smaller `y`, or south) |
| QuadModel.ChildBoxInside | QuadTree/QuadTree.cs:113-128 | each child box has half-extents `w/2`, `h/2`, lies inside the parent box, and every point it contains the parent contains |
| QuadModel.ChildrenCoverWhenEven | QuadTree/QuadTree.cs:113-128 | with even half-extents, every point of the parent lies in some child |
| QuadModel.ChildrenMissPointWhenOdd | QuadTree/QuadTree.cs:113-128 | the node three levels down the north-west corner of the root (200, 200, 200, 200) has half-extent 25 and contains (0.5, 10) while none of its children does |
| QuadModel.Empty | QuadTree/QuadTree.cs:105-111 | the node the constructor creates is valid and stores no point |
| QuadModel.Subdivide | QuadTree/QuadTree.cs:113-128 | `subdivide` yields four valid children with the quadrant boxes and the parent's capacity, storing no point between them |
| QuadModel.SubdivideValid | QuadTree/QuadTree.cs:143-149 | a full, undivided node whose half-extents exceed 4 stays valid once subdivided |
| QuadModel.Insert | QuadTree/QuadTree.cs:130-158 | insert keeps the tree valid, so no node holds more than `capacity` points and only full nodes with half-extents above 4 have children; boundary and capacity are kept; an accepted point lies in the boundary |
| QuadModel.InsertIntoChildren | QuadTree/QuadTree.cs:150-151 | offering the point to the children in the order NE, NW, SE, SW keeps the four children valid, with their boxes and capacity |
| QuadModel.InsertIntoChild | QuadTree/QuadTree.cs:150-151 | one `child.insert(point)` of the chain: that child becomes its insert result, the other three are kept, and the children stay valid |
| QuadModel.InsertAddsExactlyOne | QuadTree/QuadTree.cs:130-158 | the multiset of stored points grows by exactly the point when insert returns true and is unchanged when it returns false |
| QuadModel.InsertIntoChildrenAddsExactlyOne | QuadTree/QuadTree.cs:150-151 | the same for the children taken together: exactly one child takes the point, or none does |
| QuadModel.InsertOutsideUnchanged | QuadTree/QuadTree.cs:132-135 | a point outside the boundary is rejected and the tree is left exactly as it was |
| QuadModel.InsertIntoGapSubdividesAndFails | QuadTree/QuadTree.cs:143-151 | a full node of half-extent 25 given a point in the gap subdivides and then returns false: a failed insert can still create nodes |
| QuadModel.ElementsInBoundary | QuadTree/QuadTree.cs:130-158 | every point stored anywhere in a valid subtree lies in that subtree's boundary |
| QuadModel.HeightBound | QuadTree/QuadTree.cs:143-151 | a valid tree of height k > 0 has both half-extents above 2^(k+1), so the recursion of insert and query is bounded by the logarithm of the root box |
| QuadModel.Filter | QuadTree/QuadTree.cs:172-178 | the `foreach` over the node's points appends only points the region contains, each taken from the node's points |
| QuadModel.Query | QuadTree/QuadTree.cs:160-216 | `query(range, ref found)` as a function of `found`: on any tree and region it only appends to `found` (which stays a prefix), and only points the region contains |
| QuadModel.QueryChildren | QuadTree/QuadTree.cs:179-185 | the recursive calls NW, NE, SW, SE of a divided node, each continuing the list the previous one left: they too only append points the region contains |
| QuadModel.QueryAppendsMatches | QuadTree/QuadTree.cs:160-216 | query appends to `found` exactly the stored points the region contains, in visiting order (node first, then NW, NE, SW, SE); pruning loses nothing |
| QuadModel.QueryCounts | QuadTree/QuadTree.cs:160-216 | `found` stays a prefix of the result, and each point appears in the appended part exactly as often as it is stored if the region contains it, otherwise never |
| QuadModel.InsertThenQuery | QuadTree/QuadTree.cs:130-216 | after an insert, a query from an empty list finds one more copy of the point if it was accepted and the region contains it, and otherwise the same points |
| QuadTrees.QuadTree.constructor | QuadTree/QuadTree.cs:105-111 | a new node has the given boundary and capacity, no points, is not divided, and is valid with the empty tree as its value |
| QuadTrees.QuadTree.NewQuadrants | QuadTree/QuadTree.cs:120-127 | four new, distinct, empty nodes whose values are the children `subdivide` gives a box |
| QuadTrees.QuadTree.Subdivide | QuadTree/QuadTree.cs:113-128 | the node gets four new children over its quadrants, becomes divided, keeps its shape, and its value gains `QuadModel.Subdivide` as children |
| QuadTrees.QuadTree.Insert | QuadTree/QuadTree.cs:130-158 | insert in place keeps the object invariant, adds only new nodes, and leaves the node's value and result exactly as `QuadModel.Insert` computes them |
| QuadTrees.QuadTree.InsertIntoChildren | QuadTree/QuadTree.cs:150-151 | the short-circuit `||` over NE, NW, SE, SW changes the children exactly as `QuadModel.InsertIntoChildren` does |
| QuadTrees.QuadTree.InsertIntoQuadrant | QuadTree/QuadTree.cs:150-151 | inserting into one child replaces that child's value only, and keeps the invariant |
| QuadTrees.QuadTree.Query | QuadTree/QuadTree.cs:160-216 | the loop and recursion return exactly `QuadModel.Query` of the node's value, for box and circle regions alike |

## Left out

- `show(Graphics)` and all of `QuadTree/Form1.cs`: drawing, window events and random point generation, with no logic to model.
- Floating point: coordinates are exact reals and `Math.Pow(a, 2)` is `a * a`, so rounding near edges is not modelled.
- 32-bit `int` overflow in `radius * radius`, `x + w` and the like: fields are unbounded integers.
- The `found == null` reallocation at the start of `query`: `found` is a sequence passed in and returned.
- The two `query` overloads are one method over `Region`, because their bodies are identical apart from the region type.
- Aliasing of the geometry objects: `QtPoint`, `QtRectangle` and `QtCircle` are reference objects with public setters (QuadTree/QuadTree.cs:15-16, 45-48, 96-99). The model treats them as immutable values. It does not capture a caller moving a stored `QtPoint` after `insert`, which can leave it outside its node's boundary so that `QuadModel.ElementsInBoundary` no longer describes the running tree. It does not capture a caller setting `radius` without updating `rSquared`, which `Geometry.CircleWf` excludes.
- Calls to `subdivide` from outside `insert`, and writes to the public setters and child fields: only the constructor, `insert` and `query` change or read a tree.
- QuadTrees.QuadTree.Subdivide: also sets `divided`, which the source does in `insert` right after calling `subdivide`. The two steps always run together there.
- QuadModel.QueryAppendsMatches: requires `RegionWf` (a circle with `radius >= 0` and `rSquared == radius * radius`), because with a negative radius the pruning is wrong.
- QuadModel.QueryCounts: requires `RegionWf`, for the same reason.
- QuadModel.InsertThenQuery: requires `RegionWf`, for the same reason.
- Geometry.CircleIntersectsSound: requires a circle with `radius >= 0` and a consistent `rSquared`, as shown by `Geometry.NegativeRadiusPrunesWrongly`.
- The search order NE, NW, SE, SW is fixed by the definition of `QuadModel.InsertIntoChildren`, which the class method is proved to follow. No separate lemma restates it.
