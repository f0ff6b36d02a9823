/**
 * The quadtree of QuadTree/QuadTree.cs as a value: a node is its boundary,
 * its capacity, the points it holds directly and, once subdivided, its four
 * children. `Insert` and `Query` are the functional reading of the C#
 * `insert` and `query`; the class in module QuadTrees is proved to follow
 * them step for step.
 */
module QuadModel {
  import opened Geometry

  datatype Quadrant = NW | NE | SW | SE

  datatype Tree = Node(boundary: Rect, capacity: int, points: seq<Point>, children: Children)

  /** `divided == false`, or the four child nodes. */
  datatype Children = Undivided | Divided(nw: Tree, ne: Tree, sw: Tree, se: Tree)

  // ---------------------------------------------------------------------------
  // Subdivision geometry

  /** C# integer division by two, which truncates toward zero. */
  function Half(n: int): (r: int)
    ensures n >= 0 ==> 0 <= 2 * r <= n && n - 2 * r <= 1
    ensures n < 0 ==> n <= 2 * r <= 0 && 2 * r - n <= 1
  {
    if n >= 0 then n / 2 else -((-n) / 2)
  }

  /**
   * The box `subdivide` gives the child in quadrant `q`; north is smaller y.
   * It has half the parent's extents and, for a parent with non-negative
   * extents, lies inside the parent, on its own side of the parent's centre
   * on both axes.
   */
  function ChildBox(b: Rect, q: Quadrant): (r: Rect)
    ensures r.w == Half(b.w) && r.h == Half(b.h)
    ensures b.w >= 0 && b.h >= 0 ==> Inside(r, b)
    ensures b.w >= 0 ==> if q == NW || q == SW then r.x + r.w <= b.x else b.x <= r.x - r.w
    ensures b.h >= 0 ==> if q == NW || q == NE then r.y + r.h <= b.y else b.y <= r.y - r.h
  {
    var hw, hh := Half(b.w), Half(b.h);
    match q
    case NW => Rect(b.x - hw, b.y - hh, hw, hh)
    case NE => Rect(b.x + hw, b.y - hh, hw, hh)
    case SW => Rect(b.x - hw, b.y + hh, hw, hh)
    case SE => Rect(b.x + hw, b.y + hh, hw, hh)
  }

  /** Box `a` lies within box `b` (as closed intervals on both axes). */
  predicate Inside(a: Rect, b: Rect)
  {
    b.x - b.w <= a.x - a.w && a.x + a.w <= b.x + b.w &&
    b.y - b.h <= a.y - a.h && a.y + a.h <= b.y + b.h
  }

  /**
   * Each child box has half the parent's extents (rounded down) and lies
   * inside the parent, so every point a child accepts the parent accepts.
   */
  lemma ChildBoxInside(b: Rect, q: Quadrant)
    requires b.w >= 0 && b.h >= 0
    ensures var c := ChildBox(b, q);
      c.w == b.w / 2 && c.h == b.h / 2 && Inside(c, b) &&
      forall p :: Contains(c, p) ==> Contains(b, p)
  {
  }

  /**
   * With even half-extents the four children cover the parent: every point of
   * the parent lies in some child.
   */
  lemma ChildrenCoverWhenEven(b: Rect, p: Point)
    requires b.w >= 0 && b.h >= 0 && b.w % 2 == 0 && b.h % 2 == 0
    requires Contains(b, p)
    ensures exists q :: Contains(ChildBox(b, q), p)
  {
    var west := p.x <= b.x as real;
    var north := p.y <= b.y as real;
    var q := if north then (if west then NW else NE) else (if west then SW else SE);
    assert Contains(ChildBox(b, q), p);
  }

  /**
   * With an odd half-extent they do not. The root box of the demonstration
   * window, (200, 200, 200, 200), reaches half-extent 25 after three
   * subdivisions; the node of its north-west corner holds a point that none
   * of its own children contains.
   */
  lemma ChildrenMissPointWhenOdd()
    ensures var root := Rect(200, 200, 200, 200);
      var b := ChildBox(ChildBox(ChildBox(root, NW), NW), NW);
      var p := Point(0.5, 10.0);
      b == Rect(25, 25, 25, 25) && Contains(b, p) &&
      forall q :: !Contains(ChildBox(b, q), p)
  {
  }

  // ---------------------------------------------------------------------------
  // The tree and its invariant

  /** The node the constructor creates: undivided, storing no point. */
  function Empty(boundary: Rect, capacity: int): (t: Tree)
    ensures Valid(t) && Elements(t) == []
  {
    Node(boundary, capacity, [], Undivided)
  }

  /** The four fresh children `subdivide` creates. */
  function Subdivide(b: Rect, capacity: int): (kids: Children)
    ensures ValidChildren(b, capacity, kids)
    ensures ChildElements(kids) == []
  {
    Divided(Empty(ChildBox(b, NW), capacity), Empty(ChildBox(b, NE), capacity),
            Empty(ChildBox(b, SW), capacity), Empty(ChildBox(b, SE), capacity))
  }

  /**
   * The shape every node reached by the constructor and `insert` has:
   * its own points lie in its boundary, it holds at most `capacity` points
   * (none when `capacity <= 0`), and if it is subdivided then it was full and
   * its box large enough at the time, and its children are valid.
   */
  ghost predicate Valid(t: Tree)
    decreases t
  {
    (forall p :: p in t.points ==> Contains(t.boundary, p)) &&
    (|t.points| <= t.capacity || t.points == []) &&
    (t.children.Divided? ==>
      t.boundary.w > 4 && t.boundary.h > 4 && |t.points| >= t.capacity &&
      ValidChildren(t.boundary, t.capacity, t.children))
  }

  /**
   * Four valid children with the boxes `subdivide` gives a parent with box
   * `b`, and the parent's capacity.
   */
  ghost predicate ValidChildren(b: Rect, capacity: int, kids: Children)
    decreases kids
  {
    kids.Divided? &&
    kids.nw.boundary == ChildBox(b, NW) && kids.ne.boundary == ChildBox(b, NE) &&
    kids.sw.boundary == ChildBox(b, SW) && kids.se.boundary == ChildBox(b, SE) &&
    kids.nw.capacity == capacity && kids.ne.capacity == capacity &&
    kids.sw.capacity == capacity && kids.se.capacity == capacity &&
    Valid(kids.nw) && Valid(kids.ne) && Valid(kids.sw) && Valid(kids.se)
  }

  /** A full, undivided node whose half-extents exceed 4 stays valid when it subdivides. */
  lemma SubdivideValid(t: Tree)
    requires Valid(t) && t.children == Undivided
    requires t.boundary.w > 4 && t.boundary.h > 4 && |t.points| >= t.capacity
    ensures Valid(t.(children := Subdivide(t.boundary, t.capacity)))
  {
  }

  /** Replacing the children of a valid subdivided node by other valid children keeps it valid. */
  lemma ValidWithChildren(t: Tree, kids: Children)
    requires Valid(t) && t.children.Divided? && ValidChildren(t.boundary, t.capacity, kids)
    ensures Valid(t.(children := kids))
  {
  }

  /** Every stored point of the subtree, in the order `query` visits them. */
  function Elements(t: Tree): seq<Point>
    decreases t
  {
    t.points + ChildElements(t.children)
  }

  function ChildElements(kids: Children): seq<Point>
    decreases kids
  {
    match kids
    case Undivided => []
    case Divided(nw, ne, sw, se) => Elements(nw) + Elements(ne) + Elements(sw) + Elements(se)
  }

  function Height(t: Tree): nat
  {
    match t.children
    case Undivided => 0
    case Divided(nw, ne, sw, se) =>
      var a := if Height(nw) >= Height(ne) then Height(nw) else Height(ne);
      var b := if Height(sw) >= Height(se) then Height(sw) else Height(se);
      1 + if a >= b then a else b
  }

  function Pow2(n: nat): (r: nat)
    ensures r >= 1
  {
    if n == 0 then 1 else 2 * Pow2(n - 1)
  }

  /**
   * Every point of a subtree lies in the subtree's boundary: the check at the
   * top of `insert` plus child boxes lying inside their parent.
   */
  lemma {:induction false} ElementsInBoundary(t: Tree)
    requires Valid(t)
    ensures forall p :: p in Elements(t) ==> Contains(t.boundary, p)
  {
    match t.children
    case Undivided =>
    case Divided(nw, ne, sw, se) =>
      ElementsInBoundary(nw); ElementsInBoundary(ne);
      ElementsInBoundary(sw); ElementsInBoundary(se);
      ChildBoxInside(t.boundary, NW); ChildBoxInside(t.boundary, NE);
      ChildBoxInside(t.boundary, SW); ChildBoxInside(t.boundary, SE);
  }

  /**
   * Subdivision depth is bounded by the box size: a tree of height k > 0 has
   * half-extents above 2^(k+1), so recursion in `insert` and `query` is at most
   * about log2 of the root's half-extent deep.
   */
  lemma {:induction false} HeightBound(t: Tree)
    requires Valid(t)
    ensures Height(t) > 0 ==> 2 * Pow2(Height(t)) < t.boundary.w && 2 * Pow2(Height(t)) < t.boundary.h
  {
    match t.children
    case Undivided =>
    case Divided(nw, ne, sw, se) =>
      HeightBound(nw); HeightBound(ne); HeightBound(sw); HeightBound(se);
      var k := Height(t) - 1;
      assert Height(nw) <= k && Height(ne) <= k && Height(sw) <= k && Height(se) <= k;
      var c: Tree :| c in {nw, ne, sw, se} && Height(c) == k;
      if k > 0 {
        assert 2 * Pow2(k) < t.boundary.w / 2 && 2 * Pow2(k) < t.boundary.h / 2;
      }
  }

  // ---------------------------------------------------------------------------
  // insert

  /**
   * `insert(p)`: the new tree and whether `p` was stored. A point outside the
   * boundary is rejected with nothing changed; a node with room appends it; a
   * full node with both half-extents above 4 subdivides if it has not yet done
   * so and offers the point to its children; otherwise the point is dropped.
   */
  function Insert(t: Tree, p: Point): (r: (Tree, bool))
    requires Valid(t)
    ensures Valid(r.0)
    ensures r.0.boundary == t.boundary && r.0.capacity == t.capacity
    ensures r.1 ==> Contains(t.boundary, p)
    decreases t.boundary.w, 2
  {
    var b := t.boundary;
    if !Contains(b, p) then (t, false)
    else if |t.points| < t.capacity then (t.(points := t.points + [p]), true)
    else if b.w > 4 && b.h > 4 then
      var kids := if t.children.Divided? then t.children else Subdivide(b, t.capacity);
      var r := InsertIntoChildren(b, t.capacity, kids, p);
      (t.(children := r.0), r.1)
    else (t, false)
  }

  function Child(kids: Children, q: Quadrant): Tree
    requires kids.Divided?
  {
    match q
    case NW => kids.nw
    case NE => kids.ne
    case SW => kids.sw
    case SE => kids.se
  }

  function WithChild(kids: Children, q: Quadrant, c: Tree): Children
    requires kids.Divided?
  {
    match q
    case NW => kids.(nw := c)
    case NE => kids.(ne := c)
    case SW => kids.(sw := c)
    case SE => kids.(se := c)
  }

  /** Replacing one child leaves the other three as they were. */
  lemma ChildWithChild(kids: Children, q: Quadrant, c: Tree, q': Quadrant)
    requires kids.Divided?
    ensures Child(WithChild(kids, q, c), q') == if q == q' then c else Child(kids, q')
  {
  }

  /** Each child of a valid subdivided node is valid, with its quadrant's box and the parent's capacity. */
  lemma ChildValid(b: Rect, capacity: int, kids: Children, q: Quadrant)
    requires ValidChildren(b, capacity, kids)
    ensures Valid(Child(kids, q)) && Child(kids, q).boundary == ChildBox(b, q) && Child(kids, q).capacity == capacity
  {
  }

  /**
   * The point is offered to the children in the order NE, NW, SE, SW and the
   * first that accepts it ends the attempt. A child that rejected the point
   * may still have subdivided, and that change is kept.
   */
  function InsertIntoChildren(b: Rect, capacity: int, kids: Children, p: Point): (r: (Children, bool))
    requires b.w > 4 && b.h > 4 && ValidChildren(b, capacity, kids)
    ensures ValidChildren(b, capacity, r.0)
    decreases b.w, 1
  {
    var ne := InsertIntoChild(b, capacity, kids, NE, p);
    if ne.1 then ne
    else
      var nw := InsertIntoChild(b, capacity, ne.0, NW, p);
      if nw.1 then nw
      else
        var se := InsertIntoChild(b, capacity, nw.0, SE, p);
        if se.1 then se
        else InsertIntoChild(b, capacity, se.0, SW, p)
  }

  /** `insert` on the child in quadrant `q`; the other three children are kept. */
  function InsertIntoChild(b: Rect, capacity: int, kids: Children, q: Quadrant, p: Point): (r: (Children, bool))
    requires b.w > 4 && b.h > 4 && ValidChildren(b, capacity, kids)
    ensures ValidChildren(b, capacity, r.0)
    decreases b.w, 0
  {
    var c := Insert(Child(kids, q), p);
    (WithChild(kids, q, c.0), c.1)
  }

  /** Inserting adds exactly `p` to the stored points when it succeeds, and nothing when it fails. */
  lemma {:induction false} InsertAddsExactlyOne(t: Tree, p: Point)
    requires Valid(t)
    ensures var (t', ok) := Insert(t, p);
      multiset(Elements(t')) == if ok then multiset(Elements(t)) + multiset{p} else multiset(Elements(t))
    decreases t.boundary.w, 2
  {
    var b := t.boundary;
    if Contains(b, p) && |t.points| >= t.capacity && b.w > 4 && b.h > 4 {
      var kids := if t.children.Divided? then t.children else Subdivide(b, t.capacity);
      assert ChildElements(kids) == ChildElements(t.children);
      InsertIntoChildrenAddsExactlyOne(b, t.capacity, kids, p);
    }
  }

  lemma {:induction false} InsertIntoChildrenAddsExactlyOne(b: Rect, capacity: int, kids: Children, p: Point)
    requires b.w > 4 && b.h > 4 && ValidChildren(b, capacity, kids)
    ensures var (kids', ok) := InsertIntoChildren(b, capacity, kids, p);
      multiset(ChildElements(kids')) ==
        if ok then multiset(ChildElements(kids)) + multiset{p} else multiset(ChildElements(kids))
    decreases b.w, 1
  {
    var ne := InsertIntoChild(b, capacity, kids, NE, p);
    InsertIntoChildAddsExactlyOne(b, capacity, kids, NE, p);
    if !ne.1 {
      var nw := InsertIntoChild(b, capacity, ne.0, NW, p);
      InsertIntoChildAddsExactlyOne(b, capacity, ne.0, NW, p);
      if !nw.1 {
        var se := InsertIntoChild(b, capacity, nw.0, SE, p);
        InsertIntoChildAddsExactlyOne(b, capacity, nw.0, SE, p);
        if !se.1 {
          InsertIntoChildAddsExactlyOne(b, capacity, se.0, SW, p);
        }
      }
    }
  }

  lemma {:induction false} InsertIntoChildAddsExactlyOne(b: Rect, capacity: int, kids: Children, q: Quadrant, p: Point)
    requires b.w > 4 && b.h > 4 && ValidChildren(b, capacity, kids)
    ensures var (kids', ok) := InsertIntoChild(b, capacity, kids, q, p);
      multiset(ChildElements(kids')) ==
        if ok then multiset(ChildElements(kids)) + multiset{p} else multiset(ChildElements(kids))
    decreases b.w, 0
  {
    var c := Insert(Child(kids, q), p);
    assert InsertIntoChild(b, capacity, kids, q, p) == (WithChild(kids, q, c.0), c.1);
    InsertAddsExactlyOne(Child(kids, q), p);
    var added := if c.1 then multiset{p} else multiset{};
    assert multiset(Elements(c.0)) == multiset(Elements(Child(kids, q))) + added;
    var nw, ne, sw, se := multiset(Elements(kids.nw)), multiset(Elements(kids.ne)),
                          multiset(Elements(kids.sw)), multiset(Elements(kids.se));
    ChildElementsSplit(kids);
    ChildElementsSplit(WithChild(kids, q, c.0));
    AddToOnePart(nw, ne, sw, se, added);
  }

  lemma AddToOnePart<T>(a: multiset<T>, b: multiset<T>, c: multiset<T>, d: multiset<T>, x: multiset<T>)
    ensures (a + x) + b + c + d == a + b + c + d + x
    ensures a + (b + x) + c + d == a + b + c + d + x
    ensures a + b + (c + x) + d == a + b + c + d + x
    ensures a + b + c + (d + x) == a + b + c + d + x
  {
  }

  lemma ChildElementsSplit(kids: Children)
    requires kids.Divided?
    ensures multiset(ChildElements(kids)) ==
      multiset(Elements(kids.nw)) + multiset(Elements(kids.ne)) +
      multiset(Elements(kids.sw)) + multiset(Elements(kids.se))
  {
  }

  /**
   * A failed insert can still change the tree: a full node with half-extent
   * 25 subdivides and then finds no child that contains a point in the gap
   * the rounded-down child boxes leave, so the point is dropped.
   */
  lemma InsertIntoGapSubdividesAndFails()
    ensures var t := Node(Rect(25, 25, 25, 25), 1, [Point(25.0, 25.0)], Undivided);
      Valid(t) && Contains(t.boundary, Point(0.5, 10.0)) &&
      Insert(t, Point(0.5, 10.0)) == (t.(children := Subdivide(t.boundary, 1)), false)
  {
  }

  /** A point outside the boundary is rejected and the tree is left as it was. */
  lemma InsertOutsideUnchanged(t: Tree, p: Point)
    requires Valid(t) && !Contains(t.boundary, p)
    ensures Insert(t, p) == (t, false)
  {
  }

  // ---------------------------------------------------------------------------
  // query

  /** The points of `s` the region contains, in their order in `s`. */
  function Filter(range: Region, s: seq<Point>): (r: seq<Point>)
    ensures |r| <= |s|
    ensures forall i :: 0 <= i < |r| ==> RegionContains(range, r[i]) && r[i] in s
  {
    if s == [] then []
    else Filter(range, s[..|s| - 1]) + if RegionContains(range, s[|s| - 1]) then [s[|s| - 1]] else []
  }

  lemma {:induction false} FilterAppend(range: Region, s: seq<Point>, u: seq<Point>)
    ensures Filter(range, s + u) == Filter(range, s) + Filter(range, u)
    decreases |u|
  {
    if u == [] {
      assert s + u == s;
    } else {
      assert (s + u)[..|s + u| - 1] == s + u[..|u| - 1];
      FilterAppend(range, s, u[..|u| - 1]);
    }
  }

  /**
   * Filtering keeps every point the region contains exactly as often as it
   * occurs, and no other point.
   */
  lemma {:induction false} FilterCount(range: Region, s: seq<Point>)
    ensures forall q :: multiset(Filter(range, s))[q] == if RegionContains(range, q) then multiset(s)[q] else 0
  {
    if s != [] {
      FilterCount(range, s[..|s| - 1]);
      assert s == s[..|s| - 1] + [s[|s| - 1]];
    }
  }

  /** Pruning loses nothing: a region that fails the test against a box matches no point in the box. */
  lemma {:induction false} FilterPruned(range: Region, b: Rect, s: seq<Point>)
    requires RegionWf(range) && !RegionIntersects(range, b)
    requires forall q :: q in s ==> Contains(b, q)
    ensures Filter(range, s) == []
  {
    if s != [] {
      FilterPruned(range, b, s[..|s| - 1]);
      if RegionContains(range, s[|s| - 1]) {
        RegionIntersectsSound(range, b, s[|s| - 1]);
      }
    }
  }

  /**
   * `query(range, ref found)`: the accumulator after the call. Nothing is
   * added when the region misses the boundary; otherwise the node's own
   * matching points in stored order, then the children NW, NE, SW, SE.
   * Whatever the tree and region, `found` is kept as a prefix and every
   * point appended is one the region contains.
   */
  function Query(t: Tree, range: Region, found: seq<Point>): (r: seq<Point>)
    ensures found <= r
    ensures forall i :: |found| <= i < |r| ==> RegionContains(range, r[i])
    decreases t
  {
    if !RegionIntersects(range, t.boundary) then found
    else QueryChildren(t.children, range, found + Filter(range, t.points))
  }

  /** The recursive calls of a divided node, NW, NE, SW, SE, each continuing the list the previous one left. */
  function QueryChildren(kids: Children, range: Region, found: seq<Point>): (r: seq<Point>)
    ensures found <= r
    ensures forall i :: |found| <= i < |r| ==> RegionContains(range, r[i])
    decreases kids
  {
    match kids
    case Undivided => found
    case Divided(nw, ne, sw, se) =>
      Query(se, range, Query(sw, range, Query(ne, range, Query(nw, range, found))))
  }

  /**
   * Query is sound and complete: on a valid tree it keeps `found` as a prefix
   * and appends exactly the stored points the region contains, each as often
   * as it is stored, in the order of `Elements`.
   */
  lemma {:induction false} QueryAppendsMatches(t: Tree, range: Region, found: seq<Point>)
    requires Valid(t) && RegionWf(range)
    ensures Query(t, range, found) == found + Filter(range, Elements(t))
    decreases t
  {
    if !RegionIntersects(range, t.boundary) {
      ElementsInBoundary(t);
      FilterPruned(range, t.boundary, Elements(t));
    } else {
      var here := found + Filter(range, t.points);
      match t.children
      case Undivided =>
        assert Elements(t) == t.points;
      case Divided(nw, ne, sw, se) =>
        var a, b, c, d := Elements(nw), Elements(ne), Elements(sw), Elements(se);
        var fa, fb, fc, fd := Filter(range, a), Filter(range, b), Filter(range, c), Filter(range, d);
        QueryAppendsMatches(nw, range, here);
        QueryAppendsMatches(ne, range, here + fa);
        QueryAppendsMatches(sw, range, here + fa + fb);
        QueryAppendsMatches(se, range, here + fa + fb + fc);
        assert Query(t, range, found) == here + fa + fb + fc + fd;
        assert Elements(t) == t.points + (a + b + c + d);
        FilterAppend(range, t.points, a + b + c + d);
        FilterAppend(range, a + b + c, d);
        FilterAppend(range, a + b, c);
        FilterAppend(range, a, b);
        AppendAssoc(found, Filter(range, t.points), fa, fb, fc, fd);
    }
  }

  lemma AppendAssoc<T>(a: seq<T>, b: seq<T>, c: seq<T>, d: seq<T>, e: seq<T>, f: seq<T>)
    ensures a + b + c + d + e + f == a + (b + (c + d + e + f))
  {
  }

  /**
   * Each stored point the region contains is in the result as often as it is
   * stored, and no other point is added to `found`.
   */
  lemma QueryCounts(t: Tree, range: Region, found: seq<Point>)
    requires Valid(t) && RegionWf(range)
    ensures var r := Query(t, range, found);
      |found| <= |r| && r[..|found|] == found &&
      forall q :: multiset(r[|found|..])[q] == if RegionContains(range, q) then multiset(Elements(t))[q] else 0
  {
    QueryAppendsMatches(t, range, found);
    var r := Query(t, range, found);
    assert r[|found|..] == Filter(range, Elements(t));
    FilterCount(range, Elements(t));
  }

  /**
   * Counting lemma behind InsertThenQuery: the counts of the matches of a
   * region grow by exactly the added point when it was added and matches.
   */
  lemma FilteredCountsGrow(range: Region, p: Point, ok: bool,
                           before: multiset<Point>, after: multiset<Point>,
                           stored: multiset<Point>, stored': multiset<Point>)
    requires forall q :: before[q] == if RegionContains(range, q) then stored[q] else 0
    requires forall q :: after[q] == if RegionContains(range, q) then stored'[q] else 0
    requires stored' == if ok then stored + multiset{p} else stored
    ensures after == if ok && RegionContains(range, p) then before + multiset{p} else before
  {
    var added := if ok && RegionContains(range, p) then multiset{p} else multiset{};
    forall q
      ensures after[q] == (before + added)[q]
    {
    }
    assert after == before + added;
  }

  /**
   * A point that `insert` accepted is found by every later query whose region
   * contains it: the query result grows by exactly that point, or stays the
   * same when the insert failed or the region does not contain the point.
   */
  lemma InsertThenQuery(t: Tree, p: Point, range: Region)
    requires Valid(t) && RegionWf(range)
    ensures var (t', ok) := Insert(t, p);
      multiset(Query(t', range, [])) ==
        if ok && RegionContains(range, p) then multiset(Query(t, range, [])) + multiset{p}
        else multiset(Query(t, range, []))
  {
    var r := Insert(t, p);
    QueryCounts(t, range, []);
    QueryCounts(r.0, range, []);
    InsertAddsExactlyOne(t, p);
    FilteredCountsGrow(range, p, r.1, multiset(Query(t, range, [])), multiset(Query(r.0, range, [])),
                       multiset(Elements(t)), multiset(Elements(r.0)));
  }
}
