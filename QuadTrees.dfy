/**
 * The `QuadTree` class of QuadTree/QuadTree.cs: a node whose point list,
 * `divided` flag and four child references are updated in place by `insert`.
 *
 * The ghost field `model` is the subtree read as a QuadModel.Tree and `Repr`
 * is the set of nodes of the subtree. `Insert` is proved to change the model
 * exactly as QuadModel.Insert does, and `Query` to return exactly
 * QuadModel.Query; what those functions guarantee is proved in QuadModel.
 */
module QuadTrees {
  import opened Geometry
  import M = QuadModel

  class QuadTree {
    var boundary: Rect
    var capacity: int
    var points: seq<Point>
    var divided: bool
    var northwest: QuadTree?
    var northeast: QuadTree?
    var southwest: QuadTree?
    var southeast: QuadTree?

    ghost var model: M.Tree
    ghost var Repr: set<object>

    /** The child reference of quadrant `q`. */
    function Child(q: M.Quadrant): QuadTree?
      reads this
    {
      match q
      case NW => northwest
      case NE => northeast
      case SW => southwest
      case SE => southeast
    }

    /**
     * The heap shape of the subtree and its agreement with `model`: when
     * divided, every child is present, owns a part of `Repr` that excludes
     * this node and is disjoint from its siblings' parts, and is itself well
     * shaped with the model's child of its quadrant as its model.
     */
    ghost predicate Shape()
      reads this, Repr
      decreases Repr, 1
    {
      this in Repr &&
      model.boundary == boundary && model.capacity == capacity && model.points == points &&
      (!divided ==> model.children == M.Undivided) &&
      (divided ==>
        model.children.Divided? &&
        (forall q :: ChildShape(q)) &&
        (forall q, q' :: q != q' && ChildShape(q) && ChildShape(q') ==> Child(q).Repr !! Child(q').Repr))
    }

    ghost predicate ChildShape(q: M.Quadrant)
      reads this, Repr
      decreases Repr, 0
    {
      this in Repr && model.children.Divided? &&
      Child(q) != null && Child(q) in Repr && Child(q).Repr <= Repr && this !in Child(q).Repr &&
      Child(q).Shape() && Child(q).model == M.Child(model.children, q)
    }

    /** The object invariant: a well-shaped subtree whose value is a valid quadtree. */
    ghost predicate Valid()
      reads this, Repr
    {
      Shape() && M.Valid(model)
    }

    /** An undivided node with no points over `boundary`. */
    constructor (boundary: Rect, capacity: int)
      ensures this.boundary == boundary && this.capacity == capacity && IsLeaf()
      ensures Valid() && fresh(Repr)
    {
      this.boundary := boundary;
      this.capacity := capacity;
      points := [];
      divided := false;
      northwest, northeast, southwest, southeast := null, null, null, null;
      model := M.Empty(boundary, capacity);
      Repr := {this};
    }

    /** The state the constructor leaves a node in. */
    ghost predicate IsLeaf()
      reads this
    {
      points == [] && !divided && Repr == {this} && model == M.Empty(boundary, capacity)
    }

    /** A node in the state the constructor leaves it in is valid. */
    static lemma LeafValid(t: QuadTree)
      requires t.IsLeaf()
      ensures t.Valid()
    {
    }

    /** A node whose four distinct children are new leaves, with their values as its children, is well shaped. */
    static lemma SplitShape(t: QuadTree, nw: QuadTree, ne: QuadTree, sw: QuadTree, se: QuadTree)
      requires t.divided && t.northwest == nw && t.northeast == ne && t.southwest == sw && t.southeast == se
      requires t != nw && t != ne && t != sw && t != se
      requires nw != ne && nw != sw && nw != se && ne != sw && ne != se && sw != se
      requires {t, nw, ne, sw, se} <= t.Repr
      requires nw.IsLeaf() && ne.IsLeaf() && sw.IsLeaf() && se.IsLeaf()
      requires t.model == M.Node(t.boundary, t.capacity, t.points, M.Divided(nw.model, ne.model, sw.model, se.model))
      ensures t.Shape()
    {
      LeafValid(nw); LeafValid(ne); LeafValid(sw); LeafValid(se);
      forall q ensures t.ChildShape(q) {
        var c := t.Child(q);
        assert c == nw || c == ne || c == sw || c == se;
        assert c.Repr == {c} && c.Shape();
      }
      forall q, q' | q != q' ensures t.Child(q).Repr !! t.Child(q').Repr {
      }
    }

    /** The four new empty children `subdivide` creates over the quadrants of `b`. */
    static method NewQuadrants(b: Rect, capacity: int) returns (nw: QuadTree, ne: QuadTree, sw: QuadTree, se: QuadTree)
      ensures fresh(nw) && fresh(ne) && fresh(sw) && fresh(se)
      ensures nw != ne && nw != sw && nw != se && ne != sw && ne != se && sw != se
      ensures nw.IsLeaf() && ne.IsLeaf() && sw.IsLeaf() && se.IsLeaf()
      ensures M.Subdivide(b, capacity) == M.Divided(nw.model, ne.model, sw.model, se.model)
    {
      nw := new QuadTree(M.ChildBox(b, M.NW), capacity);
      ne := new QuadTree(M.ChildBox(b, M.NE), capacity);
      sw := new QuadTree(M.ChildBox(b, M.SW), capacity);
      se := new QuadTree(M.ChildBox(b, M.SE), capacity);
    }

    /**
     * `subdivide()` followed by `divided = true`: the node gets four new
     * empty children over the quadrants of its boundary, with its capacity.
     */
    method Subdivide()
      requires Shape() && !divided
      modifies this
      ensures Shape() && divided
      ensures fresh(northwest) && fresh(northeast) && fresh(southwest) && fresh(southeast)
      ensures Repr == old(Repr) + {northwest, northeast, southwest, southeast}
      ensures model == old(model).(children := M.Subdivide(boundary, capacity))
    {
      var nw, ne, sw, se := NewQuadrants(boundary, capacity);
      northwest, northeast, southwest, southeast, divided, Repr, model :=
        nw, ne, sw, se, true, Repr + {nw, ne, sw, se}, model.(children := M.Subdivide(boundary, capacity));
      SplitShape(this, nw, ne, sw, se);
    }

    /**
     * Stores `p` in this subtree if it can, and says whether it did; the new
     * state is the one QuadModel.Insert computes from the old.
     */
    method Insert(p: Point) returns (ok: bool)
      requires Valid()
      modifies Repr
      ensures Valid() && fresh(Repr - old(Repr))
      ensures (model, ok) == M.Insert(old(model), p)
      decreases boundary.w, 2
    {
      if !Contains(boundary, p) {
        return false;
      }
      if |points| < capacity {
        points := points + [p];
        model := model.(points := points);
        assert forall q :: old(ChildShape(q)) ==> ChildShape(q);
        return true;
      }
      if !(boundary.w > 4 && boundary.h > 4) {
        return false;
      }
      if !divided {
        M.SubdivideValid(model);
        Subdivide();
      }
      ok := InsertIntoChildren(p);
    }

    /**
     * `northeast.insert(p) || northwest.insert(p) || southeast.insert(p) ||
     * southwest.insert(p)`: the children in that order, up to the first that
     * accepts the point.
     */
    method InsertIntoChildren(p: Point) returns (ok: bool)
      requires Valid() && divided && boundary.w > 4 && boundary.h > 4
      modifies Repr
      ensures Valid() && fresh(Repr - old(Repr)) && divided
      ensures var r := M.InsertIntoChildren(old(boundary), old(capacity), old(model).children, p);
        model == old(model).(children := r.0) && ok == r.1
      decreases boundary.w, 1
    {
      ok := InsertIntoQuadrant(M.NE, p);
      if !ok {
        ok := InsertIntoQuadrant(M.NW, p);
        if !ok {
          ok := InsertIntoQuadrant(M.SE, p);
          if !ok {
            ok := InsertIntoQuadrant(M.SW, p);
          }
        }
      }
    }

    /** `insert` on the child of quadrant `q`; the other children are left alone. */
    method InsertIntoQuadrant(q: M.Quadrant, p: Point) returns (ok: bool)
      requires Valid() && divided && boundary.w > 4 && boundary.h > 4
      modifies Repr
      ensures Valid() && fresh(Repr - old(Repr)) && divided
      ensures var r := M.InsertIntoChild(old(boundary), old(capacity), old(model).children, q, p);
        model == old(model).(children := r.0) && ok == r.1
      decreases boundary.w, 0
    {
      assert ChildShape(q);
      var c := Child(q);
      M.ChildValid(boundary, capacity, model.children, q);
      assert c.boundary.w == boundary.w / 2 < boundary.w;
      ok := c.Insert(p);
      Repr, model := Repr + c.Repr, model.(children := M.WithChild(model.children, q, c.model));
      forall q' | q' != q ensures ChildShape(q') && Child(q').Repr == old(Child(q').Repr) {
        M.ChildWithChild(old(model).children, q, c.model, q');
        var d := Child(q');
        assert old(ChildShape(q')) && d == old(Child(q'));
        assert old(d.Repr !! c.Repr);
        assert old(d.Shape()) && d in old(d.Repr);
      }
      M.ChildWithChild(old(model).children, q, c.model, q);
      assert ChildShape(q);
      forall q1, q2 | q1 != q2 ensures Child(q1).Repr !! Child(q2).Repr {
        assert old(ChildShape(q1) && ChildShape(q2) && Child(q1).Repr !! Child(q2).Repr);
      }
      M.ValidWithChildren(old(model), model.children);
    }

    /**
     * `query(range, ref found)`: the points of this subtree that `range`
     * contains are appended to `found`, nothing if the region misses the
     * boundary, else this node's matches in stored order and then those of
     * the children NW, NE, SW, SE.
     */
    method Query(range: Region, found: seq<Point>) returns (res: seq<Point>)
      requires Shape()
      ensures res == M.Query(model, range, found)
      decreases Repr
    {
      if !RegionIntersects(range, boundary) {
        return found;
      }
      res := found;
      var i := 0;
      while i < |points|
        invariant 0 <= i <= |points|
        invariant res == found + M.Filter(range, points[..i])
      {
        assert points[..i + 1][..i] == points[..i];
        if RegionContains(range, points[i]) {
          res := res + [points[i]];
        }
        i := i + 1;
      }
      assert points[..i] == points;
      if divided {
        assert ChildShape(M.NW) && ChildShape(M.NE) && ChildShape(M.SW) && ChildShape(M.SE);
        res := northwest.Query(range, res);
        res := northeast.Query(range, res);
        res := southwest.Query(range, res);
        res := southeast.Query(range, res);
      }
    }
  }
}
