/**
 * class GridElement of GridManager.cs, over the cell table: every method
 * takes the index of the element it runs on (`self`) and updates the table
 * in place, as the C# methods update the fields of `this`.
 */
module GridElements {
  import opened Wrappers
  import opened Lists
  import opened Geometry
  import opened Maths
  import opened GridSpec
  import opened GridBuild

  class CellTable {
    /** Every GridElement ever constructed, indexed by CellId. */
    var cells: seq<Cell>

    ghost predicate Valid()
      reads this
    {
      GridSpec.Valid(cells)
    }

    constructor ()
      ensures Valid() && cells == []
    {
      cells := [];
    }

    /** The GridElement constructors: a box of the given centre and size with
        no children, neighbours or objects; `parent` is null for a root. */
    method NewGridElement(pos: Vec3, size: Vec3, parent: Option<CellId>) returns (id: CellId)
      requires Valid()
      modifies this
      ensures Valid()
      ensures id == old(|cells|) && cells == old(cells) + [NewCell(Box(pos, Half(size)), parent)]
    {
      id := |cells|;
      cells := cells + [NewCell(Box(pos, Half(size)), parent)];
      forall c | 0 <= c < |cells| ensures CellWellFormed(cells, c) && NeighbourInvariant(cells, c) {
        if c < id {
          assert CellWellFormed(old(cells), c) && NeighbourInvariant(old(cells), c);
        }
      }
    }

    /** AddNeighbour: appends b unless it is self or already listed. */
    method AddNeighbour(self: CellId, b: CellId)
      requires self < |cells|
      modifies this
      ensures cells == AddNeighbourTo(old(cells), self, b)
    {
      if b != self && b !in cells[self].neighbours {
        cells := cells[self := cells[self].(neighbours := cells[self].neighbours + [b])];
      }
    }

    /** ConnectTo(GridElement): links self and b in both directions. */
    method ConnectTo(self: CellId, b: CellId)
      requires Valid() && self < |cells| && b < |cells|
      modifies this
      ensures Valid() && EdgesAdded(old(cells), cells, Link(self, b))
    {
      ConnectKeepsGraph(cells, self, b);
      AddNeighbour(self, b);
      AddNeighbour(b, self);
    }

    /** ConnectTo(List<GridElement>): links self with every listed element. */
    method ConnectToAll(self: CellId, bs: seq<CellId>)
      requires Valid() && self < |cells| && forall k :: 0 <= k < |bs| ==> bs[k] < |cells|
      modifies this
      ensures Valid() && EdgesAdded(old(cells), cells, LinkAll(self, bs))
    {
      for i := 0 to |bs|
        invariant Valid() && |cells| == old(|cells|)
        invariant EdgesAdded(old(cells), cells, LinkAll(self, bs[..i]))
      {
        ghost var before := cells;
        ConnectTo(self, bs[i]);
        EdgesAddedTrans(old(cells), before, cells, LinkAll(self, bs[..i]), Link(self, bs[i]));
        LinkAllStep(self, bs, i);
      }
      assert bs[..|bs|] == bs;
    }

    /** Register: appends the object to the element's list. */
    method Register(self: CellId, o: ObjId)
      requires Valid() && self < |cells|
      modifies this
      ensures Valid()
      ensures cells == old(cells)[self := old(cells[self]).(objects := old(cells[self].objects) + [o])]
    {
      cells := cells[self := cells[self].(objects := cells[self].objects + [o])];
      assert forall c :: 0 <= c < |cells| ==> cells[c].neighbours == old(cells[c].neighbours) && cells[c].children == old(cells[c].children);
      assert forall c :: 0 <= c < |cells| ==> CellWellFormed(old(cells), c) ==> CellWellFormed(cells, c);
      assert forall c :: 0 <= c < |cells| ==> NeighbourInvariant(old(cells), c) ==> NeighbourInvariant(cells, c);
    }

    /** Unregister: List.Remove, so only the first occurrence goes, and an
        object that is not registered leaves the list unchanged. */
    method Unregister(self: CellId, o: ObjId)
      requires Valid() && self < |cells|
      modifies this
      ensures Valid()
      ensures cells == old(cells)[self := old(cells[self]).(objects := RemoveFirst(old(cells[self].objects), o))]
    {
      cells := cells[self := cells[self].(objects := RemoveFirst(cells[self].objects, o))];
      assert forall c :: 0 <= c < |cells| ==> cells[c].neighbours == old(cells[c].neighbours) && cells[c].children == old(cells[c].children);
      assert forall c :: 0 <= c < |cells| ==> CellWellFormed(old(cells), c) ==> CellWellFormed(cells, c);
      assert forall c :: 0 <= c < |cells| ==> NeighbourInvariant(old(cells), c) ==> NeighbourInvariant(cells, c);
    }

    /** RemoveElement: the first child slot holding `element` is set to null;
        the list keeps its length and nothing else changes. */
    method RemoveElement(self: CellId, element: Option<CellId>)
      requires Valid() && self < |cells|
      modifies this
      ensures Valid()
      ensures match IndexOf(old(cells[self].children), element)
        case None => cells == old(cells)
        case Some(i) => cells == old(cells)[self := old(cells[self]).(children := old(cells[self].children)[i := None])]
    {
      var index := IndexOf(cells[self].children, element);
      if index.Some? {
        cells := cells[self := cells[self].(children := cells[self].children[index.value := None])];
        assert forall c :: 0 <= c < |cells| ==> cells[c].neighbours == old(cells[c].neighbours);
        assert forall c :: 0 <= c < |cells| ==> CellWellFormed(old(cells), c) ==> CellWellFormed(cells, c);
        assert forall c :: 0 <= c < |cells| ==> NeighbourInvariant(old(cells), c) ==> NeighbourInvariant(cells, c);
      }
    }
  
    /** FindContainingGridElement: nothing happens when self does not contain
        p; a leaf that contains it writes itself; otherwise every child is
        searched in list order, so the last child that resolves p wins. */
    method FindContainingGridElement(self: CellId, p: Vec3, outChild: Option<CellId>) returns (r: Option<CellId>)
      requires WellFormed(cells) && Intact(cells) && self < |cells|
      ensures Resolve(cells, self, p).Some? ==> r == Resolve(cells, self, p)
      ensures Resolve(cells, self, p).None? ==> r == outChild
      decreases |cells| - self
    {
      if !Contains(cells[self].box, p) {
        return outChild;
      }
      var cs := cells[self].children;
      if |cs| > 0 {
        assert CellWellFormed(cells, self);
        r := outChild;
        for i := 0 to |cs|
          invariant ForwardSlots(cells, self, cs[..i])
          invariant ResolveAmong(cells, self, cs[..i], p).Some? ==> r == ResolveAmong(cells, self, cs[..i], p)
          invariant ResolveAmong(cells, self, cs[..i], p).None? ==> r == outChild
        {
          r := FindContainingGridElement(cs[i].value, p, r);
          assert cs[..i + 1][..i] == cs[..i];
        }
        assert cs[..|cs|] == cs;
      } else {
        r := Some(self);
      }
    }

    /** GridElementsInRange: a depth-first walk guarded by the visited list
        `path`. A visited element is never entered again; an element that
        fails the range test is recorded in path and stops the walk there;
        otherwise the walk enters all neighbours, then all children, and an
        element without children is appended to `elements`. */
    method GridElementsInRange(self: CellId, inRange: Box -> bool, path: seq<CellId>, elements: seq<CellId>)
      returns (path': seq<CellId>, elements': seq<CellId>)
      requires WellFormed(cells) && Intact(cells) && self < |cells|
      requires Extends(cells, inRange, path, elements, path, elements)
      ensures Extends(cells, inRange, path, elements, path', elements')
      ensures self in path'
      ensures self in path ==> path' == path && elements' == elements
      ensures self !in path ==> path'[|path|] == self
      ensures Closed(cells, inRange, path', |path|)
      ensures Collected(cells, inRange, path', |path|, elements')
      ensures Discovered(cells, inRange, path', |path|)
      decreases |cells| - |path|, 2
    {
      if self in path {
        return path, elements;
      }
      DistinctBounded(path, |cells|);
      path' := path + [self];
      elements' := elements;
      WalkEnter(cells, inRange, path, elements, self);
      if !inRange(cells[self].box) {
        return;
      }
      assert CellWellFormed(cells, self);
      var nbs := cells[self].neighbours;
      forall k | 0 <= k < |nbs| ensures nbs[k] < |cells| && Successor(cells, self, nbs[k]) {
        assert nbs[k] in nbs;
      }
      path', elements' := VisitAll(self, inRange, cells[self].neighbours, path, elements, path', elements');
      var cs := cells[self].children;
      if |cs| > 0 {
        var ids := ChildIds(cs);
        forall k | 0 <= k < |ids| ensures ids[k] < |cells| && Successor(cells, self, ids[k]) {
          assert cs[k] in cs;
        }
        ghost var p0 := path';
        path', elements' := VisitAll(self, inRange, ids, path, elements, path', elements');
        forall n | n in cells[self].neighbours ensures n in path' { assert n in p0; }
        WalkClose(cells, inRange, path, elements, path', elements');
      } else {
        elements' := elements' + [self];
        WalkCloseLeaf(cells, inRange, path, elements, path', elements');
      }
    }

    /** The body of the loops `foreach (neighbour in _neighbours)` and
        `foreach (child in _children)` of GridElementsInRange: each target is
        walked in turn, threading the visited list and the collected leaves. */
    method VisitAll(self: CellId, inRange: Box -> bool, targets: seq<CellId>,
                    ghost path: seq<CellId>, ghost elements: seq<CellId>, p: seq<CellId>, e: seq<CellId>)
      returns (p': seq<CellId>, e': seq<CellId>)
      requires WellFormed(cells) && Intact(cells) && self < |cells|
      requires forall k :: 0 <= k < |targets| ==> targets[k] < |cells| && Successor(cells, self, targets[k])
      requires WalkState(cells, inRange, path, elements, p, e) && p[|path|] == self
      ensures WalkState(cells, inRange, path, elements, p', e') && p'[|path|] == self
      ensures forall c :: c in p ==> c in p'
      ensures forall k :: 0 <= k < |targets| ==> targets[k] in p'
      decreases |cells| - |p| + 1, 1
    {
      DistinctBounded(p, |cells|);
      p', e' := p, e;
      for i := 0 to |targets|
        invariant WalkState(cells, inRange, path, elements, p', e') && p'[|path|] == self
        invariant |p| <= |p'|
        invariant forall c :: c in p ==> c in p'
        invariant forall k :: 0 <= k < i ==> targets[k] in p'
      {
        ghost var p0 := p';
        p', e' := VisitOne(self, inRange, targets[i], path, elements, p', e');
        VisitedGrows(targets, i, p, p0, p');
      }
    }

    /** One pass of those loops: the walk from one target. */
    method VisitOne(self: CellId, inRange: Box -> bool, target: CellId,
                    ghost path: seq<CellId>, ghost elements: seq<CellId>, p: seq<CellId>, e: seq<CellId>)
      returns (p': seq<CellId>, e': seq<CellId>)
      requires WellFormed(cells) && Intact(cells) && self < |cells|
      requires target < |cells| && Successor(cells, self, target)
      requires WalkState(cells, inRange, path, elements, p, e) && p[|path|] == self
      ensures WalkState(cells, inRange, path, elements, p', e') && p'[|path|] == self
      ensures |p| <= |p'| && p'[..|p|] == p && target in p'
      decreases |cells| - |p| + 1, 0
    {
      WalkHandOn(cells, inRange, path, elements, p, e);
      p', e' := GridElementsInRange(target, inRange, p, e);
      WalkStep(cells, inRange, path, elements, p, e, p', e');
    }

    /** GetChildren<T>: the registered objects that are a T, in registration order. */
    method GetChildren(self: CellId, isT: ObjId -> bool) returns (output: seq<ObjId>)
      requires self < |cells|
      ensures output == Filter(cells[self].objects, isT)
      ensures forall o :: o in output <==> o in cells[self].objects && isT(o)
    {
      var objs := cells[self].objects;
      output := [];
      for i := 0 to |objs|
        invariant output == Filter(objs[..i], isT)
      {
        FilterAppend(objs[..i], objs[i], isT);
        if isT(objs[i]) {
          output := output + [objs[i]];
        }
        assert objs[..i + 1] == objs[..i] + [objs[i]];
      }
      assert objs[..|objs|] == objs;
    }

    /** GetChildrenInRange<T>: the registered objects that are a T and lie
        strictly within `range` of `position`, in registration order. */
    method GetChildrenInRange(self: CellId, isT: ObjId -> bool, posOf: ObjId -> Vec3, position: Vec3, range: real)
      returns (output: seq<ObjId>)
      requires self < |cells|
      ensures output == Filter(cells[self].objects, Near(isT, posOf, position, range))
      ensures forall o :: o in output <==>
        o in cells[self].objects && isT(o) && DistanceBelow(posOf(o), position, range)
      ensures range <= 0.0 ==> output == []
    {
      var objs := cells[self].objects;
      var near := Near(isT, posOf, position, range);
      output := [];
      for i := 0 to |objs|
        invariant output == Filter(objs[..i], near)
      {
        FilterAppend(objs[..i], objs[i], near);
        if isT(objs[i]) {
          if DistanceBelow(posOf(objs[i]), position, range) {
            output := output + [objs[i]];
          }
        }
        assert objs[..i + 1] == objs[..i] + [objs[i]];
      }
      assert objs[..|objs|] == objs;
      NearFiltered(objs, isT, posOf, position, range);
    }

    // -------------------------------------------------------------------
    // GenerateUniformGrid, stage by stage
    // -------------------------------------------------------------------

    /** The creation loops: one new element per lattice point, x outermost
        and z innermost, each with the box of its point and self as parent,
        appended to self's (cleared) child list. */
    method SpawnChildren(self: CellId, d: Dimensions)
      requires Valid() && Intact(cells) && self < |cells| && Positive(d)
      requires cells[self].children == [] && cells[self].childDims == d
      modifies this
      ensures Valid() && Intact(cells)
      ensures Spawned(cells, self, d, old(|cells|), Count(d))
      ensures forall c :: 0 <= c < old(|cells|) && c != self ==> cells[c] == old(cells[c])
      ensures cells[self] == old(cells[self]).(children := cells[self].children)
    {
      ghost var c0 := cells;
      ghost var lo := |cells|;
      LatticeSize(d);
      for x := 0 to d.width
        invariant Valid() && Intact(cells) && Spawned(cells, self, d, lo, To1D(x, 0, 0, d.height, d.depth))
        invariant forall c :: 0 <= c < lo && c != self ==> cells[c] == c0[c]
        invariant cells[self] == c0[self].(children := cells[self].children)
      {
        for y := 0 to d.height
          invariant Valid() && Intact(cells) && Spawned(cells, self, d, lo, To1D(x, y, 0, d.height, d.depth))
          invariant forall c :: 0 <= c < lo && c != self ==> cells[c] == c0[c]
          invariant cells[self] == c0[self].(children := cells[self].children)
        {
          for z := 0 to d.depth
            invariant Valid() && Intact(cells) && Spawned(cells, self, d, lo, To1D(x, y, z, d.height, d.depth))
            invariant forall c :: 0 <= c < lo && c != self ==> cells[c] == c0[c]
            invariant cells[self] == c0[self].(children := cells[self].children)
          {
            SpawnChild(self, d, x, y, z, c0, lo);
            To1DSteps(x, y, z, d.height, d.depth);
          }
          To1DSteps(x, y, 0, d.height, d.depth);
        }
        To1DSteps(x, 0, 0, d.height, d.depth);
      }
    }

    /** One pass of the innermost creation loop: the element at (x, y, z). */
    method SpawnChild(self: CellId, d: Dimensions, x: int, y: int, z: int, ghost c0: seq<Cell>, ghost lo: nat)
      requires Positive(d) && InLattice(x, y, z, d.width, d.height, d.depth)
      requires Valid() && Intact(cells) && Spawned(cells, self, d, lo, To1D(x, y, z, d.height, d.depth))
      requires lo <= |c0| && forall c :: 0 <= c < lo && c != self ==> cells[c] == c0[c]
      requires cells[self] == c0[self].(children := cells[self].children)
      modifies this
      ensures Valid() && Intact(cells) && Spawned(cells, self, d, lo, To1D(x, y, z, d.height, d.depth) + 1)
      ensures forall c :: 0 <= c < lo && c != self ==> cells[c] == c0[c]
      ensures cells[self] == c0[self].(children := cells[self].children)
    {
      ghost var t := To1D(x, y, z, d.height, d.depth);
      CoordsOfTo1D(x, y, z, d.width, d.height, d.depth);
      var parent := cells[self].box;
      var b := ChildBox(parent, d.width, d.height, d.depth, x, y, z);
      var scale := ChildScale(parent.halfSize, d.width, d.height, d.depth);
      SpawnStep(cells, self, d, lo, t, b);
      var id := NewGridElement(b.center, scale, Some(self));
      SetChildrenValid(cells, self, cells[self].children + [Some(id)], d);
      cells := cells[self := cells[self].(children := cells[self].children + [Some(id)])];
    }

    /** One of the three face passes of the stitching loop at child (x, y, z):
        when the child has a neighbour after it along axis a (x, y, z for
        a = 0, 1, 2), every grandchild on its far face is connected with the
        facing grandchild of that neighbour. c0 is the table the stitching
        started from; only neighbour lists have changed since. */
    method StitchPass(self: CellId, d: Dimensions, g: Dimensions, x: int, y: int, z: int, a: int, ghost c0: seq<Cell>)
      requires Positive(d) && !StitchCrash(d, g) && InLattice(x, y, z, d.width, d.height, d.depth) && 0 <= a < 3
      requires Valid() && self < |c0| && |c0[self].children| == Count(d)
      requires forall k :: 0 <= k < Count(d) ==> Family(c0, self, k, g, 0)
      requires OnlyNeighboursChanged(c0, cells)
      modifies this
      ensures Valid() && EdgesAdded(old(cells), cells, Pass(c0, self, d, g, To1D(x, y, z, d.height, d.depth), a))
    {
      var index := To1D(x, y, z, d.height, d.depth);
      var next := if a == 0 then To1D(x + 1, y, z, d.height, d.depth)
                  else if a == 1 then To1D(x, y + 1, z, d.height, d.depth)
                  else To1D(x, y, z + 1, d.height, d.depth);
      GuardAt(d, x, y, z, a);
      if (a == 0 && x < d.height - 1) || (a == 1 && y < d.height - 1) || (a == 2 && z < d.depth - 1) {
        StitchFace(self, d, g, index, next, a, c0);
      } else {
        assert EdgesAdded(cells, cells, {});
      }
    }

    /** The two loops of a face pass that runs: row by row over the face. */
    method StitchFace(self: CellId, d: Dimensions, g: Dimensions, index: int, next: int, a: int, ghost c0: seq<Cell>)
      requires Positive(d) && !StitchCrash(d, g) && 0 <= index < Count(d) && 0 <= a < 3
      requires Guard(a, index, d) && next == Next(a, index, d)
      requires Valid() && self < |c0| && |c0[self].children| == Count(d)
      requires forall k :: 0 <= k < Count(d) ==> Family(c0, self, k, g, 0)
      requires OnlyNeighboursChanged(c0, cells)
      modifies this
      ensures Valid() && EdgesAdded(old(cells), cells, Pass(c0, self, d, g, index, a))
    {
      ghost var c1 := cells;
      for u := 0 to SpanU(a, g)
        invariant Valid() && EdgesAdded(c1, cells, Rows(c0, self, d, g, index, a, u))
      {
        StitchRow(self, d, g, index, next, a, u, c0, c1);
      }
    }

    /** The inner loop of a face pass: the grandchildren of row u of the far
        face of child `index` are connected with those facing them in child
        `next`, after the rows before u (c1 is the table the pass started
        from). */
    method StitchRow(self: CellId, d: Dimensions, g: Dimensions, index: int, next: int, a: int, u: int,
                     ghost c0: seq<Cell>, ghost c1: seq<Cell>)
      requires Positive(d) && !StitchCrash(d, g) && 0 <= index < Count(d) && 0 <= a < 3
      requires Guard(a, index, d) && next == Next(a, index, d) && 0 <= u < SpanU(a, g)
      requires Valid() && self < |c0| && |c0[self].children| == Count(d)
      requires forall k :: 0 <= k < Count(d) ==> Family(c0, self, k, g, 0)
      requires OnlyNeighboursChanged(c0, c1) && EdgesAdded(c1, cells, Rows(c0, self, d, g, index, a, u))
      modifies this
      ensures Valid() && EdgesAdded(c1, cells, Rows(c0, self, d, g, index, a, u + 1))
    {
      ghost var c2 := cells;
      OnlyNeighboursTrans(c0, c1, c2);
      for v := 0 to SpanV(a, g)
        invariant Valid() && EdgesAdded(c2, cells, Row(c0, self, d, g, index, a, u, v))
      {
        StitchOne(self, d, g, index, next, a, u, v, c0, c2);
      }
      RowDone(c0, c1, c2, cells, self, d, g, index, a, u);
    }

    /** The innermost statement of a face pass: grandchild FaceFrom(a, g, u, v)
        of child `index` is connected with grandchild FaceTo(a, g, u, v) of
        child `next`, after the pairs before v of row u (c2 is the table the
        row started from). */
    method StitchOne(self: CellId, d: Dimensions, g: Dimensions, index: int, next: int, a: int, u: int, v: int,
                     ghost c0: seq<Cell>, ghost c2: seq<Cell>)
      requires Positive(d) && !StitchCrash(d, g) && 0 <= index < Count(d) && 0 <= a < 3
      requires Guard(a, index, d) && next == Next(a, index, d) && 0 <= u < SpanU(a, g) && 0 <= v < SpanV(a, g)
      requires Valid() && self < |c0| && |c0[self].children| == Count(d)
      requires forall k :: 0 <= k < Count(d) ==> Family(c0, self, k, g, 0)
      requires OnlyNeighboursChanged(c0, c2) && EdgesAdded(c2, cells, Row(c0, self, d, g, index, a, u, v))
      modifies this
      ensures Valid() && EdgesAdded(c2, cells, Row(c0, self, d, g, index, a, u, v + 1))
    {
      OnlyNeighboursTrans(c0, c2, cells);
      StitchInRange(d, g, index, a, u, v);
      FamilyLookup(c0, cells, self, index, g, FaceFrom(a, g, u, v));
      FamilyLookup(c0, cells, self, next, g, FaceTo(a, g, u, v));
      var from := cells[cells[self].children[index].value].children[FaceFrom(a, g, u, v)].value;
      var to := cells[cells[self].children[next].value].children[FaceTo(a, g, u, v)].value;
      assert Pair(c0, self, d, g, index, a, u, v) == Link(from, to);
      ghost var before := cells;
      ConnectTo(from, to);
      EdgesAddedTrans(c2, before, cells, Row(c0, self, d, g, index, a, u, v), Link(from, to));
      RowStep(c0, self, d, g, index, a, u, v);
    }

    /** The body of the stitching loop at child t = (x, y, z): the passes
        along x, y and z in that order, extending the pairs stitched for the
        children before t by those of t. */
    method StitchAt(self: CellId, d: Dimensions, g: Dimensions, x: int, y: int, z: int, ghost c0: seq<Cell>, ghost t: int)
      requires Positive(d) && !StitchCrash(d, g) && InLattice(x, y, z, d.width, d.height, d.depth)
      requires Valid() && self < |c0| && |c0[self].children| == Count(d)
      requires forall k :: 0 <= k < Count(d) ==> Family(c0, self, k, g, 0)
      requires t == To1D(x, y, z, d.height, d.depth) && EdgesAdded(c0, cells, StitchPairs(c0, self, d, g, t))
      modifies this
      ensures Valid() && EdgesAdded(c0, cells, StitchPairs(c0, self, d, g, t + 1))
    {
      To1DInRange(x, y, z, d.width, d.height, d.depth);
      ghost var c1 := cells;
      StitchPass(self, d, g, x, y, z, 0, c0);
      EdgesAddedTrans(c0, c1, cells, StitchPairs(c0, self, d, g, t), Pass(c0, self, d, g, t, 0));
      ghost var c2 := cells;
      OnlyNeighboursTrans(c0, c1, c2);
      StitchPass(self, d, g, x, y, z, 1, c0);
      EdgesAddedTrans(c0, c2, cells, StitchPairs(c0, self, d, g, t) + Pass(c0, self, d, g, t, 0), Pass(c0, self, d, g, t, 1));
      ghost var c3 := cells;
      OnlyNeighboursTrans(c0, c2, c3);
      StitchPass(self, d, g, x, y, z, 2, c0);
      EdgesAddedTrans(c0, c3, cells, StitchPairs(c0, self, d, g, t) + Pass(c0, self, d, g, t, 0) + Pass(c0, self, d, g, t, 1),
                      Pass(c0, self, d, g, t, 2));
    }

    /** The stitching loop: the three face passes at every child, in the
        order of the creation loops. */
    method Stitch(self: CellId, d: Dimensions, g: Dimensions)
      requires Positive(d) && !StitchCrash(d, g)
      requires Valid() && self < |cells| && |cells[self].children| == Count(d)
      requires forall k :: 0 <= k < Count(d) ==> Family(cells, self, k, g, 0)
      modifies this
      ensures Valid() && EdgesAdded(old(cells), cells, StitchPairs(old(cells), self, d, g, Count(d)))
    {
      ghost var c0 := cells;
      for x := 0 to d.width
        invariant Valid() && EdgesAdded(c0, cells, StitchPairs(c0, self, d, g, To1D(x, 0, 0, d.height, d.depth)))
      {
        StitchSlab(self, d, g, x, c0);
      }
      LatticeSize(d);
    }

    /** The y and z loops of the stitching loop, for one x. */
    method StitchSlab(self: CellId, d: Dimensions, g: Dimensions, x: int, ghost c0: seq<Cell>)
      requires Positive(d) && !StitchCrash(d, g) && 0 <= x < d.width
      requires Valid() && self < |c0| && |c0[self].children| == Count(d)
      requires forall k :: 0 <= k < Count(d) ==> Family(c0, self, k, g, 0)
      requires EdgesAdded(c0, cells, StitchPairs(c0, self, d, g, To1D(x, 0, 0, d.height, d.depth)))
      modifies this
      ensures Valid() && EdgesAdded(c0, cells, StitchPairs(c0, self, d, g, To1D(x + 1, 0, 0, d.height, d.depth)))
    {
      for y := 0 to d.height
        invariant Valid() && EdgesAdded(c0, cells, StitchPairs(c0, self, d, g, To1D(x, y, 0, d.height, d.depth)))
      {
        StitchColumn(self, d, g, x, y, c0);
      }
      To1DCarry(x, 0, d.height, d.depth);
      assert To1D(x, d.height, 0, d.height, d.depth) == To1D(x + 1, 0, 0, d.height, d.depth);
    }

    /** The z loop of the stitching loop, for one x and y. */
    method StitchColumn(self: CellId, d: Dimensions, g: Dimensions, x: int, y: int, ghost c0: seq<Cell>)
      requires Positive(d) && !StitchCrash(d, g) && 0 <= x < d.width && 0 <= y < d.height
      requires Valid() && self < |c0| && |c0[self].children| == Count(d)
      requires forall k :: 0 <= k < Count(d) ==> Family(c0, self, k, g, 0)
      requires EdgesAdded(c0, cells, StitchPairs(c0, self, d, g, To1D(x, y, 0, d.height, d.depth)))
      modifies this
      ensures Valid() && EdgesAdded(c0, cells, StitchPairs(c0, self, d, g, To1D(x, y + 1, 0, d.height, d.depth)))
    {
      ghost var t := To1D(x, y, 0, d.height, d.depth);
      for z := 0 to d.depth
        invariant t == To1D(x, y, z, d.height, d.depth)
        invariant Valid() && EdgesAdded(c0, cells, StitchPairs(c0, self, d, g, t))
      {
        StitchAt(self, d, g, x, y, z, c0, t);
        t := t + 1;
        To1DSteps(x, y, z, d.height, d.depth);
      }
      To1DCarry(x, y, d.height, d.depth);
    }
  
    /** GenerateUniformGrid: splits self into dims[0] children, wires touching
        siblings, splits every child further by the remaining extents and,
        while three levels remain, stitches the facing grandchildren of
        neighbouring children. Elements built on earlier calls are kept (the
        source drops its references to them); the new ones are appended. */
    method GenerateUniformGrid(self: CellId, dims: array<Dimensions>)
      requires Valid() && Intact(cells) && self < |cells| && !Faults(dims[..])
      modifies this
      decreases dims.Length, 5
      ensures Valid() && Intact(cells) && old(|cells|) <= |cells|
      ensures forall c :: 0 <= c < old(|cells|) && c != self ==> cells[c] == old(cells[c])
      ensures dims.Length == 0 ==> cells == old(cells)
      ensures dims.Length > 0 ==>
        && cells[self] == old(cells[self]).(children := ChildSlots(old(|cells|), Count(dims[0])), childDims := dims[0])
        && Shaped(cells, self, dims[..], old(|cells|))
      ensures dims.Length > 0 && Positive(dims[0]) ==> SiblingsExact(cells, old(|cells|), dims[0])
    {
      if dims.Length == 0 {
        return;
      }
      var d := dims[0];
      SetChildrenValid(cells, self, [], d);
      cells := cells[self := cells[self].(children := [], childDims := d)];
      if !Positive(d) {
        return;
      }
      ghost var lo := |cells|;
      SpawnChildren(self, d);
      ghost var c0 := cells;
      WireStart(c0, self, dims[..], lo);
      Wire(self, dims, c0, lo);
      if dims.Length > 2 {
        FaultsTail(dims[..]);
        var g := dims[1];
        WireFamily(cells, c0, self, dims[..], lo);
        ghost var c1 := cells;
        Stitch(self, d, g);
        forall p | p in StitchPairs(c1, self, d, g, Count(d)) ensures p.0 >= |c0| {
          StitchPairsAbove(c1, self, d, g, |c0|, p);
        }
        WireKept(c1, cells, c0, self, dims[..], lo, StitchPairs(c1, self, d, g, Count(d)));
        StitchedByPairs(c1, cells, self, d, g);
        IntactKept(c1, cells);
      }
      WireDone(cells, c0, self, dims[..], lo);
    }

    /** The wiring loop of GenerateUniformGrid over the freshly created
        children (c0 is the table right after their creation, lo the id of
        the first one). */
    method Wire(self: CellId, dims: array<Dimensions>, ghost c0: seq<Cell>, ghost lo: nat)
      requires dims.Length > 0 && Positive(dims[0]) && !Faults(dims[..])
      requires Valid() && Intact(cells) && WireState(cells, c0, self, dims[..], lo, 0, 0)
      modifies this
      decreases dims.Length, 4
      ensures Valid() && Intact(cells)
      ensures WireState(cells, c0, self, dims[..], lo, Count(dims[0]), Count(dims[0]))
    {
      var d := dims[0];
      ghost var t := 0;
      LatticeSize(d);
      for x := 0 to d.width
        invariant t == To1D(x, 0, 0, d.height, d.depth)
        invariant Valid() && Intact(cells) && WireState(cells, c0, self, dims[..], lo, t, t)
      {
        WireSlab(self, dims, x, c0, lo);
        t := To1D(x + 1, 0, 0, d.height, d.depth);
      }
    }

    /** The y and z loops of the wiring loop, for one x. */
    method WireSlab(self: CellId, dims: array<Dimensions>, x: int, ghost c0: seq<Cell>, ghost lo: nat)
      requires dims.Length > 0 && Positive(dims[0]) && !Faults(dims[..]) && 0 <= x < dims[0].width
      requires Valid() && Intact(cells)
      requires WireState(cells, c0, self, dims[..], lo, To1D(x, 0, 0, dims[0].height, dims[0].depth),
                         To1D(x, 0, 0, dims[0].height, dims[0].depth))
      modifies this
      decreases dims.Length, 3
      ensures Valid() && Intact(cells)
      ensures WireState(cells, c0, self, dims[..], lo, To1D(x + 1, 0, 0, dims[0].height, dims[0].depth),
                        To1D(x + 1, 0, 0, dims[0].height, dims[0].depth))
    {
      var d := dims[0];
      for y := 0 to d.height
        invariant Valid() && Intact(cells)
        invariant WireState(cells, c0, self, dims[..], lo, To1D(x, y, 0, d.height, d.depth), To1D(x, y, 0, d.height, d.depth))
      {
        WireColumn(self, dims, x, y, c0, lo);
      }
      To1DCarry(x, 0, d.height, d.depth);
      assert To1D(x, d.height, 0, d.height, d.depth) == To1D(x + 1, 0, 0, d.height, d.depth);
    }

    /** The z loop of the wiring loop, for one x and y. */
    method WireColumn(self: CellId, dims: array<Dimensions>, x: int, y: int, ghost c0: seq<Cell>, ghost lo: nat)
      requires dims.Length > 0 && Positive(dims[0]) && !Faults(dims[..])
      requires 0 <= x < dims[0].width && 0 <= y < dims[0].height
      requires Valid() && Intact(cells)
      requires WireState(cells, c0, self, dims[..], lo, To1D(x, y, 0, dims[0].height, dims[0].depth),
                         To1D(x, y, 0, dims[0].height, dims[0].depth))
      modifies this
      decreases dims.Length, 2
      ensures Valid() && Intact(cells)
      ensures WireState(cells, c0, self, dims[..], lo, To1D(x, y + 1, 0, dims[0].height, dims[0].depth),
                        To1D(x, y + 1, 0, dims[0].height, dims[0].depth))
    {
      var d := dims[0];
      ghost var t := To1D(x, y, 0, d.height, d.depth);
      for z := 0 to d.depth
        invariant t == To1D(x, y, z, d.height, d.depth)
        invariant Valid() && Intact(cells) && WireState(cells, c0, self, dims[..], lo, t, t)
      {
        WireChild(self, dims, x, y, z, c0, lo);
        t := t + 1;
        To1DSteps(x, y, z, d.height, d.depth);
      }
      To1DCarry(x, y, d.height, d.depth);
    }

    /** One pass of the innermost wiring loop: the child at (x, y, z) is
        connected with the siblings around it and then split by the
        remaining extents. */
    method WireChild(self: CellId, dims: array<Dimensions>, x: int, y: int, z: int, ghost c0: seq<Cell>, ghost lo: nat)
      requires dims.Length > 0 && Positive(dims[0]) && !Faults(dims[..])
      requires InLattice(x, y, z, dims[0].width, dims[0].height, dims[0].depth)
      requires Valid() && Intact(cells)
      requires WireState(cells, c0, self, dims[..], lo, To1D(x, y, z, dims[0].height, dims[0].depth),
                         To1D(x, y, z, dims[0].height, dims[0].depth))
      modifies this
      decreases dims.Length, 1
      ensures Valid() && Intact(cells)
      ensures WireState(cells, c0, self, dims[..], lo, To1D(x, y, z, dims[0].height, dims[0].depth) + 1,
                        To1D(x, y, z, dims[0].height, dims[0].depth) + 1)
    {
      var d := dims[0];
      var index := To1D(x, y, z, d.height, d.depth);
      var child := WireLinks(self, d, x, y, z, dims[..], c0, lo);
      WireSplit(self, dims, child, c0, lo, index);
    }

    /** The "Generate Neighbours" part of one pass of the innermost wiring
        loop: the child at (x, y, z) is connected with the siblings
        NeighbourIndices lists for it. */
    method WireLinks(self: CellId, d: Dimensions, x: int, y: int, z: int,
                     ghost ds: seq<Dimensions>, ghost c0: seq<Cell>, ghost lo: nat) returns (child: CellId)
      requires |ds| > 0 && ds[0] == d && Positive(d) && InLattice(x, y, z, d.width, d.height, d.depth)
      requires Valid() && Intact(cells)
      requires WireState(cells, c0, self, ds, lo, To1D(x, y, z, d.height, d.depth), To1D(x, y, z, d.height, d.depth))
      modifies this
      ensures 0 <= To1D(x, y, z, d.height, d.depth) < Count(d) && child == lo + To1D(x, y, z, d.height, d.depth)
      ensures Valid() && Intact(cells)
      ensures WireState(cells, c0, self, ds, lo, To1D(x, y, z, d.height, d.depth) + 1, To1D(x, y, z, d.height, d.depth))
    {
      var index := To1D(x, y, z, d.height, d.depth);
      var ks := NeighbourIndices(x, y, z, d.width, d.height, d.depth);
      WireNeighbours(cells, c0, self, ds, lo, d, x, y, z, ks);
      var neighbours := Siblings(self, ks, lo, Count(d));
      child := cells[self].children[index].value;
      ghost var c1 := cells;
      ConnectToAll(child, neighbours);
      WireConnectAt(c1, cells, c0, self, ds, lo, d, x, y, z, index, ks, neighbours);
      IntactKept(c1, cells);
    }

    /** The siblings at the positions ks, read from the child list of self
        while it still lists the n fresh children created from lo on. */
    method Siblings(self: CellId, ks: seq<int>, ghost lo: nat, ghost n: nat) returns (neighbours: seq<CellId>)
      requires self < |cells| && cells[self].children == ChildSlots(lo, n)
      requires forall i :: 0 <= i < |ks| ==> 0 <= ks[i] < n
      ensures |neighbours| == |ks| && forall i :: 0 <= i < |ks| ==> neighbours[i] == lo + ks[i]
    {
      var cs := cells[self].children;
      neighbours := seq(|ks|, i requires 0 <= i < |ks| => cs[ks[i]].value);
    }

    /** The end of one pass of the innermost wiring loop: the child just
        connected is split by the remaining extents, if any remain. */
    method WireSplit(self: CellId, dims: array<Dimensions>, child: CellId, ghost c0: seq<Cell>, ghost lo: nat, ghost t: nat)
      requires dims.Length > 0 && Positive(dims[0]) && !Faults(dims[..])
      requires child == lo + t && t < Count(dims[0])
      requires Valid() && Intact(cells) && WireState(cells, c0, self, dims[..], lo, t + 1, t)
      modifies this
      decreases dims.Length, 0
      ensures Valid() && Intact(cells) && WireState(cells, c0, self, dims[..], lo, t + 1, t + 1)
    {
      if dims.Length > 1 {
        var rest := SubArray(dims, 1, dims.Length - 1);
        FaultsTail(dims[..]);
        assert rest[..] == dims[..][1..];
        ghost var c2 := cells;
        GenerateUniformGrid(child, rest);
        WireBuild(c2, cells, c0, self, dims[..], lo, t);
      } else {
        WireLeaf(cells, c0, self, dims[..], lo, t);
      }
    }
  }
}
