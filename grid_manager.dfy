/**
 * class GridManager of GridManager.cs: the list of root grids, the lookup of
 * the leaf holding a point, and the range query that walks the grid from an
 * object's element and gathers the nearby objects of type T.
 */
module GridManagers {
  import opened Wrappers
  import opened Lists
  import opened Geometry
  import opened GridSpec
  import opened GridElements

  /** The objects the range query takes from a list of elements: those of
      each element that pass `near`, element after element. */
  function Gather(cells: seq<Cell>, es: seq<CellId>, near: ObjId -> bool): seq<ObjId>
    requires forall k :: 0 <= k < |es| ==> es[k] < |cells|
  {
    if es == [] then []
    else Gather(cells, es[..|es| - 1], near) + Filter(cells[es[|es| - 1]].objects, near)
  }

  /** An object is gathered exactly when one of the elements holds it and it
      passes `near`. */
  lemma {:induction false} GatherMember(cells: seq<Cell>, es: seq<CellId>, near: ObjId -> bool, o: ObjId)
    requires forall k :: 0 <= k < |es| ==> es[k] < |cells|
    ensures o in Gather(cells, es, near) <==> near(o) && exists k :: 0 <= k < |es| && o in cells[es[k]].objects
  {
    if es != [] {
      var init := es[..|es| - 1];
      var last := es[|es| - 1];
      GatherMember(cells, init, near, o);
      var f := Filter(cells[last].objects, near);
      assert o in f <==> near(o) && o in cells[last].objects by {
        if o in f {
          var k :| 0 <= k < |f| && f[k] == o;
        }
        if near(o) && o in cells[last].objects {
          var k :| 0 <= k < |cells[last].objects| && cells[last].objects[k] == o;
        }
      }
      if near(o) && exists k :: 0 <= k < |es| && o in cells[es[k]].objects {
        var k :| 0 <= k < |es| && o in cells[es[k]].objects;
        if k < |es| - 1 {
          assert init[k] == es[k];
        }
      }
      if o in Gather(cells, init, near) {
        var k :| 0 <= k < |init| && o in cells[init[k]].objects;
        assert es[k] == init[k];
      }
    }
  }

  /** Gathering over the leaves a complete walk collected yields exactly the
      nearby objects of the leaves the walk can reach. */
  lemma {:induction false} GatheredFromWalk(cells: seq<Cell>, inRange: Box -> bool, start: CellId, e: seq<CellId>,
                                            isT: ObjId -> bool, posOf: ObjId -> Vec3, position: Vec3, range: real)
    requires forall c: CellId :: c in e <==> c < |cells| && IsLeaf(cells, c) && inRange(cells[c].box) && Reaches(cells, inRange, start, c)
    ensures forall k :: 0 <= k < |e| ==> e[k] < |cells|
    ensures forall o :: o in Gather(cells, e, Near(isT, posOf, position, range)) <==>
      isT(o) && DistanceBelow(posOf(o), position, range) &&
      exists c: CellId :: c < |cells| && IsLeaf(cells, c) && inRange(cells[c].box) &&
        Reaches(cells, inRange, start, c) && o in cells[c].objects
  {
    assert forall k :: 0 <= k < |e| ==> e[k] in e;
    var near := Near(isT, posOf, position, range);
    forall o ensures o in Gather(cells, e, near) <==>
      isT(o) && DistanceBelow(posOf(o), position, range) &&
      exists c: CellId :: c < |cells| && IsLeaf(cells, c) && inRange(cells[c].box) &&
        Reaches(cells, inRange, start, c) && o in cells[c].objects
    {
      GatherMember(cells, e, near, o);
      if o in Gather(cells, e, near) {
        var k :| 0 <= k < |e| && o in cells[e[k]].objects;
        assert e[k] in e;
      }
      if exists c: CellId :: c < |cells| && IsLeaf(cells, c) && inRange(cells[c].box) &&
           Reaches(cells, inRange, start, c) && o in cells[c].objects {
        var c: CellId :| c < |cells| && IsLeaf(cells, c) && inRange(cells[c].box) &&
           Reaches(cells, inRange, start, c) && o in cells[c].objects;
        assert c in e;
        var k :| 0 <= k < |e| && e[k] == c;
      }
    }
  }

  class GridManager {
    /** The root grids, in the order they were added (_grids). */
    var grids: seq<CellId>

    constructor ()
      ensures grids == []
    {
      grids := [];
    }

    /** AddGrid: appends a root grid. */
    method AddGrid(element: CellId)
      modifies this
      ensures grids == old(grids) + [element]
    {
      grids := grids + [element];
    }

    /** GetContainingGridElement: null when there is no grid gridID;
        otherwise what that root's FindContainingGridElement writes into a
        null reference, which is the leaf Resolve finds, or null when the
        root does not contain the point. */
    method GetContainingGridElement(t: CellTable, gridID: nat, position: Vec3) returns (element: Option<CellId>)
      requires WellFormed(t.cells) && Intact(t.cells)
      requires forall k :: 0 <= k < |grids| ==> grids[k] < |t.cells|
      ensures gridID >= |grids| ==> element == None
      ensures gridID < |grids| ==> element == Resolve(t.cells, grids[gridID], position)
      ensures element.Some? ==>
        element.value < |t.cells| && IsLeaf(t.cells, element.value) && Contains(t.cells[element.value].box, position)
    {
      element := None;
      if |grids| > gridID {
        element := t.FindContainingGridElement(grids[gridID], position, element);
      }
    }

    /** The loop of GetObjectsInRange<T>: appends, element after element,
        what GetChildrenInRange<T> returns for it. */
    method GatherInRange(t: CellTable, elements: seq<CellId>, isT: ObjId -> bool, posOf: ObjId -> Vec3,
                         position: Vec3, range: real)
      returns (objects: seq<ObjId>)
      requires forall k :: 0 <= k < |elements| ==> elements[k] < |t.cells|
      ensures objects == Gather(t.cells, elements, Near(isT, posOf, position, range))
    {
      objects := [];
      for i := 0 to |elements|
        invariant objects == Gather(t.cells, elements[..i], Near(isT, posOf, position, range))
      {
        var found := t.GetChildrenInRange(elements[i], isT, posOf, position, range);
        assert elements[..i + 1][..i] == elements[..i];
        objects := objects + found;
      }
      assert elements[..|elements|] == elements;
    }

    /** GetObjectsInElements<T>: the objects of type T registered with the
        listed elements, element after element, each element's in
        registration order; an object is listed exactly when one of the
        elements holds it and it is a T. */
    method GetObjectsInElements(t: CellTable, elements: seq<CellId>, isT: ObjId -> bool) returns (objects: seq<ObjId>)
      requires forall k :: 0 <= k < |elements| ==> elements[k] < |t.cells|
      ensures objects == Gather(t.cells, elements, isT)
      ensures forall o :: o in objects <==> isT(o) && exists k :: 0 <= k < |elements| && o in t.cells[elements[k]].objects
    {
      objects := [];
      for i := 0 to |elements|
        invariant objects == Gather(t.cells, elements[..i], isT)
      {
        var found := t.GetChildren(elements[i], isT);
        assert elements[..i + 1][..i] == elements[..i];
        objects := objects + found;
      }
      assert elements[..|elements|] == elements;
      forall o ensures o in objects <==> isT(o) && exists k :: 0 <= k < |elements| && o in t.cells[elements[k]].objects {
        GatherMember(t.cells, elements, isT, o);
      }
    }

    /** GetObjectsInRange<T>: walks the grid from the centre object's element
        (`start`, with the centre's position folded into `inRange`) and
        gathers, element by element, the objects of each collected leaf that
        are a T and lie strictly within `range` of `position`. */
    method GetObjectsInRange(t: CellTable, start: CellId, position: Vec3, range: real, inRange: Box -> bool,
                             isT: ObjId -> bool, posOf: ObjId -> Vec3)
      returns (objects: seq<ObjId>)
      requires WellFormed(t.cells) && Intact(t.cells) && start < |t.cells|
      ensures forall o :: o in objects <==>
        isT(o) && DistanceBelow(posOf(o), position, range) &&
        exists c: CellId :: c < |t.cells| && IsLeaf(t.cells, c) && inRange(t.cells[c].box) &&
          Reaches(t.cells, inRange, start, c) && o in t.cells[c].objects
    {
      var path, elementsInRange := t.GridElementsInRange(start, inRange, [], []);
      WalkCollects(t.cells, inRange, start, path, elementsInRange);
      GatheredFromWalk(t.cells, inRange, start, elementsInRange, isT, posOf, position, range);
      objects := GatherInRange(t, elementsInRange, isT, posOf, position, range);
    }
  }
}
