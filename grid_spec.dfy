/**
 * The cell table behind GridManager.cs. Every GridElement is a row of the
 * table, addressed by its index (CellId); a reference to a child may be null
 * (Option) because RemoveElement overwrites child slots with null. This module
 * holds the value-level definitions the GridElement operations are specified
 * against: well-formedness of the table, the neighbour graph invariant, point
 * resolution, and the successor relation the range walk follows.
 */
module GridSpec {
  import opened Wrappers
  import opened Lists
  import opened Geometry

  type CellId = nat
  type ObjId = nat

  /** One level of a grid specification (struct Dimensions). */
  datatype Dimensions = Dimensions(width: int, height: int, depth: int)

  predicate Positive(d: Dimensions) {
    d.width > 0 && d.height > 0 && d.depth > 0
  }

  /** Number of children GenerateUniformGrid creates for one level: the
      creation loops run width * height * depth times, or not at all when an
      extent is zero or negative. */
  function Count(d: Dimensions): nat {
    if Positive(d) then d.width * d.height * d.depth else 0
  }

  /** The state of one GridElement: its box, `_parent`, `_children`,
      `_neighbours`, `_objects` and the lattice extents of its last split. */
  datatype Cell = Cell(
    box: Box,
    parent: Option<CellId>,
    children: seq<Option<CellId>>,
    neighbours: seq<CellId>,
    objects: seq<ObjId>,
    childDims: Dimensions)

  /** A freshly constructed GridElement: no children, neighbours or objects. */
  function NewCell(box: Box, parent: Option<CellId>): Cell {
    Cell(box, parent, [], [], [], Dimensions(0, 0, 0))
  }

  predicate IsLeaf(cells: seq<Cell>, c: CellId)
    requires c < |cells|
  {
    |cells[c].children| == 0
  }

  /** Child references point forward in the table (a child is always created
      after its parent) and every reference is a row of the table. */
  predicate CellWellFormed(cells: seq<Cell>, c: CellId)
    requires c < |cells|
  {
    && (forall i :: 0 <= i < |cells[c].children| && cells[c].children[i].Some? ==>
          c < cells[c].children[i].value < |cells|)
    && (forall n :: n in cells[c].neighbours ==> n < |cells|)
  }

  predicate WellFormed(cells: seq<Cell>) {
    forall c :: 0 <= c < |cells| ==> CellWellFormed(cells, c)
  }

  /** No child slot of any element holds null. */
  predicate Intact(cells: seq<Cell>) {
    forall c, i :: 0 <= c < |cells| && 0 <= i < |cells[c].children| ==> cells[c].children[i].Some?
  }

  /** The neighbour invariant AddNeighbour and ConnectTo maintain around one
      element: it is not its own neighbour, it lists nobody twice, and each of
      its neighbours lists it back. */
  predicate NeighbourInvariant(cells: seq<Cell>, a: CellId)
    requires a < |cells|
  {
    && a !in cells[a].neighbours
    && Distinct(cells[a].neighbours)
    && forall b :: b in cells[a].neighbours ==> b < |cells| && a in cells[b].neighbours
  }

  /** The whole neighbour relation is symmetric, irreflexive and duplicate-free. */
  predicate NeighbourGraph(cells: seq<Cell>) {
    forall a :: 0 <= a < |cells| ==> NeighbourInvariant(cells, a)
  }

  predicate Valid(cells: seq<Cell>) {
    WellFormed(cells) && NeighbourGraph(cells)
  }

  /** Symmetry in its usual form, a consequence of NeighbourGraph. */
  lemma {:induction false} NeighbourSymmetry(cells: seq<Cell>, a: CellId, b: CellId)
    requires NeighbourGraph(cells) && a < |cells| && b < |cells|
    ensures b in cells[a].neighbours <==> a in cells[b].neighbours
  {
    assert NeighbourInvariant(cells, a) && NeighbourInvariant(cells, b);
  }

  /** c1 differs from c0 only in neighbour lists. */
  predicate OnlyNeighboursChanged(c0: seq<Cell>, c1: seq<Cell>) {
    |c1| == |c0| && forall c :: 0 <= c < |c0| ==> c1[c] == c0[c].(neighbours := c1[c].neighbours)
  }

  /** The neighbour lists of c1 are those of c0 plus the ordered pairs in
      `added`; nothing else changed. */
  ghost predicate EdgesAdded(c0: seq<Cell>, c1: seq<Cell>, added: set<(CellId, CellId)>) {
    && OnlyNeighboursChanged(c0, c1)
    && NeighboursAdded(c0, c1, added)
    && (forall a :: 0 <= a < |c0| && a !in Ends(added) ==> c1[a] == c0[a])
  }

  /** The neighbour part of EdgesAdded. */
  ghost predicate NeighboursAdded(c0: seq<Cell>, c1: seq<Cell>, added: set<(CellId, CellId)>) {
    |c1| == |c0| && forall a, b :: 0 <= a < |c1| ==> (b in c1[a].neighbours <==> b in c0[a].neighbours || (a, b) in added)
  }

  /** The elements whose neighbour lists a set of pairs extends. */
  function Ends(added: set<(CellId, CellId)>): set<CellId> {
    set p | p in added :: p.0
  }

  /** The ordered pairs ConnectTo(a, b) adds: both directions, unless a == b. */
  function Link(a: CellId, b: CellId): set<(CellId, CellId)> {
    if a == b then {} else {(a, b), (b, a)}
  }

  /** The pairs ConnectTo(a, list) adds. */
  function LinkAll(a: CellId, bs: seq<CellId>): set<(CellId, CellId)> {
    (set b | b in bs && b != a :: (a, b)) + (set b | b in bs && b != a :: (b, a))
  }

  // ---------------------------------------------------------------------
  // Point resolution (FindContainingGridElement)
  // ---------------------------------------------------------------------

  /** All child references of the listed slots are set and lie after e. */
  predicate ForwardSlots(cells: seq<Cell>, e: CellId, cs: seq<Option<CellId>>) {
    forall i :: 0 <= i < |cs| ==> cs[i].Some? && e < cs[i].value < |cells|
  }

  /** The leaf a point resolves to below e, or None when e does not contain
      it. Among children, the LAST one (in list order) that resolves the point
      decides: ResolveAmong scans the children from the back. */
  function Resolve(cells: seq<Cell>, e: CellId, p: Vec3): (r: Option<CellId>)
    requires WellFormed(cells) && Intact(cells) && e < |cells|
    ensures r.Some? ==> r.value < |cells| && IsLeaf(cells, r.value) && Contains(cells[r.value].box, p)
    ensures r.Some? ==> Contains(cells[e].box, p)
    decreases |cells| - e, 1
  {
    if !Contains(cells[e].box, p) then None
    else if |cells[e].children| == 0 then Some(e)
    else
      assert CellWellFormed(cells, e);
      ResolveAmong(cells, e, cells[e].children, p)
  }

  function ResolveAmong(cells: seq<Cell>, e: CellId, cs: seq<Option<CellId>>, p: Vec3): (r: Option<CellId>)
    requires WellFormed(cells) && Intact(cells) && e < |cells| && ForwardSlots(cells, e, cs)
    ensures r.Some? ==> r.value < |cells| && IsLeaf(cells, r.value) && Contains(cells[r.value].box, p)
    decreases |cells| - e, 0, |cs|
  {
    if cs == [] then None
    else
      match Resolve(cells, cs[|cs| - 1].value, p)
      case Some(l) => Some(l)
      case None => ResolveAmong(cells, e, cs[..|cs| - 1], p)
  }

  /** A descent from path[0] to a leaf, each step into a child, every element
      on the way containing p. */
  predicate ContainingPath(cells: seq<Cell>, path: seq<CellId>, p: Vec3) {
    && |path| > 0
    && (forall i :: 0 <= i < |path| ==> path[i] < |cells| && Contains(cells[path[i]].box, p))
    && (forall i :: 0 <= i < |path| - 1 ==> Some(path[i + 1]) in cells[path[i]].children)
    && IsLeaf(cells, path[|path| - 1])
  }

  /** When several children resolve the point, the result is that of the last
      one: child i resolves it and no later child does. */
  lemma {:induction false} ResolveAmongLastWins(cells: seq<Cell>, e: CellId, cs: seq<Option<CellId>>, p: Vec3)
    returns (i: nat)
    requires WellFormed(cells) && Intact(cells) && e < |cells| && ForwardSlots(cells, e, cs)
    requires ResolveAmong(cells, e, cs, p).Some?
    ensures i < |cs| && Resolve(cells, cs[i].value, p) == ResolveAmong(cells, e, cs, p)
    ensures forall j :: i < j < |cs| ==> Resolve(cells, cs[j].value, p).None?
  {
    var last := |cs| - 1;
    if Resolve(cells, cs[last].value, p).Some? {
      i := last;
    } else {
      var init := cs[..last];
      assert ForwardSlots(cells, e, init);
      i := ResolveAmongLastWins(cells, e, init, p);
      assert init[i] == cs[i];
      forall j | i < j < |cs| ensures Resolve(cells, cs[j].value, p).None? {
        if j < last { assert init[j] == cs[j]; }
      }
    }
  }

  /** The element Resolve returns is reached from e by a descent through
      children every one of which contains the point. */
  lemma {:induction false} ResolvePath(cells: seq<Cell>, e: CellId, p: Vec3) returns (path: seq<CellId>)
    requires WellFormed(cells) && Intact(cells) && e < |cells|
    requires Resolve(cells, e, p).Some?
    ensures ContainingPath(cells, path, p)
    ensures path[0] == e && path[|path| - 1] == Resolve(cells, e, p).value
    decreases |cells| - e
  {
    if |cells[e].children| == 0 {
      path := [e];
    } else {
      assert CellWellFormed(cells, e);
      var cs := cells[e].children;
      var i := ResolveAmongLastWins(cells, e, cs, p);
      var tail := ResolvePath(cells, cs[i].value, p);
      path := [e] + tail;
      assert cs[i] in cs;
      forall k | 0 <= k < |path| - 1 ensures Some(path[k + 1]) in cells[path[k]].children {
        if k > 0 { assert path[k] == tail[k - 1] && path[k + 1] == tail[k]; }
      }
    }
  }

  // ---------------------------------------------------------------------
  // The range walk (GridElementsInRange)
  // ---------------------------------------------------------------------

  /** The walk goes from an element that passes the range test to each of its
      neighbours and to each of its children. */
  predicate Successor(cells: seq<Cell>, a: CellId, b: CellId)
    requires a < |cells|
  {
    b in cells[a].neighbours || Some(b) in cells[a].children
  }

  /** s is a route of the walk: each step leaves an element that passes the
      range test for one of its successors. */
  predicate Route(cells: seq<Cell>, inRange: Box -> bool, s: seq<CellId>) {
    && |s| > 0
    && (forall i :: 0 <= i < |s| ==> s[i] < |cells|)
    && (forall i :: 0 <= i < |s| - 1 ==> inRange(cells[s[i]].box) && Successor(cells, s[i], s[i + 1]))
  }

  /** The cells listed after position `from` of path are closed under the
      walk: each one that passes the range test has all its successors in path. */
  ghost predicate Closed(cells: seq<Cell>, inRange: Box -> bool, path: seq<CellId>, from: nat) {
    forall k :: from <= k < |path| && path[k] < |cells| && inRange(cells[path[k]].box) ==>
      (forall n :: n in cells[path[k]].neighbours ==> n in path) &&
      (forall i :: 0 <= i < |cells[path[k]].children| ==>
         cells[path[k]].children[i].Some? && cells[path[k]].children[i].value in path)
  }

  /** Every in-range leaf listed after position `from` of path was collected. */
  ghost predicate Collected(cells: seq<Cell>, inRange: Box -> bool, path: seq<CellId>, from: nat, elements: seq<CellId>) {
    forall k :: from <= k < |path| && path[k] < |cells| && inRange(cells[path[k]].box) && IsLeaf(cells, path[k]) ==>
      path[k] in elements
  }

  /** Every cell listed after position `from` + 1 of path was reached from an
      earlier one of that stretch that passed the range test. */
  ghost predicate Discovered(cells: seq<Cell>, inRange: Box -> bool, path: seq<CellId>, from: nat) {
    forall k :: from < k < |path| ==>
      exists j :: from <= j < k && path[j] < |cells| && inRange(cells[path[j]].box) && Successor(cells, path[j], path[k])
  }

  /** The bookkeeping of the walk: path and elements only grow at the end,
      path lists each element once, and elements lists only visited in-range
      leaves, each once. */
  ghost predicate Extends(cells: seq<Cell>, inRange: Box -> bool,
                          path0: seq<CellId>, elements0: seq<CellId>, path: seq<CellId>, elements: seq<CellId>) {
    && |path0| <= |path| && path[..|path0|] == path0
    && |elements0| <= |elements| && elements[..|elements0|] == elements0
    && Distinct(path) && (forall k :: 0 <= k < |path| ==> path[k] < |cells|)
    && Distinct(elements) && (forall k :: 0 <= k < |elements| ==> elements[k] in path)
    && (forall k :: |elements0| <= k < |elements| ==>
          elements[k] !in path0 && elements[k] < |cells| &&
          IsLeaf(cells, elements[k]) && inRange(cells[elements[k]].box))
  }

  /** A duplicate-free list of table indices is no longer than the table. */
  lemma {:induction false} DistinctBounded(s: seq<CellId>, n: nat)
    requires Distinct(s) && forall k :: 0 <= k < |s| ==> s[k] < n
    ensures |s| <= n
  {
    if s == [] {
    } else if i :| 0 <= i < |s| && s[i] == n - 1 {
      var t := s[..i] + s[i + 1..];
      assert forall k :: 0 <= k < |t| ==> t[k] == (if k < i then s[k] else s[k + 1]);
      DistinctBounded(t, n - 1);
    } else {
      assert s[0] < n;
      DistinctBounded(s, n - 1);
    }
  }

  // ---------------------------------------------------------------------
  // Neighbour wiring (AddNeighbour, ConnectTo)
  // ---------------------------------------------------------------------

  /** The table after a.AddNeighbour(b): b is appended to a's list unless it
      is a itself or already listed. */
  function AddNeighbourTo(cells: seq<Cell>, a: CellId, b: CellId): seq<Cell>
    requires a < |cells|
  {
    if b != a && b !in cells[a].neighbours
    then cells[a := cells[a].(neighbours := cells[a].neighbours + [b])]
    else cells
  }

  /** ConnectTo(a, b) = a.AddNeighbour(b); b.AddNeighbour(a) keeps the
      neighbour relation symmetric, irreflexive and duplicate-free, and adds
      exactly the pair a-b. */
  lemma {:induction false} ConnectKeepsGraph(cells: seq<Cell>, a: CellId, b: CellId)
    requires Valid(cells) && a < |cells| && b < |cells|
    ensures var c2 := AddNeighbourTo(AddNeighbourTo(cells, a, b), b, a);
      Valid(c2) && EdgesAdded(cells, c2, Link(a, b))
  {
    var c1 := AddNeighbourTo(cells, a, b);
    var c2 := AddNeighbourTo(c1, b, a);
    if a != b {
      assert b in c2[a].neighbours && a in c2[b].neighbours;
      forall x | 0 <= x < |c2|
        ensures forall y :: y in c2[x].neighbours <==> y in cells[x].neighbours || (x, y) in Link(a, b)
      {
        assert x != a && x != b ==> c2[x] == cells[x];
      }
      forall x | 0 <= x < |c2| ensures NeighbourInvariant(c2, x) && CellWellFormed(c2, x) {
        assert NeighbourInvariant(cells, x) && CellWellFormed(cells, x);
        forall y | y in c2[x].neighbours ensures y < |c2| && x in c2[y].neighbours {
          if y in cells[x].neighbours {
            assert NeighbourInvariant(cells, x);
            assert x in cells[y].neighbours;
          }
        }
        if x == a && b !in cells[a].neighbours {
          var s := cells[a].neighbours;
          assert c2[a].neighbours == s + [b];
          assert forall i :: 0 <= i < |s| ==> (s + [b])[i] == s[i];
        }
        if x == b && a !in cells[b].neighbours {
          var s := cells[b].neighbours;
          assert c2[b].neighbours == s + [a];
          assert forall i :: 0 <= i < |s| ==> (s + [a])[i] == s[i];
        }
      }
    }
  }

  /** Replacing an element's child list by forward references into the table
      (and recording new extents) keeps the table valid. */
  lemma {:induction false} SetChildrenValid(cells: seq<Cell>, e: CellId, cs: seq<Option<CellId>>, dims: Dimensions)
    requires Valid(cells) && e < |cells|
    requires forall i :: 0 <= i < |cs| && cs[i].Some? ==> e < cs[i].value < |cells|
    ensures Valid(cells[e := cells[e].(children := cs, childDims := dims)])
  {
    var c1 := cells[e := cells[e].(children := cs, childDims := dims)];
    forall c | 0 <= c < |c1| ensures CellWellFormed(c1, c) && NeighbourInvariant(c1, c) {
      assert CellWellFormed(cells, c) && NeighbourInvariant(cells, c);
      assert forall x :: 0 <= x < |c1| ==> c1[x].neighbours == cells[x].neighbours;
    }
  }

  /** Changing only neighbour lists twice changes only neighbour lists. */
  lemma {:induction false} OnlyNeighboursTrans(c0: seq<Cell>, c1: seq<Cell>, c2: seq<Cell>)
    requires OnlyNeighboursChanged(c0, c1) && OnlyNeighboursChanged(c1, c2)
    ensures OnlyNeighboursChanged(c0, c2)
  {
    forall c | 0 <= c < |c0| ensures c2[c] == c0[c].(neighbours := c2[c].neighbours) {
      assert c1[c] == c0[c].(neighbours := c1[c].neighbours);
    }
  }

  /** Changing only neighbour lists leaves every child slot as it was. */
  lemma {:induction false} IntactKept(c0: seq<Cell>, c1: seq<Cell>)
    requires OnlyNeighboursChanged(c0, c1) && Intact(c0)
    ensures Intact(c1)
  {
    forall c, i | 0 <= c < |c1| && 0 <= i < |c1[c].children| ensures c1[c].children[i].Some? {
      assert c1[c] == c0[c].(neighbours := c1[c].neighbours);
    }
  }

  /** Adding edges in two rounds adds their union. */
  lemma {:induction false} EdgesAddedTrans(c0: seq<Cell>, c1: seq<Cell>, c2: seq<Cell>, e1: set<(CellId, CellId)>, e2: set<(CellId, CellId)>)
    requires EdgesAdded(c0, c1, e1) && EdgesAdded(c1, c2, e2)
    ensures EdgesAdded(c0, c2, e1 + e2)
  {
    forall c | 0 <= c < |c0| ensures c2[c] == c0[c].(neighbours := c2[c].neighbours) {
      assert c1[c] == c0[c].(neighbours := c1[c].neighbours);
    }
  }

  /** The pairs of LinkAll, one by one. */
  lemma {:induction false} LinkAllMember(a: CellId, bs: seq<CellId>, x: CellId, y: CellId)
    ensures (x, y) in LinkAll(a, bs) <==> (x == a && y in bs && y != a) || (y == a && x in bs && x != a)
  {
    if x == a && y in bs && y != a {
      assert (x, y) in (set b | b in bs && b != a :: (a, b));
    }
    if y == a && x in bs && x != a {
      assert (x, y) in (set b | b in bs && b != a :: (b, a));
    }
  }

  /** One more element of the list passed to ConnectTo(a, list). */
  lemma {:induction false} LinkAllStep(a: CellId, bs: seq<CellId>, i: nat)
    requires i < |bs|
    ensures LinkAll(a, bs[..i + 1]) == LinkAll(a, bs[..i]) + Link(a, bs[i])
  {
    assert bs[..i + 1] == bs[..i] + [bs[i]];
  }

  /** One recursive call of the walk, made from cell path[|path0|] after it
      passed the range test, keeps the walk's bookkeeping of the caller. */
  lemma {:induction false} WalkStep(cells: seq<Cell>, inRange: Box -> bool,
                 path0: seq<CellId>, elements0: seq<CellId>,
                 p0: seq<CellId>, e0: seq<CellId>, p1: seq<CellId>, e1: seq<CellId>)
    requires WalkState(cells, inRange, path0, elements0, p0, e0)
    requires Extends(cells, inRange, p0, e0, p1, e1)
    requires Closed(cells, inRange, p1, |p0|)
    requires Collected(cells, inRange, p1, |p0|, e1)
    requires Discovered(cells, inRange, p1, |p0|)
    requires |p1| > |p0| ==> Successor(cells, p0[|path0|], p1[|p0|])
    ensures WalkState(cells, inRange, path0, elements0, p1, e1)
    ensures |p0| <= |p1| && p1[|path0|] == p0[|path0|]
    ensures forall c :: c in p0 ==> c in p1
  {
    PrefixKept(p0, p1);
    ExtendsTrans(cells, inRange, path0, elements0, p0, e0, p1, e1);
    assert p0[|path0|] !in e1 by {
      assert p0[|path0|] in p0;
      forall k | |e0| <= k < |e1| ensures e1[k] != p0[|path0|] { assert e1[k] !in p0; }
    }
    ClosedStep(cells, inRange, |path0| + 1, p0, e0, p1, e1);
    DiscoveredStep(cells, inRange, path0, p0, p1);
  }

  /** What a list keeps when it only grows at the end. */
  lemma {:induction false} PrefixKept(p0: seq<CellId>, p1: seq<CellId>)
    requires |p0| <= |p1| && p1[..|p0|] == p0
    ensures forall k :: 0 <= k < |p0| ==> p1[k] == p0[k]
    ensures forall c :: c in p0 ==> c in p1
  {
    forall c | c in p0 ensures c in p1 {
      var k :| 0 <= k < |p0| && p0[k] == c;
      assert p1[k] == c;
    }
  }

  /** The walk's bookkeeping composes: growing path0 to p0 and then p0 to p1
      grows path0 to p1. */
  lemma {:induction false} ExtendsTrans(cells: seq<Cell>, inRange: Box -> bool,
                 path0: seq<CellId>, elements0: seq<CellId>,
                 p0: seq<CellId>, e0: seq<CellId>, p1: seq<CellId>, e1: seq<CellId>)
    requires Extends(cells, inRange, path0, elements0, p0, e0)
    requires Extends(cells, inRange, p0, e0, p1, e1)
    ensures Extends(cells, inRange, path0, elements0, p1, e1)
  {
    PrefixKept(p0, p1);
    PrefixKept(path0, p0);
    assert forall k :: 0 <= k < |e0| ==> e1[k] == e0[k];
    assert p1[..|path0|] == path0 by { assert p1[..|p0|][..|path0|] == p1[..|path0|]; }
    assert e1[..|elements0|] == elements0 by { assert e1[..|e0|][..|elements0|] == e1[..|elements0|]; }
    forall k | |elements0| <= k < |e1|
      ensures e1[k] !in path0 && e1[k] < |cells| && IsLeaf(cells, e1[k]) && inRange(cells[e1[k]].box)
    {
      if k >= |e0| {
        assert e1[k] !in p0;
      }
    }
  }

  /** Closure and collection of the cells after `from` survive the nested walk
      that closed and collected the cells it added. */
  lemma {:induction false} ClosedStep(cells: seq<Cell>, inRange: Box -> bool, from: nat,
                 p0: seq<CellId>, e0: seq<CellId>, p1: seq<CellId>, e1: seq<CellId>)
    requires |p0| <= |p1| && p1[..|p0|] == p0 && |e0| <= |e1| && e1[..|e0|] == e0
    requires Closed(cells, inRange, p0, from) && Closed(cells, inRange, p1, |p0|)
    requires Collected(cells, inRange, p0, from, e0) && Collected(cells, inRange, p1, |p0|, e1)
    ensures Closed(cells, inRange, p1, from) && Collected(cells, inRange, p1, from, e1)
  {
    PrefixKept(p0, p1);
    PrefixKept(e0, e1);
  }

  /** Every cell the nested walk added was reached from one visited after
      path0, so the discovery property extends over them. */
  lemma {:induction false} DiscoveredStep(cells: seq<Cell>, inRange: Box -> bool,
                 path0: seq<CellId>, p0: seq<CellId>, p1: seq<CellId>)
    requires |path0| < |p0| <= |p1| && p1[..|p0|] == p0
    requires Discovered(cells, inRange, p0, |path0|) && Discovered(cells, inRange, p1, |p0|)
    requires p0[|path0|] < |cells| && inRange(cells[p0[|path0|]].box)
    requires |p1| > |p0| ==> Successor(cells, p0[|path0|], p1[|p0|])
    ensures Discovered(cells, inRange, p1, |path0|)
  {
    PrefixKept(p0, p1);
    forall k | |path0| < k < |p1|
      ensures exists j :: |path0| <= j < k && p1[j] < |cells| && inRange(cells[p1[j]].box) && Successor(cells, p1[j], p1[k])
    {
      if k == |p0| {
        assert p1[|path0|] == p0[|path0|];
      } else if k > |p0| {
        var j :| |p0| <= j < k && p1[j] < |cells| && inRange(cells[p1[j]].box) && Successor(cells, p1[j], p1[k]);
      } else {
        var j :| |path0| <= j < k && p0[j] < |cells| && inRange(cells[p0[j]].box) && Successor(cells, p0[j], p0[k]);
        assert p1[j] == p0[j];
      }
    }
  }

  /** After the children loop the cell the call started at is closed too. */
  lemma {:induction false} WalkClose(cells: seq<Cell>, inRange: Box -> bool,
                  path0: seq<CellId>, elements0: seq<CellId>, p: seq<CellId>, e: seq<CellId>)
    requires WellFormed(cells) && Intact(cells)
    requires Extends(cells, inRange, path0, elements0, p, e)
    requires |p| > |path0| && p[|path0|] < |cells| && inRange(cells[p[|path0|]].box)
    requires !IsLeaf(cells, p[|path0|])
    requires forall n :: n in cells[p[|path0|]].neighbours ==> n in p
    requires forall i :: 0 <= i < |cells[p[|path0|]].children| ==> cells[p[|path0|]].children[i].value in p
    requires Closed(cells, inRange, p, |path0| + 1)
    requires Collected(cells, inRange, p, |path0| + 1, e)
    ensures Closed(cells, inRange, p, |path0|)
    ensures Collected(cells, inRange, p, |path0|, e)
  {
  }

  /** A leaf in range is appended to elements and is closed (it has no
      children, and its neighbours were all entered). */
  lemma {:induction false} WalkCloseLeaf(cells: seq<Cell>, inRange: Box -> bool,
                      path0: seq<CellId>, elements0: seq<CellId>, p: seq<CellId>, e: seq<CellId>)
    requires WellFormed(cells) && Intact(cells)
    requires |e| > 0 && Extends(cells, inRange, path0, elements0, p, e[..|e| - 1])
    requires |p| > |path0| && p[|path0|] < |cells| && inRange(cells[p[|path0|]].box)
    requires IsLeaf(cells, p[|path0|]) && e[|e| - 1] == p[|path0|] && p[|path0|] !in e[..|e| - 1]
    requires forall n :: n in cells[p[|path0|]].neighbours ==> n in p
    requires Closed(cells, inRange, p, |path0| + 1)
    requires Collected(cells, inRange, p, |path0| + 1, e[..|e| - 1])
    ensures Extends(cells, inRange, path0, elements0, p, e)
    ensures Closed(cells, inRange, p, |path0|)
    ensures Collected(cells, inRange, p, |path0|, e)
  {
    var e0 := e[..|e| - 1];
    assert e == e0 + [p[|path0|]];
    assert forall k :: 0 <= k < |e0| ==> e[k] == e0[k];
    assert e[..|elements0|] == elements0 by { assert e0[..|elements0|] == e[..|elements0|]; }
    assert p[|path0|] in p;
    assert p[|path0|] !in path0 by {
      assert p[..|path0|] == path0;
      forall k | 0 <= k < |path0| ensures path0[k] != p[|path0|] { assert path0[k] == p[k]; }
    }
    forall c | c in e0 ensures c in e { }
  }

  /** Entering a cell not yet visited: it is appended to path. */
  lemma {:induction false} WalkEnter(cells: seq<Cell>, inRange: Box -> bool, path: seq<CellId>, elements: seq<CellId>, c: CellId)
    requires c < |cells| && c !in path
    requires Extends(cells, inRange, path, elements, path, elements)
    ensures Extends(cells, inRange, path, elements, path + [c], elements)
    ensures (path + [c])[|path|] == c && c !in elements
    ensures Closed(cells, inRange, path + [c], |path| + 1)
    ensures Collected(cells, inRange, path + [c], |path| + 1, elements)
    ensures Discovered(cells, inRange, path + [c], |path|)
    ensures !inRange(cells[c].box) ==> Closed(cells, inRange, path + [c], |path|)
    ensures !inRange(cells[c].box) ==> Collected(cells, inRange, path + [c], |path|, elements)
  {
    assert (path + [c])[..|path|] == path;
    assert forall k :: 0 <= k < |path| ==> (path + [c])[k] == path[k];
  }

  /** The state of a walk entered at path0's end: the entered cell is
      path[|path0|], it passed the range test, it is not collected (yet), and
      everything visited after it is closed, collected and discovered. */
  ghost predicate WalkState(cells: seq<Cell>, inRange: Box -> bool,
                            path0: seq<CellId>, elements0: seq<CellId>, p: seq<CellId>, e: seq<CellId>) {
    && Extends(cells, inRange, path0, elements0, p, e)
    && |p| > |path0| && p[|path0|] < |cells| && inRange(cells[p[|path0|]].box)
    && p[|path0|] !in e
    && Closed(cells, inRange, p, |path0| + 1)
    && Collected(cells, inRange, p, |path0| + 1, e)
    && Discovered(cells, inRange, p, |path0|)
  }

  /** The child references of a cell without null slots. */
  function ChildIds(cs: seq<Option<CellId>>): (r: seq<CellId>)
    requires forall i :: 0 <= i < |cs| ==> cs[i].Some?
    ensures |r| == |cs| && forall i :: 0 <= i < |cs| ==> r[i] == cs[i].value
  {
    if cs == [] then [] else [cs[0].value] + ChildIds(cs[1..])
  }

  /** A walk state can be handed on as the starting point of a nested walk. */
  lemma {:induction false} WalkHandOn(cells: seq<Cell>, inRange: Box -> bool,
                   path0: seq<CellId>, elements0: seq<CellId>, p: seq<CellId>, e: seq<CellId>)
    requires WalkState(cells, inRange, path0, elements0, p, e)
    ensures Extends(cells, inRange, p, e, p, e)
    ensures |p| <= |cells|
  {
    DistinctBounded(p, |cells|);
  }

  /** The visited list only grows, so targets already visited stay visited. */
  lemma {:induction false} VisitedGrows(targets: seq<CellId>, i: nat, p: seq<CellId>, p0: seq<CellId>, p1: seq<CellId>)
    requires i < |targets|
    requires |p0| <= |p1| && p1[..|p0|] == p0 && targets[i] in p1
    requires forall k :: 0 <= k < i ==> targets[k] in p0
    requires forall c :: c in p ==> c in p0
    ensures forall k :: 0 <= k < i + 1 ==> targets[k] in p1
    ensures forall c :: c in p ==> c in p1
  {
    forall c | c in p0 ensures c in p1 {
      var k :| 0 <= k < |p0| && p0[k] == c;
      assert p1[k] == c;
    }
  }

  /** c can be reached from a by a route of the walk. */
  ghost predicate Reaches(cells: seq<Cell>, inRange: Box -> bool, a: CellId, c: CellId) {
    exists s :: Route(cells, inRange, s) && s[0] == a && s[|s| - 1] == c
  }

  /** A route that starts inside a closed visited list never leaves it. */
  lemma {:induction false} RouteStaysInside(cells: seq<Cell>, inRange: Box -> bool, p: seq<CellId>, s: seq<CellId>)
    requires Closed(cells, inRange, p, 0) && Route(cells, inRange, s) && s[0] in p
    ensures s[|s| - 1] in p
  {
    if |s| > 1 {
      var init := s[..|s| - 1];
      assert Route(cells, inRange, init);
      RouteStaysInside(cells, inRange, p, init);
      var a, b := s[|s| - 2], s[|s| - 1];
      var k :| 0 <= k < |p| && p[k] == a;
      assert inRange(cells[a].box) && Successor(cells, a, b);
      if b !in cells[a].neighbours {
        var i :| 0 <= i < |cells[a].children| && cells[a].children[i] == Some(b);
      }
    }
  }

  /** Every cell on a discovered visited list is reached from its first cell. */
  lemma {:induction false} DiscoveredReaches(cells: seq<Cell>, inRange: Box -> bool, p: seq<CellId>, k: nat)
    returns (s: seq<CellId>)
    requires Discovered(cells, inRange, p, 0) && k < |p|
    requires forall j :: 0 <= j < |p| ==> p[j] < |cells|
    ensures Route(cells, inRange, s) && s[0] == p[0] && s[|s| - 1] == p[k]
    decreases k
  {
    if k == 0 {
      s := [p[0]];
    } else {
      var j :| 0 <= j < k && p[j] < |cells| && inRange(cells[p[j]].box) && Successor(cells, p[j], p[k]);
      var s0 := DiscoveredReaches(cells, inRange, p, j);
      RouteSnoc(cells, inRange, s0, p[k]);
      s := s0 + [p[k]];
    }
  }

  /** A route extends by a successor of its last cell, when that cell
      passes the range test. */
  lemma {:induction false} RouteSnoc(cells: seq<Cell>, inRange: Box -> bool, s: seq<CellId>, b: CellId)
    requires Route(cells, inRange, s) && b < |cells|
    requires inRange(cells[s[|s| - 1]].box) && Successor(cells, s[|s| - 1], b)
    ensures Route(cells, inRange, s + [b]) && (s + [b])[0] == s[0] && (s + [b])[|s|] == b
  {
    assert forall i :: 0 <= i < |s| ==> (s + [b])[i] == s[i];
  }

  /** A complete walk from a visits exactly the cells a reaches. */
  lemma {:induction false} WalkVisits(cells: seq<Cell>, inRange: Box -> bool, a: CellId, p: seq<CellId>, e: seq<CellId>)
    requires Extends(cells, inRange, [], [], p, e) && |p| > 0 && p[0] == a
    requires Closed(cells, inRange, p, 0) && Discovered(cells, inRange, p, 0)
    ensures forall c: CellId :: c in p <==> c < |cells| && Reaches(cells, inRange, a, c)
  {
    forall c: CellId | c in p ensures c < |cells| && Reaches(cells, inRange, a, c) {
      var k :| 0 <= k < |p| && p[k] == c;
      var s := DiscoveredReaches(cells, inRange, p, k);
    }
    forall c: CellId | c < |cells| && Reaches(cells, inRange, a, c) ensures c in p {
      var s :| Route(cells, inRange, s) && s[0] == a && s[|s| - 1] == c;
      RouteStaysInside(cells, inRange, p, s);
    }
  }

  /** What a complete walk from a collects: exactly the leaves that pass the
      range test and can be reached from a by a route of the walk. */
  lemma {:induction false} WalkCollects(cells: seq<Cell>, inRange: Box -> bool, a: CellId, p: seq<CellId>, e: seq<CellId>)
    requires Extends(cells, inRange, [], [], p, e) && |p| > 0 && p[0] == a
    requires Closed(cells, inRange, p, 0) && Collected(cells, inRange, p, 0, e) && Discovered(cells, inRange, p, 0)
    ensures forall c: CellId :: c in e <==> c < |cells| && IsLeaf(cells, c) && inRange(cells[c].box) && Reaches(cells, inRange, a, c)
  {
    WalkVisits(cells, inRange, a, p, e);
    forall c: CellId | c in e ensures c < |cells| && IsLeaf(cells, c) && inRange(cells[c].box) && c in p {
      var k :| 0 <= k < |e| && e[k] == c;
    }
    forall c: CellId | c < |cells| && IsLeaf(cells, c) && inRange(cells[c].box) && c in p
      ensures c in e
    {
      var k :| 0 <= k < |p| && p[k] == c;
    }
  }

  // ---------------------------------------------------------------------
  // Object queries (GetChildren, GetChildrenInRange)
  // ---------------------------------------------------------------------

  /** The test GetChildrenInRange applies to each registered object: it is a
      T and lies strictly closer than `range` to `position`. */
  function Near(isT: ObjId -> bool, posOf: ObjId -> Vec3, position: Vec3, range: real): ObjId -> bool {
    (o: ObjId) => isT(o) && DistanceBelow(posOf(o), position, range)
  }

  /** The objects kept by the Near test are the listed Ts strictly within
      range, and none at all when the range is not positive. */
  lemma {:induction false} NearFiltered(objs: seq<ObjId>, isT: ObjId -> bool, posOf: ObjId -> Vec3, position: Vec3, range: real)
    ensures forall o :: o in Filter(objs, Near(isT, posOf, position, range)) <==>
      o in objs && isT(o) && DistanceBelow(posOf(o), position, range)
    ensures range <= 0.0 ==> Filter(objs, Near(isT, posOf, position, range)) == []
  {
    var r := Filter(objs, Near(isT, posOf, position, range));
    if range <= 0.0 && r != [] {
      assert r[0] in r;
    }
  }
}
