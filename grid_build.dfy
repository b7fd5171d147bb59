/**
 * What GridElement.GenerateUniformGrid (GridManager.cs) builds: the lattice
 * of children of one element, the neighbour links between touching
 * siblings, the links stitched between the facing grandchildren of two
 * neighbouring children, and the shape of the whole generated tree.
 */
module GridBuild {
  import opened Wrappers
  import opened Geometry
  import opened Maths
  import opened GridSpec

  // ---------------------------------------------------------------------
  // The lattice of children
  // ---------------------------------------------------------------------

  /** Lattice positions i and j (flat, as To1D numbers them) are at most one
      step apart along every axis. A position touches itself. */
  predicate Touching(i: int, j: int, height: int, depth: int)
    requires height > 0 && depth > 0
  {
    var a := Coords(i, height, depth);
    var b := Coords(j, height, depth);
    -1 <= a.0 - b.0 <= 1 && -1 <= a.1 - b.1 <= 1 && -1 <= a.2 - b.2 <= 1
  }

  /** Position k's offset from (x, y, z) comes before (xn, yn, zn) in the
      order the neighbour loops visit offsets. */
  predicate OffsetBefore(k: int, x: int, y: int, z: int, xn: int, yn: int, zn: int, height: int, depth: int)
    requires height > 0 && depth > 0
  {
    var c := Coords(k, height, depth);
    c.0 - x < xn || (c.0 - x == xn && (c.1 - y < yn || (c.1 - y == yn && c.2 - z < zn)))
  }

  /** ks lists the lattice positions touching
      (x, y, z) whose offset comes before (xn, yn, zn); none for (0, 0, 0). */
  ghost predicate Gathered(ks: seq<int>, x: int, y: int, z: int, width: int, height: int, depth: int,
                           xn: int, yn: int, zn: int)
    requires height > 0 && depth > 0
  {
    && (forall i :: 0 <= i < |ks| ==> 0 <= ks[i] < width * height * depth)
    && (forall k :: 0 <= k < width * height * depth ==>
          (k in ks <==> Touching(k, To1D(x, y, z, height, depth), height, depth) && !(x == 0 && y == 0 && z == 0)
                        && OffsetBefore(k, x, y, z, xn, yn, zn, height, depth)))
  }

  /** The "Generate Neighbours" loops of GenerateUniformGrid for the child at
      (x, y, z): every lattice position at most one step away along each
      axis, the child's own position included, offsets skipped where they
      would leave the lattice; nothing at all for the child at (0, 0, 0). */
  method NeighbourIndices(x: int, y: int, z: int, width: int, height: int, depth: int) returns (ks: seq<int>)
    requires width > 0 && height > 0 && depth > 0 && InLattice(x, y, z, width, height, depth)
    ensures forall i :: 0 <= i < |ks| ==> 0 <= ks[i] < width * height * depth
    ensures forall k :: 0 <= k < width * height * depth ==>
      (k in ks <==> Touching(k, To1D(x, y, z, height, depth), height, depth) && !(x == 0 && y == 0 && z == 0))
  {
    CoordsOfTo1D(x, y, z, width, height, depth);
    ks := [];
    for xn := -1 to 2
      invariant Gathered(ks, x, y, z, width, height, depth, xn, -1, -1)
    {
      if !(x == 0 && xn == -1) && !(x == width - 1 && xn == 1) {
        ks := NeighbourPlane(x, y, z, width, height, depth, xn, ks);
      } else {
        forall k | 0 <= k < width * height * depth
          ensures Coords(k, height, depth).0 != x + xn
        {
          To1DOfCoords(k, width, height, depth);
        }
      }
    }
  }

  /** The y and z loops of NeighbourIndices, for one x offset inside the lattice. */
  method NeighbourPlane(x: int, y: int, z: int, width: int, height: int, depth: int, xn: int, ks0: seq<int>)
    returns (ks: seq<int>)
    requires width > 0 && height > 0 && depth > 0 && InLattice(x, y, z, width, height, depth)
    requires -1 <= xn <= 1 && 0 <= x + xn < width
    requires Gathered(ks0, x, y, z, width, height, depth, xn, -1, -1)
    ensures Gathered(ks, x, y, z, width, height, depth, xn + 1, -1, -1)
  {
    CoordsOfTo1D(x, y, z, width, height, depth);
    ks := ks0;
    for yn := -1 to 2
      invariant Gathered(ks, x, y, z, width, height, depth, xn, yn, -1)
    {
      if !(y == 0 && yn == -1) && !(y == height - 1 && yn == 1) {
        ks := NeighbourRow(x, y, z, width, height, depth, xn, yn, ks);
      } else {
        forall k | 0 <= k < width * height * depth
          ensures Coords(k, height, depth).1 != y + yn
        {
          To1DOfCoords(k, width, height, depth);
        }
      }
    }
  }

  /** The z loop of NeighbourIndices, for one x and y offset inside the lattice. */
  method NeighbourRow(x: int, y: int, z: int, width: int, height: int, depth: int, xn: int, yn: int, ks0: seq<int>)
    returns (ks: seq<int>)
    requires width > 0 && height > 0 && depth > 0 && InLattice(x, y, z, width, height, depth)
    requires -1 <= xn <= 1 && 0 <= x + xn < width && -1 <= yn <= 1 && 0 <= y + yn < height
    requires Gathered(ks0, x, y, z, width, height, depth, xn, yn, -1)
    ensures Gathered(ks, x, y, z, width, height, depth, xn, yn + 1, -1)
  {
    CoordsOfTo1D(x, y, z, width, height, depth);
    ks := ks0;
    for zn := -1 to 2
      invariant Gathered(ks, x, y, z, width, height, depth, xn, yn, zn)
    {
      if !(z == 0 && zn == -1) && !(z == depth - 1 && zn == 1) && !(x == 0 && y == 0 && z == 0) {
        var k' := To1D(x + xn, y + yn, z + zn, height, depth);
        GatheredAdd(ks, x, y, z, width, height, depth, xn, yn, zn);
        ks := ks + [k'];
      } else {
        GatheredSkip(ks, x, y, z, width, height, depth, xn, yn, zn);
      }
    }
  }

  /** Listing the position at offset (xn, yn, zn), inside the lattice. */
  lemma {:induction false} GatheredAdd(ks: seq<int>, x: int, y: int, z: int, width: int, height: int, depth: int,
                                       xn: int, yn: int, zn: int)
    requires width > 0 && height > 0 && depth > 0 && InLattice(x, y, z, width, height, depth)
    requires -1 <= xn <= 1 && -1 <= yn <= 1 && -1 <= zn <= 1 && !(x == 0 && y == 0 && z == 0)
    requires InLattice(x + xn, y + yn, z + zn, width, height, depth)
    requires Gathered(ks, x, y, z, width, height, depth, xn, yn, zn)
    ensures Gathered(ks + [To1D(x + xn, y + yn, z + zn, height, depth)], x, y, z, width, height, depth, xn, yn, zn + 1)
  {
    var k' := To1D(x + xn, y + yn, z + zn, height, depth);
    CoordsOfTo1D(x, y, z, width, height, depth);
    To1DInRange(x + xn, y + yn, z + zn, width, height, depth);
    CoordsOfTo1D(x + xn, y + yn, z + zn, width, height, depth);
    forall k | 0 <= k < width * height * depth && Coords(k, height, depth) == (x + xn, y + yn, z + zn)
      ensures k == k'
    {
      To1DOfCoords(k, width, height, depth);
    }
  }

  /** Skipping offset (xn, yn, zn): it leaves the lattice, or the child is
      the one at (0, 0, 0). */
  lemma {:induction false} GatheredSkip(ks: seq<int>, x: int, y: int, z: int, width: int, height: int, depth: int,
                                        xn: int, yn: int, zn: int)
    requires width > 0 && height > 0 && depth > 0 && InLattice(x, y, z, width, height, depth)
    requires -1 <= xn <= 1 && -1 <= yn <= 1 && -1 <= zn <= 1
    requires (z == 0 && zn == -1) || (z == depth - 1 && zn == 1) || (x == 0 && y == 0 && z == 0)
    requires Gathered(ks, x, y, z, width, height, depth, xn, yn, zn)
    ensures Gathered(ks, x, y, z, width, height, depth, xn, yn, zn + 1)
  {
    CoordsOfTo1D(x, y, z, width, height, depth);
    forall k | 0 <= k < width * height * depth
      ensures Coords(k, height, depth) != (x + xn, y + yn, z + zn) || (x == 0 && y == 0 && z == 0)
    {
      To1DOfCoords(k, width, height, depth);
    }
  }

  /** The box of the child at flat position k of a split by d. */
  function ChildAt(parent: Box, d: Dimensions, k: int): Box
    requires Positive(d)
  {
    var c := Coords(k, d.height, d.depth);
    ChildBox(parent, d.width, d.height, d.depth, c.0, c.1, c.2)
  }

  /** The child list of a freshly split element: n children, numbered from
      base on in the order they were created. */
  function ChildSlots(base: nat, n: nat): (r: seq<Option<CellId>>)
    ensures |r| == n && forall k :: 0 <= k < n ==> r[k] == Some(base + k)
  {
    if n == 0 then [] else ChildSlots(base, n - 1) + [Some(base + n - 1)]
  }

  /** The creation loops run To1D(W, 0, 0) = W * H * D times. */
  lemma {:induction false} LatticeSize(d: Dimensions)
    requires Positive(d)
    ensures To1D(d.width, 0, 0, d.height, d.depth) == Count(d)
  {
    assert d.width * d.depth * d.height == d.width * d.height * d.depth;
  }

  // ---------------------------------------------------------------------
  // Sibling links
  // ---------------------------------------------------------------------

  /** The sibling link i -> j after the wiring loop has handled positions
      0 .. t-1: a handled child is linked both ways with every other child
      it touches, except child 0, which gathers no neighbour list itself. */
  predicate SiblingEdge(i: int, j: int, t: int, height: int, depth: int)
    requires height > 0 && depth > 0
  {
    i != j && Touching(i, j, height, depth) && ((i < t && i != 0) || (j < t && j != 0))
  }

  /** The neighbour lists of children base .. base+n-1 hold exactly their
      sibling links after t steps of the wiring loop. */
  ghost predicate Wired(cells: seq<Cell>, base: nat, n: nat, height: int, depth: int, t: int)
    requires height > 0 && depth > 0
  {
    && base + n <= |cells|
    && forall c: CellId, b: CellId :: base <= c < base + n ==>
         (b in cells[c].neighbours <==> base <= b < base + n && SiblingEdge(c - base, b - base, t, height, depth))
  }

  /** Once every child has been handled, any two distinct touching siblings
      are linked: at most one of them is child 0. */
  lemma {:induction false} WiredComplete(cells: seq<Cell>, base: nat, n: nat, height: int, depth: int)
    requires height > 0 && depth > 0 && Wired(cells, base, n, height, depth, n)
    ensures forall c: CellId, b: CellId :: base <= c < base + n ==>
      (b in cells[c].neighbours <==> base <= b < base + n && c != b && Touching(c - base, b - base, height, depth))
  {
  }

  /** One step of the wiring loop: child t is connected with the siblings
      NeighbourIndices gathered for it. */
  lemma {:induction false} WiredStep(c0: seq<Cell>, c1: seq<Cell>, base: nat, n: nat, height: int, depth: int, t: nat,
                  ks: seq<int>, bs: seq<CellId>)
    requires height > 0 && depth > 0 && t < n
    requires Wired(c0, base, n, height, depth, t)
    requires |bs| == |ks| && forall i :: 0 <= i < |ks| ==> 0 <= ks[i] < n && bs[i] == base + ks[i]
    requires forall k :: 0 <= k < n ==> (k in ks <==> Touching(k, t, height, depth) && t != 0)
    requires NeighboursAdded(c0, c1, LinkAll(base + t, bs))
    ensures Wired(c1, base, n, height, depth, t + 1)
  {
    forall c: CellId, b: CellId | base <= c < base + n
      ensures b in c1[c].neighbours <==> base <= b < base + n && SiblingEdge(c - base, b - base, t + 1, height, depth)
    {
      WiredPair(c0, c1, base, n, height, depth, t, ks, bs, c, b);
    }
  }

  /** WiredStep for one pair of cells. */
  lemma {:induction false} WiredPair(c0: seq<Cell>, c1: seq<Cell>, base: nat, n: nat, height: int, depth: int, t: nat,
                                     ks: seq<int>, bs: seq<CellId>, c: CellId, b: CellId)
    requires height > 0 && depth > 0 && t < n && base <= c < base + n
    requires base + n <= |c0|
    requires b in c0[c].neighbours <==> base <= b < base + n && SiblingEdge(c - base, b - base, t, height, depth)
    requires |bs| == |ks| && forall i :: 0 <= i < |ks| ==> 0 <= ks[i] < n && bs[i] == base + ks[i]
    requires forall k :: 0 <= k < n ==> (k in ks <==> Touching(k, t, height, depth) && t != 0)
    requires |c1| == |c0| && (b in c1[c].neighbours <==> b in c0[c].neighbours || (c, b) in LinkAll(base + t, bs))
    ensures b in c1[c].neighbours <==> base <= b < base + n && SiblingEdge(c - base, b - base, t + 1, height, depth)
  {
    LinkAllMember(base + t, bs, c, b);
    ShiftedIn(ks, bs, base, b);
    ShiftedIn(ks, bs, base, c);
  }

  /** bs is ks shifted by base. */
  lemma {:induction false} ShiftedIn(ks: seq<int>, bs: seq<CellId>, base: nat, b: int)
    requires |bs| == |ks| && forall i :: 0 <= i < |ks| ==> 0 <= ks[i] && bs[i] == base + ks[i]
    ensures b in bs <==> base <= b && b - base in ks
  {
    if b in bs {
      var m :| 0 <= m < |bs| && bs[m] == b;
      assert ks[m] == b - base;
    }
    if base <= b && b - base in ks {
      var m :| 0 <= m < |ks| && ks[m] == b - base;
      assert bs[m] == b;
    }
  }

  /** The grandchild m of c through its child i, or 0 when that slot does
      not exist (every use below is at a slot that exists). */
  function Grand(cells: seq<Cell>, c: CellId, i: int, m: int): CellId {
    if c < |cells| && 0 <= i < |cells[c].children| && cells[c].children[i].Some?
       && cells[c].children[i].value < |cells|
       && 0 <= m < |cells[cells[c].children[i].value].children|
       && cells[cells[c].children[i].value].children[m].Some?
    then cells[cells[c].children[i].value].children[m].value
    else 0
  }

  /** The three passes of "Connect edge children" run along x (axis 0), y
      (axis 1) and z (axis 2), each for the child at flat position i only
      when its guard holds. The y and z guards test that the child is not on
      the last layer along their axis. The x guard, as GridManager.cs:296
      writes it, compares the child's x with the height extent (_childHeight)
      instead of the width. */
  predicate Guard(a: int, i: int, d: Dimensions)
    requires Positive(d)
  {
    var c := Coords(i, d.height, d.depth);
    if a == 0 then c.0 < d.height - 1
    else if a == 1 then c.1 < d.height - 1
    else c.2 < d.depth - 1
  }

  /** The guard evidently intended: the child at flat position i is not on
      the last layer along axis a, so it has a next child along that axis. */
  predicate HasNext(a: int, i: int, d: Dimensions)
    requires Positive(d)
  {
    var c := Coords(i, d.height, d.depth);
    if a == 0 then c.0 < d.width - 1
    else if a == 1 then c.1 < d.height - 1
    else c.2 < d.depth - 1
  }

  /** As written, a 2 x 3 x 2 split runs the x pass for the child at
      (1, 0, 0), which is on the last x layer: the next child's flat
      position, 12, is past the 12 children, so the list indexer throws,
      and the model counts that split over 1 x 1 x 1 grandchildren as a
      crash. */
  lemma {:induction false} XGuardOverruns()
    ensures var d := Dimensions(2, 3, 2);
      && Guard(0, To1D(1, 0, 0, d.height, d.depth), d)
      && !HasNext(0, To1D(1, 0, 0, d.height, d.depth), d)
      && Next(0, To1D(1, 0, 0, d.height, d.depth), d) == Count(d)
      && StitchCrash(d, Dimensions(1, 1, 1))
  {
    var d := Dimensions(2, 3, 2);
    assert Coords(To1D(1, 0, 0, d.height, d.depth), d.height, d.depth) == (1, 0, 0);
  }

  /** As written, a 3 x 1 x 1 split never runs the x pass, although its
      children 0 and 1 face each other along x. */
  lemma {:induction false} XGuardSkips()
    ensures var d := Dimensions(3, 1, 1);
      && (forall i :: 0 <= i < Count(d) ==> !Guard(0, i, d))
      && HasNext(0, 0, d) && Next(0, 0, d) == 1
  {
    var d := Dimensions(3, 1, 1);
    forall i | 0 <= i < Count(d) ensures !Guard(0, i, d) {
      To1DOfCoords(i, d.width, d.height, d.depth);
    }
  }

  /** As written, a split one child high never runs the x pass, whatever
      its width: the shipped top level, 2 x 1 x 2, is such a split, so its
      two x layers are never stitched to each other. */
  lemma {:induction false} XGuardUnitHeight(d: Dimensions, i: int)
    requires Positive(d) && d.height == 1 && 0 <= i < Count(d)
    ensures !Guard(0, i, d)
  {
    To1DOfCoords(i, d.width, d.height, d.depth);
  }

  /** When the stitching does not throw and the x pass has grandchildren to
      connect, the guard as written admits only children the intended guard
      admits too: the split is at least as wide as it is high. */
  lemma {:induction false} GuardWithinHasNext(d: Dimensions, g: Dimensions, i: int, a: int)
    requires Positive(d) && !StitchCrash(d, g) && 0 <= i < Count(d) && 0 <= a < 3
    requires SpanU(a, g) > 0 && SpanV(a, g) > 0
    ensures Guard(a, i, d) ==> HasNext(a, i, d)
  {
    To1DOfCoords(i, d.width, d.height, d.depth);
  }

  /** The intended guard admits exactly the children whose neighbour one
      step along axis a lies in the lattice, and then that neighbour's flat
      position is a valid child index. */
  lemma {:induction false} GuardExact(d: Dimensions, i: int, a: int)
    requires Positive(d) && 0 <= i < Count(d) && 0 <= a < 3
    ensures var c := Coords(i, d.height, d.depth);
      var n := if a == 0 then (c.0 + 1, c.1, c.2) else if a == 1 then (c.0, c.1 + 1, c.2) else (c.0, c.1, c.2 + 1);
      && (HasNext(a, i, d) <==> InLattice(n.0, n.1, n.2, d.width, d.height, d.depth))
      && (HasNext(a, i, d) ==> 0 <= Next(a, i, d) < Count(d))
  {
    To1DOfCoords(i, d.width, d.height, d.depth);
    var c := Coords(i, d.height, d.depth);
    var n := if a == 0 then (c.0 + 1, c.1, c.2) else if a == 1 then (c.0, c.1 + 1, c.2) else (c.0, c.1, c.2 + 1);
    if HasNext(a, i, d) {
      To1DInRange(n.0, n.1, n.2, d.width, d.height, d.depth);
    }
  }

  /** The flat position of the next child along axis a. */
  function Next(a: int, i: int, d: Dimensions): int
    requires Positive(d)
  {
    var c := Coords(i, d.height, d.depth);
    if a == 0 then To1D(c.0 + 1, c.1, c.2, d.height, d.depth)
    else if a == 1 then To1D(c.0, c.1 + 1, c.2, d.height, d.depth)
    else To1D(c.0, c.1, c.2 + 1, d.height, d.depth)
  }

  /** At lattice point (x, y, z) the guard and the next position read
      directly off the coordinates. */
  lemma {:induction false} GuardAt(d: Dimensions, x: int, y: int, z: int, a: int)
    requires Positive(d) && InLattice(x, y, z, d.width, d.height, d.depth)
    ensures var i := To1D(x, y, z, d.height, d.depth);
      && 0 <= i < Count(d)
      && (Guard(a, i, d) <==> if a == 0 then x < d.height - 1 else if a == 1 then y < d.height - 1 else z < d.depth - 1)
      && Next(a, i, d) == if a == 0 then To1D(x + 1, y, z, d.height, d.depth)
                          else if a == 1 then To1D(x, y + 1, z, d.height, d.depth)
                          else To1D(x, y, z + 1, d.height, d.depth)
  {
    CoordsOfTo1D(x, y, z, d.width, d.height, d.depth);
    To1DInRange(x, y, z, d.width, d.height, d.depth);
  }

  /** The number of rounds of the two loops of the pass along axis a: the
      grandchild lattice with axis a left out (a loop whose bound is
      negative runs no round). */
  function SpanU(a: int, g: Dimensions): nat {
    var n := if a == 0 then g.height else g.width;
    if n < 0 then 0 else n
  }

  function SpanV(a: int, g: Dimensions): nat {
    var n := if a == 2 then g.height else g.depth;
    if n < 0 then 0 else n
  }

  /** The grandchild on the far face (along axis a) of a child, at loop
      position (u, v), and the one on the near face of the next child. */
  function FaceFrom(a: int, g: Dimensions, u: int, v: int): int {
    if a == 0 then To1D(g.width - 1, u, v, g.height, g.depth)
    else if a == 1 then To1D(u, g.height - 1, v, g.height, g.depth)
    else To1D(u, v, g.depth - 1, g.height, g.depth)
  }

  function FaceTo(a: int, g: Dimensions, u: int, v: int): int {
    if a == 0 then To1D(0, u, v, g.height, g.depth)
    else if a == 1 then To1D(u, 0, v, g.height, g.depth)
    else To1D(u, v, 0, g.height, g.depth)
  }

  /** The pairs one ConnectTo of a pass adds. */
  function Pair(cells: seq<Cell>, c: CellId, d: Dimensions, g: Dimensions, i: int, a: int, u: int, v: int): set<(CellId, CellId)>
    requires Positive(d)
  {
    Link(Grand(cells, c, i, FaceFrom(a, g, u, v)), Grand(cells, c, Next(a, i, d), FaceTo(a, g, u, v)))
  }

  /** The pairs of the inner loop of a pass, up to v < w. */
  function Row(cells: seq<Cell>, c: CellId, d: Dimensions, g: Dimensions, i: int, a: int, u: int, w: int): set<(CellId, CellId)>
    requires Positive(d)
    decreases w
  {
    if w <= 0 then {} else Row(cells, c, d, g, i, a, u, w - 1) + Pair(cells, c, d, g, i, a, u, w - 1)
  }

  /** The pairs of the outer loop of a pass, up to u < r. */
  function Rows(cells: seq<Cell>, c: CellId, d: Dimensions, g: Dimensions, i: int, a: int, r: int): set<(CellId, CellId)>
    requires Positive(d)
    decreases r
  {
    if r <= 0 then {} else Rows(cells, c, d, g, i, a, r - 1) + Row(cells, c, d, g, i, a, r - 1, SpanV(a, g))
  }

  /** The pairs of the pass along axis a for the child at i. */
  function Pass(cells: seq<Cell>, c: CellId, d: Dimensions, g: Dimensions, i: int, a: int): set<(CellId, CellId)>
    requires Positive(d)
  {
    if Guard(a, i, d) then Rows(cells, c, d, g, i, a, SpanU(a, g)) else {}
  }

  /** The pairs the stitching adds for children 0 .. t-1. */
  function StitchPairs(cells: seq<Cell>, c: CellId, d: Dimensions, g: Dimensions, t: int): set<(CellId, CellId)>
    requires Positive(d)
    decreases t
  {
    if t <= 0 then {}
    else StitchPairs(cells, c, d, g, t - 1)
         + Pass(cells, c, d, g, t - 1, 0) + Pass(cells, c, d, g, t - 1, 1) + Pass(cells, c, d, g, t - 1, 2)
  }

  /** Looking up grandchild m of child k in a table whose child lists are
      those of c0 finds Grand(c0, c, k, m). */
  lemma {:induction false} FamilyLookup(c0: seq<Cell>, cells: seq<Cell>, c: CellId, k: int, g: Dimensions, m: int)
    requires OnlyNeighboursChanged(c0, cells) && Family(c0, c, k, g, 0) && 0 <= m < Count(g)
    ensures 0 <= k < |cells[c].children| && cells[c].children[k].Some?
    ensures var ch := cells[c].children[k].value;
      && ch < |cells| && 0 <= m < |cells[ch].children| && cells[ch].children[m].Some?
      && cells[ch].children[m].value == Grand(c0, c, k, m) < |cells|
  {
    var ch := c0[c].children[k].value;
    assert cells[c].children == c0[c].children;
    assert cells[ch].children == c0[ch].children;
  }

  /** The stitching loop's body at child t adds the three passes of t. */
  lemma {:induction false} StitchPairsStep(cells: seq<Cell>, c: CellId, d: Dimensions, g: Dimensions, t: int)
    requires Positive(d) && 0 <= t
    ensures StitchPairs(cells, c, d, g, t + 1)
         == StitchPairs(cells, c, d, g, t) + (Pass(cells, c, d, g, t, 0) + Pass(cells, c, d, g, t, 1) + Pass(cells, c, d, g, t, 2))
  {
  }

  /** One more row of a face pass. */
  lemma {:induction false} RowsStep(cells: seq<Cell>, c: CellId, d: Dimensions, g: Dimensions, i: int, a: int, r: int)
    requires Positive(d) && 0 <= r
    ensures Rows(cells, c, d, g, i, a, r + 1) == Rows(cells, c, d, g, i, a, r) + Row(cells, c, d, g, i, a, r, SpanV(a, g))
  {
  }

  /** A row finished after the rows before it completes the rows up to it. */
  lemma {:induction false} RowDone(c0: seq<Cell>, c1: seq<Cell>, c2: seq<Cell>, c3: seq<Cell>,
                                   c: CellId, d: Dimensions, g: Dimensions, i: int, a: int, u: int)
    requires Positive(d) && 0 <= u
    requires EdgesAdded(c1, c2, Rows(c0, c, d, g, i, a, u))
    requires EdgesAdded(c2, c3, Row(c0, c, d, g, i, a, u, SpanV(a, g)))
    ensures EdgesAdded(c1, c3, Rows(c0, c, d, g, i, a, u + 1))
  {
    EdgesAddedTrans(c1, c2, c3, Rows(c0, c, d, g, i, a, u), Row(c0, c, d, g, i, a, u, SpanV(a, g)));
    RowsStep(c0, c, d, g, i, a, u);
  }

  /** One more pair of a row. */
  lemma {:induction false} RowStep(cells: seq<Cell>, c: CellId, d: Dimensions, g: Dimensions, i: int, a: int, u: int, w: int)
    requires Positive(d) && 0 <= w
    ensures Row(cells, c, d, g, i, a, u, w + 1) == Row(cells, c, d, g, i, a, u, w) + Pair(cells, c, d, g, i, a, u, w)
  {
  }

  /** One face pair of the stitching: child i is not on the last layer along
      axis a, (u, v) is inside that pass's loops, and p links the grandchild
      on the far face of child i with the facing one of the next child. */
  predicate StitchPair(cells: seq<Cell>, c: CellId, d: Dimensions, g: Dimensions, t: int,
                       i: int, a: int, u: int, v: int, p: (CellId, CellId))
    requires Positive(d)
  {
    && 0 <= i < t && 0 <= a < 3 && Guard(a, i, d)
    && 0 <= u < SpanU(a, g) && 0 <= v < SpanV(a, g)
    && p in Pair(cells, c, d, g, i, a, u, v)
  }

  /** A pair of a row comes from one step v of its inner loop ... */
  lemma {:induction false} RowWitness(cells: seq<Cell>, c: CellId, d: Dimensions, g: Dimensions, i: int, a: int, u: int, w: int,
                                      p: (CellId, CellId)) returns (v: int)
    requires Positive(d) && p in Row(cells, c, d, g, i, a, u, w)
    ensures 0 <= v < w && p in Pair(cells, c, d, g, i, a, u, v)
    decreases w
  {
    if p in Row(cells, c, d, g, i, a, u, w - 1) {
      v := RowWitness(cells, c, d, g, i, a, u, w - 1, p);
    } else {
      v := w - 1;
    }
  }

  /** ... and every step of the inner loop contributes its pair. */
  lemma {:induction false} RowHas(cells: seq<Cell>, c: CellId, d: Dimensions, g: Dimensions, i: int, a: int, u: int, w: int,
                                  v: int, p: (CellId, CellId))
    requires Positive(d) && 0 <= v < w && p in Pair(cells, c, d, g, i, a, u, v)
    ensures p in Row(cells, c, d, g, i, a, u, w)
    decreases w
  {
    if v < w - 1 {
      RowHas(cells, c, d, g, i, a, u, w - 1, v, p);
    }
  }

  /** A pair of the rows comes from one step (u, v) of the two loops ... */
  lemma {:induction false} RowsWitness(cells: seq<Cell>, c: CellId, d: Dimensions, g: Dimensions, i: int, a: int, r: int,
                                       p: (CellId, CellId)) returns (u: int, v: int)
    requires Positive(d) && p in Rows(cells, c, d, g, i, a, r)
    ensures 0 <= u < r && 0 <= v < SpanV(a, g) && p in Pair(cells, c, d, g, i, a, u, v)
    decreases r
  {
    if p in Rows(cells, c, d, g, i, a, r - 1) {
      u, v := RowsWitness(cells, c, d, g, i, a, r - 1, p);
    } else {
      u := r - 1;
      v := RowWitness(cells, c, d, g, i, a, r - 1, SpanV(a, g), p);
    }
  }

  /** ... and every step of the two loops contributes its pair. */
  lemma {:induction false} RowsHas(cells: seq<Cell>, c: CellId, d: Dimensions, g: Dimensions, i: int, a: int, r: int,
                                   u: int, v: int, p: (CellId, CellId))
    requires Positive(d) && 0 <= u < r && 0 <= v < SpanV(a, g) && p in Pair(cells, c, d, g, i, a, u, v)
    ensures p in Rows(cells, c, d, g, i, a, r)
    decreases r
  {
    if u < r - 1 {
      RowsHas(cells, c, d, g, i, a, r - 1, u, v, p);
    } else {
      RowHas(cells, c, d, g, i, a, u, SpanV(a, g), v, p);
    }
  }

  lemma {:induction false} PassMember(cells: seq<Cell>, c: CellId, d: Dimensions, g: Dimensions, t: int, i: int, a: int, p: (CellId, CellId))
    requires Positive(d) && 0 <= i && i == t - 1 && 0 <= a < 3
    ensures p in Pass(cells, c, d, g, i, a) <==>
      exists u, v :: StitchPair(cells, c, d, g, t, i, a, u, v, p)
  {
    if p in Pass(cells, c, d, g, i, a) {
      var u, v := RowsWitness(cells, c, d, g, i, a, SpanU(a, g), p);
      assert StitchPair(cells, c, d, g, t, i, a, u, v, p);
    }
    if exists u, v :: StitchPair(cells, c, d, g, t, i, a, u, v, p) {
      var u, v :| StitchPair(cells, c, d, g, t, i, a, u, v, p);
      RowsHas(cells, c, d, g, i, a, SpanU(a, g), u, v, p);
    }
  }

  /** Every stitched pair is a face pair ... */
  lemma {:induction false} StitchWitness(cells: seq<Cell>, c: CellId, d: Dimensions, g: Dimensions, t: int, p: (CellId, CellId))
    returns (i: int, a: int, u: int, v: int)
    requires Positive(d) && p in StitchPairs(cells, c, d, g, t)
    ensures StitchPair(cells, c, d, g, t, i, a, u, v, p)
    decreases t
  {
    if p in StitchPairs(cells, c, d, g, t - 1) {
      i, a, u, v := StitchWitness(cells, c, d, g, t - 1, p);
    } else {
      i := t - 1;
      a := if p in Pass(cells, c, d, g, t - 1, 0) then 0 else if p in Pass(cells, c, d, g, t - 1, 1) then 1 else 2;
      u, v := PassWitness(cells, c, d, g, t, a, p);
    }
  }

  /** A pair of the pass along axis a for child t - 1 is a face pair. */
  lemma {:induction false} PassWitness(cells: seq<Cell>, c: CellId, d: Dimensions, g: Dimensions, t: int, a: int, p: (CellId, CellId))
    returns (u: int, v: int)
    requires Positive(d) && 0 < t && 0 <= a < 3 && p in Pass(cells, c, d, g, t - 1, a)
    ensures StitchPair(cells, c, d, g, t, t - 1, a, u, v, p)
  {
    u, v := RowsWitness(cells, c, d, g, t - 1, a, SpanU(a, g), p);
  }

  /** ... and every face pair is stitched. */
  lemma {:induction false} FaceStitched(cells: seq<Cell>, c: CellId, d: Dimensions, g: Dimensions, t: int,
                                        i: int, a: int, u: int, v: int, p: (CellId, CellId))
    requires Positive(d) && StitchPair(cells, c, d, g, t, i, a, u, v, p)
    ensures p in StitchPairs(cells, c, d, g, t)
    decreases t
  {
    if i < t - 1 {
      assert StitchPair(cells, c, d, g, t - 1, i, a, u, v, p);
      FaceStitched(cells, c, d, g, t - 1, i, a, u, v, p);
    } else {
      PassMember(cells, c, d, g, t, t - 1, a, p);
    }
  }

  /** The stitched pairs are exactly the face pairs. */
  lemma {:induction false} StitchMember(cells: seq<Cell>, c: CellId, d: Dimensions, g: Dimensions, t: int, p: (CellId, CellId))
    requires Positive(d)
    ensures p in StitchPairs(cells, c, d, g, t) <==> exists i, a, u, v :: StitchPair(cells, c, d, g, t, i, a, u, v, p)
  {
    if p in StitchPairs(cells, c, d, g, t) {
      var i, a, u, v := StitchWitness(cells, c, d, g, t, p);
    }
    if exists i, a, u, v :: StitchPair(cells, c, d, g, t, i, a, u, v, p) {
      var i, a, u, v :| StitchPair(cells, c, d, g, t, i, a, u, v, p);
      FaceStitched(cells, c, d, g, t, i, a, u, v, p);
    }
  }

  /** Where the source throws: a pass that runs for some child indexes the
      grandchildren, and there are none when the grandchild extents are not
      all positive; and the x pass, whose guard compares x with the height,
      runs for the children of the last x layer when the split is narrower
      than it is high, and then indexes the child past the last one. */
  predicate StitchCrash(d: Dimensions, g: Dimensions) {
    || (&& !Positive(g)
        && ((d.height >= 2 && g.height > 0 && g.depth > 0)
            || (d.height >= 2 && g.width > 0 && g.depth > 0)
            || (d.depth >= 2 && g.width > 0 && g.height > 0)))
    || (Positive(g) && d.width < d.height)
  }

  /** GenerateUniformGrid(ds) throws somewhere in the tree it builds. The
      loops only run when every extent of a level is positive, and the
      stitching only when at least three levels remain. */
  predicate Faults(ds: seq<Dimensions>)
    decreases |ds|
  {
    && |ds| > 0 && Positive(ds[0])
    && ((|ds| > 2 && StitchCrash(ds[0], ds[1])) || Faults(ds[1..]))
  }

  /** In a stitching that does not throw, every index a pass uses is in range:
      the next child exists and differs from child i, and both grandchild
      positions exist. */
  lemma {:induction false} StitchInRange(d: Dimensions, g: Dimensions, i: int, a: int, u: int, v: int)
    requires Positive(d) && !StitchCrash(d, g) && 0 <= i < Count(d) && 0 <= a < 3 && Guard(a, i, d)
    requires 0 <= u < SpanU(a, g) && 0 <= v < SpanV(a, g)
    ensures Positive(g)
    ensures 0 <= Next(a, i, d) < Count(d) && Next(a, i, d) != i
    ensures 0 <= FaceFrom(a, g, u, v) < Count(g) && 0 <= FaceTo(a, g, u, v) < Count(g)
  {
    To1DOfCoords(i, d.width, d.height, d.depth);
    var c := Coords(i, d.height, d.depth);
    assert Positive(g);
    var n := if a == 0 then (c.0 + 1, c.1, c.2) else if a == 1 then (c.0, c.1 + 1, c.2) else (c.0, c.1, c.2 + 1);
    To1DInRange(n.0, n.1, n.2, d.width, d.height, d.depth);
    CoordsOfTo1D(n.0, n.1, n.2, d.width, d.height, d.depth);
    if a == 0 {
      To1DInRange(g.width - 1, u, v, g.width, g.height, g.depth);
      To1DInRange(0, u, v, g.width, g.height, g.depth);
    } else if a == 1 {
      To1DInRange(u, g.height - 1, v, g.width, g.height, g.depth);
      To1DInRange(u, 0, v, g.width, g.height, g.depth);
    } else {
      To1DInRange(u, v, g.depth - 1, g.width, g.height, g.depth);
      To1DInRange(u, v, 0, g.width, g.height, g.depth);
    }
  }

  // ---------------------------------------------------------------------
  // The generated tree
  // ---------------------------------------------------------------------

  /** The child in slot k of c is set, has the box of lattice position k,
      c as its parent, and no objects. */
  predicate Placed(cells: seq<Cell>, c: CellId, d: Dimensions, k: int) {
    && c < |cells| && 0 <= k < |cells[c].children| && cells[c].children[k].Some?
    && cells[c].children[k].value < |cells| && Positive(d)
    && var ch := cells[cells[c].children[k].value];
       ch.box == ChildAt(cells[c].box, d, k) && ch.parent == Some(c) && ch.objects == []
  }

  /** Any two distinct touching children of c are neighbours. */
  ghost predicate SiblingsLinked(cells: seq<Cell>, c: CellId, d: Dimensions)
    requires c < |cells| && Positive(d)
  {
    forall i, j ::
      (&& 0 <= i < |cells[c].children| && 0 <= j < |cells[c].children| && i != j
       && Touching(i, j, d.height, d.depth) && cells[c].children[i].Some? && cells[c].children[j].Some?
       && cells[c].children[i].value < |cells|) ==>
      cells[c].children[j].value in cells[cells[c].children[i].value].neighbours
  }

  /** Every face pair of c's stitching is linked. */
  ghost predicate Stitched(cells: seq<Cell>, c: CellId, d: Dimensions, g: Dimensions)
    requires Positive(d)
  {
    forall i, a, u, v, p: (CellId, CellId) :: StitchPair(cells, c, d, g, Count(d), i, a, u, v, p) ==>
      p.0 < |cells| && p.1 in cells[p.0].neighbours
  }

  /** The subtree below c is what GenerateUniformGrid(ds) builds: each level
      split by the next extents, the children in lattice order with their
      boxes, parent and no objects, all ids from lo on, touching siblings
      linked, and (while three levels remain) facing grandchildren stitched.
      A cell with no extents left is a leaf. */
  ghost predicate Shaped(cells: seq<Cell>, c: CellId, ds: seq<Dimensions>, lo: nat)
    decreases |ds|
  {
    && c < |cells|
    && if ds == [] then IsLeaf(cells, c)
       else
         var d := ds[0];
         && cells[c].childDims == d
         && |cells[c].children| == Count(d)
         && (forall k :: 0 <= k < |cells[c].children| ==>
               cells[c].children[k].Some? && lo <= cells[c].children[k].value < |cells|
               && c < cells[c].children[k].value && Placed(cells, c, d, k))
         && (forall k :: 0 <= k < |cells[c].children| && cells[c].children[k].Some? ==>
               Shaped(cells, cells[c].children[k].value, ds[1..], lo))
         && (Positive(d) ==> SiblingsLinked(cells, c, d))
         && (Positive(d) && |ds| > 2 && Positive(ds[1]) && !StitchCrash(d, ds[1]) ==> Stitched(cells, c, d, ds[1]))
  }

  /** b is a later state of a that differs at most by added neighbours. */
  ghost predicate Grown(a: Cell, b: Cell) {
    b == a.(neighbours := b.neighbours) && forall n :: n in a.neighbours ==> n in b.neighbours
  }

  /** ShapedFrame for child k of c. */
  lemma {:induction false} ShapedFrameChild(c0: seq<Cell>, c1: seq<Cell>, c: CellId, ds: seq<Dimensions>, lo: nat, lo': nat, k: int)
    requires Shaped(c0, c, ds, lo) && lo' <= lo && |c0| <= |c1| && ds != []
    requires Grown(c0[c], c1[c])
    requires forall x :: lo <= x < |c0| ==> Grown(c0[x], c1[x])
    requires 0 <= k < |c0[c].children|
    ensures Shaped(c1, c0[c].children[k].value, ds[1..], lo') && Placed(c1, c, ds[0], k)
    decreases |ds|, 0
  {
    var x := c0[c].children[k].value;
    assert Grown(c0[x], c1[x]);
    ShapedFrame(c0, c1, x, ds[1..], lo, lo');
    assert Placed(c0, c, ds[0], k);
  }

  /** Sibling links survive when cells only gain neighbours. */
  lemma {:induction false} SiblingsLinkedFrame(c0: seq<Cell>, c1: seq<Cell>, c: CellId, d: Dimensions)
    requires c < |c0| <= |c1| && Positive(d) && SiblingsLinked(c0, c, d)
    requires c1[c].children == c0[c].children
    requires forall k :: 0 <= k < |c0[c].children| ==> c0[c].children[k].Some? && c0[c].children[k].value < |c0|
    requires forall k :: 0 <= k < |c0[c].children| ==> Grown(c0[c0[c].children[k].value], c1[c0[c].children[k].value])
    ensures SiblingsLinked(c1, c, d)
  {
    var cs := c0[c].children;
    forall i, j | 0 <= i < |cs| && 0 <= j < |cs| && i != j && Touching(i, j, d.height, d.depth)
      ensures cs[j].value in c1[cs[i].value].neighbours
    {
      assert Grown(c0[cs[i].value], c1[cs[i].value]);
    }
  }

  /** A shaped subtree stays shaped when the table grows and its cells only
      gain neighbours. */
  lemma {:induction false} ShapedFrame(c0: seq<Cell>, c1: seq<Cell>, c: CellId, ds: seq<Dimensions>, lo: nat, lo': nat)
    requires Shaped(c0, c, ds, lo) && lo' <= lo && |c0| <= |c1|
    requires Grown(c0[c], c1[c])
    requires forall x :: lo <= x < |c0| ==> Grown(c0[x], c1[x])
    ensures Shaped(c1, c, ds, lo')
    decreases |ds|, 1
  {
    if ds != [] {
      var d := ds[0];
      var cs := c0[c].children;
      assert c1[c].children == cs;
      forall k | 0 <= k < |cs| ensures Shaped(c1, cs[k].value, ds[1..], lo') && Placed(c1, c, d, k) {
        ShapedFrameChild(c0, c1, c, ds, lo, lo', k);
      }
      if Positive(d) {
        SiblingsLinkedFrame(c0, c1, c, d);
        if |ds| > 2 && Positive(ds[1]) && !StitchCrash(d, ds[1]) {
          forall k | 0 <= k < |cs| ensures Family(c0, c, k, ds[1], lo) {
            assert Shaped(c0, cs[k].value, ds[1..], lo);
          }
          StitchedFrame(c0, c1, c, d, ds[1], lo);
        }
      }
    }
  }

  /** The stitching part of ShapedFrame. */
  lemma {:induction false} StitchedFrame(c0: seq<Cell>, c1: seq<Cell>, c: CellId, d: Dimensions, g: Dimensions, lo: nat)
    requires Positive(d) && Positive(g) && !StitchCrash(d, g) && c < |c0| <= |c1| && Stitched(c0, c, d, g)
    requires |c0[c].children| == Count(d)
    requires forall k :: 0 <= k < |c0[c].children| ==> Family(c0, c, k, g, lo)
    requires Grown(c0[c], c1[c])
    requires forall x :: lo <= x < |c0| ==> Grown(c0[x], c1[x])
    ensures Stitched(c1, c, d, g)
  {
    forall i, a, u, v, p: (CellId, CellId) | StitchPair(c1, c, d, g, Count(d), i, a, u, v, p)
      ensures p.0 < |c1| && p.1 in c1[p.0].neighbours
    {
      StitchInRange(d, g, i, a, u, v);
      var j := Next(a, i, d);
      assert Family(c0, c, i, g, lo) && Family(c0, c, j, g, lo);
      var m, n := FaceFrom(a, g, u, v), FaceTo(a, g, u, v);
      GrandFrame(c0, c1, c, i, m, lo);
      GrandFrame(c0, c1, c, j, n, lo);
      assert StitchPair(c0, c, d, g, Count(d), i, a, u, v, p);
      assert Grown(c0[p.0], c1[p.0]);
    }
  }

  /** Child k of c is set, and its own children are all set and lie in
      [lo, |cells|), g.width * g.height * g.depth of them. */
  ghost predicate Family(cells: seq<Cell>, c: CellId, k: int, g: Dimensions, lo: nat) {
    && c < |cells| && 0 <= k < |cells[c].children| && cells[c].children[k].Some?
    && lo <= cells[c].children[k].value < |cells|
    && var ch := cells[c].children[k].value;
       && |cells[ch].children| == Count(g)
       && forall m :: 0 <= m < |cells[ch].children| ==>
            cells[ch].children[m].Some? && lo <= cells[ch].children[m].value < |cells|
  }

  lemma {:induction false} GrandFrame(c0: seq<Cell>, c1: seq<Cell>, c: CellId, i: int, m: int, lo: nat)
    requires c < |c0| <= |c1| && 0 <= i < |c0[c].children| && c0[c].children[i].Some?
    requires lo <= c0[c].children[i].value < |c0|
    requires Grown(c0[c], c1[c]) && Grown(c0[c0[c].children[i].value], c1[c0[c].children[i].value])
    ensures Grand(c1, c, i, m) == Grand(c0, c, i, m)
  {
  }

  // ---------------------------------------------------------------------
  // The stages of GenerateUniformGrid
  // ---------------------------------------------------------------------

  /** After the creation loops have made t children of e: they are the rows
      lo .. lo+t-1, each a fresh element with the box of its lattice position
      and e as its parent, and e lists them in creation order. */
  ghost predicate Spawned(cells: seq<Cell>, e: CellId, d: Dimensions, lo: nat, t: nat)
    requires Positive(d)
  {
    && e < lo && |cells| == lo + t
    && cells[e].children == ChildSlots(lo, t) && cells[e].childDims == d
    && forall c :: lo <= c < |cells| ==> cells[c] == NewCell(ChildAt(cells[e].box, d, c - lo), Some(e))
  }

  /** One step of the creation loops: appending the element for position t
      and listing it as e's next child. */
  lemma {:induction false} SpawnStep(c1: seq<Cell>, e: CellId, d: Dimensions, lo: nat, t: nat, box: Box)
    requires Positive(d) && Spawned(c1, e, d, lo, t) && box == ChildAt(c1[e].box, d, t)
    ensures var c2 := c1 + [NewCell(box, Some(e))];
      Spawned(c2[e := c2[e].(children := c2[e].children + [Some(lo + t)])], e, d, lo, t + 1)
  {
    var c2 := c1 + [NewCell(box, Some(e))];
    var c3 := c2[e := c2[e].(children := c2[e].children + [Some(lo + t)])];
    assert c3[e].children == ChildSlots(lo, t + 1);
    forall c | lo <= c < |c3| ensures c3[c] == NewCell(ChildAt(c3[e].box, d, c - lo), Some(e)) {
      if c < lo + t {
        assert c3[c] == c1[c];
      }
    }
  }

  /** Progress of the wiring loop over the children of e (c0 is the table
      the creation loops left): children 0 .. wired-1 have been connected
      and children 0 .. built-1 split in turn. Nothing below lo changed, the
      children kept their boxes, parents and objects, their neighbour lists
      hold exactly the sibling links so far, the split ones carry their
      generated subtrees (all built above the children) and the others are
      still unsplit. */
  ghost predicate WireState(cells: seq<Cell>, c0: seq<Cell>, e: CellId, ds: seq<Dimensions>, lo: nat,
                            wired: int, built: int)
    requires |ds| > 0 && Positive(ds[0])
  {
    var d := ds[0];
    var n := Count(d);
    && Spawned(c0, e, d, lo, n)
    && |c0| <= |cells|
    && (forall c :: 0 <= c < lo ==> cells[c] == c0[c])
    && Wired(cells, lo, n, d.height, d.depth, wired)
    && (forall c :: lo <= c < |c0| ==>
          cells[c] == c0[c].(neighbours := cells[c].neighbours, children := cells[c].children,
                             childDims := cells[c].childDims))
    && (forall c :: lo <= c < |c0| && c < lo + built ==> Shaped(cells, c, ds[1..], |c0|))
    && (forall c :: lo <= c < |c0| && lo + built <= c ==>
          cells[c].children == c0[c].children && cells[c].childDims == c0[c].childDims)
  }

  /** During the wiring loop the element being split still lists the
      freshly created children, in creation order. */
  lemma {:induction false} WireSlots(cells: seq<Cell>, c0: seq<Cell>, e: CellId, ds: seq<Dimensions>, lo: nat,
                                     wired: int, built: int)
    requires |ds| > 0 && Positive(ds[0]) && WireState(cells, c0, e, ds, lo, wired, built)
    ensures e < lo && lo + Count(ds[0]) == |c0| <= |cells|
    ensures cells[e] == c0[e] && cells[e].children == ChildSlots(lo, Count(ds[0]))
  {
  }

  /** What NeighbourIndices returns, restated over flat positions: the
      positions touching the child's own one, or none at all for child 0. */
  lemma {:induction false} NeighbourSlots(ks: seq<int>, x: int, y: int, z: int, d: Dimensions)
    requires Positive(d) && InLattice(x, y, z, d.width, d.height, d.depth)
    requires forall i :: 0 <= i < |ks| ==> 0 <= ks[i] < d.width * d.height * d.depth
    requires forall k :: 0 <= k < d.width * d.height * d.depth ==>
      (k in ks <==> Touching(k, To1D(x, y, z, d.height, d.depth), d.height, d.depth) && !(x == 0 && y == 0 && z == 0))
    ensures forall i :: 0 <= i < |ks| ==> 0 <= ks[i] < Count(d)
    ensures forall k :: 0 <= k < Count(d) ==>
      (k in ks <==> Touching(k, To1D(x, y, z, d.height, d.depth), d.height, d.depth) && To1D(x, y, z, d.height, d.depth) != 0)
  {
    To1DOrigin(x, y, z, d.width, d.height, d.depth);
  }

  /** The wiring loop starts from the freshly created children. */
  lemma {:induction false} WireStart(c0: seq<Cell>, e: CellId, ds: seq<Dimensions>, lo: nat)
    requires |ds| > 0 && Positive(ds[0]) && Spawned(c0, e, ds[0], lo, Count(ds[0]))
    ensures WireState(c0, c0, e, ds, lo, 0, 0)
  {
  }

  /** Connecting child t with the siblings gathered for it. */
  lemma {:induction false} WireConnect(c1: seq<Cell>, c2: seq<Cell>, c0: seq<Cell>, e: CellId, ds: seq<Dimensions>,
                                       lo: nat, t: nat, ks: seq<int>, bs: seq<CellId>)
    requires |ds| > 0 && Positive(ds[0]) && t < Count(ds[0]) && WireState(c1, c0, e, ds, lo, t, t)
    requires |bs| == |ks| && forall i :: 0 <= i < |ks| ==> 0 <= ks[i] < Count(ds[0]) && bs[i] == lo + ks[i]
    requires forall k :: 0 <= k < Count(ds[0]) ==> (k in ks <==> Touching(k, t, ds[0].height, ds[0].depth) && t != 0)
    requires EdgesAdded(c1, c2, LinkAll(lo + t, bs))
    ensures WireState(c2, c0, e, ds, lo, t + 1, t)
  {
    var d := ds[0];
    WiredStep(c1, c2, lo, Count(d), d.height, d.depth, t, ks, bs);
    EdgesGrown(c1, c2, LinkAll(lo + t, bs));
    forall c | 0 <= c < lo ensures c2[c] == c0[c] {
      LinkAllOutside(lo + t, bs, c);
    }
    forall c | lo <= c < |c0| && c < lo + t ensures Shaped(c2, c, ds[1..], |c0|) {
      ShapedFrame(c1, c2, c, ds[1..], |c0|, |c0|);
    }
  }

  /** What the wiring pass for the child at (x, y, z) reads: the element's
      freshly created children and the positions NeighbourIndices lists. */
  lemma {:induction false} WireNeighbours(cells: seq<Cell>, c0: seq<Cell>, e: CellId, ds: seq<Dimensions>,
                                          lo: nat, d: Dimensions, x: int, y: int, z: int, ks: seq<int>)
    requires |ds| > 0 && ds[0] == d && Positive(d) && InLattice(x, y, z, d.width, d.height, d.depth)
    requires WireState(cells, c0, e, ds, lo, To1D(x, y, z, d.height, d.depth), To1D(x, y, z, d.height, d.depth))
    requires forall i :: 0 <= i < |ks| ==> 0 <= ks[i] < d.width * d.height * d.depth
    ensures 0 <= To1D(x, y, z, d.height, d.depth) < Count(d)
    ensures e < |cells| && lo + Count(d) <= |cells| && cells[e].children == ChildSlots(lo, Count(d))
    ensures forall i :: 0 <= i < |ks| ==> 0 <= ks[i] < Count(d)
  {
    To1DInRange(x, y, z, d.width, d.height, d.depth);
    WireSlots(cells, c0, e, ds, lo, To1D(x, y, z, d.height, d.depth), To1D(x, y, z, d.height, d.depth));
  }

  /** WireConnect for the child at (x, y, z), with the siblings as
      NeighbourIndices lists them. */
  lemma {:induction false} WireConnectAt(c1: seq<Cell>, c2: seq<Cell>, c0: seq<Cell>, e: CellId, ds: seq<Dimensions>,
                                         lo: nat, d: Dimensions, x: int, y: int, z: int, t: nat, ks: seq<int>, bs: seq<CellId>)
    requires |ds| > 0 && ds[0] == d && Positive(d) && InLattice(x, y, z, d.width, d.height, d.depth)
    requires t == To1D(x, y, z, d.height, d.depth) && WireState(c1, c0, e, ds, lo, t, t)
    requires forall i :: 0 <= i < |ks| ==> 0 <= ks[i] < d.width * d.height * d.depth
    requires forall k :: 0 <= k < d.width * d.height * d.depth ==>
      (k in ks <==> Touching(k, To1D(x, y, z, d.height, d.depth), d.height, d.depth) && !(x == 0 && y == 0 && z == 0))
    requires |bs| == |ks| && forall i :: 0 <= i < |ks| ==> bs[i] == lo + ks[i]
    requires EdgesAdded(c1, c2, LinkAll(lo + t, bs))
    ensures WireState(c2, c0, e, ds, lo, t + 1, t)
  {
    To1DInRange(x, y, z, d.width, d.height, d.depth);
    NeighbourSlots(ks, x, y, z, d);
    WireConnect(c1, c2, c0, e, ds, lo, t, ks, bs);
  }

  /** Child t, just connected, has been split by GenerateUniformGrid(ds[1..]):
      only its children and extents changed and the new subtree lies above
      the table as it was. */
  lemma {:induction false} WireBuild(c2: seq<Cell>, c3: seq<Cell>, c0: seq<Cell>, e: CellId, ds: seq<Dimensions>,
                                     lo: nat, t: nat)
    requires |ds| > 1 && Positive(ds[0]) && t < Count(ds[0]) && WireState(c2, c0, e, ds, lo, t + 1, t)
    requires |c2| <= |c3|
    requires forall c :: 0 <= c < |c2| && c != lo + t ==> c3[c] == c2[c]
    requires c3[lo + t] == c2[lo + t].(children := c3[lo + t].children, childDims := c3[lo + t].childDims)
    requires Shaped(c3, lo + t, ds[1..], |c2|)
    ensures WireState(c3, c0, e, ds, lo, t + 1, t + 1)
  {
    var d := ds[0];
    WireSlots(c2, c0, e, ds, lo, t + 1, t);
    WiredFrame(c2, c3, lo, Count(d), d.height, d.depth, t + 1);
    GrownSelf(c3);
    ShapedFrame(c3, c3, lo + t, ds[1..], |c2|, |c0|);
    ShapedBefore(c2, c3, ds[1..], lo, |c0|, lo + t);
  }

  /** The children before the one just split keep their subtrees. */
  lemma {:induction false} ShapedBefore(c2: seq<Cell>, c3: seq<Cell>, ds: seq<Dimensions>, lo: nat, top: nat, s: nat)
    requires |c2| <= |c3| && top <= |c2| && s < top
    requires forall c :: 0 <= c < |c2| && c != s ==> c3[c] == c2[c]
    requires forall c :: lo <= c < top && c < s ==> Shaped(c2, c, ds, top)
    ensures forall c :: lo <= c < top && c < s ==> Shaped(c3, c, ds, top)
  {
    forall c | lo <= c < top && c < s ensures Shaped(c3, c, ds, top) {
      ShapedUntouched(c2, c3, c, ds, top);
    }
  }

  /** The wiring so far depends only on the neighbour lists of the children. */
  lemma {:induction false} WiredFrame(c2: seq<Cell>, c3: seq<Cell>, base: nat, n: nat, height: int, depth: int, t: int)
    requires height > 0 && depth > 0 && Wired(c2, base, n, height, depth, t) && |c2| <= |c3|
    requires forall c :: base <= c < base + n ==> c3[c].neighbours == c2[c].neighbours
    ensures Wired(c3, base, n, height, depth, t)
  {
  }

  /** A shaped subtree whose cells, all from lo on, are left as they were
      stays shaped. */
  lemma {:induction false} ShapedUntouched(c2: seq<Cell>, c3: seq<Cell>, c: CellId, ds: seq<Dimensions>, lo: nat)
    requires Shaped(c2, c, ds, lo) && |c2| <= |c3| && c3[c] == c2[c]
    requires forall x :: lo <= x < |c2| ==> c3[x] == c2[x]
    ensures Shaped(c3, c, ds, lo)
  {
    GrownSelf(c2);
    ShapedFrame(c2, c3, c, ds, lo, lo);
  }

  /** With a single extent left the children are not split: child t stays a
      leaf. */
  lemma {:induction false} WireLeaf(c2: seq<Cell>, c0: seq<Cell>, e: CellId, ds: seq<Dimensions>, lo: nat, t: nat)
    requires |ds| == 1 && Positive(ds[0]) && t < Count(ds[0]) && WireState(c2, c0, e, ds, lo, t + 1, t)
    ensures WireState(c2, c0, e, ds, lo, t + 1, t + 1)
  {
    assert c0[lo + t].children == [];
    assert Shaped(c2, lo + t, ds[1..], |c0|);
  }

  /** After the wiring loop every child has its Count(ds[1]) grandchildren,
      all created after the children. */
  lemma {:induction false} WireFamily(c1: seq<Cell>, c0: seq<Cell>, e: CellId, ds: seq<Dimensions>, lo: nat)
    requires |ds| > 1 && Positive(ds[0]) && WireState(c1, c0, e, ds, lo, Count(ds[0]), Count(ds[0]))
    ensures e < |c1| && |c1[e].children| == Count(ds[0])
    ensures forall k :: 0 <= k < Count(ds[0]) ==> Family(c1, e, k, ds[1], 0)
    ensures forall k, m :: 0 <= k < Count(ds[0]) && 0 <= m < Count(ds[1]) ==> Grand(c1, e, k, m) >= |c0|
  {
    var n := Count(ds[0]);
    assert c1[e] == c0[e];
    forall k | 0 <= k < n ensures Family(c1, e, k, ds[1], 0) {
      assert c1[e].children[k] == Some(lo + k);
      assert Shaped(c1, lo + k, ds[1..], |c0|);
      assert ds[1..][0] == ds[1];
    }
    forall k, m | 0 <= k < n && 0 <= m < Count(ds[1]) ensures Grand(c1, e, k, m) >= |c0| {
      assert c1[e].children[k] == Some(lo + k);
      assert Shaped(c1, lo + k, ds[1..], |c0|);
      assert ds[1..][0] == ds[1];
    }
  }

  /** Edges added between cells above the children leave the wiring's
      result in place. */
  lemma {:induction false} WireKept(c1: seq<Cell>, c2: seq<Cell>, c0: seq<Cell>, e: CellId, ds: seq<Dimensions>, lo: nat,
                                    added: set<(CellId, CellId)>)
    requires |ds| > 0 && Positive(ds[0]) && WireState(c1, c0, e, ds, lo, Count(ds[0]), Count(ds[0]))
    requires EdgesAdded(c1, c2, added) && forall p :: p in added ==> p.0 >= |c0|
    ensures WireState(c2, c0, e, ds, lo, Count(ds[0]), Count(ds[0]))
  {
    EdgesGrown(c1, c2, added);
    forall c | 0 <= c < |c0| ensures c2[c] == c1[c] {
      assert c !in Ends(added);
    }
    forall c | lo <= c < |c0| ensures Shaped(c2, c, ds[1..], |c0|) {
      ShapedFrame(c1, c2, c, ds[1..], |c0|, |c0|);
    }
  }

  /** After the wiring loop (and the stitching, when there is one) the whole
      split of e is in place. */
  lemma {:induction false} WireDone(c1: seq<Cell>, c0: seq<Cell>, e: CellId, ds: seq<Dimensions>, lo: nat)
    requires |ds| > 0 && Positive(ds[0]) && WireState(c1, c0, e, ds, lo, Count(ds[0]), Count(ds[0]))
    requires |ds| > 2 && Positive(ds[1]) ==> Stitched(c1, e, ds[0], ds[1])
    ensures Shaped(c1, e, ds, lo) && SiblingsExact(c1, lo, ds[0]) && c1[e] == c0[e]
  {
    var d := ds[0];
    var n := Count(d);
    WireSlots(c1, c0, e, ds, lo, n, n);
    var cs := c1[e].children;
    forall k | 0 <= k < n
      ensures cs[k] == Some(lo + k) && Placed(c1, e, d, k) && Shaped(c1, lo + k, ds[1..], lo)
    {
      WireDoneChild(c1, c0, e, ds, lo, k);
    }
    assert SiblingsExact(c1, lo, d) by {
      WiredComplete(c1, lo, n, d.height, d.depth);
    }
    assert SiblingsLinked(c1, e, d) by {
      forall i, j | 0 <= i < n && 0 <= j < n && i != j && Touching(i, j, d.height, d.depth)
        ensures lo + j in c1[lo + i].neighbours
      {
        assert lo + i - lo == i && lo + j - lo == j;
      }
    }
  }

  /** After the wiring loop, child k of e sits in slot k with its box and
      parent, and the subtree below it is shaped. */
  lemma {:induction false} WireDoneChild(c1: seq<Cell>, c0: seq<Cell>, e: CellId, ds: seq<Dimensions>, lo: nat, k: nat)
    requires |ds| > 0 && Positive(ds[0]) && WireState(c1, c0, e, ds, lo, Count(ds[0]), Count(ds[0]))
    requires k < Count(ds[0])
    ensures c1[e].children[k] == Some(lo + k) && Placed(c1, e, ds[0], k) && Shaped(c1, lo + k, ds[1..], lo)
  {
    WireSlots(c1, c0, e, ds, lo, Count(ds[0]), Count(ds[0]));
    assert c1[lo + k].box == c0[lo + k].box && c1[lo + k].parent == c0[lo + k].parent;
    assert c1[lo + k].objects == c0[lo + k].objects;
    GrownSelf(c1);
    ShapedFrame(c1, c1, lo + k, ds[1..], |c0|, lo);
  }

  /** The n = Count(d) children numbered from lo on are linked with exactly
      the siblings they touch. */
  ghost predicate SiblingsExact(cells: seq<Cell>, lo: nat, d: Dimensions)
    requires Positive(d)
  {
    && lo + Count(d) <= |cells|
    && forall c: CellId, b: CellId :: lo <= c < lo + Count(d) ==>
         (b in cells[c].neighbours <==> lo <= b < lo + Count(d) && c != b && Touching(c - lo, b - lo, d.height, d.depth))
  }

  /** Adding edges only grows the neighbour lists. */
  lemma {:induction false} EdgesGrown(c0: seq<Cell>, c1: seq<Cell>, added: set<(CellId, CellId)>)
    requires EdgesAdded(c0, c1, added)
    ensures forall x :: 0 <= x < |c0| ==> Grown(c0[x], c1[x])
  {
    forall x | 0 <= x < |c0| ensures Grown(c0[x], c1[x]) {
      assert c1[x] == c0[x].(neighbours := c1[x].neighbours);
      forall m | m in c0[x].neighbours ensures m in c1[x].neighbours {
        assert NeighboursAdded(c0, c1, added);
      }
    }
  }

  /** A cell is grown from itself. */
  lemma {:induction false} GrownSelf(cells: seq<Cell>)
    ensures forall x :: 0 <= x < |cells| ==> Grown(cells[x], cells[x])
  {
  }

  /** ConnectTo(a, list) only extends the lists of a and the listed cells. */
  lemma {:induction false} LinkAllOutside(a: CellId, bs: seq<CellId>, x: CellId)
    requires x != a && x !in bs
    ensures x !in Ends(LinkAll(a, bs))
  {
  }

  /** The two ways the stitching throws as written: a 2 x 3 x 2 split
      runs the x pass off its last x layer, and a 1 x 2 x 1 split over
      0 x 1 x 1 grandchildren runs the x pass at x = 0 with no grandchild to
      index. The shipped dimensions, 2 x 1 x 2 over 5 x 4 x 5 over
      4 x 4 x 4, do not throw. */
  lemma {:induction false} FaultsAsWritten()
    ensures Faults([Dimensions(2, 3, 2), Dimensions(1, 1, 1), Dimensions(1, 1, 1)])
    ensures Faults([Dimensions(1, 2, 1), Dimensions(0, 1, 1), Dimensions(1, 1, 1)])
    ensures !Faults([Dimensions(2, 1, 2), Dimensions(5, 4, 5), Dimensions(4, 4, 4)])
  {
    var ds := [Dimensions(2, 1, 2), Dimensions(5, 4, 5), Dimensions(4, 4, 4)];
    assert ds[1..][1..] == [Dimensions(4, 4, 4)];
    assert ds[1..][1..][1..] == [];
  }

  /** A split one child high adds no pair in its x pass. */
  lemma {:induction false} XPassEmpty(cells: seq<Cell>, c: CellId, d: Dimensions, g: Dimensions, i: int)
    requires Positive(d) && d.height == 1 && 0 <= i < Count(d)
    ensures Pass(cells, c, d, g, i, 0) == {}
  {
    XGuardUnitHeight(d, i);
  }

  /** When the stitching does not throw, every pair it connects is one the
      intended guard would connect too: the child has a next child along
      the pass's axis. */
  lemma {:induction false} StitchPairIntended(cells: seq<Cell>, c: CellId, d: Dimensions, g: Dimensions, t: int,
                                              i: int, a: int, u: int, v: int, p: (CellId, CellId))
    requires Positive(d) && !StitchCrash(d, g) && t <= Count(d)
    requires StitchPair(cells, c, d, g, t, i, a, u, v, p)
    ensures HasNext(a, i, d)
  {
    GuardWithinHasNext(d, g, i, a);
  }

  /** Removing the first extent of a fault-free list leaves one. */
  lemma {:induction false} FaultsTail(ds: seq<Dimensions>)
    requires |ds| > 0 && Positive(ds[0]) && !Faults(ds)
    ensures !Faults(ds[1..]) && (|ds| > 2 ==> !StitchCrash(ds[0], ds[1]))
  {
  }

  /** Every pair the stitching of c adds joins two grandchildren of c; so
      when those all lie at lo2 or above, so do both ends of every pair. */
  lemma {:induction false} StitchPairsAbove(cells: seq<Cell>, c: CellId, d: Dimensions, g: Dimensions, lo2: nat, p: (CellId, CellId))
    requires Positive(d) && !StitchCrash(d, g) && c < |cells| && |cells[c].children| == Count(d)
    requires forall k :: 0 <= k < Count(d) ==> Family(cells, c, k, g, 0)
    requires forall k, m :: 0 <= k < Count(d) && 0 <= m < Count(g) ==> Grand(cells, c, k, m) >= lo2
    requires p in StitchPairs(cells, c, d, g, Count(d))
    ensures p.0 >= lo2 && p.1 >= lo2
  {
    var i, a, u, v := StitchWitness(cells, c, d, g, Count(d), p);
    StitchInRange(d, g, i, a, u, v);
    assert Grand(cells, c, i, FaceFrom(a, g, u, v)) >= lo2;
    assert Grand(cells, c, Next(a, i, d), FaceTo(a, g, u, v)) >= lo2;
  }

  /** Adding the stitching's pairs leaves c stitched. */
  lemma {:induction false} StitchedByPairs(c0: seq<Cell>, c1: seq<Cell>, c: CellId, d: Dimensions, g: Dimensions)
    requires Positive(d) && !StitchCrash(d, g) && c < |c0|
    requires |c0[c].children| == Count(d) && forall k :: 0 <= k < Count(d) ==> Family(c0, c, k, g, 0)
    requires EdgesAdded(c0, c1, StitchPairs(c0, c, d, g, Count(d)))
    ensures Stitched(c1, c, d, g)
  {
    forall i, a, u, v, p: (CellId, CellId) | StitchPair(c1, c, d, g, Count(d), i, a, u, v, p)
      ensures p.0 < |c1| && p.1 in c1[p.0].neighbours
    {
      StitchedPair(c0, c1, c, d, g, i, a, u, v, p);
    }
  }

  /** One face pair of the finished stitching is linked. */
  lemma {:induction false} StitchedPair(c0: seq<Cell>, c1: seq<Cell>, c: CellId, d: Dimensions, g: Dimensions,
                                        i: int, a: int, u: int, v: int, p: (CellId, CellId))
    requires Positive(d) && !StitchCrash(d, g) && c < |c0|
    requires |c0[c].children| == Count(d) && forall k :: 0 <= k < Count(d) ==> Family(c0, c, k, g, 0)
    requires EdgesAdded(c0, c1, StitchPairs(c0, c, d, g, Count(d)))
    requires StitchPair(c1, c, d, g, Count(d), i, a, u, v, p)
    ensures p.0 < |c1| && p.1 in c1[p.0].neighbours
  {
    StitchInRange(d, g, i, a, u, v);
    var j, m, n := Next(a, i, d), FaceFrom(a, g, u, v), FaceTo(a, g, u, v);
    GrandStable(c0, c1, c, i, m);
    GrandStable(c0, c1, c, j, n);
    assert StitchPair(c0, c, d, g, Count(d), i, a, u, v, p);
    FaceStitched(c0, c, d, g, Count(d), i, a, u, v, p);
    assert Family(c0, c, i, g, 0) && Family(c0, c, j, g, 0);
    assert p.0 == Grand(c0, c, i, m) || p.0 == Grand(c0, c, j, n);
  }

  /** Grandchildren do not change when only neighbour lists do. */
  lemma {:induction false} GrandStable(c0: seq<Cell>, c1: seq<Cell>, c: CellId, i: int, m: int)
    requires OnlyNeighboursChanged(c0, c1)
    ensures Grand(c1, c, i, m) == Grand(c0, c, i, m)
  {
    if c < |c0| && 0 <= i < |c0[c].children| && c0[c].children[i].Some? && c0[c].children[i].value < |c0| {
      assert c1[c0[c].children[i].value] == c0[c0[c].children[i].value].(neighbours := c1[c0[c].children[i].value].neighbours);
    }
  }
}
