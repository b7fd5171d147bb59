/**
 * The index helpers of Maths.cs: the linearisation of a width x height x depth
 * lattice into a flat list, and the sub-array copy used to drop the first level
 * of a grid specification.
 */
module Maths {

  /** Position of lattice point (x, y, z) in the flat list of a lattice whose
      second and third extents are `height` and `depth` (Maths.cs, To1D). */
  function To1D(x: int, y: int, z: int, height: int, depth: int): int {
    z + (y * depth) + (x * depth * height)
  }

  /** The lattice point stored at flat position k: the inverse of To1D. */
  function Coords(k: int, height: int, depth: int): (c: (int, int, int))
    requires height > 0 && depth > 0
  {
    (k / depth / height, (k / depth) % height, k % depth)
  }

  /** True when (x, y, z) lies in the width x height x depth lattice. */
  predicate InLattice(x: int, y: int, z: int, width: int, height: int, depth: int) {
    0 <= x < width && 0 <= y < height && 0 <= z < depth
  }

  lemma {:induction false} MulMonotone(a: int, b: int, c: int)
    requires 0 <= a <= b && 0 <= c
    ensures a * c <= b * c
  {
  }

  /** Division with remainder is unique: q and r are the quotient and remainder. */
  lemma {:induction false} DivModUnique(k: int, d: int, q: int, r: int)
    requires d > 0 && 0 <= r < d && k == q * d + r
    ensures k / d == q && k % d == r
  {
    var q', r' := k / d, k % d;
    if q' > q {
      MulMonotone(1, q' - q, d);
    } else if q' < q {
      MulMonotone(1, q - q', d);
    }
  }

  /** y * depth + z stays below depth * height on the lattice. */
  lemma {:induction false} InnerBelow(y: int, z: int, height: int, depth: int)
    requires 0 <= y < height && 0 <= z < depth
    ensures 0 <= y * depth + z < depth * height
  {
    MulMonotone(y + 1, height, depth);
  }

  /** Every lattice point has a flat position inside [0, width * height * depth). */
  lemma {:induction false} To1DInRange(x: int, y: int, z: int, width: int, height: int, depth: int)
    requires InLattice(x, y, z, width, height, depth)
    ensures 0 <= To1D(x, y, z, height, depth) < width * height * depth
  {
    InnerBelow(y, z, height, depth);
    MulMonotone(x + 1, width, depth * height);
    assert To1D(x, y, z, height, depth) == x * (depth * height) + (y * depth + z);
  }

  /** Coords undoes To1D on the lattice. */
  lemma {:induction false} CoordsOfTo1D(x: int, y: int, z: int, width: int, height: int, depth: int)
    requires InLattice(x, y, z, width, height, depth)
    ensures Coords(To1D(x, y, z, height, depth), height, depth) == (x, y, z)
  {
    var k := To1D(x, y, z, height, depth);
    assert k / depth == y + x * height && k % depth == z by {
      assert k == (y + x * height) * depth + z;
      DivModUnique(k, depth, y + x * height, z);
    }
    assert (y + x * height) / height == x && (y + x * height) % height == y by {
      DivModUnique(y + x * height, height, x, y);
    }
  }

  /** Only the origin sits at flat position 0. */
  lemma {:induction false} To1DOrigin(x: int, y: int, z: int, width: int, height: int, depth: int)
    requires InLattice(x, y, z, width, height, depth)
    ensures To1D(x, y, z, height, depth) == 0 <==> x == 0 && y == 0 && z == 0
  {
    CoordsOfTo1D(x, y, z, width, height, depth);
  }

  /** Regrouping q * depth + z with q = a * height + y. */
  lemma {:induction false} Regroup(k: int, q: int, a: int, y: int, z: int, height: int, depth: int)
    requires k == q * depth + z && q == a * height + y
    ensures k == a * (depth * height) + (y * depth + z)
  {
  }

  /** To1D undoes Coords on [0, width * height * depth). */
  lemma {:induction false} To1DOfCoords(k: int, width: int, height: int, depth: int)
    requires height > 0 && depth > 0 && 0 <= k < width * height * depth
    ensures var c := Coords(k, height, depth);
      InLattice(c.0, c.1, c.2, width, height, depth) && To1D(c.0, c.1, c.2, height, depth) == k
  {
    var q := k / depth;
    var a := q / height;
    var b := q % height;
    var r := k % depth;
    LayerBound(k, q, r, a, b, width, height, depth);
    Regroup(k, q, a, b, r, height, depth);
  }

  /** The layer a of flat position k = (a * height + b) * depth + r lies in
      [0, width) when k lies in [0, width * height * depth). */
  lemma {:induction false} LayerBound(k: int, q: int, r: int, a: int, b: int, width: int, height: int, depth: int)
    requires height > 0 && depth > 0 && 0 <= k < width * height * depth
    requires k == q * depth + r && 0 <= r < depth && q == a * height + b && 0 <= b < height
    ensures 0 <= q && 0 <= a < width
  {
    if q < 0 {
      MulMonotone(1, -q, depth);
    }
    if a < 0 {
      MulMonotone(1, -a, height);
    }
    if a >= width {
      if width <= 0 {
        MulMonotone(0, -width, height * depth);
      } else {
        MulMonotone(width, a, height);
        MulMonotone(width * height, q, depth);
      }
    }
  }

  /** On the lattice, To1D is a bijection onto [0, width * height * depth):
      distinct lattice points get distinct flat positions, and every position
      is the image of the point Coords gives back. */
  lemma {:induction false} To1DBijective(width: int, height: int, depth: int)
    requires width > 0 && height > 0 && depth > 0
    ensures forall x, y, z :: InLattice(x, y, z, width, height, depth) ==>
      0 <= To1D(x, y, z, height, depth) < width * height * depth &&
      Coords(To1D(x, y, z, height, depth), height, depth) == (x, y, z)
    ensures forall k :: 0 <= k < width * height * depth ==>
      var c := Coords(k, height, depth);
      InLattice(c.0, c.1, c.2, width, height, depth) && To1D(c.0, c.1, c.2, height, depth) == k
  {
    forall x, y, z | InLattice(x, y, z, width, height, depth)
      ensures 0 <= To1D(x, y, z, height, depth) < width * height * depth
      ensures Coords(To1D(x, y, z, height, depth), height, depth) == (x, y, z)
    {
      To1DInRange(x, y, z, width, height, depth);
      CoordsOfTo1D(x, y, z, width, height, depth);
    }
    forall k | 0 <= k < width * height * depth
      ensures var c := Coords(k, height, depth);
        InLattice(c.0, c.1, c.2, width, height, depth) && To1D(c.0, c.1, c.2, height, depth) == k
    {
      To1DOfCoords(k, width, height, depth);
    }
  }

  /** Stepping one place along z, y or x moves the flat position by 1, depth
      and depth * height respectively. */
  lemma {:induction false} To1DSteps(x: int, y: int, z: int, height: int, depth: int)
    ensures To1D(x, y, z + 1, height, depth) == To1D(x, y, z, height, depth) + 1
    ensures To1D(x, y + 1, z, height, depth) == To1D(x, y, z, height, depth) + depth
    ensures To1D(x + 1, y, z, height, depth) == To1D(x, y, z, height, depth) + depth * height
  {
    assert (y + 1) * depth == y * depth + depth;
    assert (x + 1) * depth * height == x * depth * height + depth * height;
  }

  /** Running z past the last layer lands on the next y; running y past the
      last row lands on the next x. */
  lemma {:induction false} To1DCarry(x: int, y: int, height: int, depth: int)
    ensures To1D(x, y, depth, height, depth) == To1D(x, y + 1, 0, height, depth)
    ensures To1D(x, height, 0, height, depth) == To1D(x + 1, 0, 0, height, depth)
  {
    To1DSteps(x, y, 0, height, depth);
    To1DSteps(x, 0, 0, height, depth);
    assert height * depth == depth * height;
  }

  /** A copy of data[index .. index + length] in a new array (Maths.cs,
      SubArray). Array.Copy throws unless the range lies inside data. */
  method SubArray<T(0)>(data: array<T>, index: nat, length: nat) returns (r: array<T>)
    requires index + length <= data.Length
    ensures fresh(r) && r.Length == length
    ensures r[..] == data[index..index + length]
  {
    r := new T[length];
    for i := 0 to length
      invariant forall j :: 0 <= j < i ==> r[j] == data[index + j]
    {
      r[i] := data[index + i];
    }
  }
}
