/**
 * The Vector3 / Bounds arithmetic the grid uses, over the reals. A grid
 * element is an axis-aligned box given by its centre and half-size; the
 * Unity collider behind Contains has the same centre and twice the half-size.
 */
module Geometry {

  datatype Vec3 = Vec3(x: real, y: real, z: real)

  /** The box of a grid element: centre `_position` and `_halfSize`. */
  datatype Box = Box(center: Vec3, halfSize: Vec3)

  function Half(v: Vec3): Vec3 {
    Vec3(v.x / 2.0, v.y / 2.0, v.z / 2.0)
  }

  /** Bounds.Contains: inclusive on every face. */
  predicate Contains(b: Box, p: Vec3) {
    && b.center.x - b.halfSize.x <= p.x <= b.center.x + b.halfSize.x
    && b.center.y - b.halfSize.y <= p.y <= b.center.y + b.halfSize.y
    && b.center.z - b.halfSize.z <= p.z <= b.center.z + b.halfSize.z
  }

  function SquaredDistance(a: Vec3, b: Vec3): real {
    (a.x - b.x) * (a.x - b.x) + (a.y - b.y) * (a.y - b.y) + (a.z - b.z) * (a.z - b.z)
  }

  /** Vector3.Distance(a, b) < range, decided without the square root: the
      distance is never negative, so it is below range exactly when range is
      positive and the squared distance is below range squared. */
  predicate DistanceBelow(a: Vec3, b: Vec3, range: real) {
    range > 0.0 && SquaredDistance(a, b) < range * range
  }

  /** The size of one child when a box of half-size h is split into
      width x height x depth children. The x component is taken from h.z,
      as GridManager.cs line 222 writes it. */
  function ChildScale(h: Vec3, width: int, height: int, depth: int): Vec3
    requires width > 0 && height > 0 && depth > 0
  {
    Vec3(h.z * 2.0 / width as real, h.y * 2.0 / height as real, h.z * 2.0 / depth as real)
  }

  /** The box of the child at lattice point (x, y, z): children are laid out
      from the parent's minimum corner outward, each of size ChildScale. */
  function ChildBox(parent: Box, width: int, height: int, depth: int, x: int, y: int, z: int): Box
    requires width > 0 && height > 0 && depth > 0
  {
    var origin := Vec3(parent.center.x - parent.halfSize.x,
                       parent.center.y - parent.halfSize.y,
                       parent.center.z - parent.halfSize.z);
    var scale := ChildScale(parent.halfSize, width, height, depth);
    Box(Vec3(origin.x + scale.x / 2.0 + x as real * scale.x,
             origin.y + scale.y / 2.0 + y as real * scale.y,
             origin.z + scale.z / 2.0 + z as real * scale.z),
        Half(scale))
  }

  /** The children of one row along x end at origin.x + 2 * halfSize.z, so the
      x-extent of the lattice matches the parent's only when its half-sizes
      along x and z agree; along y and z the lattice ends at the parent's face. */
  lemma {:induction false} ChildLatticeExtent(parent: Box, width: int, height: int, depth: int)
    requires width > 0 && height > 0 && depth > 0
    ensures var last := ChildBox(parent, width, height, depth, width - 1, height - 1, depth - 1);
      && last.center.x + last.halfSize.x == parent.center.x - parent.halfSize.x + 2.0 * parent.halfSize.z
      && last.center.y + last.halfSize.y == parent.center.y + parent.halfSize.y
      && last.center.z + last.halfSize.z == parent.center.z + parent.halfSize.z
  {
    var s := ChildScale(parent.halfSize, width, height, depth);
    assert s.x * width as real == parent.halfSize.z * 2.0;
    assert s.y * height as real == parent.halfSize.y * 2.0;
    assert s.z * depth as real == parent.halfSize.z * 2.0;
    assert (width - 1) as real * s.x + s.x == width as real * s.x;
    assert (height - 1) as real * s.y + s.y == height as real * s.y;
    assert (depth - 1) as real * s.z + s.z == depth as real * s.z;
  }
}
