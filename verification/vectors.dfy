/** Optional values, used for the eight child slots of an octree node
    (the source stores `None` in an empty slot). */
module Options {

  datatype Option<+T> = None | Some(value: T)
}

/** Three-component vectors over exact reals, standing in for the NumPy
    arrays of positions, mass-weighted positions and forces. */
module Vectors {

  datatype Vec3 = Vec3(x: real, y: real, z: real)

  const Zero: Vec3 := Vec3(0.0, 0.0, 0.0)

  function Plus(a: Vec3, b: Vec3): Vec3
  {
    Vec3(a.x + b.x, a.y + b.y, a.z + b.z)
  }

  lemma PlusAssociative(a: Vec3, b: Vec3, c: Vec3)
    ensures Plus(a, Plus(b, c)) == Plus(Plus(a, b), c)
  {
  }

  lemma PlusCommutative(a: Vec3, b: Vec3)
    ensures Plus(a, b) == Plus(b, a)
  {
  }

  /** Exchanging one summand inside a sum for another. */
  lemma PlusExchange(a: Vec3, o: Vec3, n: Vec3, b: Vec3)
    ensures Plus(Plus(a, Plus(n, b)), o) == Plus(Plus(a, Plus(o, b)), n)
  {
  }

  function Minus(a: Vec3, b: Vec3): Vec3
  {
    Vec3(a.x - b.x, a.y - b.y, a.z - b.z)
  }

  function Neg(a: Vec3): Vec3
  {
    Vec3(-a.x, -a.y, -a.z)
  }

  function Scale(k: real, a: Vec3): Vec3
  {
    Vec3(k * a.x, k * a.y, k * a.z)
  }

  /** Component-wise division by a scalar, as NumPy's `v / k`. */
  function Div(a: Vec3, k: real): Vec3
    requires k != 0.0
  {
    Vec3(a.x / k, a.y / k, a.z / k)
  }

  /** Scaling back by the divisor undoes a division. */
  lemma ScaleDiv(a: Vec3, k: real)
    requires k != 0.0
    ensures Scale(k, Div(a, k)) == a
  {
  }

  /** The half-open unit cube [0,1)^3 in which relative positions live. */
  predicate InUnitCube(a: Vec3)
  {
    0.0 <= a.x < 1.0 && 0.0 <= a.y < 1.0 && 0.0 <= a.z < 1.0
  }
}
