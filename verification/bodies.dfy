/** The body side of the source's `Node` class: a point mass stored as its
    mass and mass-weighted position, and the cell-location state that
    `reset_location`, `place_into_octant` and `subdivide` keep on it while
    the body is pushed down the octree. */
module Bodies {
  import opened Vectors

  /** A body: mass `m`, mass-weighted position `mpos` (`m * position`) and
      momentum. */
  datatype Body = Body(m: real, mpos: Vec3, momentum: Vec3)

  /** Masses are positive; every position is recovered by dividing by one. */
  predicate Massive(b: Body)
  {
    b.m > 0.0
  }

  /** The physical coordinates of a body, `m_pos / m`. */
  function Position(b: Body): Vec3
    requires Massive(b)
  {
    Div(b.mpos, b.m)
  }

  /** Scaling the position by the mass gives back the stored mass-weighted
      position. */
  lemma PositionScalesBack(b: Body)
    requires Massive(b)
    ensures Scale(b.m, Position(b)) == b.mpos
  {
  }

  /** The constructor: stores the mass-weighted position, from which the
      position is recovered unchanged. */
  function NewBody(m: real, position: Vec3, momentum: Vec3): (b: Body)
    requires m > 0.0
    ensures Massive(b) && b.m == m && b.momentum == momentum
    ensures Position(b) == position
  {
    Body(m, Scale(m, position), momentum)
  }

  /** A body together with the location state the tree construction keeps on
      it: the side of the current cell is `Size(level)` and `rel` is the
      body's position inside that cell, rescaled to the unit cube. */
  datatype Located = Located(body: Body, level: nat, rel: Vec3)

  function Pow2(k: nat): (p: nat)
    ensures p >= 1
  {
    if k == 0 then 1 else 2 * Pow2(k - 1)
  }

  /** The `size` attribute: the root cell has side 1.0 and every level
      halves it, so the side at depth `level` is 2^-level exactly. */
  function Size(level: nat): (s: real)
    ensures 0.0 < s <= 1.0
  {
    1.0 / Pow2(level) as real
  }

  /** Lower limit on the side of a cell that may still be subdivided. */
  const SmallestOctant: real := 0.0001

  lemma {:induction false} Pow2Monotonic(j: nat, k: nat)
    requires j <= k
    ensures Pow2(j) <= Pow2(k)
    decreases k
  {
    if j < k {
      Pow2Monotonic(j, k - 1);
    }
  }

  /** A cell can still be subdivided exactly down to depth 13: 2^-13 is
      about 1.2e-4 and 2^-14 about 6.1e-5. */
  lemma {:induction false} SizeAboveFloor(level: nat)
    ensures Size(level) > SmallestOctant <==> level <= 13
  {
    var p := Pow2(level) as real;
    Pow2AtFloor();
    if level <= 13 {
      Pow2Monotonic(level, 13);
      ReciprocalAntitone(p, 8192.0);
    } else {
      Pow2Monotonic(14, level);
      ReciprocalAntitone(16384.0, p);
    }
  }

  /** The two powers of two on either side of the size floor. */
  lemma Pow2AtFloor()
    ensures Pow2(13) == 8192 && Pow2(14) == 16384
  {
    assert Pow2(4) == 16;
    assert Pow2(8) == 256;
    assert Pow2(12) == 4096;
  }

  lemma ReciprocalAntitone(p: real, q: real)
    requires 0.0 < p <= q
    ensures 1.0 / q <= 1.0 / p
  {
  }

  /** `reset_location`: back to the root cell of side 1.0, with the
      relative position equal to the physical position. */
  function Reset(b: Body): (c: Located)
    requires Massive(b)
    ensures c.body == b && Size(c.level) == 1.0
    ensures c.rel == Position(b)
  {
    Located(b, 0, Position(b))
  }

  /** `subdivide(i)` on one coordinate: double it; when the doubled value
      reaches 1.0 the bit is 1 and 1.0 is taken off.  The result is the
      pair (bit, new coordinate). */
  function Subdivide(x: real): (r: (nat, real))
    ensures r.0 <= 1
    ensures r.0 == 1 <==> x >= 0.5
    ensures x == (r.0 as real + r.1) / 2.0
    ensures 0.0 <= x < 1.0 ==> 0.0 <= r.1 < 1.0
    ensures x < 0.0 ==> r.0 == 0 && r.1 < x
    ensures x >= 1.0 ==> r.0 == 1 && r.1 >= x
  {
    var d := 2.0 * x;
    if d >= 1.0 then (1, d - 1.0) else (0, d)
  }

  /** The bit an octant index carries for each axis: x is worth 4, y 2, z 1. */
  function OctantX(o: nat): nat { o / 4 % 2 }
  function OctantY(o: nat): nat { o / 2 % 2 }
  function OctantZ(o: nat): nat { o % 2 }

  /** The relative position in the parent cell of a point at `rel` inside
      child octant `o`: the inverse of one `place_into_octant` step. */
  function ParentRel(o: nat, rel: Vec3): Vec3
  {
    Vec3((OctantX(o) as real + rel.x) / 2.0,
         (OctantY(o) as real + rel.y) / 2.0,
         (OctantZ(o) as real + rel.z) / 2.0)
  }

  /** Which half of the cell a relative coordinate lies in. */
  function UpperHalf(x: real): nat
  {
    if x >= 0.5 then 1 else 0
  }

  /** `place_into_octant`: halve the cell, subdivide along z, y and x, and
      combine the three bits into an octant index.  The result is the pair
      (octant, body one level down). */
  function PlaceIntoOctant(c: Located): (r: (nat, Located))
    ensures r.0 < 8
    ensures r.1.body == c.body && r.1.level == c.level + 1
  {
    var (zBit, z) := Subdivide(c.rel.z);
    var (yBit, y) := Subdivide(c.rel.y);
    var (xBit, x) := Subdivide(c.rel.x);
    (zBit + 2 * yBit + 4 * xBit, Located(c.body, c.level + 1, Vec3(x, y, z)))
  }

  /** What one `place_into_octant` step means geometrically: the cell side
      halves; the octant index records, per axis, whether the body lies in
      the upper half of its cell; the new relative position together with
      the octant gives back the old one; and a body inside the unit cube
      stays inside it. */
  lemma {:induction false} PlaceIntoOctantGeometry(c: Located)
    ensures var (o, c') := PlaceIntoOctant(c);
            && Size(c'.level) == Size(c.level) / 2.0
            && o == 4 * UpperHalf(c.rel.x) + 2 * UpperHalf(c.rel.y) + UpperHalf(c.rel.z)
            && ParentRel(o, c'.rel) == c.rel
            && (InUnitCube(c.rel) ==> InUnitCube(c'.rel))
  {
  }

  /** A body in the unit cube stays in the unit cube however deep it is
      pushed, and after k steps sits in a cell of side 2^-k. */
  function Descend(c: Located, k: nat): (r: Located)
    ensures r.body == c.body && r.level == c.level + k
    ensures Size(r.level) * Pow2(k) as real == Size(c.level)
    ensures InUnitCube(c.rel) ==> InUnitCube(r.rel)
    decreases k
  {
    if k == 0 then c
    else
      PlaceIntoOctantGeometry(c);
      Descend(PlaceIntoOctant(c).1, k - 1)
  }
}
