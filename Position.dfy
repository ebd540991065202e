/**
 * The slot encoders of hckt (include/util.hpp, repeated as the static
 * members of hckt::tree in include/tree.hpp).
 *
 * A 2D position is three quad digits, one per level, each digit being
 * (left = 0 | right = 1) + (top = 0 | bottom = 2).  A 3D position is two
 * octant digits, each (left = 0 | right = 1) + (top = 0 | bottom = 2) +
 * (in = 0 | out = 4).  The encoders interleave the digits' bits into a
 * slot index below 64 and gather the per-axis bits into coordinates.
 *
 * The functions work on `bv32`, the source's `unsigned`, with its own
 * operators; the asserts at their head are preconditions.  The tree.hpp
 * copies take std::size_t, which computes the same values for digits in
 * range.  SlotBit(p, k) is bit k of a slot, from the least significant end.
 */
module Position {

  /** Bit k of p, as 0 or 1. */
  function SlotBit(p: bv32, k: bv32): (b: bv32)
    requires k < 32
    ensures b < 2
  {
    (p >> k) & 1
  }

  // ---- 2D ----

  /**
   * get_position_2d(d1, d2, d3): the slot of a three-level quad path, laid
   * out y1:x1:y2:x2:y3:x3 from the least significant bit.
   */
  function Position2d(d1: bv32, d2: bv32, d3: bv32): (p: bv32)
    requires d1 < 4 && d2 < 4 && d3 < 4
    ensures p < 64
  {
    ((1 << 0) * ((d1 & 2) >> 1))
    + ((1 << 1) * (d1 & 1))
    + ((1 << 2) * ((d2 & 2) >> 1))
    + ((1 << 3) * (d2 & 1))
    + ((1 << 4) * ((d3 & 2) >> 1))
    + ((1 << 5) * (d3 & 1))
  }

  /** get_x_2d(d1, d2, d3): the x bits of the three digits, level 1 lowest. */
  function X2d(d1: bv32, d2: bv32, d3: bv32): (x: bv32)
    requires d1 < 4 && d2 < 4 && d3 < 4
    ensures x < 8
  {
    ((d1 & 1) << 0) + ((d2 & 1) << 1) + ((d3 & 1) << 2)
  }

  /** get_y_2d(d1, d2, d3): the y bits of the three digits, level 1 lowest. */
  function Y2d(d1: bv32, d2: bv32, d3: bv32): (y: bv32)
    requires d1 < 4 && d2 < 4 && d3 < 4
    ensures y < 8
  {
    ((d1 & 2) >> 1 << 0) + ((d2 & 2) >> 1 << 1) + ((d3 & 2) >> 1 << 2)
  }

  /** The layout of the documentation comment, bit by bit. */
  lemma Layout2d(d1: bv32, d2: bv32, d3: bv32)
    requires d1 < 4 && d2 < 4 && d3 < 4
    ensures SlotBit(Position2d(d1, d2, d3), 0) == (d1 & 2) >> 1
    ensures SlotBit(Position2d(d1, d2, d3), 1) == d1 & 1
    ensures SlotBit(Position2d(d1, d2, d3), 2) == (d2 & 2) >> 1
    ensures SlotBit(Position2d(d1, d2, d3), 3) == d2 & 1
    ensures SlotBit(Position2d(d1, d2, d3), 4) == (d3 & 2) >> 1
    ensures SlotBit(Position2d(d1, d2, d3), 5) == d3 & 1
  {
  }

  /** get_x_2d gathers the odd bits of the slot, get_y_2d the even ones. */
  lemma Coordinates2d(d1: bv32, d2: bv32, d3: bv32)
    requires d1 < 4 && d2 < 4 && d3 < 4
    ensures X2d(d1, d2, d3) == SlotBit(Position2d(d1, d2, d3), 1) + 2 * SlotBit(Position2d(d1, d2, d3), 3) + 4 * SlotBit(Position2d(d1, d2, d3), 5)
    ensures Y2d(d1, d2, d3) == SlotBit(Position2d(d1, d2, d3), 0) + 2 * SlotBit(Position2d(d1, d2, d3), 2) + 4 * SlotBit(Position2d(d1, d2, d3), 4)
  {
  }

  /** The example of the layout: (1, 2, 3) is slot 54 at x 5, y 6. */
  lemma Example2d()
    ensures Position2d(1, 2, 3) == 54 && X2d(1, 2, 3) == 5 && Y2d(1, 2, 3) == 6
  {
  }

  /** Quad digit k (1 to 3) of a slot: its y bit 2k - 2 and its x bit 2k - 1. */
  function QuadDigit(p: bv32, k: bv32): (d: bv32)
    requires 1 <= k <= 3
    ensures d < 4
  {
    2 * SlotBit(p, 2 * k - 2) + SlotBit(p, 2 * k - 1)
  }

  /** Every slot below 64 is the encoding of the digits read back from it. */
  lemma Surjective2d(p: bv32)
    requires p < 64
    ensures Position2d(QuadDigit(p, 1), QuadDigit(p, 2), QuadDigit(p, 3)) == p
  {
  }

  /** Reading the digits back from a slot gives the digits that made it. */
  lemma Injective2d(d1: bv32, d2: bv32, d3: bv32)
    requires d1 < 4 && d2 < 4 && d3 < 4
    ensures QuadDigit(Position2d(d1, d2, d3), 1) == d1
    ensures QuadDigit(Position2d(d1, d2, d3), 2) == d2
    ensures QuadDigit(Position2d(d1, d2, d3), 3) == d3
  {
  }

  // ---- 3D ----

  /**
   * get_position_3d(d1, d2): the slot of a two-level octant path, laid out
   * z1:y1:x1:z2:y2:x2 from the least significant bit.
   */
  function Position3d(d1: bv32, d2: bv32): (p: bv32)
    requires d1 < 8 && d2 < 8
    ensures p < 64
  {
    ((1 << 0) * ((d1 & 4) >> 2))
    + ((1 << 1) * ((d1 & 2) >> 1))
    + ((1 << 2) * (d1 & 1))
    + ((1 << 3) * ((d2 & 4) >> 2))
    + ((1 << 4) * ((d2 & 2) >> 1))
    + ((1 << 5) * (d2 & 1))
  }

  /** get_x_3d(d1, d2). */
  function X3d(d1: bv32, d2: bv32): (x: bv32)
    requires d1 < 8 && d2 < 8
    ensures x < 4
  {
    ((d1 & 1) << 0) + ((d2 & 1) << 1)
  }

  /** get_y_3d(d1, d2). */
  function Y3d(d1: bv32, d2: bv32): (y: bv32)
    requires d1 < 8 && d2 < 8
    ensures y < 4
  {
    ((d1 & 2) >> 1 << 0) + ((d2 & 2) >> 1 << 1)
  }

  /** get_z_3d(d1, d2). */
  function Z3d(d1: bv32, d2: bv32): (z: bv32)
    requires d1 < 8 && d2 < 8
    ensures z < 4
  {
    ((d1 & 4) >> 2 << 0) + ((d2 & 4) >> 2 << 1)
  }

  lemma Layout3d(d1: bv32, d2: bv32)
    requires d1 < 8 && d2 < 8
    ensures SlotBit(Position3d(d1, d2), 0) == (d1 & 4) >> 2
    ensures SlotBit(Position3d(d1, d2), 1) == (d1 & 2) >> 1
    ensures SlotBit(Position3d(d1, d2), 2) == d1 & 1
    ensures SlotBit(Position3d(d1, d2), 3) == (d2 & 4) >> 2
    ensures SlotBit(Position3d(d1, d2), 4) == (d2 & 2) >> 1
    ensures SlotBit(Position3d(d1, d2), 5) == d2 & 1
  {
  }

  /** x is bits 2 and 5 of the slot, y bits 1 and 4, z bits 0 and 3. */
  lemma Coordinates3d(d1: bv32, d2: bv32)
    requires d1 < 8 && d2 < 8
    ensures X3d(d1, d2) == SlotBit(Position3d(d1, d2), 2) + 2 * SlotBit(Position3d(d1, d2), 5)
    ensures Y3d(d1, d2) == SlotBit(Position3d(d1, d2), 1) + 2 * SlotBit(Position3d(d1, d2), 4)
    ensures Z3d(d1, d2) == SlotBit(Position3d(d1, d2), 0) + 2 * SlotBit(Position3d(d1, d2), 3)
  {
  }

  /** Octant digit k (1 or 2) of a slot: its z bit 3k - 3, y bit 3k - 2 and x bit 3k - 1. */
  function OctantDigit(p: bv32, k: bv32): (d: bv32)
    requires 1 <= k <= 2
    ensures d < 8
  {
    4 * SlotBit(p, 3 * k - 3) + 2 * SlotBit(p, 3 * k - 2) + SlotBit(p, 3 * k - 1)
  }

  lemma Surjective3d(p: bv32)
    requires p < 64
    ensures Position3d(OctantDigit(p, 1), OctantDigit(p, 2)) == p
  {
  }

  lemma Injective3d(d1: bv32, d2: bv32)
    requires d1 < 8 && d2 < 8
    ensures OctantDigit(Position3d(d1, d2), 1) == d1
    ensures OctantDigit(Position3d(d1, d2), 2) == d2
  {
  }
}
