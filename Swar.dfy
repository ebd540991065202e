/**
 * The default build of get_children_position (include/tree.hpp): the count
 * of the set bits of the shifted mask by the SWAR reduction.
 *
 * The first step leaves in every 2-bit field the number of set bits of
 * that field, the second does the same for every 4-bit field and the third
 * for every byte; multiplying by h01 then adds all bytes into the top one.
 * The model proves the three field steps: each byte of the third word is
 * the population count of the same byte of x, stated against Rank.
 *
 * Field values are read as 7-bit words (Small) and counted with Val, a
 * recursive count-down, rather than converted to integers.
 */
module Swar {
  import opened BitRank

  function Ind(b: bool): nat
  {
    if b then 1 else 0
  }

  /** The number of set bits among the w slots from slot o. */
  function SlotCount(x: bv64, o: bv6, w: nat): nat
    decreases w
  {
    if w == 0 then 0 else Ind(SlotBit(x, o)) + SlotCount(x, o + 1, w - 1)
  }

  /** The field of y at offset o under mask k, as a 7-bit word. */
  function Small(y: bv64, o: bv6, k: bv7): bv7
  {
    ((y >> o) & (k as bv64)) as bv7
  }

  /** x -= (x >> 1) & m1: the set bits of every 2-bit field. */
  function PairCounts(x: bv64): bv64
  {
    x - ((x >> 1) & 0x5555555555555555)
  }

  /** x = (x & m2) + ((x >> 2) & m2): the set bits of every 4-bit field. */
  function NibbleCounts(y: bv64): bv64
  {
    (y & 0x3333333333333333) + ((y >> 2) & 0x3333333333333333)
  }

  /** x = (x + (x >> 4)) & m4: the set bits of every byte. */
  function ByteCounts(z: bv64): bv64
  {
    (z + (z >> 4)) & 0x0f0f0f0f0f0f0f0f
  }

  /** The SWAR reduction as written: the three field steps and the multiply by h01. */
  function SwarCount(x: bv64): bv64
  {
    (ByteCounts(NibbleCounts(PairCounts(x))) * 0x0101010101010101) >> 56
  }

  /** The value of a 7-bit word, counted down one by one. */
  function Val(a: bv7): nat
    decreases a
  {
    if a == 0 then 0 else 1 + Val(a - 1)
  }

  lemma {:induction false} ValOfSum(a: bv7, b: bv7)
    requires a <= 64 && b <= 63
    ensures Val(a + b) == Val(a) + Val(b)
    decreases b
  {
    if b != 0 {
      ValOfSum(a, b - 1);
      assert a + b != 0 && (a + b) - 1 == a + (b - 1);
    }
  }

  /** Val is the value of the word. */
  lemma {:induction false} ValInt(a: bv7)
    ensures Val(a) == a as int
    decreases a
  {
    if a != 0 {
      ValInt(a - 1);
    }
  }

  /** c = a + b in seven bits, where a and b count at most 32 each. */
  lemma SumVal(a: bv7, b: bv7, c: bv7)
    requires c == a + b && Val(a) <= 32 && Val(b) <= 32
    ensures Val(c) == Val(a) + Val(b)
  {
    ValInt(a);
    ValInt(b);
    ValOfSum(a, b);
  }

  /** Counting n + k slots is counting the first n and then the k after them. */
  lemma {:induction false} SplitCount(x: bv64, o: bv6, c: bv6, n: nat, k: nat)
    requires IsSlot(c, n)
    ensures SlotCount(x, o, n + k) == SlotCount(x, o, n) + SlotCount(x, o + c, k)
    decreases n
  {
    if n > 0 {
      SplitCount(x, o + 1, c - 1, n - 1, k);
      assert o + 1 + (c - 1) == o + c;
    }
  }

  lemma {:induction false} SlotCountBound(x: bv64, o: bv6, w: nat)
    ensures SlotCount(x, o, w) <= w
    decreases w
  {
    if w > 0 {
      SlotCountBound(x, o + 1, w - 1);
    }
  }

  lemma PairRaw(x: bv64, o: bv6)
    ensures o & 1 == 0 ==> Small(PairCounts(x), o, 3) == (if SlotBit(x, o) then 1 else 0) + (if SlotBit(x, o + 1) then 1 else 0)
  {
  }

  lemma PairCount(p: bv7, b0: bool, b1: bool)
    requires p == (if b0 then 1 else 0) + (if b1 then 1 else 0)
    ensures Val(p) == Ind(b0) + Ind(b1)
  {
    assert Val(0) == 0;
    assert Val(1) == 1 + Val(0);
    assert Val(2) == 1 + Val(1);
  }

  lemma TwoSlots(x: bv64, o: bv6)
    ensures SlotCount(x, o, 2) == Ind(SlotBit(x, o)) + Ind(SlotBit(x, o + 1))
  {
    assert SlotCount(x, o + 1, 1) == Ind(SlotBit(x, o + 1)) + SlotCount(x, o + 1 + 1, 0);
  }

  /** Every 2-bit field of the first word holds the number of set bits of that field of x. */
  lemma PairField(x: bv64, o: bv6)
    requires o & 1 == 0
    ensures Val(Small(PairCounts(x), o, 3)) == SlotCount(x, o, 2)
  {
    PairRaw(x, o);
    PairCount(Small(PairCounts(x), o, 3), SlotBit(x, o), SlotBit(x, o + 1));
    TwoSlots(x, o);
  }

  lemma Align(o: bv6)
    ensures o & 3 == 0 ==> (o + 2) & 1 == 0 && o & 1 == 0
    ensures o & 7 == 0 ==> (o + 4) & 3 == 0 && o & 3 == 0
  {
  }

  lemma NibbleRaw(y: bv64, o: bv6)
    requires o & 3 == 0
    ensures Small(NibbleCounts(y), o, 15) == Small(y, o, 3) + Small(y, o + 2, 3)
  {
  }

  /** Every 4-bit field of the second word holds the number of set bits of that field of x. */
  lemma NibbleField(x: bv64, o: bv6)
    requires o & 3 == 0
    ensures Val(Small(NibbleCounts(PairCounts(x)), o, 15)) == SlotCount(x, o, 4)
  {
    var y := PairCounts(x);
    var o2 := o + 2;
    var a := Small(y, o, 3);
    var b := Small(y, o2, 3);
    var c := Small(NibbleCounts(y), o, 15);
    Align(o);
    NibbleRaw(y, o);
    PairField(x, o);
    PairField(x, o2);
    SlotCountBound(x, o, 2);
    SlotCountBound(x, o2, 2);
    SumVal(a, b, c);
    SlotOfValue(2);
    SplitCount(x, o, 2, 2, 2);
  }

  lemma NibbleBound(x: bv64)
    ensures NibbleCounts(PairCounts(x)) & 0x8888888888888888 == 0
  {
  }

  lemma ByteRaw(z: bv64, o: bv6)
    requires z & 0x8888888888888888 == 0 && o & 7 == 0
    ensures Small(ByteCounts(z), o, 127) == Small(z, o, 15) + Small(z, o + 4, 15)
  {
  }

  /** Every byte of the third word holds the number of set bits of that byte of x. */
  lemma ByteField(x: bv64, o: bv6)
    requires o & 7 == 0
    ensures Val(Small(ByteCounts(NibbleCounts(PairCounts(x))), o, 127)) == SlotCount(x, o, 8)
  {
    var z := NibbleCounts(PairCounts(x));
    var o4 := o + 4;
    var a := Small(z, o, 15);
    var b := Small(z, o4, 15);
    var c := Small(ByteCounts(z), o, 127);
    Align(o);
    NibbleBound(x);
    ByteRaw(z, o);
    NibbleField(x, o);
    NibbleField(x, o4);
    SlotCountBound(x, o, 4);
    SlotCountBound(x, o4, 4);
    SumVal(a, b, c);
    SlotOfValue(4);
    SplitCount(x, o, 4, 4, 4);
  }

  /** The bits counted from slot o on are the rank differences from the index o stands for. */
  lemma {:induction false} SlotCountIsRank(x: bv64, o: bv6, i: nat, w: nat)
    requires IsSlot(o, i) && i + w <= 64
    ensures Rank(x, i) + SlotCount(x, o, w) == Rank(x, i + w)
    decreases w
  {
    if w > 0 {
      BitAt(x, o, i);
      RankStep(x, i);
      if w > 1 {
        SlotOfValue(63);
        SlotsEqual(o, i, 63, 63);
        SlotSucc(o, i);
        SlotCountIsRank(x, o + 1, i + 1, w - 1);
      }
    }
  }

  lemma RankStep(x: bv64, i: nat)
    ensures Rank(x, i + 1) == Rank(x, i) + Ind(Bit(x, i))
  {
  }

  /** The byte at slot o, which stands for index i, counts the bits of x from i to i + 8. */
  lemma ByteLane(x: bv64, o: bv6, i: nat)
    requires IsSlot(o, i) && o & 7 == 0 && i + 8 <= 64
    ensures Rank(x, i) + Val(Small(ByteCounts(NibbleCounts(PairCounts(x))), o, 127)) == Rank(x, i + 8)
  {
    ByteField(x, o);
    SlotCountIsRank(x, o, i, 8);
  }

  /**
   * After the third step every byte of the word holds the number of set
   * bits of that byte of x.
   */
  lemma ByteLanes(x: bv64)
    ensures Val(Small(ByteCounts(NibbleCounts(PairCounts(x))), 0, 127)) == Rank(x, 8)
    ensures Rank(x, 8) + Val(Small(ByteCounts(NibbleCounts(PairCounts(x))), 8, 127)) == Rank(x, 16)
    ensures Rank(x, 16) + Val(Small(ByteCounts(NibbleCounts(PairCounts(x))), 16, 127)) == Rank(x, 24)
    ensures Rank(x, 24) + Val(Small(ByteCounts(NibbleCounts(PairCounts(x))), 24, 127)) == Rank(x, 32)
    ensures Rank(x, 32) + Val(Small(ByteCounts(NibbleCounts(PairCounts(x))), 32, 127)) == Rank(x, 40)
    ensures Rank(x, 40) + Val(Small(ByteCounts(NibbleCounts(PairCounts(x))), 40, 127)) == Rank(x, 48)
    ensures Rank(x, 48) + Val(Small(ByteCounts(NibbleCounts(PairCounts(x))), 48, 127)) == Rank(x, 56)
    ensures Rank(x, 56) + Val(Small(ByteCounts(NibbleCounts(PairCounts(x))), 56, 127)) == Rank(x, 64)
  {
    SlotOfValue(0);
    SlotOfValue(8);
    SlotOfValue(16);
    SlotOfValue(24);
    SlotOfValue(32);
    SlotOfValue(40);
    SlotOfValue(48);
    SlotOfValue(56);
    ByteLane(x, 0, 0);
    ByteLane(x, 8, 8);
    ByteLane(x, 16, 16);
    ByteLane(x, 24, 24);
    ByteLane(x, 32, 32);
    ByteLane(x, 40, 40);
    ByteLane(x, 48, 48);
    ByteLane(x, 56, 56);
  }

  /** The eight byte fields of a word, read as counts and added up. */
  function LaneSum(z: bv64): nat
  {
    Val(Small(z, 0, 127)) + Val(Small(z, 8, 127)) + Val(Small(z, 16, 127)) + Val(Small(z, 24, 127))
    + Val(Small(z, 32, 127)) + Val(Small(z, 40, 127)) + Val(Small(z, 48, 127)) + Val(Small(z, 56, 127))
  }

  /** The byte counts of the third step add up to the number of set bits of x. */
  lemma LanesSumToPopcount(x: bv64)
    ensures LaneSum(ByteCounts(NibbleCounts(PairCounts(x)))) == Popcount(x)
  {
    ByteLanes(x);
  }

  /**
   * get_children_position's default build up to the multiply: for the mask
   * shifted left by 64 - position, the byte counts of the third step add
   * up to the number of occupied slots below position.
   */
  lemma ShiftedLanesCountRank(mask: bv64, position: bv6)
    requires position != 0
    ensures LaneSum(ByteCounts(NibbleCounts(PairCounts(ShiftLeft(mask, 0 - position))))) == Rank(mask, position as nat)
  {
    var s := 0 - position;
    Complement(position, s);
    SlotOfValue(s);
    ShiftedRank(mask, s, s as nat);
    LanesSumToPopcount(ShiftLeft(mask, s));
  }
}
