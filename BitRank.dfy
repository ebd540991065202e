/**
 * The 64-bit occupancy mask of a tree node and the rank of a slot in it.
 *
 * A node keeps one entry per set bit of its mask, in ascending slot order,
 * so the entry of slot p sits at index Rank(mask, p): the number of set
 * bits below p.
 *
 * Slots are `bv6` values: the type itself says "below 64", which is what
 * the source asserts of every position.  Bit(x, i) is bit i of x counted
 * from the least significant end (std::bitset::test), Rank adds the bits
 * up from slot 0 and Popcount is std::bitset::count.  IsSlot(a, i) says
 * that the 6-bit value a stands for the natural number i; it lets the
 * proofs move between word operations on slots and counting on naturals
 * without converting bit-vectors to integers.
 *
 * Every word operation the source applies is wrapped in a function
 * (SetBit, ResetBit, ShiftLeft, Half, ClearLowest) and the facts about it
 * are proved on the wrapper's body in a lemma of their own; the counting
 * lemmas only see the wrappers.
 */
module BitRank {

  /** Bit a of x, for a 6-bit slot a. */
  predicate SlotBit(x: bv64, a: bv6)
  {
    (x >> a) & 1 == 1
  }

  /** Bit i of x; there is no bit at 64 or above. */
  predicate Bit(x: bv64, i: nat)
  {
    if i == 0 then x & 1 == 1 else i < 64 && Bit(x >> 1, i - 1)
  }

  /** The number of set bits of x at the indices below n. */
  function Rank(x: bv64, n: nat): nat
  {
    if n == 0 then 0 else Rank(x, n - 1) + (if Bit(x, n - 1) then 1 else 0)
  }

  /** The number of set bits of x (std::bitset::count). */
  function Popcount(x: bv64): nat
  {
    Rank(x, 64)
  }

  /** std::bitset::set(p). */
  function SetBit(m: bv64, p: bv6): bv64
  {
    m | (1 << p)
  }

  /** std::bitset::reset(p). */
  function ResetBit(m: bv64, p: bv6): bv64
  {
    m & !(1 << p)
  }

  /** The 6-bit value a stands for the natural number i. */
  predicate IsSlot(a: bv6, i: nat)
  {
    if i == 0 then a == 0 else i < 64 && a != 0 && IsSlot(a - 1, i - 1)
  }

  // ---------------------------------------------------------------------
  // Slots and the naturals they stand for.

  lemma SlotPred(a: bv6)
    requires a != 0
    ensures (a - 1) as nat == a as nat - 1
  {
  }

  lemma {:induction false} SlotOfValue(a: bv6)
    ensures IsSlot(a, a as nat)
    decreases a
  {
    if a != 0 {
      SlotPred(a);
      SlotOfValue(a - 1);
    }
  }

  lemma {:induction false} SlotsEqual(a: bv6, i: nat, c: bv6, j: nat)
    requires IsSlot(a, i) && IsSlot(c, j)
    ensures (a == c) == (i == j)
    decreases i
  {
    if i > 0 && j > 0 {
      SlotsEqual(a - 1, i - 1, c - 1, j - 1);
    }
  }

  lemma {:induction false} SlotsLess(a: bv6, i: nat, c: bv6, j: nat)
    requires IsSlot(a, i) && IsSlot(c, j)
    ensures (a < c) == (i < j)
    decreases i
  {
    if i > 0 && j > 0 {
      SlotsLess(a - 1, i - 1, c - 1, j - 1);
    }
  }

  /** Every natural below 64 has a slot. */
  lemma {:induction false} SlotFor(i: nat) returns (a: bv6)
    requires i < 64
    ensures IsSlot(a, i)
  {
    if i == 0 {
      a := 0;
    } else {
      var b := SlotFor(i - 1);
      SlotOfValue(63);
      SlotsEqual(b, i - 1, 63, 63);
      a := b + 1;
      assert a != 0 && a - 1 == b;
    }
  }

  lemma {:induction false} SlotsDiff(v: bv6, s: bv6, t: nat, j: nat, d: bv6)
    requires IsSlot(v, t + j) && IsSlot(s, t) && d == v - s
    ensures IsSlot(d, j)
    decreases t
  {
    if t > 0 {
      var u := v - 1;
      var r := s - 1;
      assert d == u - r;
      SlotsDiff(u, r, t - 1, j, d);
    }
  }

  /** The slot after a, when a is not the last one. */
  lemma SlotSucc(a: bv6, i: nat)
    requires IsSlot(a, i) && a != 63
    ensures IsSlot(a + 1, i + 1)
  {
    SlotOfValue(63);
    SlotsEqual(a, i, 63, 63);
    SlotsLess(a, i, 63, 63);
    assert a + 1 != 0 && (a + 1) - 1 == a;
  }

  // ---------------------------------------------------------------------
  // Bits of words, one operation at a time.

  lemma SlotBitOfHalf(x: bv64, a: bv6)
    ensures a != 0 ==> SlotBit(x, a) == SlotBit(x >> 1, a - 1)
  {
  }

  /** Bit and SlotBit agree on a slot. */
  lemma {:induction false} BitAt(x: bv64, a: bv6, i: nat)
    requires IsSlot(a, i)
    ensures Bit(x, i) == SlotBit(x, a)
    decreases i
  {
    if i > 0 {
      BitAt(x >> 1, a - 1, i - 1);
      SlotBitOfHalf(x, a);
    }
  }

  lemma {:induction false} BitOfZero(i: nat)
    ensures !Bit(0, i)
  {
    if i > 0 {
      BitOfZero(i - 1);
    }
  }

  lemma SetSlotBitRaw(m: bv64, p: bv6, c: bv6)
    ensures SlotBit(m | (1 << p), c) == (SlotBit(m, c) || c == p)
  {
  }

  lemma SetSlotBit(m: bv64, p: bv6, c: bv6)
    ensures SlotBit(SetBit(m, p), c) == (SlotBit(m, c) || c == p)
  {
    SetSlotBitRaw(m, p, c);
  }

  lemma ResetAsXor(m: bv64, p: bv6)
    ensures ResetBit(m, p) == (m | (1 << p)) ^ (1 << p)
  {
  }

  lemma XorSlotBit(m: bv64, p: bv6, c: bv6)
    ensures SlotBit((m | (1 << p)) ^ (1 << p), c) == (SlotBit(m, c) && c != p)
  {
  }

  lemma ResetSlotBit(m: bv64, p: bv6, c: bv6)
    ensures SlotBit(ResetBit(m, p), c) == (SlotBit(m, c) && c != p)
  {
    ResetAsXor(m, p);
    XorSlotBit(m, p, c);
  }

  /** set(p) turns bit p on and leaves every other bit as it was. */
  lemma BitOfSet(m: bv64, p: bv6, i: nat)
    ensures Bit(SetBit(m, p), i) == (Bit(m, i) || i == p as nat)
  {
    SlotOfValue(p);
    if i < 64 {
      var c := SlotFor(i);
      SlotsEqual(c, i, p, p as nat);
      BitAt(SetBit(m, p), c, i);
      BitAt(m, c, i);
      SetSlotBit(m, p, c);
    }
  }

  /** reset(p) turns bit p off and leaves every other bit as it was. */
  lemma BitOfReset(m: bv64, p: bv6, i: nat)
    ensures Bit(ResetBit(m, p), i) == (Bit(m, i) && i != p as nat)
  {
    if i < 64 {
      var c := SlotFor(i);
      SlotOfValue(p);
      SlotsEqual(c, i, p, p as nat);
      BitAt(ResetBit(m, p), c, i);
      BitAt(m, c, i);
      ResetSlotBit(m, p, c);
    }
  }

  /** Setting a clear bit and resetting it again gives the mask back. */
  lemma ResetOfSet(m: bv64, p: bv6)
    requires !SlotBit(m, p)
    ensures ResetBit(SetBit(m, p), p) == m
  {
  }

  function ShiftLeft(m: bv64, s: bv6): bv64
  {
    m << s
  }

  lemma ShiftedLowSlot(m: bv64, s: bv6, c: bv6)
    ensures c < s ==> !SlotBit(ShiftLeft(m, s), c)
  {
  }

  lemma ShiftedHighRaw(m: bv64, s: bv6, v: bv6)
    ensures s <= v ==> (((m << s) >> v) & 1 == 1) == ((m >> (v - s)) & 1 == 1)
  {
  }

  lemma ShiftedHighSlot(m: bv64, s: bv6, v: bv6)
    ensures s <= v ==> SlotBit(ShiftLeft(m, s), v) == SlotBit(m, v - s)
  {
    ShiftedHighRaw(m, s, v);
  }

  /** Shifting left by s clears the s lowest bits ... */
  lemma BitOfShiftedLow(m: bv64, s: bv6, t: nat, i: nat)
    requires IsSlot(s, t) && i < t
    ensures !Bit(ShiftLeft(m, s), i)
  {
    var c := SlotFor(i);
    SlotsLess(c, i, s, t);
    BitAt(ShiftLeft(m, s), c, i);
    ShiftedLowSlot(m, s, c);
  }

  /** ... and moves bit j to bit s + j. */
  lemma BitOfShiftedHigh(m: bv64, s: bv6, t: nat, j: nat)
    requires IsSlot(s, t) && t + j < 64
    ensures Bit(ShiftLeft(m, s), t + j) == Bit(m, j)
  {
    var v := SlotFor(t + j);
    SlotsLess(v, t + j, s, t);
    SlotsDiff(v, s, t, j, v - s);
    ShiftedHighSlot(m, s, v);
    BitAt(m, v - s, j);
    BitAt(ShiftLeft(m, s), v, t + j);
  }

  predicate LowBit(x: bv64)
  {
    x & 1 == 1
  }

  function Half(x: bv64): bv64
  {
    x >> 1
  }

  /** x &= x - 1: Kernighan's step. */
  function ClearLowest(x: bv64): bv64
  {
    x & (x - 1)
  }

  lemma TopOfHalf(x: bv64)
    ensures !SlotBit(Half(x), 63)
  {
  }

  lemma ClearLowestOdd(x: bv64)
    ensures LowBit(x) ==> !LowBit(ClearLowest(x)) && Half(ClearLowest(x)) == Half(x)
  {
  }

  lemma ClearLowestEven(x: bv64)
    ensures !LowBit(x) ==> !LowBit(ClearLowest(x)) && Half(ClearLowest(x)) == ClearLowest(Half(x))
  {
  }

  lemma HalfOfEven(x: bv64)
    ensures x != 0 && !LowBit(x) ==> Half(x) != 0 && Half(x) < x
  {
  }

  // ---------------------------------------------------------------------
  // Counting.

  /** The rank never exceeds the number of indices counted. */
  lemma {:induction false} RankAtMost(x: bv64, n: nat)
    ensures Rank(x, n) <= n
  {
    if n > 0 {
      RankAtMost(x, n - 1);
    }
  }

  /** Counting further never counts fewer bits. */
  lemma {:induction false} RankMonotone(x: bv64, p: nat, q: nat)
    requires p <= q
    ensures Rank(x, p) <= Rank(x, q)
    decreases q
  {
    if p < q {
      RankMonotone(x, p, q - 1);
    }
  }

  /** A set bit at p is counted by every rank past p. */
  lemma RankPastSetBit(x: bv64, p: nat, q: nat)
    requires Bit(x, p) && p < q
    ensures Rank(x, p) < Rank(x, q)
  {
    RankMonotone(x, p + 1, q);
  }

  /** Bits at 64 and beyond are never set. */
  lemma {:induction false} NoBitBeyond(x: bv64, i: nat)
    requires i >= 64
    ensures !Bit(x, i)
  {
    if i > 64 {
      NoBitBeyond(x >> 1, i - 1);
    }
  }

  /** The rank of a set bit is an index into an array of Popcount entries. */
  lemma RankBelowPopcount(x: bv64, p: nat)
    requires Bit(x, p)
    ensures Rank(x, p) < Popcount(x)
  {
    if p >= 64 {
      NoBitBeyond(x, p);
    } else {
      RankPastSetBit(x, p, 64);
    }
  }

  /** Distinct set bits have distinct ranks, so no two slots share an entry. */
  lemma RankInjective(x: bv64, p: nat, q: nat)
    requires Bit(x, p) && Bit(x, q) && Rank(x, p) == Rank(x, q)
    ensures p == q
  {
    if p < q {
      RankPastSetBit(x, p, q);
    } else if q < p {
      RankPastSetBit(x, q, p);
    }
  }

  /** The set of set bits below n: an independent reading of Rank. */
  function SetBitsBelow(x: bv64, n: nat): set<nat>
  {
    set i: nat | i < n && Bit(x, i)
  }

  /** Rank(x, n) is exactly the number of set bits below n. */
  lemma {:induction false} RankIsCardinality(x: bv64, n: nat)
    ensures Rank(x, n) == |SetBitsBelow(x, n)|
  {
    if n > 0 {
      RankIsCardinality(x, n - 1);
      if Bit(x, n - 1) {
        assert SetBitsBelow(x, n) == SetBitsBelow(x, n - 1) + {n - 1};
      } else {
        assert SetBitsBelow(x, n) == SetBitsBelow(x, n - 1);
      }
    } else {
      assert SetBitsBelow(x, 0) == {};
    }
  }

  lemma {:induction false} RankOfNoBits(a: bv64, n: nat)
    requires forall i :: 0 <= i < n ==> !Bit(a, i)
    ensures Rank(a, n) == 0
  {
    if n > 0 {
      RankOfNoBits(a, n - 1);
    }
  }

  lemma PopcountOfZero()
    ensures Popcount(0) == 0
  {
    forall i: nat
      ensures !Bit(0, i)
    {
      BitOfZero(i);
    }
    RankOfNoBits(0, 64);
  }

  lemma {:induction false} RankOfOneMore(a: bv64, b: bv64, p: nat, n: nat)
    requires Bit(a, p) && !Bit(b, p)
    requires forall i :: i != p ==> Bit(a, i) == Bit(b, i)
    ensures Rank(a, n) == Rank(b, n) + (if n > p then 1 else 0)
  {
    if n > 0 {
      RankOfOneMore(a, b, p, n - 1);
    }
  }

  /** Setting a clear bit p adds one to the rank of every slot above p. */
  lemma RankAfterSet(m: bv64, p: bv6, q: nat)
    requires !Bit(m, p as nat)
    ensures Rank(SetBit(m, p), q) == Rank(m, q) + (if q > p as nat then 1 else 0)
  {
    forall i: nat
      ensures Bit(SetBit(m, p), i) == (Bit(m, i) || i == p as nat)
    {
      BitOfSet(m, p, i);
    }
    RankOfOneMore(SetBit(m, p), m, p as nat, q);
  }

  /** Resetting a set bit p takes one from the rank of every slot above p. */
  lemma RankAfterReset(m: bv64, p: bv6, q: nat)
    requires Bit(m, p as nat)
    ensures Rank(ResetBit(m, p), q) + (if q > p as nat then 1 else 0) == Rank(m, q)
  {
    forall i: nat
      ensures Bit(ResetBit(m, p), i) == (Bit(m, i) && i != p as nat)
    {
      BitOfReset(m, p, i);
    }
    RankOfOneMore(m, ResetBit(m, p), p as nat, q);
  }

  lemma {:induction false} RankLowFirst(x: bv64, n: nat)
    requires 0 < n <= 64
    ensures Rank(x, n) == (if LowBit(x) then 1 else 0) + Rank(Half(x), n - 1)
  {
    if n > 1 {
      RankLowFirst(x, n - 1);
      assert Bit(x, n - 1) == Bit(Half(x), n - 2);
    }
  }

  lemma PopcountLowFirst(x: bv64)
    ensures Popcount(x) == (if LowBit(x) then 1 else 0) + Popcount(Half(x))
  {
    RankLowFirst(x, 64);
    SlotOfValue(63);
    BitAt(Half(x), 63, 63);
    TopOfHalf(x);
  }

  /** Kernighan's step x & (x - 1) clears exactly one set bit. */
  lemma {:induction false} ClearLowestSetBit(x: bv64)
    requires x != 0
    ensures Popcount(ClearLowest(x)) + 1 == Popcount(x)
    decreases x
  {
    PopcountLowFirst(x);
    PopcountLowFirst(ClearLowest(x));
    if LowBit(x) {
      ClearLowestOdd(x);
    } else {
      HalfOfEven(x);
      ClearLowestSetBit(Half(x));
      ClearLowestEven(x);
    }
  }

  /** A mask has no set bit exactly when it is the zero word (std::bitset::none). */
  lemma NoneIsZero(x: bv64)
    ensures Popcount(x) == 0 <==> x == 0
  {
    PopcountOfZero();
    if x != 0 {
      ClearLowestSetBit(x);
    }
  }

  /** A mask with a clear bit has at most 63 set bits, so an insert fits in 64. */
  lemma PopcountWithClearBit(m: bv64, p: bv6)
    requires !Bit(m, p as nat)
    ensures Popcount(m) < 64 && Popcount(SetBit(m, p)) == Popcount(m) + 1
  {
    RankAfterSet(m, p, 64);
    RankAtMost(SetBit(m, p), 64);
  }

  lemma {:induction false} RankOfShifted(y: bv64, b: bv64, s: nat, k: nat)
    requires forall j :: 0 <= j < k ==> Bit(y, s + j) == Bit(b, j)
    ensures Rank(y, s + k) == Rank(y, s) + Rank(b, k)
  {
    if k > 0 {
      RankOfShifted(y, b, s, k - 1);
      assert Bit(y, s + (k - 1)) == Bit(b, k - 1);
    }
  }

  /** Shifting left by s keeps the 64 - s lowest bits, so it counts them. */
  lemma ShiftedRank(m: bv64, s: bv6, t: nat)
    requires IsSlot(s, t)
    ensures Popcount(ShiftLeft(m, s)) == Rank(m, 64 - t)
  {
    var x := ShiftLeft(m, s);
    forall i | 0 <= i < t
      ensures !Bit(x, i)
    {
      BitOfShiftedLow(m, s, t, i);
    }
    RankOfNoBits(x, t);
    forall j | 0 <= j < 64 - t
      ensures Bit(x, t + j) == Bit(m, j)
    {
      BitOfShiftedHigh(m, s, t, j);
    }
    RankOfShifted(x, m, t, 64 - t);
  }

  /** In 6-bit arithmetic 0 - p is 64 - p, the source's shift amount. */
  lemma Complement(p: bv6, s: bv6)
    requires p != 0 && s == 0 - p
    ensures s as nat == 64 - p as nat
  {
  }
}
