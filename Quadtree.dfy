/**
 * Quadtree<DepthStep, ValueType> (quadtree.hpp): the first version of the
 * node, generic in the number of quad levels a node covers.
 *
 * A node has 1 << (DepthStep * 2) slots.  The values live in a dense array
 * indexed by slot, the occupancy is a std::bitset of the same size (here a
 * sequence of booleans) and the children are compacted, one per set bit in
 * ascending slot order.  Count(bits, p) is the number of set bits below p,
 * the index of slot p's child.
 *
 * The template parameter DepthStep is the constant field depthStep; every
 * child of a node has the node's own depthStep.
 */
module Quadtree {
  import opened Ranked

  /** 2^k. */
  function Pow2(k: nat): (r: nat)
    ensures r >= 1
  {
    if k == 0 then 1 else 2 * Pow2(k - 1)
  }

  /** 1 << (DepthStep * 2): the slot count of a node. */
  function SlotCount(depthStep: nat): (n: nat)
    ensures n >= 1
  {
    Pow2(depthStep * 2)
  }

  /** 2^(a + b) == 2^a * 2^b. */
  lemma {:induction false} Pow2Add(a: nat, b: nat)
    ensures Pow2(a + b) == Pow2(a) * Pow2(b)
    decreases a
  {
    if a != 0 {
      Pow2Add(a - 1, b);
      var x, y := Pow2(a - 1), Pow2(b);
      assert Pow2(a + b) == 2 * (x * y);
      assert 2 * (x * y) == (2 * x) * y;
    }
  }

  /** Every further depth step quadruples the slot count. */
  lemma SlotCountStep(depthStep: nat)
    ensures SlotCount(depthStep + 1) == 4 * SlotCount(depthStep)
  {
    Pow2Add(2, depthStep * 2);
  }

  /** Quadtree<3, int> of main.cpp has 64 slots. */
  lemma SlotCountOfThree()
    ensures SlotCount(3) == 64
  {
    assert Pow2(6) == 2 * Pow2(5);
  }

  // ---- the count of set bits ----

  /** The number of set bits of bits below n. */
  function Count(bits: seq<bool>, n: nat): (c: nat)
    requires n <= |bits|
    ensures c <= n
  {
    if n == 0 then 0 else Count(bits, n - 1) + (if bits[n - 1] then 1 else 0)
  }

  /** No bit is set below n exactly when the count below n is 0. */
  lemma {:induction false} CountZero(bits: seq<bool>, n: nat)
    requires n <= |bits|
    ensures Count(bits, n) == 0 <==> forall i :: 0 <= i < n ==> !bits[i]
  {
    if n > 0 {
      CountZero(bits, n - 1);
    }
  }

  lemma {:induction false} CountMonotone(bits: seq<bool>, p: nat, q: nat)
    requires p <= q <= |bits|
    ensures Count(bits, p) <= Count(bits, q)
    decreases q
  {
    if p < q {
      CountMonotone(bits, p, q - 1);
    }
  }

  /** A set bit at p puts every later slot's count above p's. */
  lemma CountPastSetBit(bits: seq<bool>, p: nat, q: nat)
    requires p < q <= |bits| && bits[p]
    ensures Count(bits, p) < Count(bits, q)
  {
    CountMonotone(bits, p + 1, q);
  }

  /**
   * Setting a clear bit at p adds one to the count of every slot above p
   * and leaves the others alone.
   */
  lemma {:induction false} CountAfterSet(bits: seq<bool>, p: nat, q: nat)
    requires p < |bits| && !bits[p] && q <= |bits|
    ensures Count(bits[p := true], q) == Count(bits, q) + (if q > p then 1 else 0)
    decreases q
  {
    if q > 0 {
      CountAfterSet(bits, p, q - 1);
    }
  }

  /** The entry of occupied slot q in a sequence compacted along bits. */
  function Child<T>(bits: seq<bool>, s: seq<T>, q: nat): T
    requires |s| == Count(bits, |bits|) && q < |bits| && bits[q]
  {
    CountPastSetBit(bits, q, |bits|);
    s[Count(bits, q)]
  }

  /**
   * insert(p, x) on a free slot: the children stay aligned with the new
   * bits, p holds x and every other occupied slot keeps its child.
   */
  lemma ChildAfterInsert<T>(bits: seq<bool>, s: seq<T>, p: nat, x: T, q: nat)
    requires |s| == Count(bits, |bits|) && p < |bits| && !bits[p]
    requires q < |bits| && bits[p := true][q]
    ensures Count(bits, p) <= |s|
    ensures |InsertAt(s, Count(bits, p), x)| == Count(bits[p := true], |bits|)
    ensures Child(bits[p := true], InsertAt(s, Count(bits, p), x), q) == if q == p then x else Child(bits, s, q)
  {
    CountMonotone(bits, p, |bits|);
    CountAfterSet(bits, p, |bits|);
    CountAfterSet(bits, p, q);
    if q < p {
      CountPastSetBit(bits, q, p);
    } else if q > p {
      CountMonotone(bits, p + 1, q);
      CountPastSetBit(bits, q, |bits|);
    }
  }

  // ---- get_position ----

  /**
   * get_position(l1, l2, l3) as written.  In C++ `l2 & 1 * 2` and
   * `l3 & 1 * 4` parse as `l2 & (1 * 2)` and `l3 & (1 * 4)` (Dafny binds
   * `&` tighter, hence the parentheses), and every shifted term is a power
   * of two, so a zero bit adds 1 instead of 0.
   */
  function GetPosition(l1: bv64, l2: bv64, l3: bv64): (p: bv64)
  {
    l1
    + (1 << (l2 & (1 * 2)))
    + (1 << (((l2 & 2) >> 1) * 3))
    + (1 << (l3 & (1 * 4)))
    + (1 << (((l3 & 2) >> 1) * 5))
  }

  /** For quad digits the result lies in [4, 49): slots 0 to 3 are never produced. */
  lemma PositionRange(l1: bv64, l2: bv64, l3: bv64)
    requires l1 < 4 && l2 < 4 && l3 < 4
    ensures 4 <= GetPosition(l1, l2, l3) < 49
  {
  }

  /**
   * Bit 0 of l2 and of l3 is ignored: the as-written position cannot tell
   * l2 from l2 ^ 1, nor l3 from l3 ^ 1.
   */
  lemma PositionIgnoresLowBit(l1: bv64, l2: bv64, l3: bv64)
    ensures GetPosition(l1, l2, l3) == GetPosition(l1, l2 ^ 1, l3)
    ensures GetPosition(l1, l2, l3) == GetPosition(l1, l2, l3 ^ 1)
  {
  }

  /** Two different quad paths that share slot 4. */
  lemma PositionCollision()
    ensures GetPosition(0, 0, 0) == 4 && GetPosition(0, 1, 0) == 4
  {
  }

  /**
   * The position the formula evidently means: l1 in bits 0-1, l2 in bits
   * 2-3 and l3 in bits 4-5, one shifted bit per term.
   */
  function IntendedPosition(l1: bv64, l2: bv64, l3: bv64): (p: bv64)
    requires l1 < 4 && l2 < 4 && l3 < 4
    ensures p < 64
  {
    l1
    + ((l2 & 1) << 2)
    + (((l2 & 2) >> 1) << 3)
    + ((l3 & 1) << 4)
    + (((l3 & 2) >> 1) << 5)
  }

  /** The intended position reads back as its digits, so distinct paths have distinct slots. */
  lemma IntendedDigits(l1: bv64, l2: bv64, l3: bv64)
    requires l1 < 4 && l2 < 4 && l3 < 4
    ensures IntendedPosition(l1, l2, l3) & 3 == l1
    ensures (IntendedPosition(l1, l2, l3) >> 2) & 3 == l2
    ensures IntendedPosition(l1, l2, l3) >> 4 == l3
  {
  }

  /** Every slot below 64 is the intended position of its digits. */
  lemma IntendedOnto(p: bv64)
    requires p < 64
    ensures IntendedPosition(p & 3, (p >> 2) & 3, p >> 4) == p
  {
  }

  /** The children's footprints are pairwise disjoint. */
  ghost predicate Apart<V(0)>(kids: seq<Quadtree<V>>)
    reads kids
  {
    forall i, j :: 0 <= i < j < |kids| ==> kids[i].Repr !! kids[j].Repr
  }

  lemma ApartAfterInsert<V(0)>(kids: seq<Quadtree<V>>, i: nat, child: Quadtree<V>)
    requires i <= |kids| && Apart(kids)
    requires forall c :: c in kids ==> c.Repr !! child.Repr
    ensures Apart(InsertAt(kids, i, child))
    ensures forall c :: c in InsertAt(kids, i, child) ==> c == child || c in kids
  {
    var s := InsertAt(kids, i, child);
    forall a, b | 0 <= a < b < |s|
      ensures s[a].Repr !! s[b].Repr
    {
      if a != i && b != i {
        var a' := if a < i then a else a - 1;
        var b' := if b < i then b else b - 1;
        assert s[a] == kids[a'] && s[b] == kids[b'] && a' < b';
      } else if a == i {
        assert s[b] == kids[b - 1];
      } else {
        assert s[a] == kids[a];
      }
    }
    InsertAtMembers(kids, i, child);
  }

  class Quadtree<V(0)> {
    const depthStep: nat
    var values: array<V>
    var bits: seq<bool>
    var children: seq<Quadtree<V>>
    ghost var Repr: set<object>

    /**
     * The node owns its value array and its children, one child per set
     * bit; 1 << (DepthStep * 2) is an int shift, defined for DepthStep < 16.
     */
    ghost predicate Valid()
      reads this, Repr
      decreases Repr, 1
    {
      Owns() && depthStep < 16 && values.Length == |bits| == SlotCount(depthStep) &&
      |children| == Count(bits, |bits|)
    }

    /** The ownership half of the invariant: every child is a valid node of the same shape. */
    ghost predicate Owns()
      reads this, Repr
      decreases Repr, 0
    {
      this in Repr && values in Repr &&
      (forall c :: c in children ==>
         c in Repr && c.Repr <= Repr && this !in c.Repr && values !in c.Repr && c in c.Repr &&
         c.depthStep == depthStep && c.Valid()) &&
      Apart(children)
    }

    /** Quadtree(): no slot in use and no children; the values are default-initialised. */
    constructor (depthStep: nat)
      requires depthStep < 16
      ensures Valid() && fresh(Repr) && this.depthStep == depthStep
      ensures children == [] && |bits| == SlotCount(depthStep) && Empty()
      ensures forall i :: 0 <= i < |bits| ==> !bits[i]
    {
      this.depthStep := depthStep;
      values := new V[SlotCount(depthStep)];
      bits := seq(SlotCount(depthStep), _ => false);
      children := [];
      new;
      CountZero(bits, |bits|);
      Repr := {this, values};
    }

    /** get_children_position: the occupied slots below position, counted one by one. */
    method ChildrenPosition(position: nat) returns (c: nat)
      requires position <= |bits|
      ensures c == Count(bits, position)
    {
      c := 0;
      var i := 0;
      while i < position
        invariant i <= position && c == Count(bits, i)
      {
        if bits[i] {
          c := c + 1;
        }
        i := i + 1;
      }
    }

    /** empty(): bitset.none(). */
    function Empty(): (e: bool)
      reads this, Repr
      requires Valid()
      ensures e <==> forall i :: 0 <= i < |bits| ==> !bits[i]
      ensures e <==> |children| == 0
    {
      CountZero(bits, |bits|);
      true !in bits
    }

    /**
     * collapse(): collapse every child, then forget the children and clear
     * every bit.  The children are not deleted and the value array is left
     * as it is.
     */
    method Collapse()
      requires Valid()
      modifies Repr
      ensures Valid() && Repr == {this, values} && Empty()
      ensures children == [] && |bits| == old(|bits|) && forall i :: 0 <= i < |bits| ==> !bits[i]
      ensures values == old(values) && values[..] == old(values[..])
      decreases Repr, 1
    {
      CollapseChildren();
      Forget();
      CountZero(bits, |bits|);
    }

    /** The loop of collapse() over the children. */
    method CollapseChildren()
      requires Valid()
      modifies Repr
      ensures unchanged(this) && values[..] == old(values[..])
      ensures forall c :: c in children ==> c.Valid() && c.Empty() && c.children == [] && true !in c.bits
      decreases Repr, 0
    {
      var i := 0;
      while i < |children|
        invariant i <= |children|
        invariant unchanged(this) && values[..] == old(values[..])
        invariant forall j :: i <= j < |children| ==>
          children[j].Valid() && children[j].Repr == old(children[j].Repr) &&
          children[j].Repr <= Repr && this !in children[j].Repr && values !in children[j].Repr
        invariant forall j, k :: i <= j < k < |children| ==> children[j].Repr !! children[k].Repr
        invariant forall j :: 0 <= j < i ==>
          children[j].Valid() && children[j].Empty() && children[j].children == [] && true !in children[j].bits &&
          children[j].Repr <= old(children[j].Repr)
      {
        children[i].Collapse();
        i := i + 1;
      }
    }

    /** children.clear() and bitset.reset(). */
    method Forget()
      requires this in Repr && values in Repr
      modifies this
      ensures Owns() && Repr == {this, values}
      ensures children == [] && bits == seq(old(|bits|), _ => false) && values == old(values)
    {
      children := [];
      bits := seq(|bits|, _ => false);
      Repr := {this, values};
    }

    /**
     * insert(position, value) on a free slot: a new child at the count of
     * the slot, the slot's bit set and its value stored.
     */
    method Insert(position: nat, value: V)
      requires Valid() && position < |bits| && !bits[position]
      modifies this, values
      ensures Valid() && fresh(Repr - old(Repr)) && values == old(values)
      ensures bits == old(bits)[position := true]
      ensures values[..] == old(values[..])[position := value]
      ensures Count(old(bits), position) < |children| && |children| == |old(children)| + 1
      ensures children == InsertAt(old(children), Count(old(bits), position), children[Count(old(bits), position)])
      ensures fresh(children[Count(old(bits), position)]) && children[Count(old(bits), position)].Valid()
      ensures children[Count(old(bits), position)].Empty()
    {
      var cpos := ChildrenPosition(position);
      CountMonotone(bits, position, |bits|);
      CountAfterSet(bits, position, |bits|);
      Attach(cpos, position, value);
    }

    /** The heap half of insert: a new child at index cpos, the bit set and the value stored. */
    method Attach(cpos: nat, position: nat, value: V)
      requires Owns() && depthStep < 16 && cpos <= |children| && position < |bits| == values.Length
      modifies this, values
      ensures Owns() && fresh(Repr - old(Repr)) && values == old(values)
      ensures bits == old(bits)[position := true]
      ensures values[..] == old(values[..])[position := value]
      ensures |children| == |old(children)| + 1 && children == InsertAt(old(children), cpos, children[cpos])
      ensures fresh(children[cpos]) && children[cpos].Valid() && children[cpos].depthStep == depthStep
      ensures forall i :: 0 <= i < |children[cpos].bits| ==> !children[cpos].bits[i]
    {
      var child := new Quadtree<V>(depthStep);
      Adopt(cpos, position, child);
      values[position] := value;
    }

    /** The new child joins the children at index cpos and the footprint, and the bit is set. */
    method Adopt(cpos: nat, position: nat, child: Quadtree<V>)
      requires Owns() && cpos <= |children| && position < |bits|
      requires child.Valid() && child in child.Repr && child.Repr !! Repr && child.depthStep == depthStep
      modifies this
      ensures Owns() && Repr == old(Repr) + child.Repr && values == old(values)
      ensures bits == old(bits)[position := true]
      ensures children == InsertAt(old(children), cpos, child)
    {
      ApartAfterInsert(children, cpos, child);
      children := InsertAt(children, cpos, child);
      bits := bits[position := true];
      Repr := Repr + child.Repr;
    }

    /** leaf(position): the child at the count of the slot; nothing checks the slot is in use. */
    method Leaf(position: nat) returns (c: Quadtree<V>)
      requires position <= |bits| && Count(bits, position) < |children|
      ensures c == children[Count(bits, position)]
      ensures |children| == Count(bits, |bits|) && position < |bits| && bits[position] ==> c == Child(bits, children, position)
    {
      var cpos := ChildrenPosition(position);
      c := children[cpos];
    }

    /** set_value(position, value): the dense array is written whether or not the slot is in use. */
    method SetValue(position: nat, value: V)
      requires Valid() && position < values.Length
      modifies values
      ensures Valid() && values[..] == old(values[..])[position := value]
    {
      values[position] := value;
    }

    /** get_value(position). */
    method GetValue(position: nat) returns (v: V)
      requires position < values.Length
      ensures v == values[position]
    {
      v := values[position];
    }
  }

  /**
   * main.cpp: a Quadtree<3, int>, insert(0, 10), then insert(1, 15) into the
   * child of slot 0; the two get_value calls read 10 and 15.
   */
  method Scenario() returns (first: int, second: int)
    ensures first == 10 && second == 15
  {
    var m := new Quadtree<int>(3);
    SlotCountOfThree();
    m.Insert(0, 10);
    first := m.GetValue(0);
    var l := m.Leaf(0);
    l.Insert(1, 15);
    var l2 := m.Leaf(0);
    second := l2.GetValue(1);
  }
}
