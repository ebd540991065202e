/**
 * hckt_tree (hckt_tree.hpp): the earlier 64-slot node.
 *
 * The values live in a dense array of 64 elements indexed by slot; only
 * the children are compacted, one per set bit of the mask, in ascending
 * slot order.  The rank of a slot is counted with a plain loop over the
 * bits below it.  The object invariant ties the number of children to the
 * number of set bits and gives every node exclusive ownership of its
 * value array and of its children.
 */
module HcktTree {
  import opened BitRank
  import opened Ranked

  /**
   * get_position(l1, l2, l3): the slot of a three-level path with the
   * first level in the two most significant bits.  Only the low two bits
   * of each argument are used.
   */
  function GetPosition(l1: bv64, l2: bv64, l3: bv64): (p: bv64)
    ensures p < 64
  {
    ((1 << 5) * ((l1 & 2) >> 1))
    + ((1 << 4) * (l1 & 1))
    + ((1 << 3) * ((l2 & 2) >> 1))
    + ((1 << 2) * (l2 & 1))
    + ((1 << 1) * ((l3 & 2) >> 1))
    + ((1 << 0) * (l3 & 1))
  }

  /** The slot is the three base-4 digits l1 l2 l3, most significant first. */
  lemma PositionDigits(l1: bv64, l2: bv64, l3: bv64)
    ensures GetPosition(l1, l2, l3) == (l1 & 3) * 16 + (l2 & 3) * 4 + (l3 & 3)
    ensures GetPosition(l1, l2, l3) >> 4 == l1 & 3
    ensures (GetPosition(l1, l2, l3) >> 2) & 3 == l2 & 3
    ensures GetPosition(l1, l2, l3) & 3 == l3 & 3
  {
  }

  /** Every slot is the position of its own digits. */
  lemma PositionOfDigits(p: bv64)
    requires p < 64
    ensures GetPosition(p >> 4, p >> 2, p) == p
  {
  }

  /** The children's footprints are pairwise disjoint. */
  ghost predicate Apart<V(0)>(kids: seq<HcktTree<V>>)
    reads kids
  {
    forall i, j :: 0 <= i < j < |kids| ==> kids[i].Repr !! kids[j].Repr
  }

  lemma ApartAfterInsert<V(0)>(kids: seq<HcktTree<V>>, i: nat, child: HcktTree<V>)
    requires i <= |kids| && Apart(kids)
    requires forall c :: c in kids ==> c.Repr !! child.Repr
    ensures Apart(InsertAt(kids, i, child))
    ensures forall c :: c in InsertAt(kids, i, child) ==> c == child || c in kids
  {
    var s := InsertAt(kids, i, child);
    forall a, b | 0 <= a < b < |s|
      ensures s[a].Repr !! s[b].Repr
    {
      if a != i && b != i {
        var a' := if a < i then a else a - 1;
        var b' := if b < i then b else b - 1;
        assert s[a] == kids[a'] && s[b] == kids[b'] && a' < b';
      } else if a == i {
        assert s[b] == kids[b - 1];
      } else {
        assert s[a] == kids[a];
      }
    }
    InsertAtMembers(kids, i, child);
  }

  class HcktTree<V(0)> {
    var values: array<V>
    var mask: bv64
    var children: seq<HcktTree<V>>
    ghost var Repr: set<object>

    /** The node owns its value array and its children, one child per set bit. */
    ghost predicate Valid()
      reads this, Repr
      decreases Repr, 1
    {
      Owns() && values.Length == 64 && |children| == Popcount(mask)
    }

    /** The ownership half of the invariant: every child is valid and owns a footprint of its own. */
    ghost predicate Owns()
      reads this, Repr
      decreases Repr, 0
    {
      this in Repr && values in Repr &&
      (forall c :: c in children ==>
         c in Repr && c.Repr <= Repr && this !in c.Repr && values !in c.Repr && c in c.Repr && c.Valid()) &&
      Apart(children)
    }

    /** hckt_tree(): no slot in use and no children; the values are default-initialised. */
    constructor ()
      ensures Valid() && fresh(Repr)
      ensures mask == 0 && children == [] && values.Length == 64 && Empty()
    {
      values := new V[64];
      mask := 0;
      children := [];
      new;
      PopcountOfZero();
      Repr := {this, values};
    }

    /** get_children_position: the occupied slots below position, counted one by one. */
    method ChildrenPosition(position: bv6) returns (c: nat)
      ensures c == Rank(mask, position as nat)
    {
      c := 0;
      var i: nat := 0;
      while i < position as nat
        invariant i <= position as nat && c == Rank(mask, i)
      {
        if Bit(mask, i) {
          c := c + 1;
        }
        i := i + 1;
      }
    }

    /** empty(): no slot is in use. */
    function Empty(): (e: bool)
      reads this, Repr
      requires Valid()
      ensures e <==> |children| == 0
    {
      NoneIsZero(mask);
      mask == 0
    }

    /**
     * collapse(): collapse every child, then forget the children and clear
     * the mask.  The children are not deleted and the value array is left
     * as it is.
     */
    method Collapse()
      requires Valid()
      modifies Repr
      ensures Valid() && Repr == {this, values} && Empty()
      ensures mask == 0 && children == []
      ensures values == old(values) && values[..] == old(values[..])
      decreases Repr, 1
    {
      CollapseChildren();
      Forget();
      PopcountOfZero();
    }

    /** The loop of collapse() over the children. */
    method CollapseChildren()
      requires Valid()
      modifies Repr
      ensures unchanged(this) && values[..] == old(values[..]) && values.Length == 64
      ensures forall c :: c in children ==> c.Valid() && c.Empty() && c.mask == 0
      decreases Repr, 0
    {
      var i := 0;
      while i < |children|
        invariant i <= |children|
        invariant unchanged(this) && values[..] == old(values[..])
        invariant forall j :: i <= j < |children| ==>
          children[j].Valid() && children[j].Repr == old(children[j].Repr) &&
          children[j].Repr <= Repr && this !in children[j].Repr && values !in children[j].Repr
        invariant forall j, k :: i <= j < k < |children| ==> children[j].Repr !! children[k].Repr
        invariant forall j :: 0 <= j < i ==>
          children[j].Valid() && children[j].Empty() && children[j].mask == 0 && children[j].Repr <= old(children[j].Repr)
      {
        children[i].Collapse();
        i := i + 1;
      }
    }

    /** children.clear() and bitset.reset(). */
    method Forget()
      requires this in Repr && values in Repr
      modifies this
      ensures Owns() && Repr == {this, values}
      ensures mask == 0 && children == [] && values == old(values)
    {
      children := [];
      mask := 0;
      Repr := {this, values};
    }

    /**
     * insert(position, value) on a free slot: a new child at the rank of
     * the slot, the slot's bit set and its value stored.
     */
    method Insert(position: bv6, value: V)
      requires Valid() && !Bit(mask, position as nat)
      modifies this, values
      ensures Valid() && fresh(Repr - old(Repr)) && values == old(values)
      ensures mask == SetBit(old(mask), position)
      ensures values[..] == old(values[..])[position as nat := value]
      ensures Rank(old(mask), position as nat) < |children| && |children| == |old(children)| + 1
      ensures children == InsertAt(old(children), Rank(old(mask), position as nat), children[Rank(old(mask), position as nat)])
      ensures fresh(children[Rank(old(mask), position as nat)]) && children[Rank(old(mask), position as nat)].Valid()
      ensures children[Rank(old(mask), position as nat)].Empty()
    {
      var cpos := ChildrenPosition(position);
      RankMonotone(mask, position as nat, 64);
      PopcountWithClearBit(mask, position);
      Attach(cpos, SetBit(mask, position), position, value);
    }

    /**
     * The heap half of insert: the emplace of a new child at index cpos,
     * the new mask and the store of the value.
     */
    method Attach(cpos: nat, newMask: bv64, position: bv6, value: V)
      requires Owns() && values.Length == 64 && cpos <= |children|
      modifies this, values
      ensures Owns() && fresh(Repr - old(Repr)) && mask == newMask && values == old(values)
      ensures values[..] == old(values[..])[position as nat := value]
      ensures |children| == |old(children)| + 1 && children == InsertAt(old(children), cpos, children[cpos])
      ensures fresh(children[cpos]) && children[cpos].Valid() && children[cpos].mask == 0
    {
      var child := new HcktTree<V>();
      Adopt(cpos, newMask, child);
      values[position] := value;
    }

    /** The new child joins the children at index cpos and the footprint. */
    method Adopt(cpos: nat, newMask: bv64, child: HcktTree<V>)
      requires Owns() && cpos <= |children|
      requires child.Valid() && child in child.Repr && child.Repr !! Repr
      modifies this
      ensures Owns() && Repr == old(Repr) + child.Repr && mask == newMask && values == old(values)
      ensures children == InsertAt(old(children), cpos, child)
    {
      ApartAfterInsert(children, cpos, child);
      children := InsertAt(children, cpos, child);
      mask := newMask;
      Repr := Repr + child.Repr;
    }

    /** leaf(position): the child at the rank of the slot. */
    method Leaf(position: bv6) returns (c: HcktTree<V>)
      requires Rank(mask, position as nat) < |children|
      ensures c == children[Rank(mask, position as nat)]
      ensures |children| == Popcount(mask) && Bit(mask, position as nat) ==> c == Entry(mask, children, position as nat)
    {
      var cpos := ChildrenPosition(position);
      c := children[cpos];
    }

    /** set_value(position, value): the dense array is written whether or not the slot is in use. */
    method SetValue(position: bv6, value: V)
      requires Valid()
      modifies values
      ensures Valid() && values[..] == old(values[..])[position as nat := value]
    {
      values[position] := value;
    }

    /** get_value(position). */
    method GetValue(position: bv6) returns (v: V)
      requires values.Length == 64
      ensures v == values[position]
    {
      v := values[position];
    }
  }
}
