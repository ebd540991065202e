/**
 * hckt::tree (include/tree.hpp): a node with 64 slots.
 *
 * The occupancy mask says which slots are in use.  The value and the child
 * node of every occupied slot are kept in two rank-compacted vectors: the
 * entry of slot p sits at index Rank(mask, p), the number of occupied
 * slots below p.  The object invariant ties both vectors' lengths to the
 * number of set bits and gives every node exclusive ownership of its
 * children (their footprints are disjoint from each other, from the
 * vectors and from the node).
 *
 * Kids is the children vector's contents with the pointers known to be
 * non-null.  The methods are proved against the compacted-sequence
 * functions of module Ranked.
 */
module Tree {
  import opened BitRank
  import opened LMemVector
  import opened Ranked

  /** The children's footprints are pairwise disjoint. */
  ghost predicate Apart<V(0)>(kids: seq<Tree<V>>)
    reads kids
  {
    forall i, j :: 0 <= i < j < |kids| ==> kids[i].Repr !! kids[j].Repr
  }

  lemma ApartAfterInsert<V(0)>(kids: seq<Tree<V>>, i: nat, child: Tree<V>)
    requires i <= |kids| && Apart(kids)
    requires forall c :: c in kids ==> c.Repr !! child.Repr
    ensures Apart(InsertAt(kids, i, child))
  {
    var s := InsertAt(kids, i, child);
    forall a, b | 0 <= a < b < |s|
      ensures s[a].Repr !! s[b].Repr
    {
      if a != i && b != i {
        var a' := if a < i then a else a - 1;
        var b' := if b < i then b else b - 1;
        assert s[a] == kids[a'] && s[b] == kids[b'] && a' < b';
      } else if a == i {
        assert s[b] == kids[b - 1];
      } else {
        assert s[a] == kids[a];
      }
    }
  }

  /**
   * Dropping the child at index i keeps the others apart, and each of them
   * apart from the one dropped.
   */
  lemma ApartAfterRemove<V(0)>(kids: seq<Tree<V>>, i: nat)
    requires i < |kids| && Apart(kids)
    ensures Apart(RemoveAt(kids, i))
    ensures forall c :: c in RemoveAt(kids, i) ==> c in kids && c.Repr !! kids[i].Repr
  {
    var s := RemoveAt(kids, i);
    forall a, b | 0 <= a < b < |s|
      ensures s[a].Repr !! s[b].Repr
    {
      var a' := if a < i then a else a + 1;
      var b' := if b < i then b else b + 1;
      assert s[a] == kids[a'] && s[b] == kids[b'] && a' < b';
    }
    forall c | c in s
      ensures c in kids && c.Repr !! kids[i].Repr
    {
      var k :| 0 <= k < |s| && s[k] == c;
      if k < i {
        assert c == kids[k];
      } else {
        assert c == kids[k + 1];
      }
    }
  }

  class Tree<V(0)> {
    var mask: bv64
    var values: LMemVector<V>
    var children: LMemVector<Tree?<V>>
    ghost var Kids: seq<Tree<V>>
    ghost var Repr: set<object>

    /** The node owns its vectors and its children, and both vectors hold one entry per set bit. */
    ghost predicate Valid()
      reads this, Repr
      decreases Repr, 1
    {
      Owns() && |values.Contents| == Popcount(mask) && |Kids| == Popcount(mask)
    }

    /**
     * The ownership half of the invariant, which does not mention the mask:
     * the vectors are valid and as long as each other, the children vector
     * holds Kids, and every child is valid and owns a footprint of its own.
     */
    ghost predicate Owns()
      reads this, Repr
      decreases Repr, 0
    {
      this in Repr &&
      values in Repr && values.Repr <= Repr && this !in values.Repr &&
      children in Repr && children.Repr <= Repr && this !in children.Repr &&
      values.Repr !! children.Repr &&
      values.Valid() && children.Valid() &&
      children.Contents == Kids && |values.Contents| == |Kids| &&
      (forall c :: c in Kids ==>
         c in Repr && c.Repr <= Repr && this !in c.Repr && c in c.Repr &&
         c.Repr !! values.Repr && c.Repr !! children.Repr && c.Valid()) &&
      Apart(Kids)
    }

    /** tree(): no slot in use, no values, no children. */
    constructor ()
      ensures Valid() && fresh(Repr)
      ensures mask == 0 && values.Contents == [] && Kids == [] && Empty()
    {
      mask := 0;
      values := new LMemVector<V>();
      children := new LMemVector<Tree?<V>>();
      Kids := [];
      new;
      PopcountOfZero();
      Repr := {this} + values.Repr + children.Repr;
    }

    /**
     * get_children_position in the HCKT_SPARSE build: the number of
     * occupied slots below position, counted with Kernighan's loop over the
     * mask shifted left by 64 - position.
     */
    method ChildrenPosition(position: bv6) returns (count: nat)
      ensures count == Rank(mask, position as nat)
    {
      if position == 0 {
        return 0;
      }
      var m := mask;
      // 64 - position in 6-bit arithmetic: position is not 0.
      var s := 0 - position;
      var x := m << s;
      Complement(position, s);
      SlotOfValue(s);
      ShiftedRank(m, s, s as nat);
      count := 0;
      while x != 0
        invariant count + Popcount(x) == Rank(m, position as nat)
        decreases x
      {
        ClearLowestSetBit(x);
        x := x & (x - 1);
        count := count + 1;
      }
      PopcountOfZero();
    }

    /** empty(): no slot is in use. */
    function Empty(): (e: bool)
      reads this, Repr
      requires Valid()
      ensures e <==> |Kids| == 0
      ensures e <==> |values.Contents| == 0
    {
      assert Owns();
      NoneIsZero(mask);
      mask == 0
    }

    /**
     * collapse(): collapse every child, then release both vectors and
     * clear the mask.  The children themselves are not deleted.
     */
    method Collapse()
      requires Valid()
      modifies Repr
      ensures Valid() && fresh(Repr - old(Repr)) && Empty()
      ensures mask == 0 && values.Contents == [] && Kids == []
      ensures values.capacity == 0 && children.capacity == 0
      decreases Repr, 1
    {
      CollapseChildren();
      Reset();
      PopcountOfZero();
    }

    /** children.clear(), values.clear() and bitset.reset(). */
    method Reset()
      requires this in Repr && values in Repr && children in Repr
      requires values.Repr <= Repr && children.Repr <= Repr
      requires this !in values.Repr && this !in children.Repr && values.Repr !! children.Repr
      requires values.Valid() && children.Valid()
      modifies this, values, children
      ensures Owns() && fresh(Repr - old(Repr))
      ensures mask == 0 && values.Contents == [] && Kids == []
      ensures values.capacity == 0 && children.capacity == 0
    {
      children.Clear();
      values.Clear();
      mask := 0;
      Kids := [];
      Repr := {this} + values.Repr + children.Repr;
    }

    /** The loop of collapse() over the children vector. */
    method CollapseChildren()
      requires Valid()
      modifies Repr
      ensures unchanged(this) && values.Valid() && children.Valid()
      ensures values.Repr == old(values.Repr) && children.Repr == old(children.Repr)
      ensures values.Contents == old(values.Contents) && children.Contents == old(children.Contents)
      ensures forall c :: c in Kids ==> c.mask == 0
      decreases Repr, 0
    {
      var i := 0;
      while i < children.Size()
        invariant unchanged(this)
        invariant values.Repr == old(values.Repr) && children.Repr == old(children.Repr)
        invariant values.Valid() && children.Valid() && children.Contents == Kids
        invariant values.Contents == old(values.Contents)
        invariant i <= |Kids|
        invariant forall j :: i <= j < |Kids| ==> Kids[j].Valid() && Kids[j].Repr == old(Kids[j].Repr)
        invariant forall j :: 0 <= j < i ==> Kids[j].mask == 0
      {
        var child := children.Get(i);
        assert forall j :: 0 <= j < |Kids| && j != i ==> Kids[j] !in child.Repr;
        child.Collapse();
        i := i + 1;
      }
    }

    /**
     * insert(position, value) on a free slot: a new empty child and the
     * value go in at the slot's rank, then the bit is set.
     */
    method Insert(position: bv6, value: V)
      requires Valid() && !Bit(mask, position as nat)
      modifies this, values.Repr, children.Repr
      ensures Valid() && fresh(Repr - old(Repr))
      ensures mask == SetBit(old(mask), position)
      ensures Rank(old(mask), position as nat) < |Kids| && |Kids| == |old(Kids)| + 1
      ensures values.Contents == InsertAt(old(values.Contents), Rank(old(mask), position as nat), value)
      ensures Kids == InsertAt(old(Kids), Rank(old(mask), position as nat), Kids[Rank(old(mask), position as nat)])
      ensures fresh(Kids[Rank(old(mask), position as nat)]) && Kids[Rank(old(mask), position as nat)].Valid()
      ensures Kids[Rank(old(mask), position as nat)].Empty()
    {
      var cpos := ChildrenPosition(position);
      RankMonotone(mask, position as nat, 64);
      PopcountWithClearBit(mask, position);
      Attach(cpos, value, SetBit(mask, position));
    }

    /** The vector half of insert: a new child and the value at index cpos, and the new mask. */
    method Attach(cpos: nat, value: V, newMask: bv64)
      requires Owns() && cpos <= |Kids| && |Kids| < 64
      modifies this, values.Repr, children.Repr
      ensures Owns() && fresh(Repr - old(Repr)) && mask == newMask
      ensures values.Contents == InsertAt(old(values.Contents), cpos, value)
      ensures |Kids| == |old(Kids)| + 1 && Kids == InsertAt(old(Kids), cpos, Kids[cpos])
      ensures fresh(Kids[cpos]) && Kids[cpos].Valid() && Kids[cpos].mask == 0
    {
      var child := new Tree<V>();
      AttachChild(cpos, value, newMask, child);
    }

    /** children.insert(cpos, child), values.insert(cpos, value) and the bookkeeping. */
    method AttachChild(cpos: nat, value: V, newMask: bv64, child: Tree<V>)
      requires Owns() && cpos <= |Kids| && |Kids| < 64
      requires child.Valid() && child.Repr !! Repr
      modifies this, values.Repr, children.Repr
      ensures Owns() && fresh(Repr - old(Repr) - child.Repr) && mask == newMask
      ensures values.Contents == InsertAt(old(values.Contents), cpos, value)
      ensures Kids == InsertAt(old(Kids), cpos, child)
    {
      InsertEntries(cpos, child, value);
      Adopt(cpos, child, newMask);
    }

    /**
     * The bookkeeping after both vectors have the new entry: the child
     * joins Kids and the footprint, and the mask takes its new value.
     */
    method Adopt(cpos: nat, child: Tree<V>, newMask: bv64)
      requires this !in values.Repr && this !in children.Repr && values.Repr !! children.Repr
      requires values.Valid() && children.Valid() && this in Repr && values in Repr && children in Repr
      requires cpos <= |Kids| && children.Contents == InsertAt(Kids, cpos, child) && |values.Contents| == |Kids| + 1
      requires forall c :: c in Kids ==>
         c in Repr && c.Repr <= Repr && this !in c.Repr && c in c.Repr &&
         c.Repr !! values.Repr && c.Repr !! children.Repr && c.Repr !! child.Repr && c.Valid()
      requires Apart(Kids)
      requires child.Valid() && child in child.Repr && this !in child.Repr
      requires child.Repr !! values.Repr && child.Repr !! children.Repr
      modifies this
      ensures Owns() && mask == newMask && Kids == InsertAt(old(Kids), cpos, child)
      ensures values == old(values) && children == old(children)
      ensures Repr == old(Repr) + values.Repr + children.Repr + child.Repr
    {
      ApartAfterInsert(Kids, cpos, child);
      InsertAtMembers(Kids, cpos, child);
      mask := newMask;
      Kids := InsertAt(Kids, cpos, child);
      Repr := Repr + values.Repr + children.Repr + child.Repr;
    }

    /** children.insert(cpos, child) and values.insert(cpos, value). */
    method InsertEntries(cpos: nat, child: Tree<V>, value: V)
      requires values.Valid() && children.Valid() && values.Repr !! children.Repr
      requires cpos <= |values.Contents| == |children.Contents| < 64
      modifies values.Repr, children.Repr
      ensures values.Valid() && children.Valid() && values.Repr !! children.Repr
      ensures fresh(values.Repr - old(values.Repr)) && fresh(children.Repr - old(children.Repr))
      ensures values.Contents == InsertAt(old(values.Contents), cpos, value)
      ensures children.Contents == InsertAt(old(children.Contents), cpos, child)
    {
      if children.capacity <= 64 {
        GrownOfSmall(children.capacity);
      }
      if values.capacity <= 64 {
        GrownOfSmall(values.capacity);
      }
      children.Insert(cpos, child);
      values.Insert(cpos, value);
    }

    /**
     * remove(position) on an occupied slot: collapse the slot's child,
     * erase its child pointer and its value, then clear the bit.
     */
    method Remove(position: bv6)
      requires Valid() && Bit(mask, position as nat)
      modifies this, values.Repr, children.Repr, Entry(mask, Kids, position as nat).Repr
      ensures Rank(old(mask), position as nat) < |old(Kids)|
      ensures Valid() && Repr == old(Repr) - old(Kids[Rank(mask, position as nat)].Repr)
      ensures old(Kids[Rank(mask, position as nat)]).Valid() && old(Kids[Rank(mask, position as nat)]).Empty()
      ensures mask == ResetBit(old(mask), position)
      ensures values.Contents == RemoveAt(old(values.Contents), Rank(old(mask), position as nat))
      ensures Kids == RemoveAt(old(Kids), Rank(old(mask), position as nat))
    {
      var cpos := ChildrenPosition(position);
      RankBelowPopcount(mask, position as nat);
      RankAfterReset(mask, position, 64);
      Prune(cpos, ResetBit(mask, position));
    }

    /**
     * The vector half of remove: drop the child at index cpos and collapse
     * it.  The child is collapsed once it is detached from this node; the
     * two steps touch disjoint state, so this gives the same result as the
     * source's order.
     */
    method Prune(cpos: nat, newMask: bv64)
      requires Owns() && cpos < |Kids|
      modifies this, values.Repr, children.Repr, Kids[cpos].Repr
      ensures Owns() && Repr == old(Repr) - old(Kids[cpos].Repr) && mask == newMask
      ensures old(Kids[cpos]).Valid() && old(Kids[cpos]).Empty()
      ensures values.Contents == RemoveAt(old(values.Contents), cpos)
      ensures Kids == RemoveAt(old(Kids), cpos)
    {
      var child := Detach(cpos, newMask);
      child.Collapse();
    }

    /** children.erase(cpos) and values.erase(cpos), then the bookkeeping. */
    method Detach(cpos: nat, newMask: bv64) returns (child: Tree<V>)
      requires Owns() && cpos < |Kids|
      modifies this, values.Repr, children.Repr
      ensures Owns() && child == old(Kids[cpos]) && child.Valid() && child.Repr !! Repr
      ensures Repr == old(Repr) - child.Repr && mask == newMask
      ensures values.Contents == RemoveAt(old(values.Contents), cpos)
      ensures Kids == RemoveAt(old(Kids), cpos)
    {
      var k := children.Get(cpos);
      child := k;
      EraseEntries(cpos);
      Disown(cpos, newMask);
    }

    /** children.erase(cpos) and values.erase(cpos). */
    method EraseEntries(cpos: nat)
      requires values.Valid() && children.Valid() && values.Repr !! children.Repr
      requires cpos < |values.Contents| == |children.Contents|
      modifies values.Repr, children.Repr
      ensures values.Valid() && children.Valid()
      ensures values.Repr == old(values.Repr) && children.Repr == old(children.Repr)
      ensures values.Contents == RemoveAt(old(values.Contents), cpos)
      ensures children.Contents == RemoveAt(old(children.Contents), cpos)
    {
      children.Erase(cpos);
      values.Erase(cpos);
    }

    /**
     * The bookkeeping after both vectors lost the entry at cpos: the child
     * leaves Kids and the footprint, and the mask takes its new value.
     */
    method Disown(cpos: nat, newMask: bv64)
      requires this !in values.Repr && this !in children.Repr && values.Repr !! children.Repr
      requires values.Valid() && children.Valid() && this in Repr
      requires values in Repr && values.Repr <= Repr && children in Repr && children.Repr <= Repr
      requires cpos < |Kids| && children.Contents == RemoveAt(Kids, cpos) && |values.Contents| + 1 == |Kids|
      requires forall c :: c in Kids ==>
         c in Repr && c.Repr <= Repr && this !in c.Repr && c in c.Repr &&
         c.Repr !! values.Repr && c.Repr !! children.Repr && c.Valid()
      requires Apart(Kids)
      modifies this
      ensures Owns() && mask == newMask && Kids == RemoveAt(old(Kids), cpos)
      ensures values == old(values) && children == old(children)
      ensures Repr == old(Repr) - old(Kids[cpos].Repr)
    {
      ghost var child := Kids[cpos];
      ApartAfterRemove(Kids, cpos);
      mask := newMask;
      Kids := RemoveAt(Kids, cpos);
      Repr := Repr - child.Repr;
    }

    /**
     * leaf(position): the child pointer at the slot's rank.  Only the
     * rank is checked; for an occupied slot this is the slot's own child.
     */
    method Leaf(position: bv6) returns (c: Tree<V>)
      requires Valid() && Rank(mask, position as nat) < |Kids|
      ensures c == Kids[Rank(mask, position as nat)]
      ensures Bit(mask, position as nat) ==> c == Entry(mask, Kids, position as nat)
    {
      var cpos := ChildrenPosition(position);
      var k := children.Get(cpos);
      c := k;
    }

    /**
     * get_value(position): the value at the slot's rank.  Only the rank is
     * checked; for an occupied slot this is the slot's own value.
     */
    method GetValue(position: bv6) returns (v: V)
      requires Valid() && Rank(mask, position as nat) < |values.Contents|
      ensures v == values.Contents[Rank(mask, position as nat)]
      ensures Bit(mask, position as nat) ==> v == Entry(mask, values.Contents, position as nat)
    {
      var cpos := ChildrenPosition(position);
      v := values.Get(cpos);
    }

    /**
     * set_value(position, value): overwrite the value at the slot's rank;
     * the mask, the children and the footprint stay as they are.
     */
    method SetValue(position: bv6, value: V)
      requires Valid() && Rank(mask, position as nat) < |values.Contents|
      modifies values.Repr
      ensures Valid() && Repr == old(Repr) && Kids == old(Kids) && mask == old(mask)
      ensures values.Contents == old(values.Contents)[Rank(mask, position as nat) := value]
    {
      var cpos := ChildrenPosition(position);
      values.Set(cpos, value);
    }
  }
}
