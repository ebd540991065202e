/**
 * Sequences compacted along a 64-bit occupancy mask.
 *
 * A node keeps the entry of every occupied slot in a vector, in ascending
 * slot order, so the entry of slot p sits at index Rank(mask, p).  Entry is
 * that lookup; the lemmas say what inserting at, erasing at and assigning
 * to the rank of a slot do to the entry of every slot.  They are the
 * specification both 64-slot trees with a bit mask are proved against.
 */
module Ranked {
  import opened BitRank

  /** s with x inserted at index i (lmemvector::insert). */
  function InsertAt<T>(s: seq<T>, i: nat, x: T): (r: seq<T>)
    requires i <= |s|
    ensures |r| == |s| + 1 && r[i] == x
    ensures forall k :: 0 <= k < i ==> r[k] == s[k]
    ensures forall k :: i < k < |r| ==> r[k] == s[k - 1]
  {
    s[..i] + [x] + s[i..]
  }

  lemma InsertAtMembers<T>(s: seq<T>, i: nat, x: T)
    requires i <= |s|
    ensures forall y :: y in InsertAt(s, i, x) ==> y == x || y in s
  {
    forall y | y in InsertAt(s, i, x)
      ensures y == x || y in s
    {
      var k :| 0 <= k < |s| + 1 && InsertAt(s, i, x)[k] == y;
      if k < i {
        assert y == s[k];
      } else if k > i {
        assert y == s[k - 1];
      }
    }
  }

  /** s without the element at index i (lmemvector::erase). */
  function RemoveAt<T>(s: seq<T>, i: nat): (r: seq<T>)
    requires i < |s|
    ensures |r| == |s| - 1
    ensures forall k :: 0 <= k < i ==> r[k] == s[k]
    ensures forall k :: i <= k < |r| ==> r[k] == s[k + 1]
  {
    s[..i] + s[i + 1..]
  }

  /** The entry of occupied slot q in a sequence compacted along mask m. */
  function Entry<T>(m: bv64, s: seq<T>, q: nat): T
    requires |s| == Popcount(m) && Bit(m, q)
  {
    RankBelowPopcount(m, q);
    s[Rank(m, q)]
  }

  /**
   * insert(p, x) on a free slot p: the entries stay aligned with the new
   * mask, p holds x and every other occupied slot keeps its entry.
   */
  lemma EntryAfterInsert<T>(m: bv64, s: seq<T>, p: bv6, x: T, q: nat)
    requires |s| == Popcount(m) && !Bit(m, p as nat) && Bit(SetBit(m, p), q)
    ensures Rank(m, p as nat) <= |s|
    ensures |InsertAt(s, Rank(m, p as nat), x)| == Popcount(SetBit(m, p))
    ensures q != p as nat ==> Bit(m, q)
    ensures Entry(SetBit(m, p), InsertAt(s, Rank(m, p as nat), x), q)
         == if q == p as nat then x else Entry(m, s, q)
  {
    var r := Rank(m, p as nat);
    RankMonotone(m, p as nat, 64);
    PopcountWithClearBit(m, p);
    RankAfterSet(m, p, q);
    BitOfSet(m, p, q);
    if q < p as nat {
      RankPastSetBit(m, q, p as nat);
    } else if q > p as nat {
      RankMonotone(m, p as nat, q);
      RankBelowPopcount(m, q);
    }
  }

  /**
   * remove(p) on an occupied slot p: the entries stay aligned with the new
   * mask and every other occupied slot keeps its entry.
   */
  lemma EntryAfterRemove<T>(m: bv64, s: seq<T>, p: bv6, q: nat)
    requires |s| == Popcount(m) && Bit(m, p as nat) && Bit(ResetBit(m, p), q)
    ensures Rank(m, p as nat) < |s|
    ensures |RemoveAt(s, Rank(m, p as nat))| == Popcount(ResetBit(m, p))
    ensures q != p as nat && Bit(m, q)
    ensures Entry(ResetBit(m, p), RemoveAt(s, Rank(m, p as nat)), q) == Entry(m, s, q)
  {
    RankBelowPopcount(m, p as nat);
    RankAfterReset(m, p, 64);
    RankAfterReset(m, p, q);
    BitOfReset(m, p, q);
    RankBelowPopcount(m, q);
    if q < p as nat {
      RankPastSetBit(m, q, p as nat);
    } else {
      RankPastSetBit(m, p as nat, q);
    }
  }

  /** set_value(p, x) on an occupied slot p changes the entry of p alone. */
  lemma EntryAfterUpdate<T>(m: bv64, s: seq<T>, p: nat, x: T, q: nat)
    requires |s| == Popcount(m) && Bit(m, p) && Bit(m, q)
    ensures Rank(m, p) < |s|
    ensures Entry(m, s[Rank(m, p) := x], q) == if q == p then x else Entry(m, s, q)
  {
    RankBelowPopcount(m, p);
    RankBelowPopcount(m, q);
    if q != p && Rank(m, q) == Rank(m, p) {
      RankInjective(m, p, q);
    }
  }

  /** remove(p) right after insert(p, x) gives the mask and the entries back. */
  lemma RemoveUndoesInsert<T>(m: bv64, s: seq<T>, p: bv6, x: T)
    requires |s| == Popcount(m) && !Bit(m, p as nat)
    ensures Bit(SetBit(m, p), p as nat) && Rank(m, p as nat) <= |s|
    ensures Rank(SetBit(m, p), p as nat) == Rank(m, p as nat)
    ensures ResetBit(SetBit(m, p), p) == m
    ensures RemoveAt(InsertAt(s, Rank(m, p as nat), x), Rank(m, p as nat)) == s
  {
    BitOfSet(m, p, p as nat);
    RankMonotone(m, p as nat, 64);
    RankAfterSet(m, p, p as nat);
    SlotOfValue(p);
    BitAt(m, p, p as nat);
    ResetOfSet(m, p);
    var r := Rank(m, p as nat);
    assert RemoveAt(InsertAt(s, r, x), r) == s;
  }
}
