/**
 * hckt::lmemvector (include/lmemvector.hpp): a growable array with an
 * 8-bit size and capacity, the container behind a tree node's values and
 * children.
 *
 * The buffer is an array whose length is the capacity.  Contents is the
 * logical vector, the first `size` elements of the buffer.  The object
 * invariant is the one every insert re-establishes: either there is no
 * buffer (capacity 0, size 0) or the size is strictly below the capacity,
 * which is at least init_capacity (a capacity of 1 would not grow: 1 * 1.6
 * truncates to 1).
 * erase and the growth step of insert read the element at the old size,
 * one past the logical end, and they stay inside the buffer only because
 * of that strict inequality.
 *
 * A null buffer and a released one are both an empty array here; the
 * model has no deallocation.
 */
module LMemVector {
  import opened Memory

  /** init_capacity: the capacity of the first buffer. */
  const InitCapacity: nat := 2

  /** std::numeric_limits<uint8_t>::max(): reserve asserts capacities below it. */
  const SizeTypeMax: nat := 255

  /** The growth step (size_t)(capacity * 1.6), in integers. */
  function Grown(capacity: nat): nat
  {
    capacity * 8 / 5
  }

  /** The capacity an insert leaves behind, given the size and capacity before it. */
  function NextCapacity(size: nat, capacity: nat): nat
  {
    if size + 1 >= capacity then (if capacity > 0 then Grown(capacity) else InitCapacity) else capacity
  }

  /** Every capacity from 2 on grows by at least one element. */
  lemma GrownExceeds(capacity: nat)
    requires capacity >= 2
    ensures Grown(capacity) > capacity
  {
  }

  /** Growing from at most 64 elements stays below the 8-bit limit. */
  lemma GrownOfSmall(capacity: nat)
    requires capacity <= 64
    ensures Grown(capacity) < SizeTypeMax
  {
  }

  /**
   * The capacities insert's growth produces: the first allocation, then
   * each 1.6 step, 2, 3, 4, 6, 9, 14, 22, 35, 56, 89.  A vector's capacity
   * is also 0 before its first insert and after clear(), and reserve(n)
   * can set any n below 255.
   */
  function CapacityAfter(growths: nat): (c: nat)
    ensures c >= 2
  {
    if growths == 0 then InitCapacity else Grown(CapacityAfter(growths - 1))
  }

  lemma CapacitySequence()
    ensures CapacityAfter(1) == 3 && CapacityAfter(2) == 4 && CapacityAfter(3) == 6
    ensures CapacityAfter(4) == 9 && CapacityAfter(5) == 14 && CapacityAfter(6) == 22
    ensures CapacityAfter(7) == 35 && CapacityAfter(8) == 56 && CapacityAfter(9) == 89
  {
  }

  /** Capacities strictly increase with every growth step. */
  lemma {:induction false} CapacityIncreases(i: nat, j: nat)
    requires i < j
    ensures CapacityAfter(i) < CapacityAfter(j)
    decreases j
  {
    GrownExceeds(CapacityAfter(j - 1));
    if i < j - 1 {
      CapacityIncreases(i, j - 1);
    }
  }

  class LMemVector<T(0)> {
    var buf: array<T>
    var capacity: nat
    var size: nat
    ghost var Contents: seq<T>
    ghost var Repr: set<object>

    ghost predicate Valid()
      reads this, Repr
    {
      Repr == {this, buf} &&
      buf.Length == capacity && capacity < SizeTypeMax && capacity != 1 &&
      (size < capacity || (size == 0 && capacity == 0)) &&
      |Contents| == size && forall i :: 0 <= i < size ==> Contents[i] == buf[i]
    }

    /** A new vector has no buffer. */
    constructor ()
      ensures Valid() && fresh(Repr)
      ensures Contents == [] && capacity == 0
    {
      buf := new T[0];
      capacity := 0;
      size := 0;
      Contents := [];
      Repr := {this, buf};
    }

    /** operator[] const. */
    function Get(n: nat): (x: T)
      reads this, Repr
      requires Valid() && n < |Contents|
      ensures x == Contents[n]
    {
      buf[n]
    }

    /** Assignment through operator[]. */
    method Set(n: nat, x: T)
      requires Valid() && n < |Contents|
      modifies this, buf
      ensures Valid() && Repr == old(Repr) && buf == old(buf) && capacity == old(capacity)
      ensures Contents == old(Contents)[n := x]
    {
      buf[n] := x;
      Contents := Contents[n := x];
    }

    /** size(): the number of elements, end() - begin(). */
    function Size(): (n: nat)
      reads this, Repr
      requires Valid()
      ensures n == |Contents| && n < SizeTypeMax
    {
      size
    }

    /** capacity(): the length of the buffer, above the size unless there is none. */
    function Capacity(): (c: nat)
      reads this, Repr
      requires Valid()
      ensures c == buf.Length && c < SizeTypeMax
      ensures c == 0 ==> |Contents| == 0
      ensures c > 0 ==> |Contents| < c
    {
      capacity
    }

    /** clear(): release the buffer and forget the elements. */
    method Clear()
      requires Valid()
      modifies this
      ensures Valid() && fresh(Repr - old(Repr))
      ensures Contents == [] && capacity == 0
    {
      buf := new T[0];
      capacity := 0;
      size := 0;
      Contents := [];
      Repr := {this, buf};
    }

    /** erase(position): close the gap with a memmove of size + 1 - position elements. */
    method Erase(position: nat)
      requires Valid() && position < |Contents|
      modifies Repr
      ensures Valid() && Repr == old(Repr) && buf == old(buf) && capacity == old(capacity)
      ensures Contents == old(Contents[..position]) + old(Contents[position + 1..])
    {
      size := size - 1;
      // Reads buf[position + 1 .. old size], one element past the logical end.
      Memmove(buf, position, position + 1, size + 1 - position);
      Contents := buf[..size];
    }

    /** init(): the first buffer. */
    method Init()
      modifies this
      ensures fresh(buf) && buf.Length == InitCapacity && capacity == InitCapacity
      ensures size == old(size) && Contents == old(Contents) && Repr == {this, buf}
    {
      buf := new T[InitCapacity];
      capacity := InitCapacity;
      Repr := {this, buf};
    }

    /**
     * reserve(n): a new buffer of n elements holding the first `size`
     * elements of the old one (begin() .. end()).
     */
    method Reserve(newCapacity: nat)
      requires size <= buf.Length && size <= newCapacity < SizeTypeMax
      modifies this
      ensures fresh(buf) && buf.Length == newCapacity && capacity == newCapacity
      ensures size == old(size) && buf[..size] == old(buf[..size])
      ensures Contents == old(Contents) && Repr == {this, buf}
      ensures old(Valid()) && newCapacity != 1 && (size < newCapacity || newCapacity == 0) ==> Valid()
    {
      var nb := new T[newCapacity];
      forall i | 0 <= i < size {
        nb[i] := buf[i];
      }
      capacity := newCapacity;
      buf := nb;
      Repr := {this, buf};
    }

    /**
     * insert(position, value): count the new element, grow when the size
     * reaches the capacity, then shift the tail up by one with a memmove.
     * The growth step copies `size` elements after the increment, so it
     * reads the old buffer at the old size.
     */
    method Insert(position: nat, value: T)
      requires Valid() && position <= |Contents|
      requires size + 1 < capacity || capacity == 0 || Grown(capacity) < SizeTypeMax
      modifies Repr
      ensures Valid() && fresh(Repr - old(Repr))
      ensures Contents == old(Contents[..position]) + [value] + old(Contents[position..])
      ensures capacity == NextCapacity(old(size), old(capacity))
    {
      size := size + 1;
      if size >= capacity {
        if capacity > 0 {
          GrownExceeds(capacity);
          Reserve(Grown(capacity));
        } else {
          Init();
        }
        assert buf[..size - 1] == buf[..size][..size - 1];
      }
      assert Contents == buf[..size - 1];
      OpenGap(buf, size, position, value);
      Contents := buf[..size];
    }

  }
}
