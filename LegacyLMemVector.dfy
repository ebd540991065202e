/**
 * The first lmemvector (lmemvector.hpp at the top of the repository): the
 * same 8-bit growable array with a first buffer of one element and a
 * capacity that doubles.
 *
 * Growth and erase here reach one element past the logical end exactly as
 * in the later vector, but growth leaves the size equal to the capacity,
 * so those reads can fall outside the buffer.  The two operations that do
 * it are modelled as written (InsertAsWritten, EraseAsWritten), each
 * requiring the bounds rule of the copy it makes, and beside them the
 * evidently intended versions (Insert, Erase), which copy only the
 * elements the vector holds and keep the invariant size <= capacity.
 *
 * A null buffer and a released one are both an empty array here; the
 * model has no deallocation.
 */
module LegacyLMemVector {
  import opened Memory

  /** init(): the capacity of the first buffer. */
  const InitCapacity: nat := 1

  /** The capacity an insert leaves behind: _capacity << 1 or init(). */
  function NextCapacity(size: nat, capacity: nat): nat
  {
    if size + 1 >= capacity then (if capacity > 0 then capacity * 2 else InitCapacity) else capacity
  }

  /**
   * The copy of begin()..end() in the growth step comes after the size
   * was incremented; it stays inside the old buffer only when the old
   * size is below the old capacity.
   */
  predicate GrowthCopyInBounds(size: nat, capacity: nat)
  {
    size + 1 >= capacity && capacity > 0 ==> size + 1 <= capacity
  }

  /** The memmove of erase reads the element at the old size. */
  predicate EraseMoveInBounds(size: nat, capacity: nat)
  {
    size < capacity
  }

  /**
   * The capacity insert stores, as written: `_capacity = new_capacity` in
   * reserve keeps the low 8 bits of `_capacity << 1`.
   */
  function StoredCapacity(size: nat, capacity: nat): nat
  {
    NextCapacity(size, capacity) % 256
  }

  /**
   * At the 128th insert the doubled capacity 256 is stored as 0, so the
   * 129th insert takes the init() branch: a 1-element buffer for 129
   * elements, the old 256-element buffer neither copied nor freed.
   */
  lemma CapacityWraps()
    ensures StoredCapacity(127, 128) == 0
    ensures StoredCapacity(128, StoredCapacity(127, 128)) == 1 < 128 + 1
  {
  }

  /** As intended, the capacity after an insert always holds the incremented size. */
  lemma NextCapacityHolds(size: nat, capacity: nat)
    requires size <= capacity
    ensures size + 1 <= NextCapacity(size, capacity)
  {
  }

  /**
   * One insert into a fresh vector leaves size == capacity == 1, where both
   * the next growth copy and an erase read past the buffer.
   */
  lemma FirstInsertFillsBuffer()
    ensures NextCapacity(0, 0) == 1
    ensures !GrowthCopyInBounds(1, NextCapacity(0, 0))
    ensures !EraseMoveInBounds(1, NextCapacity(0, 0))
  {
  }

  class LegacyLMemVector<T(0)> {
    var buf: array<T>
    var capacity: nat
    var size: nat
    ghost var Contents: seq<T>
    ghost var Repr: set<object>

    /** The buffer is as long as the capacity, which bounds the size. */
    ghost predicate Valid()
      reads this, Repr
    {
      Repr == {this, buf} &&
      buf.Length == capacity < 256 && size <= capacity &&
      Contents == buf[..size]
    }

    /** lmemvector(): no buffer. */
    constructor ()
      ensures Valid() && fresh(Repr)
      ensures Contents == [] && capacity == 0
    {
      buf := new T[0];
      capacity := 0;
      size := 0;
      Contents := [];
      Repr := {this, buf};
    }

    /** init(): a buffer of one element. */
    method Init()
      modifies this
      ensures fresh(buf) && buf.Length == InitCapacity && capacity == InitCapacity
      ensures size == old(size) && Contents == old(Contents) && Repr == {this, buf}
    {
      buf := new T[InitCapacity];
      capacity := InitCapacity;
      Repr := {this, buf};
    }

    /** clear(): release the buffer and forget the elements. */
    method Clear()
      requires Valid()
      modifies this
      ensures Valid() && fresh(Repr - old(Repr))
      ensures Contents == [] && capacity == 0
    {
      buf := new T[0];
      capacity := 0;
      size := 0;
      Contents := [];
      Repr := {this, buf};
    }

    /**
     * reserve(n): a new buffer of n elements holding the first `count`
     * elements of the old one.  The source always copies begin()..end(),
     * the `_size` elements; `count` is that size as the caller has it at
     * the point of the call: `size` after the increment in GrowAsWritten,
     * the `size - 1` elements held in the intended Grow.
     */
    method Reserve(newCapacity: nat, count: nat)
      requires count <= buf.Length && count <= newCapacity < 256
      modifies this
      ensures fresh(buf) && buf.Length == newCapacity && capacity == newCapacity
      ensures size == old(size) && buf[..count] == old(buf[..count])
      ensures Contents == old(Contents) && Repr == {this, buf}
    {
      var nb := new T[newCapacity];
      forall i | 0 <= i < count {
        nb[i] := buf[i];
      }
      capacity := newCapacity;
      buf := nb;
      Repr := {this, buf};
    }

    /**
     * insert(position, value) as written: the growth step copies
     * begin()..end() after the increment, `size` elements of a buffer
     * that may hold only size - 1.
     */
    method InsertAsWritten(position: nat, value: T)
      requires Valid() && position <= |Contents| && GrowthCopyInBounds(size, capacity)
      requires size + 1 < capacity || capacity < 128
      modifies Repr
      ensures Valid() && fresh(Repr - old(Repr))
      ensures Contents == old(Contents[..position]) + [value] + old(Contents[position..])
      ensures capacity == NextCapacity(old(size), old(capacity))
    {
      size := size + 1;
      if size >= capacity {
        GrowAsWritten();
      }
      assert Contents == buf[..size - 1];
      OpenGap(buf, size, position, value);
      Contents := buf[..size];
    }

    /**
     * insert(position, value) as evidently intended: the growth step
     * copies the size - 1 elements held before the increment.
     */
    method Insert(position: nat, value: T)
      requires Valid() && position <= |Contents|
      requires size + 1 < capacity || capacity < 128
      modifies Repr
      ensures Valid() && fresh(Repr - old(Repr))
      ensures Contents == old(Contents[..position]) + [value] + old(Contents[position..])
      ensures capacity == NextCapacity(old(size), old(capacity))
    {
      size := size + 1;
      if size >= capacity {
        Grow();
      }
      assert Contents == buf[..size - 1];
      OpenGap(buf, size, position, value);
      Contents := buf[..size];
    }

    /**
     * The growth step of insert as written, after the increment:
     * reserve(_capacity << 1) copies `size` elements, or init().
     */
    method GrowAsWritten()
      requires Repr == {this, buf} && buf.Length == capacity && 0 < size <= capacity + 1
      requires Contents == buf[..size - 1] && size >= capacity && GrowthCopyInBounds(size - 1, capacity) && capacity < 128
      modifies this
      ensures Repr == {this, buf} && fresh(buf) && buf.Length == capacity && capacity < 256
      ensures capacity == NextCapacity(old(size) - 1, old(capacity)) && size <= capacity
      ensures size == old(size) && Contents == old(Contents) == buf[..size - 1]
    {
      if capacity > 0 {
        Reserve(capacity * 2, size);
        assert buf[..size - 1] == buf[..size][..size - 1];
      } else {
        Init();
      }
    }

    /** The growth step of insert as evidently intended: the copy takes the size - 1 elements held. */
    method Grow()
      requires Repr == {this, buf} && buf.Length == capacity && 0 < size <= capacity + 1
      requires Contents == buf[..size - 1] && size >= capacity && capacity < 128
      modifies this
      ensures Repr == {this, buf} && fresh(buf) && buf.Length == capacity && capacity < 256
      ensures capacity == NextCapacity(old(size) - 1, old(capacity)) && size <= capacity
      ensures size == old(size) && Contents == old(Contents) == buf[..size - 1]
    {
      if capacity > 0 {
        Reserve(capacity * 2, size - 1);
      } else {
        Init();
      }
    }

    /**
     * erase(position) as written: the memmove moves size + 1 - position
     * elements after the decrement, reading the element at the old size.
     */
    method EraseAsWritten(position: nat)
      requires Valid() && position < |Contents| && EraseMoveInBounds(size, capacity)
      modifies Repr
      ensures Valid() && Repr == old(Repr) && buf == old(buf) && capacity == old(capacity)
      ensures Contents == old(Contents[..position]) + old(Contents[position + 1..])
    {
      size := size - 1;
      Memmove(buf, position, position + 1, size + 1 - position);
      Contents := buf[..size];
    }

    /** erase(position) as evidently intended: the memmove moves the size - position elements after the gap. */
    method Erase(position: nat)
      requires Valid() && position < |Contents|
      modifies Repr
      ensures Valid() && Repr == old(Repr) && buf == old(buf) && capacity == old(capacity)
      ensures Contents == old(Contents[..position]) + old(Contents[position + 1..])
    {
      ghost var before := buf[..];
      size := size - 1;
      Memmove(buf, position, position + 1, size - position);
      assert buf[..size] == before[..position] + before[position + 1..size + 1];
      Contents := buf[..size];
    }
  }

  /**
   * A fresh vector after one insert: the state in which the as-written
   * insert and erase would read past the buffer.
   */
  method FilledAfterFirstInsert() returns (v: LegacyLMemVector<int>)
    ensures v.Valid() && v.Contents == [7] && v.size == v.capacity == 1
    ensures !GrowthCopyInBounds(v.size, v.capacity) && !EraseMoveInBounds(v.size, v.capacity)
  {
    v := new LegacyLMemVector<int>();
    v.InsertAsWritten(0, 7);
    assert v.Contents == [] + [7] + [];
  }
}
