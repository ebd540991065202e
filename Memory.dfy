/**
 * std::memmove on an element buffer, which both versions of lmemvector
 * use to shift their elements.
 *
 * Moved(s, dst, src, n) is the buffer s after the n elements starting at
 * src were copied to dst as if through a temporary: overlap does not
 * matter.  The precondition of Memmove is the bounds rule of the library
 * call: every element read and every element written lies inside the
 * buffer.
 */
module Memory {

  /** The buffer after moving s[src..src + n] to dst. */
  function Moved<T>(s: seq<T>, dst: nat, src: nat, n: nat): (r: seq<T>)
    requires dst + n <= |s| && src + n <= |s|
    ensures |r| == |s|
    ensures forall i :: 0 <= i < dst ==> r[i] == s[i]
    ensures forall i :: dst <= i < dst + n ==> r[i] == s[src + (i - dst)]
    ensures forall i :: dst + n <= i < |s| ==> r[i] == s[i]
  {
    s[..dst] + s[src..src + n] + s[dst + n..]
  }

  /** std::memmove(a + dst, a + src, n * sizeof(T)). */
  method Memmove<T>(a: array<T>, dst: nat, src: nat, n: nat)
    requires dst + n <= a.Length && src + n <= a.Length
    modifies a
    ensures a[..] == Moved(old(a[..]), dst, src, n)
  {
    if dst <= src {
      CopyUpwards(a, dst, src, n);
    } else {
      CopyDownwards(a, dst, src, n);
    }
    assert a[..] == Moved(old(a[..]), dst, src, n);
  }

  /**
   * The shift of insert: the n - 1 - position elements from position on
   * move up by one and value is stored in the gap, so the first n elements
   * become the first n - 1 with value inserted at position.
   */
  method OpenGap<T>(a: array<T>, n: nat, position: nat, value: T)
    requires position < n <= a.Length
    modifies a
    ensures a[..n] == old(a[..n - 1][..position]) + [value] + old(a[..n - 1][position..])
  {
    ghost var before := a[..];
    Memmove(a, position + 1, position, n - position - 1);
    a[position] := value;
    GapFilled(before, a[..], n, position, value);
  }

  /** The buffer after the move and the store holds value at position between the two halves. */
  lemma GapFilled<T>(before: seq<T>, after: seq<T>, n: nat, position: nat, value: T)
    requires position < n <= |before|
    requires after == Moved(before, position + 1, position, n - position - 1)[position := value]
    ensures after[..n] == before[..n - 1][..position] + [value] + before[..n - 1][position..]
  {
    var r := before[..n - 1][..position] + [value] + before[..n - 1][position..];
    assert |after[..n]| == |r|;
    forall i | 0 <= i < n
      ensures after[..n][i] == r[i]
    {
      if i < position {
        assert r[i] == before[i];
      } else if i == position {
        assert r[i] == value;
      } else {
        assert r[i] == before[i - 1];
      }
    }
  }

  /** Copying upwards reads every element before it is overwritten when dst <= src. */
  method CopyUpwards<T>(a: array<T>, dst: nat, src: nat, n: nat)
    requires dst <= src && src + n <= a.Length
    modifies a
    ensures forall i :: 0 <= i < a.Length && !(dst <= i < dst + n) ==> a[i] == old(a[i])
    ensures forall i :: dst <= i < dst + n ==> a[i] == old(a[src + (i - dst)])
  {
    var k := 0;
    while k < n
      invariant 0 <= k <= n
      invariant forall i :: 0 <= i < a.Length && !(dst <= i < dst + k) ==> a[i] == old(a[i])
      invariant forall i :: dst <= i < dst + k ==> a[i] == old(a[src + (i - dst)])
    {
      a[dst + k] := a[src + k];
      k := k + 1;
    }
  }

  /** Copying downwards does the same when src < dst. */
  method CopyDownwards<T>(a: array<T>, dst: nat, src: nat, n: nat)
    requires src < dst && dst + n <= a.Length
    modifies a
    ensures forall i :: 0 <= i < a.Length && !(dst <= i < dst + n) ==> a[i] == old(a[i])
    ensures forall i :: dst <= i < dst + n ==> a[i] == old(a[src + (i - dst)])
  {
    var k := n;
    while k > 0
      invariant 0 <= k <= n
      invariant forall i :: 0 <= i < a.Length && !(dst + k <= i < dst + n) ==> a[i] == old(a[i])
      invariant forall i :: dst + k <= i < dst + n ==> a[i] == old(a[src + (i - dst)])
    {
      k := k - 1;
      a[dst + k] := a[src + k];
    }
  }
}
