/**
 * The caller-owned packet buffer: a fixed storage region, the number of bytes
 * in use and the capacity the caller reserved. Codecs grow it only from the
 * front, by shifting the bytes in use towards the end of the storage.
 */
module NetBuffer {

  /** The status a failed shift returns. */
  const ShiftFailed: int := -1

  class Buffer {
    // The storage is never reallocated, so the reference is fixed.
    const data: array<bv8>
    var size: nat
    var reserved: nat

    /** Both the bytes in use and the reserved capacity lie inside the storage. */
    ghost predicate Valid()
      reads this
    {
      size <= data.Length && reserved <= data.Length
    }

    /** The bytes in use, from offset 0. */
    function Contents(): seq<bv8>
      reads this, data
      requires Valid()
    {
      data[..size]
    }

    constructor (storage: array<bv8>, used: nat, capacity: nat)
      requires used <= storage.Length && capacity <= storage.Length
      ensures Valid()
      ensures data == storage && size == used && reserved == capacity
    {
      data := storage;
      size := used;
      reserved := capacity;
    }

    /**
     * Opens `n` zeroed bytes at offset 0. It fails, changing nothing, when the
     * bytes in use plus `n` exceed the reserved capacity; otherwise the bytes in
     * use move forward by `n` and `size` grows by `n`.
     */
    method Shift(n: nat) returns (err: int)
      requires Valid()
      modifies this, data
      ensures Valid() && reserved == old(reserved)
      ensures err == 0 <==> old(size) + n <= reserved
      ensures err != 0 ==> err == ShiftFailed && size == old(size) && data[..] == old(data[..])
      ensures err == 0 ==>
                size == old(size) + n &&
                data[..n] == seq(n, _ => 0) &&
                data[n..size] == old(Contents()) &&
                data[size..] == old(data[..])[size..]
    {
      if size + n > reserved {
        return ShiftFailed;
      }
      MoveForward(data, size, n);
      ZeroFront(data, n);
      size := size + n;
      err := 0;
    }
  }

  /** Copies the first `used` bytes of `a` forward by `n`, last byte first, as an overlapping copy must. */
  method MoveForward(a: array<bv8>, used: nat, n: nat)
    requires used + n <= a.Length
    modifies a
    ensures a[n..used + n] == old(a[..used])
    ensures a[used + n..] == old(a[used + n..])
  {
    var i := used;
    while i > 0
      invariant 0 <= i <= used
      invariant forall k :: 0 <= k < i ==> a[k] == old(a[k])
      invariant forall k :: i <= k < used ==> a[k + n] == old(a[k])
      invariant forall k :: used + n <= k < a.Length ==> a[k] == old(a[k])
    {
      i := i - 1;
      a[i + n] := a[i];
    }
  }

  /** Zeroes the first `n` bytes of `a`. */
  method ZeroFront(a: array<bv8>, n: nat)
    requires n <= a.Length
    modifies a
    ensures a[..n] == seq(n, _ => 0)
    ensures a[n..] == old(a[n..])
  {
    var j := 0;
    while j < n
      invariant 0 <= j <= n
      invariant forall k :: 0 <= k < j ==> a[k] == 0
      invariant forall k :: n <= k < a.Length ==> a[k] == old(a[k])
    {
      a[j] := 0;
      j := j + 1;
    }
  }
}
