/** RawMemory<T> (advanced-vector/vector.h:11-83): a block of capacity slots that the
    owner constructs elements into. A slot that holds no live element is an array cell
    with an arbitrary value; a missing block (capacity 0) is an array of length 0.
    The slot algorithms at the end are the standard-library bulk operations the
    vector runs over these blocks. */
module RawStorage {

  class RawMemory<T(0)> {
    var buffer: array<T>
    var capacity: nat

    /** The block has exactly capacity slots. */
    ghost predicate Valid()
      reads this
    {
      buffer.Length == capacity
    }

    /** RawMemory(): no block. */
    constructor Empty()
      ensures Valid() && fresh(buffer) && capacity == 0
    {
      buffer := new T[0];
      capacity := 0;
    }

    /** RawMemory(capacity): a fresh block of capacity uninitialised slots. */
    constructor (capacity: nat)
      ensures Valid() && fresh(buffer) && this.capacity == capacity
    {
      buffer := new T[capacity];
      this.capacity := capacity;
    }

    /** RawMemory(RawMemory&&): starts without a block and swaps with other, so it
        takes other's block and other is left without one. */
    constructor Move(other: RawMemory<T>)
      requires other.Valid()
      modifies other
      ensures Valid() && other.Valid()
      ensures buffer == old(other.buffer) && capacity == old(other.capacity)
      ensures fresh(other.buffer) && other.capacity == 0
    {
      buffer := new T[0];
      capacity := 0;
      new;
      Swap(other);
    }

    /** operator+: the address of slot offset; one past the last slot may be formed
        but never dereferenced. */
    function Offset(offset: nat): (p: nat)
      reads this
      requires Valid() && offset <= capacity
      ensures p == offset && p <= buffer.Length
    {
      offset
    }

    /** operator[] read: only the slots [0, capacity) can be accessed. */
    function At(index: nat): (x: T)
      reads this, buffer
      requires Valid() && index < capacity
      ensures x == buffer[index]
    {
      buffer[index]
    }

    /** operator[] write through the returned reference: slot index changes, no other. */
    method Put(index: nat, x: T)
      requires Valid() && index < capacity
      modifies buffer
      ensures Valid() && buffer[..] == old(buffer[..])[index := x]
    {
      buffer[index] := x;
    }

    /** Swap: exchanges block and capacity with other (nothing changes when other is
        this object). */
    method Swap(other: RawMemory<T>)
      requires Valid() && other.Valid()
      modifies this, other
      ensures Valid() && other.Valid()
      ensures buffer == old(other.buffer) && capacity == old(other.capacity)
      ensures other.buffer == old(buffer) && other.capacity == old(capacity)
    {
      var b, c := buffer, capacity;
      buffer, capacity := other.buffer, other.capacity;
      other.buffer, other.capacity := b, c;
    }

    /** Capacity(): the number of addressable slots. */
    function Capacity(): (c: nat)
      reads this
      requires Valid()
      ensures c == buffer.Length
    {
      capacity
    }
  }

  /** std::uninitialized_copy_n / std::uninitialized_move_n / std::copy between two
      different blocks: dst[to, to + n) receives src[from, from + n), every other slot
      of dst keeps its value. */
  method CopyN<T>(src: array<T>, from: nat, n: nat, dst: array<T>, to: nat)
    requires src != dst && from + n <= src.Length && to + n <= dst.Length
    modifies dst
    ensures forall k :: to <= k < to + n ==> dst[k] == src[k - to + from]
    ensures forall k :: 0 <= k < dst.Length && !(to <= k < to + n) ==> dst[k] == old(dst[k])
  {
    var i := 0;
    while i < n
      invariant 0 <= i <= n
      invariant forall k :: to <= k < to + i ==> dst[k] == src[k - to + from]
      invariant forall k :: 0 <= k < dst.Length && !(to <= k < to + i) ==> dst[k] == old(dst[k])
    {
      dst[to + i] := src[from + i];
      i := i + 1;
    }
  }

  /** std::uninitialized_value_construct_n: dst[from, from + n) become init, every
      other slot keeps its value. */
  method FillN<T>(dst: array<T>, from: nat, n: nat, init: T)
    requires from + n <= dst.Length
    modifies dst
    ensures forall k :: from <= k < from + n ==> dst[k] == init
    ensures forall k :: 0 <= k < dst.Length && !(from <= k < from + n) ==> dst[k] == old(dst[k])
  {
    var i := 0;
    while i < n
      invariant 0 <= i <= n
      invariant forall k :: from <= k < from + i ==> dst[k] == init
      invariant forall k :: 0 <= k < dst.Length && !(from <= k < from + i) ==> dst[k] == old(dst[k])
    {
      dst[from + i] := init;
      i := i + 1;
    }
  }

  /** std::move_backward(first, last, dLast) within one block: the range [first, last)
      is moved so that it ends at dLast, copying from the back so that an overlapping
      destination to the right is safe. The standard demands that [first, last) be a
      range, first <= last. */
  method MoveBackward<T>(a: array<T>, first: nat, last: nat, dLast: nat)
    requires first <= last <= dLast <= a.Length
    modifies a
    ensures forall k :: dLast - (last - first) <= k < dLast ==> a[k] == old(a[k - (dLast - last)])
    ensures forall k :: 0 <= k < a.Length && !(dLast - (last - first) <= k < dLast) ==> a[k] == old(a[k])
  {
    var i, d := last, dLast;
    while i > first
      invariant first <= i <= last && d == i + (dLast - last)
      invariant forall k :: d <= k < dLast ==> a[k] == old(a[k - (dLast - last)])
      invariant forall k :: 0 <= k < a.Length && !(d <= k < dLast) ==> a[k] == old(a[k])
    {
      i, d := i - 1, d - 1;
      a[d] := a[i];
    }
  }

  /** std::move(first, last, dFirst) within one block: the range [first, last) is moved
      so that it starts at dFirst, copying from the front so that an overlapping
      destination to the left is safe. */
  method MoveForward<T>(a: array<T>, first: nat, last: nat, dFirst: nat)
    requires dFirst <= first <= last <= a.Length
    modifies a
    ensures forall k :: dFirst <= k < dFirst + (last - first) ==> a[k] == old(a[k + (first - dFirst)])
    ensures forall k :: 0 <= k < a.Length && !(dFirst <= k < dFirst + (last - first)) ==> a[k] == old(a[k])
  {
    var i, d := first, dFirst;
    while i < last
      invariant first <= i <= last && d == i - (first - dFirst)
      invariant forall k :: dFirst <= k < d ==> a[k] == old(a[k + (first - dFirst)])
      invariant forall k :: 0 <= k < a.Length && !(dFirst <= k < d) ==> a[k] == old(a[k])
    {
      a[d] := a[i];
      i, d := i + 1, d + 1;
    }
  }
}
