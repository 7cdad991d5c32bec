/** Vector<T> (advanced-vector/vector.h:85-363): a RawMemory block whose slots
    [0, size) hold the live elements. Each operation states its effect on the
    abstract value Model(): through the matching function of VectorModel, or, for
    Set, Swap, MoveAssign and the move constructor, directly in terms of the old
    values. The operations that may reallocate say exactly when the block is
    replaced by a fresh one and when it is kept.

    Positions (the source's iterators) are indices into the live elements. The
    element type's value-initialised object T{} is passed in as `init`. */
module DynamicArray {
  import VectorModel
  import opened RawStorage

  class Vector<T(0)> {
    const data: RawMemory<T>
    var size: nat

    /** The objects this vector owns. */
    ghost function Repr(): set<object>
      reads this, data
    {
      {this, data, data.buffer}
    }

    /** The invariant size_ <= Capacity() on top of the block's own. */
    ghost predicate Valid()
      reads this, data
    {
      data.Valid() && size <= data.capacity
    }

    /** The live elements, slots [0, size). */
    function Contents(): (s: seq<T>)
      reads this, data, data.buffer
      requires Valid()
      ensures |s| == size
    {
      data.buffer[..size]
    }

    ghost function Model(): VectorModel.Vec<T>
      reads this, data, data.buffer
      requires Valid()
    {
      VectorModel.Vec(Contents(), data.capacity)
    }

    // -------------------------------------------------------------------------
    // Construction

    /** Vector(): no elements and no storage. */
    constructor ()
      ensures Valid() && fresh(Repr())
      ensures Model() == VectorModel.Empty()
    {
      data := new RawMemory.Empty();
      size := 0;
    }

    /** Vector(n): n value-initialised elements in a block of exactly n slots. */
    constructor Sized(n: nat, init: T)
      ensures Valid() && fresh(Repr())
      ensures Model() == VectorModel.Sized(n, init)
    {
      var raw := new RawMemory(n);
      FillN(raw.buffer, 0, n, init);
      data := raw;
      size := n;
      new;
      assert Contents() == seq(n, _ => init);
    }

    /** Vector(const Vector&): an independent vector with other's elements, in a block
        of exactly other.Size() slots. */
    constructor Copy(other: Vector<T>)
      requires other.Valid()
      ensures Valid() && fresh(Repr())
      ensures Model() == VectorModel.CopyOf(other.Model())
    {
      var raw := new RawMemory(other.size);
      CopyN(other.data.buffer, 0, other.size, raw.buffer, 0);
      data := raw;
      size := other.size;
      new;
      assert Contents() == other.Contents();
    }

    /** Vector(Vector&&): takes over other's block and size; other is left with no
        elements and no storage. */
    constructor Move(other: Vector<T>)
      requires other.Valid()
      modifies other, other.data
      ensures Valid() && fresh(data) && data.buffer == old(other.data.buffer)
      ensures Model() == old(other.Model())
      ensures other.Valid() && other.Model() == VectorModel.Empty()
      ensures fresh(other.data.buffer)
    {
      data := new RawMemory.Move(other.data);
      size := other.size;
      new;
      other.size := 0;
    }

    // -------------------------------------------------------------------------
    // Queries

    /** Size(): the number of live elements. */
    function Size(): (n: nat)
      reads this, data, data.buffer
      requires Valid()
      ensures n == |Contents()|
    {
      size
    }

    /** Capacity(): the number of slots of the storage, never below the size. */
    function Capacity(): (c: nat)
      reads this, data, data.buffer
      requires Valid()
      ensures c == data.buffer.Length && |Contents()| <= c
    {
      data.Capacity()
    }

    /** operator[] read: defined for index < Size() (the source asserts it). */
    function At(index: nat): (x: T)
      reads this, data, data.buffer
      requires Valid() && index < size
      ensures x == Contents()[index]
    {
      data.At(index)
    }

    /** operator[] write through the returned reference. */
    method Set(index: nat, v: T)
      requires Valid() && index < size
      modifies data.buffer
      ensures Valid()
      ensures Model() == old(Model()).(elems := old(Contents())[index := v])
    {
      data.Put(index, v);
    }

    // -------------------------------------------------------------------------
    // Growth

    /** Reserve(n): when n exceeds the capacity, relocates the elements into a fresh
        block of exactly n slots; otherwise changes nothing. */
    method Reserve(newCapacity: nat)
      requires Valid()
      modifies data
      ensures Valid()
      ensures Model() == VectorModel.Reserve(old(Model()), newCapacity)
      ensures newCapacity <= old(data.capacity) ==> data.buffer == old(data.buffer)
      ensures old(data.capacity) < newCapacity ==> fresh(data.buffer)
    {
      if newCapacity <= data.capacity {
        return;
      }
      var newData := new RawMemory(newCapacity);
      CopyN(data.buffer, 0, size, newData.buffer, 0);
      // The old elements are destroyed and the old block leaves with newData.
      data.Swap(newData);
      assert Contents() == old(Contents());
    }

    /** Resize(n): grows through Reserve(n) and value-initialises the slots
        [size, n), or destroys the elements [n, size); Resize(Size()) does nothing. */
    method Resize(newSize: nat, init: T)
      requires Valid()
      modifies Repr()
      ensures Valid()
      ensures Model() == VectorModel.Resize(old(Model()), newSize, init)
      ensures newSize <= old(data.capacity) ==> data.buffer == old(data.buffer)
      ensures old(data.capacity) < newSize ==> fresh(data.buffer)
    {
      if newSize > size {
        Reserve(newSize);
        FillN(data.buffer, size, newSize - size, init);
      } else if newSize < size {
        // The elements [newSize, size) are destroyed.
      } else {
        return;
      }
      size := newSize;
      assert Contents() == VectorModel.Resized(old(Contents()), newSize, init);
    }

    // -------------------------------------------------------------------------
    // Adding and removing at the end

    /** PushBack(value): appends value. A full vector first relocates into a fresh
        block of GrowthCapacity(size) slots, in which the new element is constructed
        before the old ones are transferred; otherwise the element is constructed in
        the first free slot. */
    method PushBack(v: T)
      requires Valid()
      modifies Repr()
      ensures Valid()
      ensures Model() == VectorModel.PushBack(old(Model()), v)
      ensures old(size) < old(data.capacity) ==> data.buffer == old(data.buffer)
      ensures old(size) == old(data.capacity) ==> fresh(data.buffer)
    {
      if size == data.capacity {
        var newData := new RawMemory(VectorModel.GrowthCapacity(size));
        newData.buffer[size] := v;
        CopyN(data.buffer, 0, size, newData.buffer, 0);
        data.Swap(newData);
      } else {
        data.buffer[size] := v;
      }
      size := size + 1;
      assert Contents() == old(Contents()) + [v];
    }

    /** EmplaceBack(args): PushBack of the element built from args; returns the
        position of the new last element, which holds v. */
    method EmplaceBack(v: T) returns (r: nat)
      requires Valid()
      modifies Repr()
      ensures Valid()
      ensures Model() == VectorModel.PushBack(old(Model()), v)
      ensures r == old(size) && r < size && Contents()[r] == v
      ensures old(size) < old(data.capacity) ==> data.buffer == old(data.buffer)
      ensures old(size) == old(data.capacity) ==> fresh(data.buffer)
    {
      PushBack(v);
      r := size - 1;
    }

    /** PopBack(): destroys the last element; the storage is kept. Popping an empty
        vector is undefined in the source, hence the precondition. */
    method PopBack()
      requires Valid() && size > 0
      modifies this
      ensures Valid() && data.buffer == old(data.buffer)
      ensures Model() == VectorModel.PopBack(old(Model()))
    {
      size := size - 1;
    }

    // -------------------------------------------------------------------------
    // Inserting and erasing at a position

    /** Emplace(pos, args): inserts v in front of position pos and returns pos.
        In an empty vector it is EmplaceBack; a full vector relocates
        (InsertRelocating), any other inserts in place (InsertInPlace). */
    method Emplace(pos: nat, v: T) returns (r: nat)
      requires Valid() && pos <= size
      modifies Repr()
      ensures Valid() && r == pos
      ensures Model() == VectorModel.Insert(old(Model()), pos, v)
      ensures old(size) < old(data.capacity) ==> data.buffer == old(data.buffer)
      ensures old(size) == old(data.capacity) ==> fresh(data.buffer)
    {
      if size == 0 {
        var _ := EmplaceBack(v);
        assert Contents() == VectorModel.InsertAt(old(Contents()), pos, v);
        return size - 1;
      }
      var distance := pos;
      if size == data.capacity {
        InsertRelocating(distance, v);
      } else {
        InsertInPlace(distance, v);
      }
      return distance;
    }

    /** The full branch of Emplace: a fresh block of GrowthCapacity(size) slots, v
        constructed at pos first, then the elements before and after pos transferred
        around it, then the old block swapped out. */
    method InsertRelocating(pos: nat, v: T)
      requires Valid() && 0 < size == data.capacity && pos <= size
      modifies this, data
      ensures Valid() && fresh(data.buffer)
      ensures Model() == VectorModel.Insert(old(Model()), pos, v)
    {
      var newData := new RawMemory(VectorModel.GrowthCapacity(size));
      newData.buffer[pos] := v;
      CopyN(data.buffer, 0, pos, newData.buffer, 0);
      CopyN(data.buffer, pos, size - pos, newData.buffer, pos + 1);
      // The old elements are destroyed and the old block leaves with newData.
      data.Swap(newData);
      size := size + 1;
      assert Contents() == VectorModel.InsertAt(old(Contents()), pos, v);
    }

    /** The in-place branch of Emplace: the last element is moved into the first free
        slot, the elements [pos, size - 1) are shifted one slot to the right from the
        back, and v is assigned to slot pos. */
    method InsertInPlace(pos: nat, v: T)
      requires Valid() && 0 < size < data.capacity && pos <= size
      modifies this, data.buffer
      ensures Valid() && data.buffer == old(data.buffer)
      ensures Model() == VectorModel.Insert(old(Model()), pos, v)
    {
      var buffer := v;
      data.buffer[size] := data.buffer[size - 1];
      // The source shifts [pos, size - 1) unconditionally, which is not a range when
      // pos == size; there nothing needs shifting.
      if pos < size {
        MoveBackward(data.buffer, pos, size - 1, size);
      }
      data.buffer[pos] := buffer;
      size := size + 1;
      assert Contents() == VectorModel.InsertAt(old(Contents()), pos, v);
    }

    /** Insert(pos, value): Emplace(pos, value). */
    method Insert(pos: nat, v: T) returns (r: nat)
      requires Valid() && pos <= size
      modifies Repr()
      ensures Valid() && r == pos
      ensures Model() == VectorModel.Insert(old(Model()), pos, v)
      ensures old(size) < old(data.capacity) ==> data.buffer == old(data.buffer)
      ensures old(size) == old(data.capacity) ==> fresh(data.buffer)
    {
      r := Emplace(pos, v);
    }

    /** Erase(pos): moves the elements (pos, size) one slot to the left, destroys the
        last slot and returns pos, now the position of the element that followed the
        erased one. The storage is kept. */
    method Erase(pos: nat) returns (r: nat)
      requires Valid() && pos < size
      modifies this, data.buffer
      ensures Valid() && r == pos && data.buffer == old(data.buffer)
      ensures Model() == VectorModel.Erase(old(Model()), pos)
    {
      var distance := pos;
      // The source forms the address of slot distance + 1 with the bounds-checked
      // operator[]; the address one past the last slot needs operator+.
      MoveForward(data.buffer, data.Offset(distance + 1), size, data.Offset(distance));
      // The last slot is destroyed.
      size := size - 1;
      assert Contents() == VectorModel.RemoveAt(old(Contents()), pos);
      return pos;
    }

    // -------------------------------------------------------------------------
    // Two vectors

    /** Swap(other): exchanges storage and size with other. */
    method Swap(other: Vector<T>)
      requires Valid() && other.Valid()
      requires other == this || Repr() !! other.Repr()
      modifies this, data, other, other.data
      ensures Valid() && other.Valid()
      ensures other != this ==> Model() == old(other.Model()) && other.Model() == old(Model())
      ensures other != this ==> data.buffer == old(other.data.buffer) && other.data.buffer == old(data.buffer)
      ensures other == this ==> Model() == old(Model()) && data.buffer == old(data.buffer)
    {
      data.Swap(other.data);
      var s := size;
      size := other.size;
      other.size := s;
    }

    /** operator=(Vector&&): Swap, so rhs ends up with what this vector held. */
    method MoveAssign(rhs: Vector<T>)
      requires Valid() && rhs.Valid()
      requires rhs == this || Repr() !! rhs.Repr()
      modifies this, data, rhs, rhs.data
      ensures Valid() && rhs.Valid()
      ensures rhs != this ==> Model() == old(rhs.Model()) && rhs.Model() == old(Model())
      ensures rhs != this ==> data.buffer == old(rhs.data.buffer) && rhs.data.buffer == old(data.buffer)
      ensures rhs == this ==> Model() == old(Model()) && data.buffer == old(data.buffer)
    {
      Swap(rhs);
    }

    /** operator=(const Vector&): nothing happens on self-assignment. When rhs does
        not fit, a copy of rhs is swapped in (copy-and-swap); otherwise the overlap
        min(size, rhs.size) is overwritten in place and the rest is either
        constructed from rhs or destroyed. */
    method CopyAssign(rhs: Vector<T>)
      requires Valid() && rhs.Valid()
      requires rhs == this || Repr() !! rhs.Repr()
      modifies Repr()
      ensures Valid()
      ensures Model() == VectorModel.CopyAssign(old(Model()), old(rhs.Model()))
      ensures rhs == this ==> Model() == old(Model())
      ensures rhs != this ==> rhs.Model() == old(rhs.Model())
      ensures old(rhs.size) <= old(data.capacity) ==> data.buffer == old(data.buffer)
      ensures old(data.capacity) < old(rhs.size) ==> fresh(data.buffer)
    {
      if this != rhs {
        if rhs.size > data.capacity {
          var rhsCopy := new Vector.Copy(rhs);
          Swap(rhsCopy);
        } else {
          if rhs.size >= size {
            CopyN(rhs.data.buffer, 0, size, data.buffer, 0);
            CopyN(rhs.data.buffer, size, rhs.size - size, data.buffer, size);
          } else {
            CopyN(rhs.data.buffer, 0, rhs.size, data.buffer, 0);
            // The elements [rhs.size, size) are destroyed.
          }
        }
        size := rhs.size;
        assert Contents() == rhs.Contents();
      } else {
        VectorModel.CopyAssignSelf(Model());
      }
    }
  }
}
