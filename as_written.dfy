/** Two places where advanced-vector/vector.h leaves defined behaviour on inputs its
    own preconditions admit. Each function says which calls the code as written
    supports (None: the call is undefined or aborts) and what it produces when it
    has a defined result; the lemmas name the inputs that fall outside. The class in
    vector.dfy implements the corrected versions. */
module AsWritten {
  import opened VectorModel

  datatype Option<T> = None | Some(value: T)

  /** Erase(pos) as written: the first argument of std::move is &data_[pos + 1],
      taken through RawMemory::operator[], which asserts pos + 1 < capacity. */
  function EraseAsWritten<T>(m: Vec<T>, pos: nat): (r: Option<Vec<T>>)
    requires Valid(m) && pos < |m.elems|
    ensures r.Some? ==> r.value == Erase(m, pos)
  {
    if pos + 1 < m.cap then Some(Erase(m, pos)) else None
  }

  /** The assertion fires exactly when the last element of a full vector is erased. */
  lemma EraseAsWrittenFailsExactlyOnFullTail<T>(m: Vec<T>, pos: nat)
    requires Valid(m) && pos < |m.elems|
    ensures EraseAsWritten(m, pos).None? <==> pos + 1 == |m.elems| == m.cap
  {
  }

  /** Concrete input: one element in one slot (what PushBack into Vector() gives),
      erased at position 0. */
  lemma EraseAsWrittenCounterexample()
    ensures Valid(PushBack(Empty(), 7)) && PushBack(Empty(), 7) == Vec([7], 1)
    ensures EraseAsWritten(PushBack(Empty(), 7), 0) == None
    ensures Erase(PushBack(Empty(), 7), 0) == Vec([], 1)
  {
  }

  /** The in-place branch of Emplace(pos) as written (0 < size < capacity): it calls
      std::move_backward(&data_[pos], end() - 1, end()), whose source [pos, size - 1)
      is a range only when pos <= size - 1. Even if the library skipped the reversed
      pair, slot size - 1 would hold the moved-from former last element; values in
      this model are not changed by a move, so that part is not shown. */
  function InPlaceEmplaceAsWritten<T>(m: Vec<T>, pos: nat, v: T): (r: Option<Vec<T>>)
    requires 0 < |m.elems| < m.cap && pos <= |m.elems|
    ensures r.Some? ==> r.value == Insert(m, pos, v)
  {
    if pos <= |m.elems| - 1 then Some(Insert(m, pos, v)) else None
  }

  /** The range is reversed exactly when inserting at end() of a non-empty vector that
      has a free slot. */
  lemma InPlaceEmplaceAsWrittenFailsExactlyAtEnd<T>(m: Vec<T>, pos: nat, v: T)
    requires 0 < |m.elems| < m.cap && pos <= |m.elems|
    ensures InPlaceEmplaceAsWritten(m, pos, v).None? <==> pos == |m.elems|
  {
  }

  /** Concrete input: Vector() after PushBack(1), PushBack(2), PushBack(3) holds
      [1, 2, 3] in four slots; Insert(end(), 4) hands move_backward the range
      [3, 2). The intended result appends 4. */
  lemma InPlaceEmplaceAsWrittenCounterexample()
    ensures PushAll(Empty(), [1, 2, 3]) == Vec([1, 2, 3], 4)
    ensures InPlaceEmplaceAsWritten(Vec([1, 2, 3], 4), 3, 4) == None
    ensures Insert(Vec([1, 2, 3], 4), 3, 4) == Vec([1, 2, 3, 4], 4)
  {
  }
}
