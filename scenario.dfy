/** Callers of Vector: what can be concluded about concrete vectors of integers from
    the contracts of the operations alone. */
module VectorScenarios {
  import VectorModel
  import opened DynamicArray

  /** Vector() after PushBack 1, 2, 3: [1, 2, 3] in four slots. */
  method PushOneTwoThree() returns (v: Vector<int>)
    ensures v.Valid() && fresh(v.Repr())
    ensures v.Model() == VectorModel.Vec([1, 2, 3], 4)
  {
    v := new Vector<int>();
    v.PushBack(1);
    v.PushBack(2);
    v.PushBack(3);
    assert v.Contents() == [1, 2, 3];
  }

  /** PushBack 1, 2, 3; Insert 99 at position 1; Erase position 1; Resize(5) with
      the value-initialised int 0; PopBack twice. Returns the elements after each
      step and the capacity at each step. */
  method BasicScenario() returns (pushed: seq<int>, inserted: seq<int>, erased: seq<int>,
                                   resized: seq<int>, popped: seq<int>, caps: seq<nat>)
    ensures pushed == [1, 2, 3]
    ensures inserted == [1, 99, 2, 3]
    ensures erased == [1, 2, 3]
    ensures resized == [1, 2, 3, 0, 0]
    ensures popped == [1, 2, 3]
    ensures caps == [4, 4, 4, 5, 5]
  {
    var v := PushOneTwoThree();
    pushed := v.Contents();
    var c0 := v.Capacity();

    var at := v.Insert(1, 99);
    inserted := v.Contents();
    assert VectorModel.InsertAt([1, 2, 3], 1, 99) == [1, 99, 2, 3];
    var c1 := v.Capacity();

    at := v.Erase(at);
    erased := v.Contents();
    assert VectorModel.RemoveAt([1, 99, 2, 3], 1) == [1, 2, 3];
    var c2 := v.Capacity();

    v.Resize(5, 0);
    resized := v.Contents();
    assert VectorModel.Resized([1, 2, 3], 5, 0) == [1, 2, 3, 0, 0];
    var c3 := v.Capacity();

    v.PopBack();
    v.PopBack();
    popped := v.Contents();
    assert [1, 2, 3, 0, 0][..4][..3] == [1, 2, 3];
    var c4 := v.Capacity();
    caps := [c0, c1, c2, c3, c4];
  }

  /** Vector(2) from Vector(n) with both elements set, and a copy of it: the copy has
      the elements in exactly two slots and does not see a later PushBack on the
      source. */
  method CopyScenario() returns (copied: seq<int>, copyCap: nat, source: seq<int>)
    ensures copied == [7, 8] && copyCap == 2
    ensures source == [7, 8, 9]
  {
    var a := new Vector<int>.Sized(2, 0);
    a.Set(0, 7);
    a.Set(1, 8);
    var b := new Vector<int>.Copy(a);
    a.PushBack(9);
    copied := b.Contents();
    copyCap := b.Capacity();
    source := a.Contents();
    assert [7, 8] + [9] == [7, 8, 9];
  }

  /** Move construction empties the source; self-assignment in either form changes
      nothing. */
  method MoveScenario() returns (moved: seq<int>, movedCap: nat, leftSize: nat, leftCap: nat,
                                  selfAssigned: seq<int>)
    ensures moved == [5, 6] && movedCap == 2
    ensures leftSize == 0 && leftCap == 0
    ensures selfAssigned == [5, 6]
  {
    var a := new Vector<int>();
    a.PushBack(5);
    a.PushBack(6);
    var c := new Vector<int>.Move(a);
    moved := c.Contents();
    movedCap := c.Capacity();
    leftSize := a.Size();
    leftCap := a.Capacity();
    c.CopyAssign(c);
    c.MoveAssign(c);
    selfAssigned := c.Contents();
  }

  /** The moved-from vector keeps working on storage of its own: a PushBack into it
      leaves the vector that took over its elements untouched. */
  method MovedFromReuseScenario() returns (target: seq<int>, reused: seq<int>)
    ensures target == [5, 6] && reused == [1]
  {
    var a := new Vector<int>();
    a.PushBack(5);
    a.PushBack(6);
    var c := new Vector<int>.Move(a);
    a.PushBack(1);
    target := c.Contents();
    reused := a.Contents();
  }

  /** Move assignment swaps: each vector ends with what the other held. */
  method SwapScenario() returns (first: seq<int>, second: seq<int>)
    ensures first == [] && second == [3]
  {
    var a := new Vector<int>();
    a.PushBack(3);
    var b := new Vector<int>();
    b.MoveAssign(a);
    first := a.Contents();
    second := b.Contents();
  }
}
