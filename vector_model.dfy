/** The abstract behaviour of Vector<T> (advanced-vector/vector.h): a vector is its
    live elements, the slots [0, size) of its storage, together with the capacity of
    that storage. Most operations of the class are functions on this value; the
    class in vector.dfy is proved to follow them, and the lemmas here state what
    holds across several operations. */
module VectorModel {

  /** Live elements and storage capacity of one vector. */
  datatype Vec<T> = Vec(elems: seq<T>, cap: nat)

  /** The object invariant size_ <= Capacity(). */
  predicate Valid<T>(m: Vec<T>) {
    |m.elems| <= m.cap
  }

  function Max(a: nat, b: nat): nat {
    if a < b then b else a
  }

  // ---------------------------------------------------------------------------
  // Sequence operations behind the element shifts

  /** The elements after inserting v in front of position pos (Emplace/Insert). */
  function InsertAt<T>(s: seq<T>, pos: nat, v: T): (r: seq<T>)
    requires pos <= |s|
    ensures |r| == |s| + 1
    ensures r[pos] == v
    ensures forall i :: 0 <= i < pos ==> r[i] == s[i]
    ensures forall i :: pos < i < |r| ==> r[i] == s[i - 1]
  {
    s[..pos] + [v] + s[pos..]
  }

  /** The elements after removing the one at position pos (Erase). */
  function RemoveAt<T>(s: seq<T>, pos: nat): (r: seq<T>)
    requires pos < |s|
    ensures |r| == |s| - 1
    ensures forall i :: 0 <= i < pos ==> r[i] == s[i]
    ensures forall i :: pos <= i < |r| ==> r[i] == s[i + 1]
  {
    s[..pos] + s[pos + 1..]
  }

  /** The elements after Resize(n): a prefix of s, or s padded with value-initialised
      elements init. */
  function Resized<T>(s: seq<T>, n: nat, init: T): (r: seq<T>)
    ensures |r| == n
    ensures forall i :: 0 <= i < n && i < |s| ==> r[i] == s[i]
    ensures forall i :: |s| <= i < n ==> r[i] == init
  {
    if n <= |s| then s[..n] else s + seq(n - |s|, _ => init)
  }

  // ---------------------------------------------------------------------------
  // The growth policy

  /** Capacity of the new storage when an insertion finds the storage full:
      `size_ == 0 ? 1 : size_ * 2`. */
  function GrowthCapacity(size: nat): (c: nat)
    ensures size < c
  {
    if size == 0 then 1 else size * 2
  }

  // ---------------------------------------------------------------------------
  // One function per operation of Vector

  /** Vector(): no storage. */
  function Empty<T>(): Vec<T> {
    Vec([], 0)
  }

  /** Vector(n): n value-initialised elements in storage of capacity n. */
  function Sized<T>(n: nat, init: T): Vec<T> {
    Vec(seq(n, _ => init), n)
  }

  /** Vector(const Vector&): storage allocated for exactly the source's size. */
  function CopyOf<T>(m: Vec<T>): Vec<T> {
    Vec(m.elems, |m.elems|)
  }

  /** Reserve(n): relocates into storage of exactly n slots when n exceeds the capacity. */
  function Reserve<T>(m: Vec<T>, n: nat): Vec<T> {
    if n <= m.cap then m else Vec(m.elems, n)
  }

  /** Resize(n): grows through Reserve(n) and value-initialises the new tail, or drops
      the tail while keeping the storage. */
  function Resize<T>(m: Vec<T>, n: nat, init: T): Vec<T> {
    if n > |m.elems| then Vec(Resized(m.elems, n, init), Reserve(m, n).cap)
    else Vec(Resized(m.elems, n, init), m.cap)
  }

  /** Capacity after one more element is added: grown when full, otherwise kept. */
  function CapacityForOneMore<T>(m: Vec<T>): nat {
    if |m.elems| == m.cap then GrowthCapacity(|m.elems|) else m.cap
  }

  /** PushBack(v) / EmplaceBack(v). */
  function PushBack<T>(m: Vec<T>, v: T): Vec<T> {
    Vec(m.elems + [v], CapacityForOneMore(m))
  }

  /** PopBack(): undefined on an empty vector. */
  function PopBack<T>(m: Vec<T>): Vec<T>
    requires |m.elems| > 0
  {
    Vec(m.elems[..|m.elems| - 1], m.cap)
  }

  /** Emplace(pos, v) / Insert(pos, v). */
  function Insert<T>(m: Vec<T>, pos: nat, v: T): Vec<T>
    requires pos <= |m.elems|
  {
    Vec(InsertAt(m.elems, pos, v), CapacityForOneMore(m))
  }

  /** Erase(pos). */
  function Erase<T>(m: Vec<T>, pos: nat): Vec<T>
    requires pos < |m.elems|
  {
    Vec(RemoveAt(m.elems, pos), m.cap)
  }

  /** operator=(const Vector& rhs) on distinct vectors: copy-and-swap when rhs does not
      fit, element-wise overwrite in place otherwise. */
  function CopyAssign<T>(m: Vec<T>, rhs: Vec<T>): Vec<T> {
    if |rhs.elems| > m.cap then CopyOf(rhs) else Vec(rhs.elems, m.cap)
  }

  // ---------------------------------------------------------------------------
  // Properties of single operations

  /** Every operation keeps the invariant size <= capacity. */
  lemma OperationsKeepValid<T>(m: Vec<T>, n: nat, pos: nat, v: T, rhs: Vec<T>)
    requires Valid(m) && Valid(rhs)
    ensures Valid(Empty<T>()) && Valid(Sized(n, v)) && Valid(CopyOf(m))
    ensures Valid(Reserve(m, n)) && Valid(Resize(m, n, v)) && Valid(PushBack(m, v))
    ensures |m.elems| > 0 ==> Valid(PopBack(m))
    ensures pos <= |m.elems| ==> Valid(Insert(m, pos, v))
    ensures pos < |m.elems| ==> Valid(Erase(m, pos))
    ensures Valid(CopyAssign(m, rhs))
  {
  }

  /** The growth policy doubles a non-empty full vector and gives an empty one a
      single slot: the new capacity is max(1, 2 * size). */
  lemma GrowthDoubles<T>(m: Vec<T>, v: T)
    requires Valid(m) && |m.elems| == m.cap
    ensures PushBack(m, v).cap == Max(1, 2 * |m.elems|)
    ensures PushBack(m, v).cap >= |m.elems| + 1
  {
  }

  /** Vector(n) holds n elements, each the value-initialised one. */
  lemma SizedIsDefault<T>(n: nat, init: T)
    ensures |Sized(n, init).elems| == n && Sized(n, init).cap == n
    ensures forall i :: 0 <= i < n ==> Sized(n, init).elems[i] == init
  {
  }

  /** Reserve(n): a no-op when n <= capacity; otherwise capacity exactly n. Either way
      the capacity is at least n, never shrinks, the elements stay where they were,
      and reserving again is a no-op. */
  lemma ReserveGuarantees<T>(m: Vec<T>, n: nat)
    ensures n <= m.cap ==> Reserve(m, n) == m
    ensures m.cap < n ==> Reserve(m, n).cap == n
    ensures Reserve(m, n).cap >= n && Reserve(m, n).cap >= m.cap
    ensures Reserve(m, n).elems == m.elems
    ensures Reserve(Reserve(m, n), n) == Reserve(m, n)
  {
  }

  /** Resize(n): size n, the first min(size, n) elements kept, a grown tail holding
      init, capacity max(capacity, n) when growing and unchanged when shrinking;
      Resize to the current size changes nothing. */
  lemma ResizeGuarantees<T>(m: Vec<T>, n: nat, init: T)
    requires Valid(m)
    ensures |Resize(m, n, init).elems| == n
    ensures forall i :: 0 <= i < n && i < |m.elems| ==> Resize(m, n, init).elems[i] == m.elems[i]
    ensures forall i :: |m.elems| <= i < n ==> Resize(m, n, init).elems[i] == init
    ensures n > |m.elems| ==> Resize(m, n, init).cap == Max(m.cap, n)
    ensures n <= |m.elems| ==> Resize(m, n, init).cap == m.cap
    ensures n == |m.elems| ==> Resize(m, n, init) == m
  {
  }

  /** Growing and then resizing back restores the original elements. */
  lemma ResizeBackRestores<T>(m: Vec<T>, n: nat, init: T)
    requires Valid(m) && |m.elems| <= n
    ensures Resize(Resize(m, n, init), |m.elems|, init).elems == m.elems
    ensures Resize(Resize(m, n, init), |m.elems|, init).cap == Max(m.cap, n)
  {
  }

  /** Copy assignment of a vector to itself leaves it unchanged. */
  lemma CopyAssignSelf<T>(m: Vec<T>)
    requires Valid(m)
    ensures CopyAssign(m, m) == m
  {
  }

  /** Copy assignment gives the target exactly the source's elements; the capacity
      is kept when the source fits and becomes the source's size otherwise. */
  lemma CopyAssignGuarantees<T>(m: Vec<T>, rhs: Vec<T>)
    ensures CopyAssign(m, rhs).elems == rhs.elems
    ensures CopyAssign(m, rhs).cap == Max(m.cap, |rhs.elems|)
  {
  }

  // ---------------------------------------------------------------------------
  // Insert and Erase are inverse to each other

  /** Removing what was inserted gives back the sequence. */
  lemma RemoveAtInsertAt<T>(s: seq<T>, pos: nat, v: T)
    requires pos <= |s|
    ensures RemoveAt(InsertAt(s, pos, v), pos) == s
  {
  }

  /** Re-inserting what was removed gives back the sequence. */
  lemma InsertAtRemoveAt<T>(s: seq<T>, pos: nat)
    requires pos < |s|
    ensures InsertAt(RemoveAt(s, pos), pos, s[pos]) == s
  {
  }

  /** Insert(pos, v) followed by Erase(pos) restores the elements; the capacity
      never shrinks. */
  lemma EraseUndoesInsert<T>(m: Vec<T>, pos: nat, v: T)
    requires Valid(m) && pos <= |m.elems|
    ensures Erase(Insert(m, pos, v), pos).elems == m.elems
    ensures Erase(Insert(m, pos, v), pos).cap >= m.cap
  {
  }

  /** Erase(pos) followed by re-inserting the erased element at pos restores the
      elements. */
  lemma InsertUndoesErase<T>(m: Vec<T>, pos: nat)
    requires Valid(m) && pos < |m.elems|
    ensures Insert(Erase(m, pos), pos, m.elems[pos]).elems == m.elems
    ensures Insert(Erase(m, pos), pos, m.elems[pos]).cap == m.cap
  {
  }

  /** PushBack is Insert at the end. */
  lemma PushBackIsInsertAtEnd<T>(m: Vec<T>, v: T)
    ensures Insert(m, |m.elems|, v) == PushBack(m, v)
  {
  }

  // ---------------------------------------------------------------------------
  // Sequences of PushBack and PopBack

  /** PushBack of every element of vs, in order. */
  function PushAll<T>(m: Vec<T>, vs: seq<T>): (r: Vec<T>)
    requires Valid(m)
    ensures Valid(r)
    ensures r.elems == m.elems + vs
    ensures r.cap >= m.cap
    decreases |vs|
  {
    if vs == [] then m else PushAll(PushBack(m, vs[0]), vs[1..])
  }

  /** PopBack k times. */
  function PopN<T>(m: Vec<T>, k: nat): (r: Vec<T>)
    requires k <= |m.elems|
    ensures r.elems == m.elems[..|m.elems| - k]
    ensures r.cap == m.cap
    decreases k
  {
    if k == 0 then m else PopN(PopBack(m), k - 1)
  }

  /** Pushing any elements and popping the same number restores the elements, and
      the capacity is never lower than before. */
  lemma PushThenPopRestores<T>(m: Vec<T>, vs: seq<T>)
    requires Valid(m)
    ensures PopN(PushAll(m, vs), |vs|).elems == m.elems
    ensures PopN(PushAll(m, vs), |vs|).cap == PushAll(m, vs).cap >= m.cap
  {
  }

  /** 2^k for some k. */
  predicate IsPowerOfTwo(n: nat)
    decreases n
  {
    n == 1 || (n > 1 && n % 2 == 0 && IsPowerOfTwo(n / 2))
  }

  /** The shape of the storage of a vector built only by PushBack from Vector():
      no storage while empty, otherwise a power of two below twice the size. */
  predicate Tight<T>(m: Vec<T>) {
    (m.elems == [] && m.cap == 0)
    || (IsPowerOfTwo(m.cap) && |m.elems| <= m.cap < 2 * |m.elems|)
  }

  lemma PushBackKeepsTight<T>(m: Vec<T>, v: T)
    requires Tight(m)
    ensures Tight(PushBack(m, v))
  {
  }

  lemma {:induction false} PushAllKeepsTight<T>(m: Vec<T>, vs: seq<T>)
    requires Tight(m)
    ensures Tight(PushAll(m, vs))
    decreases |vs|
  {
    if vs != [] {
      PushBackKeepsTight(m, vs[0]);
      PushAllKeepsTight(PushBack(m, vs[0]), vs[1..]);
    }
  }

  /** Amortised growth: after n pushes into Vector() the capacity is a power of two
      at least n and below 2n, so doubling wastes less than half the storage. */
  lemma PushesFromEmptyAreTight<T>(vs: seq<T>)
    ensures |vs| == 0 ==> PushAll(Empty(), vs).cap == 0
    ensures |vs| > 0 ==> IsPowerOfTwo(PushAll(Empty(), vs).cap)
    ensures |vs| > 0 ==> |vs| <= PushAll(Empty(), vs).cap < 2 * |vs|
  {
    PushAllKeepsTight(Empty(), vs);
  }
}
