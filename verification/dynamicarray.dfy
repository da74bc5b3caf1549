/**
 The generic growable array of `include/zero/dynamicarray.h`.

 A block holds a `{size, capacity}` header followed by `capacity` element
 slots; the user's pointer is to the first slot. Here the slots are the
 sequence `buffer` (so the capacity is its length) and the array's
 contents are its first `size` slots. The slots past `size` keep whatever
 they held, which is observable when the array grows again without a
 `realloc`. Each editing operation takes the environment's answer to a
 possible `realloc` (`reallocSucceeds`) and the values that fresh memory
 holds (`garbage`).
 */
module DynamicArray {
  import opened Platform
  import opened Memory
  import opened ArrayCapacity

  datatype DynArray<T> = DynArray(buffer: seq<T>, size: nat)

  /** The header's `capacity` field. */
  function Capacity<T>(a: DynArray<T>): nat {
    |a.buffer|
  }

  /** The elements the array holds. */
  function Contents<T>(a: DynArray<T>): seq<T>
    requires a.size <= |a.buffer|
  {
    a.buffer[..a.size]
  }

  /** The array invariant for elements of `elementSize` bytes. */
  predicate Valid<T>(a: DynArray<T>, elementSize: nat) {
    elementSize > 0 && a.size <= |a.buffer| <= MaxCapacity(elementSize)
  }

  /** The status an operation returns, and the array the caller holds afterwards. */
  datatype Update<T> = Update(status: Status, result: DynArray<T>)

  /** What `zrCreate<Name>` returns: a status, and an array on success. */
  datatype Created<T> = Created(status: Status, result: Option<DynArray<T>>)

  /** A position clamped to the size, as the extending operations do. */
  function Clamp(size: nat, position: nat): nat {
    if position > size then size else position
  }

  /**
   `zrCreate<Name>`: an array of `count` elements whose size and capacity
   are both `count`, or an error status and no array.
   */
  function Create<T>(count: nat, elementSize: nat, reallocSucceeds: bool, garbage: nat -> T): (r: Created<T>)
    requires elementSize > 0 && IsSize(count)
    ensures r.status.Success? <==> r.result.Some?
    ensures r.status.ErrorMaxSizeExceeded? <==> count > MaxCapacity(elementSize)
    ensures r.status.ErrorAllocation? <==> count <= MaxCapacity(elementSize) && !reallocSucceeds
    ensures r.result.Some? ==>
      Valid(r.result.value, elementSize) && r.result.value.size == count && Capacity(r.result.value) == count
  {
    match EnsureCapacity(false, 0, count, elementSize, reallocSucceeds)
    case Grown(capacity) => Created(Success, Some(DynArray(Realloced([], capacity, garbage)[..count], count)))
    case MaxSizeExceeded => Created(ErrorMaxSizeExceeded, None)
    case AllocationFailed => Created(ErrorAllocation, None)
  }

  /**
   `zrReserve<Name>`, which is also the capacity step every growing
   operation starts with: the contents never change; on success the
   capacity is at least `capacity`; on error the array is untouched.
   */
  function Reserve<T>(a: DynArray<T>, capacity: nat, elementSize: nat, reallocSucceeds: bool,
                      garbage: nat -> T): (r: Update<T>)
    requires Valid(a, elementSize)
    ensures Valid(r.result, elementSize) && r.result.size == a.size
    ensures Contents(r.result) == Contents(a)
    ensures r.status.Success? ==> Capacity(r.result) >= capacity
    ensures r.status.ErrorMaxSizeExceeded? <==> capacity > MaxCapacity(elementSize)
    ensures r.status.ErrorAllocation? <==>
      capacity <= MaxCapacity(elementSize) && Capacity(a) < capacity && !reallocSucceeds
    ensures !r.status.Success? ==> r.result == a
    ensures Capacity(a) >= capacity ==> r.result == a
  {
    match EnsureCapacity(true, |a.buffer|, capacity, elementSize, reallocSucceeds)
    case Grown(c) =>
      var b := Realloced(a.buffer, c, garbage);
      assert b[..a.size] == a.buffer[..a.size];
      Update(Success, DynArray(b, a.size))
    case Enough => Update(Success, a)
    case MaxSizeExceeded => Update(ErrorMaxSizeExceeded, a)
    case AllocationFailed => Update(ErrorAllocation, a)
  }

  /**
   `zrResize<Name>`: on success the size is `count` and the first
   `min(old size, count)` elements are kept; on error nothing changes.
   */
  function Resize<T>(a: DynArray<T>, count: nat, elementSize: nat, reallocSucceeds: bool,
                     garbage: nat -> T): (r: Update<T>)
    requires Valid(a, elementSize)
    ensures Valid(r.result, elementSize)
    ensures r.status == Reserve(a, count, elementSize, reallocSucceeds, garbage).status
    ensures r.status.Success? ==>
      r.result.size == count &&
      Contents(r.result)[..Min(count, a.size)] == Contents(a)[..Min(count, a.size)]
    ensures !r.status.Success? ==> r.result == a
  {
    var g := Reserve(a, count, elementSize, reallocSucceeds, garbage);
    if g.status.Success? then
      assert g.result.buffer[..Min(count, a.size)] == Contents(g.result)[..Min(count, a.size)];
      Update(Success, DynArray(g.result.buffer, count))
    else g
  }

  /**
   `zrExtend<Name>`: `count` slots are opened at `position` (clamped to the
   size) by moving the tail up; the slots' values are unspecified. The
   capacity request is the mathematical `size + count`, so a sum beyond
   `SIZE_MAX` is refused like any other request above the maximum.
   */
  function Extend<T>(a: DynArray<T>, position: nat, count: nat, elementSize: nat, reallocSucceeds: bool,
                     garbage: nat -> T): (r: Update<T>)
    requires Valid(a, elementSize)
    ensures Valid(r.result, elementSize)
    ensures r.status.ErrorMaxSizeExceeded? <==> a.size + count > MaxCapacity(elementSize)
    ensures r.status.ErrorAllocation? <==>
      a.size + count <= MaxCapacity(elementSize) && Capacity(a) < a.size + count && !reallocSucceeds
    ensures !r.status.Success? ==> r.result == a
    ensures r.status.Success? ==>
      var p := Clamp(a.size, position);
      r.result.size == a.size + count &&
      Contents(r.result)[..p] == Contents(a)[..p] &&
      Contents(r.result)[p + count..] == Contents(a)[p..]
  {
    ExtendAfter(a, Clamp(a.size, position), count, Reserve(a, a.size + count, elementSize, reallocSucceeds, garbage))
  }

  /** The step of `zrExtend<Name>` after the reservation `g`: on success the tail is shifted up by `count`. */
  function ExtendAfter<T>(a: DynArray<T>, p: nat, count: nat, g: Update<T>): Update<T>
    requires p <= a.size == g.result.size && (g.status.Success? ==> a.size + count <= |g.result.buffer|)
  {
    if !g.status.Success? then g
    else Update(Success, DynArray(ShiftTail(g.result.buffer, a.size, p, count), a.size + count))
  }

  /**
   The `memmove` of `zrExtend<Name>`: the `size - p` slots from `p` move
   up by `count`, which keeps the first `p` of the first `size` slots and
   puts the rest after a gap of `count`.
   */
  function ShiftTail<T>(b: seq<T>, size: nat, p: nat, count: nat): (r: seq<T>)
    requires p <= size && size + count <= |b|
    ensures |r| == |b|
    ensures r[..size + count][..p] == b[..size][..p] && r[..size + count][p + count..] == b[..size][p..]
  {
    var m := Move(b, p + count, p, size - p);
    assert m[..size + count][..p] == m[..p];
    assert b[..size][..p] == b[..p];
    assert m[..size + count][p + count..] == m[p + count .. size + count];
    assert b[..size][p..] == b[p..size];
    m
  }

  /**
   `zrInsert<Name>`: on success the contents are the old ones with
   `values` inserted at `position` (clamped to the size); on error nothing
   changes.
   */
  function Insert<T>(a: DynArray<T>, position: nat, values: seq<T>, elementSize: nat, reallocSucceeds: bool,
                     garbage: nat -> T): (r: Update<T>)
    requires Valid(a, elementSize)
    ensures Valid(r.result, elementSize)
    ensures r.status == Extend(a, position, |values|, elementSize, reallocSucceeds, garbage).status
    ensures !r.status.Success? ==> r.result == a
    ensures r.status.Success? ==>
      var p := Clamp(a.size, position);
      Contents(r.result) == Contents(a)[..p] + values + Contents(a)[p..]
  {
    var e := Extend(a, position, |values|, elementSize, reallocSucceeds, garbage);
    var p := Clamp(a.size, position);
    var r := InsertAfter(p, values, e);
    if !e.status.Success? then r
    else
      var b := e.result.buffer;
      assert Contents(r.result) == Contents(a)[..p] + values + Contents(a)[p..] by {
        assert b[..p] == Contents(e.result)[..p];
        assert Contents(r.result) == b[..p] + values + b[p + |values| .. e.result.size];
        assert b[p + |values| .. e.result.size] == Contents(e.result)[p + |values|..];
      }
      r
  }

  /** The step of `zrInsert<Name>` after the extension `e`: on success `values` fill the gap at `p`. */
  function InsertAfter<T>(p: nat, values: seq<T>, e: Update<T>): Update<T>
    requires e.status.Success? ==> p + |values| <= e.result.size <= |e.result.buffer|
  {
    if !e.status.Success? then e
    else
      var b := e.result.buffer;
      Update(Success, DynArray(b[..p] + values + b[p + |values|..], e.result.size))
  }

  /**
   `zrPush<Name>`: one slot is opened at `position` (clamped to the size)
   and `value` is stored in it.
   */
  function Push<T>(a: DynArray<T>, position: nat, value: T, elementSize: nat, reallocSucceeds: bool,
                   garbage: nat -> T): (r: Update<T>)
    requires Valid(a, elementSize)
    ensures Valid(r.result, elementSize)
    ensures r.status == Extend(a, position, 1, elementSize, reallocSucceeds, garbage).status
    ensures !r.status.Success? ==> r.result == a
    ensures r.status.Success? ==>
      var p := Clamp(a.size, position);
      Contents(r.result) == Contents(a)[..p] + [value] + Contents(a)[p..]
  {
    var e := Extend(a, position, 1, elementSize, reallocSucceeds, garbage);
    var p := Clamp(a.size, position);
    var r := PushAfter(p, value, e);
    if !e.status.Success? then r
    else
      StoreInPrefix(e.result.buffer, e.result.size, p, value);
      r
  }

  /** Storing `v` in slot `p` of the first `size` slots replaces the element there. */
  lemma StoreInPrefix<T>(b: seq<T>, size: nat, p: nat, v: T)
    requires p < size <= |b|
    ensures b[p := v][..size] == b[..size][..p] + [v] + b[..size][p + 1..]
  {
    var w := b[p := v][..size];
    var want := b[..size][..p] + [v] + b[..size][p + 1..];
    forall x | 0 <= x < size
      ensures w[x] == want[x]
    {
      if x < p {
        assert want[x] == b[..size][..p][x];
      } else if p < x {
        assert want[x] == b[..size][p + 1..][x - p - 1];
      }
    }
  }

  /** The step of `zrPush<Name>` after the extension `e`: on success `value` is stored at `p`. */
  function PushAfter<T>(p: nat, value: T, e: Update<T>): Update<T>
    requires e.status.Success? ==> p < e.result.size <= |e.result.buffer|
  {
    if !e.status.Success? then e
    else Update(Success, DynArray(e.result.buffer[p := value], e.result.size))
  }

  /** Pushing a value is inserting the one-element sequence holding it. */
  lemma PushIsInsert<T>(a: DynArray<T>, position: nat, value: T, elementSize: nat, reallocSucceeds: bool,
                        garbage: nat -> T)
    requires Valid(a, elementSize)
    ensures Push(a, position, value, elementSize, reallocSucceeds, garbage)
         == Insert(a, position, [value], elementSize, reallocSucceeds, garbage)
  {
    PushIsAfter(a, position, value, elementSize, reallocSucceeds, garbage);
    InsertIsAfter(a, position, [value], elementSize, reallocSucceeds, garbage);
    PushAfterIsInsertAfter(Clamp(a.size, position), value,
                           Extend(a, position, 1, elementSize, reallocSucceeds, garbage));
  }

  /** `Push` is its step after the extension by one slot. */
  lemma PushIsAfter<T>(a: DynArray<T>, position: nat, value: T, elementSize: nat, reallocSucceeds: bool,
                       garbage: nat -> T)
    requires Valid(a, elementSize)
    ensures Push(a, position, value, elementSize, reallocSucceeds, garbage)
         == PushAfter(Clamp(a.size, position), value, Extend(a, position, 1, elementSize, reallocSucceeds, garbage))
  {
  }

  /** `Insert` is its step after the extension by `|values|` slots. */
  lemma InsertIsAfter<T>(a: DynArray<T>, position: nat, values: seq<T>, elementSize: nat, reallocSucceeds: bool,
                         garbage: nat -> T)
    requires Valid(a, elementSize)
    ensures Insert(a, position, values, elementSize, reallocSucceeds, garbage)
         == InsertAfter(Clamp(a.size, position), values,
                        Extend(a, position, |values|, elementSize, reallocSucceeds, garbage))
  {
  }

  /** Storing a value in a slot is filling a one-slot gap with it. */
  lemma PushAfterIsInsertAfter<T>(p: nat, value: T, e: Update<T>)
    requires e.status.Success? ==> p < e.result.size <= |e.result.buffer|
    ensures PushAfter(p, value, e) == InsertAfter(p, [value], e)
  {
    if e.status.Success? {
      var b := e.result.buffer;
      assert b[p := value] == b[..p] + [value] + b[p + 1..];
    }
  }

  // ---------------------------------------------------------------------
  // Front and back variants
  // ---------------------------------------------------------------------

  /** `zrExtend<Name>Front`: the old contents end up after the `count` new slots. */
  function ExtendFront<T>(a: DynArray<T>, count: nat, elementSize: nat, reallocSucceeds: bool,
                          garbage: nat -> T): (r: Update<T>)
    requires Valid(a, elementSize)
    ensures Valid(r.result, elementSize)
    ensures r.status.ErrorMaxSizeExceeded? <==> a.size + count > MaxCapacity(elementSize)
    ensures r.status.ErrorAllocation? <==>
      a.size + count <= MaxCapacity(elementSize) && Capacity(a) < a.size + count && !reallocSucceeds
    ensures r.status.Success? ==>
      r.result.size == a.size + count && Contents(r.result)[count..] == Contents(a)
    ensures !r.status.Success? ==> r.result == a
  {
    Extend(a, 0, count, elementSize, reallocSucceeds, garbage)
  }

  /** `zrExtend<Name>Back`: the old contents stay in front of the `count` new slots. */
  function ExtendBack<T>(a: DynArray<T>, count: nat, elementSize: nat, reallocSucceeds: bool,
                         garbage: nat -> T): (r: Update<T>)
    requires Valid(a, elementSize)
    ensures Valid(r.result, elementSize)
    ensures r.status.ErrorMaxSizeExceeded? <==> a.size + count > MaxCapacity(elementSize)
    ensures r.status.ErrorAllocation? <==>
      a.size + count <= MaxCapacity(elementSize) && Capacity(a) < a.size + count && !reallocSucceeds
    ensures r.status.Success? ==>
      r.result.size == a.size + count && Contents(r.result)[..a.size] == Contents(a)
    ensures !r.status.Success? ==> r.result == a
  {
    Extend(a, a.size, count, elementSize, reallocSucceeds, garbage)
  }

  /** `zrInsert<Name>Front`: prepends `values`. */
  function InsertFront<T>(a: DynArray<T>, values: seq<T>, elementSize: nat, reallocSucceeds: bool,
                          garbage: nat -> T): (r: Update<T>)
    requires Valid(a, elementSize)
    ensures Valid(r.result, elementSize)
    ensures r.status.ErrorMaxSizeExceeded? <==> a.size + |values| > MaxCapacity(elementSize)
    ensures r.status.ErrorAllocation? <==>
      a.size + |values| <= MaxCapacity(elementSize) && Capacity(a) < a.size + |values| && !reallocSucceeds
    ensures r.status.Success? ==> Contents(r.result) == values + Contents(a)
    ensures !r.status.Success? ==> r.result == a
  {
    assert Clamp(a.size, 0) == 0;
    assert Contents(a)[..0] + values + Contents(a)[0..] == values + Contents(a);
    Insert(a, 0, values, elementSize, reallocSucceeds, garbage)
  }

  /** `zrInsert<Name>Back`: position `(ZrSize)-1` clamps to the size, so `values` are appended. */
  function InsertBack<T>(a: DynArray<T>, values: seq<T>, elementSize: nat, reallocSucceeds: bool,
                         garbage: nat -> T): (r: Update<T>)
    requires Valid(a, elementSize)
    ensures Valid(r.result, elementSize)
    ensures r.status.ErrorMaxSizeExceeded? <==> a.size + |values| > MaxCapacity(elementSize)
    ensures r.status.ErrorAllocation? <==>
      a.size + |values| <= MaxCapacity(elementSize) && Capacity(a) < a.size + |values| && !reallocSucceeds
    ensures r.status.Success? ==> Contents(r.result) == Contents(a) + values
    ensures !r.status.Success? ==> r.result == a
  {
    MaxCapacityBelowSizeMax(elementSize);
    assert Clamp(a.size, SIZE_MAX) == a.size;
    assert Contents(a)[..a.size] + values + Contents(a)[a.size..] == Contents(a) + values;
    Insert(a, SIZE_MAX, values, elementSize, reallocSucceeds, garbage)
  }

  /** `zrPush<Name>Front`: prepends `value`. */
  function PushFront<T>(a: DynArray<T>, value: T, elementSize: nat, reallocSucceeds: bool,
                        garbage: nat -> T): (r: Update<T>)
    requires Valid(a, elementSize)
    ensures Valid(r.result, elementSize)
    ensures r.status.ErrorMaxSizeExceeded? <==> a.size + 1 > MaxCapacity(elementSize)
    ensures r.status.ErrorAllocation? <==>
      a.size + 1 <= MaxCapacity(elementSize) && Capacity(a) < a.size + 1 && !reallocSucceeds
    ensures r.status.Success? ==> Contents(r.result) == [value] + Contents(a)
    ensures !r.status.Success? ==> r.result == a
  {
    Push(a, 0, value, elementSize, reallocSucceeds, garbage)
  }

  /** `zrPush<Name>Back`: appends `value`. */
  function PushBack<T>(a: DynArray<T>, value: T, elementSize: nat, reallocSucceeds: bool,
                       garbage: nat -> T): (r: Update<T>)
    requires Valid(a, elementSize)
    ensures Valid(r.result, elementSize)
    ensures r.status.ErrorMaxSizeExceeded? <==> a.size + 1 > MaxCapacity(elementSize)
    ensures r.status.ErrorAllocation? <==>
      a.size + 1 <= MaxCapacity(elementSize) && Capacity(a) < a.size + 1 && !reallocSucceeds
    ensures r.status.Success? ==> Contents(r.result) == Contents(a) + [value]
    ensures !r.status.Success? ==> r.result == a
  {
    MaxCapacityBelowSizeMax(elementSize);
    Push(a, SIZE_MAX, value, elementSize, reallocSucceeds, garbage)
  }

  // ---------------------------------------------------------------------
  // Trimming
  // ---------------------------------------------------------------------

  /** The number of elements a trim at `position < size` removes. */
  function TrimCount(size: nat, position: nat, count: nat): (c: nat)
    requires position < size
  {
    if count > size - position then size - position else count
  }

  /**
   `zrTrim<Name>` with the tail moved down: a position at or past the size
   changes nothing; otherwise `min(count, size - position)` elements are
   removed at `position` and the elements after them close the gap. The
   capacity never changes.
   */
  function Trim<T>(a: DynArray<T>, position: nat, count: nat): (r: DynArray<T>)
    requires a.size <= |a.buffer|
    ensures r.size <= |r.buffer| && Capacity(r) == Capacity(a)
    ensures position >= a.size ==> r == a
    ensures position < a.size ==>
      r.size == a.size - Min(count, a.size - position) &&
      Contents(r) == Contents(a)[..position] + Contents(a)[position + Min(count, a.size - position)..]
  {
    if position >= a.size then a
    else
      var c := TrimCount(a.size, position, count);
      var moved := Move(a.buffer, position, position + c, a.size - position - c);
      var r := DynArray(moved, a.size - c);
      assert Contents(r) == Contents(a)[..position] + Contents(a)[position + c..] by {
        assert Contents(r) == moved[..position] + moved[position .. a.size - c];
        assert moved[position .. a.size - c] == a.buffer[position + c .. a.size];
      }
      r
  }

  /** `zrTrim<Name>Front`: drops the first `min(count, size)` elements. */
  function TrimFront<T>(a: DynArray<T>, count: nat): (r: DynArray<T>)
    requires a.size <= |a.buffer|
    ensures r.size <= |r.buffer| && Capacity(r) == Capacity(a)
    ensures Contents(r) == Contents(a)[Min(count, a.size)..]
  {
    Trim(a, 0, count)
  }

  /**
   `zrTrim<Name>Back` as evidently intended: drops the last
   `min(count, size)` elements.
   */
  function TrimBack<T>(a: DynArray<T>, count: nat): (r: DynArray<T>)
    requires a.size <= |a.buffer|
    ensures r.size <= |r.buffer| && Capacity(r) == Capacity(a)
    ensures r.size == a.size - Min(count, a.size)
    ensures Contents(r) == Contents(a)[..a.size - Min(count, a.size)]
  {
    Trim(a, a.size - Min(count, a.size), count)
  }

  // ---------------------------------------------------------------------
  // The operations as the source writes them
  // ---------------------------------------------------------------------

  /**
   `zrTrim<Name>` as written: the `memmove` moves `count` elements (after
   clamping) from `position + count` down to `position`, not the
   `size - position - count` elements of the tail. `None` stands for a
   `memmove` that reads past the end of the block.
   */
  function TrimAsWritten<T>(a: DynArray<T>, position: nat, count: nat): (r: Option<DynArray<T>>)
    requires a.size <= |a.buffer|
    ensures position >= a.size ==> r == Some(a)
    ensures r.None? <==>
      position < a.size && position + 2 * Min(count, a.size - position) > |a.buffer|
    ensures r.Some? && position < a.size ==>
      r.value.size == a.size - Min(count, a.size - position) && |r.value.buffer| == |a.buffer| &&
      Contents(r.value)[..position] == Contents(a)[..position]
  {
    if position >= a.size then Some(a)
    else
      var c := TrimCount(a.size, position, count);
      if position + 2 * c > |a.buffer| then None
      else
        var r := DynArray(Move(a.buffer, position, position + c, c), a.size - c);
        assert Contents(r)[..position] == a.buffer[..position];
        Some(r)
  }

  /**
   The trim as written gets the contents right when the removed run is at
   least as long as the tail after it and the `memmove` stays inside the
   block.
   */
  lemma TrimAsWrittenAgrees<T>(a: DynArray<T>, position: nat, count: nat)
    requires a.size <= |a.buffer| && position < a.size
    requires a.size - position - Min(count, a.size - position) <= Min(count, a.size - position)
    requires position + 2 * Min(count, a.size - position) <= |a.buffer|
    ensures TrimAsWritten(a, position, count).Some?
    ensures Contents(TrimAsWritten(a, position, count).value) == Contents(Trim(a, position, count))
  {
    var c := TrimCount(a.size, position, count);
    MoveCoversTail(a.buffer, a.size, position, c);
  }

  /**
   Moving `c` slots from `position + c` down to `position` closes the gap
   of `c` slots when the tail after the gap is at most `c` slots long.
   */
  lemma MoveCoversTail<T>(b: seq<T>, size: nat, position: nat, c: nat)
    requires position + c <= size <= |b| && size - position - c <= c && position + 2 * c <= |b|
    ensures Move(b, position, position + c, c)[..size - c] == b[..size][..position] + b[..size][position + c..]
  {
    var w := Move(b, position, position + c, c);
    var want := b[..size][..position] + b[..size][position + c..];
    assert |want| == size - c;
    forall x | 0 <= x < size - c
      ensures w[x] == want[x]
    {
      if x < position {
        assert w[x] == w[..position][x];
        assert want[x] == b[..size][..position][x];
      } else {
        assert w[x] == w[position .. position + c][x - position];
        assert want[x] == b[..size][position + c..][x - position];
      }
    }
  }

  /**
   Trimming one element at the front of `[1, 2, 3]` as written leaves
   `[2, 2]`: only one element is moved down, so the last one is lost and
   the second is duplicated. The corrected trim leaves `[2, 3]`. Trimming
   two elements reads past the three-slot block.
   */
  lemma TrimLosesTail()
    ensures TrimAsWritten(DynArray([1, 2, 3], 3), 0, 1) == Some(DynArray([2, 2, 3], 2))
    ensures Contents(DynArray([2, 2, 3], 2)) == [2, 2]
    ensures Contents(Trim(DynArray([1, 2, 3], 3), 0, 1)) == [2, 3]
    ensures TrimAsWritten(DynArray([1, 2, 3], 3), 0, 2).None?
  {
    var a := DynArray([1, 2, 3], 3);
    assert Move(a.buffer, 0, 1, 1) == [2, 2, 3];
    assert Contents(a)[1..] == [2, 3];
  }

  /**
   `zrTrim<Name>Back` as written: it trims at position `(ZrSize)-1`, which
   is never below the size, so it always returns early and removes
   nothing.
   */
  function TrimBackAsWritten<T>(a: DynArray<T>, count: nat): (r: Option<DynArray<T>>)
    requires a.size <= |a.buffer| && IsSize(a.size)
    ensures r == Some(a)
  {
    TrimAsWritten(a, SIZE_MAX, count)
  }

  /** Trimming one element at the back of `[1, 2, 3]` as written keeps all three; the corrected trim leaves `[1, 2]`. */
  lemma TrimBackRemovesNothing()
    ensures TrimBackAsWritten(DynArray([1, 2, 3], 3), 1) == Some(DynArray([1, 2, 3], 3))
    ensures Contents(TrimBack(DynArray([1, 2, 3], 3), 1)) == [1, 2]
  {
    assert Contents(DynArray([1, 2, 3], 3))[..2] == [1, 2];
  }

  /**
   `zrExtend<Name>` as written: the capacity request and the new size are
   `size + count` computed in `size_t`, so they wrap around. `None` stands
   for a `memmove` that writes past the end of the block.
   */
  function ExtendAsWritten<T>(a: DynArray<T>, position: nat, count: nat, elementSize: nat, reallocSucceeds: bool,
                              garbage: nat -> T): (r: Option<Update<T>>)
    requires Valid(a, elementSize) && IsSize(count)
    ensures r.Some? && r.value.status.Success? ==> r.value.result.size == Wrap(a.size + count)
    ensures r.Some? && !r.value.status.Success? ==> r.value.result == a
  {
    ExtendAfterAsWritten(a, Clamp(a.size, position), count,
                         Reserve(a, Wrap(a.size + count), elementSize, reallocSucceeds, garbage))
  }

  /** The step of `zrExtend<Name>` as written after the reservation `g`. */
  function ExtendAfterAsWritten<T>(a: DynArray<T>, p: nat, count: nat, g: Update<T>): Option<Update<T>>
    requires p <= a.size == g.result.size <= |g.result.buffer|
  {
    if !g.status.Success? then Some(g)
    else
      var m := ShiftTailAsWritten(g.result.buffer, a.size, p, count);
      if m.None? then None else Some(Update(Success, DynArray(m.value, Wrap(a.size + count))))
  }

  /**
   The `memmove` of `zrExtend<Name>` as written: the `size - p` slots from
   `p` go to `p + count` computed in `size_t`; nothing moves when there is
   no tail, and `None` stands for a destination past the end of the block.
   */
  function ShiftTailAsWritten<T>(b: seq<T>, size: nat, p: nat, count: nat): (r: Option<seq<T>>)
    requires p <= size <= |b|
    ensures r.Some? ==> |r.value| == |b|
  {
    var tail := size - p;
    var dst := Wrap(p + count);
    if tail == 0 then Some(b)
    else if dst + tail > |b| then None
    else Some(Move(b, dst, p, tail))
  }

  /** Where `size + count` does not wrap, the extension as written is the corrected one. */
  lemma ExtendAsWrittenAgrees<T>(a: DynArray<T>, position: nat, count: nat, elementSize: nat, reallocSucceeds: bool,
                                 garbage: nat -> T)
    requires Valid(a, elementSize) && a.size + count <= SIZE_MAX
    ensures ExtendAsWritten(a, position, count, elementSize, reallocSucceeds, garbage)
         == Some(Extend(a, position, count, elementSize, reallocSucceeds, garbage))
  {
    ExtendIsAfter(a, position, count, elementSize, reallocSucceeds, garbage);
    ExtendAsWrittenAgreesAfter(a, position, count, elementSize, reallocSucceeds, garbage);
  }

  /** `Extend` is its step after the reservation of `size + count` slots. */
  lemma ExtendIsAfter<T>(a: DynArray<T>, position: nat, count: nat, elementSize: nat, reallocSucceeds: bool,
                         garbage: nat -> T)
    requires Valid(a, elementSize)
    ensures Extend(a, position, count, elementSize, reallocSucceeds, garbage)
         == ExtendAfter(a, Clamp(a.size, position), count, Reserve(a, a.size + count, elementSize, reallocSucceeds, garbage))
  {
  }

  /** Where `size + count` does not wrap, the extension as written is the corrected step after the same reservation. */
  lemma ExtendAsWrittenAgreesAfter<T>(a: DynArray<T>, position: nat, count: nat, elementSize: nat,
                                      reallocSucceeds: bool, garbage: nat -> T)
    requires Valid(a, elementSize) && a.size + count <= SIZE_MAX
    ensures ExtendAsWritten(a, position, count, elementSize, reallocSucceeds, garbage)
         == Some(ExtendAfter(a, Clamp(a.size, position), count, Reserve(a, a.size + count, elementSize, reallocSucceeds, garbage)))
  {
    var g := Reserve(a, a.size + count, elementSize, reallocSucceeds, garbage);
    var p := Clamp(a.size, position);
    ExtendAsWrittenUnfolds(a, position, count, elementSize, reallocSucceeds, garbage);
    ExtendAfterAgrees(a, p, count, g);
  }

  /** Where `size + count` does not wrap, the extension as written reserves `size + count` slots. */
  lemma ExtendAsWrittenUnfolds<T>(a: DynArray<T>, position: nat, count: nat, elementSize: nat, reallocSucceeds: bool,
                                  garbage: nat -> T)
    requires Valid(a, elementSize) && a.size + count <= SIZE_MAX
    ensures ExtendAsWritten(a, position, count, elementSize, reallocSucceeds, garbage)
         == ExtendAfterAsWritten(a, Clamp(a.size, position), count, Reserve(a, a.size + count, elementSize, reallocSucceeds, garbage))
  {
    assert Wrap(a.size + count) == a.size + count;
  }

  /** Where `size + count` does not wrap, the two steps after the same reservation agree. */
  lemma ExtendAfterAgrees<T>(a: DynArray<T>, p: nat, count: nat, g: Update<T>)
    requires p <= a.size == g.result.size <= |g.result.buffer| && a.size + count <= SIZE_MAX
    requires g.status.Success? ==> a.size + count <= |g.result.buffer|
    ensures ExtendAfterAsWritten(a, p, count, g) == Some(ExtendAfter(a, p, count, g))
  {
    assert Wrap(a.size + count) == a.size + count;
    if g.status.Success? {
      ShiftTailAgrees(g.result.buffer, a.size, p, count);
    }
  }

  /** Where `p + count` does not wrap and the block is large enough, the shift as written is the `memmove` of `Extend`. */
  lemma ShiftTailAgrees<T>(b: seq<T>, size: nat, p: nat, count: nat)
    requires p <= size && size + count <= |b| && size + count <= SIZE_MAX
    ensures ShiftTailAsWritten(b, size, p, count) == Some(ShiftTail(b, size, p, count))
  {
    assert Wrap(p + count) == p + count;
    if size == p {
      assert Move(b, p + count, p, 0) == b;
    }
  }

  /**
   Appending `SIZE_MAX` slots to a one-element array of bytes as written
   succeeds and leaves the array empty: the request `1 + SIZE_MAX` wraps to
   0, which the capacity check accepts, no element moves, and the size
   wraps to 0. The corrected `Extend` reports that the maximum size is
   exceeded.
   */
  lemma ExtendSizeWraps(garbage: nat -> int)
    ensures Valid(DynArray([7], 1), 1)
    ensures ExtendAsWritten(DynArray([7], 1), 1, SIZE_MAX, 1, true, garbage)
         == Some(Update(Success, DynArray([7], 0)))
    ensures Extend(DynArray([7], 1), 1, SIZE_MAX, 1, true, garbage).status == ErrorMaxSizeExceeded
  {
    var a := DynArray([7], 1);
    MaxCapacityBelowSizeMax(1);
    assert MaxCapacity(1) >= 1 by {
      DivModUnique(SIZE_MAX - ARRAY_HEADER_SIZE, 1, SIZE_MAX - ARRAY_HEADER_SIZE, 0);
    }
    assert Wrap(1 + SIZE_MAX) == 0 by {
      DivModUnique(1 + SIZE_MAX, SIZE_MODULUS, 1, 0);
    }
  }
}
