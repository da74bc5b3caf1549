/**
 Capacity management of the generic growable array of
 `include/zero/dynamicarray.h`: the per-type maximum capacity, the 1.5x
 growth rule with its overflow fallback, and the check that decides
 whether a request is refused, already satisfied, or needs a `realloc`.
 */
module ArrayCapacity {
  import opened Platform

  /** `sizeof(struct ZrpDynamicArrayHeader)`: two `size_t` fields, `size` and `capacity`. */
  const ARRAY_HEADER_SIZE: nat := 16

  /** `enum ZrStatus` restricted to the values the dynamic array returns. */
  datatype Status = Success | ErrorAllocation | ErrorMaxSizeExceeded

  /**
   `zrpMax<Name>Capacity` for elements of `elementSize` bytes: the largest
   element count whose block (header plus elements) still has a size that
   fits in a `size_t`.
   */
  function MaxCapacity(elementSize: nat): (r: nat)
    requires elementSize > 0
    ensures ARRAY_HEADER_SIZE + r * elementSize <= SIZE_MAX
    ensures ARRAY_HEADER_SIZE + (r + 1) * elementSize > SIZE_MAX
  {
    var x := SIZE_MAX - ARRAY_HEADER_SIZE;
    var q := x / elementSize;
    assert x == q * elementSize + x % elementSize;
    assert (q + 1) * elementSize == q * elementSize + elementSize;
    q
  }

  /** No element count at or above the maximum reaches `SIZE_MAX` itself. */
  lemma MaxCapacityBelowSizeMax(elementSize: nat)
    requires elementSize > 0
    ensures MaxCapacity(elementSize) < SIZE_MAX
  {
    var m := MaxCapacity(elementSize);
    assert m <= m * elementSize by {
      if m > 0 {
        AtLeastOnce(elementSize, m);
      }
    }
  }

  /**
   A block sized for at most the maximum number of elements has a byte
   count that does not wrap around.
   */
  lemma {:induction false} BlockBytesFit(elementSize: nat, capacity: nat)
    requires elementSize > 0 && capacity <= MaxCapacity(elementSize)
    ensures ARRAY_HEADER_SIZE + capacity * elementSize <= SIZE_MAX
  {
    var m := MaxCapacity(elementSize);
    assert capacity * elementSize <= m * elementSize by {
      assert m * elementSize - capacity * elementSize == (m - capacity) * elementSize;
    }
  }

  /** The 1.5x growth step `current + current / 2 + 1`, before any wrap-around. */
  function GrowthStep(current: nat): nat {
    current + current / 2 + 1
  }

  /**
   `zrpDynamicArrayGetNewCapacity` as written: the growth step is computed
   in `size_t` and a wrapped result (smaller than `current`) is replaced by
   `max`; otherwise the larger of the step and the request is taken, and
   nothing clamps it to `max`. The contract states that the wrap-around
   test is exact.
   */
  function NewCapacityAsWritten(current: nat, requested: nat, max: nat): (r: nat)
    requires IsSize(current) && IsSize(requested) && IsSize(max)
    ensures IsSize(r)
    ensures GrowthStep(current) > SIZE_MAX ==> r == max
    ensures GrowthStep(current) <= SIZE_MAX ==>
      r >= GrowthStep(current) && r >= requested && (r == GrowthStep(current) || r == requested)
  {
    var grown := Wrap(current + current / 2 + 1);
    if grown < current then max
    else if grown < requested then requested
    else grown
  }

  /**
   The growth rule with the result clamped to `max`, which is what the
   assertion `newCapacity <= maxCapacity` after the call expects. It
   differs from the code as written only where that code breaks the
   assertion.
   */
  function GrowCapacity(current: nat, requested: nat, max: nat): (r: nat)
    requires IsSize(current) && requested <= max <= SIZE_MAX
    ensures requested <= r <= max
    ensures r == max || r == requested || r == GrowthStep(current)
    ensures r >= GrowthStep(current) || r == max
  {
    var r := NewCapacityAsWritten(current, requested, max);
    if r > max then max else r
  }

  /**
   The growth rule as written can overshoot the maximum: for 4-byte
   elements, growing a capacity of `max - 1` to `max` yields
   `0x5FFF_FFFF_FFFF_FFF8` elements, beyond `max`, and the byte count
   handed to `realloc` wraps around to `0x7FFF_FFFF_FFFF_FFF0`, fewer bytes
   than the `max` elements requested need. The clamped rule yields `max`.
   */
  lemma NewCapacityExceedsMax()
    ensures MaxCapacity(4) == 0x3FFF_FFFF_FFFF_FFFB
    ensures
      var max := MaxCapacity(4);
      var n := NewCapacityAsWritten(max - 1, max, max);
      n == 0x5FFF_FFFF_FFFF_FFF8 && n > max &&
      Wrap(ARRAY_HEADER_SIZE + 4 * n) == 0x7FFF_FFFF_FFFF_FFF0 &&
      Wrap(ARRAY_HEADER_SIZE + 4 * n) < ARRAY_HEADER_SIZE + 4 * max &&
      GrowCapacity(max - 1, max, max) == max
  {
    var max := MaxCapacity(4);
    assert SIZE_MAX - ARRAY_HEADER_SIZE == 4 * 0x3FFF_FFFF_FFFF_FFFB + 3;
    DivModUnique(SIZE_MAX - ARRAY_HEADER_SIZE, 4, 0x3FFF_FFFF_FFFF_FFFB, 3);
    assert max == 0x3FFF_FFFF_FFFF_FFFB;
    var n := NewCapacityAsWritten(max - 1, max, max);
    assert GrowthStep(max - 1) == 0x5FFF_FFFF_FFFF_FFF8;
    assert n == 0x5FFF_FFFF_FFFF_FFF8;
    assert ARRAY_HEADER_SIZE + 4 * n == SIZE_MODULUS + 0x7FFF_FFFF_FFFF_FFF0;
    DivModUnique(ARRAY_HEADER_SIZE + 4 * n, SIZE_MODULUS, 1, 0x7FFF_FFFF_FFFF_FFF0);
  }

  /** What `zrpDynamicArrayEnsureHasEnoughCapacity` decides. */
  datatype Reservation =
    | MaxSizeExceeded        // the request is above the per-type maximum
    | AllocationFailed       // `realloc` returned null; the block is untouched
    | Enough                 // the existing block already has the capacity
    | Grown(capacity: nat)   // the block was reallocated with this capacity

  /** The status code the decision is reported with. */
  function StatusOf(r: Reservation): (s: Status)
    ensures s.Success? <==> r.Enough? || r.Grown?
    ensures s.ErrorMaxSizeExceeded? <==> r.MaxSizeExceeded?
  {
    match r
    case MaxSizeExceeded => ErrorMaxSizeExceeded
    case AllocationFailed => ErrorAllocation
    case Enough => Success
    case Grown(_) => Success
  }

  /**
   `zrpDynamicArrayEnsureHasEnoughCapacity` with the clamped growth rule.
   `hasBlock` says whether a block exists yet and `reallocSucceeds` is the
   environment's answer to the `realloc` call, if one is made.
   */
  function EnsureCapacity(hasBlock: bool, current: nat, requested: nat, elementSize: nat,
                          reallocSucceeds: bool): (r: Reservation)
    requires elementSize > 0 && IsSize(current)
    ensures r.MaxSizeExceeded? <==> requested > MaxCapacity(elementSize)
    ensures r.Enough? <==> requested <= MaxCapacity(elementSize) && hasBlock && current >= requested
    ensures r.AllocationFailed? <==>
      requested <= MaxCapacity(elementSize) && !(hasBlock && current >= requested) && !reallocSucceeds
    ensures r.Grown? ==>
      requested <= r.capacity <= MaxCapacity(elementSize) &&
      (hasBlock ==> r.capacity > current) &&
      ARRAY_HEADER_SIZE + r.capacity * elementSize <= SIZE_MAX
  {
    var max := MaxCapacity(elementSize);
    if requested > max then MaxSizeExceeded
    else if hasBlock && current >= requested then Enough
    else
      var capacity := GrowCapacity(current, requested, max);
      BlockBytesFit(elementSize, capacity);
      if reallocSucceeds then Grown(capacity) else AllocationFailed
  }
}
