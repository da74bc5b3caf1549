/**
 The aligned allocator of `include/zero/allocator.h`.

 An aligned allocation asks the underlying `malloc` for a block larger than
 the request, places the user buffer at the first suitably aligned address
 that leaves room for a header in front of it, and records in that header
 the distance `offset` back to the block and the user `size`. Freeing and
 resizing recover the block from the user pointer through that header.

 Addresses are naturals. The bytes of a block are a `seq<byte>` indexed
 from the start of the block. What `malloc` and `realloc` answer is a
 parameter of each operation, and so are the bytes of fresh memory
 (`garbage`).
 */
module Allocator {
  import opened Platform
  import opened Bits
  import opened Memory

  /** `sizeof(ZrpAllocatorAlignedHeader)`: a `ptrdiff_t` offset and a `size_t` size. */
  const HEADER_SIZE: nat := 16

  /** The alignment the header type needs (that of its 8-byte members). */
  const HEADER_ALIGNMENT: nat := 8

  /** `zrpAllocatorMinAlignment`: the larger of the header's alignment and `sizeof(void *)`. */
  const MIN_ALIGNMENT: nat :=
    if HEADER_ALIGNMENT > POINTER_SIZE then HEADER_ALIGNMENT else POINTER_SIZE

  // ---------------------------------------------------------------------
  // Power-of-two test and alignment arithmetic
  // ---------------------------------------------------------------------

  /** `zrpAllocatorIsPowerOfTwo`: the decrement-and-compare test. */
  predicate IsPowerOfTwo(x: nat) {
    x != 0 && BitAnd(x, x - 1) == 0
  }

  /** The test accepts exactly the powers of two. */
  lemma IsPowerOfTwoCorrect(x: nat)
    ensures IsPowerOfTwo(x) <==> IsPow2(x)
  {
    if x != 0 {
      AndPredecessorZero(x);
    }
  }

  lemma MinAlignmentIsPowerOfTwo()
    ensures IsPow2(MIN_ALIGNMENT)
  {
    assert MIN_ALIGNMENT == Pow2(3);
  }

  /**
   The alignment actually used: a requested power of two below the minimum
   is bumped up to the minimum. The result is still a power of two, at
   least the request, and a multiple of both `sizeof(void *)` and the
   header's alignment.
   */
  function EffectiveAlignment(alignment: nat): (r: nat)
    requires IsPowerOfTwo(alignment)
    ensures r >= alignment && r >= MIN_ALIGNMENT
    ensures r == alignment || r == MIN_ALIGNMENT
    ensures IsPowerOfTwo(r)
    ensures r % POINTER_SIZE == 0 && r % HEADER_ALIGNMENT == 0
  {
    IsPowerOfTwoCorrect(alignment);
    MinAlignmentIsPowerOfTwo();
    var r := if alignment < MIN_ALIGNMENT then MIN_ALIGNMENT else alignment;
    IsPowerOfTwoCorrect(r);
    Pow2Ordered(MIN_ALIGNMENT, r);
    r
  }

  /** The block size the aligned functions ask for, as a mathematical value. */
  function AlignedBlockSize(size: nat, alignment: nat): nat
    requires alignment >= 1
  {
    size + alignment - 1 + HEADER_SIZE
  }

  /**
   `ZRP_ALLOCATOR_GET_ALIGNED_BLOCK_SIZE` as the C code evaluates it, in
   `size_t` arithmetic: it wraps around when the request is close to
   `SIZE_MAX`.
   */
  function AlignedBlockSizeAsWritten(size: nat, alignment: nat): (r: nat)
    requires alignment >= 1
    ensures IsSize(r)
    ensures AlignedBlockSize(size, alignment) <= SIZE_MAX ==> r == AlignedBlockSize(size, alignment)
  {
    Wrap(size + alignment - 1 + HEADER_SIZE)
  }

  /**
   The wrap-around is reachable: a request of `SIZE_MAX - 30` bytes at
   alignment 16 computes a block size of 0, so no block the allocator
   returns can hold the buffer.
   */
  lemma AlignedBlockSizeWraps()
    ensures IsPowerOfTwo(16) && EffectiveAlignment(16) == 16
    ensures AlignedBlockSizeAsWritten(SIZE_MAX - 30, 16) == 0
    ensures AlignedBlockSize(SIZE_MAX - 30, 16) > SIZE_MAX
  {
    IsPowerOfTwoCorrect(16);
    assert 16 == Pow2(4);
  }

  /** Every power of two that fits in a `size_t` is `2^k` for some `k` below 64. */
  lemma SmallPowerOfTwo(a: nat) returns (k: nat)
    requires IsPowerOfTwo(a) && a <= SIZE_MAX
    ensures k < 64 && a == Pow2(k)
  {
    IsPowerOfTwoCorrect(a);
    k :| a == Pow2(k);
    Address64();
    if k >= 64 {
      if k > 64 {
        Pow2Monotone(64, k);
      }
    }
  }

  /** A power of two that fits in a `size_t` is at most `2^63`, half the modulus. */
  lemma PowerOfTwoAtMostHalf(a: nat)
    requires IsPowerOfTwo(a) && a <= SIZE_MAX
    ensures 2 * a <= SIZE_MODULUS
  {
    var k := SmallPowerOfTwo(a);
    Address64();
    if k < 63 {
      Pow2Monotone(k, 63);
    }
  }

  lemma Address64()
    ensures Pow2(64) == ADDRESS_SPACE
  {
    assert Pow2(8) == 256;
    Pow2Add(8, 8);
    assert Pow2(16) == 0x1_0000;
    Pow2Add(16, 16);
    assert Pow2(32) == 0x1_0000_0000;
    Pow2Add(32, 32);
  }

  /**
   `ZRP_ALLOCATOR_GET_ALIGNED_BUFFER`: the first address past room for a
   header that is a multiple of `alignment`, computed by adding
   `alignment - 1 + sizeof(header)` and masking with `~(alignment - 1)`.
   The mask rounds down to a multiple of the alignment, so the buffer
   leaves room for the header behind it and lies at most `alignment - 1`
   bytes further; `AlignedBufferIsAligned` states that it is aligned.
   */
  function AlignedBuffer(block: nat, alignment: nat): (r: nat)
    requires IsPowerOfTwo(alignment) && alignment <= SIZE_MAX
    requires block + alignment - 1 + HEADER_SIZE < ADDRESS_SPACE
    ensures block + HEADER_SIZE <= r <= block + HEADER_SIZE + alignment - 1
  {
    var v := block + alignment - 1 + HEADER_SIZE;
    MaskRoundsDown(v, alignment);
    RoundDown(v, alignment);
    BitAnd(v, ADDRESS_SPACE - alignment)
  }

  /** The buffer address is a multiple of the alignment. */
  lemma AlignedBufferIsAligned(block: nat, alignment: nat)
    requires IsPowerOfTwo(alignment) && alignment <= SIZE_MAX
    requires block + alignment - 1 + HEADER_SIZE < ADDRESS_SPACE
    ensures AlignedBuffer(block, alignment) % alignment == 0
  {
    var v := block + alignment - 1 + HEADER_SIZE;
    MaskRoundsDown(v, alignment);
    RoundDown(v, alignment);
  }

  lemma MaskRoundsDown(v: nat, alignment: nat)
    requires IsPowerOfTwo(alignment) && alignment <= SIZE_MAX
    requires v < ADDRESS_SPACE
    ensures BitAnd(v, ADDRESS_SPACE - alignment) == v - v % alignment
  {
    var k := SmallPowerOfTwo(alignment);
    Address64();
    Pow2Monotone(k, 64);
    BitAndClearLow(v, 64, k);
  }

  /** `v - v % a` is the largest multiple of `a` not above `v`. */
  lemma RoundDown(v: nat, a: nat)
    requires a > 0
    ensures (v - v % a) % a == 0
    ensures v - a < v - v % a <= v
  {
    DivModUnique(v - v % a, a, v / a, 0);
  }

  /** The buffer is the one multiple of the alignment that lies between `block + HEADER_SIZE` and `alignment - 1` bytes further. */
  lemma AlignedBufferIs(block: nat, alignment: nat, x: nat)
    requires IsPowerOfTwo(alignment) && alignment <= SIZE_MAX
    requires block + alignment - 1 + HEADER_SIZE < ADDRESS_SPACE
    requires x % alignment == 0 && block + HEADER_SIZE <= x <= block + HEADER_SIZE + alignment - 1
    ensures AlignedBuffer(block, alignment) == x
  {
    var r := AlignedBuffer(block, alignment);
    AlignedBufferIsAligned(block, alignment);
    if r >= x {
      SameRemainderClose(x, r - x, alignment);
    } else {
      SameRemainderClose(r, x - r, alignment);
    }
  }

  /** Two multiples of `a` less than `a` apart are equal. */
  lemma SameRemainderClose(x: nat, t: nat, a: nat)
    requires a > 0 && t < a && x % a == 0 && (x + t) % a == 0
    ensures t == 0
  {
    var q := x / a;
    assert x == q * a + x % a;
    ModOfMultipleShift(t, q, a);
    DivModUnique(t, a, 0, t);
  }

  /** A multiple of a multiple of `m` is a multiple of `m`. */
  lemma MultipleOfMultiple(x: nat, a: nat, m: nat)
    requires a > 0 && m > 0
    requires x % a == 0 && a % m == 0
    ensures x % m == 0
  {
    var p, q := x / a, a / m;
    DivModUnique(x, a, p, 0);
    DivModUnique(a, m, q, 0);
    assert x == p * a;
    assert a == q * m;
    assert x == (p * q) * m;
    DivModUnique(x, m, p * q, 0);
  }

  /** The header in front of the user buffer lands on an address suited to the header type. */
  lemma HeaderAligned(block: nat, alignment: nat)
    requires IsPowerOfTwo(alignment) && MIN_ALIGNMENT <= alignment <= SIZE_MAX
    requires block + alignment - 1 + HEADER_SIZE < ADDRESS_SPACE
    ensures (AlignedBuffer(block, alignment) - HEADER_SIZE) % HEADER_ALIGNMENT == 0
  {
    var b := AlignedBuffer(block, alignment);
    AlignedBufferIsAligned(block, alignment);
    IsPowerOfTwoCorrect(alignment);
    MinAlignmentIsPowerOfTwo();
    Pow2Ordered(MIN_ALIGNMENT, alignment);
    MultipleOfMultiple(b, alignment, HEADER_ALIGNMENT);
    var c := b / HEADER_ALIGNMENT;
    DivModUnique(b, HEADER_ALIGNMENT, c, 0);
    DivModUnique(b - HEADER_SIZE, HEADER_ALIGNMENT, c - 2, 0);
  }

  // ---------------------------------------------------------------------
  // Header layout
  // ---------------------------------------------------------------------

  /** `ZrpAllocatorAlignedHeader` without the debugging-only alignment field. */
  datatype Header = Header(offset: nat, size: nat)

  /** Little-endian encoding of `v` on `n` bytes. */
  function Le(v: nat, n: nat): (r: seq<byte>)
    ensures |r| == n
  {
    if n == 0 then [] else [(v % 256) as byte] + Le(v / 256, n - 1)
  }

  /** Reading back a little-endian number. */
  function Unle(bs: seq<byte>): nat {
    if |bs| == 0 then 0 else bs[0] as nat + 256 * Unle(bs[1..])
  }

  lemma {:induction false} LeRoundTrip(v: nat, n: nat)
    requires v < Pow2(8 * n)
    ensures Unle(Le(v, n)) == v
  {
    if n > 0 {
      Pow2Add(8, 8 * (n - 1));
      assert Pow2(8) == 256;
      assert Pow2(8 * n) == 256 * Pow2(8 * (n - 1));
      LeRoundTrip(v / 256, n - 1);
      assert Le(v, n)[1..] == Le(v / 256, n - 1);
    }
  }

  /** The 16 header bytes: the offset, then the size, each as a 64-bit word. */
  function EncodeHeader(h: Header): (r: seq<byte>)
    ensures |r| == HEADER_SIZE
  {
    Le(h.offset, 8) + Le(h.size, 8)
  }

  function DecodeHeader(bs: seq<byte>): Header
    requires |bs| == HEADER_SIZE
  {
    Header(Unle(bs[..8]), Unle(bs[8..]))
  }

  /** The header written in front of the buffer reads back unchanged. */
  lemma HeaderRoundTrip(h: Header)
    requires IsSize(h.offset) && IsSize(h.size)
    ensures DecodeHeader(EncodeHeader(h)) == h
  {
    Address64();
    var bs := EncodeHeader(h);
    assert bs[..8] == Le(h.offset, 8);
    assert bs[8..] == Le(h.size, 8);
    LeRoundTrip(h.offset, 8);
    LeRoundTrip(h.size, 8);
  }

  /** Memory `mem` with the header `h` written just below block offset `at`. */
  function WriteHeader(mem: seq<byte>, at: nat, h: Header): (r: seq<byte>)
    requires HEADER_SIZE <= at <= |mem|
    ensures |r| == |mem|
    ensures r[at - HEADER_SIZE .. at] == EncodeHeader(h)
    ensures r[..at - HEADER_SIZE] == mem[..at - HEADER_SIZE] && r[at..] == mem[at..]
  {
    mem[..at - HEADER_SIZE] + EncodeHeader(h) + mem[at..]
  }

  /** Memory `mem` with only the header's size field (the 8 bytes just below `at`) rewritten. */
  function WriteHeaderSize(mem: seq<byte>, at: nat, size: nat): (r: seq<byte>)
    requires HEADER_SIZE <= at <= |mem|
    ensures |r| == |mem|
    ensures r[..at - 8] == mem[..at - 8] && r[at..] == mem[at..]
  {
    mem[..at - 8] + Le(size, 8) + mem[at..]
  }

  // ---------------------------------------------------------------------
  // Aligned blocks
  // ---------------------------------------------------------------------

  /**
   A live aligned allocation: the block address `block`, the effective
   `alignment` it was made with, the header stored in it, and the bytes of
   the whole block.
   */
  datatype AlignedBlock = AlignedBlock(block: nat, alignment: nat, header: Header, memory: seq<byte>)

  /** The layout an aligned allocation keeps. */
  predicate Valid(b: AlignedBlock) {
    && IsPowerOfTwo(b.alignment) && MIN_ALIGNMENT <= b.alignment <= SIZE_MAX
    && b.header.size > 0
    && AlignedBlockSize(b.header.size, b.alignment) <= SIZE_MAX
    && |b.memory| == AlignedBlockSize(b.header.size, b.alignment)
    && b.block + |b.memory| <= ADDRESS_SPACE
    && b.block + b.header.offset == AlignedBuffer(b.block, b.alignment)
    && b.memory[b.header.offset - HEADER_SIZE .. b.header.offset] == EncodeHeader(b.header)
  }

  /** The user pointer. */
  function Buffer(b: AlignedBlock): nat {
    b.block + b.header.offset
  }

  /** The user bytes. */
  function Data(b: AlignedBlock): (r: seq<byte>)
    requires Valid(b)
    ensures |r| == b.header.size
  {
    b.memory[b.header.offset .. b.header.offset + b.header.size]
  }

  /**
   Where the user buffer of a valid allocation lies: at least a header and
   at most a header plus `alignment - 1` bytes into the block, on a
   multiple of the alignment, with its `size` bytes inside the block.
   */
  lemma ValidPlacement(b: AlignedBlock)
    requires Valid(b)
    ensures HEADER_SIZE <= b.header.offset <= HEADER_SIZE + b.alignment - 1
    ensures Buffer(b) % b.alignment == 0
    ensures Buffer(b) + b.header.size <= b.block + |b.memory|
  {
    AlignedBufferIsAligned(b.block, b.alignment);
  }

  /** What a `malloc` call answers: null, or a fresh block at some address. */
  datatype Answer = Null | At(address: nat)

  /** What a `realloc` call answers: null, the same block resized in place, or a new block. */
  datatype ReallocAnswer = Failed | InPlace | MovedTo(address: nat)

  /** What an allocation function returns, and whether it freed a block on the way. */
  datatype AllocResult = NullResult | FreedAndNull(freed: nat) | Allocated(result: AlignedBlock)

  /**
   The environment's `malloc` answers a non-null block that lies inside
   the address space. The block has the size the C code asks for, which is the block
   size wrapped around in `size_t`.
   */
  predicate MallocFits(malloc: Answer, size: nat, alignment: nat) {
    (malloc.At? && size > 0 && IsPowerOfTwo(alignment)) ==>
      0 < malloc.address && malloc.address + AlignedBlockSizeAsWritten(size, EffectiveAlignment(alignment)) <= ADDRESS_SPACE
  }

  /**
   `zrAllocateAligned`. Null for a zero size, for an alignment that is not
   a power of two, when the block size would exceed `SIZE_MAX`, and when
   `malloc` fails; otherwise a valid block whose buffer is aligned to the
   request and whose header records the size.
   */
  function AllocateAligned(size: nat, alignment: nat, malloc: Answer, garbage: nat -> byte): (r: Option<AlignedBlock>)
    requires IsSize(size) && IsSize(alignment)
    requires MallocFits(malloc, size, alignment)
    ensures size == 0 || !IsPowerOfTwo(alignment) || malloc.Null? ==> r.None?
    ensures r.None? && size > 0 && IsPowerOfTwo(alignment) && malloc.At? ==>
      AlignedBlockSize(size, EffectiveAlignment(alignment)) > SIZE_MAX
    ensures size > 0 && IsPowerOfTwo(alignment) && AlignedBlockSize(size, EffectiveAlignment(alignment)) > SIZE_MAX ==>
      r.None?
    ensures r.Some? ==>
      && Valid(r.value)
      && r.value.block == malloc.address
      && r.value.header.size == size
      && r.value.alignment == EffectiveAlignment(alignment)
      && Buffer(r.value) % alignment == 0
  {
    if size == 0 || !IsPowerOfTwo(alignment) then None
    else
      var a := EffectiveAlignment(alignment);
      if AlignedBlockSize(size, a) > SIZE_MAX then None
      else match malloc
        case Null => None
        case At(block) =>
          var b := FreshBlock(block, a, size, garbage);
          FreshBlockValid(block, a, size, garbage);
          BufferAlignedToRequest(Buffer(b), alignment, a);
          Some(b)
  }

  /**
   What `zrAllocateAligned` as written ends up with: no block; a valid
   allocation; or a block `malloc` gave for a block size that wrapped
   around to `requested` bytes, fewer than the `size` user bytes the caller
   is then free to write.
   */
  datatype AsWritten = NoBlock | Allocation(block: AlignedBlock) | Undersized(address: nat, requested: nat)

  /**
   `zrAllocateAligned` as written: the block size is passed to `malloc`
   without a check, so a request close to `SIZE_MAX` asks for the
   wrapped-around size. That case is the only one where it differs from
   `AllocateAligned`.
   */
  function AllocateAlignedAsWritten(size: nat, alignment: nat, malloc: Answer, garbage: nat -> byte): (r: AsWritten)
    requires IsSize(size) && IsSize(alignment)
    requires MallocFits(malloc, size, alignment)
    ensures r.Undersized? <==>
      size > 0 && IsPowerOfTwo(alignment) && malloc.At? &&
      AlignedBlockSize(size, EffectiveAlignment(alignment)) > SIZE_MAX
    ensures r.Undersized? ==>
      r.address == malloc.address &&
      r.requested == AlignedBlockSizeAsWritten(size, EffectiveAlignment(alignment)) && r.requested < size
    ensures !r.Undersized? ==>
      (r.Allocation? <==> AllocateAligned(size, alignment, malloc, garbage).Some?) &&
      (r.Allocation? ==> r.block == AllocateAligned(size, alignment, malloc, garbage).value)
  {
    if size == 0 || !IsPowerOfTwo(alignment) then NoBlock
    else
      var a := EffectiveAlignment(alignment);
      match malloc
      case Null => NoBlock
      case At(block) =>
        if AlignedBlockSize(size, a) > SIZE_MAX then
          PowerOfTwoAtMostHalf(a);
          WrapOnce(AlignedBlockSize(size, a));
          Undersized(block, AlignedBlockSizeAsWritten(size, a))
        else
          Allocation(FreshBlock(block, a, size, garbage))
  }

  /**
   A request of `SIZE_MAX - 30` bytes at alignment 16 that `malloc`
   answers with a block at 4096: as written the block was asked for 0
   bytes; the corrected allocation refuses the request.
   */
  lemma UndersizedExample(garbage: nat -> byte)
    ensures MallocFits(At(4096), SIZE_MAX - 30, 16)
    ensures AllocateAlignedAsWritten(SIZE_MAX - 30, 16, At(4096), garbage) == Undersized(4096, 0)
    ensures AllocateAligned(SIZE_MAX - 30, 16, At(4096), garbage).None?
  {
    AlignedBlockSizeWraps();
  }

  /**
   The allocation laid out in a fresh block at `block`: the buffer at the
   first aligned address with room for the header, and the header written
   just below it.
   */
  function FreshBlock(block: nat, alignment: nat, size: nat, garbage: nat -> byte): AlignedBlock
    requires IsPowerOfTwo(alignment) && alignment <= SIZE_MAX
    requires 0 < size && block + AlignedBlockSize(size, alignment) <= ADDRESS_SPACE
  {
    var n := AlignedBlockSize(size, alignment);
    var offset := AlignedBuffer(block, alignment) - block;
    var h := Header(offset, size);
    AlignedBlock(block, alignment, h, WriteHeader(seq(n, garbage), offset, h))
  }

  /** A fresh block laid out for a non-empty request that fits is a valid allocation of that size. */
  lemma FreshBlockValid(block: nat, alignment: nat, size: nat, garbage: nat -> byte)
    requires IsPowerOfTwo(alignment) && MIN_ALIGNMENT <= alignment <= SIZE_MAX
    requires 0 < size && AlignedBlockSize(size, alignment) <= SIZE_MAX
    requires block + AlignedBlockSize(size, alignment) <= ADDRESS_SPACE
    ensures
      var b := FreshBlock(block, alignment, size, garbage);
      Valid(b) && b.block == block && b.alignment == alignment && b.header.size == size &&
      Buffer(b) % alignment == 0
  {
    AlignedBufferIsAligned(block, alignment);
  }

  /** A buffer aligned to the effective alignment is aligned to the request. */
  lemma BufferAlignedToRequest(buffer: nat, alignment: nat, effective: nat)
    requires IsPowerOfTwo(alignment) && effective == EffectiveAlignment(alignment)
    requires buffer % effective == 0
    ensures buffer % alignment == 0
  {
    IsPowerOfTwoCorrect(alignment);
    IsPowerOfTwoCorrect(effective);
    Pow2Ordered(alignment, effective);
    MultipleOfMultiple(buffer, effective, alignment);
  }

  /** The header of an allocation, read from the 16 bytes just below user pointer `buffer`. */
  function ReadHeader(b: AlignedBlock, buffer: nat): Header
    requires b.block + HEADER_SIZE <= buffer <= b.block + |b.memory|
  {
    var at := buffer - b.block;
    DecodeHeader(b.memory[at - HEADER_SIZE .. at])
  }

  /**
   `zrFreeAligned`: the block handed to `free`, found by stepping back
   `offset` bytes from the user pointer. Nothing is freed for null.
   */
  function FreeAligned(b: AlignedBlock, buffer: Option<nat>): (r: Option<int>)
    requires buffer.Some? ==> b.block + HEADER_SIZE <= buffer.value <= b.block + |b.memory|
    ensures buffer.None? <==> r.None?
  {
    match buffer
    case None => None
    case Some(p) => Some(p - ReadHeader(b, p).offset)
  }

  /** Freeing the user pointer of a valid allocation frees exactly its block. */
  lemma FreeAlignedRoundTrip(b: AlignedBlock)
    requires Valid(b)
    ensures ReadHeader(b, Buffer(b)) == b.header
    ensures FreeAligned(b, Some(Buffer(b))) == Some(b.block)
  {
    HeaderStored(b);
    FreeStoredHeader(b);
  }

  /** A block storing its header just below its user pointer is freed through that header. */
  lemma FreeStoredHeader(b: AlignedBlock)
    requires b.block + HEADER_SIZE <= Buffer(b) <= b.block + |b.memory| && Buffer(b) - b.block == b.header.offset
    requires IsSize(b.header.offset) && IsSize(b.header.size)
    requires b.memory[b.header.offset - HEADER_SIZE .. b.header.offset] == EncodeHeader(b.header)
    ensures ReadHeader(b, Buffer(b)) == b.header
    ensures FreeAligned(b, Some(Buffer(b))) == Some(b.block)
  {
    HeaderReadBack(b.memory, b.header.offset, b.header);
  }

  /** A valid allocation stores its header, with fields that fit in `size_t`, just below its user pointer. */
  lemma HeaderStored(b: AlignedBlock)
    requires Valid(b)
    ensures b.block + HEADER_SIZE <= Buffer(b) <= b.block + |b.memory| && Buffer(b) - b.block == b.header.offset
    ensures IsSize(b.header.offset) && IsSize(b.header.size)
    ensures b.memory[b.header.offset - HEADER_SIZE .. b.header.offset] == EncodeHeader(b.header)
  {
    ValidPlacement(b);
  }

  /** The 16 bytes below `at` that hold the encoding of `h` decode to `h`. */
  lemma HeaderReadBack(mem: seq<byte>, at: nat, h: Header)
    requires HEADER_SIZE <= at <= |mem| && IsSize(h.offset) && IsSize(h.size)
    requires mem[at - HEADER_SIZE .. at] == EncodeHeader(h)
    ensures DecodeHeader(mem[at - HEADER_SIZE .. at]) == h
  {
    HeaderRoundTrip(h);
  }

  /** An allocation made by `AllocateAligned` is freed back to the block `malloc` gave. */
  lemma AllocateThenFree(size: nat, alignment: nat, malloc: Answer, garbage: nat -> byte)
    requires IsSize(size) && IsSize(alignment)
    requires MallocFits(malloc, size, alignment)
    requires AllocateAligned(size, alignment, malloc, garbage).Some?
    ensures malloc.At?
    ensures
      var b := AllocateAligned(size, alignment, malloc, garbage).value;
      FreeAligned(b, Some(Buffer(b))) == Some(malloc.address)
  {
    var r := AllocateAligned(size, alignment, malloc, garbage);
    FreeAlignedRoundTrip(r.value);
  }
}
