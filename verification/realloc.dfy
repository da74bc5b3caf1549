/**
 Resizing an aligned allocation (`zrReallocateAligned`) and the plain,
 unaligned wrappers (`zrAllocate`, `zrReallocate`) of
 `include/zero/allocator.h`.

 `realloc` may extend the block in place, move it, or fail. A moved block
 generally starts at an address with a different distance to the next
 aligned address, so the user bytes that `realloc` copied to the old
 offset may have to be shifted to the new one.
 */
module AlignedRealloc {
  import opened Platform
  import opened Memory
  import opened Allocator

  /** The block size for `size` bytes at the alignment the block was made with. */
  function NewBlockSize(o: AlignedBlock, size: nat): nat
    requires o.alignment >= 1
  {
    AlignedBlockSize(size, o.alignment)
  }

  /**
   The environment's `realloc` answers a non-null block that lies inside
   the address space. The block has the size the C code asks for, which is
   the block size wrapped around in `size_t`.
   */
  predicate ReallocFits(o: AlignedBlock, realloc: ReallocAnswer, size: nat) {
    o.alignment >= 1 &&
    (realloc.InPlace? ==> o.block + AlignedBlockSizeAsWritten(size, o.alignment) <= ADDRESS_SPACE) &&
    (realloc.MovedTo? ==> 0 < realloc.address && realloc.address + AlignedBlockSizeAsWritten(size, o.alignment) <= ADDRESS_SPACE)
  }

  /** The requirements shared by the branches taken once `realloc` has succeeded. */
  predicate Resizable(o: AlignedBlock, size: nat) {
    Valid(o) && 0 < size && AlignedBlockSize(size, o.alignment) <= SIZE_MAX
  }

  /**
   The old buffer's offset, plus the bytes kept from it, lie within both
   the old block and a block resized for `size` bytes.
   */
  lemma BufferFits(o: AlignedBlock, size: nat)
    requires Resizable(o, size)
    ensures HEADER_SIZE <= o.header.offset
    ensures o.header.offset + Min(size, o.header.size) <= |o.memory|
    ensures o.header.offset + Min(size, o.header.size) <= NewBlockSize(o, size)
  {
  }

  /** Rewriting the size field of a copied header yields the header with the new size. */
  lemma SizeFieldRewrite(a: seq<byte>, b: seq<byte>, off: nat, h: Header, size: nat)
    requires HEADER_SIZE <= off <= |a| && off <= |b|
    requires a[off - HEADER_SIZE .. off] == EncodeHeader(h)
    requires a[..off] == b[..off]
    ensures WriteHeaderSize(b, off, size)[off - HEADER_SIZE .. off] == EncodeHeader(Header(h.offset, size))
  {
    var w := WriteHeaderSize(b, off, size);
    assert w[off - HEADER_SIZE .. off] == b[off - HEADER_SIZE .. off - 8] + Le(size, 8);
    assert b[off - HEADER_SIZE .. off - 8] == b[..off][off - HEADER_SIZE .. off - 8];
    assert a[off - HEADER_SIZE .. off - 8] == a[..off][off - HEADER_SIZE .. off - 8];
    assert a[off - HEADER_SIZE .. off - 8] == EncodeHeader(h)[..8];
  }

  /**
   The memory `mem` of a block resized for `size` bytes holds the header
   for `size` bytes just below offset `off`, and from `off` on the first
   `min(old size, size)` user bytes of `o`.
   */
  predicate Holds(o: AlignedBlock, size: nat, off: nat, mem: seq<byte>) {
    var m := Min(size, o.header.size);
    && o.alignment >= 1
    && |mem| == NewBlockSize(o, size) && HEADER_SIZE <= off && off + size <= |mem|
    && mem[off - HEADER_SIZE .. off] == EncodeHeader(Header(off, size))
    && o.header.offset + m <= |o.memory|
    && mem[off .. off + m] == o.memory[o.header.offset .. o.header.offset + m]
  }

  /**
   A block rebuilt at `block` with the old alignment, whose memory holds
   the new header and the kept user bytes at offset `off`, is a valid
   allocation whose user bytes start with the old ones, when `off` is
   where the buffer belongs.
   */
  lemma Rebuilt(o: AlignedBlock, size: nat, block: nat, off: nat, mem: seq<byte>)
    requires Resizable(o, size) && Holds(o, size, off, mem)
    requires block + NewBlockSize(o, size) <= ADDRESS_SPACE
    requires block + off == AlignedBuffer(block, o.alignment)
    ensures
      var r := AlignedBlock(block, o.alignment, Header(off, size), mem);
      Valid(r) && Data(r)[..Min(size, o.header.size)] == Data(o)[..Min(size, o.header.size)]
  {
    RebuiltValid(o, size, block, off, mem);
    RebuiltData(o, AlignedBlock(block, o.alignment, Header(off, size), mem));
  }

  /** The validity half of `Rebuilt`. */
  lemma RebuiltValid(o: AlignedBlock, size: nat, block: nat, off: nat, mem: seq<byte>)
    requires Resizable(o, size) && Holds(o, size, off, mem)
    requires block + NewBlockSize(o, size) <= ADDRESS_SPACE
    requires block + off == AlignedBuffer(block, o.alignment)
    ensures Valid(AlignedBlock(block, o.alignment, Header(off, size), mem))
  {
  }

  /** The user-bytes half of `Rebuilt`. */
  lemma RebuiltData(o: AlignedBlock, r: AlignedBlock)
    requires Valid(o) && Valid(r) && Holds(o, r.header.size, r.header.offset, r.memory)
    ensures Data(r)[..Min(r.header.size, o.header.size)] == Data(o)[..Min(r.header.size, o.header.size)]
  {
    var m := Min(r.header.size, o.header.size);
    DataPrefix(r, m);
    DataPrefix(o, m);
  }

  /** The first `m` user bytes of a valid block, read from its memory. */
  lemma DataPrefix(b: AlignedBlock, m: nat)
    requires Valid(b) && m <= b.header.size
    ensures b.header.offset + m <= |b.memory|
    ensures Data(b)[..m] == b.memory[b.header.offset .. b.header.offset + m]
  {
    ValidPlacement(b);
  }

  /** The bytes of a block `realloc` resized in place, with the header's size field rewritten. */
  function InPlaceBytes(o: AlignedBlock, size: nat, garbage: nat -> byte): (r: seq<byte>)
    requires Resizable(o, size)
    ensures Holds(o, size, o.header.offset, r)
  {
    var n := NewBlockSize(o, size);
    BufferFits(o, size);
    ReallocedKeeps(o.memory, n, garbage, o.header.offset + Min(size, o.header.size));
    var mem := Realloced(o.memory, n, garbage);
    InPlaceHolds(o, size, mem);
    WriteHeaderSize(mem, o.header.offset, size)
  }

  /** Rewriting the size field in memory that starts with the old block's bytes leaves what `Holds` asks for. */
  lemma InPlaceHolds(o: AlignedBlock, size: nat, mem: seq<byte>)
    requires Resizable(o, size)
    requires |mem| == NewBlockSize(o, size)
    requires o.header.offset + Min(size, o.header.size) <= |o.memory|
    requires o.header.offset + Min(size, o.header.size) <= |mem|
    requires mem[..o.header.offset + Min(size, o.header.size)] == o.memory[..o.header.offset + Min(size, o.header.size)]
    ensures HEADER_SIZE <= o.header.offset
    ensures Holds(o, size, o.header.offset, WriteHeaderSize(mem, o.header.offset, size))
  {
    var off := o.header.offset;
    var m := Min(size, o.header.size);
    BufferFits(o, size);
    SameSlice(mem, o.memory, off + m, 0, off);
    SizeFieldRewrite(o.memory, mem, off, o.header, size);
    var written := WriteHeaderSize(mem, off, size);
    SameSliceAfter(written, mem, off, off, off + m);
    SameSlice(mem, o.memory, off + m, off, off + m);
  }

  /**
   `realloc` grew or shrank the block where it was: the user pointer stays,
   and only the header's size field is rewritten.
   */
  function ResizedInPlace(o: AlignedBlock, size: nat, garbage: nat -> byte): (r: AlignedBlock)
    requires Resizable(o, size)
    requires o.block + NewBlockSize(o, size) <= ADDRESS_SPACE
    ensures Valid(r) && r.header.size == size && r.alignment == o.alignment
    ensures Buffer(r) == Buffer(o) && r.block == o.block
    ensures Data(r)[..Min(size, o.header.size)] == Data(o)[..Min(size, o.header.size)]
  {
    var off := o.header.offset;
    BufferFits(o, size);
    var mem := InPlaceBytes(o, size, garbage);
    Rebuilt(o, size, o.block, off, mem);
    AlignedBlock(o.block, o.alignment, Header(off, size), mem)
  }

  /** The bytes of a moved block whose buffer keeps its offset: the copy `realloc` made, with a new header. */
  function SameOffsetBytes(o: AlignedBlock, size: nat, garbage: nat -> byte): (r: seq<byte>)
    requires Resizable(o, size)
    ensures Holds(o, size, o.header.offset, r)
  {
    var off := o.header.offset;
    var n := NewBlockSize(o, size);
    var m := Min(size, o.header.size);
    BufferFits(o, size);
    var mem := Realloced(o.memory, n, garbage);
    ReallocedKeeps(o.memory, n, garbage, off + m);
    var written := WriteHeader(mem, off, Header(off, size));
    SameSliceAfter(written, mem, off, off, off + m);
    SameSlice(mem, o.memory, off + m, off, off + m);
    written
  }

  /**
   `realloc` moved the block to `address` and the aligned buffer sits at
   the same distance from the block start as before: the bytes `realloc`
   copied are already in place, and a new header is written.
   */
  function MovedSameOffset(o: AlignedBlock, address: nat, size: nat, garbage: nat -> byte): (r: AlignedBlock)
    requires Resizable(o, size)
    requires address + NewBlockSize(o, size) <= ADDRESS_SPACE
    requires AlignedBuffer(address, o.alignment) - address == o.header.offset
    ensures Valid(r) && r.header.size == size && r.alignment == o.alignment
    ensures r.block == address
    ensures Data(r)[..Min(size, o.header.size)] == Data(o)[..Min(size, o.header.size)]
  {
    var off := o.header.offset;
    BufferFits(o, size);
    var mem := SameOffsetBytes(o, size, garbage);
    Rebuilt(o, size, address, off, mem);
    AlignedBlock(address, o.alignment, Header(off, size), mem)
  }

  /**
   The bytes of a moved block whose buffer lands at offset `newOff`: the
   first `min(old size, new size)` user bytes are shifted from the old
   offset to the new one, and the new header is written afterwards, so
   that it cannot land on user bytes that have not been shifted yet.
   */
  function OtherOffsetBytes(o: AlignedBlock, size: nat, newOff: nat, garbage: nat -> byte): (r: seq<byte>)
    requires Resizable(o, size)
    requires HEADER_SIZE <= newOff && newOff + size <= NewBlockSize(o, size)
    ensures Holds(o, size, newOff, r)
  {
    var n := NewBlockSize(o, size);
    var m := Min(size, o.header.size);
    BufferFits(o, size);
    ReallocedKeeps(o.memory, n, garbage, o.header.offset + m);
    var mem := Realloced(o.memory, n, garbage);
    OtherOffsetHolds(o, size, newOff, mem);
    WriteHeader(Move(mem, newOff, o.header.offset, m), newOff, Header(newOff, size))
  }

  /** Shifting the kept user bytes to `newOff` and then writing the header there leaves what `Holds` asks for. */
  lemma OtherOffsetHolds(o: AlignedBlock, size: nat, newOff: nat, mem: seq<byte>)
    requires Resizable(o, size)
    requires HEADER_SIZE <= newOff && newOff + size <= NewBlockSize(o, size)
    requires |mem| == NewBlockSize(o, size)
    requires o.header.offset + Min(size, o.header.size) <= |o.memory|
    requires o.header.offset + Min(size, o.header.size) <= |mem|
    requires mem[..o.header.offset + Min(size, o.header.size)] == o.memory[..o.header.offset + Min(size, o.header.size)]
    ensures Holds(o, size, newOff, WriteHeader(Move(mem, newOff, o.header.offset, Min(size, o.header.size)), newOff, Header(newOff, size)))
  {
    var oldOff := o.header.offset;
    var m := Min(size, o.header.size);
    var moved := Move(mem, newOff, oldOff, m);
    var written := WriteHeader(moved, newOff, Header(newOff, size));
    assert moved[newOff .. newOff + m] == mem[oldOff .. oldOff + m];
    SameSliceAfter(written, moved, newOff, newOff, newOff + m);
    SameSlice(mem, o.memory, oldOff + m, oldOff, oldOff + m);
    assert written[newOff .. newOff + m] == o.memory[oldOff .. oldOff + m];
    assert written[newOff - HEADER_SIZE .. newOff] == EncodeHeader(Header(newOff, size));
  }

  /** The buffer of a block at `block` lies where a resized block has room for the header and `size` bytes. */
  lemma NewOffsetFits(o: AlignedBlock, size: nat, block: nat)
    requires Resizable(o, size)
    requires block + NewBlockSize(o, size) <= ADDRESS_SPACE
    ensures
      var newOff := AlignedBuffer(block, o.alignment) - block;
      HEADER_SIZE <= newOff && newOff + size <= NewBlockSize(o, size)
  {
  }

  /**
   `realloc` moved the block to `address` and the aligned buffer is at a
   different distance from the block start: the user bytes are shifted to
   the new offset before the new header is written.
   */
  function MovedOtherOffset(o: AlignedBlock, address: nat, size: nat, garbage: nat -> byte): (r: AlignedBlock)
    requires Resizable(o, size)
    requires address + NewBlockSize(o, size) <= ADDRESS_SPACE
    ensures Valid(r) && r.header.size == size && r.alignment == o.alignment
    ensures r.block == address
    ensures Data(r)[..Min(size, o.header.size)] == Data(o)[..Min(size, o.header.size)]
  {
    var newOff := AlignedBuffer(address, o.alignment) - address;
    NewOffsetFits(o, size, address);
    var mem := OtherOffsetBytes(o, size, newOff, garbage);
    Rebuilt(o, size, address, newOff, mem);
    AlignedBlock(address, o.alignment, Header(newOff, size), mem)
  }

  /** Whether `zrReallocateAligned` sees a usable request (non-zero size, power-of-two alignment). */
  predicate UsableRequest(size: nat, alignment: nat) {
    size != 0 && IsPowerOfTwo(alignment)
  }

  /**
   `r` is the allocation `o` resized to `size` bytes after `realloc`
   answered `realloc`: a valid allocation with the same alignment whose
   header records `size` and whose first `min(old size, size)` user bytes
   are the original ones; it keeps the user pointer when the block was
   resized in place and starts at the new block when it was moved.
   */
  predicate ResizedFrom(o: AlignedBlock, size: nat, realloc: ReallocAnswer, r: AlignedBlock)
    requires Valid(o)
  {
    && Valid(r) && r.header.size == size && r.alignment == o.alignment
    && Data(r)[..Min(size, o.header.size)] == Data(o)[..Min(size, o.header.size)]
    && (realloc.InPlace? ==> Buffer(r) == Buffer(o))
    && (realloc.MovedTo? ==> r.block == realloc.address)
  }

  /**
   `zrReallocateAligned`, with the block size checked before `realloc` is
   called (the source passes the wrapped-around size; see
   `ResizeBlockAsWritten`).
   - A null original behaves as `zrAllocateAligned`.
   - A zero size or an alignment that is not a power of two frees the
     original block and returns null.
   - A block size beyond `SIZE_MAX` and a failing `realloc` return null
     and leave the original allocation alone.
   - Otherwise the result is the original resized to `size` bytes
     (`ResizedFrom`), aligned to the request.
   The original must have been made with the same (effective) alignment,
   which the source asserts when its debugging checks are enabled.
   */
  function ReallocateAligned(
    original: Option<AlignedBlock>, size: nat, alignment: nat,
    malloc: Answer, realloc: ReallocAnswer, garbage: nat -> byte): (r: AllocResult)
    requires IsSize(size) && IsSize(alignment)
    requires original.None? ==> MallocFits(malloc, size, alignment)
    requires original.Some? ==> Valid(original.value) && ReallocFits(original.value, realloc, size)
    requires original.Some? && UsableRequest(size, alignment) ==>
      EffectiveAlignment(alignment) == original.value.alignment
    ensures original.None? ==>
      (r.Allocated? <==> AllocateAligned(size, alignment, malloc, garbage).Some?) &&
      (r.Allocated? ==> r.result == AllocateAligned(size, alignment, malloc, garbage).value)
    ensures original.Some? && !UsableRequest(size, alignment) ==>
      r == FreedAndNull(original.value.block)
    ensures original.Some? && UsableRequest(size, alignment) ==>
      (r.NullResult? <==> realloc.Failed? || AlignedBlockSize(size, original.value.alignment) > SIZE_MAX)
    ensures r.Allocated? ==> Valid(r.result) && r.result.header.size == size
    ensures r.Allocated? && original.Some? ==> ResizedFrom(original.value, size, realloc, r.result)
    ensures original.None? || UsableRequest(size, alignment) ==> !r.FreedAndNull?
    ensures r.Allocated? ==>
      IsPowerOfTwo(alignment) && r.result.alignment == EffectiveAlignment(alignment) &&
      Buffer(r.result) % alignment == 0
  {
    match original
    case None =>
      (match AllocateAligned(size, alignment, malloc, garbage)
       case None => NullResult
       case Some(b) => Allocated(b))
    case Some(o) =>
      if UsableRequest(size, alignment) then ResizeAligned(o, size, alignment, realloc, garbage)
      else FreeOriginal(o)
  }

  /** The original block is freed: its address is what the header stored in front of the buffer leads back to. */
  function FreeOriginal(o: AlignedBlock): (r: AllocResult)
    requires Valid(o)
    ensures r == FreedAndNull(o.block)
  {
    FreeAlignedRoundTrip(o);
    FreedAndNull(FreeAligned(o, Some(Buffer(o))).value)
  }

  /** `ResizeBlock` for a usable request whose effective alignment is the block's: the buffer is aligned to the request. */
  function ResizeAligned(o: AlignedBlock, size: nat, alignment: nat, realloc: ReallocAnswer, garbage: nat -> byte): (r: AllocResult)
    requires Valid(o) && ReallocFits(o, realloc, size) && UsableRequest(size, alignment)
    requires EffectiveAlignment(alignment) == o.alignment
    ensures r == ResizeBlock(o, size, realloc, garbage)
    ensures r.Allocated? ==> Buffer(r.result) % alignment == 0
  {
    var r := ResizeBlock(o, size, realloc, garbage);
    if r.Allocated? then
      BufferAlignedToRequest(Buffer(r.result), alignment, o.alignment);
      r
    else r
  }

  /**
   The part of `zrReallocateAligned` that resizes a live block for a
   usable request: the header is read back from the user pointer, the
   block size is checked, and `realloc` decides which branch applies.
   */
  function ResizeBlock(o: AlignedBlock, size: nat, realloc: ReallocAnswer, garbage: nat -> byte): (r: AllocResult)
    requires Valid(o) && ReallocFits(o, realloc, size) && 0 < size
    ensures !r.FreedAndNull?
    ensures r.NullResult? <==> realloc.Failed? || AlignedBlockSize(size, o.alignment) > SIZE_MAX
    ensures r.Allocated? ==> ResizedFrom(o, size, realloc, r.result)
    ensures r.Allocated? ==> Buffer(r.result) % o.alignment == 0
  {
    FreeAlignedRoundTrip(o);
    var originalHeader := ReadHeader(o, Buffer(o));
    var r :=
      if AlignedBlockSize(size, o.alignment) > SIZE_MAX then NullResult
      else match realloc
        case Failed => NullResult
        case InPlace => Allocated(ResizedInPlace(o, size, garbage))
        case MovedTo(address) =>
          if AlignedBuffer(address, o.alignment) - address == originalHeader.offset then
            Allocated(MovedSameOffset(o, address, size, garbage))
          else
            Allocated(MovedOtherOffset(o, address, size, garbage));
    if r.Allocated? then
      ValidPlacement(r.result);
      r
    else r
  }

  // ---------------------------------------------------------------------
  // The moved branch as the source writes it
  // ---------------------------------------------------------------------

  /**
   The moved branch of `zrReallocateAligned` as written: the new header is
   stored in front of the new buffer first, and then `originalHeader.size`
   bytes are moved from the old offset. `None` stands for a `memmove` that
   reaches past the end of the new block.
   */
  function MovedAsWritten(o: AlignedBlock, address: nat, size: nat, garbage: nat -> byte): (r: Option<AlignedBlock>)
    requires Resizable(o, size)
    requires address + NewBlockSize(o, size) <= ADDRESS_SPACE
    ensures r.None? <==>
      var off := AlignedBuffer(address, o.alignment) - address;
      off != o.header.offset && (off + o.header.size > NewBlockSize(o, size) || o.header.offset + o.header.size > NewBlockSize(o, size))
  {
    var n := NewBlockSize(o, size);
    var mem := Realloced(o.memory, n, garbage);
    var off := AlignedBuffer(address, o.alignment) - address;
    var h := Header(off, size);
    var withHeader := WriteHeader(mem, off, h);
    if off == o.header.offset then Some(AlignedBlock(address, o.alignment, h, withHeader))
    else if off + o.header.size > n || o.header.offset + o.header.size > n then None
    else Some(AlignedBlock(address, o.alignment, h, Move(withHeader, off, o.header.offset, o.header.size)))
  }

  /** A one-byte allocation at alignment 32 whose block starts at address 16 and whose byte is `0xAA`. */
  function SampleBlock(): AlignedBlock {
    var h := Header(16, 1);
    AlignedBlock(16, 32, h, WriteHeader(seq(48, i => if i == 16 then 0xAA else 0), 16, h))
  }

  lemma SampleBlockValid()
    ensures Valid(SampleBlock()) && Data(SampleBlock()) == [0xAA]
  {
    ThirtyTwoIsPowerOfTwo();
    var b := SampleBlock();
    var mem: seq<byte> := seq(48, i => if i == 16 then 0xAA else 0);
    assert b.memory == WriteHeader(mem, 16, b.header);
    AlignedBufferIs(16, 32, 32);
    assert b.memory[16..] == mem[16..];
    assert b.memory[16] == mem[16] == 0xAA;
    assert Data(b) == b.memory[16..17];
  }

  lemma ThirtyTwoIsPowerOfTwo()
    ensures IsPowerOfTwo(32)
  {
    assert Bits.Pow2(2) == 4;
    assert Bits.Pow2(4) == 16;
    assert Bits.Pow2(5) == 32;
    IsPowerOfTwoCorrect(32);
  }

  /** `SampleBlock` can be resized to 1 byte at address 32: the resized block has 48 bytes and its buffer is at 64. */
  lemma SampleResizable()
    ensures Resizable(SampleBlock(), 1) && NewBlockSize(SampleBlock(), 1) == 48
    ensures IsPowerOfTwo(32) && AlignedBuffer(32, 32) == 64
    ensures Data(SampleBlock()) == [0xAA]
  {
    SampleBlockValid();
    AlignedBufferIs(32, 32, 64);
  }

  /**
   When the moved block's buffer sits further from the block start, the
   header written in front of it overwrites user bytes that have not been
   moved yet: moving `SampleBlock` to address 32 (new offset 32, old offset
   16) leaves the user byte equal to the low byte of the new offset instead
   of `0xAA`.
   */
  lemma HeaderClobbersData(garbage: nat -> byte)
    ensures Resizable(SampleBlock(), 1) && 32 + NewBlockSize(SampleBlock(), 1) <= ADDRESS_SPACE
    ensures MovedAsWritten(SampleBlock(), 32, 1, garbage).Some?
    ensures
      var r := MovedAsWritten(SampleBlock(), 32, 1, garbage).value;
      r.header.offset == 32 && r.memory[32] == 32 && Data(SampleBlock())[0] == 0xAA
  {
    SampleResizable();
    var o := SampleBlock();
    var mem := Realloced(o.memory, 48, garbage);
    var withHeader := WriteHeader(mem, 32, Header(32, 1));
    assert withHeader[16..32] == EncodeHeader(Header(32, 1));
    assert EncodeHeader(Header(32, 1))[0] == Le(32, 8)[0] == 32;
    assert withHeader[16] == 32;
    var moved := Move(withHeader, 32, 16, 1);
    assert MovedAsWritten(o, 32, 1, garbage) == Some(AlignedBlock(32, 32, Header(32, 1), moved));
    assert moved[32] == moved[32..33][0] == withHeader[16..17][0];
  }

  /** The corrected branch moves `SampleBlock` to address 32 with its user byte intact. */
  lemma SampleMoveKeepsData(garbage: nat -> byte)
    ensures Resizable(SampleBlock(), 1) && 32 + NewBlockSize(SampleBlock(), 1) <= ADDRESS_SPACE
    ensures Data(MovedOtherOffset(SampleBlock(), 32, 1, garbage)) == [0xAA]
  {
    SampleResizable();
    var c := MovedOtherOffset(SampleBlock(), 32, 1, garbage);
    assert Data(c) == Data(c)[..1];
  }

  /** A 100-byte allocation at alignment 32 whose block starts at address 64. */
  function LargeBlock(): AlignedBlock {
    var h := Header(32, 100);
    AlignedBlock(64, 32, h, WriteHeader(seq(147, _ => 0), 32, h))
  }

  /**
   Shrinking can make the as-written `memmove` of the old size run past the
   new block: `LargeBlock` shrunk to 1 byte and moved to address 16 gets a
   48-byte block and a new offset of 16, yet 100 bytes are moved from
   offset 32. The corrected branch moves `min(100, 1)` bytes.
   */
  lemma ShrinkCopiesPastBlock(garbage: nat -> byte)
    ensures Resizable(LargeBlock(), 1) && 16 + NewBlockSize(LargeBlock(), 1) <= ADDRESS_SPACE
    ensures MovedAsWritten(LargeBlock(), 16, 1, garbage).None?
    ensures Data(MovedOtherOffset(LargeBlock(), 16, 1, garbage)) == Data(LargeBlock())[..1]
  {
    ThirtyTwoIsPowerOfTwo();
    AlignedBufferIs(64, 32, 96);
    AlignedBufferIs(16, 32, 32);
    var c := MovedOtherOffset(LargeBlock(), 16, 1, garbage);
    assert Data(c)[..1] == Data(LargeBlock())[..1];
  }

  // ---------------------------------------------------------------------
  // The resize as the source writes it
  // ---------------------------------------------------------------------

  /**
   What the live-block branch of `zrReallocateAligned` as written ends up
   with: null; a block; a `memmove` that reaches past the end of the moved
   block; or a block at `address` that `realloc` sized to the block size
   wrapped around to `requested` bytes, whose header then records
   `recorded` user bytes, more than the block holds.
   */
  datatype ResizedAsWritten =
    | ResizeFailed
    | Resized(block: AlignedBlock)
    | MovePastEnd
    | UndersizedBlock(address: nat, requested: nat, recorded: nat)

  /**
   The live-block branch of `zrReallocateAligned` as written: the block
   size is handed to `realloc` in `size_t` without a check, so a request
   close to `SIZE_MAX` asks for the wrapped-around size, and a moved block
   gets its header before its bytes are moved (`MovedAsWritten`).
   */
  function ResizeBlockAsWritten(o: AlignedBlock, size: nat, realloc: ReallocAnswer, garbage: nat -> byte): (r: ResizedAsWritten)
    requires Valid(o) && ReallocFits(o, realloc, size) && 0 < size && IsSize(size)
    ensures r.ResizeFailed? <==> realloc.Failed?
    ensures r.UndersizedBlock? <==> !realloc.Failed? && AlignedBlockSize(size, o.alignment) > SIZE_MAX
    ensures r.UndersizedBlock? ==>
      && r.address == (if realloc.MovedTo? then realloc.address else o.block)
      && r.requested == AlignedBlockSizeAsWritten(size, o.alignment)
      && r.recorded == size && r.requested < r.recorded
    ensures realloc.MovedTo? && Resizable(o, size) ==>
      && (r.MovePastEnd? <==> MovedAsWritten(o, realloc.address, size, garbage).None?)
      && (r.Resized? ==> r.block == MovedAsWritten(o, realloc.address, size, garbage).value)
    ensures realloc.InPlace? && Resizable(o, size) ==> r == Resized(ResizedInPlace(o, size, garbage))
  {
    if realloc.Failed? then ResizeFailed
    else if AlignedBlockSize(size, o.alignment) > SIZE_MAX then
      PowerOfTwoAtMostHalf(o.alignment);
      WrapOnce(AlignedBlockSize(size, o.alignment));
      UndersizedBlock(if realloc.MovedTo? then realloc.address else o.block, AlignedBlockSizeAsWritten(size, o.alignment), size)
    else match realloc
      case InPlace => Resized(ResizedInPlace(o, size, garbage))
      case MovedTo(address) =>
        match MovedAsWritten(o, address, size, garbage)
        case None => MovePastEnd
        case Some(b) => Resized(b)
  }

  /**
   When the block size fits and the block stays where it was or moves to a
   block whose buffer keeps its offset, the resize as written and the
   corrected `ResizeBlock` give the same allocation.
   */
  lemma ResizeAsWrittenAgrees(o: AlignedBlock, size: nat, realloc: ReallocAnswer, garbage: nat -> byte)
    requires Valid(o) && ReallocFits(o, realloc, size) && 0 < size && IsSize(size)
    requires AlignedBlockSize(size, o.alignment) <= SIZE_MAX
    requires realloc.MovedTo? ==> AlignedBuffer(realloc.address, o.alignment) - realloc.address == o.header.offset
    ensures !realloc.Failed? ==>
      ResizeBlock(o, size, realloc, garbage).Allocated? &&
      ResizeBlockAsWritten(o, size, realloc, garbage) == Resized(ResizeBlock(o, size, realloc, garbage).result)
  {
    match realloc
    case Failed =>
    case InPlace =>
      FreeAlignedRoundTrip(o);
    case MovedTo(address) =>
      MovedAsWrittenAgrees(o, address, size, garbage);
  }

  /** The moved half of `ResizeAsWrittenAgrees`: a buffer that keeps its offset. */
  lemma MovedAsWrittenAgrees(o: AlignedBlock, address: nat, size: nat, garbage: nat -> byte)
    requires Valid(o) && ReallocFits(o, MovedTo(address), size) && 0 < size && IsSize(size)
    requires AlignedBlockSize(size, o.alignment) <= SIZE_MAX
    requires AlignedBuffer(address, o.alignment) - address == o.header.offset
    ensures ResizeBlock(o, size, MovedTo(address), garbage) == Allocated(MovedSameOffset(o, address, size, garbage))
    ensures ResizeBlockAsWritten(o, size, MovedTo(address), garbage) == Resized(MovedSameOffset(o, address, size, garbage))
  {
    FreeAlignedRoundTrip(o);
    MovedAsWrittenSameOffset(o, address, size, garbage);
  }

  /** Moved to a block whose buffer keeps its offset, the branch as written builds the same block as `MovedSameOffset`. */
  lemma MovedAsWrittenSameOffset(o: AlignedBlock, address: nat, size: nat, garbage: nat -> byte)
    requires Resizable(o, size)
    requires address + NewBlockSize(o, size) <= ADDRESS_SPACE
    requires AlignedBuffer(address, o.alignment) - address == o.header.offset
    ensures MovedAsWritten(o, address, size, garbage) == Some(MovedSameOffset(o, address, size, garbage))
  {
    var h := Header(o.header.offset, size);
    assert MovedSameOffset(o, address, size, garbage)
        == AlignedBlock(address, o.alignment, h, SameOffsetBytes(o, size, garbage));
  }

  /**
   A valid allocation at alignment 16 resized in place to `SIZE_MAX - 29`
   bytes: as written `realloc` is asked for a 1-byte block and the header
   then records `SIZE_MAX - 29` bytes; for `SIZE_MAX - 30` bytes it is
   asked for 0 bytes, which may free the block. The corrected resize
   returns null and leaves the allocation alone.
   */
  lemma ReallocWrapsExample(o: AlignedBlock, garbage: nat -> byte)
    requires Valid(o) && o.alignment == 16
    ensures ReallocFits(o, InPlace, SIZE_MAX - 29) && ReallocFits(o, InPlace, SIZE_MAX - 30)
    ensures ResizeBlockAsWritten(o, SIZE_MAX - 29, InPlace, garbage) == UndersizedBlock(o.block, 1, SIZE_MAX - 29)
    ensures ResizeBlockAsWritten(o, SIZE_MAX - 30, InPlace, garbage) == UndersizedBlock(o.block, 0, SIZE_MAX - 30)
    ensures ResizeBlock(o, SIZE_MAX - 29, InPlace, garbage) == NullResult
  {
    WrapOnce(AlignedBlockSize(SIZE_MAX - 29, 16));
    WrapOnce(AlignedBlockSize(SIZE_MAX - 30, 16));
  }

  // ---------------------------------------------------------------------
  // Unaligned wrappers
  // ---------------------------------------------------------------------

  /** What the unaligned functions return: null (after freeing some block, or not), or a block address. */
  datatype PlainResult = PlainNull | PlainFreed(freed: nat) | PlainBlock(address: nat)

  /** `zrAllocate`: null for a zero size, otherwise whatever `malloc` answers. */
  function Allocate(size: nat, malloc: Answer): (r: Option<nat>)
    ensures size == 0 ==> r.None?
    ensures size > 0 ==> (r.Some? <==> malloc.At?) && (r.Some? ==> r.value == malloc.address)
  {
    if size == 0 then None
    else match malloc
      case Null => None
      case At(p) => Some(p)
  }

  /**
   `zrReallocate`: a null original behaves as `zrAllocate`; a zero size
   frees the original and returns null; otherwise `realloc` decides.
   */
  function Reallocate(original: Option<nat>, size: nat, malloc: Answer, realloc: ReallocAnswer): (r: PlainResult)
    ensures original.None? ==> (r.PlainBlock? <==> Allocate(size, malloc).Some?)
    ensures original.None? && r.PlainBlock? ==> r.address == Allocate(size, malloc).value
    ensures original.None? ==> !r.PlainFreed?
    ensures original.Some? && size == 0 ==> r == PlainFreed(original.value)
    ensures original.Some? && size > 0 ==> (r.PlainNull? <==> realloc.Failed?)
    ensures original.Some? && size > 0 && realloc.InPlace? ==> r == PlainBlock(original.value)
    ensures original.Some? && size > 0 && realloc.MovedTo? ==> r == PlainBlock(realloc.address)
  {
    match original
    case None =>
      (match Allocate(size, malloc)
       case None => PlainNull
       case Some(p) => PlainBlock(p))
    case Some(p) =>
      if size == 0 then PlainFreed(p)
      else match realloc
        case Failed => PlainNull
        case InPlace => PlainBlock(p)
        case MovedTo(q) => PlainBlock(q)
  }
}
