/** The geometry of a GeeFS image and the invariants its headers keep. An
    image is block 0 (the superblock), `free_map_num` free-map blocks,
    `inode_blk_num` inode blocks, then one data block per free-map bit. */
module Layout {
  import opened Machine
  import opened ByteSeq
  import opened LittleEndian
  import opened Structs
  import opened Bitmap
  import opened IoDevice

  /** Why a run stops at a failing `assert`, or at undefined behaviour the
      model declines to guess the outcome of. */
  datatype Fault =
    | DeviceAssert       // `assert(ret)` after a ReadAssert / WriteAssert
    | CorruptFreeMap     // a free-map header promised a free bit the bitmap lacks
    | CorruptINodeBlock  // an inode header promised an Unused slot the block lacks
    | SlotOverread       // the inode scan would read a type field past its buffer
    | IndirectRange      // a block index beyond double-indirect reach
    | DivideByZero       // inode location with zero inodes per block
    | RootAlloc          // `Create` could not allocate the root directory
    | NotDirectory       // `List` with a current directory that is not a Dir
    | MissingBlock       // `List` could not resolve a block of the directory

  /** A run either finishes with a new state and a result, or aborts. */
  datatype Run<S, T> = Ok(state: S, value: T) | Abort(fault: Fault)

  /** Bitmap bytes of a free-map block (and inode bytes of an inode block):
      `block_size - sizeof(header)` in `std::size_t`. */
  function PayloadSize(bs: u32): nat
  {
    if bs >= BlockHeaderSize then bs - BlockHeaderSize else bs - BlockHeaderSize + TWO_64
  }

  /** `PayloadSize` is the subtraction carried out in `std::size_t`. */
  lemma {:induction false} PayloadSizeWraps(bs: u32)
    ensures PayloadSize(bs) == U64(bs - BlockHeaderSize)
    ensures bs < BlockHeaderSize ==> PayloadSize(bs) >= TWO_64 - BlockHeaderSize
  {
  }

  /** `(block_size - sizeof(INodeBlockHeader)) / sizeof(INode)`. */
  function InodesPerBlock(bs: u32): nat
  {
    PayloadSize(bs) / INodeSize
  }

  /** The first data block: `1 + free_map_num + inode_blk_num`. */
  function DataStart(sb: SuperBlockHeader): nat
  {
    1 + sb.freeMapNum + sb.inodeBlkNum
  }

  /** Bits in the bitmap of one free-map block, `(block_size - 4) * 8` in
      `std::size_t` (only a block size below 4 makes the subtraction wrap). */
  function BitsPerMap(bs: u32): nat
  {
    PayloadSize(bs) * 8
  }

  /** Data blocks governed by the free maps, one per bitmap bit. */
  function DataBlocks(sb: SuperBlockHeader): nat
  {
    Mul(sb.freeMapNum, BitsPerMap(sb.blockSize))
  }

  function TotalBlocks(sb: SuperBlockHeader): nat
  {
    DataStart(sb) + DataBlocks(sb)
  }

  /** Geometry in which a root directory fits and no offset wraps: the block
      size passes `Create`'s checks, there is at least one free-map and one
      inode block, and the whole image is addressable by a `std::uint32_t`. */
  ghost predicate ValidGeometry(sb: SuperBlockHeader)
  {
    && sb.blockSize >= 72
    && sb.freeMapNum >= 1
    && sb.inodeBlkNum >= 1
    && Mul(TotalBlocks(sb), sb.blockSize) < TWO_32
  }

  lemma {:induction false} GeometryFacts(sb: SuperBlockHeader)
    requires ValidGeometry(sb)
    ensures PayloadSize(sb.blockSize) == sb.blockSize - BlockHeaderSize
    ensures BitsPerMap(sb.blockSize) == 8 * (sb.blockSize - BlockHeaderSize)
    ensures InodesPerBlock(sb.blockSize) >= 1
    ensures INodeSize * InodesPerBlock(sb.blockSize) <= sb.blockSize - BlockHeaderSize
    ensures DataBlocks(sb) >= BitsPerMap(sb.blockSize)
    ensures DataStart(sb) < TotalBlocks(sb)
    ensures TotalBlocks(sb) >= 3
    ensures TotalBlocks(sb) <= Mul(TotalBlocks(sb), sb.blockSize) < TWO_32
    ensures sb.blockSize < 0x8000_0000
  {
    MulAtLeast(sb.freeMapNum, BitsPerMap(sb.blockSize));
    MulLe(3, TotalBlocks(sb), sb.blockSize);
    MulAtLeast(TotalBlocks(sb), sb.blockSize);
  }

  /** Every block of a valid image lies below 2^32. */
  lemma {:induction false} BlockInImage(sb: SuperBlockHeader, b: nat)
    requires ValidGeometry(sb) && b < TotalBlocks(sb)
    ensures Mul(b, sb.blockSize) + sb.blockSize <= Mul(TotalBlocks(sb), sb.blockSize) < TWO_32
  {
    MulStrict(b, TotalBlocks(sb), sb.blockSize);
  }

  /** The data block that bit `p` of free map `i` stands for. */
  function BitBlock(sb: SuperBlockHeader, i: nat, p: nat): nat
  {
    DataStart(sb) + Mul(i, BitsPerMap(sb.blockSize)) + p
  }

  /** Each bit of each free map stands for a block of the data region. */
  lemma {:induction false} BitBlockInData(sb: SuperBlockHeader, i: nat, p: nat)
    requires ValidGeometry(sb) && i < sb.freeMapNum && p < BitsPerMap(sb.blockSize)
    ensures DataStart(sb) <= BitBlock(sb, i, p) < TotalBlocks(sb) < TWO_32
  {
    GeometryFacts(sb);
    MulStrict(i, sb.freeMapNum, BitsPerMap(sb.blockSize));
  }

  /** The image has exactly the size `Create` gives it. */
  ghost predicate Sized(s: seq<byte>, sb: SuperBlockHeader)
  {
    ValidGeometry(sb) && |s| == Mul(TotalBlocks(sb), sb.blockSize)
  }

  function Block(s: seq<byte>, sb: SuperBlockHeader, b: nat): (r: seq<byte>)
    requires Sized(s, sb) && b < TotalBlocks(sb)
    ensures |r| == sb.blockSize
  {
    BlockInImage(sb, b);
    Blk(s, sb.blockSize, b)
  }

  // ------------------------------------------------------------ free maps

  function MapBlock(s: seq<byte>, sb: SuperBlockHeader, i: nat): (r: seq<byte>)
    requires Sized(s, sb) && i < sb.freeMapNum
    ensures |r| == sb.blockSize
  {
    Block(s, sb, 1 + i)
  }

  /** `unused_num` of free-map block `i`. */
  function MapHeader(s: seq<byte>, sb: SuperBlockHeader, i: nat): u32
    requires Sized(s, sb) && i < sb.freeMapNum
  {
    DecodeU32(MapBlock(s, sb, i)[..BlockHeaderSize])
  }

  /** The bitmap of free-map block `i`. */
  function MapBits(s: seq<byte>, sb: SuperBlockHeader, i: nat): seq<byte>
    requires Sized(s, sb) && i < sb.freeMapNum
  {
    MapBlock(s, sb, i)[BlockHeaderSize..]
  }

  /** Every free-map header counts exactly the clear bits of its bitmap. */
  ghost predicate FreeMapOk(s: seq<byte>, sb: SuperBlockHeader)
  {
    && Sized(s, sb)
    && forall i :: 0 <= i < sb.freeMapNum ==> MapHeader(s, sb, i) == ZeroBits(MapBits(s, sb, i))
  }

  /** `i` is the first free-map block with a nonzero header. */
  ghost predicate FirstFreeMap(s: seq<byte>, sb: SuperBlockHeader, i: nat)
    requires Sized(s, sb)
  {
    && i < sb.freeMapNum
    && MapHeader(s, sb, i) != 0
    && forall i' :: 0 <= i' < i ==> MapHeader(s, sb, i') == 0
  }

  // ---------------------------------------------------------- inode blocks

  function INodeBlock(s: seq<byte>, sb: SuperBlockHeader, i: nat): (r: seq<byte>)
    requires Sized(s, sb) && i < sb.inodeBlkNum
    ensures |r| == sb.blockSize
  {
    Block(s, sb, 1 + sb.freeMapNum + i)
  }

  /** `unused_num` of inode block `i`. */
  function INodeHeader(s: seq<byte>, sb: SuperBlockHeader, i: nat): u32
    requires Sized(s, sb) && i < sb.inodeBlkNum
  {
    DecodeU32(INodeBlock(s, sb, i)[..BlockHeaderSize])
  }

  /** Byte offset of slot `t` within an inode block. */
  function SlotOffset(t: nat): nat
  {
    BlockHeaderSize + INodeSize * t
  }

  /** The stored type code of slot `t` of an inode block. */
  function SlotType(blk: seq<byte>, t: nat): u32
    requires SlotOffset(t) + 4 <= |blk|
  {
    DecodeU32(blk[SlotOffset(t)..SlotOffset(t) + 4])
  }

  /** The inode stored in slot `t` of an inode block. */
  function SlotINode(blk: seq<byte>, t: nat): INode
    requires SlotOffset(t) + INodeSize <= |blk|
  {
    DecodeINode(blk[SlotOffset(t)..SlotOffset(t) + INodeSize])
  }

  /** How many of the first `n` slots of an inode block are Unused. */
  function UnusedSlots(blk: seq<byte>, n: nat): (c: nat)
    requires SlotOffset(n) <= |blk|
    ensures c <= n
  {
    if n == 0 then 0
    else UnusedSlots(blk, n - 1) + if SlotType(blk, n - 1) == TypeCode(Unused) then 1 else 0
  }

  /** Every inode header is at most the number of Unused slots: a header
      that promises a free inode is never wrong. */
  ghost predicate INodeHeadersOk(s: seq<byte>, sb: SuperBlockHeader)
  {
    && Sized(s, sb)
    && (GeometryFacts(sb);
        forall i :: 0 <= i < sb.inodeBlkNum ==>
          INodeHeader(s, sb, i) <= UnusedSlots(INodeBlock(s, sb, i), InodesPerBlock(sb.blockSize)))
  }

  /** Every inode header counts exactly the Unused slots of its block. */
  ghost predicate INodeHeadersExact(s: seq<byte>, sb: SuperBlockHeader)
  {
    && Sized(s, sb)
    && (GeometryFacts(sb);
        forall i :: 0 <= i < sb.inodeBlkNum ==>
          INodeHeader(s, sb, i) == UnusedSlots(INodeBlock(s, sb, i), InodesPerBlock(sb.blockSize)))
  }

  /** `i` is the first inode block with a nonzero header. */
  ghost predicate FirstFreeINodeBlock(s: seq<byte>, sb: SuperBlockHeader, i: nat)
    requires Sized(s, sb)
  {
    && i < sb.inodeBlkNum
    && INodeHeader(s, sb, i) != 0
    && forall i' :: 0 <= i' < i ==> INodeHeader(s, sb, i') == 0
  }

  /** `t` is the first Unused slot of an inode block. */
  ghost predicate FirstUnusedSlot(blk: seq<byte>, t: nat)
  {
    && SlotOffset(t) + INodeSize <= |blk|
    && SlotType(blk, t) == TypeCode(Unused)
    && forall t' :: 0 <= t' < t ==> SlotType(blk, t') != TypeCode(Unused)
  }

  /** A positive Unused count among the first `n` slots has a first Unused slot. */
  lemma {:induction false} UnusedSlotWitness(blk: seq<byte>, n: nat) returns (t: nat)
    requires SlotOffset(n) <= |blk| && UnusedSlots(blk, n) > 0
    ensures t < n && SlotType(blk, t) == TypeCode(Unused)
    ensures forall t' :: 0 <= t' < t ==> SlotType(blk, t') != TypeCode(Unused)
  {
    if UnusedSlots(blk, n - 1) > 0 {
      t := UnusedSlotWitness(blk, n - 1);
    } else {
      t := n - 1;
      forall t' | 0 <= t' < t ensures SlotType(blk, t') != TypeCode(Unused) {
        NoUnusedBelow(blk, n - 1, t');
      }
    }
  }

  lemma {:induction false} NoUnusedBelow(blk: seq<byte>, n: nat, t: nat)
    requires SlotOffset(n) <= |blk| && UnusedSlots(blk, n) == 0 && t < n
    ensures SlotType(blk, t) != TypeCode(Unused)
  {
    if t < n - 1 {
      NoUnusedBelow(blk, n - 1, t);
    }
  }

  // ------------------------------------------------ device access by block

  /** The byte offset `block_size * b` of a block, which does not wrap. */
  lemma {:induction false} BlockOffset(sb: SuperBlockHeader, b: nat)
    requires ValidGeometry(sb) && b < TotalBlocks(sb)
    ensures U32(Mul(b, sb.blockSize)) == Mul(b, sb.blockSize)
    ensures U32(b) == b
  {
    BlockInImage(sb, b);
    GeometryFacts(sb);
  }

  /** A read that stays inside one block returns that part of the block;
      `off` is its device offset. */
  lemma {:induction false} ReadInBlock(d: Device, sb: SuperBlockHeader, b: nat, x: nat, len: nat, off: nat)
    requires Sized(d.data, sb) && b < TotalBlocks(sb)
    requires x < sb.blockSize && x + len <= sb.blockSize && off == Mul(b, sb.blockSize) + x
    ensures ReadExact(d, len, off) == Some(Block(d.data, sb, b)[x..x + len])
    ensures x + len == sb.blockSize ==> ReadExact(d, len, off) == Some(Block(d.data, sb, b)[x..])
  {
    BlockInImage(sb, b);
    GeometryFacts(sb);
    ReadExactSpec(d, len, off);
    BlkSlice(d.data, sb.blockSize, b, x, len);
    var blk := Block(d.data, sb, b);
    if x + len == sb.blockSize {
      assert blk[x..x + len] == blk[x..];
    }
  }

  /** Reading the payload of block `b`, as both allocators do. */
  lemma {:induction false} PayloadRead(d: Device, sb: SuperBlockHeader, b: nat)
    requires Sized(d.data, sb) && b < TotalBlocks(sb)
    ensures ReadExact(d, PayloadSize(sb.blockSize), Mul(b, sb.blockSize) + BlockHeaderSize)
              == Some(Block(d.data, sb, b)[BlockHeaderSize..])
  {
    var bs := sb.blockSize;
    assert PayloadSize(bs) == bs - BlockHeaderSize;
    ReadInBlock(d, sb, b, BlockHeaderSize, bs - BlockHeaderSize, Mul(b, bs) + BlockHeaderSize);
  }

  /** A write that stays inside one block succeeds and changes that block
      only; `off` is its device offset. */
  lemma {:induction false} WriteInBlock(d: Device, sb: SuperBlockHeader, b: nat, x: nat, buf: seq<byte>, off: nat)
    requires Sized(d.data, sb) && b < TotalBlocks(sb)
    requires x < sb.blockSize && x + |buf| <= sb.blockSize && off == Mul(b, sb.blockSize) + x
    ensures off + |buf| <= |d.data|
    ensures WriteExact(d, buf, off) == (Device(Patch(d.data, off, buf), d.tail), true)
    ensures Block(Patch(d.data, off, buf), sb, b) == Patch(Block(d.data, sb, b), x, buf)
    ensures forall c :: 0 <= c < TotalBlocks(sb) && c != b ==>
              Block(Patch(d.data, off, buf), sb, c) == Block(d.data, sb, c)
    ensures OnlyBlockChanged(d.data, Patch(d.data, off, buf), sb, b)
  {
    BlockInImage(sb, b);
    GeometryFacts(sb);
    WriteExactSpec(d, buf, off);
    PatchBlock(d.data, sb.blockSize, b, x, buf, off);
    forall c | 0 <= c < TotalBlocks(sb) && c != b
      ensures Block(Patch(d.data, off, buf), sb, c) == Block(d.data, sb, c)
    {
      BlockInImage(sb, c);
    }
  }

  /** `t` is an image of the same geometry as `s` that differs from it at
      most in block `b`. */
  ghost predicate OnlyBlockChanged(s: seq<byte>, t: seq<byte>, sb: SuperBlockHeader, b: nat)
  {
    && Sized(s, sb) && Sized(t, sb)
    && forall c :: 0 <= c < TotalBlocks(sb) && c != b ==> Block(t, sb, c) == Block(s, sb, c)
  }

  lemma {:induction false} OnlyBlockChangedTrans(s: seq<byte>, t: seq<byte>, u: seq<byte>, sb: SuperBlockHeader, b: nat)
    requires OnlyBlockChanged(s, t, sb, b) && OnlyBlockChanged(t, u, sb, b)
    ensures OnlyBlockChanged(s, u, sb, b)
  {
  }

  /** A change confined to one free-map block keeps every header equal to
      its clear-bit count if it does so for that block. */
  lemma {:induction false} FreeMapOkAfter(s: seq<byte>, t: seq<byte>, sb: SuperBlockHeader, i: nat)
    requires FreeMapOk(s, sb) && i < sb.freeMapNum && OnlyBlockChanged(s, t, sb, 1 + i)
    requires MapHeader(t, sb, i) == ZeroBits(MapBits(t, sb, i))
    ensures FreeMapOk(t, sb)
  {
    GeometryFacts(sb);
    forall i' | 0 <= i' < sb.freeMapNum
      ensures MapHeader(t, sb, i') == ZeroBits(MapBits(t, sb, i'))
    {
      if i' != i {
        assert Block(t, sb, 1 + i') == Block(s, sb, 1 + i');
        assert MapHeader(t, sb, i') == MapHeader(s, sb, i');
        assert MapBits(t, sb, i') == MapBits(s, sb, i');
      }
    }
  }

  /** The same for the inode headers and their Unused slots. */
  lemma {:induction false} INodeHeadersOkAfter(s: seq<byte>, t: seq<byte>, sb: SuperBlockHeader, i: nat)
    requires INodeHeadersOk(s, sb) && i < sb.inodeBlkNum
    requires OnlyBlockChanged(s, t, sb, 1 + sb.freeMapNum + i)
    requires INodeHeader(t, sb, i) <= UnusedSlots(INodeBlock(t, sb, i), InodesPerBlock(sb.blockSize))
    ensures INodeHeadersOk(t, sb)
  {
    GeometryFacts(sb);
    forall i' | 0 <= i' < sb.inodeBlkNum
      ensures INodeHeader(t, sb, i') <= UnusedSlots(INodeBlock(t, sb, i'), InodesPerBlock(sb.blockSize))
    {
      if i' != i {
        assert INodeBlock(t, sb, i') == INodeBlock(s, sb, i');
      }
    }
  }

  /** A change confined to a block that is not a free map keeps every free
      map, and with them the free-map invariant. */
  lemma {:induction false} MapsKept(s: seq<byte>, t: seq<byte>, sb: SuperBlockHeader, b: nat)
    requires OnlyBlockChanged(s, t, sb, b) && (b == 0 || 1 + sb.freeMapNum <= b)
    ensures forall i :: 0 <= i < sb.freeMapNum ==> MapBlock(t, sb, i) == MapBlock(s, sb, i)
    ensures FreeMapOk(s, sb) ==> FreeMapOk(t, sb)
  {
    GeometryFacts(sb);
    forall i | 0 <= i < sb.freeMapNum
      ensures MapBlock(t, sb, i) == MapBlock(s, sb, i)
      ensures MapHeader(t, sb, i) == MapHeader(s, sb, i) && MapBits(t, sb, i) == MapBits(s, sb, i)
    {
      assert Block(t, sb, 1 + i) == Block(s, sb, 1 + i);
    }
  }

  /** A change confined to a block that is not an inode block keeps every
      inode block, and with them both inode-header invariants. */
  lemma {:induction false} INodesKept(s: seq<byte>, t: seq<byte>, sb: SuperBlockHeader, b: nat)
    requires OnlyBlockChanged(s, t, sb, b) && (b <= sb.freeMapNum || DataStart(sb) <= b)
    ensures forall i :: 0 <= i < sb.inodeBlkNum ==> INodeBlock(t, sb, i) == INodeBlock(s, sb, i)
    ensures INodeHeadersOk(s, sb) ==> INodeHeadersOk(t, sb)
    ensures INodeHeadersExact(s, sb) ==> INodeHeadersExact(t, sb)
  {
    GeometryFacts(sb);
    forall i | 0 <= i < sb.inodeBlkNum ensures INodeBlock(t, sb, i) == INodeBlock(s, sb, i) {
      assert Block(t, sb, 1 + sb.freeMapNum + i) == Block(s, sb, 1 + sb.freeMapNum + i);
    }
  }

  /** Writing a block header: the header changes, the rest of the block
      stays as it was, and no other block changes. */
  lemma {:induction false} HeaderWrite(d: Device, sb: SuperBlockHeader, b: nat, v: u32)
    requires Sized(d.data, sb) && b < TotalBlocks(sb)
    ensures var (d1, ok) := WriteExact(d, EncodeU32(v), Mul(b, sb.blockSize));
      && ok && d1.tail == d.tail && OnlyBlockChanged(d.data, d1.data, sb, b)
      && Block(d1.data, sb, b)[..BlockHeaderSize] == EncodeU32(v)
      && Block(d1.data, sb, b)[BlockHeaderSize..] == Block(d.data, sb, b)[BlockHeaderSize..]
  {
    var hdr := EncodeU32(v);
    WriteInBlock(d, sb, b, 0, hdr, Mul(b, sb.blockSize));
    PatchFront(Block(d.data, sb, b), hdr);
  }
}
