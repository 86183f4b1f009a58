/** The two allocators of GeeFS (`GeeFS::AllocDataBlock` and
    `GeeFS::AllocINode`), written as the scans the code performs, and their
    specifications over the header invariants of `Layout`. */
module Alloc {
  import opened Machine
  import opened ByteSeq
  import opened LittleEndian
  import opened Structs
  import opened IoDevice
  import opened Bitmap
  import opened Layout

  // ------------------------------------------------------ data blocks

  /** The block number returned for bit `k` of byte `j` of free map `i`:
      `1 + free_map_num + inode_blk_num + i*(block_size-4)*8 + j*8 + (7-k)`.
      The code wraps every step at 2^32 or at 2^64; as 2^32 divides 2^64 the
      result is the sum modulo 2^32 of the terms as `std::size_t` yields them. */
  function DataBlockNumber(sb: SuperBlockHeader, i: nat, j: nat, k: nat): u32
    requires k < 8
  {
    U32(1 + sb.freeMapNum + sb.inodeBlkNum + Mul(i, BitsPerMap(sb.blockSize)) + j * 8 + (7 - k))
  }

  /** `GeeFS::AllocDataBlock`. */
  function AllocDataBlock(d: Device, sb: SuperBlockHeader): Run<Device, Option<u32>>
  {
    ScanFreeMaps(d, sb, 0)
  }

  /** The loop of `AllocDataBlock` from free map `i` on. */
  function ScanFreeMaps(d: Device, sb: SuperBlockHeader, i: nat): Run<Device, Option<u32>>
    decreases sb.freeMapNum - i
  {
    if i >= sb.freeMapNum then Ok(d, None)
    else
      var offset := U32(Mul(1 + i, sb.blockSize));
      match ReadExact(d, BlockHeaderSize, offset)
      case None => Abort(DeviceAssert)
      case Some(hb) =>
        if DecodeU32(hb) == 0 then ScanFreeMaps(d, sb, i + 1)
        else TakeFromMap(d, sb, i, offset, DecodeU32(hb))
  }

  /** The body of the loop for a free map whose header is nonzero: the
      header is decremented and written back before the bitmap is searched. */
  function TakeFromMap(d: Device, sb: SuperBlockHeader, i: nat, offset: nat, unused: u32): Run<Device, Option<u32>>
    requires unused > 0
  {
    var (d1, ok1) := WriteExact(d, EncodeU32(unused - 1), offset);
    if !ok1 then Abort(DeviceAssert)
    else match ReadExact(d1, PayloadSize(sb.blockSize), offset + BlockHeaderSize)
      case None => Abort(DeviceAssert)
      case Some(buf) => MarkFirstClear(d1, sb, i, offset, buf)
  }

  /** The bitmap search of the loop body: set the first clear bit, write
      its byte back, return the block it stands for. */
  function MarkFirstClear(d1: Device, sb: SuperBlockHeader, i: nat, offset: nat, buf: seq<byte>): Run<Device, Option<u32>>
  {
    match FindFreeBit(buf, 0)
    case None => Abort(CorruptFreeMap)
    case Some((j, k)) =>
      var buf' := SetBitAt(buf, 8 * j + 7 - k);
      var (d2, ok2) := WriteExact(d1, [buf'[j]], offset + BlockHeaderSize + j);
      if !ok2 then Abort(DeviceAssert)
      else Ok(d2, Some(DataBlockNumber(sb, i, j, k)))
  }

  /** The device offset of free map `i`, and its header as read there. */
  lemma {:induction false} ReadMapHeader(d: Device, sb: SuperBlockHeader, i: nat)
    requires Sized(d.data, sb) && i < sb.freeMapNum
    ensures U32(Mul(1 + i, sb.blockSize)) == Mul(1 + i, sb.blockSize)
    ensures ReadExact(d, BlockHeaderSize, U32(Mul(1 + i, sb.blockSize)))
              == Some(MapBlock(d.data, sb, i)[..BlockHeaderSize])
  {
    BlockOffset(sb, 1 + i);
    ReadInBlock(d, sb, 1 + i, 0, BlockHeaderSize, Mul(1 + i, sb.blockSize));
  }

  /** One turn of the free-map loop over a header read as zero. */
  lemma {:induction false} ScanFreeMapsPass(d: Device, sb: SuperBlockHeader, i: nat, hb: seq<byte>)
    requires i < sb.freeMapNum
    requires ReadExact(d, BlockHeaderSize, U32(Mul(1 + i, sb.blockSize))) == Some(hb)
    requires DecodeU32(hb) == 0
    ensures ScanFreeMaps(d, sb, i) == ScanFreeMaps(d, sb, i + 1)
  {
  }

  /** One turn of the free-map loop over a header read as nonzero. */
  lemma {:induction false} ScanFreeMapsTake(d: Device, sb: SuperBlockHeader, i: nat, hb: seq<byte>)
    requires i < sb.freeMapNum
    requires ReadExact(d, BlockHeaderSize, U32(Mul(1 + i, sb.blockSize))) == Some(hb)
    requires DecodeU32(hb) != 0
    ensures ScanFreeMaps(d, sb, i) == TakeFromMap(d, sb, i, U32(Mul(1 + i, sb.blockSize)), DecodeU32(hb))
  {
  }

  lemma {:induction false} SkipEmptyMap(d: Device, sb: SuperBlockHeader, i: nat)
    requires Sized(d.data, sb) && i < sb.freeMapNum && MapHeader(d.data, sb, i) == 0
    ensures ScanFreeMaps(d, sb, i) == ScanFreeMaps(d, sb, i + 1)
  {
    ReadMapHeader(d, sb, i);
    ScanFreeMapsPass(d, sb, i, MapBlock(d.data, sb, i)[..BlockHeaderSize]);
  }

  /** Free maps whose header is zero are passed over untouched. */
  lemma {:induction false} ScanFreeMapsSkip(d: Device, sb: SuperBlockHeader, i0: nat, i: nat)
    requires Sized(d.data, sb) && i0 <= i <= sb.freeMapNum
    requires forall i' :: i0 <= i' < i ==> MapHeader(d.data, sb, i') == 0
    ensures ScanFreeMaps(d, sb, i0) == ScanFreeMaps(d, sb, i)
  {
    forall k | i0 <= k < i ensures ScanFreeMaps(d, sb, k) == ScanFreeMaps(d, sb, k + 1) {
      SkipEmptyMap(d, sb, k);
    }
    Chain((k: nat) => ScanFreeMaps(d, sb, k), i0, i);
  }

  /** Without a nonzero header the allocator fails cleanly; with one, and
      with headers that count their clear bits, it never aborts. */
  lemma {:induction false} AllocDataBlockNone(d: Device, sb: SuperBlockHeader)
    requires FreeMapOk(d.data, sb)
    ensures AllocDataBlock(d, sb).Ok?
    ensures AllocDataBlock(d, sb).value.None? <==>
              forall i :: 0 <= i < sb.freeMapNum ==> MapHeader(d.data, sb, i) == 0
    ensures AllocDataBlock(d, sb).value.None? ==> AllocDataBlock(d, sb).state == d
  {
    if forall i :: 0 <= i < sb.freeMapNum ==> MapHeader(d.data, sb, i) == 0 {
      ScanFreeMapsSkip(d, sb, 0, sb.freeMapNum);
    } else {
      var i := FirstFreeMapWitness(d.data, sb, sb.freeMapNum);
      var bits := MapBits(d.data, sb, i);
      FindFreeBitSpec(bits);
      var (j, k) := FindFreeBit(bits, 0).value;
      AllocDataBlockFound(d, sb, i, 8 * j + 7 - k);
    }
  }

  lemma {:induction false} FirstFreeMapWitness(s: seq<byte>, sb: SuperBlockHeader, n: nat) returns (i: nat)
    requires Sized(s, sb) && n <= sb.freeMapNum
    requires exists i' :: 0 <= i' < n && MapHeader(s, sb, i') != 0
    ensures i < n && FirstFreeMap(s, sb, i)
    decreases n
  {
    if exists i' :: 0 <= i' < n - 1 && MapHeader(s, sb, i') != 0 {
      i := FirstFreeMapWitness(s, sb, n - 1);
    } else {
      i := n - 1;
    }
  }

  /** The number `AllocDataBlock` computes from byte `j` and bit `k` of the
      bitmap is the block of bitmap position `8j + 7 - k`. */
  lemma {:induction false} DataBlockNumberSpec(sb: SuperBlockHeader, i: nat, p: nat)
    requires ValidGeometry(sb) && i < sb.freeMapNum && p < BitsPerMap(sb.blockSize)
    ensures DataBlockNumber(sb, i, p / 8, 7 - p % 8) == BitBlock(sb, i, p)
  {
    BitBlockInData(sb, i, p);
  }

  /** Writing the header of free map `i` changes that header only. */
  lemma {:induction false} MapHeaderWrite(d: Device, sb: SuperBlockHeader, i: nat, v: u32)
    requires Sized(d.data, sb) && i < sb.freeMapNum
    ensures var (d1, ok) := WriteExact(d, EncodeU32(v), Mul(1 + i, sb.blockSize));
      && ok && d1.tail == d.tail && OnlyBlockChanged(d.data, d1.data, sb, 1 + i)
      && MapHeader(d1.data, sb, i) == v
      && MapBits(d1.data, sb, i) == MapBits(d.data, sb, i)
  {
    HeaderWrite(d, sb, 1 + i, v);
    var d1 := WriteExact(d, EncodeU32(v), Mul(1 + i, sb.blockSize)).0;
    assert OnlyBlockChanged(d.data, d1.data, sb, 1 + i);
    DecodeEncodeU32(v);
  }

  /** The header step: once the decremented count is written back, the
      bitmap read after it is the bitmap as it was. */
  lemma {:induction false} TakeFromMapSpec(d: Device, sb: SuperBlockHeader, i: nat)
    requires Sized(d.data, sb) && i < sb.freeMapNum && MapHeader(d.data, sb, i) != 0
    ensures TakeFromMap(d, sb, i, Mul(1 + i, sb.blockSize), MapHeader(d.data, sb, i))
              == MarkFirstClear(WriteExact(d, EncodeU32(MapHeader(d.data, sb, i) - 1), Mul(1 + i, sb.blockSize)).0,
                                sb, i, Mul(1 + i, sb.blockSize), MapBits(d.data, sb, i))
  {
    var off, u := Mul(1 + i, sb.blockSize), MapHeader(d.data, sb, i);
    TakeFromMapReady(d, sb, i);
    TakeFromMapUnfold(d, WriteExact(d, EncodeU32(u - 1), off).0, sb, i, off, u, MapBits(d.data, sb, i));
  }

  /** Both device calls of `TakeFromMap` succeed on a sized image: the
      header write stays inside the free map, and the bitmap read after it
      returns the bitmap as it was. */
  lemma {:induction false} TakeFromMapReady(d: Device, sb: SuperBlockHeader, i: nat)
    requires Sized(d.data, sb) && i < sb.freeMapNum && MapHeader(d.data, sb, i) != 0
    ensures WriteExact(d, EncodeU32(MapHeader(d.data, sb, i) - 1), Mul(1 + i, sb.blockSize)).1
    ensures ReadExact(WriteExact(d, EncodeU32(MapHeader(d.data, sb, i) - 1), Mul(1 + i, sb.blockSize)).0,
                      PayloadSize(sb.blockSize), Mul(1 + i, sb.blockSize) + BlockHeaderSize)
              == Some(MapBits(d.data, sb, i))
  {
    MapHeaderWrite(d, sb, i, MapHeader(d.data, sb, i) - 1);
    PayloadRead(WriteExact(d, EncodeU32(MapHeader(d.data, sb, i) - 1), Mul(1 + i, sb.blockSize)).0, sb, 1 + i);
  }

  /** `TakeFromMap` when both of its device calls succeed. */
  lemma {:induction false} TakeFromMapUnfold(d: Device, d1: Device, sb: SuperBlockHeader, i: nat, offset: nat, unused: u32, buf: seq<byte>)
    requires unused > 0 && WriteExact(d, EncodeU32(unused - 1), offset) == (d1, true)
    requires ReadExact(d1, PayloadSize(sb.blockSize), offset + BlockHeaderSize) == Some(buf)
    ensures TakeFromMap(d, sb, i, offset, unused) == MarkFirstClear(d1, sb, i, offset, buf)
  {
  }

  /** The bitmap step: the first clear bit is set and written back, and the
      block it stands for is returned. */
  lemma {:induction false} MarkFirstClearSpec(d1: Device, sb: SuperBlockHeader, i: nat, p: nat)
    requires Sized(d1.data, sb) && i < sb.freeMapNum
    requires FirstClear(MapBits(d1.data, sb, i), p)
    ensures var r := MarkFirstClear(d1, sb, i, Mul(1 + i, sb.blockSize), MapBits(d1.data, sb, i));
      && r.Ok? && r.state.tail == d1.tail
      && OnlyBlockChanged(d1.data, r.state.data, sb, 1 + i)
      && MapBlock(r.state.data, sb, i)
           == MapBlock(d1.data, sb, i)[..BlockHeaderSize] + SetBitAt(MapBits(d1.data, sb, i), p)
      && r.value == Some(DataBlockNumber(sb, i, p / 8, 7 - p % 8))
  {
    var bs := sb.blockSize;
    var blk := MapBlock(d1.data, sb, i);
    var bits := MapBits(d1.data, sb, i);
    var j, k := p / 8, 7 - p % 8;
    FindFreeBitFirst(bits, p);
    var patch := [SetBitAt(bits, p)[j]];
    var off := Mul(1 + i, bs);
    WriteInBlock(d1, sb, 1 + i, BlockHeaderSize + j, patch, off + BlockHeaderSize + j);
    MarkFirstClearUnfold(d1, sb, i, off, bits, j, k);
    var d2 := Device(Patch(d1.data, off + BlockHeaderSize + j, patch), d1.tail);
    assert MarkFirstClear(d1, sb, i, off, bits) == Ok(d2, Some(DataBlockNumber(sb, i, j, k)));
    assert Sized(d2.data, sb);
    assert OnlyBlockChanged(d1.data, d2.data, sb, 1 + i);
    PatchBitmapByte(blk, p);
  }

  /** Writing back the byte that holds bit `p` of a block's bitmap leaves
      the block as its header followed by the bitmap with `p` set. */
  lemma {:induction false} PatchBitmapByte(blk: seq<byte>, p: nat)
    requires BlockHeaderSize <= |blk| && p < 8 * (|blk| - BlockHeaderSize)
    ensures var bits := blk[BlockHeaderSize..];
      Patch(blk, BlockHeaderSize + p / 8, [SetBitAt(bits, p)[p / 8]])
        == blk[..BlockHeaderSize] + SetBitAt(bits, p)
  {
    var bits := blk[BlockHeaderSize..];
    var patch := [SetBitAt(bits, p)[p / 8]];
    PatchAppend(blk[..BlockHeaderSize], bits, p / 8, patch);
    assert blk == blk[..BlockHeaderSize] + bits;
    assert Patch(bits, p / 8, patch) == SetBitAt(bits, p);
  }

  /** `MarkFirstClear` when the search finds bit `k` of byte `j` and the
      write-back succeeds. */
  lemma {:induction false} MarkFirstClearUnfold(d1: Device, sb: SuperBlockHeader, i: nat, offset: nat, buf: seq<byte>, j: nat, k: nat)
    requires FindFreeBit(buf, 0) == Some((j, k))
    requires WriteExact(d1, [SetBitAt(buf, 8 * j + 7 - k)[j]], offset + BlockHeaderSize + j).1
    ensures MarkFirstClear(d1, sb, i, offset, buf)
              == Ok(WriteExact(d1, [SetBitAt(buf, 8 * j + 7 - k)[j]], offset + BlockHeaderSize + j).0,
                    Some(DataBlockNumber(sb, i, j, k)))
  {
  }

  /** The allocation itself: the first free map with a nonzero header loses
      one from its count and gains its first clear bit, the block of that bit
      is returned, and no other block changes. */
  lemma {:induction false} AllocDataBlockFound(d: Device, sb: SuperBlockHeader, i: nat, p: nat)
    requires FreeMapOk(d.data, sb) && FirstFreeMap(d.data, sb, i)
    requires FirstClear(MapBits(d.data, sb, i), p)
    ensures var r := AllocDataBlock(d, sb);
      && r.Ok? && r.state.tail == d.tail
      && r.value == Some(BitBlock(sb, i, p))
      && DataStart(sb) <= r.value.value < TotalBlocks(sb)
      && OnlyBlockChanged(d.data, r.state.data, sb, 1 + i)
      && MapHeader(r.state.data, sb, i) == MapHeader(d.data, sb, i) - 1
      && MapBits(r.state.data, sb, i) == SetBitAt(MapBits(d.data, sb, i), p)
      && FreeMapOk(r.state.data, sb)
  {
    var bs := sb.blockSize;
    var h := MapHeader(d.data, sb, i);
    var bits := MapBits(d.data, sb, i);
    ScanFreeMapsSkip(d, sb, 0, i);
    ReadMapHeader(d, sb, i);
    ScanFreeMapsTake(d, sb, i, MapBlock(d.data, sb, i)[..BlockHeaderSize]);
    assert AllocDataBlock(d, sb) == TakeFromMap(d, sb, i, Mul(1 + i, bs), h);
    TakeFromMapSpec(d, sb, i);
    MapHeaderWrite(d, sb, i, h - 1);
    var d1 := WriteExact(d, EncodeU32(h - 1), Mul(1 + i, bs)).0;
    MarkFirstClearSpec(d1, sb, i, p);
    var d2 := AllocDataBlock(d, sb).state;
    OnlyBlockChangedTrans(d.data, d1.data, d2.data, sb, 1 + i);
    AllocatedMap(d1.data, d2.data, sb, i, p);
    DataBlockNumberSpec(sb, i, p);
    BitBlockInData(sb, i, p);
    FreeMapOkAfter(d.data, d2.data, sb, i);
  }

  /** The free map after the bitmap step: one bit more set, and a header
      that, decremented beforehand, again counts the clear bits. */
  lemma {:induction false} AllocatedMap(s1: seq<byte>, s2: seq<byte>, sb: SuperBlockHeader, i: nat, p: nat)
    requires Sized(s1, sb) && Sized(s2, sb) && i < sb.freeMapNum
    requires FirstClear(MapBits(s1, sb, i), p)
    requires MapBlock(s2, sb, i) == MapBlock(s1, sb, i)[..BlockHeaderSize] + SetBitAt(MapBits(s1, sb, i), p)
    ensures MapHeader(s2, sb, i) == MapHeader(s1, sb, i)
    ensures MapBits(s2, sb, i) == SetBitAt(MapBits(s1, sb, i), p)
    ensures ZeroBits(MapBits(s2, sb, i)) == ZeroBits(MapBits(s1, sb, i)) - 1
  {
    SetBitAtSpec(MapBits(s1, sb, i), p);
  }

  // ----------------------------------------------------------- inodes

  /** What the slot scan of `AllocINode` finds: the byte offset of an Unused
      slot, nothing, or a type field that would be read past the buffer. */
  datatype SlotScan = Found(offset: nat) | Exhausted | Overread

  /** `for (j = 0; j < buf.size(); j += sizeof(INode))`, testing the type
      field at `buf[j..j+4]` of each slot, the last one possibly partial. */
  function FindUnused(buf: seq<byte>, j: nat): (r: SlotScan)
    ensures r.Found? ==> r.offset + 4 <= |buf|
    decreases |buf| - j
  {
    if j >= |buf| then Exhausted
    else if j + 4 > |buf| then Overread
    else if DecodeU32(buf[j..j + 4]) == TypeCode(Unused) then Found(j)
    else FindUnused(buf, j + INodeSize)
  }

  /** `GeeFS::AllocINode`. */
  function AllocINode(d: Device, sb: SuperBlockHeader): Run<Device, Option<u32>>
  {
    ScanINodeBlocks(d, sb, 0)
  }

  /** The loop of `AllocINode` from inode block `i` on. */
  function ScanINodeBlocks(d: Device, sb: SuperBlockHeader, i: nat): Run<Device, Option<u32>>
    decreases sb.inodeBlkNum - i
  {
    if i >= sb.inodeBlkNum then Ok(d, None)
    else
      var offset := U32(Mul(U32(1 + sb.freeMapNum + i), sb.blockSize));
      match ReadExact(d, BlockHeaderSize, offset)
      case None => Abort(DeviceAssert)
      case Some(hb) =>
        if DecodeU32(hb) == 0 then ScanINodeBlocks(d, sb, i + 1)
        else TakeFromINodeBlock(d, sb, i, offset, DecodeU32(hb))
  }

  /** The body of the loop for an inode block whose header is nonzero: the
      header is decremented and written back, but the chosen slot is left as
      it is, and the id returned is `i * in_per_blk + j` with `j` the byte
      offset of the slot in the payload. */
  function TakeFromINodeBlock(d: Device, sb: SuperBlockHeader, i: nat, offset: nat, unused: u32): Run<Device, Option<u32>>
    requires unused > 0
  {
    var (d1, ok1) := WriteExact(d, EncodeU32(unused - 1), offset);
    if !ok1 then Abort(DeviceAssert)
    else match ReadExact(d1, PayloadSize(sb.blockSize), offset + BlockHeaderSize)
      case None => Abort(DeviceAssert)
      case Some(buf) =>
        match FindUnused(buf, 0)
        case Found(j) => Ok(d1, Some(U32(Mul(i, InodesPerBlock(sb.blockSize)) + j)))
        case Exhausted => Abort(CorruptINodeBlock)
        case Overread => Abort(SlotOverread)
  }

  /** Block number of inode block `i`. */
  function INodeBlockNumber(sb: SuperBlockHeader, i: nat): nat
  {
    1 + sb.freeMapNum + i
  }

  /** The device offset of inode block `i`, and its header as read there. */
  lemma {:induction false} ReadINodeHeader(d: Device, sb: SuperBlockHeader, i: nat)
    requires Sized(d.data, sb) && i < sb.inodeBlkNum
    ensures U32(Mul(U32(1 + sb.freeMapNum + i), sb.blockSize)) == Mul(INodeBlockNumber(sb, i), sb.blockSize)
    ensures ReadExact(d, BlockHeaderSize, U32(Mul(U32(1 + sb.freeMapNum + i), sb.blockSize)))
              == Some(INodeBlock(d.data, sb, i)[..BlockHeaderSize])
  {
    var b := INodeBlockNumber(sb, i);
    BlockOffset(sb, b);
    ReadInBlock(d, sb, b, 0, BlockHeaderSize, Mul(b, sb.blockSize));
  }

  /** One turn of the inode-block loop over a header read as zero. */
  lemma {:induction false} ScanINodeBlocksPass(d: Device, sb: SuperBlockHeader, i: nat, hb: seq<byte>)
    requires i < sb.inodeBlkNum
    requires ReadExact(d, BlockHeaderSize, U32(Mul(U32(1 + sb.freeMapNum + i), sb.blockSize))) == Some(hb)
    requires DecodeU32(hb) == 0
    ensures ScanINodeBlocks(d, sb, i) == ScanINodeBlocks(d, sb, i + 1)
  {
  }

  /** One turn of the inode-block loop over a header read as nonzero. */
  lemma {:induction false} ScanINodeBlocksTake(d: Device, sb: SuperBlockHeader, i: nat, hb: seq<byte>)
    requires i < sb.inodeBlkNum
    requires ReadExact(d, BlockHeaderSize, U32(Mul(U32(1 + sb.freeMapNum + i), sb.blockSize))) == Some(hb)
    requires DecodeU32(hb) != 0
    ensures ScanINodeBlocks(d, sb, i)
              == TakeFromINodeBlock(d, sb, i, U32(Mul(U32(1 + sb.freeMapNum + i), sb.blockSize)), DecodeU32(hb))
  {
  }

  lemma {:induction false} SkipFullINodeBlock(d: Device, sb: SuperBlockHeader, i: nat)
    requires Sized(d.data, sb) && i < sb.inodeBlkNum && INodeHeader(d.data, sb, i) == 0
    ensures ScanINodeBlocks(d, sb, i) == ScanINodeBlocks(d, sb, i + 1)
  {
    ReadINodeHeader(d, sb, i);
    ScanINodeBlocksPass(d, sb, i, INodeBlock(d.data, sb, i)[..BlockHeaderSize]);
  }

  /** Inode blocks whose header is zero are passed over untouched. */
  lemma {:induction false} ScanINodeBlocksSkip(d: Device, sb: SuperBlockHeader, i0: nat, i: nat)
    requires Sized(d.data, sb) && i0 <= i <= sb.inodeBlkNum
    requires forall i' :: i0 <= i' < i ==> INodeHeader(d.data, sb, i') == 0
    ensures ScanINodeBlocks(d, sb, i0) == ScanINodeBlocks(d, sb, i)
  {
    forall k | i0 <= k < i ensures ScanINodeBlocks(d, sb, k) == ScanINodeBlocks(d, sb, k + 1) {
      SkipFullINodeBlock(d, sb, k);
    }
    Chain((k: nat) => ScanINodeBlocks(d, sb, k), i0, i);
  }

  /** The slot scan over the payload of an inode block stops at the first
      Unused slot, provided that slot is a whole one. */
  lemma {:induction false} FindUnusedFirst(blk: seq<byte>, t: nat, m: nat)
    requires |blk| >= BlockHeaderSize && FirstUnusedSlot(blk, t) && m <= t
    ensures FindUnused(blk[BlockHeaderSize..], INodeSize * m) == Found(INodeSize * t)
    decreases t - m
  {
    var buf := blk[BlockHeaderSize..];
    assert buf[INodeSize * m .. INodeSize * m + 4] == blk[SlotOffset(m) .. SlotOffset(m) + 4];
    if m < t {
      assert SlotType(blk, m) != TypeCode(Unused);
      assert FindUnused(buf, INodeSize * m) == FindUnused(buf, INodeSize * (m + 1));
      FindUnusedFirst(blk, t, m + 1);
    }
  }

  /** The first Unused slot of a block lies below the number of whole slots. */
  lemma {:induction false} SlotBelowCapacity(sb: SuperBlockHeader, blk: seq<byte>, t: nat)
    requires ValidGeometry(sb) && |blk| == sb.blockSize && FirstUnusedSlot(blk, t)
    ensures t < InodesPerBlock(sb.blockSize)
  {
    GeometryFacts(sb);
    DivModUnique(sb.blockSize - 4, INodeSize, InodesPerBlock(sb.blockSize), (sb.blockSize - 4) % INodeSize);
  }

  lemma {:induction false} FirstFreeINodeBlockWitness(s: seq<byte>, sb: SuperBlockHeader, n: nat) returns (i: nat)
    requires Sized(s, sb) && n <= sb.inodeBlkNum
    requires exists i' :: 0 <= i' < n && INodeHeader(s, sb, i') != 0
    ensures i < n && FirstFreeINodeBlock(s, sb, i)
    decreases n
  {
    if exists i' :: 0 <= i' < n - 1 && INodeHeader(s, sb, i') != 0 {
      i := FirstFreeINodeBlockWitness(s, sb, n - 1);
    } else {
      i := n - 1;
    }
  }

  /** Without a nonzero header the inode allocator fails cleanly; with one,
      and with headers that never overstate the Unused slots, it never aborts. */
  lemma {:induction false} AllocINodeNone(d: Device, sb: SuperBlockHeader)
    requires INodeHeadersOk(d.data, sb)
    ensures AllocINode(d, sb).Ok?
    ensures AllocINode(d, sb).value.None? <==>
              forall i :: 0 <= i < sb.inodeBlkNum ==> INodeHeader(d.data, sb, i) == 0
    ensures AllocINode(d, sb).value.None? ==> AllocINode(d, sb).state == d
  {
    GeometryFacts(sb);
    if forall i :: 0 <= i < sb.inodeBlkNum ==> INodeHeader(d.data, sb, i) == 0 {
      ScanINodeBlocksSkip(d, sb, 0, sb.inodeBlkNum);
    } else {
      var i := FirstFreeINodeBlockWitness(d.data, sb, sb.inodeBlkNum);
      var blk := INodeBlock(d.data, sb, i);
      var t := UnusedSlotWitness(blk, InodesPerBlock(sb.blockSize));
      MulLeLeft(t + 1, InodesPerBlock(sb.blockSize), INodeSize);
      AllocINodeFound(d, sb, i, t);
    }
  }

  /** The id of slot `t` of inode block `i` as `AllocINode` computes it
      fits in 32 bits. */
  lemma {:induction false} INodeIdBound(sb: SuperBlockHeader, i: nat, t: nat)
    requires ValidGeometry(sb) && i < sb.inodeBlkNum && t < InodesPerBlock(sb.blockSize)
    ensures Mul(i, InodesPerBlock(sb.blockSize)) + INodeSize * t < TWO_32
  {
    var bs := sb.blockSize;
    GeometryFacts(sb);
    MulLeRight(i, InodesPerBlock(bs), bs);
    MulStrict(i, TotalBlocks(sb), bs);
  }

  /** Writing the header of inode block `i` changes that header only. */
  lemma {:induction false} INodeHeaderWrite(d: Device, sb: SuperBlockHeader, i: nat, v: u32)
    requires Sized(d.data, sb) && i < sb.inodeBlkNum
    ensures var (d1, ok) := WriteExact(d, EncodeU32(v), Mul(INodeBlockNumber(sb, i), sb.blockSize));
      && ok && d1.tail == d.tail && OnlyBlockChanged(d.data, d1.data, sb, INodeBlockNumber(sb, i))
      && INodeHeader(d1.data, sb, i) == v
      && INodeBlock(d1.data, sb, i)[BlockHeaderSize..] == INodeBlock(d.data, sb, i)[BlockHeaderSize..]
  {
    var b := INodeBlockNumber(sb, i);
    HeaderWrite(d, sb, b, v);
    var d1 := WriteExact(d, EncodeU32(v), Mul(b, sb.blockSize)).0;
    assert OnlyBlockChanged(d.data, d1.data, sb, b);
    DecodeEncodeU32(v);
  }

  /** `TakeFromINodeBlock` when both device calls succeed and the scan finds
      the slot at byte offset `j`. */
  lemma {:induction false} TakeFromINodeBlockUnfold(d: Device, sb: SuperBlockHeader, i: nat, offset: nat, unused: u32,
                                 buf: seq<byte>, j: nat)
    requires unused > 0
    requires var (d1, ok) := WriteExact(d, EncodeU32(unused - 1), offset);
      ok && ReadExact(d1, PayloadSize(sb.blockSize), offset + BlockHeaderSize) == Some(buf)
    requires FindUnused(buf, 0) == Found(j)
    ensures TakeFromINodeBlock(d, sb, i, offset, unused)
              == Ok(WriteExact(d, EncodeU32(unused - 1), offset).0,
                    Some(U32(Mul(i, InodesPerBlock(sb.blockSize)) + j)))
  {
  }

  /** The inode step: once the decremented count is written back, the id of
      the first Unused slot is returned; the payload is not touched. */
  lemma {:induction false} TakeFromINodeBlockSpec(d: Device, sb: SuperBlockHeader, i: nat, t: nat)
    requires Sized(d.data, sb) && i < sb.inodeBlkNum && INodeHeader(d.data, sb, i) != 0
    requires FirstUnusedSlot(INodeBlock(d.data, sb, i), t)
    ensures var h := INodeHeader(d.data, sb, i);
      var off := Mul(INodeBlockNumber(sb, i), sb.blockSize);
      TakeFromINodeBlock(d, sb, i, off, h)
        == Ok(WriteExact(d, EncodeU32(h - 1), off).0,
              Some(Mul(i, InodesPerBlock(sb.blockSize)) + INodeSize * t))
  {
    var h := INodeHeader(d.data, sb, i);
    var blk := INodeBlock(d.data, sb, i);
    TakeFromINodeBlockReady(d, sb, i);
    FindUnusedFirst(blk, t, 0);
    TakeFromINodeBlockUnfold(d, sb, i, Mul(INodeBlockNumber(sb, i), sb.blockSize), h,
                             blk[BlockHeaderSize..], INodeSize * t);
    SlotBelowCapacity(sb, blk, t);
    INodeIdBound(sb, i, t);
  }

  /** Both device calls of `TakeFromINodeBlock` succeed on a sized image:
      the header write stays inside the inode block, and the payload read
      after it returns the slots as they were. */
  lemma {:induction false} TakeFromINodeBlockReady(d: Device, sb: SuperBlockHeader, i: nat)
    requires Sized(d.data, sb) && i < sb.inodeBlkNum && INodeHeader(d.data, sb, i) != 0
    ensures WriteExact(d, EncodeU32(INodeHeader(d.data, sb, i) - 1), Mul(INodeBlockNumber(sb, i), sb.blockSize)).1
    ensures ReadExact(WriteExact(d, EncodeU32(INodeHeader(d.data, sb, i) - 1),
                                 Mul(INodeBlockNumber(sb, i), sb.blockSize)).0,
                      PayloadSize(sb.blockSize), Mul(INodeBlockNumber(sb, i), sb.blockSize) + BlockHeaderSize)
              == Some(INodeBlock(d.data, sb, i)[BlockHeaderSize..])
  {
    INodeHeaderWrite(d, sb, i, INodeHeader(d.data, sb, i) - 1);
    PayloadRead(WriteExact(d, EncodeU32(INodeHeader(d.data, sb, i) - 1),
                           Mul(INodeBlockNumber(sb, i), sb.blockSize)).0, sb, INodeBlockNumber(sb, i));
  }

  /** The allocation itself: the first inode block with a nonzero header
      loses one from its count; no inode is written, so the slot stays Unused;
      the id is `i * in_per_blk + 68 * t` for the first Unused slot `t`. The
      header therefore keeps not overstating the Unused slots, while a header
      that counted them exactly no longer does. */
  lemma {:induction false} AllocINodeFound(d: Device, sb: SuperBlockHeader, i: nat, t: nat)
    requires INodeHeadersOk(d.data, sb) && FirstFreeINodeBlock(d.data, sb, i)
    requires FirstUnusedSlot(INodeBlock(d.data, sb, i), t)
    ensures var r := AllocINode(d, sb);
      && r.Ok? && r.state.tail == d.tail
      && r.value == Some(Mul(i, InodesPerBlock(sb.blockSize)) + INodeSize * t)
      && OnlyBlockChanged(d.data, r.state.data, sb, INodeBlockNumber(sb, i))
      && INodeHeader(r.state.data, sb, i) == INodeHeader(d.data, sb, i) - 1
      && INodeBlock(r.state.data, sb, i)[BlockHeaderSize..] == INodeBlock(d.data, sb, i)[BlockHeaderSize..]
      && INodeHeadersOk(r.state.data, sb)
      && (INodeHeadersExact(d.data, sb) ==> !INodeHeadersExact(r.state.data, sb))
  {
    var h := INodeHeader(d.data, sb, i);
    var off := Mul(INodeBlockNumber(sb, i), sb.blockSize);
    ScanINodeBlocksSkip(d, sb, 0, i);
    ReadINodeHeader(d, sb, i);
    ScanINodeBlocksTake(d, sb, i, INodeBlock(d.data, sb, i)[..BlockHeaderSize]);
    assert AllocINode(d, sb) == TakeFromINodeBlock(d, sb, i, off, h);
    TakeFromINodeBlockSpec(d, sb, i, t);
    INodeHeaderWrite(d, sb, i, h - 1);
    var d1 := WriteExact(d, EncodeU32(h - 1), off).0;
    HeaderLowered(d.data, d1.data, sb, i);
  }

  /** An inode block whose header dropped by one over the same slots: it
      still does not overstate them, and no longer matches them exactly. */
  lemma {:induction false} HeaderLowered(s: seq<byte>, t: seq<byte>, sb: SuperBlockHeader, i: nat)
    requires INodeHeadersOk(s, sb) && i < sb.inodeBlkNum
    requires OnlyBlockChanged(s, t, sb, INodeBlockNumber(sb, i))
    requires INodeHeader(s, sb, i) > 0 && INodeHeader(t, sb, i) == INodeHeader(s, sb, i) - 1
    requires INodeBlock(t, sb, i)[BlockHeaderSize..] == INodeBlock(s, sb, i)[BlockHeaderSize..]
    ensures INodeHeadersOk(t, sb)
    ensures INodeHeadersExact(s, sb) ==> !INodeHeadersExact(t, sb)
  {
    var ipb := InodesPerBlock(sb.blockSize);
    GeometryFacts(sb);
    SameSlots(INodeBlock(t, sb, i), INodeBlock(s, sb, i), ipb);
    INodeHeadersOkAfter(s, t, sb, i);
  }

  /** Slot types depend only on the bytes after the header. */
  lemma {:induction false} SameSlots(a: seq<byte>, b: seq<byte>, n: nat)
    requires |a| == |b| && SlotOffset(n) <= |a|
    requires a[BlockHeaderSize..] == b[BlockHeaderSize..]
    ensures UnusedSlots(a, n) == UnusedSlots(b, n)
  {
    if n > 0 {
      SameSlots(a, b, n - 1);
      var o := SlotOffset(n - 1);
      assert a[o..o + 4] == a[BlockHeaderSize..][o - 4..o] == b[BlockHeaderSize..][o - 4..o] == b[o..o + 4];
    }
  }
}
