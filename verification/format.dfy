/** The three initialisation loops of `GeeFS::Create`: every free-map,
    inode and data block is overwritten with zeros, and the first two kinds
    then get their header, one block after the other. */
module Format {
  import opened Machine
  import opened ByteSeq
  import opened LittleEndian
  import opened Structs
  import opened IoDevice
  import opened Bitmap
  import opened Layout

  /** What a block holds after the loop has passed it: zeros, headed by the
      `unused_num` the loop writes, if it writes one. */
  function FreshBlock(bs: nat, hdr: Option<u32>): (r: seq<byte>)
    requires bs >= BlockHeaderSize
    ensures |r| == bs
  {
    match hdr
    case None => Zeros(bs)
    case Some(h) => EncodeU32(h) + Zeros(bs - BlockHeaderSize)
  }

  /** One past the last block the data loop formats: the loop runs
      `(block_size - 4) * 8 * free_map_num` times, counted in `std::size_t`. */
  function DataEnd(sb: SuperBlockHeader): nat
  {
    DataStart(sb) + U64(DataBlocks(sb))
  }

  /** One pass of a loop body for block `b`: the empty block at
      `block_size * b` (a `std::uint32_t`), then the header, if any. */
  function FormatBlock(d: Device, bs: u32, b: nat, hdr: Option<u32>): (Device, bool)
  {
    var off := U32(Mul(U32(b), bs));
    var (d1, ok1) := WriteExact(d, Zeros(bs), off);
    if !ok1 || hdr.None? then (d1, ok1)
    else WriteExact(d1, EncodeU32(hdr.value), off)
  }

  /** A loop over blocks `b` to `hi - 1`; a failed write ends it with
      `false`, as `Create` then returns. */
  function FormatBlocks(d: Device, bs: u32, b: nat, hi: nat, hdr: Option<u32>): (Device, bool)
    decreases hi - b
  {
    if b >= hi then (d, true)
    else
      var (d1, ok) := FormatBlock(d, bs, b, hdr);
      if !ok then (d1, false) else FormatBlocks(d1, bs, b + 1, hi, hdr)
  }

  /** On a block of the image one pass succeeds, and that block, and only
      it, becomes fresh. */
  lemma {:induction false} FormatBlockSpec(d: Device, sb: SuperBlockHeader, b: nat, hdr: Option<u32>)
    requires Sized(d.data, sb) && b < TotalBlocks(sb)
    ensures sb.blockSize >= BlockHeaderSize
    ensures FormatBlock(d, sb.blockSize, b, hdr).1
    ensures FormatBlock(d, sb.blockSize, b, hdr).0.tail == d.tail
    ensures OnlyBlockChanged(d.data, FormatBlock(d, sb.blockSize, b, hdr).0.data, sb, b)
    ensures Block(FormatBlock(d, sb.blockSize, b, hdr).0.data, sb, b) == FreshBlock(sb.blockSize, hdr)
  {
    var bs := sb.blockSize;
    BlockOffset(sb, b);
    GeometryFacts(sb);
    var off := Mul(b, bs);
    WriteInBlock(d, sb, b, 0, Zeros(bs), off);
    PatchFront(Block(d.data, sb, b), Zeros(bs));
    var d1 := Device(Patch(d.data, off, Zeros(bs)), d.tail);
    assert Block(d1.data, sb, b) == Zeros(bs);
    if hdr.Some? {
      HeaderWrite(d1, sb, b, hdr.value);
      var d2 := WriteExact(d1, EncodeU32(hdr.value), off).0;
      OnlyBlockChangedTrans(d.data, d1.data, d2.data, sb, b);
      var blk := Block(d2.data, sb, b);
      assert blk == blk[..BlockHeaderSize] + blk[BlockHeaderSize..];
      assert Zeros(bs)[BlockHeaderSize..] == Zeros(bs - BlockHeaderSize);
    }
  }

  /** A loop over blocks of the image succeeds, makes every block it passes
      fresh and leaves every other block as it was. */
  lemma {:induction false} FormatBlocksSpec(d: Device, sb: SuperBlockHeader, b: nat, hi: nat, hdr: Option<u32>)
    requires Sized(d.data, sb) && b <= hi <= TotalBlocks(sb)
    decreases hi - b
    ensures sb.blockSize >= BlockHeaderSize
    ensures FormatBlocks(d, sb.blockSize, b, hi, hdr).1
    ensures FormatBlocks(d, sb.blockSize, b, hi, hdr).0.tail == d.tail
    ensures Sized(FormatBlocks(d, sb.blockSize, b, hi, hdr).0.data, sb)
    ensures forall c :: 0 <= c < TotalBlocks(sb) && (c < b || hi <= c) ==>
              Block(FormatBlocks(d, sb.blockSize, b, hi, hdr).0.data, sb, c) == Block(d.data, sb, c)
    ensures forall c :: b <= c < hi ==>
              Block(FormatBlocks(d, sb.blockSize, b, hi, hdr).0.data, sb, c) == FreshBlock(sb.blockSize, hdr)
  {
    GeometryFacts(sb);
    if b < hi {
      FormatBlockSpec(d, sb, b, hdr);
      var d1 := FormatBlock(d, sb.blockSize, b, hdr).0;
      FormatBlocksSpec(d1, sb, b + 1, hi, hdr);
    }
  }

  // ------------------------------------------------ the three loops

  /** The first block of loop `k` (0: free maps, 1: inode blocks, 2: data
      blocks); `StageStart(sb, 3)` is one past the last data block. */
  function StageStart(sb: SuperBlockHeader, k: nat): nat
  {
    if k == 0 then 1
    else if k == 1 then 1 + sb.freeMapNum
    else if k == 2 then DataStart(sb)
    else DataEnd(sb)
  }

  /** The header loop `k` writes: the bits of a free map, the slots of an
      inode block, none for data. */
  function StageHeader(sb: SuperBlockHeader, k: nat): Option<u32>
  {
    if k == 0 then Some(U32(BitsPerMap(sb.blockSize)))
    else if k == 1 then Some(U32(InodesPerBlock(sb.blockSize)))
    else None
  }

  /** The loops from `k` on, one after the other; the first failed write
      ends the run with `false`. */
  function FormatLoops(d: Device, sb: SuperBlockHeader, k: nat): (Device, bool)
    decreases 3 - k
  {
    if k >= 3 then (d, true)
    else
      var r := FormatBlocks(d, sb.blockSize, StageStart(sb, k), StageStart(sb, k + 1), StageHeader(sb, k));
      if !r.1 then r else FormatLoops(r.0, sb, k + 1)
  }

  /** The header block `c` gets from the loop that passes it. */
  function HeaderOf(sb: SuperBlockHeader, c: nat): Option<u32>
  {
    if c < 1 + sb.freeMapNum then StageHeader(sb, 0)
    else if c < DataStart(sb) then StageHeader(sb, 1)
    else None
  }

  /** On an image of the right size the loops from `k` on all succeed; the
      blocks before loop `k` are kept and every block from it on is fresh,
      headed as its own loop heads it. */
  lemma {:induction false} FormatLoopsSpec(d: Device, sb: SuperBlockHeader, k: nat) returns (d': Device)
    requires Sized(d.data, sb) && k <= 3
    decreases 3 - k
    ensures sb.blockSize >= BlockHeaderSize && StageStart(sb, 3) == TotalBlocks(sb)
    ensures FormatLoops(d, sb, k) == (d', true)
    ensures d'.tail == d.tail && Sized(d'.data, sb)
    ensures forall c :: 0 <= c < StageStart(sb, k) ==> Block(d'.data, sb, c) == Block(d.data, sb, c)
    ensures forall c :: StageStart(sb, k) <= c < TotalBlocks(sb) ==>
              Block(d'.data, sb, c) == FreshBlock(sb.blockSize, HeaderOf(sb, c))
  {
    GeometryFacts(sb);
    if k == 3 {
      d' := d;
    } else {
      var lo, hi := StageStart(sb, k), StageStart(sb, k + 1);
      FormatBlocksSpec(d, sb, lo, hi, StageHeader(sb, k));
      var d1 := FormatBlocks(d, sb.blockSize, lo, hi, StageHeader(sb, k)).0;
      d' := FormatLoopsSpec(d1, sb, k + 1);
      forall c | lo <= c < hi ensures HeaderOf(sb, c) == StageHeader(sb, k) { }
    }
  }

  // ------------------------------------------------ the formatted image

  /** The image as the three loops leave it, after the superblock has been
      written: free-map blocks count all their bits as clear, inode blocks
      all their slots as unused, data blocks are zero. */
  ghost predicate Formatted(s: seq<byte>, sb: SuperBlockHeader)
  {
    && Sized(s, sb)
    && Block(s, sb, 0)[..SuperBlockHeaderSize] == EncodeSuper(sb)
    && (forall i :: 0 <= i < sb.freeMapNum ==>
          MapBlock(s, sb, i) == FreshBlock(sb.blockSize, Some(U32(BitsPerMap(sb.blockSize)))))
    && (forall i :: 0 <= i < sb.inodeBlkNum ==>
          INodeBlock(s, sb, i) == FreshBlock(sb.blockSize, Some(U32(InodesPerBlock(sb.blockSize)))))
    && (forall c :: DataStart(sb) <= c < TotalBlocks(sb) ==> Block(s, sb, c) == Zeros(sb.blockSize))
  }

  /** Four zero bytes are the `u32` 0, the code of an Unused inode. */
  lemma {:induction false} ZeroWord(w: seq<byte>)
    requires |w| == 4 && forall a :: 0 <= a < 4 ==> w[a] == 0
    ensures DecodeU32(w) == 0 == TypeCode(Unused)
  {
    assert w == EncodeU32(0);
    DecodeEncodeU32(0);
  }

  /** In a block whose bytes after the header are zero, every slot is Unused. */
  lemma {:induction false} ZeroSlots(blk: seq<byte>, n: nat)
    requires SlotOffset(n) <= |blk|
    requires forall a :: BlockHeaderSize <= a < |blk| ==> blk[a] == 0
    ensures UnusedSlots(blk, n) == n
    ensures n > 0 ==> FirstUnusedSlot(blk, 0)
  {
    if n > 0 {
      ZeroSlots(blk, n - 1);
      var o := SlotOffset(n - 1);
      ZeroWord(blk[o..o + 4]);
      ZeroWord(blk[SlotOffset(0)..SlotOffset(0) + 4]);
    }
  }

  /** A formatted image keeps both header invariants, and both allocators
      will pick the very first bit and slot. */
  lemma {:induction false} FormattedHeaders(s: seq<byte>, sb: SuperBlockHeader)
    requires Formatted(s, sb)
    ensures FreeMapOk(s, sb) && INodeHeadersExact(s, sb)
    ensures INodeHeadersOk(s, sb)
    ensures FirstFreeMap(s, sb, 0) && FirstClear(MapBits(s, sb, 0), 0)
    ensures MapHeader(s, sb, 0) == BitsPerMap(sb.blockSize)
    ensures FirstFreeINodeBlock(s, sb, 0) && FirstUnusedSlot(INodeBlock(s, sb, 0), 0)
    ensures INodeHeader(s, sb, 0) == InodesPerBlock(sb.blockSize)
  {
    var bs := sb.blockSize;
    GeometryFacts(sb);
    var bpm, ipb := BitsPerMap(bs), InodesPerBlock(bs);
    assert U32(bpm) == bpm && U32(ipb) == ipb;
    DecodeEncodeU32(bpm);
    DecodeEncodeU32(ipb);
    var mapBlk := FreshBlock(bs, Some(U32(bpm)));
    var inoBlk := FreshBlock(bs, Some(U32(ipb)));
    assert mapBlk[..BlockHeaderSize] == EncodeU32(bpm);
    assert mapBlk[BlockHeaderSize..] == Zeros(bs - BlockHeaderSize);
    assert inoBlk[..BlockHeaderSize] == EncodeU32(ipb);
    ZeroBitsOfZeros(Zeros(bs - BlockHeaderSize));
    FindFreeBitOfZeros(Zeros(bs - BlockHeaderSize));
    ZeroSlots(inoBlk, ipb);
    assert !BitAt(MapBits(s, sb, 0), 0) by {
      ZeroHasNoBits(7);
    }
  }
}
