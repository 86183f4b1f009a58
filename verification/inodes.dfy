/** Locating, reading and writing one inode of a GeeFS image by its id
    (`GeeFS::UpdateINode` and `GeeFS::ReadINode`), and the first block of a
    new directory (`GeeFS::InitDirBlock`). */
module Inodes {
  import opened Machine
  import opened ByteSeq
  import opened LittleEndian
  import opened Structs
  import opened IoDevice
  import opened Layout

  /** The device offset of inode `id` as both routines compute it in
      `std::size_t`: inode block `1 + free_map_num + id / in_per_blk`, times
      the block size, plus the header and `id % in_per_blk` inodes. `None`
      when `in_per_blk` is 0, where the division is undefined. The block
      number is below 2^33 and never wraps. */
  function INodeOffset(sb: SuperBlockHeader, id: u32): Option<nat>
  {
    var ipb := InodesPerBlock(sb.blockSize);
    if ipb == 0 then None
    else
      var blk := U32(1 + sb.freeMapNum) + id / ipb;
      Some(U64(U64(Mul(blk, sb.blockSize)) + BlockHeaderSize + Mul(id % ipb, INodeSize)))
  }

  /** `UpdateINode(inode, id)`: write the 68-byte record at the inode's
      offset; a failed write stops the run at its `assert`. */
  function UpdateINode(d: Device, sb: SuperBlockHeader, n: INode, id: u32): Run<Device, ()>
    requires ValidINode(n)
  {
    match INodeOffset(sb, id)
    case None => Abort(DivideByZero)
    case Some(off) =>
      var (d1, ok) := WriteExact(d, EncodeINode(n), off);
      if ok then Ok(d1, ()) else Abort(DeviceAssert)
  }

  /** `ReadINode(inode, id)`: the record at the inode's offset, or `None`
      (the routine's `false`) when the device cannot supply all 68 bytes.
      The device is left as it was. */
  function ReadINode(d: Device, sb: SuperBlockHeader, id: u32): Run<Device, Option<INode>>
  {
    match INodeOffset(sb, id)
    case None => Abort(DivideByZero)
    case Some(off) =>
      match ReadExact(d, INodeSize, off)
      case None => Ok(d, None)
      case Some(buf) => Ok(d, Some(DecodeINode(buf)))
  }

  /** Ids that name a slot of the inode region: fewer than
      `inode_blk_num * in_per_blk`. */
  ghost predicate ValidId(sb: SuperBlockHeader, id: u32)
  {
    id < Mul(sb.inodeBlkNum, InodesPerBlock(sb.blockSize))
  }

  /** The inode block (counted from the first one) that holds inode `id`. */
  function HomeBlock(sb: SuperBlockHeader, id: u32): nat
    requires InodesPerBlock(sb.blockSize) > 0
  {
    id / InodesPerBlock(sb.blockSize)
  }

  /** The slot of inode `id` within its inode block. */
  function HomeSlot(sb: SuperBlockHeader, id: u32): nat
    requires InodesPerBlock(sb.blockSize) > 0
  {
    id % InodesPerBlock(sb.blockSize)
  }

  lemma {:induction false} DivBelow(x: nat, m: nat, q: nat)
    requires m > 0 && x < Mul(q, m)
    ensures x / m < q
  {
    MulIsProduct(q, m);
    if x / m >= q {
      MulMono(q, x / m, m);
    }
  }

  /** A valid id lies in one of the image's inode blocks, at a slot that
      fits in that block, and its offset is the start of that slot: the
      arithmetic neither wraps nor leaves the inode region. */
  lemma {:induction false} INodeOffsetSpec(sb: SuperBlockHeader, id: u32)
    requires ValidGeometry(sb) && ValidId(sb, id)
    ensures InodesPerBlock(sb.blockSize) > 0
    ensures HomeBlock(sb, id) < sb.inodeBlkNum
    ensures HomeSlot(sb, id) < InodesPerBlock(sb.blockSize)
    ensures SlotOffset(HomeSlot(sb, id)) + INodeSize <= sb.blockSize
    ensures INodeOffset(sb, id) ==
              Some(Mul(1 + sb.freeMapNum + HomeBlock(sb, id), sb.blockSize) + SlotOffset(HomeSlot(sb, id)))
  {
    GeometryFacts(sb);
    var ipb := InodesPerBlock(sb.blockSize);
    DivBelow(id, ipb, sb.inodeBlkNum);
    var b := 1 + sb.freeMapNum + id / ipb;
    BlockInImage(sb, b);
    MulIsProduct(id % ipb, INodeSize);
    assert U32(1 + sb.freeMapNum) == 1 + sb.freeMapNum;
  }

  /** Every valid inode lies inside the inode blocks, after the header of
      the first one and before the first data block. */
  lemma {:induction false} INodeInRegion(sb: SuperBlockHeader, id: u32)
    requires ValidGeometry(sb) && ValidId(sb, id)
    ensures INodeOffset(sb, id).Some?
    ensures Mul(1 + sb.freeMapNum, sb.blockSize) + BlockHeaderSize <= INodeOffset(sb, id).value
    ensures INodeOffset(sb, id).value + INodeSize <= Mul(DataStart(sb), sb.blockSize)
  {
    INodeOffsetSpec(sb, id);
    var b := 1 + sb.freeMapNum + HomeBlock(sb, id);
    MulLe(1 + sb.freeMapNum, b, sb.blockSize);
    MulStrict(b, DataStart(sb), sb.blockSize);
  }

  /** Distinct valid ids occupy disjoint 68-byte ranges. */
  lemma {:induction false} INodesDisjoint(sb: SuperBlockHeader, id1: u32, id2: u32)
    requires ValidGeometry(sb) && ValidId(sb, id1) && ValidId(sb, id2) && id1 != id2
    ensures INodeOffset(sb, id1).Some? && INodeOffset(sb, id2).Some?
    ensures INodeOffset(sb, id1).value + INodeSize <= INodeOffset(sb, id2).value
         || INodeOffset(sb, id2).value + INodeSize <= INodeOffset(sb, id1).value
  {
    INodeOffsetSpec(sb, id1);
    INodeOffsetSpec(sb, id2);
    var b1 := 1 + sb.freeMapNum + HomeBlock(sb, id1);
    var b2 := 1 + sb.freeMapNum + HomeBlock(sb, id2);
    if b1 < b2 {
      MulStrict(b1, b2, sb.blockSize);
    } else if b2 < b1 {
      MulStrict(b2, b1, sb.blockSize);
    } else {
      SameBlockOtherSlot(sb, id1, id2);
    }
  }

  /** Two ids in the same inode block differ in their slot. */
  lemma {:induction false} SameBlockOtherSlot(sb: SuperBlockHeader, id1: u32, id2: u32)
    requires InodesPerBlock(sb.blockSize) > 0 && id1 != id2
    requires HomeBlock(sb, id1) == HomeBlock(sb, id2)
    ensures HomeSlot(sb, id1) != HomeSlot(sb, id2)
  {
    var ipb := InodesPerBlock(sb.blockSize);
    assert id1 == ipb * (id1 / ipb) + id1 % ipb;
    assert id2 == ipb * (id2 / ipb) + id2 % ipb;
  }

  /** A read of a valid id returns the inode stored in its slot and leaves
      the device alone. */
  lemma {:induction false} ReadINodeSpec(d: Device, sb: SuperBlockHeader, id: u32)
    requires Sized(d.data, sb) && ValidId(sb, id)
    ensures InodesPerBlock(sb.blockSize) > 0 && HomeBlock(sb, id) < sb.inodeBlkNum
    ensures SlotOffset(HomeSlot(sb, id)) + INodeSize <= sb.blockSize
    ensures ReadINode(d, sb, id) ==
              Ok(d, Some(SlotINode(INodeBlock(d.data, sb, HomeBlock(sb, id)), HomeSlot(sb, id))))
  {
    INodeOffsetSpec(sb, id);
    var b := 1 + sb.freeMapNum + HomeBlock(sb, id);
    var x := SlotOffset(HomeSlot(sb, id));
    var off := Mul(b, sb.blockSize) + x;
    ReadInBlock(d, sb, b, x, INodeSize, off);
    var buf := INodeBlock(d.data, sb, HomeBlock(sb, id))[x..x + INodeSize];
    assert ReadINode(d, sb, id) == Ok(d, Some(DecodeINode(buf)));
  }

  /** An update of a valid id succeeds, changes only the inode block that
      holds it, and there only the 68 bytes of its slot, which now hold the
      encoded inode. */
  lemma {:induction false} UpdateINodeSpec(d: Device, sb: SuperBlockHeader, n: INode, id: u32)
    requires Sized(d.data, sb) && ValidINode(n) && ValidId(sb, id)
    ensures InodesPerBlock(sb.blockSize) > 0 && HomeBlock(sb, id) < sb.inodeBlkNum
    ensures SlotOffset(HomeSlot(sb, id)) + INodeSize <= sb.blockSize
    ensures UpdateINode(d, sb, n, id).Ok?
    ensures UpdateINode(d, sb, n, id).state.tail == d.tail
    ensures OnlyBlockChanged(d.data, UpdateINode(d, sb, n, id).state.data, sb,
                             1 + sb.freeMapNum + HomeBlock(sb, id))
    ensures INodeBlock(UpdateINode(d, sb, n, id).state.data, sb, HomeBlock(sb, id)) ==
              Patch(INodeBlock(d.data, sb, HomeBlock(sb, id)), SlotOffset(HomeSlot(sb, id)), EncodeINode(n))
  {
    INodeOffsetSpec(sb, id);
    var b := 1 + sb.freeMapNum + HomeBlock(sb, id);
    var x := SlotOffset(HomeSlot(sb, id));
    var off, buf := Mul(b, sb.blockSize) + x, EncodeINode(n);
    WriteInBlock(d, sb, b, x, buf, off);
    assert UpdateINode(d, sb, n, id) == Ok(Device(Patch(d.data, off, buf), d.tail), ());
  }

  /** Reading an inode back after updating it returns the inode written;
      every other valid inode reads as it did before. */
  lemma {:induction false} ReadAfterUpdate(d: Device, sb: SuperBlockHeader, n: INode, id: u32, id2: u32)
    requires Sized(d.data, sb) && ValidINode(n) && ValidId(sb, id) && ValidId(sb, id2)
    ensures UpdateINode(d, sb, n, id).Ok?
    ensures ReadINode(UpdateINode(d, sb, n, id).state, sb, id) == Ok(UpdateINode(d, sb, n, id).state, Some(n))
    ensures id2 != id ==>
              ReadINode(UpdateINode(d, sb, n, id).state, sb, id2).value == ReadINode(d, sb, id2).value
  {
    INodeOffsetSpec(sb, id);
    INodeOffsetSpec(sb, id2);
    INodeInRegion(sb, id);
    GeometryFacts(sb);
    MulLe(DataStart(sb), TotalBlocks(sb), sb.blockSize);
    var off := INodeOffset(sb, id).value;
    var buf := EncodeINode(n);
    WriteExactSpec(d, buf, off);
    var d1 := WriteExact(d, buf, off).0;
    assert UpdateINode(d, sb, n, id) == Ok(d1, ());
    ReadAfterWrite(d, buf, off, INodeSize, INodeOffset(sb, id2).value);
    INodeRoundTrip(n, buf);
    if id2 != id {
      INodesDisjoint(sb, id, id2);
    }
  }

  /** Writing an inode into slot `t` of an inode block changes that slot
      only: slot `t` decodes to the inode written, every other slot and the
      block header stay as they were. */
  lemma {:induction false} SlotPatch(blk: seq<byte>, t: nat, n: INode, t': nat)
    requires ValidINode(n) && SlotOffset(t) + INodeSize <= |blk| && SlotOffset(t') + INodeSize <= |blk|
    ensures SlotOffset(t) + |EncodeINode(n)| <= |blk|
    ensures SlotINode(Patch(blk, SlotOffset(t), EncodeINode(n)), t') ==
              if t' == t then n else SlotINode(blk, t')
    ensures SlotType(Patch(blk, SlotOffset(t), EncodeINode(n)), t') ==
              if t' == t then n.typ else SlotType(blk, t')
    ensures Patch(blk, SlotOffset(t), EncodeINode(n))[..BlockHeaderSize] == blk[..BlockHeaderSize]
  {
    var buf := EncodeINode(n);
    var p := Patch(blk, SlotOffset(t), buf);
    var a := SlotOffset(t');
    PatchOutside(blk, SlotOffset(t), buf, 0, BlockHeaderSize);
    assert p[..BlockHeaderSize] == p[0..BlockHeaderSize];
    assert blk[..BlockHeaderSize] == blk[0..BlockHeaderSize];
    if t' == t {
      PatchReadBack(blk, SlotOffset(t), buf);
      INodeRoundTrip(n, buf);
      INodeLayout(n, 0);
      DecodeEncodeU32(n.typ);
      assert p[a..a + 4] == p[a..a + INodeSize][0..4];
    } else {
      PatchOutside(blk, SlotOffset(t), buf, a, a + INodeSize);
      PatchOutside(blk, SlotOffset(t), buf, a, a + 4);
    }
  }

  /** The Unused count of a block after an inode write: the written slot
      stops or starts counting according to its old and new type. */
  lemma {:induction false} UnusedSlotsPatch(blk: seq<byte>, t: nat, n: INode, m: nat)
    requires ValidINode(n) && SlotOffset(t) + INodeSize <= |blk| && SlotOffset(m) <= |blk|
    ensures SlotOffset(t) + |EncodeINode(n)| <= |blk|
    ensures UnusedSlots(Patch(blk, SlotOffset(t), EncodeINode(n)), m)
              + (if t < m && SlotType(blk, t) == TypeCode(Unused) then 1 else 0)
            == UnusedSlots(blk, m) + (if t < m && n.typ == TypeCode(Unused) then 1 else 0)
  {
    if m > 0 {
      UnusedSlotsPatch(blk, t, n, m - 1);
      SlotPatch(blk, t, n, m - 1);
    }
  }

  // ------------------------------------------------------ directory blocks

  /** Entry `k` of a directory block. */
  function EntryAt(blk: seq<byte>, k: nat): Entry
    requires EntrySize * k + EntrySize <= |blk|
  {
    DecodeEntry(blk[EntrySize * k..EntrySize * k + EntrySize])
  }

  /** `InitDirBlock(blk_ofs, cur_id, parent_id)`: entry "." for the
      directory itself and ".." for its parent at the start of block
      `blk_ofs`, whose offset `blk_ofs * block_size` is taken in
      `std::uint32_t`. The entry's name buffer is never initialised: `stale`
      is what it holds before the first `strcpy`, and the bytes past each
      terminator are written out as they are. */
  function InitDirBlock(d: Device, sb: SuperBlockHeader, blk: u32, cur: u32, parent: u32,
                        stale: seq<byte>): Run<Device, ()>
    requires |stale| == kFileNameMaxLen
  {
    var off := U32(Mul(blk, sb.blockSize));
    var dot := Entry(cur, StrCpy(stale, DotName));
    var (d1, ok1) := WriteExact(d, EncodeEntry(dot), off);
    if !ok1 then Abort(DeviceAssert)
    else
      var dotDot := Entry(parent, StrCpy(dot.filename, DotDotName));
      var (d2, ok2) := WriteExact(d1, EncodeEntry(dotDot), off + EntrySize);
      if !ok2 then Abort(DeviceAssert) else Ok(d2, ())
  }

  /** On a block of the image `InitDirBlock` succeeds and changes only that
      block: its first entry is "." with the directory's id, its second is
      ".." with the parent's id, the rest of the block is as it was. */
  lemma {:induction false} InitDirBlockSpec(d: Device, sb: SuperBlockHeader, blk: u32, cur: u32, parent: u32,
                                            stale: seq<byte>)
    requires Sized(d.data, sb) && blk < TotalBlocks(sb) && |stale| == kFileNameMaxLen
    ensures InitDirBlock(d, sb, blk, cur, parent, stale).Ok?
    ensures InitDirBlock(d, sb, blk, cur, parent, stale).state.tail == d.tail
    ensures OnlyBlockChanged(d.data, InitDirBlock(d, sb, blk, cur, parent, stale).state.data, sb, blk)
    ensures EntryAt(Block(InitDirBlock(d, sb, blk, cur, parent, stale).state.data, sb, blk), 0).inodeId == cur
    ensures EntryName(EntryAt(Block(InitDirBlock(d, sb, blk, cur, parent, stale).state.data, sb, blk), 0)) == DotName
    ensures EntryAt(Block(InitDirBlock(d, sb, blk, cur, parent, stale).state.data, sb, blk), 1).inodeId == parent
    ensures EntryName(EntryAt(Block(InitDirBlock(d, sb, blk, cur, parent, stale).state.data, sb, blk), 1)) == DotDotName
    ensures Block(InitDirBlock(d, sb, blk, cur, parent, stale).state.data, sb, blk)[2 * EntrySize..]
              == Block(d.data, sb, blk)[2 * EntrySize..]
  {
    GeometryFacts(sb);
    BlockOffset(sb, blk);
    var off := Mul(blk, sb.blockSize);
    var dot := Entry(cur, StrCpy(stale, DotName));
    var dotDot := Entry(parent, StrCpy(dot.filename, DotDotName));
    var e1, e2 := EncodeEntry(dot), EncodeEntry(dotDot);
    WriteInBlock(d, sb, blk, 0, e1, off);
    var d1 := Device(Patch(d.data, off, e1), d.tail);
    WriteInBlock(d1, sb, blk, EntrySize, e2, off + EntrySize);
    var d2 := Device(Patch(d1.data, off + EntrySize, e2), d.tail);
    assert InitDirBlock(d, sb, blk, cur, parent, stale) == Ok(d2, ());
    OnlyBlockChangedTrans(d.data, d1.data, d2.data, sb, blk);
    DirBlockEntries(Block(d.data, sb, blk), e1, e2);
    EntryRoundTrip(dot, e1);
    EntryRoundTrip(dotDot, e2);
    StrCpyName(stale, DotName);
    StrCpyName(dot.filename, DotDotName);
  }

  /** Two entries written one after the other at the front of a block. */
  lemma {:induction false} DirBlockEntries(b: seq<byte>, e1: seq<byte>, e2: seq<byte>)
    requires |e1| == EntrySize && |e2| == EntrySize && 2 * EntrySize <= |b|
    ensures EntrySize + |e2| <= |Patch(b, 0, e1)|
    ensures Patch(Patch(b, 0, e1), EntrySize, e2)[0..EntrySize] == e1
    ensures Patch(Patch(b, 0, e1), EntrySize, e2)[EntrySize..2 * EntrySize] == e2
    ensures Patch(Patch(b, 0, e1), EntrySize, e2)[2 * EntrySize..] == b[2 * EntrySize..]
  {
    var p1 := Patch(b, 0, e1);
    var p2 := Patch(p1, EntrySize, e2);
    PatchAt(b, 0, e1);
    PatchAt(p1, EntrySize, e2);
    assert p2[0..EntrySize] == e1;
    assert p2[EntrySize..2 * EntrySize] == e2;
    assert p2[2 * EntrySize..] == b[2 * EntrySize..];
  }
}
