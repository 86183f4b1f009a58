/** A `GeeFS` object over its device, and `GeeFS::Create`, which lays an
    empty image with a root directory onto it. */
module Image {
  import opened Machine
  import opened ByteSeq
  import opened LittleEndian
  import opened Structs
  import opened IoDevice
  import opened Bitmap
  import opened Layout
  import opened Alloc
  import opened Inodes
  import opened Resolve
  import opened Format

  /** The state of a `GeeFS` object: its device, its copy of the superblock
      and its current directory. */
  datatype GeeFs = GeeFs(dev: Device, sb: SuperBlockHeader, cwd: INode)

  /** The root directory `Create` records: a directory of two entries held
      in the one block `blk`; every other field is zero. */
  function RootINode(blk: u32): (n: INode)
    ensures ValidINode(n)
  {
    INode(TypeCode(Dir), 2 * EntrySize, 1, [blk] + seq(kDirectBlockNum - 1, _ => 0), 0, 0)
  }

  /** The three early checks of `Create`: the block must hold a superblock,
      an inode after its header, and the two entries of a new directory. */
  function CreateRejects(bs: u32): bool
  {
    bs < SuperBlockHeaderSize || PayloadSize(bs) < INodeSize || bs < 2 * EntrySize
  }

  /** `blk_num`: `1 + free_map_num + inode_blk_num` in `std::uint32_t`, plus
      `(block_size - 4) * 8 * free_map_num` in `std::size_t`, kept in a
      `std::uint32_t`. */
  function ImageBlocks(bs: u32, fm: u32, ib: u32): u32
  {
    U32(U32(1 + fm + ib) + U64(Mul(fm, BitsPerMap(bs))))
  }

  function SuperOf(bs: u32, fm: u32, ib: u32): SuperBlockHeader
  {
    SuperBlockHeader(kMagicNum, SuperBlockHeaderSize, bs, fm, ib)
  }

  /** `Create(block_size, free_map_num, inode_blk_num)` as the code is
      written: the checks, the resize to `blk_num * block_size` (a
      `std::uint32_t`), then the image itself. `stale` is what the
      uninitialised entry buffer of `InitDirBlock` holds. */
  function CreateAsWritten(fs: GeeFs, bs: u32, fm: u32, ib: u32, stale: seq<byte>): Run<GeeFs, bool>
    requires |stale| == kFileNameMaxLen
  {
    if CreateRejects(bs) then Ok(fs, false)
    else
      var sb := SuperOf(bs, fm, ib);
      var (d0, resized) := Resize(fs.dev, U32(Mul(ImageBlocks(bs, fm, ib), bs)));
      if !resized then Ok(fs.(dev := d0), false)
      else
        var (d4, formatted) := FormatImage(d0, sb);
        if !formatted then Ok(GeeFs(d4, sb, fs.cwd), false)
        else MakeRoot(GeeFs(d4, sb, fs.cwd), stale)
  }

  /** `Create` as evidently intended: an image without a free-map block or
      without an inode block has no room for the root directory, so it is
      rejected with the other bad geometries, before the device is touched. */
  function Create(fs: GeeFs, bs: u32, fm: u32, ib: u32, stale: seq<byte>): Run<GeeFs, bool>
    requires |stale| == kFileNameMaxLen
  {
    if fm == 0 || ib == 0 then Ok(fs, false) else CreateAsWritten(fs, bs, fm, ib, stale)
  }

  /** `Create` after the resize and before the root directory: the
      superblock, then the three loops. A failed write ends it with `false`
      and whatever has been written so far. */
  function FormatImage(d: Device, sb: SuperBlockHeader): (Device, bool)
  {
    var w := WriteExact(d, EncodeSuper(sb), 0);
    if !w.1 then (w.0, false) else FormatLoops(w.0, sb, 0)
  }

  /** The root directory: a data block and an inode are allocated (both
      must be found, or the run stops at the `assert`), the root inode is
      written and its block gets "." and "..", both naming the root. The
      final `Sync` is not part of this model; it is taken to succeed. */
  function MakeRoot(fs: GeeFs, stale: seq<byte>): Run<GeeFs, bool>
    requires |stale| == kFileNameMaxLen
  {
    match AllocDataBlock(fs.dev, fs.sb)
    case Abort(f) => Abort(f)
    case Ok(d1, blk) =>
      match AllocINode(d1, fs.sb)
      case Abort(f) => Abort(f)
      case Ok(d2, id) =>
        if blk.None? || id.None? then Abort(RootAlloc)
        else
          var root := RootINode(blk.value);
          match UpdateINode(d2, fs.sb, root, id.value)
          case Abort(f) => Abort(f)
          case Ok(d3, _) =>
            match InitDirBlock(d3, fs.sb, blk.value, id.value, id.value, stale)
            case Abort(f) => Abort(f)
            case Ok(d4, _) => Ok(GeeFs(d4, fs.sb, root), true)
  }

  // --------------------------------------------------------- the checks

  /** The three checks together reject exactly the block sizes below 72,
      and a rejection leaves the object as it was. */
  lemma {:induction false} CreateGuard(fs: GeeFs, bs: u32, fm: u32, ib: u32, stale: seq<byte>)
    requires |stale| == kFileNameMaxLen
    ensures CreateRejects(bs) <==> bs < 72
    ensures bs < 72 ==> CreateAsWritten(fs, bs, fm, ib, stale) == Ok(fs, false)
    ensures bs < 72 || fm == 0 || ib == 0 ==> Create(fs, bs, fm, ib, stale) == Ok(fs, false)
  {
    PayloadSizeWraps(bs);
  }

  /** For a valid geometry the resize succeeds and gives the device the
      size of the image. */
  lemma {:induction false} ResizeForImage(d: Device, sb: SuperBlockHeader)
    requires ValidGeometry(sb)
    ensures Resize(d, U32(Mul(ImageBlocks(sb.blockSize, sb.freeMapNum, sb.inodeBlkNum), sb.blockSize))).1
    ensures Sized(Resize(d, U32(Mul(ImageBlocks(sb.blockSize, sb.freeMapNum, sb.inodeBlkNum), sb.blockSize))).0.data, sb)
  {
    GeometryFacts(sb);
    assert ImageBlocks(sb.blockSize, sb.freeMapNum, sb.inodeBlkNum) == TotalBlocks(sb);
    ResizeSpec(d, Mul(TotalBlocks(sb), sb.blockSize));
  }

  // ------------------------------------------------------ the formatting

  /** On an image of the right size the superblock write and the three
      loops all succeed and leave the image `Formatted`. */
  lemma {:induction false} FormatImageSpec(d: Device, sb: SuperBlockHeader) returns (d4: Device)
    requires Sized(d.data, sb)
    ensures FormatImage(d, sb) == (d4, true)
    ensures Formatted(d4.data, sb) && d4.tail == d.tail
  {
    var d1 := SuperWrite(d, sb);
    d4 := FormatLoopsSpec(d1, sb, 0);
    FormattedIntro(d1.data, d4.data, sb);
  }

  /** The superblock write at offset 0 succeeds on an image of the right
      size and changes only the front of block 0. */
  lemma {:induction false} SuperWrite(d: Device, sb: SuperBlockHeader) returns (d1: Device)
    requires Sized(d.data, sb)
    ensures WriteExact(d, EncodeSuper(sb), 0) == (d1, true)
    ensures Sized(d1.data, sb) && d1.tail == d.tail
    ensures Block(d1.data, sb, 0)[..SuperBlockHeaderSize] == EncodeSuper(sb)
    ensures OnlyBlockChanged(d.data, d1.data, sb, 0)
  {
    GeometryFacts(sb);
    var enc := EncodeSuper(sb);
    assert Mul(0, sb.blockSize) == 0;
    WriteInBlock(d, sb, 0, 0, enc, 0);
    PatchFront(Block(d.data, sb, 0), enc);
    d1 := Device(Patch(d.data, 0, enc), d.tail);
  }

  /** The image after the superblock write (`s1`) and the three loops
      (`s4`), which kept block 0 and made every later block fresh. */
  lemma {:induction false} FormattedIntro(s1: seq<byte>, s4: seq<byte>, sb: SuperBlockHeader)
    requires Sized(s1, sb) && Sized(s4, sb) && sb.blockSize >= BlockHeaderSize
    requires Block(s1, sb, 0)[..SuperBlockHeaderSize] == EncodeSuper(sb)
    requires Block(s4, sb, 0) == Block(s1, sb, 0)
    requires forall c :: 1 <= c < TotalBlocks(sb) ==> Block(s4, sb, c) == FreshBlock(sb.blockSize, HeaderOf(sb, c))
    ensures Formatted(s4, sb)
  {
    GeometryFacts(sb);
    forall i | 0 <= i < sb.freeMapNum
      ensures MapBlock(s4, sb, i) == FreshBlock(sb.blockSize, Some(U32(BitsPerMap(sb.blockSize))))
    {
      assert HeaderOf(sb, 1 + i) == StageHeader(sb, 0);
    }
    forall i | 0 <= i < sb.inodeBlkNum
      ensures INodeBlock(s4, sb, i) == FreshBlock(sb.blockSize, Some(U32(InodesPerBlock(sb.blockSize))))
    {
      assert HeaderOf(sb, 1 + sb.freeMapNum + i) == StageHeader(sb, 1);
    }
  }

  // ------------------------------------------------- the root directory

  /** Block `blk` of a directory starts with "." and "..", both naming
      inode `id`. */
  ghost predicate RootEntries(blk: seq<byte>, id: u32)
  {
    && 2 * EntrySize <= |blk|
    && EntryAt(blk, 0).inodeId == id && EntryName(EntryAt(blk, 0)) == DotName
    && EntryAt(blk, 1).inodeId == id && EntryName(EntryAt(blk, 1)) == DotDotName
  }

  /** The image `Create` leaves: the superblock, the free maps, the inode
      blocks and the data blocks as described below. */
  ghost predicate Created(s: seq<byte>, sb: SuperBlockHeader)
  {
    Sized(s, sb) && CreatedMaps(s, sb) && CreatedINodes(s, sb) && CreatedData(s, sb)
  }

  /** The first bit of the first free map is set and counted; every other
      bitmap is clear. */
  ghost predicate CreatedMaps(s: seq<byte>, sb: SuperBlockHeader)
    requires Sized(s, sb)
  {
    GeometryFacts(sb);
    var bs := sb.blockSize;
    && FreeMapOk(s, sb)
    && MapHeader(s, sb, 0) == BitsPerMap(bs) - 1
    && MapBits(s, sb, 0) == SetBitAt(Zeros(bs - BlockHeaderSize), 0)
    && (forall i :: 1 <= i < sb.freeMapNum ==> MapBlock(s, sb, i) == FreshBlock(bs, StageHeader(sb, 0)))
  }

  /** Slot 0 of the first inode block holds the root directory and is
      counted; every other slot is Unused. */
  ghost predicate CreatedINodes(s: seq<byte>, sb: SuperBlockHeader)
    requires Sized(s, sb)
  {
    GeometryFacts(sb);
    var bs := sb.blockSize;
    && INodeHeadersExact(s, sb)
    && INodeHeader(s, sb, 0) == InodesPerBlock(bs) - 1
    && SlotINode(INodeBlock(s, sb, 0), 0) == RootINode(DataStart(sb))
    && (forall i :: 1 <= i < sb.inodeBlkNum ==> INodeBlock(s, sb, i) == FreshBlock(bs, StageHeader(sb, 1)))
  }

  /** The superblock leads block 0; the first data block holds "." and ".."
      and zeros after them; every other data block is zero. */
  ghost predicate CreatedData(s: seq<byte>, sb: SuperBlockHeader)
    requires Sized(s, sb)
  {
    GeometryFacts(sb);
    var bs := sb.blockSize;
    var root := DataStart(sb);
    && Block(s, sb, 0)[..SuperBlockHeaderSize] == EncodeSuper(sb)
    && RootEntries(Block(s, sb, root), 0)
    && Block(s, sb, root)[2 * EntrySize..] == Zeros(bs - 2 * EntrySize)
    && (forall c :: root < c < TotalBlocks(sb) ==> Block(s, sb, c) == Zeros(bs))
  }

  /** `MakeRoot` when both allocations find something and both writes
      succeed. */
  lemma {:induction false} MakeRootUnfold(fs: GeeFs, stale: seq<byte>, blk: u32, id: u32,
                                          d1: Device, d2: Device, d3: Device, d4: Device)
    requires |stale| == kFileNameMaxLen
    requires AllocDataBlock(fs.dev, fs.sb) == Ok(d1, Some(blk))
    requires AllocINode(d1, fs.sb) == Ok(d2, Some(id))
    requires UpdateINode(d2, fs.sb, RootINode(blk), id) == Ok(d3, ())
    requires InitDirBlock(d3, fs.sb, blk, id, id, stale) == Ok(d4, ())
    ensures MakeRoot(fs, stale) == Ok(GeeFs(d4, fs.sb, RootINode(blk)), true)
  {
  }

  /** On a formatted image the data-block allocator takes the first bit of
      the first free map, which stands for the first data block. */
  lemma {:induction false} RootBlockAlloc(d: Device, sb: SuperBlockHeader) returns (d1: Device, blk: u32)
    requires Formatted(d.data, sb)
    ensures AllocDataBlock(d, sb) == Ok(d1, Some(blk)) && blk == DataStart(sb)
    ensures d1.tail == d.tail && OnlyBlockChanged(d.data, d1.data, sb, 1)
    ensures FreeMapOk(d1.data, sb)
    ensures MapHeader(d1.data, sb, 0) == BitsPerMap(sb.blockSize) - 1
    ensures MapBits(d1.data, sb, 0) == SetBitAt(Zeros(sb.blockSize - BlockHeaderSize), 0)
  {
    GeometryFacts(sb);
    FormattedHeaders(d.data, sb);
    AllocDataBlockFound(d, sb, 0, 0);
    var r := AllocDataBlock(d, sb);
    d1 := r.state;
    blk := r.value.value;
    assert Mul(0, BitsPerMap(sb.blockSize)) == 0;
    var mapBlk := FreshBlock(sb.blockSize, StageHeader(sb, 0));
    assert MapBits(d.data, sb, 0) == mapBlk[BlockHeaderSize..] == Zeros(sb.blockSize - BlockHeaderSize);
  }

  /** After the first data block is taken, the inode allocator takes the
      first slot of the first inode block, whose id is 0, and lowers that
      block's header by one. */
  lemma {:induction false} RootINodeAlloc(d0: Device, d1: Device, sb: SuperBlockHeader) returns (d2: Device, id: u32)
    requires Formatted(d0.data, sb) && OnlyBlockChanged(d0.data, d1.data, sb, 1)
    ensures AllocINode(d1, sb) == Ok(d2, Some(id)) && id == 0
    ensures d2.tail == d1.tail && OnlyBlockChanged(d1.data, d2.data, sb, 1 + sb.freeMapNum)
    ensures INodeHeader(d2.data, sb, 0) == InodesPerBlock(sb.blockSize) - 1
    ensures INodeBlock(d2.data, sb, 0)[BlockHeaderSize..] == Zeros(sb.blockSize - BlockHeaderSize)
  {
    GeometryFacts(sb);
    FormattedHeaders(d0.data, sb);
    INodesKept(d0.data, d1.data, sb, 1);
    assert INodeBlock(d1.data, sb, 0) == INodeBlock(d0.data, sb, 0);
    AllocINodeFound(d1, sb, 0, 0);
    var r := AllocINode(d1, sb);
    d2 := r.state;
    id := r.value.value;
    assert Mul(0, InodesPerBlock(sb.blockSize)) == 0;
    assert INodeBlockNumber(sb, 0) == 1 + sb.freeMapNum;
  }

  /** The root inode goes into slot 0 of the first inode block; the slot
      it fills is the one the header no longer counts. */
  lemma {:induction false} RootINodeWrite(d2: Device, sb: SuperBlockHeader, blk: u32) returns (d3: Device)
    requires Sized(d2.data, sb)
    requires INodeHeader(d2.data, sb, 0) == InodesPerBlock(sb.blockSize) - 1
    requires INodeBlock(d2.data, sb, 0)[BlockHeaderSize..] == Zeros(sb.blockSize - BlockHeaderSize)
    ensures UpdateINode(d2, sb, RootINode(blk), 0) == Ok(d3, ())
    ensures d3.tail == d2.tail && OnlyBlockChanged(d2.data, d3.data, sb, 1 + sb.freeMapNum)
    ensures INodeHeader(d3.data, sb, 0) == InodesPerBlock(sb.blockSize) - 1
    ensures UnusedSlots(INodeBlock(d3.data, sb, 0), InodesPerBlock(sb.blockSize)) == InodesPerBlock(sb.blockSize) - 1
    ensures SlotINode(INodeBlock(d3.data, sb, 0), 0) == RootINode(blk)
  {
    GeometryFacts(sb);
    var ipb := InodesPerBlock(sb.blockSize);
    var root := RootINode(blk);
    MulAtLeast(sb.inodeBlkNum, ipb);
    UpdateINodeSpec(d2, sb, root, 0);
    d3 := UpdateINode(d2, sb, root, 0).state;
    assert HomeBlock(sb, 0) == 0 && HomeSlot(sb, 0) == 0;
    var b2 := INodeBlock(d2.data, sb, 0);
    forall a | BlockHeaderSize <= a < |b2| ensures b2[a] == 0 {
      assert b2[a] == b2[BlockHeaderSize..][a - BlockHeaderSize];
    }
    ZeroSlots(b2, ipb);
    SlotPatch(b2, 0, root, 0);
    UnusedSlotsPatch(b2, 0, root, ipb);
  }

  /** On a formatted image `MakeRoot` succeeds: the first data block and
      inode 0 hold the root directory, which becomes the current directory,
      and the image is `Created`. */
  lemma {:induction false} MakeRootSpec(fs: GeeFs, stale: seq<byte>) returns (d4: Device, blk: u32)
    requires Formatted(fs.dev.data, fs.sb) && |stale| == kFileNameMaxLen
    ensures blk == DataStart(fs.sb)
    ensures MakeRoot(fs, stale) == Ok(GeeFs(d4, fs.sb, RootINode(blk)), true)
    ensures Created(d4.data, fs.sb) && d4.tail == fs.dev.tail
  {
    var sb := fs.sb;
    GeometryFacts(sb);
    var d1;
    d1, blk := RootBlockAlloc(fs.dev, sb);
    var d2, id := RootINodeAlloc(fs.dev, d1, sb);
    var d3 := RootINodeWrite(d2, sb, blk);
    InitDirBlockSpec(d3, sb, blk, id, id, stale);
    d4 := InitDirBlock(d3, sb, blk, id, id, stale).state;
    MakeRootUnfold(fs, stale, blk, id, d1, d2, d3, d4);
    OnlyBlockChangedTrans(d1.data, d2.data, d3.data, sb, 1 + sb.freeMapNum);
    MapsKept(d1.data, d3.data, sb, 1 + sb.freeMapNum);
    MapsKept(d3.data, d4.data, sb, blk);
    CreatedMapsIntro(fs.dev.data, d1.data, d4.data, sb);
    CreatedINodesIntro(fs.dev.data, d1.data, d3.data, d4.data, sb, blk);
    CreatedDataIntro(fs.dev.data, d1.data, d3.data, d4.data, sb);
  }

  /** The free maps after `MakeRoot`: as the data-block allocator left
      them (`s1`), since no later step touches a free map. */
  lemma {:induction false} CreatedMapsIntro(s0: seq<byte>, s1: seq<byte>, s4: seq<byte>, sb: SuperBlockHeader)
    requires Formatted(s0, sb) && OnlyBlockChanged(s0, s1, sb, 1) && Sized(s4, sb)
    requires forall i :: 0 <= i < sb.freeMapNum ==> MapBlock(s4, sb, i) == MapBlock(s1, sb, i)
    requires FreeMapOk(s4, sb) && MapHeader(s1, sb, 0) == BitsPerMap(sb.blockSize) - 1
    requires MapBits(s1, sb, 0) == SetBitAt(Zeros(sb.blockSize - BlockHeaderSize), 0)
    ensures CreatedMaps(s4, sb)
  {
    GeometryFacts(sb);
    assert MapBlock(s4, sb, 0) == MapBlock(s1, sb, 0);
    forall i | 1 <= i < sb.freeMapNum
      ensures MapBlock(s4, sb, i) == FreshBlock(sb.blockSize, StageHeader(sb, 0))
    {
      assert MapBlock(s4, sb, i) == MapBlock(s1, sb, i) == MapBlock(s0, sb, i);
    }
  }

  /** The inode blocks after `MakeRoot`: block 0 as the inode write left it
      (`s3`), every other one as formatted (`s0`). */
  lemma {:induction false} CreatedINodesIntro(s0: seq<byte>, s1: seq<byte>, s3: seq<byte>, s4: seq<byte>,
                                              sb: SuperBlockHeader, blk: u32)
    requires Formatted(s0, sb) && blk == DataStart(sb)
    requires OnlyBlockChanged(s0, s1, sb, 1) && OnlyBlockChanged(s1, s3, sb, 1 + sb.freeMapNum)
    requires OnlyBlockChanged(s3, s4, sb, DataStart(sb))
    requires INodeHeader(s3, sb, 0) == InodesPerBlock(sb.blockSize) - 1
    requires UnusedSlots(INodeBlock(s3, sb, 0), InodesPerBlock(sb.blockSize)) == InodesPerBlock(sb.blockSize) - 1
    requires SlotINode(INodeBlock(s3, sb, 0), 0) == RootINode(blk)
    ensures CreatedINodes(s4, sb)
  {
    GeometryFacts(sb);
    var bs := sb.blockSize;
    FormattedHeaders(s0, sb);
    INodesKept(s0, s1, sb, 1);
    INodesKept(s3, s4, sb, DataStart(sb));
    forall i | 0 <= i < sb.inodeBlkNum
      ensures INodeHeader(s4, sb, i) == UnusedSlots(INodeBlock(s4, sb, i), InodesPerBlock(bs))
      ensures i >= 1 ==> INodeBlock(s4, sb, i) == FreshBlock(bs, StageHeader(sb, 1))
    {
      if i >= 1 {
        assert INodeBlock(s3, sb, i) == INodeBlock(s1, sb, i);
      }
    }
  }

  /** Block 0 and the data blocks after `MakeRoot`: only the first data
      block was written, and only its first two entries. */
  lemma {:induction false} CreatedDataIntro(s0: seq<byte>, s1: seq<byte>, s3: seq<byte>, s4: seq<byte>, sb: SuperBlockHeader)
    requires Formatted(s0, sb)
    requires OnlyBlockChanged(s0, s1, sb, 1) && OnlyBlockChanged(s1, s3, sb, 1 + sb.freeMapNum)
    requires OnlyBlockChanged(s3, s4, sb, DataStart(sb))
    requires RootEntries(Block(s4, sb, DataStart(sb)), 0)
    requires Block(s4, sb, DataStart(sb))[2 * EntrySize..] == Block(s3, sb, DataStart(sb))[2 * EntrySize..]
    ensures CreatedData(s4, sb)
  {
    GeometryFacts(sb);
    var bs := sb.blockSize;
    var root := DataStart(sb);
    assert Block(s4, sb, 0) == Block(s0, sb, 0);
    forall c | root < c < TotalBlocks(sb) ensures Block(s4, sb, c) == Zeros(bs) {
      assert Block(s4, sb, c) == Block(s3, sb, c) == Block(s1, sb, c) == Block(s0, sb, c);
    }
    assert Block(s3, sb, root) == Block(s0, sb, root) == Zeros(bs);
    assert Zeros(bs)[2 * EntrySize..] == Zeros(bs - 2 * EntrySize);
  }

  // ------------------------------------------------------ Create overall

  /** `CreateAsWritten` once the checks pass and the resize and the
      formatting succeed: what remains is `MakeRoot`. */
  lemma {:induction false} CreateUnfold(fs: GeeFs, bs: u32, fm: u32, ib: u32, stale: seq<byte>, d0: Device, d4: Device)
    requires |stale| == kFileNameMaxLen && !CreateRejects(bs)
    requires Resize(fs.dev, U32(Mul(ImageBlocks(bs, fm, ib), bs))) == (d0, true)
    requires FormatImage(d0, SuperOf(bs, fm, ib)) == (d4, true)
    ensures CreateAsWritten(fs, bs, fm, ib, stale) == MakeRoot(GeeFs(d4, SuperOf(bs, fm, ib), fs.cwd), stale)
  {
  }

  /** For a geometry whose image fits the device's 32-bit offsets, `Create`
      succeeds: the object takes the new superblock, its current directory
      is the root directory in the first data block, and the image is
      `Created`; the stream beyond the image is left as the resize left it. */
  lemma {:induction false} CreateSpec(fs: GeeFs, bs: u32, fm: u32, ib: u32, stale: seq<byte>) returns (d: Device, blk: u32)
    requires |stale| == kFileNameMaxLen && ValidGeometry(SuperOf(bs, fm, ib))
    ensures blk == DataStart(SuperOf(bs, fm, ib))
    ensures Create(fs, bs, fm, ib, stale) == Ok(GeeFs(d, SuperOf(bs, fm, ib), RootINode(blk)), true)
    ensures Created(d.data, SuperOf(bs, fm, ib))
  {
    var sb := SuperOf(bs, fm, ib);
    CreateGuard(fs, bs, fm, ib, stale);
    ResizeForImage(fs.dev, sb);
    var d0 := Resize(fs.dev, U32(Mul(ImageBlocks(bs, fm, ib), bs))).0;
    var d4 := FormatImageSpec(d0, sb);
    d, blk := MakeRootSpec(GeeFs(d4, sb, fs.cwd), stale);
    CreateUnfold(fs, bs, fm, ib, stale, d0, d4);
  }

  /** Without a free-map block or without an inode block one of the two
      allocations finds nothing, and `MakeRoot` stops at its `assert`. */
  lemma {:induction false} MakeRootNeedsRoom(fs: GeeFs, stale: seq<byte>)
    requires |stale| == kFileNameMaxLen && (fs.sb.freeMapNum == 0 || fs.sb.inodeBlkNum == 0)
    ensures MakeRoot(fs, stale).Abort?
  {
    if fs.sb.freeMapNum == 0 {
      assert AllocDataBlock(fs.dev, fs.sb) == Ok(fs.dev, None);
    } else if AllocDataBlock(fs.dev, fs.sb).Ok? {
      var d1 := AllocDataBlock(fs.dev, fs.sb).state;
      assert AllocINode(d1, fs.sb) == Ok(d1, None);
    }
  }

  /** `Create` as written never succeeds without a free-map block or an
      inode block: it returns `false` or stops at the `assert`. */
  lemma {:induction false} CreateAsWrittenNoRoom(fs: GeeFs, bs: u32, fm: u32, ib: u32, stale: seq<byte>)
    requires |stale| == kFileNameMaxLen && (fm == 0 || ib == 0)
    ensures CreateAsWritten(fs, bs, fm, ib, stale).Ok? ==> !CreateAsWritten(fs, bs, fm, ib, stale).value
  {
    if !CreateRejects(bs) {
      var (d0, resized) := Resize(fs.dev, U32(Mul(ImageBlocks(bs, fm, ib), bs)));
      if resized {
        var (d4, formatted) := FormatImage(d0, SuperOf(bs, fm, ib));
        if formatted {
          CreateUnfold(fs, bs, fm, ib, stale, d0, d4);
          MakeRootNeedsRoom(GeeFs(d4, SuperOf(bs, fm, ib), fs.cwd), stale);
        }
      }
    }
  }

  /** The corrected `Create` never stops at an `assert` while the image
      fits the device's 32-bit offsets, and it succeeds exactly for the
      geometries that hold a root directory. */
  lemma {:induction false} CreateNeverAborts(fs: GeeFs, bs: u32, fm: u32, ib: u32, stale: seq<byte>)
    requires |stale| == kFileNameMaxLen
    requires Mul(TotalBlocks(SuperOf(bs, fm, ib)), bs) < TWO_32
    ensures Create(fs, bs, fm, ib, stale).Ok?
    ensures Create(fs, bs, fm, ib, stale).value <==> bs >= 72 && fm >= 1 && ib >= 1
  {
    CreateGuard(fs, bs, fm, ib, stale);
    if bs >= 72 && fm >= 1 && ib >= 1 {
      var d, blk := CreateSpec(fs, bs, fm, ib, stale);
    }
  }

  /** The discrepancy on one input: 128-byte blocks, no free-map block and
      one inode block pass the checks, the image of two blocks is written,
      and then the root allocation stops the run; the corrected `Create`
      returns `false` instead. */
  lemma {:induction false} CreateAsWrittenAborts(fs: GeeFs, stale: seq<byte>)
    requires |stale| == kFileNameMaxLen
    ensures CreateAsWritten(fs, 128, 0, 1, stale).Abort?
    ensures Create(fs, 128, 0, 1, stale) == Ok(fs, false)
  {
    var sb := SuperOf(128, 0, 1);
    CreateGuard(fs, 128, 0, 1, stale);
    assert Mul(0, BitsPerMap(128)) == 0;
    assert ImageBlocks(128, 0, 1) == 2;
    assert Mul(2, 128) == 256;
    ResizeSpec(fs.dev, 256);
    var d0 := Resize(fs.dev, 256).0;
    var d4 := SmallImageFormats(d0, sb);
    CreateUnfold(fs, 128, 0, 1, stale, d0, d4);
    MakeRootNeedsRoom(GeeFs(d4, sb, fs.cwd), stale);
  }

  /** On a 256-byte device the superblock write and the one inode block of
      `SuperOf(128, 0, 1)` succeed. */
  lemma {:induction false} SmallImageFormats(d0: Device, sb: SuperBlockHeader) returns (d4: Device)
    requires sb == SuperOf(128, 0, 1) && |d0.data| == 256
    ensures FormatImage(d0, sb) == (d4, true)
  {
    WriteExactSpec(d0, EncodeSuper(sb), 0);
    var d1 := WriteExact(d0, EncodeSuper(sb), 0).0;
    assert Mul(0, BitsPerMap(128)) == 0 && Mul(U32(1), 128) == 128;
    assert StageStart(sb, 0) == 1 == StageStart(sb, 1) && StageStart(sb, 2) == 2 == StageStart(sb, 3);
    var hdr := StageHeader(sb, 1);
    WriteExactSpec(d1, Zeros(128), 128);
    var d2 := WriteExact(d1, Zeros(128), 128).0;
    WriteExactSpec(d2, EncodeU32(hdr.value), 128);
    d4 := WriteExact(d2, EncodeU32(hdr.value), 128).0;
    assert FormatBlock(d1, 128, 1, hdr) == (d4, true);
    assert FormatBlocks(d1, 128, 1, 2, hdr) == (d4, true);
    assert FormatLoops(d1, sb, 0) == FormatLoops(d1, sb, 1) == FormatLoops(d4, sb, 2) == (d4, true);
  }
}
