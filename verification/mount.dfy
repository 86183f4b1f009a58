/** A `GeeFS` object over an existing image: `GeeFS::Open`, which takes the
    superblock and the root directory from the device, `GeeFS::List`, which
    visits the entries of the current directory, and the operations the
    code leaves unimplemented. */
module Mount {
  import opened Machine
  import opened ByteSeq
  import opened LittleEndian
  import opened Structs
  import opened IoDevice
  import opened Layout
  import opened Inodes
  import opened Resolve
  import opened Image

  // ---------------------------------------------------------------- Open

  /** `Open()`: read the superblock from offset 0, then inode 0 as the
      current directory; the result is whether that inode is a directory.
      Nothing checks the magic number or the geometry, so a stored block
      size with no room for an inode stops the run at the division by
      `in_per_blk`. A failed read returns `false` and leaves the field it
      was reading into as it was. */
  function Open(fs: GeeFs): Run<GeeFs, bool>
  {
    match ReadExact(fs.dev, SuperBlockHeaderSize, 0)
    case None => Ok(fs, false)
    case Some(buf) =>
      var sb := DecodeSuper(buf);
      match ReadINode(fs.dev, sb, 0)
      case Abort(f) => Abort(f)
      case Ok(_, None) => Ok(fs.(sb := sb), false)
      case Ok(_, Some(n)) => Ok(GeeFs(fs.dev, sb, n), n.typ == TypeCode(Dir))
  }

  /** The superblock `Open` takes from a device of at least 20 bytes. */
  function StoredSuper(d: Device): SuperBlockHeader
    requires |d.data| >= SuperBlockHeaderSize
  {
    DecodeSuper(d.data[..SuperBlockHeaderSize])
  }

  /** `Open` never writes the device. It fails without touching the object
      on a device shorter than a superblock, and it aborts exactly when the
      stored block size leaves no room for one inode: `block_size - 4`
      below 68, which the unsigned subtraction makes the sizes 4 to 71. */
  lemma {:induction false} OpenOutcome(fs: GeeFs)
    ensures Open(fs).Ok? ==> Open(fs).state.dev == fs.dev
    ensures |fs.dev.data| < SuperBlockHeaderSize ==> Open(fs) == Ok(fs, false)
    ensures Open(fs).Abort? <==>
              |fs.dev.data| >= SuperBlockHeaderSize && 4 <= StoredSuper(fs.dev).blockSize < 72
    ensures Open(fs).Abort? ==> Open(fs).fault == DivideByZero
    ensures Open(fs).Ok? && Open(fs).value ==> Open(fs).state.cwd.typ == TypeCode(Dir)
  {
    ReadExactSpec(fs.dev, SuperBlockHeaderSize, 0);
    if |fs.dev.data| >= SuperBlockHeaderSize {
      var bs := StoredSuper(fs.dev).blockSize;
      PayloadSizeWraps(bs);
    }
  }

  /** The byte offset of inode 0 lies past the magic number. */
  lemma {:induction false} RootINodePastMagic(sb: SuperBlockHeader)
    requires InodesPerBlock(sb.blockSize) > 0
    ensures INodeOffset(sb, 0).Some? && INodeOffset(sb, 0).value >= 4
  {
    var a, b := U32(1 + sb.freeMapNum), sb.blockSize;
    var n := TWO_32 - 1;
    MulIsProduct(a, b);
    MulLeLeft(b, n, a);
    MulLeLeft(a, n, n);
    assert Mul(0 % InodesPerBlock(b), INodeSize) == 0;
  }

  /** `Open` never reads the magic number: whatever the first four bytes
      of the device hold, it gives the same verdict, the same current
      directory and the same superblock apart from its magic field. */
  lemma {:induction false} OpenIgnoresMagic(fs: GeeFs, m: seq<byte>)
    requires |m| == 4 && |fs.dev.data| >= 4
    ensures var fs' := fs.(dev := WriteExact(fs.dev, m, 0).0);
      && (Open(fs').Abort? <==> Open(fs).Abort?)
      && (Open(fs).Ok? ==>
            && Open(fs').value == Open(fs).value
            && Open(fs').state.cwd == Open(fs).state.cwd
            && Open(fs').state.sb.(magicNum := 0) == Open(fs).state.sb.(magicNum := 0))
  {
    WriteExactSpec(fs.dev, m, 0);
    var d, d' := fs.dev, WriteExact(fs.dev, m, 0).0;
    ReadExactSpec(d, SuperBlockHeaderSize, 0);
    ReadExactSpec(d', SuperBlockHeaderSize, 0);
    if |d.data| >= SuperBlockHeaderSize {
      var s, s' := d.data[..SuperBlockHeaderSize], d'.data[..SuperBlockHeaderSize];
      PatchAt(d.data, 0, m);
      assert s'[4..] == s[4..];
      var sb, sb' := DecodeSuper(s), DecodeSuper(s');
      assert DecodeWords(s) == [DecodeU32(s[..4])] + DecodeWords(s[4..]);
      assert DecodeWords(s') == [DecodeU32(s'[..4])] + DecodeWords(s'[4..]);
      assert sb'.(magicNum := 0) == sb.(magicNum := 0);
      if InodesPerBlock(sb.blockSize) > 0 {
        RootINodePastMagic(sb);
        assert INodeOffset(sb', 0) == INodeOffset(sb, 0);
        ReadAfterWrite(d, m, 0, INodeSize, INodeOffset(sb, 0).value);
      }
    }
  }

  /** On an image of a valid geometry that leads with its own superblock,
      `Open` takes that superblock and, as current directory, the inode in
      the first slot of the first inode block. */
  lemma {:induction false} OpenImage(fs: GeeFs, sb: SuperBlockHeader)
    requires Sized(fs.dev.data, sb)
    requires Block(fs.dev.data, sb, 0)[..SuperBlockHeaderSize] == EncodeSuper(sb)
    ensures var n := SlotINode(INodeBlock(fs.dev.data, sb, 0), 0);
      Open(fs) == Ok(GeeFs(fs.dev, sb, n), n.typ == TypeCode(Dir))
  {
    var d := fs.dev;
    GeometryFacts(sb);
    ReadInBlock(d, sb, 0, 0, SuperBlockHeaderSize, Mul(0, sb.blockSize));
    SuperRoundTrip(sb, d.data[..SuperBlockHeaderSize]);
    MulAtLeast(sb.inodeBlkNum, InodesPerBlock(sb.blockSize));
    ReadINodeSpec(d, sb, 0);
    assert HomeBlock(sb, 0) == 0 && HomeSlot(sb, 0) == 0;
  }

  /** `Open` on the image `Create` leaves finds the superblock `Create`
      wrote and the root directory, and succeeds; what the object held
      before does not matter. */
  lemma {:induction false} OpenAfterCreate(fs: GeeFs, sb: SuperBlockHeader) returns (blk: u32)
    requires Created(fs.dev.data, sb)
    ensures blk == DataStart(sb)
    ensures Open(fs) == Ok(GeeFs(fs.dev, sb, RootINode(blk)), true)
  {
    GeometryFacts(sb);
    blk := DataStart(sb);
    assert CreatedData(fs.dev.data, sb) && CreatedINodes(fs.dev.data, sb);
    OpenImage(fs, sb);
  }

  // ---------------------------------------------------------------- List

  /** Entries `List` visits in the `i`-th block of directory `n`:
      `std::min(kEntNum - i * kEntPerBlock, kEntPerBlock)`, where `kEntNum`
      is the entries the directory's size holds and `kEntPerBlock` the
      entries a block holds. The subtraction is in `std::size_t`, so past
      the last entry it wraps to a huge count and the minimum is a whole
      block. */
  function EntryCount(sb: SuperBlockHeader, n: INode, i: nat): nat
  {
    var total, per := n.size / EntrySize, sb.blockSize / EntrySize;
    Min(U64(total - Mul(i, per)), per)
  }

  /** The names of entries `j` to `count - 1` of the block at device offset
      `off`, read one by one; a failed read stops the run at its
      `assert`. */
  function ListEntries(fs: GeeFs, off: nat, j: nat, count: nat): Run<GeeFs, seq<seq<byte>>>
    decreases count - j
  {
    if j >= count then Ok(fs, [])
    else
      match ReadExact(fs.dev, EntrySize, off + EntrySize * j)
      case None => Abort(DeviceAssert)
      case Some(buf) =>
        match ListEntries(fs, off, j + 1, count)
        case Abort(f) => Abort(f)
        case Ok(_, rest) => Ok(fs, [EntryName(DecodeEntry(buf))] + rest)
  }

  /** The blocks of the current directory from the `i`-th on. Each must
      resolve (`assert(blk_ofs)`); its offset `blk_ofs * block_size` is a
      `std::uint32_t`. */
  function ListBlocks(fs: GeeFs, i: nat): Run<GeeFs, seq<seq<byte>>>
    requires ValidINode(fs.cwd)
    decreases fs.cwd.blockNum - i
  {
    if i >= fs.cwd.blockNum then Ok(fs, [])
    else
      match GetBlockOffset(fs.dev, fs.sb, fs.cwd, i)
      case Abort(f) => Abort(f)
      case Ok(_, None) => Abort(MissingBlock)
      case Ok(_, Some(b)) =>
        match ListEntries(fs, U32(Mul(b, fs.sb.blockSize)), 0, EntryCount(fs.sb, fs.cwd, i))
        case Abort(f) => Abort(f)
        case Ok(_, names) =>
          match ListBlocks(fs, i + 1)
          case Abort(f) => Abort(f)
          case Ok(_, rest) => Ok(fs, names + rest)
  }

  /** `List(os)`: the names it prints, one per visited entry, in order. The
      current directory must be a directory (`assert`). */
  function List(fs: GeeFs): Run<GeeFs, seq<seq<byte>>>
    requires ValidINode(fs.cwd)
  {
    if fs.cwd.typ != TypeCode(Dir) then Abort(NotDirectory) else ListBlocks(fs, 0)
  }

  /** The names of the first `count` entries of a directory block, read
      off the block itself. */
  function BlockNames(blk: seq<byte>, count: nat): (r: seq<seq<byte>>)
    requires EntrySize * count <= |blk|
  {
    seq(count, j requires 0 <= j < count => EntryName(EntryAt(blk, j)))
  }

  /** Reading entries one by one from block `b` of an image yields the
      names stored in that block, in order, and changes nothing. */
  lemma {:induction false} ListEntriesSpec(fs: GeeFs, sb: SuperBlockHeader, b: nat, j: nat, count: nat)
    requires Sized(fs.dev.data, sb) && b < TotalBlocks(sb)
    requires j <= count && EntrySize * count <= sb.blockSize
    decreases count - j
    ensures ListEntries(fs, Mul(b, sb.blockSize), j, count)
              == Ok(fs, BlockNames(Block(fs.dev.data, sb, b), count)[j..])
  {
    if j < count {
      ListEntriesSpec(fs, sb, b, j + 1, count);
      ListEntriesCons(fs, sb, b, j, count);
    } else {
      assert |BlockNames(Block(fs.dev.data, sb, b), count)[j..]| == 0;
    }
  }

  /** Entry `j` of the block heads the listing from `j` on, once the
      listing from `j + 1` on is known. */
  lemma {:induction false} ListEntriesCons(fs: GeeFs, sb: SuperBlockHeader, b: nat, j: nat, count: nat)
    requires Sized(fs.dev.data, sb) && b < TotalBlocks(sb)
    requires j < count && EntrySize * count <= sb.blockSize
    requires ListEntries(fs, Mul(b, sb.blockSize), j + 1, count)
               == Ok(fs, BlockNames(Block(fs.dev.data, sb, b), count)[j + 1..])
    ensures ListEntries(fs, Mul(b, sb.blockSize), j, count)
              == Ok(fs, BlockNames(Block(fs.dev.data, sb, b), count)[j..])
  {
    var blk := Block(fs.dev.data, sb, b);
    var off := Mul(b, sb.blockSize);
    ReadInBlock(fs.dev, sb, b, EntrySize * j, EntrySize, off + EntrySize * j);
    var names := BlockNames(blk, count);
    ListEntriesStep(fs, off, j, count, blk[EntrySize * j..EntrySize * j + EntrySize], names[j + 1..]);
    assert names[j..] == [names[j]] + names[j + 1..];
  }

  /** One step of `ListEntries` once its read and the rest of the listing
      are known. */
  lemma {:induction false} ListEntriesStep(fs: GeeFs, off: nat, j: nat, count: nat, buf: seq<byte>, rest: seq<seq<byte>>)
    requires j < count && ReadExact(fs.dev, EntrySize, off + EntrySize * j) == Some(buf)
    requires ListEntries(fs, off, j + 1, count) == Ok(fs, rest)
    ensures ListEntries(fs, off, j, count) == Ok(fs, [EntryName(DecodeEntry(buf))] + rest)
  {
  }

  /** Up to the last entry the count is what remains, at most a block;
      past it the unsigned subtraction wraps and a whole block is visited
      again. */
  lemma {:induction false} EntryCountCases(sb: SuperBlockHeader, n: INode, i: nat)
    requires i < n.blockNum
    ensures var total, per := n.size / EntrySize, sb.blockSize / EntrySize;
      && (Mul(i, per) <= total ==> EntryCount(sb, n, i) == Min(total - Mul(i, per), per))
      && (total < Mul(i, per) ==> EntryCount(sb, n, i) == per)
  {
    var total, per := n.size / EntrySize, sb.blockSize / EntrySize;
    if total < Mul(i, per) {
      MulIsProduct(i, per);
      MulLeLeft(per, 0x800_0000, i);
    }
  }

  /** Entries visited in the blocks from the `i`-th on. */
  ghost function Visited(sb: SuperBlockHeader, n: INode, i: nat): nat
    decreases n.blockNum - i
  {
    if i >= n.blockNum then 0 else EntryCount(sb, n, i) + Visited(sb, n, i + 1)
  }

  /** A listing of entries `j` to `count - 1` has one name per entry. */
  lemma {:induction false} ListEntriesLength(fs: GeeFs, off: nat, j: nat, count: nat)
    requires ListEntries(fs, off, j, count).Ok?
    decreases count - j
    ensures ListEntries(fs, off, j, count).state == fs
    ensures |ListEntries(fs, off, j, count).value| == if j <= count then count - j else 0
  {
    if j < count {
      ListEntriesLength(fs, off, j + 1, count);
    }
  }

  /** A listing that completes has one name per visited entry and leaves
      the object as it was. */
  lemma {:induction false} ListBlocksLength(fs: GeeFs, i: nat)
    requires ValidINode(fs.cwd) && ListBlocks(fs, i).Ok?
    decreases fs.cwd.blockNum - i
    ensures ListBlocks(fs, i).state == fs
    ensures |ListBlocks(fs, i).value| == Visited(fs.sb, fs.cwd, i)
  {
    if i < fs.cwd.blockNum {
      var b := GetBlockOffset(fs.dev, fs.sb, fs.cwd, i).value.value;
      ListEntriesLength(fs, U32(Mul(b, fs.sb.blockSize)), 0, EntryCount(fs.sb, fs.cwd, i));
      ListBlocksLength(fs, i + 1);
    }
  }

  /** A directory whose entries fill its blocks in order: every block but
      the last is full, and the last holds at least one entry. */
  ghost predicate EntriesFit(sb: SuperBlockHeader, n: INode)
  {
    var total, per := n.size / EntrySize, sb.blockSize / EntrySize;
    n.blockNum >= 1 && Mul(n.blockNum - 1, per) < total <= Mul(n.blockNum, per)
  }

  /** In such a directory the blocks from the `i`-th on hold all entries
      after the first `i` blocks' worth. */
  lemma {:induction false} VisitedRest(sb: SuperBlockHeader, n: INode, i: nat)
    requires EntriesFit(sb, n) && i < n.blockNum
    decreases n.blockNum - i
    ensures Mul(i, sb.blockSize / EntrySize) < n.size / EntrySize
    ensures Visited(sb, n, i) == n.size / EntrySize - Mul(i, sb.blockSize / EntrySize)
  {
    var total, per := n.size / EntrySize, sb.blockSize / EntrySize;
    MulLe(i, n.blockNum - 1, per);
    EntryCountCases(sb, n, i);
    if i + 1 < n.blockNum {
      VisitedRest(sb, n, i + 1);
      assert Mul(i + 1, per) == Mul(i, per) + per;
    } else {
      assert Mul(i + 1, per) == Mul(i, per) + per;
    }
  }

  /** `List` on a directory whose entries fill its blocks in order prints
      exactly as many names as its size holds entries. */
  lemma {:induction false} ListCount(fs: GeeFs)
    requires ValidINode(fs.cwd) && List(fs).Ok? && EntriesFit(fs.sb, fs.cwd)
    ensures List(fs).state == fs
    ensures |List(fs).value| == fs.cwd.size / EntrySize
  {
    ListBlocksLength(fs, 0);
    VisitedRest(fs.sb, fs.cwd, 0);
    assert Mul(0, fs.sb.blockSize / EntrySize) == 0;
  }

  /** A directory held in direct blocks only, each a block of the image. */
  ghost predicate DirectDir(sb: SuperBlockHeader, n: INode)
  {
    && ValidINode(n)
    && n.blockNum <= kDirectBlockNum
    && (forall k :: 0 <= k < n.blockNum ==> n.direct[k] < TotalBlocks(sb))
  }

  /** The names stored in such a directory from its `i`-th block on, each
      block contributing its first `EntryCount` entries: the listing read
      off the image, block by block. */
  ghost function DirNames(s: seq<byte>, sb: SuperBlockHeader, n: INode, i: nat): seq<seq<byte>>
    requires Sized(s, sb) && DirectDir(sb, n)
    decreases n.blockNum - i
  {
    if i >= n.blockNum then []
    else
      var count := EntryCount(sb, n, i);
      assert EntrySize * count <= sb.blockSize;
      BlockNames(Block(s, sb, n.direct[i]), count) + DirNames(s, sb, n, i + 1)
  }

  /** On an image, listing a directory held in direct blocks prints the
      names stored in its blocks, in block order and entry order, and
      changes nothing. */
  lemma {:induction false} ListBlocksDirect(fs: GeeFs, i: nat)
    requires Sized(fs.dev.data, fs.sb) && DirectDir(fs.sb, fs.cwd)
    decreases fs.cwd.blockNum - i
    ensures ListBlocks(fs, i) == Ok(fs, DirNames(fs.dev.data, fs.sb, fs.cwd, i))
  {
    var n, sb := fs.cwd, fs.sb;
    if i < n.blockNum {
      var b := n.direct[i];
      GetBlockOffsetOutcome(fs.dev, sb, n, i);
      BlockOffset(sb, b);
      var count := EntryCount(sb, n, i);
      ListEntriesSpec(fs, sb, b, 0, count);
      ListBlocksDirect(fs, i + 1);
    }
  }

  /** `List` of a directory held in direct blocks: the names stored in
      its blocks; any other current directory stops the run. */
  lemma {:induction false} ListDirect(fs: GeeFs)
    requires Sized(fs.dev.data, fs.sb) && DirectDir(fs.sb, fs.cwd)
    ensures fs.cwd.typ == TypeCode(Dir) ==> List(fs) == Ok(fs, DirNames(fs.dev.data, fs.sb, fs.cwd, 0))
    ensures fs.cwd.typ != TypeCode(Dir) ==> List(fs) == Abort(NotDirectory)
  {
    ListBlocksDirect(fs, 0);
  }

  /** The names stored in a one-block directory whose block starts with
      "." and "..": just those two. */
  lemma {:induction false} RootNames(s: seq<byte>, sb: SuperBlockHeader, blk: u32)
    requires Sized(s, sb) && blk < TotalBlocks(sb) && RootEntries(Block(s, sb, blk), 0)
    ensures DirectDir(sb, RootINode(blk))
    ensures DirNames(s, sb, RootINode(blk), 0) == [DotName, DotDotName]
  {
    var n := RootINode(blk);
    assert Mul(0, sb.blockSize / EntrySize) == 0;
    assert EntryCount(sb, n, 0) == 2;
    var names := BlockNames(Block(s, sb, blk), 2);
    assert DirNames(s, sb, n, 0) == names + DirNames(s, sb, n, 1);
    assert names == [DotName, DotDotName];
  }

  /** After `Create`, listing the root directory prints "." and "..". */
  lemma {:induction false} ListAfterCreate(fs: GeeFs, blk: u32)
    requires Created(fs.dev.data, fs.sb) && blk == DataStart(fs.sb) && fs.cwd == RootINode(blk)
    ensures List(fs) == Ok(fs, [DotName, DotDotName])
  {
    GeometryFacts(fs.sb);
    assert CreatedData(fs.dev.data, fs.sb);
    RootNames(fs.dev.data, fs.sb, blk);
    ListDirect(fs);
  }

  // ---------------------------------------------- unimplemented operations

  /** `CreateFile(file_name)`: not implemented, returns `false`. */
  function CreateFile(fs: GeeFs, name: seq<char>): (GeeFs, bool)
  {
    (fs, false)
  }

  /** `MakeDir(dir_name)`: not implemented, returns `false`. */
  function MakeDir(fs: GeeFs, name: seq<char>): (GeeFs, bool)
  {
    (fs, false)
  }

  /** `ChangeDir(dir_name)`: not implemented, returns `false`. */
  function ChangeDir(fs: GeeFs, name: seq<char>): (GeeFs, bool)
  {
    (fs, false)
  }

  /** `Remove(file_name)`: not implemented, returns `false`. */
  function Remove(fs: GeeFs, name: seq<char>): (GeeFs, bool)
  {
    (fs, false)
  }

  /** `GeeFS::Read(file_name, os, offset, len)`: not implemented; its
      `std::int32_t` result is `false`, that is 0, and nothing is written
      to the stream. */
  function ReadFile(fs: GeeFs, name: seq<char>, offset: nat, len: nat): (GeeFs, seq<byte>, int)
  {
    (fs, [], 0)
  }

  /** `GeeFS::Write(file_name, is, offset, len)`: not implemented; returns
      0 and consumes nothing of `input`. */
  function WriteFile(fs: GeeFs, name: seq<char>, input: seq<byte>, offset: nat, len: nat): (GeeFs, seq<byte>, int)
  {
    (fs, input, 0)
  }

  /** None of the unimplemented operations succeeds, touches the device,
      the superblock or the current directory, or moves any data. */
  lemma {:induction false} StubsFail(fs: GeeFs, name: seq<char>, input: seq<byte>, offset: nat, len: nat)
    ensures !CreateFile(fs, name).1 && CreateFile(fs, name).0 == fs
    ensures !MakeDir(fs, name).1 && MakeDir(fs, name).0 == fs
    ensures !ChangeDir(fs, name).1 && ChangeDir(fs, name).0 == fs
    ensures !Remove(fs, name).1 && Remove(fs, name).0 == fs
    ensures ReadFile(fs, name, offset, len) == (fs, [], 0)
    ensures WriteFile(fs, name, input, offset, len) == (fs, input, 0)
  {
  }
}
