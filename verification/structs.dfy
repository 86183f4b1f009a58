/** The fixed on-disk records of GeeFS (mkfs/structs.h) with their byte
    encodings: every field is a little-endian `u32`, packed without padding. */
module Structs {
  import opened Machine
  import opened LittleEndian

  const kMagicNum: u32 := 0x9eef5000
  const kDirectBlockNum: nat := 12
  /** Size of one block pointer slot, `sizeof(std::uint32_t)`. */
  const kBlockOfsSize: nat := 4
  /** Size of the name buffer of a directory entry, terminator included. */
  const kFileNameMaxLen: nat := 28

  const SuperBlockHeaderSize: nat := 20
  /** Size of a free-map or inode-block header. */
  const BlockHeaderSize: nat := 4
  const INodeSize: nat := 68
  const EntrySize: nat := 32

  datatype INodeType = Unused | File | Dir

  function TypeCode(t: INodeType): u32
  {
    match t
    case Unused => 0
    case File => 1
    case Dir => 2
  }

  function TypeOfCode(c: u32): (r: Option<INodeType>)
    ensures r.Some? <==> c <= 2
    ensures r.Some? ==> TypeCode(r.value) == c
  {
    if c == 0 then Some(Unused)
    else if c == 1 then Some(File)
    else if c == 2 then Some(Dir)
    else None
  }

  /** The enumerators are Unused = 0, File = 1, Dir = 2, and decoding a type
      code is inverse to encoding it. */
  lemma TypeCodeRoundTrip(t: INodeType, c: u32)
    ensures TypeCode(Unused) == 0 && TypeCode(File) == 1 && TypeCode(Dir) == 2
    ensures TypeOfCode(TypeCode(t)) == Some(t)
    ensures TypeOfCode(c) == Some(t) ==> TypeCode(t) == c
  {
  }

  // ---------------------------------------------------------------- superblock

  datatype SuperBlockHeader = SuperBlockHeader(
    magicNum: u32,
    headerSize: u32,
    blockSize: u32,
    freeMapNum: u32,
    inodeBlkNum: u32)

  function EncodeSuper(h: SuperBlockHeader): (r: seq<byte>)
    ensures |r| == SuperBlockHeaderSize
  {
    EncodeWords([h.magicNum, h.headerSize, h.blockSize, h.freeMapNum, h.inodeBlkNum])
  }

  function DecodeSuper(s: seq<byte>): SuperBlockHeader
    requires |s| == SuperBlockHeaderSize
  {
    var w := DecodeWords(s);
    SuperBlockHeader(w[0], w[1], w[2], w[3], w[4])
  }

  /** The superblock is five `u32` fields, magic number first, and its
      encoding is a bijection onto 20-byte strings. */
  lemma SuperRoundTrip(h: SuperBlockHeader, s: seq<byte>)
    requires |s| == SuperBlockHeaderSize
    ensures DecodeSuper(EncodeSuper(h)) == h
    ensures EncodeSuper(DecodeSuper(s)) == s
    ensures EncodeSuper(h)[..4] == EncodeU32(h.magicNum)
    ensures EncodeSuper(h)[8..12] == EncodeU32(h.blockSize)
  {
    var ws := [h.magicNum, h.headerSize, h.blockSize, h.freeMapNum, h.inodeBlkNum];
    DecodeEncodeWords(ws);
    var w := DecodeWords(s);
    assert w == [w[0], w[1], w[2], w[3], w[4]];
    EncodeDecodeWords(s);
    WordAt(ws, 0);
    WordAt(ws, 2);
  }

  // ------------------------------------------------------------- block headers

  /** The header of a free-map block (`FreeMapBlockHeader`) and of an inode
      block (`INodeBlockHeader`): both are one `u32` count of unused items. */
  datatype BlockHeader = BlockHeader(unusedNum: u32)

  function EncodeHeader(h: BlockHeader): (r: seq<byte>)
    ensures |r| == BlockHeaderSize
  {
    EncodeU32(h.unusedNum)
  }

  function DecodeHeader(s: seq<byte>): BlockHeader
    requires |s| == BlockHeaderSize
  {
    BlockHeader(DecodeU32(s))
  }

  lemma HeaderRoundTrip(h: BlockHeader, s: seq<byte>)
    requires |s| == BlockHeaderSize
    ensures DecodeHeader(EncodeHeader(h)) == h
    ensures EncodeHeader(DecodeHeader(s)) == s
  {
    DecodeEncodeU32(h.unusedNum);
    EncodeDecodeU32(s);
  }

  // -------------------------------------------------------------------- inodes

  /** An inode; `typ` is the raw `INodeType` code as stored. */
  datatype INode = INode(
    typ: u32,
    size: u32,
    blockNum: u32,
    direct: seq<u32>,
    indirect: u32,
    indirect2: u32)

  ghost predicate ValidINode(n: INode)
  {
    |n.direct| == kDirectBlockNum
  }

  function INodeWords(n: INode): seq<u32>
  {
    [n.typ, n.size, n.blockNum] + n.direct + [n.indirect, n.indirect2]
  }

  function EncodeINode(n: INode): (r: seq<byte>)
    requires ValidINode(n)
    ensures |r| == INodeSize
  {
    EncodeWords(INodeWords(n))
  }

  function DecodeINode(s: seq<byte>): (n: INode)
    requires |s| == INodeSize
    ensures ValidINode(n)
  {
    var w := DecodeWords(s);
    INode(w[0], w[1], w[2], w[3..15], w[15], w[16])
  }

  lemma INodeRoundTrip(n: INode, s: seq<byte>)
    requires ValidINode(n) && |s| == INodeSize
    ensures DecodeINode(EncodeINode(n)) == n
    ensures EncodeINode(DecodeINode(s)) == s
  {
    var ws := INodeWords(n);
    DecodeEncodeWords(ws);
    assert ws[3..15] == n.direct;
    var w := DecodeWords(s);
    assert INodeWords(DecodeINode(s)) == w;
    EncodeDecodeWords(s);
  }

  /** An inode is 17 `u32` fields in the order type, size, block_num,
      direct[12], indirect, indirect2. */
  lemma {:induction false} INodeLayout(n: INode, k: nat)
    requires ValidINode(n) && k < kDirectBlockNum
    ensures EncodeINode(n)[0..4] == EncodeU32(n.typ)
    ensures EncodeINode(n)[4..8] == EncodeU32(n.size)
    ensures EncodeINode(n)[8..12] == EncodeU32(n.blockNum)
    ensures EncodeINode(n)[12 + 4 * k .. 16 + 4 * k] == EncodeU32(n.direct[k])
    ensures EncodeINode(n)[60..64] == EncodeU32(n.indirect)
    ensures EncodeINode(n)[64..68] == EncodeU32(n.indirect2)
  {
    INodeHeadFields(n);
    INodeTailFields(n, k);
  }

  /** The first three fields of an encoded inode. */
  lemma {:induction false} INodeHeadFields(n: INode)
    requires ValidINode(n)
    ensures EncodeINode(n)[0..4] == EncodeU32(n.typ)
    ensures EncodeINode(n)[4..8] == EncodeU32(n.size)
    ensures EncodeINode(n)[8..12] == EncodeU32(n.blockNum)
  {
    var ws := INodeWords(n);
    WordAt(ws, 0);
    WordAt(ws, 1);
    WordAt(ws, 2);
  }

  /** A direct pointer and the two indirect pointers of an encoded inode. */
  lemma {:induction false} INodeTailFields(n: INode, k: nat)
    requires ValidINode(n) && k < kDirectBlockNum
    ensures EncodeINode(n)[12 + 4 * k .. 16 + 4 * k] == EncodeU32(n.direct[k])
    ensures EncodeINode(n)[60..64] == EncodeU32(n.indirect)
    ensures EncodeINode(n)[64..68] == EncodeU32(n.indirect2)
  {
    var ws := INodeWords(n);
    assert ws[3 + k] == n.direct[k] && ws[15] == n.indirect && ws[16] == n.indirect2;
    WordAt(ws, 3 + k);
    WordAt(ws, 15);
    WordAt(ws, 16);
  }

  // ---------------------------------------------------------- directory entries

  /** A directory entry; `filename` is the raw 28-byte name buffer. */
  datatype Entry = Entry(inodeId: u32, filename: seq<byte>)

  ghost predicate ValidEntry(e: Entry)
  {
    |e.filename| == kFileNameMaxLen
  }

  function EncodeEntry(e: Entry): (r: seq<byte>)
    requires ValidEntry(e)
    ensures |r| == EntrySize
  {
    EncodeU32(e.inodeId) + e.filename
  }

  function DecodeEntry(s: seq<byte>): (e: Entry)
    requires |s| == EntrySize
    ensures ValidEntry(e)
  {
    Entry(DecodeU32(s[..4]), s[4..])
  }

  /** An entry is a `u32` inode id followed by the name buffer, 32 bytes. */
  lemma EntryRoundTrip(e: Entry, s: seq<byte>)
    requires ValidEntry(e) && |s| == EntrySize
    ensures DecodeEntry(EncodeEntry(e)) == e
    ensures EncodeEntry(DecodeEntry(s)) == s
    ensures EncodeEntry(e)[..4] == EncodeU32(e.inodeId)
  {
    DecodeEncodeU32(e.inodeId);
    EncodeDecodeU32(s[..4]);
    assert s == s[..4] + s[4..];
  }

  /** The characters of a NUL-terminated buffer before its terminator. */
  function CString(buf: seq<byte>): (r: seq<byte>)
    ensures |r| <= |buf| && r == buf[..|r|]
    ensures forall i :: 0 <= i < |r| ==> r[i] != 0
    ensures |r| < |buf| ==> buf[|r|] == 0
  {
    if buf == [] || buf[0] == 0 then [] else [buf[0]] + CString(buf[1..])
  }

  /** A buffer without a NUL is taken whole. */
  lemma {:induction false} CStringNoNul(buf: seq<byte>)
    requires 0 !in buf
    ensures CString(buf) == buf
  {
    if buf != [] {
      assert 0 !in buf[1..] by {
        assert forall i :: 0 <= i < |buf[1..]| ==> buf[1..][i] == buf[i + 1];
      }
      CStringNoNul(buf[1..]);
      assert buf == [buf[0]] + buf[1..];
    }
  }

  /** The name of an entry as `os << entry.filename` prints it. */
  function EntryName(e: Entry): seq<byte>
  {
    CString(e.filename)
  }

  /** A terminated name in a 28-byte buffer has at most 27 characters. */
  lemma EntryNameBound(e: Entry)
    requires ValidEntry(e) && 0 in e.filename
    ensures |EntryName(e)| <= kFileNameMaxLen - 1
  {
  }

  /** `std::strcpy(buf, name)`: the name and its terminator overwrite the
      front of the buffer, the bytes after the terminator stay as they were. */
  function StrCpy(buf: seq<byte>, name: seq<byte>): (r: seq<byte>)
    requires |name| < |buf|
  {
    name + [0] + buf[|name| + 1..]
  }

  lemma StrCpyName(buf: seq<byte>, name: seq<byte>)
    requires |name| < |buf| && 0 !in name
    ensures |StrCpy(buf, name)| == |buf|
    ensures CString(StrCpy(buf, name)) == name
  {
    var r := StrCpy(buf, name);
    assert r[|name|] == 0;
  }

  const DotName: seq<byte> := [46]
  const DotDotName: seq<byte> := [46, 46]
}
