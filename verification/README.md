# GeeFS mkfs, modelled in Dafny

GeeFS is the file system of the GeeOS teaching kernel. Its host-side tool `mkfs`
builds a GeeFS image in a file. This project models:

- **the image layout engine of `mkfs`.** This is class `GeeFS` in mkfs/geefs.cpp, over the
  on-disk records of mkfs/structs.h and the byte device of mkfs/iosdev.cpp.
- **`GetFileName`.** The path helper of mkfs/main.cpp.
- **the two Python utilities that ship images to the board.** `get_word` and `make_packet`
  of utils/uart.py, and `read_bin` and `make_coe` of utils/bin2coe.py.

The model is functional throughout. The device is an immutable byte sequence.
Every C `assert` is an explicit `Abort(fault)` outcome of a total function, so no
precondition hides it, and lemmas show which image invariants make each abort
unreachable. Every `std::uint32_t` and `std::size_t` computation of the code is
written out with its wrap-around (`Machine.U32`, `Machine.U64`). The records are
encoded little-endian, as the raw struct writes of the code produce on a
little-endian host.

| module | file | models |
|---|---|---|
| `Machine` | machine.dfy | bytes, `u32`, wrap-around, `Option`, a recursive product used in offset arithmetic |
| `ByteSeq` | byte_seq.dfy | patching a byte range, blocks, 4-byte pieces and their concatenation |
| `LittleEndian` | little_endian.dfy | little-endian words |
| `Structs` | structs.dfy | `SuperBlockHeader`, block headers, `INode`, `Entry`, `INodeType`, NUL-terminated names |
| `IoDevice` | device.dfy | `IOStreamDevice::Read`/`Write`/`Resize`, and all-or-nothing transfers |
| `Bitmap` | bitmap.dfy | free-map bitmaps, MSB first, and the bit scan of `AllocDataBlock` |
| `Layout` | layout.dfy | image geometry, blocks, headers, and the header invariants |
| `Alloc` | alloc.dfy | `AllocDataBlock`, `AllocINode` |
| `Inodes` | inodes.dfy | `ReadINode`, `UpdateINode`, `InitDirBlock` |
| `Resolve` | resolve.dfy | `GetBlockOffset` |
| `Format` | format.dfy | the three block-formatting loops of `Create` |
| `Image` | image.dfy | the `GeeFS` object and `Create` |
| `Mount` | mount.dfy | `Open`, `List`, and the unimplemented operations |
| `Paths` | paths.dfy | `GetFileName` |
| `Uart` | uart.dfy | `get_word`, `make_packet` |
| `Coe` | coe.dfy | `read_bin`, `make_coe` |

The shape of an image:
- block 0 begins with the superblock;
- then come `free_map_num` free-map blocks, each an `unused_num` header and a bitmap;
- then come `inode_blk_num` inode blocks, each an `unused_num` header and 68-byte inodes;
- then come the data blocks, one per free-map bit.

`Layout.FreeMapOk` is the invariant the allocator keeps: every free-map header
counts the clear bits of its bitmap. `Layout.INodeHeadersOk` is the invariant
`AllocINode` keeps: every inode header is at most the number of Unused slots. It
is weaker than equality because `AllocINode` lowers the header without marking
the slot it returns.

Behaviours of the code worth knowing:
- **Inode ids.** `AllocINode` returns `i * in_per_blk + j` with `j` the byte
  offset of the slot, not its index, and it never marks the slot as used.
- **Stubs.** `CreateFile`, `MakeDir`, `ChangeDir`, `Remove`, `Read` and `Write`
  are stubs that fail.
- **`Open`.** It never checks the magic number.
- **`Create` without maps.** `Create` accepts a geometry without free-map blocks
  or without inode blocks; see Findings.

## Model

| member | source | states |
|---|---|---|
| Structs.TypeCodeRoundTrip | mkfs/structs.h:11-15 | Unused, File and Dir are coded 0, 1 and 2; decoding a type code inverts encoding, and a code decodes to a type only when encoding that type gives the code |
| Structs.TypeOfCode | mkfs/structs.h:11-15 | a stored type code names a type exactly when it is at most 2, and that type is the one whose code it is |
| Structs.SuperRoundTrip | mkfs/structs.h:17-23 | the superblock is five little-endian `u32` fields (20 bytes) in declaration order, magic first and block size third; decode and encode are mutually inverse |
| Structs.HeaderRoundTrip | mkfs/structs.h:25-31 | a free-map or inode block header is one `u32` (4 bytes), and decode and encode are mutually inverse |
| Structs.INodeRoundTrip | mkfs/structs.h:33-40 | an inode is 68 bytes; decoding an encoded inode gives it back, and encoding a decoded 68-byte record gives the record back |
| Structs.INodeLayout | mkfs/structs.h:33-40 | the 17 fields lie in order: type, size, block_num, twelve direct pointers, indirect, indirect2, each 4 bytes |
| Structs.EntryRoundTrip | mkfs/structs.h:42-45 | an entry is a `u32` inode id followed by a 28-byte name (32 bytes), and decode and encode are mutually inverse |
| Structs.EntryNameBound | mkfs/structs.h:9 | a NUL-terminated name in an entry has at most 27 characters |
| Structs.CString | mkfs/structs.h:44 | the name printed from a buffer is its longest NUL-free prefix, followed by a NUL when the buffer holds one |
| Structs.CStringNoNul | mkfs/structs.h:44 | a buffer that holds no NUL is printed whole |
| Structs.StrCpyName | mkfs/geefs.cpp:99 | `strcpy` of a NUL-free name into the entry buffer keeps its size and makes the printed name exactly that name |
| LittleEndian.DecodeEncodeU32 | mkfs/structs.h:17-23 | reading back the 4 little-endian bytes of a `u32` field gives the field |
| IoDevice.WriteThenRead | mkfs/iosdev.cpp:5-22 | a read at the offset of a write returns `min(size - offset, len)` bytes: the part of the buffer that fit, then the device's old bytes; at or past the end both return -1 |
| IoDevice.WriteSpec | mkfs/iosdev.cpp:14-22 | a write at or past the end returns -1 and changes nothing; otherwise it stores `min(size - offset, len)` bytes at `offset`, returns that count, and changes neither other bytes, nor the size, nor what lies beyond it |
| IoDevice.ResizeSpec | mkfs/iosdev.cpp:29-34 | `Resize(n)` makes the size `n` and writes a NUL at `n - 1`. Bytes below it are the stream's old contents, or zeros past them. It succeeds exactly when `n > 0` |
| IoDevice.ResizeThenRead | mkfs/iosdev.cpp:29-33 | after `Resize(n)` a read at any `offset < n` is in range and transfers `min(n - offset, len)` bytes |
| IoDevice.ReadExactSpec | mkfs/iosdev.cpp:5-12 | an all-or-nothing read succeeds exactly when the whole range lies on the device, and then yields those bytes |
| IoDevice.WriteExactSpec | mkfs/iosdev.cpp:14-22 | an all-or-nothing write succeeds exactly when the whole range lies on the device, and then patches exactly that range |
| IoDevice.ReadAfterWrite | mkfs/iosdev.cpp:14-22 | reading back a successful write yields what was written; reads of disjoint ranges see the old bytes |
| Bitmap.FindFreeBitSpec | mkfs/geefs.cpp:34-38 | the byte-then-bit scan, MSB first, fails exactly on a bitmap without clear bits, and otherwise stops at its first clear bit |
| Bitmap.FindFreeBitFirst | mkfs/geefs.cpp:34-36 | on a bitmap whose first clear bit is `p` the scan stops at byte `p / 8`, bit `7 - p % 8` |
| Bitmap.SetBitAtSpec | mkfs/geefs.cpp:38 | `buf[j] \|= (1 << k)` on a clear bit sets that bit only and lowers the clear count by one |
| Layout.PayloadSizeWraps | mkfs/geefs.cpp:30 | `block_size - sizeof(hdr)` is computed in `std::size_t` and wraps below 4 |
| Layout.GeometryFacts | mkfs/geefs.cpp:156-164 | on a geometry that passes the checks and fits 32-bit offsets: a block holds at least one inode, every free map governs `8 * (block_size - 4)` data blocks, and the whole image lies below 2^32 |
| Layout.BitBlockInData | mkfs/geefs.cpp:44-47 | each bit of each free map stands for a block of the data region, below the image's block count |
| Alloc.AllocDataBlockNone | mkfs/geefs.cpp:14-56 | under the free-map invariant the allocation never aborts, returns none exactly when every free-map header is 0, and then leaves the device unchanged |
| Alloc.AllocDataBlockFound | mkfs/geefs.cpp:14-56 | from the first map with a nonzero header, the allocation returns the block of that map's first clear bit. That block lies in the data region. Only that map's block changes: its header drops by one and that one bit is set. The free-map invariant holds after |
| Alloc.DataBlockNumberSpec | mkfs/geefs.cpp:44-47 | `1 + free_map_num + inode_blk_num + i*(block_size-4)*8 + j*8 + (7-k)` for bit `k` of byte `j` is the data block of bitmap bit `8j + 7 - k` |
| Alloc.AllocatedMap | mkfs/geefs.cpp:25-41 | after the header is decremented and the bit set, the map holds one clear bit fewer |
| Alloc.AllocINodeNone | mkfs/geefs.cpp:58-91 | under the inode-header invariant the allocation never aborts, returns none exactly when every inode-block header is 0, and then leaves the device unchanged |
| Alloc.AllocINodeFound | mkfs/geefs.cpp:58-91 | from the first inode block with a nonzero header, the allocation returns `i * in_per_blk + 68 * t` for that block's first Unused slot `t`. Only that block's header changes, dropping by one; no inode record is written. The header invariant holds after, and an exact header count no longer holds |
| Alloc.FindUnusedFirst | mkfs/geefs.cpp:79-85 | the slot scan, stepping by 68 bytes, stops at the byte offset of the first Unused slot |
| Alloc.INodeIdBound | mkfs/geefs.cpp:83-84 | the returned inode id fits a `std::uint32_t` on a valid geometry |
| Inodes.INodeOffsetSpec | mkfs/geefs.cpp:110-114 | an inode id lies at `(1 + free_map_num + id / ipb) * block_size + 4 + (id % ipb) * 68`, in inode block `id / ipb`, slot `id % ipb`, inside its block |
| Inodes.INodeInRegion | mkfs/geefs.cpp:110-114 | every valid id's 68 bytes lie inside the inode region, after the first inode block's header |
| Inodes.INodesDisjoint | mkfs/geefs.cpp:109-126 | distinct valid ids occupy disjoint 68-byte ranges |
| Inodes.ReadINodeSpec | mkfs/geefs.cpp:119-126 | reading a valid id yields the inode stored in its slot and changes nothing |
| Inodes.UpdateINodeSpec | mkfs/geefs.cpp:109-117 | updating a valid id writes the encoded inode into its slot and changes no other block |
| Inodes.ReadAfterUpdate | mkfs/geefs.cpp:109-126 | reading an id after updating it returns the inode written; reading any other id returns what it returned before |
| Inodes.InitDirBlockSpec | mkfs/geefs.cpp:93-107 | a new directory block starts with "." naming the current id and ".." naming the parent; the rest of that block and every other block are unchanged, whatever stale bytes the entry buffer held |
| Resolve.TierRoundTrip | mkfs/geefs.cpp:130-151 | an index has a direct, single-indirect or double-indirect position exactly when it is below `12 + K + K*K`, and that position maps back to the index |
| Resolve.IndexRoundTrip | mkfs/geefs.cpp:130-151 | every pointer position stands for exactly one index below `12 + K + K*K`, and that index maps back to the position |
| Resolve.GetBlockOffsetOutcome | mkfs/geefs.cpp:128-143 | past `block_num` there is no block; below 12 the direct pointer is returned; the run aborts exactly for an index below `block_num` that no tier reaches; the device never changes |
| Resolve.GetBlockOffsetSingle | mkfs/geefs.cpp:135-140 | an index of the single-indirect tier returns the number stored in its slot of the indirect block |
| Resolve.GetBlockOffsetDouble | mkfs/geefs.cpp:141-151 | an index of the double-indirect tier returns the number stored in slot `m % K` of the block named in slot `m / K` of the double-indirect block |
| Format.FormatBlockSpec | mkfs/geefs.cpp:176-181 | one pass of a formatting loop zeroes its block and writes its header, and changes no other block |
| Format.FormatBlocksSpec | mkfs/geefs.cpp:175-182 | a formatting loop succeeds on a sized image, makes every block it passes fresh and keeps every other block |
| Format.FormatLoopsSpec | mkfs/geefs.cpp:174-198 | the three loops succeed. Free maps count all their bits as clear, inode blocks count all their slots as Unused, and data blocks are zero. Blocks before the loops are kept |
| Format.FormattedHeaders | mkfs/geefs.cpp:175-191 | a formatted image satisfies both header invariants exactly, and both allocators will pick the first bit of the first map and the first slot of the first inode block |
| Image.CreateGuard | mkfs/geefs.cpp:156-160 | the three checks reject exactly the block sizes below 72, and a rejection leaves the object unchanged |
| Image.ResizeForImage | mkfs/geefs.cpp:162-164 | on a valid geometry the resize to `blk_num * block_size` succeeds and makes the device exactly the image's size |
| Image.FormatImageSpec | mkfs/geefs.cpp:169-198 | the superblock write and the three loops succeed and leave a formatted image |
| Image.MakeRootSpec | mkfs/geefs.cpp:200-205 | the root directory takes the first data block and inode 0, and the image is then `Created` |
| Image.CreateSpec | mkfs/geefs.cpp:154-208 | on a valid geometry `Create` succeeds. The object takes the new superblock and the root directory. The image holds: the superblock; a free map with only the root's bit set and its header `(block_size-4)*8 - 1`; inode 0 as a Dir of size 64 with one block, the first data block; the inode header `(block_size-4)/68 - 1`; "." and ".." naming inode 0; zeros elsewhere |
| Image.CreateNeverAborts | mkfs/geefs.cpp:154-208 | the corrected `Create` never aborts while the image fits 32-bit offsets, and succeeds exactly when block size ≥ 72, free_map_num ≥ 1 and inode_blk_num ≥ 1 |
| Image.CreateAsWrittenNoRoom | mkfs/geefs.cpp:200-201 | `Create` as written never succeeds without a free-map block or an inode block |
| Image.CreateAsWrittenAborts | mkfs/geefs.cpp:154-208 | `Create(128, 0, 1)` as written passes the checks and stops at `assert(blk_ofs && inode_id)`; the corrected `Create` returns false |
| Mount.OpenOutcome | mkfs/geefs.cpp:210-218 | `Open` never writes the device. It returns false on a device shorter than a superblock. It aborts exactly when the stored block size leaves no room for an inode (4 to 71), and a true result means the current directory is a Dir |
| Mount.OpenIgnoresMagic | mkfs/geefs.cpp:210-218 | whatever the magic number bytes hold, `Open` gives the same verdict, the same current directory and the same superblock apart from its magic field |
| Mount.RootINodePastMagic | mkfs/geefs.cpp:120-124 | inode 0 lies past the magic number |
| Mount.OpenImage | mkfs/geefs.cpp:210-218 | on an image leading with its own superblock `Open` takes that superblock, and as current directory the inode in the first slot, returning whether it is a Dir |
| Mount.OpenAfterCreate | mkfs/geefs.cpp:210-218 | `Open` on the image `Create` leaves succeeds and finds the superblock and the root directory `Create` wrote |
| Mount.EntryCountCases | mkfs/geefs.cpp:226-235 | block `i` visits the entries left, at most a block's worth; past the last entry the `std::size_t` subtraction wraps and a whole block is visited |
| Mount.ListEntriesSpec | mkfs/geefs.cpp:236-244 | reading a directory block's entries one by one yields the names stored there, in order, and changes nothing |
| Mount.ListBlocksLength | mkfs/geefs.cpp:229-245 | a completed listing has one name per visited entry and leaves the object unchanged |
| Mount.ListCount | mkfs/geefs.cpp:224-246 | for a directory whose entries fill its blocks in order, `List` prints exactly `size / 32` names |
| Mount.ListBlocksDirect | mkfs/geefs.cpp:229-245 | listing a directory held in direct blocks prints the names stored in its blocks, block by block and entry by entry |
| Mount.ListDirect | mkfs/geefs.cpp:224-246 | `List` of a Dir held in direct blocks prints its stored names; any other current directory stops at the `assert` |
| Mount.ListAfterCreate | mkfs/geefs.cpp:224-246 | after `Create`, `List` prints exactly "." and ".." |
| Mount.StubsFail | mkfs/geefs.cpp:248-278 | `CreateFile`, `MakeDir`, `ChangeDir` and `Remove` return false; `Read` and `Write` return 0. None of them changes the object or moves data |
| Paths.LastSlash | mkfs/main.cpp:57 | `find_last_of('/')`: none exactly when there is no '/'; otherwise a '/' with none after it |
| Paths.GetFileName | mkfs/main.cpp:56-60 | the result is a suffix of the path without '/'. It is the whole path when the path has no '/', and otherwise is preceded by a '/' |
| Paths.GetFileNameUnique | mkfs/main.cpp:56-60 | any suffix without '/' that is the whole path or follows a '/' is the result |
| Paths.TrailingSlash | mkfs/main.cpp:59 | a path ending in '/' yields the empty name |
| Paths.GetFileNameIdempotent | mkfs/main.cpp:56-60 | taking the name of a name changes nothing |
| Uart.GetWordSpec | utils/uart.py:16-21 | a word is 4 bytes and byte `i` is `(num >> 8i) & 0xff`. The word depends on `num mod 2^32` only, and reads back little-endian as that value. For a `u32` it is the mkfs encoding |
| Uart.GetWordValue | utils/uart.py:16-21 | reading a word back little-endian gives `num mod 2^32` |
| Uart.MakePacketSpec | utils/uart.py:24-33 | a packet is the magic, offset and size words, then `ceil(size/4)` pieces of at most 4 bytes, all of 4 bytes but the last, which together are the file |
| Uart.PacketBytesShape | utils/uart.py:24-33 | the packet's bytes are the three header words followed by the file |
| Uart.ParseMakePacket | utils/uart.py:24-33 | a file below 4 GiB is recovered from its packet, with the offset modulo 2^32 |
| Uart.MakeParsePacket | utils/uart.py:24-33 | every stream the receiver accepts is the packet of what it reads |
| Coe.DigitRoundTrip | utils/bin2coe.py:18 | each digit value is rendered as a lower-case hex digit that reads back as the value |
| Coe.HexDigitsFixed | utils/bin2coe.py:18 | `hex(x)[2:]` is the rendering of `x` at its own width, the least width that holds `x` |
| Coe.ZFillFixed | utils/bin2coe.py:18 | zero-filling `hex(x)[2:]` to a width that holds `x` is the fixed-width rendering |
| Coe.WordHexSpec | utils/bin2coe.py:17-18 | every 32-bit word renders as exactly 8 lower-case hex digits that read back as the word |
| Coe.ReadBinSpec | utils/bin2coe.py:10-19 | `read_bin` yields `ceil(n/4)` words of 8 digits; word `i` is bytes `4i..4i+3` (fewer at the end) read little-endian |
| Coe.ReadBinRoundTrip | utils/bin2coe.py:14-18 | for a file of whole words, parsing each word and writing it little-endian restores the file |
| Coe.ReadBinLines | utils/bin2coe.py:18 | no word holds a newline |
| Coe.JoinLines | utils/bin2coe.py:26 | `'\n'.join(xs) + '\n'` is every line followed by its newline |
| Coe.MakeCoeSpec | utils/bin2coe.py:22-27 | the file is the radix line, the vector line, 128 lines "00000000", then one line per word in order, each ending in a newline |
| Coe.MakeCoeLineCount | utils/bin2coe.py:25-26 | for words without newlines the vector has `128 + len(words)` lines |

## Left out

- `Sync` (mkfs/geefs.cpp:207, mkfs/geefs.cpp:220-222, mkfs/iosdev.cpp:24-27) is stream flushing; it is taken to succeed, so `Create` returns true after the root directory.
- C `assert`s are taken to be enabled (a build without `NDEBUG`): each one stops the run with an `Abort`. With `NDEBUG` the `assert(false)` of the scans (mkfs/geefs.cpp:52, mkfs/geefs.cpp:87) would fall through to the next block, failed `ReadAssert`/`WriteAssert` calls would go unnoticed, and mkfs/geefs.cpp:203 would dereference an empty optional; none of that is modelled.
- Structs.CString: a 28-byte name with no NUL is modelled as printed whole. `os << entry.filename` (mkfs/geefs.cpp:243) then reads past the array, which is undefined behaviour; what it prints after the 28 bytes is not modelled.
- iostream failure states: the device fails only where its bounds say so. A read that fails after a partial copy is modelled as leaving the destination unchanged.
- `DeviceBase`'s `ReadAssert` and `WriteAssert` are not part of this model. They are modelled as a transfer whose count equals the requested length (`IoDevice.ReadExact`, `IoDevice.WriteExact`). mkfs/device.h declares a different interface, and mkfs/geefs.h contributes only the object's fields (`Image.GeeFs`).
- `List` formatting: the model returns the printed names; stream output is a sequence of names. Names printed before a run stops at an `assert` are not part of an `Abort`.
- Mount.ListCount: the entry count is proved only for directories whose entries fill their blocks in order, the layout `Create` and `InitDirBlock` produce.
- Mount.ListBlocksDirect: the printed names are proved only for directories held in direct blocks. A listing through indirect blocks is covered by Mount.ListBlocksLength and the Resolve lemmas.
- Image.CreateSpec: proved for geometries whose image fits 32-bit device offsets. For larger ones the model computes the same wrapped `blk_num * block_size` the code computes, but no lemma describes the result.
- Image.CreateNeverAborts: the same 32-bit bound as Image.CreateSpec.
- Alloc.AllocDataBlockFound: the `int` loop counters of the scan are taken not to overflow, which holds on every image below 4 GiB.
- Alloc.AllocINodeFound: the same bound on the `int` loop counters.
- The unimplemented operations are modelled only as the failing stubs they are.
- The rest of mkfs/main.cpp (argument loop, interactive mode, `GetInteger`, `GetStreamSize`) is command-line and stream glue.
- usr/lib/sync/slimpl.c is a spinlock; its point is concurrency.
- Serial I/O in utils/uart.py (`send_uart`, `read_uart`, port listing, `eval` of the offset argument) and file reading and writing in both scripts: file contents are given as a byte sequence, the offset as an integer.
- `Uart.ParsePacket` is a reference receiver, written to state the round trip; the board-side loader is not part of this model.

## Findings

| source | as written | input that shows it | evidently intended | confidence | as-written member | corrected member |
|---|---|---|---|---|---|---|
| mkfs/geefs.cpp:156-160 | the checks reject only bad block sizes; with `free_map_num == 0` or `inode_blk_num == 0` the image is written and then the root allocation fails at `assert(blk_ofs && inode_id)` (mkfs/geefs.cpp:200-201) | `Create(128, 0, 1)` | such a geometry is rejected with `false` before the device is touched | not executed | Image.CreateAsWritten, Image.CreateAsWrittenAborts | Image.Create, Image.CreateNeverAborts |
