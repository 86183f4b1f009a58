/** `GeeFS::GetBlockOffset`: the block that holds the `n`-th data block of a
    file, found through twelve direct pointers, one single-indirect block and
    one double-indirect block, each indirect block an array of `u32` block
    numbers. */
module Resolve {
  import opened Machine
  import opened LittleEndian
  import opened Structs
  import opened IoDevice
  import opened Layout

  /** Block numbers one indirect block holds, `block_size / kBlockOfsSize`. */
  function PointersPerBlock(sb: SuperBlockHeader): nat
  {
    sb.blockSize / kBlockOfsSize
  }

  /** The `u32` at device offset `off`, or `None` when the read fails. */
  function ReadPointer(d: Device, off: nat): Option<u32>
  {
    match ReadExact(d, kBlockOfsSize, off)
    case None => None
    case Some(b) => Some(DecodeU32(b))
  }

  /** `GetBlockOffset(inode, n)`. Past `block_num` there is no block; the
      first twelve are direct; the next `K` are slots of the indirect block;
      the next `K * K` go through a slot of the double-indirect block and
      then a slot of the block it names. A failed read gives `None`, an index
      beyond double-indirect reach stops the run at its `assert`. Every
      `block * block_size` and every sum after it is a `std::uint32_t`, so
      each wraps. */
  function GetBlockOffset(d: Device, sb: SuperBlockHeader, n: INode, k: nat): Run<Device, Option<u32>>
    requires ValidINode(n)
  {
    var pb := PointersPerBlock(sb);
    var bs := sb.blockSize;
    if k >= n.blockNum then Ok(d, None)
    else if k < kDirectBlockNum then Ok(d, Some(n.direct[k]))
    else if k - kDirectBlockNum < pb then
      var off := U32(U32(Mul(n.indirect, bs)) + (k - kDirectBlockNum) * kBlockOfsSize);
      Ok(d, ReadPointer(d, off))
    else
      var m := k - (kDirectBlockNum + pb);
      if m >= Mul(pb, pb) then Abort(IndirectRange)
      else
        var outer := ReadPointer(d, U32(U32(Mul(n.indirect2, bs)) + (m / pb) * kBlockOfsSize));
        Ok(d, ReadInner(d, bs, outer, m % pb))
  }

  /** The second read of the double-indirect lookup: slot `i` of the block
      the outer slot names, or `None` when the outer read failed. */
  function ReadInner(d: Device, bs: nat, outer: Option<u32>, i: nat): Option<u32>
  {
    match outer
    case None => None
    case Some(p) => ReadPointer(d, U32(U32(Mul(p, bs)) + i * kBlockOfsSize))
  }

  // ------------------------------------------------ the tiers of an index

  /** Where the `n`-th block pointer of a file lives. */
  datatype Tier =
    | Direct(slot: nat)                // `direct[slot]`
    | Single(slot: nat)                // slot of the indirect block
    | Double(outer: nat, inner: nat)   // slot `inner` of the block named in slot `outer`
    | Beyond                           // out of reach

  /** The tier of index `k` with `pb` pointers per block. */
  function TierOf(pb: nat, k: nat): Tier
  {
    if k < kDirectBlockNum then Direct(k)
    else if k - kDirectBlockNum < pb then Single(k - kDirectBlockNum)
    else
      var m := k - kDirectBlockNum - pb;
      if m < Mul(pb, pb) then Double(m / pb, m % pb) else Beyond
  }

  /** The pointer positions that exist with `pb` pointers per block. */
  ghost predicate TierOk(pb: nat, t: Tier)
  {
    match t
    case Direct(s) => s < kDirectBlockNum
    case Single(s) => s < pb
    case Double(o, i) => o < pb && i < pb
    case Beyond => false
  }

  /** The index a pointer position stands for: direct pointers first, then
      the indirect block's slots, then the double-indirect ones in order. */
  function IndexOf(pb: nat, t: Tier): nat
    requires TierOk(pb, t)
  {
    match t
    case Direct(s) => s
    case Single(s) => kDirectBlockNum + s
    case Double(o, i) => kDirectBlockNum + pb + Mul(o, pb) + i
  }

  /** Highest number of blocks a file can reach. */
  function MaxBlocks(pb: nat): nat
  {
    kDirectBlockNum + pb + Mul(pb, pb)
  }

  /** Every index below `MaxBlocks` has exactly one position, and every
      position exactly one index: `TierOf` and `IndexOf` are inverse. */
  lemma {:induction false} TierRoundTrip(pb: nat, k: nat)
    ensures TierOf(pb, k) != Beyond <==> k < MaxBlocks(pb)
    ensures k < MaxBlocks(pb) ==> TierOk(pb, TierOf(pb, k)) && IndexOf(pb, TierOf(pb, k)) == k
  {
    if k >= kDirectBlockNum + pb {
      var m := k - kDirectBlockNum - pb;
      if m < Mul(pb, pb) {
        DoubleSplit(pb, m);
      }
    }
  }

  /** An offset into the double-indirect tier splits into an outer slot
      and an inner slot, both in range. */
  lemma {:induction false} DoubleSplit(pb: nat, m: nat)
    requires m < Mul(pb, pb)
    ensures pb > 0 && m / pb < pb && m % pb < pb
    ensures Mul(m / pb, pb) + m % pb == m
  {
    assert pb > 0;
    MulIsProduct(m / pb, pb);
    MulIsProduct(pb, pb);
    if m / pb >= pb {
      MulMono(pb, m / pb, pb);
    }
  }

  lemma {:induction false} IndexRoundTrip(pb: nat, t: Tier)
    requires TierOk(pb, t)
    ensures IndexOf(pb, t) < MaxBlocks(pb)
    ensures TierOf(pb, IndexOf(pb, t)) == t
  {
    if t.Double? {
      MulStrict(t.outer, pb, pb);
      MulIsProduct(t.outer, pb);
      DivModUnique(Mul(t.outer, pb) + t.inner, pb, t.outer, t.inner);
    }
  }

  // ------------------------------------------- resolution on an image

  /** The block number stored in slot `slot` of block `b` of an image. */
  function PointerIn(s: seq<byte>, sb: SuperBlockHeader, b: nat, slot: nat): u32
    requires Sized(s, sb) && b < TotalBlocks(sb) && slot < PointersPerBlock(sb)
  {
    DecodeU32(Block(s, sb, b)[slot * kBlockOfsSize..slot * kBlockOfsSize + kBlockOfsSize])
  }

  /** Reading a slot of a block of the image yields the number stored there;
      the offset arithmetic does not wrap. */
  lemma {:induction false} PointerRead(d: Device, sb: SuperBlockHeader, b: nat, slot: nat)
    requires Sized(d.data, sb) && b < TotalBlocks(sb) && slot < PointersPerBlock(sb)
    ensures ReadPointer(d, U32(U32(Mul(b, sb.blockSize)) + slot * kBlockOfsSize))
              == Some(PointerIn(d.data, sb, b, slot))
  {
    BlockOffset(sb, b);
    BlockInImage(sb, b);
    var x := slot * kBlockOfsSize;
    ReadInBlock(d, sb, b, x, kBlockOfsSize, Mul(b, sb.blockSize) + x);
  }

  /** Past the file's block count there is no block; the direct pointers
      are returned as stored; the run aborts exactly for an index within the
      block count that no tier reaches; the device is never changed. */
  lemma {:induction false} GetBlockOffsetOutcome(d: Device, sb: SuperBlockHeader, n: INode, k: nat)
    requires ValidINode(n)
    ensures GetBlockOffset(d, sb, n, k).Ok? ==> GetBlockOffset(d, sb, n, k).state == d
    ensures k >= n.blockNum ==> GetBlockOffset(d, sb, n, k) == Ok(d, None)
    ensures k < n.blockNum && k < kDirectBlockNum ==> GetBlockOffset(d, sb, n, k) == Ok(d, Some(n.direct[k]))
    ensures GetBlockOffset(d, sb, n, k).Abort? <==> MaxBlocks(PointersPerBlock(sb)) <= k < n.blockNum
    ensures GetBlockOffset(d, sb, n, k).Abort? ==> GetBlockOffset(d, sb, n, k).fault == IndirectRange
  {
    TierRoundTrip(PointersPerBlock(sb), k);
  }

  /** An index of the single-indirect tier returns the number stored in its
      slot of the indirect block. */
  lemma {:induction false} GetBlockOffsetSingle(d: Device, sb: SuperBlockHeader, n: INode, s: nat)
    requires Sized(d.data, sb) && ValidINode(n) && s < PointersPerBlock(sb)
    requires IndexOf(PointersPerBlock(sb), Single(s)) < n.blockNum && n.indirect < TotalBlocks(sb)
    ensures GetBlockOffset(d, sb, n, IndexOf(PointersPerBlock(sb), Single(s)))
              == Ok(d, Some(PointerIn(d.data, sb, n.indirect, s)))
  {
    PointerRead(d, sb, n.indirect, s);
  }

  /** An index of the double-indirect tier returns the number stored in
      slot `i` of the block named in slot `o` of the double-indirect block. */
  lemma {:induction false} GetBlockOffsetDouble(d: Device, sb: SuperBlockHeader, n: INode, o: nat, i: nat)
    requires Sized(d.data, sb) && ValidINode(n) && o < PointersPerBlock(sb) && i < PointersPerBlock(sb)
    requires IndexOf(PointersPerBlock(sb), Double(o, i)) < n.blockNum && n.indirect2 < TotalBlocks(sb)
    requires PointerIn(d.data, sb, n.indirect2, o) < TotalBlocks(sb)
    ensures GetBlockOffset(d, sb, n, IndexOf(PointersPerBlock(sb), Double(o, i)))
              == Ok(d, Some(PointerIn(d.data, sb, PointerIn(d.data, sb, n.indirect2, o), i)))
  {
    var p := PointerIn(d.data, sb, n.indirect2, o);
    PointerRead(d, sb, n.indirect2, o);
    PointerRead(d, sb, p, i);
    DoubleChain(d, sb, n, o, i, p, PointerIn(d.data, sb, p, i));
  }

  /** The double-indirect lookup once both of its reads are known. */
  lemma {:induction false} DoubleChain(d: Device, sb: SuperBlockHeader, n: INode, o: nat, i: nat, p: u32, q: u32)
    requires ValidINode(n) && o < PointersPerBlock(sb) && i < PointersPerBlock(sb)
    requires IndexOf(PointersPerBlock(sb), Double(o, i)) < n.blockNum
    requires ReadPointer(d, U32(U32(Mul(n.indirect2, sb.blockSize)) + o * kBlockOfsSize)) == Some(p)
    requires ReadPointer(d, U32(U32(Mul(p, sb.blockSize)) + i * kBlockOfsSize)) == Some(q)
    ensures GetBlockOffset(d, sb, n, IndexOf(PointersPerBlock(sb), Double(o, i))) == Ok(d, Some(q))
  {
    DoubleBranch(d, sb, n, o, i);
  }

  /** The index of a double-indirect position, less the direct and
      single-indirect ones, splits back into that position. */
  lemma {:induction false} DoubleIndex(pb: nat, o: nat, i: nat)
    requires o < pb && i < pb
    ensures kDirectBlockNum + pb <= IndexOf(pb, Double(o, i))
    ensures var m := IndexOf(pb, Double(o, i)) - (kDirectBlockNum + pb);
      m < Mul(pb, pb) && m / pb == o && m % pb == i
  {
    MulStrict(o, pb, pb);
    MulIsProduct(o, pb);
    DivModUnique(Mul(o, pb) + i, pb, o, i);
  }

  /** An index of the double-indirect tier takes the double-indirect
      branch of `GetBlockOffset`. */
  lemma {:induction false} DoubleBranch(d: Device, sb: SuperBlockHeader, n: INode, o: nat, i: nat)
    requires ValidINode(n) && o < PointersPerBlock(sb) && i < PointersPerBlock(sb)
    requires IndexOf(PointersPerBlock(sb), Double(o, i)) < n.blockNum
    ensures GetBlockOffset(d, sb, n, IndexOf(PointersPerBlock(sb), Double(o, i)))
              == Ok(d, ReadInner(d, sb.blockSize, ReadPointer(d, U32(U32(Mul(n.indirect2, sb.blockSize)) + o * kBlockOfsSize)), i))
  {
    DoubleIndex(PointersPerBlock(sb), o, i);
  }
}
