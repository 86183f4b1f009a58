/** Byte sequences as device contents: zero runs, in-place overwrites,
    the block view of an image, and fixed-size chunking. */
module ByteSeq {
  import opened Machine

  function Zeros(n: nat): (r: seq<byte>)
    ensures |r| == n
    ensures forall i :: 0 <= i < n ==> r[i] == 0
  {
    seq(n, _ => 0)
  }

  /** `s` with `buf` copied over it from position `off` on. */
  function Patch(s: seq<byte>, off: nat, buf: seq<byte>): (r: seq<byte>)
    requires off + |buf| <= |s|
    ensures |r| == |s|
  {
    s[..off] + buf + s[off + |buf|..]
  }

  /** Each byte of a patched sequence comes from `buf` inside the patched
      range and from `s` outside it. */
  lemma PatchAt(s: seq<byte>, off: nat, buf: seq<byte>)
    requires off + |buf| <= |s|
    ensures forall a :: 0 <= a < |s| ==>
              Patch(s, off, buf)[a] == if off <= a < off + |buf| then buf[a - off] else s[a]
  {
  }

  lemma PatchReadBack(s: seq<byte>, off: nat, buf: seq<byte>)
    requires off + |buf| <= |s|
    ensures Patch(s, off, buf)[off..off + |buf|] == buf
  {
    PatchAt(s, off, buf);
  }

  /** A slice that does not meet the overwritten range is unchanged. */
  lemma PatchOutside(s: seq<byte>, off: nat, buf: seq<byte>, x: nat, y: nat)
    requires off + |buf| <= |s| && x <= y <= |s|
    requires y <= off || off + |buf| <= x
    ensures Patch(s, off, buf)[x..y] == s[x..y]
  {
    var r := Patch(s, off, buf);
    PatchAt(s, off, buf);
    assert forall a :: 0 <= a < y - x ==> r[x..y][a] == r[x + a] == s[x + a];
  }

  /** A slice that covers the overwritten range sees the same overwrite. */
  lemma PatchInside(s: seq<byte>, off: nat, buf: seq<byte>, x: nat, y: nat)
    requires x <= off && off + |buf| <= y <= |s|
    ensures Patch(s, off, buf)[x..y] == Patch(s[x..y], off - x, buf)
  {
    var r := Patch(s, off, buf);
    var t := Patch(s[x..y], off - x, buf);
    PatchAt(s, off, buf);
    PatchAt(s[x..y], off - x, buf);
    assert forall a :: 0 <= a < y - x ==> r[x..y][a] == r[x + a] == t[a];
  }

  lemma PatchAppend(a: seq<byte>, b: seq<byte>, x: nat, buf: seq<byte>)
    requires x + |buf| <= |b|
    ensures Patch(a + b, |a| + x, buf) == a + Patch(b, x, buf)
  {
    var r := Patch(a + b, |a| + x, buf);
    var t := a + Patch(b, x, buf);
    PatchAt(a + b, |a| + x, buf);
    PatchAt(b, x, buf);
    assert forall i :: 0 <= i < |r| ==> r[i] == t[i];
  }

  lemma PatchFront(s: seq<byte>, buf: seq<byte>)
    requires |buf| <= |s|
    ensures Patch(s, 0, buf) == buf + s[|buf|..]
    ensures Patch(s, 0, buf)[..|buf|] == buf
    ensures Patch(s, 0, buf)[|buf|..] == s[|buf|..]
  {
  }

  /** Block `b` of an image whose blocks are `bs` bytes long. */
  function Blk(s: seq<byte>, bs: nat, b: nat): (r: seq<byte>)
    requires Mul(b, bs) + bs <= |s|
    ensures |r| == bs
  {
    s[Mul(b, bs) .. Mul(b, bs) + bs]
  }

  lemma BlkSlice(s: seq<byte>, bs: nat, b: nat, x: nat, len: nat)
    requires Mul(b, bs) + bs <= |s| && x + len <= bs
    ensures s[Mul(b, bs) + x .. Mul(b, bs) + x + len] == Blk(s, bs, b)[x..x + len]
  {
  }

  /** Overwriting bytes inside block `b`, at offset `off` of the image,
      changes block `b` only. */
  lemma PatchBlock(s: seq<byte>, bs: nat, b: nat, x: nat, buf: seq<byte>, off: nat)
    requires Mul(b, bs) + bs <= |s| && x + |buf| <= bs && off == Mul(b, bs) + x
    ensures Blk(Patch(s, off, buf), bs, b) == Patch(Blk(s, bs, b), x, buf)
    ensures forall c: nat :: Mul(c, bs) + bs <= |s| && c != b ==>
              Blk(Patch(s, off, buf), bs, c) == Blk(s, bs, c)
  {
    PatchInside(s, off, buf, Mul(b, bs), Mul(b, bs) + bs);
    forall c: nat | Mul(c, bs) + bs <= |s| && c != b
      ensures Blk(Patch(s, off, buf), bs, c) == Blk(s, bs, c)
    {
      PatchOtherBlock(s, bs, b, x, buf, off, c);
    }
  }

  lemma PatchOtherBlock(s: seq<byte>, bs: nat, b: nat, x: nat, buf: seq<byte>, off: nat, c: nat)
    requires Mul(b, bs) + bs <= |s| && x + |buf| <= bs && off == Mul(b, bs) + x
    requires Mul(c, bs) + bs <= |s| && c != b
    ensures Blk(Patch(s, off, buf), bs, c) == Blk(s, bs, c)
  {
    if c < b {
      MulStrict(c, b, bs);
    } else {
      MulStrict(b, c, bs);
    }
    PatchOutside(s, off, buf, Mul(c, bs), Mul(c, bs) + bs);
  }

  /** `s` cut into consecutive pieces of four elements, the last one possibly
      shorter: what repeated `f.read(4)` calls return. */
  function Chunks4<T>(s: seq<T>): (r: seq<seq<T>>)
    ensures |r| == (|s| + 3) / 4
    ensures forall i :: 0 <= i < |r| ==> 0 < |r[i]| <= 4
    ensures forall i :: 0 <= i < |r| - 1 ==> |r[i]| == 4
    decreases |s|
  {
    if s == [] then []
    else
      var k := Min(4, |s|);
      [s[..k]] + Chunks4(s[k..])
  }

  function Flatten<T>(xs: seq<seq<T>>): seq<T>
  {
    if xs == [] then [] else xs[0] + Flatten(xs[1..])
  }

  lemma FlattenAppend<T>(xs: seq<seq<T>>, ys: seq<seq<T>>)
    ensures Flatten(xs + ys) == Flatten(xs) + Flatten(ys)
  {
    if xs == [] {
      assert xs + ys == ys;
    } else {
      assert (xs + ys)[1..] == xs[1..] + ys;
      FlattenAppend(xs[1..], ys);
    }
  }

  /** Chunking loses and reorders nothing. */
  lemma {:induction false} FlattenChunks4<T>(s: seq<T>)
    ensures Flatten(Chunks4(s)) == s
    decreases |s|
  {
    if s != [] {
      var k := Min(4, |s|);
      FlattenChunks4(s[k..]);
      assert s[..k] + s[k..] == s;
    }
  }
}
