/** The block device under GeeFS: `IOStreamDevice` (mkfs/iosdev.cpp), a
    byte store with bounds-checked, clamped reads and writes. The functions
    carry no postconditions of their own; what they compute is stated by the
    `...Spec` lemmas next to them, so that proofs about the layers above see
    only the facts they ask for. */
module IoDevice {
  import opened Machine
  import opened ByteSeq

  /** `data` is the part of the underlying stream the device exposes (its
      length is `size_`); `tail` is whatever the stream holds beyond it, which
      only a later `Resize` can bring back into view. */
  datatype Device = Device(data: seq<byte>, tail: seq<byte>)

  /** What a device call returns (`std::int32_t`) and the bytes it moved. */
  datatype Transfer = Transfer(ret: int, bytes: seq<byte>)

  /** `IOStreamDevice::Read(buf, len, offset)`. */
  function Read(d: Device, len: nat, offset: nat): Transfer
  {
    if offset >= |d.data| then Transfer(-1, [])
    else
      var n := Min(|d.data| - offset, len);
      Transfer(Int32(n), d.data[offset..offset + n])
  }

  /** A read at or past the end fails with -1; otherwise it returns the
      bytes from `offset` on, cut at the end of the device. */
  lemma ReadSpec(d: Device, len: nat, offset: nat)
    ensures offset >= |d.data| ==> Read(d, len, offset) == Transfer(-1, [])
    ensures offset < |d.data| ==>
              var t := Read(d, len, offset);
              && |t.bytes| == Min(|d.data| - offset, len)
              && t.bytes == d.data[offset..offset + |t.bytes|]
              && t.ret == Int32(|t.bytes|)
  {
  }

  /** `IOStreamDevice::Write(buf, len, offset)` with `len == |buf|`. */
  function Write(d: Device, buf: seq<byte>, offset: nat): (Device, int)
  {
    if offset >= |d.data| then (d, -1)
    else
      var n := Min(|d.data| - offset, |buf|);
      (Device(Patch(d.data, offset, buf[..n]), d.tail), Int32(n))
  }

  /** A write never changes the size of the device; at or past the end it
      fails with -1, otherwise it lands the part of `buf` that fits and
      leaves every other byte alone. */
  lemma WriteSpec(d: Device, buf: seq<byte>, offset: nat)
    ensures var r := Write(d, buf, offset);
      |r.0.data| == |d.data| && r.0.tail == d.tail
    ensures offset >= |d.data| ==> Write(d, buf, offset) == (d, -1)
    ensures offset < |d.data| ==>
              var r := Write(d, buf, offset);
              var n := Min(|d.data| - offset, |buf|);
              && r.1 == Int32(n)
              && r.0.data[offset..offset + n] == buf[..n]
              && r.0.data[..offset] == d.data[..offset]
              && r.0.data[offset + n..] == d.data[offset + n..]
  {
    if offset < |d.data| {
      var n := Min(|d.data| - offset, |buf|);
      PatchReadBack(d.data, offset, buf[..n]);
      PatchOutside(d.data, offset, buf[..n], 0, offset);
      PatchOutside(d.data, offset, buf[..n], offset + n, |d.data|);
    }
  }

  /** Reading back at the offset of a write: the part of `buf` that fit is
      seen, and past it the device's old bytes, up to the end of the device
      or of the read. At or past the end both calls fail. */
  lemma WriteThenRead(d: Device, buf: seq<byte>, offset: nat, len: nat)
    ensures offset >= |d.data| ==> Read(Write(d, buf, offset).0, len, offset) == Transfer(-1, [])
    ensures offset < |d.data| ==>
              var t := Read(Write(d, buf, offset).0, len, offset);
              var n, m := Min(|d.data| - offset, |buf|), Min(|d.data| - offset, len);
              && t.ret == Int32(m) && |t.bytes| == m
              && t.bytes[..Min(n, m)] == buf[..Min(n, m)]
              && (n < m ==> t.bytes[n..] == d.data[offset + n..offset + m])
  {
    WriteSpec(d, buf, offset);
    if offset < |d.data| {
      var d1 := Write(d, buf, offset).0;
      var n, m := Min(|d.data| - offset, |buf|), Min(|d.data| - offset, len);
      var t := Read(d1, len, offset);
      assert t.bytes == d1.data[offset..offset + m];
      var k := Min(n, m);
      assert t.bytes[..k] == d1.data[offset..offset + n][..k];
      if n < m {
        assert t.bytes[n..] == d1.data[offset + n..][..m - n];
      }
    }
  }

  /** `IOStreamDevice::Resize(size)`: seek to `size - 1`, write one NUL and
      take `size` as the new device size. Seeking to `size - 1` fails for
      `size == 0` (the result is `false`, the size still becomes 0); otherwise
      the stream keeps its first `size - 1` bytes and grows with zeros. */
  function Resize(d: Device, size: nat): (Device, bool)
  {
    var all := d.data + d.tail;
    if size == 0 then (Device([], all), false)
    else if size <= |all| then (Device(all[..size - 1] + [0], all[size..]), true)
    else (Device(all + Zeros(size - 1 - |all|) + [0], []), true)
  }

  /** After a resize the device has the requested size; it ends in a NUL,
      keeps the stream's bytes before that, and reads zeros where the stream
      was shorter. */
  lemma ResizeSpec(d: Device, size: nat)
    ensures var r := Resize(d, size);
      && |r.0.data| == size
      && (r.1 <==> size > 0)
      && (size == 0 ==> r.0.tail == d.data + d.tail)
      && (size > 0 ==> r.0.data[size - 1] == 0)
      && (forall i :: 0 <= i < size - 1 ==>
            r.0.data[i] == if i < |d.data + d.tail| then (d.data + d.tail)[i] else 0)
      && (size > 0 ==> r.0.tail == if size <= |d.data + d.tail| then (d.data + d.tail)[size..] else [])
  {
  }

  /** After `Resize(n)` every offset below `n` is readable. */
  lemma ResizeThenRead(d: Device, size: nat, len: nat, offset: nat)
    requires offset < size
    ensures Read(Resize(d, size).0, len, offset).ret == Int32(Min(size - offset, len))
  {
    ResizeSpec(d, size);
  }

  /** `ReadAssert`: a read that has to move exactly `len` bytes. `DeviceBase`
      is not part of this model; it is taken to succeed exactly when the
      device reports a transfer of the full length. */
  function ReadExact(d: Device, len: nat, offset: nat): Option<seq<byte>>
  {
    var t := Read(d, len, offset);
    if t.ret == len then Some(t.bytes) else None
  }

  /** A full-length read succeeds exactly when the range lies on the device
      and its length fits the `std::int32_t` result, and returns that range. */
  lemma ReadExactSpec(d: Device, len: nat, offset: nat)
    ensures ReadExact(d, len, offset).Some? <==>
              offset < |d.data| && offset + len <= |d.data| && len < 0x8000_0000
    ensures ReadExact(d, len, offset).Some? ==>
              ReadExact(d, len, offset).value == d.data[offset..offset + len]
  {
    ReadSpec(d, len, offset);
  }

  /** `WriteAssert`, the write counterpart of `ReadExact`. A clamped write
      still lands on the device, only the result is `false`. */
  function WriteExact(d: Device, buf: seq<byte>, offset: nat): (Device, bool)
  {
    var (d', ret) := Write(d, buf, offset);
    (d', ret == |buf|)
  }

  /** A full-length write succeeds exactly when the range lies on the device
      and its length fits the result, and then patches `buf` in. */
  lemma WriteExactSpec(d: Device, buf: seq<byte>, offset: nat)
    ensures WriteExact(d, buf, offset).1 <==>
              offset < |d.data| && offset + |buf| <= |d.data| && |buf| < 0x8000_0000
    ensures WriteExact(d, buf, offset).1 ==>
              WriteExact(d, buf, offset).0 == Device(Patch(d.data, offset, buf), d.tail)
  {
    WriteSpec(d, buf, offset);
    if offset < |d.data| && offset + |buf| <= |d.data| {
      assert buf[..|buf|] == buf;
    }
  }

  /** Reading back a successful write returns what was written; a read of a
      range the write did not touch returns what was there before. */
  lemma ReadAfterWrite(d: Device, buf: seq<byte>, offset: nat, len: nat, offset2: nat)
    requires WriteExact(d, buf, offset).1
    ensures ReadExact(WriteExact(d, buf, offset).0, |buf|, offset) == Some(buf)
    ensures offset2 + len <= offset || offset + |buf| <= offset2 ==>
              ReadExact(WriteExact(d, buf, offset).0, len, offset2) == ReadExact(d, len, offset2)
  {
    WriteExactSpec(d, buf, offset);
    var d' := WriteExact(d, buf, offset).0;
    ReadExactSpec(d', |buf|, offset);
    ReadExactSpec(d', len, offset2);
    ReadExactSpec(d, len, offset2);
    PatchReadBack(d.data, offset, buf);
    if (offset2 + len <= offset || offset + |buf| <= offset2) && offset2 + len <= |d.data| {
      PatchOutside(d.data, offset, buf, offset2, offset2 + len);
    }
  }
}
