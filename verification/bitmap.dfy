/** The free-map bitmap: one bit per data block, set when the block is
    allocated, numbered most-significant bit first within each byte. */
module Bitmap {
  import opened Machine

  function Pow2(k: nat): (r: nat)
    ensures r > 0
  {
    if k == 0 then 1 else 2 * Pow2(k - 1)
  }

  /** Bit `k` of `b` (bit 0 is the least significant): `b & (1 << k)`. */
  function Bit(b: nat, k: nat): bool
  {
    if k == 0 then b % 2 == 1 else Bit(b / 2, k - 1)
  }

  /** `b | (1 << k)`. */
  function SetBit(b: nat, k: nat): nat
  {
    if k == 0 then (if b % 2 == 1 then b else b + 1)
    else 2 * SetBit(b / 2, k - 1) + b % 2
  }

  /** Or-ing in bit `k` sets bit `k` and leaves every other bit alone. */
  lemma {:induction false} SetBitBits(b: nat, k: nat, m: nat)
    ensures Bit(SetBit(b, k), m) == (m == k || Bit(b, m))
    decreases k
  {
    if k == 0 {
      if m > 0 {
        assert SetBit(b, k) / 2 == b / 2;
      }
    } else if m > 0 {
      SetBitBits(b / 2, k - 1, m - 1);
      assert SetBit(b, k) / 2 == SetBit(b / 2, k - 1);
    }
  }

  /** Or-ing in a bit that is clear adds its weight. */
  lemma {:induction false} SetBitAdds(b: nat, k: nat)
    requires !Bit(b, k)
    ensures SetBit(b, k) == b + Pow2(k)
    decreases k
  {
    if k > 0 {
      SetBitAdds(b / 2, k - 1);
    }
  }

  lemma {:induction false} SetBitBound(b: nat, k: nat, n: nat)
    requires b < Pow2(n) && k < n
    ensures SetBit(b, k) < Pow2(n)
    decreases k
  {
    var p := Pow2(n - 1);
    assert Pow2(n) == 2 * p;
    assert b / 2 < p;
    if k > 0 {
      SetBitBound(b / 2, k - 1, n - 1);
      var s := SetBit(b / 2, k - 1);
      assert SetBit(b, k) == 2 * s + b % 2;
    }
  }

  /** The number of clear bits among bits `0 .. n-1` of `b`. */
  function ZerosBelow(b: nat, n: nat): nat
  {
    if n == 0 then 0 else ZerosBelow(b, n - 1) + (if Bit(b, n - 1) then 0 else 1)
  }

  function ByteZeros(b: byte): nat
  {
    ZerosBelow(b, 8)
  }

  lemma {:induction false} SetBitZeros(b: nat, k: nat, n: nat)
    requires !Bit(b, k) && k < n
    ensures ZerosBelow(SetBit(b, k), n) == ZerosBelow(b, n) - 1
    ensures ZerosBelow(b, n) > 0
    decreases n
  {
    SetBitBits(b, k, n - 1);
    if k < n - 1 {
      SetBitZeros(b, k, n - 1);
    } else {
      UnchangedZeros(b, k, n - 1);
    }
  }

  lemma {:induction false} UnchangedZeros(b: nat, k: nat, n: nat)
    requires n <= k
    ensures ZerosBelow(SetBit(b, k), n) == ZerosBelow(b, n)
    decreases n
  {
    if n > 0 {
      SetBitBits(b, k, n - 1);
      UnchangedZeros(b, k, n - 1);
    }
  }

  lemma {:induction false} NoZerosAllSet(b: nat, n: nat, k: nat)
    requires ZerosBelow(b, n) == 0 && k < n
    ensures Bit(b, k)
    decreases n
  {
    if k < n - 1 {
      NoZerosAllSet(b, n - 1, k);
    }
  }

  lemma {:induction false} ZerosOfZero(n: nat)
    ensures ZerosBelow(0, n) == n
  {
    if n > 0 {
      ZeroHasNoBits(n - 1);
      ZerosOfZero(n - 1);
    }
  }

  lemma {:induction false} ZeroHasNoBits(k: nat)
    ensures !Bit(0, k)
  {
    if k > 0 {
      ZeroHasNoBits(k - 1);
    }
  }

  // ------------------------------------------------------------------ bitmaps

  /** Whether bit `p` of a bitmap is set: byte `p / 8`, bit `7 - p % 8`. */
  function BitAt(bm: seq<byte>, p: nat): bool
    requires p < 8 * |bm|
  {
    Bit(bm[p / 8], 7 - p % 8)
  }

  /** The number of clear bits of a bitmap. */
  function ZeroBits(bm: seq<byte>): nat
  {
    if bm == [] then 0 else ByteZeros(bm[0]) + ZeroBits(bm[1..])
  }

  /** `p` is the first clear bit of `bm`. */
  ghost predicate FirstClear(bm: seq<byte>, p: nat)
  {
    p < 8 * |bm| && !BitAt(bm, p) && forall q :: 0 <= q < p ==> BitAt(bm, q)
  }

  /** A bitmap has at most one first clear bit. */
  lemma FirstClearUnique(bm: seq<byte>, p: nat, q: nat)
    requires FirstClear(bm, p) && FirstClear(bm, q)
    ensures p == q
  {
  }

  /** Setting bit `p`, which must be clear: `buf[j] |= (1 << k)`. */
  function SetBitAt(bm: seq<byte>, p: nat): (r: seq<byte>)
    requires p < 8 * |bm|
    ensures |r| == |bm|
  {
    var j, k := p / 8, 7 - p % 8;
    Pow2Eight();
    SetBitBound(bm[j], k, 8);
    bm[j := SetBit(bm[j], k)]
  }

  lemma Pow2Eight()
    ensures Pow2(8) == 256
  {
  }

  /** The inner scan of `AllocDataBlock`: bits `k`, `k-1`, ..., 0 of one byte. */
  function FindFreeInByte(b: byte, k: int): (r: Option<nat>)
    ensures r.Some? ==> r.value <= k
    decreases k + 1
  {
    if k < 0 then None
    else if !Bit(b, k) then Some(k)
    else FindFreeInByte(b, k - 1)
  }

  /** The outer scan: bytes `j`, `j+1`, ... of the bitmap; the result is the
      byte index and the bit index within the byte. */
  function FindFreeBit(buf: seq<byte>, j: nat): (r: Option<(nat, nat)>)
    ensures r.Some? ==> r.value.0 < |buf| && r.value.1 < 8
    decreases |buf| - j
  {
    if j >= |buf| then None
    else match FindFreeInByte(buf[j], 7)
      case Some(k) => Some((j, k))
      case None => FindFreeBit(buf, j + 1)
  }

  lemma {:induction false} FindFreeInByteSpec(b: byte, k: int)
    requires k < 8
    ensures FindFreeInByte(b, k).Some? ==>
              var m := FindFreeInByte(b, k).value;
              m <= k && !Bit(b, m) && forall m' :: m < m' <= k ==> Bit(b, m')
    ensures FindFreeInByte(b, k).None? ==> forall m' :: 0 <= m' <= k ==> Bit(b, m')
    decreases k + 1
  {
    if k >= 0 && Bit(b, k) {
      FindFreeInByteSpec(b, k - 1);
    }
  }

  lemma ZeroBitsSlice(buf: seq<byte>, j: nat)
    requires j < |buf|
    ensures ZeroBits(buf[j..]) == ByteZeros(buf[j]) + ZeroBits(buf[j + 1..])
  {
    assert buf[j..][1..] == buf[j + 1..];
  }

  lemma {:induction false} ByteZerosIffClear(b: byte)
    ensures ByteZeros(b) > 0 <==> exists k :: 0 <= k < 8 && !Bit(b, k)
  {
    if ByteZeros(b) == 0 {
      forall k | 0 <= k < 8 ensures Bit(b, k) {
        NoZerosAllSet(b, 8, k);
      }
    } else {
      var k := ZeroWitness(b, 8);
    }
  }

  lemma {:induction false} ZeroWitness(b: nat, n: nat) returns (k: nat)
    requires ZerosBelow(b, n) > 0
    ensures k < n && !Bit(b, k)
    decreases n
  {
    if Bit(b, n - 1) {
      k := ZeroWitness(b, n - 1);
    } else {
      k := n - 1;
    }
  }

  /** The scan from byte `j` on finds the first clear bit at or after
      position `8 * j`, and finds nothing exactly when no such bit exists. */
  lemma {:induction false} FindFreeBitFrom(buf: seq<byte>, j: nat)
    requires j <= |buf|
    requires forall q :: 0 <= q < 8 * j ==> BitAt(buf, q)
    ensures FindFreeBit(buf, j).None? <==> ZeroBits(buf[j..]) == 0
    ensures FindFreeBit(buf, j).Some? ==>
              var (j', k) := FindFreeBit(buf, j).value;
              j' < |buf| && k < 8 && FirstClear(buf, 8 * j' + 7 - k)
    decreases |buf| - j
  {
    if j < |buf| {
      ZeroBitsSlice(buf, j);
      FindFreeInByteSpec(buf[j], 7);
      ByteZerosIffClear(buf[j]);
      match FindFreeInByte(buf[j], 7)
      case Some(k) =>
        var p := 8 * j + 7 - k;
        forall q | 0 <= q < p ensures BitAt(buf, q) {
          if q >= 8 * j {
            assert q / 8 == j;
          }
        }
      case None =>
        forall q | 0 <= q < 8 * (j + 1) ensures BitAt(buf, q) {
          if q >= 8 * j {
            assert q / 8 == j;
          }
        }
        FindFreeBitFrom(buf, j + 1);
    }
  }

  /** The scan of `AllocDataBlock` fails exactly on a full bitmap, and
      otherwise finds the first clear bit in byte order, MSB first. */
  lemma FindFreeBitSpec(buf: seq<byte>)
    ensures FindFreeBit(buf, 0).None? <==> ZeroBits(buf) == 0
    ensures FindFreeBit(buf, 0).Some? ==>
              var (j, k) := FindFreeBit(buf, 0).value;
              j < |buf| && k < 8 && FirstClear(buf, 8 * j + 7 - k)
  {
    FindFreeBitFrom(buf, 0);
    assert buf[0..] == buf;
  }

  /** On a bitmap whose first clear bit is `p` the scan stops at byte
      `p / 8`, bit `7 - p % 8`. */
  lemma FindFreeBitFirst(buf: seq<byte>, p: nat)
    requires FirstClear(buf, p)
    ensures FindFreeBit(buf, 0) == Some((p / 8, 7 - p % 8))
  {
    FindFreeBitSpec(buf);
    SetBitAtSpec(buf, p);
    var (j, k) := FindFreeBit(buf, 0).value;
    FirstClearUnique(buf, p, 8 * j + 7 - k);
  }

  lemma {:induction false} ZeroBitsUpdate(bm: seq<byte>, j: nat, v: byte)
    requires j < |bm|
    ensures ZeroBits(bm[j := v]) == ZeroBits(bm) - ByteZeros(bm[j]) + ByteZeros(v)
  {
    if j == 0 {
      assert bm[j := v][1..] == bm[1..];
    } else {
      ZeroBitsUpdate(bm[1..], j - 1, v);
      assert bm[j := v][1..] == bm[1..][j - 1 := v];
    }
  }

  /** Setting a clear bit sets that bit only and lowers the clear count by one. */
  lemma SetBitAtSpec(bm: seq<byte>, p: nat)
    requires p < 8 * |bm| && !BitAt(bm, p)
    ensures ZeroBits(SetBitAt(bm, p)) == ZeroBits(bm) - 1
    ensures forall q :: 0 <= q < 8 * |bm| ==>
              BitAt(SetBitAt(bm, p), q) == (q == p || BitAt(bm, q))
  {
    var j, k := p / 8, 7 - p % 8;
    SetBitZeros(bm[j], k, 8);
    ZeroBitsUpdate(bm, j, SetBitAt(bm, p)[j]);
    forall q | 0 <= q < 8 * |bm|
      ensures BitAt(SetBitAt(bm, p), q) == (q == p || BitAt(bm, q))
    {
      if q / 8 == j {
        SetBitBits(bm[j], k, 7 - q % 8);
      }
    }
  }

  lemma {:induction false} ZeroBitsOfZeros(bm: seq<byte>)
    requires forall i :: 0 <= i < |bm| ==> bm[i] == 0
    ensures ZeroBits(bm) == 8 * |bm|
  {
    if bm != [] {
      ZerosOfZero(8);
      ZeroBitsOfZeros(bm[1..]);
    }
  }

  /** In an all-zero bitmap the scan stops at the very first bit. */
  lemma FindFreeBitOfZeros(bm: seq<byte>)
    requires |bm| > 0 && forall i :: 0 <= i < |bm| ==> bm[i] == 0
    ensures FindFreeBit(bm, 0) == Some((0, 7))
  {
    ZeroHasNoBits(7);
  }
}
