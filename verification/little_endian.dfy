/** Little-endian integers: the byte order of every on-disk `u32` field
    (the C++ code writes raw structs, so it assumes a little-endian target),
    of the serial packet words and of the COE words. */
module LittleEndian {
  import opened Machine

  function Pow256(n: nat): (r: nat)
    ensures r > 0
  {
    if n == 0 then 1 else 256 * Pow256(n - 1)
  }

  lemma Pow256Four()
    ensures Pow256(4) == TWO_32
  {
    assert Pow256(1) == 256;
    assert Pow256(2) == 65536;
    assert Pow256(3) == 16777216;
  }

  lemma MulMono(a: int, b: int, c: nat)
    requires a <= b
    ensures c * a <= c * b
  {
    if c > 0 {
      MulMono(a, b, c - 1);
      assert c * a == (c - 1) * a + a;
      assert c * b == (c - 1) * b + b;
    }
  }

  /** Quotient and remainder are the only pair with the defining property. */
  lemma DivModUnique(x: int, m: int, q: int, r: int)
    requires m > 0 && 0 <= r < m && x == m * q + r
    ensures x / m == q && x % m == r
  {
    var q', r' := x / m, x % m;
    if q' < q {
      MulMono(q' + 1, q, m);
    } else if q < q' {
      MulMono(q + 1, q', m);
    }
  }

  lemma DivDiv(x: int, a: nat, b: nat)
    requires a > 0 && b > 0
    ensures x / a / b == x / (a * b)
  {
    var q, r := x / a, x % a;
    var q2, r2 := q / b, q % b;
    MulMono(r2, b - 1, a);
    assert x == (a * b) * q2 + (a * r2 + r);
    DivModUnique(x, a * b, q2, a * r2 + r);
  }

  /** The low `n` bytes of `x`, least significant first: `n` rounds of
      `x & 0xff` followed by `x >>= 8`. For every integer, also a negative one,
      Euclidean `% 256` and `/ 256` are exactly those two operations. */
  function ToLE(x: int, n: nat): (r: seq<byte>)
    ensures |r| == n
    decreases n
  {
    if n == 0 then [] else [x % 256] + ToLE(x / 256, n - 1)
  }

  /** The value of a little-endian byte string (`int.from_bytes(s, 'little')`). */
  function FromLE(s: seq<byte>): (x: nat)
    ensures x < Pow256(|s|)
  {
    if s == [] then 0 else s[0] + 256 * FromLE(s[1..])
  }

  /** One byte more of width: the low byte plus 256 times the next digits. */
  lemma ModStep(x: int, p: nat)
    requires p > 0
    ensures x % 256 + 256 * ((x / 256) % p) == x % (256 * p)
  {
    var q, b := (x / 256) / p, (x / 256) % p;
    assert x / 256 == p * q + b;
    MulMono(b, p - 1, 256);
    assert x == (256 * p) * q + (256 * b + x % 256);
    DivModUnique(x, 256 * p, q, 256 * b + x % 256);
  }

  /** Decoding what was encoded gives the value modulo the width. */
  lemma {:induction false} FromToLE(x: int, n: nat)
    ensures FromLE(ToLE(x, n)) == x % Pow256(n)
    decreases n
  {
    if n > 0 {
      FromToLE(x / 256, n - 1);
      ModStep(x, Pow256(n - 1));
    }
  }

  /** Encoding what was decoded gives the bytes back. */
  lemma {:induction false} ToFromLE(s: seq<byte>)
    ensures ToLE(FromLE(s), |s|) == s
  {
    if s != [] {
      var y := FromLE(s[1..]);
      DivModUnique(FromLE(s), 256, y, s[0]);
      ToFromLE(s[1..]);
      assert s == [s[0]] + s[1..];
    }
  }

  /** The encoding depends only on the value modulo the width. */
  lemma ToLEMod(x: int, n: nat)
    ensures ToLE(x, n) == ToLE(x % Pow256(n), n)
  {
    ToFromLE(ToLE(x, n));
    FromToLE(x, n);
  }

  /** Byte `i` is `(x >> 8*i) & 0xff`. */
  lemma {:induction false} ByteOfLE(x: int, n: nat, i: nat)
    requires i < n
    ensures ToLE(x, n)[i] == (x / Pow256(i)) % 256
    decreases i
  {
    if i > 0 {
      ByteOfLE(x / 256, n - 1, i - 1);
      DivDiv(x, 256, Pow256(i - 1));
    }
  }

  /** A `std::uint32_t` as it lies in memory on a little-endian machine. */
  function EncodeU32(x: u32): (r: seq<byte>)
    ensures |r| == 4
  {
    ToLE(x, 4)
  }

  function DecodeU32(s: seq<byte>): u32
    requires |s| == 4
  {
    Pow256Four();
    FromLE(s)
  }

  lemma DecodeEncodeU32(x: u32)
    ensures DecodeU32(EncodeU32(x)) == x
  {
    Pow256Four();
    FromToLE(x, 4);
  }

  lemma EncodeDecodeU32(s: seq<byte>)
    requires |s| == 4
    ensures EncodeU32(DecodeU32(s)) == s
  {
    ToFromLE(s);
  }

  /** Consecutive `u32` fields of a packed struct. */
  function EncodeWords(ws: seq<u32>): (r: seq<byte>)
    ensures |r| == 4 * |ws|
  {
    if ws == [] then [] else EncodeU32(ws[0]) + EncodeWords(ws[1..])
  }

  function DecodeWords(s: seq<byte>): (ws: seq<u32>)
    requires |s| % 4 == 0
    ensures |ws| == |s| / 4
  {
    if s == [] then [] else [DecodeU32(s[..4])] + DecodeWords(s[4..])
  }

  lemma {:induction false} DecodeEncodeWords(ws: seq<u32>)
    ensures DecodeWords(EncodeWords(ws)) == ws
  {
    if ws != [] {
      var s := EncodeWords(ws);
      assert s[..4] == EncodeU32(ws[0]);
      assert s[4..] == EncodeWords(ws[1..]);
      DecodeEncodeU32(ws[0]);
      DecodeEncodeWords(ws[1..]);
      assert ws == [ws[0]] + ws[1..];
    }
  }

  lemma {:induction false} EncodeDecodeWords(s: seq<byte>)
    requires |s| % 4 == 0
    ensures EncodeWords(DecodeWords(s)) == s
  {
    if s != [] {
      var ws := DecodeWords(s);
      assert ws[1..] == DecodeWords(s[4..]);
      EncodeDecodeU32(s[..4]);
      EncodeDecodeWords(s[4..]);
      assert s == s[..4] + s[4..];
    }
  }

  /** Field `k` of a packed `u32` struct occupies bytes `4k .. 4k+4`. */
  lemma {:induction false} WordAt(ws: seq<u32>, k: nat)
    requires k < |ws|
    ensures EncodeWords(ws)[4 * k .. 4 * k + 4] == EncodeU32(ws[k])
  {
    if k > 0 {
      WordAt(ws[1..], k - 1);
      var s := EncodeWords(ws);
      assert s[4..] == EncodeWords(ws[1..]);
      assert s[4 * k .. 4 * k + 4] == s[4..][4 * (k - 1) .. 4 * (k - 1) + 4];
    }
  }
}
