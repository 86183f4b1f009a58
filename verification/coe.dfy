/** utils/bin2coe.py: a binary image as a Xilinx COE memory file. The bytes
    are read as little-endian 32-bit words, each written as eight lower-case
    hex digits on a line of its own, after a header and 128 zero words. */
module Coe {
  import opened Machine
  import opened ByteSeq
  import opened LittleEndian

  // ------------------------------------------------------------ hex text

  /** The lower-case digit of value `d`. */
  function HexDigit(d: nat): (c: char)
    requires d < 16
  {
    "0123456789abcdef"[d]
  }

  /** The value of a hex digit. */
  function DigitValue(c: char): nat
  {
    if '0' <= c <= '9' then c as nat - '0' as nat
    else if 'a' <= c <= 'f' then c as nat - 'a' as nat + 10
    else 0
  }

  lemma {:induction false} DigitRoundTrip(d: nat)
    requires d < 16
    ensures DigitValue(HexDigit(d)) == d
    ensures '0' <= HexDigit(d) <= '9' || 'a' <= HexDigit(d) <= 'f'
  {
  }

  /** `hex(x)[2:]`: the digits of `x` without leading zeros ("0" for 0). */
  function HexDigits(x: nat): seq<char>
    decreases x
  {
    if x < 16 then [HexDigit(x)] else HexDigits(x / 16) + [HexDigit(x % 16)]
  }

  /** `s.zfill(width)`: `s` padded on the left with '0' to `width`. */
  function ZFill(s: seq<char>, width: nat): (r: seq<char>)
  {
    if |s| >= width then s else seq(width - |s|, _ => '0') + s
  }

  /** One word as `read_bin` renders it. */
  function WordHex(x: nat): seq<char>
  {
    ZFill(HexDigits(x), 8)
  }

  function Pow16(n: nat): (r: nat)
    ensures r > 0
  {
    if n == 0 then 1 else 16 * Pow16(n - 1)
  }

  /** The reference rendering: exactly `n` digits, most significant first,
      of `x` modulo 16^n. */
  function FixedHex(x: nat, n: nat): (r: seq<char>)
    ensures |r| == n
  {
    if n == 0 then [] else FixedHex(x / 16, n - 1) + [HexDigit(x % 16)]
  }

  /** The value of a string of hex digits, most significant first. */
  function ParseHex(s: seq<char>): nat
  {
    if s == [] then 0 else 16 * ParseHex(s[..|s| - 1]) + DigitValue(s[|s| - 1])
  }

  /** The unpadded digits are the fixed-width rendering at their own
      length, which is the least length that holds `x`. */
  lemma {:induction false} HexDigitsFixed(x: nat, k: nat)
    decreases x
    ensures x < Pow16(|HexDigits(x)|)
    ensures HexDigits(x) == FixedHex(x, |HexDigits(x)|)
    ensures k >= 1 && x < Pow16(k) ==> |HexDigits(x)| <= k
  {
    if x >= 16 {
      HexDigitsFixed(x / 16, if k > 0 then k - 1 else 0);
    }
  }

  /** Leading zero digits: rendering a value at a greater width prefixes
      '0's. */
  lemma {:induction false} FixedHexPad(x: nat, m: nat, z: nat)
    requires x < Pow16(m)
    decreases m
    ensures FixedHex(x, m + z) == seq(z, _ => '0') + FixedHex(x, m)
  {
    if m == 0 {
      FixedHexZero(z);
    } else {
      FixedHexPad(x / 16, m - 1, z);
    }
  }

  lemma {:induction false} FixedHexZero(z: nat)
    ensures FixedHex(0, z) == seq(z, _ => '0')
  {
    if z > 0 {
      FixedHexZero(z - 1);
    }
  }

  /** The rendered digits read back as the value modulo 16^n. */
  lemma {:induction false} ParseFixedHex(x: nat, n: nat)
    ensures ParseHex(FixedHex(x, n)) == x % Pow16(n)
  {
    if n > 0 {
      var s := FixedHex(x, n);
      assert s[..n - 1] == FixedHex(x / 16, n - 1);
      ParseFixedHex(x / 16, n - 1);
      DigitRoundTrip(x % 16);
      ModStep16(x, Pow16(n - 1));
    }
  }

  /** One hex digit more of width. */
  lemma {:induction false} ModStep16(x: nat, p: nat)
    requires p > 0
    ensures 16 * ((x / 16) % p) + x % 16 == x % (16 * p)
  {
    var q, b := (x / 16) / p, (x / 16) % p;
    assert x / 16 == p * q + b;
    assert 16 * b + x % 16 < 16 * p;
    assert x == (16 * p) * q + (16 * b + x % 16);
    DivModUnique(x, 16 * p, q, 16 * b + x % 16);
  }

  lemma Pow16Eight()
    ensures Pow16(8) == TWO_32
  {
  }

  /** Zero-padding the unpadded digits to a width that holds the value is
      rendering at that width. */
  lemma {:induction false} ZFillFixed(x: nat, n: nat)
    requires n >= 1 && x < Pow16(n)
    ensures ZFill(HexDigits(x), n) == FixedHex(x, n)
  {
    HexDigitsFixed(x, n);
    var l := |HexDigits(x)|;
    FixedHexPad(x, l, n - l);
  }

  /** Every 32-bit word is rendered as exactly eight digits, zero-padded:
      the fixed-width rendering, which reads back as the word. */
  lemma {:induction false} WordHexSpec(x: nat)
    requires x < TWO_32
    ensures WordHex(x) == FixedHex(x, 8)
    ensures |WordHex(x)| == 8
    ensures forall i :: 0 <= i < 8 ==> '0' <= WordHex(x)[i] <= '9' || 'a' <= WordHex(x)[i] <= 'f'
    ensures ParseHex(WordHex(x)) == x
  {
    Pow16Eight();
    ZFillFixed(x, 8);
    FixedHexDigits(x, 8);
    ParseFixedHex(x, 8);
    assert x % Pow16(8) == x by {
      DivModUnique(x, TWO_32, 0, x);
    }
  }

  /** Each character of a fixed-width rendering is a hex digit. */
  lemma {:induction false} FixedHexDigits(x: nat, n: nat)
    ensures forall i :: 0 <= i < n ==> '0' <= FixedHex(x, n)[i] <= '9' || 'a' <= FixedHex(x, n)[i] <= 'f'
  {
    if n > 0 {
      FixedHexDigits(x / 16, n - 1);
      DigitRoundTrip(x % 16);
    }
  }

  // ------------------------------------------------------------ read_bin

  /** `read_bin` over the file's bytes: one word per `f.read(4)`, the last
      piece possibly shorter, each read little-endian and rendered. */
  function ReadBin(data: seq<byte>): (words: seq<seq<char>>)
  {
    var chunks := Chunks4(data);
    seq(|chunks|, i requires 0 <= i < |chunks| => WordHex(FromLE(chunks[i])))
  }

  /** There are `ceil(n / 4)` words, each eight hex digits: word `i` is
      bytes `4i` to `4i + 3` (or fewer at the end) read little-endian. */
  lemma {:induction false} ReadBinSpec(data: seq<byte>)
    ensures |ReadBin(data)| == (|data| + 3) / 4
    ensures forall i :: 0 <= i < |ReadBin(data)| ==>
              && |ReadBin(data)[i]| == 8
              && ParseHex(ReadBin(data)[i]) == FromLE(Chunks4(data)[i])
    ensures forall i :: 0 <= i < |ReadBin(data)| - 1 ==> Chunks4(data)[i] == data[4 * i..4 * i + 4]
  {
    var chunks := Chunks4(data);
    forall i | 0 <= i < |chunks|
      ensures |ReadBin(data)[i]| == 8 && ParseHex(ReadBin(data)[i]) == FromLE(chunks[i])
    {
      assert FromLE(chunks[i]) < TWO_32 by {
        Pow256Four();
        PowMono(|chunks[i]|, 4);
      }
      WordHexSpec(FromLE(chunks[i]));
    }
    ChunksAt(data);
  }

  /** A shorter little-endian string has a smaller bound. */
  lemma {:induction false} PowMono(a: nat, b: nat)
    requires a <= b
    ensures Pow256(a) <= Pow256(b)
    decreases b
  {
    if a < b {
      PowMono(a, b - 1);
    }
  }

  /** Piece `i` of a chunking is the four elements from `4i` on. */
  lemma {:induction false} ChunksAt<T>(s: seq<T>)
    ensures forall i :: 0 <= i < |Chunks4(s)| - 1 ==> Chunks4(s)[i] == s[4 * i..4 * i + 4]
    ensures |s| % 4 == 0 ==> forall i :: 0 <= i < |Chunks4(s)| ==> Chunks4(s)[i] == s[4 * i..4 * i + 4]
    decreases |s|
  {
    if s != [] {
      var k := Min(4, |s|);
      ChunksAt(s[k..]);
      var c := Chunks4(s);
      assert c == [s[..k]] + Chunks4(s[k..]);
      forall i | 1 <= i < |c| && (i < |c| - 1 || |s| % 4 == 0)
        ensures c[i] == s[4 * i..4 * i + 4]
      {
        assert c[i] == Chunks4(s[k..])[i - 1];
      }
    }
  }

  /** The bytes a list of words stands for, each word parsed as hex and
      written little-endian. */
  function WordBytes(words: seq<seq<char>>): seq<seq<byte>>
  {
    seq(|words|, i requires 0 <= i < |words| => ToLE(ParseHex(words[i]), 4))
  }

  /** For a file of whole words each word stands for its own four bytes. */
  lemma {:induction false} WordBytesChunks(data: seq<byte>)
    requires |data| % 4 == 0
    ensures WordBytes(ReadBin(data)) == Chunks4(data)
  {
    var chunks := Chunks4(data);
    var back := WordBytes(ReadBin(data));
    ChunksAt(data);
    forall i | 0 <= i < |chunks| ensures back[i] == chunks[i] {
      ChunkRoundTrip(chunks[i]);
    }
  }

  /** Four bytes, rendered and parsed back, are the same four bytes. */
  lemma {:induction false} ChunkRoundTrip(c: seq<byte>)
    requires |c| == 4
    ensures ToLE(ParseHex(WordHex(FromLE(c))), 4) == c
  {
    Pow256Four();
    WordHexSpec(FromLE(c));
    ToFromLE(c);
  }

  /** For a file of whole words, reading every line back as hex and
      writing it little-endian restores the file. */
  lemma {:induction false} ReadBinRoundTrip(data: seq<byte>)
    requires |data| % 4 == 0
    ensures Flatten(WordBytes(ReadBin(data))) == data
  {
    WordBytesChunks(data);
    FlattenChunks4(data);
  }

  // ------------------------------------------------------------ make_coe

  const RadixLine: seq<char> := "memory_initialization_radix = 16;\n"
  const VectorLine: seq<char> := "memory_initialization_vector =\n"
  const ZeroWord: seq<char> := "00000000"

  /** `sep.join(xs)`. */
  function Join(xs: seq<seq<char>>, sep: seq<char>): seq<char>
  {
    if xs == [] then [] else if |xs| == 1 then xs[0] else xs[0] + sep + Join(xs[1..], sep)
  }

  /** `make_coe(words)`: the two header lines, then 128 zero words and the
      words, joined by newlines and ended by one. */
  function MakeCoe(words: seq<seq<char>>): seq<char>
  {
    var contents := seq(128, _ => ZeroWord) + words;
    RadixLine + VectorLine + Join(contents, "\n") + "\n"
  }

  /** The reference layout: each line followed by its newline. */
  function Lines(xs: seq<seq<char>>): seq<char>
  {
    if xs == [] then [] else xs[0] + "\n" + Lines(xs[1..])
  }

  /** Joining a non-empty list by newlines and adding one more is writing
      each line with its newline. */
  lemma {:induction false} JoinLines(xs: seq<seq<char>>)
    requires xs != []
    ensures Join(xs, "\n") + "\n" == Lines(xs)
    decreases |xs|
  {
    if |xs| > 1 {
      JoinLines(xs[1..]);
    } else {
      assert xs[1..] == [];
    }
  }

  /** A text of `|xs|` lines, none holding a newline, has `|xs|` newlines. */
  lemma {:induction false} LinesCount(xs: seq<seq<char>>)
    requires forall i :: 0 <= i < |xs| ==> '\n' !in xs[i]
    ensures multiset(Lines(xs))['\n'] == |xs|
    decreases |xs|
  {
    if xs != [] {
      LinesCount(xs[1..]);
      assert multiset(xs[0])['\n'] == 0;
      assert Lines(xs) == xs[0] + "\n" + Lines(xs[1..]);
    }
  }

  /** The file is the two header lines, then 128 lines "00000000", then
      one line per word in order, each line ending in a newline. */
  lemma {:induction false} MakeCoeSpec(words: seq<seq<char>>)
    ensures MakeCoe(words) == RadixLine + VectorLine + Lines(seq(128, _ => ZeroWord) + words)
  {
    JoinLines(seq(128, _ => ZeroWord) + words);
  }

  /** For words without newlines, as `read_bin` gives, the vector has
      `128 + len(words)` lines. */
  lemma {:induction false} MakeCoeLineCount(words: seq<seq<char>>)
    requires forall i :: 0 <= i < |words| ==> '\n' !in words[i]
    ensures var vector := MakeCoe(words)[|RadixLine| + |VectorLine|..];
      multiset(vector)['\n'] == 128 + |words|
  {
    var contents := seq(128, _ => ZeroWord) + words;
    MakeCoeSpec(words);
    assert MakeCoe(words)[|RadixLine| + |VectorLine|..] == Lines(contents);
    forall i | 0 <= i < |contents| ensures '\n' !in contents[i] {
      if i < 128 {
        assert contents[i] == ZeroWord;
      } else {
        assert contents[i] == words[i - 128];
      }
    }
    LinesCount(contents);
  }

  /** The words of `read_bin` hold no newline. */
  lemma {:induction false} ReadBinLines(data: seq<byte>)
    ensures forall i :: 0 <= i < |ReadBin(data)| ==> '\n' !in ReadBin(data)[i]
  {
    var words := ReadBin(data);
    var chunks := Chunks4(data);
    forall i | 0 <= i < |words| ensures '\n' !in words[i] {
      assert FromLE(chunks[i]) < TWO_32 by {
        Pow256Four();
        PowMono(|chunks[i]|, 4);
      }
      WordHexSpec(FromLE(chunks[i]));
    }
  }
}
