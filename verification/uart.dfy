/** The packet utils/uart.py sends to the board's serial loader: a magic
    word, the load offset and the file size, each a little-endian 32-bit
    word, then the file in pieces of four bytes. */
module Uart {
  import opened Machine
  import opened ByteSeq
  import opened LittleEndian

  /** The word that opens every packet. */
  const PacketMagic: int := 0x9e9e9e9e

  /** `get_word(num)`: four rounds of `num & 0xff`, `num >>= 8`, on a
      Python integer of any sign. */
  function GetWord(num: int): seq<byte>
  {
    ToLE(num, 4)
  }

  /** A word is four bytes, byte `i` being `(num >> 8*i) & 0xff`; it
      depends on `num` modulo 2^32 only, and reading it back little-endian
      gives that remainder. For a `std::uint32_t` it is the very bytes the
      mkfs image stores. */
  lemma {:induction false} GetWordSpec(num: int)
    ensures |GetWord(num)| == 4
    ensures forall i :: 0 <= i < 4 ==> GetWord(num)[i] == (num / Pow256(i)) % 256
    ensures GetWord(num) == GetWord(num % TWO_32)
    ensures FromLE(GetWord(num)) == num % TWO_32
    ensures 0 <= num < TWO_32 ==> GetWord(num) == EncodeU32(num)
  {
    Pow256Four();
    forall i | 0 <= i < 4 ensures GetWord(num)[i] == (num / Pow256(i)) % 256 {
      ByteOfLE(num, 4, i);
    }
    ToLEMod(num, 4);
    GetWordValue(num);
  }

  /** Reading a word back little-endian gives `num` modulo 2^32. */
  lemma {:induction false} GetWordValue(num: int)
    ensures |GetWord(num)| == 4 && FromLE(GetWord(num)) == num % TWO_32
  {
    Pow256Four();
    FromToLE(num, 4);
  }

  /** `make_packet(file_name, offset)` for a file whose contents are
      `content`: the three header words, then one piece per `f.read(4)`
      of the `range(0, size, 4)` loop. */
  function MakePacket(content: seq<byte>, offset: int): seq<seq<byte>>
  {
    [GetWord(PacketMagic), GetWord(offset), GetWord(|content|)] + Chunks4(content)
  }

  /** The packet is the three header words followed by `ceil(size / 4)`
      pieces, all of four bytes but the last, which together are the file. */
  lemma {:induction false} MakePacketSpec(content: seq<byte>, offset: int)
    ensures var p := MakePacket(content, offset);
      && |p| == 3 + (|content| + 3) / 4
      && p[0] == GetWord(PacketMagic) && p[1] == GetWord(offset) && p[2] == GetWord(|content|)
      && (forall i :: 3 <= i < |p| ==> 0 < |p[i]| <= 4)
      && (forall i :: 3 <= i < |p| - 1 ==> |p[i]| == 4)
      && Flatten(p[3..]) == content
  {
    var p := MakePacket(content, offset);
    assert p[3..] == Chunks4(content);
    FlattenChunks4(content);
  }

  /** The byte stream of a packet as it goes down the line. */
  function PacketBytes(content: seq<byte>, offset: int): seq<byte>
  {
    Flatten(MakePacket(content, offset))
  }

  /** The framing as a receiver reads it: the magic word, the offset, the
      size, then exactly `size` bytes of file. Anything else is not a
      packet. */
  function ParsePacket(stream: seq<byte>): Option<(u32, seq<byte>)>
  {
    if |stream| < 12 || stream[..4] != GetWord(PacketMagic) then None
    else
      var offset, size := FromLE(stream[4..8]), FromLE(stream[8..12]);
      Pow256Four();
      if |stream| - 12 != size then None else Some((offset, stream[12..]))
  }

  /** The stream of a packet is its three header words and the file. */
  lemma {:induction false} PacketBytesShape(content: seq<byte>, offset: int)
    ensures PacketBytes(content, offset)
              == GetWord(PacketMagic) + GetWord(offset) + GetWord(|content|) + content
  {
    var w0, w1, w2 := GetWord(PacketMagic), GetWord(offset), GetWord(|content|);
    FlattenAppend([w0, w1, w2], Chunks4(content));
    FlattenChunks4(content);
    var none: seq<seq<byte>> := [];
    assert [w2][1..] == none;
    assert [w1, w2][1..] == [w2];
    assert [w0, w1, w2][1..] == [w1, w2];
    assert Flatten(none) == [];
    assert Flatten([w2]) == w2 + Flatten(none);
    assert Flatten([w1, w2]) == w1 + Flatten([w2]);
    assert Flatten([w0, w1, w2]) == w0 + Flatten([w1, w2]);
  }

  /** Where the header words and the file lie in a stream. */
  lemma {:induction false} HeaderSplit(w0: seq<byte>, w1: seq<byte>, w2: seq<byte>, c: seq<byte>)
    requires |w0| == 4 && |w1| == 4 && |w2| == 4
    ensures var s := w0 + w1 + w2 + c;
      |s| == 12 + |c| && s[..4] == w0 && s[4..8] == w1 && s[8..12] == w2 && s[12..] == c
  {
  }

  /** A file below 4 GiB comes back out of its packet, with its offset
      taken modulo 2^32. */
  lemma {:induction false} ParseMakePacket(content: seq<byte>, offset: int)
    requires |content| < TWO_32
    ensures ParsePacket(PacketBytes(content, offset)) == Some((offset % TWO_32, content))
  {
    PacketBytesShape(content, offset);
    var w0, w1, w2 := GetWord(PacketMagic), GetWord(offset), GetWord(|content|);
    GetWordValue(offset);
    GetWordValue(|content|);
    HeaderSplit(w0, w1, w2, content);
    var s := w0 + w1 + w2 + content;
    assert PacketBytes(content, offset) == s;
    assert FromLE(s[4..8]) == offset % TWO_32;
    assert FromLE(w2) == |content| by {
      assert |content| % TWO_32 == |content|;
    }
    assert ParsePacket(s) == Some((offset % TWO_32, content));
  }

  /** Every stream the receiver accepts is the packet of what it reads. */
  lemma {:induction false} MakeParsePacket(stream: seq<byte>)
    requires ParsePacket(stream).Some?
    ensures PacketBytes(ParsePacket(stream).value.1, ParsePacket(stream).value.0) == stream
  {
    var (offset, content) := ParsePacket(stream).value;
    PacketBytesShape(content, offset);
    ToFromLE(stream[4..8]);
    ToFromLE(stream[8..12]);
    assert stream == stream[..4] + stream[4..8] + stream[8..12] + stream[12..];
  }
}
