/** Bytes and 32-bit words as the SLB2 tools see them: every multi-byte
    field of the container is an unsigned 32-bit integer stored
    little-endian (least significant byte first). */
module LittleEndian {

  /** An unsigned 8-bit byte (`uint8_t`, and `char` of a file name). */
  type uint8 = x: int | 0 <= x < 0x100

  /** An unsigned 32-bit word (`uint32_t`). */
  type uint32 = x: int | 0 <= x < 0x1_0000_0000

  /** The word stored little-endian in `s[off..off + 4]`. */
  function ReadU32(s: seq<uint8>, off: nat): uint32
    requires off + 4 <= |s|
  {
    s[off] as int + 0x100 * (s[off + 1] as int + 0x100 * (s[off + 2] as int + 0x100 * s[off + 3] as int))
  }

  /** The four bytes that store `w` little-endian. */
  function EncodeU32(w: uint32): (b: seq<uint8>)
    ensures |b| == 4
  {
    [w % 0x100, w / 0x100 % 0x100, w / 0x1_0000 % 0x100, w / 0x100_0000]
  }

  /** Splitting `lo + 256 * hi` into its low byte and the rest. */
  lemma SplitByte(lo: uint8, hi: nat)
    ensures (lo + 0x100 * hi) % 0x100 == lo
    ensures (lo + 0x100 * hi) / 0x100 == hi
  {
  }

  /** Byte `k` of the word read at `off` is the byte stored at `off + k`. */
  lemma ReadU32Bytes(s: seq<uint8>, off: nat)
    requires off + 4 <= |s|
    ensures ReadU32(s, off) % 0x100 == s[off]
    ensures ReadU32(s, off) / 0x100 % 0x100 == s[off + 1]
    ensures ReadU32(s, off) / 0x1_0000 % 0x100 == s[off + 2]
    ensures ReadU32(s, off) / 0x100_0000 == s[off + 3]
  {
    var w, hi3, hi2 := ReadU32(s, off), s[off + 2] as int + 0x100 * s[off + 3] as int, s[off + 3] as int;
    var hi1 := s[off + 1] as int + 0x100 * hi3;
    SplitByte(s[off], hi1);
    SplitByte(s[off + 1], hi3);
    SplitByte(s[off + 2], hi2);
    assert w / 0x100 == hi1;
    assert w / 0x1_0000 == hi1 / 0x100 == hi3;
    assert w / 0x100_0000 == hi3 / 0x100 == hi2;
  }

  /** `x` is its low byte plus 256 times the rest. */
  lemma DivModByte(x: nat)
    ensures x == x % 0x100 + 0x100 * (x / 0x100)
  {
  }

  /** Decoding the encoding of a word gives the word back. */
  lemma DecodeEncode(w: uint32)
    ensures ReadU32(EncodeU32(w), 0) == w
  {
    var x1, x2 := w / 0x100, w / 0x1_0000;
    assert x2 == x1 / 0x100;
    assert w / 0x100_0000 == x2 / 0x100;
    DivModByte(w);
    DivModByte(x1);
    DivModByte(x2);
  }

  /** Encoding a decoded word gives back the four bytes it was read from,
      so two 4-byte fields hold the same word exactly when they are equal. */
  lemma EncodeDecode(s: seq<uint8>, off: nat)
    requires off + 4 <= |s|
    ensures EncodeU32(ReadU32(s, off)) == s[off..off + 4]
  {
    ReadU32Bytes(s, off);
  }

  /** A word read at `off` depends only on the four bytes there. */
  lemma ReadU32Local(s: seq<uint8>, t: seq<uint8>, off: nat, off': nat)
    requires off + 4 <= |s| && off' + 4 <= |t|
    requires s[off..off + 4] == t[off'..off' + 4]
    ensures ReadU32(s, off) == ReadU32(t, off')
  {
    assert s[off] == s[off..off + 4][0] && t[off'] == t[off'..off' + 4][0];
    assert s[off + 1] == s[off..off + 4][1] && t[off' + 1] == t[off'..off' + 4][1];
    assert s[off + 2] == s[off..off + 4][2] && t[off' + 2] == t[off'..off' + 4][2];
    assert s[off + 3] == s[off..off + 4][3] && t[off' + 3] == t[off'..off' + 4][3];
  }
}
