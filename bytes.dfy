/** Byte-level helpers shared by the packet codec: the byte type and the
    little-endian encodings of the 16-bit length field and the 64-bit
    checksum field (Go's `binary.Write` / `binary.Read` with
    `binary.LittleEndian`). */
module Bytes {

  type byte = bv8

  /** Go's `uint16(n)` conversion of a non-negative length: wrap modulo 2^16. */
  function Uint16(n: nat): (r: nat)
    ensures r < 0x1_0000
    ensures n < 0x1_0000 ==> r == n
  {
    n % 0x1_0000
  }

  /** The two bytes `binary.Write` emits for a uint16, low byte first. */
  function EncodeLE16(n: nat): (r: seq<byte>)
    requires n < 0x1_0000
  {
    [(n % 256) as byte, (n / 256) as byte]
  }

  /** The value of a low and a high base-256 digit. */
  function Combine(lo: int, hi: int): int
  {
    lo + 256 * hi
  }

  /** The uint16 `binary.Read` assembles from two bytes, low byte first. */
  function DecodeLE16(s: seq<byte>): (r: nat)
    requires |s| == 2
    ensures r < 0x1_0000
  {
    ByteRange(s[0]);
    ByteRange(s[1]);
    Combine(s[0] as int, s[1] as int)
  }

  lemma ByteRange(b: byte)
    ensures 0 <= b as int < 256
  {
  }

  lemma ByteOfInt(i: int)
    requires 0 <= i < 256
    ensures (i as byte) as int == i
  {
    var w := i as bv16;
    assert (w as byte) as int == (w & 0xFF) as int;
  }

  lemma IntOfByte(b: byte)
    ensures (b as int) as byte == b
  {
  }

  lemma DigitsOf(lo: int, hi: int)
    requires 0 <= lo < 256 && 0 <= hi
    ensures Combine(lo, hi) % 256 == lo && Combine(lo, hi) / 256 == hi
  {
  }

  lemma DecodeEncodeLE16(n: nat)
    requires n < 0x1_0000
    ensures |EncodeLE16(n)| == 2 && DecodeLE16(EncodeLE16(n)) == n
  {
    ByteOfInt(n % 256);
    ByteOfInt(n / 256);
  }

  lemma EncodeDecodeLE16(s: seq<byte>)
    requires |s| == 2
    ensures EncodeLE16(DecodeLE16(s)) == s
  {
    ByteRange(s[0]);
    ByteRange(s[1]);
    DigitsOf(s[0] as int, s[1] as int);
    IntOfByte(s[0]);
    IntOfByte(s[1]);
  }

  /** The eight bytes `binary.Write` emits for a uint64, low byte first. */
  function EncodeLE64(w: bv64): (r: seq<byte>)
  {
    [(w & 0xFF) as byte, ((w >> 8) & 0xFF) as byte, ((w >> 16) & 0xFF) as byte,
     ((w >> 24) & 0xFF) as byte, ((w >> 32) & 0xFF) as byte, ((w >> 40) & 0xFF) as byte,
     ((w >> 48) & 0xFF) as byte, ((w >> 56) & 0xFF) as byte]
  }

  /** The uint64 `binary.Read` assembles from eight bytes, low byte first. */
  function DecodeLE64(s: seq<byte>): bv64
    requires |s| == 8
  {
    (s[0] as bv64) | ((s[1] as bv64) << 8) | ((s[2] as bv64) << 16) | ((s[3] as bv64) << 24) |
    ((s[4] as bv64) << 32) | ((s[5] as bv64) << 40) | ((s[6] as bv64) << 48) | ((s[7] as bv64) << 56)
  }

  lemma DecodeEncodeLE64(w: bv64)
    ensures |EncodeLE64(w)| == 8 && DecodeLE64(EncodeLE64(w)) == w
  {
  }

  lemma EncodeDecodeLE64(s: seq<byte>)
    requires |s| == 8
    ensures EncodeLE64(DecodeLE64(s)) == s
  {
  }
}
