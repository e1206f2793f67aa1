/** Bytes on the wire and the big-endian words built from them. */
module Bytes {
  type Byte = b: int | 0 <= b < 256

  datatype Option<+T> = None | Some(value: T)

  const TWO16: int := 0x1_0000
  const TWO32: int := 0x1_0000_0000

  /** A 16-bit word as htons stores it. */
  function Word16(v: nat): (r: seq<Byte>)
    requires v < TWO16
    ensures |r| == 2 && Read16(r, 0) == v
  {
    [v / 256, v % 256]
  }

  function Read16(s: seq<Byte>, i: nat): (v: nat)
    requires i + 2 <= |s|
    ensures v < TWO16
  {
    256 * (s[i] as int) + s[i + 1]
  }

  /** A 32-bit word as htonl stores it: high half first. */
  function Word32(v: nat): (r: seq<Byte>)
    requires v < TWO32
    ensures |r| == 4 && Read32(r, 0) == v
  {
    var r := Word16(v / TWO16) + Word16(v % TWO16);
    assert Read16(r, 0) == v / TWO16 && Read16(r, 2) == v % TWO16;
    r
  }

  function Read32(s: seq<Byte>, i: nat): (v: nat)
    requires i + 4 <= |s|
    ensures v < TWO32
  {
    TWO16 * Read16(s, i) + Read16(s, i + 2)
  }

  /** Reading a word and writing it back gives the bytes it was read from. */
  lemma WordOfRead(s: seq<Byte>, i: nat)
    requires i + 4 <= |s|
    ensures Word32(Read32(s, i)) == s[i..i + 4]
  {}

  lemma ReadPrefix(s: seq<Byte>, t: seq<Byte>)
    requires 4 <= |s|
    ensures Read32(s + t, 0) == Read32(s, 0)
  {}

  /** Words are stored with their highest byte first. */
  lemma BigEndian(a: Byte, b: Byte, c: Byte, d: Byte)
    ensures Word16(256 * a + b) == [a, b]
    ensures Word32(0x1_0000 * (256 * a + b) + (256 * c + d)) == [a, b, c, d]
  {
    var hi: nat, lo: nat := 256 * a + b, 256 * c + d;
    var v := 0x1_0000 * hi + lo;
    assert v / 0x1_0000 == hi && v % 0x1_0000 == lo;
    assert Word16(hi) == [a, b] && Word16(lo) == [c, d];
    hide Word16, Read16, Read32;
  }
}
