/** Fixed-width unsigned integers and their network-order (big-endian) byte form. */
module Bytes {

  type byte = x: int | 0 <= x < 0x100
  type u16 = x: int | 0 <= x < 0x1_0000
  type u32 = x: int | 0 <= x < 0x1_0000_0000

  /** The value of two bytes read most significant first, as `(hi << 8) | lo`. */
  function ReadBe16(hi: byte, lo: byte): u16
  {
    (hi as int) * 0x100 + lo
  }

  /** The value of four bytes read most significant first. */
  function ReadBe32(b: seq<byte>): u32
    requires |b| == 4
  {
    (((b[0] as int) * 0x100 + b[1]) * 0x100 + b[2]) * 0x100 + b[3]
  }

  /** The two bytes of `v`, high byte first (`v >> 8`, then `v & 0xFF`). */
  function Be16(v: u16): (r: seq<byte>)
    ensures |r| == 2
  {
    [v / 0x100, v % 0x100]
  }

  /** Reading back the two bytes written for `v` gives `v`. */
  lemma ReadBe16OfBe16(v: u16)
    ensures ReadBe16(Be16(v)[0], Be16(v)[1]) == v
  {
  }

  /** The four bytes of `v`, most significant first (`v >> 24`, `(v >> 16) & 0xFF`, ...). */
  function Be32(v: u32): (r: seq<byte>)
    ensures |r| == 4
  {
    [v / 0x100_0000, (v / 0x1_0000) % 0x100, (v / 0x100) % 0x100, v % 0x100]
  }

  /** Reading back the four bytes written for `v` gives `v`. */
  lemma ReadBe32OfBe32(v: u32)
    ensures ReadBe32(Be32(v)) == v
  {
    Be32Value(v);
  }

  lemma Be32Value(v: u32)
    ensures ((v / 0x100_0000 * 0x100 + (v / 0x1_0000) % 0x100) * 0x100 + (v / 0x100) % 0x100) * 0x100 + v % 0x100 == v
  {
    var q1 := v / 0x100;
    var q2 := q1 / 0x100;
    var q3 := q2 / 0x100;
    assert v == q1 * 0x100 + v % 0x100;
    assert q1 == q2 * 0x100 + q1 % 0x100;
    assert q2 == q3 * 0x100 + q2 % 0x100;
    assert q2 == v / 0x1_0000;
    assert q3 == v / 0x100_0000;
  }

  /** Reading two bytes and writing the value back gives the same two bytes. */
  lemma Be16OfRead(hi: byte, lo: byte)
    ensures Be16(ReadBe16(hi, lo)) == [hi, lo]
  {
    var v := ReadBe16(hi, lo);
    assert v / 0x100 == hi && v % 0x100 == lo;
  }

  /** Distinct 16-bit values have distinct network-order forms. */
  lemma Be16Injective(v: u16, w: u16)
    ensures Be16(v) == Be16(w) ==> v == w
  {
  }
}
