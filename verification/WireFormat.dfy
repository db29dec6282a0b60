/** Integers on the wire (libAfterBase/socket.h): the host is little-endian, the network big-endian. */
module WireFormat {
  import opened Common

  type Card16 = x: int | 0 <= x < 0x1_0000
  type Card32 = x: int | 0 <= x < 0x1_0000_0000

  /** The bytes of an integer in the memory of the host. */
  function Memory16(x: Card16): (m: seq<Byte>)
    ensures |m| == 2
  {
    [x % 256, x / 256]
  }

  function Memory32(x: Card32): (m: seq<Byte>)
    ensures |m| == 4
  {
    [x % 256, x / 0x100 % 256, x / 0x1_0000 % 256, x / 0x100_0000]
  }

  /** The integer that bytes in the memory of the host stand for. */
  function Host16(m: seq<Byte>): Card16
    requires |m| == 2
  {
    var a: int, b: int := m[0], m[1];
    a + 0x100 * b
  }

  function Host32(m: seq<Byte>): Card32
    requires |m| == 4
  {
    var a: int, b: int, c: int, d: int := m[0], m[1], m[2], m[3];
    a + 0x100 * b + 0x1_0000 * c + 0x100_0000 * d
  }

  /** The conversion between host and network order, the same in both directions. */
  function Swap16(x: Card16): Card16
  {
    x % 256 * 256 + x / 256
  }

  function Swap32(x: Card32): Card32
  {
    x % 256 * 0x100_0000 + x / 0x100 % 256 * 0x1_0000 + x / 0x1_0000 % 256 * 0x100 + x / 0x100_0000
  }

  /** An integer as it goes over the network. */
  function Net16(x: Card16): (m: seq<Byte>)
    ensures |m| == 2
  {
    Memory16(Swap16(x))
  }

  function Net32(x: Card32): (m: seq<Byte>)
    ensures |m| == 4
  {
    Memory32(Swap32(x))
  }

  lemma Memory16RoundTrip(x: Card16)
    ensures Host16(Memory16(x)) == x && Swap16(Swap16(x)) == x
  {
  }

  /** A 32-bit integer from its bytes, and the bytes from the integer. */
  lemma Digits(a: Byte, b: Byte, c: Byte, d: Byte)
    ensures var x := a + 0x100 * b + 0x1_0000 * c + 0x100_0000 * d;
      x % 256 == a && x / 0x100 % 256 == b && x / 0x1_0000 % 256 == c && x / 0x100_0000 == d
  {
    var x := a + 0x100 * b + 0x1_0000 * c + 0x100_0000 * d;
    assert x == 0x100 * (b + 0x100 * c + 0x1_0000 * d) + a;
    assert x / 0x100 == b + 0x100 * c + 0x1_0000 * d;
    assert x / 0x1_0000 == c + 0x100 * d;
  }

  lemma DigitsOf(x: Card32)
    ensures x == x % 256 + 0x100 * (x / 0x100 % 256) + 0x1_0000 * (x / 0x1_0000 % 256) + 0x100_0000 * (x / 0x100_0000)
  {
    assert x / 0x1_0000 == x / 0x100 / 0x100 && x / 0x100_0000 == x / 0x1_0000 / 0x100;
  }

  lemma Memory32RoundTrip(x: Card32)
    ensures Host32(Memory32(x)) == x && Swap32(Swap32(x)) == x
  {
    DigitsOf(x);
    Digits(x / 0x100_0000, x / 0x1_0000 % 256, x / 0x100 % 256, x % 256);
  }

  /** Network order is the most significant byte first. */
  lemma NetIsBigEndian(x: Card32)
    ensures Net32(x) == [x / 0x100_0000, x / 0x1_0000 % 256, x / 0x100 % 256, x % 256]
  {
    Digits(x / 0x100_0000, x / 0x1_0000 % 256, x / 0x100 % 256, x % 256);
  }

  lemma Net16IsBigEndian(x: Card16)
    ensures Net16(x) == [x / 256, x % 256]
  {
    var a, b := x / 256, x % 256;
    assert Swap16(x) == 256 * b + a;
    assert (256 * b + a) % 256 == a && (256 * b + a) / 256 == b;
  }
}
