/** Machine words of the firmware's little-endian CPU, as integers with their width written out. */
module Words {
  type byte = x: int | 0 <= x < 0x100
  type u16 = x: int | 0 <= x < 0x1_0000
  type u32 = x: int | 0 <= x < 0x1_0000_0000

  /** A hardware address: six bytes, compared only for equality. */
  type Mac = x: int | 0 <= x < 0x1_0000_0000_0000

  /** The 16-bit word the CPU loads from two consecutive bytes. */
  function Le16(first: byte, second: byte): u16 { first + 0x100 * second }

  /** The 16-bit value two consecutive bytes carry in network order. */
  function Be16(first: byte, second: byte): u16 { 0x100 * first + second }

  /** `htons` and `ntohs`. */
  function Swap16(x: u16): u16 { Be16(x % 0x100, x / 0x100) }

  lemma Le16Of(x: u16)
    ensures Le16(x % 0x100, x / 0x100) == x
  {
  }

  lemma Split256(low: byte, high: int)
    ensures (low + 0x100 * high) % 0x100 == low && (low + 0x100 * high) / 0x100 == high
  {
  }

  lemma Swap16Le(first: byte, second: byte)
    ensures Swap16(Le16(first, second)) == Be16(first, second)
    ensures Swap16(Be16(first, second)) == Le16(first, second)
  {
    Split256(first, second);
    Split256(second, first);
  }

  /** The word whose bytes in memory are a, b, c, d. */
  function Octets(a: byte, b: byte, c: byte, d: byte): u32
  {
    var x: int := a + 0x100 * b + 0x1_0000 * c + 0x100_0000 * d;
    x
  }

  function Octet0(x: u32): byte { x % 0x100 }
  function Octet1(x: u32): byte { (x / 0x100) % 0x100 }
  function Octet2(x: u32): byte { (x / 0x1_0000) % 0x100 }
  function Octet3(x: u32): byte { x / 0x100_0000 }

  /** `htonl` and `ntohl`. */
  function Swap32(x: u32): u32 { Octets(Octet3(x), Octet2(x), Octet1(x), Octet0(x)) }

  /** The four bytes of a word in memory. */
  function Bytes32(x: u32): (b: seq<byte>)
    ensures |b| == 4
  {
    [Octet0(x), Octet1(x), Octet2(x), Octet3(x)]
  }

  function Le32(b: seq<byte>): u32
    requires |b| == 4
  {
    Octets(b[0], b[1], b[2], b[3])
  }

  lemma OctetsRoundTrip(a: byte, b: byte, c: byte, d: byte)
    ensures var x := Octets(a, b, c, d);
      Octet0(x) == a && Octet1(x) == b && Octet2(x) == c && Octet3(x) == d
  {
    var x := Octets(a, b, c, d);
    assert x == a + 0x100 * (b + 0x100 * (c + 0x100 * d));
    assert x / 0x100 == b + 0x100 * (c + 0x100 * d);
    assert x / 0x1_0000 == c + 0x100 * d;
  }

  lemma DivByByte(x: nat)
    ensures x == x % 0x100 + 0x100 * (x / 0x100)
  {
  }

  lemma DivTwice(x: nat)
    ensures (x / 0x100) / 0x100 == x / 0x1_0000 && (x / 0x1_0000) / 0x100 == x / 0x100_0000
  {
  }

  lemma OctetsOf(x: u32)
    ensures Octets(Octet0(x), Octet1(x), Octet2(x), Octet3(x)) == x
  {
    DivByByte(x);
    DivByByte(x / 0x100);
    DivByByte(x / 0x1_0000);
    DivTwice(x);
  }

  lemma Bytes32RoundTrip(x: u32)
    ensures Le32(Bytes32(x)) == x
  {
    OctetsOf(x);
  }

  lemma Swap32Involution(x: u32)
    ensures Swap32(Swap32(x)) == x
  {
    OctetsRoundTrip(Octet3(x), Octet2(x), Octet1(x), Octet0(x));
    OctetsOf(x);
  }

  function Min(a: nat, b: nat): nat { if a < b then a else b }
}
