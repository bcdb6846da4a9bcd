/** IPv4 addresses as the server keeps and compares them: raw network-order words on a little-endian CPU. */
module Addresses {
  import opened Words

  const PREFIX: int := 0x100_0000

  /** The last octet of the dotted form, the host part of a /24. */
  function Host(a: u32): byte { Octet3(a) }

  /** The first three octets. */
  function Prefix(a: u32): u32 { a % PREFIX }

  function Address(prefix: u32, host: byte): u32
    requires prefix < PREFIX
  {
    var a: int := prefix + PREFIX * host;
    a
  }

  /** `++` on a 32-bit word. */
  function Increment(x: u32): u32 { if x == 0xFFFF_FFFF then 0 else x + 1 }

  /** The next address: to host order, plus one, and back. */
  function Next(a: u32): u32 { Swap32(Increment(Swap32(a))) }

  lemma AddressParts(prefix: u32, host: byte)
    requires prefix < PREFIX
    ensures Host(Address(prefix, host)) == host && Prefix(Address(prefix, host)) == prefix
  {
  }

  lemma AddressOf(a: u32)
    ensures Address(Prefix(a), Host(a)) == a
  {
  }

  /** Within a /24 the raw comparison the server makes is the numeric comparison of the addresses. */
  lemma RawOrderIsNumericOrder(a: u32, b: u32)
    requires Prefix(a) == Prefix(b)
    ensures a < b <==> Host(a) < Host(b)
    ensures a < b <==> Swap32(a) < Swap32(b)
  {
    OctetsOf(a);
    OctetsOf(b);
    PrefixOctets(a, b);
  }

  lemma PrefixOctets(a: u32, b: u32)
    requires Prefix(a) == Prefix(b)
    ensures Octet0(a) == Octet0(b) && Octet1(a) == Octet1(b) && Octet2(a) == Octet2(b)
  {
    LowOctets(a);
    LowOctets(b);
  }

  lemma LowOctets(a: u32)
    ensures Octet0(a) == Prefix(a) % 0x100
    ensures Octet1(a) == (Prefix(a) / 0x100) % 0x100
    ensures Octet2(a) == Prefix(a) / 0x1_0000
  {
    var p: int, h: int := Prefix(a), Host(a);
    assert a == p + PREFIX * h;
    assert a / 0x1_0000 == p / 0x1_0000 + 0x100 * h;
    assert a / 0x100 == p / 0x100 + 0x1_0000 * h;
  }

  lemma SwapOctets(a: byte, b: byte, c: byte, d: byte)
    ensures Swap32(Octets(a, b, c, d)) == Octets(d, c, b, a)
  {
    OctetsRoundTrip(a, b, c, d);
  }

  /** The /24 of an address as a number. */
  function Network(a: u32): nat { Octet2(a) + 0x100 * Octet1(a) + 0x1_0000 * Octet0(a) }

  lemma NumericParts(a: u32)
    ensures Swap32(a) == Host(a) + 0x100 * Network(a)
  {
  }

  lemma SameNetworkIff(a: u32, b: u32)
    ensures Network(a) == Network(b) <==> Prefix(a) == Prefix(b)
  {
    if Prefix(a) == Prefix(b) { PrefixOctets(a, b); }
    if Network(a) == Network(b) {
      OctetsOf(a);
      OctetsOf(b);
      NetworkOctets(Octet0(a), Octet1(a), Octet2(a), Octet0(b), Octet1(b), Octet2(b));
    }
  }

  lemma NetworkOctets(a: byte, b: byte, c: byte, a': byte, b': byte, c': byte)
    requires c + 0x100 * b + 0x1_0000 * a == c' + 0x100 * b' + 0x1_0000 * a'
    ensures a == a' && b == b' && c == c'
  {
  }

  /** `a` lies numerically between `s` and `e`. */
  predicate Between(s: u32, a: u32, e: u32) { Swap32(s) <= Swap32(a) <= Swap32(e) }

  /** On all addresses between them, raw order is numeric order. */
  predicate OrdersAgree(s: u32, e: u32)
  {
    forall a: u32, b: u32 :: Between(s, a, e) && Between(s, b, e) ==> (a < b <==> Swap32(a) < Swap32(b))
  }

  /** Raw order is numeric order on a range of addresses if and only if the range lies in one /24; otherwise it
      fails at the first host 255 and its successor. */
  lemma RawOrderAgreesIff(s: u32, e: u32)
    requires Swap32(s) < Swap32(e)
    ensures OrdersAgree(s, e) <==> Prefix(s) == Prefix(e)
  {
    SameNetworkIff(s, e);
    if Prefix(s) == Prefix(e) {
      forall a: u32, b: u32 | Between(s, a, e) && Between(s, b, e)
        ensures a < b <==> Swap32(a) < Swap32(b)
      {
        BetweenInNetwork(s, a, e);
        BetweenInNetwork(s, b, e);
        RawOrderIsNumericOrder(a, b);
      }
    } else {
      var x := Address(Prefix(s), 255);
      LastOfNetwork(s, e);
      assert Between(s, x, e) && Between(s, Next(x), e) && Next(x) < x && Swap32(x) < Swap32(Next(x));
    }
  }

  lemma BetweenInNetwork(s: u32, a: u32, e: u32)
    requires Between(s, a, e) && Prefix(s) == Prefix(e)
    ensures Prefix(a) == Prefix(s)
  {
    hide Swap32, Network, Prefix;
    NumericParts(s);
    NumericParts(a);
    NumericParts(e);
    SameNetworkIff(s, e);
    SameNetworkIff(s, a);
  }

  lemma LastOfNetwork(s: u32, e: u32)
    requires Swap32(s) < Swap32(e) && Prefix(s) != Prefix(e)
    ensures var x := Address(Prefix(s), 255);
      Between(s, x, e) && Between(s, Next(x), e) && Next(x) < x && Swap32(x) < Swap32(Next(x))
  {
    var x := Address(Prefix(s), 255);
    AddressParts(Prefix(s), 255);
    NextCrosses(x);
    SwapOfNext(x);
    AddressOf(Next(x));
    hide Swap32, Network, Next;
    NumericParts(s);
    NumericParts(e);
    NumericParts(x);
    SameNetworkIff(s, e);
    SameNetworkIff(s, x);
  }

  lemma SwapOfNext(a: u32)
    ensures Swap32(Next(a)) == Increment(Swap32(a))
  {
    Swap32Involution(Increment(Swap32(a)));
  }

  lemma NextOctets(a: byte, b: byte, c: byte, d: byte)
    requires d < 255
    ensures Next(Octets(a, b, c, d)) == Octets(a, b, c, d + 1)
  {
    SwapOctets(a, b, c, d);
    assert Increment(Octets(d, c, b, a)) == Octets(d + 1, c, b, a);
    SwapOctets(d + 1, c, b, a);
  }

  /** Below host 255 the next address is the next host of the same /24. */
  lemma NextInPrefix(a: u32)
    requires Host(a) < 255
    ensures Next(a) == a + PREFIX && Prefix(Next(a)) == Prefix(a) && Host(Next(a)) == Host(a) + 1
  {
    NextIsPlusPrefix(a);
    AddressOf(a);
    AddressParts(Prefix(a), Host(a) + 1);
  }

  lemma NextIsPlusPrefix(a: u32)
    requires Host(a) < 255
    ensures Next(a) == a + PREFIX
  {
    var o0, o1, o2, o3 := Octet0(a), Octet1(a), Octet2(a), Octet3(a);
    OctetsOf(a);
    NextOctets(o0, o1, o2, o3);
    OctetsPlus(o0, o1, o2, o3);
  }

  lemma OctetsPlus(a: byte, b: byte, c: byte, d: byte)
    requires d < 255
    ensures Octets(a, b, c, d + 1) == Octets(a, b, c, d) + PREFIX
  {
  }

  /** The address after host 255 is the first of another /24. */
  lemma NextCrosses(a: u32)
    requires Host(a) == 255
    ensures Host(Next(a)) == 0 && Prefix(Next(a)) != Prefix(a)
  {
    OctetsOf(a);
    var b := Next(a);
    SwapOfNext(a);
    OctetsOf(b);
    Carried(Octet0(a), Octet1(a), Octet2(a), Octet0(b), Octet1(b), Octet2(b), Octet3(b));
    if Prefix(b) == Prefix(a) { PrefixOctets(a, b); }
  }

  /** 255 plus one carries into the prefix. */
  lemma Carried(a: byte, b: byte, c: byte, a': byte, b': byte, c': byte, d': byte)
    requires Octets(d', c', b', a') == Increment(Octets(255, c, b, a))
    ensures d' == 0 && !(a' == a && b' == b && c' == c)
  {
  }

  lemma SwapInjective(a: u32, b: u32)
    ensures Swap32(a) == Swap32(b) <==> a == b
  {
    Swap32Involution(a);
    Swap32Involution(b);
  }

  lemma SwapZero(a: u32)
    ensures Swap32(a) == 0 <==> a == 0
  {
    OctetsOf(a);
  }
}
