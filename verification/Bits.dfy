/** Bitwise AND, shifts and the prefix masks of CIDR notation, over integers. */
module Bits {
  import opened Words

  function And(a: nat, m: nat): (r: nat)
    ensures r <= a && r <= m
  {
    if a == 0 || m == 0 then 0
    else (if a % 2 == 1 && m % 2 == 1 then 1 else 0) + 2 * And(a / 2, m / 2)
  }

  function AndU32(a: u32, m: u32): u32 { And(a, m) }

  function Shl(x: nat, k: nat): nat { if k == 0 then x else 2 * Shl(x, k - 1) }

  function Shr(x: nat, k: nat): nat { if k == 0 then x else Shr(x / 2, k - 1) }

  /** Left shift of a 32-bit word. */
  function ShlU32(x: u32, k: nat): u32 { if k == 0 then x else (2 * ShlU32(x, k - 1)) % 0x1_0000_0000 }

  /** n one bits. */
  function Ones(n: nat): nat { if n == 0 then 0 else 2 * Ones(n - 1) + 1 }

  /** The mask with n high bits set as `acl_parse_ip` builds it, in host order. */
  function HostMask(n: nat): u32
    requires n <= 32
  {
    if n == 0 then 0 else ShlU32(0xFFFF_FFFF, 32 - n)
  }

  /** The same in network order, as rules store it. */
  function Mask(n: nat): u32
    requires n <= 32
  {
    Swap32(HostMask(n))
  }

  lemma Halve(x: nat, z: nat)
    ensures (x + 2 * z) / 2 == x / 2 + z && (x + 2 * z) % 2 == x % 2
  {
  }

  lemma AndZero(a: nat)
    ensures And(a, 0) == 0 && And(0, a) == 0
  {
  }

  lemma AndStep(a: nat, m: nat)
    ensures And(a, m) == (if a % 2 == 1 && m % 2 == 1 then 1 else 0) + 2 * And(a / 2, m / 2)
  {
    AndZero(a / 2);
    AndZero(m / 2);
  }

  lemma {:induction false} AndIdempotent(a: nat, m: nat)
    ensures And(And(a, m), m) == And(a, m)
    decreases a
  {
    if a != 0 && m != 0 {
      AndIdempotent(a / 2, m / 2);
      var low := if a % 2 == 1 && m % 2 == 1 then 1 else 0;
      Halve(low, And(a / 2, m / 2));
      AndStep(And(a, m), m);
    }
  }

  lemma {:induction false} ShlPlus(x: nat, y: nat, k: nat)
    ensures Shl(x + y, k) == Shl(x, k) + Shl(y, k)
  {
    if k > 0 { ShlPlus(x, y, k - 1); }
  }

  lemma {:induction false} ShlShl(x: nat, j: nat, k: nat)
    ensures Shl(Shl(x, j), k) == Shl(x, j + k)
  {
    if k > 0 { ShlShl(x, j, k - 1); }
  }

  lemma {:induction false} ShlInjective(x: nat, y: nat, k: nat)
    ensures Shl(x, k) == Shl(y, k) <==> x == y
  {
    if k > 0 { ShlInjective(x, y, k - 1); }
  }

  lemma {:induction false} ShrShr(x: nat, j: nat, k: nat)
    ensures Shr(Shr(x, j), k) == Shr(x, j + k)
    decreases j
  {
    if j > 0 { ShrShr(x / 2, j - 1, k); }
  }

  lemma {:induction false} ShrVanishes(x: nat, k: nat)
    requires x < Shl(1, k)
    ensures Shr(x, k) == 0
    decreases k
  {
    if k > 0 { ShrVanishes(x / 2, k - 1); }
  }

  lemma {:induction false} OnesPlusOne(n: nat)
    ensures Ones(n) + 1 == Shl(1, n)
  {
    if n > 0 { OnesPlusOne(n - 1); }
  }

  lemma Powers()
    ensures Shl(1, 8) == 0x100 && Shl(1, 32) == 0x1_0000_0000
  {
    assert Shl(1, 4) == 0x10;
    Shl4(0x10);
    ShlShl(1, 4, 4);
    Shl4(0x100);
    ShlShl(1, 8, 4);
    Shl4(0x1000);
    ShlShl(1, 12, 4);
    Shl4(0x1_0000);
    ShlShl(1, 16, 4);
    Shl4(0x10_0000);
    ShlShl(1, 20, 4);
    Shl4(0x100_0000);
    ShlShl(1, 24, 4);
    Shl4(0x1000_0000);
    ShlShl(1, 28, 4);
  }

  lemma Shl4(x: nat)
    ensures Shl(x, 4) == 16 * x
  {
    assert Shl(x, 1) == 2 * x;
    assert Shl(x, 2) == 2 * Shl(x, 1);
    assert Shl(x, 3) == 2 * Shl(x, 2);
  }

  lemma {:induction false} ShlOfAllOnes(k: nat)
    requires k < 32
    ensures ShlU32(0xFFFF_FFFF, k) + Shl(1, k) == 0x1_0000_0000
  {
    if k > 0 {
      ShlOfAllOnes(k - 1);
      Powers();
      ShlShl(1, k, 32 - k);
      ShlGrows(Shl(1, k), 32 - k);
      WrapOnce(2 * ShlU32(0xFFFF_FFFF, k - 1));
    }
  }

  lemma WrapOnce(x: nat)
    ensures 0x1_0000_0000 <= x < 0x2_0000_0000 ==> x % 0x1_0000_0000 == x - 0x1_0000_0000
  {
  }

  lemma {:induction false} ShlGrows(x: nat, k: nat)
    ensures Shl(x, k) >= x
    ensures k > 0 && x > 0 ==> Shl(x, k) >= 2 * x
  {
    if k > 0 { ShlGrows(x, k - 1); }
  }

  /** The mask is n ones followed by 32 - n zeros. */
  lemma HostMaskIs(n: nat)
    requires n <= 32
    ensures HostMask(n) == Shl(Ones(n), 32 - n)
  {
    Powers();
    OnesPlusOne(n);
    ShlPlus(Ones(n), 1, 32 - n);
    ShlShl(1, n, 32 - n);
    if n > 0 { ShlOfAllOnes(32 - n); }
  }

  lemma AndHalves(x: nat, y: nat, u: nat, v: nat)
    ensures And(x + 2 * y, u + 2 * v) == (if x % 2 == 1 && u % 2 == 1 then 1 else 0) + 2 * And(x / 2 + y, u / 2 + v)
  {
    hide And;
    Halve(x, y);
    Halve(u, v);
    AndStep(x + 2 * y, u + 2 * v);
  }

  /** The low k bits and the rest are masked independently. */
  lemma {:induction false} AndSplit(k: nat, x: nat, y: nat, u: nat, v: nat)
    requires Shr(x, k) == 0 && Shr(u, k) == 0
    ensures And(x + Shl(y, k), u + Shl(v, k)) == And(x, u) + Shl(And(y, v), k)
    decreases k
  {
    hide And;
    if k > 0 {
      AndSplit(k - 1, x / 2, y, u / 2, v);
      AndSplitStep(x, Shl(y, k - 1), u, Shl(v, k - 1), Shl(And(y, v), k - 1));
    }
  }

  lemma AndSplitStep(x: nat, y: nat, u: nat, v: nat, w: nat)
    requires And(x / 2 + y, u / 2 + v) == And(x / 2, u / 2) + w
    ensures And(x + 2 * y, u + 2 * v) == And(x, u) + 2 * w
  {
    hide And;
    AndHalves(x, y, u, v);
    AndStep(x, u);
  }

  lemma {:induction false} AndShifted(a: nat, t: nat, k: nat)
    ensures And(a, Shl(t, k)) == Shl(And(Shr(a, k), t), k)
    decreases k
  {
    hide And;
    AndZero(a);
    if k > 0 {
      AndShifted(a / 2, t, k - 1);
      AndStep(a, Shl(t, k));
      Halve(0, Shl(t, k - 1));
    }
  }

  lemma {:induction false} AndOnes(n: nat, q: nat)
    requires Shr(q, n) == 0
    ensures And(q, Ones(n)) == q
    decreases n
  {
    if n > 0 {
      AndOnes(n - 1, q / 2);
      AndStep(q, Ones(n));
      Halve(1, Ones(n - 1));
    }
  }

  /** Masking with a prefix mask clears the host bits. */
  lemma AndHostMask(a: u32, n: nat)
    requires n <= 32
    ensures And(a, HostMask(n)) == Shl(Shr(a, 32 - n), 32 - n)
  {
    HostMaskIs(n);
    AndShifted(a, Ones(n), 32 - n);
    ShrShr(a, 32 - n, n);
    Powers();
    ShrVanishes(a, 32);
    AndOnes(n, Shr(a, 32 - n));
  }

  lemma Shl8(x: nat)
    ensures Shl(x, 8) == 0x100 * x
  {
    Shl4(x);
    Shl4(Shl(x, 4));
    ShlShl(x, 4, 4);
  }

  lemma AndByte(x: byte, y: nat, u: byte, v: nat)
    ensures And(x + 0x100 * y, u + 0x100 * v) == And(x, u) + 0x100 * And(y, v)
  {
    Powers();
    ShrVanishes(x, 8);
    ShrVanishes(u, 8);
    AndSplit(8, x, y, u, v);
    Shl8(y);
    Shl8(v);
    Shl8(And(y, v));
  }

  lemma AndNested2(c: byte, d: byte, g: byte, h: byte)
    ensures And(Nested2(c, d), Nested2(g, h)) == Nested2(And(c, g), And(d, h))
  {
    AndByte(c, d, g, h);
  }

  lemma AndNested3(b: byte, c: byte, d: byte, f: byte, g: byte, h: byte)
    ensures And(Nested3(b, c, d), Nested3(f, g, h)) == Nested3(And(b, f), And(c, g), And(d, h))
  {
    AndNested2(c, d, g, h);
    AndByte(b, Nested2(c, d), f, Nested2(g, h));
  }

  lemma AndOctets(a: byte, b: byte, c: byte, d: byte, e: byte, f: byte, g: byte, h: byte)
    ensures And(Octets(a, b, c, d), Octets(e, f, g, h)) == Octets(And(a, e), And(b, f), And(c, g), And(d, h))
  {
    OctetsNested(a, b, c, d);
    OctetsNested(e, f, g, h);
    OctetsNested(And(a, e), And(b, f), And(c, g), And(d, h));
    AndNested3(b, c, d, f, g, h);
    AndOfSums(Octets(a, b, c, d), Octets(e, f, g, h), a, Nested3(b, c, d), e, Nested3(f, g, h));
  }

  lemma AndOfSums(x: nat, y: nat, a: byte, r: nat, e: byte, t: nat)
    requires x == a + 0x100 * r && y == e + 0x100 * t
    ensures And(x, y) == And(a, e) + 0x100 * And(r, t)
  {
    hide And;
    AndByte(a, r, e, t);
  }

  lemma OctetsNested(a: byte, b: byte, c: byte, d: byte)
    ensures Octets(a, b, c, d) == a + 0x100 * Nested3(b, c, d)
  {
  }

  function Nested2(c: byte, d: byte): nat { c + 0x100 * (d as nat) }

  function Nested3(b: byte, c: byte, d: byte): nat { b + 0x100 * Nested2(c, d) }

  /** Byte order does not matter for masking. */
  lemma AndSwaps(a: u32, m: u32)
    ensures AndU32(Swap32(a), Swap32(m)) == Swap32(AndU32(a, m))
  {
    OctetsOf(a);
    OctetsOf(m);
    AndOctets(Octet0(a), Octet1(a), Octet2(a), Octet3(a), Octet0(m), Octet1(m), Octet2(m), Octet3(m));
    AndOctets(Octet3(a), Octet2(a), Octet1(a), Octet0(a), Octet3(m), Octet2(m), Octet1(m), Octet0(m));
    OctetsRoundTrip(And(Octet0(a), Octet0(m)), And(Octet1(a), Octet1(m)), And(Octet2(a), Octet2(m)),
        And(Octet3(a), Octet3(m)));
  }

  /** The first n bits of two addresses, read in host order, agree. */
  predicate SamePrefixBits(a: u32, b: u32, n: nat)
    requires n <= 32
  {
    Shr(Swap32(a), 32 - n) == Shr(Swap32(b), 32 - n)
  }

  lemma MaskedHost(a: u32, n: nat)
    requires n <= 32
    ensures Swap32(AndU32(a, Mask(n))) == Shl(Shr(Swap32(a), 32 - n), 32 - n)
  {
    Swap32Involution(a);
    AndSwaps(Swap32(a), HostMask(n));
    AndHostMask(Swap32(a), n);
    Swap32Involution(AndU32(Swap32(a), HostMask(n)));
  }

  /** A rule stored pre-masked matches an address exactly when they agree on the prefix bits. */
  lemma MaskedMatchIff(address: u32, rule: u32, n: nat)
    requires n <= 32
    ensures AndU32(address, Mask(n)) == AndU32(rule, Mask(n)) <==> SamePrefixBits(address, rule, n)
  {
    MaskedHost(address, n);
    MaskedHost(rule, n);
    ShlInjective(Shr(Swap32(address), 32 - n), Shr(Swap32(rule), 32 - n), 32 - n);
    Swap32Involution(AndU32(address, Mask(n)));
    Swap32Involution(AndU32(rule, Mask(n)));
  }

  /** Number of one bits. */
  function BitCount(m: nat): nat { if m == 0 then 0 else m % 2 + BitCount(m / 2) }

  /** `count_bits`. */
  method CountBits(mask: u32) returns (count: nat)
    ensures count == BitCount(Swap32(mask))
  {
    var m: nat := Swap32(mask);
    count := 0;
    while m != 0
      invariant count + BitCount(m) == BitCount(Swap32(mask))
    {
      count := count + m % 2;
      m := m / 2;
    }
  }

  lemma {:induction false} BitCountShift(t: nat, k: nat)
    ensures BitCount(Shl(t, k)) == BitCount(t)
  {
    if k > 0 {
      BitCountShift(t, k - 1);
      Halve(0, Shl(t, k - 1));
    }
  }

  lemma {:induction false} BitCountOnes(n: nat)
    ensures BitCount(Ones(n)) == n
  {
    if n > 0 {
      BitCountOnes(n - 1);
      Halve(1, Ones(n - 1));
    }
  }

  /** Counting bits inverts the construction of a mask. */
  lemma CountInvertsMask(n: nat)
    requires n <= 32
    ensures BitCount(Swap32(Mask(n))) == n
  {
    Swap32Involution(HostMask(n));
    HostMaskIs(n);
    BitCountShift(Ones(n), 32 - n);
    BitCountOnes(n);
  }

  /** One bit after the other counts. */
  lemma BitCountStep(m: nat)
    ensures BitCount(0) == 0 && BitCount(2 * m) == BitCount(m) && BitCount(2 * m + 1) == BitCount(m) + 1
  {
  }
}
