/** CIDR text of rule addresses: `acl_format_ip` and `acl_parse_ip`. */
module AclAddress {
  import opened Words
  import opened Wrappers
  import opened Bits

  function Digit(d: nat): char
    requires d < 10
  {
    '0' + d as char
  }

  predicate IsDigit(c: char) { '0' <= c <= '9' }

  /** printf's %d of a natural number. */
  function Decimal(n: nat): (s: string)
    ensures s != [] && forall i :: 0 <= i < |s| ==> IsDigit(s[i])
  {
    if n < 10 then [Digit(n)] else Decimal(n / 10) + [Digit(n % 10)]
  }

  predicate AllDigits(s: string) { forall i :: 0 <= i < |s| ==> IsDigit(s[i]) }

  function Value(s: string): nat
    requires AllDigits(s)
  {
    if s == [] then 0 else 10 * Value(s[..|s| - 1]) + (s[|s| - 1] - '0') as nat
  }

  lemma {:induction false} DecimalRoundTrip(n: nat)
    ensures Value(Decimal(n)) == n
  {
    if n >= 10 {
      DecimalRoundTrip(n / 10);
      assert Decimal(n)[..|Decimal(n)| - 1] == Decimal(n / 10);
    } else {
      assert [Digit(n)][..0] == [];
    }
  }

  lemma DecimalLength(n: nat)
    ensures n < 100 ==> |Decimal(n)| <= 2
    ensures n < 1000 ==> |Decimal(n)| <= 3
  {
  }

  /** Four numbers with dots between them. */
  function Typed(a: nat, b: nat, c: nat, d: nat): string
  {
    Decimal(a) + "." + (Decimal(b) + "." + (Decimal(c) + "." + Decimal(d)))
  }

  /** Dotted-decimal text, first octet in memory first. */
  function Dotted(a: u32): string { Typed(Octet0(a), Octet1(a), Octet2(a), Octet3(a)) }

  /** The full text `acl_format_ip` prints. */
  function Text(ip: u32, mask: u32): string
  {
    if ip == 0 && mask == 0 then "any"
    else if mask == 0xFFFF_FFFF then Dotted(ip)
    else Dotted(ip) + "/" + Decimal(BitCount(Swap32(mask)))
  }

  /** As it arrives in a buffer of `size` bytes. */
  function Format(ip: u32, mask: u32, size: nat): string
  {
    var t := Text(ip, mask);
    if size == 0 then "" else t[..Min(|t|, size - 1)]
  }

  /** First position of a character, or |s|. */
  function Find(s: string, c: char): (i: nat)
    ensures i <= |s| && (i < |s| ==> s[i] == c) && forall k :: 0 <= k < i ==> s[k] != c
  {
    if s == [] || s[0] == c then 0 else 1 + Find(s[1..], c)
  }

  function Split(s: string, c: char): seq<string>
    decreases |s|
  {
    var i := Find(s, c);
    if i == |s| then [s] else [s[..i]] + Split(s[i + 1..], c)
  }

  predicate IsOctetText(s: string) { s != [] && AllDigits(s) && Value(s) <= 255 }

  /** Dotted-decimal parsing: four numbers up to 255. */
  function Aton(s: string): Option<u32>
  {
    var p := Split(s, '.');
    if |p| == 4 && IsOctetText(p[0]) && IsOctetText(p[1]) && IsOctetText(p[2]) && IsOctetText(p[3])
    then Some(Octets(Value(p[0]), Value(p[1]), Value(p[2]), Value(p[3])))
    else None
  }

  predicate IsSpace(c: char) { c == ' ' || '\t' <= c <= '\r' }

  function LeadingDigits(s: string): (n: nat)
    ensures n <= |s| && AllDigits(s[..n]) && (n < |s| ==> !IsDigit(s[n]))
  {
    if s == [] || !IsDigit(s[0]) then 0
    else
      var n := LeadingDigits(s[1..]);
      assert s[..n + 1] == [s[0]] + s[1..][..n];
      n + 1
  }

  /** C's `atoi`, on unbounded numbers. */
  function Atoi(s: string): int
  {
    if s == [] then 0
    else if IsSpace(s[0]) then Atoi(s[1..])
    else if s[0] == '-' then -(Value(s[1..][..LeadingDigits(s[1..])]) as int)
    else if s[0] == '+' then Value(s[1..][..LeadingDigits(s[1..])])
    else Value(s[..LeadingDigits(s)])
  }

  function Lower(c: char): char { if 'A' <= c <= 'Z' then 'a' + (c - 'A') else c }

  predicate IsAny(s: string)
  {
    |s| == 3 && Lower(s[0]) == 'a' && Lower(s[1]) == 'n' && Lower(s[2]) == 'y'
  }

  const IP_TEXT_MAX: nat := 31

  /** The address text and the prefix length, as found before and after the slash. */
  function ParsePrefix(address: string, cidr: int): Option<(u32, u32)>
  {
    if cidr < 0 || cidr > 32 then None
    else
      match Aton(address)
      case None => None
      case Some(a) => Some((AndU32(a, Mask(cidr)), Mask(cidr)))
  }

  /** `acl_parse_ip`: address and mask, or an error. */
  function Parse(s: string): Option<(u32, u32)>
  {
    if IsAny(s) then Some((0, 0))
    else
      var t := s[..Min(|s|, IP_TEXT_MAX)];
      var slash := Find(t, '/');
      if slash < |t| then ParsePrefix(t[..slash], Atoi(t[slash + 1..])) else ParsePrefix(t, 32)
  }

  /** What a parsed pair looks like: a prefix mask and an address without host bits. */
  ghost predicate Canonical(ip: u32, mask: u32)
  {
    exists n: nat :: n <= 32 && mask == Mask(n) && ip == AndU32(ip, Mask(n))
  }

  lemma SwapUniform(b: byte)
    ensures Swap32(Octets(b, b, b, b)) == Octets(b, b, b, b)
  {
    OctetsRoundTrip(b, b, b, b);
  }

  lemma MaskOfZero(n: nat)
    requires n == 0
    ensures Mask(n) == 0
  {
    SwapUniform(n);
  }

  lemma MaskOfAll(n: nat, b: byte)
    requires n == 32 && b == 255
    ensures Mask(n) == 0xFFFF_FFFF
  {
    SwapUniform(b);
    assert HostMask(n) == Octets(b, b, b, b);
  }

  lemma MasksDiffer(n: nat, m: nat)
    requires n <= 32 && m <= 32
    ensures Mask(n) == Mask(m) ==> n == m
  {
    CountInvertsMask(n);
    CountInvertsMask(m);
  }

  /** The shortest mask is 0.0.0.0 and the longest 255.255.255.255, and no other is. */
  lemma MaskEnds(n: nat, none: nat, all: nat)
    requires n <= 32 && none == 0 && all == 32
    ensures Mask(n) == 0 <==> n == none
    ensures Mask(n) == 0xFFFF_FFFF <==> n == all
  {
    hide *;
    MasksDiffer(n, none);
    MasksDiffer(n, all);
    MaskOfZero(none);
    MaskOfAll(all, 255);
  }

  lemma ParsePrefixIsCanonical(address: string, cidr: int)
    ensures var r := ParsePrefix(address, cidr); r.Some? ==> Canonical(r.value.0, r.value.1)
  {
    if 0 <= cidr <= 32 && Aton(address).Some? {
      AndIdempotent(Aton(address).value, Mask(cidr));
    }
  }

  lemma AnyIsCanonical(n: nat)
    requires n == 0
    ensures Canonical(n, n)
  {
    MaskEnds(n, 0, 32);
    AndZero(n);
  }

  lemma ParseIsCanonical(s: string)
    ensures Parse(s).Some? ==> Canonical(Parse(s).value.0, Parse(s).value.1)
  {
    if IsAny(s) {
      AnyIsCanonical(0);
    } else {
      var t := s[..Min(|s|, IP_TEXT_MAX)];
      var slash := Find(t, '/');
      if slash < |t| {
        ParsePrefixIsCanonical(t[..slash], Atoi(t[slash + 1..]));
      } else {
        ParsePrefixIsCanonical(t, 32);
      }
    }
  }

  predicate Without(s: string, c: char) { forall i :: 0 <= i < |s| ==> s[i] != c }

  lemma SplitFirst(a: string, rest: string, c: char)
    requires Without(a, c)
    ensures Split(a + [c] + rest, c) == [a] + Split(rest, c)
  {
    var s := a + [c] + rest;
    FindIs(s, c, |a|);
    assert s[..|a|] == a && s[|a| + 1..] == rest;
  }

  lemma FindIs(s: string, c: char, k: nat)
    requires k <= |s| && (k < |s| ==> s[k] == c) && forall i :: 0 <= i < k ==> s[i] != c
    ensures Find(s, c) == k
  {
  }

  lemma AtonRoundTrip(a: u32)
    ensures Aton(Dotted(a)) == Some(a)
  {
    hide Octet0, Octet1, Octet2, Octet3, Octets, Decimal, Value, Split;
    SplitFour(Decimal(Octet0(a)), Decimal(Octet1(a)), Decimal(Octet2(a)), Decimal(Octet3(a)));
    OctetText(Octet0(a));
    OctetText(Octet1(a));
    OctetText(Octet2(a));
    OctetText(Octet3(a));
    OctetsOf(a);
  }

  lemma OctetText(b: byte)
    ensures IsOctetText(Decimal(b)) && Value(Decimal(b)) == b
  {
    DecimalRoundTrip(b);
  }

  lemma SplitLast(s: string, c: char)
    requires Without(s, c)
    ensures Split(s, c) == [s]
  {
    FindIs(s, c, |s|);
  }

  lemma SplitFour(a: string, b: string, c: string, d: string)
    requires Without(a, '.') && Without(b, '.') && Without(c, '.') && Without(d, '.')
    ensures Split(a + "." + (b + "." + (c + "." + d)), '.') == [a, b, c, d]
  {
    hide *;
    SplitFirst(a, b + "." + (c + "." + d), '.');
    SplitFirst(b, c + "." + d, '.');
    SplitFirst(c, d, '.');
    SplitLast(d, '.');
    assert [a] + ([b] + ([c] + [d])) == [a, b, c, d];
  }

  lemma DottedShape(a: u32)
    ensures |Dotted(a)| <= 15 && Without(Dotted(a), '/') && !IsAny(Dotted(a))
    ensures IsDigit(Dotted(a)[0])
  {
    DecimalLength(Octet0(a));
    DecimalLength(Octet1(a));
    DecimalLength(Octet2(a));
    DecimalLength(Octet3(a));
    assert Dotted(a)[0] == Decimal(Octet0(a))[0];
  }

  lemma AtoiOfDecimal(n: nat)
    ensures Atoi(Decimal(n)) == n
  {
    var d := Decimal(n);
    assert IsDigit(d[0]);
    AllLeadingDigits(d);
    assert d[..|d|] == d;
    DecimalRoundTrip(n);
  }

  lemma {:induction false} AllLeadingDigits(s: string)
    requires AllDigits(s)
    ensures LeadingDigits(s) == |s|
    decreases |s|
  {
    if s != [] { AllLeadingDigits(s[1..]); }
  }

  /** A prefix mask's text is the dotted address, with the length behind a slash unless it is 32. */
  lemma TextOfMask(ip: u32, n: nat)
    requires n <= 32 && n > 0
    ensures Text(ip, Mask(n)) == if n == 32 then Dotted(ip) else Dotted(ip) + "/" + Decimal(n)
  {
    MaskEnds(n, 0, 32);
    CountInvertsMask(n);
  }

  lemma ParseOfDotted(ip: u32)
    ensures |Dotted(ip)| <= 15 && Parse(Dotted(ip)) == ParsePrefix(Dotted(ip), 32)
  {
    DottedShape(ip);
    var t := Dotted(ip);
    assert t[..|t|] == t;
    FindIs(t, '/', |t|);
  }

  lemma ParseOfSlashed(ip: u32, n: nat)
    requires n <= 32
    ensures var t := Dotted(ip) + "/" + Decimal(n); |t| <= 18 && Parse(t) == ParsePrefix(Dotted(ip), n)
  {
    DottedShape(ip);
    DecimalLength(n);
    var t := Dotted(ip) + "/" + Decimal(n);
    assert t[..|t|] == t && t[0] == Dotted(ip)[0];
    FindIs(t, '/', |Dotted(ip)|);
    assert t[..|Dotted(ip)|] == Dotted(ip) && t[|Dotted(ip)| + 1..] == Decimal(n);
    AtoiOfDecimal(n);
  }

  /** Formatting into a buffer of at least 19 bytes and parsing gives the pair back exactly for pairs a parse can
      produce: a prefix mask of any length, "any" and bare addresses included, and no host bits. */
  lemma RoundTripIff(ip: u32, mask: u32, size: nat)
    requires size >= 19
    ensures Parse(Format(ip, mask, size)) == Some((ip, mask)) <==> Canonical(ip, mask)
  {
    if Canonical(ip, mask) {
      var n: nat :| n <= 32 && mask == Mask(n) && ip == AndU32(ip, Mask(n));
      CanonicalRoundTrip(ip, n, size);
    }
    ParseIsCanonical(Format(ip, mask, size));
  }

  lemma CanonicalRoundTrip(ip: u32, n: nat, size: nat)
    requires size >= 19 && n <= 32 && ip == AndU32(ip, Mask(n))
    ensures Parse(Format(ip, Mask(n), size)) == Some((ip, Mask(n)))
  {
    if n == 0 {
      AnyRoundTrip(ip, n, size);
    } else {
      TextOfMask(ip, n);
      AtonRoundTrip(ip);
      ParseOfDotted(ip);
      ParseOfSlashed(ip, n);
      NotCut(Text(ip, Mask(n)), size);
    }
  }

  lemma NotCut(t: string, size: nat)
    requires |t| < size
    ensures t[..Min(|t|, size - 1)] == t
  {
  }

  lemma AnyRoundTrip(ip: u32, n: nat, size: nat)
    requires size >= 19 && n == 0 && ip == AndU32(ip, Mask(n))
    ensures Parse(Format(ip, Mask(n), size)) == Some((ip, Mask(n)))
  {
    hide Mask, And;
    MaskOfZero(n);
    AndZero(ip);
    NotCut("any", size);
    assert Text(ip, Mask(n)) == "any";
  }

  lemma TypedShape(a: nat, b: nat, c: nat, d: nat)
    requires a < 1000 && b < 1000 && c < 1000 && d < 1000
    ensures var t := Typed(a, b, c, d); 0 < |t| <= 15 && Without(t, '/') && IsDigit(t[0])
  {
    DecimalLength(a);
    DecimalLength(b);
    DecimalLength(c);
    DecimalLength(d);
    assert Typed(a, b, c, d)[0] == Decimal(a)[0];
  }

  lemma AtonOfTyped(a: nat, b: nat, c: nat, d: nat)
    ensures Aton(Typed(a, b, c, d)) ==
      if a <= 255 && b <= 255 && c <= 255 && d <= 255 then Some(Octets(a, b, c, d)) else None
  {
    hide Decimal, Value, Split, Octets;
    SplitFour(Decimal(a), Decimal(b), Decimal(c), Decimal(d));
    DecimalRoundTrip(a);
    DecimalRoundTrip(b);
    DecimalRoundTrip(c);
    DecimalRoundTrip(d);
  }

  /** What is accepted as typed: four numbers up to 255, first octet first, and a prefix length up to 32; host bits are
      cleared. Everything else of this form is refused. */
  lemma TypedPrefixIs(a: nat, b: nat, c: nat, d: nat, n: nat)
    requires a < 1000 && b < 1000 && c < 1000 && d < 1000 && n < 1000
    ensures Parse(Typed(a, b, c, d) + "/" + Decimal(n)) ==
      if a <= 255 && b <= 255 && c <= 255 && d <= 255 && n <= 32
      then Some((AndU32(Octets(a, b, c, d), Mask(n)), Mask(n))) else None
  {
    hide Aton, Mask, AndU32, Octets, Typed, Decimal;
    TypedShape(a, b, c, d);
    AtonOfTyped(a, b, c, d);
    DecimalLength(n);
    var t := Typed(a, b, c, d) + "/" + Decimal(n);
    assert t[..|t|] == t && t[0] == Typed(a, b, c, d)[0];
    FindIs(t, '/', |Typed(a, b, c, d)|);
    assert t[..|Typed(a, b, c, d)|] == Typed(a, b, c, d) && t[|Typed(a, b, c, d)| + 1..] == Decimal(n);
    AtoiOfDecimal(n);
  }

  /** Without a slash the address stands for itself alone. */
  lemma TypedAddressIs(a: nat, b: nat, c: nat, d: nat)
    requires a < 1000 && b < 1000 && c < 1000 && d < 1000
    ensures Parse(Typed(a, b, c, d)) ==
      if a <= 255 && b <= 255 && c <= 255
          && d <= 255 then Some((AndU32(Octets(a, b, c, d), Mask(32)), Mask(32))) else None
  {
    hide Aton, Mask, AndU32, Octets, Typed;
    TypedShape(a, b, c, d);
    AtonOfTyped(a, b, c, d);
    var t := Typed(a, b, c, d);
    assert t[..|t|] == t;
    FindIs(t, '/', |t|);
  }

  /** The words printed and taken for all addresses, in any case; and a printed prefix, first octet first. */
  lemma WordsAndDigits(a: byte, b: byte, c: byte, d: byte, n: nat)
    requires 0 < n < 32
    ensures Text(0, 0) == "any" && Parse("any") == Some((0, 0)) && Parse("Any") == Some((0, 0))
        && Parse("ANY") == Some((0, 0))
    ensures Text(Octets(a, b, c, d), Mask(n)) == Typed(a, b, c, d) + "/" + Decimal(n)
    ensures Text(Octets(a, b, c, d), 0xFFFF_FFFF) == Typed(a, b, c, d)
  {
    TextOfMask(Octets(a, b, c, d), n);
    OctetsRoundTrip(a, b, c, d);
    hide Decimal, Octets, Mask, Octet0, Octet1, Octet2, Octet3;
  }

  /** Digits as they are read: base ten, the first digit the most significant. */
  lemma DigitsOf(n: nat)
    ensures n < 10 ==> Decimal(n) == ["0123456789"[n]]
    ensures n >= 10 ==> Decimal(n) == Decimal(n / 10) + ["0123456789"[n % 10]]
  {
  }

  /** How the number behind the slash is read: white space, one sign, then as many digits as there are. */
  lemma AtoiReads(spaces: string, sign: string, digits: string, rest: string)
    requires forall i :: 0 <= i < |spaces| ==> spaces[i] == ' ' || 9 <= spaces[i] as int <= 13
    requires sign == "" || sign == "+" || sign == "-"
    requires AllDigits(digits) && (rest != [] ==> !IsDigit(rest[0])) && (digits == [] && sign == "" ==> rest == [])
    ensures Atoi(spaces + (sign + (digits + rest))) == if sign == "-" then -(Value(digits) as int) else Value(digits)
    decreases |spaces|
  {
    if spaces == [] {
      assert spaces + (sign + (digits + rest)) == sign + (digits + rest);
      DigitsLead(digits, rest);
      AtoiSigned(sign, digits + rest);
    } else {
      var s := spaces + (sign + (digits + rest));
      assert s[1..] == spaces[1..] + (sign + (digits + rest));
      AtoiReads(spaces[1..], sign, digits, rest);
    }
  }

  lemma AtoiSigned(sign: string, s: string)
    requires sign == "" || sign == "+" || sign == "-"
    requires sign == "" && s != [] ==> IsDigit(s[0])
    ensures var v := Value(s[..LeadingDigits(s)]); Atoi(sign + s) == if sign == "-" then -(v as int) else v
  {
    assert sign == "" ==> sign + s == s;
    assert sign != "" ==> (sign + s)[1..] == s;
  }

  lemma {:induction false} DigitsLead(digits: string, rest: string)
    requires AllDigits(digits) && (rest != [] ==> !IsDigit(rest[0]))
    ensures LeadingDigits(digits + rest) == |digits| && (digits + rest)[..|digits|] == digits
    decreases |digits|
  {
    if digits == [] {
      assert digits + rest == rest;
    } else {
      assert (digits + rest)[1..] == digits[1..] + rest;
      DigitsLead(digits[1..], rest);
    }
  }

  /** Exactly 31 characters count: a digit at the last of them does, and nothing behind them. */
  lemma ThirtyOneCount(a: byte, b: byte, c: byte, d: byte, zeros: string, n: nat, junk: string)
    requires n < 10 && (forall i :: 0 <= i < |zeros| ==> zeros[i] == '0')
    requires |Typed(a, b, c, d)| + 1 + |zeros| + 1 == 31
    ensures Parse(Typed(a, b, c, d) + "/" + zeros + Decimal(n) + junk)
      == Some((AndU32(Octets(a, b, c, d), Mask(n)), Mask(n)))
  {
    hide Aton, Mask, AndU32, Octets, Typed, Decimal, Atoi;
    TypedShape(a, b, c, d);
    AtonOfTyped(a, b, c, d);
    OneDigit(n);
    var front := Typed(a, b, c, d) + "/" + zeros + Decimal(n);
    var t := front + junk;
    assert t[..31] == front && t[0] == Typed(a, b, c, d)[0];
    FindIs(front, '/', |Typed(a, b, c, d)|);
    assert front[..|Typed(a, b, c, d)|] == Typed(a, b, c, d);
    assert front[|Typed(a, b, c, d)| + 1..] == zeros + Decimal(n);
    ZerosThen(zeros, n);
  }

  lemma OneDigit(n: nat)
    requires n < 10
    ensures |Decimal(n)| == 1 && Value(Decimal(n)) == n
  {
    DecimalRoundTrip(n);
  }

  lemma ZerosThen(zeros: string, n: nat)
    requires n < 10 && forall i :: 0 <= i < |zeros| ==> zeros[i] == '0'
    ensures Atoi(zeros + Decimal(n)) == n
  {
    hide Decimal, Atoi;
    var s := zeros + Decimal(n);
    assert AllDigits(s);
    assert [] + ("" + (s + [])) == s;
    AtoiReads([], "", s, []);
    OneDigit(n);
    LeadingZeros(zeros, Decimal(n)[0]);
    assert zeros + [Decimal(n)[0]] == s && [Decimal(n)[0]] == Decimal(n);
    assert Decimal(n)[..0] == [];
  }

  lemma {:induction false} LeadingZeros(zeros: string, c: char)
    requires IsDigit(c) && forall i :: 0 <= i < |zeros| ==> zeros[i] == '0'
    ensures AllDigits(zeros + [c]) && Value(zeros + [c]) == (c - '0') as nat
  {
    assert (zeros + [c])[..|zeros|] == zeros;
    ZeroValue(zeros);
  }

  lemma {:induction false} ZeroValue(zeros: string)
    requires forall i :: 0 <= i < |zeros| ==> zeros[i] == '0'
    ensures AllDigits(zeros) && Value(zeros) == 0
  {
    if zeros != [] { ZeroValue(zeros[..|zeros| - 1]); }
  }

  /** The printed text is cut so that its terminator fits, and only as far as that needs. */
  lemma FormatFits(ip: u32, mask: u32, size: nat)
    requires size > 0
    ensures var t := Format(ip, mask, size);
      t <= Text(ip, mask) && |t| < size && (|Text(ip, mask)| < size ==> t == Text(ip, mask))
      && (|Text(ip, mask)| >= size ==> |t| + 1 == size)
  {
  }
}
