/** Firewall rules as an ordered list: matching, first match, and what a packet says about itself. */
module AclRules {
  import opened Words
  import opened Sequences
  import opened Wrappers
  import opened Bits

  const ANY_PROTO: byte := 0
  const TCP: byte := 6
  const UDP: byte := 17
  const ACTION_ALLOW: byte := 1
  const NO_MATCH: byte := 0xFF

  /** `allow` is 0 or 1, plus 2 for monitoring. */
  datatype Rule = Rule(src: u32, srcMask: u32, dest: u32, destMask: u32, srcPort: u16, destPort: u16,
                       proto: byte, allow: byte, hits: u32)

  datatype Packet = Packet(src: u32, dest: u32, proto: byte, srcPort: u16, destPort: u16)

  predicate PortsMatch(r: Rule, p: Packet)
  {
    (r.srcPort == 0 && r.destPort == 0)
    || ((p.proto == TCP || p.proto == UDP)
       && (r.srcPort == 0 || r.srcPort == p.srcPort)
       && (r.destPort == 0 || r.destPort == p.destPort))
  }

  predicate Matches(r: Rule, p: Packet)
  {
    && (r.proto == ANY_PROTO || r.proto == p.proto)
    && AndU32(p.src, r.srcMask) == r.src
    && AndU32(p.dest, r.destMask) == r.dest
    && PortsMatch(r, p)
  }

  /** The rule `acl_add` stores, addresses masked. */
  function NewRule(src: u32, srcMask: u32, dest: u32, destMask: u32, proto: byte, srcPort: u16, destPort: u16,
      allow: byte): Rule
  {
    Rule(AndU32(src, srcMask), srcMask, AndU32(dest, destMask), destMask, srcPort, destPort, proto, allow, 0)
  }

  /** Position of the first matching rule, or |rs|. */
  function FirstMatch(rs: seq<Rule>, p: Packet): (k: nat)
    ensures k <= |rs|
    ensures k < |rs| ==> Matches(rs[k], p)
    ensures forall i :: 0 <= i < k ==> !Matches(rs[i], p)
  {
    if rs == [] || Matches(rs[0], p) then 0 else 1 + FirstMatch(rs[1..], p)
  }

  function ActionOf(r: Rule): byte { r.allow % 4 }

  /** First match decides; without one the packet passes. */
  function Verdict(rs: seq<Rule>, p: Packet): byte
  {
    var k := FirstMatch(rs, p);
    if k < |rs| then ActionOf(rs[k]) else NO_MATCH
  }

  /** The list after the check: the deciding rule has one more hit. */
  function Counted(rs: seq<Rule>, p: Packet): seq<Rule>
  {
    var k := FirstMatch(rs, p);
    if k < |rs| then rs[k := rs[k].(hits := (rs[k].hits + 1) % 0x1_0000_0000)] else rs
  }

  function Forgotten(rs: seq<Rule>): (r: seq<Rule>)
    ensures |r| == |rs|
  {
    seq(|rs|, i requires 0 <= i < |rs| => rs[i].(hits := 0))
  }

  lemma FirstMatchIs(rs: seq<Rule>, p: Packet, k: nat)
    requires k <= |rs| && (k < |rs| ==> Matches(rs[k], p)) && forall i :: 0 <= i < k ==> !Matches(rs[i], p)
    ensures FirstMatch(rs, p) == k
  {
  }

  /** A rule for a prefix matches exactly the addresses that agree with it on the prefix bits, at both ends; protocol
      and ports narrow it further, and a port filter never matches what has no ports. */
  lemma PrefixRuleMatchesIff(src: u32, n: nat, dest: u32, m: nat, proto: byte, srcPort: u16, destPort: u16,
      allow: byte, p: Packet)
    requires n <= 32 && m <= 32
    ensures Matches(NewRule(src, Mask(n), dest, Mask(m), proto, srcPort, destPort, allow), p) <==>
      && SamePrefixBits(p.src, src, n) && SamePrefixBits(p.dest, dest, m)
      && (proto == ANY_PROTO || proto == p.proto)
      && (srcPort != 0 ==> p.proto in {TCP, UDP} && srcPort == p.srcPort)
      && (destPort != 0 ==> p.proto in {TCP, UDP} && destPort == p.destPort)
  {
    hide Mask, AndU32, SamePrefixBits;
    MaskedMatchIff(p.src, src, n);
    MaskedMatchIff(p.dest, dest, m);
  }

  /** A list in two parts: the second decides what the first does not. */
  lemma {:induction false} VerdictOfParts(a: seq<Rule>, b: seq<Rule>, p: Packet)
    ensures FirstMatch(a + b, p) == if FirstMatch(a, p) < |a| then FirstMatch(a, p) else |a| + FirstMatch(b, p)
    ensures Verdict(a + b, p) == if FirstMatch(a, p) < |a| then Verdict(a, p) else Verdict(b, p)
    decreases |a|
  {
    hide Matches, ActionOf;
    if a == [] {
      assert a + b == b;
    } else {
      assert (a + b)[1..] == a[1..] + b;
      VerdictOfParts(a[1..], b, p);
    }
  }

  /** Appending decides only packets nothing before decided. */
  lemma AppendDecidesTheRest(rs: seq<Rule>, r: Rule, p: Packet)
    ensures Verdict(rs + [r], p) ==
      if FirstMatch(rs, p) < |rs| then Verdict(rs, p) else if Matches(r, p) then ActionOf(r) else NO_MATCH
  {
    hide Matches, ActionOf;
    VerdictOfParts(rs, [r], p);
  }

  /** Deleting a rule changes the verdict only on packets it decided, and those fall to the rules behind it. */
  lemma DeleteChangesOnlyItsOwn(rs: seq<Rule>, d: nat, p: Packet)
    requires d < |rs|
    ensures Verdict(RemoveAt(rs, d), p) == if FirstMatch(rs, p) == d then Verdict(rs[d + 1..], p) else Verdict(rs, p)
  {
    hide Matches, Verdict, FirstMatch;
    var a, x, b := rs[..d], [rs[d]], rs[d + 1..];
    assert rs == a + (x + b) && RemoveAt(rs, d) == a + b;
    VerdictOfParts(a, b, p);
    VerdictOfParts(a, x + b, p);
    VerdictOfParts(x, b, p);
    MatchOfOne(rs[d], p);
  }

  lemma MatchOfOne(r: Rule, p: Packet)
    ensures FirstMatch([r], p) == if Matches(r, p) then 0 else 1
  {
  }

  /** Counting hits does not change what is matched. */
  lemma CountingIsHarmless(rs: seq<Rule>, p: Packet, q: Packet)
    ensures Verdict(Counted(rs, p), q) == Verdict(rs, q)
  {
    var c := Counted(rs, p);
    assert forall i :: 0 <= i < |rs| ==> (Matches(c[i], q) <==> Matches(rs[i], q));
    FirstMatchIs(c, q, FirstMatch(rs, q));
  }

  /** Nor does forgetting them. */
  lemma ForgettingIsHarmless(rs: seq<Rule>, q: Packet)
    ensures Verdict(Forgotten(rs), q) == Verdict(rs, q)
  {
    var c := Forgotten(rs);
    assert forall i :: 0 <= i < |rs| ==> (Matches(c[i], q) <==> Matches(rs[i], q));
    FirstMatchIs(c, q, FirstMatch(rs, q));
  }

  /** What the check reads from a buffer; None lets the packet pass unchecked. */
  function ParsePacket(b: seq<byte>): Option<Packet>
  {
    if |b| >= 14 && IsEthernet(b) then
      if Be16(b[12], b[13]) == 0x0800 then ParseIp(b[14..]) else None
    else ParseIp(b)
  }

  /** An Ethertype the check knows, or a length field. */
  predicate IsEthernet(b: seq<byte>)
    requires |b| >= 14
  {
    var t := Be16(b[12], b[13]);
    t == 0x0800 || t == 0x0806 || t == 0x86DD || t < 0x0600
  }

  function ParseIp(b: seq<byte>): Option<Packet>
  {
    if |b| < 20 || b[0] / 16 != 4 then None
    else
      var (srcPort, destPort) := Ports(b, 4 * (b[0] % 16), b[9]);
      Some(Packet(Le32(b[12..16]), Le32(b[16..20]), b[9], srcPort, destPort))
  }

  /** Ports of a TCP or UDP packet whose transport header is complete, else zero. */
  function Ports(b: seq<byte>, at: nat, proto: byte): (u16, u16)
  {
    if (proto == TCP && |b| >= at + 20) || (proto == UDP && |b| >= at + 8)
    then (Be16(b[at], b[at + 1]), Be16(b[at + 2], b[at + 3]))
    else (0, 0)
  }
}
