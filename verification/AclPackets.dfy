/** The firewall from the bytes of a frame to its verdict. */
module AclPackets {
  import opened Words
  import opened Wrappers
  import opened Bits
  import opened AclRules
  import opened AclFirewall

  /** A frame of ARP (0x0806) or IPv6 (0x86DD), or with a length in place of its type. */
  predicate NotIpv4Frame(b: seq<byte>)
  {
    |b| >= 14 && (b[12] < 6 || (b[12] == 8 && b[13] == 6) || (b[12] == 134 && b[13] == 221))
  }

  /** Where the IP header is looked for: behind the Ethernet header of a frame of type 0x0800, else at the start. */
  function IpAt(b: seq<byte>): nat { if |b| >= 14 && b[12] == 8 && b[13] == 0 then 14 else 0 }

  /** TCP with 20 bytes of header, or UDP with 8. */
  predicate HasPorts(b: seq<byte>, at: nat)
    requires |b| >= at + 20
  {
    var transport := at + 4 * (b[at] % 16);
    (b[at + 9] == 6 && |b| >= transport + 20) || (b[at + 9] == 17 && |b| >= transport + 8)
  }

  /** The header at the start of a buffer. */
  lemma ParsedIp(ip: seq<byte>)
    ensures ParseIp(ip).Some? <==> |ip| >= 20 && ip[0] / 16 == 4
    ensures ParseIp(ip).Some? ==>
      var p, transport := ParseIp(ip).value, 4 * (ip[0] % 16);
      && Bytes32(p.src) == ip[12..16] && Bytes32(p.dest) == ip[16..20] && p.proto == ip[9]
      && (HasPorts(ip, 0) ==>
          && p.srcPort == 256 * (ip[transport] as int) + ip[transport + 1]
          && p.destPort == 256 * (ip[transport + 2] as int) + ip[transport + 3])
      && (!HasPorts(ip, 0) ==> p.srcPort == 0 && p.destPort == 0)
  {
    hide Bytes32, Le32;
    if ParseIp(ip).Some? {
      BytesBack(ip[12..16]);
      BytesBack(ip[16..20]);
    }
  }

  /** For any bytes: what is read, and from where. */
  lemma ParsedIff(b: seq<byte>)
    ensures var at := IpAt(b);
      ParsePacket(b).Some? <==> !NotIpv4Frame(b) && |b| >= at + 20 && b[at] / 16 == 4
    ensures ParsePacket(b).Some? ==>
      var p, at := ParsePacket(b).value, IpAt(b);
      var transport := at + 4 * (b[at] % 16);
      && Bytes32(p.src) == b[at + 12..at + 16] && Bytes32(p.dest) == b[at + 16..at + 20] && p.proto == b[at + 9]
      && (HasPorts(b, at) ==>
          && p.srcPort == 256 * (b[transport] as int) + b[transport + 1]
          && p.destPort == 256 * (b[transport + 2] as int) + b[transport + 3])
      && (!HasPorts(b, at) ==> p.srcPort == 0 && p.destPort == 0)
  {
    hide Bytes32, ParseIp;
    var at := IpAt(b);
    var ip := b[at..];
    ParsedIp(ip);
    Located(b);
    if ParsePacket(b).Some? {
      assert ip[12..16] == b[at + 12..at + 16] && ip[16..20] == b[at + 16..at + 20];
      assert HasPorts(b, at) == HasPorts(ip, 0);
    }
  }

  lemma Located(b: seq<byte>)
    ensures ParsePacket(b) == if NotIpv4Frame(b) then None else ParseIp(b[IpAt(b)..])
  {
    hide ParseIp;
    assert b[0..] == b;
  }

  lemma BytesBack(b: seq<byte>)
    requires |b| == 4
    ensures Bytes32(Le32(b)) == b
  {
    OctetsRoundTrip(b[0], b[1], b[2], b[3]);
  }

  /** An IPv4 header of `words` 32-bit words; `plain` are the bytes between the first and the protocol, and `check` the
      two of the checksum. */
  datatype Header = Header(words: nat, plain: seq<byte>, proto: byte, check: seq<byte>, src: u32, dest: u32,
                           options: seq<byte>)

  predicate WellFormed(h: Header)
  {
    5 <= h.words <= 15 && |h.plain| == 8 && |h.check| == 2 && |h.options| == 4 * (h.words - 5)
  }

  function HeaderBytes(h: Header): (b: seq<byte>)
    requires WellFormed(h)
    ensures |b| == 4 * h.words
  {
    [64 + h.words] + h.plain + [h.proto] + h.check + Bytes32(h.src) + Bytes32(h.dest) + h.options
  }

  /** The packet behind a header with this transport part. */
  function PacketOf(h: Header, transport: seq<byte>): Packet
  {
    var ports := (h.proto == 6 && |transport| >= 20) || (h.proto == 17 && |transport| >= 8);
    Packet(h.src, h.dest, h.proto, if ports then 256 * (transport[0] as int) + transport[1] else 0,
           if ports then 256 * (transport[2] as int) + transport[3] else 0)
  }

  lemma HeaderFields(h: Header)
    requires WellFormed(h)
    ensures var b := HeaderBytes(h);
      && b[0] / 16 == 4 && b[0] % 16 == h.words && b[9] == h.proto
      && b[12..16] == Bytes32(h.src) && b[16..20] == Bytes32(h.dest)
  {
    hide Bytes32;
  }

  lemma HeaderReads(b: seq<byte>, at: nat, h: Header, transport: seq<byte>)
    requires WellFormed(h) && at == IpAt(b) && !NotIpv4Frame(b)
    requires at <= |b| && b[at..] == HeaderBytes(h) + transport
    ensures ParsePacket(b) == Some(PacketOf(h, transport))
  {
    hide Bytes32, HeaderBytes, ParsePacket;
    HeaderFields(h);
    var ip := HeaderBytes(h) + transport;
    assert forall i :: 0 <= i < |ip| ==> b[at + i] == ip[i];
    assert b[at + 12..at + 16] == ip[12..16] == Bytes32(h.src);
    assert b[at + 16..at + 20] == ip[16..20] == Bytes32(h.dest);
    ParsedIff(b);
    var p := ParsePacket(b).value;
    Bytes32RoundTrip(h.src);
    Bytes32RoundTrip(h.dest);
    Bytes32RoundTrip(p.src);
    Bytes32RoundTrip(p.dest);
  }

  function EthernetFrame(macs: seq<byte>, h: Header, transport: seq<byte>): seq<byte>
    requires WellFormed(h)
  {
    macs + [8, 0] + (HeaderBytes(h) + transport)
  }

  /** A frame is read as what it was built from: source as source, destination as destination, ports of TCP and UDP. */
  lemma FrameReads(macs: seq<byte>, h: Header, transport: seq<byte>)
    requires |macs| == 12 && WellFormed(h)
    ensures ParsePacket(EthernetFrame(macs, h, transport)) == Some(PacketOf(h, transport))
  {
    hide HeaderBytes, ParsePacket;
    var b := EthernetFrame(macs, h, transport);
    assert b[14..] == HeaderBytes(h) + transport;
    HeaderReads(b, 14, h, transport);
  }

  /** So is a bare packet, unless the first two octets of its source address look like a frame's type: 0 to 5 for a
      length, 8.6 or 134.221 for another protocol, which let it pass, or 8.0 for a frame, whose header is then
      looked for at byte 14. */
  lemma BareReads(h: Header, transport: seq<byte>)
    requires WellFormed(h)
    ensures var a, b := h.src % 256, (h.src / 256) % 256;
      var p := ParsePacket(HeaderBytes(h) + transport);
      && (a < 6 || (a == 8 && b == 6) || (a == 134 && b == 221) ==> p == None)
      && (a >= 6 && (a != 8 || (b != 0 && b != 6)) && (a != 134 || b != 221) ==> p == Some(PacketOf(h, transport)))
  {
    var b := HeaderBytes(h) + transport;
    HeaderFields(h);
    assert b[12] == HeaderBytes(h)[12..16][0] && b[13] == HeaderBytes(h)[12..16][1];
    assert b[0..] == b;
    hide HeaderBytes, ParsePacket;
    ParsedIff(b);
    if !NotIpv4Frame(b) && IpAt(b) == 0 { HeaderReads(b, 0, h, transport); }
  }

  /** Such a packet from 5.0.0.1 passes every list unread. */
  lemma BarePacketIsMissed(rs: seq<Rule>, h: Header, transport: seq<byte>)
    requires WellFormed(h) && h.src == Octets(5, 0, 0, 1)
    ensures FrameVerdict(rs, HeaderBytes(h) + transport) == 255
  {
    OctetsRoundTrip(5, 0, 0, 1);
    BareReads(h, transport);
  }

  /** A rule as it is entered: prefixes, protocol, ports, and the action with its monitoring bit. */
  datatype Spec = Spec(src: u32, n: nat, dest: u32, m: nat, proto: byte, srcPort: u16, destPort: u16, allow: byte)

  predicate ValidSpecs(specs: seq<Spec>) { forall i :: 0 <= i < |specs| ==> specs[i].n <= 32 && specs[i].m <= 32 }

  /** Both addresses agree on the prefix bits, and protocol and ports are the rule's where it names any. */
  predicate Covers(s: Spec, p: Packet)
    requires s.n <= 32 && s.m <= 32
  {
    && SamePrefixBits(p.src, s.src, s.n) && SamePrefixBits(p.dest, s.dest, s.m)
    && (s.proto == 0 || s.proto == p.proto)
    && (s.srcPort != 0 ==> (p.proto == 6 || p.proto == 17) && s.srcPort == p.srcPort)
    && (s.destPort != 0 ==> (p.proto == 6 || p.proto == 17) && s.destPort == p.destPort)
  }

  function RulesOf(specs: seq<Spec>): (rs: seq<Rule>)
    requires ValidSpecs(specs)
    ensures |rs| == |specs|
  {
    seq(|specs|, i requires 0 <= i < |specs| =>
      var s := specs[i]; NewRule(s.src, Mask(s.n), s.dest, Mask(s.m), s.proto, s.srcPort, s.destPort, s.allow))
  }

  /** End to end: a frame gets the action bit and the monitoring bit of the first rule that covers what it was
      built from, and 255 when none does. */
  lemma FrameDecided(specs: seq<Spec>, macs: seq<byte>, h: Header, transport: seq<byte>)
    requires ValidSpecs(specs) && |macs| == 12 && WellFormed(h)
    ensures var v, p := FrameVerdict(RulesOf(specs), EthernetFrame(macs, h, transport)), PacketOf(h, transport);
      && ((forall i :: 0 <= i < |specs| ==> !Covers(specs[i], p)) ==> v == 255)
      && (forall k :: 0 <= k < |specs| && Covers(specs[k], p) && (forall i :: 0 <= i < k ==> !Covers(specs[i], p)) ==>
            v == specs[k].allow % 2 + 2 * ((specs[k].allow / 2) % 2))
  {
    hide EthernetFrame, ParsePacket, PacketOf;
    FrameReads(macs, h, transport);
    PacketDecided(specs, PacketOf(h, transport));
  }

  lemma PacketDecided(specs: seq<Spec>, p: Packet)
    requires ValidSpecs(specs)
    ensures var v := Verdict(RulesOf(specs), p);
      && ((forall i :: 0 <= i < |specs| ==> !Covers(specs[i], p)) ==> v == 255)
      && (forall k :: 0 <= k < |specs| && Covers(specs[k], p) && (forall i :: 0 <= i < k ==> !Covers(specs[i], p)) ==>
            v == specs[k].allow % 2 + 2 * ((specs[k].allow / 2) % 2))
  {
    hide Matches, Covers, NewRule, Mask;
    var rs := RulesOf(specs);
    forall i | 0 <= i < |specs|
      ensures Matches(rs[i], p) <==> Covers(specs[i], p)
    {
      SpecMatchesIff(specs[i], p);
    }
    forall k | 0 <= k < |specs| && Covers(specs[k], p) && forall i :: 0 <= i < k ==> !Covers(specs[i], p)
      ensures Verdict(rs, p) == specs[k].allow % 2 + 2 * ((specs[k].allow / 2) % 2)
    {
      FirstMatchIs(rs, p, k);
      ActionBits(specs[k]);
    }
    if forall i :: 0 <= i < |specs| ==> !Covers(specs[i], p) { FirstMatchIs(rs, p, |rs|); }
  }

  lemma SpecMatchesIff(s: Spec, p: Packet)
    requires s.n <= 32 && s.m <= 32
    ensures Matches(NewRule(s.src, Mask(s.n), s.dest, Mask(s.m), s.proto, s.srcPort, s.destPort, s.allow), p)
      <==> Covers(s, p)
  {
    PrefixRuleMatchesIff(s.src, s.n, s.dest, s.m, s.proto, s.srcPort, s.destPort, s.allow, p);
  }

  lemma ActionBits(s: Spec)
    requires s.n <= 32 && s.m <= 32
    ensures var r := NewRule(s.src, Mask(s.n), s.dest, Mask(s.m), s.proto, s.srcPort, s.destPort, s.allow);
      ActionOf(r) == s.allow % 2 + 2 * ((s.allow / 2) % 2)
  {
    hide Mask, AndU32;
  }

  /** Frames the check cannot read pass: other protocols, length fields, other IP versions, short buffers. */
  lemma UnreadPasses(rs: seq<Rule>, b: seq<byte>)
    requires NotIpv4Frame(b) || |b| < 20 || |b| < IpAt(b) + 20 || b[IpAt(b)] / 16 != 4
    ensures FrameVerdict(rs, b) == 255
  {
    ParsedIff(b);
  }

  /** A check counts one hit, of the rule that decided, modulo 2^32, and changes nothing else. */
  lemma OneHit(rs: seq<Rule>, p: Packet, k: nat)
    requires k < |rs|
    ensures |Counted(rs, p)| == |rs|
    ensures var c, decides := Counted(rs, p)[k], Matches(rs[k], p) && forall i :: 0 <= i < k ==> !Matches(rs[i], p);
      && c == rs[k].(hits := c.hits)
      && c.hits == if !decides then rs[k].hits else if rs[k].hits == 4294967295 then 0 else rs[k].hits + 1
  {
    hide Matches;
    if Matches(rs[k], p) && forall i :: 0 <= i < k ==> !Matches(rs[i], p) { FirstMatchIs(rs, p, k); }
  }

  lemma HitsForgotten(rs: seq<Rule>, k: nat)
    requires k < |rs|
    ensures Forgotten(rs)[k] == rs[k].(hits := 0)
  {
  }
}
