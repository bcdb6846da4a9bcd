/** DHCP options octet by octet: what any well-formed block reads as, and what the server's own blocks say. */
module DhcpReplies {
  import opened Words
  import opened Wrappers
  import opened DhcpOptions

  /** What a client may put into its message: single padding bytes, and options with a length. */
  datatype Item = Pad | Field(o: Opt)

  predicate WellFormed(items: seq<Item>)
  {
    forall i :: 0 <= i < |items| && items[i].Field? ==>
      items[i].o.code != 0 && items[i].o.code != 255 && |items[i].o.data| <= 255
  }

  function Bytes(items: seq<Item>): seq<byte>
  {
    if items == [] then []
    else
      var first := if items[0].Pad? then [0] else [items[0].o.code, |items[0].o.data| % 256] + items[0].o.data;
      first + Bytes(items[1..])
  }

  function Fields(items: seq<Item>): seq<Opt>
  {
    if items == [] then []
    else (if items[0].Pad? then [] else [items[0].o]) + Fields(items[1..])
  }

  lemma ReadPad(before: seq<byte>, after: seq<byte>)
    ensures var b := before + [0] + after;
      DecodeFrom(b, |before|) == DecodeFrom(b, |before + [0]|)
          && ReachesEnd(b, |before|) == ReachesEnd(b, |before + [0]|)
  {
  }

  /** The walk reads the fields in order, over any padding, and goes on behind them. */
  lemma {:induction false} ReadItems(before: seq<byte>, items: seq<Item>, after: seq<byte>)
    requires WellFormed(items)
    ensures var b, at := before + Bytes(items) + after, |before + Bytes(items)|;
      DecodeFrom(b, |before|) == Fields(items) + DecodeFrom(b, at) && ReachesEnd(b, |before|) == ReachesEnd(b, at)
    decreases |items|
  {
    hide DecodeFrom, ReachesEnd, Encode, Bytes;
    if items == [] {
      NoItems(before, after);
    } else {
      var first, tail := Bytes([items[0]]), items[1..];
      FirstItem(items);
      Regroup(before, first, Bytes(tail), after);
      ReadItems(before + first, tail, after);
      ReadOne(before, items[0], Bytes(tail) + after);
      Chain(items, DecodeFrom(before + first + (Bytes(tail) + after), |before + Bytes(items)|));
    }
  }

  lemma NoItems(before: seq<byte>, after: seq<byte>)
    ensures before + Bytes([]) + after == before + after && before + Bytes([]) == before
  {
  }

  lemma FirstItem(items: seq<Item>)
    requires items != []
    ensures Bytes(items) == Bytes([items[0]]) + Bytes(items[1..])
    ensures Bytes([items[0]]) == if items[0].Pad? then [0] else Encode(items[0].o)
  {
    assert [items[0]][1..] == [];
  }

  lemma Regroup(a: seq<byte>, b: seq<byte>, c: seq<byte>, d: seq<byte>)
    ensures a + (b + c) + d == a + b + c + d == a + b + (c + d) && a + (b + c) == (a + b) + c
  {
  }

  lemma Chain(items: seq<Item>, rest: seq<Opt>)
    requires items != []
    ensures Fields(items) + rest == Fields([items[0]]) + (Fields(items[1..]) + rest)
  {
    assert [items[0]][1..] == [];
  }

  lemma ReadOne(before: seq<byte>, i: Item, after: seq<byte>)
    requires WellFormed([i])
    ensures var first := Bytes([i]);
      var b, next := before + first + after, |before + first|;
      DecodeFrom(b, |before|) == Fields([i]) + DecodeFrom(b, next) && ReachesEnd(b, |before|) == ReachesEnd(b, next)
  {
    hide DecodeFrom, ReachesEnd, Encode;
    FirstItem([i]);
    assert Fields([i]) == if i.Pad? then [] else [i.o] by {
      assert [i][1..] == [];
    }
    assert [i][0] == i;
    if i.Pad? {
      ReadPad(before, after);
    } else {
      DecodeOne(before, i.o, after);
    }
  }

  /** Nothing follows, or the beginning of an option whose length or data is cut off. */
  predicate CutOff(rest: seq<byte>)
  {
    rest == [] || (rest[0] != 0 && rest[0] != 255 && (|rest| == 1 || |rest| - 2 < rest[1] as int))
  }

  /** Any block: its fields are read up to END (255), whatever follows, or up to where the message is cut off. */
  lemma ReadBlock(before: seq<byte>, items: seq<Item>, rest: seq<byte>)
    requires WellFormed(items)
    ensures rest != [] && rest[0] == 255 ==> var b := before + Bytes(items) + rest;
      DecodeFrom(b, |before|) == Fields(items) && ReachesEnd(b, |before|)
    ensures CutOff(rest) ==> var b := before + Bytes(items) + rest;
      DecodeFrom(b, |before|) == Fields(items) && !ReachesEnd(b, |before|)
  {
    hide DecodeFrom, ReachesEnd, Bytes;
    ReadItems(before, items, rest);
    if rest != [] && rest[0] == 255 { AtEnd(before + Bytes(items), rest); }
    if CutOff(rest) { AtCut(before + Bytes(items), rest); }
  }

  lemma AtEnd(front: seq<byte>, rest: seq<byte>)
    requires rest != [] && rest[0] == 255
    ensures var b := front + rest; DecodeFrom(b, |front|) == [] && ReachesEnd(b, |front|)
  {
  }

  lemma AtCut(front: seq<byte>, rest: seq<byte>)
    requires CutOff(rest)
    ensures var b := front + rest; DecodeFrom(b, |front|) == [] && !ReachesEnd(b, |front|)
  {
  }

  /** The last field with this code and enough data counts, whatever surrounds it. */
  lemma {:induction false} LastCounts(before: seq<Opt>, o: Opt, after: seq<Opt>, code: byte, n: nat)
    requires forall i :: 0 <= i < |after| ==> after[i].code != code || |after[i].data| < n
    ensures o.code == code && |o.data| >= n ==> Last(before + [o] + after, code, n) == Some(o.data)
    ensures o.code != code || |o.data| < n ==> Last(before + [o] + after, code, n) == Last(before, code, n)
    decreases |after|
  {
    var opts := before + [o] + after;
    if after == [] {
      assert opts[..|opts| - 1] == before;
    } else {
      assert opts[..|opts| - 1] == before + [o] + after[..|after| - 1];
      LastCounts(before, o, after[..|after| - 1], code, n);
    }
  }

  /** The four bytes of an address in memory order, which is network order. */
  function Four(a: u32): seq<byte> { [a % 256, (a / 256) % 256, (a / 65536) % 256, a / 16777216] }

  /** An offer or acknowledgement, field by field and in order: message type (53), netmask (1), lease time in
      seconds (51), server (54), router (3), name servers (6), broadcast address (28), link MTU of 1500 (26),
      portal (114), no router discovery (31), and vendor data (43). */
  function Announced(kind: byte, c: Settings): seq<Opt>
  {
    var seconds: u32 := (c.leaseTime * c.leaseUnit) % 4294967296;
    [Opt(53, [kind]), Opt(1, [255, 255, 255, 0]),
     Opt(51, [seconds / 16777216, (seconds / 65536) % 256, (seconds / 256) % 256, seconds % 256]),
         Opt(54, Four(c.server))]
    + (if c.routerEnabled && c.gateway != 0 then [Opt(3, Four(c.gateway))] else [])
    + (if c.dnsEnabled then [Opt(6, if c.backupDns != 0 then Four(c.dns) + Four(c.backupDns) else Four(c.dns))]
       else if c.addDns then [Opt(6, Four(c.server))] else [])
    + [Opt(28, Four(c.server)[..3] + [255]), Opt(26, [5, 220])]
    + (if c.uri.Some? then [Opt(114, c.uri.value)] else [])
    + [Opt(31, [0]), Opt(43, [1, 4, 0, 0, 0, 2])]
  }


  lemma BytesOfOctets(a: byte, b: byte, c: byte, d: byte)
    ensures Bytes32(Octets(a, b, c, d)) == [a, b, c, d]
  {
    OctetsRoundTrip(a, b, c, d);
  }

  lemma BytesAreFour(a: u32)
    ensures Bytes32(a) == Four(a)
  {
  }

  /** Every offer and acknowledgement, octet by octet; a refusal (6) carries nothing but its type. */
  lemma RepliesAnnounce(kind: byte, c: Settings)
    ensures ReplyOptions(kind, c) == if kind == 6 then [Opt(53, [6])] else Announced(kind, c)
  {
    hide Octets, Octet0, Octet1, Octet2, Octet3, Bytes32, Four;
    BytesAreFour(c.server);
    BytesAreFour(c.gateway);
    BytesAreFour(c.dns);
    BytesAreFour(c.backupDns);
    BytesOfOctets(255, 255, 255, 0);
    Broadcast(c.server);
    LeaseFields(c);
    if kind == 6 {
      assert [Opt(53, [6])] + [] == [Opt(53, [6])];
    } else {
      Joined(Opt(53, [kind]), LeaseOptions(c), RouterOptions(c), DnsOptions(c), LinkOptions(c), PortalOptions(c),
          LAST_OPTIONS);
      assert [Opt(53, [kind])] + LeaseOptions(c)
        == [Opt(53, [kind]), LeaseOptions(c)[0], LeaseOptions(c)[1], LeaseOptions(c)[2]];
      assert Four(c.dns) + [] == Four(c.dns);
    }
  }

  lemma Joined(o: Opt, a: seq<Opt>, b: seq<Opt>, c: seq<Opt>, d: seq<Opt>, e: seq<Opt>, f: seq<Opt>)
    ensures [o] + (a + b + c + d + e + f) == ([o] + a) + b + c + d + e + f
  {
  }

  lemma Broadcast(server: u32)
    ensures Bytes32(BroadcastOf(server)) == Four(server)[..3] + [255]
  {
    BytesOfOctets(Octet0(server), Octet1(server), Octet2(server), 255);
  }

  lemma LeaseFields(c: Settings)
    ensures var seconds: u32 := (c.leaseTime * c.leaseUnit) % 4294967296;
      Be32Bytes(LeaseSeconds(c)) == [seconds / 16777216, (seconds / 65536) % 256, (seconds / 256) % 256, seconds % 256]
  {
  }
}
