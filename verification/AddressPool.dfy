/** Which addresses the server hands out: `dhcps_poll_set`, and the copy of its arithmetic the console prints. */
module AddressPool {
  import opened Words
  import opened Addresses
  import opened LeaseMachine
  import opened LeaseAllocation

  const MAX_LEASE: nat := 100

  /** A pool as configured: `enable` tells whether it was set by hand. */
  datatype Poll = Poll(enable: bool, start: u32, end: u32)

  /** Number of addresses as the code computes it, on 32 bits. */
  function Count32(first: u32, last: u32): u32 { (last as int - first + 1) % 0x1_0000_0000 }

  /** The side of the server's /24 with more addresses, at most 100 of them, network and broadcast address left out. */
  function DefaultHosts(server: u32): (byte, byte)
  {
    var h := Host(server);
    if h > 255 - h then (1, Min(h - 1, MAX_LEASE)) else (h + 1, Min(254, h + MAX_LEASE))
  }

  function DefaultPool(server: u32): Poll
  {
    var (first, last) := DefaultHosts(server);
    Poll(true, Address(Prefix(server), first), Address(Prefix(server), last))
  }

  /** A pool set by hand is taken when it lies in the server's /24, leaves the server out and is not too large. */
  predicate Accepted(poll: Poll, server: u32)
  {
    && poll.enable
    && !(Swap32(poll.start) <= Swap32(server) <= Swap32(poll.end))
    && Prefix(poll.start) == Prefix(server) && Prefix(poll.end) == Prefix(server)
    && Count32(Swap32(poll.start), Swap32(poll.end)) <= MAX_LEASE
  }

  /** The pool in force for this configuration. */
  function Effective(poll: Poll, server: u32): Poll { if Accepted(poll, server) then poll else DefaultPool(server) }

  /** `dhcps_poll_set` with the mask 255.255.255.0. */
  method PollSet(poll: Poll, server: u32) returns (r: Poll)
    ensures r == Effective(poll, server)
  {
    r := poll;
    var serverIp := Swap32(server);
    if r.enable {
      var startIp, endIp := Swap32(r.start), Swap32(r.end);
      if serverIp >= startIp && serverIp <= endIp {
        r := r.(enable := false);
      } else if Prefix(r.start) != Prefix(server) || Prefix(r.end) != Prefix(server)
          || Count32(startIp, endIp) > MAX_LEASE {
        r := r.(enable := false);
      }
    }
    if !r.enable {
      var first, last := GetPoolRange(server);
      r := Poll(true, first, last);
    }
  }

  /** `get_dhcp_pool_range`: the same computation. */
  method GetPoolRange(server: u32) returns (start: u32, end: u32)
    ensures Poll(true, start, end) == DefaultPool(server)
  {
    hide Swap32, Host, Prefix, Address;
    var serverHost: int := Swap32(server);
    HostOrder(server, Host(server));
    var first: int := serverHost - serverHost % 0x100;
    ghost var network := first;
    var last: int := first + 0xFF;
    if serverHost - first > last - serverHost {
      first := first + 1;
      last := serverHost - 1;
    } else {
      first := serverHost + 1;
      last := last - 1;
    }
    if last - first + 1 > MAX_LEASE {
      last := first + MAX_LEASE - 1;
    }
    HostOrder(server, first - network);
    HostOrder(server, last - network);
    start, end := Swap32(first), Swap32(last);
  }

  /** Host order: the last octet is the low byte, and adding to the network address counts hosts. */
  lemma HostOrder(server: u32, k: byte)
    ensures Swap32(server) % 0x100 == Host(server)
    ensures var network: int := Swap32(server) - Host(server);
      0 <= network + k < 0x1_0000_0000 && Swap32(network + k) == Address(Prefix(server), k)
  {
    var a, b, c, d := Octet0(server), Octet1(server), Octet2(server), Octet3(server);
    var high: int := c as int + 0x100 * (b as int) + 0x1_0000 * (a as int);
    Split256(d, high);
    OctetsOf(server);
    assert Swap32(server) - d + k == Octets(k, c, b, a);
    SwapOctets(k, c, b, a);
    SameLowOctets(a, b, c, d, k);
  }

  lemma SameLowOctets(a: byte, b: byte, c: byte, d: byte, k: byte)
    ensures Octets(a, b, c, k) == Address(Prefix(Octets(a, b, c, d)), k)
  {
    var low: int := a + 0x100 * b + 0x1_0000 * c;
    assert Octets(a, b, c, d) == low + PREFIX * d;
    assert (low + PREFIX * d) % PREFIX == low;
  }

  /** The default pool is fit for the lease server: in the server's /24, exactly 100 addresses, none of them the
      server's own, the network's or the broadcast address. */
  lemma DefaultPoolIsOk(server: u32, timer: u32)
    requires timer >= 1
    ensures var d := DefaultPool(server);
      var p := Pool(d.start, d.end, timer);
      && PoolOk(p) && Prefix(p.start) == Prefix(server)
      && Host(p.end) - Host(p.start) + 1 == MAX_LEASE
      && (forall a :: InPool(p, a) ==> a != server && Host(a) != 0 && Host(a) != 255)
  {
    var (first, last) := DefaultHosts(server);
    AddressParts(Prefix(server), first);
    AddressParts(Prefix(server), last);
    var d := DefaultPool(server);
    var p := Pool(d.start, d.end, timer);
    forall a | InPool(p, a)
      ensures a != server && Host(a) != 0 && Host(a) != 255
    {
      HostsOfPool(p, a);
    }
  }

  lemma HostsOfPool(p: Pool, a: u32)
    requires Prefix(p.start) == Prefix(p.end) && InPool(p, a)
    ensures Host(p.start) <= Host(a) <= Host(p.end)
  {
    RawOrderIsNumericOrder(a, p.start);
    RawOrderIsNumericOrder(p.end, a);
  }

  /** Which hundred addresses: hosts 1 to 100 for a server at host 128 or above, and the hundred behind it otherwise. */
  lemma DefaultPoolIs(server: u32)
    ensures var d, h := DefaultPool(server), Host(server);
      && d.enable && Prefix(d.start) == Prefix(server) && Prefix(d.end) == Prefix(server)
      && Host(d.start) == (if h >= 128 then 1 else h + 1) && Host(d.end) == (if h >= 128 then 100 else h + 100)
  {
    var (first, last) := DefaultHosts(server);
    AddressParts(Prefix(server), first);
    AddressParts(Prefix(server), last);
  }

  /** A configured pool is taken if and only if it lies in the server's /24, does not range over the server, and
      has at most 100 addresses; an empty one may only just be empty. */
  lemma AcceptedIff(poll: Poll, server: u32)
    ensures Accepted(poll, server) <==>
      && poll.enable && Prefix(poll.start) == Prefix(server) && Prefix(poll.end) == Prefix(server)
      && !(Host(poll.start) <= Host(server) <= Host(poll.end))
      && Host(poll.start) - 1 <= Host(poll.end) <= Host(poll.start) + 99
  {
    if Prefix(poll.start) == Prefix(server) && Prefix(poll.end) == Prefix(server) {
      NumericParts(poll.start);
      NumericParts(poll.end);
      NumericParts(server);
      SameNetworkIff(poll.start, server);
      SameNetworkIff(poll.end, server);
    }
  }
}
