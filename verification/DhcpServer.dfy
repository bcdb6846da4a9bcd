/** The server object: its fields and linked list updated in place, proved against the state machine on values. */
module DhcpServer {
  import opened Words
  import opened Sequences
  import opened Addresses
  import opened LeaseList
  import opened DhcpOptions
  import opened LeaseMachine
  import Reservations

  class Server {
    const pool: Pool
    var plist: Node?
    var clientAddress: u32
    var clientAddressPlus: u32
    var renew: bool
    var hasDeclinedIp: bool
    ghost var nodes: seq<Node>
    ghost var leases: seq<Lease>

    /** The list is linked and carries `leases`. */
    ghost predicate Valid()
      reads this, nodes
    {
      Linked(plist, nodes) && Carries(nodes, leases)
    }

    ghost function Abstract(): State
      reads this
    {
      State(leases, clientAddressPlus, clientAddress, renew, hasDeclinedIp)
    }

    /** A server just started: no leases, the cursor at the start of the pool. */
    constructor (pool: Pool)
      ensures Valid() && this.pool == pool && nodes == []
      ensures Abstract() == State([], pool.start, 0, false, false)
    {
      this.pool := pool;
      plist, nodes, leases := null, [], [];
      clientAddress, clientAddressPlus := 0, pool.start;
      renew, hasDeclinedIp := false, false;
    }

    /** `parse_msg`. */
    method ParseMsg(t: Reservations.Table, m: Message) returns (verdict: Verdict)
      requires Valid()
      modifies this, nodes
      ensures Valid() && forall n :: n in nodes ==> n in old(nodes) || fresh(n)
      ensures (Abstract(), verdict) == Handle(t.entries[..], pool, old(Abstract()), m)
    {
      hide Linked, Carries, Conclude, Recognised, Allocated, Choice, IndexOfMac, UpperBound;
      if !m.cookieOk { return Ignored; }
      var node;
      ghost var k: nat;
      node, k := Locate(t, m);
      if node == null { return Nacked; }
      assert node in nodes && forall n :: n in nodes ==> n in old(nodes) || fresh(n);
      verdict := Finish(node, k, m);
    }

    /** The lease of the client, found by the walk or new; null when the pool is used up. */
    method Locate(t: Reservations.Table, m: Message) returns (node: Node?, ghost k: nat)
      requires Valid()
      modifies this, nodes
      ensures Valid() && forall n :: n in nodes ==> n in old(nodes) || fresh(n)
      ensures node != null ==> k < |nodes| && nodes[k] == node
      ensures var st, client := old(Abstract()), Choice(t.entries[..], pool, old(Abstract()), m.mac);
        var i := IndexOfMac(st.leases, m.mac);
        if i < |st.leases| then node != null && k == i && Abstract() == Recognised(pool, st, i, m.ciaddr)
        else if client > pool.end then
          node == null && Abstract() == State(st.leases, pool.start, client, false, false)
        else
          node != null && k == UpperBound(st.leases, client) && Abstract() == Allocated(pool, st, client, m.mac)
    {
      hide Linked, Carries, Recognised, Advance, FirstUnused, SkipReserved, Insert, InsertAt, CursorAfter;
      hide Reservations.Lookup, IndexOfMac, UpperBound;
      var first;
      node, first, k := Walk(m);
      if node == null {
        node, k := NewLease(t, m.mac, first);
      }
    }

    /** An address for a MAC without a lease, and its lease; null when the pool is used up. */
    method NewLease(t: Reservations.Table, mac: Mac, first: u32) returns (node: Node?, ghost k: nat)
      requires Valid() && !renew && !hasDeclinedIp
      modifies this`plist, this`nodes, this`leases, this`clientAddress, this`clientAddressPlus,
          (set n | n in nodes)`next
      ensures var before := if old(clientAddressPlus) > pool.end then first else old(clientAddress);
        var own := Reservations.Lookup(t.entries[..], mac);
        clientAddress == if own != 0 then own else SkipReserved(t.entries[..], before, pool.end, mac)
      ensures Valid() && !renew && !hasDeclinedIp
      ensures clientAddress > pool.end ==>
        node == null && nodes == old(nodes) && leases == old(leases) && clientAddressPlus == pool.start
      ensures clientAddress <= pool.end ==>
        && k == UpperBound(old(leases), clientAddress)
        && k < |nodes| && node == nodes[k] && fresh(node) && (forall n :: n in nodes ==> n in old(nodes) || n == node)
        && Abstract() == Allocated(pool, old(Abstract()), clientAddress, mac)
    {
      hide Linked, Carries, SkipReserved, Insert, InsertAt, CursorAfter, Reservations.Lookup;
      node, k := null, 0;
      if clientAddressPlus > pool.end {
        clientAddress := first;
      }
      SkipReservedAddresses(t, mac);
      var reserved := t.LookupIp(mac);
      if reserved != 0 {
        clientAddress := reserved;
      }
      if clientAddress > pool.end {
        clientAddressPlus := pool.start;
      } else {
        node, k := Allocate(mac);
      }
    }

    /** The walk over the list: it recognises the client, or moves the cursor and the fallback search along. */
    method Walk(m: Message) returns (node: Node?, first: u32, ghost k: nat)
      requires Valid()
      modifies this`clientAddress, this`clientAddressPlus, this`renew, this`hasDeclinedIp, this`leases,
          (set n | n in nodes)`timer
      ensures Valid() && (k < |old(leases)| ==> k < |nodes|)
      ensures var st := old(Abstract());
        k == IndexOfMac(st.leases, m.mac) &&
        if k < |st.leases| then node == nodes[k] && Abstract() == Recognised(pool, st, k, m.ciaddr)
        else
          && node == null && leases == st.leases && !renew && !hasDeclinedIp
          && clientAddressPlus == Advance(st.leases, st.cursor)
          && first == FirstUnused(st.leases, pool.start).0
          && clientAddress == if st.leases == [] && !st.declined then pool.start else clientAddressPlus
    {
      hide Advance, FirstUnused, Linked, Carries, IndexOfMac;
      HeadAndLength(plist, nodes, leases);
      ghost var ls := leases;
      AtEmptyList(clientAddressPlus, pool.start);
      node, first, k := null, pool.start, 0;
      clientAddress := clientAddressPlus;
      renew := false;
      if plist == null {
        if hasDeclinedIp {
          hasDeclinedIp := false;
        } else {
          clientAddress := pool.start;
        }
        return;
      }
      hasDeclinedIp := false;
      var cursor;
      node, first, cursor, k := Search(m.mac, clientAddressPlus);
      clientAddressPlus := cursor;
      if node == null {
        clientAddress := cursor;
        assert ls[..|ls|] == ls;
      } else {
        Recognise(node, k, m.ciaddr);
      }
    }

    method Recognise(node: Node, ghost k: nat, ciaddr: u32)
      requires Valid() && k < |nodes| && nodes[k] == node && !renew
      modifies this`clientAddress, this`renew, this`leases, node`timer
      ensures Valid()
      ensures clientAddress == old(leases)[k].ip && renew == (clientAddress == ciaddr)
      ensures leases == old(leases)[k := old(leases)[k].(timer := pool.timer)]
    {
      assert leases[k].ip == node.ip;
      if node.ip == ciaddr {
        renew := true;
      }
      clientAddress := node.ip;
      SetTimer(node, k, pool.timer);
    }

    method SetTimer(node: Node, ghost k: nat, timer: u32)
      requires Valid() && k < |nodes| && nodes[k] == node
      modifies node`timer, this`leases
      ensures Valid() && node.timer == timer && leases == old(leases)[k := old(leases)[k].(timer := timer)]
    {
      assert leases[k].ip == node.ip;
      node.timer := timer;
      leases := leases[k := leases[k].(timer := timer)];
    }

    /** The loop of the walk; its match ends it. */
    method Search(mac: Mac, start: u32) returns (node: Node?, first: u32, cursor: u32, ghost k: nat)
      requires Valid()
      ensures k == IndexOfMac(leases, mac) && node == if k < |leases| then nodes[k] else null
      ensures cursor == Advance(leases[..k], start)
      ensures first == FirstUnused(leases[..k], pool.start).0
    {
      hide Advance, FirstUnused, IndexOfMac, Next;
      AtEmptyList(start, pool.start);
      node, first, cursor, k := null, pool.start, start, 0;
      var found := false;
      var p := plist;
      while p != null
        invariant k <= |nodes| && p == if k < |nodes| then nodes[k] else null
        invariant forall i :: 0 <= i < k ==> leases[i].mac != mac
        invariant cursor == Advance(leases[..k], start)
        invariant (first, found) == FirstUnused(leases[..k], pool.start)
        decreases |nodes| - k
      {
        assert leases[k].mac == p.mac && leases[k].ip == p.ip;
        WalkStep(leases, k, start, pool.start);
        if p.mac == mac {
          return p, first, cursor, k;
        } else if p.ip == cursor {
          cursor := Next(cursor);
        }
        if !found {
          if first < p.ip {
            found := true;
          } else {
            first := Next(first);
          }
        }
        p := p.next;
        k := k + 1;
      }
    }

    /** The loop over addresses reserved for another MAC. */
    method SkipReservedAddresses(t: Reservations.Table, mac: Mac)
      modifies this`clientAddress
      ensures clientAddress == SkipReserved(t.entries[..], old(clientAddress), pool.end, mac)
    {
      while clientAddress <= pool.end
        invariant SkipReserved(t.entries[..], clientAddress, pool.end, mac)
               == SkipReserved(t.entries[..], old(clientAddress), pool.end, mac)
        decreases SkipMeasure(clientAddress)
      {
        var other := t.IsReservedForOther(clientAddress, mac);
        if !other { break; }
        SkipDecreases(clientAddress);
        clientAddress := Next(clientAddress);
      }
    }

    /** A fresh lease of the chosen address goes into the list, and the cursor past it. */
    method Allocate(mac: Mac) returns (node: Node, ghost k: nat)
      requires Valid()
      modifies this`plist, this`nodes, this`leases, this`clientAddressPlus, (set n | n in nodes)`next
      ensures Valid() && fresh(node)
      ensures k == UpperBound(old(leases), clientAddress) && k < |nodes| && nodes[k] == node
      ensures forall n :: n in nodes ==> n in old(nodes) || n == node
      ensures leases == Insert(old(leases), Lease(clientAddress, mac, pool.timer, []))
      ensures clientAddressPlus == CursorAfter(pool, clientAddress)
    {
      hide Linked, InsertAt;
      node := new Node(clientAddress, mac, pool.timer);
      k := UpperBound(leases, node.ip);
      plist := InsertNode(plist, node, nodes, leases);
      InsertMembers(nodes, k, node);
      nodes, leases := InsertAt(nodes, k, node), Insert(leases, Lease(clientAddress, mac, pool.timer, []));
      clientAddressPlus := if clientAddress == pool.end then pool.start else Next(clientAddress);
    }

    /** From the address check on. */
    method Finish(node: Node, ghost k: nat, m: Message) returns (verdict: Verdict)
      requires Valid() && k < |nodes| && nodes[k] == node
      modifies this`plist, this`nodes, this`leases, this`clientAddress, this`hasDeclinedIp,
          (set n | n in nodes)`next, node`hostname
      ensures Valid() && forall n :: n in nodes ==> n in old(nodes)
      ensures (Abstract(), verdict) == Conclude(pool, old(Abstract()), k, m)
    {
      if clientAddress > pool.end || clientAddress == 0 {
        Unlink(node, k);
        return Nacked;
      }
      var hostname;
      verdict, hostname := ParseOptions(m.options, clientAddress, renew);
      if verdict.Released? || verdict.Nacked? || verdict.Declined? {
        Unlink(node, k);
        if verdict.Declined? {
          hasDeclinedIp := true;
        }
        clientAddress := 0;
      } else {
        node.hostname := hostname;
        leases := leases[k := leases[k].(hostname := hostname)];
      }
    }

    method Unlink(node: Node, ghost k: nat)
      requires Valid() && k < |nodes| && nodes[k] == node
      modifies this`plist, this`nodes, this`leases, (set n | n in nodes)`next
      ensures Valid() && nodes == RemoveAt(old(nodes), k) && leases == RemoveAt(old(leases), k)
      ensures forall n :: n in nodes ==> n in old(nodes)
    {
      hide Linked, RemoveAt;
      HeadAndLength(plist, nodes, leases);
      RemoveMembers(nodes, k);
      plist := RemoveNode(plist, node, nodes, k);
      CarriesAfterRemove(nodes, leases, k);
      nodes, leases := RemoveAt(nodes, k), RemoveAt(leases, k);
    }

    /** `dhcps_tmr`: count down, drop what expired, evict the oldest lease of a crowded list. */
    method OnTick()
      requires Valid()
      modifies this`plist, this`nodes, this`leases, (set n | n in nodes)`next, (set n | n in nodes)`timer
      ensures Valid() && forall n :: n in nodes ==> n in old(nodes)
      ensures leases == Tick(old(leases))
    {
      var count := ExpireLeases();
      if count > MAX_STATION_NUM {
        EvictOldest();
      }
    }

    method EvictOldest()
      requires Valid() && |nodes| >= 2
      modifies this`plist, this`nodes, this`leases, (set n | n in nodes)`next
      ensures Valid() && nodes == RemoveAt(old(nodes), Oldest(old(leases)))
          && leases == RemoveAt(old(leases), Oldest(old(leases)))
    {
      hide Linked, Oldest, RemoveAt;
      HeadAndLength(plist, nodes, leases);
      ghost var k := Oldest(leases);
      plist := RemoveOldest(plist, nodes, leases);
      CarriesAfterRemove(nodes, leases, k);
      nodes, leases := RemoveAt(nodes, k), RemoveAt(leases, k);
    }

    /** One step of the walk of the tick: a lease counts down, and goes if it reaches zero. */
    method CountDownAt(p: Node, ghost j: nat) returns (next: Node?, expired: bool)
      requires Valid() && j < |nodes| && nodes[j] == p
      modifies this`plist, this`nodes, this`leases, (set n | n in nodes)`next, (set n | n in nodes)`timer
      ensures Valid() && forall n :: n in nodes ==> n in old(nodes)
      ensures var l := old(leases)[j];
        var counted := old(leases)[j := l.(timer := CountDown(l.timer))];
        expired == (CountDown(l.timer) == 0) && leases == if expired then RemoveAt(counted, j) else counted
      ensures var k := if expired then j else j + 1; next == if k < |nodes| then nodes[k] else null
    {
      hide RemoveAt;
      assert p in nodes && leases[j].timer == p.timer;
      SetTimer(p, j, CountDown(p.timer));
      next, expired := p.next, p.timer == 0;
      if expired {
        Unlink(p, j);
      }
    }

    /** The walk of the tick; leases are unlinked while it goes on, and the survivors counted in a byte. */
    method ExpireLeases() returns (count: byte)
      requires Valid()
      modifies this`plist, this`nodes, this`leases, (set n | n in nodes)`next, (set n | n in nodes)`timer
      ensures Valid() && forall n :: n in nodes ==> n in old(nodes)
      ensures leases == Expire(old(leases)) && count == LowByte(|leases|)
    {
      hide Expire, PartlyExpired, RemoveAt, Linked, CountDown, LowByte, IncrementByte;
      NextLowByte(0);
      ghost var ls := leases;
      StartExpiry(ls);
      count := 0;
      var p := plist;
      HeadOf(plist, nodes);
      ghost var i, j := 0, 0;  // leases seen, leases kept
      while p != null
        invariant Valid() && forall n :: n in nodes ==> n in old(nodes)
        invariant 0 <= j <= |nodes| && p == if j < |nodes| then nodes[j] else null
        invariant PartlyExpired(ls, i, leases, j)
        invariant count == LowByte(j)
        decreases |ls| - i
      {
        ExpireOne(ls, i, leases, j);
        var expired;
        p, expired := CountDownAt(p, j);
        if !expired {
          NextLowByte(j);
          count := IncrementByte(count);
          j := j + 1;
        }
        i := i + 1;
      }
      EndExpiry(ls, i, leases, j);
    }
  }

  lemma InsertMembers(nodes: seq<Node>, k: nat, x: Node)
    requires k <= |nodes|
    ensures forall n :: n in InsertAt(nodes, k, x) ==> n in nodes || n == x
  {
  }

  lemma RemoveMembers(nodes: seq<Node>, k: nat)
    requires k < |nodes|
    ensures forall n :: n in RemoveAt(nodes, k) ==> n in nodes
  {
  }

  /** One more lease of the walk. */
  lemma WalkStep(ls: seq<Lease>, k: nat, cursor: u32, start: u32)
    requires k < |ls|
    ensures var c := Advance(ls[..k], cursor); Advance(ls[..k + 1], cursor) == if ls[k].ip == c then Next(c) else c
    ensures var (first, found) := FirstUnused(ls[..k], start);
      FirstUnused(ls[..k + 1], start)
        == if found then (first, true) else if first < ls[k].ip then (first, true) else (Next(first), false)
  {
    hide Next;
    assert ls[..k + 1][..k] == ls[..k];
  }

  lemma AtEmptyList(cursor: u32, start: u32)
    ensures Advance([], cursor) == cursor && FirstUnused([], start) == (start, false)
  {
  }

  /** `++` on a byte. */
  function IncrementByte(x: byte): byte { if x == 0xFF then 0 else x + 1 }

  /** What a byte that counts up to n holds. */
  function LowByte(n: nat): byte { n % 0x100 }

  lemma NextLowByte(n: nat)
    ensures LowByte(n + 1) == IncrementByte(LowByte(n)) && LowByte(0) == 0
  {
  }

  lemma HeadAndLength(head: Node?, nodes: seq<Node>, leases: seq<Lease>)
    requires Linked(head, nodes) && Carries(nodes, leases)
    ensures |nodes| == |leases| && (head == null <==> leases == [])
  {
  }

  lemma HeadOf(head: Node?, nodes: seq<Node>)
    requires Linked(head, nodes)
    ensures head == if nodes == [] then null else nodes[0]
  {
  }

  lemma StartExpiry(ls: seq<Lease>)
    ensures PartlyExpired(ls, 0, ls, 0)
  {
  }

  lemma EndExpiry(ls: seq<Lease>, i: nat, now: seq<Lease>, j: nat)
    requires PartlyExpired(ls, i, now, j) && j == |now|
    ensures now == Expire(ls)
  {
    assert ls[..i] == ls;
  }

  /** The walk has passed the first i of the leases `ls` and kept j. */
  ghost predicate PartlyExpired(ls: seq<Lease>, i: nat, now: seq<Lease>, j: nat)
  {
    i <= |ls| && j == |Expire(ls[..i])| && now == Expire(ls[..i]) + ls[i..]
  }

  lemma ExpireOne(ls: seq<Lease>, i: nat, now: seq<Lease>, j: nat)
    requires PartlyExpired(ls, i, now, j) && j < |now|
    ensures i < |ls|
    ensures var timer := CountDown(now[j].timer);
      var next := now[j := now[j].(timer := timer)];
      if timer == 0 then PartlyExpired(ls, i + 1, RemoveAt(next, j), j) else PartlyExpired(ls, i + 1, next, j + 1)
  {
    assert now[j] == ls[i];
    assert ls[..i + 1][..i] == ls[..i];
    assert ls[i..][1..] == ls[i + 1..];
  }
}
