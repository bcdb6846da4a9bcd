/** What a reply promises about the lease list, and what a message leaves alone. */
module LeaseReplies {
  import opened Words
  import opened Sequences
  import opened Wrappers
  import opened Addresses
  import opened LeaseList
  import opened DhcpOptions
  import opened LeaseMachine
  import opened LeaseInvariants
  import Reservations

  /** The lease of a MAC. */
  function LeaseOf(ls: seq<Lease>, mac: Mac): Option<Lease>
  {
    var k := IndexOfMac(ls, mac);
    if k < |ls| then Some(ls[k]) else None
  }

  lemma IndexOfMacIs(ls: seq<Lease>, mac: Mac, k: nat)
    requires OneLeaseEach(ls) && k < |ls| && ls[k].mac == mac
    ensures IndexOfMac(ls, mac) == k
  {
  }

  lemma LeaseAfterUpdate(ls: seq<Lease>, k: nat, l: Lease)
    requires OneLeaseEach(ls) && k < |ls| && l.mac == ls[k].mac
    ensures OneLeaseEach(ls[k := l])
    ensures forall mac :: LeaseOf(ls[k := l], mac) == if mac == l.mac then Some(l) else LeaseOf(ls, mac)
  {
    var r := ls[k := l];
    forall mac
      ensures LeaseOf(r, mac) == if mac == l.mac then Some(l) else LeaseOf(ls, mac)
    {
      if mac == l.mac {
        IndexOfMacIs(r, mac, k);
      } else if IndexOfMac(ls, mac) < |ls| {
        IndexOfMacIs(r, mac, IndexOfMac(ls, mac));
      }
    }
  }

  lemma LeaseAfterRemove(ls: seq<Lease>, k: nat)
    requires OneLeaseEach(ls) && k < |ls|
    ensures OneLeaseEach(RemoveAt(ls, k))
    ensures forall mac :: LeaseOf(RemoveAt(ls, k), mac) == if mac == ls[k].mac then None else LeaseOf(ls, mac)
  {
    var r := RemoveAt(ls, k);
    forall mac
      ensures LeaseOf(r, mac) == if mac == ls[k].mac then None else LeaseOf(ls, mac)
    {
      var i := IndexOfMac(ls, mac);
      if i < |ls| && i != k {
        IndexOfMacIs(r, mac, if i < k then i else i - 1);
      }
    }
  }

  lemma LeaseAfterInsert(ls: seq<Lease>, l: Lease)
    requires OneLeaseEach(ls) && IndexOfMac(ls, l.mac) == |ls|
    ensures OneLeaseEach(Insert(ls, l))
    ensures forall mac :: LeaseOf(Insert(ls, l), mac) == if mac == l.mac then Some(l) else LeaseOf(ls, mac)
  {
    var k, r := UpperBound(ls, l.ip), Insert(ls, l);
    MacsAfterInsert(ls, l);
    forall mac
      ensures LeaseOf(r, mac) == if mac == l.mac then Some(l) else LeaseOf(ls, mac)
    {
      var i := IndexOfMac(ls, mac);
      if mac == l.mac {
        IndexOfMacIs(r, mac, k);
      } else if i < |ls| {
        IndexOfMacIs(r, mac, if i < k then i else i + 1);
      }
    }
  }

  predicate Refused(v: Verdict) { v.Nacked? || v.Released? || v.Declined? }

  /** The last part of a step, for the client's lease number k. */
  lemma ConcludeDecides(p: Pool, st: State, k: nat, m: Message)
    requires OneLeaseEach(st.leases) && k < |st.leases|
    ensures var (st', v) := Conclude(p, st, k, m);
      var l := st.leases[k];
      && v != Ignored && OneLeaseEach(st'.leases)
      && (forall mac :: mac != l.mac ==> LeaseOf(st'.leases, mac) == LeaseOf(st.leases, mac))
      && (Refused(v) ==> LeaseOf(st'.leases, l.mac) == None)
      && (!Refused(v) ==> st'.client == st.client && 0 < st.client <= p.end)
      && (!Refused(v) ==> LeaseOf(st'.leases, l.mac) == Some(l.(hostname := Hostname(DecodeFrom(m.options, 0)))))
  {
    LeaseAfterRemove(st.leases, k);
    var l := st.leases[k].(hostname := Hostname(DecodeFrom(m.options, 0)));
    LeaseAfterUpdate(st.leases, k, l);
    IndexOfMacIs(st.leases[k := l], l.mac, k);
    assert LeaseOf(st.leases[k := l], l.mac) == Some(l);
  }

  /** Reply and lease agree, for any reservations: an offer or acknowledgement leaves the client holding the address in
      the reply with a full timer, a refusal, release or decline leaves it none, and nobody else's lease is touched. */
  lemma ReplyAndLeaseAgree(t: Reserved, p: Pool, st: State, m: Message)
    requires OneLeaseEach(st.leases) && m.cookieOk
    ensures var (st', v) := Handle(t, p, st, m);
      && OneLeaseEach(st'.leases)
      && (forall mac :: mac != m.mac ==> LeaseOf(st'.leases, mac) == LeaseOf(st.leases, mac))
      && (Refused(v) ==> LeaseOf(st'.leases, m.mac) == None)
      && (!Refused(v) ==>
          LeaseOf(st'.leases, m.mac) == Some(Lease(st'.client, m.mac, p.timer, Hostname(DecodeFrom(m.options, 0)))))
      && (!Refused(v) ==> 0 < st'.client <= p.end)
  {
    var i := IndexOfMac(st.leases, m.mac);
    var client := Choice(t, p, st, m.mac);
    if i < |st.leases| {
      var mid := Recognised(p, st, i, m.ciaddr);
      LeaseAfterUpdate(st.leases, i, mid.leases[i]);
      ConcludeDecides(p, mid, i, m);
    } else if client <= p.end {
      LeaseAfterInsert(st.leases, Lease(client, m.mac, p.timer, []));
      ConcludeDecides(p, Allocated(p, st, client, m.mac), UpperBound(st.leases, client), m);
    }
  }

  /** What the client has to say to be acknowledged: option 50 naming the address, or none and `ciaddr` naming it. */
  predicate Names(m: Message, address: u32)
  {
    var d := Last(DecodeFrom(m.options, 0), REQUESTED_IP, 4);
    if d.Some? then Le32(d.value[..4]) == address else m.ciaddr == address
  }

  /** No acknowledgement unless the client named the address it gets; without option 50 it also has to hold it. */
  lemma AckNamesTheAddress(t: Reserved, p: Pool, st: State, m: Message)
    requires Handle(t, p, st, m).1 == Acked
    ensures var st' := Handle(t, p, st, m).0;
      && Names(m, st'.client)
      && (Last(DecodeFrom(m.options, 0), REQUESTED_IP, 4).None? ==>
          LeaseOf(st.leases, m.mac).Some? && LeaseOf(st.leases, m.mac).value.ip == st'.client)
  {
    var i := IndexOfMac(st.leases, m.mac);
    if i < |st.leases| {
      AckNeedsTheAddress(m.options, st.leases[i].ip, st.leases[i].ip == m.ciaddr);
    } else {
      AckNeedsTheAddress(m.options, Choice(t, p, st, m.mac), false);
    }
  }

  predicate Passed(t: Reserved, b: u32, end: u32, mac: Mac) { b <= end && Reservations.ReservedForOther(t, b, mac) }

  /** From address to address in numeric order, the skip passes only over addresses reserved for others, all the way to
      its result, or over all there are up to 255.255.255.255, and then it ends at 0.0.0.0. */
  lemma {:induction false} SkipReservedSkips(t: Reserved, a: u32, end: u32, mac: Mac)
    ensures var r := SkipReserved(t, a, end, mac);
      if Swap32(a) <= Swap32(r) then forall b: u32 :: Swap32(a) <= Swap32(b) < Swap32(r) ==> Passed(t, b, end, mac)
      else r == 0 && forall b: u32 :: Swap32(a) <= Swap32(b) ==> Passed(t, b, end, mac)
    decreases SkipMeasure(a)
  {
    hide Swap32, Next;
    if Passed(t, a, end, mac) {
      SkipDecreases(a);
      SkipReservedSkips(t, Next(a), end, mac);
      SwapOfNext(a);
      if Swap32(Next(a)) < Swap32(a) { NextOfLast(t, a, end, mac); }
      forall b: u32 | Swap32(b) == Swap32(a)
        ensures b == a
      {
        SwapInjective(a, b);
      }
    }
  }

  lemma NextOfLast(t: Reserved, a: u32, end: u32, mac: Mac)
    requires Swap32(Next(a)) < Swap32(a)
    ensures Next(a) == 0 && SkipReserved(t, Next(a), end, mac) == Next(a)
    ensures Swap32(Next(a)) == 0 && Swap32(a) == 0xFFFF_FFFF
  {
    hide Swap32, Next;
    SwapOfNext(a);
    SwapZero(Next(a));
    assert !Reservations.ReservedForOther(t, 0, mac);
  }

  lemma {:induction false} SkipReservedStops(t: Reserved, a: u32, end: u32, mac: Mac)
    ensures var r := SkipReserved(t, a, end, mac); r > end || !Reservations.ReservedForOther(t, r, mac)
    decreases SkipMeasure(a)
  {
    if a <= end && Reservations.ReservedForOther(t, a, mac) {
      SkipDecreases(a);
      SkipReservedStops(t, Next(a), end, mac);
    }
  }

  /** Reservations and fresh leases: a client with a reservation not above the pool's end gets exactly that address,
      and one without never gets an address reserved for another. */
  lemma FreshLeaseRespectsReservations(t: Reserved, p: Pool, st: State, m: Message)
    requires m.cookieOk && OneLeaseEach(st.leases) && LeaseOf(st.leases, m.mac) == None
    ensures var l, own := LeaseOf(Handle(t, p, st, m).0.leases, m.mac), Reservations.Lookup(t, m.mac);
      && (l.Some? && own != 0 ==> l.value.ip == own)
      && (l.Some? && own == 0 ==> !Reservations.ReservedForOther(t, l.value.ip, m.mac))
      && (own > p.end ==> Handle(t, p, st, m).1 == Nacked)
      && (0 < own <= p.end ==> Choice(t, p, st, m.mac) == own)
  {
    ReplyAndLeaseAgree(t, p, st, m);
    SkipReservedStops(t, PoolChoice(p, st), p.end, m.mac);
    var client := Choice(t, p, st, m.mac);
    if client <= p.end {
      var mid := Allocated(p, st, client, m.mac);
      assert mid.client == client;
      var k := UpperBound(st.leases, client);
      assert Conclude(p, mid, k, m).0.client in {client, 0};
    }
  }
}
