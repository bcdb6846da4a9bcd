/** Which message gets which answer, and what it leaves behind: from the option bytes to the lease list. */
module LeaseVerdicts {
  import opened Words
  import opened Wrappers
  import opened LeaseList
  import opened DhcpOptions
  import opened LeaseMachine
  import opened LeaseAllocation
  import opened LeaseInvariants
  import opened LeaseReplies

  /** The address the answer is about: the client's own, or the one picked for it. */
  function AddressFor(t: Reserved, p: Pool, st: State, mac: Mac): u32
  {
    match LeaseOf(st.leases, mac)
    case Some(l) => l.ip
    case None => Choice(t, p, st, mac)
  }

  /** The last message type option, RFC 2132 section 9.6, says n. */
  predicate Says(opts: seq<Opt>, n: nat)
  {
    var d := Last(opts, 53, 1); d.Some? && d.value[0] == n
  }

  /** The last requested address option, RFC 2132 section 9.1, holds the bytes of `a`. */
  predicate Requests(opts: seq<Opt>, a: u32)
  {
    var d := Last(opts, 50, 4); d.Some? && d.value[..4] == Bytes32(a)
  }

  predicate RequestsNothing(opts: seq<Opt>) { Last(opts, 50, 4) == None }

  /** The client holds `a` and fills it in as its own address. */
  predicate Renews(st: State, m: Message, a: u32)
  {
    var l := LeaseOf(st.leases, m.mac); l.Some? && l.value.ip == a && m.ciaddr == a
  }

  /** The lease is gone, and the server keeps no address in mind. */
  predicate Ended(st': State, mac: Mac) { LeaseOf(st'.leases, mac) == None && st'.client == 0 }

  predicate Kept(p: Pool, st': State, mac: Mac, a: u32)
  {
    var l := LeaseOf(st'.leases, mac); l.Some? && l.value.ip == a && l.value.timer == p.timer && st'.client == a
  }

  /** For every message and state, by the numbers of the message types: a release (7) and a decline (4) end the
      lease, and only a decline is remembered; a discovery (1) is offered the address; a request (3) is
      acknowledged if it names the address by option 50, or without one by `ciaddr` while holding it, and otherwise
      refused, which ends the lease; any other type is answered by option 50 alone, and without one not at all. */
  lemma MessageDecides(t: Reserved, p: Pool, st: State, m: Message)
    requires m.cookieOk && OneLeaseEach(st.leases) && 0 < AddressFor(t, p, st, m.mac) <= p.end
    ensures var (st', v) := Handle(t, p, st, m);
      var opts, a := DecodeFrom(m.options, 0), AddressFor(t, p, st, m.mac);
      && (Says(opts, 7) ==> v == Released && Ended(st', m.mac))
      && (Says(opts, 4) ==> v == Declined && Ended(st', m.mac))
      && (st'.declined <==> Says(opts, 4))
      && (Says(opts, 1) ==> v == Offered && Kept(p, st', m.mac, a))
      && (Says(opts, 3) && (Requests(opts, a) || (RequestsNothing(opts) && Renews(st, m, a))) ==>
          v == Acked && Kept(p, st', m.mac, a))
      && (Says(opts, 3) && !Requests(opts, a) && !(RequestsNothing(opts) && Renews(st, m, a)) ==>
          v == Nacked && Ended(st', m.mac))
      && (!Says(opts, 1) && !Says(opts, 3) && !Says(opts, 4) && !Says(opts, 7) ==>
          && (Requests(opts, a) ==> v == Acked && Kept(p, st', m.mac, a))
          && (!Requests(opts, a) && !RequestsNothing(opts) ==> v == Nacked && Ended(st', m.mac))
          && (RequestsNothing(opts) ==> v == Idle && Kept(p, st', m.mac, a)))
  {
    ReplyAndLeaseAgree(t, p, st, m);
    var a, opts := AddressFor(t, p, st, m.mac), DecodeFrom(m.options, 0);
    RenewsIff(t, p, st, m);
    BytesDecide(m.options, a, Renews(st, m, a));
    HandleIs(t, p, st, m);
    hide Handle, LeaseOf, VerdictOn, Renews, DecodeFrom, Last, Says, Requests, RequestsNothing, Choice;
  }

  lemma RenewsIff(t: Reserved, p: Pool, st: State, m: Message)
    ensures var i, a := IndexOfMac(st.leases, m.mac), AddressFor(t, p, st, m.mac);
      Renews(st, m, a) <==> i < |st.leases| && st.leases[i].ip == m.ciaddr
  {
  }

  /** Behind the address check everything hangs on the verdict of the options. */
  lemma HandleIs(t: Reserved, p: Pool, st: State, m: Message)
    requires m.cookieOk && 0 < AddressFor(t, p, st, m.mac) <= p.end
    ensures var (st', v) := Handle(t, p, st, m);
      var a := AddressFor(t, p, st, m.mac);
      && v == VerdictOn(m.options, a, Renews(st, m, a)) && st'.declined == v.Declined?
      && st'.client == if Refused(v) then 0 else a
  {
    hide VerdictOn, DecodeFrom, Hostname, Choice;
    RenewsIff(t, p, st, m);
  }

  lemma BytesDecide(options: seq<byte>, a: u32, renews: bool)
    ensures var opts, v := DecodeFrom(options, 0), VerdictOn(options, a, renews);
      && (Says(opts, 7) ==> v == Released) && (Says(opts, 4) <==> v == Declined) && (Says(opts, 1) ==> v == Offered)
      && (Says(opts, 3) ==> v == if Requests(opts, a) || (RequestsNothing(opts) && renews) then Acked else Nacked)
      && (!Says(opts, 1) && !Says(opts, 3) && !Says(opts, 4) && !Says(opts, 7) ==>
          v == if Requests(opts, a) then Acked else if RequestsNothing(opts) then Idle else Nacked)
  {
    hide DecodeFrom, Last;
    var d := Last(DecodeFrom(options, 0), 50, 4);
    if d.Some? { BytesName(d.value[..4], a); }
  }

  lemma BytesName(b: seq<byte>, a: u32)
    requires |b| == 4
    ensures Le32(b) == a <==> b == Bytes32(a)
  {
    OctetsRoundTrip(b[0], b[1], b[2], b[3]);
    Bytes32RoundTrip(a);
    assert b == [b[0], b[1], b[2], b[3]];
  }

  /** No address for the client: 0.0.0.0, or one behind the pool. It is refused whatever it says, and holds nothing. */
  lemma NoAddressNoLease(t: Reserved, p: Pool, st: State, m: Message)
    requires m.cookieOk && OneLeaseEach(st.leases)
    requires AddressFor(t, p, st, m.mac) == 0 || AddressFor(t, p, st, m.mac) > p.end
    ensures var (st', v) := Handle(t, p, st, m);
      v == Nacked && LeaseOf(st'.leases, m.mac) == None && !st'.declined && st'.client == AddressFor(t, p, st, m.mac)
  {
    ReplyAndLeaseAgree(t, p, st, m);
    hide VerdictOn, DecodeFrom, Choice;
  }

  lemma WithoutCookieNothing(t: Reserved, p: Pool, st: State, m: Message)
    requires !m.cookieOk
    ensures Handle(t, p, st, m) == (st, Ignored)
  {
  }

  /** A message of a client with a lease moves the cursor only over the leases before it, to the smallest address that
      is free of them. */
  lemma KnownMovesTheCursor(t: Reserved, p: Pool, st: State, m: Message)
    requires PoolOk(p) && Sorted(st.leases) && UpTo(p, st.leases) && m.cookieOk
    requires IndexOfMac(st.leases, m.mac) < |st.leases|
    ensures var before := st.leases[..IndexOfMac(st.leases, m.mac)];
      var c := Handle(t, p, st, m).0.cursor;
      st.cursor <= c && !Leased(before, c) && FullBetween(before, st.cursor, c)
  {
    hide VerdictOn, DecodeFrom, Hostname;
    AdvanceFindsSmallestFree(p, st.leases[..IndexOfMac(st.leases, m.mac)], st.cursor);
  }

  /** A host name is the longest beginning of the last option 12, of at most 31 bytes, without a NUL. */
  lemma HostnameIs(opts: seq<Opt>)
    ensures var d, h := Last(opts, 12, 1), Hostname(opts);
      if d == None then h == []
      else h <= d.value && |h| <= 31 && 0 !in h && (|h| == 31 || |h| == |d.value| || d.value[|h|] == 0)
  {
    var d := Last(opts, 12, 1);
    if d.Some? { CStringIs(d.value[..Min(|d.value|, 31)]); }
  }

  lemma {:induction false} CStringIs(s: seq<byte>)
    ensures CString(s) <= s && 0 !in CString(s) && (|CString(s)| == |s| || s[|CString(s)|] == 0)
    decreases |s|
  {
    if s != [] && s[0] != 0 { CStringIs(s[1..]); }
  }
}
