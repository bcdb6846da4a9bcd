/** Pools that end at the broadcast address: without any reservation clients are served from a fully leased pool,
    and two leases share an address. */
module PoolWrap {
  import opened Words
  import opened Addresses
  import opened LeaseList
  import opened LeaseMachine
  import opened LeaseAllocation
  import opened LeaseInvariants
  import opened LeaseSharing
  import opened AddressPool
  import opened ClientMessages
  import opened SharingRuns
  import opened ConfiguredPools

  /** A pool of one /24 that has an address, and not 0.0.0.0 for its first. */
  predicate Usable(p: Pool) { Prefix(p.start) == Prefix(p.end) && 0 < p.start <= p.end }

  /** Address number i of the pool. */
  function At(p: Pool, i: nat): u32
    requires Usable(p) && i <= Span(p)
  {
    SpanIs(p);
    var a: int := p.start + PREFIX * i;
    a
  }

  lemma AtIs(p: Pool, i: nat)
    requires Usable(p) && i <= Span(p)
    ensures Prefix(At(p, i)) == Prefix(p.end) && 0 < p.start <= At(p, i) <= p.end && Span(p) <= 255
    ensures At(p, 0) == p.start && At(p, Span(p)) == p.end && (i < Span(p) ==> At(p, i) < p.end)
    ensures i < Span(p) ==> Next(At(p, i)) == At(p, i + 1) && At(p, i) < At(p, i + 1)
  {
    SpanIs(p);
    AddressOf(p.start);
    AddressParts(Prefix(p.start), Host(p.start) + i);
    if i < Span(p) { NextInPrefix(At(p, i)); }
  }

  /** The first k addresses of the pool, leased to clients 1 to k. */
  function Full(p: Pool, k: nat): (ls: seq<Lease>)
    requires Usable(p) && k <= Span(p) + 1
    ensures |ls| == k
    ensures forall i :: 0 <= i < k ==> ls[i] == Lease(At(p, i), i + 1, p.timer, [])
  {
    seq(k, i requires 0 <= i < k => Lease(At(p, i), i + 1, p.timer, []))
  }

  lemma FullGrows(p: Pool, k: nat)
    requires Usable(p) && k <= Span(p)
    ensures Full(p, k + 1) == Full(p, k) + [Lease(At(p, k), k + 1, p.timer, [])]
    ensures Insert(Full(p, k), Lease(At(p, k), k + 1, p.timer, [])) == Full(p, k + 1)
    ensures forall i :: 0 <= i < k ==> Full(p, k)[i].ip < At(p, k) && Full(p, k)[i].mac != k + 1
  {
    UpperBoundIs(Full(p, k), At(p, k), k);
  }

  function Fill(k: nat): seq<Event>
    requires k <= 256
  {
    seq(k, i requires 0 <= i < k => Asks([], i + 1))
  }

  lemma FillStep(p: Pool, st: State, k: nat)
    requires Usable(p) && k <= Span(p)
    requires st.leases == Full(p, k) && st.cursor == At(p, k)
    ensures var st' := Step(p, st, Asks([], k + 1));
      st'.leases == Full(p, k + 1) && st'.cursor == if k == Span(p) then p.start else At(p, k + 1)
  {
    hide At, Insert, Handle, Full;
    AtIs(p, k);
    AtIs(p, 0);
    FullGrows(p, k);
    AdvanceStays(st.leases, st.cursor);
    ChoiceWithoutReservations([], p, st, k + 1);
    assert PoolChoice(p, st) == At(p, k);
    AskedFor(p, st, [], k + 1, At(p, k));
  }

  /** k clients ask, one after the other. */
  lemma {:induction false} FillRun(p: Pool, st0: State, k: nat)
    requires Usable(p) && k <= Span(p) + 1 && Starting(p, st0)
    ensures var st := Run(p, st0, Fill(k));
      st.leases == Full(p, k) && st.cursor == if k == Span(p) + 1 then p.start else At(p, k)
  {
    hide Step, Full;
    if k == 0 {
      AtIs(p, 0);
      NobodyYet(p);
    } else {
      FillRun(p, st0, k - 1);
      FillStep(p, Run(p, st0, Fill(k - 1)), k - 1);
      assert Fill(k) == Fill(k - 1) + [Asks([], k)];
      RunSnoc(p, st0, Fill(k - 1), Asks([], k));
    }
  }

  lemma NobodyYet(p: Pool)
    requires Usable(p)
    ensures Full(p, 0) == []
  {
  }

  lemma AdvanceSnoc(ls: seq<Lease>, l: Lease, cursor: u32)
    ensures var c := Advance(ls, cursor); Advance(ls + [l], cursor) == if l.ip == c then Next(c) else c
  {
    hide Next;
    assert (ls + [l])[..|ls|] == ls;
  }

  lemma FirstUnusedSnoc(ls: seq<Lease>, l: Lease, start: u32)
    ensures var (first, found) := FirstUnused(ls, start);
      FirstUnused(ls + [l], start)
        == if found || first < l.ip then (first, true) else (Next(first), false)
  {
    hide Next;
    assert (ls + [l])[..|ls|] == ls;
  }

  /** From the start of a full pool the walk goes over all of it. */
  lemma {:induction false} AdvanceOverFull(p: Pool, k: nat)
    requires Usable(p) && k <= Span(p)
    ensures Advance(Full(p, k + 1), p.start) == Next(At(p, k))
  {
    hide At, Full, Next, Advance;
    AtIs(p, 0);
    AtIs(p, k);
    FullGrows(p, k);
    AdvanceSnoc(Full(p, k), Lease(At(p, k), k + 1, p.timer, []), p.start);
    if k == 0 {
      NobodyYet(p);
      AdvanceStays([], p.start);
    } else {
      AdvanceOverFull(p, k - 1);
      AtIs(p, k - 1);
    }
  }

  /** With one more lease below the pool, the fallback search comes out behind it. */
  lemma {:induction false} FallbackOverFull(p: Pool, x: Lease, k: nat)
    requires Usable(p) && k <= Span(p) && x.ip <= p.start
    ensures FirstUnused([x] + Full(p, k), p.start) == (Next(At(p, k)), false)
  {
    hide *;
    AtIs(p, 0);
    AtIs(p, k);
    if k == 0 {
      NobodyYet(p);
      OneBelow(x, p.start);
    } else {
      FallbackOverFull(p, x, k - 1);
      AtIs(p, k - 1);
      FullGrows(p, k - 1);
      var l := Lease(At(p, k - 1), k, p.timer, []);
      assert [x] + Full(p, k) == ([x] + Full(p, k - 1)) + [l];
      FirstUnusedSnoc([x] + Full(p, k - 1), l, p.start);
    }
  }

  lemma OneBelow(x: Lease, start: u32)
    requires x.ip <= start
    ensures FirstUnused([x] + [], start) == (Next(start), false)
  {
    hide Next;
    assert FirstUnused([], start) == (start, false);
    FirstUnusedSnoc([], x, start);
    assert [] + [x] == [x] + [];
  }

  lemma FallbackFinds(p: Pool, x: Lease)
    requires Usable(p) && x.ip <= p.start && Next(p.end) < p.end
    ensures FirstUnused([x] + Full(p, Span(p) + 1), p.start) == (Next(p.end), true)
  {
    hide At, Full, Next, FirstUnused;
    var k := Span(p);
    AtIs(p, k);
    FallbackOverFull(p, x, k);
    FullGrows(p, k);
    var l := Lease(At(p, k), k + 1, p.timer, []);
    assert [x] + Full(p, k + 1) == ([x] + Full(p, k)) + [l];
    FirstUnusedSnoc([x] + Full(p, k), l, p.start);
  }

  lemma FullIsLeased(p: Pool)
    requires Usable(p)
    ensures AllLeased(p, Full(p, Span(p) + 1))
  {
    var ls := Full(p, Span(p) + 1);
    forall a: u32 | InPool(p, a)
      ensures Leased(ls, a)
    {
      RawOrderIsNumericOrder(p.end, a);
      RawOrderIsNumericOrder(a, p.start);
      AddressOf(a);
      AddressOf(p.start);
      var i: int := Host(a) - Host(p.start);
      assert ls[i].ip == a;
    }
  }

  lemma NotInFull(p: Pool, a: u32)
    requires Usable(p) && Prefix(a) != Prefix(p.end)
    ensures var ls := Full(p, Span(p) + 1); forall i :: 0 <= i < |ls| ==> ls[i].ip != a
  {
    var ls := Full(p, Span(p) + 1);
    forall i | 0 <= i < |ls|
      ensures ls[i].ip != a
    {
      AtIs(p, i);
    }
  }

  /** The choice behind a full pool that ends at host 255: the first address of the next /24. */
  lemma BehindFull(p: Pool, st: State, mac: Mac)
    requires Usable(p) && Host(p.end) == 255 && st.leases == Full(p, Span(p) + 1) && st.cursor == p.start
    ensures Choice([], p, st, mac) == Next(p.end) && Next(p.end) < p.end && Prefix(Next(p.end)) != Prefix(p.end)
    ensures CursorAfter(p, Next(p.end)) == Next(Next(p.end))
  {
    AdvanceOverFull(p, Span(p));
    AtIs(p, Span(p));
    NextCrosses(p.end);
    ChoiceWithoutReservations([], p, st, mac);
  }

  /** The server takes a new client although the whole pool is leased. */
  ghost predicate ServesFromFull(p: Pool, st0: State, events: seq<Event>, e: Event)
  {
    && (forall d :: d in events ==> Unreserved(d)) && Unreserved(e) && e.Received?
    && var st := Run(p, st0, events);
       AllLeased(p, st.leases)
       && IndexOfMac(st.leases, e.m.mac) == |st.leases|
       && IndexOfMac(Step(p, st, e).leases, e.m.mac) < |Step(p, st, e).leases|
  }

  function FillAndDecline(p: Pool): seq<Event>
    requires Usable(p)
  {
    Fill(Span(p) + 1) + [Received([], Decline(0))]
  }

  /** The pool is filled, and a client declines the address behind it. */
  lemma FullAndBehind(p: Pool, st0: State)
    requires Usable(p) && Host(p.end) == 255 && Starting(p, st0)
    ensures var st := Run(p, st0, FillAndDecline(p));
      st.leases == Full(p, Span(p) + 1) && st.cursor == Next(Next(p.end))
  {
    hide Run, Handle, Next, Full, CursorAfter;
    var n := Span(p) + 1;
    FillRun(p, st0, n);
    var st := Run(p, st0, Fill(n));
    BehindFull(p, st, 0);
    UnknownToFull(p, 0);
    DeclineMovesTheCursor([], p, st, 0);
    RunSnoc(p, st0, Fill(n), Received([], Decline(0)));
  }

  lemma UnknownToFull(p: Pool, mac: Mac)
    requires Usable(p) && (mac == 0 || mac > Span(p) + 1)
    ensures IndexOfMac(Full(p, Span(p) + 1), mac) == Span(p) + 1
  {
  }

  /** The next client is served. */
  lemma FullPoolServes(p: Pool, st0: State) returns (events: seq<Event>, e: Event)
    requires Usable(p) && Host(p.end) == 255 && Starting(p, st0)
    ensures ServesFromFull(p, st0, events, e)
  {
    hide Run, Handle, Step, Next, Insert, Full, AllLeased, FillAndDecline, IndexOfMac;
    var n := Span(p) + 1;
    events, e := FillAndDecline(p), Asks([], n + 1);
    FullAndBehind(p, st0);
    var st := Run(p, st0, events);
    UnreservedFill(p);
    TwoBehind(p, st, n + 1);
    UnknownToFull(p, n + 1);
    FullIsLeased(p);
    ServedLease(p, st, n + 1, Next(Next(p.end)));
  }

  lemma UnreservedFill(p: Pool)
    requires Usable(p)
    ensures forall d :: d in FillAndDecline(p) ==> Unreserved(d)
  {
  }

  lemma ServedLease(p: Pool, st: State, mac: Mac, a: u32)
    requires IndexOfMac(st.leases, mac) == |st.leases| && Choice([], p, st, mac) == a && 0 < a <= p.end
    ensures var ls := Step(p, st, Asks([], mac)).leases; IndexOfMac(ls, mac) < |ls|
  {
    hide Step, Choice, Insert;
    AskedFor(p, st, [], mac, a);
    InsertedAt(st.leases, Lease(a, mac, p.timer, []));
  }

  lemma TwoBehind(p: Pool, st: State, mac: Mac)
    requires Usable(p) && Host(p.end) == 255 && st.leases == Full(p, Span(p) + 1) && st.cursor == Next(Next(p.end))
    ensures Choice([], p, st, mac) == Next(Next(p.end)) && 0 < Next(Next(p.end)) <= p.end
  {
    NextCrosses(p.end);
    NextInPrefix(Next(p.end));
    NotInFull(p, st.cursor);
    AdvanceStays(st.leases, st.cursor);
    ChoiceWithoutReservations([], p, st, mac);
  }

  lemma FullPoolRefuses(p: Pool, st0: State, events: seq<Event>, e: Event)
    requires Starting(p, st0) && (PoolOk(p) || Barren(p, st0))
    ensures !ServesFromFull(p, st0, events, e)
  {
    if (forall d :: d in events ==> Unreserved(d)) && Unreserved(e) && e.Received? {
      var st := Run(p, st0, events);
      if Barren(p, st0) {
        BarrenRun(p, st0, events + [e]);
        RunSnoc(p, st0, events, e);
      } else {
        ReachableWithoutReservations(p, st0, events);
        if e.m.cookieOk && AllLeased(p, st.leases) && IndexOfMac(st.leases, e.m.mac) == |st.leases| {
          AllocationIsComplete(e.reserved, p, st, e.m);
        }
      }
    }
  }

  lemma AcceptedKinds(poll: Poll, server: u32, timer: u32, st0: State)
    requires Accepted(poll, server) && timer >= 1 && Starting(PoolOf(poll, timer), st0)
    ensures var p := PoolOf(poll, timer);
      && p.start == poll.start && p.end == poll.end
      && (0 < poll.start <= poll.end && Host(poll.end) == 255 ==> Usable(p))
      && (!(0 < poll.start <= poll.end && Host(poll.end) == 255) ==> PoolOk(p) || Barren(p, st0))
  {
    AcceptedPool(poll, server);
    if poll.start == 0 && st0.declined { assert st0.cursor == 0; }
  }

  /** For every pool set by hand and taken: some run without reservations serves a new client from a fully leased
      pool if and only if the pool is not empty, does not start at 0.0.0.0, and ends at host 255. */
  lemma FullPoolServesIff(poll: Poll, server: u32, timer: u32, st0: State)
    requires Accepted(poll, server) && timer >= 1 && Starting(PoolOf(poll, timer), st0)
    ensures (exists events, e :: ServesFromFull(PoolOf(poll, timer), st0, events, e)) <==>
      0 < poll.start <= poll.end && Host(poll.end) == 255
  {
    hide *;
    var p := PoolOf(poll, timer);
    AcceptedKinds(poll, server, timer, st0);
    if 0 < poll.start <= poll.end && Host(poll.end) == 255 {
      var events, e := FullPoolServes(p, st0);
    } else {
      forall events, e
        ensures !ServesFromFull(p, st0, events, e)
      {
        FullPoolRefuses(p, st0, events, e);
      }
    }
  }
}
