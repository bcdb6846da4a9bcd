/** What pools set by hand lead the server to lease, over all runs without reservations. */
module ConfiguredPools {
  import opened Words
  import opened Addresses
  import opened LeaseList
  import opened LeaseMachine
  import opened LeaseAllocation
  import opened LeaseInvariants
  import opened AddressPool
  import opened ClientMessages
  import opened SharingRuns

  function PoolOf(poll: Poll, timer: u32): Pool { Pool(poll.start, poll.end, timer) }

  /** No address for a client: outside the server's /24, its network or broadcast address, or the server's own. */
  predicate Unfit(server: u32, a: u32) { Prefix(a) != Prefix(server) || Host(a) == 0 || Host(a) == 255 || a == server }

  /** This run without reservations leads to an unfit lease. */
  ghost predicate LeasesUnfit(p: Pool, st0: State, server: u32, events: seq<Event>)
  {
    && (forall e :: e in events ==> Unreserved(e))
    && var ls := Run(p, st0, events).leases; exists i :: 0 <= i < |ls| && Unfit(server, ls[i].ip)
  }

  ghost predicate LeasesOutside(p: Pool, st0: State, server: u32, events: seq<Event>)
  {
    && (forall e :: e in events ==> Unreserved(e))
    && var ls := Run(p, st0, events).leases; exists i :: 0 <= i < |ls| && Prefix(ls[i].ip) != Prefix(server)
  }

  lemma AcceptedPool(poll: Poll, server: u32)
    requires Accepted(poll, server)
    ensures poll.start <= poll.end <==> Host(poll.start) <= Host(poll.end)
    ensures !(poll.start <= server <= poll.end)
  {
    RawOrderIsNumericOrder(poll.end, poll.start);
    RawOrderIsNumericOrder(server, poll.start);
    RawOrderIsNumericOrder(poll.end, server);
  }

  /** A state in which nothing will ever be leased: the list is empty, and the first address is behind the pool or
      0.0.0.0. */
  predicate Barren(p: Pool, st: State)
  {
    && st.leases == []
    && ((p.start > p.end && st.cursor > p.end) || (p.start == 0 && (!st.declined || st.cursor == 0)))
  }

  lemma BarrenStep(p: Pool, st: State, e: Event)
    requires Barren(p, st) && Unreserved(e)
    ensures Barren(p, Step(p, st, e))
  {
    match e {
      case TimerTick =>
      case Received(t, m) =>
        ChoiceWithoutReservations(t, p, st, m.mac);
        if p.start == 0 { InsertThenRemove([], Lease(0, m.mac, p.timer, [])); }
    }
  }

  lemma {:induction false} BarrenRun(p: Pool, st: State, events: seq<Event>)
    requires Barren(p, st) && forall e :: e in events ==> Unreserved(e)
    ensures Run(p, st, events).leases == []
    decreases |events|
  {
    if events != [] {
      assert events[0] in events;
      BarrenStep(p, st, events[0]);
      BarrenRun(p, Step(p, st, events[0]), events[1..]);
    }
  }

  /** No pool leads outside itself unless it reaches the broadcast address. */
  lemma StaysInside(poll: Poll, server: u32, timer: u32, st0: State, events: seq<Event>)
    requires timer >= 1 && Prefix(poll.start) == Prefix(server) && Prefix(poll.end) == Prefix(server)
    requires Starting(PoolOf(poll, timer), st0) && forall e :: e in events ==> Unreserved(e)
    requires poll.start <= poll.end ==> Host(poll.end) != 255
    ensures var p := PoolOf(poll, timer);
      forall l :: l in Run(p, st0, events).leases ==> InPool(p, l.ip)
  {
    var p := PoolOf(poll, timer);
    if poll.start > poll.end {
      BarrenRun(p, st0, events);
    } else {
      RawOrderIsNumericOrder(poll.end, poll.start);
      ReachableWithoutReservations(p, st0, events);
    }
  }

  /** End to end without reservations: whatever was configured, unless a pool in force includes host 0 or host 255,
      no run of messages and ticks ever leases the router's own, the network's or the broadcast address. */
  lemma RouterKeepsItsAddress(poll: Poll, server: u32, timer: u32, st0: State, events: seq<Event>)
    requires timer >= 1 && Starting(PoolOf(Effective(poll, server), timer), st0)
    requires forall e :: e in events ==> Unreserved(e)
    requires Accepted(poll, server) && poll.start <= poll.end ==> Host(poll.start) != 0 && Host(poll.end) != 255
    ensures var p := PoolOf(Effective(poll, server), timer);
      forall l :: l in Run(p, st0, events).leases ==> !Unfit(server, l.ip)
  {
    hide DefaultPool, Run;
    var e := Effective(poll, server);
    var p := PoolOf(e, timer);
    DefaultPoolIsOk(server, timer);
    if Accepted(poll, server) { AcceptedPool(poll, server); }
    StaysInside(e, server, timer, st0, events);
    forall l | l in Run(p, st0, events).leases
      ensures !Unfit(server, l.ip)
    {
      HostsOfPool(p, l.ip);
    }
  }

  /** A list all of whose addresses are the pool's last, and a cursor that can advance by k addresses before it. */
  predicate CanAdvance(p: Pool, st: State, mac: Mac, k: nat)
  {
    && Prefix(st.cursor) == Prefix(p.end) && 0 < st.cursor && st.cursor + PREFIX * k <= p.end
    && (forall i :: 0 <= i < |st.leases| ==> st.leases[i].ip == p.end && st.leases[i].mac != mac)
    && (st.leases == [] && !st.declined ==> st.cursor == p.start)
  }

  function Declines(mac: Mac, k: nat): seq<Event> { seq(k, _ => Received([], Decline(mac))) }

  lemma StepForward(p: Pool, st: State, mac: Mac, k: nat)
    requires k > 0 && CanAdvance(p, st, mac, k)
    ensures var st' := Step(p, st, Received([], Decline(mac)));
      st'.leases == st.leases && st'.cursor == st.cursor + PREFIX && CanAdvance(p, st', mac, k - 1)
  {
    AdvanceStays(st.leases, st.cursor);
    ChoiceWithoutReservations([], p, st, mac);
    assert Choice([], p, st, mac) == st.cursor;
    DeclineMovesTheCursor([], p, st, mac);
    RawOrderIsNumericOrder(st.cursor, p.end);
    NextInPrefix(st.cursor);
  }

  /** A client that declines k times moves the cursor by k addresses and leaves the list as it was. */
  lemma {:induction false} DeclinesAdvance(p: Pool, st: State, mac: Mac, k: nat)
    requires CanAdvance(p, st, mac, k)
    ensures var st' := Run(p, st, Declines(mac, k));
      st'.leases == st.leases && st'.cursor == st.cursor + PREFIX * k && CanAdvance(p, st', mac, 0)
    decreases k
  {
    hide Step, CanAdvance;
    if k > 0 {
      StepForward(p, st, mac, k);
      assert Declines(mac, k)[1..] == Declines(mac, k - 1);
      DeclinesAdvance(p, Step(p, st, Received([], Decline(mac))), mac, k - 1);
    }
  }

  /** How many addresses the pool has after its first. */
  function Span(p: Pool): nat
    requires Prefix(p.start) == Prefix(p.end) && p.start <= p.end
  {
    RawOrderIsNumericOrder(p.end, p.start);
    Host(p.end) - Host(p.start)
  }

  lemma SpanIs(p: Pool)
    requires Prefix(p.start) == Prefix(p.end) && p.start <= p.end
    ensures p.end == p.start + PREFIX * Span(p)
  {
    AddressOf(p.start);
    AddressOf(p.end);
  }

  /** The run that leases the pool's last address: declines move the cursor there, then client 1 asks. */
  function ToTheEnd(p: Pool): seq<Event>
    requires Prefix(p.start) == Prefix(p.end) && p.start <= p.end
  {
    Declines(0, Span(p)) + [Asks([], 1)]
  }

  lemma LeasesTheEnd(p: Pool, st0: State)
    requires Prefix(p.start) == Prefix(p.end) && 0 < p.start <= p.end && Starting(p, st0)
    ensures var st := Run(p, st0, ToTheEnd(p));
      st.leases == [Lease(p.end, 1, p.timer, [])] && st.cursor == p.start
  {
    hide Run;
    var k := Span(p);
    SpanIs(p);
    DeclinesAdvance(p, st0, 0, k);
    var st := Run(p, st0, Declines(0, k));
    ChoiceWithoutReservations([], p, st, 1);
    assert PoolChoice(p, st) == p.end;
    AskedFor(p, st, [], 1, p.end);
    InsertedFirst(Lease(p.end, 1, p.timer, []));
    RunSnoc(p, st0, Declines(0, k), Asks([], 1));
  }

  lemma LeasesTheStart(p: Pool, st0: State)
    requires 0 < p.start <= p.end && Starting(p, st0)
    ensures Run(p, st0, [Asks([], 1)]).leases == [Lease(p.start, 1, p.timer, [])]
  {
    ChoiceWithoutReservations([], p, st0, 1);
    AskedFor(p, st0, [], 1, p.start);
    InsertedFirst(Lease(p.start, 1, p.timer, []));
    RunOfOne(p, st0, Asks([], 1));
  }

  lemma NothingUnfit(poll: Poll, server: u32, timer: u32, st0: State, events: seq<Event>)
    requires Accepted(poll, server) && timer >= 1 && Starting(PoolOf(poll, timer), st0)
    requires 0 < poll.start <= poll.end ==> Host(poll.start) != 0 && Host(poll.end) != 255
    ensures !LeasesUnfit(PoolOf(poll, timer), st0, server, events)
  {
    hide Run, Unfit, Accepted;
    var p := PoolOf(poll, timer);
    if forall e :: e in events ==> Unreserved(e) {
      var ls := Run(p, st0, events).leases;
      if poll.start == 0 {
        BarrenRun(p, st0, events);
      } else {
        RouterKeepsItsAddress(poll, server, timer, st0, events);
        assert forall i :: 0 <= i < |ls| ==> ls[i] in ls;
      }
    }
  }

  lemma SomethingUnfit(poll: Poll, server: u32, timer: u32, st0: State) returns (events: seq<Event>)
    requires Accepted(poll, server) && Starting(PoolOf(poll, timer), st0)
    requires 0 < poll.start <= poll.end && (Host(poll.start) == 0 || Host(poll.end) == 255)
    ensures LeasesUnfit(PoolOf(poll, timer), st0, server, events)
  {
    hide Run, Unfit;
    var p := PoolOf(poll, timer);
    UnfitEnds(server, p.start);
    UnfitEnds(server, p.end);
    if Host(p.start) == 0 {
      LeasesTheStart(p, st0);
      events := [Asks([], 1)];
    } else {
      LeasesTheEnd(p, st0);
      events := ToTheEnd(p);
    }
    assert Unfit(server, Run(p, st0, events).leases[0].ip);
  }

  /** For every pool set by hand and taken: some run without reservations leases an unfit address if and only if
      the pool is not empty, does not start at 0.0.0.0, and starts at host 0 or ends at host 255. */
  lemma ConfiguredPoolLeasesUnfitIff(poll: Poll, server: u32, timer: u32, st0: State)
    requires Accepted(poll, server) && timer >= 1 && Starting(PoolOf(poll, timer), st0)
    ensures (exists events :: LeasesUnfit(PoolOf(poll, timer), st0, server, events)) <==>
      0 < poll.start <= poll.end && (Host(poll.start) == 0 || Host(poll.end) == 255)
  {
    hide *;
    if 0 < poll.start <= poll.end && (Host(poll.start) == 0 || Host(poll.end) == 255) {
      var events := SomethingUnfit(poll, server, timer, st0);
    } else {
      forall events
        ensures !LeasesUnfit(PoolOf(poll, timer), st0, server, events)
      {
        NothingUnfit(poll, server, timer, st0, events);
      }
    }
  }

  lemma UnfitEnds(server: u32, a: u32)
    ensures Host(a) == 0 || Host(a) == 255 ==> Unfit(server, a)
  {
  }

  /** From there: client 1 holds host 255 and the cursor is at the start again. */
  function PastTheEnd(p: Pool): seq<Event>
    requires Prefix(p.start) == Prefix(p.end) && p.start <= p.end
  {
    Declines(0, Span(p)) + [Received([], Decline(0))] + [Asks([], 2)]
  }

  lemma LeavesThePrefix(p: Pool, st: State)
    requires Prefix(p.start) == Prefix(p.end) && 0 < p.start <= p.end && Host(p.end) == 255
    requires st.leases == [Lease(p.end, 1, p.timer, [])] && st.cursor == p.start
    ensures var a := Next(Next(p.end));
      Run(p, st, PastTheEnd(p)).leases == [Lease(a, 2, p.timer, []), Lease(p.end, 1, p.timer, [])]
      && Prefix(a) != Prefix(p.end)
  {
    hide Run, Step, Next, CanAdvance;
    var k := Span(p);
    SpanIs(p);
    CanGoAllTheWay(p, st, k);
    DeclinesAdvance(p, st, 0, k);
    var st1 := Run(p, st, Declines(0, k));
    OneFurther(p, st1);
    RunSnoc(p, st, Declines(0, k), Received([], Decline(0)));
    RunSnoc(p, st, Declines(0, k) + [Received([], Decline(0))], Asks([], 2));
  }

  lemma CanGoAllTheWay(p: Pool, st: State, k: nat)
    requires Prefix(p.start) == Prefix(p.end) && 0 < p.start && p.end == p.start + PREFIX * k
    requires st.leases == [Lease(p.end, 1, p.timer, [])] && st.cursor == p.start
    ensures CanAdvance(p, st, 0, k)
  {
  }

  /** The cursor is on the leased host 255: one client declines the address after it, the next is given the one after
      that. */
  lemma OneFurther(p: Pool, st: State)
    requires Host(p.end) == 255 && st.leases == [Lease(p.end, 1, p.timer, [])] && st.cursor == p.end
    ensures var a := Next(Next(p.end));
      Step(p, Step(p, st, Received([], Decline(0))), Asks([], 2)).leases
        == [Lease(a, 2, p.timer, []), Lease(p.end, 1, p.timer, [])]
      && Prefix(a) != Prefix(p.end)
  {
    hide Handle, Insert, Next;
    var a := Next(Next(p.end));
    NextCrosses(p.end);
    NextInPrefix(Next(p.end));
    OverTheEdge(p, st);
    DeclineMovesTheCursor([], p, st, 0);
    var st2 := Step(p, st, Received([], Decline(0)));
    AdvanceStays(st2.leases, st2.cursor);
    ChoiceWithoutReservations([], p, st2, 2);
    AskedFor(p, st2, [], 2, a);
    InsertedAround(Lease(p.end, 1, p.timer, []), Lease(a, 2, p.timer, []));
  }

  lemma OverTheEdge(p: Pool, st: State)
    requires |st.leases| == 1 && st.leases[0].ip == p.end == st.cursor && Host(p.end) == 255
    ensures Choice([], p, st, 0) == Next(p.end) <= p.end && CursorAfter(p, Next(p.end)) == Next(Next(p.end))
  {
    NextCrosses(p.end);
    assert st.leases[..0] == [];
    assert Advance(st.leases, st.cursor) == Next(p.end);
    ChoiceWithoutReservations([], p, st, 0);
  }

  lemma NothingOutside(poll: Poll, server: u32, timer: u32, st0: State, events: seq<Event>)
    requires Accepted(poll, server) && timer >= 1 && (0 < poll.start <= poll.end ==> Host(poll.end) != 255)
    requires Starting(PoolOf(poll, timer), st0)
    ensures !LeasesOutside(PoolOf(poll, timer), st0, server, events)
  {
    hide Run;
    var p := PoolOf(poll, timer);
    if forall e :: e in events ==> Unreserved(e) {
      var ls := Run(p, st0, events).leases;
      if poll.start == 0 {
        BarrenRun(p, st0, events);
      } else {
        StaysInside(poll, server, timer, st0, events);
        assert forall i :: 0 <= i < |ls| ==> ls[i] in ls;
      }
    }
  }

  lemma SomethingOutside(poll: Poll, server: u32, timer: u32, st0: State) returns (events: seq<Event>)
    requires Accepted(poll, server) && 0 < poll.start <= poll.end && Host(poll.end) == 255
    requires Starting(PoolOf(poll, timer), st0)
    ensures LeasesOutside(PoolOf(poll, timer), st0, server, events)
  {
    hide Run;
    var p := PoolOf(poll, timer);
    LeasesTheEnd(p, st0);
    LeavesThePrefix(p, Run(p, st0, ToTheEnd(p)));
    RunAppend(p, st0, ToTheEnd(p), PastTheEnd(p));
    events := ToTheEnd(p) + PastTheEnd(p);
    assert Prefix(Run(p, st0, events).leases[0].ip) != Prefix(server);
  }

  /** And it leases an address outside the server's /24 if and only if the pool is not empty, does not start at 0.0.0.0,
      and ends at host 255. */
  lemma ConfiguredPoolLeasesOutsideIff(poll: Poll, server: u32, timer: u32, st0: State)
    requires Accepted(poll, server) && timer >= 1 && Starting(PoolOf(poll, timer), st0)
    ensures (exists events :: LeasesOutside(PoolOf(poll, timer), st0, server, events)) <==>
      0 < poll.start <= poll.end && Host(poll.end) == 255
  {
    hide *;
    if 0 < poll.start <= poll.end && Host(poll.end) == 255 {
      var events := SomethingOutside(poll, server, timer, st0);
    } else {
      forall events
        ensures !LeasesOutside(PoolOf(poll, timer), st0, server, events)
      {
        NothingOutside(poll, server, timer, st0, events);
      }
    }
  }
}
