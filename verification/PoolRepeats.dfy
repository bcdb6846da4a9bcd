/** Pools that end at the broadcast address: runs without any reservation in which two leases share an address. */
module PoolRepeats {
  import opened Words
  import opened Addresses
  import opened LeaseList
  import opened LeaseMachine
  import opened LeaseAllocation
  import opened LeaseInvariants
  import opened LeaseSharing
  import opened AddressPool
  import opened ClientMessages
  import opened SharingRuns
  import opened ConfiguredPools
  import opened PoolWrap

  /** A run without reservations to this list and this cursor. */
  ghost predicate Reaches(p: Pool, st0: State, ls: seq<Lease>, cursor: u32)
  {
    exists events :: RunsTo(p, st0, ls, cursor, events)
  }

  ghost predicate RunsTo(p: Pool, st0: State, ls: seq<Lease>, cursor: u32, events: seq<Event>)
  {
    && (forall e :: e in events ==> Unreserved(e))
    && Run(p, st0, events).leases == ls && Run(p, st0, events).cursor == cursor
  }

  /** The address picked without reservations when the list is not empty. */
  function Pick(p: Pool, ls: seq<Lease>, cursor: u32): u32
  {
    var c := Advance(ls, cursor);
    if c > p.end then FirstUnused(ls, p.start).0 else c
  }

  lemma ChoiceIsPick(p: Pool, st: State, mac: Mac)
    requires st.leases != []
    ensures Choice([], p, st, mac) == Pick(p, st.leases, st.cursor)
  {
    ChoiceWithoutReservations([], p, st, mac);
  }

  lemma ReachAsk(p: Pool, st0: State, ls: seq<Lease>, cursor: u32, mac: Mac, a: u32)
    requires Reaches(p, st0, ls, cursor) && ls != [] && IndexOfMac(ls, mac) == |ls|
    requires Pick(p, ls, cursor) == a && 0 < a <= p.end
    ensures Reaches(p, st0, Insert(ls, Lease(a, mac, p.timer, [])), CursorAfter(p, a))
  {
    hide Run, Step, Pick, Insert, CursorAfter;
    var events :| RunsTo(p, st0, ls, cursor, events);
    var st := Run(p, st0, events);
    ChoiceIsPick(p, st, mac);
    AskedFor(p, st, [], mac, a);
    RunSnoc(p, st0, events, Asks([], mac));
    assert RunsTo(p, st0, Insert(ls, Lease(a, mac, p.timer, [])), CursorAfter(p, a), events + [Asks([], mac)]);
  }

  lemma ReachDecline(p: Pool, st0: State, ls: seq<Lease>, cursor: u32)
    requires Reaches(p, st0, ls, cursor) && ls != [] && IndexOfMac(ls, 0) == |ls| && Pick(p, ls, cursor) <= p.end
    ensures Reaches(p, st0, ls, CursorAfter(p, Pick(p, ls, cursor)))
  {
    hide Run, Pick, CursorAfter, Handle;
    var events :| RunsTo(p, st0, ls, cursor, events);
    var st := Run(p, st0, events);
    ChoiceIsPick(p, st, 0);
    DeclineMovesTheCursor([], p, st, 0);
    RunSnoc(p, st0, events, Received([], Decline(0)));
    assert RunsTo(p, st0, ls, CursorAfter(p, Pick(p, ls, cursor)), events + [Received([], Decline(0))]);
  }

  /** The walk picks this address and moves on. */
  predicate Passable(p: Pool, ls: seq<Lease>, a: u32)
  {
    0 < a < p.end && forall i :: 0 <= i < |ls| ==> ls[i].ip != a
  }

  /** In numeric order, all addresses from `a` up to but not including `b` are passable. */
  predicate PassableRange(p: Pool, ls: seq<Lease>, a: u32, b: u32)
  {
    Swap32(a) <= Swap32(b) && forall x: u32 :: Swap32(a) <= Swap32(x) < Swap32(b) ==> Passable(p, ls, x)
  }

  lemma StepOn(p: Pool, ls: seq<Lease>, cursor: u32)
    requires Passable(p, ls, cursor)
    ensures Pick(p, ls, cursor) == cursor && CursorAfter(p, cursor) == Next(cursor)
  {
    AdvanceStays(ls, cursor);
  }

  lemma ReachNext(p: Pool, st0: State, ls: seq<Lease>, cursor: u32, target: u32)
    requires Reaches(p, st0, ls, cursor) && ls != [] && IndexOfMac(ls, 0) == |ls|
    requires PassableRange(p, ls, cursor, target) && cursor != target
    ensures Reaches(p, st0, ls, Next(cursor)) && PassableRange(p, ls, Next(cursor), target)
    ensures Swap32(cursor) < Swap32(Next(cursor)) <= Swap32(target)
  {
    hide Swap32, Next, Pick, CursorAfter, Reaches, IndexOfMac;
    SwapInjective(cursor, target);
    assert Passable(p, ls, cursor);
    StepOn(p, ls, cursor);
    SwapOfNext(cursor);
    ReachDecline(p, st0, ls, cursor);
  }

  /** As many clients as it takes decline. */
  lemma {:induction false} ReachWalk(p: Pool, st0: State, ls: seq<Lease>, cursor: u32, target: u32)
    requires Reaches(p, st0, ls, cursor) && ls != [] && IndexOfMac(ls, 0) == |ls|
    requires PassableRange(p, ls, cursor, target)
    ensures Reaches(p, st0, ls, target)
    decreases Swap32(target) - Swap32(cursor)
  {
    hide Swap32, Next, Reaches, IndexOfMac;
    if cursor != target {
      ReachNext(p, st0, ls, cursor, target);
      ReachWalk(p, st0, ls, Next(cursor), target);
    }
  }

  /** The first address, numerically from `a` on, that compares above the pool. */
  lemma {:induction false} FirstAbove(p: Pool, a: u32) returns (b: u32)
    requires p.end != 0xFFFF_FFFF
    ensures b > p.end && Swap32(a) <= Swap32(b)
    ensures forall x: u32 :: Swap32(a) <= Swap32(x) < Swap32(b) ==> x <= p.end
    decreases 0xFFFF_FFFF - Swap32(a)
  {
    hide Swap32, Next;
    if a > p.end {
      b := a;
    } else {
      LastNumber();
      SwapInjective(a, 0xFFFF_FFFF);
      SwapOfNext(a);
      b := FirstAbove(p, Next(a));
      forall x: u32 | Swap32(x) == Swap32(a)
        ensures x == a
      {
        SwapInjective(x, a);
      }
    }
  }

  lemma LastNumber()
    ensures Swap32(0xFFFF_FFFF) == 0xFFFF_FFFF
  {
  }

  lemma RepeatsOnInsert(ls: seq<Lease>, l: Lease)
    requires Leased(ls, l.ip)
    ensures !DistinctAddresses(Insert(ls, l))
  {
    var k, r := UpperBound(ls, l.ip), Insert(ls, l);
    var i :| 0 <= i < |ls| && ls[i].ip == l.ip;
    assert r[if i < k then i else i + 1] == ls[i] && r[k] == l;
  }

  ghost predicate Repeats(p: Pool, st0: State, events: seq<Event>)
  {
    (forall e :: e in events ==> Unreserved(e)) && !DistinctAddresses(Run(p, st0, events).leases)
  }

  /** The pool is full and the address behind it leased; declines take the cursor above the pool, and the fallback
      search comes out at that address again. */
  lemma FallbackRepeats(p: Pool, st0: State)
    requires Usable(p) && Host(p.end) == 255 && p.end != 0xFFFF_FFFF && Host(p.start) > 0 && Starting(p, st0)
    ensures exists ls, cursor :: Reaches(p, st0, ls, cursor) && !DistinctAddresses(ls)
  {
    hide Insert, Pick, Run, Next, Swap32, Full;
    var n := Span(p) + 1;
    FillRun(p, st0, n);
    var full := Full(p, n);
    assert RunsTo(p, st0, full, p.start, Fill(n));
    var o := Next(p.end);
    PickBehindFull(p);
    OneMoreBehind(p, n + 1);
    ReachAsk(p, st0, full, p.start, n + 1, o);
    var x := Lease(o, n + 1, p.timer, []);
    var ls := [x] + full;
    var above := FirstAbove(p, Next(o));
    BehindIsPassable(p, ls, o, above);
    UnknownBehind(p, ls, 0);
    ReachWalk(p, st0, ls, Next(o), above);
    PickFallsBack(p, x, above);
    UnknownBehind(p, ls, n + 2);
    ReachAsk(p, st0, ls, above, n + 2, o);
    assert ls[0].ip == o;
    RepeatsOnInsert(ls, Lease(o, n + 2, p.timer, []));
  }

  lemma UnknownBehind(p: Pool, ls: seq<Lease>, mac: Mac)
    requires Usable(p) && |ls| == Span(p) + 2 && ls[0].mac == Span(p) + 2 && ls[1..] == Full(p, Span(p) + 1)
    requires mac == 0 || mac > Span(p) + 2
    ensures IndexOfMac(ls, mac) == |ls|
  {
    forall i | 0 <= i < |ls|
      ensures ls[i].mac != mac
    {
      if i > 0 { assert ls[i] == ls[1..][i - 1]; }
    }
  }

  lemma PickBehindFull(p: Pool)
    requires Usable(p) && Host(p.end) == 255 && p.end != 0xFFFF_FFFF
    ensures Pick(p, Full(p, Span(p) + 1), p.start) == Next(p.end) && 0 < Next(p.end) < p.end
    ensures Prefix(Next(p.end)) != Prefix(p.end) && CursorAfter(p, Next(p.end)) == Next(Next(p.end))
    ensures Swap32(Next(p.end)) == Swap32(p.end) + 1 && Swap32(Next(Next(p.end))) == Swap32(p.end) + 2
  {
    AdvanceOverFull(p, Span(p));
    AtIs(p, Span(p));
    NextCrosses(p.end);
    hide Swap32, Next, Full;
    LastNumber();
    SwapInjective(p.end, 0xFFFF_FFFF);
    SwapOfNext(p.end);
    SwapZero(Next(p.end));
    SwapOfNext(Next(p.end));
    NextNotLast(p.end);
  }

  lemma NextNotLast(a: u32)
    requires Host(a) == 255 && a != 0xFFFF_FFFF
    ensures Swap32(Next(a)) != 0xFFFF_FFFF
  {
    NextCrosses(a);
    LastNumber();
    SwapInjective(Next(a), 0xFFFF_FFFF);
  }

  lemma OneMoreBehind(p: Pool, mac: Mac)
    requires Usable(p) && Host(p.end) == 255 && Host(p.start) > 0 && mac == Span(p) + 2
    ensures var full, x := Full(p, Span(p) + 1), Lease(Next(p.end), mac, p.timer, []);
      && full != [] && IndexOfMac(full, mac) == |full| && Insert(full, x) == [x] + full
      && Next(p.end) < p.start
  {
    var full := Full(p, Span(p) + 1);
    NextCrosses(p.end);
    AtIs(p, 0);
    HostOfEnds(p);
    UpperBoundIs(full, Next(p.end), 0);
    assert full[..0] == [] && full[0..] == full;
  }

  lemma HostOfEnds(p: Pool)
    requires Host(p.end) == 255 && Host(p.start) > 0
    ensures Next(p.end) < p.start
  {
    NextCrosses(p.end);
    AddressOf(p.start);
    AddressOf(Next(p.end));
  }

  lemma BehindIsPassable(p: Pool, ls: seq<Lease>, o: u32, above: u32)
    requires Usable(p) && o == Next(p.end) && Swap32(o) == Swap32(p.end) + 1 && Swap32(Next(o)) == Swap32(p.end) + 2
    requires |ls| == Span(p) + 2 && ls[0].ip == o && ls[1..] == Full(p, Span(p) + 1)
    requires Swap32(Next(o)) <= Swap32(above)
    requires forall x: u32 :: Swap32(Next(o)) <= Swap32(x) < Swap32(above) ==> x <= p.end
    ensures PassableRange(p, ls, Next(o), above)
  {
    hide Swap32, Next, Full;
    forall x: u32 | Swap32(Next(o)) <= Swap32(x) < Swap32(above)
      ensures Passable(p, ls, x)
    {
      SwapZero(x);
      forall i | 0 <= i < |ls|
        ensures ls[i].ip != x
      {
        if i > 0 {
          assert ls[i] == ls[1..][i - 1];
          AtIs(p, i - 1);
          RawOrderIsNumericOrder(p.end, At(p, i - 1));
        }
      }
    }
  }

  lemma PickFallsBack(p: Pool, x: Lease, cursor: u32)
    requires Usable(p) && x.ip == Next(p.end) && Next(p.end) < p.end && x.ip <= p.start && cursor > p.end
    ensures Pick(p, [x] + Full(p, Span(p) + 1), cursor) == Next(p.end)
  {
    hide Full, Next;
    var ls := [x] + Full(p, Span(p) + 1);
    forall i | 0 <= i < |ls|
      ensures ls[i].ip != cursor
    {
      if i > 0 { AtIs(p, i - 1); }
    }
    AdvanceStays(ls, cursor);
    FallbackFinds(p, x);
  }

  /** The address numbered v. */
  function Numbered(v: u32): u32 { Swap32(v) }

  lemma NumberOf(v: u32)
    ensures Swap32(Numbered(v)) == v
  {
    Swap32Involution(v);
  }

  const LAST: u32 := 0xFFFF_FFFF

  lemma NumberedLow(c: byte, d: byte)
    ensures Numbered(d + 0x100 * c) == 0x1_0000 * c + 0x100_0000 * d
  {
    hide Swap32;
    SwapOctets(d, c, 0, 0);
    OctetsLow(c, d);
  }

  lemma OctetsLow(c: byte, d: byte)
    ensures Octets(d, c, 0, 0) == d + 0x100 * c && Octets(0, 0, c, d) == 0x1_0000 * c + 0x100_0000 * d
  {
  }

  lemma NextNumbered(v: u32)
    ensures Next(Numbered(v)) == Numbered(Increment(v))
  {
    hide Swap32, Next;
    NumberOf(v);
    NumberOf(Increment(v));
    SwapOfNext(Numbered(v));
    SwapInjective(Next(Numbered(v)), Numbered(Increment(v)));
  }

  /** 0.0.0.1, 0.0.0.255, 0.0.1.0 and 0.0.1.1. */
  lemma LowAddresses()
    ensures Numbered(1) == 0x100_0000 && Numbered(255) == 0xFF00_0000
    ensures Numbered(256) == 0x1_0000 && Numbered(257) == 0x101_0000
    ensures Next(LAST) == 0 && Next(0) == Numbered(1)
    ensures Next(Numbered(255)) == Numbered(256) && Next(Numbered(256)) == Numbered(257)
  {
    hide Next, Swap32, Numbered;
    NextNumbered(LAST);
    NextNumbered(0);
    NextNumbered(255);
    NextNumbered(256);
    NumberedLow(0, 0);
    NumberedLow(0, 1);
    NumberedLow(0, 255);
    NumberedLow(1, 0);
    NumberedLow(1, 1);
    NumberedLast();
  }

  lemma NumberedLast()
    ensures Numbered(LAST) == LAST
  {
    LastNumber();
  }

  /** Behind 255.255.255.255 comes 0.0.0.0, which is not served, and the walk goes on from 0.0.0.1. */
  lemma PickAtLast(p: Pool, ls: seq<Lease>)
    requires p.end == LAST && ls != [] && ls[|ls| - 1].ip == LAST
    requires forall i :: 0 <= i < |ls| - 1 ==> ls[i].ip != LAST
    ensures Pick(p, ls, LAST) == 0 && CursorAfter(p, 0) == Numbered(1)
  {
    hide Next, Numbered;
    LowAddresses();
    AdvanceStays(ls[..|ls| - 1], LAST);
  }

  lemma RangePassable(p: Pool, ls: seq<Lease>, a: u32, b: u32)
    requires p.end == LAST && 0 < Swap32(a) <= Swap32(b)
    requires forall i :: 0 <= i < |ls| ==> !(Swap32(a) <= Swap32(ls[i].ip) < Swap32(b))
    ensures PassableRange(p, ls, a, b)
  {
    hide Swap32;
    LastNumber();
    forall x: u32 | Swap32(a) <= Swap32(x) < Swap32(b)
      ensures Passable(p, ls, x)
    {
      SwapZero(x);
    }
  }

  /** Client 1 holds 255.255.255.255. */
  function Holder(p: Pool): Lease { Lease(LAST, 1, p.timer, []) }

  lemma FromLast(p: Pool, st0: State, ls: seq<Lease>)
    requires p.end == LAST && Reaches(p, st0, ls, LAST) && ls != [] && IndexOfMac(ls, 0) == |ls|
    requires ls[|ls| - 1].ip == LAST && forall i :: 0 <= i < |ls| - 1 ==> ls[i].ip != LAST
    requires forall i :: 0 <= i < |ls| ==> Swap32(ls[i].ip) == 0 || Swap32(ls[i].ip) >= 255
    ensures Reaches(p, st0, ls, Numbered(255))
  {
    hide Pick, Reaches, Swap32, Numbered, CursorAfter, IndexOfMac;
    PickAtLast(p, ls);
    ReachDecline(p, st0, ls, LAST);
    NumberOf(1);
    NumberOf(255);
    RangePassable(p, ls, Numbered(1), Numbered(255));
    ReachWalk(p, st0, ls, Numbered(1), Numbered(255));
  }

  /** Clients 2 and 3 are served 0.0.0.255 and 0.0.1.0. */
  lemma TwoLow(p: Pool, st0: State)
    requires p.end == LAST && Reaches(p, st0, [Holder(p)], Numbered(255))
    ensures var q, r := Lease(Numbered(255), 2, p.timer, []), Lease(Numbered(256), 3, p.timer, []);
      Reaches(p, st0, [r, q, Holder(p)], Numbered(257))
  {
    hide Reaches, Swap32, Numbered, Next, Insert, IndexOfMac;
    var q, r, h := Lease(Numbered(255), 2, p.timer, []), Lease(Numbered(256), 3, p.timer, []), Holder(p);
    LowAddresses();
    AdvanceStays([h], Numbered(255));
    ReachAsk(p, st0, [h], Numbered(255), 2, Numbered(255));
    InsertedAround(h, q);
    AdvanceStays([q, h], Numbered(256));
    ReachAsk(p, st0, [q, h], Numbered(256), 3, Numbered(256));
    InsertedBefore(q, h, r);
  }

  lemma InsertedBefore(x: Lease, y: Lease, z: Lease)
    requires z.ip < x.ip
    ensures Insert([x, y], z) == [z, x, y]
  {
  }

  lemma PickRepeats(p: Pool, ls: seq<Lease>)
    requires p.end == LAST && |ls| == 3 && ls[0].ip == Numbered(256) && ls[1].ip == Numbered(255) && ls[2].ip == LAST
    ensures Pick(p, ls, Numbered(255)) == Numbered(256)
  {
    hide Swap32, Numbered, Next;
    LowAddresses();
    assert ls[..2][..1] == ls[..1];
    AdvanceStays(ls[..1], Numbered(255));
    assert Advance(ls[..2], Numbered(255)) == Numbered(256);
  }

  /** The pool ends at 255.255.255.255. Its last address is leased, the cursor goes on to 0.0.0.255, where two
      addresses are leased, then all the way round; the walk finds the first of the two leased and comes to the
      second. */
  lemma RoundTripRepeats(p: Pool, st0: State)
    requires Usable(p) && p.end == LAST && Starting(p, st0)
    ensures exists ls, cursor :: Reaches(p, st0, ls, cursor) && !DistinctAddresses(ls)
  {
    hide Reaches, Swap32, Numbered, Next, Insert, Pick, IndexOfMac;
    LastNumber();
    StartToLast(p, st0);
    FromLast(p, st0, [Holder(p)]);
    TwoLow(p, st0);
    var q, r := Lease(Numbered(255), 2, p.timer, []), Lease(Numbered(256), 3, p.timer, []);
    var ls := [r, q, Holder(p)];
    NumberOf(255);
    NumberOf(256);
    NumberOf(257);
    RangePassable(p, ls, Numbered(257), LAST);
    Unknown(ls, 0);
    ReachWalk(p, st0, ls, Numbered(257), LAST);
    LowAddresses();
    FromLast(p, st0, ls);
    PickRepeats(p, ls);
    Unknown(ls, 4);
    ReachAsk(p, st0, ls, Numbered(255), 4, Numbered(256));
    assert ls[0].ip == Numbered(256);
    RepeatsOnInsert(ls, Lease(Numbered(256), 4, p.timer, []));
  }

  lemma Unknown(ls: seq<Lease>, mac: Mac)
    requires forall i :: 0 <= i < |ls| ==> ls[i].mac != mac
    ensures IndexOfMac(ls, mac) == |ls|
  {
  }

  lemma StartToLast(p: Pool, st0: State)
    requires Usable(p) && p.end == LAST && Starting(p, st0)
    ensures Reaches(p, st0, [Holder(p)], LAST)
  {
    hide Swap32, Run;
    LastNumber();
    LeasesTheEnd(p, st0);
    assert RunsTo(p, st0, [Holder(p)], p.start, ToTheEnd(p));
    SwapZero(p.start);
    RangePassable(p, [Holder(p)], p.start, LAST);
    ReachWalk(p, st0, [Holder(p)], p.start, LAST);
  }

  lemma SomeRunRepeats(p: Pool, st0: State) returns (events: seq<Event>)
    requires Usable(p) && Host(p.end) == 255 && Host(p.start) > 0 && Starting(p, st0)
    ensures Repeats(p, st0, events)
  {
    if p.end == LAST { RoundTripRepeats(p, st0); } else { FallbackRepeats(p, st0); }
    var ls, cursor :| Reaches(p, st0, ls, cursor) && !DistinctAddresses(ls);
    events :| RunsTo(p, st0, ls, cursor, events);
  }

  lemma NoRunRepeats(p: Pool, st0: State, events: seq<Event>)
    requires Starting(p, st0) && (PoolOk(p) || Barren(p, st0))
    ensures !Repeats(p, st0, events)
  {
    if forall e :: e in events ==> Unreserved(e) {
      if Barren(p, st0) {
        BarrenRun(p, st0, events);
      } else {
        ReachableWithoutReservations(p, st0, events);
      }
    }
  }

  /** An accepted pool that ends at host 255 starts behind host 0: it has at most 100 addresses. */
  lemma AcceptedStart(poll: Poll, server: u32)
    requires Accepted(poll, server) && poll.start <= poll.end && Host(poll.end) == 255
    ensures Host(poll.start) > 0
  {
    AcceptedPool(poll, server);
    NumericParts(poll.start);
    NumericParts(poll.end);
    SameNetworkIff(poll.start, poll.end);
  }

  /** For every pool set by hand and taken: some run without reservations makes two leases share an address if and
      only if the pool is not empty, does not start at 0.0.0.0, and ends at host 255. */
  lemma RepeatsIff(poll: Poll, server: u32, timer: u32, st0: State)
    requires Accepted(poll, server) && timer >= 1 && Starting(PoolOf(poll, timer), st0)
    ensures (exists events :: Repeats(PoolOf(poll, timer), st0, events)) <==>
      0 < poll.start <= poll.end && Host(poll.end) == 255
  {
    hide *;
    var p := PoolOf(poll, timer);
    AcceptedKinds(poll, server, timer, st0);
    if 0 < poll.start <= poll.end && Host(poll.end) == 255 {
      AcceptedStart(poll, server);
      var events := SomeRunRepeats(p, st0);
    } else {
      forall events
        ensures !Repeats(p, st0, events)
      {
        NoRunRepeats(p, st0, events);
      }
    }
  }
}
