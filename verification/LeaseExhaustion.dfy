/** When a client is refused for lack of addresses although reservations have upset the list. */
module LeaseExhaustion {
  import opened Words
  import opened Addresses
  import opened LeaseList
  import opened LeaseMachine
  import opened LeaseAllocation
  import opened LeaseInvariants
  import opened LeaseReplies
  import opened ClientMessages
  import opened SharingRuns
  import Reservations

  /** Every address from the cursor up to the end of the pool is leased; there is none when the cursor is behind it. */
  predicate CursorSpent(p: Pool, ls: seq<Lease>, cursor: u32)
  {
    forall a: u32 :: Prefix(a) == Prefix(cursor) && cursor <= a <= p.end ==> Leased(ls, a)
  }

  /** Up to every address of the pool there are at least as many leases as addresses; `UpperBound` counts the
      leases at or below an address. Leases outside the pool and repeated ones count, too. */
  predicate Outnumbered(p: Pool, ls: seq<Lease>)
  {
    forall a: u32 :: InPool(p, a) ==> UpperBound(ls, a) > Host(a) - Host(p.start)
  }

  /** The fallback search stops at index i: lease j is not above the j-th pool address for j < i, but lease i is. */
  predicate GapAt(p: Pool, ls: seq<Lease>, i: nat)
  {
    && i <= |ls| && (i < |ls| ==> ls[i].ip > p.start + PREFIX * i)
    && forall j :: 0 <= j < i ==> ls[j].ip <= p.start + PREFIX * j
  }

  lemma HostSteps(a: u32, n: nat)
    requires Host(a) + n <= 255
    ensures a + PREFIX * n < 0x1_0000_0000
    ensures Prefix(a + PREFIX * n) == Prefix(a) && Host(a + PREFIX * n) == Host(a) + n
  {
    AddressOf(a);
    AddressParts(Prefix(a), Host(a) + n);
  }

  lemma GapGrows(p: Pool, ls: seq<Lease>, i: nat)
    requires ls != [] && GapAt(p, ls[..|ls| - 1], i)
    ensures var n := |ls| - 1;
      if i == n && ls[n].ip <= p.start + PREFIX * i then GapAt(p, ls, n + 1) else GapAt(p, ls, i)
  {
    var n := |ls| - 1;
    assert forall j :: 0 <= j < n ==> ls[j] == ls[..n][j];
  }

  lemma NextInStep(p: Pool, f: u32, i: nat)
    requires PoolOk(p) && f == p.start + PREFIX * i && Host(p.start) + i < 255
    ensures Next(f) == p.start + PREFIX * (i + 1)
  {
    HostSteps(p.start, i);
    NextInPrefix(f);
  }

  lemma {:induction false} FirstUnusedIsGap(p: Pool, ls: seq<Lease>) returns (i: nat)
    requires PoolOk(p) && Host(p.start) + |ls| <= 255
    ensures GapAt(p, ls, i) && FirstUnused(ls, p.start) == (p.start + PREFIX * i, i < |ls|)
    decreases |ls|
  {
    hide GapAt, Next, PoolOk, Host;
    if ls == [] {
      i := 0;
      EmptyGap(p);
    } else {
      var n := |ls| - 1;
      i := FirstUnusedIsGap(p, ls[..n]);
      GapGrows(p, ls, i);
      GapHere(p, ls[..n], i);
      var f: u32 := FirstUnused(ls[..n], p.start).0;
      if i == n && ls[n].ip <= f {
        NextInStep(p, f, i);
        i := n + 1;
      } else if i < n {
        GapHere(p, ls, i);
      }
    }
  }

  lemma EmptyGap(p: Pool)
    ensures GapAt(p, [], 0)
  {
  }

  lemma GapHere(p: Pool, ls: seq<Lease>, i: nat)
    requires GapAt(p, ls, i)
    ensures i <= |ls|
  {
  }

  lemma GapIsBehindIff(p: Pool, ls: seq<Lease>, i: nat)
    requires PoolOk(p) && Sorted(ls) && Host(p.start) + |ls| <= 255 && GapAt(p, ls, i)
    ensures p.start + PREFIX * i > p.end <==> Outnumbered(p, ls)
  {
    HostSteps(p.start, i);
    var f: u32 := p.start + PREFIX * i;
    PoolHosts(p);
    if f <= p.end {
      assert InPool(p, f) && UpperBound(ls, f) <= i;
    } else {
      forall a: u32 | InPool(p, a)
        ensures UpperBound(ls, a) > Host(a) - Host(p.start)
      {
        AddressOf(a);
        AddressOf(p.start);
        var j: int := Host(a) - Host(p.start);
        assert a == p.start + PREFIX * j;
        assert 0 <= j < i && ls[j].ip <= a;
      }
    }
  }

  lemma GapIsFree(p: Pool, ls: seq<Lease>, i: nat, f: u32)
    requires Sorted(ls) && GapAt(p, ls, i) && f == p.start + PREFIX * i
    ensures !Leased(ls, f)
  {
  }

  lemma AdvanceIsBehindIff(p: Pool, ls: seq<Lease>, cursor: u32)
    requires PoolOk(p) && Sorted(ls) && UpTo(p, ls)
    ensures Advance(ls, cursor) > p.end <==> CursorSpent(p, ls, cursor)
  {
    AdvanceFindsSmallestFree(p, ls, cursor);
  }

  /** Whatever is leased, the walk itself never chooses a leased address, and it finds none exactly when everything
      from the cursor on is leased and the pool's addresses are outnumbered by leases. */
  lemma WalkFailsIff(p: Pool, st: State)
    requires PoolOk(p) && Sorted(st.leases) && UpTo(p, st.leases) && Host(p.start) + |st.leases| <= 255
    ensures !Leased(st.leases, PoolChoice(p, st))
    ensures PoolChoice(p, st) > p.end <==> CursorSpent(p, st.leases, st.cursor) && Outnumbered(p, st.leases)
  {
    hide Outnumbered, CursorSpent;
    AdvanceFindsSmallestFree(p, st.leases, st.cursor);
    AdvanceIsBehindIff(p, st.leases, st.cursor);
    var i := FirstUnusedIsGap(p, st.leases);
    HostSteps(p.start, i);
    GapIsBehindIff(p, st.leases, i);
    GapIsFree(p, st.leases, i, p.start + PREFIX * i);
    PoolHosts(p);
  }

  /** In numeric order, all addresses from `a` on are reserved for others until the first behind the pool. */
  ghost predicate OthersUntilBehind(t: Reserved, p: Pool, a: u32, mac: Mac)
  {
    exists x: u32 :: x > p.end && BehindAfter(t, p, a, x, mac)
  }

  ghost predicate BehindAfter(t: Reserved, p: Pool, a: u32, x: u32, mac: Mac)
  {
    Swap32(a) <= Swap32(x) && forall b: u32 :: Swap32(a) <= Swap32(b) < Swap32(x) ==> Passed(t, b, p.end, mac)
  }

  /** For any pool, reservations and list: when a client without a lease is refused for lack of addresses. */
  lemma RefusalIff(t: Reserved, p: Pool, st: State, mac: Mac)
    ensures Choice(t, p, st, mac) > p.end <==>
      var own := Reservations.Lookup(t, mac);
      if own != 0 then own > p.end else OthersUntilBehind(t, p, PoolChoice(p, st), mac)
  {
    hide PoolChoice, SkipReserved, Swap32, Reservations.ReservedForOther;
    var a := PoolChoice(p, st);
    var r := SkipReserved(t, a, p.end, mac);
    SkipReservedSkips(t, a, p.end, mac);
    SkipReservedStops(t, a, p.end, mac);
    if r > p.end {
      assert BehindAfter(t, p, a, r, mac);
    }
    if OthersUntilBehind(t, p, a, mac) {
      var x: u32 :| x > p.end && BehindAfter(t, p, a, x, mac);
      SwapInjective(r, x);
    }
  }

  /** A pool of two: A is given the second address and Z one below the pool; D declines the first, and the walk for
      E finds nothing although the first is free. */
  lemma RefusedBesideAFreeAddress(p: Pool, a: Mac, z: Mac, d: Mac, e: Mac)
    requires PoolOk(p) && Host(p.start) > 0 && p.start > PREFIX && p.end == p.start + PREFIX
    requires a != z && a != d && a != e && z != d && z != e
    ensures var below: u32 := p.start - PREFIX;
      var events := [Asks(Only(a, p.end), a), Asks(Only(z, below), z), Received([], Decline(d))];
      var st := Run(p, Started(p), events);
      !Leased(st.leases, p.start) && Choice([], p, st, e) > p.end
  {
    hide Insert, Handle, Choice, CursorAfter;
    var below: u32 := p.start - PREFIX;
    var x, y := Lease(p.end, a, p.timer, []), Lease(below, z, p.timer, []);
    var st0 := Started(p);
    OnlyReserves(a, p.end, a, p.end);
    OwnChoice(Only(a, p.end), p, st0, a);
    AskedFor(p, st0, Only(a, p.end), a, p.end);
    var st1 := Allocated(p, st0, p.end, a);
    InsertedFirst(x);
    OnlyReserves(z, below, z, below);
    OwnChoice(Only(z, below), p, st1, z);
    AskedFor(p, st1, Only(z, below), z, below);
    var st2 := Allocated(p, st1, below, z);
    InsertedAround(x, y);
    CursorAtStart(p, below);
    DeclinedFirst(p, st2, x, y, d);
    DeclineMovesTheCursor([], p, st2, d);
    CursorBehind(p);
    RunOfThree(p, st0, Asks(Only(a, p.end), a), Asks(Only(z, below), z), Received([], Decline(d)));
    NothingFound(p, Handle([], p, st2, Decline(d)).0, x, y, e);
  }

  lemma CursorAtStart(p: Pool, below: u32)
    requires PoolOk(p) && p.start <= p.end && below == p.start - PREFIX
    ensures CursorAfter(p, below) == p.start
  {
    NextUpToEnd(p, below);
  }

  lemma DeclinedFirst(p: Pool, st: State, x: Lease, y: Lease, d: Mac)
    requires PoolOk(p) && st.leases == [y, x] && x.ip == p.end && y.ip < p.start < p.end && st.cursor == p.start
    ensures Choice([], p, st, d) == p.start
  {
    AdvanceStays(st.leases, st.cursor);
    ChoiceWithoutReservations([], p, st, d);
  }

  lemma NothingFound(p: Pool, st: State, x: Lease, y: Lease, e: Mac)
    requires PoolOk(p) && p.end == p.start + PREFIX && st.leases == [y, x] && x.ip == p.end && y.ip == p.start - PREFIX
    requires st.cursor == p.end
    ensures Choice([], p, st, e) > p.end
  {
    hide Next, PoolOk, Host, Prefix, Advance, FirstUnused;
    NextUpToEnd(p, p.end);
    NextUpToEnd(p, p.start);
    StepOverOne(y, x, p.start, p.end);
    ChoiceWithoutReservations([], p, st, e);
  }

  lemma StepOverOne(y: Lease, x: Lease, start: u32, cursor: u32)
    requires y.ip < start < cursor && x.ip == cursor == Next(start)
    ensures Advance([y, x], cursor) == Next(cursor) && FirstUnused([y, x], start) == (Next(cursor), false)
  {
    hide Next;
    var ls := [y, x];
    assert ls[..1] == [y] && ls[..1][..0] == [];
    assert Advance(ls[..1], cursor) == cursor;
    assert FirstUnused(ls[..1], start) == (cursor, false);
  }
}
