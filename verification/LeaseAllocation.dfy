/** The walk finds free addresses: the cursor search, the fallback search, and exhaustion. */
module LeaseAllocation {
  import opened Words
  import opened Addresses
  import opened LeaseList
  import opened LeaseMachine
  import DhcpOptions
  import Reservations

  /** A pool inside one /24 that ends before its broadcast address, and leases of at least one tick. */
  predicate PoolOk(p: Pool)
  {
    Prefix(p.start) == Prefix(p.end) && Host(p.start) <= Host(p.end) <= 254 && p.timer >= 1
  }

  predicate InPool(p: Pool, a: u32) { Prefix(a) == Prefix(p.start) && p.start <= a <= p.end }

  /** In the pool, or the address right after it: where the cursor can point. */
  predicate InReach(p: Pool, a: u32) { Prefix(a) == Prefix(p.start) && p.start <= a <= p.end + PREFIX }

  predicate Leased(ls: seq<Lease>, a: u32) { exists i :: 0 <= i < |ls| && ls[i].ip == a }

  predicate Sorted(ls: seq<Lease>) { forall i, j :: 0 <= i < j < |ls| ==> ls[i].ip <= ls[j].ip }

  /** No lease above the end of the pool. */
  predicate UpTo(p: Pool, ls: seq<Lease>) { forall i :: 0 <= i < |ls| ==> ls[i].ip <= p.end }

  /** Strictly sorted by address and inside the pool. */
  predicate Ordered(p: Pool, ls: seq<Lease>)
  {
    && (forall i :: 0 <= i < |ls| ==> InPool(p, ls[i].ip))
    && (forall i, j :: 0 <= i < j < |ls| ==> ls[i].ip < ls[j].ip)
  }

  /** Every address of the /24 from `from` up to but not including `to` is leased. */
  predicate FullBetween(ls: seq<Lease>, from: u32, to: u32)
  {
    forall a: u32 :: Prefix(a) == Prefix(from) && from <= a < to ==> Leased(ls, a)
  }

  lemma SamePrefixSteps(a: u32, b: u32)
    requires Prefix(a) == Prefix(b)
    ensures a < b + PREFIX ==> a <= b
    ensures a < b ==> a + PREFIX <= b
  {
  }

  lemma NextUpToEnd(p: Pool, a: u32)
    requires PoolOk(p) && a <= p.end
    ensures Next(a) == a + PREFIX <= p.end + PREFIX && Prefix(Next(a)) == Prefix(a)
  {
    NextInPrefix(a);
  }

  lemma LeasedFront(ls: seq<Lease>, a: u32)
    requires ls != []
    ensures Leased(ls, a) <==> Leased(ls[..|ls| - 1], a) || a == ls[|ls| - 1].ip
  {
    var front := ls[..|ls| - 1];
    if Leased(front, a) {
      var i :| 0 <= i < |front| && front[i].ip == a;
      assert ls[i].ip == a;
    }
    if Leased(ls, a) && a != ls[|ls| - 1].ip {
      var i :| 0 <= i < |ls| && ls[i].ip == a;
      assert front[i].ip == a;
    }
  }

  /** The walk leaves the cursor at the smallest free address not below where it was, whatever is leased. */
  lemma {:induction false} AdvanceFindsSmallestFree(p: Pool, ls: seq<Lease>, cursor: u32)
    requires PoolOk(p) && Sorted(ls) && UpTo(p, ls)
    ensures var r := Advance(ls, cursor);
      && Prefix(r) == Prefix(cursor) && cursor <= r && (r == cursor || r <= p.end + PREFIX)
      && !Leased(ls, r) && FullBetween(ls, cursor, r)
    decreases |ls|
  {
    if ls != [] {
      var n := |ls| - 1;
      var front, last, c := ls[..n], ls[n].ip, Advance(ls[..n], cursor);
      AdvanceFindsSmallestFree(p, front, cursor);
      var r := Advance(ls, cursor);
      if last == c { NextUpToEnd(p, c); }
      LeasedFront(ls, r);
      forall a: u32 | Prefix(a) == Prefix(cursor) && cursor <= a < r
        ensures Leased(ls, a)
      {
        LeasedFront(ls, a);
        if a >= c { SamePrefixSteps(a, c); }
      }
    }
  }

  /** The fallback search ends at the smallest free address of the pool, or right behind a full pool. */
  lemma {:induction false} FirstUnusedFindsSmallestFree(p: Pool, ls: seq<Lease>)
    requires PoolOk(p) && Ordered(p, ls)
    ensures var (f, found) := FirstUnused(ls, p.start);
      && InReach(p, f) && !Leased(ls, f) && FullBetween(ls, p.start, f)
      && (found ==> ls != [] && f < ls[|ls| - 1].ip)
      && (!found ==> forall i :: 0 <= i < |ls| ==> ls[i].ip < f)
    decreases |ls|
  {
    hide Leased, FullBetween, InReach, Ordered, Next, PoolOk;
    if ls == [] {
      NothingLeased(p);
    } else {
      var n := |ls| - 1;
      OrderedFront(p, ls);
      FirstUnusedFindsSmallestFree(p, ls[..n]);
      var (f, found) := FirstUnused(ls[..n], p.start);
      LeasedFront(ls, f);
      FullBetweenGrows(ls, p.start, f);
      if !found && f >= ls[n].ip {
        LastIsNext(p, ls, f);
        FallbackSteps(p, ls, f);
      }
    }
  }

  lemma NothingLeased(p: Pool)
    requires PoolOk(p)
    ensures InReach(p, p.start) && !Leased([], p.start) && FullBetween([], p.start, p.start)
  {
    RawOrderIsNumericOrder(p.end, p.start);
  }

  lemma OrderedFront(p: Pool, ls: seq<Lease>)
    requires Ordered(p, ls) && ls != []
    ensures Ordered(p, ls[..|ls| - 1]) && forall i :: 0 <= i < |ls| - 1 ==> ls[i].ip < ls[|ls| - 1].ip
  {
  }

  lemma LastIsNext(p: Pool, ls: seq<Lease>, f: u32)
    requires Ordered(p, ls) && ls != [] && f >= ls[|ls| - 1].ip && FullBetween(ls[..|ls| - 1], p.start, f)
    ensures f == ls[|ls| - 1].ip
  {
    LastIsNew(p, ls);
  }

  lemma LastIsNew(p: Pool, ls: seq<Lease>)
    requires Ordered(p, ls) && ls != []
    ensures !Leased(ls[..|ls| - 1], ls[|ls| - 1].ip) && InPool(p, ls[|ls| - 1].ip)
  {
  }

  lemma FullBetweenGrows(ls: seq<Lease>, from: u32, to: u32)
    requires ls != [] && FullBetween(ls[..|ls| - 1], from, to)
    ensures FullBetween(ls, from, to)
  {
    forall a: u32 | Prefix(a) == Prefix(from) && from <= a < to
      ensures Leased(ls, a)
    {
      LeasedFront(ls, a);
    }
  }

  lemma FallbackSteps(p: Pool, ls: seq<Lease>, f: u32)
    requires PoolOk(p) && Ordered(p, ls) && ls != [] && f == ls[|ls| - 1].ip
    requires FullBetween(ls[..|ls| - 1], p.start, f)
    ensures InReach(p, Next(f)) && Next(f) > f && !Leased(ls, Next(f)) && FullBetween(ls, p.start, Next(f))
  {
    NextUpToEnd(p, f);
    forall a: u32 | Prefix(a) == Prefix(p.start) && p.start <= a < Next(f)
      ensures Leased(ls, a)
    {
      SamePrefixSteps(a, f);
      LeasedFront(ls, a);
    }
  }

  predicate AllLeased(p: Pool, ls: seq<Lease>) { forall a: u32 :: InPool(p, a) ==> Leased(ls, a) }

  /** The address picked for a new client is free; it lies behind the pool exactly when the whole pool is leased. */
  lemma PoolChoiceIsFree(p: Pool, st: State)
    requires PoolOk(p) && Ordered(p, st.leases) && InReach(p, st.cursor)
    ensures InReach(p, PoolChoice(p, st)) && !Leased(st.leases, PoolChoice(p, st))
    ensures PoolChoice(p, st) > p.end <==> AllLeased(p, st.leases)
  {
    AdvanceFindsSmallestFree(p, st.leases, st.cursor);
    FirstUnusedFindsSmallestFree(p, st.leases);
    var a := PoolChoice(p, st);
    if a > p.end {
      assert a == FirstUnused(st.leases, p.start).0;
    } else {
      assert InPool(p, a);
    }
  }

  /** The smallest free address of the pool not below `from`. */
  predicate SmallestFree(p: Pool, ls: seq<Lease>, from: u32, a: u32)
  {
    InPool(p, a) && from <= a && !Leased(ls, a) && Prefix(from) == Prefix(a) && FullBetween(ls, from, a)
  }

  /** Some pool address from `from` on is free. */
  ghost predicate FreeFrom(p: Pool, ls: seq<Lease>, from: u32)
  {
    exists x: u32 :: InPool(p, x) && from <= x && !Leased(ls, x)
  }

  /** Which address a new client gets: the smallest free one from the cursor on, or of the whole pool when none is left
      there. An emptied list starts over at the first address, unless a client has just declined one. */
  lemma PoolChoiceIsSmallestFree(p: Pool, st: State)
    requires PoolOk(p) && Ordered(p, st.leases) && InReach(p, st.cursor) && !AllLeased(p, st.leases)
    ensures SmallestFree(p, st.leases,
      if (st.leases == [] && !st.declined) || !FreeFrom(p, st.leases, st.cursor) then p.start else st.cursor,
      PoolChoice(p, st))
  {
    AdvanceFindsSmallestFree(p, st.leases, st.cursor);
    FirstUnusedFindsSmallestFree(p, st.leases);
    PoolChoiceIsFree(p, st);
  }

  predicate NoReservations(t: Reserved) { forall i :: 0 <= i < |t| ==> !t[i].valid }

  lemma ChoiceWithoutReservations(t: Reserved, p: Pool, st: State, mac: Mac)
    requires NoReservations(t)
    ensures Choice(t, p, st, mac) == PoolChoice(p, st)
  {
    assert !Reservations.ReservedForOther(t, PoolChoice(p, st), mac);
  }

  /** Allocation is complete: without reservations a new client is turned away exactly when the pool is fully leased,
      and otherwise gets an address nobody holds. */
  lemma AllocationIsComplete(t: Reserved, p: Pool, st: State, m: Message)
    requires PoolOk(p) && Ordered(p, st.leases) && InReach(p, st.cursor)
    requires NoReservations(t) && m.cookieOk && IndexOfMac(st.leases, m.mac) == |st.leases|
    ensures var a := Choice(t, p, st, m.mac);
      && (a > p.end <==> AllLeased(p, st.leases))
      && (a <= p.end ==> InPool(p, a) && !Leased(st.leases, a))
      && (a > p.end ==> Handle(t, p, st, m) == (State(st.leases, p.start, a, false, false), DhcpOptions.Nacked))
  {
    ChoiceWithoutReservations(t, p, st, m.mac);
    PoolChoiceIsFree(p, st);
  }
}
