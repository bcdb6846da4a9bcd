/** Runs from a started server in which reservations make two leases share an address, or hide a free one. */
module SharingRuns {
  import opened Words
  import opened Addresses
  import opened LeaseList
  import opened LeaseMachine
  import opened LeaseAllocation
  import opened LeaseInvariants
  import opened ClientMessages
  import Reservations

  /** A table with one reservation. */
  function Only(mac: Mac, ip: u32): Reserved { [Reservations.Entry(mac, ip, [], true)] }

  lemma OnlyReserves(mac: Mac, ip: u32, other: Mac, a: u32)
    ensures Reservations.Lookup(Only(mac, ip), mac) == ip
    ensures other != mac ==> Reservations.Lookup(Only(mac, ip), other) == 0
    ensures Reservations.ReservedForOther(Only(mac, ip), a, other) <==> a != 0 && a == ip && other != mac
  {
    assert Only(mac, ip)[0].valid;
  }

  /** A client without a lease asks while the reservations are `t`. */
  function Asks(t: Reserved, mac: Mac): Event { Received(t, Discover(mac)) }

  lemma AskedFor(p: Pool, st: State, t: Reserved, mac: Mac, a: u32)
    requires IndexOfMac(st.leases, mac) == |st.leases| && Choice(t, p, st, mac) == a && 0 < a <= p.end
    ensures Step(p, st, Asks(t, mac)) == Allocated(p, st, a, mac)
  {
    DiscoverIsServed(t, p, st, mac);
  }

  lemma RunOfTwo(p: Pool, st: State, d: Event, e: Event)
    ensures Run(p, st, [d, e]) == Step(p, Step(p, st, d), e)
  {
    assert [d, e][1..] == [e] && [e][1..] == [];
    assert Run(p, Step(p, Step(p, st, d), e), []) == Step(p, Step(p, st, d), e);
  }

  lemma RunOfThree(p: Pool, st: State, c: Event, d: Event, e: Event)
    ensures Run(p, st, [c, d, e]) == Step(p, Step(p, Step(p, st, c), d), e)
  {
    assert [c, d, e][1..] == [d, e];
    RunOfTwo(p, Step(p, st, c), d, e);
  }

  lemma InsertedFirst(x: Lease)
    ensures Insert([], x) == [x]
  {
  }

  lemma InsertedAround(x: Lease, y: Lease)
    ensures Insert([x], y) == if y.ip < x.ip then [y, x] else [x, y]
  {
  }

  lemma InsertedLast(x: Lease, y: Lease, z: Lease)
    requires x.ip <= z.ip && y.ip <= z.ip
    ensures Insert([x, y], z) == [x, y, z]
  {
    assert [x, y][1..] == [y];
  }

  lemma FirstChoice(p: Pool, st: State, mac: Mac)
    requires PoolOk(p) && st.leases == [] && !st.declined
    ensures Choice([], p, st, mac) == p.start
  {
    ChoiceWithoutReservations([], p, st, mac);
  }

  /** A holds the pool's first address; it is reserved for B; B gets it too. */
  lemma OwnReservationRepeatsAnAddress(p: Pool, a: Mac, b: Mac)
    requires PoolOk(p) && p.start != 0 && a != b
    ensures var events := [Asks([], a), Asks(Only(b, p.start), b)];
      Run(p, Started(p), events).leases == [Lease(p.start, a, p.timer, []), Lease(p.start, b, p.timer, [])]
  {
    hide Insert, Handle, Choice, CursorAfter;
    var x, y := Lease(p.start, a, p.timer, []), Lease(p.start, b, p.timer, []);
    var st0 := Started(p);
    FirstChoice(p, st0, a);
    AskedFor(p, st0, [], a, p.start);
    var st1 := Allocated(p, st0, p.start, a);
    InsertedFirst(x);
    OnlyReserves(b, p.start, a, p.start);
    OwnChoice(Only(b, p.start), p, st1, b);
    AskedFor(p, st1, Only(b, p.start), b, p.start);
    InsertedAround(x, y);
    RunOfTwo(p, st0, Asks([], a), Asks(Only(b, p.start), b));
  }

  lemma OwnChoice(t: Reserved, p: Pool, st: State, mac: Mac)
    ensures Reservations.Lookup(t, mac) != 0 ==> Choice(t, p, st, mac) == Reservations.Lookup(t, mac)
  {
  }

  /** C and A are given their reserved addresses, the third and the first of the pool; then the second is reserved
      for B, and D, without a reservation, is taken past it to the address C holds. */
  lemma SkippingRepeatsAnAddress(p: Pool, a: Mac, b: Mac, c: Mac, d: Mac)
    requires PoolOk(p) && p.start != 0 && Host(p.start) + 2 <= Host(p.end)
    requires a != c && b != d && c != d && a != d
    ensures var second: u32, third: u32 := p.start + PREFIX, p.start + 2 * PREFIX;
      var events := [Asks(Only(c, third), c), Asks(Only(a, p.start), a), Asks(Only(b, second), d)];
      Run(p, Started(p), events).leases
        == [Lease(p.start, a, p.timer, []), Lease(third, c, p.timer, []), Lease(third, d, p.timer, [])]
  {
    hide Insert, Handle, Choice, CursorAfter;
    PoolHosts(p);
    var second: u32, third: u32 := p.start + PREFIX, p.start + 2 * PREFIX;
    var x, y, z := Lease(p.start, a, p.timer, []), Lease(third, c, p.timer, []), Lease(third, d, p.timer, []);
    var st0 := Started(p);
    OnlyReserves(c, third, c, third);
    OwnChoice(Only(c, third), p, st0, c);
    AskedFor(p, st0, Only(c, third), c, third);
    var st1 := Allocated(p, st0, third, c);
    InsertedFirst(y);
    OnlyReserves(a, p.start, a, p.start);
    OwnChoice(Only(a, p.start), p, st1, a);
    AskedFor(p, st1, Only(a, p.start), a, p.start);
    var st2 := Allocated(p, st1, p.start, a);
    InsertedAround(y, x);
    CursorBehind(p);
    ThirdIsChosen(p, st2, x, y, b, d);
    AskedFor(p, st2, Only(b, second), d, third);
    InsertedLast(x, y, z);
    RunOfThree(p, st0, Asks(Only(c, third), c), Asks(Only(a, p.start), a), Asks(Only(b, second), d));
  }

  lemma PoolHosts(p: Pool)
    requires PoolOk(p)
    ensures p.end == p.start + PREFIX * (Host(p.end) - Host(p.start))
  {
    AddressOf(p.start);
    AddressOf(p.end);
  }

  lemma CursorBehind(p: Pool)
    requires PoolOk(p) && p.start < p.end
    ensures CursorAfter(p, p.start) == p.start + PREFIX
  {
    NextUpToEnd(p, p.start);
  }

  lemma ThirdIsChosen(p: Pool, st: State, x: Lease, y: Lease, b: Mac, d: Mac)
    requires PoolOk(p) && p.start + 2 * PREFIX <= p.end && b != d
    requires st.leases == [x, y] && st.cursor == p.start + PREFIX && x.ip == p.start && y.ip == p.start + 2 * PREFIX
    ensures Choice(Only(b, p.start + PREFIX), p, st, d) == p.start + 2 * PREFIX
  {
    var second: u32, third: u32 := p.start + PREFIX, p.start + 2 * PREFIX;
    var t := Only(b, second);
    AdvanceStays(st.leases, st.cursor);
    assert PoolChoice(p, st) == second;
    NextUpToEnd(p, second);
    OnlyReserves(b, second, d, second);
    OnlyReserves(b, second, d, third);
    assert SkipReserved(t, second, p.end, d) == SkipReserved(t, third, p.end, d) == third;
  }
}
