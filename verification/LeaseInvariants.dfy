/** What every step keeps: with any reservation table, and more without one. */
module LeaseInvariants {
  import opened Words
  import opened Sequences
  import opened Addresses
  import opened LeaseList
  import opened DhcpOptions
  import opened LeaseMachine
  import opened LeaseAllocation

  predicate OneLeaseEach(ls: seq<Lease>) { forall i, j :: 0 <= i < j < |ls| ==> ls[i].mac != ls[j].mac }

  predicate Running(ls: seq<Lease>) { forall i :: 0 <= i < |ls| ==> ls[i].timer >= 1 }

  /** Kept whatever is reserved: sorted by raw address, one lease per MAC, no timer at zero. */
  predicate Sound(ls: seq<Lease>) { Sorted(ls) && OneLeaseEach(ls) && Running(ls) }

  /** Kept without reservations: moreover every lease inside the pool, no address twice, the cursor in reach. */
  predicate Inv(p: Pool, st: State)
  {
    Sound(st.leases) && Ordered(p, st.leases) && InReach(p, st.cursor)
  }

  /** The same leases but for timers and host names. */
  predicate SameHolders(a: seq<Lease>, b: seq<Lease>)
  {
    |a| == |b| && forall i :: 0 <= i < |a| ==> a[i].ip == b[i].ip && a[i].mac == b[i].mac
  }

  lemma SoundAfterUpdate(ls: seq<Lease>, k: nat, l: Lease)
    requires Sound(ls) && k < |ls| && l.ip == ls[k].ip && l.mac == ls[k].mac && l.timer >= 1
    ensures Sound(ls[k := l]) && SameHolders(ls, ls[k := l])
  {
  }

  lemma OrderedAfterUpdate(p: Pool, a: seq<Lease>, b: seq<Lease>)
    requires Ordered(p, a) && SameHolders(a, b)
    ensures Ordered(p, b)
  {
    forall i | 0 <= i < |b|
      ensures InPool(p, b[i].ip)
    {
      assert a[i].ip == b[i].ip;
    }
    forall i, j | 0 <= i < j < |b|
      ensures b[i].ip < b[j].ip
    {
      assert a[i].ip == b[i].ip && a[j].ip == b[j].ip;
    }
  }

  lemma SoundAfterRemove(ls: seq<Lease>, k: nat)
    requires Sound(ls) && k < |ls|
    ensures Sound(RemoveAt(ls, k))
  {
  }

  lemma OrderedAfterRemove(p: Pool, ls: seq<Lease>, k: nat)
    requires Ordered(p, ls) && k < |ls|
    ensures Ordered(p, RemoveAt(ls, k))
  {
  }

  lemma MacsAfterInsert(ls: seq<Lease>, l: Lease)
    requires OneLeaseEach(ls) && IndexOfMac(ls, l.mac) == |ls|
    ensures OneLeaseEach(Insert(ls, l))
  {
    var k, r := UpperBound(ls, l.ip), Insert(ls, l);
    forall i, j | 0 <= i < j < |r|
      ensures r[i].mac != r[j].mac
    {
      if i != k { assert r[i] == ls[if i < k then i else i - 1]; }
      if j != k { assert r[j] == ls[if j < k then j else j - 1]; }
    }
  }

  lemma SortedAfterInsert(ls: seq<Lease>, l: Lease)
    requires Sorted(ls)
    ensures Sorted(Insert(ls, l))
  {
    var k, r := UpperBound(ls, l.ip), Insert(ls, l);
    forall i, j | 0 <= i < j < |r|
      ensures r[i].ip <= r[j].ip
    {
      if i != k { assert r[i] == ls[if i < k then i else i - 1]; }
      if j != k { assert r[j] == ls[if j < k then j else j - 1]; }
    }
  }

  lemma SoundAfterInsert(ls: seq<Lease>, l: Lease)
    requires Sound(ls) && IndexOfMac(ls, l.mac) == |ls| && l.timer >= 1
    ensures Sound(Insert(ls, l))
  {
    hide Sorted, OneLeaseEach, UpperBound;
    MacsAfterInsert(ls, l);
    SortedAfterInsert(ls, l);
  }

  lemma OrderedAfterInsert(p: Pool, ls: seq<Lease>, l: Lease)
    requires Ordered(p, ls) && Sorted(Insert(ls, l)) && InPool(p, l.ip) && !Leased(ls, l.ip)
    ensures Ordered(p, Insert(ls, l))
  {
    var k, r := UpperBound(ls, l.ip), Insert(ls, l);
    forall i, j | 0 <= i < j < |r|
      ensures r[i].ip < r[j].ip
    {
      if i == k { assert r[j] == ls[j - 1]; }
      if j == k { assert r[i] == ls[i]; }
    }
  }

  /** The last part of a step keeps what holds; only an option-level refusal, release or decline removes a lease. */
  lemma ConcludeKeepsSound(p: Pool, st: State, k: nat, m: Message)
    requires Sound(st.leases) && k < |st.leases|
    ensures var (st', v) := Conclude(p, st, k, m);
      Sound(st'.leases) && st'.cursor == st.cursor
          && (SameHolders(st.leases, st'.leases) || st'.leases == RemoveAt(st.leases, k))
  {
    SoundAfterRemove(st.leases, k);
    SoundAfterUpdate(st.leases, k, st.leases[k].(hostname := Hostname(DecodeFrom(m.options, 0))));
  }

  /** Any message, any reservation table, any pool with a timer: the list stays sound. */
  lemma HandleKeepsSound(t: Reserved, p: Pool, st: State, m: Message)
    requires Sound(st.leases) && p.timer >= 1
    ensures Sound(Handle(t, p, st, m).0.leases)
  {
    if m.cookieOk {
      var i := IndexOfMac(st.leases, m.mac);
      var client := Choice(t, p, st, m.mac);
      if i < |st.leases| {
        SoundAfterUpdate(st.leases, i, st.leases[i].(timer := p.timer));
        ConcludeKeepsSound(p, Recognised(p, st, i, m.ciaddr), i, m);
      } else if client <= p.end {
        SoundAfterInsert(st.leases, Lease(client, m.mac, p.timer, []));
        ConcludeKeepsSound(p, Allocated(p, st, client, m.mac), UpperBound(st.leases, client), m);
      }
    }
  }

  lemma ConcludeKeepsInv(p: Pool, st: State, k: nat, m: Message)
    requires Inv(p, st) && k < |st.leases|
    ensures Inv(p, Conclude(p, st, k, m).0)
  {
    ConcludeKeepsSound(p, st, k, m);
    var st' := Conclude(p, st, k, m).0;
    if SameHolders(st.leases, st'.leases) {
      OrderedAfterUpdate(p, st.leases, st'.leases);
    } else {
      OrderedAfterRemove(p, st.leases, k);
    }
  }

  lemma RecognisedKeepsInv(p: Pool, st: State, i: nat, ciaddr: u32)
    requires PoolOk(p) && Inv(p, st) && i < |st.leases|
    ensures Inv(p, Recognised(p, st, i, ciaddr))
  {
    SoundAfterUpdate(st.leases, i, st.leases[i].(timer := p.timer));
    OrderedAfterUpdate(p, st.leases, st.leases[i := st.leases[i].(timer := p.timer)]);
    assert Ordered(p, st.leases[..i]);
    AdvanceFindsSmallestFree(p, st.leases[..i], st.cursor);
  }

  lemma AllocatedKeepsInv(p: Pool, st: State, client: u32, mac: Mac)
    requires PoolOk(p) && Inv(p, st) && IndexOfMac(st.leases, mac) == |st.leases|
    requires InPool(p, client) && !Leased(st.leases, client)
    ensures Inv(p, Allocated(p, st, client, mac))
  {
    SoundAfterInsert(st.leases, Lease(client, mac, p.timer, []));
    OrderedAfterInsert(p, st.leases, Lease(client, mac, p.timer, []));
    NextUpToEnd(p, client);
  }

  lemma HandleKeepsInv(t: Reserved, p: Pool, st: State, m: Message)
    requires PoolOk(p) && NoReservations(t) && Inv(p, st)
    ensures Inv(p, Handle(t, p, st, m).0)
  {
    if m.cookieOk {
      var i := IndexOfMac(st.leases, m.mac);
      if i < |st.leases| {
        RecognisedKeepsInv(p, st, i, m.ciaddr);
        ConcludeKeepsInv(p, Recognised(p, st, i, m.ciaddr), i, m);
      } else {
        AllocationIsComplete(t, p, st, m);
        var client := Choice(t, p, st, m.mac);
        if client <= p.end {
          AllocatedKeepsInv(p, st, client, m.mac);
          ConcludeKeepsInv(p, Allocated(p, st, client, m.mac), UpperBound(st.leases, client), m);
        }
      }
    }
  }

  /** The cursor rotates: after a new client has been handled, even if it was refused in the end, the next new
      client gets a greater address as long as one is free. */
  lemma FreshAddressesRotate(t: Reserved, p: Pool, st: State, m: Message, t': Reserved, mac': Mac)
    requires PoolOk(p) && Inv(p, st) && st.leases != [] && NoReservations(t) && NoReservations(t')
    requires m.cookieOk && IndexOfMac(st.leases, m.mac) == |st.leases| && Choice(t, p, st, m.mac) < p.end
    ensures var a, st' := Choice(t, p, st, m.mac), Handle(t, p, st, m).0;
      (exists x: u32 :: InPool(p, x) && a < x && !Leased(st'.leases, x)) ==> a < Choice(t', p, st', mac') <= p.end
  {
    var a, st' := Choice(t, p, st, m.mac), Handle(t, p, st, m).0;
    if x: u32 :| InPool(p, x) && a < x && !Leased(st'.leases, x) {
      AllocationIsComplete(t, p, st, m);
      CursorPassesIt(t, p, st, m);
      HandleKeepsInv(t, p, st, m);
      NextUpToEnd(p, a);
      SamePrefixSteps(a, x);
      ChoiceWithoutReservations(t', p, st', mac');
      PoolChoiceIsSmallestFree(p, st');
    }
  }

  lemma CursorPassesIt(t: Reserved, p: Pool, st: State, m: Message)
    requires PoolOk(p) && Inv(p, st) && m.cookieOk && IndexOfMac(st.leases, m.mac) == |st.leases|
    requires Choice(t, p, st, m.mac) <= p.end
    ensures var a, st' := Choice(t, p, st, m.mac), Handle(t, p, st, m).0;
      st'.cursor == CursorAfter(p, a) && |st'.leases| >= |st.leases|
  {
    var a := Choice(t, p, st, m.mac);
    SoundAfterInsert(st.leases, Lease(a, m.mac, p.timer, []));
    ConcludeKeepsSound(p, Allocated(p, st, a, m.mac), UpperBound(st.leases, a), m);
  }

  /** `l` is what a lease of `ls` with more than one tick left has become after a tick. */
  predicate Survivor(ls: seq<Lease>, l: Lease)
  {
    exists j :: 0 <= j < |ls| && ls[j].timer > 1 && l == ls[j].(timer := ls[j].timer - 1)
  }

  /** Exactly the leases with more than one tick left survive the countdown. */
  lemma {:induction false} ExpireSurvivors(ls: seq<Lease>)
    requires Running(ls)
    ensures |Expire(ls)| <= |ls|
    ensures forall l: Lease :: l in Expire(ls) <==> Survivor(ls, l)
    decreases |ls|
  {
    if ls != [] {
      var n := |ls| - 1;
      var front := ls[..n];
      ExpireSurvivors(front);
      forall l: Lease
        ensures l in Expire(ls) <==> Survivor(ls, l)
      {
        SurvivorFront(ls, l);
      }
    }
  }

  lemma SurvivorFront(ls: seq<Lease>, l: Lease)
    requires ls != [] && Running(ls)
    ensures var x := ls[|ls| - 1];
      Survivor(ls, l) <==> Survivor(ls[..|ls| - 1], l) || (x.timer > 1 && l == x.(timer := x.timer - 1))
  {
    var front := ls[..|ls| - 1];
    if Survivor(front, l) {
      var j :| 0 <= j < |front| && front[j].timer > 1 && l == front[j].(timer := front[j].timer - 1);
      assert ls[j] == front[j];
    }
    if Survivor(ls, l) {
      var j :| 0 <= j < |ls| && ls[j].timer > 1 && l == ls[j].(timer := ls[j].timer - 1);
      if j < |front| { assert front[j] == ls[j]; }
    }
  }

  /** Where a survivor comes from. */
  lemma SurvivorOrigin(ls: seq<Lease>, i: nat) returns (j: nat)
    requires Running(ls) && i < |Expire(ls)|
    ensures j < |ls| && ls[j].ip == Expire(ls)[i].ip && ls[j].mac == Expire(ls)[i].mac
  {
    hide Expire, Running;
    ExpireSurvivors(ls);
    var l := Expire(ls)[i];
    assert l in Expire(ls) && Survivor(ls, l);
    j :| 0 <= j < |ls| && ls[j].timer > 1 && l == ls[j].(timer := ls[j].timer - 1);
  }

  lemma {:induction false} ExpireKeepsSound(ls: seq<Lease>)
    requires Sound(ls)
    ensures Sound(Expire(ls))
    decreases |ls|
  {
    if ls != [] {
      var front, last := ls[..|ls| - 1], ls[|ls| - 1];
      ExpireKeepsSound(front);
      var e := Expire(front);
      forall i | 0 <= i < |e|
        ensures e[i].ip <= last.ip && e[i].mac != last.mac
      {
        var j := SurvivorOrigin(front, i);
        assert front[j] == ls[j];
      }
      var kept := if CountDown(last.timer) == 0 then [] else [last.(timer := CountDown(last.timer))];
      assert Expire(ls) == e + kept;
      hide Expire;
      SoundAppend(e, kept, last);
    }
  }

  lemma SoundAppend(e: seq<Lease>, kept: seq<Lease>, last: Lease)
    requires Sound(e) && forall i :: 0 <= i < |e| ==> e[i].ip <= last.ip && e[i].mac != last.mac
    requires kept == [] || (|kept| == 1 && kept[0].ip == last.ip && kept[0].mac == last.mac && kept[0].timer >= 1)
    ensures Sound(e + kept)
  {
  }

  lemma {:induction false} ExpireKeepsOrdered(p: Pool, ls: seq<Lease>)
    requires Ordered(p, ls) && Running(ls)
    ensures Ordered(p, Expire(ls))
    decreases |ls|
  {
    if ls != [] {
      var front := ls[..|ls| - 1];
      ExpireKeepsOrdered(p, front);
      var e := Expire(front);
      forall i | 0 <= i < |e|
        ensures e[i].ip < ls[|ls| - 1].ip
      {
        var j := SurvivorOrigin(front, i);
        assert front[j] == ls[j];
      }
    }
  }

  lemma TickKeepsSound(ls: seq<Lease>)
    requires Sound(ls)
    ensures Sound(Tick(ls))
  {
    ExpireKeepsSound(ls);
    if Crowded(Expire(ls)) { SoundAfterRemove(Expire(ls), Oldest(Expire(ls))); }
  }

  lemma TickKeepsOrdered(p: Pool, ls: seq<Lease>)
    requires Ordered(p, ls) && Running(ls)
    ensures Ordered(p, Tick(ls))
  {
    ExpireKeepsOrdered(p, ls);
    if Crowded(Expire(ls)) { OrderedAfterRemove(p, Expire(ls), Oldest(Expire(ls))); }
  }

  /** A pool inside a /24 holds at most as many leases as it has addresses, so the byte counter of a tick is exact. */
  lemma {:induction false} PoolBoundsLeases(p: Pool, ls: seq<Lease>)
    requires PoolOk(p) && Ordered(p, ls)
    ensures |ls| <= Host(p.end) - Host(p.start) + 1 <= 255
    ensures forall i :: 0 <= i < |ls| ==> ls[i].ip >= p.start + PREFIX * i
    decreases |ls|
  {
    if ls != [] {
      var n := |ls| - 1;
      PoolBoundsLeases(p, ls[..n]);
      if n > 0 {
        assert ls[..n][n - 1] == ls[n - 1];
        SamePrefixSteps(ls[n - 1].ip, ls[n].ip);
      }
    }
  }

  datatype Event = Received(reserved: Reserved, m: Message) | TimerTick

  function Step(p: Pool, st: State, e: Event): State
  {
    match e
    case Received(t, m) => Handle(t, p, st, m).0
    case TimerTick => st.(leases := Tick(st.leases))
  }

  function Run(p: Pool, st: State, events: seq<Event>): State
    decreases |events|
  {
    if events == [] then st else Run(p, Step(p, st, events[0]), events[1..])
  }

  /** A server started for the first time. */
  function Started(p: Pool): State { State([], p.start, 0, false, false) }

  /** A server started or started again: the rest of its state may be left from before it was stopped. */
  predicate Starting(p: Pool, st: State) { st.leases == [] && st.cursor == p.start }

  /** No reservation is in force when the event happens. */
  predicate Unreserved(e: Event) { e.Received? ==> NoReservations(e.reserved) }

  /** Over every run of messages and ticks with changing reservations: sorted, one lease per MAC, timers running. */
  lemma {:induction false} RunStaysSound(p: Pool, st: State, events: seq<Event>)
    requires Sound(st.leases) && p.timer >= 1
    ensures Sound(Run(p, st, events).leases)
    decreases |events|
  {
    if events != [] {
      match events[0] {
        case Received(t, m) => HandleKeepsSound(t, p, st, m);
        case TimerTick => TickKeepsSound(st.leases);
      }
      RunStaysSound(p, Step(p, st, events[0]), events[1..]);
    }
  }

  lemma {:induction false} RunKeepsInv(p: Pool, st: State, events: seq<Event>)
    requires PoolOk(p) && Inv(p, st) && forall e :: e in events ==> Unreserved(e)
    ensures Inv(p, Run(p, st, events))
    decreases |events|
  {
    if events != [] {
      assert events[0] in events;
      match events[0] {
        case Received(t, m) =>
          HandleKeepsInv(t, p, st, m);
        case TimerTick =>
          TickKeepsSound(st.leases);
          TickKeepsOrdered(p, st.leases);
      }
      RunKeepsInv(p, Step(p, st, events[0]), events[1..]);
    }
  }

  /** Every reachable state without reservations: leases strictly sorted, so all addresses distinct, inside the
      pool, one per MAC, every timer at least one tick, and never more than the pool has addresses. */
  lemma ReachableWithoutReservations(p: Pool, st0: State, events: seq<Event>)
    requires PoolOk(p) && Starting(p, st0) && forall e :: e in events ==> Unreserved(e)
    ensures var st := Run(p, st0, events);
      Inv(p, st) && |st.leases| <= Host(p.end) - Host(p.start) + 1
  {
    RunKeepsInv(p, st0, events);
    PoolBoundsLeases(p, Run(p, st0, events).leases);
  }

  lemma {:induction false} RunAppend(p: Pool, st: State, a: seq<Event>, b: seq<Event>)
    ensures Run(p, st, a + b) == Run(p, Run(p, st, a), b)
    decreases |a|
  {
    if a == [] {
      assert a + b == b;
    } else {
      assert (a + b)[1..] == a[1..] + b;
      RunAppend(p, Step(p, st, a[0]), a[1..], b);
    }
  }

  lemma RunOfOne(p: Pool, st: State, e: Event)
    ensures Run(p, st, [e]) == Step(p, st, e)
  {
    assert Run(p, Step(p, st, e), []) == Step(p, st, e);
  }

  lemma RunSnoc(p: Pool, st: State, events: seq<Event>, e: Event)
    ensures Run(p, st, events + [e]) == Step(p, Run(p, st, events), e)
  {
    RunAppend(p, st, events, [e]);
    RunOfOne(p, Run(p, st, events), e);
  }
}
