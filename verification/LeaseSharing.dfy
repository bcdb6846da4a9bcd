/** With reservations two leases can share an address, and clients can be refused beside free addresses: exactly
    when. */
module LeaseSharing {
  import opened Words
  import opened Sequences
  import opened Addresses
  import opened LeaseList
  import opened DhcpOptions
  import opened LeaseMachine
  import opened LeaseAllocation
  import opened LeaseInvariants
  import opened LeaseReplies
  import opened ClientMessages
  import Reservations

  /** Kept over every run, whatever is reserved: a sound list without the address 0.0.0.0 and addresses above the
      pool. */
  predicate Confined(p: Pool, ls: seq<Lease>)
  {
    Sound(ls) && UpTo(p, ls) && forall i :: 0 <= i < |ls| ==> ls[i].ip != 0
  }

  predicate DistinctAddresses(ls: seq<Lease>) { forall i, j :: 0 <= i < j < |ls| ==> ls[i].ip != ls[j].ip }

  /** In numeric order, the addresses from `a` on are reserved for others, all the way up to one that is leased. */
  ghost predicate RunsIntoLease(t: Reserved, p: Pool, ls: seq<Lease>, a: u32, mac: Mac)
  {
    exists x: u32 :: Leased(ls, x) && OthersUpTo(t, p, a, x, mac)
  }

  /** Of the addresses from `a` to `x` all but `x` are reserved for others and not above the pool. */
  ghost predicate OthersUpTo(t: Reserved, p: Pool, a: u32, x: u32, mac: Mac)
  {
    && !Reservations.ReservedForOther(t, x, mac) && Swap32(a) <= Swap32(x)
    && forall b: u32 :: Swap32(a) <= Swap32(b) < Swap32(x) ==> Passed(t, b, p.end, mac)
  }

  /** The client's own reservation is leased to somebody, or it has none and the skip runs into a lease. */
  ghost predicate Collides(t: Reserved, p: Pool, st: State, mac: Mac)
  {
    var own := Reservations.Lookup(t, mac);
    if own != 0 then Leased(st.leases, own) else RunsIntoLease(t, p, st.leases, PoolChoice(p, st), mac)
  }

  lemma SkipEndsAt(t: Reserved, p: Pool, a: u32, x: u32, mac: Mac)
    requires OthersUpTo(t, p, a, x, mac) && x <= p.end
    ensures SkipReserved(t, a, p.end, mac) == x
  {
    hide SkipReserved, Swap32, Reservations.ReservedForOther;
    SkipReservedSkips(t, a, p.end, mac);
    SkipReservedStops(t, a, p.end, mac);
    SwapInjective(SkipReserved(t, a, p.end, mac), x);
  }

  /** For any pool, any reservations and any list a run can produce: when the address picked for a new client is already
      leased. */
  lemma FreshAddressIsTakenIff(t: Reserved, p: Pool, st: State, mac: Mac)
    requires UpTo(p, st.leases) && !Leased(st.leases, 0)
    ensures Leased(st.leases, Choice(t, p, st, mac)) <==> Collides(t, p, st, mac)
  {
    hide SkipReserved, PoolChoice, Swap32, Reservations.ReservedForOther;
    var a := PoolChoice(p, st);
    var r := SkipReserved(t, a, p.end, mac);
    SkipReservedSkips(t, a, p.end, mac);
    SkipReservedStops(t, a, p.end, mac);
    if Leased(st.leases, r) {
      assert OthersUpTo(t, p, a, r, mac);
    }
    if RunsIntoLease(t, p, st.leases, a, mac) {
      var x: u32 :| Leased(st.leases, x) && OthersUpTo(t, p, a, x, mac);
      SkipEndsAt(t, p, a, x, mac);
    }
  }

  lemma DistinctAfterRemove(ls: seq<Lease>, k: nat)
    requires DistinctAddresses(ls) && k < |ls|
    ensures DistinctAddresses(RemoveAt(ls, k))
  {
  }

  lemma DistinctAfterUpdate(a: seq<Lease>, b: seq<Lease>)
    requires SameHolders(a, b)
    ensures DistinctAddresses(a) <==> DistinctAddresses(b)
  {
  }

  lemma DistinctAfterInsertIff(ls: seq<Lease>, l: Lease)
    requires DistinctAddresses(ls)
    ensures DistinctAddresses(Insert(ls, l)) <==> !Leased(ls, l.ip)
  {
    var k, r := UpperBound(ls, l.ip), Insert(ls, l);
    if i :| 0 <= i < |ls| && ls[i].ip == l.ip {
      assert r[if i < k then i else i + 1] == ls[i] && r[k] == l;
    } else {
      forall i, j | 0 <= i < j < |r|
        ensures r[i].ip != r[j].ip
      {
        if i != k { assert r[i] == ls[if i < k then i else i - 1]; }
        if j != k { assert r[j] == ls[if j < k then j else j - 1]; }
      }
    }
  }

  lemma {:induction false} ExpireKeepsDistinct(ls: seq<Lease>)
    requires DistinctAddresses(ls) && Running(ls)
    ensures DistinctAddresses(Expire(ls))
    decreases |ls|
  {
    if ls != [] {
      var front := ls[..|ls| - 1];
      ExpireKeepsDistinct(front);
      var e := Expire(front);
      forall i | 0 <= i < |e|
        ensures e[i].ip != ls[|ls| - 1].ip
      {
        var j := SurvivorOrigin(front, i);
        assert front[j] == ls[j];
      }
    }
  }

  lemma TickKeepsDistinct(ls: seq<Lease>)
    requires DistinctAddresses(ls) && Running(ls)
    ensures DistinctAddresses(Tick(ls))
  {
    ExpireKeepsDistinct(ls);
    if Crowded(Expire(ls)) { DistinctAfterRemove(Expire(ls), Oldest(Expire(ls))); }
  }

  /** A message that makes two leases share an address: from a client without a lease whose address is taken, and which
      is not refused in the end. */
  ghost predicate Collision(p: Pool, st: State, e: Event)
  {
    && e.Received? && e.m.cookieOk && IndexOfMac(st.leases, e.m.mac) == |st.leases|
    && Collides(e.reserved, p, st, e.m.mac)
    && !Refused(VerdictOn(e.m.options, Choice(e.reserved, p, st, e.m.mac), false))
  }

  lemma ConcludeFresh(p: Pool, st: State, client: u32, m: Message)
    requires DistinctAddresses(st.leases)
    ensures DistinctAddresses(Conclude(p, Allocated(p, st, client, m.mac), UpperBound(st.leases, client),
        m).0.leases) <==>
      client > p.end || client == 0 || Refused(VerdictOn(m.options, client, false)) || !Leased(st.leases, client)
  {
    hide VerdictOn, Insert, RemoveAt, Hostname;
    var mid, k := Allocated(p, st, client, m.mac), UpperBound(st.leases, client);
    InsertThenRemove(st.leases, Lease(client, m.mac, p.timer, []));
    DistinctAfterInsertIff(st.leases, Lease(client, m.mac, p.timer, []));
    InsertedAt(st.leases, Lease(client, m.mac, p.timer, []));
    var l := mid.leases[k].(hostname := Hostname(DecodeFrom(m.options, 0)));
    DistinctAfterUpdate(mid.leases, mid.leases[k := l]);
  }

  lemma InsertedAt(ls: seq<Lease>, l: Lease)
    ensures UpperBound(ls, l.ip) < |Insert(ls, l)| && Insert(ls, l)[UpperBound(ls, l.ip)] == l
  {
  }

  lemma ConcludeKnown(p: Pool, st: State, k: nat, m: Message)
    requires DistinctAddresses(st.leases) && Sound(st.leases) && k < |st.leases|
    ensures DistinctAddresses(Conclude(p, st, k, m).0.leases)
  {
    ConcludeKeepsSound(p, st, k, m);
    DistinctAfterRemove(st.leases, k);
    var after := Conclude(p, st, k, m).0.leases;
    if SameHolders(st.leases, after) { DistinctAfterUpdate(st.leases, after); }
  }

  /** One step from a state without shared addresses: it makes two leases share one if and only if it is a collision. */
  lemma StepSharesIff(p: Pool, st: State, e: Event)
    requires p.timer >= 1 && Confined(p, st.leases) && DistinctAddresses(st.leases)
    ensures DistinctAddresses(Step(p, st, e).leases) <==> !Collision(p, st, e)
  {
    match e {
      case TimerTick =>
        TickKeepsDistinct(st.leases);
      case Received(t, m) =>
        if m.cookieOk {
          var i, client := IndexOfMac(st.leases, m.mac), Choice(t, p, st, m.mac);
          if i < |st.leases| {
            var mid := Recognised(p, st, i, m.ciaddr);
            SoundAfterUpdate(st.leases, i, mid.leases[i]);
            DistinctAfterUpdate(st.leases, mid.leases);
            ConcludeKnown(p, mid, i, m);
          } else {
            FreshAddressIsTakenIff(t, p, st, m.mac);
            ConcludeFresh(p, st, client, m);
          }
        }
    }
  }

  lemma ConfinedAfterRemove(p: Pool, ls: seq<Lease>, k: nat)
    requires Confined(p, ls) && k < |ls|
    ensures Confined(p, RemoveAt(ls, k))
  {
    SoundAfterRemove(ls, k);
  }

  lemma ConfinedAfterUpdate(p: Pool, a: seq<Lease>, b: seq<Lease>)
    requires Confined(p, a) && SameHolders(a, b) && Sound(b)
    ensures Confined(p, b)
  {
  }

  lemma ConfinedAfterInsert(p: Pool, ls: seq<Lease>, l: Lease)
    requires Confined(p, ls) && Sound(Insert(ls, l)) && 0 < l.ip <= p.end
    ensures Confined(p, Insert(ls, l))
  {
    var k, r := UpperBound(ls, l.ip), Insert(ls, l);
    forall i | 0 <= i < |r|
      ensures 0 < r[i].ip <= p.end
    {
      if i != k { assert r[i] == ls[if i < k then i else i - 1]; }
    }
  }

  lemma ConcludeKeepsConfined(p: Pool, st: State, k: nat, m: Message)
    requires Confined(p, st.leases) && k < |st.leases|
    ensures Confined(p, Conclude(p, st, k, m).0.leases)
  {
    ConcludeKeepsSound(p, st, k, m);
    ConfinedAfterRemove(p, st.leases, k);
    var after := Conclude(p, st, k, m).0.leases;
    if SameHolders(st.leases, after) {
      SoundAfterUpdate(st.leases, k, st.leases[k].(hostname := Hostname(DecodeFrom(m.options, 0))));
      ConfinedAfterUpdate(p, st.leases, after);
    }
  }

  lemma HandleKeepsConfined(t: Reserved, p: Pool, st: State, m: Message)
    requires p.timer >= 1 && Confined(p, st.leases)
    ensures Confined(p, Handle(t, p, st, m).0.leases)
  {
    if m.cookieOk {
      var i, client := IndexOfMac(st.leases, m.mac), Choice(t, p, st, m.mac);
      if i < |st.leases| {
        var mid := Recognised(p, st, i, m.ciaddr);
        SoundAfterUpdate(st.leases, i, mid.leases[i]);
        ConfinedAfterUpdate(p, st.leases, mid.leases);
        ConcludeKeepsConfined(p, mid, i, m);
      } else if client <= p.end {
        FreshKeepsConfined(p, st, client, m);
      }
    }
  }

  lemma FreshKeepsConfined(p: Pool, st: State, client: u32, m: Message)
    requires p.timer >= 1 && Confined(p, st.leases) && client <= p.end && IndexOfMac(st.leases, m.mac) == |st.leases|
    ensures Confined(p, Conclude(p, Allocated(p, st, client, m.mac), UpperBound(st.leases, client), m).0.leases)
  {
    hide Insert, RemoveAt, VerdictOn, UpperBound;
    var l := Lease(client, m.mac, p.timer, []);
    InsertedAt(st.leases, l);
    if client == 0 {
      InsertThenRemove(st.leases, l);
    } else {
      SoundAfterInsert(st.leases, l);
      ConfinedAfterInsert(p, st.leases, l);
      ConcludeKeepsConfined(p, Allocated(p, st, client, m.mac), UpperBound(st.leases, client), m);
    }
  }

  lemma ExpireKeepsConfined(p: Pool, ls: seq<Lease>)
    requires Confined(p, ls)
    ensures Confined(p, Expire(ls))
  {
    ExpireKeepsSound(ls);
    var e := Expire(ls);
    forall i | 0 <= i < |e|
      ensures 0 < e[i].ip <= p.end
    {
      var j := SurvivorOrigin(ls, i);
    }
  }

  lemma StepKeepsConfined(p: Pool, st: State, e: Event)
    requires p.timer >= 1 && Confined(p, st.leases)
    ensures Confined(p, Step(p, st, e).leases)
  {
    match e {
      case Received(t, m) =>
        HandleKeepsConfined(t, p, st, m);
      case TimerTick =>
        ExpireKeepsConfined(p, st.leases);
        var left := Expire(st.leases);
        if Crowded(left) { ConfinedAfterRemove(p, left, Oldest(left)); }
    }
  }

  /** In no state of the run do two leases share an address. */
  predicate NeverShares(p: Pool, st: State, events: seq<Event>)
    decreases |events|
  {
    DistinctAddresses(st.leases) && (events != [] ==> NeverShares(p, Step(p, st, events[0]), events[1..]))
  }

  ghost predicate NeverCollides(p: Pool, st: State, events: seq<Event>)
    decreases |events|
  {
    events != [] ==> !Collision(p, st, events[0]) && NeverCollides(p, Step(p, st, events[0]), events[1..])
  }

  /** Over every run with any pool and any reservations, changing at will: addresses stay distinct if and only if
      no step collides. */
  lemma {:induction false} RunSharesIff(p: Pool, st: State, events: seq<Event>)
    requires p.timer >= 1 && Confined(p, st.leases) && DistinctAddresses(st.leases)
    ensures NeverShares(p, st, events) <==> NeverCollides(p, st, events)
    decreases |events|
  {
    if events != [] {
      var st' := Step(p, st, events[0]);
      StepSharesIff(p, st, events[0]);
      StepKeepsConfined(p, st, events[0]);
      if DistinctAddresses(st'.leases) {
        RunSharesIff(p, st', events[1..]);
      } else {
        assert !NeverShares(p, st', events[1..]);
      }
    }
  }
}
