/** How long leases live, and which one a crowded server gives up. */
module LeaseExpiry {
  import opened Words
  import opened Wrappers
  import opened LeaseList
  import opened DhcpOptions
  import opened LeaseMachine
  import opened LeaseInvariants
  import opened LeaseReplies

  /** A lease after `ticks` ticks. */
  function Aged(l: Option<Lease>, ticks: nat): Option<Lease>
  {
    if l.Some? && l.value.timer > ticks then Some(l.value.(timer := l.value.timer - ticks)) else None
  }

  /** This tick gives up the lease of `mac` although it has not expired. */
  predicate Evicts(ls: seq<Lease>, mac: Mac)
  {
    var left := Expire(ls);
    Crowded(left) && left[Oldest(left)].mac == mac
  }

  lemma LeaseOfMember(ls: seq<Lease>, l: Lease)
    requires OneLeaseEach(ls) && l in ls
    ensures LeaseOf(ls, l.mac) == Some(l)
  {
    var k :| 0 <= k < |ls| && ls[k] == l;
    IndexOfMacIs(ls, l.mac, k);
  }

  lemma LeaseOfIs(ls: seq<Lease>, mac: Mac)
    ensures var l := LeaseOf(ls, mac); l.Some? ==> l.value in ls && l.value.mac == mac
  {
  }

  lemma IsSurvivor(ls: seq<Lease>, l: Lease)
    requires l in ls && l.timer > 1
    ensures Survivor(ls, l.(timer := l.timer - 1))
  {
  }

  lemma AfterCountdown(ls: seq<Lease>, mac: Mac)
    requires Sound(ls)
    ensures LeaseOf(Expire(ls), mac) == Aged(LeaseOf(ls, mac), 1)
  {
    hide Sound, Expire, LeaseOf, Survivor, OneLeaseEach, Running;
    ExpireKeepsSound(ls);
    OneEach(ls);
    OneEach(Expire(ls));
    var before, after := LeaseOf(ls, mac), LeaseOf(Expire(ls), mac);
    LeaseOfIs(ls, mac);
    LeaseOfIs(Expire(ls), mac);
    if before.Some? && before.value.timer > 1 {
      var l := before.value.(timer := before.value.timer - 1);
      IsSurvivor(ls, before.value);
      SurvivesIff(ls, l);
      LeaseOfMember(Expire(ls), l);
    } else if after.Some? {
      SurvivesIff(ls, after.value);
      NoSurvivor(ls, after.value);
    }
  }

  lemma SurvivesIff(ls: seq<Lease>, l: Lease)
    requires Sound(ls)
    ensures l in Expire(ls) <==> Survivor(ls, l)
  {
    ExpireSurvivors(ls);
  }

  lemma NoSurvivor(ls: seq<Lease>, l: Lease)
    requires OneLeaseEach(ls) && Survivor(ls, l)
    ensures LeaseOf(ls, l.mac).Some? && LeaseOf(ls, l.mac).value.timer > 1
  {
    var j :| 0 <= j < |ls| && ls[j].timer > 1 && l == ls[j].(timer := ls[j].timer - 1);
    IndexOfMacIs(ls, l.mac, j);
  }

  /** A tick ages every lease by one, drops those that reach zero, and takes nothing else but the lease it evicts. */
  lemma AfterTick(ls: seq<Lease>, mac: Mac)
    requires Sound(ls)
    ensures LeaseOf(Tick(ls), mac) == if Evicts(ls, mac) then None else Aged(LeaseOf(ls, mac), 1)
  {
    AfterCountdown(ls, mac);
    ExpireKeepsSound(ls);
    var left := Expire(ls);
    if Crowded(left) { LeaseAfterRemove(left, Oldest(left)); }
  }

  /** Eviction happens only when more than MAX_STATION_NUM leases survive the countdown, and takes a survivor's lease
      that no other survivor has less time on. */
  lemma EvictionTakesTheOldest(ls: seq<Lease>, mac: Mac, other: Mac)
    requires Sound(ls) && Evicts(ls, mac)
    ensures |Expire(ls)| > MAX_STATION_NUM && Aged(LeaseOf(ls, mac), 1).Some?
    ensures Aged(LeaseOf(ls, other), 1).Some? ==>
      Aged(LeaseOf(ls, other), 1).value.timer >= Aged(LeaseOf(ls, mac), 1).value.timer
  {
    Wrapped(|Expire(ls)|);
    EvictedLease(ls, mac);
    AfterCountdown(ls, mac);
    AfterCountdown(ls, other);
    if LeaseOf(Expire(ls), other).Some? { OldestHasLeast(Expire(ls), other); }
  }

  lemma Wrapped(n: nat)
    ensures n % 0x100 <= n && (n < 0x100 ==> n % 0x100 == n)
  {
  }

  lemma EvictedLease(ls: seq<Lease>, mac: Mac)
    requires Sound(ls) && Evicts(ls, mac)
    ensures LeaseOf(Expire(ls), mac) == Some(Expire(ls)[Oldest(Expire(ls))])
  {
    ExpireKeepsSound(ls);
    LeaseOfMember(Expire(ls), Expire(ls)[Oldest(Expire(ls))]);
  }

  lemma OldestHasLeast(left: seq<Lease>, mac: Mac)
    requires LeaseOf(left, mac).Some?
    ensures left != [] && LeaseOf(left, mac).value.timer >= left[Oldest(left)].timer
  {
  }

  function Ticks(events: seq<Event>): nat
  {
    if events == [] then 0 else (if events[0].TimerTick? then 1 else 0) + Ticks(events[1..])
  }

  /** Nothing in the run comes from `mac`, and no tick evicts its lease. */
  predicate Spares(p: Pool, st: State, events: seq<Event>, mac: Mac)
    decreases |events|
  {
    events != [] ==>
      && (events[0].Received? ==> events[0].m.mac != mac)
      && (events[0].TimerTick? ==> !Evicts(st.leases, mac))
      && Spares(p, Step(p, st, events[0]), events[1..], mac)
  }

  lemma AgedTwice(l: Option<Lease>, n: nat)
    requires l.Some? ==> l.value.timer >= 1
    ensures Aged(Aged(l, 1), n) == Aged(l, n + 1)
  {
  }

  lemma NotAged(ls: seq<Lease>, mac: Mac)
    requires Sound(ls)
    ensures Aged(LeaseOf(ls, mac), 0) == LeaseOf(ls, mac)
  {
  }

  /** Over any run, whatever the others do and whatever is reserved: a lease that is not refreshed, removed or
      evicted has its timer less the number of ticks, and is gone once that reaches zero. */
  lemma {:induction false} LeaseLivesItsTimer(p: Pool, st: State, events: seq<Event>, mac: Mac)
    requires Sound(st.leases) && p.timer >= 1 && Spares(p, st, events, mac)
    ensures LeaseOf(Run(p, st, events).leases, mac) == Aged(LeaseOf(st.leases, mac), Ticks(events))
    decreases |events|
  {
    hide Step, Sound, LeaseOf, Evicts;
    NotAged(st.leases, mac);
    if events != [] {
      StepAges(p, st, events[0], mac);
      AgedTwice(LeaseOf(st.leases, mac), Ticks(events[1..]));
      LeaseLivesItsTimer(p, Step(p, st, events[0]), events[1..], mac);
    }
  }

  lemma StepAges(p: Pool, st: State, e: Event, mac: Mac)
    requires Sound(st.leases) && p.timer >= 1
    requires (e.Received? ==> e.m.mac != mac) && (e.TimerTick? ==> !Evicts(st.leases, mac))
    ensures var st' := Step(p, st, e);
      && Sound(st'.leases)
      && LeaseOf(st'.leases, mac) == if e.TimerTick? then Aged(LeaseOf(st.leases, mac), 1) else LeaseOf(st.leases, mac)
    ensures LeaseOf(st.leases, mac).Some? ==> LeaseOf(st.leases, mac).value.timer >= 1
  {
    match e {
      case Received(t, m) =>
        HandleKeepsSound(t, p, st, m);
        if m.cookieOk { ReplyAndLeaseAgree(t, p, st, m); }
      case TimerTick =>
        TickKeepsSound(st.leases);
        AfterTick(st.leases, mac);
    }
  }

  /** A request that names the address its client holds, by option 50 or by `ciaddr` without it, is acknowledged. */
  lemma RequestForOwn(t: Reserved, p: Pool, st: State, m: Message, l: Lease)
    requires m.cookieOk && MessageType(DecodeFrom(m.options, 0)) == REQUEST
    requires LeaseOf(st.leases, m.mac) == Some(l) && 0 < l.ip <= p.end && Names(m, l.ip)
    ensures var (st', v) := Handle(t, p, st, m); v == Acked && st'.client == l.ip
  {
    hide DecodeFrom, Last, Le32, Hostname;
  }

  /** What was offered or acknowledged is honoured: over any run that spares the client for fewer ticks than a
      lease has, whatever the others do and whatever is reserved, a request for the address is acknowledged with
      it, and for a full time again. */
  lemma OfferIsHonoured(t: Reserved, p: Pool, st: State, m: Message, events: seq<Event>, t': Reserved, r: Message)
    requires Sound(st.leases) && p.timer >= 1 && m.cookieOk && !Refused(Handle(t, p, st, m).1)
    requires Spares(p, Handle(t, p, st, m).0, events, m.mac) && Ticks(events) < p.timer
    requires r.cookieOk && r.mac == m.mac && MessageType(DecodeFrom(r.options, 0)) == REQUEST
    requires Names(r, Handle(t, p, st, m).0.client)
    ensures var address := Handle(t, p, st, m).0.client;
      var (st', v) := Handle(t', p, Run(p, Handle(t, p, st, m).0, events), r);
      && v == Acked && st'.client == address
      && LeaseOf(st'.leases, m.mac) == Some(Lease(address, m.mac, p.timer, Hostname(DecodeFrom(r.options, 0))))
  {
    hide Handle, Names, Spares, Run, Sound, LeaseOf, DecodeFrom, Hostname, MessageType;
    OneEach(st.leases);
    ReplyAndLeaseAgree(t, p, st, m);
    HandleKeepsSound(t, p, st, m);
    var st1 := Handle(t, p, st, m).0;
    LeaseLivesItsTimer(p, st1, events, m.mac);
    var st2 := Run(p, st1, events);
    RequestForOwn(t', p, st2, r, LeaseOf(st2.leases, m.mac).value);
    RunStaysSound(p, st1, events);
    OneEach(st2.leases);
    ReplyAndLeaseAgree(t', p, st2, r);
  }

  lemma OneEach(ls: seq<Lease>)
    requires Sound(ls)
    ensures OneLeaseEach(ls)
  {
  }

  function TickTimes(ls: seq<Lease>, k: nat): seq<Lease>
    decreases k
  {
    if k == 0 then ls else TickTimes(Tick(ls), k - 1)
  }

  function Max(a: int, b: int): int { if a < b then b else a }

  lemma ThinsByOne(ls: seq<Lease>)
    requires Sound(ls) && |ls| <= 255
    ensures Sound(Tick(ls)) && |Tick(ls)| <= Max(MAX_STATION_NUM, |ls| - 1)
  {
    hide Sound, Expire;
    TickKeepsSound(ls);
    RunningOf(ls);
    ExpireSurvivors(ls);
    Wrapped(|Expire(ls)|);
  }

  lemma RunningOf(ls: seq<Lease>)
    requires Sound(ls)
    ensures Running(ls)
  {
  }

  /** k quiet ticks bring a list of up to 255 leases down to MAX_STATION_NUM, one eviction a tick. */
  lemma {:induction false} QuietTicksThinOut(ls: seq<Lease>, k: nat)
    requires Sound(ls) && |ls| <= 255
    ensures |TickTimes(ls, k)| <= Max(MAX_STATION_NUM, |ls| - k)
    decreases k
  {
    hide Sound, Tick;
    if k > 0 {
      ThinsByOne(ls);
      QuietTicksThinOut(Tick(ls), k - 1);
    }
  }

  predicate Outlast(ls: seq<Lease>, k: nat) { forall i :: 0 <= i < |ls| ==> ls[i].timer > k }

  lemma {:induction false} NobodyExpires(ls: seq<Lease>, k: nat)
    requires Outlast(ls, k + 1)
    ensures |Expire(ls)| == |ls| && Outlast(Expire(ls), k)
    decreases |ls|
  {
    if ls != [] { NobodyExpires(ls[..|ls| - 1], k); }
  }

  /** The byte counter is zero at every multiple of 256, and the list stays there. */
  lemma TickStaysAbove(ls: seq<Lease>, q: nat, k: nat)
    requires Outlast(ls, k + 1) && |ls| >= 0x100 * q
    ensures Outlast(Tick(ls), k) && |Tick(ls)| >= 0x100 * q
  {
    hide Expire;
    NobodyExpires(ls, k);
    if |ls| == 0x100 * q { Multiple(q); }
  }

  lemma Multiple(q: nat)
    ensures (0x100 * q) % 0x100 == 0
  {
  }

  lemma {:induction false} StaysAbove(ls: seq<Lease>, q: nat, k: nat)
    requires Outlast(ls, k) && |ls| >= 0x100 * q
    ensures |TickTimes(ls, k)| >= 0x100 * q
    decreases k
  {
    hide Tick, Outlast;
    if k > 0 {
      TickStaysAbove(ls, q, k - 1);
      StaysAbove(Tick(ls), q, k - 1);
    }
  }

  /** n leases with time for 256 ticks. */
  function Many(n: nat): (ls: seq<Lease>)
    requires n <= 0x1_0000_0000_0000
    ensures |ls| == n && Sound(ls) && Outlast(ls, 256)
  {
    seq(n, i requires 0 <= i < n => Lease(1, i, 1000, []))
  }

  predicate ThinsOut(ls: seq<Lease>, k: nat) { |TickTimes(ls, k)| <= Max(MAX_STATION_NUM, |ls| - k) }

  /** k quiet ticks bring every sound list of n leases down to MAX_STATION_NUM or by k leases, for all k, if and
      only if the byte counter can count to n. There are 2^48 hardware addresses and so no longer lists. */
  lemma QuietTicksThinOutIff(n: nat)
    requires n <= 0x1_0000_0000_0000
    ensures (forall ls, k: nat :: Sound(ls) && |ls| == n ==> ThinsOut(ls, k)) <==> n <= 255
  {
    hide TickTimes, Sound;
    if n <= 255 {
      forall ls, k: nat | Sound(ls) && |ls| == n
        ensures ThinsOut(ls, k)
      {
        QuietTicksThinOut(ls, k);
      }
    } else {
      var ls := Many(n);
      StaysAbove(ls, n / 0x100, 256);
      assert !ThinsOut(ls, 256);
    }
  }

  /** A tick evicts one lease if and only if the byte that counts the survivors is above 16, and none otherwise. */
  lemma TickEvictsIff(ls: seq<Lease>)
    requires Sound(ls)
    ensures |Tick(ls)| == |Expire(ls)| - if |Expire(ls)| % 256 > 16 then 1 else 0
    ensures (exists mac :: Evicts(ls, mac)) <==> |Expire(ls)| % 256 > 16
  {
    hide Expire;
    if |Expire(ls)| % 256 > 16 {
      Wrapped(|Expire(ls)|);
      assert Evicts(ls, Expire(ls)[Oldest(Expire(ls))].mac);
    }
  }

  /** A lease with timer 0, which only a lease time of zero can give, does not expire with the next tick: its
      32-bit timer wraps around. */
  lemma {:induction false} ZeroTimerWraps(ls: seq<Lease>, i: nat)
    requires i < |ls| && ls[i].timer == 0
    ensures ls[i].(timer := 4294967295) in Expire(ls)
    decreases |ls|
  {
    if i < |ls| - 1 { ZeroTimerWraps(ls[..|ls| - 1], i); }
  }
}
