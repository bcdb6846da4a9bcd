/** Per-client traffic counters in a fixed table of slots. */
module ClientStats {
  import opened Words

  datatype Counters = Counters(bytesSent: nat, bytesReceived: nat, packetsSent: nat, packetsReceived: nat)
  {
    function Plus(c: Counters): Counters
    {
      Counters(bytesSent + c.bytesSent, bytesReceived + c.bytesReceived,
               packetsSent + c.packetsSent, packetsReceived + c.packetsReceived)
    }
  }

  const ZERO := Counters(0, 0, 0, 0)

  datatype Slot = Slot(mac: Mac, active: bool, connected: bool, counters: Counters)
  {
    predicate Taken() { active && connected }
    predicate Holds(m: Mac) { active && mac == m }
  }

  /** What a search of the table looks for. */
  datatype Wanted = HeldBy(mac: Mac) | Inactive | Left

  predicate Matches(t: Slot, w: Wanted)
  {
    match w
    case HeldBy(m) => t.Holds(m)
    case Inactive => !t.active
    case Left => !t.connected
  }

  /** First index not below `from` whose slot matches, or |s|. */
  function First(s: seq<Slot>, w: Wanted, from: nat := 0): (r: nat)
    requires from <= |s|
    ensures from <= r <= |s|
    ensures r < |s| ==> Matches(s[r], w)
    ensures forall i :: from <= i < r ==> !Matches(s[i], w)
    decreases |s| - from
  {
    if from == |s| || Matches(s[from], w) then from else First(s, w, from + 1)
  }

  function SlotOf(s: seq<Slot>, mac: Mac): nat { First(s, HeldBy(mac)) }

  /** The slot a new client gets: the first inactive one, else the first one whose client has left. */
  function FreeSlot(s: seq<Slot>): nat
  {
    var inactive := First(s, Inactive);
    if inactive < |s| then inactive else First(s, Left)
  }

  function Connect(s: seq<Slot>, mac: Mac): (r: seq<Slot>)
    ensures |r| == |s|
  {
    var i := SlotOf(s, mac);
    if i < |s| then s[i := s[i].(connected := true)]
    else
      var j := FreeSlot(s);
      if j < |s| then s[j := Slot(mac, true, true, ZERO)] else s
  }

  function Disconnect(s: seq<Slot>, mac: Mac): (r: seq<Slot>)
    ensures |r| == |s|
  {
    var i := SlotOf(s, mac);
    if i < |s| then s[i := s[i].(connected := false)] else s
  }

  function Count(s: seq<Slot>, mac: Mac, c: Counters): (r: seq<Slot>)
    ensures |r| == |s|
  {
    var i := SlotOf(s, mac);
    if i < |s| then s[i := s[i].(counters := s[i].counters.Plus(c))] else s
  }

  class Table {
    const slots: array<Slot>

    constructor (size: nat)
      ensures slots.Length == size && fresh(slots)
      ensures forall i :: 0 <= i < size ==> !slots[i].active
    {
      slots := new Slot[size](_ => Slot(0, false, false, ZERO));
    }

    method Find(mac: Mac) returns (i: nat)
      ensures i == SlotOf(slots[..], mac)
    {
      i := 0;
      while i < slots.Length
        invariant i <= slots.Length
        invariant SlotOf(slots[..], mac) == First(slots[..], HeldBy(mac), i)
      {
        if slots[i].active && slots[i].mac == mac { return; }
        i := i + 1;
      }
    }

    method OnConnect(mac: Mac)
      modifies slots
      ensures slots[..] == Connect(old(slots[..]), mac)
    {
      var existing := Find(mac);
      if existing < slots.Length {
        slots[existing] := slots[existing].(connected := true);
        return;
      }
      var slot := FindFree();
      if slot < slots.Length {
        slots[slot] := Slot(mac, true, true, ZERO);
      }
    }

    /** One pass that stops at an inactive slot and remembers the first one left by its client. */
    method FindFree() returns (slot: nat)
      ensures slot == FreeSlot(slots[..])
    {
      var n := slots.Length;
      var free, left := n, n;
      var i := 0;
      while i < n
        invariant i <= n && free == n && left <= n
        invariant forall k :: 0 <= k < i ==> slots[k].active
        invariant First(slots[..], Inactive) == First(slots[..], Inactive, i)
        invariant left < n ==> left == First(slots[..], Left)
        invariant left == n ==>
          First(slots[..], Left) == First(slots[..], Left, i)
      {
        if !slots[i].active {
          free := i;
          break;
        } else if !slots[i].connected && left == n {
          left := i;
        }
        i := i + 1;
      }
      slot := if free < n then free else left;
    }

    method OnDisconnect(mac: Mac)
      modifies slots
      ensures slots[..] == Disconnect(old(slots[..]), mac)
    {
      var entry := Find(mac);
      if entry < slots.Length {
        slots[entry] := slots[entry].(connected := false);
      }
    }

    method OnTraffic(mac: Mac, c: Counters)
      modifies slots
      ensures slots[..] == Count(old(slots[..]), mac, c)
    {
      var entry := Find(mac);
      if entry < slots.Length {
        slots[entry] := slots[entry].(counters := slots[entry].counters.Plus(c));
      }
    }
  }

  datatype Event = Connected(mac: Mac) | Disconnected(mac: Mac) | Traffic(mac: Mac, amount: Counters)

  function Step(s: seq<Slot>, e: Event): (r: seq<Slot>)
    ensures |r| == |s|
  {
    match e
    case Connected(m) => Connect(s, m)
    case Disconnected(m) => Disconnect(s, m)
    case Traffic(m, c) => Count(s, m, c)
  }

  function Run(s: seq<Slot>, events: seq<Event>): (r: seq<Slot>)
    ensures |r| == |s|
    decreases |events|
  {
    if events == [] then s else Run(Step(s, events[0]), events[1..])
  }

  /** The clients that are connected, as the access point sees it. */
  function Online(online: set<Mac>, e: Event): set<Mac>
  {
    match e
    case Connected(m) => online + {m}
    case Disconnected(m) => online - {m}
    case Traffic(_, _) => online
  }

  /** The access point never admits more than `limit` clients at once. */
  predicate Admitted(online: set<Mac>, events: seq<Event>, limit: nat)
    decreases |events|
  {
    |online| <= limit && (events != [] ==> Admitted(Online(online, events[0]), events[1..], limit))
  }

  function OnlineAfter(online: set<Mac>, events: seq<Event>): set<Mac>
    decreases |events|
  {
    if events == [] then online else OnlineAfter(Online(online, events[0]), events[1..])
  }

  predicate OneSlotEach(s: seq<Slot>)
  {
    forall i, j :: 0 <= i < j < |s| && s[i].active && s[j].active ==> s[i].mac != s[j].mac
  }

  predicate Owns(s: seq<Slot>, mac: Mac, i: nat) { i < |s| && s[i].Taken() && s[i].mac == mac }

  /** Active slots carry distinct addresses, and the taken ones are exactly the connected clients'. */
  predicate Inv(s: seq<Slot>, online: set<Mac>)
  {
    && OneSlotEach(s)
    && (forall i :: 0 <= i < |s| && s[i].Taken() ==> s[i].mac in online)
    && (forall m :: m in online ==> Owns(s, m, SlotOf(s, m)))
  }

  lemma SlotOfIs(s: seq<Slot>, mac: Mac, i: nat)
    requires OneSlotEach(s) && i < |s| && s[i].Holds(mac)
    ensures SlotOf(s, mac) == i
  {
  }

  lemma {:induction false} DistinctMacs(s: seq<Slot>)
    requires OneSlotEach(s) && forall i :: 0 <= i < |s| ==> s[i].Taken()
    ensures |set i | 0 <= i < |s| :: s[i].mac| == |s|
  {
    if s != [] {
      var n := |s| - 1;
      var front := s[..n];
      DistinctMacs(front);
      assert (set i | 0 <= i < |s| :: s[i].mac) == (set i | 0 <= i < |front| :: front[i].mac) + {s[n].mac};
    }
  }

  /** Pigeonhole: a client without a slot finds one when at most |s| clients are connected, itself included. */
  lemma NewcomerFits(s: seq<Slot>, online: set<Mac>, mac: Mac)
    requires OneSlotEach(s) && forall i :: 0 <= i < |s| && s[i].Taken() ==> s[i].mac in online
    requires SlotOf(s, mac) == |s| && |online + {mac}| <= |s|
    ensures FreeSlot(s) < |s|
  {
    if FreeSlot(s) == |s| {
      DistinctMacs(s);
      var macs := set i | 0 <= i < |s| :: s[i].mac;
      assert mac !in macs;
      assert macs + {mac} <= online + {mac};
      SubsetSize(macs + {mac}, online + {mac});
    }
  }

  lemma {:induction false} SubsetSize(a: set<Mac>, b: set<Mac>)
    requires a <= b
    ensures |a| <= |b|
    decreases |a|
  {
    if a != {} {
      var x :| x in a;
      SubsetSize(a - {x}, b - {x});
    }
  }

  /** Without the limit: a connecting client ends up with a slot exactly when it still holds one or some slot is not
      taken. */
  lemma ConnectSucceedsIff(s: seq<Slot>, mac: Mac)
    requires OneSlotEach(s)
    ensures OneSlotEach(Connect(s, mac))
    ensures Owns(Connect(s, mac), mac, SlotOf(Connect(s, mac), mac)) <==>
            SlotOf(s, mac) < |s| || exists i :: 0 <= i < |s| && !s[i].Taken()
  {
    var r := Connect(s, mac);
    if SlotOf(s, mac) < |s| {
      SlotOfIs(r, mac, SlotOf(s, mac));
    } else if FreeSlot(s) < |s| {
      SlotOfIs(r, mac, FreeSlot(s));
    }
  }

  lemma ConnectKeepsInv(s: seq<Slot>, online: set<Mac>, mac: Mac)
    requires Inv(s, online) && |online + {mac}| <= |s|
    ensures Inv(Connect(s, mac), online + {mac})
    ensures forall m :: m in online ==> SlotOf(Connect(s, mac), m) == SlotOf(s, m)
  {
    var r := Connect(s, mac);
    if SlotOf(s, mac) == |s| { NewcomerFits(s, online, mac); }
    var slot := if SlotOf(s, mac) < |s| then SlotOf(s, mac) else FreeSlot(s);
    assert OneSlotEach(r);
    SlotOfIs(r, mac, slot);
    forall m | m in online
      ensures SlotOf(r, m) == SlotOf(s, m) && Owns(r, m, SlotOf(r, m))
    {
      assert r[SlotOf(s, m)].Taken() && r[SlotOf(s, m)].mac == m;
      SlotOfIs(r, m, SlotOf(s, m));
    }
  }

  lemma DisconnectKeepsInv(s: seq<Slot>, online: set<Mac>, mac: Mac)
    requires Inv(s, online)
    ensures Inv(Disconnect(s, mac), online - {mac})
    ensures forall m :: m in online - {mac} ==> SlotOf(Disconnect(s, mac), m) == SlotOf(s, m)
  {
    var r := Disconnect(s, mac);
    forall m | m in online - {mac}
      ensures SlotOf(r, m) == SlotOf(s, m) && Owns(r, m, SlotOf(r, m))
    {
      SlotOfIs(r, m, SlotOf(s, m));
    }
  }

  lemma CountKeepsInv(s: seq<Slot>, online: set<Mac>, mac: Mac, c: Counters)
    requires Inv(s, online)
    ensures Inv(Count(s, mac, c), online)
    ensures forall m :: m in online ==> SlotOf(Count(s, mac, c), m) == SlotOf(s, m)
  {
    var r := Count(s, mac, c);
    forall m | m in online
      ensures SlotOf(r, m) == SlotOf(s, m) && Owns(r, m, SlotOf(r, m))
    {
      SlotOfIs(r, m, SlotOf(s, m));
    }
  }

  /** No event takes the slot of a client that stays connected. */
  lemma StepKeepsInv(s: seq<Slot>, online: set<Mac>, e: Event)
    requires Inv(s, online) && |Online(online, e)| <= |s|
    ensures Inv(Step(s, e), Online(online, e))
    ensures forall m :: m in online && m in Online(online, e) ==> SlotOf(Step(s, e), m) == SlotOf(s, m)
  {
    match e
    case Connected(m) => ConnectKeepsInv(s, online, m);
    case Disconnected(m) => DisconnectKeepsInv(s, online, m);
    case Traffic(m, c) => CountKeepsInv(s, online, m, c);
  }

  /** Over any run within the limit, every connected client owns exactly one active slot, and no other slot is taken. */
  lemma {:induction false} RunKeepsInv(s: seq<Slot>, online: set<Mac>, events: seq<Event>)
    requires Inv(s, online) && Admitted(online, events, |s|)
    ensures Inv(Run(s, events), OnlineAfter(online, events))
    decreases |events|
  {
    if events != [] {
      StepKeepsInv(s, online, events[0]);
      RunKeepsInv(Step(s, events[0]), Online(online, events[0]), events[1..]);
    }
  }

  lemma FromAnEmptyTable(s: seq<Slot>, events: seq<Event>)
    requires (forall i :: 0 <= i < |s| ==> !s[i].active) && Admitted({}, events, |s|)
    ensures Inv(Run(s, events), OnlineAfter({}, events))
  {
    RunKeepsInv(s, {}, events);
  }

  /** What a run counts for one client. */
  function TrafficOf(events: seq<Event>, mac: Mac): Counters
  {
    if events == [] then ZERO
    else
      var rest := TrafficOf(events[1..], mac);
      if events[0].Traffic? && events[0].mac == mac then events[0].amount.Plus(rest) else rest
  }

  /** A client that stays connected keeps its slot and its counters grow by exactly its own traffic, whoever else comes
      and goes and however often it reconnects. */
  lemma {:induction false} CountersAddUp(s: seq<Slot>, online: set<Mac>, events: seq<Event>, mac: Mac)
    requires Inv(s, online) && Admitted(online, events, |s|)
    requires mac in online && Disconnected(mac) !in events
    ensures var i, r := SlotOf(s, mac), Run(s, events);
      Owns(s, mac, i) && Owns(r, mac, i) && r[i].counters == s[i].counters.Plus(TrafficOf(events, mac))
    decreases |events|
  {
    hide Inv, Step, SlotOf, Owns;
    OwnsItsSlot(s, online, mac);
    if events == [] {
      PlusNothing(s[SlotOf(s, mac)].counters);
    } else {
      var e := events[0];
      assert e in events;
      StepKeepsInv(s, online, e);
      var t := Step(s, e);
      OwnCounters(s, online, e, mac);
      PlusTwice(s[SlotOf(s, mac)].counters, if e.Traffic? then e.amount else ZERO, TrafficOf(events[1..], mac));
      CountersAddUp(t, Online(online, e), events[1..], mac);
    }
  }

  lemma OwnsItsSlot(s: seq<Slot>, online: set<Mac>, mac: Mac)
    requires Inv(s, online) && mac in online
    ensures SlotOf(s, mac) < |s| && Owns(s, mac, SlotOf(s, mac))
  {
  }

  lemma PlusNothing(c: Counters)
    ensures c.Plus(ZERO) == c
  {
  }

  lemma PlusTwice(a: Counters, b: Counters, c: Counters)
    ensures a.Plus(b).Plus(c) == a.Plus(b.Plus(c))
  {
  }

  lemma OwnCounters(s: seq<Slot>, online: set<Mac>, e: Event, mac: Mac)
    requires Inv(s, online) && mac in online && e != Disconnected(mac)
    ensures var i := SlotOf(s, mac);
      Step(s, e)[i].counters ==
        if e.Traffic? && e.mac == mac then s[i].counters.Plus(e.amount) else s[i].counters
  {
  }

  /** A client that left and comes back before its slot was given away finds its counters as they were. */
  lemma ReturningClientKeepsCounters(s: seq<Slot>, online: set<Mac>, events: seq<Event>, mac: Mac)
    requires Inv(s, online) && Admitted(online, [Disconnected(mac)] + events + [Connected(mac)], |s|)
    requires mac in online && forall e :: e in events ==> e.mac != mac
    ensures var i := SlotOf(s, mac);
      var gone := Run(s, [Disconnected(mac)] + events);
      var back := Run(s, [Disconnected(mac)] + events + [Connected(mac)]);
      Owns(s, mac, i) && (gone[i].Holds(mac) ==> Owns(back, mac, i) && back[i].counters == s[i].counters)
  {
    var s1, online1 := Disconnect(s, mac), online - {mac};
    var all := [Disconnected(mac)] + events + [Connected(mac)];
    assert all[1..] == events + [Connected(mac)];
    assert ([Disconnected(mac)] + events)[1..] == events;
    DisconnectKeepsInv(s, online, mac);
    AdmittedPrefix(online1, events, [Connected(mac)], |s|);
    RunAppend(s1, events, [Connected(mac)]);
    RunOfOne(Run(s1, events), Connected(mac));
    BackAgain(s1, online1, events, mac, SlotOf(s, mac));
  }

  lemma RunOfOne(s: seq<Slot>, e: Event)
    ensures Run(s, [e]) == Step(s, e)
  {
    assert Run(s, [e]) == Run(Step(s, e), []);
  }

  lemma BackAgain(s: seq<Slot>, online: set<Mac>, events: seq<Event>, mac: Mac, i: nat)
    requires Inv(s, online) && Admitted(online, events, |s|) && i < |s| && s[i].Holds(mac)
    requires mac !in online && forall e :: e in events ==> e.mac != mac
    ensures var gone := Run(s, events);
      gone[i].Holds(mac) ==> Owns(Connect(gone, mac), mac, i) && Connect(gone, mac)[i].counters == s[i].counters
  {
    SlotOfIs(s, mac, i);
    IdleSlot(s, online, events, mac, i);
    RunKeepsInv(s, online, events);
    var gone := Run(s, events);
    if gone[i].Holds(mac) { SlotOfIs(gone, mac, i); }
  }

  lemma {:induction false} RunAppend(s: seq<Slot>, a: seq<Event>, b: seq<Event>)
    ensures Run(s, a + b) == Run(Run(s, a), b)
    decreases |a|
  {
    if a == [] {
      assert a + b == b;
    } else {
      assert (a + b)[1..] == a[1..] + b;
      RunAppend(Step(s, a[0]), a[1..], b);
    }
  }

  lemma {:induction false} AdmittedPrefix(online: set<Mac>, a: seq<Event>, b: seq<Event>, limit: nat)
    requires Admitted(online, a + b, limit)
    ensures Admitted(online, a, limit)
    decreases |a|
  {
    if a != [] {
      assert (a + b)[1..] == a[1..] + b;
      AdmittedPrefix(Online(online, a[0]), a[1..], b, limit);
    }
  }

  lemma OtherSlotsStay(s: seq<Slot>, e: Event, mac: Mac)
    requires e.mac != mac
    ensures forall k :: 0 <= k < |s| && Step(s, e)[k].Holds(mac) ==> Step(s, e)[k] == s[k]
  {
  }

  /** While its client is away, a slot either keeps its counters or is given away for good. */
  lemma {:induction false} IdleSlot(s: seq<Slot>, online: set<Mac>, events: seq<Event>, mac: Mac, i: nat)
    requires Inv(s, online) && Admitted(online, events, |s|) && i < |s|
    requires mac !in online && forall e :: e in events ==> e.mac != mac
    requires SlotOf(s, mac) == i || SlotOf(s, mac) == |s|
    ensures Run(s, events)[i].Holds(mac) ==> s[i].Holds(mac) && Run(s, events)[i].counters == s[i].counters
    decreases |events|
  {
    if events != [] {
      hide First, OneSlotEach;
      var e := events[0];
      StepKeepsInv(s, online, e);
      var t := Step(s, e);
      OtherSlotsStay(s, e, mac);
      IdleSlot(t, Online(online, e), events[1..], mac, i);
    }
  }

  /** A client without a slot that connects within the limit and stays has afterwards exactly its own traffic on its
      counters, whoever had its slot before. */
  lemma NewcomerStartsFromZero(s: seq<Slot>, online: set<Mac>, events: seq<Event>, mac: Mac)
    requires Inv(s, online) && Admitted(online, [Connected(mac)] + events, |s|)
    requires SlotOf(s, mac) == |s| && Disconnected(mac) !in events
    ensures var r := Run(s, [Connected(mac)] + events);
      var i := SlotOf(Connect(s, mac), mac);
      Owns(r, mac, i) && r[i].counters == TrafficOf(events, mac)
  {
    var all := [Connected(mac)] + events;
    assert all[1..] == events && all[0] == Connected(mac);
    var s1 := Connect(s, mac);
    assert Online(online, all[0]) == online + {mac};
    ConnectKeepsInv(s, online, mac);
    FreshSlot(s, online, mac);
    CountersAddUp(s1, online + {mac}, events, mac);
    assert Run(s, all) == Run(s1, events);
    PlusZero(TrafficOf(events, mac));
  }

  lemma PlusZero(c: Counters)
    ensures ZERO.Plus(c) == c
  {
  }

  lemma FreshSlot(s: seq<Slot>, online: set<Mac>, mac: Mac)
    requires Inv(s, online) && SlotOf(s, mac) == |s| && |online + {mac}| <= |s|
    ensures var r := Connect(s, mac); SlotOf(r, mac) < |s| && r[SlotOf(r, mac)].counters == Counters(0, 0, 0, 0)
  {
    NewcomerFits(s, online, mac);
    ConnectKeepsInv(s, online, mac);
    SlotOfIs(Connect(s, mac), mac, FreeSlot(s));
  }

  /** Which slot: the first inactive one, and only when there is none the first whose client has left. So no client that
      has left loses its slot while an inactive one exists, and no connected client ever does. */
  lemma NewcomerTakes(s: seq<Slot>, mac: Mac, i: nat)
    requires SlotOf(s, mac) == |s| && i < |s|
    requires s[i].active && ((exists j :: 0 <= j < |s| && !s[j].active) || s[i].connected)
    ensures Connect(s, mac)[i] == s[i]
  {
  }

  lemma NewcomerTakesFirst(s: seq<Slot>, mac: Mac, i: nat)
    requires SlotOf(s, mac) == |s| && i < |s|
    requires if !s[i].active then forall j :: 0 <= j < i ==> s[j].active
             else !s[i].connected && (forall j :: 0 <= j < |s| ==> s[j].active) && forall j :: 0 <= j < i ==>
                 s[j].connected
    ensures Connect(s, mac) == s[i := Slot(mac, true, true, Counters(0, 0, 0, 0))]
  {
    if s[i].active {
      assert First(s, Inactive) == |s|;
      assert First(s, Left) == i;
    } else {
      assert First(s, Inactive) == i;
    }
  }

  /** Traffic is added field by field to the client's own slot, and to no other. */
  lemma TrafficIsCounted(s: seq<Slot>, mac: Mac, a: nat, b: nat, c: nat, d: nat, i: nat)
    requires OneSlotEach(s) && i < |s|
    ensures var t, t' := s[i], Count(s, mac, Counters(a, b, c, d))[i];
      if t.active && t.mac == mac then
        t' == t.(counters := Counters(t.counters.bytesSent + a, t.counters.bytesReceived + b,
                                      t.counters.packetsSent + c, t.counters.packetsReceived + d))
      else t' == t
  {
    if s[i].active && s[i].mac == mac { SlotOfIs(s, mac, i); }
  }

  /** A client that leaves keeps its slot and counters for the time being. */
  lemma LeavingOnlyDisconnects(s: seq<Slot>, mac: Mac, i: nat)
    requires OneSlotEach(s) && i < |s|
    ensures Disconnect(s, mac)[i] == if s[i].active && s[i].mac == mac then s[i].(connected := false) else s[i]
  {
    if s[i].active && s[i].mac == mac { SlotOfIs(s, mac, i); }
  }
}
