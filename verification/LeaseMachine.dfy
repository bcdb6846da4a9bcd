/** The lease server as a state machine on values: one step per DHCP message and one per timer tick. */
module LeaseMachine {
  import opened Words
  import opened Sequences
  import opened Addresses
  import opened LeaseList
  import opened DhcpOptions
  import Reservations

  type Reserved = seq<Reservations.Entry>

  /** First and last address of the pool, and the timer of a fresh lease in ticks. */
  datatype Pool = Pool(start: u32, end: u32, timer: u32)

  datatype State = State(leases: seq<Lease>, cursor: u32, client: u32, renew: bool, declined: bool)

  /** `options` are the bytes after the magic cookie; a message too short to have any has none. */
  datatype Message = Message(cookieOk: bool, mac: Mac, ciaddr: u32, options: seq<byte>)

  function IndexOfMac(ls: seq<Lease>, mac: Mac): (k: nat)
    ensures k <= |ls|
    ensures k < |ls| ==> ls[k].mac == mac
    ensures forall i :: 0 <= i < k ==> ls[i].mac != mac
  {
    if ls == [] then 0
    else
      var k := IndexOfMac(ls[..|ls| - 1], mac);
      if k < |ls| - 1 then k else if ls[k].mac == mac then k else k + 1
  }

  /** The cursor after the walk over `ls`: it steps past each lease it meets. */
  function Advance(ls: seq<Lease>, cursor: u32): u32
  {
    if ls == [] then cursor
    else
      var c := Advance(ls[..|ls| - 1], cursor);
      if ls[|ls| - 1].ip == c then Next(c) else c
  }

  /** The fallback search in the same walk: the address, and whether a gap has been found. */
  function FirstUnused(ls: seq<Lease>, start: u32): (u32, bool)
  {
    if ls == [] then (start, false)
    else
      var (first, found) := FirstUnused(ls[..|ls| - 1], start);
      if found then (first, true)
      else if first < ls[|ls| - 1].ip then (first, true)
      else (Next(first), false)
  }

  /** The pool's address for a MAC without a lease, before reservations are looked at. */
  function PoolChoice(pool: Pool, st: State): u32
  {
    var cursor := Advance(st.leases, st.cursor);
    if cursor > pool.end then FirstUnused(st.leases, pool.start).0
    else if st.leases == [] && !st.declined then pool.start
    else cursor
  }

  function SkipMeasure(a: u32): nat { if a == 0 then 0 else 0x1_0000_0000 - Swap32(a) }

  lemma SkipDecreases(a: u32)
    requires a != 0
    ensures SkipMeasure(Next(a)) < SkipMeasure(a)
  {
    SwapOfNext(a);
    SwapZero(a);
    SwapZero(Next(a));
  }

  /** Steps over addresses reserved for another MAC. */
  function SkipReserved(t: Reserved, a: u32, end: u32, mac: Mac): u32
    decreases SkipMeasure(a)
  {
    if a <= end && Reservations.ReservedForOther(t, a, mac) then
      SkipDecreases(a);
      SkipReserved(t, Next(a), end, mac)
    else a
  }

  function Choice(t: Reserved, pool: Pool, st: State, mac: Mac): u32
  {
    var own := Reservations.Lookup(t, mac);
    if own != 0 then own else SkipReserved(t, PoolChoice(pool, st), pool.end, mac)
  }

  function CursorAfter(pool: Pool, client: u32): u32 { if client == pool.end then pool.start else Next(client) }

  /** From the address check on; the client's lease is number k, if it has one. */
  function Conclude(pool: Pool, st: State, k: nat, m: Message): (State, Verdict)
    requires k < |st.leases|
  {
    if st.client > pool.end || st.client == 0 then (st.(leases := RemoveAt(st.leases, k)), Nacked)
    else
      var v := VerdictOn(m.options, st.client, st.renew);
      if v.Released? || v.Nacked? || v.Declined? then
        (st.(leases := RemoveAt(st.leases, k), client := 0, declined := st.declined || v.Declined?), v)
      else
        (st.(leases := st.leases[k := st.leases[k].(hostname := Hostname(DecodeFrom(m.options, 0)))]), v)
  }

  /** The state when a client with lease number i is recognised. */
  function Recognised(pool: Pool, st: State, i: nat, ciaddr: u32): State
    requires i < |st.leases|
  {
    var l := st.leases[i];
    State(st.leases[i := l.(timer := pool.timer)], Advance(st.leases[..i], st.cursor), l.ip, l.ip == ciaddr, false)
  }

  /** The state when a new lease of `client` has been put into the list. */
  function Allocated(pool: Pool, st: State, client: u32, mac: Mac): State
  {
    State(Insert(st.leases, Lease(client, mac, pool.timer, [])), CursorAfter(pool, client), client, false, false)
  }

  /** `parse_msg`. */
  function Handle(t: Reserved, pool: Pool, st: State, m: Message): (State, Verdict)
  {
    if !m.cookieOk then (st, Ignored)
    else
      var i := IndexOfMac(st.leases, m.mac);
      if i < |st.leases| then Conclude(pool, Recognised(pool, st, i, m.ciaddr), i, m)
      else
        var client := Choice(t, pool, st, m.mac);
        if client > pool.end then (State(st.leases, pool.start, client, false, false), Nacked)
        else Conclude(pool, Allocated(pool, st, client, m.mac), UpperBound(st.leases, client), m)
  }

  const MAX_STATION_NUM: nat := 16

  function CountDown(timer: u32): u32 { if timer == 0 then 0xFFFF_FFFF else timer - 1 }

  /** Every timer counts down and the leases that reach zero go. */
  function Expire(ls: seq<Lease>): seq<Lease>
  {
    if ls == [] then []
    else
      var l := ls[|ls| - 1];
      var timer := CountDown(l.timer);
      Expire(ls[..|ls| - 1]) + if timer == 0 then [] else [l.(timer := timer)]
  }

  /** The survivors are counted in a byte. */
  predicate Crowded(ls: seq<Lease>) { |ls| % 0x100 > MAX_STATION_NUM }

  /** `dhcps_tmr` of a running server. */
  function Tick(ls: seq<Lease>): seq<Lease>
  {
    var left := Expire(ls);
    if Crowded(left) then RemoveAt(left, Oldest(left)) else left
  }
}
