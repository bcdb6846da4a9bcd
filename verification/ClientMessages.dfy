/** The plainest messages of a client without a lease, and what they do to the server. */
module ClientMessages {
  import opened Words
  import opened Sequences
  import opened Wrappers
  import opened LeaseList
  import opened DhcpOptions
  import opened LeaseMachine

  /** A message with nothing but its type. */
  function Plain(kind: byte): seq<byte> { [MSG_TYPE, 1, kind, END] }

  function Discover(mac: Mac): Message { Message(true, mac, 0, Plain(DISCOVER)) }

  function Decline(mac: Mac): Message { Message(true, mac, 0, Plain(DECLINE)) }

  lemma PlainDecodes(kind: byte)
    ensures DecodeFrom(Plain(kind), 0) == [Opt(MSG_TYPE, [kind])]
  {
    var b := Plain(kind);
    assert DecodeFrom(b, 3) == [];
    assert b[2..3] == [kind];
  }

  lemma PlainVerdict(kind: byte, client: u32, renew: bool)
    ensures kind == DISCOVER ==> VerdictOn(Plain(kind), client, renew) == Offered
    ensures kind == DECLINE ==> VerdictOn(Plain(kind), client, renew) == Declined
    ensures Hostname(DecodeFrom(Plain(kind), 0)) == []
  {
    PlainDecodes(kind);
    var opts := [Opt(MSG_TYPE, [kind])];
    assert opts[..0] == [];
    assert Last(opts, MSG_TYPE, 1) == Some([kind]) && Last(opts, HOSTNAME, 1) == None;
  }

  lemma InsertThenRemove(ls: seq<Lease>, l: Lease)
    ensures RemoveAt(Insert(ls, l), UpperBound(ls, l.ip)) == ls
  {
  }

  /** A discovering client without a lease keeps the address chosen for it. */
  lemma DiscoverIsServed(t: Reserved, p: Pool, st: State, mac: Mac)
    requires IndexOfMac(st.leases, mac) == |st.leases| && 0 < Choice(t, p, st, mac) <= p.end
    ensures Handle(t, p, st, Discover(mac)) == (Allocated(p, st, Choice(t, p, st, mac), mac), Offered)
  {
    hide Choice, VerdictOn, Hostname, DecodeFrom;
    var client := Choice(t, p, st, mac);
    PlainVerdict(DISCOVER, client, false);
    var ls, k := Allocated(p, st, client, mac).leases, UpperBound(st.leases, client);
    assert ls[k := ls[k].(hostname := [])] == ls;
  }

  lemma AllocatedAt(p: Pool, st: State, client: u32, mac: Mac)
    ensures UpperBound(st.leases, client) < |Allocated(p, st, client, mac).leases|
  {
  }

  /** A declining client without a lease leaves no lease behind, but moves the cursor past the address chosen for it. */
  lemma DeclineMovesTheCursor(t: Reserved, p: Pool, st: State, mac: Mac)
    requires IndexOfMac(st.leases, mac) == |st.leases| && Choice(t, p, st, mac) <= p.end
    ensures var client := Choice(t, p, st, mac);
      Handle(t, p, st, Decline(mac)).0 == State(st.leases, CursorAfter(p, client), 0, false, client != 0)
  {
    hide Choice, VerdictOn, Hostname, DecodeFrom, RemoveAt, Insert, CursorAfter, UpperBound;
    AllocatedAt(p, st, Choice(t, p, st, mac), mac);
    var client := Choice(t, p, st, mac);
    PlainVerdict(DECLINE, client, false);
    InsertThenRemove(st.leases, Lease(client, mac, p.timer, []));
  }

  /** The cursor rests on an address nobody holds. */
  lemma {:induction false} AdvanceStays(ls: seq<Lease>, cursor: u32)
    requires forall i :: 0 <= i < |ls| ==> ls[i].ip != cursor
    ensures Advance(ls, cursor) == cursor
  {
    if ls != [] { AdvanceStays(ls[..|ls| - 1], cursor); }
  }
}
