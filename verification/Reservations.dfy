/** The table of fixed address assignments: slots updated in place, standing for a finite map from MAC to address. */
module Reservations {
  import opened Words
  import opened Wrappers

  const NAME_LENGTH: nat := 32

  datatype Entry = Entry(mac: Mac, ip: u32, name: seq<byte>, valid: bool)
  {
    predicate IsFor(m: Mac) { valid && mac == m }
  }

  datatype Status = Stored | NoMem

  /** First valid entry for the MAC, or |t|. */
  function IndexOf(t: seq<Entry>, mac: Mac, from: nat := 0): (r: nat)
    requires from <= |t|
    ensures from <= r <= |t|
    ensures r < |t| ==> t[r].IsFor(mac)
    ensures forall i :: from <= i < r ==> !t[i].IsFor(mac)
    decreases |t| - from
  {
    if from == |t| || t[from].IsFor(mac) then from else IndexOf(t, mac, from + 1)
  }

  function FreeIndex(t: seq<Entry>, from: nat := 0): (r: nat)
    requires from <= |t|
    ensures from <= r <= |t|
    ensures r < |t| ==> !t[r].valid
    ensures forall i :: from <= i < r ==> t[i].valid
    decreases |t| - from
  {
    if from == |t| || !t[from].valid then from else FreeIndex(t, from + 1)
  }

  /** The map the table stands for. */
  function Get(t: seq<Entry>, mac: Mac): Option<u32>
  {
    var i := IndexOf(t, mac);
    if i < |t| then Some(t[i].ip) else None
  }

  /** `lookup_dhcp_reservation`: 0 when there is none, and for a blocked MAC. */
  function Lookup(t: seq<Entry>, mac: Mac): u32
  {
    match Get(t, mac)
    case None => 0
    case Some(ip) => ip
  }

  predicate ReservedForOther(t: seq<Entry>, ip: u32, mac: Mac)
  {
    ip != 0 && exists i :: 0 <= i < |t| && t[i].valid && t[i].ip == ip && t[i].mac != mac
  }

  function StoredName(name: Option<seq<byte>>): seq<byte>
  {
    match name
    case None => []
    case Some(n) => n[..Min(|n|, NAME_LENGTH - 1)]
  }

  function Added(t: seq<Entry>, mac: Mac, ip: u32, name: Option<seq<byte>>): (seq<Entry>, Status)
  {
    var i := if IndexOf(t, mac) < |t| then IndexOf(t, mac) else FreeIndex(t);
    if i < |t| then (t[i := Entry(mac, ip, StoredName(name), true)], Stored) else (t, NoMem)
  }

  function Deleted(t: seq<Entry>, mac: Mac): seq<Entry>
  {
    var i := IndexOf(t, mac);
    if i < |t| then t[i := t[i].(valid := false)] else t
  }

  predicate OneEntryEach(t: seq<Entry>)
  {
    forall i, j :: 0 <= i < j < |t| && t[i].valid && t[j].valid ==> t[i].mac != t[j].mac
  }

  class Table {
    const entries: array<Entry>

    constructor (size: nat)
      ensures entries.Length == size && fresh(entries)
      ensures forall i :: 0 <= i < size ==> !entries[i].valid
    {
      entries := new Entry[size](_ => Entry(0, 0, [], false));
    }

    method FindMac(mac: Mac) returns (i: nat)
      ensures i == IndexOf(entries[..], mac)
    {
      i := 0;
      while i < entries.Length
        invariant i <= entries.Length
        invariant IndexOf(entries[..], mac) == IndexOf(entries[..], mac, i)
      {
        if entries[i].valid && entries[i].mac == mac { return; }
        i := i + 1;
      }
    }

    /** `add_dhcp_reservation`, the write to flash left out. */
    method Add(mac: Mac, ip: u32, name: Option<seq<byte>>) returns (status: Status)
      modifies entries
      ensures (entries[..], status) == Added(old(entries[..]), mac, ip, name)
    {
      var i := FindMac(mac);
      if i < entries.Length {
        entries[i] := entries[i].(ip := ip, name := StoredName(name));
        return Stored;
      }
      i := 0;
      while i < entries.Length
        invariant i <= entries.Length && entries[..] == old(entries[..])
        invariant FreeIndex(entries[..]) == FreeIndex(entries[..], i)
      {
        if !entries[i].valid {
          entries[i] := Entry(mac, ip, StoredName(name), true);
          return Stored;
        }
        i := i + 1;
      }
      status := NoMem;
    }

    /** `del_dhcp_reservation`. */
    method Delete(mac: Mac)
      modifies entries
      ensures entries[..] == Deleted(old(entries[..]), mac)
    {
      var i := FindMac(mac);
      if i < entries.Length {
        entries[i] := entries[i].(valid := false);
      }
    }

    method LookupIp(mac: Mac) returns (ip: u32)
      ensures ip == Lookup(entries[..], mac)
    {
      var i := FindMac(mac);
      ip := if i < entries.Length then entries[i].ip else 0;
    }

    /** `is_ip_reserved_for_other`. */
    method IsReservedForOther(ip: u32, mac: Mac) returns (r: bool)
      ensures r == ReservedForOther(entries[..], ip, mac)
    {
      if ip == 0 { return false; }
      var i := 0;
      while i < entries.Length
        invariant 0 <= i <= entries.Length
        invariant forall k :: 0 <= k < i ==> !(entries[k].valid && entries[k].ip == ip && entries[k].mac != mac)
      {
        if entries[i].valid && entries[i].ip == ip && entries[i].mac != mac { return true; }
        i := i + 1;
      }
      r := false;
    }
  }

  lemma IndexOfIs(t: seq<Entry>, mac: Mac, i: nat)
    requires i < |t| && t[i].IsFor(mac) && forall k :: 0 <= k < i ==> !t[k].IsFor(mac)
    ensures IndexOf(t, mac) == i
  {
  }

  /** Entry i is the MAC's own or an unused one; it gets the address and the first 31 bytes of the name, and no other
      entry changes. */
  predicate StoredAt(t: seq<Entry>, t': seq<Entry>, i: nat, mac: Mac, ip: u32, name: Option<seq<byte>>)
  {
    && i < |t| == |t'| && (t[i].IsFor(mac) || !t[i].valid)
    && t'[i].valid && t'[i].mac == mac && t'[i].ip == ip
    && t'[i].name == (if name == None then [] else if |name.value| <= 31 then name.value else name.value[..31])
    && forall j :: 0 <= j < |t| && j != i ==> t'[j] == t[j]
  }

  /** Adding is a map update, and fails exactly when the MAC is new and every slot is in use. */
  lemma AddUpdatesMap(t: seq<Entry>, mac: Mac, ip: u32, name: Option<seq<byte>>)
    ensures var (t', status) := Added(t, mac, ip, name);
      && (OneEntryEach(t) ==> OneEntryEach(t'))
      && (status == NoMem <==> Get(t, mac) == None && forall i :: 0 <= i < |t| ==> t[i].valid)
      && (status == NoMem ==> t' == t)
      && (status == Stored ==> forall m :: Get(t', m) == if m == mac then Some(ip) else Get(t, m))
      && (status == Stored ==> exists i :: StoredAt(t, t', i, mac, ip, name))
  {
    var (t', status) := Added(t, mac, ip, name);
    if status == Stored {
      assert StoredAt(t, t', if IndexOf(t, mac) < |t| then IndexOf(t, mac) else FreeIndex(t), mac, ip, name);
      var i := if IndexOf(t, mac) < |t| then IndexOf(t, mac) else FreeIndex(t);
      forall m
        ensures Get(t', m) == if m == mac then Some(ip) else Get(t, m)
      {
        if m == mac {
          IndexOfIs(t', m, i);
        } else if IndexOf(t, m) < |t| {
          IndexOfIs(t', m, IndexOf(t, m));
        }
      }
    }
  }

  /** Deleting removes the key, when no MAC has two entries, as every run of additions and deletions guarantees. */
  lemma DeleteRemovesKey(t: seq<Entry>, mac: Mac)
    requires OneEntryEach(t)
    ensures OneEntryEach(Deleted(t, mac))
    ensures forall m :: Get(Deleted(t, mac), m) == if m == mac then None else Get(t, m)
    ensures |Deleted(t, mac)| == |t|
    ensures forall i :: 0 <= i < |t| ==> Deleted(t, mac)[i] == if t[i].IsFor(mac) then t[i].(valid := false) else t[i]
  {
    var t' := Deleted(t, mac);
    forall m
      ensures Get(t', m) == if m == mac then None else Get(t, m)
    {
      if m != mac && IndexOf(t, m) < |t| { IndexOfIs(t', m, IndexOf(t, m)); }
    }
  }

  /** The reverse question the server asks, in terms of the map. */
  lemma ReservedForOtherIff(t: seq<Entry>, ip: u32, mac: Mac)
    requires OneEntryEach(t)
    ensures ReservedForOther(t, ip, mac) <==> ip != 0 && exists m: Mac :: m != mac && Get(t, m) == Some(ip)
  {
    if ReservedForOther(t, ip, mac) {
      var i :| 0 <= i < |t| && t[i].valid && t[i].ip == ip && t[i].mac != mac;
      IndexOfIs(t, t[i].mac, i);
      assert Get(t, t[i].mac) == Some(ip);
    }
  }
}
