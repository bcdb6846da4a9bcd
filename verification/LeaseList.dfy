/** The server's linked list of leases and its three in-place operations, refining operations on a sequence. */
module LeaseList {
  import opened Words
  import opened Sequences

  datatype Lease = Lease(ip: u32, mac: Mac, timer: u32, hostname: seq<byte>)

  /** A list node together with the lease record it owns. */
  class Node {
    var ip: u32
    var mac: Mac
    var timer: u32
    var hostname: seq<byte>
    var next: Node?

    constructor (ip: u32, mac: Mac, timer: u32)
      ensures this.ip == ip && this.mac == mac && this.timer == timer && this.hostname == [] && this.next == null
    {
      this.ip, this.mac, this.timer, this.hostname, this.next := ip, mac, timer, [], null;
    }
  }

  /** The list at `head` runs through exactly `nodes`, none twice, and ends: it is acyclic. */
  ghost predicate Linked(head: Node?, nodes: seq<Node>)
    reads nodes
  {
    && head == (if nodes == [] then null else nodes[0])
    && (forall i {:trigger nodes[i].next} :: 0 <= i < |nodes| ==>
       nodes[i].next == if i + 1 < |nodes| then nodes[i + 1] else null)
    && (forall i, j :: 0 <= i < j < |nodes| ==> nodes[i] != nodes[j])
  }

  /** The nodes carry the leases `ls`, in order. */
  ghost predicate Carries(nodes: seq<Node>, ls: seq<Lease>)
    reads nodes
  {
    && |nodes| == |ls|
    && forall i {:trigger ls[i]} :: 0 <= i < |ls| ==>
         nodes[i].ip == ls[i].ip && nodes[i].mac == ls[i].mac && nodes[i].timer == ls[i].timer
             && nodes[i].hostname == ls[i].hostname
  }

  /** Index of the first lease with a greater address. */
  function UpperBound(ls: seq<Lease>, ip: u32): (k: nat)
    ensures k <= |ls|
    ensures forall i :: 0 <= i < k ==> ls[i].ip <= ip
    ensures k < |ls| ==> ip < ls[k].ip
  {
    if ls == [] || ip < ls[0].ip then 0 else 1 + UpperBound(ls[1..], ip)
  }

  function Insert(ls: seq<Lease>, x: Lease): seq<Lease> { InsertAt(ls, UpperBound(ls, x.ip), x) }

  lemma UpperBoundIs(ls: seq<Lease>, ip: u32, k: nat)
    requires k <= |ls| && (forall i :: 0 <= i < k ==> ls[i].ip <= ip) && (k < |ls| ==> ip < ls[k].ip)
    ensures UpperBound(ls, ip) == k
  {
  }

  lemma DistinctAfterInsert(nodes: seq<Node>, x: Node, k: nat)
    requires k <= |nodes| && x !in nodes && forall i, j :: 0 <= i < j < |nodes| ==> nodes[i] != nodes[j]
    ensures var r := InsertAt(nodes, k, x); forall i, j :: 0 <= i < j < |r| ==> r[i] != r[j]
  {
    hide InsertAt;
    var r := InsertAt(nodes, k, x);
    forall i, j | 0 <= i < j < |r|
      ensures r[i] != r[j]
    {
      if i != k { assert r[i] == nodes[if i < k then i else i - 1]; }
      if j != k { assert r[j] == nodes[if j < k then j else j - 1]; }
    }
  }

  /** The links after `x` has been put at position k of a linked list. */
  lemma LinkedAfterInsert(head: Node, nodes: seq<Node>, x: Node, k: nat)
    requires k <= |nodes| && x !in nodes && forall i, j :: 0 <= i < j < |nodes| ==> nodes[i] != nodes[j]
    requires head == if k == 0 then x else nodes[0]
    requires x.next == if k < |nodes| then nodes[k] else null
    requires forall i {:trigger nodes[i].next} :: 0 <= i < |nodes| ==>
      nodes[i].next == if i + 1 == k then x else if i + 1 < |nodes| then nodes[i + 1] else null
    ensures Linked(head, InsertAt(nodes, k, x))
  {
    var r := InsertAt(nodes, k, x);
    DistinctAfterInsert(nodes, x, k);
    hide InsertAt;
    forall i | 0 <= i < |r|
      ensures r[i].next == if i + 1 < |r| then r[i + 1] else null
    {
      if i < k { assert r[i].next == nodes[i].next; }
      if i > k { assert r[i].next == nodes[i - 1].next; }
    }
  }

  lemma CarriesAfterInsert(nodes: seq<Node>, ls: seq<Lease>, x: Node, k: nat)
    requires Carries(nodes, ls) && k <= |nodes|
    ensures Carries(InsertAt(nodes, k, x), InsertAt(ls, k, Lease(x.ip, x.mac, x.timer, x.hostname)))
  {
    var r, rs := InsertAt(nodes, k, x), InsertAt(ls, k, Lease(x.ip, x.mac, x.timer, x.hostname));
    forall i | 0 <= i < |rs|
      ensures r[i].ip == rs[i].ip && r[i].mac == rs[i].mac && r[i].timer == rs[i].timer
          && r[i].hostname == rs[i].hostname
    {
      if i < k { assert rs[i] == ls[i]; }
      if i > k { assert rs[i] == ls[i - 1]; }
    }
  }

  lemma CarriesAfterRemove(nodes: seq<Node>, ls: seq<Lease>, k: nat)
    requires Carries(nodes, ls) && k < |nodes|
    ensures Carries(RemoveAt(nodes, k), RemoveAt(ls, k))
  {
    var r, rs := RemoveAt(nodes, k), RemoveAt(ls, k);
    forall i | 0 <= i < |rs|
      ensures r[i].ip == rs[i].ip && r[i].mac == rs[i].mac && r[i].timer == rs[i].timer
          && r[i].hostname == rs[i].hostname
    {
      assert rs[i] == if i < k then ls[i] else ls[i + 1];
    }
  }

  /** `node_insert_to_list`: only link fields are written. */
  method InsertNode(head: Node?, x: Node, ghost nodes: seq<Node>, ghost ls: seq<Lease>) returns (head': Node?)
    requires Linked(head, nodes) && Carries(nodes, ls) && x !in nodes && x.next == null
    modifies (set n | n in nodes)`next, x`next
    ensures var k := UpperBound(ls, x.ip);
      Linked(head', InsertAt(nodes, k, x))
          && Carries(InsertAt(nodes, k, x), Insert(ls, Lease(x.ip, x.mac, x.timer, x.hostname)))
  {
    ghost var k := UpperBound(ls, x.ip);
    if head == null {
      head' := x;
      LinkedAfterInsert(head', nodes, x, k);
    } else if x.ip < head.ip {
      assert ls[0].ip == head.ip;
      x.next := head;
      head' := x;
      LinkedAfterInsert(head', nodes, x, k);
    } else {
      var p := FindPlace(head, x, nodes, ls);
      head' := head;
      LinkAfter(head, x, p, nodes, k);
    }
    CarriesAfterInsert(nodes, ls, x, k);
  }

  /** Links `x` behind `p`; at the end of the list its own link stays null. */
  method LinkAfter(head: Node, x: Node, p: Node, ghost nodes: seq<Node>, ghost k: nat)
    requires Linked(head, nodes) && x !in nodes && x.next == null
    requires 0 < k <= |nodes| && p == nodes[k - 1]
    modifies p`next, x`next
    ensures Linked(head, InsertAt(nodes, k, x))
  {
    if p.next != null {
      x.next := p.next;
    }
    p.next := x;
    LinkedAfterInsert(head, nodes, x, k);
  }

  /** Its search: the last node before the place of `x`. */
  method FindPlace(head: Node, x: Node, ghost nodes: seq<Node>, ghost ls: seq<Lease>) returns (p: Node)
    requires Linked(head, nodes) && Carries(nodes, ls) && head.ip <= x.ip
    ensures var k := UpperBound(ls, x.ip); 0 < k <= |nodes| && p == nodes[k - 1]
  {
    p := head;
    ghost var i := 0;
    assert ls[0].ip == head.ip;
    while p.next != null
      invariant 0 <= i < |nodes| && p == nodes[i]
      invariant forall j :: 0 <= j <= i ==> ls[j].ip <= x.ip
      decreases |nodes| - i
    {
      assert p.next == nodes[i + 1] && ls[i + 1].ip == nodes[i + 1].ip;
      if x.ip < p.next.ip { break; }
      p := p.next;
      i := i + 1;
    }
    assert p.next != null ==> p.next == nodes[i + 1] && ls[i + 1].ip == p.next.ip;
    UpperBoundIs(ls, x.ip, i + 1);
  }

  /** `node_remove_from_list` for a node of the list. The walk goes on to the end after unlinking. */
  method RemoveNode(head: Node?, x: Node, ghost nodes: seq<Node>, ghost k: nat) returns (head': Node?)
    requires Linked(head, nodes) && k < |nodes| && nodes[k] == x
    modifies (set n | n in nodes)`next
    ensures Linked(head', RemoveAt(nodes, k)) && x.next == null
  {
    ghost var left := RemoveAt(nodes, k);
    var p := head;
    if p == x {
      head' := p.next;
      x.next := null;
    } else {
      head' := head;
      ghost var i, unlinked := 0, false;
      while p != null
        invariant !unlinked ==> 0 <= i < k && p == nodes[i] && Linked(head, nodes)
        invariant unlinked ==> Linked(head, left) && x.next == null && x !in left
        invariant unlinked ==> 0 <= i <= |left| && p == if i < |left| then left[i] else null
        decreases |nodes| - i
      {
        if p.next == x {
          p.next := x.next;
          x.next := null;
          unlinked := true;
        }
        p := p.next;
        i := i + 1;
      }
    }
  }

  /** Index of the first lease with the smallest timer. */
  function Oldest(ls: seq<Lease>): (k: nat)
    requires ls != []
    ensures k < |ls|
    ensures forall i :: 0 <= i < |ls| ==> ls[k].timer <= ls[i].timer
    ensures forall i :: 0 <= i < k ==> ls[k].timer < ls[i].timer
  {
    if |ls| == 1 then 0
    else
      var k := Oldest(ls[..|ls| - 1]);
      if ls[|ls| - 1].timer < ls[k].timer then |ls| - 1 else k
  }

  /** `kill_oldest_dhcps_pool`. */
  method RemoveOldest(head: Node, ghost nodes: seq<Node>, ghost ls: seq<Lease>) returns (head': Node?)
    requires Linked(head, nodes) && Carries(nodes, ls) && |nodes| >= 2
    modifies (set n | n in nodes)`next
    ensures Linked(head', RemoveAt(nodes, Oldest(ls)))
  {
    var min, minPre := FindOldest(head, nodes, ls);
    if min == head {
      head' := min.next;
    } else {
      head' := head;
      minPre.next := min.next;
    }
  }

  lemma OldestOfOne(ls: seq<Lease>)
    requires ls != []
    ensures Oldest(ls[..1]) == 0
  {
  }

  lemma OldestOfMore(ls: seq<Lease>, i: nat)
    requires 0 < i < |ls|
    ensures Oldest(ls[..i + 1]) == if ls[i].timer < ls[Oldest(ls[..i])].timer then i else Oldest(ls[..i])
  {
    assert ls[..i + 1][..i] == ls[..i];
  }

  /** Its search: the oldest node and the node before it. */
  method FindOldest(head: Node, ghost nodes: seq<Node>, ghost ls: seq<Lease>) returns (min: Node, minPre: Node)
    requires Linked(head, nodes) && Carries(nodes, ls) && |nodes| >= 2
    ensures var k := Oldest(ls); min == nodes[k] && minPre == if k == 0 then head else nodes[k - 1]
  {
    hide Oldest;
    var pre, p := head, head.next;
    minPre, min := head, head;
    ghost var k, i := 0, 1;
    OldestOfOne(ls);
    while p != null
      invariant 1 <= i <= |nodes| && 0 <= k < i
      invariant p == (if i < |nodes| then nodes[i] else null) && pre == nodes[i - 1]
      invariant min == nodes[k] && minPre == if k == 0 then head else nodes[k - 1]
      invariant k == Oldest(ls[..i])
      decreases |nodes| - i
    {
      OldestOfMore(ls, i);
      assert ls[i].timer == p.timer && ls[k].timer == min.timer;
      if p.timer < min.timer {
        min, minPre := p, pre;
        k := i;
      }
      pre, p := p, p.next;
      i := i + 1;
    }
    assert ls[..i] == ls;
  }
}
