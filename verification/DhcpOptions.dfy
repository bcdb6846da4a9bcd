/** DHCP options (RFC 2132 section 2): the server's walk over a client's options, its meaning, and the block the server
    emits. */
module DhcpOptions {
  import opened Words
  import opened Wrappers

  const PAD: byte := 0
  const SUBNET_MASK: byte := 1
  const ROUTER: byte := 3
  const DNS_SERVER: byte := 6
  const HOSTNAME: byte := 12
  const INTERFACE_MTU: byte := 26
  const BROADCAST_ADDRESS: byte := 28
  const ROUTER_DISCOVERY: byte := 31
  const VENDOR: byte := 43
  const REQUESTED_IP: byte := 50
  const LEASE_TIME: byte := 51
  const MSG_TYPE: byte := 53
  const SERVER_ID: byte := 54
  const CAPTIVE_PORTAL: byte := 114
  const END: byte := 255

  const DISCOVER: byte := 1
  const OFFER: byte := 2
  const REQUEST: byte := 3
  const DECLINE: byte := 4
  const NAK: byte := 6
  const RELEASE: byte := 7

  const MAX_HOSTNAME: nat := 32

  datatype Opt = Opt(code: byte, data: seq<byte>)

  /** What the server decides to do about a message. */
  datatype Verdict = Ignored | Offered | Declined | Acked | Nacked | Idle | Released

  /** The options the walk visits from `pos` on: it stops at END, at the end of the message or at a cut-off option. */
  function DecodeFrom(b: seq<byte>, pos: nat): seq<Opt>
    requires pos <= |b|
    decreases |b| - pos
  {
    if pos == |b| || b[pos] == END then []
    else if b[pos] == PAD then DecodeFrom(b, pos + 1)
    else if pos + 1 >= |b| || pos + 2 + b[pos + 1] > |b| then []
    else
      var next := pos + 2 + b[pos + 1];
      [Opt(b[pos], b[pos + 2..next])] + DecodeFrom(b, next)
  }

  /** Does the walk from `pos` end at an END option? */
  predicate ReachesEnd(b: seq<byte>, pos: nat)
    requires pos <= |b|
    decreases |b| - pos
  {
    if pos == |b| then false
    else if b[pos] == END then true
    else if b[pos] == PAD then ReachesEnd(b, pos + 1)
    else if pos + 1 >= |b| || pos + 2 + b[pos + 1] > |b| then false
    else ReachesEnd(b, pos + 2 + b[pos + 1])
  }

  /** The last option with this code and at least this much data counts. */
  function Last(opts: seq<Opt>, code: byte, minLength: nat): (r: Option<seq<byte>>)
    ensures r.Some? ==> |r.value| >= minLength
  {
    if opts == [] then None
    else
      var o := opts[|opts| - 1];
      if o.code == code && |o.data| >= minLength then Some(o.data) else Last(opts[..|opts| - 1], code, minLength)
  }

  /** A C string ends at its first NUL. */
  function CString(s: seq<byte>): (r: seq<byte>)
    ensures |r| <= |s| && 0 !in r
  {
    if s == [] || s[0] == 0 then [] else [s[0]] + CString(s[1..])
  }

  function Hostname(opts: seq<Opt>): (r: seq<byte>)
    ensures |r| < MAX_HOSTNAME
  {
    match Last(opts, HOSTNAME, 1)
    case None => []
    case Some(d) => CString(d[..Min(|d|, MAX_HOSTNAME - 1)])
  }

  function MessageType(opts: seq<Opt>): byte
  {
    match Last(opts, MSG_TYPE, 1)
    case None => 0
    case Some(d) => d[0]
  }

  /** What option 50 says about the address the server has in mind. */
  function Requested(opts: seq<Opt>, client: u32): Verdict
  {
    match Last(opts, REQUESTED_IP, 4)
    case None => Idle
    case Some(d) => if Le32(d[..4]) == client then Acked else Nacked
  }

  function Decide(messageType: byte, requested: Verdict, renew: bool): Verdict
  {
    if messageType == DISCOVER then Offered
    else if messageType == REQUEST && requested != Acked && requested != Nacked then (if renew then Acked else Nacked)
    else if messageType == DECLINE then Declined
    else if messageType == RELEASE then Released
    else requested
  }

  function VerdictOn(b: seq<byte>, client: u32, renew: bool): (v: Verdict)
    ensures v != Ignored
  {
    var opts := DecodeFrom(b, 0);
    Decide(MessageType(opts), Requested(opts, client), renew)
  }

  lemma NothingVisited()
    ensures forall code: byte, n: nat :: Last([], code, n) == None
  {
  }

  lemma LastOfLonger(opts: seq<Opt>, o: Opt)
    ensures forall code: byte, n: nat ::
      Last(opts + [o], code, n) == if o.code == code && |o.data| >= n then Some(o.data) else Last(opts, code, n)
  {
    assert (opts + [o])[..|opts|] == opts;
  }

  /** One step of the walk, with the options visited before it. */
  lemma DecodeStep(b: seq<byte>, pos: nat, visited: seq<Opt>)
    requires pos < |b|
    ensures b[pos] == PAD ==> DecodeFrom(b, pos) == DecodeFrom(b, pos + 1)
    ensures b[pos] == END ==> DecodeFrom(b, pos) == []
    ensures b[pos] != PAD && b[pos] != END && (pos + 1 >= |b| || pos + 2 + b[pos + 1] > |b|) ==>
        DecodeFrom(b, pos) == []
    ensures b[pos] != PAD && b[pos] != END && pos + 1 < |b| && pos + 2 + b[pos + 1] <= |b| ==>
      var next := pos + 2 + b[pos + 1];
      visited + DecodeFrom(b, pos) == (visited + [Opt(b[pos], b[pos + 2..next])]) + DecodeFrom(b, next)
  {
  }

  lemma DecodeEnd(b: seq<byte>, pos: nat)
    requires pos <= |b|
    ensures pos == |b| ==> DecodeFrom(b, pos) == []
  {
  }

  /** `parse_options`. */
  method ParseOptions(b: seq<byte>, client: u32, renew: bool) returns (verdict: Verdict, hostname: seq<byte>)
    ensures verdict == VerdictOn(b, client, renew)
    ensures hostname == Hostname(DecodeFrom(b, 0))
  {
    hide DecodeFrom, Last, CString;
    NothingVisited();
    var messageType: byte := 0;
    var requested := Idle;
    var current: seq<byte> := [];
    var pos: nat := 0;
    ghost var visited: seq<Opt> := [];
    while pos < |b|
      invariant pos <= |b|
      invariant visited + DecodeFrom(b, pos) == DecodeFrom(b, 0)
      invariant messageType == MessageType(visited)
      invariant requested == Requested(visited, client)
      invariant current == Hostname(visited)
      decreases |b| - pos
    {
      DecodeStep(b, pos, visited);
      if b[pos] == PAD { pos := pos + 1; continue; }
      if b[pos] == END { break; }
      if pos + 1 >= |b| { break; }
      var len := b[pos + 1];
      if pos + 2 + len > |b| { break; }
      var data := b[pos + 2..pos + 2 + len];
      LastOfLonger(visited, Opt(b[pos], data));
      visited := visited + [Opt(b[pos], data)];
      if b[pos] == MSG_TYPE {
        if len >= 1 { messageType := data[0]; }
      } else if b[pos] == HOSTNAME {
        if len > 0 { current := CString(data[..Min(len, MAX_HOSTNAME - 1)]); }
      } else if b[pos] == REQUESTED_IP {
        if len >= 4 { requested := if Le32(data[..4]) == client then Acked else Nacked; }
      }
      pos := pos + 2 + len;
    }
    DecodeEnd(b, pos);
    assert visited == DecodeFrom(b, 0);
    verdict := Decide(messageType, requested, renew);
    hostname := current;
  }

  /** An acknowledgement needs the client to name the address: by option 50, or by renewing without it. */
  lemma AckNeedsTheAddress(b: seq<byte>, client: u32, renew: bool)
    requires VerdictOn(b, client, renew) == Acked
    ensures var d := Last(DecodeFrom(b, 0), REQUESTED_IP, 4);
      if d.Some? then Le32(d.value[..4]) == client else renew
  {
  }

  function Encode(o: Opt): seq<byte> { [o.code, |o.data| % 0x100] + o.data }

  function EncodeAll(opts: seq<Opt>): seq<byte>
  {
    if opts == [] then [] else EncodeAll(opts[..|opts| - 1]) + Encode(opts[|opts| - 1])
  }

  lemma {:induction false} EncodeFirst(o: Opt, opts: seq<Opt>)
    ensures EncodeAll([o] + opts) == Encode(o) + EncodeAll(opts)
  {
    hide Encode;
    if opts == [] {
      assert [o] + opts == [o] && [o][..0] == [];
    } else {
      var n := |opts| - 1;
      assert ([o] + opts)[..n + 1] == [o] + opts[..n];
      EncodeFirst(o, opts[..n]);
      assert EncodeAll([o] + opts) == EncodeAll([o] + opts[..n]) + Encode(opts[n]);
    }
  }

  /** An option whose length fits its byte. */
  predicate Fits(o: Opt) { o.code != PAD && o.code != END && |o.data| <= 0xFF }

  predicate AllFit(opts: seq<Opt>) { forall i :: 0 <= i < |opts| ==> Fits(opts[i]) }

  lemma DecodeOne(before: seq<byte>, o: Opt, after: seq<byte>)
    requires Fits(o)
    ensures var b, next := before + Encode(o) + after, |before + Encode(o)|;
      && DecodeFrom(b, |before|) == [o] + DecodeFrom(b, next)
      && ReachesEnd(b, |before|) == ReachesEnd(b, next)
  {
    var b, pos := before + Encode(o) + after, |before|;
    assert b[pos] == o.code && b[pos + 1] == |o.data|;
    assert b[pos + 2..pos + 2 + |o.data|] == o.data;
  }

  /** The options, then END, then whatever the buffer still holds: the walk returns the options and stops at END. */
  lemma {:induction false} DecodeEncoded(before: seq<byte>, opts: seq<Opt>, rest: seq<byte>)
    requires AllFit(opts)
    ensures var b := before + EncodeAll(opts) + [END] + rest;
      DecodeFrom(b, |before|) == opts && ReachesEnd(b, |before|)
    decreases |opts|
  {
    var b := before + EncodeAll(opts) + [END] + rest;
    if opts == [] {
      assert b[|before|] == END;
    } else {
      var o, tail := opts[0], opts[1..];
      assert opts == [o] + tail;
      EncodeFirst(o, tail);
      assert b == (before + Encode(o)) + EncodeAll(tail) + [END] + rest;
      assert b == before + Encode(o) + (EncodeAll(tail) + [END] + rest);
      DecodeEncoded(before + Encode(o), tail, rest);
      DecodeOne(before, o, EncodeAll(tail) + [END] + rest);
    }
  }

  lemma {:induction false} DecodedDataIsShort(b: seq<byte>, pos: nat)
    requires pos <= |b|
    ensures forall o :: o in DecodeFrom(b, pos) ==> |o.data| <= 0xFF
    decreases |b| - pos
  {
    if pos == |b| || b[pos] == END {
    } else if b[pos] == PAD {
      DecodedDataIsShort(b, pos + 1);
    } else if pos + 1 < |b| && pos + 2 + b[pos + 1] <= |b| {
      DecodedDataIsShort(b, pos + 2 + b[pos + 1]);
    }
  }

  /** What the reply options are made of; `uri` is None when no captive portal is configured. */
  datatype Settings = Settings(server: u32, leaseTime: u32, leaseUnit: u32, routerEnabled: bool, gateway: u32,
                               dnsEnabled: bool, addDns: bool, dns: u32, backupDns: u32, uri: Option<seq<byte>>)

  const MASK_24: u32 := Octets(255, 255, 255, 0)

  function BroadcastOf(server: u32): u32 { Octets(Octet0(server), Octet1(server), Octet2(server), 255) }

  /** Lease time in seconds, as the 32-bit product the server computes. */
  function LeaseSeconds(c: Settings): u32 { (c.leaseTime * c.leaseUnit) % 0x1_0000_0000 }

  /** Network order. */
  function Be32Bytes(x: u32): (b: seq<byte>)
    ensures |b| == 4
  { [Octet3(x), Octet2(x), Octet1(x), Octet0(x)] }

  function RouterOptions(c: Settings): seq<Opt>
  {
    if c.routerEnabled && c.gateway != 0 then [Opt(ROUTER, Bytes32(c.gateway))] else []
  }

  function DnsOptions(c: Settings): seq<Opt>
  {
    if c.dnsEnabled then [Opt(DNS_SERVER, Bytes32(c.dns) + if c.backupDns != 0 then Bytes32(c.backupDns) else [])]
    else if c.addDns then [Opt(DNS_SERVER, Bytes32(c.server))]
    else []
  }

  function PortalOptions(c: Settings): seq<Opt>
  {
    if c.uri.Some? then [Opt(CAPTIVE_PORTAL, c.uri.value)] else []
  }

  function LeaseOptions(c: Settings): seq<Opt>
  {
    [Opt(SUBNET_MASK, Bytes32(MASK_24)), Opt(LEASE_TIME, Be32Bytes(LeaseSeconds(c))), Opt(SERVER_ID, Bytes32(c.server))]
  }

  function LinkOptions(c: Settings): seq<Opt>
  {
    [Opt(BROADCAST_ADDRESS, Bytes32(BroadcastOf(c.server))), Opt(INTERFACE_MTU, [0x05, 0xDC])]
  }

  const LAST_OPTIONS: seq<Opt> := [Opt(ROUTER_DISCOVERY, [0]), Opt(VENDOR, [1, 4, 0, 0, 0, 2])]

  /** The options of an offer or an acknowledgement after its message type, in order. */
  function OfferOptions(c: Settings): seq<Opt>
  {
    LeaseOptions(c) + RouterOptions(c) + DnsOptions(c) + LinkOptions(c) + PortalOptions(c) + LAST_OPTIONS
  }

  function ReplyOptions(kind: byte, c: Settings): seq<Opt>
  {
    [Opt(MSG_TYPE, [kind])] + if kind == NAK then [] else OfferOptions(c)
  }

  /** One option at `at`: code, length byte, data. `opts` are the options written since `start`. */
  method PutOption(buf: array<byte>, start: nat, at: nat, o: Opt, ghost opts: seq<Opt>) returns (end: nat)
    requires start <= at && at + 2 + |o.data| <= buf.Length
    requires buf[start..at] == EncodeAll(opts)
    modifies buf
    ensures end == at + 2 + |o.data|
    ensures buf[start..end] == EncodeAll(opts + [o]) && buf[..start] == old(buf[..start])
  {
    buf[at] := o.code;
    buf[at + 1] := |o.data| % 0x100;
    forall i | 0 <= i < |o.data| {
      buf[at + 2 + i] := o.data[i];
    }
    end := at + 2 + |o.data|;
    assert buf[start..end] == old(buf[start..at]) + Encode(o);
    assert (opts + [o])[..|opts|] == opts;
  }

  /** `add_offer_options`. */
  method AddOfferOptions(buf: array<byte>, start: nat, at: nat, c: Settings, ghost done: seq<Opt>) returns (end: nat)
    requires start <= at && at + 55 + PortalRoom(c) <= buf.Length
    requires buf[start..at] == EncodeAll(done)
    modifies buf
    ensures at <= end <= at + 55 + PortalRoom(c)
    ensures buf[start..end] == EncodeAll(done + OfferOptions(c)) && buf[..start] == old(buf[..start])
  {
    end := AddLease(buf, start, at, c, done);
    ghost var o := done + LeaseOptions(c);
    end := AddRouter(buf, start, end, c, o);
    o := o + RouterOptions(c);
    end := AddDns(buf, start, end, c, o);
    o := o + DnsOptions(c);
    end := AddLink(buf, start, end, c, o);
    o := o + LinkOptions(c);
    end := AddPortal(buf, start, end, c, o);
    o := o + PortalOptions(c);
    end := AddLast(buf, start, end, c, o);
    Regroup(done, LeaseOptions(c), RouterOptions(c), DnsOptions(c), LinkOptions(c), PortalOptions(c), LAST_OPTIONS);
  }

  lemma Regroup(x: seq<Opt>, a: seq<Opt>, b: seq<Opt>, c: seq<Opt>, d: seq<Opt>, e: seq<Opt>, f: seq<Opt>)
    ensures x + a + b + c + d + e + f == x + (a + b + c + d + e + f)
  {
  }

  function PortalRoom(c: Settings): nat { if c.uri.Some? then 2 + |c.uri.value| else 0 }

  method AddLease(buf: array<byte>, start: nat, at: nat, c: Settings, ghost done: seq<Opt>) returns (end: nat)
    requires start <= at && at + 18 <= buf.Length
    requires buf[start..at] == EncodeAll(done)
    modifies buf
    ensures at <= end <= at + 18
    ensures buf[start..end] == EncodeAll(done + LeaseOptions(c)) && buf[..start] == old(buf[..start])
  {
    end := PutOption(buf, start, at, LeaseOptions(c)[0], done);
    end := PutOption(buf, start, end, LeaseOptions(c)[1], done + [LeaseOptions(c)[0]]);
    end := PutOption(buf, start, end, LeaseOptions(c)[2], done + [LeaseOptions(c)[0]] + [LeaseOptions(c)[1]]);
    assert done + LeaseOptions(c) == done + [LeaseOptions(c)[0]] + [LeaseOptions(c)[1]] + [LeaseOptions(c)[2]];
  }

  method AddRouter(buf: array<byte>, start: nat, at: nat, c: Settings, ghost done: seq<Opt>) returns (end: nat)
    requires start <= at && at + 6 <= buf.Length
    requires buf[start..at] == EncodeAll(done)
    modifies buf
    ensures at <= end <= at + 6
    ensures buf[start..end] == EncodeAll(done + RouterOptions(c)) && buf[..start] == old(buf[..start])
  {
    end := at;
    assert done + [] == done;
    if c.routerEnabled {
      if c.gateway != 0 {
        end := PutOption(buf, start, end, Opt(ROUTER, Bytes32(c.gateway)), done);
      }
    }
  }

  method AddDns(buf: array<byte>, start: nat, at: nat, c: Settings, ghost done: seq<Opt>) returns (end: nat)
    requires start <= at && at + 10 <= buf.Length
    requires buf[start..at] == EncodeAll(done)
    modifies buf
    ensures at <= end <= at + 10
    ensures buf[start..end] == EncodeAll(done + DnsOptions(c)) && buf[..start] == old(buf[..start])
  {
    end := at;
    assert done + [] == done;
    if c.dnsEnabled {
      var data := Bytes32(c.dns) + if c.backupDns != 0 then Bytes32(c.backupDns) else [];
      end := PutOption(buf, start, end, Opt(DNS_SERVER, data), done);
    } else if c.addDns {
      end := PutOption(buf, start, end, Opt(DNS_SERVER, Bytes32(c.server)), done);
    }
  }

  method AddLink(buf: array<byte>, start: nat, at: nat, c: Settings, ghost done: seq<Opt>) returns (end: nat)
    requires start <= at && at + 10 <= buf.Length
    requires buf[start..at] == EncodeAll(done)
    modifies buf
    ensures at <= end <= at + 10
    ensures buf[start..end] == EncodeAll(done + LinkOptions(c)) && buf[..start] == old(buf[..start])
  {
    end := PutOption(buf, start, at, LinkOptions(c)[0], done);
    end := PutOption(buf, start, end, LinkOptions(c)[1], done + [LinkOptions(c)[0]]);
    assert done + LinkOptions(c) == done + [LinkOptions(c)[0]] + [LinkOptions(c)[1]];
  }

  method AddPortal(buf: array<byte>, start: nat, at: nat, c: Settings, ghost done: seq<Opt>) returns (end: nat)
    requires start <= at && at + PortalRoom(c) <= buf.Length
    requires buf[start..at] == EncodeAll(done)
    modifies buf
    ensures at <= end <= at + PortalRoom(c)
    ensures buf[start..end] == EncodeAll(done + PortalOptions(c)) && buf[..start] == old(buf[..start])
  {
    end := at;
    assert done + [] == done;
    if c.uri.Some? {
      end := PutOption(buf, start, end, Opt(CAPTIVE_PORTAL, c.uri.value), done);
    }
  }

  method AddLast(buf: array<byte>, start: nat, at: nat, c: Settings, ghost done: seq<Opt>) returns (end: nat)
    requires start <= at && at + 11 <= buf.Length
    requires buf[start..at] == EncodeAll(done)
    modifies buf
    ensures at <= end <= at + 11
    ensures buf[start..end] == EncodeAll(done + LAST_OPTIONS) && buf[..start] == old(buf[..start])
  {
    end := PutOption(buf, start, at, LAST_OPTIONS[0], done);
    end := PutOption(buf, start, end, LAST_OPTIONS[1], done + [LAST_OPTIONS[0]]);
    assert done + LAST_OPTIONS == done + [LAST_OPTIONS[0]] + [LAST_OPTIONS[1]];
  }

  /** Message type, reply options, END: what `send_offer`, `send_ack` and `send_nak` write after the magic cookie.
      `buf` is memory from the message on, as far as the writing reaches: nothing stops it at the end of the
      message. */
  method BuildOptions(buf: array<byte>, start: nat, kind: byte, c: Settings) returns (end: nat)
    requires start + 59 + PortalRoom(c) <= buf.Length
    modifies buf
    ensures start <= end <= buf.Length
    ensures buf[start..end] == EncodeAll(ReplyOptions(kind, c)) + [END] && buf[..start] == old(buf[..start])
  {
    end := PutOption(buf, start, start, Opt(MSG_TYPE, [kind]), []);
    ghost var o := [Opt(MSG_TYPE, [kind])];
    assert [] + o == o;
    if kind != NAK {
      end := AddOfferOptions(buf, start, end, c, o);
    }
    assert buf[start..end] == EncodeAll(ReplyOptions(kind, c));
    buf[end] := END;
    end := end + 1;
  }

  /** The walk over an emitted block visits exactly the emitted options and stops at END, if and only if the portal URI
      fits its one-byte length; `before` and `rest` are the surrounding bytes of the message. */
  lemma EmittedBlockDecodesIff(before: seq<byte>, kind: byte, c: Settings, rest: seq<byte>)
    ensures var b := before + EncodeAll(ReplyOptions(kind, c)) + [END] + rest;
      (DecodeFrom(b, |before|) == ReplyOptions(kind, c) && ReachesEnd(b, |before|)) <==>
      (kind == NAK || c.uri.None? || |c.uri.value| <= 0xFF)
  {
    var opts := ReplyOptions(kind, c);
    if kind == NAK || c.uri.None? || |c.uri.value| <= 0xFF {
      ReplyOptionsFit(kind, c);
      DecodeEncoded(before, opts, rest);
    } else {
      DecodedDataIsShort(before + EncodeAll(opts) + [END] + rest, |before|);
      PortalIsEmitted(kind, c);
    }
  }

  /** The options follow the fixed part of the message and the magic cookie. */
  const OPTIONS_AT: nat := 240

  /** The reply is written into a copy of the request of at least 548 bytes, and sent with its size. */
  function MessageSize(request: nat): nat { if request < 548 then 548 else request }

  /** What the server writes behind the cookie. */
  function Block(kind: byte, c: Settings): seq<byte> { EncodeAll(ReplyOptions(kind, c)) + [END] }

  function RouterSize(c: Settings): nat { if c.routerEnabled && c.gateway != 0 then 6 else 0 }

  function DnsSize(c: Settings): nat
  {
    if c.dnsEnabled && c.backupDns != 0 then 10 else if c.dnsEnabled || c.addDns then 6 else 0
  }

  /** Its size in bytes. */
  function BlockSize(kind: byte, c: Settings): nat
  {
    if kind == NAK then 4 else 43 + RouterSize(c) + DnsSize(c) + PortalRoom(c)
  }

  function TotalSize(opts: seq<Opt>): nat
  {
    if opts == [] then 0 else TotalSize(opts[..|opts| - 1]) + 2 + |opts[|opts| - 1].data|
  }

  lemma {:induction false} EncodedSize(opts: seq<Opt>)
    ensures |EncodeAll(opts)| == TotalSize(opts)
  {
    if opts != [] { EncodedSize(opts[..|opts| - 1]); }
  }

  lemma {:induction false} TotalSizeAppend(a: seq<Opt>, b: seq<Opt>)
    ensures TotalSize(a + b) == TotalSize(a) + TotalSize(b)
  {
    if b == [] {
      assert a + b == a;
    } else {
      var n := |b| - 1;
      assert (a + b)[..|a| + n] == a + b[..n];
      TotalSizeAppend(a, b[..n]);
    }
  }

  lemma SizeOfOne(o: Opt)
    ensures TotalSize([o]) == 2 + |o.data|
  {
    assert [o][..0] == [];
  }

  lemma SizeOfTwo(o: Opt, p: Opt)
    ensures TotalSize([o, p]) == 4 + |o.data| + |p.data|
  {
    TotalSizeAppend([o], [p]);
    SizeOfOne(o);
    SizeOfOne(p);
    assert [o] + [p] == [o, p];
  }

  lemma PartSizes(c: Settings)
    ensures TotalSize(LeaseOptions(c)) == 18 && TotalSize(RouterOptions(c)) == RouterSize(c)
    ensures TotalSize(DnsOptions(c)) == DnsSize(c) && TotalSize(LinkOptions(c)) == 10
    ensures TotalSize(PortalOptions(c)) == PortalRoom(c) && TotalSize(LAST_OPTIONS) == 11
  {
    hide TotalSize, Bytes32, Be32Bytes;
    var l := LeaseOptions(c);
    SizeOfTwo(l[0], l[1]);
    TotalSizeAppend([l[0], l[1]], [l[2]]);
    SizeOfOne(l[2]);
    assert l == [l[0], l[1]] + [l[2]];
    NoOptions();
    if RouterOptions(c) != [] { SizeOfOne(RouterOptions(c)[0]); }
    if DnsOptions(c) != [] { SizeOfOne(DnsOptions(c)[0]); }
    if PortalOptions(c) != [] { SizeOfOne(PortalOptions(c)[0]); }
    SizeOfTwo(LinkOptions(c)[0], LinkOptions(c)[1]);
    SizeOfTwo(LAST_OPTIONS[0], LAST_OPTIONS[1]);
  }

  lemma NoOptions()
    ensures TotalSize([]) == 0
  {
  }

  lemma BlockSizeIs(kind: byte, c: Settings)
    ensures |Block(kind, c)| == BlockSize(kind, c)
  {
    hide TotalSize, EncodeAll, LeaseOptions, RouterOptions, DnsOptions, LinkOptions, PortalOptions;
    hide RouterSize, DnsSize, PortalRoom;
    EncodedSize(ReplyOptions(kind, c));
    SizeOfOne(Opt(MSG_TYPE, [kind]));
    if kind == NAK {
      assert [Opt(MSG_TYPE, [kind])] + [] == [Opt(MSG_TYPE, [kind])];
    } else {
      TotalSizeAppend([Opt(MSG_TYPE, [kind])], OfferOptions(c));
      OfferSize(c);
    }
  }

  lemma OfferSize(c: Settings)
    ensures TotalSize(OfferOptions(c)) == 39 + RouterSize(c) + DnsSize(c) + PortalRoom(c)
  {
    hide TotalSize, LeaseOptions, RouterOptions, DnsOptions, LinkOptions, PortalOptions;
    hide RouterSize, DnsSize, PortalRoom;
    var a, b, d, e, f := LeaseOptions(c), RouterOptions(c), DnsOptions(c), LinkOptions(c), PortalOptions(c);
    TotalSizeAppend(a, b);
    TotalSizeAppend(a + b, d);
    TotalSizeAppend(a + b + d, e);
    TotalSizeAppend(a + b + d + e, f);
    TotalSizeAppend(a + b + d + e + f, LAST_OPTIONS);
    PartSizes(c);
  }

  lemma NoEndWithin(b: seq<byte>, pos: nat, o: Opt)
    requires Fits(o) && pos <= |b| < pos + 2 + |o.data|
    requires (pos < |b| ==> b[pos] == o.code) && (pos + 1 < |b| ==> b[pos + 1] == |o.data|)
    ensures !ReachesEnd(b, pos)
  {
  }

  lemma HeaderBytes(before: seq<byte>, o: Opt, after: seq<byte>)
    requires Fits(o)
    ensures var whole := before + Encode(o) + after;
      |whole| >= |before| + 2 && whole[|before|] == o.code && whole[|before| + 1] == |o.data|
  {
  }

  /** A cut within the first option. */
  lemma CutWithin(before: seq<byte>, o: Opt, after: seq<byte>, b: seq<byte>)
    requires Fits(o) && before <= b <= before + Encode(o) + after && |b| < |before| + 2 + |o.data|
    ensures !ReachesEnd(b, |before|)
  {
    hide ReachesEnd, Encode;
    HeaderBytes(before, o, after);
    NoEndWithin(b, |before|, o);
  }

  /** A cut behind it. */
  lemma CutBehind(front: seq<byte>, after: seq<byte>, b: seq<byte>)
    requires b <= front + after && |b| >= |front|
    ensures front <= b && b == front + b[|front|..]
  {
  }

  /** In a block cut off anywhere before the end of its END no walk reaches an END. */
  lemma {:induction false} CutOffBlock(before: seq<byte>, opts: seq<Opt>, b: seq<byte>)
    requires AllFit(opts) && before <= b < before + EncodeAll(opts) + [END]
    ensures !ReachesEnd(b, |before|)
    decreases |opts|
  {
    if opts != [] {
      hide DecodeFrom, EncodeAll, ReachesEnd;
      var o, tail := opts[0], opts[1..];
      assert opts == [o] + tail;
      EncodeFirst(o, tail);
      var after := EncodeAll(tail) + [END];
      assert before + Encode(o) + after == before + EncodeAll(opts) + [END];
      assert |Encode(o)| == 2 + |o.data|;
      hide Encode;
      if |b| >= |before + Encode(o)| {
        CutBehind(before + Encode(o), after, b);
        assert (before + Encode(o)) + after == (before + Encode(o)) + EncodeAll(tail) + [END];
        DecodeOne(before, o, b[|before + Encode(o)|..]);
        CutOffBlock(before + Encode(o), tail, b);
      } else {
        CutWithin(before, o, after, b);
      }
    }
  }

  /** What a client decodes from the message sent: the emitted options, and an END behind them. */
  predicate Understood(sent: seq<byte>, kind: byte, c: Settings)
    requires |sent| >= OPTIONS_AT
  {
    DecodeFrom(sent, OPTIONS_AT) == ReplyOptions(kind, c) && ReachesEnd(sent, OPTIONS_AT)
  }

  predicate PortalFits(kind: byte, c: Settings) { kind == NAK || c.uri.None? || |c.uri.value| <= 0xFF }

  lemma SplitAround(memory: seq<byte>, at: nat, block: seq<byte>, size: nat)
    requires at <= size <= |memory| && at + |block| <= |memory| && memory[at..at + |block|] == block
    ensures at + |block| <= size ==> memory[..size] == memory[..at] + block + memory[at + |block|..size]
    ensures size < at + |block| ==> memory[..at] <= memory[..size] < memory[..at] + block
  {
    assert memory[..at + |block|] == memory[..at] + block;
  }

  /** `memory` holds the message with the block in it, and what lies behind; the message's bytes are sent. The client
      understands them if and only if the portal URI fits its length byte and the block fits the message. */
  lemma SentMessageDecodesIff(memory: seq<byte>, request: nat, kind: byte, c: Settings)
    requires var size, end := MessageSize(request), OPTIONS_AT + |Block(kind, c)|;
      size <= |memory| && end <= |memory| && memory[OPTIONS_AT..end] == Block(kind, c)
    ensures Understood(memory[..MessageSize(request)], kind, c) <==>
      PortalFits(kind, c) && OPTIONS_AT + BlockSize(kind, c) <= MessageSize(request)
  {
    hide DecodeFrom, ReachesEnd, ReplyOptions, EncodeAll, BlockSize;
    BlockSizeIs(kind, c);
    var size, end, opts := MessageSize(request), OPTIONS_AT + |Block(kind, c)|, ReplyOptions(kind, c);
    var before, sent := memory[..OPTIONS_AT], memory[..size];
    SplitAround(memory, OPTIONS_AT, EncodeAll(opts) + [END], size);
    assert before + (EncodeAll(opts) + [END]) == before + EncodeAll(opts) + [END];
    if end <= size {
      EmittedBlockDecodesIff(before, kind, c, memory[end..size]);
    } else if PortalFits(kind, c) {
      ReplyOptionsFit(kind, c);
      CutOffBlock(before, opts, sent);
    } else {
      DecodedDataIsShort(sent, OPTIONS_AT);
      PortalIsEmitted(kind, c);
    }
  }

  /** With a router, one DNS server and a portal URI of 252 bytes the END is lost, unless the request was a longer
      one. */
  lemma LongPortalLosesTheEnd(memory: seq<byte>, request: nat, c: Settings)
    requires c.routerEnabled && c.gateway != 0 && c.dnsEnabled && c.backupDns == 0
    requires c.uri.Some? && |c.uri.value| == 252
    requires var end := OPTIONS_AT + |Block(OFFER, c)|;
      end <= |memory| && MessageSize(request) <= |memory| && memory[OPTIONS_AT..end] == Block(OFFER, c)
    ensures Understood(memory[..MessageSize(request)], OFFER, c) <==> request >= 549
  {
    SentMessageDecodesIff(memory, request, OFFER, c);
  }

  lemma ReplyOptionsFit(kind: byte, c: Settings)
    requires kind == NAK || c.uri.None? || |c.uri.value| <= 0xFF
    ensures AllFit(ReplyOptions(kind, c))
  {
    if kind != NAK {
      assert AllFit(LeaseOptions(c)) && AllFit(RouterOptions(c)) && AllFit(DnsOptions(c));
      assert AllFit(LinkOptions(c)) && AllFit(PortalOptions(c)) && AllFit(LAST_OPTIONS);
      assert AllFit(LeaseOptions(c) + RouterOptions(c) + DnsOptions(c));
      assert AllFit(LeaseOptions(c) + RouterOptions(c) + DnsOptions(c) + LinkOptions(c) + PortalOptions(c));
      assert AllFit(OfferOptions(c));
    }
  }

  lemma PortalIsEmitted(kind: byte, c: Settings)
    requires kind != NAK && c.uri.Some?
    ensures Opt(CAPTIVE_PORTAL, c.uri.value) in ReplyOptions(kind, c)
  {
    assert PortalOptions(c)[0] == Opt(CAPTIVE_PORTAL, c.uri.value);
    assert Opt(CAPTIVE_PORTAL, c.uri.value) in OfferOptions(c);
  }

  /** A client reading the block finds the lease time in seconds and the server's own address. */
  lemma LeaseTimeDecodes(kind: byte, c: Settings)
    requires kind != NAK
    ensures var opts := ReplyOptions(kind, c);
      && MessageType(opts) == kind
      && (var d := Last(opts, LEASE_TIME, 4); d.Some? && |d.value| == 4 && Swap32(Le32(d.value)) == LeaseSeconds(c))
      && Last(opts, SERVER_ID, 4) == Some(Bytes32(c.server))
  {
    var opts := ReplyOptions(kind, c);
    LeadingOptions(kind, c);
    hide *;
    LaterCodes(opts, 4);
    LastIs(opts, MSG_TYPE, 1, 0);
    LastIs(opts, LEASE_TIME, 4, 2);
    LastIs(opts, SERVER_ID, 4, 3);
    ReadsBack(LeaseSeconds(c));
    TypeIs(opts, kind);
  }

  lemma TypeIs(opts: seq<Opt>, kind: byte)
    requires Last(opts, MSG_TYPE, 1) == Some([kind])
    ensures MessageType(opts) == kind
  {
  }

  lemma ReadsBack(x: u32)
    ensures Swap32(Le32(Be32Bytes(x))) == x
  {
    Swap32Involution(x);
  }

  predicate NoLeadingCode(opts: seq<Opt>)
  {
    forall o :: o in opts ==> o.code != MSG_TYPE && o.code != LEASE_TIME && o.code != SERVER_ID
  }

  lemma LaterCodes(opts: seq<Opt>, n: nat)
    requires n <= |opts| && NoLeadingCode(opts[n..])
    ensures forall j :: n <= j < |opts| ==>
      opts[j].code != MSG_TYPE && opts[j].code != LEASE_TIME && opts[j].code != SERVER_ID
  {
    forall j | n <= j < |opts|
      ensures opts[j].code != MSG_TYPE && opts[j].code != LEASE_TIME && opts[j].code != SERVER_ID
    {
      assert opts[j] == opts[n..][j - n];
    }
  }

  lemma LaterOptions(c: Settings)
    ensures NoLeadingCode(RouterOptions(c) + DnsOptions(c) + LinkOptions(c) + PortalOptions(c) + LAST_OPTIONS)
  {
    hide Bytes32;
    assert NoLeadingCode(RouterOptions(c)) && NoLeadingCode(DnsOptions(c));
    assert NoLeadingCode(LinkOptions(c)) && NoLeadingCode(PortalOptions(c)) && NoLeadingCode(LAST_OPTIONS);
  }

  /** The first four options, whose codes do not occur again. */
  lemma LeadingOptions(kind: byte, c: Settings)
    requires kind != NAK
    ensures var opts := ReplyOptions(kind, c);
      && |opts| > 4 && opts[0] == Opt(MSG_TYPE, [kind]) && opts[2] == Opt(LEASE_TIME, Be32Bytes(LeaseSeconds(c)))
      && opts[3] == Opt(SERVER_ID, Bytes32(c.server)) && opts[1].code == SUBNET_MASK && NoLeadingCode(opts[4..])
  {
    hide Be32Bytes, Bytes32, LeaseSeconds, RouterOptions, DnsOptions, LinkOptions, PortalOptions, NoLeadingCode;
    LaterOptions(c);
    var later := RouterOptions(c) + DnsOptions(c) + LinkOptions(c) + PortalOptions(c) + LAST_OPTIONS;
    assert ReplyOptions(kind, c) == [Opt(MSG_TYPE, [kind])] + LeaseOptions(c) + later;
  }

  lemma {:induction false} LastIs(opts: seq<Opt>, code: byte, minLength: nat, i: nat)
    requires i < |opts| && opts[i].code == code && |opts[i].data| >= minLength
    requires forall j :: i < j < |opts| ==> opts[j].code != code
    ensures Last(opts, code, minLength) == Some(opts[i].data)
    decreases |opts|
  {
    if i < |opts| - 1 { LastIs(opts[..|opts| - 1], code, minLength, i); }
  }
}
