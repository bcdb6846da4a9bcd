/** Which frames the MSS clamp rewrites, from their parts and from their bytes. */
module MssFrames {
  import opened Words
  import opened Wrappers
  import opened Frame
  import opened MssClamp

  /** A TCP option before the one of interest: a NOP, or any kind with its data. */
  datatype TcpOption = Nop | Other(kind: byte, data: seq<byte>)

  /** No end of list (0) and no MSS option (2) of the proper length in disguise. */
  predicate WellFormed(options: seq<TcpOption>)
  {
    forall i :: 0 <= i < |options| && options[i].Other? ==>
      && options[i].kind != 0 && options[i].kind != 1 && |options[i].data| <= 253
      && !(options[i].kind == 2 && |options[i].data| == 2)
  }

  function Bytes(options: seq<TcpOption>): seq<byte>
  {
    if options == [] then []
    else OptionBytes(options[0]) + Bytes(options[1..])
  }

  function OptionBytes(o: TcpOption): seq<byte>
  {
    if o.Nop? then [1] else [o.kind, (2 + |o.data|) % 256] + o.data
  }

  lemma ScanNop(f: seq<byte>, at: nat, end: nat)
    requires at < end <= |f| && f[at] == 1
    ensures Scan(f, at, end) == Scan(f, at + 1, end)
  {
  }

  lemma ScanOther(f: seq<byte>, at: nat, end: nat)
    requires at + 2 <= end <= |f| && f[at] != 0 && f[at] != 1 && !(f[at] == 2 && f[at + 1] == 4)
    requires 2 <= f[at + 1] as int <= end - at
    ensures Scan(f, at, end) == Scan(f, at + f[at + 1], end)
  {
  }

  lemma OptionAt(before: seq<byte>, o: TcpOption, after: seq<byte>)
    requires WellFormed([o])
    ensures var f := before + OptionBytes(o) + after;
      if o.Nop? then f[|before|] == 1 && |OptionBytes(o)| == 1
      else f[|before|] == o.kind && f[|before| + 1] == 2 + |o.data| == |OptionBytes(o)|
  {
    assert [o][0] == o;
  }

  /** The scan goes over one well-formed option. */
  lemma ScanOver(before: seq<byte>, o: TcpOption, after: seq<byte>, end: nat)
    requires WellFormed([o])
    requires var next := |before + OptionBytes(o)|; next <= end <= |before + OptionBytes(o) + after|
    ensures var f := before + OptionBytes(o) + after;
      Scan(f, |before|, end) == Scan(f, |before + OptionBytes(o)|, end)
  {
    hide Scan, OptionBytes;
    var f := before + OptionBytes(o) + after;
    assert [o][0] == o;
    OptionAt(before, o, after);
    if o.Nop? {
      ScanNop(f, |before|, end);
    } else {
      ScanOther(f, |before|, end);
    }
  }

  lemma {:induction false} ScanOverAll(before: seq<byte>, options: seq<TcpOption>, after: seq<byte>, end: nat)
    requires WellFormed(options)
    requires |before + Bytes(options)| <= end <= |before + Bytes(options) + after|
    ensures var f := before + Bytes(options) + after;
      Scan(f, |before|, end) == Scan(f, |before + Bytes(options)|, end)
    decreases |options|
  {
    hide Scan, OptionBytes;
    if options != [] {
      var first, tail := OptionBytes(options[0]), Bytes(options[1..]);
      assert before + Bytes(options) + after == before + first + (tail + after);
      assert before + Bytes(options) + after == (before + first) + tail + after;
      assert before + Bytes(options) == (before + first) + tail;
      assert [options[0]][0] == options[0];
      ScanOver(before, options[0], tail + after, end);
      ScanOverAll(before + first, options[1..], after, end);
    }
  }

  /** An Ethernet frame with an IPv4 header and a TCP header. `ip` and `tcp` are the headers, `tcp` without options. */
  datatype Parts = Parts(macs: seq<byte>, ip: seq<byte>, tcp: seq<byte>, options: seq<TcpOption>, tail: seq<byte>)

  function FrameOf(p: Parts): seq<byte> { HeadersOf(p) + Bytes(p.options) + p.tail }

  function HeadersOf(p: Parts): seq<byte> { p.macs + [8, 0] + p.ip + p.tcp }

  /** IPv4 with a header of 5 to 15 words, carrying TCP, whose header of `words` words ends in the buffer. */
  predicate IsTcp(p: Parts, words: nat)
  {
    && |p.macs| == 12 && |p.tcp| == 20 && WellFormed(p.options)
    && |p.ip| >= 20 && |p.ip| == 4 * (p.ip[0] % 16) && p.ip[0] / 16 == 4 && p.ip[9] == 6
    && p.tcp[12] / 16 == words && 20 + |Bytes(p.options)| <= 4 * words <= 20 + |Bytes(p.options)| + |p.tail|
  }

  predicate HasSyn(p: Parts)
    requires |p.tcp| == 20
  {
    (p.tcp[13] / 2) % 2 == 1
  }

  lemma HeaderBytes(p: Parts, words: nat)
    requires IsTcp(p, words)
    ensures var f, tcp := FrameOf(p), 14 + |p.ip|;
      && |f| >= tcp + 4 * words && |HeadersOf(p)| == tcp + 20
      && f[12] == 8 && f[13] == 0 && f[14] / 16 == 4 && f[14] % 16 == p.ip[0] % 16 && f[23] == 6
      && f[tcp + 12] / 16 == words && f[tcp + 13] == p.tcp[13]
  {
    hide Bytes;
    var f := FrameOf(p);
    assert f[14] == p.ip[0] && f[23] == p.ip[9];
  }

  lemma SynOptionIs(p: Parts, words: nat)
    requires IsTcp(p, words)
    ensures var f, at := FrameOf(p), |HeadersOf(p) + Bytes(p.options)|;
      && at <= |f| && |HeadersOf(p)| == 14 + |p.ip| + 20 && at <= 14 + |p.ip| + 4 * words <= |f|
      && IsIpv4(f) && TcpAt(f) == 14 + |p.ip|
      && (IsSyn(f) <==> HasSyn(p))
      && (HasSyn(p) ==> MssOption(f) == Scan(f, at, 14 + |p.ip| + 4 * words))
      && (!HasSyn(p) ==> MssOption(f) == None)
  {
    hide Scan, Bytes;
    HeaderBytes(p, words);
    ScanOverAll(HeadersOf(p), p.options, p.tail, 14 + |p.ip| + 4 * words);
  }

  /** What becomes of the MSS at `at`: the smaller of it and the limit; all other bytes but the checksum stay. */
  predicate LimitedAt(f: seq<byte>, r: seq<byte>, at: nat, tcp: nat, maxMss: u16)
    requires at + 4 <= |f| && tcp + 18 <= |f|
  {
    && |r| == |f|
    && Be16(r[at + 2], r[at + 3])
       == (if Be16(f[at + 2], f[at + 3]) > maxMss then maxMss else Be16(f[at + 2], f[at + 3]))
    && (forall i :: 0 <= i < |f| && i != at + 2 && i != at + 3 && i != tcp + 16 && i != tcp + 17 ==> r[i] == f[i])
    && (Be16(f[at + 2], f[at + 3]) <= maxMss ==> r == f)
  }

  /** Every SYN, with any other flags and header lengths: the MSS option (2, 4) behind any NOPs and other options
      is found and limited. */
  lemma SynIsClamped(p: Parts, words: nat, maxMss: u16)
    requires IsTcp(p, words) && HasSyn(p) && maxMss != 0
    requires |p.tail| >= 4 && p.tail[0] == 2 && p.tail[1] == 4 && 24 + |Bytes(p.options)| <= 4 * words
    ensures var f, at := FrameOf(p), 14 + |p.ip| + 20 + |Bytes(p.options)|;
      && at + 4 <= |f| && f[at..at + 4] == p.tail[..4]
      && LimitedAt(f, Clamped(f, maxMss), at, 14 + |p.ip|, maxMss)
  {
    hide Clamped, LimitedAt, Bytes, Scan, MssOption, IsTcp, IsSyn;
    var f, at := FrameOf(p), 14 + |p.ip| + 20 + |Bytes(p.options)|;
    SynOptionIs(p, words);
    TailAt(p, at);
    TailBytes(f, at, p.tail);
    FoundHere(f, at, 14 + |p.ip| + 4 * words);
    LimitsOption(f, at, maxMss);
  }

  lemma TailAt(p: Parts, at: nat)
    requires at == |HeadersOf(p) + Bytes(p.options)| && |p.tail| >= 4
    ensures at + 4 <= |FrameOf(p)| && FrameOf(p)[at..at + 4] == p.tail[..4]
  {
    hide HeadersOf, Bytes;
  }

  lemma FoundHere(f: seq<byte>, at: nat, end: nat)
    requires at + 4 <= end <= |f| && f[at] == 2 && f[at + 1] == 4
    ensures Scan(f, at, end) == Some(at)
  {
  }

  lemma TailBytes(f: seq<byte>, at: nat, tail: seq<byte>)
    requires at + 4 <= |f| && |tail| >= 4 && f[at..at + 4] == tail[..4]
    ensures f[at] == tail[0] && f[at + 1] == tail[1]
  {
    assert f[at..at + 4][0] == tail[..4][0] && f[at..at + 4][1] == tail[..4][1];
  }

  lemma LimitsOption(f: seq<byte>, at: nat, maxMss: u16)
    requires MssOption(f) == Some(at) && maxMss != 0
    ensures LimitedAt(f, Clamped(f, maxMss), at, TcpAt(f), maxMss)
  {
    hide MssOption;
    ClampTouches(f, maxMss);
    ClampLimits(f, maxMss);
  }

  /** What ends the search for an MSS option: the end of the header, the end of the list (0), or an option whose
      length is below 2 or reaches beyond the header. `room` is what the header has left. */
  predicate SearchEnds(tail: seq<byte>, room: nat)
    requires room <= |tail|
  {
    room == 0 || tail[0] == 0 || (tail[0] != 1 && (room == 1 || tail[1] < 2 || tail[1] as int > room))
  }

  /** A SYN without an MSS option before its options end, and every segment without SYN, stays as it is. */
  lemma OthersStay(p: Parts, words: nat, maxMss: u16)
    requires IsTcp(p, words)
    requires HasSyn(p) ==> SearchEnds(p.tail, 4 * words - 20 - |Bytes(p.options)|)
    ensures Clamped(FrameOf(p), maxMss) == FrameOf(p)
  {
    SynOptionIs(p, words);
    if HasSyn(p) { ScanEnds(HeadersOf(p) + Bytes(p.options), p.tail, 14 + |p.ip| + 4 * words); }
  }

  lemma ScanEnds(front: seq<byte>, tail: seq<byte>, end: nat)
    requires |front| <= end <= |front + tail| && SearchEnds(tail, end - |front|)
    ensures Scan(front + tail, |front|, end) == None
  {
    var f := front + tail;
    assert forall i :: 0 <= i < |tail| ==> f[|front| + i] == tail[i];
  }

  /** No IPv4, no TCP, no SYN bit, or too short for the headers: nothing changes. A limit of 0 switches the clamp
      off. */
  lemma NotASynStays(f: seq<byte>, maxMss: u16)
    requires maxMss == 0 || |f| < 54 || f[12] != 8 || f[13] != 0 || f[14] / 16 != 4 || f[23] != 6
      || (var tcp := 14 + 4 * (f[14] % 16);
          |f| < tcp + 20 || (f[tcp + 13] / 2) % 2 == 0 || f[tcp + 12] / 16 < 5 || |f| < tcp + 4 * (f[tcp + 12] / 16))
    ensures Clamped(f, maxMss) == f
  {
  }
}
