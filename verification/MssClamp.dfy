/** Clamping of the TCP maximum segment size in SYN segments. */
module MssClamp {
  import opened Words
  import opened Wrappers
  import opened Checksum
  import opened Frame

  const MIN_TCP_LENGTH: nat := 20

  /** Offset of the MSS option the scan from `opt` reaches before `end`, if any. */
  function Scan(frame: seq<byte>, opt: nat, end: nat): (r: Option<nat>)
    requires opt <= end <= |frame|
    ensures r.Some? ==> opt <= r.value && r.value + 4 <= end && frame[r.value] == 2 && frame[r.value + 1] == 4
    decreases end - opt
  {
    if opt == end || frame[opt] == 0 then None
    else if frame[opt] == 1 then Scan(frame, opt + 1, end)
    else if opt + 1 >= end then None
    else
      var len := frame[opt + 1];
      if len < 2 || opt + len > end then None
      else if frame[opt] == 2 && len == 4 then Some(opt)
      else Scan(frame, opt + len, end)
  }

  /** An IPv4 TCP segment with SYN set whose header lies in the first buffer. */
  predicate IsSyn(frame: seq<byte>)
  {
    && |frame| >= ETHERNET_LENGTH + MIN_IP_LENGTH + MIN_TCP_LENGTH
    && IsIpv4(frame) && Protocol(frame) == PROTO_TCP
    && TcpAt(frame) + MIN_TCP_LENGTH <= |frame|
    && (frame[TcpAt(frame) + 13] / 2) % 2 == 1
    && MIN_TCP_LENGTH <= TcpHeaderLength(frame) <= |frame| - TcpAt(frame)
  }

  function TcpAt(frame: seq<byte>): nat
    requires IsIpv4(frame)
  {
    ETHERNET_LENGTH + IpHeaderLength(frame)
  }

  function TcpHeaderLength(frame: seq<byte>): nat
    requires IsIpv4(frame) && TcpAt(frame) + MIN_TCP_LENGTH <= |frame|
  {
    4 * (frame[TcpAt(frame) + 12] / 16)
  }

  /** Where the clamp looks: the first MSS option its scan of the segment reaches. */
  function MssOption(frame: seq<byte>): (r: Option<nat>)
    ensures r.Some? ==> IsSyn(frame) && TcpAt(frame) + MIN_TCP_LENGTH <= r.value <= |frame| - 4
    ensures r.Some? ==> r.value + 4 <= TcpAt(frame) + TcpHeaderLength(frame)
  {
    if !IsSyn(frame) then None
    else Scan(frame, TcpAt(frame) + MIN_TCP_LENGTH, TcpAt(frame) + TcpHeaderLength(frame))
  }

  function Mss(frame: seq<byte>, at: nat): u16
    requires at + 4 <= |frame|
  {
    Be16(frame[at + 2], frame[at + 3])
  }

  /** The segment carries an MSS above the limit. */
  predicate Exceeds(frame: seq<byte>, maxMss: u16)
  {
    maxMss != 0 && MssOption(frame).Some? && Mss(frame, MssOption(frame).value) > maxMss
  }

  function Clamped(frame: seq<byte>, maxMss: u16): (r: seq<byte>)
    ensures |r| == |frame|
  {
    if !Exceeds(frame, maxMss) then frame
    else
      var at, sumAt := MssOption(frame).value, TcpAt(frame) + 16;
      var c := Incremental(Le16(frame[sumAt], frame[sumAt + 1]), Le16(frame[at + 2], frame[at + 3]), Swap16(maxMss));
      frame[at + 2 := maxMss / 0x100][at + 3 := maxMss % 0x100][sumAt := c % 0x100][sumAt + 1 := c / 0x100]
  }

  method Clamp(frame: array<byte>, maxMss: u16)
    modifies frame
    ensures frame[..] == Clamped(old(frame[..]), maxMss)
  {
    if maxMss == 0 { return; }
    if frame.Length < ETHERNET_LENGTH + MIN_IP_LENGTH + MIN_TCP_LENGTH { return; }
    ghost var f := frame[..];
    NothingToClamp(f, maxMss);
    hide Clamped, Scan;
    if frame[12] != 0x08 || frame[13] != 0x00 { return; }
    if frame[14] / 16 != 4 || frame[23] != PROTO_TCP { return; }
    var tcp := ETHERNET_LENGTH + 4 * (frame[14] % 16);
    if frame.Length < tcp + MIN_TCP_LENGTH { return; }
    if (frame[tcp + 13] / 2) % 2 != 1 { return; }
    var tcpLength := 4 * (frame[tcp + 12] / 16);
    if tcpLength < MIN_TCP_LENGTH || frame.Length < tcp + tcpLength { return; }
    assert IsSyn(f) && TcpAt(f) == tcp && TcpHeaderLength(f) == tcpLength;
    var opt := ScanOptions(frame, tcp + MIN_TCP_LENGTH, tcp + tcpLength);
    if opt.Some? {
      Rewrite(frame, tcp, opt.value, maxMss);
    }
  }

  lemma NothingToClamp(f: seq<byte>, maxMss: u16)
    ensures !IsSyn(f) ==> Clamped(f, maxMss) == f
    ensures MssOption(f).None? ==> Clamped(f, maxMss) == f
  {
  }

  /** The scan of the option bytes. */
  method ScanOptions(frame: array<byte>, start: nat, end: nat) returns (r: Option<nat>)
    requires start <= end <= frame.Length
    ensures r == Scan(frame[..], start, end)
  {
    var opt := start;
    while opt < end
      invariant start <= opt <= end
      invariant Scan(frame[..], start, end) == Scan(frame[..], opt, end)
      decreases end - opt
    {
      var kind := frame[opt];
      if kind == 0 { break; }
      if kind == 1 { opt := opt + 1; continue; }
      if opt + 1 >= end { break; }
      var len := frame[opt + 1];
      if len < 2 || opt + len > end { break; }
      if kind == 2 && len == 4 { return Some(opt); }
      opt := opt + len;
    }
    r := None;
  }

  /** What the scan does on a match: compare, store and update the checksum. */
  method Rewrite(frame: array<byte>, tcp: nat, opt: nat, maxMss: u16)
    requires maxMss != 0
    requires MssOption(frame[..]) == Some(opt) && tcp == TcpAt(frame[..])
    modifies frame
    ensures frame[..] == Clamped(old(frame[..]), maxMss)
  {
    if Be16(frame[opt + 2], frame[opt + 3]) > maxMss {
      var oldMss := Le16(frame[opt + 2], frame[opt + 3]);
      frame[opt + 2], frame[opt + 3] := maxMss / 0x100, maxMss % 0x100;
      var start: u32 := Complement(Le16(frame[tcp + 16], frame[tcp + 17]));
      start := start + Complement(oldMss);
      start := start + Swap16(maxMss);
      var sum := FoldLoop(start);
      var c := Complement(sum);
      frame[tcp + 16], frame[tcp + 17] := c % 0x100, c / 0x100;
    }
  }

  lemma {:induction false} ScanDependsOn(f: seq<byte>, g: seq<byte>, opt: nat, end: nat)
    requires opt <= end <= |f| == |g|
    requires var at := Scan(f, opt, end);
      forall i :: opt <= i < end && (at.Some? ==> i != at.value + 2 && i != at.value + 3) ==> f[i] == g[i]
    ensures Scan(g, opt, end) == Scan(f, opt, end)
    decreases end - opt
  {
    if opt == end || f[opt] == 0 {
    } else if f[opt] == 1 {
      ScanDependsOn(f, g, opt + 1, end);
    } else if opt + 1 < end {
      var len := f[opt + 1];
      if len < 2 || opt + len > end {
      } else if f[opt] == 2 && len == 4 {
      } else {
        ScanDependsOn(f, g, opt + len, end);
      }
    }
  }

  /** Only the two MSS bytes and the two TCP checksum bytes may change, and the option stays where it was. */
  lemma ClampTouches(frame: seq<byte>, maxMss: u16)
    ensures var r := Clamped(frame, maxMss);
      && MssOption(r) == MssOption(frame)
      && (r != frame ==> Exceeds(frame, maxMss))
      && (Exceeds(frame, maxMss) ==>
          var at, tcp := MssOption(frame).value, TcpAt(frame);
          forall i :: 0 <= i < |frame| && i !in {at + 2, at + 3, tcp + 16, tcp + 17} ==> r[i] == frame[i])
  {
    hide Incremental, Le16, Swap16, Scan;
    if Exceeds(frame, maxMss) {
      var r := Clamped(frame, maxMss);
      var tcp := TcpAt(frame);
      assert r[12] == frame[12] && r[13] == frame[13] && r[14] == frame[14] && r[23] == frame[23];
      assert r[tcp + 12] == frame[tcp + 12] && r[tcp + 13] == frame[tcp + 13];
      assert IsSyn(r);
      ScanDependsOn(frame, r, tcp + MIN_TCP_LENGTH, tcp + TcpHeaderLength(frame));
    }
  }

  /** After clamping the MSS is the smaller of the old value and the limit. */
  lemma ClampLimits(frame: seq<byte>, maxMss: u16)
    requires maxMss != 0 && MssOption(frame).Some?
    ensures var r, at := Clamped(frame, maxMss), MssOption(frame).value;
      MssOption(r) == Some(at) && Mss(r, at) == Min(Mss(frame, at), maxMss)
  {
    ClampTouches(frame, maxMss);
  }

  lemma ClampIsIdempotent(frame: seq<byte>, maxMss: u16)
    ensures Clamped(Clamped(frame, maxMss), maxMss) == Clamped(frame, maxMss)
  {
    ClampTouches(frame, maxMss);
    if maxMss != 0 && MssOption(frame).Some? { ClampLimits(frame, maxMss); }
  }

  /** The TCP segment: the part in the first buffer and the `rest` of the chain, up to the IP total length. */
  function Segment(frame: seq<byte>, rest: seq<byte>): seq<byte>
    requires WellFormed(frame, rest)
  {
    (frame + rest)[TcpAt(frame)..ETHERNET_LENGTH + IpTotalLength(frame)]
  }

  /** The IP header has its fixed part, and the IP total length covers the TCP header and lies in the chain. */
  predicate WellFormed(frame: seq<byte>, rest: seq<byte>)
  {
    && IsSyn(frame) && IpHeaderLength(frame) >= MIN_IP_LENGTH
    && TcpAt(frame) + TcpHeaderLength(frame) <= ETHERNET_LENGTH + IpTotalLength(frame) <= |frame| + |rest|
  }

  /** Pseudo-header of RFC 9293 section 3.1: addresses, protocol and TCP length. */
  function PseudoSum(frame: seq<byte>): (s: nat)
    requires IsIpv4(frame) && IpHeaderLength(frame) <= IpTotalLength(frame)
    ensures s >= PROTO_TCP
  {
    var tcpLength := IpTotalLength(frame) - IpHeaderLength(frame);
    WordSum(frame[26..34]) + Le16(0, PROTO_TCP) + Le16(tcpLength / 0x100, tcpLength % 0x100)
  }

  function TcpSum(frame: seq<byte>, rest: seq<byte>): (s: nat)
    requires WellFormed(frame, rest)
    ensures s > 0
  {
    PseudoSum(frame) + WordSum(Segment(frame, rest))
  }

  /** Is the MSS value at an even offset of the TCP header? */
  predicate Aligned(frame: seq<byte>)
    requires MssOption(frame).Some?
  {
    (MssOption(frame).value - TcpAt(frame)) % 2 == 0
  }

  /** A segment with two bytes at k and the checksum bytes at 16 replaced. */
  function Patched(s: seq<byte>, k: nat, a: byte, b: byte, c: byte, d: byte): seq<byte>
    requires 18 <= k && k + 1 < |s|
  {
    s[k := a][k + 1 := b][16 := c][17 := d]
  }

  lemma PatchedSum(s: seq<byte>, k: nat, mss: u16, c: u16)
    requires 18 <= k && k + 1 < |s|
    ensures var m, m', hc := Le16(s[k], s[k + 1]), Swap16(mss), Le16(s[16], s[17]);
      WordSum(Patched(s, k, mss / 0x100, mss % 0x100, c % 0x100, c / 0x100)) == WordSum(s) + (c as int - hc)
        + (if k % 2 == 0 then m' as int - m else Swap16(m') as int - Swap16(m))
  {
    hide WordSum, Le16, Be16, Swap16;
    var a, b := mss / 0x100, mss % 0x100;
    WordSumUpdatePair(s, k, a, b);
    WordSumUpdatePair(s[k := a][k + 1 := b], 16, c % 0x100, c / 0x100);
    Swap16Le(s[k], s[k + 1]);
    Halves(mss);
    Halves(c);
  }

  lemma SwapTwice(x: u16)
    ensures Swap16(Swap16(x)) == x
  {
    Swap16Le(x / 0x100, x % 0x100);
  }

  lemma Halves(x: u16)
    ensures Le16(x % 0x100, x / 0x100) == x && Le16(x / 0x100, x % 0x100) == Swap16(x)
    ensures Be16(x / 0x100, x % 0x100) == Swap16(Swap16(x))
  {
    Swap16Le(x / 0x100, x % 0x100);
  }

  lemma ClampedSegment(frame: seq<byte>, rest: seq<byte>, maxMss: u16)
    requires WellFormed(frame, rest) && Exceeds(frame, maxMss)
    ensures var r, at, tcp := Clamped(frame, maxMss), MssOption(frame).value, TcpAt(frame);
      var c := Incremental(Le16(frame[tcp + 16], frame[tcp + 17]), Le16(frame[at + 2], frame[at + 3]), Swap16(maxMss));
      && WellFormed(r, rest)
      && PseudoSum(r) == PseudoSum(frame)
      && at + 2 - tcp >= 18 && at + 3 - tcp < |Segment(frame, rest)|
      && Segment(r, rest) == Patched(Segment(frame, rest), at + 2 - tcp, maxMss / 0x100, maxMss % 0x100, c % 0x100,
         c / 0x100)
  {
    hide Incremental, Le16, Swap16, Scan, WordSum;
    ClampTouches(frame, maxMss);
    var r := Clamped(frame, maxMss);
    assert r[26..34] == frame[26..34];
  }

  /** How the TCP words change: the checksum moves by its difference, the MSS by its difference, byte-swapped when
      the value is not aligned to the words. */
  lemma TcpSumAfter(frame: seq<byte>, rest: seq<byte>, maxMss: u16)
    requires WellFormed(frame, rest) && Exceeds(frame, maxMss)
    ensures var r, at, tcp := Clamped(frame, maxMss), MssOption(frame).value, TcpAt(frame);
      var hc, m, m' := Le16(frame[tcp + 16], frame[tcp + 17]), Le16(frame[at + 2], frame[at + 3]), Swap16(maxMss);
      && WellFormed(r, rest)
      && TcpSum(r, rest) == TcpSum(frame, rest) + (Incremental(hc, m, m') as int - hc) +
         (if Aligned(frame) then m' as int - m else Swap16(m') as int - Swap16(m))
  {
    hide Incremental, WordSum, Clamped, WellFormed, PseudoSum, Segment, Le16, Swap16, Scan;
    ClampedSegment(frame, rest, maxMss);
    SegmentFields(frame, rest, maxMss);
    var at, tcp := MssOption(frame).value, TcpAt(frame);
    var c := Incremental(Le16(frame[tcp + 16], frame[tcp + 17]), Le16(frame[at + 2], frame[at + 3]), Swap16(maxMss));
    PatchedSum(Segment(frame, rest), at + 2 - tcp, maxMss, c);
    SameParity(at - tcp);
  }

  lemma SameParity(k: int)
    ensures k % 2 == 0 <==> (k + 2) % 2 == 0
  {
  }

  lemma SegmentFields(frame: seq<byte>, rest: seq<byte>, maxMss: u16)
    requires WellFormed(frame, rest) && Exceeds(frame, maxMss)
    ensures var s, at, tcp := Segment(frame, rest), MssOption(frame).value, TcpAt(frame);
      && at + 4 <= |frame| && at >= tcp + 20 && tcp + 17 < |frame| && at + 3 - tcp < |s|
      && s[16] == frame[tcp + 16] && s[17] == frame[tcp + 17]
      && s[at + 2 - tcp] == frame[at + 2] && s[at + 3 - tcp] == frame[at + 3]
  {
    hide Scan;
  }

  /** A byte swap of a difference d is 256 d modulo 0xFFFF; it agrees with d only for multiples of 257. */
  lemma SwappedDifference(a: u16, b: u16)
    ensures Congruent(a as int - b, Swap16(a) as int - Swap16(b)) <==> (Swap16(a) as int - Swap16(b)) % 257 == 0
  {
    var s: int, t: int := a % 0x100 - b % 0x100, a / 0x100 - b / 0x100;
    assert (a as int - b) - (Swap16(a) as int - Swap16(b)) == 255 * (t - s);
    assert Swap16(a) as int - Swap16(b) == 257 * s + (t - s);
    Times255(t - s);
    Plus257(s, t - s);
  }

  lemma Times255(u: int)
    ensures (255 * u) % 0xFFFF == 0 <==> u % 257 == 0
  {
    var q, e := u / 257, u % 257;
    assert 255 * u == 0xFFFF * q + 255 * e;
  }

  lemma Plus257(t: int, u: int)
    ensures (257 * t + u) % 257 == 0 <==> u % 257 == 0
  {
  }

  /** The clamp's arithmetic: `m` and `m'` are the old and new MSS as the CPU loads them. */
  lemma SumStaysCongruentIff(before: nat, after: nat, hc: u16, m: u16, m': u16, aligned: bool)
    requires after == before + (Incremental(hc, m, m') as int - hc)
                    + (if aligned then m' as int - m else Swap16(m') as int - Swap16(m))
    ensures Congruent(after, before) <==> aligned || (Swap16(m') as int - Swap16(m)) % 257 == 0
  {
    hide Incremental, Swap16;
    IncrementalCongruent(hc, m, m');
    var u: int := Incremental(hc, m, m') as int + m' - (hc as int + m);
    if !aligned {
      AddMultiple(u, (Swap16(m') as int - Swap16(m)) - (m' as int - m));
      SwappedDifference(m', m);
      Negated((m' as int - m) - (Swap16(m') as int - Swap16(m)));
    }
  }

  lemma AddMultiple(u: int, v: int)
    requires u % 0xFFFF == 0
    ensures (u + v) % 0xFFFF == 0 <==> v % 0xFFFF == 0
  {
  }

  lemma Negated(v: int)
    ensures v % 0xFFFF == 0 <==> (-v) % 0xFFFF == 0
  {
  }

  /** The clamp moves the segment's sum by a multiple of 0xFFFF exactly for an aligned value or a lucky one. */
  lemma ClampedSumCongruentIff(frame: seq<byte>, rest: seq<byte>, maxMss: u16)
    requires WellFormed(frame, rest) && Exceeds(frame, maxMss)
    ensures var r := Clamped(frame, maxMss);
      && WellFormed(r, rest)
      && (Congruent(TcpSum(r, rest), TcpSum(frame, rest)) <==>
          Aligned(frame) || (maxMss as int - Mss(frame, MssOption(frame).value)) % 257 == 0)
  {
    hide Incremental, Clamped, TcpSum, Congruent, Scan, Swap16, Le16, Be16;
    TcpSumAfter(frame, rest, maxMss);
    var r, at, tcp := Clamped(frame, maxMss), MssOption(frame).value, TcpAt(frame);
    var m, m' := Le16(frame[at + 2], frame[at + 3]), Swap16(maxMss);
    Swap16Le(frame[at + 2], frame[at + 3]);
    SwapTwice(maxMss);
    SumStaysCongruentIff(TcpSum(frame, rest), TcpSum(r, rest), Le16(frame[tcp + 16], frame[tcp + 17]), m, m',
        Aligned(frame));
  }

  /** A valid TCP checksum stays valid exactly when nothing is clamped, the MSS value is aligned to the checksum's
      words, or the old and new MSS happen to differ by a multiple of 257. */
  lemma ClampKeepsTcpChecksumIff(frame: seq<byte>, rest: seq<byte>, maxMss: u16)
    requires WellFormed(frame, rest) && Verifies(TcpSum(frame, rest))
    ensures var r := Clamped(frame, maxMss);
      && WellFormed(r, rest)
      && (Verifies(TcpSum(r, rest)) <==>
          !Exceeds(frame, maxMss) || Aligned(frame) || (maxMss as int - Mss(frame, MssOption(frame).value)) % 257 == 0)
  {
    if Exceeds(frame, maxMss) {
      ClampedSumCongruentIff(frame, rest, maxMss);
      CongruentVerifies(TcpSum(Clamped(frame, maxMss), rest), TcpSum(frame, rest));
    }
  }

  /** A SYN whose MSS option follows one NOP, with MSS 1460 and a valid checksum. */
  const NOP_THEN_MSS: seq<byte> :=
    [0, 0, 0, 0, 0, 0, 0, 0, 0, 0, 0, 0, 0x08, 0x00] +
    [0x45, 0, 0, 48, 0, 0, 0, 0, 64, 6, 0, 0, 0, 0, 0, 0, 0, 0, 0, 0] + TCP_PART

  const TCP_PART: seq<byte> :=
    [0, 0, 0, 0, 0, 0, 0, 0, 0, 0, 0, 0, 0x70, 0x02, 0, 0, 0xD6, 0xD3, 0, 0, 1, 2, 4, 0x05, 0xB4, 0, 0, 0]

  /** Misalignment does break checksums: the segment above no longer verifies once clamped to 1400. */
  lemma MisalignedClampBreaksChecksum(f: seq<byte>)
    requires f == NOP_THEN_MSS
    ensures WellFormed(f, []) && Verifies(TcpSum(f, [])) && Exceeds(f, 1400)
    ensures WellFormed(Clamped(f, 1400), []) && !Verifies(TcpSum(Clamped(f, 1400), []))
  {
    hide MssOption, Mss, TcpAt, TcpSum, WellFormed, Verifies, Clamped;
    ExampleBytes(f);
    ExampleOption(f);
    ExampleSum(f);
    BrokenByClamp(f, 1400);
  }

  lemma BrokenByClamp(frame: seq<byte>, maxMss: u16)
    requires WellFormed(frame, []) && TcpSum(frame, []) == 0xFFFF
    requires Exceeds(frame, maxMss) && !Aligned(frame)
    requires (maxMss as int - Mss(frame, MssOption(frame).value)) % 257 != 0
    ensures Verifies(TcpSum(frame, []))
    ensures WellFormed(Clamped(frame, maxMss), []) && !Verifies(TcpSum(Clamped(frame, maxMss), []))
  {
    ClampKeepsTcpChecksumIff(frame, [], maxMss);
  }

  /** What the proof needs to know about the segment. */
  ghost predicate ExampleLike(f: seq<byte>)
  {
    && |f| == 62 && f[12] == 0x08 && f[13] == 0 && f[14] == 0x45 && f[16] == 0 && f[17] == 48 && f[23] == 6
    && f[46] == 0x70 && f[47] == 0x02
    && f[54] == 1 && f[55] == 2 && f[56] == 4 && f[57] == 0x05 && f[58] == 0xB4
    && f[26..34] == seq(8, _ => 0)
    && f[34..62] == seq(12, _ => 0) + ExampleTail()
  }

  lemma ExampleBytes(f: seq<byte>)
    requires f == NOP_THEN_MSS
    ensures ExampleLike(f)
  {
    assert f[34..62] == TCP_PART;
    ExampleTcpPart();
  }

  function ExampleTail(): seq<byte>
  {
    [0x70, 0x02] + ([0, 0] + ([0xD6, 0xD3] + ([0, 0] + ([1, 2] + ([4, 0x05] + ([0xB4, 0] + [0, 0]))))))
  }

  lemma ExampleTcpPart()
    ensures TCP_PART == seq(12, _ => 0) + ExampleTail()
  {
    assert ExampleTail() == [0x70, 0x02, 0, 0, 0xD6, 0xD3, 0, 0, 1, 2, 4, 0x05, 0xB4, 0, 0, 0];
  }

  lemma ExampleOption(f: seq<byte>)
    requires ExampleLike(f)
    ensures WellFormed(f, []) && MssOption(f) == Some(55) && Mss(f, 55) == 1460 && TcpAt(f) == 34
  {
    hide ExampleTail;
    assert Scan(f, 54, 62) == Scan(f, 55, 62) == Some(55);
  }

  lemma ExampleSum(f: seq<byte>)
    requires ExampleLike(f) && WellFormed(f, [])
    ensures TcpSum(f, []) == 0xFFFF
  {
    hide ExampleTail, WordSum, WellFormed;
    assert (f + [])[34..62] == f[34..62];
    Zeros(12);
    Zeros(8);
    ExampleTailSum();
    WordSumAppend(seq(12, _ => 0), ExampleTail());
  }

  lemma ExampleTailSum()
    ensures WordSum(ExampleTail()) == 56831
  {
    var options := [1, 2] + ([4, 0x05] + ([0xB4, 0] + [0, 0]));
    WordSumCons(0x70, 0x02, [0, 0] + ([0xD6, 0xD3] + ([0, 0] + options)));
    WordSumCons(0, 0, [0xD6, 0xD3] + ([0, 0] + options));
    WordSumCons(0xD6, 0xD3, [0, 0] + options);
    WordSumCons(0, 0, options);
    WordSumCons(1, 2, [4, 0x05] + ([0xB4, 0] + [0, 0]));
    WordSumCons(4, 0x05, [0xB4, 0] + [0, 0]);
    WordSumCons(0xB4, 0, [0, 0]);
    Zeros(2);
    assert [0, 0] == seq(2, _ => 0);
  }

  lemma {:induction false} Zeros(n: nat)
    ensures WordSum(seq(n, _ => 0)) == 0
  {
    if n >= 2 {
      assert seq(n, _ => 0)[2..] == seq(n - 2, _ => 0);
      Zeros(n - 2);
    }
  }

  lemma WordSumCons(a: byte, b: byte, rest: seq<byte>)
    ensures WordSum([a, b] + rest) == Le16(a, b) + WordSum(rest)
  {
    assert ([a, b] + rest)[2..] == rest;
  }
}
