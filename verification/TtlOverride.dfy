/** TTL override of frames sent upstream. */
module TtlOverride {
  import opened Words
  import opened Checksum
  import opened Frame

  const TTL_AT: nat := 22
  const CHECKSUM_AT: nat := 24

  predicate Applies(frame: seq<byte>, ttl: byte) { ttl > 0 && IsIpv4(frame) }

  /** The frame with the TTL replaced and the header checksum updated by the difference. */
  function Overridden(frame: seq<byte>, ttl: byte): (r: seq<byte>)
    ensures |r| == |frame|
  {
    if !Applies(frame, ttl) then frame
    else
      var c := Incremental(Le16(frame[24], frame[25]), Le16(frame[22], frame[23]), Le16(ttl, frame[23]));
      frame[TTL_AT := ttl][CHECKSUM_AT := c % 0x100][CHECKSUM_AT + 1 := c / 0x100]
  }

  method Override(frame: array<byte>, ttl: byte)
    modifies frame
    ensures frame[..] == Overridden(old(frame[..]), ttl)
  {
    if ttl > 0 && frame.Length >= ETHERNET_LENGTH + MIN_IP_LENGTH {
      if frame[12] == 0x08 && frame[13] == 0x00 {
        if frame[14] / 16 == 4 {
          var oldTtlProto := Le16(frame[TTL_AT], frame[TTL_AT + 1]);
          frame[TTL_AT] := ttl;
          var newTtlProto := Le16(frame[TTL_AT], frame[TTL_AT + 1]);
          var start: u32 := Complement(Le16(frame[CHECKSUM_AT], frame[CHECKSUM_AT + 1]));
          start := start + Complement(oldTtlProto);
          start := start + newTtlProto;
          var sum := FoldLoop(start);
          var c := Complement(sum);
          frame[CHECKSUM_AT], frame[CHECKSUM_AT + 1] := c % 0x100, c / 0x100;
        }
      }
    }
  }

  /** The words of the whole IP header, options included. */
  function HeaderSum(frame: seq<byte>): nat
    requires IsIpv4(frame) && ETHERNET_LENGTH + IpHeaderLength(frame) <= |frame|
  {
    WordSum(frame[ETHERNET_LENGTH..ETHERNET_LENGTH + IpHeaderLength(frame)])
  }

  /** Nothing but the TTL and the checksum changes, and the TTL becomes the configured one. */
  lemma OnlyTtlAndChecksumChange(frame: seq<byte>, ttl: byte)
    ensures var r := Overridden(frame, ttl);
      && (forall i :: 0 <= i < |frame| && i !in {TTL_AT, CHECKSUM_AT, CHECKSUM_AT + 1} ==> r[i] == frame[i])
      && (Applies(frame, ttl) ==> r[TTL_AT] == ttl)
  {
  }

  /** The rewrite seen from the IP header. */
  function Rewritten(h: seq<byte>, ttl: byte): (r: seq<byte>)
    requires |h| >= MIN_IP_LENGTH
    ensures |r| == |h|
  {
    WithWord(h[8 := ttl], 10, Incremental(Le16(h[10], h[11]), Le16(h[8], h[9]), Le16(ttl, h[9])))
  }

  /** A word stored as the CPU does. */
  function WithWord(h: seq<byte>, k: nat, c: u16): (r: seq<byte>)
    requires k + 1 < |h|
    ensures |r| == |h|
  {
    h[k := c % 0x100][k + 1 := c / 0x100]
  }

  lemma WithWordSum(h: seq<byte>, k: nat, c: u16)
    requires k + 1 < |h| && k % 2 == 0
    ensures WordSum(WithWord(h, k, c)) == WordSum(h) + c - Le16(h[k], h[k + 1])
  {
    hide WordSum, Le16;
    WordSumUpdatePair(h, k, c % 0x100, c / 0x100);
    Le16Of(c);
  }

  lemma WithTtlSum(h: seq<byte>, ttl: byte)
    requires |h| >= MIN_IP_LENGTH
    ensures WordSum(h[8 := ttl]) == WordSum(h) + Le16(ttl, h[9]) - Le16(h[8], h[9])
  {
    hide WordSum;
    WordSumUpdate(h, 8, ttl);
  }

  lemma StoredSum(h: seq<byte>, ttl: byte, c: u16)
    requires |h| >= MIN_IP_LENGTH && c == Incremental(Le16(h[10], h[11]), Le16(h[8], h[9]), Le16(ttl, h[9]))
    ensures WordSum(Rewritten(h, ttl)) == WordSum(h) + Le16(ttl, h[9]) - Le16(h[8], h[9]) + c - Le16(h[10], h[11])
  {
    hide WordSum, WithWord, Le16, Incremental;
    WithTtlSum(h, ttl);
    WithWordSum(h[8 := ttl], 10, c);
  }

  lemma RewrittenSum(h: seq<byte>, ttl: byte, hc: u16, m: u16, m': u16)
    requires |h| >= MIN_IP_LENGTH && hc == Le16(h[10], h[11]) && m == Le16(h[8], h[9]) && m' == Le16(ttl, h[9])
    ensures Congruent(WordSum(Rewritten(h, ttl)), WordSum(h))
  {
    hide *;
    StoredSum(h, ttl, Incremental(hc, m, m'));
    IncrementalCongruent(hc, m, m');
    Balanced(WordSum(h), WordSum(Rewritten(h, ttl)), hc, Incremental(hc, m, m'), m, m');
  }

  lemma HeaderSumAfter(frame: seq<byte>, ttl: byte)
    requires Applies(frame, ttl)
    requires MIN_IP_LENGTH <= IpHeaderLength(frame) <= |frame| - ETHERNET_LENGTH
    ensures var r := Overridden(frame, ttl);
      && IsIpv4(r) && IpHeaderLength(r) == IpHeaderLength(frame)
      && HeaderSum(r) > 0 && HeaderSum(frame) > 0
      && Congruent(HeaderSum(r), HeaderSum(frame))
  {
    hide Incremental, WordSum, Le16, Congruent;
    var end := ETHERNET_LENGTH + IpHeaderLength(frame);
    var h := frame[ETHERNET_LENGTH..end];
    assert Overridden(frame, ttl)[ETHERNET_LENGTH..end] == Rewritten(h, ttl);
    RewrittenSum(h, ttl, Le16(h[10], h[11]), Le16(h[8], h[9]), Le16(ttl, h[9]));
    WordSumAtLeast(h, 0);
    WordSumAtLeast(Rewritten(h, ttl), 0);
  }

  lemma Balanced(before: int, after: int, hc: u16, c: u16, m: u16, m': u16)
    requires Congruent(c + m', hc + m) && after == before + (m' as int - m) + (c as int - hc)
    ensures Congruent(after, before)
  {
    assert after - before == (c + m') - (hc + m);
  }

  /** The chain's later buffers are not looked at. */
  lemma OverriddenChain(frame: seq<byte>, rest: seq<byte>, ttl: byte)
    requires Applies(frame, ttl)
    ensures Applies(frame + rest, ttl) && Overridden(frame + rest, ttl) == Overridden(frame, ttl) + rest
    ensures IpHeaderLength(frame + rest) == IpHeaderLength(frame)
  {
    hide Incremental, Le16;
  }

  lemma WholeHeaderValidity(frame: seq<byte>, ttl: byte)
    requires Applies(frame, ttl)
    requires MIN_IP_LENGTH <= IpHeaderLength(frame) <= |frame| - ETHERNET_LENGTH
    ensures var r := Overridden(frame, ttl);
      && IsIpv4(r) && IpHeaderLength(r) == IpHeaderLength(frame)
      && (Verifies(HeaderSum(r)) <==> Verifies(HeaderSum(frame)))
      && (Verifies(NetworkSum(r[14..14 + IpHeaderLength(frame)])) <==>
          Verifies(NetworkSum(frame[14..14 + IpHeaderLength(frame)])))
  {
    HeaderSumAfter(frame, ttl);
    var r := Overridden(frame, ttl);
    CongruentVerifies(HeaderSum(r), HeaderSum(frame));
    ByteOrderIndependent(r[14..14 + IpHeaderLength(r)]);
    ByteOrderIndependent(frame[14..14 + IpHeaderLength(frame)]);
  }

  /** A header accepted before is accepted after, and a corrupt header is not repaired: in the CPU's word order and in
      network order, wherever the chain's first buffer ends. */
  lemma OverrideKeepsHeaderValidity(frame: seq<byte>, rest: seq<byte>, ttl: byte)
    requires Applies(frame, ttl)
    requires MIN_IP_LENGTH <= IpHeaderLength(frame) <= |frame| + |rest| - ETHERNET_LENGTH
    ensures var before, after := frame + rest, Overridden(frame, ttl) + rest;
      && IsIpv4(after) && IpHeaderLength(after) == IpHeaderLength(frame)
      && (Verifies(HeaderSum(after)) <==> Verifies(HeaderSum(before)))
      && (Verifies(NetworkSum(after[14..14 + IpHeaderLength(frame)])) <==>
          Verifies(NetworkSum(before[14..14 + IpHeaderLength(frame)])))
  {
    OverriddenChain(frame, rest, ttl);
    hide Overridden, Verifies, WordSum, NetworkSum;
    WholeHeaderValidity(frame + rest, ttl);
  }

  /** From the bytes: with a TTL configured, every frame of type 0x0800 and version 4 whose first buffer has 34 bytes
      gets it, whatever its protocol and length; every other frame stays as it is. */
  lemma OverriddenIff(frame: seq<byte>, ttl: byte)
    ensures ttl != 0 && |frame| >= 34 && frame[12] == 8 && frame[13] == 0 && frame[14] / 16 == 4 ==>
      Applies(frame, ttl) && Overridden(frame, ttl)[22] == ttl
    ensures !(ttl != 0 && |frame| >= 34 && frame[12] == 8 && frame[13] == 0 && frame[14] / 16 == 4) ==>
      Overridden(frame, ttl) == frame
  {
  }
}
