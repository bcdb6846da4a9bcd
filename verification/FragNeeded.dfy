/** ICMP "fragmentation needed" replies, RFC 1191 section 4. */
module FragNeeded {
  import opened Words
  import opened Wrappers
  import opened Checksum
  import opened Frame

  const MAX_QUOTED_DATA: nat := 8
  const ICMP_AT: nat := ETHERNET_LENGTH + MIN_IP_LENGTH
  const QUOTE_AT: nat := ICMP_AT + 8

  /** `behind` is what memory holds after the first buffer's bytes. The original header is copied without comparing its
      length with the buffer's, so the copy can reach up to 40 bytes into it. */
  predicate Behind(behind: seq<byte>) { |behind| >= 40 }

  predicate DontFragment(frame: seq<byte>)
    requires IsIpv4(frame)
  {
    (Be16(frame[20], frame[21]) / 0x4000) % 2 == 1
  }

  function FragmentOffset(frame: seq<byte>): nat
    requires IsIpv4(frame)
  {
    Be16(frame[20], frame[21]) % 0x2000
  }

  /** A packet too big for the path that asked not to be fragmented, and is no ICMP and no later fragment. */
  predicate Triggers(frame: seq<byte>, mtu: u16)
  {
    && |frame| >= ICMP_AT && IsIpv4(frame)
    && IpTotalLength(frame) > mtu
    && DontFragment(frame) && FragmentOffset(frame) == 0
    && Protocol(frame) != PROTO_ICMP
    && IpHeaderLength(frame) >= MIN_IP_LENGTH
  }

  /** How many bytes after the original IP header are quoted. */
  function QuotedData(frame: seq<byte>): nat
    requires IsIpv4(frame)
  {
    var start := ETHERNET_LENGTH + IpHeaderLength(frame);
    if |frame| > start then Min(|frame| - start, MAX_QUOTED_DATA) else 0
  }

  function WithChecksum(b: seq<byte>, k: nat): (r: seq<byte>)
    requires k + 1 < |b|
    ensures |r| == |b|
  {
    var c := InetChksum(b);
    b[k := c % 0x100][k + 1 := c / 0x100]
  }

  function IpHeader(length: u16, source: seq<byte>, destination: seq<byte>): (r: seq<byte>)
    ensures |r| == 12 + |source| + |destination|
  {
    [0x45, 0, length / 0x100, length % 0x100, 0, 0, 0, 0, 64, PROTO_ICMP, 0, 0] + source + destination
  }

  function Icmp(mtu: u16, quote: seq<byte>): (r: seq<byte>)
    ensures |r| == 8 + |quote|
  {
    [3, 4, 0, 0, 0, 0, mtu / 0x100, mtu % 0x100] + quote
  }

  /** What is quoted: the original header and the data after it, as far as the first buffer has it. */
  function Quote(frame: seq<byte>, behind: seq<byte>): (r: seq<byte>)
    requires Behind(behind) && IsIpv4(frame)
    ensures |r| == IpHeaderLength(frame) + QuotedData(frame)
  {
    (frame + behind)[ETHERNET_LENGTH..ETHERNET_LENGTH + IpHeaderLength(frame) + QuotedData(frame)]
  }

  function Reply(frame: seq<byte>, behind: seq<byte>, apIp: seq<byte>, mtu: u16): Option<seq<byte>>
    requires Behind(behind) && |apIp| == 4
  {
    if !Triggers(frame, mtu) then None
    else
      var quote := Quote(frame, behind);
      Some(frame[6..12] + frame[..6] + [0x08, 0x00]
           + WithChecksum(IpHeader(28 + |quote|, apIp, frame[26..30]), 10)
           + WithChecksum(Icmp(mtu, quote), 2))
  }

  /** `memcpy` into the reply, behind the bytes `done`. */
  method Append(buf: array<byte>, at: nat, bytes: seq<byte>, ghost done: seq<byte>)
    requires |done| == at && at + |bytes| <= buf.Length && buf[..at] == done
    modifies buf
    ensures buf[..at + |bytes|] == done + bytes
  {
    forall i | 0 <= i < |bytes| {
      buf[at + i] := bytes[i];
    }
  }

  method BuildReply(frame: seq<byte>, behind: seq<byte>, apIp: seq<byte>, mtu: u16) returns (resp: array?<byte>)
    requires Behind(behind) && |apIp| == 4
    ensures Reply(frame, behind, apIp, mtu) == if resp == null then None else Some(resp[..])
  {
    resp := null;
    if |frame| < ICMP_AT { return; }
    if frame[12] != 0x08 || frame[13] != 0x00 || frame[14] / 16 != 4 { return; }
    if Be16(frame[16], frame[17]) <= mtu { return; }
    var flagsOffset := Be16(frame[20], frame[21]);
    if (flagsOffset / 0x4000) % 2 != 1 || flagsOffset % 0x2000 != 0 { return; }
    if frame[23] == PROTO_ICMP { return; }
    var headerLength: nat := 4 * (frame[14] % 16);
    if headerLength < 20 || headerLength > 60 { return; }
    var available: nat := if |frame| > 14 + headerLength then |frame| - 14 - headerLength else 0;
    if available > 8 { available := 8; }
    var icmpTotal := 4 + (4 + headerLength + available);
    var ipLength := 20 + icmpTotal;
    var memory := frame + behind;
    assert memory[6..12] == frame[6..12] && memory[..6] == frame[..6] && memory[26..30] == frame[26..30];
    resp := Fill(memory, apIp, mtu, headerLength, available, ipLength);
    JoinSlices(memory, 14, 14 + headerLength, 14 + headerLength + available);
  }

  lemma JoinSlices(s: seq<byte>, i: nat, j: nat, k: nat)
    requires i <= j <= k <= |s|
    ensures s[i..j] + s[j..k] == s[i..k]
  {
  }

  /** Computes the checksum of the block behind `done` and stores it at offset k of that block. */
  method PutChecksum(buf: array<byte>, from: nat, to: nat, k: nat, ghost done: seq<byte>, ghost block: seq<byte>)
    requires from + k + 1 < to <= buf.Length && |done| == from && |block| == to - from && buf[..to] == done + block
    modifies buf
    ensures buf[..to] == done + WithChecksum(block, k)
  {
    SplitAt(buf[..to], done, block);
    assert buf[from..to] == buf[..to][from..];
    var c := InetChksum(buf[from..to]);
    buf[from + k], buf[from + k + 1] := c % 0x100, c / 0x100;
    assert buf[..to] == done + WithChecksum(block, k);
  }

  lemma SplitAt(s: seq<byte>, a: seq<byte>, b: seq<byte>)
    requires s == a + b
    ensures s[..|a|] == a && s[|a|..] == b
  {
  }

  method FillHeaders(buf: array<byte>, payload: seq<byte>, apIp: seq<byte>, ipLength: u16)
    requires |apIp| == 4 && |payload| >= 30 && buf.Length >= 34
    modifies buf
    ensures buf[..34] == payload[6..12] + payload[..6] + [0x08, 0x00]
      + WithChecksum(IpHeader(ipLength, apIp, payload[26..30]), 10)
  {
    hide IpHeader, WithChecksum;
    ghost var ethernet := payload[6..12] + payload[..6];
    Append(buf, 0, payload[6..12], []);
    Append(buf, 6, payload[..6], payload[6..12]);
    Append(buf, 12, [0x08, 0x00], ethernet);
    ethernet := ethernet + [0x08, 0x00];
    Append(buf, 14, IpHeader(ipLength, apIp, payload[26..30]), ethernet);
    PutChecksum(buf, 14, 34, 10, ethernet, IpHeader(ipLength, apIp, payload[26..30]));
  }

  method FillIcmp(buf: array<byte>, header: seq<byte>, data: seq<byte>, mtu: u16, ghost done: seq<byte>)
    requires buf.Length == 42 + |header| + |data| && |done| == 34 && buf[..34] == done
    modifies buf
    ensures buf[..] == done + WithChecksum(Icmp(mtu, header + data), 2)
  {
    hide WithChecksum;
    var fixed: seq<byte> := [3, 4, 0, 0, 0, 0, mtu / 0x100, mtu % 0x100];
    Append(buf, 34, fixed, done);
    Append(buf, 42, header, done + fixed);
    Append(buf, 42 + |header|, data, done + fixed + header);
    IcmpParts(done, fixed, header, data, mtu);
    assert buf[..buf.Length] == buf[..];
    PutChecksum(buf, 34, buf.Length, 2, done, Icmp(mtu, header + data));
    assert buf[..buf.Length] == buf[..];
  }

  lemma IcmpParts(done: seq<byte>, fixed: seq<byte>, header: seq<byte>, data: seq<byte>, mtu: u16)
    requires fixed == [3, 4, 0, 0, 0, 0, mtu / 0x100, mtu % 0x100]
    ensures done + fixed + header + data == done + Icmp(mtu, header + data)
  {
  }

  method Fill(payload: seq<byte>, apIp: seq<byte>, mtu: u16, headerLength: nat, available: nat, ipLength: u16)
    returns (buf: array<byte>)
    requires |apIp| == 4 && 34 <= 14 + headerLength + available <= |payload|
    requires ipLength == 28 + headerLength + available
    ensures buf[..] == payload[6..12] + payload[..6] + [0x08, 0x00]
      + WithChecksum(IpHeader(ipLength, apIp, payload[26..30]), 10)
      + WithChecksum(Icmp(mtu, payload[14..14 + headerLength]
          + payload[14 + headerLength..14 + headerLength + available]), 2)
  {
    hide WithChecksum, IpHeader, Icmp;
    buf := new byte[14 + ipLength](_ => 0);
    FillHeaders(buf, payload, apIp, ipLength);
    FillIcmp(buf, payload[14..14 + headerLength], payload[14 + headerLength..14 + headerLength + available], mtu,
        buf[..34]);
  }

  lemma ChecksummedVerifies(b: seq<byte>, k: nat)
    requires k % 2 == 0 && 2 <= k && k + 1 < |b|
    requires b[k] == 0 && b[k + 1] == 0 && b[0] > 0
    ensures Verifies(WordSum(WithChecksum(b, k)))
  {
    WordSumAtLeast(b, 0);
    StoredChecksumVerifies(b, k);
  }

  /** Every reply is well formed: lengths add up, both checksums verify, the MTU decodes to the given one, and the quote
      follows, sent back to where the packet came from. */
  lemma ReplyIsWellFormed(frame: seq<byte>, behind: seq<byte>, apIp: seq<byte>, mtu: u16)
    requires Behind(behind) && |apIp| == 4
    requires Triggers(frame, mtu)
    ensures Reply(frame, behind, apIp, mtu).Some?
    ensures var f := Reply(frame, behind, apIp, mtu).value;
      && |f| >= QUOTE_AT && IsIpv4(f) && IpHeaderLength(f) == MIN_IP_LENGTH && Protocol(f) == PROTO_ICMP
      && ETHERNET_LENGTH + IpTotalLength(f) == |f|
      && f[..6] == frame[6..12] && f[6..12] == frame[..6]
      && f[26..30] == apIp && f[30..34] == frame[26..30]
      && Verifies(WordSum(f[ETHERNET_LENGTH..ICMP_AT])) && Verifies(WordSum(f[ICMP_AT..]))
      && f[ICMP_AT] == 3 && f[ICMP_AT + 1] == 4 && Be16(f[40], f[41]) == mtu
      && f[QUOTE_AT..] == Quote(frame, behind)
  {
    hide WithChecksum, IpHeader, Icmp, Verifies, WordSum, Quote;
    var f, quote := Reply(frame, behind, apIp, mtu).value, Quote(frame, behind);
    HeaderFields(28 + |quote|, apIp, frame[26..30]);
    IcmpFields(mtu, quote);
    var ethernet: seq<byte> := frame[6..12] + frame[..6] + [0x08, 0x00];
    Slices(f, ethernet, WithChecksum(IpHeader(28 + |quote|, apIp, frame[26..30]), 10),
        WithChecksum(Icmp(mtu, quote), 2));
    assert f[..6] == ethernet[..6] && f[6..12] == ethernet[6..12];
    assert f[26..30] == f[14..34][12..16] && f[30..34] == f[14..34][16..20];
    assert f[42..] == f[34..][8..];
  }

  lemma Slices(s: seq<byte>, a: seq<byte>, b: seq<byte>, c: seq<byte>)
    requires s == a + b + c
    ensures s[..|a|] == a && s[|a|..|a| + |b|] == b && s[|a| + |b|..] == c
  {
  }

  lemma HeaderFields(length: u16, source: seq<byte>, destination: seq<byte>)
    requires |source| == 4 && |destination| == 4
    ensures var h := WithChecksum(IpHeader(length, source, destination), 10);
      && |h| == 20 && h[0] == 0x45 && Be16(h[2], h[3]) == length && h[9] == PROTO_ICMP
      && h[12..16] == source && h[16..20] == destination && Verifies(WordSum(h))
  {
    hide Verifies, WordSum, InetChksum;
    var header := IpHeader(length, source, destination);
    ChecksummedVerifies(header, 10);
    var h := WithChecksum(header, 10);
    assert h[12..16] == header[12..16] && h[16..20] == header[16..20];
  }

  lemma IcmpFields(mtu: u16, quote: seq<byte>)
    ensures var r := WithChecksum(Icmp(mtu, quote), 2);
      && |r| == 8 + |quote| && r[0] == 3 && r[1] == 4 && Be16(r[6], r[7]) == mtu
      && r[8..] == quote && Verifies(WordSum(r))
  {
    hide Verifies, WordSum, InetChksum;
    var icmp := Icmp(mtu, quote);
    ChecksummedVerifies(icmp, 2);
    assert WithChecksum(icmp, 2)[8..] == icmp[8..];
  }

  /** The reply is determined by the packet alone. */
  ghost predicate QuotesThePacket(frame: seq<byte>, apIp: seq<byte>, mtu: u16)
    requires |apIp| == 4
  {
    forall x, y :: Behind(x) && Behind(y) ==> Reply(frame, x, apIp, mtu) == Reply(frame, y, apIp, mtu)
  }

  /** The reply depends on nothing but the packet if and only if the first buffer holds the whole IP header. */
  lemma QuotesThePacketIff(frame: seq<byte>, apIp: seq<byte>, mtu: u16)
    requires |apIp| == 4 && Triggers(frame, mtu)
    ensures QuotesThePacket(frame, apIp, mtu) <==> ETHERNET_LENGTH + IpHeaderLength(frame) <= |frame|
  {
    if ETHERNET_LENGTH + IpHeaderLength(frame) <= |frame| {
      forall x, y | Behind(x) && Behind(y)
        ensures Reply(frame, x, apIp, mtu) == Reply(frame, y, apIp, mtu)
      {
        QuoteOfWholeHeader(frame, x);
        QuoteOfWholeHeader(frame, y);
      }
    } else {
      var x, y: seq<byte> := seq(40, _ => 0), seq(40, _ => 1);
      ShortFrameQuotesMemory(frame, x, y, apIp, mtu);
    }
  }

  lemma QuoteOfWholeHeader(frame: seq<byte>, behind: seq<byte>)
    requires Behind(behind) && IsIpv4(frame) && ETHERNET_LENGTH + IpHeaderLength(frame) <= |frame|
    ensures Quote(frame, behind) ==
      frame[ETHERNET_LENGTH..Min(|frame|, ETHERNET_LENGTH + IpHeaderLength(frame) + MAX_QUOTED_DATA)]
  {
  }

  lemma ShortFrameQuotesMemory(frame: seq<byte>, x: seq<byte>, y: seq<byte>, apIp: seq<byte>, mtu: u16)
    requires |apIp| == 4 && Triggers(frame, mtu) && Behind(x) && Behind(y) && x[0] != y[0]
    requires |frame| < ETHERNET_LENGTH + IpHeaderLength(frame)
    ensures Reply(frame, x, apIp, mtu) != Reply(frame, y, apIp, mtu)
  {
    ReplyIsWellFormed(frame, x, apIp, mtu);
    ReplyIsWellFormed(frame, y, apIp, mtu);
    var k := |frame| - ETHERNET_LENGTH;
    assert Quote(frame, x)[k] == x[0] && Quote(frame, y)[k] == y[0];
  }

  /** Such a frame: 34 bytes, an IP header length of 60, a total length of 1500 and DF set, for an MTU of 1400. */
  const SHORT_FRAME: seq<byte> :=
    [0, 0, 0, 0, 0, 0, 0, 0, 0, 0, 0, 0, 0x08, 0x00] +
    [0x4F, 0, 0x05, 0xDC, 0, 0, 0x40, 0, 64, 17, 0, 0, 0, 0, 0, 0, 0, 0, 0, 0]

  lemma ShortFrameIsNotQuoted(apIp: seq<byte>)
    requires |apIp| == 4
    ensures Triggers(SHORT_FRAME, 1400) && !QuotesThePacket(SHORT_FRAME, apIp, 1400)
  {
    QuotesThePacketIff(SHORT_FRAME, apIp, 1400);
  }

  /** The quote is at most 68 bytes, so the reply stays far below any frame limit. */
  lemma QuoteLength(frame: seq<byte>, behind: seq<byte>)
    requires Behind(behind) && IsIpv4(frame)
    ensures |Quote(frame, behind)| <= 68
    ensures Quote(frame, behind) <= (frame + behind)[ETHERNET_LENGTH..]
    ensures QuotedData(frame) == MAX_QUOTED_DATA <==>
      ETHERNET_LENGTH + IpHeaderLength(frame) + MAX_QUOTED_DATA <= |frame|
  {
  }

  /** From the bytes: a reply is built if and only if the first buffer holds 34 bytes of an IPv4 frame with a
      header of at least 20 bytes, of any protocol but ICMP (1), with DF set, a fragment offset of zero, and a
      total length above the MTU. */
  lemma RepliesIff(frame: seq<byte>, behind: seq<byte>, apIp: seq<byte>, mtu: u16)
    requires Behind(behind) && |apIp| == 4
    ensures Reply(frame, behind, apIp, mtu) != None <==>
      && |frame| >= 34 && frame[12] == 8 && frame[13] == 0 && frame[14] / 16 == 4 && frame[14] % 16 >= 5
      && frame[23] != 1 && (frame[20] / 64) % 2 == 1 && frame[20] % 32 == 0 && frame[21] == 0
      && 256 * (frame[16] as int) + frame[17] > mtu
  {
    if |frame| >= 34 {
      Flags(frame[20], frame[21]);
    }
  }

  lemma Flags(high: byte, low: byte)
    ensures (Be16(high, low) / 0x4000) % 2 == (high / 64) % 2
    ensures Be16(high, low) % 0x2000 == 0 <==> high % 32 == 0 && low == 0
  {
    var q: int, r: int, x: int, y: int := high / 64, high % 64, high / 32, high % 32;
    Quotient(0x4000, q, 0x100 * r + low);
    Quotient(0x2000, x, 0x100 * y + low);
    assert Be16(high, low) == 0x4000 * q + (0x100 * r + low) == 0x2000 * x + (0x100 * y + low);
  }

  lemma Quotient(d: int, q: int, r: int)
    requires (d == 0x4000 || d == 0x2000) && 0 <= r < d
    ensures (d * q + r) / d == q && (d * q + r) % d == r
  {
    if d == 0x4000 {
      assert (0x4000 * q + r) / 0x4000 == q;
    } else {
      assert (0x2000 * q + r) / 0x2000 == q;
    }
  }

  /** The fixed fields: a plain header of 20 bytes with TTL 64, and an ICMP header of type 3, code 4 with nothing unused
      set. The quote has up to eight bytes behind the original header. */
  lemma ReplyFixedFields(frame: seq<byte>, behind: seq<byte>, apIp: seq<byte>, mtu: u16)
    requires Behind(behind) && |apIp| == 4 && Triggers(frame, mtu)
    ensures var f, h := Reply(frame, behind, apIp, mtu).value, 4 * (frame[14] % 16);
      && |f| == 42 + h + (if |frame| >= 14 + h + 8 then 8 else if |frame| > 14 + h then |frame| - 14 - h else 0)
      && f[12..14] == [8, 0] && f[14..16] == [69, 0] && f[18..24] == [0, 0, 0, 0, 64, 1]
      && f[34..36] == [3, 4] && f[38..40] == [0, 0]
  {
    hide WithChecksum, IpHeader, Icmp, Quote;
    var f, quote := Reply(frame, behind, apIp, mtu).value, Quote(frame, behind);
    var header := WithChecksum(IpHeader(28 + |quote|, apIp, frame[26..30]), 10);
    var icmp := WithChecksum(Icmp(mtu, quote), 2);
    var ethernet: seq<byte> := frame[6..12] + frame[..6] + [0x08, 0x00];
    Slices(f, ethernet, header, icmp);
    PlainFields(28 + |quote|, apIp, frame[26..30], mtu, quote);
    assert ethernet[12..14] == [8, 0];
    Inner(f, 0, 14, 12, 14);
    Inner(f, 14, 34, 0, 2);
    Inner(f, 14, 34, 4, 10);
    Inner(f, 34, |f|, 0, 2);
    Inner(f, 34, |f|, 4, 6);
    assert f[34..|f|] == f[34..];
  }

  /** A slice of a slice. */
  lemma Inner(s: seq<byte>, i: nat, j: nat, k: nat, n: nat)
    requires i <= j <= |s| && k <= n <= j - i
    ensures s[i..j][k..n] == s[i + k..i + n]
  {
    var t := s[i..j];
    assert forall x :: k <= x < n ==> t[x] == s[i + x];
    assert t[k..n] == s[i + k..i + n];
  }

  lemma PlainFields(length: u16, source: seq<byte>, destination: seq<byte>, mtu: u16, quote: seq<byte>)
    requires |source| == 4 && |destination| == 4
    ensures var h, r := WithChecksum(IpHeader(length, source, destination), 10), WithChecksum(Icmp(mtu, quote), 2);
      && |h| == 20 && h[0..2] == [69, 0] && h[4..10] == [0, 0, 0, 0, 64, 1]
      && |r| == 8 + |quote| && r[0..2] == [3, 4] && r[4..6] == [0, 0]
  {
    hide InetChksum;
    var header, icmp := IpHeader(length, source, destination), Icmp(mtu, quote);
    OutsideStays(header, 10, 0, 2);
    OutsideStays(header, 10, 4, 10);
    OutsideStays(icmp, 2, 0, 2);
    OutsideStays(icmp, 2, 4, 6);
    assert header[0..2] == [69, 0] && header[4..10] == [0, 0, 0, 0, 64, 1];
    assert icmp[0..2] == [3, 4] && icmp[4..6] == [0, 0];
  }

  /** Storing the checksum leaves the bytes before and behind it. */
  lemma OutsideStays(b: seq<byte>, k: nat, i: nat, j: nat)
    requires k + 1 < |b| && i <= j <= |b| && (j <= k || k + 2 <= i)
    ensures WithChecksum(b, k)[i..j] == b[i..j]
  {
    hide InetChksum;
  }
}
