/** Capture records, the capture file they make up, and the packet count its reader prints. */
module CaptureRecords {
  import opened Words

  const RECORD_HEADER: nat := 16
  const FILE_HEADER: nat := 24
  const MIN_SNAPLEN: nat := 64
  const MAX_SNAPLEN: nat := 1600

  function Flatten(parts: seq<seq<byte>>): seq<byte>
  {
    if parts == [] then [] else Flatten(parts[..|parts| - 1]) + parts[|parts| - 1]
  }

  /** A packet as a chain of buffers, and the time it was seen. */
  datatype Packet = Packet(chain: seq<seq<byte>>, sec: u32, usec: u32)

  /** The chain's total length is a 16-bit field. */
  predicate Sized(p: Packet) { |Flatten(p.chain)| < 0x1_0000 }

  function Included(p: Packet, snaplen: nat): nat { Min(|Flatten(p.chain)|, snaplen) }

  function RecordHeader(sec: u32, usec: u32, included: u32, original: u32): (h: seq<byte>)
    ensures |h| == RECORD_HEADER
  {
    Bytes32(sec) + Bytes32(usec) + Bytes32(included) + Bytes32(original)
  }

  /** Header and the first bytes of the packet, at most `snaplen` of them. */
  function RecordOf(p: Packet, snaplen: nat): (r: seq<byte>)
    requires Sized(p) && snaplen <= MAX_SNAPLEN
    ensures RECORD_HEADER <= |r| <= RECORD_HEADER + MAX_SNAPLEN
  {
    RecordHeader(p.sec, p.usec, Included(p, snaplen), |Flatten(p.chain)|) + Flatten(p.chain)[..Included(p, snaplen)]
  }

  lemma {:induction false} FlattenPrefix(parts: seq<seq<byte>>, i: nat)
    requires i <= |parts|
    ensures Flatten(parts[..i]) <= Flatten(parts)
    decreases |parts|
  {
    if i < |parts| {
      assert parts[..|parts| - 1][..i] == parts[..i];
      FlattenPrefix(parts[..|parts| - 1], i);
    } else {
      assert parts[..i] == parts;
    }
  }

  /** `pcap_capture_packet` up to the write into the ring. */
  method BuildRecord(p: Packet, snaplen: nat) returns (record: seq<byte>)
    requires Sized(p) && snaplen <= MAX_SNAPLEN
    ensures record == RecordOf(p, snaplen)
  {
    var total := TotalLength(p.chain);
    var included := if total > snaplen then snaplen else total;
    var buf := new byte[RECORD_HEADER + MAX_SNAPLEN](_ => 0);
    var header := RecordHeader(p.sec, p.usec, included, total);
    CopyInto(buf, 0, header);
    CopyChain(buf, header, p.chain, included);
    record := buf[..RECORD_HEADER + included];
  }

  /** The copy loop over the chain, behind the header. */
  method CopyChain(buf: array<byte>, header: seq<byte>, chain: seq<seq<byte>>, included: nat)
    requires |header| + included <= buf.Length && included <= |Flatten(chain)|
    requires buf[..|header|] == header
    modifies buf
    ensures buf[..|header| + included] == header + Flatten(chain)[..included]
  {
    var copied, q := 0, 0;
    while q < |chain| && copied < included
      invariant q <= |chain| && copied == Min(|Flatten(chain[..q])|, included)
      invariant buf[..|header| + copied] == header + Flatten(chain)[..copied]
    {
      var toCopy := |chain[q]|;
      if copied + toCopy > included {
        toCopy := included - copied;
      }
      CopiedSoFar(chain, q, copied, toCopy);
      CopyInto(buf, |header| + copied, chain[q][..toCopy]);
      copied := copied + toCopy;
      q := q + 1;
    }
    assert chain[..|chain|] == chain;
  }

  lemma CopiedSoFar(chain: seq<seq<byte>>, q: nat, copied: nat, toCopy: nat)
    requires q < |chain| && copied == |Flatten(chain[..q])| && toCopy <= |chain[q]|
    ensures |Flatten(chain[..q + 1])| == copied + |chain[q]| <= |Flatten(chain)|
    ensures Flatten(chain)[..copied + toCopy] == Flatten(chain)[..copied] + chain[q][..toCopy]
  {
    assert chain[..q + 1][..q] == chain[..q];
    FlattenPrefix(chain, q + 1);
    assert Flatten(chain)[..copied + |chain[q]|] == Flatten(chain[..q]) + chain[q];
    assert Flatten(chain)[..copied + toCopy] == (Flatten(chain[..q]) + chain[q])[..copied + toCopy];
  }

  method CopyInto(buf: array<byte>, at: nat, bytes: seq<byte>)
    requires at + |bytes| <= buf.Length
    modifies buf
    ensures buf[..at + |bytes|] == old(buf[..at]) + bytes
  {
    forall i | 0 <= i < |bytes| { buf[at + i] := bytes[i]; }
  }

  /** The chain's `tot_len`. */
  method TotalLength(chain: seq<seq<byte>>) returns (n: nat)
    ensures n == |Flatten(chain)|
  {
    n := 0;
    for i := 0 to |chain|
      invariant n == |Flatten(chain[..i])|
    {
      assert chain[..i + 1][..i] == chain[..i];
      n := n + |chain[i]|;
    }
    assert chain[..|chain|] == chain;
  }

  /** The length field a reader finds in a record. */
  function LengthField(r: seq<byte>): nat
    requires |r| >= RECORD_HEADER
  {
    Le32(r[8..12])
  }

  predicate IsRecord(r: seq<byte>) { |r| >= RECORD_HEADER && LengthField(r) == |r| - RECORD_HEADER }

  /** Everything a reader needs is in the record: lengths, times, and the first bytes of the packet. */
  lemma RecordDecodes(p: Packet, snaplen: nat)
    requires Sized(p) && snaplen <= MAX_SNAPLEN
    ensures var r := RecordOf(p, snaplen);
      && IsRecord(r)
      && Le32(r[..4]) == p.sec && Le32(r[4..8]) == p.usec
      && LengthField(r) == Min(|Flatten(p.chain)|, snaplen) && Le32(r[12..16]) == |Flatten(p.chain)|
      && r[RECORD_HEADER..] == Flatten(p.chain)[..LengthField(r)]
  {
    var r := RecordOf(p, snaplen);
    Bytes32RoundTrip(p.sec);
    Bytes32RoundTrip(p.usec);
    Bytes32RoundTrip(Included(p, snaplen));
    Bytes32RoundTrip(|Flatten(p.chain)|);
    assert r[..4] == Bytes32(p.sec) && r[4..8] == Bytes32(p.usec);
    assert r[8..12] == Bytes32(Included(p, snaplen)) && r[12..16] == Bytes32(|Flatten(p.chain)|);
  }

  /** The file header: magic number, version 2.4, snaplen, Ethernet. */
  function FileHeader(snaplen: u32): (h: seq<byte>)
    ensures |h| == FILE_HEADER
  {
    Bytes32(0xA1B2C3D4) + [2, 0, 4, 0] + Bytes32(0) + Bytes32(0) + Bytes32(snaplen) + Bytes32(1)
  }

  /** The 24 bytes of the file header, in memory order. */
  lemma FileHeaderBytes(snaplen: u32)
    ensures FileHeader(snaplen) == [212, 195, 178, 161, 2, 0, 4, 0, 0, 0, 0, 0, 0, 0, 0, 0]
      + [snaplen % 256, (snaplen / 256) % 256, (snaplen / 65536) % 256, snaplen / 16777216] + [1, 0, 0, 0]
  {
  }

  class Settings {
    var snaplen: nat

    ghost predicate Valid()
      reads this
    {
      MIN_SNAPLEN <= snaplen <= MAX_SNAPLEN
    }

    constructor ()
      ensures Valid() && snaplen == 96
    {
      snaplen := 96;
    }

    /** `pcap_set_snaplen`. */
    method SetSnaplen(value: u16) returns (ok: bool)
      requires Valid()
      modifies this
      ensures Valid()
      ensures ok == (64 <= value <= 1600) && snaplen == if ok then value else old(snaplen)
    {
      if value < MIN_SNAPLEN || value > MAX_SNAPLEN { return false; }
      snaplen := value;
      ok := true;
    }
  }

  /** Packets counted from `offset` on. */
  function CountFrom(data: seq<byte>, offset: nat): nat
    decreases if offset <= |data| then |data| - offset else 0
  {
    if offset + RECORD_HEADER <= |data| then
      1 + CountFrom(data, offset + RECORD_HEADER + Le32(data[offset + 8..offset + 12]))
    else 0
  }

  /** The counting loop of the capture tool. */
  method CountPackets(data: seq<byte>) returns (count: nat)
    ensures count == CountFrom(data, FILE_HEADER)
  {
    count := 0;
    var offset := FILE_HEADER;
    while offset + RECORD_HEADER <= |data|
      invariant count + CountFrom(data, offset) == CountFrom(data, FILE_HEADER)
      decreases |data| - offset
    {
      var included := Le32(data[offset + 8..offset + 12]);
      count := count + 1;
      offset := offset + RECORD_HEADER + included;
    }
  }

  /** Where record i starts in the file. */
  function StartOf(records: seq<seq<byte>>, i: nat): nat
    requires i <= |records|
  {
    FILE_HEADER + |Flatten(records[..i])|
  }

  /** The first k records are exactly those whose header lies in the first n bytes of the file. */
  predicate HeadersWithin(records: seq<seq<byte>>, n: nat, k: nat)
  {
    k <= |records| && forall i :: 0 <= i < |records| ==> (i < k <==> StartOf(records, i) + RECORD_HEADER <= n)
  }

  lemma {:induction false} StartsGrow(records: seq<seq<byte>>, i: nat, j: nat)
    requires i <= j <= |records|
    ensures StartOf(records, i) <= StartOf(records, j)
  {
    FlattenPrefix(records[..j], i);
    assert records[..j][..i] == records[..i];
  }

  lemma NextStart(records: seq<seq<byte>>, i: nat)
    requires i < |records|
    ensures StartOf(records, i + 1) == StartOf(records, i) + |records[i]|
    ensures Flatten(records[..i]) + records[i] == Flatten(records[..i + 1]) <= Flatten(records)
  {
    assert records[..i + 1][..i] == records[..i];
    FlattenPrefix(records, i + 1);
  }

  /** The file the records make up holds record i at its start. */
  lemma RecordInFile(header: seq<byte>, records: seq<seq<byte>>, i: nat)
    requires |header| == FILE_HEADER && i < |records|
    ensures var file, at := header + Flatten(records), StartOf(records, i);
      at + |records[i]| <= |file| && file[at..at + |records[i]|] == records[i]
  {
    NextStart(records, i);
    var n := |Flatten(records[..i])|;
    assert Flatten(records)[..n + |records[i]|] == Flatten(records[..i]) + records[i];
    assert Flatten(records)[n..n + |records[i]|] == records[i];
  }

  lemma SameField(data: seq<byte>, file: seq<byte>, at: nat, r: seq<byte>)
    requires data <= file && at + 16 <= |data| && 16 <= |r| && at + |r| <= |file| && file[at..at + |r|] == r
    ensures data[at + 8..at + 12] == r[8..12]
  {
    assert data == file[..|data|];
    assert data[at..at + 16] == file[at..at + 16] == file[at..at + |r|][..16];
    assert data[at + 8..at + 12] == data[at..at + 16][8..12];
  }

  lemma {:induction false} CountFromRecord(header: seq<byte>, records: seq<seq<byte>>, data: seq<byte>, i: nat)
    requires |header| == FILE_HEADER && data <= header + Flatten(records)
    requires (forall r :: r in records ==> IsRecord(r)) && i <= |records|
    ensures var k := i + CountFrom(data, StartOf(records, i));
      k <= |records| && forall j :: i <= j < |records| ==> (j < k <==> StartOf(records, j) + RECORD_HEADER <= |data|)
    decreases |records| - i
  {
    hide Flatten, Le32;
    var at := StartOf(records, i);
    if i == |records| {
      assert records[..i] == records;
    } else if at + RECORD_HEADER <= |data| {
      RecordInFile(header, records, i);
      var file := header + Flatten(records);
      assert records[i] in records;
      SameField(data, file, at, records[i]);
      NextStart(records, i);
      CountFromRecord(header, records, data, i + 1);
    } else {
      forall j | i <= j < |records|
        ensures StartOf(records, j) + RECORD_HEADER > |data|
      {
        StartsGrow(records, i, j);
      }
    }
  }

  /** However much of the file has arrived, the tool counts exactly the records whose 16-byte header has wholly
      arrived. */
  lemma CountsWholeHeaders(header: seq<byte>, records: seq<seq<byte>>, data: seq<byte>)
    requires |header| == FILE_HEADER && data <= header + Flatten(records)
    requires forall r :: r in records ==> IsRecord(r)
    ensures HeadersWithin(records, |data|, CountFrom(data, FILE_HEADER))
  {
    CountFromRecord(header, records, data, 0);
    assert StartOf(records, 0) == FILE_HEADER;
  }
}
