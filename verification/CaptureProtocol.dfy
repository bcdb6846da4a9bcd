/** Any number of writers and one reader around the ring, step by step: the mutex, the semaphore and the queue. */
module CaptureProtocol {
  import opened Words
  import opened CaptureRecords
  import RingBuffer

  type Snaplen = n: nat | MIN_SNAPLEN <= n <= MAX_SNAPLEN witness MIN_SNAPLEN

  /** A packet that a writer captures, and the snaplen in force when it builds the record. */
  datatype Captured = Captured(packet: Packet, snaplen: Snaplen)

  type Offer = c: Captured | Sized(c.packet) witness Captured(Packet([], 0, 0), MIN_SNAPLEN)

  function Record(o: Offer): seq<byte> { RecordOf(o.packet, o.snaplen) }

  /** Where a task stands: a writer between its steps, or a task that resets the ring. `Holding` is inside with offer
      number k. */
  datatype Task = Idle | Built(offer: Offer) | Holding(k: nat, offer: Offer) | Filled | MustSignal | Resetting | Cleared
  {
    predicate InSection() { Holding? || Filled? || Resetting? || Cleared? }

    predicate AtRest() { Idle? || Built? }
  }

  /** Where the reader stands; `Opening` is before the file header, `Took` after the copy, `Leaving` after the second
      signal. */
  datatype Reader = Opening | Waiting | Signalled(maxLength: nat) | Locked(maxLength: nat) | Took | Leaving
  {
    predicate InSection() { Locked? || Took? || Leaving? }
  }

  datatype Owner = Nobody | TaskAt(i: nat) | TheReader

  /** `queue` is what the ring holds; `offered` are the captures in the order in which they were offered to the
      ring, `accepted` the records written and `taken` the numbers of their offers; `header` and `sent` are what
      the reader has sent to its client. */
  datatype State = State(capacity: nat, snaplen: Snaplen, queue: seq<byte>, owner: Owner, signalled: bool,
                         tasks: seq<Task>, reader: Reader, offered: seq<Offer>,
                         accepted: seq<seq<byte>>, taken: seq<nat>, header: seq<byte>, sent: seq<byte>)

  datatype Move =
    | SetSnaplen(snaplen: Snaplen)
    | Capture(i: nat, packet: Packet)
    | BeginWrite(i: nat)
    | Fill(i: nat)
    | Release(i: nat)
    | Signal(i: nat)
    | BeginReset(i: nat)
    | ClearRing(i: nat)
    | SendHeader
    | TakeSignal(maxLength: nat)
    | LockReader
    | CopyOut
    | SignalAgain
    | UnlockReader

  /** An allocated, empty ring, idle tasks, and a reader that has sent nothing. */
  function Start(capacity: nat, tasks: nat, snaplen: Snaplen): State
  {
    State(capacity, snaplen, [], Nobody, false, seq(tasks, _ => Idle), Opening, [], [], [], [], [])
  }

  /** Is this the next step of that task? A blocked or absent step is not. */
  predicate Enabled(s: State, m: Move)
  {
    match m
    case SetSnaplen(_) => true
    case Capture(i, p) => i < |s.tasks| && s.tasks[i].Idle? && Sized(p)
    case BeginWrite(i) => i < |s.tasks| && s.tasks[i].Built?
    case Fill(i) => i < |s.tasks| && s.tasks[i].Holding?
    case Release(i) => i < |s.tasks| && (s.tasks[i].Filled? || s.tasks[i].Cleared?)
    case Signal(i) => i < |s.tasks| && s.tasks[i].MustSignal?
    case BeginReset(i) => i < |s.tasks| && s.tasks[i].Idle? && s.owner.Nobody?
    case ClearRing(i) => i < |s.tasks| && s.tasks[i].Resetting?
    case SendHeader => s.reader.Opening?
    case TakeSignal(_) => s.reader.Waiting? && s.signalled
    case LockReader => s.reader.Signalled? && s.owner.Nobody?
    case CopyOut => s.reader.Locked?
    case SignalAgain => s.reader.Took?
    case UnlockReader => s.reader.Leaving?
  }

  function WithTask(s: State, i: nat, t: Task): State
    requires i < |s.tasks|
  {
    s.(tasks := s.tasks[i := t])
  }

  function Step(s: State, m: Move): State
    requires Enabled(s, m)
  {
    match m
    case SetSnaplen(n) => s.(snaplen := n)
    case Capture(i, p) => WithTask(s, i, Built(Captured(p, s.snaplen)))
    case BeginWrite(i) =>
      // The writer does not wait: a busy mutex drops the record.
      var o := s.tasks[i].offer;
      if s.owner.Nobody? then
        WithTask(s, i, Holding(|s.offered|, o)).(owner := TaskAt(i), offered := s.offered + [o])
      else WithTask(s, i, Idle).(offered := s.offered + [o])
    case Fill(i) =>
      var k, record := s.tasks[i].k, Record(s.tasks[i].offer);
      if |s.queue| + |record| > s.capacity then WithTask(s, i, Idle).(owner := Nobody)
      else
        WithTask(s, i, Filled).(queue := s.queue + record, accepted := s.accepted + [record], taken := s.taken + [k])
    case Release(i) =>
      WithTask(s, i, if s.tasks[i].Filled? then MustSignal else Idle).(owner := Nobody)
    case Signal(i) => WithTask(s, i, Idle).(signalled := true)
    case BeginReset(i) => WithTask(s, i, Resetting).(owner := TaskAt(i))
    case ClearRing(i) => WithTask(s, i, Cleared).(queue := [])
    case SendHeader => s.(header := FileHeader(s.snaplen), reader := Waiting)
    case TakeSignal(n) => s.(signalled := false, reader := Signalled(n))
    case LockReader => s.(owner := TheReader, reader := Locked(s.reader.maxLength))
    case CopyOut =>
      if s.queue == [] then s.(owner := Nobody, reader := Waiting)
      else
        var n := Min(s.reader.maxLength, |s.queue|);
        s.(queue := s.queue[n..], sent := s.sent + s.queue[..n], reader := Took)
    case SignalAgain => s.(signalled := s.signalled || s.queue != [], reader := Leaving)
    case UnlockReader => s.(owner := Nobody, reader := Waiting)
  }

  /** A run: every move is enabled where it happens. */
  predicate IsRun(s: State, moves: seq<Move>)
    decreases |moves|
  {
    moves != [] ==> Enabled(s, moves[0]) && IsRun(Step(s, moves[0]), moves[1..])
  }

  function Run(s: State, moves: seq<Move>): State
    requires IsRun(s, moves)
    decreases |moves|
  {
    if moves == [] then s else Run(Step(s, moves[0]), moves[1..])
  }

  /** At most one task or the reader is inside, and the owner says which. */
  predicate Exclusive(s: State)
  {
    && (forall i :: 0 <= i < |s.tasks| ==> (s.tasks[i].InSection() <==> s.owner == TaskAt(i)))
    && (s.reader.InSection() <==> s.owner == TheReader)
    && (s.owner.TaskAt? ==> s.owner.i < |s.tasks|)
  }

  /** A writer has filled the ring and not yet signalled. */
  predicate SignalDue(s: State) { exists i :: 0 <= i < |s.tasks| && (s.tasks[i].Filled? || s.tasks[i].MustSignal?) }

  /** The reader has taken the signal and not yet passed it on. */
  predicate ReaderBusy(s: State) { s.reader.Signalled? || s.reader.Locked? || s.reader.Took? }

  /** No lost wake-up: readable bytes are announced, about to be announced, or the reader is on its way to them. */
  predicate Announced(s: State) { s.queue != [] ==> s.signalled || SignalDue(s) || ReaderBusy(s) }

  predicate Inv(s: State) { Exclusive(s) && Announced(s) && |s.queue| <= s.capacity }

  /** A move of one task that enters the section from outside, leaves it, or stays on its side. */
  lemma TaskMoves(s: State, i: nat, t: Task, owner: Owner)
    requires Exclusive(s) && i < |s.tasks|
    requires owner == if t.InSection() then TaskAt(i) else if s.tasks[i].InSection() then Nobody else s.owner
    requires t.InSection() && !s.tasks[i].InSection() ==> s.owner.Nobody?
    ensures Exclusive(WithTask(s, i, t).(owner := owner))
  {
    var s' := WithTask(s, i, t);
    assert forall j :: 0 <= j < |s.tasks| && j != i ==> s'.tasks[j] == s.tasks[j];
  }

  lemma SameSections(s: State, s': State)
    requires Exclusive(s) && s'.tasks == s.tasks && s'.owner == s.owner && s'.reader.InSection() == s.reader.InSection()
    ensures Exclusive(s')
  {
  }

  lemma StepKeepsExclusive(s: State, m: Move)
    requires Exclusive(s) && Enabled(s, m)
    ensures Exclusive(Step(s, m))
  {
    var s' := Step(s, m);
    if m.Capture? || m.BeginWrite? || m.Fill? || m.Release? || m.Signal? || m.BeginReset? || m.ClearRing? {
      hide Record, RecordOf, Exclusive;
      var i := m.i;
      InsideOwns(s, i);
      TaskMoves(s, i, s'.tasks[i], s'.owner);
      SameSections(WithTask(s, i, s'.tasks[i]).(owner := s'.owner), s');
    } else {
      hide FileHeader;
    }
  }

  lemma InsideOwns(s: State, i: nat)
    requires Exclusive(s) && i < |s.tasks|
    ensures s.tasks[i].InSection() <==> s.owner == TaskAt(i)
  {
  }

  lemma StillDue(s: State, i: nat, t: Task)
    requires i < |s.tasks| && SignalDue(s)
    requires s.tasks[i].Filled? || s.tasks[i].MustSignal? ==> t.Filled? || t.MustSignal?
    ensures SignalDue(WithTask(s, i, t))
  {
    var k :| 0 <= k < |s.tasks| && (s.tasks[k].Filled? || s.tasks[k].MustSignal?);
    assert k == i || WithTask(s, i, t).tasks[k] == s.tasks[k];
    assert WithTask(s, i, t).tasks[i] == t;
  }

  lemma StepKeepsAnnounced(s: State, m: Move)
    requires Inv(s) && Enabled(s, m)
    ensures Announced(Step(s, m))
  {
    hide Record;
    var s' := Step(s, m);
    match m {
      case Capture(i, p) =>
        if SignalDue(s) { StillDue(s, i, s'.tasks[i]); }
      case BeginWrite(i) =>
        if SignalDue(s) { StillDue(s, i, s'.tasks[i]); }
      case Fill(i) =>
        if |s.queue| + |Record(s.tasks[i].offer)| > s.capacity {
          if SignalDue(s) { StillDue(s, i, Idle); }
        } else {
          assert s'.tasks[i].Filled?;
        }
      case Release(i) =>
        if s.tasks[i].Filled? {
          assert s'.tasks[i].MustSignal?;
        } else if SignalDue(s) {
          StillDue(s, i, Idle);
        }
      case BeginReset(i) =>
        if SignalDue(s) { StillDue(s, i, Resetting); }
      case _ =>
    }
  }

  lemma {:induction false} RunKeepsInv(s: State, moves: seq<Move>)
    requires Inv(s) && IsRun(s, moves)
    ensures Inv(Run(s, moves))
    decreases |moves|
  {
    if moves != [] {
      StepKeepsExclusive(s, moves[0]);
      StepKeepsAnnounced(s, moves[0]);
      RunKeepsInv(Step(s, moves[0]), moves[1..]);
    }
  }

  /** In every interleaving from an allocated, empty ring: mutual exclusion, and no lost wake-up. In particular, with
      everybody at rest and bytes in the ring, the reader's next wait succeeds at once. */
  lemma NoLostWakeUp(capacity: nat, tasks: nat, snaplen: Snaplen, moves: seq<Move>)
    requires IsRun(Start(capacity, tasks, snaplen), moves)
    ensures var s := Run(Start(capacity, tasks, snaplen), moves);
      && Exclusive(s) && Announced(s)
      && (s.queue != [] && s.reader.Waiting? && (forall i :: 0 <= i < |s.tasks| ==> s.tasks[i].AtRest()) ==>
          Enabled(s, TakeSignal(1)))
  {
    RunKeepsInv(Start(capacity, tasks, snaplen), moves);
  }

  /** The reader asks for at least one byte at a time. */
  predicate AsksForBytes(s: State) { s.reader.Signalled? || s.reader.Locked? ==> s.reader.maxLength > 0 }

  /** How far the reader is from its next bytes, in steps that no new write or reset is needed for. */
  function Distance(s: State): nat
  {
    (if !s.owner.TaskAt? || s.owner.i >= |s.tasks| then 0
     else if s.tasks[s.owner.i].Holding? || s.tasks[s.owner.i].Resetting? then 2 else 1)
    + match s.reader
      case Opening => 7
      case Took => 6
      case Leaving => 5
      case Waiting => if s.signalled then 3 else 4
      case Signalled(_) => 2
      case Locked(_) => 1
  }

  /** A step that brings the reader closer to its bytes, or serves it. */
  lemma NextStep(s: State) returns (m: Move)
    requires Inv(s) && AsksForBytes(s) && s.queue != []
    ensures Enabled(s, m) && !m.BeginWrite? && !m.BeginReset? && AsksForBytes(Step(s, m))
    ensures var s' := Step(s, m);
      |s'.sent| > |s.sent| || s'.queue == [] || (s'.sent == s.sent && Distance(s') < Distance(s))
  {
    match s.owner {
      case TaskAt(i) =>
        m := if s.tasks[i].Holding? then Fill(i) else if s.tasks[i].Resetting? then ClearRing(i) else Release(i);
      case TheReader =>
        m := if s.reader.Locked? then CopyOut else if s.reader.Took? then SignalAgain else UnlockReader;
      case Nobody =>
        if s.reader.Opening? {
          m := SendHeader;
        } else if s.reader.Signalled? {
          m := LockReader;
        } else if s.signalled {
          m := TakeSignal(1);
        } else {
          var i :| 0 <= i < |s.tasks| && (s.tasks[i].Filled? || s.tasks[i].MustSignal?);
          m := Signal(i);
        }
    }
  }

  /** No deadlock: from every reachable state with bytes in the ring, the steps already under way lead to the reader
      taking bytes, unless a reset under way empties the ring first. */
  lemma {:induction false} ReaderIsServed(s: State) returns (moves: seq<Move>)
    requires Inv(s) && AsksForBytes(s) && s.queue != []
    ensures IsRun(s, moves) && forall m :: m in moves ==> !m.BeginWrite? && !m.BeginReset?
    ensures |Run(s, moves).sent| > |s.sent| || Run(s, moves).queue == []
    decreases Distance(s)
  {
    var m := NextStep(s);
    var s' := Step(s, m);
    var rest := [];
    if |s'.sent| == |s.sent| && s'.queue != [] {
      StepKeepsExclusive(s, m);
      StepKeepsAnnounced(s, m);
      rest := ReaderIsServed(s');
    }
    moves := [m] + rest;
    assert moves[1..] == rest;
  }

  /** Bytes taken out, then bytes in the ring, are the accepted records end to end; nothing is sent before the
      header. */
  predicate Framed(s: State)
  {
    && s.sent + s.queue == Flatten(s.accepted)
    && (s.reader.Opening? ==> s.header == [] && s.sent == [])
    && (!s.reader.Opening? ==> |s.header| == FILE_HEADER)
  }

  /** The accepted records are the records of a subsequence of the offered captures, in order. */
  predicate Subsequence(s: State)
  {
    && |s.taken| == |s.accepted|
    && (forall a :: 0 <= a < |s.taken| ==> s.taken[a] < |s.offered| && s.accepted[a] == Record(s.offered[s.taken[a]]))
    && (forall a, b :: 0 <= a < b < |s.taken| ==> s.taken[a] < s.taken[b])
  }

  /** A writer inside holds its offer, which is later than every one taken. */
  predicate HoldsLater(s: State)
  {
    forall i :: 0 <= i < |s.tasks| && s.tasks[i].Holding? ==>
      && s.tasks[i].k < |s.offered| && s.offered[s.tasks[i].k] == s.tasks[i].offer
      && forall a :: 0 <= a < |s.taken| ==> s.taken[a] < s.tasks[i].k
  }

  predicate Traced(s: State) { Subsequence(s) && HoldsLater(s) }

  lemma BeginKeepsTraced(s: State, i: nat)
    requires Traced(s) && Enabled(s, BeginWrite(i))
    ensures Traced(Step(s, BeginWrite(i)))
  {
    hide Record;
    var s' := Step(s, BeginWrite(i));
    assert forall k :: 0 <= k < |s.offered| ==> s'.offered[k] == s.offered[k];
    assert forall j :: 0 <= j < |s.tasks| && j != i ==> s'.tasks[j] == s.tasks[j];
  }

  lemma FillKeepsTraced(s: State, i: nat)
    requires Traced(s) && Exclusive(s) && Enabled(s, Fill(i))
    ensures Traced(Step(s, Fill(i)))
  {
    hide Record;
    var s' := Step(s, Fill(i));
    assert forall j :: 0 <= j < |s.tasks| && j != i ==> s'.tasks[j] == s.tasks[j] && !s.tasks[j].Holding?;
    assert !s'.tasks[i].Holding?;
  }

  lemma OthersKeepTraced(s: State, m: Move)
    requires Traced(s) && Enabled(s, m) && !m.BeginWrite? && !m.Fill?
    ensures Traced(Step(s, m))
  {
    hide Record, RecordOf;
    var s' := Step(s, m);
    assert forall j :: 0 <= j < |s.tasks| && s'.tasks[j].Holding? ==> s'.tasks[j] == s.tasks[j];
  }

  lemma StepKeepsTraced(s: State, m: Move)
    requires Traced(s) && Exclusive(s) && Enabled(s, m)
    ensures Traced(Step(s, m))
  {
    match m {
      case BeginWrite(i) => BeginKeepsTraced(s, i);
      case Fill(i) => FillKeepsTraced(s, i);
      case _ => OthersKeepTraced(s, m);
    }
  }

  /** What is accepted comes from what is offered, resets or not. */
  lemma {:induction false} RunKeepsTraced(s: State, moves: seq<Move>)
    requires Traced(s) && Exclusive(s) && IsRun(s, moves)
    ensures Traced(Run(s, moves))
    decreases |moves|
  {
    if moves != [] {
      StepKeepsTraced(s, moves[0]);
      StepKeepsExclusive(s, moves[0]);
      RunKeepsTraced(Step(s, moves[0]), moves[1..]);
    }
  }

  predicate Resets(m: Move) { m.BeginReset? || m.ClearRing? }

  predicate NoResetting(s: State) { forall i :: 0 <= i < |s.tasks| ==> !s.tasks[i].Resetting? && !s.tasks[i].Cleared? }

  lemma FillKeepsFramed(s: State, i: nat)
    requires Framed(s) && Enabled(s, Fill(i))
    ensures Framed(Step(s, Fill(i)))
  {
    var r := Record(s.tasks[i].offer);
    assert (s.accepted + [r])[..|s.accepted|] == s.accepted;
    assert s.sent + (s.queue + r) == (s.sent + s.queue) + r;
  }

  lemma CopyKeepsFramed(s: State)
    requires Framed(s) && Enabled(s, CopyOut)
    ensures Framed(Step(s, CopyOut))
  {
    var n := Min(s.reader.maxLength, |s.queue|);
    assert (s.sent + s.queue[..n]) + s.queue[n..] == s.sent + s.queue;
  }

  lemma StepKeepsFramed(s: State, m: Move)
    requires Framed(s) && Enabled(s, m) && !Resets(m) && NoResetting(s)
    ensures Framed(Step(s, m)) && NoResetting(Step(s, m))
  {
    hide Flatten, Record;
    match m {
      case Fill(i) => FillKeepsFramed(s, i);
      case CopyOut => CopyKeepsFramed(s);
      case _ =>
    }
  }

  lemma {:induction false} RunKeepsFramed(s: State, moves: seq<Move>)
    requires Framed(s) && NoResetting(s) && IsRun(s, moves)
    requires forall m :: m in moves ==> !Resets(m)
    ensures Framed(Run(s, moves))
    decreases |moves|
  {
    if moves != [] {
      assert moves[0] in moves;
      StepKeepsFramed(s, moves[0]);
      RunKeepsFramed(Step(s, moves[0]), moves[1..]);
    }
  }

  /** A record holds the first bytes of the packet's chain, as many as the snaplen in force allowed, and says so. */
  predicate Holds(r: seq<byte>, o: Offer)
  {
    var n := Min(|Flatten(o.packet.chain)|, o.snaplen);
    && IsRecord(r) && LengthField(r) == n && r[RECORD_HEADER..] == Flatten(o.packet.chain)[..n]
    && Le32(r[12..16]) == |Flatten(o.packet.chain)|
  }

  /** End to end, in every interleaving without a reset, with the snaplen changing at will: the accepted records
      hold, in order, a subsequence of the offered packets; what the client has received, however little of it, is
      a prefix of the file header and those records; and the capture tool counts exactly the ones whose 16-byte
      header has wholly arrived. */
  lemma CaptureRoundTrip(capacity: nat, tasks: nat, snaplen: Snaplen, moves: seq<Move>, received: seq<byte>)
    requires IsRun(Start(capacity, tasks, snaplen), moves) && forall m :: m in moves ==> !Resets(m)
    requires var s := Run(Start(capacity, tasks, snaplen), moves); received <= s.header + s.sent
    ensures var s := Run(Start(capacity, tasks, snaplen), moves);
      && Subsequence(s) && (forall a :: 0 <= a < |s.taken| ==> Holds(s.accepted[a], s.offered[s.taken[a]]))
      && received <= s.header + Flatten(s.accepted)
      && HeadersWithin(s.accepted, |received|, CountFrom(received, FILE_HEADER))
  {
    var s := Run(Start(capacity, tasks, snaplen), moves);
    RunKeepsFramed(Start(capacity, tasks, snaplen), moves);
    RunKeepsTraced(Start(capacity, tasks, snaplen), moves);
    hide Record;
    forall a | 0 <= a < |s.taken|
      ensures Holds(s.accepted[a], s.offered[s.taken[a]])
    {
      RecordHolds(s.offered[s.taken[a]]);
    }
    StillPrefix(s.header, s.sent, s.queue, received);
    AcceptedAreRecords(s);
    CountOfReceived(s, received);
  }

  lemma RecordHolds(o: Offer)
    ensures Holds(Record(o), o)
  {
    RecordDecodes(o.packet, o.snaplen);
  }

  lemma AcceptedAreRecords(s: State)
    requires Subsequence(s)
    ensures forall r :: r in s.accepted ==> IsRecord(r)
  {
    hide Record;
    forall a | 0 <= a < |s.taken|
      ensures IsRecord(s.accepted[a])
    {
      RecordHolds(s.offered[s.taken[a]]);
    }
  }

  lemma CountOfReceived(s: State, received: seq<byte>)
    requires Framed(s) && received <= s.header + s.sent && received <= s.header + Flatten(s.accepted)
    requires forall r :: r in s.accepted ==> IsRecord(r)
    ensures HeadersWithin(s.accepted, |received|, CountFrom(received, FILE_HEADER))
  {
    if !s.reader.Opening? { CountsWholeHeaders(s.header, s.accepted, received); }
  }

  lemma StillPrefix(header: seq<byte>, sent: seq<byte>, queue: seq<byte>, received: seq<byte>)
    requires received <= header + sent
    ensures received <= header + (sent + queue)
  {
    assert header + (sent + queue) == (header + sent) + queue;
  }

  predicate OfferIn(t: Task, ps: set<Packet>) { t.Built? ==> t.offer.packet in ps }

  /** Nothing is offered that was not captured in the run. */
  lemma {:induction false} OfferedWereCaptured(s: State, moves: seq<Move>, ps: set<Packet>)
    requires IsRun(s, moves) && forall i, p :: Capture(i, p) in moves ==> p in ps
    requires (forall o :: o in s.offered ==> o.packet in ps) && forall i :: 0 <= i < |s.tasks| ==>
        OfferIn(s.tasks[i], ps)
    ensures forall o :: o in Run(s, moves).offered ==> o.packet in ps
    decreases |moves|
  {
    if moves != [] {
      assert moves[0] in moves;
      StepOffersCaptured(s, moves[0], ps);
      OfferedWereCaptured(Step(s, moves[0]), moves[1..], ps);
    }
  }

  lemma StepOffersCaptured(s: State, m: Move, ps: set<Packet>)
    requires Enabled(s, m) && (m.Capture? ==> m.packet in ps)
    requires (forall o :: o in s.offered ==> o.packet in ps) && forall i :: 0 <= i < |s.tasks| ==>
        OfferIn(s.tasks[i], ps)
    ensures var s' := Step(s, m);
      && (forall o :: o in s'.offered ==> o.packet in ps)
      && forall i :: 0 <= i < |s'.tasks| ==> OfferIn(s'.tasks[i], ps)
  {
    hide Record, FileHeader;
    var s' := Step(s, m);
    assert forall i :: 0 <= i < |s'.tasks| ==> s'.tasks[i] == s.tasks[i] || OfferIn(s'.tasks[i], ps);
  }

  /** All captures and the file header go by snaplen n. */
  predicate Uniform(s: State, n: Snaplen)
  {
    && s.snaplen == n && (s.reader.Opening? || s.header == FileHeader(n))
    && (forall i :: 0 <= i < |s.tasks| && s.tasks[i].Built? ==> s.tasks[i].offer.snaplen == n)
    && forall o :: o in s.offered ==> o.snaplen == n
  }

  /** While nobody changes the snaplen, the one in the file header is the one of every record. */
  lemma {:induction false} RunKeepsUniform(s: State, moves: seq<Move>, n: Snaplen)
    requires Uniform(s, n) && IsRun(s, moves) && forall m :: m in moves ==> !m.SetSnaplen?
    ensures Uniform(Run(s, moves), n)
    decreases |moves|
  {
    if moves != [] {
      assert moves[0] in moves;
      StepKeepsUniform(s, moves[0], n);
      RunKeepsUniform(Step(s, moves[0]), moves[1..], n);
    }
  }

  lemma StepKeepsUniform(s: State, m: Move, n: Snaplen)
    requires Uniform(s, n) && Enabled(s, m) && !m.SetSnaplen?
    ensures Uniform(Step(s, m), n)
  {
    hide Record, FileHeader;
  }

  /** The queue of a state, as the ring module sees it. */
  function QueueOf(s: State, dropped: nat): RingBuffer.Queue
  {
    RingBuffer.Queue(s.queue, s.capacity, s.signalled, dropped)
  }

  /** Run without interruption, a writer's steps are one write of the ring. */
  lemma UninterruptedWrite(s: State, i: nat, dropped: nat)
    requires i < |s.tasks| && s.tasks[i].Built? && s.owner.Nobody?
    ensures var record := Record(s.tasks[i].offer);
      var (q, ok) := RingBuffer.Write(QueueOf(s, dropped), record, false);
      var moves := [BeginWrite(i), Fill(i)] + if ok then [Release(i), Signal(i)] else [];
      && IsRun(s, moves) && QueueOf(Run(s, moves), q.dropped) == q
      && Run(s, moves).accepted == s.accepted + if ok then [record] else []
  {
    hide Record;
    var s1 := Step(s, BeginWrite(i));
    var s2 := Step(s1, Fill(i));
    if |s.queue| + |Record(s.tasks[i].offer)| <= s.capacity {
      var s3 := Step(s2, Release(i));
      RunOfFour(s, BeginWrite(i), Fill(i), Release(i), Signal(i));
      assert [BeginWrite(i), Fill(i)] + [Release(i), Signal(i)] == [BeginWrite(i), Fill(i), Release(i), Signal(i)];
    } else {
      RunOfTwo(s, BeginWrite(i), Fill(i));
      assert [BeginWrite(i), Fill(i)] + [] == [BeginWrite(i), Fill(i)];
    }
  }

  /** And the reader's steps are one read. */
  lemma UninterruptedRead(s: State, maxLength: nat, dropped: nat)
    requires s.reader.Waiting? && s.owner.Nobody? && s.signalled && s.queue != []
    ensures var (q, bytes) := RingBuffer.Read(QueueOf(s, dropped), maxLength);
      var moves := [TakeSignal(maxLength), LockReader, CopyOut, SignalAgain];
      && IsRun(s, moves) && QueueOf(Run(s, moves), dropped) == q && Run(s, moves).sent == s.sent + bytes
  {
    RunOfFour(s, TakeSignal(maxLength), LockReader, CopyOut, SignalAgain);
  }

  lemma RunOfTwo(s: State, a: Move, b: Move)
    requires Enabled(s, a) && Enabled(Step(s, a), b)
    ensures IsRun(s, [a, b]) && Run(s, [a, b]) == Step(Step(s, a), b)
  {
    assert [a, b][1..] == [b] && [b][1..] == [];
    assert IsRun(Step(Step(s, a), b), []);
    assert IsRun(Step(s, a), [b]);
    assert Run(Step(s, a), [b]) == Run(Step(Step(s, a), b), []);
  }

  lemma RunOfFour(s: State, a: Move, b: Move, c: Move, d: Move)
    requires Enabled(s, a) && Enabled(Step(s, a), b) && Enabled(Step(Step(s, a), b), c)
    requires Enabled(Step(Step(Step(s, a), b), c), d)
    ensures IsRun(s, [a, b, c, d]) && Run(s, [a, b, c, d]) == Step(Step(Step(Step(s, a), b), c), d)
  {
    RunOfTwo(Step(Step(s, a), b), c, d);
    assert [a, b, c, d][1..] == [b, c, d] && [b, c, d][1..] == [c, d];
    assert IsRun(Step(s, a), [b, c, d]);
    assert Run(Step(s, a), [b, c, d]) == Run(Step(Step(s, a), b), [c, d]);
  }

  /** A read that finds the ring empty returns nothing and leaves the signal taken. */
  lemma UninterruptedEmptyRead(s: State, maxLength: nat, dropped: nat)
    requires s.reader.Waiting? && s.owner.Nobody? && s.signalled && s.queue == []
    ensures var (q, bytes) := RingBuffer.Read(QueueOf(s, dropped), maxLength);
      var moves := [TakeSignal(maxLength), LockReader] + [CopyOut];
      && IsRun(s, moves) && Run(s, moves) == s.(signalled := false) && QueueOf(Run(s, moves), dropped) == q
         && bytes == []
  {
    RunOfThree(s, TakeSignal(maxLength), LockReader, CopyOut);
  }

  lemma RunOfThree(s: State, a: Move, b: Move, c: Move)
    requires Enabled(s, a) && Enabled(Step(s, a), b) && Enabled(Step(Step(s, a), b), c)
    ensures var moves := [a, b] + [c]; IsRun(s, moves) && Run(s, moves) == Step(Step(Step(s, a), b), c)
  {
    RunOfTwo(Step(s, a), b, c);
    assert ([a, b] + [c])[1..] == [b, c] && ([a, b] + [c])[0] == a;
  }

  /** A reset without interruption empties the queue and changes nothing else; it waits for the mutex. */
  lemma UninterruptedReset(s: State, i: nat, dropped: nat)
    requires i < |s.tasks| && s.tasks[i].Idle? && s.owner.Nobody?
    ensures var moves := [BeginReset(i), ClearRing(i)] + [Release(i)];
      && IsRun(s, moves) && Run(s, moves) == s.(queue := [])
      && QueueOf(Run(s, moves), 0) == RingBuffer.Reset(QueueOf(s, dropped))
  {
    RunOfThree(s, BeginReset(i), ClearRing(i), Release(i));
    assert Run(s, [BeginReset(i), ClearRing(i)] + [Release(i)]).tasks == s.tasks;
  }

  /** A capture is built with the snaplen in force and offered; if the mutex is taken it is dropped there and then. */
  lemma CaptureIsOffered(s: State, i: nat, p: Packet)
    requires i < |s.tasks| && s.tasks[i].Idle? && Sized(p)
    ensures var moves := [Capture(i, p), BeginWrite(i)];
      && IsRun(s, moves) && Run(s, moves).offered == s.offered + [Captured(p, s.snaplen)]
      && Run(s, moves).accepted == s.accepted
      && (!s.owner.Nobody? ==> Run(s, moves) == s.(offered := s.offered + [Captured(p, s.snaplen)]))
  {
    RunOfTwo(s, Capture(i, p), BeginWrite(i));
    assert !s.owner.Nobody? ==> Run(s, [Capture(i, p), BeginWrite(i)]).tasks == s.tasks;
  }

  /** The session starts with the file header at the snaplen in force. */
  lemma HeaderComesFirst(capacity: nat, tasks: nat, snaplen: Snaplen)
    ensures var s := Start(capacity, tasks, snaplen);
      Enabled(s, SendHeader) && Step(s, SendHeader).header == FileHeader(snaplen)
          && Step(s, SendHeader).reader == Waiting
  {
  }

  /** The snaplen set last. */
  function InForce(snaplen: Snaplen, moves: seq<Move>): Snaplen
    decreases |moves|
  {
    if moves == [] then snaplen
    else if moves[|moves| - 1].SetSnaplen? then moves[|moves| - 1].snaplen
    else InForce(snaplen, moves[..|moves| - 1])
  }

  lemma {:induction false} InForceFront(snaplen: Snaplen, moves: seq<Move>)
    requires moves != []
    ensures InForce(snaplen, moves) == InForce(if moves[0].SetSnaplen? then moves[0].snaplen else snaplen, moves[1..])
    decreases |moves|
  {
    if |moves| > 1 {
      InForceFront(snaplen, moves[..|moves| - 1]);
      assert moves[..|moves| - 1][1..] == moves[1..][..|moves| - 2];
    } else {
      assert moves[..0] == [] && moves[1..] == [];
    }
  }

  /** At every moment of a run the snaplen in force is the one set last. */
  lemma {:induction false} RunSetsSnaplen(s: State, moves: seq<Move>)
    requires IsRun(s, moves)
    ensures Run(s, moves).snaplen == InForce(s.snaplen, moves)
    decreases |moves|
  {
    hide InForce;
    if moves == [] {
      NothingSet(s.snaplen);
    } else {
      InForceFront(s.snaplen, moves);
      RunSetsSnaplen(Step(s, moves[0]), moves[1..]);
    }
  }

  lemma NothingSet(snaplen: Snaplen)
    ensures InForce(snaplen, []) == snaplen
  {
  }
}
