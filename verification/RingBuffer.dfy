/** The circular byte buffer between packet capture and the TCP task, refining a bounded queue of bytes. */
module RingBuffer {
  import opened Words

  /** The queue the buffer stands for. `signalled` is the binary semaphore. */
  datatype Queue = Queue(bytes: seq<byte>, capacity: nat, signalled: bool, dropped: nat)

  /** All or nothing: a record that does not fit, or meets a busy mutex, is dropped. */
  function Write(q: Queue, record: seq<byte>, busy: bool): (Queue, bool)
  {
    if busy || |q.bytes| + |record| > q.capacity then (q.(dropped := q.dropped + 1), false)
    else (q.(bytes := q.bytes + record, signalled := true), true)
  }

  /** Reads wait for the semaphore first; without it they time out. */
  function Read(q: Queue, maxLength: nat): (Queue, seq<byte>)
  {
    if !q.signalled then (q, [])
    else
      var n := Min(maxLength, |q.bytes|);
      (q.(bytes := q.bytes[n..], signalled := |q.bytes| > n), q.bytes[..n])
  }

  function Skip(q: Queue, length: nat): Queue
  {
    q.(bytes := q.bytes[Min(length, |q.bytes|)..])
  }

  function Reset(q: Queue): Queue { q.(bytes := [], dropped := 0) }

  /** The n bytes from `tail` on, across the wrap. */
  function View(d: seq<byte>, tail: nat, n: nat): (v: seq<byte>)
    requires tail < |d| && n <= |d|
    ensures |v| == n && forall i :: 0 <= i < n ==> v[i] == d[if tail + i < |d| then tail + i else tail + i - |d|]
  {
    if tail + n <= |d| then d[tail..tail + n] else d[tail..] + d[..tail + n - |d|]
  }

  /** The array after a record has been copied in at `head`, across the wrap. */
  predicate Stored(d: seq<byte>, head: nat, record: seq<byte>, d': seq<byte>)
    requires head < |d| && |record| <= |d|
  {
    && |d'| == |d|
    && (forall i :: 0 <= i < |record| ==> d'[if head + i < |d| then head + i else head + i - |d|] == record[i])
    && (forall j :: 0 <= j < |d| && !(head <= j < head + |record|) && !(j < head + |record| - |d|) ==> d'[j] == d[j])
  }

  /** A position in an array of the given size, across the wrap. */
  function At(k: nat, size: nat): nat { if k < size then k else k - size }

  lemma StoredAt(d: seq<byte>, d': seq<byte>, tail: nat, n: nat, record: seq<byte>, i: nat)
    requires tail < |d| && n + |record| <= |d| && i < n + |record|
    requires At(tail + n, |d|) < |d| && Stored(d, At(tail + n, |d|), record, d')
    ensures |d'| == |d| && At(tail + i, |d|) < |d|
    ensures d'[At(tail + i, |d|)] == if i < n then d[At(tail + i, |d|)] else record[i - n]
  {
    var head := At(tail + n, |d|);
    if i >= n {
      assert At(tail + i, |d|) == if head + (i - n) < |d| then head + (i - n) else head + (i - n) - |d|;
    }
  }

  /** Copying at the head extends what is seen from the tail. */
  lemma StoredExtends(d: seq<byte>, d': seq<byte>, tail: nat, n: nat, record: seq<byte>)
    requires tail < |d| && n + |record| <= |d|
    requires At(tail + n, |d|) < |d| && Stored(d, At(tail + n, |d|), record, d')
    ensures View(d', tail, n + |record|) == View(d, tail, n) + record
  {
    assert |d'| == |d|;
    hide Stored;
    var v, w := View(d', tail, n + |record|), View(d, tail, n) + record;
    forall i | 0 <= i < |v|
      ensures v[i] == w[i]
    {
      StoredAt(d, d', tail, n, record, i);
    }
  }

  lemma ViewDrops(d: seq<byte>, tail: nat, n: nat, count: nat)
    requires tail < |d| && count <= n <= |d|
    ensures var tail' := if tail + count < |d| then tail + count else tail + count - |d|;
      tail' < |d| && View(d, tail', n - count) == View(d, tail, n)[count..]
  {
  }

  class Ring {
    const data: array<byte>
    var head: nat
    var tail: nat
    var available: nat
    var dropped: nat
    var dataReady: bool

    ghost predicate Valid()
      reads this
    {
      && tail < data.Length && available <= data.Length
      && head == (tail + available) % data.Length
    }

    /** Oldest byte first, across the wrap. */
    ghost function Bytes(): seq<byte>
      reads this, data
      requires Valid()
    {
      View(data[..], tail, available)
    }

    ghost function Abstract(): Queue
      reads this, data
      requires Valid()
    {
      Queue(Bytes(), data.Length, dataReady, dropped)
    }

    /** An allocated, empty ring. */
    constructor (size: nat)
      requires size > 0
      ensures Valid() && fresh(data) && Abstract() == Queue([], size, false, 0)
    {
      data := new byte[size](_ => 0);
      head, tail, available, dropped, dataReady := 0, 0, 0, 0, false;
    }

    /** `ringbuf_write`; `busy` tells whether another task holds the mutex. */
    method TryWrite(record: seq<byte>, busy: bool) returns (ok: bool)
      requires Valid()
      modifies this, data
      ensures Valid()
      ensures (Abstract(), ok) == Write(old(Abstract()), record, busy)
      ensures ok == (!busy && old(available) + |record| <= data.Length)
      ensures Bytes() == (if ok then old(Bytes()) + record else old(Bytes())) && dataReady == (ok || old(dataReady))
      ensures dropped == if ok then old(dropped) else old(dropped) + 1
    {
      hide View, Stored;
      ghost var d := data[..];
      if busy {
        dropped := dropped + 1;
        return false;
      }
      var freeSpace := data.Length - available;
      if |record| > freeSpace {
        dropped := dropped + 1;
        return false;
      }
      HeadPosition(tail, available, data.Length);
      Advance(tail, available, |record|, data.Length);
      StoreAtHead(record);
      StoredExtends(d, data[..], tail, available, record);
      available := available + |record|;
      dataReady := true;
      ok := true;
    }

    /** The two copies of the writer and its two formulas for the new head. */
    method StoreAtHead(record: seq<byte>)
      requires head < data.Length && |record| <= data.Length
      modifies this`head, data
      ensures Stored(old(data[..]), old(head), record, data[..])
      ensures head == if data.Length - old(head) >= |record| then (old(head) + |record|) % data.Length
                      else |record| - (data.Length - old(head))
    {
      var firstChunk := data.Length - head;
      if firstChunk >= |record| {
        forall i | 0 <= i < |record| { data[head + i] := record[i]; }
        head := (head + |record|) % data.Length;
      } else {
        forall i | 0 <= i < firstChunk { data[head + i] := record[i]; }
        forall i | 0 <= i < |record| - firstChunk { data[i] := record[firstChunk + i]; }
        head := |record| - firstChunk;
      }
    }

    /** The copy `ringbuf_read` and `ringbuf_peek` share. */
    method CopyOut(count: nat) returns (bytes: seq<byte>)
      requires Valid() && count <= available
      ensures bytes == Bytes()[..count]
    {
      var firstChunk := data.Length - tail;
      if firstChunk >= count {
        bytes := data[tail..tail + count];
      } else {
        bytes := data[tail..tail + firstChunk];
        bytes := bytes + data[..count - firstChunk];
      }
    }

    /** `ringbuf_read`. */
    method TakeUpTo(maxLength: nat) returns (bytes: seq<byte>)
      requires Valid()
      modifies this
      ensures Valid()
      ensures (Abstract(), bytes) == Read(old(Abstract()), maxLength)
      ensures |bytes| == if !old(dataReady) then 0 else if maxLength < old(available) then maxLength else old(available)
      ensures bytes + Bytes() == old(Bytes()) && dropped == old(dropped)
      ensures dataReady == (old(dataReady) && available > 0)
    {
      hide View;
      bytes := [];
      if !dataReady { return; }
      dataReady := false;
      if available == 0 { return; }
      var toRead := if maxLength < available then maxLength else available;
      bytes := CopyOut(toRead);
      MoveTail(toRead);
      if available > 0 {
        dataReady := true;
      }
    }

    /** The reader's tail moves over the bytes it took; its two formulas for the new position agree. */
    method MoveTail(count: nat)
      requires Valid() && count <= available
      modifies this`tail, this`available
      ensures Valid() && available == old(available) - count && Bytes() == old(Bytes())[count..]
    {
      hide View;
      TailPosition(tail, available, count, data.Length);
      ViewDrops(data[..], tail, available, count);
      if data.Length - tail >= count {
        tail := (tail + count) % data.Length;
      } else {
        tail := count - (data.Length - tail);
      }
      available := available - count;
    }

    /** `ringbuf_peek`. */
    method Peek(maxLength: nat) returns (bytes: seq<byte>)
      requires Valid()
      ensures bytes == Bytes()[..if maxLength < available then maxLength else available]
    {
      bytes := [];
      if available == 0 { return; }
      var toRead := if maxLength < available then maxLength else available;
      bytes := CopyOut(toRead);
    }

    /** `ringbuf_skip`. */
    method SkipUpTo(length: nat)
      requires Valid()
      modifies this`tail, this`available
      ensures Valid() && Abstract() == Skip(old(Abstract()), length)
      ensures Bytes() == old(Bytes())[if length < old(available) then length else old(available)..]
    {
      hide View;
      var n := if length > available then available else length;
      TailPosition(tail, available, n, data.Length);
      HeadPosition(tail, n, data.Length);
      ViewDrops(data[..], tail, available, n);
      tail := (tail + n) % data.Length;
      available := available - n;
    }

    /** `ringbuf_reset`: the semaphore is left as it is. */
    method Clear()
      requires Valid()
      modifies this
      ensures Valid() && Abstract() == Reset(old(Abstract()))
      ensures Bytes() == [] && dropped == 0 && dataReady == old(dataReady)
    {
      head, tail, available, dropped := 0, 0, 0, 0;
    }
  }

  lemma HeadPosition(tail: nat, available: nat, size: nat)
    requires tail < size && available <= size
    ensures (tail + available) % size == if tail + available < size then tail + available else tail + available - size
  {
    if tail + available >= size { ModOnce(tail + available, size); }
  }

  lemma ModOnce(x: nat, size: nat)
    requires size <= x < 2 * size
    ensures x % size == x - size
  {
    assert x == size * 1 + (x - size);
    assert x / size == 1;
  }

  /** The new head, by whichever of the writer's two formulas, is where it has to be. */
  lemma Advance(tail: nat, available: nat, length: nat, size: nat)
    requires tail < size && available + length <= size
    ensures var head := (tail + available) % size;
      (tail + (available + length)) % size
          == if size - head >= length then (head + length) % size else length - (size - head)
  {
    HeadPosition(tail, available, size);
    HeadPosition(tail, available + length, size);
    var head := (tail + available) % size;
    if size - head == length {
      HeadPosition(head, length, size);
    } else if size - head > length {
      HeadPosition(head, length, size);
    }
  }

  lemma TailPosition(tail: nat, available: nat, count: nat, size: nat)
    requires tail < size && count <= available <= size
    ensures var tail' := if size - tail >= count then (tail + count) % size else count - (size - tail);
      tail' < size && (tail' + (available - count)) % size == (tail + available) % size
      && tail' == if tail + count < size then tail + count else tail + count - size
  {
    HeadPosition(tail, count, size);
    HeadPosition(tail, available, size);
    var tail' := if tail + count < size then tail + count else tail + count - size;
    HeadPosition(tail', available - count, size);
  }

  datatype Op = Put(record: seq<byte>, busy: bool) | Take(maxLength: nat) | Drop(length: nat)

  function Apply(q: Queue, op: Op): Queue
  {
    match op
    case Put(r, busy) => Write(q, r, busy).0
    case Take(n) => Read(q, n).0
    case Drop(n) => Skip(q, n)
  }

  /** What one operation accepts, delivers to the reader and skips. */
  function Accepted(q: Queue, op: Op): seq<byte>
  {
    if op.Put? && Write(q, op.record, op.busy).1 then op.record else []
  }

  function Removed(q: Queue, op: Op): seq<byte>
  {
    match op
    case Put(_, _) => []
    case Take(n) => Read(q, n).1
    case Drop(n) => q.bytes[..Min(n, |q.bytes|)]
  }

  function Run(q: Queue, ops: seq<Op>): Queue
    decreases |ops|
  {
    if ops == [] then q else Run(Apply(q, ops[0]), ops[1..])
  }

  function AllAccepted(q: Queue, ops: seq<Op>): seq<byte>
    decreases |ops|
  {
    if ops == [] then [] else Accepted(q, ops[0]) + AllAccepted(Apply(q, ops[0]), ops[1..])
  }

  function AllRemoved(q: Queue, ops: seq<Op>): seq<byte>
    decreases |ops|
  {
    if ops == [] then [] else Removed(q, ops[0]) + AllRemoved(Apply(q, ops[0]), ops[1..])
  }

  function Attempts(ops: seq<Op>): nat
  {
    if ops == [] then 0 else (if ops[0].Put? then 1 else 0) + Attempts(ops[1..])
  }

  function AcceptedCount(q: Queue, ops: seq<Op>): nat
    decreases |ops|
  {
    if ops == [] then 0
    else
      var first := if ops[0].Put? && Write(q, ops[0].record, ops[0].busy).1 then 1 else 0;
      first + AcceptedCount(Apply(q, ops[0]), ops[1..])
  }

  /** Readable bytes are always announced, and the queue never outgrows the buffer. */
  predicate Live(q: Queue) { (q.bytes != [] ==> q.signalled) && |q.bytes| <= q.capacity }

  /** Over any run without a reset: bytes leave in the order they were accepted, none is lost or made up, every
      attempted write is either accepted or counted as dropped, and a reader is never left waiting beside readable
      bytes. */
  lemma {:induction false} RunConserves(q: Queue, ops: seq<Op>)
    requires Live(q)
    ensures var r := Run(q, ops);
      && Live(r) && r.capacity == q.capacity
      && AllRemoved(q, ops) + r.bytes == q.bytes + AllAccepted(q, ops)
      && r.dropped + AcceptedCount(q, ops) == q.dropped + Attempts(ops)
    decreases |ops|
  {
    if ops != [] {
      var q' := Apply(q, ops[0]);
      var rest := ops[1..];
      StepConserves(q, ops[0]);
      RunConserves(q', rest);
      Chain(Removed(q, ops[0]), AllRemoved(q', rest), Run(q, ops).bytes, q'.bytes, AllAccepted(q', rest), q.bytes,
          Accepted(q, ops[0]));
    }
  }

  lemma Chain(r0: seq<byte>, r1: seq<byte>, end: seq<byte>, mid: seq<byte>, a1: seq<byte>, start: seq<byte>,
      a0: seq<byte>)
    requires r1 + end == mid + a1 && r0 + mid == start + a0
    ensures (r0 + r1) + end == start + (a0 + a1)
  {
    calc {
      (r0 + r1) + end;
      r0 + (r1 + end);
      r0 + (mid + a1);
      (r0 + mid) + a1;
      (start + a0) + a1;
      start + (a0 + a1);
    }
  }

  lemma StepConserves(q: Queue, op: Op)
    requires Live(q)
    ensures var q' := Apply(q, op);
      && Live(q') && q'.capacity == q.capacity && Removed(q, op) + q'.bytes == q.bytes + Accepted(q, op)
      && q'.dropped + AcceptedCount(q, [op]) == q.dropped + Attempts([op])
  {
  }
}
