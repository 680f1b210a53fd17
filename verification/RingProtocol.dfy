/**
 * One producer and one consumer sharing the buffer of components/ring_buffer/ring_buffer.c, in
 * steps that may fall between each other anywhere: an index is read, a byte is copied, an index
 * is published.
 */
module RingProtocol {
  import opened Arithmetic
  import opened Bytes
  import opened Ring

  /** `data` is what fitted when the other side's index was read; `done` of it is in place. */
  datatype Producer = Resting | Storing(data: seq<byte>, done: nat)

  /** `n` is what could be taken when the other side's index was read. */
  datatype Consumer = Waiting | Copying(n: nat, out: seq<byte>) | Copied(out: seq<byte>) | Dropping(n: nat, out: seq<byte>)

  datatype State = State(
    storage: seq<byte>, head: nat, tail: nat, producer: Producer, consumer: Consumer,
    accepted: seq<byte>,           // every byte published
    passed: seq<Option<byte>>)     // every byte taken: read, or let go unread

  datatype Step =
    | StartWrite(bytes: seq<byte>)   // push is a write of one byte
    | StoreByte
    | PublishHead
    | StartCopy(most: nat)           // peek_bytes, and the first half of read or pop
    | CopyByte
    | EndPeek                        // the copy was all that was wanted
    | TakeCopied                     // the second half of read or pop
    | StartDrop(most: nat)           // discard, and clear with no limit
    | PublishTail

  function Passing(n: nat, out: seq<byte>): (p: seq<Option<byte>>)
    ensures |p| == n
  {
    seq(n, i requires 0 <= i < n => if i < |out| then Some(out[i]) else None)
  }

  predicate Shaped(s: State)
  {
    && |s.storage| >= 2 && s.head < |s.storage| && s.tail < |s.storage|
    && (s.producer.Storing? ==> s.producer.done <= |s.producer.data| < |s.storage|)
    && (s.consumer.Dropping? ==> s.consumer.n < |s.storage|)
    && (s.consumer.Copying? ==> |s.consumer.out| <= s.consumer.n < |s.storage|)
  }

  /** Whether `step` is one either side can take now. */
  predicate Enabled(s: State, step: Step)
    requires Shaped(s)
  {
    match step
    case StartWrite(_) => s.producer.Resting?
    case StoreByte => s.producer.Storing? && s.producer.done < |s.producer.data|
    case PublishHead => s.producer.Storing? && s.producer.done == |s.producer.data|
    case StartCopy(_) => s.consumer.Waiting?
    case CopyByte => s.consumer.Copying? && |s.consumer.out| < s.consumer.n
    case EndPeek => s.consumer.Copied?
    case TakeCopied => s.consumer.Copied?
    case StartDrop(_) => s.consumer.Waiting?
    case PublishTail => s.consumer.Dropping?
  }

  /** Each side's own index cannot change under it, so reading the other's is all that can race. */
  function Next(s: State, step: Step): State
    requires Shaped(s) && Enabled(s, step)
  {
    var size := |s.storage|;
    match step
    case StartWrite(bytes) =>
      var n := Lesser(|bytes|, Free(size, s.tail, s.head));
      if n == 0 then s else s.(producer := Storing(bytes[..n], 0))
    case StoreByte =>
      var Storing(data, done) := s.producer;
      s.(storage := s.storage[Wrap(s.head + done, size) := data[done]], producer := Storing(data, done + 1))
    case PublishHead =>
      s.(head := Wrap(s.head + |s.producer.data|, size), accepted := s.accepted + s.producer.data, producer := Resting)
    case StartCopy(most) =>
      var n := Lesser(most, Count(size, s.tail, s.head));
      if n == 0 then s else s.(consumer := Copying(n, []))
    case CopyByte =>
      var Copying(n, out) := s.consumer;
      var more := out + [s.storage[Wrap(s.tail + |out|, size)]];
      s.(consumer := if |more| == n then Copied(more) else Copying(n, more))
    case EndPeek => s.(consumer := Waiting)
    case TakeCopied =>
      var n := Lesser(|s.consumer.out|, Count(size, s.tail, s.head));
      s.(consumer := if n == 0 then Waiting else Dropping(n, s.consumer.out))
    case StartDrop(most) =>
      var n := Lesser(most, Count(size, s.tail, s.head));
      if n == 0 then s else s.(consumer := Dropping(n, []))
    case PublishTail =>
      var Dropping(n, out) := s.consumer;
      s.(tail := Wrap(s.tail + n, size), passed := s.passed + Passing(n, out), consumer := Waiting)
  }

  // ---- what every interleaving keeps ---------------------------------------------------------

  /** Bytes copied out are the oldest not yet taken. */
  ghost predicate Oldest(s: State, out: seq<byte>)
    requires Shaped(s)
  {
    |out| <= Count(|s.storage|, s.tail, s.head) && out == Unrolled(s.storage, s.tail, s.head)[..|out|]
  }

  ghost predicate ProducerSafe(s: State)
    requires Shaped(s)
  {
    s.producer.Storing? ==>
      && |s.producer.data| <= Free(|s.storage|, s.tail, s.head)
      && forall k :: 0 <= k < s.producer.done ==> s.storage[Wrap(s.head + k, |s.storage|)] == s.producer.data[k]
  }

  ghost predicate ConsumerSafe(s: State)
    requires Shaped(s)
  {
    match s.consumer
    case Waiting => true
    case Copying(n, out) => |out| < n <= Count(|s.storage|, s.tail, s.head) && Oldest(s, out)
    case Copied(out) => |out| > 0 && Oldest(s, out)
    case Dropping(n, out) => n <= Count(|s.storage|, s.tail, s.head) && Oldest(s, out) && (out != [] ==> |out| == n)
  }

  /** Whatever was read is, place by place, what was accepted. */
  ghost predicate Faithful(passed: seq<Option<byte>>, accepted: seq<byte>)
  {
    |passed| <= |accepted| && forall i :: 0 <= i < |passed| && passed[i].Some? ==> passed[i].value == accepted[i]
  }

  ghost predicate Inv(s: State)
  {
    && Shaped(s)
    && Faithful(s.passed, s.accepted)
    && Unrolled(s.storage, s.tail, s.head) == s.accepted[|s.passed|..]
    && ProducerSafe(s) && ConsumerSafe(s)
  }

  function Start(storage: seq<byte>): State
  {
    State(storage, 0, 0, Resting, Waiting, [], [])
  }

  lemma StoreByteKeeps(s: State)
    requires Inv(s) && Enabled(s, StoreByte)
    ensures Inv(Next(s, StoreByte))
    ensures !Occupied(s.tail, s.head, Wrap(s.head + s.producer.done, |s.storage|))
  {
    hide Unrolled, Faithful, Passing, Occupied, Free;
    var size, at := |s.storage|, Wrap(s.head + s.producer.done, |s.storage|);
    FreeSlotApart(size, s.tail, s.head, s.producer.done);
    var t := Next(s, StoreByte);
    SameUnrolled(s.storage, t.storage, s.tail, s.head);
    forall k | 0 <= k <= s.producer.done ensures t.storage[Wrap(s.head + k, size)] == s.producer.data[k] {
      DistinctSlots(s.head, size, k, s.producer.done);
    }
  }

  lemma SameUnrolled(s: seq<byte>, t: seq<byte>, tail: nat, head: nat)
    requires |s| == |t| && tail < |s| && head < |s|
    requires forall i :: 0 <= i < |s| && Occupied(tail, head, i) ==> t[i] == s[i]
    ensures Unrolled(t, tail, head) == Unrolled(s, tail, head)
  {
  }

  lemma DistinctSlots(head: nat, size: nat, k: nat, done: nat)
    requires head < size && k <= done < size
    ensures k < done ==> Wrap(head + k, size) != Wrap(head + done, size)
  {
  }

  lemma PublishHeadKeeps(s: State)
    requires Inv(s) && Enabled(s, PublishHead)
    ensures Inv(Next(s, PublishHead))
  {
    hide Unrolled, Passing;
    var t := Next(s, PublishHead);
    HeadMoved(s.storage, s.storage, s.tail, s.head, s.producer.data);
    assert t.accepted[|s.passed|..] == s.accepted[|s.passed|..] + s.producer.data;
  }

  lemma CopyByteKeeps(s: State)
    requires Inv(s) && Enabled(s, CopyByte)
    ensures Inv(Next(s, CopyByte))
    ensures Occupied(s.tail, s.head, Wrap(s.tail + |s.consumer.out|, |s.storage|))
  {
    hide Unrolled, Passing;
    UnrolledAt(s.storage, s.tail, s.head, |s.consumer.out|);
  }

  lemma PublishTailKeeps(s: State)
    requires Inv(s) && Enabled(s, PublishTail)
    ensures Inv(Next(s, PublishTail))
  {
    hide Unrolled;
    var t := Next(s, PublishTail);
    var Dropping(n, out) := s.consumer;
    TailMoved(s.storage, s.tail, s.head, n);
    var queue := Unrolled(s.storage, s.tail, s.head);
    forall i | 0 <= i < |t.passed| && t.passed[i].Some? ensures t.passed[i].value == t.accepted[i] {
      if i >= |s.passed| {
        assert out[i - |s.passed|] == queue[..|out|][i - |s.passed|];
      }
    }
  }

  lemma StepKeepsInv(s: State, step: Step)
    requires Inv(s) && Enabled(s, step)
    ensures Inv(Next(s, step))
  {
    hide Unrolled, Passing, Faithful;
    match step
    case StoreByte => StoreByteKeeps(s);
    case PublishHead => PublishHeadKeeps(s);
    case CopyByte => CopyByteKeeps(s);
    case PublishTail => PublishTailKeeps(s);
    case _ =>
  }

  /** A run that takes only steps that were possible. */
  ghost predicate Run(s: State, steps: seq<Step>, t: State)
    decreases |steps|
  {
    if |steps| == 0 then s == t
    else exists mid :: Run(s, steps[..|steps| - 1], mid) && Shaped(mid) && Enabled(mid, steps[|steps| - 1]) &&
                       t == Next(mid, steps[|steps| - 1])
  }

  lemma {:induction false} RunKeepsInv(s: State, steps: seq<Step>, t: State)
    requires Inv(s) && Run(s, steps, t)
    ensures Inv(t)
    decreases |steps|
  {
    hide Inv;
    if |steps| > 0 {
      var mid :| Run(s, steps[..|steps| - 1], mid) && Shaped(mid) && Enabled(mid, steps[|steps| - 1]) &&
                 t == Next(mid, steps[|steps| - 1]);
      RunKeepsInv(s, steps[..|steps| - 1], mid);
      StepKeepsInv(mid, steps[|steps| - 1]);
    }
  }

  /** Every byte read, and no byte let go. */
  predicate AllRead(passed: seq<Option<byte>>)
  {
    forall i :: 0 <= i < |passed| ==> passed[i].Some?
  }

  function Read(passed: seq<Option<byte>>): (b: seq<byte>)
    requires AllRead(passed)
    ensures |b| == |passed|
  {
    seq(|passed|, i requires 0 <= i < |passed| => passed[i].value)
  }

  /**
   * However the two sides interleave, from any store of at least two slots: what has been taken is
   * a prefix of what was accepted, byte for byte wherever it was read; the rest is in the buffer,
   * in order; and with nothing let go unread, the bytes read are exactly that prefix.
   */
  lemma ConsumedIsPrefix(storage: seq<byte>, steps: seq<Step>, t: State)
    requires |storage| >= 2 && Run(Start(storage), steps, t)
    ensures Inv(t) && |t.passed| <= |t.accepted|
    ensures Unrolled(t.storage, t.tail, t.head) == t.accepted[|t.passed|..]
    ensures AllRead(t.passed) ==> Read(t.passed) == t.accepted[..|t.passed|]
  {
    RunKeepsInv(Start(storage), steps, t);
  }

  /**
   * The two sides never touch one slot: what the producer writes holds nothing, and what the
   * consumer copies has been published and not yet given back.
   */
  lemma SlotsApart(storage: seq<byte>, steps: seq<Step>, t: State)
    requires |storage| >= 2 && Run(Start(storage), steps, t)
    ensures Shaped(t)
    ensures Enabled(t, StoreByte) ==> !Occupied(t.tail, t.head, Wrap(t.head + t.producer.done, |t.storage|))
    ensures Enabled(t, CopyByte) ==> Occupied(t.tail, t.head, Wrap(t.tail + |t.consumer.out|, |t.storage|))
  {
    RunKeepsInv(Start(storage), steps, t);
    if Enabled(t, StoreByte) {
      StoreByteKeeps(t);
    }
    if Enabled(t, CopyByte) {
      CopyByteKeeps(t);
    }
  }
}
