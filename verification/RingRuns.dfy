/**
 * Each operation of components/ring_buffer/ring_buffer.c, left alone from its first step to its
 * last, as the steps it is in the shared protocol.
 */
module RingRuns {
  import opened Arithmetic
  import opened Bytes
  import opened Ring
  import opened RingProtocol

  /** The buffer between two operations, whatever has been through it. */
  function Still(storage: seq<byte>, head: nat, tail: nat, accepted: seq<byte>, passed: seq<Option<byte>>): State
  {
    State(storage, head, tail, Resting, Waiting, accepted, passed)
  }

  /** Those steps are possible one after another from the one buffer, and lead to the other. */
  ghost predicate ActsAs(was: seq<byte>, head: nat, tail: nat, steps: seq<Step>,
                         now: seq<byte>, newHead: nat, newTail: nat, stored: seq<byte>, taken: seq<Option<byte>>)
  {
    forall accepted, passed ::
      Run(Still(was, head, tail, accepted, passed), steps, Still(now, newHead, newTail, accepted + stored, passed + taken))
  }

  function Times(step: Step, n: nat): (steps: seq<Step>)
    ensures |steps| == n
  {
    seq(n, _ => step)
  }

  /** One step and then another over and over. */
  function Repeated(first: Step, step: Step, n: nat): (steps: seq<Step>)
    ensures |steps| == n + 1
  {
    [first] + Times(step, n)
  }

  lemma RepeatedMore(first: Step, step: Step, n: nat)
    ensures Repeated(first, step, 0) == [first]
    ensures n > 0 ==> Repeated(first, step, n - 1) + [step] == Repeated(first, step, n)
  {
  }

  /** ring_buffer_write, or a push of one byte, when `n` bytes fit. */
  function WriteSteps(data: seq<byte>, n: nat): seq<Step>
  {
    if n == 0 then [StartWrite(data)] else Repeated(StartWrite(data), StoreByte, n) + [PublishHead]
  }

  /** ring_buffer_peek_bytes when `n` bytes are there to be copied. */
  function PeekSteps(most: nat, n: nat): seq<Step>
  {
    if n == 0 then [StartCopy(most)] else Repeated(StartCopy(most), CopyByte, n) + [EndPeek]
  }

  /** ring_buffer_read, or a pop of one byte. */
  function ReadSteps(most: nat, n: nat): seq<Step>
  {
    if n == 0 then [StartCopy(most)] else Repeated(StartCopy(most), CopyByte, n) + [TakeCopied] + [PublishTail]
  }

  /** ring_buffer_discard, and ring_buffer_clear. */
  function DropSteps(most: nat, n: nat): seq<Step>
  {
    if n == 0 then [StartDrop(most)] else [StartDrop(most)] + [PublishTail]
  }

  /** The store with `data` laid in it from `head` on, one byte after another. */
  function Laid(s: seq<byte>, head: nat, data: seq<byte>): (t: seq<byte>)
    requires head < |s| && |data| <= |s|
    ensures |t| == |s|
  {
    if |data| == 0 then s
    else Laid(s, head, data[..|data| - 1])[Wrap(head + |data| - 1, |s|) := data[|data| - 1]]
  }

  lemma LaidMore(s: seq<byte>, at: nat, data: seq<byte>, k: nat)
    requires at < |s| && k <= |data| <= |s|
    ensures Laid(s, at, data[..0]) == s
    ensures k > 0 ==> Laid(s, at, data[..k]) == Laid(s, at, data[..k - 1])[Wrap(at + k - 1, |s|) := data[k - 1]]
  {
    if k > 0 {
      assert data[..k][..k - 1] == data[..k - 1];
    }
  }

  lemma LaidNothing(s: seq<byte>, at: nat)
    requires at < |s|
    ensures Laid(s, at, []) == s
  {
  }

  /** Bytes copied in one run or two are bytes laid one after another. */
  lemma {:induction false} LaidInRuns(s: seq<byte>, head: nat, data: seq<byte>, i: nat)
    requires head < |s| && |data| <= |s| && i < |s|
    ensures Laid(s, head, data)[i] ==
              if head <= i < head + |data| then data[i - head]
              else if i + |s| < head + |data| then data[i + |s| - head] else s[i]
  {
    if |data| > 0 {
      LaidInRuns(s, head, data[..|data| - 1], i);
    }
  }

  lemma OneMoreStep(s: State, steps: seq<Step>, mid: State, step: Step)
    requires Run(s, steps, mid) && Shaped(mid) && Enabled(mid, step)
    ensures Run(s, steps + [step], Next(mid, step))
  {
    hide Next, Enabled, Shaped;
    var all := steps + [step];
    assert all[..|all| - 1] == steps && all[|all| - 1] == step;
  }

  lemma FirstStep(s: State, step: Step)
    requires Shaped(s) && Enabled(s, step)
    ensures Run(s, [step], Next(s, step))
  {
    hide Next, Enabled, Shaped;
    assert Run(s, [], s);
    OneMoreStep(s, [], s, step);
    assert [] + [step] == [step];
  }

  // ---- writing ---------------------------------------------------------------------------

  function Stored(s: State, data: seq<byte>, k: nat): State
    requires s.head < |s.storage| && k <= |data| <= |s.storage|
  {
    s.(storage := Laid(s.storage, s.head, data[..k]), producer := Storing(data, k))
  }

  lemma {:induction false} BytesStored(s: State, bytes: seq<byte>, n: nat, k: nat)
    requires Shaped(s) && s.producer.Resting? && n == Lesser(|bytes|, Free(|s.storage|, s.tail, s.head)) && 1 <= n && k <= n
    ensures Run(s, Repeated(StartWrite(bytes), StoreByte, k), Stored(s, bytes[..n], k))
  {
    hide Run, Repeated, Laid;
    var data := bytes[..n];
    RepeatedMore(StartWrite(bytes), StoreByte, k);
    LaidMore(s.storage, s.head, data, k);
    if k == 0 {
      FirstStep(s, StartWrite(bytes));
    } else {
      BytesStored(s, bytes, n, k - 1);
      var mid := Stored(s, data, k - 1);
      OneMoreStep(s, Repeated(StartWrite(bytes), StoreByte, k - 1), mid, StoreByte);
      assert Next(mid, StoreByte) == Stored(s, data, k);
    }
  }

  /** A write on its own is a run of the protocol, and leaves the store with its bytes laid in it. */
  lemma WriteActs(was: seq<byte>, head: nat, tail: nat, data: seq<byte>, n: nat)
    requires |was| >= 2 && head < |was| && tail < |was| && n == Lesser(|data|, Free(|was|, tail, head))
    ensures ActsAs(was, head, tail, WriteSteps(data, n), Laid(was, head, data[..n]), Wrap(head + n, |was|), tail, data[..n], [])
  {
    hide Run, WriteSteps, Laid, Shaped, Count;
    forall accepted, passed
      ensures Run(Still(was, head, tail, accepted, passed), WriteSteps(data, n),
                  Still(Laid(was, head, data[..n]), Wrap(head + n, |was|), tail, accepted + data[..n], passed + []))
    {
      assert passed + [] == passed;
      StillShaped(was, head, tail, accepted, passed);
      WriteRuns(Still(was, head, tail, accepted, passed), data, n);
    }
  }

  lemma StillShaped(storage: seq<byte>, head: nat, tail: nat, accepted: seq<byte>, passed: seq<Option<byte>>)
    requires |storage| >= 2 && head < |storage| && tail < |storage|
    ensures Shaped(Still(storage, head, tail, accepted, passed))
  {
  }

  function Written(s: State, front: seq<byte>): State
    requires Shaped(s) && |front| < |s.storage|
  {
    s.(storage := Laid(s.storage, s.head, front), head := Wrap(s.head + |front|, |s.storage|),
       accepted := s.accepted + front)
  }

  lemma WriteRuns(s: State, data: seq<byte>, n: nat)
    requires Shaped(s) && s.producer.Resting? && n == Lesser(|data|, Free(|s.storage|, s.tail, s.head))
    ensures Run(s, WriteSteps(data, n), Written(s, data[..n]))
  {
    hide Run, Laid, Repeated, Stored, Next, Written;
    if n == 0 {
      FirstStep(s, StartWrite(data));
      NothingWritten(s, data);
    } else {
      BytesStored(s, data, n, n);
      WholeStored(s, data[..n]);
      OneMoreStep(s, Repeated(StartWrite(data), StoreByte, n), Stored(s, data[..n], n), PublishHead);
    }
  }

  lemma NothingWritten(s: State, data: seq<byte>)
    requires Shaped(s) && s.producer.Resting? && Lesser(|data|, Free(|s.storage|, s.tail, s.head)) == 0
    ensures Next(s, StartWrite(data)) == Written(s, data[..0])
  {
    LaidNothing(s.storage, s.head);
    assert data[..0] == [] && s.accepted + [] == s.accepted;
  }

  /** With every byte in its place, all there is to do is to publish them. */
  lemma WholeStored(s: State, front: seq<byte>)
    requires Shaped(s) && s.producer.Resting? && |front| < |s.storage|
    ensures var mid := Stored(s, front, |front|);
            && Shaped(mid) && Enabled(mid, PublishHead)
            && Next(mid, PublishHead) == Written(s, front)
  {
    hide Laid;
    assert front[..|front|] == front;
  }

  // ---- reading ---------------------------------------------------------------------------

  /** After `k` bytes have been copied out. */
  function CopiedSo(s: State, n: nat, k: nat): State
    requires Shaped(s) && k <= n <= Count(|s.storage|, s.tail, s.head)
  {
    var out := Unrolled(s.storage, s.tail, s.head)[..k];
    s.(consumer := if k == n && n > 0 then Copied(out) else Copying(n, out))
  }

  lemma {:induction false} BytesCopied(s: State, most: nat, n: nat, k: nat)
    requires Shaped(s) && s.consumer.Waiting? && n == Lesser(most, Count(|s.storage|, s.tail, s.head)) && 1 <= n && k <= n
    ensures Run(s, Repeated(StartCopy(most), CopyByte, k), CopiedSo(s, n, k))
  {
    hide Run, Unrolled, Repeated;
    RepeatedMore(StartCopy(most), CopyByte, k);
    if k == 0 {
      FirstStep(s, StartCopy(most));
    } else {
      BytesCopied(s, most, n, k - 1);
      var mid := CopiedSo(s, n, k - 1);
      OneMoreStep(s, Repeated(StartCopy(most), CopyByte, k - 1), mid, CopyByte);
      UnrolledAt(s.storage, s.tail, s.head, k - 1);
      var all := Unrolled(s.storage, s.tail, s.head);
      assert all[..k] == all[..k - 1] + [all[k - 1]];
      assert Next(mid, CopyByte) == CopiedSo(s, n, k);
    }
  }

  lemma PeekActs(storage: seq<byte>, head: nat, tail: nat, most: nat, n: nat)
    requires |storage| >= 2 && head < |storage| && tail < |storage| && n == Lesser(most, Count(|storage|, tail, head))
    ensures ActsAs(storage, head, tail, PeekSteps(most, n), storage, head, tail, [], [])
  {
    hide Run, PeekSteps, Still, Count;
    forall accepted, passed
      ensures Run(Still(storage, head, tail, accepted, passed), PeekSteps(most, n),
                  Still(storage, head, tail, accepted + [], passed + []))
    {
      NothingPassed(storage, head, tail, accepted, passed);
      PeekRuns(Still(storage, head, tail, accepted, passed), most, n);
    }
  }

  lemma NothingPassed(storage: seq<byte>, head: nat, tail: nat, accepted: seq<byte>, passed: seq<Option<byte>>)
    requires |storage| >= 2 && head < |storage| && tail < |storage|
    ensures var s := Still(storage, head, tail, accepted, passed);
            && s == Still(storage, head, tail, accepted + [], passed + [])
            && Shaped(s) && s.consumer.Waiting? && s.storage == storage && s.head == head && s.tail == tail
  {
    assert accepted + [] == accepted && passed + [] == passed;
  }

  lemma PeekRuns(s: State, most: nat, n: nat)
    requires Shaped(s) && s.consumer.Waiting? && n == Lesser(most, Count(|s.storage|, s.tail, s.head))
    ensures Run(s, PeekSteps(most, n), s)
  {
    hide Run, Unrolled, Repeated;
    if n == 0 {
      FirstStep(s, StartCopy(most));
    } else {
      BytesCopied(s, most, n, n);
      OneMoreStep(s, Repeated(StartCopy(most), CopyByte, n), CopiedSo(s, n, n), EndPeek);
    }
  }

  /** A read on its own: what it passes on is the oldest bytes, every one of them read. */
  lemma ReadActs(storage: seq<byte>, head: nat, tail: nat, most: nat, n: nat)
    requires |storage| >= 2 && head < |storage| && tail < |storage| && n == Lesser(most, Count(|storage|, tail, head))
    ensures ActsAs(storage, head, tail, ReadSteps(most, n), storage, head, Wrap(tail + n, |storage|), [],
                   Passing(n, Unrolled(storage, tail, head)[..n]))
  {
    hide Run, Unrolled, Passing, Repeated;
    var out := Unrolled(storage, tail, head)[..n];
    forall accepted, passed
      ensures Run(Still(storage, head, tail, accepted, passed), ReadSteps(most, n),
                  Still(storage, head, Wrap(tail + n, |storage|), accepted + [], passed + Passing(n, out)))
    {
      var s := Still(storage, head, tail, accepted, passed);
      assert accepted + [] == accepted;
      if n == 0 {
        FirstStep(s, StartCopy(most));
        assert passed + Passing(0, out) == passed;
      } else {
        var steps := Repeated(StartCopy(most), CopyByte, n);
        BytesCopied(s, most, n, n);
        OneMoreStep(s, steps, CopiedSo(s, n, n), TakeCopied);
        OneMoreStep(s, steps + [TakeCopied], s.(consumer := Dropping(n, out)), PublishTail);
      }
    }
  }

  lemma DropActs(storage: seq<byte>, head: nat, tail: nat, most: nat, n: nat)
    requires |storage| >= 2 && head < |storage| && tail < |storage| && n == Lesser(most, Count(|storage|, tail, head))
    ensures ActsAs(storage, head, tail, DropSteps(most, n), storage, head, Wrap(tail + n, |storage|), [], Passing(n, []))
  {
    hide Run, Unrolled, Passing;
    forall accepted, passed
      ensures Run(Still(storage, head, tail, accepted, passed), DropSteps(most, n),
                  Still(storage, head, Wrap(tail + n, |storage|), accepted + [], passed + Passing(n, [])))
    {
      var s := Still(storage, head, tail, accepted, passed);
      assert accepted + [] == accepted;
      FirstStep(s, StartDrop(most));
      if n == 0 {
        assert passed + Passing(0, []) == passed;
      } else {
        OneMoreStep(s, [StartDrop(most)], s.(consumer := Dropping(n, [])), PublishTail);
      }
    }
  }
}
