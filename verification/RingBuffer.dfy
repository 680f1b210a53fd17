/** Positions in a circular store, and the bytes between two of them. */
module Ring {
  import opened Bytes

  /** One turn past the end at most. */
  function Wrap(i: nat, size: nat): (r: nat)
    requires i < 2 * size
    ensures r < size
  {
    if i >= size then i - size else i
  }

  function Count(size: nat, tail: nat, head: nat): (n: nat)
    requires tail < size && head < size
    ensures n < size && Wrap(tail + n, size) == head
  {
    if head >= tail then head - tail else size - tail + head
  }

  function Free(size: nat, tail: nat, head: nat): nat
    requires tail < size && head < size
  {
    size - 1 - Count(size, tail, head)
  }

  /** The bytes from `tail` up to `head`, oldest first. */
  function Unrolled(s: seq<byte>, tail: nat, head: nat): (r: seq<byte>)
    requires tail < |s| && head < |s|
    ensures |r| == Count(|s|, tail, head)
  {
    if head >= tail then s[tail..head] else s[tail..] + s[..head]
  }

  /** Slot `i` holds something. */
  predicate Occupied(tail: nat, head: nat, i: nat)
  {
    if head >= tail then tail <= i < head else i >= tail || i < head
  }

  lemma UnrolledAt(s: seq<byte>, tail: nat, head: nat, k: nat)
    requires tail < |s| && head < |s| && k < Count(|s|, tail, head)
    ensures Unrolled(s, tail, head)[k] == s[Wrap(tail + k, |s|)] && Occupied(tail, head, Wrap(tail + k, |s|))
  {
  }

  /** Moving `head` on by what is free takes in what was stored there, after what was there already. */
  lemma HeadMoved(s: seq<byte>, t: seq<byte>, tail: nat, head: nat, data: seq<byte>)
    requires tail < |s| && head < |s| && |t| == |s| && |data| <= Free(|s|, tail, head)
    requires forall i :: 0 <= i < |s| && Occupied(tail, head, i) ==> t[i] == s[i]
    requires forall k :: 0 <= k < |data| ==> t[Wrap(head + k, |s|)] == data[k]
    ensures Count(|s|, tail, Wrap(head + |data|, |s|)) == Count(|s|, tail, head) + |data|
    ensures Unrolled(t, tail, Wrap(head + |data|, |s|)) == Unrolled(s, tail, head) + data
  {
    var n, next := Count(|s|, tail, head), Wrap(head + |data|, |s|);
    var before, after := Unrolled(s, tail, head), Unrolled(t, tail, next);
    forall k | 0 <= k < n + |data| ensures after[k] == (before + data)[k] {
      UnrolledAt(t, tail, next, k);
      if k < n {
        UnrolledAt(s, tail, head, k);
      } else {
        assert Wrap(tail + k, |s|) == Wrap(head + (k - n), |s|);
      }
    }
  }

  lemma TailMoved(s: seq<byte>, tail: nat, head: nat, n: nat)
    requires tail < |s| && head < |s| && n <= Count(|s|, tail, head)
    ensures Count(|s|, Wrap(tail + n, |s|), head) == Count(|s|, tail, head) - n
    ensures Unrolled(s, Wrap(tail + n, |s|), head) == Unrolled(s, tail, head)[n..]
  {
    var next := Wrap(tail + n, |s|);
    var before, after := Unrolled(s, tail, head), Unrolled(s, next, head);
    forall k | 0 <= k < |before| - n ensures after[k] == before[n + k] {
      UnrolledAt(s, next, head, k);
      UnrolledAt(s, tail, head, n + k);
    }
  }

  /** The oldest bytes lie in one run, or in two when they come round the end. */
  lemma OldestInRuns(s: seq<byte>, tail: nat, head: nat, n: nat)
    requires tail < |s| && head < |s| && n <= Count(|s|, tail, head)
    ensures Unrolled(s, tail, head)[..n] ==
              if n <= |s| - tail then s[tail..tail + n] else s[tail..] + s[..n - (|s| - tail)]
  {
  }

  /** A slot still free is none of those that hold something. */
  lemma FreeSlotApart(size: nat, tail: nat, head: nat, i: nat)
    requires tail < size && head < size && i < Free(size, tail, head)
    ensures !Occupied(tail, head, Wrap(head + i, size))
  {
  }
}

/** One thread's view of components/ring_buffer/ring_buffer.c. */
module RingBuffers {
  import opened Arithmetic
  import opened Bytes
  import opened Ring
  import opened RingRuns
  import RingProtocol

  class RingBuffer {
    const storage: array<byte>
    var head: nat
    var tail: nat

    ghost predicate Valid()
      reads this
    {
      storage.Length >= 2 && head < storage.Length && tail < storage.Length
    }

    /** What has been stored and not yet taken. */
    ghost function Contents(): seq<byte>
      reads this, storage
      requires Valid()
    {
      Unrolled(storage[..], tail, head)
    }

    constructor (storage: array<byte>)
      requires storage.Length >= 2
      ensures Valid() && this.storage == storage && Contents() == []
    {
      this.storage := storage;
      head, tail := 0, 0;
    }

    /** ring_buffer_init: one slot is never used, so a store of fewer than two is no use. */
    static method Init(storage: array<byte>) returns (rb: RingBuffer?)
      ensures rb == null <==> storage.Length < 2
      ensures rb != null ==> fresh(rb) && rb.Valid() && rb.storage == storage && rb.Contents() == []
    {
      if storage.Length < 2 {
        return null;
      }
      rb := new RingBuffer(storage);
    }

    method Advance(index: nat, step: nat) returns (next: nat)
      requires Valid() && index < storage.Length && step <= storage.Length
      ensures next == Wrap(index + step, storage.Length)
    {
      next := index + step;
      while next >= storage.Length
        invariant next == index + step || next == index + step - storage.Length
        decreases next
      {
        next := next - storage.Length;
      }
    }

    function Capacity(): nat
      reads this
      requires Valid()
    {
      storage.Length - 1
    }

    method CountOf() returns (n: nat)
      requires Valid()
      ensures n == |Contents()|
    {
      return if head >= tail then head - tail else storage.Length - tail + head;
    }

    method FreeOf() returns (n: nat)
      requires Valid()
      ensures n == Capacity() - |Contents()| == Free(storage.Length, tail, head)
    {
      var count := CountOf();
      return Capacity() - count;
    }

    method Push(b: byte) returns (ok: bool)
      requires Valid()
      modifies this`head, storage
      ensures Valid()
      ensures ok <==> |old(Contents())| < Capacity()
      ensures Contents() == if ok then old(Contents()) + [b] else old(Contents())
      ensures var n := if ok then 1 else 0;
              ActsAs(old(storage[..]), old(head), tail, WriteSteps([b], n), storage[..], head, tail, [b][..n], [])
    {
      hide ActsAs, WriteSteps;
      WriteActs(storage[..], head, tail, [b], Lesser(1, Free(storage.Length, tail, head)));
      var next := Advance(head, 1);
      if next == tail {
        return false;
      }
      ghost var was := storage[..];
      storage[head] := b;
      HeadMoved(was, storage[..], tail, head, [b]);
      assert [b][..0] == [] && [b][..1] == [b];
      assert storage[..] == Laid(was, head, [b]);
      head := next;
      return true;
    }

    /** As much of `data` as fits, in at most two runs. */
    method Write(data: seq<byte>) returns (n: nat)
      requires Valid()
      modifies this`head, storage
      ensures Valid()
      ensures n == if |data| < Capacity() - |old(Contents())| then |data| else Capacity() - |old(Contents())|
      ensures Contents() == old(Contents()) + data[..n]
      ensures ActsAs(old(storage[..]), old(head), tail, WriteSteps(data, n), storage[..], head, tail, data[..n], [])
    {
      hide Unrolled, ActsAs, WriteSteps, Laid, InRuns, Occupied;
      n := FreeOf();
      if |data| < n {
        n := |data|;
      }
      WriteActs(storage[..], head, tail, data, n);
      if n == 0 {
        LaidNothing(storage[..], head);
        assert data[..0] == [];
        return;
      }
      var untilEnd := storage.Length - head;
      var first := if n < untilEnd then n else untilEnd;
      ghost var was := storage[..];
      CopyRuns(data, first, n);
      CopiedApart(was, storage[..], data[..n]);
      CopiedIsLaid(was, storage[..], data[..n]);
      HeadMoved(was, storage[..], tail, head, data[..n]);
      head := Advance(head, n);
    }

    method CopyRuns(data: seq<byte>, first: nat, n: nat)
      requires Valid() && first <= n <= |data| && n < storage.Length
      requires first == if n < storage.Length - head then n else storage.Length - head
      modifies storage
      ensures forall k :: 0 <= k < n ==> storage[Wrap(head + k, storage.Length)] == data[k]
      ensures forall i :: 0 <= i < storage.Length && !InRuns(head, n, storage.Length, i) ==> storage[i] == old(storage[i])
    {
      forall i | 0 <= i < first {
        storage[head + i] := data[i];
      }
      if n > first {
        forall i | 0 <= i < n - first {
          storage[i] := data[first + i];
        }
      }
    }

    static predicate InRuns(head: nat, n: nat, size: nat, i: nat)
    {
      head <= i < head + n || i + size < head + n
    }

    /** One run or two, the bytes are where one after another they would be. */
    lemma CopiedIsLaid(was: seq<byte>, now: seq<byte>, data: seq<byte>)
      requires Valid() && |was| == |now| == storage.Length && |data| < |was|
      requires forall k :: 0 <= k < |data| ==> now[Wrap(head + k, |was|)] == data[k]
      requires forall i :: 0 <= i < |was| && !InRuns(head, |data|, |was|, i) ==> now[i] == was[i]
      ensures now == Laid(was, head, data)
    {
      hide Laid;
      forall i | 0 <= i < |was| ensures now[i] == Laid(was, head, data)[i] {
        LaidInRuns(was, head, data, i);
        if head <= i < head + |data| {
          assert Wrap(head + (i - head), |was|) == i;
        } else if i + |was| < head + |data| {
          assert Wrap(head + (i + |was| - head), |was|) == i;
        }
      }
    }

    lemma CopiedApart(was: seq<byte>, now: seq<byte>, data: seq<byte>)
      requires Valid() && |was| == |now| == storage.Length && |data| <= Free(storage.Length, tail, head)
      requires forall i :: 0 <= i < |was| && !InRuns(head, |data|, |was|, i) ==> now[i] == was[i]
      ensures forall i :: 0 <= i < |was| && Occupied(tail, head, i) ==> now[i] == was[i]
    {
    }

    method Peek() returns (b: Option<byte>)
      requires Valid()
      ensures b == if Contents() == [] then None else Some(Contents()[0])
      ensures ActsAs(storage[..], head, tail, PeekSteps(1, if b == None then 0 else 1), storage[..], head, tail, [], [])
    {
      hide ActsAs, PeekSteps;
      PeekActs(storage[..], head, tail, 1, Lesser(1, Count(storage.Length, tail, head)));
      if head == tail {
        return None;
      }
      return Some(storage[tail]);
    }

    method Pop() returns (b: Option<byte>)
      requires Valid()
      modifies this`tail
      ensures Valid()
      ensures b == if old(Contents()) == [] then None else Some(old(Contents())[0])
      ensures Contents() == if b == None then old(Contents()) else old(Contents())[1..]
      ensures var n := if b == None then 0 else 1;
              ActsAs(storage[..], head, old(tail), ReadSteps(1, n), storage[..], head, tail, [],
                     RingProtocol.Passing(n, old(Contents())[..n]))
    {
      hide ActsAs, ReadSteps, RingProtocol.Passing;
      ReadActs(storage[..], head, tail, 1, Lesser(1, Count(storage.Length, tail, head)));
      if head == tail {
        return None;
      }
      TailMoved(storage[..], tail, head, 1);
      b := Some(storage[tail]);
      tail := Advance(tail, 1);
    }

    /** The oldest bytes, left where they are. */
    method PeekBytes(len: nat) returns (bytes: seq<byte>)
      requires Valid()
      ensures bytes == Contents()[..if len < |Contents()| then len else |Contents()|]
      ensures ActsAs(storage[..], head, tail, PeekSteps(len, |bytes|), storage[..], head, tail, [], [])
    {
      hide ActsAs, PeekSteps, Unrolled;
      PeekActs(storage[..], head, tail, len, Lesser(len, Count(storage.Length, tail, head)));
      OldestInRuns(storage[..], tail, head, Lesser(len, Count(storage.Length, tail, head)));
      var readable := CountOf();
      if len < readable {
        readable := len;
      }
      if readable == 0 {
        return [];
      }
      var untilEnd := storage.Length - tail;
      var first := if readable < untilEnd then readable else untilEnd;
      bytes := storage[tail..tail + first];
      if readable > first {
        bytes := bytes + storage[..readable - first];
      }
    }

    method Discard(len: nat) returns (dropped: nat)
      requires Valid()
      modifies this`tail
      ensures Valid()
      ensures dropped == if len < |old(Contents())| then len else |old(Contents())|
      ensures Contents() == old(Contents())[dropped..] && tail == Wrap(old(tail) + dropped, storage.Length)
      ensures ActsAs(storage[..], head, old(tail), DropSteps(len, dropped), storage[..], head, tail, [],
                     RingProtocol.Passing(dropped, []))
    {
      hide ActsAs, DropSteps, RingProtocol.Passing;
      DropActs(storage[..], head, tail, len, Lesser(len, Count(storage.Length, tail, head)));
      dropped := CountOf();
      if len < dropped {
        dropped := len;
      }
      if dropped == 0 {
        return;
      }
      TailMoved(storage[..], tail, head, dropped);
      tail := Advance(tail, dropped);
    }

    method Read(len: nat) returns (bytes: seq<byte>)
      requires Valid()
      modifies this`tail
      ensures Valid()
      ensures bytes == old(Contents())[..if len < |old(Contents())| then len else |old(Contents())|]
      ensures Contents() == old(Contents())[|bytes|..]
      ensures ActsAs(storage[..], head, old(tail), ReadSteps(len, |bytes|), storage[..], head, tail, [],
                     RingProtocol.Passing(|bytes|, bytes))
    {
      hide Unrolled, ActsAs, ReadSteps, PeekSteps, DropSteps, RingProtocol.Passing;
      ReadActs(storage[..], head, tail, len, Lesser(len, Count(storage.Length, tail, head)));
      bytes := PeekBytes(len);
      var dropped := Discard(|bytes|);
    }

    method Clear()
      requires Valid()
      modifies this`tail
      ensures Valid() && Contents() == []
      ensures ActsAs(storage[..], head, old(tail), DropSteps(|old(Contents())|, |old(Contents())|), storage[..], head, tail, [],
                     RingProtocol.Passing(|old(Contents())|, []))
    {
      hide ActsAs, DropSteps, RingProtocol.Passing;
      DropActs(storage[..], head, tail, |Contents()|, |Contents()|);
      tail := head;
    }
  }
}
