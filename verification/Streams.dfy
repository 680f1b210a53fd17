/**
 * Byte streams over a link that may take less than it is offered, or claim more
 * (components/tcp/tcp_stream.c and components/bluetooth/bt_stream.c).
 */
module Streams {
  import opened Arithmetic
  import opened Bytes
  import opened RingBuffers
  import Ring
  import RingProtocol
  import RingRuns

  const SEGMENT_MAX: nat := 512

  /** What one session has carried: `sent` has reached the link, `queued` has yet to. */
  datatype Session = Session(written: seq<byte>, sent: seq<byte>)

  /** In order, nothing lost, nothing twice. */
  predicate InOrder(s: Session, queued: seq<byte>)
  {
    s.written == s.sent + queued
  }

  lemma SentMore(s: Session, queued: seq<byte>, n: nat)
    requires InOrder(s, queued) && n <= |queued|
    ensures InOrder(Session(s.written, s.sent + queued[..n]), queued[n..])
  {
    assert queued == queued[..n] + queued[n..];
  }

  lemma WrittenMore(s: Session, queued: seq<byte>, more: seq<byte>)
    requires InOrder(s, queued)
    ensures InOrder(Session(s.written + more, s.sent), queued + more)
  {
  }

  /** One segment put to the link, and how much of it the link says it took. */
  datatype Exchange = Exchange(offered: seq<byte>, accepted: nat)

  /** A link cannot take more of a segment than there is of it, whatever it says. */
  function Taken(x: Exchange): (n: nat)
    ensures n <= |x.offered|
  {
    Lesser(x.accepted, |x.offered|)
  }

  predicate Refused(x: Exchange)
  {
    x.accepted < |x.offered|
  }

  function TakenIn(log: seq<Exchange>): nat
  {
    if |log| == 0 then 0 else TakenIn(log[..|log| - 1]) + Taken(log[|log| - 1])
  }

  lemma TakenMore(log: seq<Exchange>, x: Exchange)
    ensures TakenIn(log + [x]) == TakenIn(log) + Taken(x)
  {
    assert (log + [x])[..|log|] == log;
  }

  /** The other end of the line: what it was offered, what it said, and what it has got. */
  class Link {
    ghost var offers: seq<Exchange>
    ghost var got: seq<byte>

    constructor ()
      ensures offers == [] && got == []
    {
      offers, got := [], [];
    }

    /** How much it says it took is its own affair. */
    method Send(segment: seq<byte>) returns (accepted: nat)
      modifies this
      ensures accepted < 0x1_0000
      ensures offers == old(offers) + [Exchange(segment, accepted)]
      ensures got == old(got) + segment[..Lesser(accepted, |segment|)]
    {
      accepted :| accepted < 0x1_0000;
      offers := offers + [Exchange(segment, accepted)];
      got := got + segment[..Lesser(accepted, |segment|)];
    }
  }

  /** The most a segment may carry of `pending` bytes into `room`. */
  function Chunk(room: nat, pending: nat): nat
  {
    Lesser(Lesser(room, pending), SEGMENT_MAX)
  }

  /** As much as fits: all that is pending, or all there is room for, or a segment's 512 bytes. */
  lemma ChunkIsLeast(room: nat, pending: nat)
    ensures Chunk(room, pending) <= room && Chunk(room, pending) <= pending && Chunk(room, pending) <= 512
    ensures Chunk(room, pending) in {room, pending, 512}
  {
  }

  /**
   * Segments offered one after another from the front of what was pending, each as much as fits,
   * and none after one that was refused in part.
   */
  predicate InTurn(pending: seq<byte>, room: nat, log: seq<Exchange>)
  {
    if |log| == 0 then true
    else
      var front, x := log[..|log| - 1], log[|log| - 1];
      var at := TakenIn(front);
      && InTurn(pending, room, front) && (|front| > 0 ==> !Refused(front[|front| - 1]))
      && at < room && at < |pending|
      && x.offered == pending[at..at + Chunk(room - at, |pending| - at)]
  }

  lemma InTurnMore(pending: seq<byte>, room: nat, log: seq<Exchange>, x: Exchange)
    requires InTurn(pending, room, log) && (|log| > 0 ==> !Refused(log[|log| - 1]))
    requires TakenIn(log) < room && TakenIn(log) < |pending|
    requires x.offered == pending[TakenIn(log)..TakenIn(log) + Chunk(room - TakenIn(log), |pending| - TakenIn(log))]
    ensures InTurn(pending, room, log + [x])
  {
    assert (log + [x])[..|log|] == log;
  }

  /** A flush that stopped only where it should: refused, out of room, or with nothing left. */
  predicate Flushed(pending: seq<byte>, room: nat, log: seq<Exchange>)
  {
    && InTurn(pending, room, log)
    && ((log != [] && Refused(log[|log| - 1])) || TakenIn(log) == Lesser(room, |pending|))
  }

  /** The counter of bytes sent, which wraps. */
  function Counted(start: nat, log: seq<Exchange>): nat
  {
    if log == [] then start else U32(start + TakenIn(log))
  }

  /** The stream and the link as a flush begins. */
  datatype Beginning = Beginning(
    queue: seq<byte>, output: Session, got: seq<byte>, offers: seq<Exchange>, bytesSent: nat)

  lemma InOneGo(start: seq<byte>, queue: seq<byte>, log: seq<Exchange>, x: Exchange)
    requires TakenIn(log) <= |queue| && TakenIn(log + [x]) <= |queue| && TakenIn(log + [x]) == TakenIn(log) + Taken(x)
    ensures start + queue[..TakenIn(log)] + queue[TakenIn(log)..][..Taken(x)] == start + queue[..TakenIn(log + [x])]
  {
    hide TakenIn, Taken;
  }

  lemma StopsThere(queue: seq<byte>, room: nat, log: seq<Exchange>)
    requires InTurn(queue, room, log) && TakenIn(log) <= |queue| && TakenIn(log) <= room
    ensures (log != [] && Refused(log[|log| - 1])) || TakenIn(log) == room || TakenIn(log) == |queue| ==> Flushed(queue, room, log)
  {
  }

  lemma RefusedIff(x: Exchange)
    ensures Refused(x) <==> Taken(x) < |x.offered|
  {
  }

  lemma CountedMore(start: nat, log: seq<Exchange>, x: Exchange)
    ensures Counted(start, log + [x]) == U32(Counted(start, log) + Taken(x))
  {
    hide TakenIn, Taken;
    TakenMore(log, x);
    NoneTaken([], 0);
  }

  lemma NoneTaken(pending: seq<byte>, room: nat)
    ensures TakenIn([]) == 0 && InTurn(pending, room, [])
  {
  }

  lemma OneMore(pending: seq<byte>, room: nat, log: seq<Exchange>, x: Exchange)
    requires InTurn(pending, room, log) && (|log| > 0 ==> !Refused(log[|log| - 1]))
    requires TakenIn(log) < room && TakenIn(log) < |pending|
    requires x.offered == pending[TakenIn(log)..][..Chunk(room - TakenIn(log), |pending| - TakenIn(log))]
    ensures InTurn(pending, room, log + [x]) && TakenIn(log + [x]) == TakenIn(log) + Taken(x)
    ensures TakenIn(log + [x]) <= room && TakenIn(log + [x]) <= |pending|
    ensures pending[TakenIn(log)..][Taken(x)..] == pending[TakenIn(log + [x])..]
    ensures pending[..TakenIn(log)] + pending[TakenIn(log)..][..Taken(x)] == pending[..TakenIn(log + [x])]
  {
    hide InTurn, TakenIn;
    TakenMore(log, x);
    assert x.offered == pending[TakenIn(log)..TakenIn(log) + Chunk(room - TakenIn(log), |pending| - TakenIn(log))];
    InTurnMore(pending, room, log, x);
  }

  class TcpStream {
    const incoming: RingBuffer
    const outgoing: RingBuffer
    const link: Link
    var connected: bool
    var bytesSent: nat
    var bytesReceived: nat
    var droppedOutgoing: nat
    ghost var output: Session
    /** What the link had got before this session. */
    ghost var before: seq<byte>
    /** Input of this session: stored, and of that read. */
    ghost var input: Session

    ghost predicate Valid()
      reads this, incoming, incoming.storage, outgoing, outgoing.storage, link
    {
      && incoming.Valid() && outgoing.Valid()
      && incoming != outgoing && incoming.storage != outgoing.storage
      && InOrder(output, outgoing.Contents()) && InOrder(input, incoming.Contents())
      && link.got == before + output.sent
      && (!connected ==> outgoing.Contents() == [])
    }

    constructor (incoming: RingBuffer, outgoing: RingBuffer, link: Link)
      requires incoming.Valid() && outgoing.Valid() && incoming != outgoing && incoming.storage != outgoing.storage
      requires incoming.Contents() == [] && outgoing.Contents() == []
      ensures Valid() && this.incoming == incoming && this.outgoing == outgoing && this.link == link && !connected
      ensures output == input == Session([], [])
    {
      hide Ring.Unrolled;
      this.incoming, this.outgoing, this.link := incoming, outgoing, link;
      connected, bytesSent, bytesReceived, droppedOutgoing := false, 0, 0, 0;
      output, input, before := Session([], []), Session([], []), link.got;
    }

    /** A new session hears nothing of the last one's input; a closed one keeps its own to be read. */
    method SetConnected(up: bool)
      requires Valid()
      modifies this`connected, this`output, this`before, this`input, incoming`tail, outgoing`tail
      ensures Valid() && connected == up
      ensures up ==> incoming.Contents() == [] && input == Session([], []) && output == old(output)
      ensures !up ==> outgoing.Contents() == [] && output == Session([], []) && input == old(input)
    {
      hide Ring.Unrolled;
      if up {
        incoming.Clear();
        input := Session([], []);
      } else {
        outgoing.Clear();
        output, before := Session([], []), link.got;
      }
      connected := up;
    }

    /** What fits is queued behind what is there; the rest, from the end, is counted as lost. */
    method Write(data: seq<byte>) returns (written: nat)
      requires Valid()
      modifies this`droppedOutgoing, this`output, outgoing`head, outgoing.storage
      ensures Valid() && written <= |data|
      ensures written == if connected then Lesser(|data|, outgoing.Capacity() - |old(outgoing.Contents())|) else 0
      ensures output == Session(old(output).written + data[..written], old(output).sent)
      ensures droppedOutgoing == if written < |data| then U32(old(droppedOutgoing) + |data| - written) else old(droppedOutgoing)
    {
      hide Ring.Unrolled;
      if !connected {
        if |data| > 0 {
          droppedOutgoing := U32(droppedOutgoing + |data|);
        }
        return 0;
      }
      WrittenMore(output, outgoing.Contents(), data[..Lesser(|data|, outgoing.Capacity() - |outgoing.Contents()|)]);
      written := outgoing.Write(data);
      if written < |data| {
        droppedOutgoing := U32(droppedOutgoing + |data| - written);
      }
      output := Session(output.written + data[..written], output.sent);
    }

    /** One segment offered, and as much of it given up as the link took. */
    method SendSegment(room: nat) returns (staged: nat, taken: nat, ghost x: Exchange)
      requires Valid() && connected && room > 0 && outgoing.Contents() != []
      modifies this`bytesSent, this`output, outgoing`tail, link
      ensures Valid() && staged == Chunk(room, |old(outgoing.Contents())|)
      ensures link.offers == old(link.offers) + [x]
      ensures staged <= |old(outgoing.Contents())| && x.offered == old(outgoing.Contents())[..staged] && taken == Taken(x)
      ensures output == Session(old(output).written, old(output).sent + old(outgoing.Contents())[..taken])
      ensures link.got == old(link.got) + old(outgoing.Contents())[..taken]
      ensures outgoing.Contents() == old(outgoing.Contents())[taken..]
      ensures bytesSent == U32(old(bytesSent) + taken)
    {
      hide Ring.Unrolled, InOrder, Chunk;
      var segment := Stage(room);
      staged := |segment|;
      var accepted := link.Send(segment);
      x := Exchange(segment, accepted);
      taken := if accepted < staged then accepted else staged;
      SentMore(output, outgoing.Contents(), taken);
      ghost var sent := segment[..taken];
      assert sent == outgoing.Contents()[..taken];
      var dropped := outgoing.Discard(taken);
      output := Session(output.written, output.sent + sent);
      bytesSent := U32(bytesSent + taken);
    }

    /** The next segment, copied out and left where it is. */
    method Stage(room: nat) returns (segment: seq<byte>)
      requires Valid()
      ensures |segment| == Chunk(room, |outgoing.Contents()|) && |segment| <= |outgoing.Contents()|
      ensures segment == outgoing.Contents()[..|segment|]
    {
      hide Ring.Unrolled, InOrder;
      var pending := outgoing.CountOf();
      var chunk := if room < pending then room else pending;
      if chunk > SEGMENT_MAX {
        chunk := SEGMENT_MAX;
      }
      segment := outgoing.PeekBytes(chunk);
    }

    /** How a flush finds the stream. */
    ghost function Found(): Beginning
      reads this, outgoing, outgoing.storage, link
      requires outgoing.Valid()
    {
      Beginning(outgoing.Contents(), output, link.got, link.offers, bytesSent)
    }

    /** The exchanges since then, and nothing else, have moved bytes from the queue to the link. */
    ghost predicate MovedBy(was: Beginning, log: seq<Exchange>)
      reads this, incoming, incoming.storage, outgoing, outgoing.storage, link
    {
      && Valid() && TakenIn(log) <= |was.queue|
      && outgoing.Contents() == was.queue[TakenIn(log)..]
      && output == Session(was.output.written, was.output.sent + was.queue[..TakenIn(log)])
      && link.got == was.got + was.queue[..TakenIn(log)]
      && link.offers == was.offers + log
      && bytesSent == Counted(was.bytesSent, log)
    }

    /** One more segment in turn. */
    method NextSegment(ghost was: Beginning, room: nat, left: nat, ghost log: seq<Exchange>)
      returns (staged: nat, taken: nat, ghost x: Exchange)
      requires MovedBy(was, log) && connected && InTurn(was.queue, room, log) && (log != [] ==> !Refused(log[|log| - 1]))
      requires left == room - TakenIn(log) > 0 && TakenIn(log) < |was.queue|
      modifies this`bytesSent, this`output, outgoing`tail, link
      ensures MovedBy(was, log + [x]) && InTurn(was.queue, room, log + [x])
      ensures 0 < staged && taken <= staged && (Refused(x) <==> taken < staged) && taken == Taken(x)
      ensures TakenIn(log + [x]) == TakenIn(log) + taken <= room
    {
      hide Ring.Unrolled, Ring.Count, InTurn, TakenIn, InOrder, Counted, Taken, Refused, U32, Flushed;
      staged, taken, x := SendSegment(left);
      OneMore(was.queue, room, log, x);
      CountedMore(was.bytesSent, log, x);
      RefusedIff(x);
      InOneGo(was.output.sent, was.queue, log, x);
      InOneGo(was.got, was.queue, log, x);
    }

    /**
     * Push queued output at the link until there is no room, nothing left, or the link takes less
     * than it is offered. However it answers, what it gets is what was queued, in order.
     */
    method Flush(room: nat) returns (more: bool, ghost log: seq<Exchange>)
      requires Valid()
      modifies this`bytesSent, this`output, outgoing`tail, link
      ensures MovedBy(old(Found()), log)
      ensures !connected ==> log == []
      ensures connected ==> Flushed(old(outgoing.Contents()), room, log)
      ensures TakenIn(log) <= room
      ensures more <==> connected && outgoing.Contents() != []
    {
      hide Ring.Unrolled, InTurn, TakenIn, InOrder, Counted, Taken, Refused, MovedBy, Flushed;
      ghost var was := Found();
      log := [];
      NothingMoved();
      if !connected {
        return false, [];
      }
      var left := room;
      while left > 0
        invariant MovedBy(was, log) && connected && left == room - TakenIn(log) >= 0
        invariant InTurn(was.queue, room, log) && (log != [] ==> !Refused(log[|log| - 1]))
        decreases left
      {
        StillValid(was, log);
        var pending := outgoing.CountOf();
        if pending == 0 {
          StopsThere(was.queue, room, log);
          return false, log;
        }
        var staged, taken, x := NextSegment(was, room, left, log);
        log := log + [x];
        left := left - taken;
        if taken < staged {
          break;
        }
      }
      StillValid(was, log);
      StopsThere(was.queue, room, log);
      var pending := outgoing.CountOf();
      more := pending > 0;
    }

    lemma NothingMoved()
      requires Valid()
      ensures MovedBy(Found(), []) && InTurn(Found().queue, 0, []) && TakenIn([]) == 0
      ensures forall room :: InTurn(Found().queue, room, [])
    {
      assert output.sent + [] == output.sent && link.got + [] == link.got && link.offers + [] == link.offers;
    }

    lemma StillValid(was: Beginning, log: seq<Exchange>)
      requires MovedBy(was, log)
      ensures Valid() && TakenIn(log) <= |was.queue| && outgoing.Contents() == was.queue[TakenIn(log)..]
    {
    }

    /** All of a segment or none of it: a hole in a stream is worse than a delay. */
    method OnReceived(data: seq<byte>) returns (stored: nat)
      requires Valid()
      modifies this`bytesReceived, this`input, incoming`head, incoming.storage
      ensures Valid()
      ensures stored == if |data| <= incoming.Capacity() - |old(incoming.Contents())| then |data| else 0
      ensures input == Session(old(input).written + data[..stored], old(input).sent)
      ensures bytesReceived == U32(old(bytesReceived) + stored) || (stored == 0 && bytesReceived == old(bytesReceived))
    {
      hide Ring.Unrolled;
      var room := incoming.FreeOf();
      if room < |data| {
        return 0;
      }
      WrittenMore(input, incoming.Contents(), data[..|data|]);
      stored := incoming.Write(data);
      bytesReceived := U32(bytesReceived + stored);
      input := Session(input.written + data[..stored], input.sent);
    }

    method ReadBytes(length: nat) returns (data: seq<byte>)
      requires Valid()
      modifies this`input, incoming`tail
      ensures Valid() && data == old(incoming.Contents())[..Lesser(length, |old(incoming.Contents())|)]
      ensures input == Session(old(input).written, old(input).sent + data)
    {
      hide Ring.Unrolled;
      SentMore(input, incoming.Contents(), Lesser(length, |incoming.Contents()|));
      data := incoming.Read(length);
      input := Session(input.written, input.sent + data);
    }

    method Read() returns (b: Option<byte>)
      requires Valid()
      modifies this`input, incoming`tail
      ensures Valid()
      ensures b == if old(incoming.Contents()) == [] then None else Some(old(incoming.Contents())[0])
      ensures input == Session(old(input).written, old(input).sent + if b == None then [] else [b.value])
    {
      hide Ring.Unrolled;
      if incoming.Contents() != [] {
        SentMore(input, incoming.Contents(), 1);
      }
      b := incoming.Pop();
      if b.Some? {
        input := Session(input.written, input.sent + [b.value]);
      }
    }
  }

  const PACKET_MAX: nat := 512

  /** What befalls the input of a Bluetooth stream. */
  datatype Hearing = Arrives | Leaves | Hears(data: seq<byte>) | Reads(most: nat)

  function NowWaiting(capacity: nat, q: seq<byte>, h: Hearing): (r: seq<byte>)
    requires |q| <= capacity
    ensures |r| <= capacity
  {
    match h
    case Arrives => q
    case Leaves => []
    case Hears(data) => q + data[..Lesser(|data|, capacity - |q|)]
    case Reads(most) => q[Lesser(most, |q|)..]
  }

  /** What waits to be read after all of it, in a buffer with room for `capacity` bytes. */
  function Waiting(capacity: nat, heard: seq<Hearing>): (q: seq<byte>)
    ensures |q| <= capacity
  {
    if |heard| == 0 then []
    else
      NowWaiting(capacity, Waiting(capacity, heard[..|heard| - 1]), heard[|heard| - 1])
  }

  /** Since the last peer left: how much was stored, and how much of it read. */
  function SinceLeft(capacity: nat, heard: seq<Hearing>): (nat, nat)
  {
    if |heard| == 0 then (0, 0)
    else
      var front := heard[..|heard| - 1];
      var (stored, read) := SinceLeft(capacity, front);
      var waiting := |Waiting(capacity, front)|;
      match heard[|heard| - 1]
      case Arrives => (stored, read)
      case Leaves => (0, 0)
      case Hears(data) => (stored + Lesser(|data|, capacity - waiting), read)
      case Reads(most) => (stored, read + Lesser(most, waiting))
  }

  lemma NothingHeard(capacity: nat)
    ensures Waiting(capacity, []) == []
  {
  }

  /** One packet's worth. */
  function PacketSize(mtu: nat, pending: nat): nat
  {
    Lesser(Lesser(mtu, PACKET_MAX), pending)
  }

  lemma PacketIsLeast(mtu: nat, pending: nat)
    ensures PacketSize(mtu, pending) <= mtu && PacketSize(mtu, pending) <= pending && PacketSize(mtu, pending) <= 512
    ensures PacketSize(mtu, pending) in {mtu, pending, 512}
  {
  }

  lemma HeardMore(capacity: nat, heard: seq<Hearing>, h: Hearing)
    ensures Waiting(capacity, heard + [h]) == NowWaiting(capacity, Waiting(capacity, heard), h)
  {
    hide NowWaiting;
    assert (heard + [h])[..|heard|] == heard;
  }

  /**
   * Over every run, a peer that arrives finds nothing waiting exactly when all that was stored since
   * the last one left has been read: arriving clears nothing.
   */
  lemma {:induction false} StartsCleanIff(capacity: nat, heard: seq<Hearing>)
    ensures var (stored, read) := SinceLeft(capacity, heard);
            |Waiting(capacity, heard + [Arrives])| == stored - read
    ensures Waiting(capacity, heard + [Arrives]) == [] <==> SinceLeft(capacity, heard).0 == SinceLeft(capacity, heard).1
  {
    HeardMore(capacity, heard, Arrives);
    if |heard| > 0 {
      var front := heard[..|heard| - 1];
      HeardMore(capacity, front, Arrives);
      StartsCleanIff(capacity, front);
    }
  }

  /** A byte heard between two peers is the first the second one's session reads. */
  lemma HeardBetweenPeers(capacity: nat, b: byte)
    requires capacity > 0
    ensures Waiting(capacity, [Leaves, Hears([b]), Arrives]) == [b]
  {
    HeardMore(capacity, [], Leaves);
    HeardMore(capacity, [Leaves], Hears([b]));
    HeardMore(capacity, [Leaves, Hears([b])], Arrives);
    assert [] + [Leaves] == [Leaves] && [Leaves] + [Hears([b])] == [Leaves, Hears([b])];
    assert [Leaves, Hears([b])] + [Arrives] == [Leaves, Hears([b]), Arrives];
  }

  class BtStream {
    const incoming: RingBuffer
    const outgoing: RingBuffer
    const link: Link
    var mtu: nat
    var maySend: bool
    var connected: bool
    var droppedOutgoing: nat
    var droppedIncoming: nat
    ghost var output: Session
    ghost var before: seq<byte>
    ghost var input: Session
    /** All that has happened to the input. */
    ghost var heard: seq<Hearing>

    ghost predicate Valid()
      reads this, incoming, incoming.storage, outgoing, outgoing.storage, link
    {
      && incoming.Valid() && outgoing.Valid()
      && incoming != outgoing && incoming.storage != outgoing.storage
      && InOrder(output, outgoing.Contents()) && InOrder(input, incoming.Contents())
      && link.got == before + output.sent
      && incoming.Contents() == Waiting(incoming.Capacity(), heard)
      && (!connected ==> outgoing.Contents() == [] && !maySend && mtu == 0)
    }

    constructor (incoming: RingBuffer, outgoing: RingBuffer, link: Link)
      requires incoming.Valid() && outgoing.Valid() && incoming != outgoing && incoming.storage != outgoing.storage
      requires incoming.Contents() == [] && outgoing.Contents() == []
      ensures Valid() && this.incoming == incoming && this.outgoing == outgoing && this.link == link && !connected
      ensures output == input == Session([], [])
    {
      hide Ring.Unrolled, Waiting;
      this.incoming, this.outgoing, this.link := incoming, outgoing, link;
      mtu, maySend, connected, droppedOutgoing, droppedIncoming := 0, false, false, 0, 0;
      output, input, before := Session([], []), Session([], []), link.got;
      heard := [];
      new;
      NothingHeard(incoming.Capacity());
    }

    /**
     * A peer leaving takes both directions with it. One arriving clears nothing: what was
     * received between the two sessions is still there to be read.
     */
    method SetConnected(up: bool)
      requires Valid()
      modifies this`connected, this`mtu, this`maySend, this`output, this`before, this`input, this`heard, incoming`tail, outgoing`tail
      ensures Valid() && connected == up && heard == old(heard) + [if up then Arrives else Leaves]
      ensures !up ==> incoming.Contents() == [] && outgoing.Contents() == []
      ensures !up ==> output == input == Session([], [])
      ensures up ==> output == old(output) && input == old(input) && incoming.Contents() == old(incoming.Contents())
    {
      hide Ring.Unrolled, Waiting, RingRuns.ActsAs, RingRuns.DropSteps, RingProtocol.Passing;
      HeardMore(incoming.Capacity(), heard, if up then Arrives else Leaves);
      if !up {
        incoming.Clear();
        outgoing.Clear();
        maySend, mtu := false, 0;
        output, input, before := Session([], []), Session([], []), link.got;
      }
      connected := up;
      heard := heard + [if up then Arrives else Leaves];
    }

    method Write(data: seq<byte>) returns (written: nat)
      requires Valid()
      modifies this`droppedOutgoing, this`output, outgoing`head, outgoing.storage
      ensures Valid() && written <= |data|
      ensures written == if connected then Lesser(|data|, outgoing.Capacity() - |old(outgoing.Contents())|) else 0
      ensures output == Session(old(output).written + data[..written], old(output).sent)
      ensures droppedOutgoing == if written < |data| then U32(old(droppedOutgoing) + |data| - written) else old(droppedOutgoing)
    {
      hide Ring.Unrolled, Waiting;
      if !connected {
        if |data| > 0 {
          droppedOutgoing := U32(droppedOutgoing + |data|);
        }
        return 0;
      }
      WrittenMore(output, outgoing.Contents(), data[..Lesser(|data|, outgoing.Capacity() - |outgoing.Contents()|)]);
      written := outgoing.Write(data);
      if written < |data| {
        droppedOutgoing := U32(droppedOutgoing + |data| - written);
      }
      output := Session(output.written + data[..written], output.sent);
    }

    /**
     * The link can take one packet: exactly one is offered, of all that fits it, and what the link
     * does not take stays at the front.
     */
    method OnCanSend(mtuNow: nat) returns (more: bool, ghost log: seq<Exchange>)
      requires Valid() && mtuNow < 0x1_0000
      modifies this`mtu, this`maySend, this`output, outgoing`tail, link
      ensures Valid()
      ensures link.offers == old(link.offers) + log && TakenIn(log) <= |old(outgoing.Contents())|
      ensures if connected && mtuNow > 0 && old(outgoing.Contents()) != []
              then |log| == 1 && !maySend &&
                   log[0].offered == old(outgoing.Contents())[..PacketSize(mtuNow, |old(outgoing.Contents())|)]
              else log == [] && maySend == (connected || old(maySend))
      ensures PassedOn(old(output), old(outgoing.Contents()), TakenIn(log))
      ensures link.got == old(link.got) + old(outgoing.Contents())[..TakenIn(log)]
      ensures mtu == if connected then mtuNow else old(mtu)
      ensures more <==> connected && mtuNow > 0 && outgoing.Contents() != []
    {
      hide Ring.Unrolled, Waiting, TakenIn, InOrder;
      NoneTaken([], 0);
      log := [];
      if !connected {
        return false, [];
      }
      mtu, maySend := mtuNow, true;
      var pending := outgoing.CountOf();
      if pending == 0 || mtuNow == 0 {
        return false, [];
      }
      var room := if mtuNow < PACKET_MAX then mtuNow else PACKET_MAX;
      if room > pending {
        room := pending;
      }
      var x := SendPacket(room);
      TakenMore([], x);
      assert [] + [x] == [x];
      log := [x];
      pending := outgoing.CountOf();
      more := pending > 0;
    }

    /** The first `n` bytes queued have gone from the queue to what was sent. */
    ghost predicate PassedOn(was: Session, queue: seq<byte>, n: nat)
      reads this, outgoing, outgoing.storage
      requires outgoing.Valid() && n <= |queue|
    {
      output == Session(was.written, was.sent + queue[..n]) && outgoing.Contents() == queue[n..]
    }

    method SendPacket(room: nat) returns (ghost x: Exchange)
      requires Valid() && connected && 0 < room <= |outgoing.Contents()|
      modifies this`maySend, this`output, outgoing`tail, link
      ensures Valid() && !maySend
      ensures link.offers == old(link.offers) + [x] && x.offered == old(outgoing.Contents())[..room]
      ensures PassedOn(old(output), old(outgoing.Contents()), Taken(x))
      ensures link.got == old(link.got) + old(outgoing.Contents())[..Taken(x)]
    {
      hide Ring.Unrolled, Waiting, InOrder, RingRuns.ActsAs, RingRuns.PeekSteps, RingRuns.DropSteps, RingProtocol.Passing;
      var packet := outgoing.PeekBytes(room);
      var accepted := link.Send(packet);
      x := Exchange(packet, accepted);
      maySend := false;
      var taken := if accepted < |packet| then accepted else |packet|;
      SentMore(output, outgoing.Contents(), taken);
      ghost var sent := packet[..taken];
      assert sent == outgoing.Contents()[..taken];
      assert link.got == before + (output.sent + sent);
      var dropped := outgoing.Discard(taken);
      output := Session(output.written, output.sent + sent);
    }

    /** What fits is stored whether or not a peer is attached; the rest is counted as lost. */
    method OnReceived(data: seq<byte>) returns (stored: nat)
      requires Valid()
      modifies this`droppedIncoming, this`input, this`heard, incoming`head, incoming.storage
      ensures Valid() && heard == old(heard) + [Hears(data)]
      ensures stored == Lesser(|data|, incoming.Capacity() - |old(incoming.Contents())|)
      ensures input == Session(old(input).written + data[..stored], old(input).sent)
      ensures droppedIncoming == if stored < |data| then U32(old(droppedIncoming) + |data| - stored) else old(droppedIncoming)
    {
      hide Ring.Unrolled, Waiting;
      WrittenMore(input, incoming.Contents(), data[..Lesser(|data|, incoming.Capacity() - |incoming.Contents()|)]);
      HeardMore(incoming.Capacity(), heard, Hears(data));
      stored := incoming.Write(data);
      if stored < |data| {
        droppedIncoming := U32(droppedIncoming + |data| - stored);
      }
      input := Session(input.written + data[..stored], input.sent);
      heard := heard + [Hears(data)];
    }

    method Read() returns (b: Option<byte>)
      requires Valid()
      modifies this`input, this`heard, incoming`tail
      ensures Valid() && heard == old(heard) + [Reads(1)]
      ensures b == if old(incoming.Contents()) == [] then None else Some(old(incoming.Contents())[0])
      ensures input == Session(old(input).written, old(input).sent + if b == None then [] else [b.value])
    {
      hide Ring.Unrolled, Waiting;
      HeardMore(incoming.Capacity(), heard, Reads(1));
      if incoming.Contents() != [] {
        SentMore(input, incoming.Contents(), 1);
      }
      b := incoming.Pop();
      if b.Some? {
        input := Session(input.written, input.sent + [b.value]);
      }
      heard := heard + [Reads(1)];
    }
  }
}
