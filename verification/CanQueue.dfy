/** Whole frames through a byte ring (the queue of components/can_frame/can_frame.c). */
module CanFrames {
  import opened Bytes

  const MAX_DATA: nat := 8
  const RECORD: nat := 16
  const STANDARD_MAX: nat := 0x7FF
  const EXTENDED_MAX: nat := 0x1FFF_FFFF

  datatype CanMessage = CanMessage(id: nat, length: nat, extended: bool, remote: bool, data: seq<byte>)

  /** The struct's field has room for eight bytes whatever the length says. */
  predicate EightBytes(m: CanMessage)
  {
    |m.data| == MAX_DATA
  }

  function IdLimit(extended: bool): nat
  {
    if extended then EXTENDED_MAX else STANDARD_MAX
  }

  predicate ValidMessage(m: CanMessage)
  {
    m.length <= MAX_DATA && m.id <= IdLimit(m.extended)
  }

  /** Up to eight bytes, under an identifier of eleven bits or of twenty-nine. */
  lemma ValidIff(m: CanMessage)
    ensures ValidMessage(m) <==> m.length <= 8 && m.id < if m.extended then 0x2000_0000 else 0x800
  {
  }

  /** A length field over eight stands for eight. */
  lemma LengthsRead(field: nat)
    ensures DlcToLength(field) == if field <= 8 then field else 8
  {
  }

  function Zeros(n: nat): (b: seq<byte>)
    ensures |b| == n
  {
    seq(n, _ => 0)
  }

  function Flags(m: CanMessage): byte
  {
    (if m.extended then 1 else 0) + if m.remote then 2 else 0
  }

  function Record(m: CanMessage): (b: seq<byte>)
    requires ValidMessage(m) && EightBytes(m)
    ensures |b| == RECORD
  {
    Word(m.id) + [m.length, Flags(m)] +
    (if m.remote then Zeros(MAX_DATA) else m.data[..m.length] + Zeros(MAX_DATA - m.length)) + Zeros(2)
  }

  function DlcToLength(dlc: nat): nat
  {
    if dlc > MAX_DATA then MAX_DATA else dlc
  }

  function Decode(b: seq<byte>): (m: CanMessage)
    requires |b| == RECORD
    ensures EightBytes(m)
  {
    var length := DlcToLength(b[4]);
    CanMessage(BytesNat(b[..4]), length, b[5] % 2 == 1, b[5] / 2 % 2 == 1, b[6..6 + length] + Zeros(MAX_DATA - length))
  }

  /** A message with nothing in it that its frame does not carry. */
  function Carried(m: CanMessage): (c: CanMessage)
    requires ValidMessage(m) && EightBytes(m)
    ensures ValidMessage(c) && EightBytes(c)
  {
    m.(data := if m.remote then Zeros(MAX_DATA) else m.data[..m.length] + Zeros(MAX_DATA - m.length))
  }

  /** What comes out of a record is what went in, its data cut to its length and none for a remote frame. */
  lemma RecordRoundTrip(m: CanMessage)
    requires ValidMessage(m) && EightBytes(m)
    ensures Decode(Record(m)) == Carried(m)
  {
    hide BytesNat, NatBytes, Word, Record, Zeros;
    WordRoundTrip(m.id);
    var data := if m.remote then Zeros(MAX_DATA) else m.data[..m.length] + Zeros(MAX_DATA - m.length);
    RecordParts(m, data);
    CarriedData(m, data);
  }

  lemma RecordParts(m: CanMessage, data: seq<byte>)
    requires ValidMessage(m) && EightBytes(m)
    requires data == if m.remote then Zeros(MAX_DATA) else m.data[..m.length] + Zeros(MAX_DATA - m.length)
    ensures var b := Record(m);
            b[..4] == Word(m.id) && b[4] == m.length && b[5] == Flags(m) && b[6..6 + m.length] == data[..m.length]
  {
    hide Word, Flags, Zeros;
    var b := Record(m);
    assert b == Word(m.id) + [m.length, Flags(m)] + data + Zeros(2);
    assert b[6..14] == data;
    assert b[6..6 + m.length] == b[6..14][..m.length];
  }

  lemma CarriedData(m: CanMessage, data: seq<byte>)
    requires ValidMessage(m) && EightBytes(m)
    requires data == if m.remote then Zeros(MAX_DATA) else m.data[..m.length] + Zeros(MAX_DATA - m.length)
    ensures Carried(m).data == data[..m.length] + Zeros(MAX_DATA - m.length)
  {
  }

  lemma CarriedTwice(m: CanMessage)
    requires ValidMessage(m) && EightBytes(m)
    ensures Carried(Carried(m)) == Carried(m) && Record(Carried(m)) == Record(m)
  {
    var c := Carried(m);
    if !m.remote {
      assert c.data[..m.length] == m.data[..m.length];
    }
  }

  predicate AllCarried(frames: seq<CanMessage>)
  {
    forall i :: 0 <= i < |frames| ==> ValidMessage(frames[i]) && EightBytes(frames[i]) && Carried(frames[i]) == frames[i]
  }

  function Records(frames: seq<CanMessage>): (b: seq<byte>)
    requires AllCarried(frames)
    ensures |b| == RECORD * |frames|
  {
    if |frames| == 0 then [] else Record(frames[0]) + Records(frames[1..])
  }

  lemma {:induction false} RecordsAppend(frames: seq<CanMessage>, m: CanMessage)
    requires AllCarried(frames) && ValidMessage(m) && EightBytes(m) && Carried(m) == m
    ensures AllCarried(frames + [m]) && Records(frames + [m]) == Records(frames) + Record(m)
  {
    hide Record, Carried;
    if |frames| == 0 {
      assert frames + [m] == [m] && [m][1..] == [];
    } else {
      RecordsAppend(frames[1..], m);
      assert (frames + [m])[1..] == frames[1..] + [m];
    }
  }
}

module CanQueues {
  import opened Bytes
  import opened CanFrames
  import opened RingBuffers

  class CanQueue {
    const buffer: RingBuffer
    var dropped: nat
    /** The frames accepted and not yet taken. */
    ghost var frames: seq<CanMessage>

    ghost predicate Valid()
      reads this, buffer, buffer.storage
    {
      && buffer.Valid() && buffer.Capacity() >= RECORD
      && AllCarried(frames) && buffer.Contents() == Records(frames)
    }

    constructor (buffer: RingBuffer)
      requires buffer.Valid() && buffer.Capacity() >= RECORD && buffer.Contents() == []
      ensures Valid() && this.buffer == buffer && frames == [] && dropped == 0
    {
      this.buffer := buffer;
      dropped, frames := 0, [];
    }

    /** can_queue_init: too little storage for one frame is no queue. */
    static method Init(storage: array<byte>) returns (queue: CanQueue?)
      ensures queue == null <==> storage.Length < RECORD + 1
      ensures queue != null ==> fresh(queue) && queue.Valid() && queue.frames == [] && queue.buffer.storage == storage
    {
      var buffer := RingBuffer.Init(storage);
      if buffer == null {
        return null;
      }
      if buffer.Capacity() < RECORD {
        return null;
      }
      queue := new CanQueue(buffer);
    }

    /** All of a frame or none of it; a full queue counts the loss and writes nothing. */
    method Push(m: CanMessage) returns (ok: bool)
      requires Valid() && EightBytes(m)
      modifies this`dropped, this`frames, buffer`head, buffer.storage
      ensures Valid()
      ensures ok <==> ValidMessage(m) && RECORD * (|old(frames)| + 1) <= buffer.Capacity()
      ensures ok ==> frames == old(frames) + [Carried(m)] && dropped == old(dropped)
      ensures !ok ==> frames == old(frames) && buffer.storage[..] == old(buffer.storage[..]) && buffer.head == old(buffer.head)
      ensures !ok ==> dropped == if ValidMessage(m) then U32(old(dropped) + 1) else old(dropped)
    {
      hide Record, Carried, Records, AllCarried, Decode;
      if !ValidMessage(m) {
        return false;
      }
      var room := buffer.FreeOf();
      if room < RECORD {
        dropped := U32(dropped + 1);
        return false;
      }
      var record := Record(m);
      CarriedTwice(m);
      RecordsAppend(frames, Carried(m));
      frames := frames + [Carried(m)];
      var written := buffer.Write(record);
      assert record[..RECORD] == record;
      return written == RECORD;
    }

    method Pop() returns (m: Option<CanMessage>)
      requires Valid()
      modifies this`frames, buffer`tail
      ensures Valid() && dropped == old(dropped)
      ensures m == if old(frames) == [] then None else Some(old(frames)[0])
      ensures frames == if old(frames) == [] then [] else old(frames)[1..]
    {
      hide Record, Carried, Decode;
      var waiting := buffer.CountOf();
      if waiting < RECORD {
        return None;
      }
      ghost var first, rest := frames[0], frames[1..];
      assert Records(frames) == Record(first) + Records(rest);
      RecordRoundTrip(first);
      var record := buffer.Read(RECORD);
      assert record == Record(first);
      frames := rest;
      return Some(Decode(record));
    }

    method Count() returns (n: nat)
      requires Valid()
      ensures n == |frames| && n <= buffer.Capacity() / RECORD
    {
      var bytes := buffer.CountOf();
      return bytes / RECORD;
    }

    method Clear()
      requires Valid()
      modifies this`frames, buffer`tail
      ensures Valid() && frames == [] && dropped == old(dropped)
    {
      buffer.Clear();
      frames := [];
    }
  }
}
