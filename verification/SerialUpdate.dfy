/**
 * The sender's reading of an Intel HEX file (parse_hex of scripts/serial_update.py), and how far
 * it agrees with what the device stages from the same lines.
 */
module SerialUpdate {
  import Crc
  import opened Arithmetic
  import opened Bytes
  import opened FlashLayout
  import opened FlashStorage
  import opened FirmwareReceive
  import opened HexParser
  import opened Manifest
  import opened Staging

  // ---- Python's text -----------------------------------------------------------------

  /** White space bytes.fromhex skips between bytes. */
  predicate SkippedSpace(c: char)
  {
    9 <= c as int <= 13 || c == ' '
  }

  /** White space str.strip removes from ASCII text. */
  predicate StrippedSpace(c: char)
  {
    SkippedSpace(c) || 28 <= c as int <= 31
  }

  function StripLeft(s: string): (r: string)
    ensures |r| <= |s| && (|r| > 0 ==> !StrippedSpace(r[0]))
  {
    if |s| > 0 && StrippedSpace(s[0]) then StripLeft(s[1..]) else s
  }

  function StripRight(s: string): (r: string)
    ensures |r| <= |s| && r == s[..|r|] && (|r| > 0 ==> !StrippedSpace(r[|r| - 1]))
  {
    if |s| > 0 && StrippedSpace(s[|s| - 1]) then StripRight(s[..|s| - 1]) else s
  }

  function Strip(s: string): string
  {
    StripRight(StripLeft(s))
  }

  /** bytes.fromhex: pairs of digits with any white space between pairs. */
  function FromHex(s: string): Option<seq<byte>>
    decreases |s|
  {
    if |s| == 0 then Some([])
    else if SkippedSpace(s[0]) then FromHex(s[1..])
    else if |s| == 1 then None
    else
      match (DecodeByte(s[0], s[1]), FromHex(s[2..]))
      case (Some(b), Some(rest)) => Some([b] + rest)
      case _ => None
  }

  // ---- parse_hex --------------------------------------------------------------------------

  datatype Sent = Sent(chunks: map<nat, byte>, base: nat, highest: int, seenEof: bool)

  const NOTHING_SENT := Sent(map[], 0, -1, false)

  function Chunks(chunks: map<nat, byte>, offset: nat, data: seq<byte>, n: nat): map<nat, byte>
    requires n <= |data|
  {
    if n == 0 then chunks else Chunks(chunks, offset, data, n - 1)[offset + n - 1 := data[n - 1]]
  }

  /** The effect of one record's bytes; `None` for anything that raises. */
  function SendRecord(s: Sent, body: seq<byte>): Option<Sent>
    requires |body| >= FRAME
  {
    var kind: nat := body[3];
    var data := body[4..|body| - 1];
    if kind == DATA then
      var address := s.base + BigEndian(body[1..3]);
      if address < IMAGE_BASE then None
      else
        var offset := address - IMAGE_BASE;
        Some(s.(chunks := Chunks(s.chunks, offset, data, |data|), highest := Larger(s.highest, offset + |data| - 1)))
    else if kind == END_OF_FILE then Some(s.(seenEof := true))
    else if kind == EXTENDED_LINEAR || kind == EXTENDED_SEGMENT then
      if |data| < 2 then None
      else Some(s.(base := BigEndian(data[..2]) * if kind == EXTENDED_LINEAR then 0x1_0000 else 16))
    else if kind == START_SEGMENT || kind == START_LINEAR then Some(s)
    else None
  }

  function SendLine(s: Sent, line: string): Option<Sent>
    requires |line| > 0
  {
    if line[0] != ':' || s.seenEof then None
    else
      match FromHex(line[1..])
      case None => None
      case Some(body) =>
        if |body| < FRAME || Sum(body) % 256 != 0 || |body| != body[0] as nat + FRAME then None
        else SendRecord(s, body)
  }

  /** The lines that reach the device: stripped, with the blank ones left out. */
  function Sendable(raw: seq<string>): (lines: seq<string>)
    ensures forall i :: 0 <= i < |lines| ==> |lines[i]| > 0
    ensures forall i :: 0 <= i < |lines| ==> !StrippedSpace(lines[i][0]) && !StrippedSpace(lines[i][|lines[i]| - 1])
  {
    if |raw| == 0 then []
    else
      var front, last := Sendable(raw[..|raw| - 1]), Strip(raw[|raw| - 1]);
      if |last| == 0 then front else (StripEnds(raw[|raw| - 1]); front + [last])
  }

  lemma StripEnds(s: string)
    requires |Strip(s)| > 0
    ensures !StrippedSpace(Strip(s)[0]) && !StrippedSpace(Strip(s)[|Strip(s)| - 1])
  {
  }

  function SendLines(lines: seq<string>): Option<Sent>
    requires forall i :: 0 <= i < |lines| ==> |lines[i]| > 0
  {
    if |lines| == 0 then Some(NOTHING_SENT)
    else
      match SendLines(lines[..|lines| - 1])
      case None => None
      case Some(s) => SendLine(s, lines[|lines| - 1])
  }

  function Laid(chunks: map<nat, byte>, n: nat): (image: seq<byte>)
    ensures |image| == n
  {
    seq(n, o requires 0 <= o < n => if o in chunks then chunks[o] else ERASED)
  }

  /** The image parse_hex returns, or `None` when it raises. */
  function SenderImage(lines: seq<string>): Option<seq<byte>>
    requires forall i :: 0 <= i < |lines| ==> |lines[i]| > 0
  {
    match SendLines(lines)
    case None => None
    case Some(s) => if !s.seenEof || s.highest < 0 then None else Some(Laid(s.chunks, s.highest + 1))
  }

  // ---- the device's reading of a line the sender would send ------------------------------

  lemma {:induction false} DecodeHexFront(s: string)
    requires |s| >= 2 && |s| % 2 == 0 && DecodeHex(s).Some?
    ensures DecodeByte(s[0], s[1]).Some? && DecodeHex(s[2..]).Some?
    ensures DecodeHex(s) == Some([DecodeByte(s[0], s[1]).value] + DecodeHex(s[2..]).value)
  {
    hide DecodeByte;
    if |s| == 2 {
      assert s[..|s| - 2] == "" && s[2..] == "";
      var b := DecodeByte(s[0], s[1]).value;
      assert [] + [b] == [b] + [];
      assert DecodeHex(s).value == [] + [b];
    } else {
      var front, rest := s[..|s| - 2], s[2..];
      DecodeHexFront(front);
      assert front[2..] == rest[..|rest| - 2];
      assert rest[|rest| - 2] == s[|s| - 2] && rest[|rest| - 1] == s[|s| - 1];
      var first, middle, last := DecodeByte(s[0], s[1]).value, DecodeHex(front[2..]).value, DecodeByte(s[|s| - 2], s[|s| - 1]).value;
      assert DecodeHex(s).value == ([first] + middle) + [last];
      assert ([first] + middle) + [last] == [first] + (middle + [last]);
    }
  }

  lemma {:induction false} DigitsReadAlike(s: string)
    requires |s| % 2 == 0 && DecodeHex(s).Some?
    ensures FromHex(s) == DecodeHex(s)
    decreases |s|
  {
    hide DecodeHex;
    if |s| > 0 {
      DecodeHexFront(s);
      DigitsReadAlike(s[2..]);
    } else {
      assert DecodeHex("") == Some([]);
    }
  }

  /** A line the device takes, already stripped, reads as the same bytes to the sender. */
  lemma LineReadsAlike(st: ParserState, line: string)
    requires |line| > 0 && !StrippedSpace(line[0]) && !StrippedSpace(line[|line| - 1])
    requires FeedSpec(st, line).0 == HexOk
    ensures line[0] == ':' && FromHex(line[1..]).Some?
    ensures var b := FromHex(line[1..]).value;
            |b| >= FRAME && |b| == b[0] as nat + FRAME && Sum(b) % 256 == 0 && ApplyRecord(st, b) == FeedSpec(st, line)
  {
    hide DecodeHex, DecodeByte, FromHex, ApplyRecord;
    assert WithoutLeading(line) == line;
    assert WithoutTrailing(line[1..]) == line[1..];
    DigitsReadAlike(line[1..]);
  }

  // ---- the two readings side by side ------------------------------------------------------

  /** Addresses of the data records that carry no data. */
  function Empties(lines: seq<string>, capacity: nat): seq<nat>
  {
    if |lines| == 0 then []
    else
      var front := lines[..|lines| - 1];
      match Transfer(front, IMAGE_BASE, capacity)
      case None => []
      case Some((st, _)) =>
        var (_, record, _) := FeedSpec(st, lines[|lines| - 1]);
        Empties(front, capacity) + if record.kind == DATA && |record.data| == 0 then [record.address] else []
  }

  /** One past the highest offset any data record names, an empty one naming its own address. */
  function Reach(placed: seq<Placement>, empties: seq<nat>): nat
  {
    if |empties| == 0 then Extent(placed)
    else Larger(Reach(placed, empties[..|empties| - 1]), empties[|empties| - 1] - IMAGE_BASE)
  }

  ghost predicate SameBytes(chunks: map<nat, byte>, placed: seq<Placement>)
  {
    forall o: nat :: (o in chunks <==> Placed(placed, o)) && (o in chunks ==> chunks[o] == Overlay(placed, o))
  }

  ghost predicate Alongside(s: Sent, st: ParserState, placed: seq<Placement>, empties: seq<nat>)
  {
    && s.base == st.addressBase <= 0xFFFF_0000
    && s.seenEof == st.seenEof
    && s.highest + 1 == Reach(placed, empties)
    && SameBytes(s.chunks, placed)
  }

  lemma SameByteMore(chunks: map<nat, byte>, placed: seq<Placement>, x: Placement)
    requires SameBytes(chunks, placed)
    ensures SameBytes(chunks[x.offset := x.value], placed + [x])
  {
    var more := chunks[x.offset := x.value];
    forall o: nat
      ensures (o in more <==> Placed(placed + [x], o)) && (o in more ==> more[o] == Overlay(placed + [x], o))
    {
      OverlayAppend(placed, x, o);
    }
  }

  /** The bytes of a record the device places all go where the sender puts them. */
  lemma {:induction false} RecordBytesAlike(s: Sent, r: HexRecord, n: nat, placed: seq<Placement>, capacity: nat)
    requires n <= |r.data| <= MAX_DATA && r.address < WORD_LIMIT && SameBytes(s.chunks, placed)
    requires Placements(r, n, IMAGE_BASE, capacity).0 == ReceiveOk
    ensures var more := Placements(r, n, IMAGE_BASE, capacity).1;
            n > 0 ==> (IMAGE_BASE <= r.address &&
                       SameBytes(Chunks(s.chunks, r.address - IMAGE_BASE, r.data, n), placed + more) &&
                       Extent(placed + more) == Larger(Extent(placed), r.address - IMAGE_BASE + n))
    ensures n == 0 ==> Placements(r, n, IMAGE_BASE, capacity).1 == []
  {
    hide Extent, SameBytes, Overlay, Placed, PlaceSpec, U32;
    if n > 0 {
      RecordBytesAlike(s, r, n - 1, placed, capacity);
      var front := Placements(r, n - 1, IMAGE_BASE, capacity).1;
      NoWrap(r.address, n - 1, capacity);
      var x := Placement(r.address + n - 1 - IMAGE_BASE, r.data[n - 1]);
      assert placed + (front + [x]) == (placed + front) + [x];
      OverlayAppend(placed + front, x, 0);
      if n == 1 {
        assert placed + front == placed;
      }
      SameByteMore(Chunks(s.chunks, r.address - IMAGE_BASE, r.data, n - 1), placed + front, x);
    }
  }

  /** An address that runs off the end of 32 bits comes back below the image, and is refused. */
  lemma NoWrap(address: nat, i: nat, capacity: nat)
    requires address < WORD_LIMIT && i <= MAX_DATA
    requires PlaceSpec(U32(address + i), IMAGE_BASE, capacity).0 == ReceiveOk
    ensures address + i < WORD_LIMIT && address + i >= IMAGE_BASE
    ensures PlaceSpec(U32(address + i), IMAGE_BASE, capacity).1 == address + i - IMAGE_BASE
  {
  }

  lemma {:induction false} ReachMore(placed: seq<Placement>, more: seq<Placement>, empties: seq<nat>, end: nat)
    requires Extent(placed + more) == Larger(Extent(placed), end)
    ensures Reach(placed + more, empties) == Larger(Reach(placed, empties), end)
  {
    if |empties| > 0 {
      ReachMore(placed, more, empties[..|empties| - 1], end);
    }
  }

  function MoreEmpties(empties: seq<nat>, r: HexRecord): seq<nat>
  {
    empties + if r.kind == DATA && |r.data| == 0 then [r.address] else []
  }

  /** No record without data lies below the image. */
  predicate AboveBase(empties: seq<nat>)
  {
    forall i :: 0 <= i < |empties| ==> empties[i] >= IMAGE_BASE
  }

  /** No record without data lies past the end of the image. */
  predicate NoneBeyond(empties: seq<nat>, end: nat)
  {
    forall i :: 0 <= i < |empties| ==> empties[i] - IMAGE_BASE <= end
  }

  lemma AboveBaseMore(empties: seq<nat>, r: HexRecord)
    ensures AboveBase(MoreEmpties(empties, r)) <==>
              AboveBase(empties) && (r.kind == DATA && |r.data| == 0 ==> r.address >= IMAGE_BASE)
  {
    var more := MoreEmpties(empties, r);
    if AboveBase(more) {
      forall i | 0 <= i < |empties| ensures empties[i] >= IMAGE_BASE {
        assert more[i] == empties[i];
      }
      if |more| > |empties| {
        assert more[|empties|] == r.address;
      }
    }
  }

  /** Data records: the same bytes in the same places, and an end that an empty one can move. */
  lemma DataAlike(s: Sent, st: ParserState, bytes: seq<byte>, placed: seq<Placement>, empties: seq<nat>, capacity: nat)
    requires Alongside(s, st, placed, empties) && !st.seenEof && FRAME <= |bytes| <= FRAME + MAX_DATA && bytes[3] == DATA
    requires Placements(ApplyRecord(st, bytes).1, |bytes| - FRAME, IMAGE_BASE, capacity).0 == ReceiveOk
    ensures var r := ApplyRecord(st, bytes).1;
            var more := Placements(r, |r.data|, IMAGE_BASE, capacity).1;
            && (SendRecord(s, bytes).Some? <==> (|r.data| == 0 ==> r.address >= IMAGE_BASE))
            && (SendRecord(s, bytes).Some? ==> Alongside(SendRecord(s, bytes).value, st, placed + more, MoreEmpties(empties, r)))
  {
    hide Placements, SameBytes, Extent, Placed, Overlay;
    var r := ApplyRecord(st, bytes).1;
    OffsetBound(bytes[1], bytes[2], bytes[1..3]);
    assert r.address == s.base + BigEndian(bytes[1..3]);
    RecordBytesAlike(s, r, |r.data|, placed, capacity);
    var more := Placements(r, |r.data|, IMAGE_BASE, capacity).1;
    if |r.data| > 0 {
      ReachMore(placed, more, empties, r.address - IMAGE_BASE + |r.data|);
      assert MoreEmpties(empties, r) == empties;
    } else {
      assert placed + more == placed;
      var e := MoreEmpties(empties, r);
      assert e[..|e| - 1] == empties;
    }
  }

  lemma OffsetBound(hi: byte, lo: byte, b: seq<byte>)
    requires b == [hi, lo]
    ensures BigEndian(b) == 256 * hi + lo < 0x1_0000
  {
    assert b[..1] == [hi] && [hi][..0] == [];
    assert BigEndian([hi]) == hi;
  }

  lemma OtherAlike(s: Sent, st: ParserState, bytes: seq<byte>, placed: seq<Placement>, empties: seq<nat>)
    requires Alongside(s, st, placed, empties) && |bytes| >= FRAME && bytes[3] != DATA
    requires ApplyRecord(st, bytes).0 == HexOk
    ensures SendRecord(s, bytes).Some? && Alongside(SendRecord(s, bytes).value, ApplyRecord(st, bytes).2, placed, empties)
    ensures MoreEmpties(empties, ApplyRecord(st, bytes).1) == empties
  {
    hide SameBytes, Reach;
    var data := bytes[4..|bytes| - 1];
    if |data| == 2 {
      OffsetBound(data[0], data[1], data);
      assert data[..2] == data;
    }
  }

  predicate Stripped(lines: seq<string>)
  {
    forall i :: 0 <= i < |lines| ==>
      |lines[i]| > 0 && !StrippedSpace(lines[i][0]) && !StrippedSpace(lines[i][|lines[i]| - 1])
  }

  lemma LineAlike(s: Sent, st: ParserState, line: string, placed: seq<Placement>, empties: seq<nat>, capacity: nat)
    requires Alongside(s, st, placed, empties) && Stripped([line])
    requires LineSpec(st, line, IMAGE_BASE, capacity).0 in {ReceiveOk, ReceiveComplete}
    ensures var (_, next, more) := LineSpec(st, line, IMAGE_BASE, capacity);
            var r := FeedSpec(st, line).1;
            && (SendLine(s, line).Some? <==> (r.kind == DATA && |r.data| == 0 ==> r.address >= IMAGE_BASE))
            && (SendLine(s, line).Some? ==> Alongside(SendLine(s, line).value, next, placed + more, MoreEmpties(empties, r)))
  {
    hide FeedSpec, ApplyRecord, SendRecord, Alongside, FromHex, Placements;
    assert [line][0] == line;
    FeedOk(st, line);
    LineReadsAlike(st, line);
    var b := FromHex(line[1..]).value;
    ApplyKeepsKind(st, b);
    if b[3] == DATA {
      DataAlike(s, st, b, placed, empties, capacity);
    } else {
      OtherAlike(s, st, b, placed, empties);
      assert placed + [] == placed;
    }
    SameEof(s, st, placed, empties);
  }

  lemma ApplyKeepsKind(st: ParserState, b: seq<byte>)
    requires |b| >= FRAME && ApplyRecord(st, b).0 == HexOk
    ensures ApplyRecord(st, b).1.kind == b[3] && ApplyRecord(st, b).1.data == b[4..|b| - 1]
    ensures b[3] == DATA ==> ApplyRecord(st, b).2 == st
  {
  }

  lemma SameEof(s: Sent, st: ParserState, placed: seq<Placement>, empties: seq<nat>)
    requires Alongside(s, st, placed, empties)
    ensures s.seenEof == st.seenEof
  {
  }

  /** Line by line, the two readings stay side by side for as long as the sender does not raise. */
  lemma {:induction false} LinesAlike(lines: seq<string>, capacity: nat)
    requires Stripped(lines) && Transfer(lines, IMAGE_BASE, capacity).Some?
    ensures var (st, placed) := Transfer(lines, IMAGE_BASE, capacity).value;
            var empties := Empties(lines, capacity);
            && (SendLines(lines).Some? <==> AboveBase(empties))
            && (SendLines(lines).Some? ==> Alongside(SendLines(lines).value, st, placed, empties))
  {
    hide FeedSpec, LineSpec, SendLine, Alongside;
    if |lines| == 0 {
      NothingAlike();
    } else {
      var front, line := lines[..|lines| - 1], lines[|lines| - 1];
      LinesAlike(front, capacity);
      var (st, placed) := Transfer(front, IMAGE_BASE, capacity).value;
      var r := FeedSpec(st, line).1;
      assert Empties(lines, capacity) == MoreEmpties(Empties(front, capacity), r);
      AboveBaseMore(Empties(front, capacity), r);
      if SendLines(front).Some? {
        LineAlike(SendLines(front).value, st, line, placed, Empties(front, capacity), capacity);
      }
    }
  }

  lemma NothingAlike()
    ensures Alongside(NOTHING_SENT, FRESH, [], [])
  {
  }

  lemma {:induction false} ReachBounds(placed: seq<Placement>, empties: seq<nat>)
    ensures Reach(placed, empties) >= Extent(placed)
    ensures Reach(placed, empties) == Extent(placed) <==> NoneBeyond(empties, Extent(placed))
  {
    if |empties| > 0 {
      var front := empties[..|empties| - 1];
      ReachBounds(placed, front);
      if NoneBeyond(empties, Extent(placed)) {
        assert NoneBeyond(front, Extent(placed));
      } else {
        assert !NoneBeyond(front, Extent(placed)) || empties[|front|] - IMAGE_BASE > Extent(placed);
      }
    }
  }

  /**
   * For every file the device takes to its end, the sender raises exactly when a record without
   * data lies below the image base or no record gives the image a first byte; and the image it
   * then predicts is the device's exactly when no record without data lies past the device's end.
   */
  lemma SenderAgreesIff(lines: seq<string>, capacity: nat)
    requires Stripped(lines) && Transfer(lines, IMAGE_BASE, capacity).Some?
    requires Transfer(lines, IMAGE_BASE, capacity).value.0.seenEof
    ensures var placed := Transfer(lines, IMAGE_BASE, capacity).value.1;
            var empties := Empties(lines, capacity);
            && (SenderImage(lines).Some? <==>
                  AboveBase(empties) && Reach(placed, empties) > 0)
            && (SenderImage(lines).Some? ==>
                  (SenderImage(lines).value == ImageOf(placed) <==>
                     NoneBeyond(empties, Extent(placed))))
  {
    hide FeedSpec, LineSpec, SendLine, Transfer, Extent, Overlay, Empties;
    var (st, placed) := Transfer(lines, IMAGE_BASE, capacity).value;
    var empties := Empties(lines, capacity);
    LinesAlike(lines, capacity);
    ReachBounds(placed, empties);
    if SendLines(lines).Some? && SenderImage(lines).Some? {
      LaidIsImage(SendLines(lines).value.chunks, placed);
    }
  }

  lemma LaidIsImage(chunks: map<nat, byte>, placed: seq<Placement>)
    requires SameBytes(chunks, placed)
    ensures Laid(chunks, Extent(placed)) == ImageOf(placed)
  {
    hide Overlay, Placed, Extent;
    forall o | 0 <= o < Extent(placed) ensures Laid(chunks, Extent(placed))[o] == Overlay(placed, o) {
      if o !in chunks {
        OverlayUnplaced(placed, o);
      }
    }
  }

  /** Without records that carry no data, a file both sides take has one image and one checksum. */
  lemma SenderAgrees(lines: seq<string>, capacity: nat)
    requires Stripped(lines) && Transfer(lines, IMAGE_BASE, capacity).Some?
    requires Transfer(lines, IMAGE_BASE, capacity).value.0.seenEof && Empties(lines, capacity) == []
    requires Transfer(lines, IMAGE_BASE, capacity).value.1 != []
    ensures SenderImage(lines) == Some(ImageOf(Transfer(lines, IMAGE_BASE, capacity).value.1))
    ensures Crc.Crc32(SenderImage(lines).value) == Crc.Crc32(ImageOf(Transfer(lines, IMAGE_BASE, capacity).value.1))
  {
    hide Transfer, Empties, SenderImage, Crc.Crc32;
    var placed := Transfer(lines, IMAGE_BASE, capacity).value.1;
    SenderAgreesIff(lines, capacity);
    ExtentBounds(placed);
    assert placed[0].offset < Extent(placed);
  }

  // ---- where they part ---------------------------------------------------------------------

  /** One byte at the image base, then a record with no data further on. */
  function GappedFile(gap: nat): seq<string>
    requires gap < 0x1_0000
  {
    [Format(0, EXTENDED_LINEAR, [0x10, 0], true), Format(0, DATA, [0x55], true), Format(gap, DATA, [], true),
     Format(0, END_OF_FILE, [], true)]
  }

  const BASED := ParserState(IMAGE_BASE, 0, false, false)

  lemma FormatReads(st: ParserState, offset: nat, kind: byte, data: seq<byte>)
    requires offset < 0x1_0000 && |data| <= MAX_DATA && !st.seenEof
    ensures var line := Format(offset, kind, data, true);
            |line| > 0 && !StrippedSpace(line[0]) && !StrippedSpace(line[|line| - 1])
    ensures var b := Unsummed(offset, kind, data);
            FeedSpec(st, Format(offset, kind, data, true)) == ApplyRecord(st, b + [Checksum(b)]) &&
            b[3] == kind && (b + [Checksum(b)])[4..|b|] == data
    ensures kind == DATA ==>
              FeedSpec(st, Format(offset, kind, data, true)) == (HexOk, HexRecord(DATA, U32(st.addressBase + offset), data), st)
  {
    hide FeedSpec, ApplyRecord, EncodeHex;
    var line := Format(offset, kind, data, true);
    assert "" + line + "" == line;
    FormatRoundTrip(st, offset, kind, data, true, "", "");
    var b := Unsummed(offset, kind, data);
    LastDigit(b + [Checksum(b)]);
  }

  lemma LastDigit(b: seq<byte>)
    requires |b| > 0
    ensures |EncodeHex(b, true)| > 0 && !StrippedSpace(EncodeHex(b, true)[|EncodeHex(b, true)| - 1])
  {
  }

  /**
   * The device stages one byte; the sender's image runs on to the record with no data, so its
   * checksum is of other bytes, of another length, than the device reads back.
   */
  lemma EmptyRecordPartsThem(gap: nat, capacity: nat)
    requires 1 < gap < 0x1_0000 && capacity > 0
    ensures var lines := GappedFile(gap);
            && Stripped(lines) && Transfer(lines, IMAGE_BASE, capacity).Some?
            && Transfer(lines, IMAGE_BASE, capacity).value.0.seenEof
            && |ImageOf(Transfer(lines, IMAGE_BASE, capacity).value.1)| == 1
            && SenderImage(lines).Some?
            && SenderImage(lines).value != ImageOf(Transfer(lines, IMAGE_BASE, capacity).value.1)
  {
    hide Format, SenderImage, LineSpec, Transfer, Empties, GappedFile, Stripped, Extent;
    var lines := GappedFile(gap);
    GappedStripped(gap);
    GappedTransfer(gap, capacity);
    SenderAgreesIff(lines, capacity);
  }

  lemma GappedStripped(gap: nat)
    requires gap < 0x1_0000
    ensures Stripped(GappedFile(gap))
  {
    hide Format, ApplyRecord, FeedSpec, StrippedSpace, Unsummed;
    FormatReads(FRESH, 0, EXTENDED_LINEAR, [0x10, 0]);
    FormatReads(BASED, 0, DATA, [0x55]);
    FormatReads(BASED, gap, DATA, []);
    FormatReads(BASED, 0, END_OF_FILE, []);
  }

  lemma GappedTransfer(gap: nat, capacity: nat)
    requires 1 < gap < 0x1_0000 && capacity > 0
    ensures Transfer(GappedFile(gap), IMAGE_BASE, capacity) == Some((BASED.(seenEof := true), [Placement(0, 0x55)]))
    ensures Empties(GappedFile(gap), capacity) == [IMAGE_BASE + gap]
    ensures Extent([Placement(0, 0x55)]) == 1 && Reach([Placement(0, 0x55)], [IMAGE_BASE + gap]) > 0
  {
    hide Format, LineSpec, FeedSpec, Transfer, Empties;
    var l := GappedFile(gap);
    GappedLines(gap, capacity);
    var a := [] + [l[0]];
    var b := a + [l[1]];
    var c := b + [l[2]];
    assert c + [l[3]] == l;
    OneMore([], l[0], capacity);
    OneMore(a, l[1], capacity);
    OneMore(b, l[2], capacity);
    OneMore(c, l[3], capacity);
    NothingTransferred(capacity);
    var none: seq<Placement>, one := [], [Placement(0, 0x55)];
    assert none + none == none && none + one == one && one + none == one;
    assert [Placement(0, 0x55)][..0] == [] && [IMAGE_BASE + gap][..0] == [];
  }

  lemma NothingTransferred(capacity: nat)
    ensures Transfer([], IMAGE_BASE, capacity) == Some((FRESH, [])) && Empties([], capacity) == []
  {
  }

  lemma OneMore(lines: seq<string>, line: string, capacity: nat)
    ensures Transfer(lines, IMAGE_BASE, capacity).Some? ==>
              var (st, placed) := Transfer(lines, IMAGE_BASE, capacity).value;
              var (result, next, more) := LineSpec(st, line, IMAGE_BASE, capacity);
              && Transfer(lines + [line], IMAGE_BASE, capacity) ==
                   (if result == ReceiveOk || result == ReceiveComplete then Some((next, placed + more)) else None)
              && Empties(lines + [line], capacity) == MoreEmpties(Empties(lines, capacity), FeedSpec(st, line).1)
  {
    hide LineSpec, FeedSpec;
    assert (lines + [line])[..|lines|] == lines;
  }

  lemma GappedLines(gap: nat, capacity: nat)
    requires 1 < gap < 0x1_0000 && capacity > 0
    ensures var l := GappedFile(gap);
            && LineSpec(FRESH, l[0], IMAGE_BASE, capacity) == (ReceiveOk, BASED, [])
            && LineSpec(BASED, l[1], IMAGE_BASE, capacity) == (ReceiveOk, BASED, [Placement(0, 0x55)])
            && LineSpec(BASED, l[2], IMAGE_BASE, capacity) == (ReceiveOk, BASED, [])
            && LineSpec(BASED, l[3], IMAGE_BASE, capacity) == (ReceiveComplete, BASED.(seenEof := true), [])
            && FeedSpec(FRESH, l[0]).1.kind != DATA && FeedSpec(BASED, l[3]).1.kind != DATA
            && FeedSpec(BASED, l[1]).1 == HexRecord(DATA, IMAGE_BASE, [0x55])
            && FeedSpec(BASED, l[2]).1 == HexRecord(DATA, IMAGE_BASE + gap, [])
  {
    hide Format, FeedSpec;
    FormatReads(FRESH, 0, EXTENDED_LINEAR, [0x10, 0]);
    OffsetBound(0x10, 0, [0x10, 0]);
    FormatReads(BASED, 0, DATA, [0x55]);
    FormatReads(BASED, gap, DATA, []);
    FormatReads(BASED, 0, END_OF_FILE, []);
    var r := HexRecord(DATA, IMAGE_BASE, [0x55]);
    assert U32(r.address + 1 - 1) == IMAGE_BASE && PlaceSpec(IMAGE_BASE, IMAGE_BASE, capacity) == (ReceiveOk, 0);
    assert Placements(r, 0, IMAGE_BASE, capacity) == (ReceiveOk, []);
    assert [] + [Placement(0, r.data[0])] == [Placement(0, 0x55)];
    assert Placements(r, 1, IMAGE_BASE, capacity) == (ReceiveOk, [Placement(0, 0x55)]);
  }

  // ---- the program ------------------------------------------------------------------------

  lemma SendableFront(raw: seq<string>, i: nat)
    requires i < |raw|
    ensures var lines := Sendable(raw[..i]);
            Sendable(raw[..i + 1]) == if |Strip(raw[i])| == 0 then lines else lines + [Strip(raw[i])]
  {
    assert raw[..i + 1][..i] == raw[..i];
  }

  lemma {:induction false} SendablePrefix(raw: seq<string>, i: nat)
    requires i <= |raw|
    ensures Sendable(raw[..i]) <= Sendable(raw)
    decreases |raw| - i
  {
    if i == |raw| {
      assert raw[..i] == raw;
    } else {
      SendableFront(raw, i);
      SendablePrefix(raw, i + 1);
    }
  }

  /** Once a line raises, what follows does not matter. */
  lemma {:induction false} RaisedStays(front: seq<string>, lines: seq<string>)
    requires front <= lines && forall i :: 0 <= i < |lines| ==> |lines[i]| > 0
    requires SendLines(front) == None
    ensures SendLines(lines) == None
    decreases |lines|
  {
    if |front| < |lines| {
      RaisedStays(front, lines[..|lines| - 1]);
    } else {
      assert front == lines;
    }
  }

  lemma OneLineSent(raw: seq<string>, i: nat, s: Sent)
    requires i < |raw| && SendLines(Sendable(raw[..i])) == Some(s)
    ensures SendLines(Sendable(raw[..i + 1])) ==
              if |Strip(raw[i])| == 0 then Some(s) else SendLine(s, Strip(raw[i]))
    ensures Sendable(raw[..i + 1]) <= Sendable(raw)
  {
    hide Strip, SendLine, Sendable;
    SendableFront(raw, i);
    SendablePrefix(raw, i + 1);
    var lines := Sendable(raw[..i + 1]);
    if |Strip(raw[i])| != 0 {
      assert lines[..|lines| - 1] == Sendable(raw[..i]);
    }
  }

  lemma NoneSent()
    ensures Sendable([]) == [] && SendLines([]) == Some(NOTHING_SENT)
  {
  }

  method ParseRecord(s: Sent, line: string) returns (next: Option<Sent>)
    requires |line| > 0
    ensures next == SendLine(s, line)
  {
    hide FromHex;
    if line[0] != ':' || s.seenEof {
      return None;
    }
    var read := FromHex(line[1..]);
    if read == None {
      return None;
    }
    var body := read.value;
    if |body| < FRAME || Sum(body) % 256 != 0 {
      return None;
    }
    var kind, data := body[3] as nat, body[4..|body| - 1];
    if |data| != body[0] as nat {
      return None;
    }
    if kind == DATA {
      var address := s.base + BigEndian(body[1..3]);
      if address < IMAGE_BASE {
        return None;
      }
      var offset := address - IMAGE_BASE;
      var chunks := s.chunks;
      for index := 0 to |data|
        invariant chunks == Chunks(s.chunks, offset, data, index)
      {
        chunks := chunks[offset + index := data[index]];
      }
      return Some(s.(chunks := chunks, highest := Larger(s.highest, offset + |data| - 1)));
    } else if kind == END_OF_FILE {
      return Some(s.(seenEof := true));
    } else if kind == EXTENDED_LINEAR || kind == EXTENDED_SEGMENT {
      if |data| < 2 {
        return None;
      }
      return Some(s.(base := BigEndian(data[..2]) * if kind == EXTENDED_LINEAR then 0x1_0000 else 16));
    } else if kind == START_SEGMENT || kind == START_LINEAR {
      return Some(s);
    }
    return None;
  }

  method ParseHex(raw: seq<string>) returns (image: Option<seq<byte>>)
    ensures image == SenderImage(Sendable(raw))
  {
    hide SendLine, Laid, SendLines, Sendable, Strip;
    var s := NOTHING_SENT;
    NoneSent();
    assert raw[..0] == [];
    for number := 0 to |raw|
      invariant SendLines(Sendable(raw[..number])) == Some(s)
    {
      OneLineSent(raw, number, s);
      var line := Strip(raw[number]);
      if |line| != 0 {
        var next := ParseRecord(s, line);
        if next == None {
          RaisedStays(Sendable(raw[..number + 1]), Sendable(raw));
          return None;
        }
        s := next.value;
      }
    }
    assert raw[..|raw|] == raw;
    if !s.seenEof || s.highest < 0 {
      return None;
    }
    var bytes := LayOut(s.chunks, s.highest + 1);
    return Some(bytes);
  }

  method LayOut(chunks: map<nat, byte>, length: nat) returns (image: seq<byte>)
    ensures image == Laid(chunks, length)
  {
    image := Blank(length);
    for offset := 0 to length
      invariant |image| == length
      invariant forall o :: 0 <= o < length ==> image[o] == if o < offset && o in chunks then chunks[o] else ERASED
    {
      if offset in chunks {
        image := image[offset := chunks[offset]];
      }
    }
  }
}
