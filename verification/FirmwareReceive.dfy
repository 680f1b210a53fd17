/**
 * A firmware image received line by line and assembled a page at a time
 * (components/firmware_update/firmware_receive.c), with the flash-backed page writer
 * of components/firmware_update/firmware_service.c behind it.
 */
module FirmwareReceive {
  import opened Bytes
  import opened FlashLayout
  import opened FlashStorage
  import opened HexParser
  import opened Staging

  datatype ReceiveResult = ReceiveOk | ReceiveComplete | ReceiveNotStarted | ReceiveHexError | ReceiveBelowBase
                         | ReceiveTooLarge | ReceiveWriteError | ReceiveAborted

  // ---- what the lines ask for ---------------------------------------------------------

  /** Where in the region an address lies, or why it does not. */
  function PlaceSpec(address: nat, base: nat, capacity: nat): (r: (ReceiveResult, nat))
    ensures r.0 == ReceiveOk || r.0 == ReceiveBelowBase || r.0 == ReceiveTooLarge
  {
    if address < base then (ReceiveBelowBase, 0)
    else if address - base >= capacity then (ReceiveTooLarge, 0)
    else (ReceiveOk, address - base)
  }

  /** A record's bytes run on from its address, and past the last address back to the first. */
  function AddressOf(r: HexRecord, i: nat): nat
  {
    U32(r.address + i)
  }

  predicate Inside(r: HexRecord, i: nat, base: nat, capacity: nat)
  {
    base <= AddressOf(r, i) < base + capacity
  }

  /** The first `n` bytes of a data record, or those before the one that is refused. */
  function Placements(r: HexRecord, n: nat, base: nat, capacity: nat): (p: (ReceiveResult, seq<Placement>))
    requires n <= |r.data|
    ensures p.0 == ReceiveOk || p.0 == ReceiveBelowBase || p.0 == ReceiveTooLarge
  {
    if n == 0 then (ReceiveOk, [])
    else
      var (result, front) := Placements(r, n - 1, base, capacity);
      if result != ReceiveOk then (result, front)
      else
        var (placed, offset) := PlaceSpec(AddressOf(r, n - 1), base, capacity);
        if placed != ReceiveOk then (placed, front) else (ReceiveOk, front + [Placement(offset, r.data[n - 1])])
  }

  function RecordSpec(r: HexRecord, base: nat, capacity: nat): (p: (ReceiveResult, seq<Placement>))
    ensures p.0 == ReceiveComplete <==> r.kind == END_OF_FILE
    ensures p.0 in {ReceiveOk, ReceiveComplete, ReceiveBelowBase, ReceiveTooLarge}
  {
    if r.kind == DATA then Placements(r, |r.data|, base, capacity)
    else (if r.kind == END_OF_FILE then ReceiveComplete else ReceiveOk, [])
  }

  /** What one line does to a transfer, the flash aside. */
  function LineSpec(st: ParserState, line: string, base: nat, capacity: nat):
    (ReceiveResult, ParserState, seq<Placement>)
  {
    var (parsed, record, next) := FeedSpec(st, line);
    if parsed != HexOk then (ReceiveHexError, next, [])
    else
      var (result, placed) := RecordSpec(record, base, capacity);
      (result, next, placed)
  }

  /** All the lines of a transfer so far, if every one was acceptable. */
  function Transfer(lines: seq<string>, base: nat, capacity: nat): Option<(ParserState, seq<Placement>)>
  {
    if |lines| == 0 then Some((FRESH, []))
    else
      match Transfer(lines[..|lines| - 1], base, capacity)
      case None => None
      case Some((st, placed)) =>
        var (result, next, more) := LineSpec(st, lines[|lines| - 1], base, capacity);
        if result == ReceiveOk || result == ReceiveComplete then Some((next, placed + more)) else None
  }

  /** An acceptable record puts its bytes one after another from its address on, in order and no others. */
  lemma {:induction false} PlacedInOrder(r: HexRecord, n: nat, base: nat, capacity: nat)
    requires n <= |r.data| && Placements(r, n, base, capacity).0 == ReceiveOk
    ensures var placed := Placements(r, n, base, capacity).1;
            |placed| == n &&
            forall i :: 0 <= i < n ==>
              Inside(r, i, base, capacity) && placed[i] == Placement(AddressOf(r, i) - base, r.data[i])
  {
    hide AddressOf;
    if n > 0 {
      PlacedInOrder(r, n - 1, base, capacity);
    }
  }

  /** And a record is refused exactly when some byte of it lies outside the region. */
  lemma {:induction false} RefusedIffOutside(r: HexRecord, n: nat, base: nat, capacity: nat)
    requires n <= |r.data|
    ensures Placements(r, n, base, capacity).0 == ReceiveOk <==>
              forall i :: 0 <= i < n ==> Inside(r, i, base, capacity)
  {
    hide AddressOf;
    if n > 0 {
      RefusedIffOutside(r, n - 1, base, capacity);
      assert PlaceSpec(AddressOf(r, n - 1), base, capacity).0 == ReceiveOk <==> Inside(r, n - 1, base, capacity);
    }
  }

  /** It is refused for the first byte outside, as below the image base or as past the region. */
  lemma {:induction false} RefusedForFirst(r: HexRecord, i: nat, base: nat, capacity: nat)
    requires i < |r.data| && !Inside(r, i, base, capacity)
    requires forall j :: 0 <= j < i ==> Inside(r, j, base, capacity)
    ensures Placements(r, |r.data|, base, capacity).0 == if AddressOf(r, i) < base then ReceiveBelowBase else ReceiveTooLarge
    ensures |Placements(r, |r.data|, base, capacity).1| == i
  {
    hide AddressOf;
    RefusedIffOutside(r, i, base, capacity);
    PlacedInOrder(r, i, base, capacity);
    NextPlacement(r, i, base, capacity);
    PlacementsStop(r, i + 1, |r.data|, base, capacity);
  }

  /** The entry point a linker writes is taken, and places nothing. */
  lemma StartAddressTaken(st: ParserState, offset: nat, kind: byte, data: seq<byte>, upper: bool, base: nat, capacity: nat)
    requires offset < 65536 && (kind == 3 || kind == 5) && |data| == 4 && !st.seenEof
    ensures LineSpec(st, Format(offset, kind, data, upper), base, capacity) ==
              (ReceiveOk, st.(startAddress := Big(data), haveStart := true), [])
  {
    hide FeedSpec, Format, Placements;
    var line := Format(offset, kind, data, upper);
    assert "" + line + "" == line;
    RecordTable(st, offset, kind, data, upper, "", "");
  }

  lemma TransferAppend(lines: seq<string>, line: string, base: nat, capacity: nat)
    requires Transfer(lines, base, capacity).Some?
    ensures var (st, placed) := Transfer(lines, base, capacity).value;
            var (result, next, more) := LineSpec(st, line, base, capacity);
            Transfer(lines + [line], base, capacity) ==
              if result == ReceiveOk || result == ReceiveComplete then Some((next, placed + more)) else None
  {
    assert (lines + [line])[..|lines|] == lines;
  }

  // ---- what the lines ask for, and what the flash can take ------------------------------------

  /** Where a transfer stands: from `from` on, what has been placed is in the page buffer alone. */
  datatype Progress = Progress(parser: ParserState, placed: seq<Placement>, from: nat)

  const BEGUN := Progress(FRESH, [], 0)

  /** A record's bytes, and at the end of the file the page in hand, with nothing wrong with the flash. */
  function Take(start: seq<byte>, placed: seq<Placement>, from: nat, answer: ReceiveResult, more: seq<Placement>):
    (r: (ReceiveResult, seq<Placement>, nat))
    requires from <= |placed|
    ensures r.2 <= |r.1|
  {
    match Through(start, placed, from, more)
    case None => (ReceiveWriteError, placed, from)
    case Some(f) =>
      var all := placed + more;
      if answer != ReceiveComplete then (answer, all, f)
      else if Lands(start, all, f) then (ReceiveComplete, all, |all|)
      else (ReceiveWriteError, placed, from)
  }

  /** One line, with the region as it was when the transfer began. */
  function TakeLine(start: seq<byte>, g: Progress, line: string, base: nat): (r: (ReceiveResult, Progress))
    requires g.from <= |g.placed|
    ensures r.1.from <= |r.1.placed|
  {
    var (answer, next, more) := LineSpec(g.parser, line, base, |start|);
    var (result, placed, from) := Take(start, g.placed, g.from, answer, more);
    (result, if result == ReceiveWriteError then g else Progress(next, placed, from))
  }

  /** All the lines of a transfer, if none was refused and no page failed to take. */
  function Session(start: seq<byte>, lines: seq<string>, base: nat): (r: Option<Progress>)
    ensures r.Some? ==> r.value.from <= |r.value.placed|
  {
    if |lines| == 0 then Some(BEGUN)
    else
      match Session(start, lines[..|lines| - 1], base)
      case None => None
      case Some(g) =>
        var (result, next) := TakeLine(start, g, lines[|lines| - 1], base);
        if result == ReceiveOk || result == ReceiveComplete then Some(next) else None
  }

  /** Where the buffer stands: empty after the end of the file, and otherwise at the last page visited. */
  function Standing(st: ParserState, placed: seq<Placement>): Progress
  {
    Progress(st, placed, if st.seenEof then |placed| else VisitFrom(placed))
  }

  /** Every page that has had to go out could: all but the one in hand, and that one too at the end. */
  predicate Landed(start: seq<byte>, st: ParserState, placed: seq<Placement>)
  {
    EarlierLand(start, placed) && (st.seenEof ==> Lands(start, placed, VisitFrom(placed)))
  }

  /**
   * A transfer's lines go through exactly when each is acceptable and no visit to a page asks
   * for a bit an earlier one has cleared.
   */
  lemma {:induction false} SessionIff(start: seq<byte>, lines: seq<string>, base: nat)
    ensures Session(start, lines, base) ==
              match Transfer(lines, base, |start|)
              case None => None
              case Some((st, placed)) => if Landed(start, st, placed) then Some(Standing(st, placed)) else None
  {
    hide LineSpec, Landed, Standing, TakeLine;
    if |lines| == 0 {
      NothingLanded(start);
    } else {
      var front, line := lines[..|lines| - 1], lines[|lines| - 1];
      SessionIff(start, front, base);
      if Transfer(front, base, |start|).Some? {
        var (st, placed) := Transfer(front, base, |start|).value;
        LineLands(start, st, placed, line, base);
      }
    }
  }

  lemma NothingLanded(start: seq<byte>)
    ensures Landed(start, FRESH, []) && Standing(FRESH, []) == BEGUN
  {
  }

  /** One more acceptable line leaves everything landed exactly if it goes through; nothing unlanded ever lands. */
  lemma LineLands(start: seq<byte>, st: ParserState, placed: seq<Placement>, line: string, base: nat)
    ensures var (answer, next, more) := LineSpec(st, line, base, |start|);
            && (answer == ReceiveOk || answer == ReceiveComplete ==>
                  (Landed(start, next, placed + more) ==> Landed(start, st, placed)) &&
                  (Landed(start, st, placed) ==>
                     TakeLine(start, Standing(st, placed), line, base) ==
                       if Landed(start, next, placed + more) then (answer, Standing(next, placed + more))
                       else (ReceiveWriteError, Standing(st, placed))))
            && (answer != ReceiveOk && answer != ReceiveComplete ==>
                  TakeLine(start, Standing(st, placed), line, base).0 in {answer, ReceiveWriteError})
  {
    hide FeedSpec, RecordSpec, Lands, EarlierLand, VisitFrom, Through;
    var (answer, next, more) := LineSpec(st, line, base, |start|);
    if answer == ReceiveOk || answer == ReceiveComplete {
      FeedOk(st, line);
      EndPlacesNothing(st, line, base, |start|);
      ThroughIff(start, placed);
      ThroughIff(start, placed + more);
      ThroughConcat(start, [], 0, placed, more);
      assert [] + placed == placed;
      if answer == ReceiveComplete {
        assert placed + more == placed;
        NothingMoved(start, placed, VisitFrom(placed));
      }
    }
  }

  lemma NothingMoved(start: seq<byte>, placed: seq<Placement>, from: nat)
    requires from <= |placed|
    ensures Through(start, placed, from, []) == Some(from)
  {
  }

  lemma EndPlacesNothing(st: ParserState, line: string, base: nat, capacity: nat)
    ensures LineSpec(st, line, base, capacity).0 == ReceiveComplete ==> LineSpec(st, line, base, capacity).2 == []
    ensures LineSpec(st, line, base, capacity).0 == ReceiveComplete || LineSpec(st, line, base, capacity).0 == ReceiveOk ==>
              (LineSpec(st, line, base, capacity).1.seenEof <==> LineSpec(st, line, base, capacity).0 == ReceiveComplete)
  {
    hide FeedSpec, Placements;
    if FeedSpec(st, line).0 == HexOk {
      FeedOk(st, line);
    }
  }

  /**
   * A whole file is staged exactly when every line of it is acceptable, it ends, and every visit to
   * every page asks for no bit that an earlier visit, or whatever was there before, had cleared.
   */
  lemma TransferCompletesIff(start: seq<byte>, lines: seq<string>, base: nat)
    ensures var t := Transfer(lines, base, |start|);
            Session(start, lines, base).Some? && Session(start, lines, base).value.parser.seenEof <==>
              t.Some? && t.value.0.seenEof && AllLand(start, t.value.1)
  {
    hide Session, Transfer, EarlierLand, Lands, VisitFrom;
    SessionIff(start, lines, base);
  }

  /**
   * On erased flash a whole file is staged exactly when every line of it is acceptable, it ends, and
   * every visit to a page sends again all that earlier visits put there, within the bits they left.
   */
  lemma CompletesIffResent(start: seq<byte>, lines: seq<string>, base: nat)
    requires forall o :: 0 <= o < |start| ==> start[o] == ERASED
    ensures var t := Transfer(lines, base, |start|);
            Session(start, lines, base).Some? && Session(start, lines, base).value.parser.seenEof <==>
              t.Some? && t.value.0.seenEof &&
              forall k :: 0 < k <= |t.value.1| && VisitEnds(t.value.1, k) ==> VisitResends(t.value.1, k, |start|)
  {
    hide Session, Transfer, AllLand, VisitEnds, VisitResends;
    TransferCompletesIff(start, lines, base);
    if Transfer(lines, base, |start|).Some? {
      AllLandIffResent(start, Transfer(lines, base, |start|).value.1);
    }
  }

  /**
   * So one byte of a page come back to that is not sent again, in any file at all, fails it: at the
   * end of the visit that leaves it out, or at the end of the file.
   */
  lemma UnsentByteFails(start: seq<byte>, lines: seq<string>, base: nat, k: nat, o: nat)
    requires Transfer(lines, base, |start|).Some?
    requires var (st, placed) := Transfer(lines, base, |start|).value;
             && VisitEnds(placed, k) && (k == |placed| ==> st.seenEof)
             && o < |start| && o / PAGE == placed[k - 1].offset / PAGE
             && var from := VisitFrom(placed[..k]);
                Overlay(placed[..from], o) != ERASED && !Placed(placed[from..k], o)
    ensures Session(start, lines, base) == None
  {
    hide Session, Transfer, Overlay, Placed, EarlierLand, PageUsed, And;
    var (st, placed) := Transfer(lines, base, |start|).value;
    var from := VisitFrom(placed[..k]);
    SessionIff(start, lines, base);
    assert placed[..k][..from] == placed[..from] && placed[..k][from..] == placed[from..k];
    LeftOutDoesNotLand(start, placed[..k], from, o);
    assert placed[..|placed|] == placed;
    if k < |placed| {
      NotEarlier(start, placed, k);
    }
  }

  lemma NotEarlier(start: seq<byte>, placed: seq<Placement>, k: nat)
    requires 0 < k < |placed| && Leaves(placed, k) && !Lands(start, placed[..k], VisitFrom(placed[..k]))
    ensures !EarlierLand(start, placed)
  {
  }

  lemma LeftOutDoesNotLand(start: seq<byte>, ps: seq<Placement>, from: nat, o: nat)
    requires from < |ps| && o < |start| && o / PAGE == ps[from].offset / PAGE
    requires Overlay(ps[..from], o) != ERASED && !Placed(ps[from..], o)
    ensures !Lands(start, ps, from)
  {
    hide Overlay, Placed, PageUsed, And;
    OverlayUnplaced(ps[from..], o);
    AndErased(Overlay(ps[..from], o));
    if !PageUsed(ps[..from], o / PAGE) {
      UnusedPage(ps[..from], o);
    }
    assert !LandsAt(start, ps, from, o);
  }

  /** A byte, one in another page, one more in the first page, and the end of the file. */
  function ReturningFile(a: Placement, c: Placement, b: Placement): (lines: seq<string>)
    requires a.offset < 0x1_0000 && c.offset < 0x1_0000 && b.offset < 0x1_0000
  {
    [Format(a.offset, DATA, [a.value], true), Format(c.offset, DATA, [c.value], true),
     Format(b.offset, DATA, [b.value], true), Format(0, END_OF_FILE, [], true)]
  }

  /**
   * A page come back to for another of its bytes cannot be programmed again, though every line is
   * acceptable and the flash was erased: the buffer begins blank, and the first byte is in the way.
   */
  lemma ReturningFileFails(start: seq<byte>, a: Placement, c: Placement, b: Placement)
    requires a.offset < |start| && b.offset < |start| && c.offset < |start| && |start| <= 0x1_0000
    requires a.offset / PAGE == b.offset / PAGE != c.offset / PAGE && a.offset != b.offset && a.value != ERASED
    requires forall o :: 0 <= o < |start| ==> start[o] == ERASED
    ensures var lines := ReturningFile(a, c, b);
            Transfer(lines, 0, |start|) == Some((FRESH.(seenEof := true), [a, c, b])) && Session(start, lines, 0) == None
  {
    hide Transfer, Session, Format, Lands;
    var lines := ReturningFile(a, c, b);
    ReturningTransfer(a, c, b, |start|);
    SessionIff(start, lines, 0);
    ReturnDoesNotLand(start, a, c, b);
  }

  lemma ReturnDoesNotLand(start: seq<byte>, a: Placement, c: Placement, b: Placement)
    requires a.offset < |start| && b.offset < |start| && c.offset < |start|
    requires a.offset / PAGE == b.offset / PAGE != c.offset / PAGE && a.offset != b.offset && a.value != ERASED
    ensures VisitFrom([a, c, b]) == 2 && !Lands(start, [a, c, b], 2)
  {
    hide And, Overlay, PageUsed, VisitFrom;
    var all := [a, c, b];
    ThreeVisits(a, c, b);
    assert all[..2] == [a] + [c] && all[2..] == [b];
    OverlayAppend([a], c, a.offset);
    OneOverlay(a, a.offset);
    OneOverlay(b, a.offset);
    assert PageUsed(all[..2], a.offset / PAGE) by {
      assert all[..2][0] == a;
      Uses(all[..2], 0);
    }
    AndErased(a.value);
    assert !LandsAt(start, all, 2, a.offset);
  }

  lemma Uses(ps: seq<Placement>, i: nat)
    requires i < |ps|
    ensures PageUsed(ps, ps[i].offset / PAGE)
  {
  }

  lemma OneOverlay(x: Placement, o: nat)
    ensures Overlay([x], o) == if x.offset == o then x.value else ERASED
  {
    assert [x][..0] == [];
  }

  lemma ThreeVisits(a: Placement, c: Placement, b: Placement)
    requires a.offset / PAGE == b.offset / PAGE != c.offset / PAGE
    ensures VisitFrom([a, c, b]) == 2
  {
  }

  lemma ReturningTransfer(a: Placement, c: Placement, b: Placement, capacity: nat)
    requires a.offset < capacity && b.offset < capacity && c.offset < capacity <= 0x1_0000
    ensures Transfer(ReturningFile(a, c, b), 0, capacity) == Some((FRESH.(seenEof := true), [a, c, b]))
  {
    hide Format, LineSpec, Transfer;
    var l := ReturningFile(a, c, b);
    ByteLine(a, capacity);
    ByteLine(c, capacity);
    ByteLine(b, capacity);
    EndLine(capacity);
    TransferNone(0, capacity);
    TransferAppend([], l[0], 0, capacity);
    TransferAppend([] + [l[0]], l[1], 0, capacity);
    TransferAppend([] + [l[0]] + [l[1]], l[2], 0, capacity);
    TransferAppend([] + [l[0]] + [l[1]] + [l[2]], l[3], 0, capacity);
    assert l == [] + [l[0]] + [l[1]] + [l[2]] + [l[3]];
    assert [] + [a] + [c] + [b] + [] == [a, c, b];
  }

  lemma TransferNone(base: nat, capacity: nat)
    ensures Transfer([], base, capacity) == Some((FRESH, []))
  {
  }

  lemma ByteLine(x: Placement, capacity: nat)
    requires x.offset < capacity <= 0x1_0000
    ensures LineSpec(FRESH, Format(x.offset, DATA, [x.value], true), 0, capacity) == (ReceiveOk, FRESH, [x])
  {
    hide FeedSpec, Format, ApplyRecord;
    var line := Format(x.offset, DATA, [x.value], true);
    assert "" + line + "" == line;
    FormatRoundTrip(FRESH, x.offset, DATA, [x.value], true, "", "");
    var r := HexRecord(DATA, x.offset, [x.value]);
    NoPlacements(r, 0, capacity);
    NextPlacement(r, 0, 0, capacity);
    assert [] + [x] == [x];
  }

  lemma EndLine(capacity: nat)
    ensures LineSpec(FRESH, Format(0, END_OF_FILE, [], true), 0, capacity) == (ReceiveComplete, FRESH.(seenEof := true), [])
  {
    hide FeedSpec, Format;
    var line := Format(0, END_OF_FILE, [], true);
    assert "" + line + "" == line;
    FormatRoundTrip(FRESH, 0, END_OF_FILE, [], true, "", "");
    var b := Unsummed(0, END_OF_FILE, []);
    assert (b + [Checksum(b)])[4..|b|] == [];
  }

  class Receiver {
    const flash: Flash
    const region: Region
    const baseAddress: nat
    const parser: Parser
    const page: array<byte>
    var started: bool
    var pageOffset: nat
    var pageDirty: bool
    var records: nat
    var bytes: nat
    var imageSize: nat
    var pagesWritten: nat
    var complete: bool
    var error: ReceiveResult
    ghost var start: seq<byte>
    ghost var from: nat
    ghost var placed: seq<Placement>
    ghost var fed: seq<string>
    /** No page has been put out before its time. */
    ghost var unbroken: bool

    /** Bytes of the region as the chip holds them. */
    ghost function Staged(): seq<byte>
      reads flash, flash.cells
      requires flash.Valid() && flash.RegionOnChip(region)
    {
      flash.Contents()[region.offset..region.offset + region.size]
    }

    ghost function View(): Assembly
      reads this`start, this`pageOffset, this`from, this`placed, page, flash, flash.cells
      requires flash.Valid() && flash.RegionOnChip(region)
    {
      Assembly(start, Staged(), page[..], pageOffset / PAGE, from, placed)
    }

    ghost predicate Shape()
      reads this`pageOffset, page, flash, flash.cells
    {
      && flash.Valid() && flash.RegionOnChip(region)
      && page.Length == PAGE && page != flash.cells
      && pageOffset % PAGE == 0
      && region.size < WORD_LIMIT
    }

    /** Flash and page buffer are in step, and the buffer is dirty when it has something of its own. */
    ghost predicate Kept()
      reads this`start, this`pageOffset, this`pageDirty, this`from, this`placed, page, flash, flash.cells
      requires Shape()
    {
      Tracks(View()) && from <= |placed| && (pageDirty <==> from < |placed|)
    }

    ghost function Where(): Progress
      reads this`placed, this`from, parser
    {
      Progress(parser.State(), placed, from)
    }

    /** Every page of the region can be programmed, as far as bounds and the running code go. */
    ghost predicate Pageable()
    {
      flash.Precheck(region) == FlashOk && region.offset % PAGE == 0 && region.size % PAGE == 0
    }

    /** What the page buffer and flash hold is what the lines accepted so far ask for. */
    ghost predicate InStep()
      reads this, page, parser, flash, flash.cells
      requires Shape()
    {
      && Kept() && imageSize == Extent(placed)
      && Transfer(fed, baseAddress, region.size) == Some((parser.State(), placed))
      && (unbroken ==> Session(start, fed, baseAddress) == Some(Where()))
      && (complete ==> !pageDirty)
      && (complete <==> parser.seenEof)
    }

    ghost predicate Valid()
      reads this, page, parser, flash, flash.cells
    {
      && Shape()
      && error != ReceiveComplete && error != ReceiveAborted && error != ReceiveNotStarted
      && (started && error == ReceiveOk ==> InStep())
    }

    lemma Apart()
      requires Valid()
      ensures page != flash.cells
    {
    }

    /** Flash changing elsewhere on the chip is nothing to a transfer. */
    twostate lemma StaysValid()
      requires old(Valid()) && unchanged(this, page, parser)
      requires flash.Valid() && flash.cells == old(flash.cells) && flash.RegionOnChip(region)
      requires Staged() == old(Staged())
      ensures Valid()
    {
      hide Tracks, PerformAll, Transfer, AllFit, Extent;
      assert page[..] == old(page[..]);
      assert View() == old(View());
    }

    /** No transfer yet. */
    constructor Idle(flash: Flash, region: Region)
      requires flash.Valid() && flash.RegionOnChip(region) && region.size < WORD_LIMIT
      ensures Valid() && fresh(page) && fresh(parser)
      ensures this.flash == flash && this.region == region
      ensures error == ReceiveOk && !complete && !started
    {
      this.flash, this.region, this.baseAddress := flash, region, 0;
      parser := new Parser();
      page := new byte[PAGE](_ => 0);
      started := false;
      pageOffset, pageDirty := 0, false;
      records, bytes, imageSize, pagesWritten := 0, 0, 0, 0;
      complete, error := false, ReceiveOk;
      start, from, placed, fed, unbroken := [], 0, [], [], true;
    }

    /** firmware_receive_begin, for a region whose erasing is the caller's business. */
    constructor (flash: Flash, region: Region, baseAddress: nat)
      requires flash.Valid() && flash.RegionOnChip(region) && 0 < region.size < WORD_LIMIT
      ensures Valid() && fresh(page) && fresh(parser)
      ensures this.flash == flash && this.region == region && this.baseAddress == baseAddress
      ensures started && error == ReceiveOk && !complete && placed == [] && fed == [] && unbroken && start == Staged()
    {
      this.flash, this.region, this.baseAddress := flash, region, baseAddress;
      parser := new Parser();
      page := new byte[PAGE](_ => ERASED);
      started := true;
      pageOffset, pageDirty := 0, false;
      records, bytes, imageSize, pagesWritten := 0, 0, 0, 0;
      complete, error := false, ReceiveOk;
      start := flash.cells[region.offset..region.offset + region.size];
      from, placed, fed, unbroken := 0, [], [], true;
      new;
      assert start == Staged();
    }

    method ResetPage(at: nat)
      requires Shape() && at % PAGE == 0 && !pageDirty
      modifies this`pageOffset, this`pageDirty, page
      ensures Shape() && View() == WithBlankPage(old(View()), at / PAGE) && !pageDirty
      ensures pageOffset == at
    {
      forall i | 0 <= i < PAGE {
        page[i] := ERASED;
      }
      assert page[..] == Blank(PAGE);
      pageOffset, pageDirty := at, false;
    }

    /** The page in hand could not be programmed where it belongs whatever the chip does. */
    ghost predicate Unwritable()
      reads this`pageOffset
    {
      flash.Verdict(region, CheckProgram(region, pageOffset, PAGE)) != FlashOk
    }

    ghost function PageOp(): FlashOp
      reads this`pageOffset, page
    {
      ProgramOp(region.offset + pageOffset, page[..])
    }

    /** The page in hand was the last thing programmed, and the chip does not hold it. */
    ghost predicate Misread()
      reads this`pageOffset, page, flash`cells, flash`log, flash.cells
    {
      && |flash.log| > 0 && flash.log[|flash.log| - 1] == PageOp()
      && region.offset + pageOffset + PAGE <= flash.cells.Length
      && flash.cells[region.offset + pageOffset..region.offset + pageOffset + PAGE] != page[..]
    }

    /** The three ways a write can fail: held off, out of place, or programmed and read back otherwise. */
    twostate predicate WriteFailed()
      reads this`pageOffset, page, flash`cells, flash`log, flash`denials, flash.cells
    {
      flash.denials > old(flash.denials) || Unwritable() || (Misread() && |flash.log| > |old(flash.log)|)
    }

    /** The flash was not held off, and the region is one whose pages can all be programmed. */
    twostate predicate Undisturbed()
      reads flash`denials
    {
      flash.denials == old(flash.denials) && Pageable()
    }

    /** The writer behind the receiver: a page programmed and read back. */
    method WritePage() returns (ok: bool)
      requires Shape()
      modifies flash`log, flash`denials, flash.cells
      ensures Shape() && flash.cells == old(flash.cells) && page[..] == old(page[..])
      ensures ok ==> TookPage(old(View()), Staged())
      ensures flash.denials == old(flash.denials) || !ok
      ensures !ok ==> WriteFailed()
      ensures flash.log == old(flash.log) + if ok || Attempted() then [PageOp()] else []
      ensures !ok && Attempted() ==> Programmed(old(View()), Staged()) && !TookPage(old(View()), Staged())
      ensures GrewWithin(old(flash.log), flash.log, region)
    {
      hide Tracks, PerformAll, AllFit, Perform, TookPage, Programmed, Extent, Blank, CheckProgram, GrewWithin;
      GrewNone(flash.log, region);
      ProgramWithin(flash.log, PageOp(), region);
      var result := flash.ProgramVerified(region, pageOffset, page[..]);
      ok := result == FlashOk;
      if ok || Attempted() {
        ghost var op := ProgramOp(region.offset + pageOffset, page[..]);
        PerformOne(old(flash.Contents()), op);
        ProgrammedPage(old(View()), old(flash.Contents()), flash.Contents(), region, pageOffset);
      }
    }

    /** Nothing kept the page in hand from being programmed. */
    twostate predicate Attempted()
      reads this`pageOffset, flash`denials
    {
      flash.denials == old(flash.denials) && !Unwritable()
    }

    lemma NotUnwritable()
      requires Shape() && Kept() && pageDirty && Pageable()
      ensures !Unwritable()
    {
      hide Held, Overlay, PageUsed;
      assert placed[from].offset / PAGE == pageOffset / PAGE && placed[from].offset < region.size;
    }

    /** A page something has been put in goes out; any other is left. */
    method FlushPage() returns (result: ReceiveResult)
      requires Shape() && Kept()
      modifies this`pageDirty, this`pagesWritten, this`from, flash`log, flash`denials, flash.cells
      ensures Shape() && flash.cells == old(flash.cells) && page[..] == old(page[..])
      ensures result == ReceiveOk || result == ReceiveWriteError
      ensures result == ReceiveOk ==> !pageDirty && Kept() && Lands(start, placed, old(from)) && from == |placed|
      ensures result == ReceiveOk ==> flash.log == old(flash.log) + if old(pageDirty) then [PageOp()] else []
      ensures result == ReceiveWriteError ==> old(pageDirty) && pageDirty && WriteFailed()
      ensures result == ReceiveWriteError && Undisturbed() ==> !Lands(start, placed, old(from))
      ensures result == ReceiveOk ==> flash.denials == old(flash.denials)
      ensures GrewWithin(old(flash.log), flash.log, region)
    {
      hide Tracks, PerformAll, AllFit, TookPage, Programmed, GrewWithin, Unwritable, Misread, Lands;
      GrewNone(flash.log, region);
      if !pageDirty {
        NothingLeft();
        return ReceiveOk;
      }
      if Pageable() {
        NotUnwritable();
      }
      ghost var was := View();
      var ok := WritePage();
      if ok {
        TookIsProgrammed(was, Staged());
      }
      if ok || Attempted() {
        TakesIffLands(was, Staged());
      }
      if !ok {
        return ReceiveWriteError;
      }
      PageWrittenTracks(was, Staged());
      pagesWritten := U32(pagesWritten + 1);
      pageDirty := false;
      from := |placed|;
      return ReceiveOk;
    }

    lemma NothingLeft()
      requires Shape() && Kept() && !pageDirty
      ensures from == |placed| && Lands(start, placed, from)
    {
    }

    /** Make the page at `at` the one being filled. */
    method TurnTo(at: nat) returns (result: ReceiveResult)
      requires Shape() && Kept() && at % PAGE == 0
      modifies this`pageOffset, this`pageDirty, this`pagesWritten, this`from, page, flash`log, flash`denials, flash.cells
      ensures Shape() && flash.cells == old(flash.cells)
      ensures result == ReceiveOk || result == ReceiveWriteError
      ensures result == ReceiveOk ==> Kept() && pageOffset == at
      ensures result == ReceiveOk ==> pageDirty || page[..] == Blank(PAGE)
      ensures result == ReceiveOk ==>
                if old(pageDirty) && at != old(pageOffset) then Lands(start, placed, old(from)) && from == |placed|
                else from == old(from)
      ensures result == ReceiveWriteError ==> old(pageDirty) && old(pageOffset) != at && pageDirty && WriteFailed()
      ensures result == ReceiveWriteError && Undisturbed() ==> !Lands(start, placed, old(from))
      ensures result == ReceiveOk ==> flash.denials == old(flash.denials)
      ensures GrewWithin(old(flash.log), flash.log, region)
    {
      hide Tracks, PerformAll, AllFit, Extent, GrewWithin, Unwritable, Misread, Lands, Pageable;
      GrewNone(flash.log, region);
      result := ReceiveOk;
      if pageDirty && at != pageOffset {
        result := FlushPage();
        if result != ReceiveOk {
          return;
        }
      }
      if !pageDirty {
        NothingLeft();
        BlankPageTracks(View(), at / PAGE);
        ResetPage(at);
      }
    }

    method StoreByte(offset: nat, value: byte)
      requires Shape() && Kept() && imageSize == Extent(placed)
      requires offset < region.size && offset / PAGE == pageOffset / PAGE
      requires pageDirty || page[..] == Blank(PAGE)
      modifies this`pageDirty, this`bytes, this`imageSize, this`placed, page
      ensures Shape() && Kept() && imageSize == Extent(placed)
      ensures placed == old(placed) + [Placement(offset, value)]
    {
      hide Extent, Overlay, Placed, Blank, Held;
      ghost var x := Placement(offset, value);
      ByteTracks(View(), x);
      OverlayAppend(placed, x, 0);
      page[offset % PAGE] := value;
      pageDirty := true;
      bytes := U32(bytes + 1);
      placed := placed + [x];
      if offset + 1 > imageSize {
        imageSize := offset + 1;
      }
      assert View() == WithByte(old(View()), x);
    }

    method PlaceByte(address: nat, value: byte) returns (result: ReceiveResult)
      requires Shape() && Kept() && imageSize == Extent(placed)
      modifies this`pageOffset, this`pageDirty, this`bytes, this`imageSize, this`pagesWritten,
               this`from, this`placed, page, flash`log, flash`denials, flash.cells
      ensures Shape() && flash.cells == old(flash.cells)
      ensures var (answer, offset) := PlaceSpec(address, baseAddress, region.size);
              var x := Placement(offset, value);
              && (result == answer || (answer == ReceiveOk && result == ReceiveWriteError))
              && (result == ReceiveOk ==> placed == old(placed) + [x] && Moved(start, old(placed), old(from), x) == Some(from))
              && (result == ReceiveWriteError && Undisturbed() ==> Moved(start, old(placed), old(from), x) == None)
      ensures result == ReceiveOk ==> Kept() && imageSize == Extent(placed)
      ensures result == ReceiveWriteError ==>
                old(pageDirty) && old(pageOffset) != PageOf(address - baseAddress) && pageDirty && WriteFailed()
      ensures result != ReceiveWriteError ==> flash.denials == old(flash.denials)
      ensures GrewWithin(old(flash.log), flash.log, region)
    {
      hide Tracks, PerformAll, AllFit, Extent, Blank, GrewWithin, Unwritable, Misread, Lands, Pageable;
      GrewNone(flash.log, region);
      if address < baseAddress {
        return ReceiveBelowBase;
      }
      var offset := address - baseAddress;
      if offset >= region.size {
        return ReceiveTooLarge;
      }
      PageStart(offset);
      SamePageIff(offset, pageOffset);
      InHand();
      result := TurnTo(offset - offset % PAGE);
      if result != ReceiveOk {
        return;
      }
      StoreByte(offset, value);
    }

    lemma InHand()
      requires Shape() && Kept()
      ensures pageDirty ==> from < |placed| && placed[from].offset / PAGE == pageOffset / PAGE
    {
    }

    method PlaceRecord(record: HexRecord) returns (result: ReceiveResult)
      requires Shape() && Kept() && imageSize == Extent(placed)
      modifies this`pageOffset, this`pageDirty, this`bytes, this`imageSize, this`pagesWritten,
               this`from, this`placed, page, flash`log, flash`denials, flash.cells
      ensures Shape() && flash.cells == old(flash.cells)
      ensures var (answer, more) := Placements(record, |record.data|, baseAddress, region.size);
              && (result == answer || result == ReceiveWriteError)
              && Took(old(placed), old(from), answer, more, result)
              && (result == ReceiveWriteError && Undisturbed() ==> Through(start, old(placed), old(from), more) == None)
      ensures result == ReceiveOk ==> Kept() && imageSize == Extent(placed)
      ensures result == ReceiveWriteError ==> pageDirty && WriteFailed()
      ensures result != ReceiveWriteError ==> flash.denials == old(flash.denials)
      ensures GrewWithin(old(flash.log), flash.log, region)
    {
      hide Tracks, PerformAll, AllFit, PlaceSpec, Placements, Through, Extent, Blank, U32, GrewWithin, Unwritable, Lands,
           Moved, Pageable, Kept, AddressOf;
      GrewNone(flash.log, region);
      InOrder();
      ghost var was, done: seq<Placement> := placed, [];
      NoPlacements(record, baseAddress, region.size);
      for i := 0 to |record.data|
        invariant Shape() && Kept() && imageSize == Extent(placed) && flash.cells == old(flash.cells)
        invariant Placements(record, i, baseAddress, region.size) == (ReceiveOk, done)
        invariant placed == was + done
        invariant Through(start, was, old(from), done) == Some(from)
        invariant GrewWithin(old(flash.log), flash.log, region) && flash.denials == old(flash.denials)
      {
        ghost var before := flash.log;
        ghost var x := Placement(PlaceSpec(AddressOf(record, i), baseAddress, region.size).1, record.data[i]);
        NextPlacement(record, i, baseAddress, region.size);
        ThroughMore(start, was, old(from), done, x);
        result := PlaceByte(AddressOf(record, i), record.data[i]);
        GrewMore(old(flash.log), before, flash.log, region);
        if result != ReceiveOk {
          PlacementsStop(record, i + 1, |record.data|, baseAddress, region.size);
          ThroughStops(start, was, old(from), Placements(record, i + 1, baseAddress, region.size).1,
                       Placements(record, |record.data|, baseAddress, region.size).1);
          return;
        }
        done := done + [x];
      }
      result := ReceiveOk;
    }

    lemma InOrder()
      requires Shape() && Kept()
      ensures from <= |placed| && |start| == region.size
      ensures Through(start, placed, from, []) == Some(from) && placed + [] == placed
    {
    }

    /** Wherever a record's bytes have not failed to be written, they are where they would be on a flash with nothing wrong. */
    ghost predicate Took(was: seq<Placement>, at: nat, answer: ReceiveResult, more: seq<Placement>, result: ReceiveResult)
      reads this`start, this`placed, this`from
    {
      at <= |was| && result != ReceiveWriteError ==>
        Take(start, was, at, answer, more).0 == result &&
        (result == ReceiveOk || result == ReceiveComplete ==> Take(start, was, at, answer, more) == (result, placed, from))
    }

    method TakeRecord(record: HexRecord) returns (result: ReceiveResult)
      requires Shape() && Kept() && imageSize == Extent(placed) && !complete
      modifies this`pageOffset, this`pageDirty, this`bytes, this`imageSize, this`pagesWritten, this`complete,
               this`from, this`placed, page, flash`log, flash`denials, flash.cells
      ensures Shape() && flash.cells == old(flash.cells) && old(from) <= |old(placed)|
      ensures var (answer, more) := RecordSpec(record, baseAddress, region.size);
              && (result == answer || result == ReceiveWriteError)
              && Took(old(placed), old(from), answer, more, result)
              && (result == ReceiveWriteError && Undisturbed() ==>
                    Take(start, old(placed), old(from), answer, more).0 == ReceiveWriteError)
      ensures result == ReceiveOk || result == ReceiveComplete ==> Kept() && imageSize == Extent(placed)
      ensures complete <==> result == ReceiveComplete
      ensures complete ==> !pageDirty
      ensures result == ReceiveWriteError ==> pageDirty && WriteFailed()
      ensures result != ReceiveWriteError ==> flash.denials == old(flash.denials)
      ensures GrewWithin(old(flash.log), flash.log, region)
    {
      hide Tracks, PerformAll, AllFit, PlaceSpec, Placements, GrewWithin, Unwritable, Lands, Pageable, Kept, Extent;
      GrewNone(flash.log, region);
      InOrder();
      if record.kind == DATA {
        result := PlaceRecord(record);
      } else if record.kind == END_OF_FILE {
        result := FlushPage();
        if result == ReceiveOk {
          complete := true;
          result := ReceiveComplete;
        }
      } else {
        result := ReceiveOk;
      }
    }

    /** firmware_receive_line: one record taken, or the transfer spoilt for good. */
    method Line(line: string) returns (result: ReceiveResult)
      requires Valid()
      modifies this`pageOffset, this`pageDirty, this`records, this`bytes, this`imageSize, this`pagesWritten,
               this`complete, this`error, this`from, this`placed, this`fed,
               page, parser, flash`log, flash`denials, flash.cells
      ensures Valid() && flash.cells == old(flash.cells)
      ensures !started ==> result == ReceiveNotStarted
      ensures started && old(error) != ReceiveOk ==> result == ReceiveAborted
      ensures !started || old(error) != ReceiveOk ==>
                error == old(error) && complete == old(complete) && imageSize == old(imageSize) && flash.log == old(flash.log)
      ensures started && old(error) == ReceiveOk ==>
                && (result == LineSpec(old(parser.State()), line, baseAddress, region.size).0 || result == ReceiveWriteError)
                && (error == if result == ReceiveComplete then ReceiveOk else result)
                && (complete <==> old(complete) || result == ReceiveComplete)
                && (error == ReceiveOk ==> fed == old(fed) + [line])
      ensures started && old(error) == ReceiveOk ==> LineTaken(old(Where()), line, result)
      ensures result == ReceiveWriteError ==> pageDirty && WriteFailed()
      ensures result != ReceiveWriteError ==> flash.denials == old(flash.denials)
      ensures GrewWithin(old(flash.log), flash.log, region)
    {
      hide PerformAll, AllFit, Extent, GrewWithin, WriteFailed, Kept, InStep, LineSpec, TakeLine;
      GrewNone(flash.log, region);
      if !started {
        return ReceiveNotStarted;
      }
      if error != ReceiveOk {
        return ReceiveAborted;
      }
      ghost var g := Where();
      AtWork();
      Behind(g, fed);
      result := TakeParsed(line);
      if result != ReceiveOk && result != ReceiveComplete {
        error := result;
        return;
      }
      fed := fed + [line];
      NowInStep(g, old(fed), line, result);
    }

    /** The line parsed, and what it says done. */
    method TakeParsed(line: string) returns (result: ReceiveResult)
      requires Shape() && InStep()
      modifies this`pageOffset, this`pageDirty, this`records, this`bytes, this`imageSize, this`pagesWritten,
               this`complete, this`from, this`placed, page, parser, flash`log, flash`denials, flash.cells
      ensures Shape() && flash.cells == old(flash.cells)
      ensures result == LineSpec(old(parser.State()), line, baseAddress, region.size).0 || result == ReceiveWriteError
      ensures result != ReceiveNotStarted && result != ReceiveAborted
      ensures LineTaken(old(Where()), line, result)
      ensures complete <==> old(complete) || result == ReceiveComplete
      ensures result == ReceiveOk || result == ReceiveComplete ==>
                Kept() && imageSize == Extent(placed) && (complete ==> !pageDirty) && (complete <==> parser.seenEof)
      ensures result == ReceiveWriteError ==> pageDirty && WriteFailed()
      ensures result != ReceiveWriteError ==> flash.denials == old(flash.denials)
      ensures GrewWithin(old(flash.log), flash.log, region)
    {
      hide PerformAll, AllFit, RecordSpec, FeedSpec, Extent, Blank, U32, GrewWithin, Unwritable, Misread, Kept,
           InStep, LineSpec, Take, TakeLine, Pageable;
      GrewNone(flash.log, region);
      AtWork();
      LineParts(start, Where(), line, baseAddress);
      var parsed, record := parser.Feed(line);
      if parsed != HexOk {
        return ReceiveHexError;
      }
      records := U32(records + 1);
      result := TakeRecord(record);
    }

    lemma AtWork()
      requires Shape() && InStep()
      ensures Kept() && imageSize == Extent(placed) && from <= |placed| && |start| == region.size
      ensures complete <==> parser.seenEof
    {
    }

    /** One more line gone through keeps everything in step. */
    lemma NowInStep(g: Progress, front: seq<string>, line: string, result: ReceiveResult)
      requires Shape() && Kept() && imageSize == Extent(placed) && |start| == region.size && g.from <= |g.placed|
      requires Transfer(front, baseAddress, region.size) == Some((g.parser, g.placed))
      requires unbroken ==> Session(start, front, baseAddress) == Some(g)
      requires TakeLine(start, g, line, baseAddress) == (result, Where()) && fed == front + [line]
      requires result == ReceiveOk || result == ReceiveComplete
      requires complete ==> !pageDirty
      requires complete <==> parser.seenEof
      ensures InStep()
    {
      hide Take, RecordSpec, FeedSpec, Kept, Transfer, Session, TakeLine, LineSpec;
      LineParts(start, g, line, baseAddress);
      TransferAppend(front, line, baseAddress, region.size);
      if unbroken {
        SessionAppend(start, front, line, baseAddress);
      }
    }

    lemma Behind(g: Progress, lines: seq<string>)
      requires Shape() && InStep() && g == Where() && lines == fed
      ensures Transfer(lines, baseAddress, region.size) == Some((g.parser, g.placed))
      ensures unbroken ==> Session(start, lines, baseAddress) == Some(g)
    {
    }

    /**
     * A line does what it would on a flash with nothing wrong, unless its page could not be written;
     * and on such a flash that is so only when the page asks for a bit already cleared.
     */
    twostate predicate LineTaken(g: Progress, line: string, result: ReceiveResult)
      reads this`start, this`placed, this`from, parser, flash`denials
    {
      g.from <= |g.placed| &&
      var (wanted, next) := TakeLine(start, g, line, baseAddress);
      && (result != ReceiveWriteError ==> result == wanted)
      && (result == ReceiveOk || result == ReceiveComplete ==> Where() == next)
      && (result == ReceiveWriteError && Undisturbed() ==> wanted == ReceiveWriteError)
    }

    /** firmware_receive_flush: the page in hand goes out though more may follow. */
    method Flush() returns (result: ReceiveResult)
      requires Valid()
      modifies this`pageDirty, this`pagesWritten, this`error, this`from, this`unbroken, flash`log, flash`denials, flash.cells
      ensures Valid() && flash.cells == old(flash.cells)
      ensures !started ==> result == ReceiveNotStarted
      ensures started && old(error) != ReceiveOk ==> result == ReceiveAborted
      ensures !started || old(error) != ReceiveOk ==> error == old(error) && flash.log == old(flash.log)
      ensures started && old(error) == ReceiveOk ==> error == result && (result == ReceiveOk ==> !pageDirty)
      ensures started && old(error) == ReceiveOk && result == ReceiveOk ==>
                Lands(start, placed, old(from)) && flash.log == old(flash.log) + if old(pageDirty) then [PageOp()] else []
      ensures result == ReceiveWriteError ==> old(pageDirty) && WriteFailed()
      ensures result == ReceiveWriteError && Undisturbed() ==> !Lands(start, placed, old(from))
      ensures result != ReceiveWriteError ==> flash.denials == old(flash.denials)
      ensures GrewWithin(old(flash.log), flash.log, region)
    {
      hide Tracks, PerformAll, AllFit, Transfer, Session, GrewWithin, Unwritable, Misread, Lands, Extent, Pageable;
      GrewNone(flash.log, region);
      if !started {
        return ReceiveNotStarted;
      }
      if error != ReceiveOk {
        return ReceiveAborted;
      }
      unbroken := unbroken && !pageDirty;
      result := FlushPage();
      if result != ReceiveOk {
        error := result;
      }
    }
  }

  /**
   * A transfer that reported complete has staged the image its records ask for, exactly
   * when the pages no record touched were erased when it began.
   */
  lemma CompleteMeansStaged(rx: Receiver)
    requires rx.Valid() && rx.started && rx.error == ReceiveOk && rx.complete
    ensures rx.imageSize == Extent(rx.placed) <= rx.region.size
    ensures Transfer(rx.fed, rx.baseAddress, rx.region.size).Some?
    ensures rx.placed == Transfer(rx.fed, rx.baseAddress, rx.region.size).value.1
    ensures rx.Staged()[..rx.imageSize] == ImageOf(rx.placed) <==>
              forall o :: 0 <= o < rx.imageSize && !PageUsed(rx.placed, o / PAGE) ==> rx.start[o] == ERASED
    ensures rx.unbroken ==> AllLand(rx.start, rx.placed)
  {
    hide Tracks, Transfer, Session, EarlierLand, Lands;
    StagedIff(rx.View());
    InOrderOutside(rx);
    SessionIff(rx.start, rx.fed, rx.baseAddress);
  }

  lemma InOrderOutside(rx: Receiver)
    requires rx.Valid() && rx.started && rx.error == ReceiveOk
    ensures |rx.start| == rx.region.size
  {
  }

  lemma SessionAppend(start: seq<byte>, lines: seq<string>, line: string, base: nat)
    requires Session(start, lines, base).Some?
    ensures Session(start, lines + [line], base) ==
              var (result, next) := TakeLine(start, Session(start, lines, base).value, line, base);
              if result == ReceiveOk || result == ReceiveComplete then Some(next) else None
  {
    hide TakeLine;
    assert (lines + [line])[..|lines|] == lines;
  }

  /** What a line asks for, by way of the record it parses to. */
  lemma LineParts(start: seq<byte>, g: Progress, line: string, base: nat)
    requires g.from <= |g.placed|
    ensures var (parsed, record, next) := FeedSpec(g.parser, line);
            if parsed != HexOk then TakeLine(start, g, line, base).0 == ReceiveHexError == LineSpec(g.parser, line, base, |start|).0
            else
              var (answer, more) := RecordSpec(record, base, |start|);
              var (result, placed, from) := Take(start, g.placed, g.from, answer, more);
              && LineSpec(g.parser, line, base, |start|) == (answer, next, more)
              && TakeLine(start, g, line, base) == (result, if result == ReceiveWriteError then g else Progress(next, placed, from))
              && (result == ReceiveOk || result == ReceiveComplete ==> result == answer && placed == g.placed + more)
              && !g.parser.seenEof && (next.seenEof <==> answer == ReceiveComplete)
  {
    hide FeedSpec, Lands;
    if FeedSpec(g.parser, line).0 == HexOk {
      FeedOk(g.parser, line);
    }
    NothingMoved(start, g.placed, g.from);
  }

  /** No record is taken after the end of the file, and only its own record ends it. */
  lemma FeedOk(st: ParserState, line: string)
    requires FeedSpec(st, line).0 == HexOk
    ensures !st.seenEof && (FeedSpec(st, line).2.seenEof <==> FeedSpec(st, line).1.kind == END_OF_FILE)
  {
  }

  lemma NoPlacements(r: HexRecord, base: nat, capacity: nat)
    ensures Placements(r, 0, base, capacity) == (ReceiveOk, [])
  {
  }

  /** One byte more, when all before it were accepted. */
  lemma NextPlacement(r: HexRecord, i: nat, base: nat, capacity: nat)
    requires i < |r.data| && Placements(r, i, base, capacity).0 == ReceiveOk
    ensures var front := Placements(r, i, base, capacity).1;
            var (answer, offset) := PlaceSpec(AddressOf(r, i), base, capacity);
            Placements(r, i + 1, base, capacity) ==
              if answer == ReceiveOk then (ReceiveOk, front + [Placement(offset, r.data[i])]) else (answer, front)
  {
    hide AddressOf, PlaceSpec;
  }

  lemma {:induction false} PlacementsStop(r: HexRecord, n: nat, m: nat, base: nat, capacity: nat)
    requires n <= m <= |r.data|
    ensures Placements(r, n, base, capacity).0 != ReceiveOk ==> Placements(r, m, base, capacity) == Placements(r, n, base, capacity)
    ensures Placements(r, n, base, capacity).1 <= Placements(r, m, base, capacity).1
    decreases m
  {
    if n < m {
      PlacementsStop(r, n, m - 1, base, capacity);
    }
  }

  /** Where the page an offset lies in begins. */
  function PageOf(offset: int): int
  {
    offset - offset % PAGE
  }

  lemma PageStart(offset: nat)
    ensures (offset - offset % PAGE) % PAGE == 0 && (offset - offset % PAGE) / PAGE == offset / PAGE
  {
  }

  lemma SamePageIff(offset: nat, at: nat)
    requires at % PAGE == 0
    ensures offset - offset % PAGE == at <==> offset / PAGE == at / PAGE
  {
  }

  lemma ProgramWithin(log: seq<FlashOp>, op: FlashOp, r: Region)
    ensures r.offset <= op.at && op.at + Span(op) <= r.offset + r.size ==> GrewWithin(log, log + [op], r)
  {
    assert (log + [op])[|log|..] == [op];
  }

  lemma TookIsProgrammed(a: Assembly, now: seq<byte>)
    requires |a.page| == PAGE && TookPage(a, now)
    ensures Programmed(a, now)
  {
  }

  /** Bytes that fail to go through are not helped by more. */
  lemma ThroughStops(start: seq<byte>, ps: seq<Placement>, from: nat, xs: seq<Placement>, ys: seq<Placement>)
    requires from <= |ps| && xs <= ys
    ensures Through(start, ps, from, xs) == None ==> Through(start, ps, from, ys) == None
  {
    assert ys == xs + ys[|xs|..];
    ThroughConcat(start, ps, from, xs, ys[|xs|..]);
  }

  /** A page programmed, seen from inside its region, and whether it reads back as itself. */
  lemma ProgrammedPage(a: Assembly, was: Chip, chip: Chip, r: Region, offset: nat)
    requires |was| == |chip| && r.offset + r.size <= |was|
    requires offset % PAGE == 0 && offset + PAGE <= r.size && a.current == offset / PAGE && |a.page| == PAGE
    requires a.now == was[r.offset..r.offset + r.size]
    requires Fits(was, ProgramOp(r.offset + offset, a.page))
    requires chip == Perform(was, ProgramOp(r.offset + offset, a.page))
    ensures Programmed(a, chip[r.offset..r.offset + r.size])
    ensures TookPage(a, chip[r.offset..r.offset + r.size]) <==>
              chip[r.offset + offset..r.offset + offset + PAGE] == a.page
  {
    hide Perform, And;
    var now, at := chip[r.offset..r.offset + r.size], r.offset + offset;
    var back := chip[at..at + PAGE];
    forall o | 0 <= o < |now|
      ensures now[o] == if o / PAGE == a.current then And(a.now[o], a.page[o % PAGE]) else a.now[o]
      ensures o / PAGE == a.current ==> now[o] == back[o % PAGE]
    {
      InThisPage(o, offset);
      PerformedByte(was, at, a.page, r.offset + o);
    }
    ReadsBack(a, now, back, offset);
  }

  lemma ReadsBack(a: Assembly, now: seq<byte>, back: seq<byte>, offset: nat)
    requires |a.page| == |back| == PAGE && Programmed(a, now)
    requires offset % PAGE == 0 && offset + PAGE <= |now| && a.current == offset / PAGE
    requires forall o :: 0 <= o < |now| && o / PAGE == a.current ==> now[o] == back[o % PAGE]
    ensures TookPage(a, now) <==> back == a.page
  {
    hide Programmed;
    if TookPage(a, now) {
      forall i | 0 <= i < PAGE ensures back[i] == a.page[i] {
        InThisPage(offset + i, offset);
        assert now[offset + i] == back[i];
      }
    }
  }

  lemma InThisPage(o: nat, offset: nat)
    requires offset % PAGE == 0
    ensures o / PAGE == offset / PAGE <==> offset <= o < offset + PAGE
    ensures o / PAGE == offset / PAGE ==> o % PAGE == o - offset
  {
  }
}
