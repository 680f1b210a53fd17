/**
 * Saving a configuration as operations on the chip, and what the next load finds
 * wherever the power went (components/persistent_config/persistent_config.c).
 */
module PowerFail {
  import opened Bytes
  import opened FlashLayout
  import opened FlashStorage
  import opened SlotFormat

  datatype Config = Config(loaded: bool, current: nat, sequence: nat)

  const UNLOADED := Config(false, 0, 0)

  /** The two slots are the first two sectors from `base`. */
  predicate SlotsOnChip(chip: Chip, base: nat)
  {
    base % 4096 == 0 && base + 8192 <= |chip|
  }

  function SlotAt(base: nat, slot: nat): nat
  {
    base + slot * 4096
  }

  function SlotBytes(chip: Chip, base: nat, slot: nat): (b: seq<byte>)
    requires SlotsOnChip(chip, base) && slot < 2
    ensures |b| == SECTOR
  {
    chip[SlotAt(base, slot)..SlotAt(base, slot) + SECTOR]
  }

  // ---- loading --------------------------------------------------------------------

  /** A signed 32-bit difference above zero. */
  predicate SequenceIsLater(a: nat, b: nat)
  {
    0 < U32(a - b) < 0x8000_0000
  }

  function Choose(s0: Option<Stored>, s1: Option<Stored>): Option<nat>
  {
    if s0.Some? && s1.Some? then Some(if SequenceIsLater(s1.value.sequence, s0.value.sequence) then 1 else 0)
    else if s0.Some? then Some(0)
    else if s1.Some? then Some(1)
    else None
  }

  function ReadChosen(chip: Chip, base: nat): Option<(nat, Stored)>
    requires SlotsOnChip(chip, base)
  {
    var s0, s1 := ReadSlot(SlotBytes(chip, base, 0)), ReadSlot(SlotBytes(chip, base, 1));
    match Choose(s0, s1)
    case None => None
    case Some(i) => Some((i, if i == 0 then s0.value else s1.value))
  }

  // ---- saving, as operations -----------------------------------------------------

  function Target(c: Config): (t: nat)
    requires c.current < 2
    ensures t < 2
  {
    if c.loaded then 1 - c.current else 0
  }

  /** Page `k` of the records, its tail left erased. */
  function RecordPage(records: seq<byte>, k: nat): (b: seq<byte>)
    requires k < PageCount(|records|)
    ensures |b| == PAGE
  {
    Padded(records)[PAGE * k..PAGE * k + PAGE]
  }

  function RecordOps(at: nat, records: seq<byte>, n: nat): (ops: seq<FlashOp>)
    requires n <= PageCount(|records|)
    ensures |ops| == n
  {
    if n == 0 then []
    else RecordOps(at, records, n - 1) + [ProgramOp(at + PAGE * n, RecordPage(records, n - 1))]
  }

  /** Erase the slot, program the records, and only then the header. */
  function SaveOps(at: nat, page: seq<byte>, records: seq<byte>): (ops: seq<FlashOp>)
    ensures |ops| == PageCount(|records|) + 2
  {
    [EraseOp(at, SECTOR)] + RecordOps(at, records, PageCount(|records|)) +
    [ProgramOp(at, page)]
  }

  /** The slot as the first `k` operations of a save leave it. */
  function Stage(page: seq<byte>, records: seq<byte>, k: nat, was: seq<byte>): (b: seq<byte>)
    requires |was| == SECTOR && |page| == PAGE && |records| <= CAPACITY
    ensures |b| == SECTOR
  {
    if k == 0 then was
    else if k <= PageCount(|records|) + 1 then PartSlot(records, k - 1)
    else NewSlot(page, records)
  }

  lemma PageCountFits(n: nat)
    requires n <= CAPACITY
    ensures PAGE * PageCount(n) <= CAPACITY && n <= PAGE * PageCount(n)
  {
  }

  lemma {:induction false} RecordOpsAt(at: nat, records: seq<byte>, n: nat, k: nat)
    requires k < n <= PageCount(|records|)
    ensures RecordOps(at, records, n)[k] == ProgramOp(at + PAGE * (k + 1), RecordPage(records, k))
  {
    if k < n - 1 {
      RecordOpsAt(at, records, n - 1, k);
    }
  }

  function OpAt(at: nat, page: seq<byte>, records: seq<byte>, k: nat): FlashOp
  {
    if k == 0 then EraseOp(at, SECTOR)
    else if k <= PageCount(|records|) then ProgramOp(at + PAGE * k, RecordPage(records, k - 1))
    else ProgramOp(at, page)
  }

  lemma SaveOpsAt(at: nat, page: seq<byte>, records: seq<byte>, k: nat)
    requires k < |SaveOps(at, page, records)|
    ensures SaveOps(at, page, records)[k] == OpAt(at, page, records, k)
  {
    if 1 <= k <= PageCount(|records|) {
      RecordOpsAt(at, records, PageCount(|records|), k - 1);
    }
  }

  lemma SaveOpsFit(chip: Chip, at: nat, page: seq<byte>, records: seq<byte>)
    requires at + SECTOR <= |chip| && |page| == PAGE && |records| <= CAPACITY
    ensures AllFit(chip, SaveOps(at, page, records))
  {
    PageCountFits(|records|);
    var ops := SaveOps(at, page, records);
    forall k | 0 <= k < |ops| ensures Fits(chip, ops[k]) {
      SaveOpsAt(at, page, records, k);
    }
  }

  // ---- how far a save has come -----------------------------------------------------

  lemma PartSlotStep(records: seq<byte>, k: nat, inner: nat)
    requires k < PageCount(|records|) && |records| <= CAPACITY && inner == PAGE * (k + 1)
    ensures inner + PAGE <= SECTOR
    ensures var p := PartSlot(records, k);
            p[inner..inner + PAGE] == Blank(PAGE) &&
            p[..inner] + RecordPage(records, k) + p[inner + PAGE..] == PartSlot(records, k + 1)
  {
    var body := Padded(records);
    PageCountFits(|records|);
    assert body[..inner] == body[..PAGE * k] + RecordPage(records, k);
  }

  lemma HeaderStep(page: seq<byte>, records: seq<byte>)
    requires |page| == PAGE && |records| <= CAPACITY
    ensures var p := PartSlot(records, PageCount(|records|));
            p[0..PAGE] == Blank(PAGE) && p[..0] + page + p[PAGE..] == NewSlot(page, records)
  {
    var body := Padded(records);
    assert body[..PAGE * PageCount(|records|)] == body;
  }

  /** Programming a blank page of a slot puts exactly the page there. */
  lemma ProgramPage(chip: Chip, at: nat, slot: seq<byte>, inner: nat, page: seq<byte>)
    requires at + |slot| <= |chip| && inner + |page| <= |slot|
    requires slot[inner..inner + |page|] == Blank(|page|)
    ensures Perform(Splice(chip, at, slot), ProgramOp(at + inner, page)) ==
              Splice(chip, at, slot[..inner] + page + slot[inner + |page|..])
  {
    hide Splice, AndBytes, Blank;
    var now := Splice(chip, at, slot);
    SpliceSlice(chip, at, slot, inner, inner + |page|);
    assert now[at + inner..at + inner + |page|] == Blank(|page|);
    ProgramErased(now, at + inner, page);
    SpliceSplice(chip, at, slot, inner, page);
  }

  /** Operation `k` takes the slot from stage `k` to the next. */
  predicate Advances(chip: Chip, at: nat, page: seq<byte>, records: seq<byte>, k: nat)
    requires at + SECTOR <= |chip| && |page| == PAGE && |records| <= CAPACITY
  {
    var was, op := chip[at..at + SECTOR], OpAt(at, page, records, k);
    Fits(chip, op) &&
    Perform(Splice(chip, at, Stage(page, records, k, was)), op) ==
      Splice(chip, at, Stage(page, records, k + 1, was))
  }

  lemma EraseAdvances(chip: Chip, at: nat, page: seq<byte>, records: seq<byte>)
    requires at + SECTOR <= |chip| && |page| == PAGE && |records| <= CAPACITY
    ensures Advances(chip, at, page, records, 0)
  {
    SpliceSame(chip, at, SECTOR);
    assert PartSlot(records, 0) == Blank(SECTOR);
  }

  lemma RecordAdvances(chip: Chip, at: nat, page: seq<byte>, records: seq<byte>, k: nat)
    requires at + SECTOR <= |chip| && |page| == PAGE && |records| <= CAPACITY
    requires 1 <= k <= PageCount(|records|)
    ensures Advances(chip, at, page, records, k)
  {
    hide PartSlot, RecordPage, Splice, AndBytes, Blank;
    var inner := PAGE * k;
    PartSlotStep(records, k - 1, inner);
    ProgramPage(chip, at, PartSlot(records, k - 1), inner, RecordPage(records, k - 1));
  }

  lemma HeaderAdvances(chip: Chip, at: nat, page: seq<byte>, records: seq<byte>)
    requires at + SECTOR <= |chip| && |page| == PAGE && |records| <= CAPACITY
    ensures Advances(chip, at, page, records, PageCount(|records|) + 1)
  {
    HeaderStep(page, records);
    ProgramPage(chip, at, PartSlot(records, PageCount(|records|)), 0, page);
  }

  /** After its first `k` operations a save has touched its own slot only, and brought it to stage `k`. */
  lemma {:induction false} StageReached(chip: Chip, at: nat, page: seq<byte>, records: seq<byte>, k: nat)
    requires at + SECTOR <= |chip| && |page| == PAGE && |records| <= CAPACITY
    requires k <= |SaveOps(at, page, records)|
    ensures AllFit(chip, SaveOps(at, page, records))
    ensures PerformAll(chip, SaveOps(at, page, records)[..k]) ==
              Splice(chip, at, Stage(page, records, k, chip[at..at + SECTOR]))
  {
    SaveOpsFit(chip, at, page, records);
    if k == 0 {
      SpliceSame(chip, at, SECTOR);
    } else {
      StageReached(chip, at, page, records, k - 1);
      PerformPrefix(chip, SaveOps(at, page, records), k);
      SaveOpsAt(at, page, records, k - 1);
      if k == 1 {
        EraseAdvances(chip, at, page, records);
      } else if k <= PageCount(|records|) + 1 {
        RecordAdvances(chip, at, page, records, k - 1);
      } else {
        HeaderAdvances(chip, at, page, records);
      }
      assert Advances(chip, at, page, records, k - 1);
    }
  }
  // ---- where the power can go ---------------------------------------------------------

  /** Nothing outside the sector at `at` differs. */
  ghost predicate SameElsewhere(chip: Chip, after: Chip, at: nat)
  {
    |after| == |chip| &&
    forall i :: 0 <= i < |chip| && !(at <= i < at + SECTOR) ==> after[i] == chip[i]
  }

  /**
   * All a power cut during a save can leave: the other sectors untouched, and either
   * the finished slot or a slot whose first page is the old one or blank.
   */
  ghost predicate CutOutcome(chip: Chip, at: nat, page: seq<byte>, records: seq<byte>, after: Chip)
    requires at + SECTOR <= |chip| && |page| == PAGE && |records| <= CAPACITY
  {
    && SameElsewhere(chip, after, at)
    && (|| after[at..at + SECTOR] == NewSlot(page, records)
        || after[at..at + PAGE] == chip[at..at + PAGE]
        || after[at..at + PAGE] == Blank(PAGE))
  }

  lemma SpliceElsewhere(chip: Chip, at: nat, slot: seq<byte>)
    requires at + SECTOR <= |chip| && |slot| == SECTOR
    ensures SameElsewhere(chip, Splice(chip, at, slot), at)
    ensures Splice(chip, at, slot)[at..at + SECTOR] == slot
    ensures Splice(chip, at, slot)[at..at + PAGE] == slot[..PAGE]
  {
  }

  /** Between two versions of one slot, a cut leaves each page as one version or the other. */
  lemma CutBetween(chip: Chip, at: nat, a: seq<byte>, b: seq<byte>, done: set<nat>, after: Chip)
    requires at % PAGE == 0 && at + SECTOR <= |chip| && |a| == |b| == SECTOR
    requires PagesDone(Splice(chip, at, a), Splice(chip, at, b), done, after)
    ensures SameElsewhere(chip, after, at)
    ensures after[at..at + PAGE] == a[..PAGE] || after[at..at + PAGE] == b[..PAGE]
    ensures a[PAGE..] == b[PAGE..] ==> after[at + PAGE..at + SECTOR] == b[PAGE..]
  {
    forall i | at <= i < at + PAGE ensures i / PAGE == at / PAGE {
      SamePage(at, i);
    }
    if a[PAGE..] == b[PAGE..] {
      forall i | PAGE <= i < SECTOR ensures a[i] == b[i] {
        assert a[i] == a[PAGE..][i - PAGE];
        assert b[i] == b[PAGE..][i - PAGE];
      }
    }
  }

  lemma SamePage(at: nat, i: nat)
    requires at % PAGE == 0 && at <= i < at + PAGE
    ensures i / PAGE == at / PAGE
  {
  }

  lemma StagePages(page: seq<byte>, records: seq<byte>, k: nat, was: seq<byte>)
    requires |was| == SECTOR && |page| == PAGE && |records| <= CAPACITY
    ensures Stage(page, records, k, was)[..PAGE] ==
              if k == 0 then was[..PAGE] else if k <= PageCount(|records|) + 1 then Blank(PAGE) else page
    ensures PartSlot(records, PageCount(|records|))[PAGE..] == NewSlot(page, records)[PAGE..]
  {
    var body := Padded(records);
    assert body[..PAGE * PageCount(|records|)] == body;
    assert NewSlot(page, records)[..PAGE] == page;
  }

  lemma CutAtOutcome(chip: Chip, at: nat, page: seq<byte>, records: seq<byte>, k: nat, after: Chip)
    requires at % PAGE == 0 && at + SECTOR <= |chip| && |page| == PAGE && |records| <= CAPACITY
    requires k < |SaveOps(at, page, records)|
    requires AllFit(chip, SaveOps(at, page, records)) && CutAt(chip, SaveOps(at, page, records), k, after)
    ensures CutOutcome(chip, at, page, records, after)
  {
    hide PartSlot, NewSlot, Splice, Blank, SaveOps;
    var ops, was, n := SaveOps(at, page, records), chip[at..at + SECTOR], PageCount(|records|);
    var a, b := Stage(page, records, k, was), Stage(page, records, k + 1, was);
    StageReached(chip, at, page, records, k);
    StageReached(chip, at, page, records, k + 1);
    PerformPrefix(chip, ops, k + 1);
    var done: set<nat> :| PagesDone(Splice(chip, at, a), Splice(chip, at, b), done, after);
    CutBetween(chip, at, a, b, done, after);
    StagePages(page, records, k, was);
    StagePages(page, records, k + 1, was);
    assert was[..PAGE] == chip[at..at + PAGE];
    if k == n + 1 && after[at..at + PAGE] != Blank(PAGE) {
      assert after[at..at + SECTOR] == after[at..at + PAGE] + after[at + PAGE..at + SECTOR];
      assert b == b[..PAGE] + b[PAGE..];
    }
  }

  lemma SaveCutOutcome(chip: Chip, at: nat, page: seq<byte>, records: seq<byte>, after: Chip)
    requires at % PAGE == 0 && at + SECTOR <= |chip| && |page| == PAGE && |records| <= CAPACITY
    requires AllFit(chip, SaveOps(at, page, records)) && CutWithin(chip, SaveOps(at, page, records), after)
    ensures CutOutcome(chip, at, page, records, after)
  {
    var ops := SaveOps(at, page, records);
    if after == PerformAll(chip, ops) {
      SaveOutcome(chip, at, page, records);
    } else {
      var k :| 0 <= k < |ops| && CutAt(chip, ops, k, after);
      CutAtOutcome(chip, at, page, records, k, after);
    }
  }

  /** A save that runs to its end. */
  lemma SaveOutcome(chip: Chip, at: nat, page: seq<byte>, records: seq<byte>)
    requires at + SECTOR <= |chip| && |page| == PAGE && |records| <= CAPACITY
    ensures AllFit(chip, SaveOps(at, page, records))
    ensures var after := PerformAll(chip, SaveOps(at, page, records));
            SameElsewhere(chip, after, at) && after[at..at + SECTOR] == NewSlot(page, records)
  {
    hide PartSlot, NewSlot, Splice, Blank, SaveOps;
    var ops := SaveOps(at, page, records);
    StageReached(chip, at, page, records, |ops|);
    assert ops[..|ops|] == ops;
    SpliceElsewhere(chip, at, NewSlot(page, records));
  }

  /** A save stopped short by a refusal, its operations whole but not all there. */
  lemma RefusedOutcome(chip: Chip, at: nat, page: seq<byte>, records: seq<byte>, k: nat)
    requires at + SECTOR <= |chip| && |page| == PAGE && |records| <= CAPACITY
    requires k < |SaveOps(at, page, records)|
    ensures AllFit(chip, SaveOps(at, page, records))
    ensures var after := PerformAll(chip, SaveOps(at, page, records)[..k]);
            SameElsewhere(chip, after, at) &&
            (after[at..at + PAGE] == chip[at..at + PAGE] || after[at..at + PAGE] == Blank(PAGE))
  {
    hide PartSlot, NewSlot, Splice, Blank, SaveOps, Stage, SameElsewhere;
    var was := chip[at..at + SECTOR];
    assert was[..PAGE] == chip[at..at + PAGE];
    StageReached(chip, at, page, records, k);
    SpliceElsewhere(chip, at, Stage(page, records, k, was));
    StagePages(page, records, k, was);
  }

  // ---- what must be found again -------------------------------------------------------

  /** All a load looks at in one slot. */
  datatype SlotView = SlotView(blankHead: bool, head: Option<nat>, stored: Option<Stored>)

  /** `head` is the sequence number a sound header claims, whatever follows it. */
  function View(slot: seq<byte>): SlotView
    requires |slot| == SECTOR
  {
    var raw := slot[..HEADER_SIZE];
    SlotView(raw == Blank(HEADER_SIZE), if HeaderSound(raw) then Some(Sequence(raw)) else None, ReadSlot(slot))
  }

  function ViewAt(chip: Chip, base: nat, slot: nat): SlotView
    requires SlotsOnChip(chip, base) && slot < 2
  {
    View(SlotBytes(chip, base, slot))
  }

  lemma ViewConsistent(slot: seq<byte>)
    requires |slot| == SECTOR
    ensures View(slot).blankHead ==> View(slot).head == None
    ensures View(slot).stored.Some? ==> View(slot).head == Some(View(slot).stored.value.sequence)
  {
    if View(slot).blankHead {
      BlankHeader(slot[..HEADER_SIZE]);
    }
  }

  lemma ViewOfSamePage(a: seq<byte>, b: seq<byte>)
    requires |a| == |b| == SECTOR && a[..PAGE] == b[..PAGE]
    ensures View(a).head == View(b).head && View(a).blankHead == View(b).blankHead
  {
    assert a[..HEADER_SIZE] == a[..PAGE][..HEADER_SIZE];
    assert b[..HEADER_SIZE] == b[..PAGE][..HEADER_SIZE];
  }

  lemma ViewOfBlankPage(a: seq<byte>)
    requires |a| == SECTOR && a[..PAGE] == Blank(PAGE)
    ensures View(a).blankHead && View(a).head == None
  {
    assert a[..HEADER_SIZE] == a[..PAGE][..HEADER_SIZE];
    assert Blank(PAGE)[..HEADER_SIZE] == Blank(HEADER_SIZE);
    ViewConsistent(a);
  }

  lemma ViewOfNew(sequence: nat, records: seq<byte>)
    requires sequence < WORD_LIMIT && |records| <= CAPACITY
    ensures var v := View(NewSlot(HeaderPage(sequence, records), records));
            v.head == Some(sequence) && v.stored == Some(Stored(sequence, records))
  {
    hide NewSlot, HeaderPage;
    NewSlotReads(sequence, records);
  }

  /**
   * The slots hold exactly `durable`, and `config` is what a load would make of them.
   * With nothing saved both headers are blank. Otherwise the current slot reads back as
   * what was saved, and the other one's header is missing or one number behind.
   */
  predicate GoodViews(v: seq<SlotView>, config: Config, durable: Option<seq<byte>>)
    requires |v| == 2
  {
    match durable
    case None => config == UNLOADED && v[0].blankHead && v[1].blankHead
    case Some(records) =>
      && config.loaded && config.current < 2 && config.sequence < WORD_LIMIT
      && v[config.current].stored == Some(Stored(config.sequence, records))
      && (v[1 - config.current].head == None || v[1 - config.current].head == Some(U32(config.sequence - 1)))
  }

  function Views(chip: Chip, base: nat): (v: seq<SlotView>)
    requires SlotsOnChip(chip, base)
    ensures |v| == 2
  {
    [ViewAt(chip, base, 0), ViewAt(chip, base, 1)]
  }

  predicate Good(chip: Chip, base: nat, config: Config, durable: Option<seq<byte>>)
    requires SlotsOnChip(chip, base)
  {
    GoodViews(Views(chip, base), config, durable)
  }

  /** What a load adopts before the records themselves are looked at. */
  function Reload(chip: Chip, base: nat): (Config, Option<seq<byte>>)
    requires SlotsOnChip(chip, base)
  {
    match ReadChosen(chip, base)
    case None => (UNLOADED, None)
    case Some((slot, stored)) => (Config(true, slot, stored.sequence), Some(stored.records))
  }

  /** The later of two neighbours on the 32-bit circle is never in doubt, not even across zero. */
  lemma NeighboursOrdered(s: nat)
    requires s < WORD_LIMIT
    ensures SequenceIsLater(s, U32(s - 1)) && !SequenceIsLater(U32(s - 1), s)
    ensures U32(U32(s + 1) - 1) == s && U32(s + 1) != U32(s - 1)
  {
  }

  /** From a good chip a load finds exactly what is durable. */
  lemma GoodReloads(chip: Chip, base: nat, config: Config, durable: Option<seq<byte>>)
    requires SlotsOnChip(chip, base) && Good(chip, base, config, durable)
    ensures Reload(chip, base) == (config, durable)
  {
    hide SlotBytes, ReadSlot, HeaderSound, Sequence;
    ViewConsistent(SlotBytes(chip, base, 0));
    ViewConsistent(SlotBytes(chip, base, 1));
    if durable.Some? {
      NeighboursOrdered(config.sequence);
    }
  }

  // ---- one save, wherever it stops -----------------------------------------------------

  /** The header page a save from `config` writes. */
  function NextPage(config: Config, records: seq<byte>): (p: seq<byte>)
    ensures |p| == PAGE
  {
    HeaderPage(U32(config.sequence + 1), records)
  }

  function NextConfig(config: Config): Config
    requires config.current < 2
  {
    Config(true, Target(config), U32(config.sequence + 1))
  }

  /** Whether the header of a save from `config` reached the chip. */
  predicate Landed(chip: Chip, base: nat, config: Config)
    requires SlotsOnChip(chip, base) && config.current < 2
  {
    ViewAt(chip, base, Target(config)).head == Some(U32(config.sequence + 1))
  }

  lemma OtherSlotUntouched(chip: Chip, after: Chip, base: nat, t: nat)
    requires SlotsOnChip(chip, base) && t < 2 && SameElsewhere(chip, after, SlotAt(base, t))
    ensures SlotBytes(after, base, 1 - t) == SlotBytes(chip, base, 1 - t)
  {
  }

  lemma UnfinishedViews(v: seq<SlotView>, w: seq<SlotView>, config: Config, durable: Option<seq<byte>>)
    requires |v| == |w| == 2 && GoodViews(v, config, durable)
    requires var t := Target(config);
             w[1 - t] == v[1 - t] &&
             (v[t].blankHead ==> v[t].head == None) &&
             ((w[t].head == v[t].head && w[t].blankHead == v[t].blankHead) || (w[t].head == None && w[t].blankHead))
    ensures GoodViews(w, config, durable) && w[Target(config)].head != Some(U32(config.sequence + 1))
  {
    if durable.Some? {
      NeighboursOrdered(config.sequence);
    }
  }

  lemma FinishedViews(v: seq<SlotView>, w: seq<SlotView>, config: Config, durable: Option<seq<byte>>, records: seq<byte>)
    requires |v| == |w| == 2 && GoodViews(v, config, durable)
    requires var t := Target(config);
             w[1 - t] == v[1 - t] && (v[1 - t].blankHead ==> v[1 - t].head == None) &&
             (v[1 - t].stored.Some? ==> v[1 - t].head == Some(v[1 - t].stored.value.sequence)) &&
             w[t].stored == Some(Stored(U32(config.sequence + 1), records))
    ensures GoodViews(w, NextConfig(config), Some(records))
  {
    if durable.Some? {
      NeighboursOrdered(config.sequence);
    }
  }

  lemma GoodConfig(chip: Chip, base: nat, config: Config, durable: Option<seq<byte>>)
    requires SlotsOnChip(chip, base) && Good(chip, base, config, durable)
    ensures config.current < 2 && config.sequence < WORD_LIMIT && config.loaded == durable.Some?
  {
  }

  lemma StillOnChip(chip: Chip, after: Chip, base: nat, t: nat)
    requires SlotsOnChip(chip, base) && t < 2 && SameElsewhere(chip, after, SlotAt(base, t))
    ensures |after| == |chip| && SlotsOnChip(after, base)
  {
  }

  /** A slot in the middle of a save leaves what was durable as it was. */
  lemma UnfinishedKeepsOld(chip: Chip, base: nat, config: Config, durable: Option<seq<byte>>, after: Chip)
    requires SlotsOnChip(chip, base) && Good(chip, base, config, durable)
    requires SameElsewhere(chip, after, SlotAt(base, Target(config)))
    requires var was, now := SlotBytes(chip, base, Target(config)), SlotBytes(after, base, Target(config));
             now[..PAGE] == was[..PAGE] || now[..PAGE] == Blank(PAGE)
    ensures Good(after, base, config, durable) && !Landed(after, base, config)
  {
    hide SlotBytes, View, SameElsewhere, GoodViews, SlotsOnChip, SlotAt;
    GoodConfig(chip, base, config, durable);
    StillOnChip(chip, after, base, Target(config));
    var t := Target(config);
    var was, now := SlotBytes(chip, base, t), SlotBytes(after, base, t);
    OtherSlotUntouched(chip, after, base, t);
    if now[..PAGE] == was[..PAGE] {
      ViewOfSamePage(now, was);
    } else {
      ViewOfBlankPage(now);
    }
    ViewConsistent(was);
    UnfinishedViews(Views(chip, base), Views(after, base), config, durable);
  }

  /** A finished slot makes what was saved durable. */
  lemma FinishedTakesEffect(chip: Chip, base: nat, config: Config, durable: Option<seq<byte>>, records: seq<byte>, after: Chip)
    requires SlotsOnChip(chip, base) && Good(chip, base, config, durable) && |records| <= CAPACITY
    requires SameElsewhere(chip, after, SlotAt(base, Target(config)))
    requires SlotBytes(after, base, Target(config)) == NewSlot(NextPage(config, records), records)
    ensures Good(after, base, NextConfig(config), Some(records)) && Landed(after, base, config)
  {
    hide SlotBytes, View, SameElsewhere, NewSlot, HeaderPage, GoodViews, SlotsOnChip, SlotAt;
    GoodConfig(chip, base, config, durable);
    StillOnChip(chip, after, base, Target(config));
    var t := Target(config);
    OtherSlotUntouched(chip, after, base, t);
    ViewOfNew(U32(config.sequence + 1), records);
    ViewConsistent(SlotBytes(chip, base, 1 - t));
    FinishedViews(Views(chip, base), Views(after, base), config, durable, records);
  }

  lemma SlotAligned(base: nat, t: nat)
    requires base % SECTOR == 0 && t < 2
    ensures SlotAt(base, t) % PAGE == 0
  {
    SectorMultiple(base);
  }

  lemma SlotFront(chip: Chip, base: nat, t: nat)
    requires SlotsOnChip(chip, base) && t < 2
    ensures SlotBytes(chip, base, t)[..PAGE] == chip[SlotAt(base, t)..SlotAt(base, t) + PAGE]
  {
  }

  /**
   * Wherever the power goes during a save, the chip is good afterwards: for the new
   * records if the header page landed, and for the old ones if it did not.
   */
  lemma SaveSurvivesPowerLoss(chip: Chip, base: nat, config: Config, durable: Option<seq<byte>>, records: seq<byte>, after: Chip)
    requires SlotsOnChip(chip, base) && Good(chip, base, config, durable) && |records| <= CAPACITY
    requires var ops := SaveOps(SlotAt(base, Target(config)), NextPage(config, records), records);
             AllFit(chip, ops) && CutWithin(chip, ops, after)
    ensures |after| == |chip|
    ensures if Landed(after, base, config) then Good(after, base, NextConfig(config), Some(records))
            else Good(after, base, config, durable)
  {
    hide Good, NextPage, NewSlot, Blank, CutWithin, SaveOps, AllFit, Landed, SameElsewhere;
    GoodConfig(chip, base, config, durable);
    var t, page := Target(config), NextPage(config, records);
    var at := SlotAt(base, t);
    SlotAligned(base, t);
    SaveCutOutcome(chip, at, page, records, after);
    StillOnChip(chip, after, base, t);
    SlotFront(chip, base, t);
    SlotFront(after, base, t);
    if after[at..at + SECTOR] == NewSlot(page, records) {
      FinishedTakesEffect(chip, base, config, durable, records, after);
    } else {
      UnfinishedKeepsOld(chip, base, config, durable, after);
    }
  }

  lemma SaveTakesEffect(chip: Chip, base: nat, config: Config, durable: Option<seq<byte>>, records: seq<byte>)
    requires SlotsOnChip(chip, base) && Good(chip, base, config, durable) && |records| <= CAPACITY
    ensures var ops := SaveOps(SlotAt(base, Target(config)), NextPage(config, records), records);
            AllFit(chip, ops) && Good(PerformAll(chip, ops), base, NextConfig(config), Some(records))
  {
    var at, page := SlotAt(base, Target(config)), NextPage(config, records);
    hide Good, NextPage, NewSlot, SaveOps;
    SaveOutcome(chip, at, page, records);
    FinishedTakesEffect(chip, base, config, durable, records, PerformAll(chip, SaveOps(at, page, records)));
  }

  lemma RefusedSlot(chip: Chip, base: nat, t: nat, page: seq<byte>, records: seq<byte>, k: nat)
    requires SlotsOnChip(chip, base) && t < 2 && |page| == PAGE && |records| <= CAPACITY
    requires k < |SaveOps(SlotAt(base, t), page, records)|
    ensures AllFit(chip, SaveOps(SlotAt(base, t), page, records))
    ensures var after := PerformAll(chip, SaveOps(SlotAt(base, t), page, records)[..k]);
            && SameElsewhere(chip, after, SlotAt(base, t)) && SlotsOnChip(after, base)
            && (|| SlotBytes(after, base, t)[..PAGE] == SlotBytes(chip, base, t)[..PAGE]
                || SlotBytes(after, base, t)[..PAGE] == Blank(PAGE))
  {
    hide SaveOps, SameElsewhere, PerformAll, SlotBytes, Blank;
    RefusedOutcome(chip, SlotAt(base, t), page, records, k);
    var after := PerformAll(chip, SaveOps(SlotAt(base, t), page, records)[..k]);
    StillOnChip(chip, after, base, t);
    SlotFront(chip, base, t);
    SlotFront(after, base, t);
  }

  lemma RefusedSaveKeepsOld(chip: Chip, base: nat, config: Config, durable: Option<seq<byte>>, records: seq<byte>, k: nat)
    requires SlotsOnChip(chip, base) && Good(chip, base, config, durable) && |records| <= CAPACITY
    requires k < |SaveOps(SlotAt(base, Target(config)), NextPage(config, records), records)|
    ensures var ops := SaveOps(SlotAt(base, Target(config)), NextPage(config, records), records);
            AllFit(chip, ops) && Good(PerformAll(chip, ops[..k]), base, config, durable)
  {
    hide Good, NextPage, SameElsewhere, SlotBytes, Blank, SaveOps, PerformAll;
    GoodConfig(chip, base, config, durable);
    var t, page := Target(config), NextPage(config, records);
    RefusedSlot(chip, base, t, page, records, k);
    UnfinishedKeepsOld(chip, base, config, durable, PerformAll(chip, SaveOps(SlotAt(base, t), page, records)[..k]));
  }
}
