/** The object itself: each method does to the chip and to RAM what the run model says. */
module PersistentConfig {
  import opened Bytes
  import opened FlashLayout
  import opened FlashStorage
  import opened SlotFormat
  import opened PowerFail
  import opened DurableRuns
  import ConfigStore
  import Crc

  class PersistentConfig {
    var store: ConfigStore.Store
    var slots: seq<Region>
    var current: nat
    var sequence: nat
    var loaded: bool
    const flash: Flash
    const layout: Layout

    predicate HasSlots()
      reads this
    {
      |slots| == 2 && slots[0].size != 0
    }

    predicate LayoutUsable()
      reads flash
    {
      && layout.data.offset % SECTOR == 0
      && layout.data.offset + layout.data.size <= flash.cells.Length
      && !flash.HoldsRunningCode(layout.data)
    }

    ghost predicate Valid()
      reads this, store, store.buffer, flash, flash.cells
    {
      && flash.Valid() && LayoutUsable() && store.Valid()
      && store.buffer != flash.cells
      && |slots| == 2
      && current < 2 && sequence < WORD_LIMIT && (!loaded ==> Snapshot() == UNLOADED)
      && if HasSlots() then layout.data.size >= 2 * SECTOR && forall i :: 0 <= i < 2 ==> slots[i] == SlotRegion(i)
         else slots == [Region(0, 0), Region(0, 0)]
    }

    function SlotRegion(i: nat): Region
    {
      Region(SlotAt(layout.data.offset, i), SECTOR)
    }

    function Snapshot(): Config
      reads this
    {
      Config(loaded, current, sequence)
    }

    ghost function Base(): nat
    {
      layout.data.offset
    }

    /** A zeroed object: no slots and an empty store over no buffer. */
    constructor (flash: Flash, layout: Layout)
      requires flash.Valid()
      requires layout.data.offset % SECTOR == 0 && layout.data.offset + layout.data.size <= flash.cells.Length
      requires !flash.HoldsRunningCode(layout.data)
      ensures Valid() && !HasSlots() && this.flash == flash && this.layout == layout
      ensures fresh(store) && fresh(store.buffer) && store.buffer.Length == 0
    {
      var nothing := new byte[0];
      this.store := new ConfigStore.Store(nothing);
      this.flash, this.layout := flash, layout;
      slots := [Region(0, 0), Region(0, 0)];
      current, sequence, loaded := 0, 0, false;
    }

    lemma SlotFacts(i: nat)
      requires Valid() && HasSlots() && i < 2
      ensures SlotsOnChip(flash.Contents(), Base())
      ensures slots[i] == SlotRegion(i) && flash.RegionOnChip(slots[i]) && !flash.HoldsRunningCode(slots[i])
    {
    }

    /** slot_read: the header, then what it claims, each checked before the next is believed. */
    method ReadSlotAt(i: nat) returns (stored: Option<Stored>)
      requires Valid() && HasSlots() && i < 2
      ensures SlotsOnChip(flash.Contents(), Base())
      ensures stored == ViewAt(flash.Contents(), Base(), i).stored
    {
      hide PerformAll, AllFit, HeaderSound, SlotBytes, Sequence, Length, RecordsCrc, Crc.Crc32;
      SlotFacts(i);
      ghost var chip := flash.Contents();
      ghost var slot := SlotBytes(chip, Base(), i);
      var window := flash.Data(slots[i], 0, HEADER_SIZE);
      var raw := window.value;
      SlotWindow(chip, Base(), i, 0, HEADER_SIZE);
      if !HeaderSound(raw) {
        return None;
      }
      var length := Length(raw);
      if length > CAPACITY {
        return None;
      }
      var payload := flash.Data(slots[i], PAGE, length);
      SlotWindow(chip, Base(), i, PAGE, PAGE + length);
      var sum := Crc.ComputeCrc32(payload.value);
      if sum != RecordsCrc(raw) {
        return None;
      }
      return Some(Stored(Sequence(raw), payload.value));
    }

    /** Whether both slots' headers read as erased. */
    method HeadsBlank() returns (blank: bool)
      requires Valid() && HasSlots()
      ensures SlotsOnChip(flash.Contents(), Base())
      ensures blank <==> ViewAt(flash.Contents(), Base(), 0).blankHead && ViewAt(flash.Contents(), Base(), 1).blankHead
    {
      hide PerformAll, AllFit, HeaderSound, SlotBytes, ReadSlot, Sequence;
      SlotFacts(0);
      SlotFacts(1);
      var first := flash.IsErased(slots[0], 0, HEADER_SIZE);
      var second := flash.IsErased(slots[1], 0, HEADER_SIZE);
      SlotWindow(flash.Contents(), Base(), 0, 0, HEADER_SIZE);
      SlotWindow(flash.Contents(), Base(), 1, 0, HEADER_SIZE);
      return first && second;
    }

    /** slot_regions */
    method AssignSlots() returns (enough: bool)
      modifies this`slots
      ensures enough <==> layout.data.size >= 2 * SECTOR
      ensures slots == if enough then [SlotRegion(0), SlotRegion(1)] else old(slots)
    {
      if layout.data.size < 2 * SECTOR {
        return false;
      }
      slots := [Region(layout.data.offset, SECTOR), Region(layout.data.offset + SECTOR, SECTOR)];
      return true;
    }

    method Load(buffer: array<byte>) returns (result: PersistResult)
      requires Valid() && buffer != flash.cells
      modifies this, store, buffer
      ensures Valid() && store == old(store)
      ensures flash.Contents() == old(flash.Contents())
      ensures buffer.Length == 0 ==> result == PersistInvalidArg && unchanged(this) && unchanged(store)
      ensures buffer.Length > 0 ==> store.buffer == buffer
      ensures buffer.Length > 0 && layout.data.size < 2 * SECTOR ==>
                result == PersistNoSpace && !HasSlots() && store.used == 0
      ensures buffer.Length > 0 && layout.data.size >= 2 * SECTOR ==>
                HasSlots() && SlotsOnChip(flash.Contents(), Base()) &&
                (result, Snapshot(), buffer[..store.used]) == LoadSpec(flash.Contents(), Base(), buffer.Length)
    {
      hide View, SlotBytes, ReadChosen, PerformAll, AllFit, ConfigStore.Image, ConfigStore.AllSound;
      if buffer.Length == 0 {
        return PersistInvalidArg;
      }
      current, sequence, loaded := 0, 0, false;
      slots := [Region(0, 0), Region(0, 0)];
      var started := store.Init(buffer);
      var enough := AssignSlots();
      if !enough {
        return PersistNoSpace;
      }

      var s0 := ReadSlotAt(0);
      var s1 := ReadSlotAt(1);
      ghost var chip := flash.Contents();
      ReloadFromViews(chip, Base());
      var chosen := Choose(s0, s1);
      if chosen == None {
        var blank := HeadsBlank();
        return if blank then PersistEmpty else PersistCorrupt;
      }
      var stored := if chosen.value == 0 then s0.value else s1.value;
      SequenceBound(SlotBytes(flash.Contents(), Base(), chosen.value));
      result := Adopt(buffer, chosen.value, stored);
    }

    /** The last part of a load: copy the chosen slot's records out and adopt them if they parse. */
    method Adopt(buffer: array<byte>, slot: nat, stored: Stored) returns (result: PersistResult)
      requires Valid() && HasSlots() && Snapshot() == UNLOADED
      requires buffer == store.buffer != flash.cells && buffer.Length > 0 && store.used == 0
      requires slot < 2 && stored.sequence < WORD_LIMIT
      modifies this`current, this`sequence, this`loaded, store, buffer
      ensures Valid() && store.buffer == buffer
      ensures (result, Snapshot(), buffer[..store.used]) ==
                if |stored.records| > buffer.Length then (PersistTooLarge, UNLOADED, [])
                else if ConfigStore.Parse(stored.records) == None then (PersistCorrupt, UNLOADED, [])
                else (PersistOk, Config(true, slot, stored.sequence), stored.records)
    {
      hide PerformAll, AllFit, ConfigStore.Image, ConfigStore.AllSound;
      if |stored.records| > buffer.Length {
        return PersistTooLarge;
      }
      forall i | 0 <= i < |stored.records| {
        buffer[i] := stored.records[i];
      }
      assert buffer[..|stored.records|] == stored.records;
      var adopted := store.Load(buffer, |stored.records|);
      if adopted != ConfigStore.ConfigOk {
        return PersistCorrupt;
      }
      current, sequence, loaded := slot, stored.sequence, true;
      return PersistOk;
    }

    ghost function PendingOps(): seq<FlashOp>
      reads this, store, store.buffer
      requires store.used <= store.buffer.Length && current < 2
    {
      var records := store.buffer[..store.used];
      SaveOps(SlotAt(Base(), Target(Snapshot())), NextPage(Snapshot(), records), records)
    }

    /**
     * Carries out a save's operations on the chip, in their order. `done` counts the
     * operations that reached the chip: all of them when the save succeeds, fewer when
     * the flash layer refuses one.
     */
    method Save() returns (result: PersistResult, ghost done: nat)
      requires Valid()
      modifies this`current, this`sequence, this`loaded, flash`log, flash`denials, flash.cells
      ensures Valid() && slots == old(slots) && flash.cells == old(flash.cells)
      ensures store.buffer.Length == 0 ==> result == PersistInvalidArg
      ensures store.buffer.Length != 0 && !HasSlots() ==> result == PersistNoSpace
      ensures store.buffer.Length != 0 && HasSlots() && store.used > CAPACITY ==> result == PersistTooLarge
      ensures store.buffer.Length != 0 && HasSlots() && store.used <= CAPACITY ==>
                AllFit(old(flash.Contents()), old(PendingOps())) && done <= |old(PendingOps())| &&
                StoppedAt(old(flash.Contents()), old(flash.log), old(PendingOps()), done) &&
                result == (if done == |old(PendingOps())| then PersistOk else PersistFlashError)
      ensures result == PersistOk ==> Snapshot() == NextConfig(old(Snapshot()))
      ensures result != PersistOk ==> Snapshot() == old(Snapshot())
      ensures result != PersistOk && result != PersistFlashError ==>
                flash.log == old(flash.log) && flash.Contents() == old(flash.Contents())
    {
      hide SaveOps, HeaderPage, PerformAll, StoppedAt, ConfigStore.Image, ConfigStore.AllSound;
      done := 0;
      if store.buffer.Length == 0 {
        return PersistInvalidArg, 0;
      }
      if slots[0].size == 0 {
        return PersistNoSpace, 0;
      }
      var length := store.used;
      if length > CAPACITY {
        return PersistTooLarge, 0;
      }
      var target := if loaded then 1 - current else 0;
      var next := U32(sequence + 1);
      var records := store.buffer[..length];
      var written;
      written, done := WriteSlot(target, HeaderPage(next, records), records);
      if !written {
        return PersistFlashError, done;
      }
      current, sequence, loaded := target, next, true;
      return PersistOk, done;
    }

    /** The chip and its log stand where `ops` got to after `k` of them. */
    ghost predicate StoppedAt(was: Chip, logWas: seq<FlashOp>, ops: seq<FlashOp>, k: nat)
      reads flash, flash.cells
      requires flash.Valid() && k <= |ops| && AllFit(was, ops)
    {
      flash.log == logWas + ops[..k] && flash.Contents() == PerformAll(was, ops[..k])
    }

    method WriteSlot(target: nat, page: seq<byte>, records: seq<byte>) returns (written: bool, ghost done: nat)
      requires Valid() && HasSlots() && target < 2
      requires |page| == PAGE && |records| <= CAPACITY
      modifies flash`log, flash`denials, flash.cells
      ensures flash.Valid() && flash.cells == old(flash.cells)
      ensures var ops := SaveOps(SlotAt(Base(), target), page, records);
              && AllFit(old(flash.Contents()), ops) && done <= |ops|
              && StoppedAt(old(flash.Contents()), old(flash.log), ops, done)
              && (written <==> done == |ops|)
    {
      hide SaveOps, StoppedAt, PerformAll;
      ghost var was, logWas := flash.Contents(), flash.log;
      SlotFacts(target);
      SaveOpsFit(was, SlotAt(Base(), target), page, records);
      var slot := slots[target];
      done := 0;
      SaveOpsAt(slot.offset, page, records, 0);
      StoppedAtStart(was, logWas, SaveOps(slot.offset, page, records));
      var ok := EraseNext(slot, was, logWas, SaveOps(slot.offset, page, records), 0);
      if !ok {
        return false, 0;
      }
      done := 1;
      var at := 0;
      while at < |records|
        invariant 1 <= done <= PageCount(|records|) + 1
        invariant at == if done <= PageCount(|records|) then PAGE * (done - 1) else |records|
        invariant flash.Valid() && flash.cells == old(flash.cells)
        invariant StoppedAt(was, logWas, SaveOps(slot.offset, page, records), done)
        decreases |records| - at
      {
        var chunk := if |records| - at < PAGE then |records| - at else PAGE;
        PaddedChunk(records, done - 1);
        ok := ProgramNext(slot, page, records, PAGE + at,
                          records[at..at + chunk] + Blank(PAGE - chunk), was, logWas, done);
        if !ok {
          return false, done;
        }
        at, done := at + chunk, done + 1;
      }
      ok := ProgramNext(slot, page, records, 0, page, was, logWas, done);
      if ok {
        done := done + 1;
      }
      return ok, done;
    }

    /** Carry out the next operation of a run when it is to erase the whole of `slot`. */
    method EraseNext(slot: Region, ghost was: Chip, ghost logWas: seq<FlashOp>, ghost ops: seq<FlashOp>, ghost k: nat)
      returns (ok: bool)
      requires flash.Valid() && flash.RegionOnChip(slot) && slot.size == SECTOR
      requires AllFit(was, ops) && k < |ops| && ops[k] == EraseOp(slot.offset, SECTOR)
      requires StoppedAt(was, logWas, ops, k)
      modifies flash`log, flash`denials, flash.cells
      ensures flash.Valid() && flash.cells == old(flash.cells)
      ensures StoppedAt(was, logWas, ops, if ok then k + 1 else k)
    {
      hide Perform, AllFit;
      PerformOneMore(was, ops, k);
      var erased := flash.Erase(slot, 0, slot.size);
      return erased == FlashOk;
    }

    /** Program one page of a save that has got to operation `k`; a page never lands as anything else. */
    method ProgramNext(slot: Region, page: seq<byte>, records: seq<byte>, offset: nat, body: seq<byte>,
                       ghost was: Chip, ghost logWas: seq<FlashOp>, ghost k: nat) returns (ok: bool)
      requires flash.Valid() && flash.RegionOnChip(slot) && slot.size == SECTOR
      requires |was| == |flash.Contents()| && |page| == PAGE && |records| <= CAPACITY
      requires AllFit(was, SaveOps(slot.offset, page, records)) && 1 <= k <= PageCount(|records|) + 1
      requires OpAt(slot.offset, page, records, k) == ProgramOp(slot.offset + offset, body) && |body| == PAGE
      requires StoppedAt(was, logWas, SaveOps(slot.offset, page, records), k)
      modifies flash`log, flash`denials, flash.cells
      ensures flash.Valid() && flash.cells == old(flash.cells)
      ensures StoppedAt(was, logWas, SaveOps(slot.offset, page, records), if ok then k + 1 else k)
    {
      hide SaveOps, Perform, RecordPage;
      ghost var ops := SaveOps(slot.offset, page, records);
      SaveOpsAt(slot.offset, page, records, k);
      PerformOneMore(was, ops, k);
      PageLanded(was, slot.offset, page, records, k);
      var programmed := flash.ProgramVerified(slot, offset, body);
      return programmed == FlashOk;
    }

    /** Erase both slots and forget the settings; a refusal part-way leaves RAM as it was. */
    method Erase() returns (result: PersistResult, ghost done: nat)
      requires Valid()
      modifies this`current, this`sequence, this`loaded, store, flash`log, flash`denials, flash.cells
      ensures Valid() && slots == old(slots) && flash.cells == old(flash.cells)
      ensures !HasSlots() ==> result == PersistInvalidArg && flash.Contents() == old(flash.Contents())
      ensures HasSlots() ==>
                AllFit(old(flash.Contents()), EraseOpsOf(Base())) && done <= 2 &&
                StoppedAt(old(flash.Contents()), old(flash.log), EraseOpsOf(Base()), done) &&
                result == (if done == 2 then PersistOk else PersistFlashError)
      ensures result == PersistOk ==> Snapshot() == UNLOADED && store.used == 0 && store.records == []
      ensures result != PersistOk ==> Snapshot() == old(Snapshot()) && unchanged(store)
    {
      hide Perform, PerformAll, StoppedAt, ConfigStore.Image, ConfigStore.AllSound;
      done := 0;
      if slots[0].size == 0 {
        return PersistInvalidArg, 0;
      }
      ghost var was, logWas, ops := flash.Contents(), flash.log, EraseOpsOf(Base());
      SlotFacts(0);
      SlotFacts(1);
      StoppedAtStart(was, logWas, ops);
      for i := 0 to 2
        invariant flash.Valid() && flash.cells == old(flash.cells) && done == i
        invariant AllFit(was, ops) && StoppedAt(was, logWas, ops, i)
        modifies flash`log, flash`denials, flash.cells
      {
        SlotFacts(i);
        var ok := EraseNext(slots[i], was, logWas, ops, i);
        if !ok {
          return PersistFlashError, i;
        }
        done := i + 1;
      }
      store.Clear();
      current, sequence, loaded := 0, 0, false;
      return PersistOk, 2;
    }

    lemma StoppedAtStart(was: Chip, logWas: seq<FlashOp>, ops: seq<FlashOp>)
      requires flash.Valid() && AllFit(was, ops) && flash.log == logWas && flash.Contents() == was
      ensures StoppedAt(was, logWas, ops, 0)
    {
      assert ops[..0] == [];
    }

    lemma PerformOneMore(was: Chip, ops: seq<FlashOp>, k: nat)
      requires AllFit(was, ops) && k < |ops|
      ensures PerformAll(was, ops[..k + 1]) == PerformAll(PerformAll(was, ops[..k]), [ops[k]])
      ensures ops[..k + 1] == ops[..k] + [ops[k]]
    {
      PerformPrefix(was, ops, k + 1);
      PerformOne(PerformAll(was, ops[..k]), ops[k]);
    }
  }

  /** What the chip holds under a page a save has just programmed is that page. */
  lemma PageLanded(chip: Chip, at: nat, page: seq<byte>, records: seq<byte>, k: nat)
    requires at + SECTOR <= |chip| && |page| == PAGE && |records| <= CAPACITY
    requires 1 <= k <= PageCount(|records|) + 1
    ensures AllFit(chip, SaveOps(at, page, records))
    ensures var after, op := PerformAll(chip, SaveOps(at, page, records)[..k + 1]), OpAt(at, page, records, k);
            op.ProgramOp? && op.at + |op.data| <= |after| && after[op.at..op.at + |op.data|] == op.data
  {
    hide SaveOps, Splice, Blank, AllFit, NewSlot, PartSlot, RecordPage, PerformAll;
    var was := chip[at..at + SECTOR];
    StageReached(chip, at, page, records, k + 1);
    if k <= PageCount(|records|) {
      var from := PAGE * k;
      PartSlotPage(records, k, from);
      SpliceSlice(chip, at, PartSlot(records, k), from, from + PAGE);
    } else {
      NewSlotParts(page, records);
      SpliceSlice(chip, at, NewSlot(page, records), 0, PAGE);
    }
  }

  lemma PartSlotPage(records: seq<byte>, k: nat, from: nat)
    requires 1 <= k <= PageCount(|records|) && |records| <= CAPACITY && from == PAGE * k
    ensures from + PAGE <= SECTOR && PartSlot(records, k)[from..from + PAGE] == RecordPage(records, k - 1)
  {
    PageCountFits(|records|);
    var inner := PAGE * (k - 1);
    var done := Padded(records)[..inner + PAGE];
    MiddleOfConcat(Blank(PAGE), done, Blank(CAPACITY - |done|), |done|);
    assert done[..|done|] == done;
    SliceOfSlice(PartSlot(records, k), PAGE, PAGE + |done|, inner, inner + PAGE);
  }

  /** memset and memcpy of one page's worth of the records. */
  lemma PaddedChunk(records: seq<byte>, k: nat)
    requires k < PageCount(|records|)
    ensures var from := PAGE * k;
            var chunk := if |records| - from < PAGE then |records| - from else PAGE;
            0 < chunk && from + chunk <= |records| &&
            RecordPage(records, k) == records[from..from + chunk] + Blank(PAGE - chunk)
  {
  }

  lemma SlotWindow(chip: Chip, base: nat, i: nat, from: nat, to: nat)
    requires SlotsOnChip(chip, base) && i < 2 && from <= to <= SECTOR
    ensures SlotBytes(chip, base, i)[from..to] == chip[SlotAt(base, i) + from..SlotAt(base, i) + to]
  {
    SliceOfSlice(chip, SlotAt(base, i), SlotAt(base, i) + SECTOR, from, to);
  }
}
