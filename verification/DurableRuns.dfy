/**
 * Whole runs of editing, saving, erasing, rebooting and losing power: the two slots
 * behave as one register that each save replaces in a single instant
 * (components/persistent_config/persistent_config.c).
 */
module DurableRuns {
  import opened Bytes
  import opened FlashLayout
  import opened FlashStorage
  import opened SlotFormat
  import opened PowerFail
  import ConfigStore

  datatype PersistResult = PersistOk | PersistInvalidArg | PersistNoSpace | PersistEmpty
                         | PersistCorrupt | PersistTooLarge | PersistFlashError

  /** What a load into a buffer of `capacity` bytes reports and leaves in RAM. */
  function LoadSpec(chip: Chip, base: nat, capacity: nat): (PersistResult, Config, seq<byte>)
    requires SlotsOnChip(chip, base)
  {
    match Reload(chip, base)
    case (_, None) =>
      var blank := ViewAt(chip, base, 0).blankHead && ViewAt(chip, base, 1).blankHead;
      (if blank then PersistEmpty else PersistCorrupt, UNLOADED, [])
    case (config, Some(records)) =>
      if |records| > capacity then (PersistTooLarge, UNLOADED, [])
      else if ConfigStore.Parse(records) == None then (PersistCorrupt, UNLOADED, [])
      else (PersistOk, config, records)
  }

  /** `durable` is not the code's: it is what a single atomic cell would hold. */
  datatype World = World(chip: Chip, config: Config, image: seq<byte>, durable: Option<seq<byte>>)

  datatype Event =
    | Edit(image: seq<byte>)   // any change to the settings in RAM
    | Save
    | SaveRefused(done: nat)   // the flash layer declined after `done` operations
    | SaveCut(after: Chip)     // the power went during the save, and came back
    | Reboot
    | EraseAll
    | EraseRefused(done: nat)  // the flash layer declined after `done` of the two slots
    | EraseCut(after: Chip)    // the power went during the erasure, and came back

  predicate Storable(image: seq<byte>, capacity: nat)
  {
    |image| <= capacity && ConfigStore.Parse(image).Some?
  }

  function SaveOpsOf(w: World, base: nat): seq<FlashOp>
    requires w.config.current < 2
  {
    SaveOps(SlotAt(base, Target(w.config)), NextPage(w.config, w.image), w.image)
  }

  function EraseOpsOf(base: nat): seq<FlashOp>
  {
    [EraseOp(SlotAt(base, 0), SECTOR), EraseOp(SlotAt(base, 1), SECTOR)]
  }

  function Boot(chip: Chip, base: nat, capacity: nat, durable: Option<seq<byte>>): World
    requires SlotsOnChip(chip, base)
  {
    var (_, config, image) := LoadSpec(chip, base, capacity);
    World(chip, config, image, durable)
  }

  ghost predicate Next(base: nat, capacity: nat, w: World, e: Event, w': World)
  {
    SlotsOnChip(w.chip, base) && w.config.current < 2 &&
    match e
    case Edit(image) => Storable(image, capacity) && w' == w.(image := image)
    case Save =>
      if |w.image| > CAPACITY then w' == w
      else
        && AllFit(w.chip, SaveOpsOf(w, base))
        && w' == World(PerformAll(w.chip, SaveOpsOf(w, base)), NextConfig(w.config), w.image, Some(w.image))
    case SaveRefused(done) =>
      && |w.image| <= CAPACITY && done < |SaveOpsOf(w, base)|
      && AllFit(w.chip, SaveOpsOf(w, base))
      && w' == w.(chip := PerformAll(w.chip, SaveOpsOf(w, base)[..done]))
    case SaveCut(after) =>
      && |w.image| <= CAPACITY && |after| == |w.chip|
      && AllFit(w.chip, SaveOpsOf(w, base)) && CutWithin(w.chip, SaveOpsOf(w, base), after)
      && w' == Boot(after, base, capacity,
                    if Fatal(base, capacity, w, e) then Reload(after, base).1
                    else if Landed(after, base, w.config) then Some(w.image) else w.durable)
    case Reboot =>
      w' == Boot(w.chip, base, capacity, if Fatal(base, capacity, w, e) then Reload(w.chip, base).1 else w.durable)
    case EraseAll =>
      && AllFit(w.chip, EraseOpsOf(base))
      && w' == World(PerformAll(w.chip, EraseOpsOf(base)), UNLOADED, [], None)
    case EraseRefused(done) =>
      && done < 2 && AllFit(w.chip, EraseOpsOf(base))
      && w' == w.(chip := PerformAll(w.chip, EraseOpsOf(base)[..done]))
    case EraseCut(after) =>
      && AllFit(w.chip, EraseOpsOf(base)) && CutWithin(w.chip, EraseOpsOf(base), after)
      && |after| == |w.chip|
      && w' == Boot(after, base, capacity, if Fatal(base, capacity, w, e) then Reload(after, base).1 else w.durable)
  }

  /**
   * The current slot was the first, and a refused erasure has taken it: the settings are
   * in RAM and, it may be, nowhere else.
   */
  ghost predicate Exposed(base: nat, capacity: nat, w: World)
  {
    && SlotsOnChip(w.chip, base) && Storable(w.image, capacity)
    && w.config.loaded && w.config.current == 0 && w.config.sequence < WORD_LIMIT
    && ViewAt(w.chip, base, 0).blankHead
  }

  /**
   * The events durability does not survive, in the states it does not survive them. What such an
   * event leaves durable is whatever the chip then holds.
   */
  ghost predicate Fatal(base: nat, capacity: nat, w: World, e: Event)
  {
    match e
    case Reboot => Exposed(base, capacity, w)
    case SaveCut(_) => Exposed(base, capacity, w)
    case EraseCut(after) =>
      (w.config.loaded && w.config.current == 0) ||
      !(AllFit(w.chip, EraseOpsOf(base)) && CutWithin(w.chip, EraseOpsOf(base)[..1], after))
    case _ => false
  }

  ghost predicate Inv(base: nat, capacity: nat, w: World)
  {
    && SlotsOnChip(w.chip, base)
    && Good(w.chip, base, w.config, w.durable)
    && Storable(w.image, capacity)
    && (w.durable.Some? ==> Storable(w.durable.value, capacity))
  }

  /** What the next load must report. */
  function Expected(w: World): (PersistResult, Config, seq<byte>)
  {
    match w.durable
    case None => (PersistEmpty, UNLOADED, [])
    case Some(records) => (PersistOk, w.config, records)
  }

  lemma InvLoads(base: nat, capacity: nat, w: World)
    requires Inv(base, capacity, w)
    ensures LoadSpec(w.chip, base, capacity) == Expected(w)
  {
    hide SlotBytes, View, ReadChosen;
    GoodReloads(w.chip, base, w.config, w.durable);
    if w.durable == None {
      assert Views(w.chip, base)[0].blankHead && Views(w.chip, base)[1].blankHead;
    }
  }

  /** Blank flash, freshly booted, satisfies the invariant. */
  lemma BlankStart(base: nat, capacity: nat, chip: Chip)
    requires SlotsOnChip(chip, base)
    requires ViewAt(chip, base, 0).blankHead && ViewAt(chip, base, 1).blankHead
    ensures Inv(base, capacity, Boot(chip, base, capacity, None))
  {
    hide SlotBytes, View;
    GoodReloads(chip, base, UNLOADED, None);
  }

  lemma BootKeepsInv(base: nat, capacity: nat, chip: Chip, config: Config, durable: Option<seq<byte>>)
    requires SlotsOnChip(chip, base) && Good(chip, base, config, durable)
    requires durable.Some? ==> Storable(durable.value, capacity)
    ensures Inv(base, capacity, Boot(chip, base, capacity, durable))
  {
    hide SlotBytes, View, ReadChosen, GoodViews;
    GoodReloads(chip, base, config, durable);
    InvLoads(base, capacity, World(chip, config, if durable.Some? then durable.value else [], durable));
    GoodConfig(chip, base, config, durable);
    UnloadedConfig(chip, base, config, durable);
  }

  lemma UnloadedConfig(chip: Chip, base: nat, config: Config, durable: Option<seq<byte>>)
    requires SlotsOnChip(chip, base) && Good(chip, base, config, durable)
    ensures durable == None ==> config == UNLOADED
  {
  }

  lemma EraseAllGood(chip: Chip, base: nat)
    requires SlotsOnChip(chip, base)
    ensures AllFit(chip, EraseOpsOf(base))
    ensures Good(PerformAll(chip, EraseOpsOf(base)), base, UNLOADED, None)
  {
    var after := PerformAll(chip, EraseOpsOf(base));
    PerformTwo(chip, EraseOp(SlotAt(base, 0), SECTOR), EraseOp(SlotAt(base, 1), SECTOR));
    assert SlotBytes(after, base, 0) == Blank(SECTOR) && SlotBytes(after, base, 1) == Blank(SECTOR);
    assert Blank(SECTOR)[..PAGE] == Blank(PAGE);
    ViewOfBlankPage(Blank(SECTOR));
  }

  /** Every event keeps the invariant, but for an erasure stopped once it has taken the current slot. */
  lemma StepKeepsInv(base: nat, capacity: nat, w: World, e: Event, w': World)
    requires Inv(base, capacity, w) && Next(base, capacity, w, e, w')
    requires !Fatal(base, capacity, w, e)
    ensures Inv(base, capacity, w') || Exposed(base, capacity, w')
    ensures !e.EraseRefused? ==> Inv(base, capacity, w')
  {
    hide Good, Landed, SaveOps, Boot, NextPage, EraseOpsOf, Exposed, CutWithin;
    match e
    case Edit(_) =>
    case Save =>
      if |w.image| <= CAPACITY {
        SaveTakesEffect(w.chip, base, w.config, w.durable, w.image);
      }
    case SaveRefused(done) =>
      RefusedSaveKeepsOld(w.chip, base, w.config, w.durable, w.image, done);
    case SaveCut(after) =>
      SaveSurvivesPowerLoss(w.chip, base, w.config, w.durable, w.image, after);
      if Landed(after, base, w.config) {
        BootKeepsInv(base, capacity, after, NextConfig(w.config), Some(w.image));
      } else {
        BootKeepsInv(base, capacity, after, w.config, w.durable);
      }
    case Reboot =>
      BootKeepsInv(base, capacity, w.chip, w.config, w.durable);
    case EraseAll =>
      EraseAllGood(w.chip, base);
      assert ConfigStore.Parse([]).Some?;
    case EraseRefused(done) =>
      RefusedErasure(base, capacity, w, done);
    case EraseCut(after) =>
      FirstSlotCut(w.chip, base, w.config, w.durable, after);
      BootKeepsInv(base, capacity, after, w.config, w.durable);
  }

  /** An erasure's operations up to the end of the first slot. */
  lemma EraseSteps(chip: Chip, base: nat)
    requires SlotsOnChip(chip, base)
    ensures AllFit(chip, EraseOpsOf(base))
    ensures EraseOpsOf(base)[..0] == [] && EraseOpsOf(base)[..1] == [EraseOp(SlotAt(base, 0), SECTOR)]
    ensures PerformAll(chip, []) == chip
    ensures PerformAll(chip, [EraseOp(SlotAt(base, 0), SECTOR)]) == FirstSlotErased(chip, base)
  {
    PerformOne(chip, EraseOp(SlotAt(base, 0), SECTOR));
  }

  /** Cut in the first slot, an erasure leaves that slot's first page old or blank and the other slot whole. */
  lemma FirstSlotCutOutcome(chip: Chip, base: nat, after: Chip)
    requires SlotsOnChip(chip, base) && AllFit(chip, EraseOpsOf(base))
    requires CutWithin(chip, EraseOpsOf(base)[..1], after)
    ensures |after| == |chip| && SameElsewhere(chip, after, SlotAt(base, 0))
    ensures var was, now := SlotBytes(chip, base, 0), SlotBytes(after, base, 0);
            now[..PAGE] == was[..PAGE] || now[..PAGE] == Blank(PAGE)
  {
    hide Perform, CutWithin, CutDuring, PerformAll;
    var op, r := EraseOp(SlotAt(base, 0), SECTOR), Region(SlotAt(base, 0), SECTOR);
    EraseSteps(chip, base);
    CutInOne(chip, op, after);
    PerformOutside(chip, op, r);
    ErasedFront(chip, base);
    if after != Perform(chip, op) {
      CutDuringOutside(chip, op, r, after);
      SlotAligned(base, 0);
      CutPage(chip, op, after, SlotAt(base, 0));
    }
    SlotFront(chip, base, 0);
    SlotFront(after, base, 0);
  }

  lemma ErasedFront(chip: Chip, base: nat)
    requires SlotsOnChip(chip, base)
    ensures Perform(chip, EraseOp(SlotAt(base, 0), SECTOR))[SlotAt(base, 0)..SlotAt(base, 0) + PAGE] == Blank(PAGE)
  {
  }

  /** With the settings in the second slot, or none, the first can go and nothing is lost. */
  lemma FirstSlotCut(chip: Chip, base: nat, config: Config, durable: Option<seq<byte>>, after: Chip)
    requires SlotsOnChip(chip, base) && Good(chip, base, config, durable)
    requires !(config.loaded && config.current == 0)
    requires AllFit(chip, EraseOpsOf(base)) && CutWithin(chip, EraseOpsOf(base)[..1], after)
    ensures |after| == |chip| && Good(after, base, config, durable)
  {
    hide Good, SlotBytes, SameElsewhere, EraseOpsOf, CutWithin;
    GoodConfig(chip, base, config, durable);
    UnloadedConfig(chip, base, config, durable);
    FirstSlotCutOutcome(chip, base, after);
    UnfinishedKeepsOld(chip, base, config, durable, after);
  }

  lemma WholeFirstSlot(chip: Chip, base: nat)
    requires SlotsOnChip(chip, base)
    ensures AllFit(chip, EraseOpsOf(base)) && CutWithin(chip, EraseOpsOf(base)[..1], FirstSlotErased(chip, base))
  {
    hide Perform;
    EraseSteps(chip, base);
  }

  /** A refused erasure keeps the invariant unless it has taken the current slot. */
  lemma RefusedErasure(base: nat, capacity: nat, w: World, done: nat)
    requires Inv(base, capacity, w) && done < 2 && AllFit(w.chip, EraseOpsOf(base))
    ensures var w' := w.(chip := PerformAll(w.chip, EraseOpsOf(base)[..done]));
            if done == 1 && w.config.loaded && w.config.current == 0
            then Exposed(base, capacity, w') && !Inv(base, capacity, w')
            else Inv(base, capacity, w')
  {
    hide Good, EraseOpsOf, PerformAll, FirstSlotErased, CutWithin;
    EraseSteps(w.chip, base);
    if done == 1 {
      if w.config.loaded && w.config.current == 0 {
        GoodConfig(w.chip, base, w.config, w.durable);
        FirstSlotErasedViews(w.chip, base);
        NotGoodWithout(FirstSlotErased(w.chip, base), base, w.config, w.durable);
      } else {
        WholeFirstSlot(w.chip, base);
        FirstSlotCut(w.chip, base, w.config, w.durable, FirstSlotErased(w.chip, base));
      }
    }
  }

  lemma NotGoodWithout(chip: Chip, base: nat, config: Config, durable: Option<seq<byte>>)
    requires SlotsOnChip(chip, base) && config.loaded && config.current == 0 && ViewAt(chip, base, 0).stored == None
    ensures !Good(chip, base, config, durable)
  {
  }

  /** While exposed the settings live in RAM; the next save that runs to its end puts them back for good. */
  lemma ExposedStep(base: nat, capacity: nat, w: World, e: Event, w': World)
    requires Exposed(base, capacity, w) && Next(base, capacity, w, e, w') && !Fatal(base, capacity, w, e)
    ensures Inv(base, capacity, w') || Exposed(base, capacity, w')
    ensures e.Save? && |w.image| <= CAPACITY ==> Inv(base, capacity, w') && w'.durable == Some(w.image)
  {
    hide Good, Landed, SaveOps, Boot, NextPage, EraseOpsOf, View, PerformAll, FirstSlotErased, SameElsewhere, NewSlot, SlotBytes,
         CutWithin, Blank, HeaderPage;
    match e
    case Edit(_) =>
    case Save =>
      if |w.image| <= CAPACITY {
        ExposedSave(w.chip, base, w.config, w.image);
      }
    case SaveRefused(done) =>
      RefusedOutcome(w.chip, SlotAt(base, 1), NextPage(w.config, w.image), w.image, done);
      StillOnChip(w.chip, w'.chip, base, 1);
      OtherSlotUntouched(w.chip, w'.chip, base, 1);
    case EraseAll =>
      EraseAllGood(w.chip, base);
      assert ConfigStore.Parse([]).Some?;
    case EraseRefused(done) =>
      EraseSteps(w.chip, base);
      FirstSlotErasedViews(w.chip, base);
    case _ =>
  }

  lemma ExposedSave(chip: Chip, base: nat, config: Config, records: seq<byte>)
    requires SlotsOnChip(chip, base) && config.loaded && config.current == 0 && config.sequence < WORD_LIMIT
    requires ViewAt(chip, base, 0).blankHead && |records| <= CAPACITY
    ensures var ops := SaveOps(SlotAt(base, 1), NextPage(config, records), records);
            AllFit(chip, ops) && Good(PerformAll(chip, ops), base, NextConfig(config), Some(records))
  {
    hide SaveOps, NextPage, View, PerformAll, SameElsewhere, NewSlot, SlotBytes, HeaderPage;
    var page := NextPage(config, records);
    SaveOutcome(chip, SlotAt(base, 1), page, records);
    var after := PerformAll(chip, SaveOps(SlotAt(base, 1), page, records));
    StillOnChip(chip, after, base, 1);
    OtherSlotUntouched(chip, after, base, 1);
    PageOf(config, records);
    ViewOfNew(U32(config.sequence + 1), records);
    SecondSlotIs(after, base);
    ViewConsistent(SlotBytes(chip, base, 0));
  }

  lemma PageOf(config: Config, records: seq<byte>)
    ensures NextPage(config, records) == HeaderPage(U32(config.sequence + 1), records)
  {
    hide HeaderPage, U32;
  }

  lemma SecondSlotIs(chip: Chip, base: nat)
    requires SlotsOnChip(chip, base)
    ensures chip[SlotAt(base, 1)..SlotAt(base, 1) + SECTOR] == SlotBytes(chip, base, 1)
  {
  }

  ghost predicate Run(base: nat, capacity: nat, worlds: seq<World>, events: seq<Event>)
  {
    |worlds| == |events| + 1 &&
    forall i :: 0 <= i < |events| ==> Next(base, capacity, worlds[i], events[i], worlds[i + 1])
  }

  /** One copy that can be loaded and a neighbour that cannot be taken for later, or two blank slots. */
  predicate Whole(chip: Chip, base: nat, capacity: nat)
    requires SlotsOnChip(chip, base)
  {
    match Reload(chip, base)
    case (_, None) => ViewAt(chip, base, 0).blankHead && ViewAt(chip, base, 1).blankHead
    case (config, Some(records)) =>
      && Storable(records, capacity) && config.current < 2
      && ViewAt(chip, base, 1 - config.current).head in {None, Some(U32(config.sequence - 1))}
  }

  /** What a chip holds is durable from here on exactly when the chip is whole. */
  lemma WholeIff(base: nat, capacity: nat, chip: Chip)
    requires SlotsOnChip(chip, base)
    ensures Inv(base, capacity, Boot(chip, base, capacity, Reload(chip, base).1)) <==> Whole(chip, base, capacity)
  {
    hide ViewAt, Reload;
    assert ConfigStore.Parse([]).Some?;
    ReloadFromViews(chip, base);
    SequencesBound(chip, base);
  }

  lemma SequencesBound(chip: Chip, base: nat)
    requires SlotsOnChip(chip, base)
    ensures forall i :: 0 <= i < 2 && ViewAt(chip, base, i).stored.Some? ==> ViewAt(chip, base, i).stored.value.sequence < WORD_LIMIT
  {
    hide View, SlotBytes;
    SequenceBound(SlotBytes(chip, base, 0));
    SequenceBound(SlotBytes(chip, base, 1));
  }

  lemma SequenceBound(slot: seq<byte>)
    requires |slot| == SECTOR
    ensures View(slot).stored.Some? ==> View(slot).stored.value.sequence < WORD_LIMIT
  {
    BytesNatBound(slot[..HEADER_SIZE][4..8]);
    Pow256Values();
  }

  /** So an event durability does not survive settles exactly when it leaves the chip whole. */
  lemma FatalSettlesIff(base: nat, capacity: nat, w: World, e: Event, w': World)
    requires Next(base, capacity, w, e, w') && Fatal(base, capacity, w, e)
    ensures SlotsOnChip(w'.chip, base)
    ensures Inv(base, capacity, w') <==> Whole(w'.chip, base, capacity)
  {
    hide Whole, Inv, Reload, Exposed, EraseOpsOf, SaveOpsOf, CutWithin;
    WholeIff(base, capacity, w'.chip);
  }

  /** Whenever power was lost with the settings exposed, or while they were being erased, the chip was left whole. */
  ghost predicate Settled(base: nat, capacity: nat, worlds: seq<World>, events: seq<Event>, i: nat)
    requires |worlds| == |events| + 1 && i < |worlds|
  {
    forall j :: 0 <= j < i && Fatal(base, capacity, worlds[j], events[j]) ==>
      SlotsOnChip(worlds[j + 1].chip, base) && Whole(worlds[j + 1].chip, base, capacity)
  }

  /**
   * Over every run from a good start, a load at any moment reports exactly the last save
   * that took effect: a save takes effect the instant its header page lands. The one way out
   * is an erasure stopped once it has taken the current slot; until a save runs to its end
   * the settings are then in RAM alone, and losing power loses them. After such a loss the run
   * goes on from what the chip then holds.
   */
  lemma {:induction false} RunIsDurable(base: nat, capacity: nat, worlds: seq<World>, events: seq<Event>, i: nat)
    requires Run(base, capacity, worlds, events) && Inv(base, capacity, worlds[0])
    requires i < |worlds| && Settled(base, capacity, worlds, events, i)
    ensures Exposed(base, capacity, worlds[i]) ||
            (Inv(base, capacity, worlds[i]) && LoadSpec(worlds[i].chip, base, capacity) == Expected(worlds[i]))
  {
    hide Inv, Exposed, Next, LoadSpec, Fatal, Whole;
    if i > 0 {
      RunIsDurable(base, capacity, worlds, events, i - 1);
      assert Next(base, capacity, worlds[i - 1], events[i - 1], worlds[i]);
      if Fatal(base, capacity, worlds[i - 1], events[i - 1]) {
        FatalSettlesIff(base, capacity, worlds[i - 1], events[i - 1], worlds[i]);
      } else if Inv(base, capacity, worlds[i - 1]) {
        StepKeepsInv(base, capacity, worlds[i - 1], events[i - 1], worlds[i]);
      } else {
        ExposedStep(base, capacity, worlds[i - 1], events[i - 1], worlds[i]);
      }
    }
    if Inv(base, capacity, worlds[i]) {
      OnChip(base, capacity, worlds[i]);
      InvLoads(base, capacity, worlds[i]);
    }
  }

  /** With no erasure refused there is no way out at all. */
  lemma {:induction false} RunStaysGood(base: nat, capacity: nat, worlds: seq<World>, events: seq<Event>, i: nat)
    requires Run(base, capacity, worlds, events) && Inv(base, capacity, worlds[0])
    requires i < |worlds| && Settled(base, capacity, worlds, events, i)
    requires forall j :: 0 <= j < i ==> !events[j].EraseRefused?
    ensures Inv(base, capacity, worlds[i])
  {
    hide Inv, Exposed, Next, Fatal, Whole;
    if i > 0 {
      RunStaysGood(base, capacity, worlds, events, i - 1);
      assert Next(base, capacity, worlds[i - 1], events[i - 1], worlds[i]);
      if Fatal(base, capacity, worlds[i - 1], events[i - 1]) {
        FatalSettlesIff(base, capacity, worlds[i - 1], events[i - 1], worlds[i]);
      } else {
        StepKeepsInv(base, capacity, worlds[i - 1], events[i - 1], worlds[i]);
      }
    }
  }

  lemma OnChip(base: nat, capacity: nat, w: World)
    requires Inv(base, capacity, w)
    ensures SlotsOnChip(w.chip, base)
  {
  }

  // ---- where the promise stops --------------------------------------------------------

  /**
   * After a load that adopted nothing, a completed save is what the next load finds
   * exactly when the second slot holds nothing readable that counts as later than one.
   */
  lemma UnloadedSaveTakesEffectIff(chip: Chip, base: nat, records: seq<byte>)
    requires SlotsOnChip(chip, base) && |records| <= CAPACITY
    ensures var ops := SaveOps(SlotAt(base, 0), NextPage(UNLOADED, records), records);
            && AllFit(chip, ops)
            && (Reload(PerformAll(chip, ops), base) == (Config(true, 0, 1), Some(records)) <==>
                ViewAt(chip, base, 1).stored == None ||
                !SequenceIsLater(ViewAt(chip, base, 1).stored.value.sequence, 1))
  {
    hide View, ReadChosen, NextPage, SaveOps, PerformAll, Reload, SlotBytes;
    UnloadedSaveViews(chip, base, records);
    ReloadFromViews(PerformAll(chip, SaveOps(SlotAt(base, 0), NextPage(UNLOADED, records), records)), base);
  }

  lemma UnloadedSaveViews(chip: Chip, base: nat, records: seq<byte>)
    requires SlotsOnChip(chip, base) && |records| <= CAPACITY
    ensures var ops := SaveOps(SlotAt(base, 0), NextPage(UNLOADED, records), records);
            && AllFit(chip, ops) && SlotsOnChip(PerformAll(chip, ops), base)
            && ViewAt(PerformAll(chip, ops), base, 0).stored == Some(Stored(1, records))
            && ViewAt(PerformAll(chip, ops), base, 1) == ViewAt(chip, base, 1)
  {
    hide View, NewSlot, HeaderPage, SameElsewhere, SaveOps, PerformAll;
    var at, page := SlotAt(base, 0), NextPage(UNLOADED, records);
    SaveOutcome(chip, at, page, records);
    var after := PerformAll(chip, SaveOps(at, page, records));
    StillOnChip(chip, after, base, 0);
    OtherSlotUntouched(chip, after, base, 0);
    ViewOfNew(1, records);
  }

  /** A load depends on nothing but the two views. */
  /** What a load makes of one slot's contents, when that is the one it takes. */
  function Taken(slot: nat, stored: Stored, capacity: nat): (PersistResult, Config, seq<byte>)
  {
    if |stored.records| > capacity then (PersistTooLarge, UNLOADED, [])
    else if ConfigStore.Parse(stored.records) == None then (PersistCorrupt, UNLOADED, [])
    else (PersistOk, Config(true, slot, stored.sequence), stored.records)
  }

  /**
   * What a load answers, by what the first two sectors from `base` hold: nothing saved yet when both
   * begin with twenty erased bytes, damage when neither reads and one does not, and else the only slot
   * that reads, or of two the first unless the second's number is up to half the circle ahead.
   */
  lemma LoadTable(chip: Chip, base: nat, capacity: nat)
    requires SlotsOnChip(chip, base)
    ensures var a, b := chip[base..base + 4096], chip[base + 4096..base + 8192];
            var erased := seq(20, _ => 0xFF as byte);
            var (x, y) := (ReadSlot(a), ReadSlot(b));
            LoadSpec(chip, base, capacity) ==
              match (x, y)
              case (None, None) => (if a[..20] == erased && b[..20] == erased then PersistEmpty else PersistCorrupt, UNLOADED, [])
              case (Some(stored), None) => Taken(0, stored, capacity)
              case (None, Some(stored)) => Taken(1, stored, capacity)
              case (Some(first), Some(second)) =>
                if 0 < (second.sequence - first.sequence) % 0x1_0000_0000 < 0x8000_0000 then Taken(1, second, capacity)
                else Taken(0, first, capacity)
  {
    hide ReadSlot, ConfigStore.Parse;
    assert SlotBytes(chip, base, 0) == chip[base..base + 4096] && SlotBytes(chip, base, 1) == chip[base + 4096..base + 8192];
    assert Blank(HEADER_SIZE) == seq(20, _ => 0xFF as byte);
  }

  lemma ReloadFromViews(chip: Chip, base: nat)
    requires SlotsOnChip(chip, base)
    ensures var s0, s1 := ViewAt(chip, base, 0).stored, ViewAt(chip, base, 1).stored;
            Reload(chip, base) ==
              match Choose(s0, s1)
              case None => (UNLOADED, None)
              case Some(i) =>
                var s := if i == 0 then s0.value else s1.value;
                (Config(true, i, s.sequence), Some(s.records))
  {
    hide ReadSlot;
  }

  /** The chip once a save with nothing loaded has done its first operation. */
  function FirstSlotErased(chip: Chip, base: nat): (r: Chip)
    requires SlotsOnChip(chip, base)
    ensures SlotsOnChip(r, base)
  {
    Perform(chip, EraseOp(SlotAt(base, 0), SECTOR))
  }

  lemma FirstSlotErasedViews(chip: Chip, base: nat)
    requires SlotsOnChip(chip, base)
    ensures ViewAt(FirstSlotErased(chip, base), base, 0).stored == None
    ensures ViewAt(FirstSlotErased(chip, base), base, 0).blankHead
    ensures ViewAt(FirstSlotErased(chip, base), base, 1) == ViewAt(chip, base, 1)
  {
    var after := FirstSlotErased(chip, base);
    assert SlotBytes(after, base, 0) == Blank(SECTOR);
    assert SlotBytes(after, base, 1) == SlotBytes(chip, base, 1);
    assert Blank(SECTOR)[..PAGE] == Blank(PAGE);
    ViewOfBlankPage(Blank(SECTOR));
    ViewConsistent(Blank(SECTOR));
  }

  /**
   * After a load that adopted nothing, losing power anywhere in a save between the going of the first
   * slot's old header and the landing of its new one keeps what was readable exactly when it was not
   * in the first slot.
   */
  lemma UnloadedSaveKeepsOldIff(chip: Chip, base: nat, records: seq<byte>, after: Chip)
    requires SlotsOnChip(chip, base) && |records| <= CAPACITY
    requires var ops := SaveOps(SlotAt(base, 0), NextPage(UNLOADED, records), records);
             AllFit(chip, ops) && CutWithin(chip, ops, after)
    requires SlotsOnChip(after, base) && ViewAt(after, base, 0).blankHead
    ensures Reload(after, base) == Reload(chip, base) <==>
              !(Reload(chip, base).0.loaded && Reload(chip, base).0.current == 0)
  {
    hide View, ReadChosen, SaveOps, CutWithin, SameElsewhere, NextPage, AllFit;
    SlotAligned(base, 0);
    SaveCutOutcome(chip, SlotAt(base, 0), NextPage(UNLOADED, records), records, after);
    OtherSlotUntouched(chip, after, base, 0);
    ViewConsistent(SlotBytes(after, base, 0));
    ReloadFromViews(chip, base);
    ReloadFromViews(after, base);
  }

  /** Such a cut there is: the one that comes right after the erase. */
  lemma CutAfterErase(chip: Chip, base: nat, records: seq<byte>)
    requires SlotsOnChip(chip, base) && |records| <= CAPACITY
    ensures var ops := SaveOps(SlotAt(base, 0), NextPage(UNLOADED, records), records);
            AllFit(chip, ops) && CutWithin(chip, ops, FirstSlotErased(chip, base))
    ensures ViewAt(FirstSlotErased(chip, base), base, 0).blankHead
  {
    hide View, Perform, SaveOps, NextPage;
    var ops := SaveOps(SlotAt(base, 0), NextPage(UNLOADED, records), records);
    SaveOpsFit(chip, SlotAt(base, 0), NextPage(UNLOADED, records), records);
    FirstSlotErasedViews(chip, base);
    SaveOpsAt(SlotAt(base, 0), NextPage(UNLOADED, records), records, 0);
    SaveOpsAt(SlotAt(base, 0), NextPage(UNLOADED, records), records, 1);
    assert ops[..1] == [ops[0]];
    PerformOne(chip, ops[0]);
    NothingDone(FirstSlotErased(chip, base), ops[1]);
    assert CutAt(chip, ops, 1, FirstSlotErased(chip, base));
  }

  /**
   * The hazard exists: settings in the first slot, read once into too small a buffer,
   * are gone as soon as the next save has erased.
   */
  lemma TooSmallLoadLosesSettings(chip: Chip, base: nat, config: Config, records: seq<byte>, capacity: nat)
    requires SlotsOnChip(chip, base) && Good(chip, base, config, Some(records))
    requires config.current == 0 && |records| > capacity
    ensures LoadSpec(chip, base, capacity) == (PersistTooLarge, UNLOADED, [])
    ensures Reload(FirstSlotErased(chip, base), base).0 != config
  {
    hide View, ReadChosen, Perform, GoodViews;
    GoodReloads(chip, base, config, Some(records));
    GoodConfig(chip, base, config, Some(records));
    FirstSlotErasedViews(chip, base);
    ReloadFromViews(FirstSlotErased(chip, base), base);
  }

  /**
   * Stopped between the slots, an erasure leaves the settings as they were or nothing at all,
   * exactly unless the first slot was current and the second can still be read.
   */
  lemma EraseStoppedKeepsOrForgetsIff(chip: Chip, base: nat, config: Config, records: seq<byte>)
    requires SlotsOnChip(chip, base) && Good(chip, base, config, Some(records))
    ensures Reload(FirstSlotErased(chip, base), base) in {(config, Some(records)), (UNLOADED, None)} <==>
              !(config.current == 0 && ViewAt(chip, base, 1).stored.Some?)
    ensures Reload(FirstSlotErased(chip, base), base) == (config, Some(records)) <==> config.current == 1
  {
    hide View, ReadChosen, Perform, FirstSlotErased;
    FirstSlotErasedViews(chip, base);
    ReloadFromViews(FirstSlotErased(chip, base), base);
    GoodConfig(chip, base, config, Some(records));
  }

  /** The save that follows a refused erasure erases the only copy left before it writes another. */
  lemma NextSaveErasesSurvivor(base: nat, capacity: nat, w: World)
    requires Exposed(base, capacity, w)
    ensures Target(w.config) == 1
    ensures Fits(w.chip, EraseOp(SlotAt(base, 1), SECTOR))
    ensures SlotsOnChip(Perform(w.chip, EraseOp(SlotAt(base, 1), SECTOR)), base)
    ensures Reload(Perform(w.chip, EraseOp(SlotAt(base, 1), SECTOR)), base) == (UNLOADED, None)
  {
    var after := Perform(w.chip, EraseOp(SlotAt(base, 1), SECTOR));
    SecondSlotErased(w.chip, base);
    ViewConsistent(SlotBytes(w.chip, base, 0));
    ReloadFromViews(after, base);
  }

  lemma SecondSlotErased(chip: Chip, base: nat)
    requires SlotsOnChip(chip, base)
    ensures var after := Perform(chip, EraseOp(SlotAt(base, 1), SECTOR));
            SlotsOnChip(after, base) && ViewAt(after, base, 0) == ViewAt(chip, base, 0) && ViewAt(after, base, 1).stored == None
  {
    var after := Perform(chip, EraseOp(SlotAt(base, 1), SECTOR));
    assert SlotBytes(after, base, 1) == Blank(SECTOR);
    assert SlotBytes(after, base, 0) == SlotBytes(chip, base, 0);
    assert Blank(SECTOR)[..PAGE] == Blank(PAGE);
    ViewOfBlankPage(Blank(SECTOR));
    ViewConsistent(Blank(SECTOR));
  }

  /** A load while exposed finds what the second slot holds, which is never the settings themselves. */
  lemma ExposedLoses(base: nat, capacity: nat, w: World)
    requires Exposed(base, capacity, w)
    ensures Reload(w.chip, base).0 != w.config
    ensures Reload(w.chip, base) ==
              match ViewAt(w.chip, base, 1).stored
              case None => (UNLOADED, None)
              case Some(s) => (Config(true, 1, s.sequence), Some(s.records))
  {
    hide View, ReadChosen;
    ViewConsistent(SlotBytes(w.chip, base, 0));
    ReloadFromViews(w.chip, base);
  }

  /** Erasing everything is not atomic: cut between the slots it can bring back the save before last. */
  lemma EraseCutCanRevert(chip: Chip, base: nat, config: Config, records: seq<byte>, older: Stored)
    requires SlotsOnChip(chip, base) && Good(chip, base, config, Some(records)) && config.current == 0
    requires ViewAt(chip, base, 1).stored == Some(older)
    ensures Reload(FirstSlotErased(chip, base), base) == (Config(true, 1, U32(config.sequence - 1)), Some(older.records))
  {
    hide View, ReadChosen, Perform;
    FirstSlotErasedViews(chip, base);
    ReloadFromViews(FirstSlotErased(chip, base), base);
    ViewConsistent(SlotBytes(chip, base, 1));
  }
}
