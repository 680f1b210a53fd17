/**
 * Copying the staged image over the application (components/firmware_update/firmware_apply.c).
 * The interrupt lockout and the watchdog are not part of this model.
 */
module FirmwareApply {
  import opened Bytes
  import opened FlashLayout
  import opened FlashStorage
  import opened Manifest

  /** One more sector of the destination holds what the source holds. */
  lemma SectorCopied(was: Chip, before: Chip, after: Chip, source: Region, destination: Region, at: nat)
    requires destination.offset + at + SECTOR <= |before| && source.offset + at + SECTOR <= |was|
    requires Front(before, destination, at) == Front(was, source, at)
    requires after == Splice(before, destination.offset + at, was[source.offset + at..source.offset + at + SECTOR])
    ensures Front(after, destination, at + SECTOR) == Front(was, source, at + SECTOR)
  {
    var now, wanted := Front(after, destination, at + SECTOR), Front(was, source, at + SECTOR);
    forall i | 0 <= i < at + SECTOR ensures now[i] == wanted[i] {
      if i < at {
        assert Front(before, destination, at)[i] == Front(was, source, at)[i];
      }
    }
  }

  lemma EraseThenProgram(chip: Chip, at: nat, sector: seq<byte>)
    requires at + SECTOR <= |chip| && |sector| == SECTOR
    ensures Perform(Perform(chip, EraseOp(at, SECTOR)), ProgramOp(at, sector)) == Splice(chip, at, sector)
  {
    hide AndBytes, Blank, Splice;
    var blank := Splice(chip, at, Blank(SECTOR));
    SpliceSlice(chip, at, Blank(SECTOR), 0, SECTOR);
    assert Blank(SECTOR)[0..SECTOR] == Blank(SECTOR);
    ProgramErased(blank, at, sector);
    SpliceSplice(chip, at, Blank(SECTOR), 0, sector);
    assert Blank(SECTOR)[..0] + sector + Blank(SECTOR)[SECTOR..] == sector;
  }

  method CopySector(flash: Flash, at: nat, sector: seq<byte>)
    requires flash.Valid() && at + SECTOR <= |flash.Contents()| && |sector| == SECTOR
    modifies flash`log, flash.cells
    ensures flash.Valid() && flash.cells == old(flash.cells)
    ensures flash.log == old(flash.log) + [EraseOp(at, SECTOR)] + [ProgramOp(at, sector)]
    ensures flash.Contents() == Splice(old(flash.Contents()), at, sector)
  {
    hide Splice, Perform;
    EraseThenProgram(flash.Contents(), at, sector);
    flash.DoErase(at, SECTOR);
    flash.DoProgram(at, sector);
  }

  method Apply(flash: Flash, source: Region, destination: Region, size: nat)
    requires flash.Valid() && flash.RegionOnChip(source) && flash.RegionOnChip(destination)
    requires RoundUpToSector(size) <= source.size && RoundUpToSector(size) <= destination.size
    requires destination.offset + destination.size <= source.offset || source.offset + source.size <= destination.offset
    modifies flash`log, flash.cells
    ensures flash.Valid() && flash.cells == old(flash.cells)
    ensures GrewWithin(old(flash.log), flash.log, destination)
    ensures size <= RoundUpToSector(size)
    ensures Front(flash.Contents(), destination, RoundUpToSector(size)) ==
              Front(old(flash.Contents()), source, RoundUpToSector(size))
    ensures SameOutside(old(flash.Contents()), flash.Contents(), destination)
  {
    hide Splice, PerformAll, AllFit, GrewWithin, SameOutside, Front;
    GrewNone(flash.log, destination);
    SameAlready(flash.Contents(), destination);
    NothingInFront(flash.Contents(), source, destination);
    var sectors := (size + SECTOR - 1) / SECTOR;
    for sector := 0 to sectors
      invariant flash.Valid() && flash.cells == old(flash.cells)
      invariant GrewWithin(old(flash.log), flash.log, destination)
      invariant SameOutside(old(flash.Contents()), flash.Contents(), destination)
      invariant Front(flash.Contents(), destination, sector * SECTOR) == Front(old(flash.Contents()), source, sector * SECTOR)
    {
      var at := sector * SECTOR;
      SectorRoom(sector, sectors);
      var from := source.offset + at;
      var staged := flash.cells[from..from + SECTOR];
      OutsideSlice(old(flash.Contents()), flash.Contents(), destination, from, SECTOR);
      ghost var before, logged := flash.Contents(), flash.log;
      CopySector(flash, destination.offset + at, staged);
      GrewByTwo(logged, destination, EraseOp(destination.offset + at, SECTOR), ProgramOp(destination.offset + at, staged));
      GrewMore(old(flash.log), logged, flash.log, destination);
      SectorCopied(old(flash.Contents()), before, flash.Contents(), source, destination, at);
      SpliceOutside(before, destination.offset + at, staged, destination);
      SameThroughout(old(flash.Contents()), before, flash.Contents(), destination);
    }
  }

  lemma NothingInFront(chip: Chip, a: Region, b: Region)
    requires a.offset <= |chip| && b.offset <= |chip|
    ensures Front(chip, a, 0) == Front(chip, b, 0)
  {
  }

  lemma SectorRoom(sector: nat, sectors: nat)
    requires sector < sectors
    ensures sector * SECTOR + SECTOR <= sectors * SECTOR && (sector + 1) * SECTOR == sector * SECTOR + SECTOR
  {
  }

  lemma OutsideSlice(chip: Chip, after: Chip, r: Region, at: nat, n: nat)
    requires SameOutside(chip, after, r) && at + n <= |chip| && (at + n <= r.offset || r.offset + r.size <= at)
    ensures after[at..at + n] == chip[at..at + n]
  {
  }

  lemma SpliceOutside(chip: Chip, at: nat, data: seq<byte>, r: Region)
    requires at + |data| <= |chip| && r.offset <= at && at + |data| <= r.offset + r.size
    ensures SameOutside(chip, Splice(chip, at, data), r)
  {
  }

  lemma GrewByTwo(log: seq<FlashOp>, r: Region, a: FlashOp, b: FlashOp)
    requires r.offset <= a.at && a.at + Span(a) <= r.offset + r.size
    requires r.offset <= b.at && b.at + Span(b) <= r.offset + r.size
    ensures GrewWithin(log, log + [a] + [b], r)
  {
    assert (log + [a] + [b])[|log|..] == [a, b];
  }
}

/**
 * The update commands and the filter that claims HEX records, on a chip that may lose power at
 * any point (components/firmware_update/firmware_service.c). What is printed is left out.
 */
module FirmwareService {
  import Crc
  import opened Bytes
  import opened FlashLayout
  import opened FlashStorage
  import opened FirmwareReceive
  import opened ImageFormat
  import opened Manifest
  import FirmwareApply
  import Staging
  import UpdateRuns

  const PROGRESS_INTERVAL: nat := 64

  datatype CommandStatus = CommandOk | BadArgument | BadState | BadRange | Failed | Rebooting

  class FirmwareService {
    const flash: Flash
    const layout: Layout
    var receive: Receiver
    var receiving: bool
    var verified: bool
    var verifiedCrc32: nat
    var stagedFromManifest: bool
    var recordsSinceProgress: nat
    /** Every image that has passed verification, in this session or an earlier one. */
    ghost var images: set<seq<byte>>
    /** The image the last install put in place. */
    ghost var installed: Option<seq<byte>>

    /** The part of staging the transfer reached. */
    ghost function StagedImage(): seq<byte>
      reads this, receive, flash, flash.cells
      requires flash.Valid() && Divided(flash.Contents(), layout) && receive.imageSize <= layout.staging.size
    {
      Front(flash.Contents(), layout.staging, receive.imageSize)
    }

    /** What the flags say is so of the chip, whoever wrote it. */
    ghost predicate Coherent()
      reads this, receive, receive.page, receive.parser, flash, flash.cells
    {
      && flash.Valid() && Divided(flash.Contents(), layout)
      && receive.flash == flash && receive.region == layout.staging && receive.Valid()
      && (receiving ==> receive.started && receive.error == ReceiveOk && !receive.complete &&
                        !HasManifest(flash.Contents(), layout))
      && (receive.complete ==> receive.imageSize <= layout.staging.size &&
                               (receive.started ==> receive.error == ReceiveOk))
      && (verified ==> receive.complete && !receiving && Crc.Crc32(StagedImage()) == verifiedCrc32)
    }

    /** ... and every image it believes in has passed verification. */
    ghost predicate Valid()
      reads this, receive, receive.page, receive.parser, flash, flash.cells
    {
      && Coherent() && Honest(flash.Contents(), layout, images)
      && (verified ==> StagedImage() in images)
    }

    /** The service as the machine of whole runs has it. */
    ghost function Abs(): UpdateRuns.World
      reads this, receive, receive.page, receive.parser, flash, flash.cells
      requires Coherent()
    {
      UpdateRuns.World(flash.Contents(), receiving, if receive.complete then Some(receive.imageSize) else None,
                       if verified then Some(StagedImage()) else None, images, installed)
    }

    /**
     * firmware_service_init, on any chip that could be divided up: a manifest is taken up exactly
     * when staging still has its checksum, whatever has happened to either since.
     */
    constructor (flash: Flash, layout: Layout, ghost images: set<seq<byte>>, ghost installed: Option<seq<byte>>)
      requires flash.Valid() && Divided(flash.Contents(), layout)
      ensures Coherent() && fresh(receive) && fresh(receive.page) && fresh(receive.parser)
      ensures this.flash == flash && this.layout == layout && this.images == images && !receiving
      ensures verified <==> Recover(flash.Contents(), layout).Some?
      ensures verified <==> receive.complete
      ensures verified ==> Recover(flash.Contents(), layout) == Some((receive.imageSize, verifiedCrc32))
      ensures Honest(flash.Contents(), layout, images) ==>
                Valid() && (verified <==> HasManifest(flash.Contents(), layout)) &&
                (verified ==> Describes(flash.Contents(), layout, StagedImage()))
      ensures stagedFromManifest == verified
      ensures Abs() == UpdateRuns.Boot(layout, flash.Contents(), images, installed)
    {
      hide HasManifest, Recover, Crc.Crc32, PerformAll, AllFit, Receiver.InStep, Honest, Describes, Valid;
      this.flash, this.layout, this.images, this.installed := flash, layout, images, installed;
      receive := new Receiver.Idle(flash, layout.staging);
      receiving, verified, verifiedCrc32 := false, false, 0;
      stagedFromManifest, recordsSinceProgress := false, 0;
      new;
      RecoverSound(flash.Contents(), layout);
      var found := ManifestMatchesStaging();
      if found.Some? {
        receive.imageSize := found.value.0;
        receive.complete := true;
        verified, verifiedCrc32 := true, found.value.1;
        stagedFromManifest := true;
      }
      TakenUp();
    }

    /** On a chip with an honest manifest, what start-up takes up is an image that was verified. */
    lemma TakenUp()
      requires Coherent() && (verified <==> Recover(flash.Contents(), layout).Some?)
      requires verified ==> Recover(flash.Contents(), layout) == Some((receive.imageSize, verifiedCrc32))
      ensures Honest(flash.Contents(), layout, images) ==>
                Valid() && (verified <==> HasManifest(flash.Contents(), layout)) &&
                (verified ==> Describes(flash.Contents(), layout, StagedImage()))
    {
      hide HasManifest, Recover, Crc.Crc32, ManifestPage, PerformAll, AllFit, Receiver.InStep;
      if Honest(flash.Contents(), layout, images) {
        RecoverIff(flash.Contents(), layout, images);
      }
    }

    /** Since `was` the chip has been sent the first of those operations, and all of them exactly if `all`. */
    ghost predicate Performed(was: seq<FlashOp>, ops: seq<FlashOp>, all: bool)
      reads flash`log
    {
      exists k :: 0 <= k <= |ops| && flash.log == was + ops[..k] && (all <==> k == |ops|)
    }

    /** Everything since `log` kept the manifest honest, wherever the power might have gone. */
    twostate predicate PowerSafe()
      reads this, flash, flash.cells
      requires old(flash.Valid())
    {
      old(flash.log) <= flash.log &&
      HonestThroughout(old(flash.Contents()), flash.log[|old(flash.log)|..], layout, images)
    }

    method ManifestMatchesStaging() returns (found: Option<(nat, nat)>)
      requires flash.Valid() && Divided(flash.Contents(), layout)
      ensures found == Recover(flash.Contents(), layout)
    {
      hide Validate, PayloadSize, PayloadCrc, Crc.Crc32;
      var stored := flash.Data(layout.manifest, 0, HEADER_SIZE);
      if stored == None {
        return None;
      }
      var raw := stored.value;
      assert raw == Header(flash.Contents(), layout);
      if Validate(raw) != ImageOk {
        return None;
      }
      if PayloadSize(raw) > layout.staging.size {
        return None;
      }
      var actual := flash.RegionCrc32(layout.staging, 0, PayloadSize(raw));
      if VerifyPayload(raw, actual) != ImageOk {
        return None;
      }
      return Some((PayloadSize(raw), PayloadCrc(raw)));
    }

    /** Nothing but a hold-off that fails, or code that runs from there, stops an operation on `r`. */
    twostate predicate Free(r: Region)
      reads flash`denials
    {
      flash.denials == old(flash.denials) && !flash.HoldsRunningCode(r)
    }

    lemma AlignedLayout()
      requires flash.Valid() && Divided(flash.Contents(), layout)
      ensures CheckErase(layout.manifest, 0, layout.manifest.size) == LayoutOk
      ensures CheckProgram(layout.manifest, 0, PAGE) == LayoutOk
      ensures layout.staging.offset % SECTOR == 0 && layout.staging.size % SECTOR == 0 && layout.staging.size > 0
    {
      TilesAligned(layout, |flash.Contents()|);
      SectorMultiple(layout.manifest.offset);
      AlignedPage(layout.manifest);
    }

    static lemma AlignedPage(r: Region)
      requires r.size == SECTOR && r.offset % SECTOR == 0 && r.offset % PAGE == 0
      ensures CheckErase(r, 0, SECTOR) == LayoutOk && CheckProgram(r, 0, PAGE) == LayoutOk
    {
    }

    lemma AlignedErase(size: nat)
      requires flash.Valid() && Divided(flash.Contents(), layout) && 0 < size <= layout.staging.size && size % SECTOR == 0
      ensures CheckErase(layout.staging, 0, size) == LayoutOk
    {
      AlignedLayout();
    }

    method ManifestInvalidate() returns (ok: bool)
      requires flash.Valid() && Honest(flash.Contents(), layout, images)
      modifies flash`log, flash`denials, flash.cells
      ensures flash.Valid() && flash.cells == old(flash.cells) && Honest(flash.Contents(), layout, images)
      ensures PowerSafe()
      ensures SameOutside(old(flash.Contents()), flash.Contents(), layout.manifest)
      ensures ok <==> Free(layout.manifest)
      ensures ok ==> FirstPage(flash.Contents(), layout) == Blank(PAGE) && !HasManifest(flash.Contents(), layout)
      ensures flash.log == old(flash.log) + if ok then [EraseOp(layout.manifest.offset, layout.manifest.size)] else []
      ensures !ok ==> flash.Contents() == old(flash.Contents())
    {
      hide Perform, PerformAll, HasManifest, CheckErase;
      AlignedLayout();
      var result := flash.Erase(layout.manifest, 0, layout.manifest.size);
      ok := result == FlashOk;
      EraseManifestHonest(old(flash.Contents()), layout, images);
      NothingHonest(old(flash.Contents()), layout, images);
      assert flash.log[|old(flash.log)|..] == if ok then [EraseOp(layout.manifest.offset, layout.manifest.size)] else [];
    }

    method ProgramManifest(page: seq<byte>, ghost image: seq<byte>) returns (ok: bool)
      requires flash.Valid() && Honest(flash.Contents(), layout, images)
      requires 0 < |image| <= MAX_PAYLOAD && |image| <= layout.staging.size && image in images
      requires FirstPage(flash.Contents(), layout) == Blank(PAGE) && page == ManifestPage(image)
      requires Front(flash.Contents(), layout.staging, |image|) == image
      modifies flash`log, flash`denials, flash.cells
      ensures flash.Valid() && flash.cells == old(flash.cells) && Honest(flash.Contents(), layout, images)
      ensures PowerSafe()
      ensures SameOutside(old(flash.Contents()), flash.Contents(), layout.manifest)
      ensures ok <==> Free(layout.manifest)
      ensures flash.log == old(flash.log) + if ok then [ProgramOp(layout.manifest.offset, page)] else []
      ensures ok ==> Describes(flash.Contents(), layout, image)
    {
      hide Perform, PerformAll, HasManifest, ManifestPage, HonestThroughout, CheckProgram;
      AlignedLayout();
      var result := flash.ProgramVerified(layout.manifest, 0, page);
      ok := result == FlashOk;
      ghost var was, ops := old(flash.Contents()), [ProgramOp(layout.manifest.offset, page)];
      NothingHonest(was, layout, images);
      WriteManifestHonest(was, layout, images, image);
      AfterAll(was, ops, layout, images);
      assert flash.log[|old(flash.log)|..] == ops || flash.log[|old(flash.log)|..] == [];
    }

    method ManifestWrite(size: nat, crc: nat) returns (ok: bool)
      requires flash.Valid() && Honest(flash.Contents(), layout, images) && size <= layout.staging.size
      requires Front(flash.Contents(), layout.staging, size) in images
      requires crc == Crc.Crc32(Front(flash.Contents(), layout.staging, size))
      modifies flash`log, flash`denials, flash.cells
      ensures flash.Valid() && flash.cells == old(flash.cells) && Honest(flash.Contents(), layout, images)
      ensures PowerSafe()
      ensures SameOutside(old(flash.Contents()), flash.Contents(), layout.manifest)
      ensures ok <==> Free(layout.manifest) && 0 < size <= MAX_PAYLOAD
      ensures Performed(old(flash.log), UpdateRuns.VerifyOps(layout, old(Front(flash.Contents(), layout.staging, size))),
                        Free(layout.manifest))
      ensures ok ==> Describes(flash.Contents(), layout, Front(flash.Contents(), layout.staging, size))
    {
      hide Perform, PerformAll, AllFit, HonestThroughout, HasManifest, EncodeHeader, Crc.Crc32;
      ghost var image := Front(flash.Contents(), layout.staging, size);
      ghost var ops := UpdateRuns.VerifyOps(layout, image);
      assert ops[..0] == [] && ops[..1] == [EraseOp(layout.manifest.offset, layout.manifest.size)] && ops[..|ops|] == ops;
      ok := ManifestInvalidate();
      if !ok {
        assert flash.log == old(flash.log) + ops[..0];
        return;
      }
      assert flash.log == old(flash.log) + ops[..1];
      OutsideFront(old(flash.Contents()), flash.Contents(), layout.manifest, layout.staging, size);
      var (made, header) := HeaderInit(size, crc, IMAGE_BASE, crc);
      if made != ImageOk {
        return false;
      }
      ghost var between, was := flash.log, flash.Contents();
      ok := ProgramManifest(header + Blank(PAGE - HEADER_SIZE), image);
      ThroughoutLog(flash.factory, old(flash.log), between, flash.log, layout, images);
      OutsideFront(was, flash.Contents(), layout.manifest, layout.staging, size);
    }

    /** fwbegin: from here on staging is not what any manifest says. */
    method CmdBegin(size: Option<nat>) returns (status: CommandStatus)
      requires Valid() && (size.Some? ==> size.value < WORD_LIMIT)
      modifies this, flash`log, flash`denials, flash.cells
      ensures Valid() && images == old(images) && flash.cells == old(flash.cells)
      ensures PowerSafe() && !verified
      ensures status != CommandOk ==> receive == old(receive) && receiving == old(receiving)
      ensures status in {CommandOk, BadRange, Failed}
      ensures status == BadRange <==> Free(layout.manifest) && size.Some? && (size.value == 0 || size.value > layout.staging.size)
      ensures status == CommandOk <==>
                Free(layout.manifest) && Free(layout.staging) && (size.Some? ==> 1 <= size.value <= layout.staging.size)
      ensures Performed(old(flash.log), UpdateRuns.BeginOps(layout, Cleared(size)), status == CommandOk)
      ensures status == CommandOk ==> fresh(receive) && receiving && !HasManifest(flash.Contents(), layout)
      ensures status == CommandOk ==> receive.placed == [] && receive.fed == [] && receive.baseAddress == IMAGE_BASE
      ensures status == CommandOk ==> ErasedFor(size, receive.start)
      ensures status == CommandOk ==>
                UpdateRuns.Next(layout, old(Abs()), UpdateRuns.Done(UpdateRuns.Begin(Cleared(size))), Abs())
      ensures status != CommandOk ==> UpdateRuns.Commanded(layout, old(Abs()), UpdateRuns.Begin(layout.staging.size), Abs())
    {
      hide PerformAll, HasManifest, HonestThroughout, Receiver.InStep, Crc.Crc32, AllFit, ErasedFor, Performed, Honest, Receiver.Valid,
           FitsStaging;
      receive.Apart();
      ghost var w := Abs();
      SizesThatFit(size);
      verified, stagedFromManifest, recordsSinceProgress := false, false, 0;
      status := ClearStaging(size);
      if status != CommandOk {
        receive.StaysValid();
        NotBegun(w, old(flash.log), size);
        return;
      }
      StartTransfer();
      Begun(w, old(flash.log), size);
    }

    lemma Begun(w: UpdateRuns.World, was: seq<FlashOp>, size: Option<nat>)
      requires Coherent() && Divided(w.chip, layout) && FitsStaging(size) && AllFit(flash.factory, was)
      requires w.chip == PerformAll(flash.factory, was) && Performed(was, UpdateRuns.BeginOps(layout, Cleared(size)), true)
      requires receiving && !receive.complete && !verified && images == w.images && installed == w.installed
      ensures UpdateRuns.Next(layout, w, UpdateRuns.Done(UpdateRuns.Begin(Cleared(size))), Abs())
    {
      hide PerformAll, AllFit, HasManifest, UpdateRuns.BeginOps, RoundUpToSector, Receiver.Valid;
      TilesAligned(layout, |w.chip|);
      RoundedUp(size, layout.staging.size);
      var act := UpdateRuns.Begin(Cleared(size));
      var ops := UpdateRuns.OpsOf(layout, w, act);
      UpdateRuns.Sent(layout, w, act, flash.factory, was, flash.log, |ops|, Abs());
    }

    lemma NotBegun(w: UpdateRuns.World, was: seq<FlashOp>, size: Option<nat>)
      requires Coherent() && Divided(w.chip, layout) && AllFit(flash.factory, was)
      requires w.chip == PerformAll(flash.factory, was) && Performed(was, UpdateRuns.BeginOps(layout, Cleared(size)), false)
      requires Abs() == w.(chip := flash.Contents(), verified := None)
      ensures UpdateRuns.Commanded(layout, w, UpdateRuns.Begin(layout.staging.size), Abs())
    {
      hide PerformAll, AllFit, HasManifest, RoundUpToSector, Receiver.Valid;
      var act := UpdateRuns.Begin(layout.staging.size);
      var ops, mine := UpdateRuns.BeginOps(layout, Cleared(size)), UpdateRuns.BeginOps(layout, layout.staging.size);
      var k :| 0 <= k <= |ops| && flash.log == was + ops[..k] && k != |ops|;
      assert mine[..k] == ops[..k];
      UpdateRuns.Sent(layout, w, act, flash.factory, was, flash.log, k, Abs());
    }

    method StartTransfer()
      requires flash.Valid() && Honest(flash.Contents(), layout, images)
      requires !HasManifest(flash.Contents(), layout) && !verified
      modifies this`receive, this`receiving
      ensures Valid() && fresh(receive) && receiving
      ensures receive.placed == [] && receive.fed == [] && receive.baseAddress == IMAGE_BASE
      ensures receive.start == Front(flash.Contents(), layout.staging, layout.staging.size)
    {
      hide PerformAll, HasManifest, Receiver.InStep, Crc.Crc32, AllFit;
      receive := new Receiver(flash, layout.staging, IMAGE_BASE);
      receiving := true;
    }

    /** How much of staging a size asked for, or none, has cleared. */
    function Cleared(size: Option<nat>): nat
    {
      if size.Some? then RoundUpToSector(size.value) else layout.staging.size
    }

    lemma SizesThatFit(size: Option<nat>)
      ensures FitsStaging(size) <==> (size.Some? ==> 1 <= size.value <= layout.staging.size)
    {
    }

    predicate FitsStaging(size: Option<nat>)
    {
      size.Some? ==> 0 < size.value <= layout.staging.size
    }

    /** As much of staging as was asked for reads erased. */
    ghost predicate ErasedFor(size: Option<nat>, staged: seq<byte>)
    {
      forall o :: 0 <= o < (if size.Some? then size.value else layout.staging.size) ==>
        o < |staged| && staged[o] == ERASED
    }

    lemma ErasedEnough(size: Option<nat>, erased: nat, staged: seq<byte>)
      requires erased <= |staged| && forall o :: 0 <= o < erased ==> staged[o] == ERASED
      requires erased >= if size.Some? then size.value else layout.staging.size
      ensures ErasedFor(size, staged)
    {
    }

    lemma RoundedUp(size: Option<nat>, all: nat)
      requires all % SECTOR == 0
      ensures size.Some? && 0 < size.value <= all ==>
                size.value <= RoundUpToSector(size.value) <= all && RoundUpToSector(size.value) % SECTOR == 0
    {
      if size.Some? && 0 < size.value <= all {
        var sectors := (size.value + SECTOR - 1) / SECTOR;
        assert sectors <= all / SECTOR;
      }
    }

    method ClearStaging(size: Option<nat>) returns (status: CommandStatus)
      requires flash.Valid() && Honest(flash.Contents(), layout, images) && !verified
      modifies flash`log, flash`denials, flash.cells
      ensures flash.Valid() && flash.cells == old(flash.cells) && Honest(flash.Contents(), layout, images)
      ensures HasManifest(flash.Contents(), layout) ==> HasManifest(old(flash.Contents()), layout)
      ensures PowerSafe()
      ensures status in {CommandOk, BadRange, Failed}
      ensures status != CommandOk ==> SameStaging(old(flash.Contents()), flash.Contents(), layout)
      ensures status == BadRange <==> Free(layout.manifest) && !FitsStaging(size)
      ensures status == CommandOk <==> Free(layout.manifest) && Free(layout.staging) && FitsStaging(size)
      ensures status == CommandOk ==> !HasManifest(flash.Contents(), layout)
      ensures Performed(old(flash.log), UpdateRuns.BeginOps(layout, Cleared(size)), status == CommandOk)
      ensures status == CommandOk ==> ErasedFor(size, Front(flash.Contents(), layout.staging, layout.staging.size))
    {
      hide PerformAll, HasManifest, HonestThroughout, AllFit, ErasedFor, RoundUpToSector;
      AlignedLayout();
      RoundedUp(size, layout.staging.size);
      ghost var ops := UpdateRuns.BeginOps(layout, Cleared(size));
      assert ops[..0] == [] && ops[..1] == [EraseOp(layout.manifest.offset, layout.manifest.size)] && ops[..2] == ops;
      var cleared := ManifestInvalidate();
      if !cleared {
        assert flash.log == old(flash.log) + ops[..0];
        return Failed;
      }
      assert flash.log == old(flash.log) + ops[..1];
      OutsideFront(old(flash.Contents()), flash.Contents(), layout.manifest, layout.staging, layout.staging.size);
      var eraseSize := layout.staging.size;
      if size.Some? {
        if size.value == 0 || size.value > layout.staging.size {
          return BadRange;
        }
        eraseSize := RoundUpToSector(size.value);
      }
      ghost var between := flash.log;
      var erased := EraseStaging(eraseSize);
      ThroughoutLog(flash.factory, old(flash.log), between, flash.log, layout, images);
      if !erased {
        return Failed;
      }
      BlankFront(flash.Contents(), layout.staging, eraseSize);
      ErasedEnough(size, eraseSize, Front(flash.Contents(), layout.staging, layout.staging.size));
      return CommandOk;
    }

    method EraseStaging(size: nat) returns (ok: bool)
      requires flash.Valid() && Honest(flash.Contents(), layout, images) && !HasManifest(flash.Contents(), layout)
      requires 0 < size <= layout.staging.size && size % SECTOR == 0
      modifies flash`log, flash`denials, flash.cells
      ensures flash.Valid() && flash.cells == old(flash.cells) && Honest(flash.Contents(), layout, images)
      ensures !HasManifest(flash.Contents(), layout)
      ensures PowerSafe()
      ensures !ok ==> flash.Contents() == old(flash.Contents())
      ensures ok <==> Free(layout.staging)
      ensures flash.log == old(flash.log) + if ok then [EraseOp(layout.staging.offset, size)] else []
      ensures ok ==> Front(flash.Contents(), layout.staging, size) == Blank(size)
    {
      hide PerformAll, HasManifest, HonestThroughout, CheckErase;
      AlignedErase(size);
      var result := flash.Erase(layout.staging, 0, size);
      ok := result == FlashOk;
      ghost var was, ops := old(flash.Contents()), Flash.EraseOps(layout.staging, 0, size);
      NothingHonest(was, layout, images);
      if ok {
        ElsewhereHonest(was, ops, layout.staging, layout, images);
        AfterAll(was, ops, layout, images);
        PerformOne(was, EraseOp(layout.staging.offset, size));
      }
      assert flash.log[|old(flash.log)|..] == if ok then ops else [];
    }

    ghost function OutcomeOf(result: ReceiveResult): UpdateRuns.Outcome
      reads this, receive
    {
      if result == ReceiveOk then UpdateRuns.More
      else if result == ReceiveComplete then UpdateRuns.Complete(receive.imageSize)
      else UpdateRuns.Spoilt
    }

    /** Claim every line that starts a HEX record, and take it into the transfer if there is one. */
    method LineFilter(line: string) returns (claimed: bool, result: Option<ReceiveResult>)
      requires Valid()
      modifies this`receiving, this`recordsSinceProgress,
               receive`pageOffset, receive`pageDirty, receive`records, receive`bytes, receive`imageSize,
               receive`pagesWritten, receive`complete, receive`error, receive`from, receive`placed,
               receive`fed, receive.page, receive.parser, flash`log, flash`denials, flash.cells
      ensures Valid() && flash.cells == old(flash.cells)
      ensures PowerSafe() && GrewWithin(old(flash.log), flash.log, layout.staging)
      ensures claimed <==> |line| > 0 && line[0] == ':'
      ensures result.Some? <==> claimed && old(receiving)
      ensures result == None ==> receiving == old(receiving) && flash.log == old(flash.log)
      ensures result.Some? ==> receive.LineTaken(old(receive.Where()), line, result.value)
      ensures result.Some? ==>
                && (receiving <==> result.value == ReceiveOk)
                && (receive.complete <==> result.value == ReceiveComplete)
                && (result.value == ReceiveOk || result.value == ReceiveComplete ==> receive.fed == old(receive.fed) + [line])
      ensures result == None ==> Abs() == old(Abs())
      ensures result.Some? ==>
                UpdateRuns.Next(layout, old(Abs()),
                                UpdateRuns.Done(UpdateRuns.Receive(flash.log[|old(flash.log)|..], OutcomeOf(result.value))), Abs())
    {
      hide PerformAll, HasManifest, HonestThroughout, Staging.Tracks, Transfer, Session, Staging.Extent, Crc.Crc32,
           AllFit, GrewWithin, LineSpec, Receiver.InStep, Receiver.Pageable, Take, Receiver.LineTaken, Honest, Staging.AllLand,
           UpdateRuns.Next;
      GrewNone(flash.log, layout.staging);
      NothingHonest(flash.Contents(), layout, images);
      assert flash.log[|old(flash.log)|..] == [];
      claimed, result := |line| > 0 && line[0] == ':', None;
      if !claimed {
        return;
      }
      if !receiving {
        return;
      }
      var taken := receive.Line(line);
      result := Some(taken);
      GrownHonest(flash.factory, old(flash.log), flash.log, layout.staging, layout, images);
      if taken == ReceiveOk {
        recordsSinceProgress := recordsSinceProgress + 1;
        if recordsSinceProgress >= PROGRESS_INTERVAL {
          recordsSinceProgress := 0;
        }
      } else {
        receiving := false;
        if taken == ReceiveComplete {
          CompleteMeansStaged(receive);
        }
      }
      LineStep(old(Abs()), old(flash.log), taken);
    }

    lemma LineStep(w: UpdateRuns.World, was: seq<FlashOp>, taken: ReceiveResult)
      requires Coherent() && Divided(w.chip, layout) && AllFit(flash.factory, was) && GrewWithin(was, flash.log, layout.staging)
      requires w.chip == PerformAll(flash.factory, was) && w.receiving && w.verified == None && !verified
      requires receiving <==> taken == ReceiveOk
      requires receive.complete <==> taken == ReceiveComplete
      requires images == w.images && installed == w.installed
      ensures UpdateRuns.Next(layout, w, UpdateRuns.Done(UpdateRuns.Receive(flash.log[|was|..], OutcomeOf(taken))), Abs())
    {
      hide PerformAll, AllFit, HasManifest, Receiver.Valid;
      var pages := flash.log[|was|..];
      LogGrown(flash.factory, was, flash.log);
      var act := UpdateRuns.Receive(pages, OutcomeOf(taken));
      assert pages[..|pages|] == pages;
      UpdateRuns.Sent(layout, w, act, flash.factory, was, flash.log, |pages|, Abs());
    }

    /** fwverify: what flash holds is checksummed, not what was sent. */
    method CmdVerify(expected: Option<nat>) returns (status: CommandStatus)
      requires Valid()
      modifies this`verified, this`verifiedCrc32, this`images, flash`log, flash`denials, flash.cells
      ensures Valid() && flash.cells == old(flash.cells)
      ensures PowerSafe() && SameStaging(old(flash.Contents()), flash.Contents(), layout)
      ensures status == CommandOk <==>
                expected.Some? && receive.complete && Crc.Crc32(old(StagedImage())) == expected.value
      ensures status == BadArgument <==> expected.None?
      ensures status == BadState <==> expected.Some? && !receive.complete
      ensures status in {CommandOk, BadArgument, BadState, Failed}
      ensures status == CommandOk ==> verified && images == old(images) + {StagedImage()}
      ensures status == CommandOk ==>
                Performed(old(flash.log), UpdateRuns.VerifyOps(layout, old(StagedImage())), Free(layout.manifest))
      ensures status == CommandOk && Free(layout.manifest) && 0 < receive.imageSize <= MAX_PAYLOAD ==>
                Describes(flash.Contents(), layout, StagedImage())
      ensures status != CommandOk ==> images == old(images) && flash.log == old(flash.log)
      ensures status == Failed ==> !verified
      ensures status == BadArgument || status == BadState ==> verified == old(verified)
      ensures status == CommandOk ==> UpdateRuns.Commanded(layout, old(Abs()), UpdateRuns.Verify(receive.imageSize), Abs())
      ensures status == Failed ==> UpdateRuns.Next(layout, old(Abs()), UpdateRuns.Mismatch, Abs())
      ensures status == BadArgument || status == BadState ==> Abs() == old(Abs())
    {
      hide PerformAll, HasManifest, HonestThroughout, Crc.Crc32, AllFit, Receiver.InStep;
      NothingHonest(flash.Contents(), layout, images);
      assert flash.log[|old(flash.log)|..] == [];
      if expected == None {
        return BadArgument;
      }
      if !receive.complete {
        return BadState;
      }
      var size := receive.imageSize;
      var actual := flash.RegionCrc32(layout.staging, 0, size);
      assert flash.Contents()[layout.staging.offset + 0..layout.staging.offset + 0 + size] == StagedImage();
      if actual != expected.value {
        verified := false;
        return Failed;
      }
      ghost var w := Abs();
      Accept(actual);
      VerifyStep(w, old(flash.log));
      return CommandOk;
    }

    lemma VerifyStep(w: UpdateRuns.World, was: seq<FlashOp>)
      requires Coherent() && Divided(w.chip, layout) && AllFit(flash.factory, was) && w.chip == PerformAll(flash.factory, was)
      requires receive.complete && verified && w.complete == Some(receive.imageSize) && receiving == w.receiving
      requires Front(w.chip, layout.staging, receive.imageSize) == StagedImage()
      requires images == w.images + {StagedImage()} && installed == w.installed
      requires exists all :: Performed(was, UpdateRuns.VerifyOps(layout, StagedImage()), all)
      ensures UpdateRuns.Commanded(layout, w, UpdateRuns.Verify(receive.imageSize), Abs())
    {
      hide PerformAll, AllFit, HasManifest, Receiver.Valid, ManifestPage, UpdateRuns.VerifyOps, Crc.Crc32;
      var act := UpdateRuns.Verify(receive.imageSize);
      var ops := UpdateRuns.OpsOf(layout, w, act);
      var k :| 0 <= k <= |ops| && flash.log == was + ops[..k];
      UpdateRuns.Sent(layout, w, act, flash.factory, was, flash.log, k, Abs());
    }

    /** What has passed is remembered here, and if the chip allows it there. */
    method Accept(actual: nat)
      requires Valid() && receive.complete && actual == Crc.Crc32(StagedImage())
      modifies this`verified, this`verifiedCrc32, this`images, flash`log, flash`denials, flash.cells
      ensures Valid() && flash.cells == old(flash.cells) && verified
      ensures PowerSafe() && SameStaging(old(flash.Contents()), flash.Contents(), layout)
      ensures StagedImage() == old(StagedImage()) && images == old(images) + {StagedImage()}
      ensures Free(layout.manifest) && 0 < receive.imageSize <= MAX_PAYLOAD ==> Describes(flash.Contents(), layout, StagedImage())
      ensures Performed(old(flash.log), UpdateRuns.VerifyOps(layout, StagedImage()), Free(layout.manifest))
    {
      hide PerformAll, HasManifest, HonestThroughout, Crc.Crc32, AllFit, Receiver.InStep, Describes, Performed;
      ghost var image := StagedImage();
      var size := receive.imageSize;
      NotReceiving();
      MoreVerified(flash.Contents(), layout, images, image);
      images := images + {image};
      verified := true;
      verifiedCrc32 := actual;
      RecordVerified(size, actual);
      receive.StaysValid();
      FrontOfFront(old(flash.Contents()), layout.staging, size);
      FrontOfFront(flash.Contents(), layout.staging, size);
      assert StagedImage() == image;
    }

    lemma NotReceiving()
      requires Valid() && receive.complete
      ensures !receiving
    {
    }

    /** A manifest that cannot be written costs a later session a new verification, and no more. */
    method RecordVerified(size: nat, crc: nat)
      requires flash.Valid() && Honest(flash.Contents(), layout, images) && size <= layout.staging.size
      requires Front(flash.Contents(), layout.staging, size) in images
      requires crc == Crc.Crc32(Front(flash.Contents(), layout.staging, size))
      modifies flash`log, flash`denials, flash.cells
      ensures flash.Valid() && flash.cells == old(flash.cells) && Honest(flash.Contents(), layout, images)
      ensures PowerSafe()
      ensures SameStaging(old(flash.Contents()), flash.Contents(), layout)
      ensures Free(layout.manifest) && 0 < size <= MAX_PAYLOAD ==>
                Describes(flash.Contents(), layout, Front(flash.Contents(), layout.staging, size))
      ensures Performed(old(flash.log), UpdateRuns.VerifyOps(layout, old(Front(flash.Contents(), layout.staging, size))),
                        Free(layout.manifest))
    {
      hide PerformAll, HasManifest, HonestThroughout, Crc.Crc32, AllFit, Describes, Performed;
      var recorded := ManifestWrite(size, crc);
      OutsideFront(old(flash.Contents()), flash.Contents(), layout.manifest, layout.staging, layout.staging.size);
    }

    /** fwapply: the verified image over the running one, or nothing at all. */
    method CmdApply() returns (status: CommandStatus)
      requires Valid()
      modifies this`installed, flash`log, flash`denials, flash.cells
      ensures Valid() && flash.cells == old(flash.cells)
      ensures PowerSafe() && GrewWithin(old(flash.log), flash.log, layout.application)
      ensures SameOutside(old(flash.Contents()), flash.Contents(), layout.application)
      ensures status == BadState <==> !verified
      ensures status == BadRange <==> verified && (receive.imageSize == 0 || receive.imageSize > layout.application.size)
      ensures status == Rebooting || status == BadState || status == BadRange
      ensures status != Rebooting ==> flash.log == old(flash.log)
      ensures status == Rebooting ==>
                Front(flash.Contents(), layout.application, receive.imageSize) == StagedImage() &&
                StagedImage() == old(StagedImage()) && StagedImage() in images
      ensures status == Rebooting ==>
                UpdateRuns.Next(layout, old(Abs()), UpdateRuns.Done(UpdateRuns.Install(flash.log[|old(flash.log)|..])), Abs())
      ensures status != Rebooting ==> Abs() == old(Abs())
    {
      hide PerformAll, HasManifest, HonestThroughout, Crc.Crc32, AllFit, Receiver.InStep, GrewWithin;
      NothingHonest(flash.Contents(), layout, images);
      GrewNone(flash.log, layout.application);
      assert flash.log[|old(flash.log)|..] == [];
      if !verified {
        return BadState;
      }
      var size := receive.imageSize;
      if size == 0 || size > layout.application.size {
        return BadRange;
      }
      ghost var w := Abs();
      Install(size);
      installed := Some(StagedImage());
      InstallStep(w, old(flash.log));
      return Rebooting;
    }

    lemma InstallStep(w: UpdateRuns.World, was: seq<FlashOp>)
      requires Coherent() && Divided(w.chip, layout) && AllFit(flash.factory, was) && GrewWithin(was, flash.log, layout.application)
      requires w.chip == PerformAll(flash.factory, was)
      requires verified && 0 < receive.imageSize <= layout.application.size
      requires Front(flash.Contents(), layout.application, receive.imageSize) == StagedImage()
      requires Abs() == w.(chip := flash.Contents(), installed := Some(StagedImage()))
      ensures UpdateRuns.Next(layout, w, UpdateRuns.Done(UpdateRuns.Install(flash.log[|was|..])), Abs())
    {
      hide PerformAll, AllFit, HasManifest, Receiver.Valid, Crc.Crc32;
      var sectors := flash.log[|was|..];
      LogGrown(flash.factory, was, flash.log);
      assert sectors[..|sectors|] == sectors;
      UpdateRuns.Sent(layout, w, UpdateRuns.Install(sectors), flash.factory, was, flash.log, |sectors|, Abs());
    }

    method Install(size: nat)
      requires Valid() && receive.complete && 0 < size == receive.imageSize <= layout.application.size
      modifies flash`log, flash.cells
      ensures Valid() && flash.cells == old(flash.cells)
      ensures PowerSafe() && GrewWithin(old(flash.log), flash.log, layout.application)
      ensures SameOutside(old(flash.Contents()), flash.Contents(), layout.application)
      ensures Front(flash.Contents(), layout.application, size) == StagedImage() == old(StagedImage())
    {
      hide PerformAll, HasManifest, HonestThroughout, Crc.Crc32, AllFit, Receiver.InStep, GrewWithin, SameOutside, Describes, Honest,
           Receiver.Valid;
      receive.Apart();
      FirmwareApply.Apply(flash, layout.staging, layout.application, size);
      ghost var was, now := old(flash.Contents()), flash.Contents();
      GrownHonest(flash.factory, old(flash.log), flash.log, layout.application, layout, images);
      OutsideFront(was, now, layout.application, layout.staging, layout.staging.size);
      OutsideFront(was, now, layout.application, layout.staging, size);
      receive.StaysValid();
      FrontsAgree(was, now, layout.staging, layout.application, size, RoundUpToSector(size));
    }
  }

  /**
   * A transfer begun with room for its image stages exactly what its lines ask for, so what
   * verification checksums and what an install copies is the image itself.
   */
  lemma CompleteTransferIsTheImage(service: FirmwareService, size: Option<nat>)
    requires service.Valid() && service.receive.started && service.receive.complete
    requires service.ErasedFor(size, service.receive.start)
    requires size.Some? ==> service.receive.imageSize <= size.value
    ensures Transfer(service.receive.fed, service.receive.baseAddress, service.layout.staging.size).Some?
    ensures service.StagedImage() ==
              Staging.ImageOf(Transfer(service.receive.fed, service.receive.baseAddress, service.layout.staging.size).value.1)
  {
    hide HasManifest, Transfer, Staging.Tracks, Crc.Crc32, Staging.ImageOf, Staging.Extent;
    CompleteMeansStaged(service.receive);
    FrontOfFront(service.flash.Contents(), service.layout.staging, service.receive.imageSize);
  }

  /**
   * A valid service is a safe state of the machine of whole runs, so by that machine's theorem every
   * command, refused or not, leaves one, and so does power lost at any point of it.
   */
  lemma ServiceIsSafe(service: FirmwareService)
    requires service.Valid()
    requires service.installed.Some? ==>
               UpdateRuns.Holds(service.flash.Contents(), service.layout.application, service.installed.value, service.images)
    ensures UpdateRuns.Inv(service.layout, service.Abs())
  {
    hide HasManifest, Crc.Crc32, PerformAll, AllFit, Receiver.Valid, Honest;
  }
}
