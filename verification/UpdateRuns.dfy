/**
 * Whole runs of update commands, refusals, power cuts and reboots over one chip
 * (components/firmware_update/firmware_service.c): whatever start-up takes up, and whatever has
 * been installed to the end, is an image that passed verification.
 */
module UpdateRuns {
  import Crc
  import opened Bytes
  import opened FlashLayout
  import opened FlashStorage
  import opened ImageFormat
  import opened Manifest

  /** Where a line leaves a transfer: with more to come, at its end, or spoilt for good. */
  datatype Outcome = More | Complete(size: nat) | Spoilt

  /** What a command asks of the chip. */
  datatype Act =
    | Begin(size: nat)                                  // fwbegin, clearing `size` bytes of staging
    | Receive(pages: seq<FlashOp>, outcome: Outcome)    // a line of a transfer
    | Verify(size: nat)                                 // fwverify, the checksum having agreed
    | Install(sectors: seq<FlashOp>)                    // fwapply

  datatype Event =
    | Done(act: Act)
    | Refused(act: Act, done: nat)    // the flash layer declined after `done` operations
    | Cut(act: Act, after: Chip)      // the power went during the command, and came back
    | Mismatch                        // fwverify, the checksum having differed
    | Reboot

  /**
   * `complete` is the size of the image a transfer has brought, or start-up found; `verified` is
   * the image that has passed verification in this session, and `images` all that ever have;
   * `installed` is what the last install to reach its end put in place.
   */
  datatype World = World(chip: Chip, receiving: bool, complete: Option<nat>, verified: Option<seq<byte>>,
                         images: set<seq<byte>>, installed: Option<seq<byte>>)

  function BeginOps(l: Layout, size: nat): seq<FlashOp>
  {
    [EraseOp(l.manifest.offset, l.manifest.size)] + [EraseOp(l.staging.offset, size)]
  }

  function VerifyOps(l: Layout, image: seq<byte>): seq<FlashOp>
  {
    [EraseOp(l.manifest.offset, l.manifest.size)] +
    if 0 < |image| <= MAX_PAYLOAD then [ProgramOp(l.manifest.offset, ManifestPage(image))] else []
  }

  function OpsOf(l: Layout, w: World, act: Act): seq<FlashOp>
    requires Divided(w.chip, l)
  {
    match act
    case Begin(size) => BeginOps(l, size)
    case Receive(pages, _) => pages
    case Verify(size) => if size <= l.staging.size then VerifyOps(l, Front(w.chip, l.staging, size)) else []
    case Install(sectors) => sectors
  }

  /** Whether the command gets as far as the chip. */
  ghost predicate Allowed(l: Layout, w: World, act: Act)
    requires Divided(w.chip, l)
  {
    match act
    case Begin(size) => 0 < size <= l.staging.size
    case Receive(pages, outcome) =>
      && w.receiving && AllFit(w.chip, pages) && OpsWithin(pages, l.staging)
      && (outcome.Complete? ==> outcome.size <= l.staging.size)
    case Verify(size) => w.complete == Some(size) && size <= l.staging.size
    case Install(sectors) =>
      && w.verified.Some? && 0 < |w.verified.value| <= l.application.size
      && AllFit(w.chip, sectors) && OpsWithin(sectors, l.application)
      && Front(PerformAll(w.chip, sectors), l.application, |w.verified.value|) == w.verified.value
  }

  /** Images known to have passed once the command has been taken. */
  function Passed(l: Layout, w: World, act: Act): set<seq<byte>>
    requires Divided(w.chip, l)
  {
    match act
    case Verify(size) => if size <= l.staging.size then w.images + {Front(w.chip, l.staging, size)} else w.images
    case _ => w.images
  }

  /** What is known in RAM once the command has done all it could of what it set out to do. */
  function Known(l: Layout, w: World, act: Act, done: bool): (bool, Option<nat>, Option<seq<byte>>)
    requires Divided(w.chip, l)
  {
    match act
    case Begin(_) => if done then (true, None, None) else (w.receiving, w.complete, None)
    case Receive(_, outcome) =>
      (done && outcome.More?, if done && outcome.Complete? then Some(outcome.size) else None, w.verified)
    case Verify(size) =>
      (w.receiving, w.complete, if size <= l.staging.size then Some(Front(w.chip, l.staging, size)) else None)
    case Install(_) => (w.receiving, w.complete, w.verified)
  }

  /** An install that has begun leaves what was there before in pieces until it is done. */
  function InPlace(w: World, act: Act, done: bool): Option<seq<byte>>
  {
    if !act.Install? then w.installed else if done then w.verified else None
  }

  /** Once the command has left the chip as `chip`, the power on throughout. */
  function After(l: Layout, w: World, act: Act, done: bool, chip: Chip): World
    requires Divided(w.chip, l)
  {
    var (receiving, complete, verified) := Known(l, w, act, done);
    World(chip, receiving, complete, verified, Passed(l, w, act), InPlace(w, act, done))
  }

  function Boot(l: Layout, chip: Chip, images: set<seq<byte>>, installed: Option<seq<byte>>): World
    requires Divided(chip, l)
  {
    RecoverSound(chip, l);
    match Recover(chip, l)
    case None => World(chip, false, None, None, images, installed)
    case Some((size, _)) => World(chip, false, Some(size), Some(Front(chip, l.staging, size)), images, installed)
  }

  ghost predicate Next(l: Layout, w: World, e: Event, w': World)
  {
    Divided(w.chip, l) &&
    match e
    case Done(act) =>
      && Allowed(l, w, act) && AllFit(w.chip, OpsOf(l, w, act))
      && w' == After(l, w, act, true, PerformAll(w.chip, OpsOf(l, w, act)))
    case Refused(act, done) =>
      && Allowed(l, w, act) && AllFit(w.chip, OpsOf(l, w, act)) && done < |OpsOf(l, w, act)|
      && w' == After(l, w, act, false, PerformAll(w.chip, OpsOf(l, w, act)[..done]))
    case Cut(act, after) =>
      && Allowed(l, w, act) && AllFit(w.chip, OpsOf(l, w, act)) && CutWithin(w.chip, OpsOf(l, w, act), after)
      && |after| == |w.chip| && w' == Boot(l, after, Passed(l, w, act), InPlace(w, act, false))
    case Mismatch => w.complete.Some? && w' == w.(verified := None)
    case Reboot => w' == Boot(l, w.chip, w.images, w.installed)
  }

  /** What a command can leave, done or refused, with the power on throughout. */
  ghost predicate Commanded(l: Layout, w: World, act: Act, w': World)
  {
    Next(l, w, Done(act), w') || exists k :: Next(l, w, Refused(act, k), w')
  }

  /** The operations of a command, or the first few of them, sent to the chip: a step of the machine. */
  lemma Sent(l: Layout, w: World, act: Act, factory: Chip, was: seq<FlashOp>, now: seq<FlashOp>, k: nat, w': World)
    requires Divided(w.chip, l) && Allowed(l, w, act) && AllFit(factory, was) && AllFit(factory, now)
    requires w.chip == PerformAll(factory, was) && k <= |OpsOf(l, w, act)| && now == was + OpsOf(l, w, act)[..k]
    requires w' == After(l, w, act, k == |OpsOf(l, w, act)|, PerformAll(factory, now))
    ensures k == |OpsOf(l, w, act)| ==> Next(l, w, Done(act), w')
    ensures k < |OpsOf(l, w, act)| ==> Next(l, w, Refused(act, k), w')
  {
    hide PerformAll, OpsOf, Allowed, After, Passed, Known, InPlace, AllFit;
    AllowedFits(l, w, act);
    LogGrown(factory, was, now);
    assert now[|was|..] == OpsOf(l, w, act)[..k];
    assert OpsOf(l, w, act)[..|OpsOf(l, w, act)|] == OpsOf(l, w, act);
  }

  lemma AllowedFits(l: Layout, w: World, act: Act)
    requires Divided(w.chip, l) && Allowed(l, w, act)
    ensures AllFit(w.chip, OpsOf(l, w, act))
  {
    hide PerformAll, ManifestPage;
  }

  /** An image that passed verification, and there it is. */
  predicate Holds(chip: Chip, r: Region, image: seq<byte>, images: set<seq<byte>>)
  {
    image in images && |image| <= r.size && r.offset + |image| <= |chip| && Front(chip, r, |image|) == image
  }

  ghost predicate Inv(l: Layout, w: World)
  {
    && Divided(w.chip, l) && Honest(w.chip, l, w.images)
    && (w.receiving ==> w.complete == None && !HasManifest(w.chip, l))
    && (w.complete.Some? ==> w.complete.value <= l.staging.size)
    && (w.verified.Some? ==> w.complete == Some(|w.verified.value|) &&
                             Holds(w.chip, l.staging, w.verified.value, w.images))
    && (w.installed.Some? ==> Holds(w.chip, l.application, w.installed.value, w.images))
  }

  // ---- what a command can leave of the chip ---------------------------------------------------

  /** All of staging and the manifest behind it. */
  function Behind(l: Layout): Region
  {
    Region(l.staging.offset, l.staging.size + l.manifest.size)
  }

  lemma PrefixIsCut(chip: Chip, ops: seq<FlashOp>, k: nat)
    requires AllFit(chip, ops) && k <= |ops|
    ensures AllFit(chip, ops[..k]) && CutWithin(chip, ops, PerformAll(chip, ops[..k]))
  {
    hide Perform, PerformAll, CutDuring;
    if k == |ops| {
      assert ops[..k] == ops;
    } else {
      NothingDone(PerformAll(chip, ops[..k]), ops[k]);
      assert CutAt(chip, ops, k, PerformAll(chip, ops[..k]));
    }
  }

  /** Clearing up for a transfer: from the manifest's going on, there is none. */
  lemma BeginHonest(l: Layout, chip: Chip, images: set<seq<byte>>, size: nat)
    requires Honest(chip, l, images) && size <= l.staging.size
    ensures HonestThroughout(chip, BeginOps(l, size), l, images)
    ensures !HasManifest(PerformAll(chip, BeginOps(l, size)), l)
  {
    hide PerformAll, HonestThroughout, HasManifest, Perform, AllFit;
    var a, b := [EraseOp(l.manifest.offset, l.manifest.size)], [EraseOp(l.staging.offset, size)];
    EraseManifestHonest(chip, l, images);
    AfterAll(chip, a, l, images);
    var middle := PerformAll(chip, a);
    OneFits(middle, b[0]);
    ElsewhereHonest(middle, b, l.staging, l, images);
    ThroughoutBoth(chip, a, b, l, images);
  }

  lemma OneFits(chip: Chip, op: FlashOp)
    requires Fits(chip, op)
    ensures AllFit(chip, [op])
  {
  }

  /** Writing a new manifest: the old one whole, then none, then the new one whole. */
  lemma VerifyHonest(l: Layout, chip: Chip, images: set<seq<byte>>, size: nat)
    requires Honest(chip, l, images) && size <= l.staging.size && Front(chip, l.staging, size) in images
    ensures HonestThroughout(chip, VerifyOps(l, Front(chip, l.staging, size)), l, images)
  {
    hide PerformAll, HonestThroughout, HasManifest, Perform, AllFit, ManifestPage;
    var image, a := Front(chip, l.staging, size), [EraseOp(l.manifest.offset, l.manifest.size)];
    EraseManifestHonest(chip, l, images);
    AfterAll(chip, a, l, images);
    if 0 < size <= MAX_PAYLOAD {
      var middle, b := PerformAll(chip, a), [ProgramOp(l.manifest.offset, ManifestPage(image))];
      OutsideFront(chip, middle, l.manifest, l.staging, size);
      WriteManifestHonest(middle, l, images, image);
      ThroughoutBoth(chip, a, b, l, images);
    } else {
      assert a + [] == a;
    }
  }

  /** Every command keeps the manifest honest wherever it is stopped. */
  lemma ActHonest(l: Layout, w: World, act: Act)
    requires Inv(l, w) && Allowed(l, w, act)
    ensures HonestThroughout(w.chip, OpsOf(l, w, act), l, Passed(l, w, act))
    ensures w.images <= Passed(l, w, act)
  {
    hide PerformAll, HonestThroughout, HasManifest, AllFit, BeginOps, VerifyOps, Holds;
    match act
    case Begin(size) => BeginHonest(l, w.chip, w.images, size);
    case Receive(pages, _) => ElsewhereHonest(w.chip, pages, l.staging, l, w.images);
    case Verify(size) =>
      MoreVerified(w.chip, l, w.images, Front(w.chip, l.staging, size));
      VerifyHonest(l, w.chip, Passed(l, w, act), size);
    case Install(sectors) => ElsewhereHonest(w.chip, sectors, l.application, l, w.images);
  }

  /** Where a command can reach: the application if it installs, staging and the manifest if not. */
  lemma ActWithin(l: Layout, w: World, act: Act)
    requires Divided(w.chip, l) && Allowed(l, w, act)
    ensures OpsWithin(OpsOf(l, w, act), if act.Install? then l.application else Behind(l))
    ensures act.Verify? ==> OpsWithin(OpsOf(l, w, act), l.manifest)
  {
    hide PerformAll, AllFit, ManifestPage;
  }

  /** Wherever a command is stopped, the other half of the chip still holds what it held. */
  lemma HoldsOn(l: Layout, w: World, act: Act, after: Chip)
    requires Inv(l, w) && Allowed(l, w, act) && AllFit(w.chip, OpsOf(l, w, act))
    requires CutWithin(w.chip, OpsOf(l, w, act), after)
    ensures |after| == |w.chip| && Divided(after, l)
    ensures !act.Install? && w.installed.Some? ==> Holds(after, l.application, w.installed.value, Passed(l, w, act))
    ensures act.Install? || act.Verify? ==>
              forall n: nat :: n <= l.staging.size ==> Front(after, l.staging, n) == Front(w.chip, l.staging, n)
  {
    hide PerformAll, CutWithin, HasManifest, OpsOf, AllFit, Honest, OpsWithin;
    ActWithin(l, w, act);
    ActHonest(l, w, act);
    var r := if act.Install? then l.application else Behind(l);
    CutOutside(w.chip, OpsOf(l, w, act), r, after);
    StillDivided(l, w.chip, after, r);
    if act.Verify? {
      CutOutside(w.chip, OpsOf(l, w, act), l.manifest, after);
    }
    if !act.Install? && w.installed.Some? {
      OutsideFront(w.chip, after, r, l.application, |w.installed.value|);
    }
    if act.Install? || act.Verify? {
      forall n: nat | n <= l.staging.size ensures Front(after, l.staging, n) == Front(w.chip, l.staging, n) {
        OutsideFront(w.chip, after, if act.Install? then r else l.manifest, l.staging, n);
      }
    }
  }

  lemma StillDivided(l: Layout, chip: Chip, after: Chip, r: Region)
    requires Divided(chip, l) && SameOutside(chip, after, r)
    ensures |after| == |chip| && Divided(after, l)
  {
  }

  /** What start-up takes up from an honest chip has passed verification and lies in staging. */
  lemma BootInv(l: Layout, chip: Chip, images: set<seq<byte>>, installed: Option<seq<byte>>)
    requires Honest(chip, l, images)
    requires installed.Some? ==> Holds(chip, l.application, installed.value, images)
    ensures Inv(l, Boot(l, chip, images, installed)) && Boot(l, chip, images, installed).images == images
  {
    hide HasManifest, Recover, Crc.Crc32, ManifestPage;
    RecoverSound(chip, l);
    RecoverIff(chip, l, images);
  }

  /** Every event, refusals and power cuts among them, keeps the invariant. */
  lemma StepKeepsInv(l: Layout, w: World, e: Event, w': World)
    requires Inv(l, w) && Next(l, w, e, w')
    ensures Inv(l, w') && w.images <= w'.images
  {
    hide PerformAll, CutWithin, HasManifest, Honest, HonestThroughout, Boot, Holds, OpsOf, AllFit, Passed;
    match e
    case Reboot => BootInv(l, w.chip, w.images, w.installed);
    case Mismatch =>
    case Cut(act, after) =>
      ActHonest(l, w, act);
      HoldsOn(l, w, act, after);
      HonestAt(w.chip, OpsOf(l, w, act), l, Passed(l, w, act), after);
      BootInv(l, after, Passed(l, w, act), InPlace(w, act, false));
    case Refused(act, done) =>
      PrefixIsCut(w.chip, OpsOf(l, w, act), done);
      StoppedKeepsInv(l, w, act, done, false, w');
    case Done(act) =>
      PrefixIsCut(w.chip, OpsOf(l, w, act), |OpsOf(l, w, act)|);
      assert OpsOf(l, w, act)[..|OpsOf(l, w, act)|] == OpsOf(l, w, act);
      StoppedKeepsInv(l, w, act, |OpsOf(l, w, act)|, true, w');
  }

  lemma CommandedKeepsInv(l: Layout, w: World, act: Act, w': World)
    requires Inv(l, w) && Commanded(l, w, act, w')
    ensures Inv(l, w') && w.images <= w'.images
  {
    hide Inv, Next;
    if Next(l, w, Done(act), w') {
      StepKeepsInv(l, w, Done(act), w');
    } else {
      var k :| Next(l, w, Refused(act, k), w');
      StepKeepsInv(l, w, Refused(act, k), w');
    }
  }

  lemma HonestAt(chip: Chip, ops: seq<FlashOp>, l: Layout, images: set<seq<byte>>, after: Chip)
    requires HonestThroughout(chip, ops, l, images) && CutWithin(chip, ops, after)
    ensures Honest(after, l, images)
  {
  }

  /** Stopped after any number of its operations, with the power on throughout. */
  lemma StoppedKeepsInv(l: Layout, w: World, act: Act, k: nat, done: bool, w': World)
    requires Inv(l, w) && Allowed(l, w, act) && AllFit(w.chip, OpsOf(l, w, act))
    requires k <= |OpsOf(l, w, act)| && (done ==> k == |OpsOf(l, w, act)|) && AllFit(w.chip, OpsOf(l, w, act)[..k])
    requires w' == After(l, w, act, done, PerformAll(w.chip, OpsOf(l, w, act)[..k]))
    ensures Inv(l, w') && w.images <= w'.images
  {
    hide PerformAll, CutWithin, HasManifest, Honest, HonestThroughout, OpsOf, AllFit, Allowed, Holds, Passed, Known;
    var ops := OpsOf(l, w, act);
    PrefixIsCut(w.chip, ops, k);
    ActHonest(l, w, act);
    HoldsOn(l, w, act, w'.chip);
    HonestAt(w.chip, ops, l, Passed(l, w, act), w'.chip);
    if w'.receiving {
      StillNone(l, w, act, k, done);
    }
    if act.Install? {
      InstallOps(l, w, act);
      Installed(l, w, act, done, w'.chip, k);
    }
    StagedStays(l, w, act, w'.chip, done);
  }

  /** What has been verified in this session is still in staging. */
  lemma StagedStays(l: Layout, w: World, act: Act, after: Chip, done: bool)
    requires Inv(l, w) && Allowed(l, w, act) && |after| == |w.chip|
    requires act.Install? || act.Verify? ==>
               forall n: nat :: n <= l.staging.size ==> Front(after, l.staging, n) == Front(w.chip, l.staging, n)
    ensures var (receiving, complete, verified) := Known(l, w, act, done);
            && (receiving ==> complete == None) && (complete.Some? ==> complete.value <= l.staging.size)
            && (verified.Some? ==> complete == Some(|verified.value|) &&
                                   Holds(after, l.staging, verified.value, Passed(l, w, act)))
    ensures !act.Install? ==> InPlace(w, act, done) == w.installed
  {
    hide HasManifest, Honest, PerformAll, AllFit;
  }

  lemma InstallOps(l: Layout, w: World, act: Act)
    requires Divided(w.chip, l) && act.Install?
    ensures OpsOf(l, w, act) == act.sectors && Passed(l, w, act) == w.images
    ensures InPlace(w, act, true) == w.verified && InPlace(w, act, false) == None
  {
  }

  lemma Installed(l: Layout, w: World, act: Act, done: bool, after: Chip, k: nat)
    requires Inv(l, w) && Allowed(l, w, act) && act.Install? && k <= |act.sectors|
    requires AllFit(w.chip, act.sectors[..k]) && after == PerformAll(w.chip, act.sectors[..k])
    ensures w.verified.Some? && !w.receiving
    ensures k == |act.sectors| ==> Holds(after, l.application, w.verified.value, w.images)
  {
    hide PerformAll, HasManifest, Honest;
    assert k == |act.sectors| ==> act.sectors[..k] == act.sectors;
  }

  /** While lines are awaited there is no manifest, however far the command has come. */
  lemma StillNone(l: Layout, w: World, act: Act, k: nat, done: bool)
    requires Inv(l, w) && Allowed(l, w, act) && AllFit(w.chip, OpsOf(l, w, act)) && k <= |OpsOf(l, w, act)|
    requires AllFit(w.chip, OpsOf(l, w, act)[..k]) && (done ==> k == |OpsOf(l, w, act)|)
    requires Known(l, w, act, done).0
    ensures Divided(PerformAll(w.chip, OpsOf(l, w, act)[..k]), l)
    ensures !HasManifest(PerformAll(w.chip, OpsOf(l, w, act)[..k]), l)
  {
    hide PerformAll, HasManifest, Honest, HonestThroughout, AllFit, OpsWithin;
    match act
    case Begin(size) => BeginStopped(l, w, size, k);
    case Receive(pages, _) =>
      PrefixWithin(pages, k, l.staging);
      ElsewhereHonest(w.chip, pages[..k], l.staging, l, w.images);
    case Verify(_) =>
    case Install(_) =>
  }

  lemma PrefixWithin(ops: seq<FlashOp>, k: nat, r: Region)
    requires OpsWithin(ops, r) && k <= |ops|
    ensures OpsWithin(ops[..k], r)
  {
  }

  lemma BeginStopped(l: Layout, w: World, size: nat, k: nat)
    requires Inv(l, w) && size <= l.staging.size && k <= 2 && AllFit(w.chip, BeginOps(l, size)[..k])
    requires w.receiving || k == 2
    ensures Divided(PerformAll(w.chip, BeginOps(l, size)[..k]), l)
    ensures !HasManifest(PerformAll(w.chip, BeginOps(l, size)[..k]), l)
  {
    hide PerformAll, HasManifest, Honest, HonestThroughout, AllFit, CutWithin;
    var ops := BeginOps(l, size);
    BeginHonest(l, w.chip, w.images, size);
    EraseManifestHonest(w.chip, l, w.images);
    NothingHonest(w.chip, l, w.images);
    HonestFits(w.chip, ops, l, w.images);
    PrefixIsCut(w.chip, ops, k);
    HonestAt(w.chip, ops, l, w.images, PerformAll(w.chip, ops[..k]));
    HonestDivided(PerformAll(w.chip, ops[..k]), l, w.images);
    assert ops[..0] == [] && ops[..1] == [EraseOp(l.manifest.offset, l.manifest.size)] && ops[..2] == ops;
  }

  lemma HonestFits(chip: Chip, ops: seq<FlashOp>, l: Layout, images: set<seq<byte>>)
    requires HonestThroughout(chip, ops, l, images)
    ensures AllFit(chip, ops)
  {
  }

  lemma HonestDivided(chip: Chip, l: Layout, images: set<seq<byte>>)
    requires Honest(chip, l, images)
    ensures Divided(chip, l)
  {
  }

  // ---- whole runs ---------------------------------------------------------------------------

  ghost predicate Run(l: Layout, worlds: seq<World>, events: seq<Event>)
  {
    |worlds| == |events| + 1 &&
    forall i :: 0 <= i < |events| ==> Next(l, worlds[i], events[i], worlds[i + 1])
  }

  lemma {:induction false} RunKeepsInv(l: Layout, worlds: seq<World>, events: seq<Event>, i: nat)
    requires Run(l, worlds, events) && Inv(l, worlds[0]) && i < |worlds|
    ensures Inv(l, worlds[i]) && worlds[0].images <= worlds[i].images
  {
    hide Inv, Next;
    if i > 0 {
      RunKeepsInv(l, worlds, events, i - 1);
      assert Next(l, worlds[i - 1], events[i - 1], worlds[i]);
      StepKeepsInv(l, worlds[i - 1], events[i - 1], worlds[i]);
    }
  }

  /**
   * At any moment of any run: were the chip to start up now, it would take up an image exactly if
   * there is a manifest, and then one that has passed verification, all there in staging; and what
   * the last finished install put in place has passed verification and is still there.
   */
  lemma RunIsSafe(l: Layout, worlds: seq<World>, events: seq<Event>, i: nat)
    requires Run(l, worlds, events) && Inv(l, worlds[0]) && i < |worlds|
    ensures Divided(worlds[i].chip, l)
    ensures Recover(worlds[i].chip, l).Some? <==> HasManifest(worlds[i].chip, l)
    ensures Recover(worlds[i].chip, l).Some? ==>
              exists image :: image in worlds[i].images && Describes(worlds[i].chip, l, image) &&
                              Recover(worlds[i].chip, l) == Some((|image|, Crc.Crc32(image)))
    ensures worlds[i].installed.Some? ==>
              Holds(worlds[i].chip, l.application, worlds[i].installed.value, worlds[i].images)
  {
    hide HasManifest, Recover, Describes, Holds, Crc.Crc32;
    RunKeepsInv(l, worlds, events, i);
    RecoverIff(worlds[i].chip, l, worlds[i].images);
  }

  /** A chip with no manifest, freshly started, is where a run can begin. */
  lemma FreshStart(l: Layout, chip: Chip)
    requires Divided(chip, l) && !HasManifest(chip, l)
    ensures Inv(l, Boot(l, chip, {}, None))
  {
    hide HasManifest;
    BootInv(l, chip, {}, None);
  }

  // ---- an update from end to end ---------------------------------------------------------------

  /** fwbegin, the image in one go, fwverify and fwapply. */
  function Course(l: Layout, image: seq<byte>): (events: seq<Event>)
    ensures |events| == 4
  {
    [Done(Begin(l.staging.size)),
     Done(Receive([ProgramOp(l.staging.offset, image)], Complete(|image|))),
     Done(Verify(|image|)),
     Done(Install([EraseOp(l.application.offset, l.application.size), ProgramOp(l.application.offset, image)]))]
  }

  /** A region erased and then programmed from its beginning holds what it was programmed with. */
  lemma ErasedThenProgrammed(chip: Chip, r: Region, data: seq<byte>)
    requires r.offset + r.size <= |chip| && |data| <= r.size
    ensures var erased := Perform(chip, EraseOp(r.offset, r.size));
            Front(Perform(erased, ProgramOp(r.offset, data)), r, |data|) == data
  {
    hide Splice, AndBytes;
    var erased := Perform(chip, EraseOp(r.offset, r.size));
    SpliceSlice(chip, r.offset, Blank(r.size), 0, |data|);
    assert Blank(r.size)[0..|data|] == Blank(|data|);
    ProgramErased(erased, r.offset, data);
    SpliceSlice(erased, r.offset, data, 0, |data|);
    assert data[0..|data|] == data;
  }

  function Finished(l: Layout, w: World, act: Act): (v: World)
    requires Divided(w.chip, l) && AllFit(w.chip, OpsOf(l, w, act))
    ensures Divided(v.chip, l)
  {
    After(l, w, act, true, PerformAll(w.chip, OpsOf(l, w, act)))
  }

  lemma BegunAndReceived(l: Layout, w: World, image: seq<byte>) returns (w1: World, w2: World)
    requires Divided(w.chip, l) && |image| <= l.staging.size
    ensures Next(l, w, Course(l, image)[0], w1) && Next(l, w1, Course(l, image)[1], w2)
    ensures Divided(w2.chip, l) && w2.complete == Some(|image|) && Front(w2.chip, l.staging, |image|) == image
  {
    hide Perform, HasManifest;
    var clear, page := EraseOp(l.manifest.offset, l.manifest.size), ProgramOp(l.staging.offset, image);
    w1 := Finished(l, w, Begin(l.staging.size));
    assert BeginOps(l, l.staging.size) == [clear, EraseOp(l.staging.offset, l.staging.size)];
    PerformTwo(w.chip, clear, EraseOp(l.staging.offset, l.staging.size));
    ErasedThenProgrammed(Perform(w.chip, clear), l.staging, image);
    PerformOne(w1.chip, page);
    assert Allowed(l, w1, Receive([page], Complete(|image|)));
    w2 := Finished(l, w1, Receive([page], Complete(|image|)));
  }

  lemma VerifiedNext(l: Layout, w: World, image: seq<byte>) returns (v: World)
    requires Divided(w.chip, l) && |image| <= l.staging.size
    requires w.complete == Some(|image|) && Front(w.chip, l.staging, |image|) == image
    ensures Next(l, w, Course(l, image)[2], v)
    ensures Divided(v.chip, l) && v.verified == Some(image) && image in v.images
  {
    hide PerformAll, HasManifest, ManifestPage;
    v := Finished(l, w, Verify(|image|));
  }

  lemma InstalledNext(l: Layout, w: World, image: seq<byte>) returns (v: World)
    requires Divided(w.chip, l) && 0 < |image| <= l.application.size && w.verified == Some(image) && image in w.images
    ensures Next(l, w, Course(l, image)[3], v)
    ensures v.installed == Some(image) == v.verified && image in v.images
    ensures Divided(v.chip, l) && Front(v.chip, l.application, |image|) == image
  {
    hide Perform, HasManifest;
    var erase, program := EraseOp(l.application.offset, l.application.size), ProgramOp(l.application.offset, image);
    PerformTwo(w.chip, erase, program);
    ErasedThenProgrammed(w.chip, l.application, image);
    assert Allowed(l, w, Install([erase, program]));
    v := Finished(l, w, Install([erase, program]));
  }

  /**
   * From any state whatever, an image that fits can be begun, received, verified and installed one
   * after another in one session, and is then in place.
   */
  lemma CourseRuns(l: Layout, w: World, image: seq<byte>)
    requires Divided(w.chip, l) && 0 < |image| <= l.staging.size
    ensures exists worlds :: Run(l, worlds, Course(l, image)) && worlds[0] == w && InstalledAtEnd(l, worlds, image)
  {
    hide Next, Course, Front;
    var w1, w2 := BegunAndReceived(l, w, image);
    var w3 := VerifiedNext(l, w2, image);
    var w4 := InstalledNext(l, w3, image);
    var worlds := [w, w1, w2, w3, w4];
    assert Run(l, worlds, Course(l, image)) && InstalledAtEnd(l, worlds, image);
  }

  predicate InstalledAtEnd(l: Layout, worlds: seq<World>, image: seq<byte>)
  {
    |worlds| > 0 &&
    var w := worlds[|worlds| - 1];
    && w.installed == Some(image) == w.verified && image in w.images
    && Divided(w.chip, l) && |image| <= l.application.size && Front(w.chip, l.application, |image|) == image
  }
}
