/** How components/flash_storage/flash_layout.c divides the chip and bounds every access. */
module FlashLayout {
  import opened Bytes

  const SECTOR: nat := 4096
  const PAGE: nat := 256
  const MANIFEST_SECTORS: nat := 1

  datatype Region = Region(offset: nat, size: nat)
  datatype Layout = Layout(application: Region, staging: Region, manifest: Region, data: Region)
  datatype LayoutResult = LayoutOk | LayoutInvalidArg | LayoutTooSmall | LayoutUnaligned | LayoutOutOfRange

  /** `None` stands for any refusal; the sums wrap as the source's uint32_t does. */
  function Compute(flashSize: nat, dataSectors: nat): (r: (LayoutResult, Option<Layout>))
    requires flashSize < WORD_LIMIT && dataSectors < WORD_LIMIT
  {
    if flashSize % SECTOR != 0 then (LayoutInvalidArg, None)
    else
      var total := flashSize / SECTOR;
      if dataSectors < MANIFEST_SECTORS + 1 || total < U32(dataSectors + 2) then (LayoutTooSmall, None)
      else
        var imageSize := U32(U32(total - dataSectors) / 2 * SECTOR);
        var manifestAt := U32(2 * imageSize);
        var dataAt := U32(manifestAt + MANIFEST_SECTORS * SECTOR);
        (LayoutOk, Some(Layout(
          Region(0, imageSize), Region(imageSize, imageSize),
          Region(manifestAt, MANIFEST_SECTORS * SECTOR),
          Region(dataAt, U32(flashSize - dataAt)))))
  }

  /** The four regions follow one another, sector by sector, and fill the chip. */
  predicate Tiles(l: Layout, flashSize: nat)
  {
    && l.application.offset == 0
    && l.staging.offset == l.application.size
    && l.manifest.offset == l.staging.offset + l.staging.size
    && l.data.offset == l.manifest.offset + l.manifest.size
    && l.data.offset + l.data.size == flashSize
    && l.application.size == l.staging.size > 0
    && l.manifest.size == 4096 && l.data.size > 0
    && l.application.size % 4096 == 0 && l.data.size % 4096 == 0
  }

  /**
   * A division is accepted exactly when the chip is whole sectors, the data and the manifest get at
   * least two, and that many and two more are no more than there are, their sum taken in 32 bits.
   */
  lemma DivisionAcceptedIff(flashSize: nat, dataSectors: nat)
    requires flashSize < WORD_LIMIT && dataSectors < WORD_LIMIT
    ensures var r := Compute(flashSize, dataSectors);
            && (r.0 == LayoutInvalidArg <==> flashSize % 4096 != 0)
            && (r.0 == LayoutOk <==>
                  flashSize % 4096 == 0 && dataSectors >= 2 && flashSize / 4096 >= (dataSectors + 2) % 0x1_0000_0000)
            && (r.1.Some? <==> r.0 == LayoutOk) && r.0 in {LayoutOk, LayoutInvalidArg, LayoutTooSmall}
  {
  }

  /** Both images get half of what is not reserved, and an odd sector left over goes to the data. */
  lemma SectorsShared(flashSize: nat, dataSectors: nat)
    requires flashSize < WORD_LIMIT && dataSectors + 2 < 0x1_0000_0000
    requires Compute(flashSize, dataSectors).0 == LayoutOk
    ensures var l := Compute(flashSize, dataSectors).1.value;
            && l.application.size / 4096 * 2 <= flashSize / 4096 - dataSectors <= l.application.size / 4096 * 2 + 1
            && l.data.size / 4096 == dataSectors - 1 + (flashSize / 4096 - dataSectors) % 2
  {
    hide Compute;
    NothingWraps(flashSize, dataSectors);
    var total, image := flashSize / SECTOR, (flashSize / SECTOR - dataSectors) / 2;
    assert flashSize - 2 * (image * SECTOR) - SECTOR == (total - 2 * image - 1) * SECTOR;
  }

  /**
   * An accepted division tiles the chip exactly when adding two to the number of
   * data sectors does not wrap: the guard against too small a chip is computed in
   * 32 bits and is the one check the last two values slip through.
   */
  lemma ComputeTilesIff(flashSize: nat, dataSectors: nat)
    requires flashSize < WORD_LIMIT && dataSectors < WORD_LIMIT
    requires Compute(flashSize, dataSectors).0 == LayoutOk
    ensures Compute(flashSize, dataSectors).1.Some?
    ensures Tiles(Compute(flashSize, dataSectors).1.value, flashSize) <==> dataSectors + 2 < WORD_LIMIT
  {
    if dataSectors + 2 < WORD_LIMIT {
      SoundDivision(flashSize, dataSectors);
    } else {
      WrappedDivision(flashSize, dataSectors);
    }
  }

  lemma SoundDivision(flashSize: nat, dataSectors: nat)
    requires flashSize < WORD_LIMIT && dataSectors + 2 < WORD_LIMIT
    requires Compute(flashSize, dataSectors).0 == LayoutOk
    ensures Tiles(Compute(flashSize, dataSectors).1.value, flashSize)
  {
    hide Compute, U32;
    var total := flashSize / SECTOR;
    NothingWraps(flashSize, dataSectors);
    SectorsBelow(flashSize, total, (total - dataSectors) / 2);
  }

  /** With the guard's own sum in range, so is every other. */
  lemma NothingWraps(flashSize: nat, dataSectors: nat)
    requires flashSize < WORD_LIMIT && dataSectors + 2 < WORD_LIMIT
    requires Compute(flashSize, dataSectors).0 == LayoutOk
    ensures flashSize == flashSize / SECTOR * SECTOR && dataSectors + 2 <= flashSize / SECTOR && dataSectors >= 2
    ensures var image := (flashSize / SECTOR - dataSectors) / 2;
            var size := image * SECTOR;
            1 <= image && 2 * image + dataSectors <= flashSize / SECTOR &&
            Compute(flashSize, dataSectors).1 ==
              Some(Layout(Region(0, size), Region(size, size), Region(2 * size, SECTOR),
                          Region(2 * size + SECTOR, flashSize - 2 * size - SECTOR)))
  {
    hide U32;
    var total := flashSize / SECTOR;
    var image := (total - dataSectors) / 2;
    InRange(dataSectors + 2);
    InRange(total - dataSectors);
    SectorsBelow(flashSize, total, image);
    InRange(image * SECTOR);
    InRange(2 * (image * SECTOR));
    InRange(2 * (image * SECTOR) + SECTOR);
    InRange(flashSize - 2 * (image * SECTOR) - SECTOR);
  }

  lemma InRange(x: int)
    requires 0 <= x < WORD_LIMIT
    ensures U32(x) == x
  {
  }

  lemma SectorsBelow(size: nat, total: nat, image: nat)
    requires size == total * SECTOR && 2 * image + 2 <= total
    ensures 2 * (image * SECTOR) + 2 * SECTOR <= size
    ensures (size - 2 * (image * SECTOR) - SECTOR) % SECTOR == 0 && image * SECTOR % SECTOR == 0
  {
    assert size - 2 * (image * SECTOR) - SECTOR == (total - 2 * image - 1) * SECTOR;
  }

  lemma WrappedDivision(flashSize: nat, dataSectors: nat)
    requires flashSize < WORD_LIMIT && WORD_LIMIT - 2 <= dataSectors < WORD_LIMIT
    requires Compute(flashSize, dataSectors).0 == LayoutOk
    ensures !Tiles(Compute(flashSize, dataSectors).1.value, flashSize)
  {
    var total := flashSize / SECTOR;
    var extra := WORD_LIMIT - dataSectors;
    assert U32(total - dataSectors) == total + extra;
    var image := (total + extra) / 2;
    assert 2 * image >= total && flashSize == total * SECTOR;
    assert image * SECTOR < WORD_LIMIT;
    var l := Compute(flashSize, dataSectors).1.value;
    assert l.application.size == image * SECTOR;
  }

  predicate Overlap(a: Region, b: Region)
  {
    a.offset < b.offset + b.size && b.offset < a.offset + a.size
  }

  /** On the largest chip, either of the two counts whose sum wraps puts the manifest over the application. */
  lemma ComputeCanOverlap(dataSectors: nat)
    requires dataSectors == WORD_LIMIT - 2 || dataSectors == WORD_LIMIT - 1
    ensures Compute(WORD_LIMIT - SECTOR, dataSectors).0 == LayoutOk
    ensures var l := Compute(WORD_LIMIT - SECTOR, dataSectors).1.value;
            Overlap(l.manifest, l.application) && !Tiles(l, WORD_LIMIT - SECTOR)
  {
    hide Tiles;
    ComputeTilesIff(WORD_LIMIT - SECTOR, dataSectors);
  }

  predicate Contains(r: Region, offset: nat, size: nat)
  {
    if r.size == 0 then false
    else if size == 0 then offset <= r.size
    else offset <= r.size && size <= r.size - offset
  }

  function CheckErase(r: Region, offset: nat, size: nat): LayoutResult
  {
    if !Contains(r, offset, size) then LayoutOutOfRange
    else if r.offset % SECTOR != 0 || offset % SECTOR != 0 || size % SECTOR != 0 then LayoutUnaligned
    else LayoutOk
  }

  function CheckProgram(r: Region, offset: nat, size: nat): LayoutResult
  {
    if !Contains(r, offset, size) then LayoutOutOfRange
    else if r.offset % PAGE != 0 || offset % PAGE != 0 || size % PAGE != 0 then LayoutUnaligned
    else LayoutOk
  }

  /** What is checked of an access, and in what order: that it lies in the region, and then on whole sectors or pages. */
  lemma AccessTable(r: Region, offset: nat, size: nat)
    ensures Contains(r, offset, size) <==> r.size > 0 && offset + size <= r.size
    ensures CheckErase(r, offset, size) ==
              if !Contains(r, offset, size) then LayoutOutOfRange
              else if (r.offset % 4096, offset % 4096, size % 4096) == (0, 0, 0) then LayoutOk else LayoutUnaligned
    ensures CheckProgram(r, offset, size) ==
              if !Contains(r, offset, size) then LayoutOutOfRange
              else if (r.offset % 256, offset % 256, size % 256) == (0, 0, 0) then LayoutOk else LayoutUnaligned
  {
  }

  lemma CheckedProgram(r: Region, offset: nat, size: nat)
    ensures CheckProgram(r, offset, size) == LayoutOk ==> offset + size <= r.size
  {
  }

  lemma SectorSum(a: nat, b: nat)
    requires a % SECTOR == 0 && b % SECTOR == 0
    ensures (a + b) % SECTOR == 0
  {
  }

  /** Every region of a chip that is tiled begins and ends with a sector. */
  lemma TilesAligned(l: Layout, flashSize: nat)
    requires Tiles(l, flashSize)
    ensures l.staging.offset % SECTOR == 0 && l.staging.size % SECTOR == 0 && l.manifest.offset % SECTOR == 0
  {
    SectorSum(l.staging.offset, l.staging.size);
  }

  lemma SectorMultiple(n: nat)
    requires n % SECTOR == 0
    ensures n % PAGE == 0
  {
    var k := n / SECTOR;
    assert n == PAGE * (16 * k);
  }

  function RoundUpToSector(size: nat): nat
  {
    (size + SECTOR - 1) / SECTOR * SECTOR
  }
}

/**
 * The chip as pages of bytes: erasing sets bits, programming only clears them, and
 * the power can go at any point. components/flash_storage/flash_storage.c on top.
 */
module FlashStorage {
  import Crc
  import opened Bytes
  import opened FlashLayout

  const ERASED: byte := 0xFF

  type Chip = seq<byte>

  datatype FlashOp = EraseOp(at: nat, size: nat) | ProgramOp(at: nat, data: seq<byte>)

  function Blank(n: nat): (b: seq<byte>)
    ensures |b| == n
  {
    seq(n, _ => ERASED)
  }

  function AndBytes(a: seq<byte>, b: seq<byte>): (r: seq<byte>)
    requires |a| == |b|
    ensures |r| == |a|
  {
    seq(|a|, i requires 0 <= i < |a| => And(a[i], b[i]))
  }

  function Span(op: FlashOp): nat
  {
    match op case EraseOp(_, size) => size case ProgramOp(_, data) => |data|
  }

  predicate Fits(chip: Chip, op: FlashOp)
  {
    op.at + Span(op) <= |chip|
  }

  function Splice(chip: Chip, at: nat, data: seq<byte>): (r: Chip)
    requires at + |data| <= |chip|
    ensures |r| == |chip|
  {
    seq(|chip|, i requires 0 <= i < |chip| => if at <= i < at + |data| then data[i - at] else chip[i])
  }

  /** What an operation that runs to its end leaves. */
  function Perform(chip: Chip, op: FlashOp): (r: Chip)
    requires Fits(chip, op)
    ensures |r| == |chip|
  {
    match op
    case EraseOp(at, size) => Splice(chip, at, Blank(size))
    case ProgramOp(at, data) => Splice(chip, at, AndBytes(chip[at..at + |data|], data))
  }

  /**
   * The power went during `op`: some pages are as the operation leaves them and the
   * rest are as they were.
   */
  ghost predicate CutDuring(chip: Chip, op: FlashOp, after: Chip)
    requires Fits(chip, op)
  {
    exists done: set<nat> :: PagesDone(chip, Perform(chip, op), done, after)
  }

  ghost predicate PagesDone(before: Chip, whole: Chip, done: set<nat>, after: Chip)
    requires |whole| == |before|
  {
    |after| == |before| &&
    forall i :: 0 <= i < |before| ==> after[i] == if i / PAGE in done then whole[i] else before[i]
  }

  predicate AllFit(chip: Chip, ops: seq<FlashOp>)
  {
    forall i :: 0 <= i < |ops| ==> Fits(chip, ops[i])
  }

  function PerformAll(chip: Chip, ops: seq<FlashOp>): (r: Chip)
    requires AllFit(chip, ops)
    ensures |r| == |chip|
    decreases |ops|
  {
    if |ops| == 0 then chip else Perform(PerformAll(chip, ops[..|ops| - 1]), ops[|ops| - 1])
  }

  /** The power went while one of a run of operations was under way, or just after the last. */
  ghost predicate CutWithin(chip: Chip, ops: seq<FlashOp>, after: Chip)
    requires AllFit(chip, ops)
  {
    after == PerformAll(chip, ops) ||
    exists k :: 0 <= k < |ops| && CutAt(chip, ops, k, after)
  }

  ghost predicate CutAt(chip: Chip, ops: seq<FlashOp>, k: nat, after: Chip)
    requires AllFit(chip, ops) && k < |ops|
  {
    CutDuring(PerformAll(chip, ops[..k]), ops[k], after)
  }

  lemma PerformPrefix(chip: Chip, ops: seq<FlashOp>, k: nat)
    requires AllFit(chip, ops) && 1 <= k <= |ops|
    ensures PerformAll(chip, ops[..k]) == Perform(PerformAll(chip, ops[..k - 1]), ops[k - 1])
  {
    assert ops[..k][..k - 1] == ops[..k - 1];
  }

  lemma PerformOne(chip: Chip, op: FlashOp)
    requires Fits(chip, op)
    ensures AllFit(chip, [op]) && PerformAll(chip, [op]) == Perform(chip, op)
  {
    assert [op][..0] == [];
  }

  lemma NothingPerformed(chip: Chip)
    ensures AllFit(chip, []) && PerformAll(chip, []) == chip
  {
  }

  lemma PerformTwo(chip: Chip, a: FlashOp, b: FlashOp)
    requires Fits(chip, a) && Fits(chip, b)
    ensures PerformAll(chip, [a, b]) == Perform(Perform(chip, a), b)
  {
    PerformOne(chip, a);
    assert [a, b][..1] == [a];
  }

  lemma {:induction false} PerformAllConcat(chip: Chip, a: seq<FlashOp>, b: seq<FlashOp>)
    requires AllFit(chip, a) && AllFit(chip, b)
    ensures AllFit(chip, a + b)
    ensures PerformAll(chip, a + b) == PerformAll(PerformAll(chip, a), b)
    decreases |b|
  {
    if |b| == 0 {
      assert a + b == a;
    } else {
      assert (a + b)[..|a + b| - 1] == a + b[..|b| - 1];
      PerformAllConcat(chip, a, b[..|b| - 1]);
    }
  }

  /** A log that has grown is the operations so far, then the rest. */
  lemma LogGrown(factory: Chip, a: seq<FlashOp>, b: seq<FlashOp>)
    requires AllFit(factory, b) && a <= b
    ensures AllFit(factory, a) && AllFit(PerformAll(factory, a), b[|a|..])
    ensures PerformAll(factory, b) == PerformAll(PerformAll(factory, a), b[|a|..])
  {
    hide PerformAll;
    assert b == a + b[|a|..];
    PerformAllConcat(factory, a, b[|a|..]);
  }

  lemma ProgramByByte(was: Chip, at: nat, data: seq<byte>, now: seq<byte>)
    requires Fits(was, ProgramOp(at, data)) && |now| == |was|
    requires forall j :: 0 <= j < |was| ==>
               now[j] == if at <= j < at + |data| then And(was[j], data[j - at]) else was[j]
    ensures now == Perform(was, ProgramOp(at, data))
  {
    var landed := AndBytes(was[at..at + |data|], data);
    forall j | 0 <= j < |was| ensures now[j] == Splice(was, at, landed)[j] {
      if at <= j < at + |data| {
        assert landed[j - at] == And(was[j], data[j - at]);
      }
    }
  }

  lemma PerformedByte(chip: Chip, at: nat, data: seq<byte>, i: nat)
    requires Fits(chip, ProgramOp(at, data)) && i < |chip|
    ensures Perform(chip, ProgramOp(at, data))[i] == if at <= i < at + |data| then And(chip[i], data[i - at]) else chip[i]
  {
    hide And;
  }

  lemma ProgramBlank(data: seq<byte>)
    ensures AndBytes(Blank(|data|), data) == data
  {
    forall i | 0 <= i < |data| ensures AndBytes(Blank(|data|), data)[i] == data[i] {
      AndErased(data[i]);
    }
  }

  /** Programming erased flash puts exactly the data there. */
  lemma ProgramErased(chip: Chip, at: nat, data: seq<byte>)
    requires at + |data| <= |chip| && chip[at..at + |data|] == Blank(|data|)
    ensures Perform(chip, ProgramOp(at, data)) == Splice(chip, at, data)
  {
    hide Splice, AndBytes, Blank;
    ProgramBlank(data);
  }

  lemma SpliceSlice(chip: Chip, at: nat, a: seq<byte>, from: nat, to: nat)
    requires at + |a| <= |chip| && from <= to <= |a|
    ensures Splice(chip, at, a)[at + from..at + to] == a[from..to]
  {
  }

  lemma SpliceSplice(chip: Chip, at: nat, a: seq<byte>, inner: nat, b: seq<byte>)
    requires at + |a| <= |chip| && inner + |b| <= |a|
    ensures Splice(Splice(chip, at, a), at + inner, b) == Splice(chip, at, a[..inner] + b + a[inner + |b|..])
  {
  }

  lemma SpliceSame(chip: Chip, at: nat, n: nat)
    requires at + n <= |chip|
    ensures Splice(chip, at, chip[at..at + n]) == chip
  {
  }

  /** Operations that reach nothing but one region. */
  ghost predicate OpsWithin(ops: seq<FlashOp>, r: Region)
  {
    forall i :: 0 <= i < |ops| ==> r.offset <= ops[i].at && ops[i].at + Span(ops[i]) <= r.offset + r.size
  }

  /** The log has grown, if at all, by operations on one region. */
  ghost predicate GrewWithin(was: seq<FlashOp>, now: seq<FlashOp>, r: Region)
  {
    was <= now && OpsWithin(now[|was|..], r)
  }

  lemma GrewNone(log: seq<FlashOp>, r: Region)
    ensures GrewWithin(log, log, r)
  {
  }

  lemma GrewMore(a: seq<FlashOp>, b: seq<FlashOp>, c: seq<FlashOp>, r: Region)
    requires GrewWithin(a, b, r) && GrewWithin(b, c, r)
    ensures GrewWithin(a, c, r) && |a| <= |b| <= |c|
  {
    assert c[|a|..] == b[|a|..] + c[|b|..];
  }

  ghost predicate SameOutside(a: Chip, b: Chip, r: Region)
  {
    |a| == |b| && forall i :: 0 <= i < |a| && !(r.offset <= i < r.offset + r.size) ==> a[i] == b[i]
  }

  lemma SameAlready(a: Chip, r: Region)
    ensures SameOutside(a, a, r)
  {
  }

  lemma SameThroughout(a: Chip, b: Chip, c: Chip, r: Region)
    requires SameOutside(a, b, r) && SameOutside(b, c, r)
    ensures SameOutside(a, c, r)
  {
  }

  lemma PerformOutside(chip: Chip, op: FlashOp, r: Region)
    requires Fits(chip, op) && r.offset <= op.at && op.at + Span(op) <= r.offset + r.size
    ensures SameOutside(chip, Perform(chip, op), r)
  {
  }

  lemma {:induction false} PerformAllOutside(chip: Chip, ops: seq<FlashOp>, r: Region)
    requires AllFit(chip, ops) && OpsWithin(ops, r)
    ensures SameOutside(chip, PerformAll(chip, ops), r)
    decreases |ops|
  {
    hide Perform;
    if |ops| > 0 {
      PerformAllOutside(chip, ops[..|ops| - 1], r);
      PerformOutside(PerformAll(chip, ops[..|ops| - 1]), ops[|ops| - 1], r);
    }
  }

  lemma CutDuringOutside(chip: Chip, op: FlashOp, r: Region, after: Chip)
    requires Fits(chip, op) && r.offset <= op.at && op.at + Span(op) <= r.offset + r.size
    requires CutDuring(chip, op, after)
    ensures SameOutside(chip, after, r)
  {
    hide Perform;
    PerformOutside(chip, op, r);
  }

  /** Wherever the power goes, the rest of the chip is as it was. */
  lemma CutOutside(chip: Chip, ops: seq<FlashOp>, r: Region, after: Chip)
    requires AllFit(chip, ops) && OpsWithin(ops, r) && CutWithin(chip, ops, after)
    ensures SameOutside(chip, after, r)
  {
    hide Perform, PerformAll;
    PerformAllOutside(chip, ops, r);
    if after != PerformAll(chip, ops) {
      var k :| 0 <= k < |ops| && CutAt(chip, ops, k, after);
      PerformAllOutside(chip, ops[..k], r);
      PerformOutside(PerformAll(chip, ops[..k]), ops[k], r);
    }
  }

  /** A page an operation was cut short on is as it was or as the operation leaves it. */
  lemma CutPage(chip: Chip, op: FlashOp, after: Chip, at: nat)
    requires Fits(chip, op) && CutDuring(chip, op, after)
    requires at % PAGE == 0 && at + PAGE <= |chip|
    ensures |after| == |chip|
    ensures after[at..at + PAGE] == chip[at..at + PAGE] || after[at..at + PAGE] == Perform(chip, op)[at..at + PAGE]
  {
    hide Perform;
    var done: set<nat> :| PagesDone(chip, Perform(chip, op), done, after);
    forall i | at <= i < at + PAGE ensures i / PAGE == at / PAGE {
      assert i == at + (i - at) && at == PAGE * (at / PAGE);
    }
  }

  /** A cut in a run of operations falls in its first part or, that part being done, in the rest. */
  lemma CutInParts(chip: Chip, a: seq<FlashOp>, b: seq<FlashOp>, after: Chip)
    requires AllFit(chip, a) && AllFit(chip, b)
    ensures AllFit(chip, a + b)
    ensures CutWithin(chip, a + b, after) ==> CutWithin(chip, a, after) || CutWithin(PerformAll(chip, a), b, after)
  {
    hide Perform, PerformAll;
    PerformAllConcat(chip, a, b);
    var ops := a + b;
    if CutWithin(chip, ops, after) && after != PerformAll(chip, ops) {
      var k :| 0 <= k < |ops| && CutAt(chip, ops, k, after);
      if k < |a| {
        assert ops[..k] == a[..k];
        assert CutAt(chip, a, k, after);
      } else {
        var j := k - |a|;
        assert ops[..k] == a + b[..j] && ops[k] == b[j];
        PerformAllConcat(chip, a, b[..j]);
        assert CutAt(PerformAll(chip, a), b, j, after);
      }
    }
  }

  lemma CutInOne(chip: Chip, op: FlashOp, after: Chip)
    requires Fits(chip, op) && AllFit(chip, [op]) && CutWithin(chip, [op], after)
    ensures after == Perform(chip, op) || CutDuring(chip, op, after)
  {
    hide Perform;
    PerformOne(chip, op);
    if after != PerformAll(chip, [op]) {
      var k :| 0 <= k < 1 && CutAt(chip, [op], k, after);
      assert [op][..0] == [];
    }
  }

  lemma NothingDone(chip: Chip, op: FlashOp)
    requires Fits(chip, op)
    ensures CutDuring(chip, op, chip)
  {
    hide Perform;
    var done: set<nat> := {};
    assert PagesDone(chip, Perform(chip, op), done, chip);
  }

  datatype FlashResult = FlashOk | FlashInvalidArg | FlashOutOfRange | FlashUnaligned
                       | FlashRunningFromRegion | FlashNotSafe | FlashVerifyFailed

  function Translate(r: LayoutResult): FlashResult
  {
    match r
    case LayoutOk => FlashOk
    case LayoutUnaligned => FlashUnaligned
    case LayoutOutOfRange => FlashOutOfRange
    case _ => FlashInvalidArg
  }

  class Flash {
    var cells: array<byte>
    /** Where this code runs from, if it runs from flash. */
    const codeAt: Option<nat>
    /** Every operation that reached the chip, in order. */
    ghost var log: seq<FlashOp>
    ghost var factory: Chip
    /** How often the other core and the interrupts could not be held off. */
    ghost var denials: nat

    ghost predicate Valid()
      reads this, cells
    {
      && |factory| == cells.Length
      && AllFit(factory, log)
      && cells[..] == PerformAll(factory, log)
    }

    ghost function Contents(): Chip
      reads this, cells
      requires Valid()
    {
      cells[..]
    }

    constructor (initial: seq<byte>, codeAt: Option<nat>)
      ensures Valid() && fresh(cells)
      ensures Contents() == initial && log == [] && this.codeAt == codeAt
    {
      cells := new byte[|initial|](i requires 0 <= i < |initial| => initial[i]);
      this.codeAt := codeAt;
      log, denials := [], 0;
      factory := initial;
      new;
      assert cells[..] == initial;
    }

    predicate RegionOnChip(r: Region)
      reads this
    {
      r.offset + r.size <= cells.Length
    }

    predicate HoldsRunningCode(r: Region)
    {
      r.size != 0 && codeAt.Some? && r.offset <= codeAt.value < r.offset + r.size
    }

    function Precheck(r: Region): FlashResult
    {
      if r.size == 0 then FlashInvalidArg
      else if HoldsRunningCode(r) then FlashRunningFromRegion
      else FlashOk
    }

    /** Whether the other core and the interrupts can be held off right now is not ours to say. */
    method HoldOff() returns (granted: bool)
      modifies this`denials
      ensures denials == old(denials) + if granted then 0 else 1
    {
      granted := *;
      if !granted {
        denials := denials + 1;
      }
    }

    /** What is known of an access before the chip is touched. */
    function Verdict(r: Region, check: LayoutResult): FlashResult
    {
      if Precheck(r) != FlashOk then Precheck(r) else Translate(check)
    }

    /** The operations an accepted erase sends to the chip. */
    static function EraseOps(r: Region, offset: nat, size: nat): seq<FlashOp>
    {
      if size == 0 then [] else [EraseOp(r.offset + offset, size)]
    }

    method Erase(r: Region, offset: nat, size: nat) returns (result: FlashResult)
      requires Valid() && RegionOnChip(r)
      modifies this`log, this`denials, cells
      ensures Valid() && cells == old(cells)
      ensures denials == old(denials) || (denials == old(denials) + 1 && result == FlashNotSafe)
      ensures result == if Verdict(r, CheckErase(r, offset, size)) != FlashOk then Verdict(r, CheckErase(r, offset, size))
                        else if denials > old(denials) then FlashNotSafe else FlashOk
      ensures result == FlashOk ==> CheckErase(r, offset, size) == LayoutOk && !HoldsRunningCode(r)
      ensures result == FlashOk ==> log == old(log) + EraseOps(r, offset, size)
      ensures result == FlashOk ==> offset + size <= r.size
      ensures result == FlashOk ==> AllFit(old(Contents()), EraseOps(r, offset, size))
      ensures result == FlashOk ==> Contents() == PerformAll(old(Contents()), EraseOps(r, offset, size))
      ensures result != FlashOk ==> log == old(log) && Contents() == old(Contents())
    {
      result := Precheck(r);
      if result != FlashOk {
        return;
      }
      result := Translate(CheckErase(r, offset, size));
      if result != FlashOk {
        return;
      }
      if size == 0 {
        return;
      }
      var granted := HoldOff();
      if !granted {
        return FlashNotSafe;
      }
      DoErase(r.offset + offset, size);
      PerformOne(old(Contents()), EraseOp(r.offset + offset, size));
    }

    method DoErase(at: nat, size: nat)
      requires Valid() && Fits(Contents(), EraseOp(at, size))
      modifies this`log, cells
      ensures Valid() && cells == old(cells)
      ensures log == old(log) + [EraseOp(at, size)]
      ensures Contents() == Perform(old(Contents()), EraseOp(at, size))
    {
      for i := 0 to size
        invariant log == old(log)
        invariant forall j :: 0 <= j < cells.Length ==>
                    cells[j] == if at <= j < at + i then ERASED else old(cells[j])
      {
        cells[at + i] := ERASED;
      }
      assert cells[..] == Splice(old(Contents()), at, Blank(size));
      log := log + [EraseOp(at, size)];
      assert log[..|log| - 1] == old(log);
    }

    /** The operations an accepted program sends to the chip. */
    static function ProgramOps(r: Region, offset: nat, data: seq<byte>): seq<FlashOp>
    {
      if |data| == 0 then [] else [ProgramOp(r.offset + offset, data)]
    }

    method Program(r: Region, offset: nat, data: seq<byte>) returns (result: FlashResult)
      requires Valid() && RegionOnChip(r)
      modifies this`log, this`denials, cells
      ensures Valid() && cells == old(cells)
      ensures denials == old(denials) || (denials == old(denials) + 1 && result == FlashNotSafe)
      ensures result == if Verdict(r, CheckProgram(r, offset, |data|)) != FlashOk
                        then Verdict(r, CheckProgram(r, offset, |data|))
                        else if denials > old(denials) then FlashNotSafe else FlashOk
      ensures result == FlashOk ==> CheckProgram(r, offset, |data|) == LayoutOk && !HoldsRunningCode(r)
      ensures result == FlashOk ==> log == old(log) + ProgramOps(r, offset, data)
      ensures result == FlashOk ==> offset + |data| <= r.size
      ensures result == FlashOk ==> AllFit(old(Contents()), ProgramOps(r, offset, data))
      ensures result == FlashOk ==> Contents() == PerformAll(old(Contents()), ProgramOps(r, offset, data))
      ensures result != FlashOk ==> log == old(log) && Contents() == old(Contents())
      ensures result != FlashVerifyFailed
    {
      hide Perform, PerformAll, AllFit, CheckProgram;
      NothingPerformed(Contents());
      CheckedProgram(r, offset, |data|);
      result := Precheck(r);
      if result != FlashOk {
        return;
      }
      result := Translate(CheckProgram(r, offset, |data|));
      if result != FlashOk {
        return;
      }
      var at := r.offset + offset;
      if |data| == 0 {
        return;
      }
      var granted := HoldOff();
      if !granted {
        return FlashNotSafe;
      }
      DoProgram(at, data);
      PerformOne(old(Contents()), ProgramOp(at, data));
    }

    method DoProgram(at: nat, data: seq<byte>)
      requires Valid() && Fits(Contents(), ProgramOp(at, data))
      modifies this`log, cells
      ensures Valid() && cells == old(cells)
      ensures log == old(log) + [ProgramOp(at, data)]
      ensures Contents() == Perform(old(Contents()), ProgramOp(at, data))
    {
      for i := 0 to |data|
        invariant log == old(log)
        invariant forall j :: 0 <= j < cells.Length ==>
                    cells[j] == if at <= j < at + i then And(old(cells[j]), data[j - at]) else old(cells[j])
      {
        cells[at + i] := And(cells[at + i], data[i]);
      }
      ProgramByByte(old(Contents()), at, data, cells[..]);
      log := log + [ProgramOp(at, data)];
      assert log[..|log| - 1] == old(log);
    }

    method ProgramVerified(r: Region, offset: nat, data: seq<byte>) returns (result: FlashResult)
      requires Valid() && RegionOnChip(r)
      modifies this`log, this`denials, cells
      ensures Valid() && cells == old(cells)
      ensures denials == old(denials) || (denials == old(denials) + 1 && result == FlashNotSafe)
      ensures result != FlashOk && result != FlashVerifyFailed ==>
                result == if Verdict(r, CheckProgram(r, offset, |data|)) != FlashOk
                          then Verdict(r, CheckProgram(r, offset, |data|)) else FlashNotSafe
      ensures result == FlashNotSafe ==> denials > old(denials)
      ensures result == FlashOk || result == FlashVerifyFailed ==>
                CheckProgram(r, offset, |data|) == LayoutOk && !HoldsRunningCode(r)
      ensures result == FlashOk || result == FlashVerifyFailed ==>
                log == old(log) + ProgramOps(r, offset, data) && offset + |data| <= r.size
      ensures result == FlashOk || result == FlashVerifyFailed ==>
                AllFit(old(Contents()), ProgramOps(r, offset, data)) &&
                Contents() == PerformAll(old(Contents()), ProgramOps(r, offset, data))
      ensures result == FlashOk || result == FlashVerifyFailed ==>
                (result == FlashOk <==> Contents()[r.offset + offset..r.offset + offset + |data|] == data)
      ensures result != FlashOk && result != FlashVerifyFailed ==>
                log == old(log) && Contents() == old(Contents())
    {
      result := Program(r, offset, data);
      if result != FlashOk {
        return;
      }
      if !Contains(r, offset, |data|) {
        return FlashOutOfRange;
      }
      var at := r.offset + offset;
      assert cells[at..at + |data|] == Contents()[at..at + |data|];
      if cells[at..at + |data|] != data {
        return FlashVerifyFailed;
      }
    }

    /** A window onto a region, or nothing when it reaches outside. */
    method Data(r: Region, offset: nat, size: nat) returns (bytes: Option<seq<byte>>)
      requires Valid() && RegionOnChip(r)
      ensures bytes.Some? <==> Contains(r, offset, size)
      ensures bytes.Some? ==> r.offset + offset + size <= |Contents()|
      ensures bytes.Some? ==> bytes.value == Contents()[r.offset + offset..r.offset + offset + size]
    {
      if !Contains(r, offset, size) {
        return None;
      }
      return Some(cells[r.offset + offset..r.offset + offset + size]);
    }

    method IsErased(r: Region, offset: nat, size: nat) returns (erased: bool)
      requires Valid() && RegionOnChip(r)
      ensures erased ==> Contains(r, offset, size)
      ensures Contains(r, offset, size) ==>
                r.offset + offset + size <= |Contents()| &&
                (erased <==> Contents()[r.offset + offset..r.offset + offset + size] == Blank(size))
    {
      var bytes := Data(r, offset, size);
      if bytes == None {
        return false;
      }
      var b := bytes.value;
      for i := 0 to size
        invariant forall j :: 0 <= j < i ==> b[j] == ERASED
      {
        if b[i] != ERASED {
          assert Blank(size)[i] == ERASED;
          return false;
        }
      }
      assert b == Blank(size);
      return true;
    }

    method RegionCrc32(r: Region, offset: nat, size: nat) returns (sum: nat)
      requires Valid() && RegionOnChip(r)
      ensures Contains(r, offset, size) ==>
                r.offset + offset + size <= |Contents()| &&
                sum == Crc.Crc32(Contents()[r.offset + offset..r.offset + offset + size])
      ensures !Contains(r, offset, size) ==> sum == 0
    {
      var bytes := Data(r, offset, size);
      if bytes == None {
        return 0;
      }
      sum := Crc.ComputeCrc32(bytes.value);
    }
  }
}
