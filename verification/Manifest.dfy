/**
 * The manifest sector and the staging region it describes, through every operation on the
 * chip and every point the power can go (components/firmware_update/firmware_service.c).
 */
module Manifest {
  import Crc
  import opened Bytes
  import opened FlashLayout
  import opened FlashStorage
  import opened ImageFormat

  const IMAGE_BASE: nat := 0x1000_0000

  function ManifestPage(image: seq<byte>): (b: seq<byte>)
    ensures |b| == PAGE
  {
    var crc := Crc.Crc32(image);
    EncodeHeader(|image|, crc, IMAGE_BASE, crc) + Blank(PAGE - HEADER_SIZE)
  }

  predicate Divided(chip: Chip, l: Layout)
  {
    Tiles(l, |chip|) && |chip| < WORD_LIMIT
  }

  function FirstPage(chip: Chip, l: Layout): (b: seq<byte>)
    requires Divided(chip, l)
    ensures |b| == PAGE
  {
    chip[l.manifest.offset..l.manifest.offset + PAGE]
  }

  function Header(chip: Chip, l: Layout): (b: seq<byte>)
    requires Divided(chip, l)
    ensures |b| == HEADER_SIZE
  {
    chip[l.manifest.offset..l.manifest.offset + HEADER_SIZE]
  }

  function Front(chip: Chip, r: Region, n: nat): (b: seq<byte>)
    requires r.offset + n <= |chip|
    ensures |b| == n
  {
    chip[r.offset..r.offset + n]
  }

  predicate HasManifest(chip: Chip, l: Layout)
    requires Divided(chip, l)
  {
    Validate(Header(chip, l)) == ImageOk
  }

  /** The manifest was written for `image`, and staging holds it. */
  predicate Describes(chip: Chip, l: Layout, image: seq<byte>)
    requires Divided(chip, l)
  {
    && 0 < |image| <= MAX_PAYLOAD && |image| <= l.staging.size
    && FirstPage(chip, l) == ManifestPage(image)
    && Front(chip, l.staging, |image|) == image
  }

  /** A valid manifest describes, byte for byte, an image that was verified. */
  ghost predicate Honest(chip: Chip, l: Layout, verified: set<seq<byte>>)
  {
    Divided(chip, l) && (HasManifest(chip, l) ==> exists image :: image in verified && Describes(chip, l, image))
  }

  /** What start-up finds: the size and checksum of an image staged before, if any. */
  function Recover(chip: Chip, l: Layout): Option<(nat, nat)>
    requires Divided(chip, l)
  {
    var raw := Header(chip, l);
    if !HasManifest(chip, l) || PayloadSize(raw) > l.staging.size then None
    else if VerifyPayload(raw, Crc.Crc32(Front(chip, l.staging, PayloadSize(raw)))) != ImageOk then None
    else Some((PayloadSize(raw), PayloadCrc(raw)))
  }

  lemma HeaderInFirstPage(chip: Chip, l: Layout)
    requires Divided(chip, l)
    ensures Header(chip, l) == FirstPage(chip, l)[..HEADER_SIZE]
  {
  }

  lemma DescribedHeader(chip: Chip, l: Layout, image: seq<byte>)
    requires Divided(chip, l) && Describes(chip, l, image)
    ensures HasManifest(chip, l)
    ensures PayloadSize(Header(chip, l)) == |image| && PayloadCrc(Header(chip, l)) == Crc.Crc32(image)
  {
    hide EncodeHeader, Validate, PayloadSize, PayloadCrc;
    var crc := Crc.Crc32(image);
    Crc.Crc32Bound(image);
    HeaderInFirstPage(chip, l);
    var header := EncodeHeader(|image|, crc, IMAGE_BASE, crc);
    FrontOfConcat(header, Blank(PAGE - HEADER_SIZE), HEADER_SIZE);
    assert header[..HEADER_SIZE] == header;
    HeaderRoundTrip(|image|, crc, IMAGE_BASE, crc);
  }

  /** The manifest of an image is a header of its size, its checksum twice, and the start of flash. */
  lemma ManifestWords(image: seq<byte>)
    requires 0 < |image| <= 0x80_0000
    ensures var raw := ManifestPage(image)[..28];
            && Validate(raw) == ImageOk && LittleEndian(raw, 8) == |image| && LittleEndian(raw, 12) == Crc.Crc32(image)
            && LittleEndian(raw, 16) == 0x1000_0000 && LittleEndian(raw, 20) == Crc.Crc32(image)
  {
    hide EncodeHeader, Validate, PayloadSize, PayloadCrc, LoadAddress, BuildId, LittleEndian, Crc.Crc32;
    var crc := Crc.Crc32(image);
    Crc.Crc32Bound(image);
    var header := EncodeHeader(|image|, crc, IMAGE_BASE, crc);
    FrontOfConcat(header, Blank(PAGE - HEADER_SIZE), HEADER_SIZE);
    assert header[..HEADER_SIZE] == header;
    HeaderRoundTrip(|image|, crc, IMAGE_BASE, crc);
    HeaderAcceptedIff(header);
  }

  /** Whatever start-up takes up, staging has that checksum over that many bytes. */
  lemma RecoverSound(chip: Chip, l: Layout)
    requires Divided(chip, l)
    ensures Recover(chip, l).Some? ==>
              Recover(chip, l).value.0 <= l.staging.size &&
              Crc.Crc32(Front(chip, l.staging, Recover(chip, l).value.0)) == Recover(chip, l).value.1
  {
    hide Validate, Crc.Crc32, PayloadSize, PayloadCrc;
  }

  /** A manifest over staging that has changed in at most four consecutive bytes is not taken up. */
  lemma ChangedStagingNotRecovered(chip: Chip, after: Chip, l: Layout, image: seq<byte>,
                                   before: seq<byte>, a: seq<byte>, b: seq<byte>, rest: seq<byte>)
    requires Divided(chip, l) && Describes(chip, l, image) && |after| == |chip| && Header(after, l) == Header(chip, l)
    requires image == before + a + rest && |a| == |b| <= 4 && a != b
    requires Front(after, l.staging, |image|) == before + b + rest
    ensures HasManifest(after, l) && Recover(after, l) == None
  {
    hide Validate, Crc.Crc32, PayloadSize, PayloadCrc, ManifestPage;
    DescribedHeader(chip, l, image);
    Crc.BurstDetected(before, a, b, rest);
  }

  /**
   * Start-up takes up an image exactly when there is a valid manifest, and the image is one
   * that was verified, all there in staging.
   */
  lemma RecoverIff(chip: Chip, l: Layout, verified: set<seq<byte>>)
    requires Honest(chip, l, verified)
    ensures Recover(chip, l).Some? <==> HasManifest(chip, l)
    ensures Recover(chip, l).Some? ==>
              exists image :: image in verified && Describes(chip, l, image) &&
                              Recover(chip, l) == Some((|image|, Crc.Crc32(image)))
  {
    hide Validate, PayloadSize, PayloadCrc;
    if HasManifest(chip, l) {
      var image :| image in verified && Describes(chip, l, image);
      DescribedHeader(chip, l, image);
    }
  }

  // ---- what keeps it so -------------------------------------------------------------------

  predicate SameManifest(chip: Chip, after: Chip, l: Layout)
    requires Divided(chip, l)
  {
    |after| == |chip| && FirstPage(after, l) == FirstPage(chip, l)
  }

  predicate SameStaging(chip: Chip, after: Chip, l: Layout)
    requires Divided(chip, l)
  {
    |after| == |chip| && Front(after, l.staging, l.staging.size) == Front(chip, l.staging, l.staging.size)
  }

  lemma FrontOfFront(chip: Chip, r: Region, n: nat)
    requires r.offset + r.size <= |chip| && n <= r.size
    ensures Front(chip, r, n) == Front(chip, r, r.size)[..n]
  {
  }

  lemma FrontsAgree(was: Chip, now: Chip, source: Region, destination: Region, n: nat, all: nat)
    requires n <= all && source.offset + all <= |was| && destination.offset + all <= |now|
    requires Front(now, destination, all) == Front(was, source, all)
    ensures Front(now, destination, n) == Front(was, source, n)
  {
    assert Front(now, destination, n) == Front(now, destination, all)[..n];
    assert Front(was, source, n) == Front(was, source, all)[..n];
  }

  lemma BlankFront(chip: Chip, r: Region, n: nat)
    requires r.offset + r.size <= |chip| && n <= r.size && Front(chip, r, n) == Blank(n)
    ensures forall o :: 0 <= o < n ==> Front(chip, r, r.size)[o] == ERASED
  {
    FrontOfFront(chip, r, n);
    forall o | 0 <= o < n ensures Front(chip, r, r.size)[o] == ERASED {
      assert Front(chip, r, r.size)[..n][o] == Blank(n)[o];
    }
  }

  lemma HonestKept(chip: Chip, after: Chip, l: Layout, verified: set<seq<byte>>)
    requires Honest(chip, l, verified) && SameManifest(chip, after, l)
    requires HasManifest(chip, l) ==> SameStaging(chip, after, l)
    ensures Honest(after, l, verified) && (HasManifest(after, l) <==> HasManifest(chip, l))
  {
    hide Validate, Front, FirstPage, Header, ManifestPage;
    HeaderInFirstPage(chip, l);
    HeaderInFirstPage(after, l);
    if HasManifest(chip, l) {
      var image :| image in verified && Describes(chip, l, image);
      FrontOfFront(chip, l.staging, |image|);
      FrontOfFront(after, l.staging, |image|);
      assert Describes(after, l, image);
    }
  }

  lemma ErasedManifest(chip: Chip, l: Layout)
    requires Divided(chip, l) && FirstPage(chip, l) == Blank(PAGE)
    ensures !HasManifest(chip, l)
  {
    HeaderInFirstPage(chip, l);
    assert Header(chip, l) == Blank(HEADER_SIZE);
    ErasedHeaderRejected(Header(chip, l));
  }

  /** However far the operations get before the power goes, the manifest stays honest. */
  ghost predicate HonestThroughout(chip: Chip, ops: seq<FlashOp>, l: Layout, verified: set<seq<byte>>)
  {
    AllFit(chip, ops) && forall after :: CutWithin(chip, ops, after) ==> Honest(after, l, verified)
  }

  lemma ThroughoutBoth(chip: Chip, a: seq<FlashOp>, b: seq<FlashOp>, l: Layout, verified: set<seq<byte>>)
    requires HonestThroughout(chip, a, l, verified)
    requires HonestThroughout(PerformAll(chip, a), b, l, verified)
    ensures HonestThroughout(chip, a + b, l, verified)
    ensures PerformAll(chip, a + b) == PerformAll(PerformAll(chip, a), b)
  {
    hide PerformAll, CutWithin, Honest;
    PerformAllConcat(chip, a, b);
    forall after | CutWithin(chip, a + b, after) ensures Honest(after, l, verified) {
      CutInParts(chip, a, b, after);
    }
  }

  /** The same of a log that grew twice. */
  lemma ThroughoutLog(factory: Chip, a: seq<FlashOp>, b: seq<FlashOp>, c: seq<FlashOp>, l: Layout, verified: set<seq<byte>>)
    requires a <= b <= c && AllFit(factory, c) && AllFit(factory, b) && AllFit(factory, a)
    requires HonestThroughout(PerformAll(factory, a), b[|a|..], l, verified)
    requires HonestThroughout(PerformAll(factory, b), c[|b|..], l, verified)
    ensures HonestThroughout(PerformAll(factory, a), c[|a|..], l, verified)
  {
    hide PerformAll, HonestThroughout, AllFit;
    LogGrown(factory, a, b);
    ThroughoutBoth(PerformAll(factory, a), b[|a|..], c[|b|..], l, verified);
    assert c[|a|..] == b[|a|..] + c[|b|..];
  }

  lemma MoreVerified(chip: Chip, l: Layout, verified: set<seq<byte>>, image: seq<byte>)
    requires Honest(chip, l, verified)
    ensures Honest(chip, l, verified + {image})
  {
  }

  lemma AfterAll(chip: Chip, ops: seq<FlashOp>, l: Layout, verified: set<seq<byte>>)
    requires HonestThroughout(chip, ops, l, verified)
    ensures AllFit(chip, ops) && Honest(PerformAll(chip, ops), l, verified)
  {
    hide PerformAll, AllFit, Honest;
    assert CutWithin(chip, ops, PerformAll(chip, ops));
  }

  lemma NothingHonest(chip: Chip, l: Layout, verified: set<seq<byte>>)
    requires Honest(chip, l, verified)
    ensures HonestThroughout(chip, [], l, verified) && PerformAll(chip, []) == chip
  {
  }

  lemma OutsideFront(chip: Chip, after: Chip, r: Region, other: Region, n: nat)
    requires SameOutside(chip, after, r) && other.offset + n <= |chip|
    requires other.offset + n <= r.offset || r.offset + r.size <= other.offset
    ensures Front(after, other, n) == Front(chip, other, n)
  {
  }

  /** Between two honest states of the manifest's first page there is no third. */
  lemma ManifestOpHonest(chip: Chip, op: FlashOp, l: Layout, verified: set<seq<byte>>)
    requires Divided(chip, l) && Honest(chip, l, verified) && Fits(chip, op) && Honest(Perform(chip, op), l, verified)
    requires l.manifest.offset <= op.at && op.at + Span(op) <= l.manifest.offset + l.manifest.size
    ensures HonestThroughout(chip, [op], l, verified) && PerformAll(chip, [op]) == Perform(chip, op)
    ensures SameOutside(chip, Perform(chip, op), l.manifest)
    ensures Front(Perform(chip, op), l.staging, l.staging.size) == Front(chip, l.staging, l.staging.size)
  {
    hide Perform, PerformAll, CutWithin, Honest, Front;
    PerformOne(chip, op);
    PerformOutside(chip, op, l.manifest);
    OutsideFront(chip, Perform(chip, op), l.manifest, l.staging, l.staging.size);
    forall after | CutWithin(chip, [op], after) ensures Honest(after, l, verified) {
      CutInOne(chip, op, after);
      if after != Perform(chip, op) {
        CutManifestHonest(chip, op, l, verified, after);
      }
    }
  }

  lemma CutManifestHonest(chip: Chip, op: FlashOp, l: Layout, verified: set<seq<byte>>, after: Chip)
    requires Divided(chip, l) && Honest(chip, l, verified) && Fits(chip, op) && Honest(Perform(chip, op), l, verified)
    requires l.manifest.offset <= op.at && op.at + Span(op) <= l.manifest.offset + l.manifest.size
    requires CutDuring(chip, op, after)
    ensures Honest(after, l, verified)
  {
    hide Perform, CutDuring, HasManifest, Honest;
    CutDuringOutside(chip, op, l.manifest, after);
    PerformOutside(chip, op, l.manifest);
    OutsideFront(chip, after, l.manifest, l.staging, l.staging.size);
    OutsideFront(Perform(chip, op), after, l.manifest, l.staging, l.staging.size);
    SectorMultiple(l.manifest.offset);
    CutPage(chip, op, after, l.manifest.offset);
    if FirstPage(after, l) == FirstPage(chip, l) {
      HonestKept(chip, after, l, verified);
    } else {
      HonestKept(Perform(chip, op), after, l, verified);
    }
  }

  /** Erasing the manifest: until its first page goes it is whole, and then it is no manifest. */
  lemma EraseManifestHonest(chip: Chip, l: Layout, verified: set<seq<byte>>)
    requires Honest(chip, l, verified)
    ensures var ops := [EraseOp(l.manifest.offset, l.manifest.size)];
            HonestThroughout(chip, ops, l, verified) &&
            FirstPage(PerformAll(chip, ops), l) == Blank(PAGE) && !HasManifest(PerformAll(chip, ops), l) &&
            SameOutside(chip, PerformAll(chip, ops), l.manifest)
  {
    hide Perform, PerformAll, HonestThroughout, HasManifest;
    var op := EraseOp(l.manifest.offset, l.manifest.size);
    ErasedFront(chip, l);
    ErasedManifest(Perform(chip, op), l);
    ManifestOpHonest(chip, op, l, verified);
  }

  lemma ErasedFront(chip: Chip, l: Layout)
    requires Divided(chip, l)
    ensures FirstPage(Perform(chip, EraseOp(l.manifest.offset, l.manifest.size)), l) == Blank(PAGE)
  {
  }

  /** Programming the page of a manifest for what staging holds. */
  lemma WriteManifestHonest(chip: Chip, l: Layout, verified: set<seq<byte>>, image: seq<byte>)
    requires Honest(chip, l, verified) && image in verified && FirstPage(chip, l) == Blank(PAGE)
    requires 0 < |image| <= MAX_PAYLOAD && |image| <= l.staging.size && Front(chip, l.staging, |image|) == image
    ensures var ops := [ProgramOp(l.manifest.offset, ManifestPage(image))];
            HonestThroughout(chip, ops, l, verified) && Describes(PerformAll(chip, ops), l, image) &&
            SameOutside(chip, PerformAll(chip, ops), l.manifest)
  {
    hide Perform, PerformAll, HonestThroughout, HasManifest, ManifestPage, Splice;
    var op := ProgramOp(l.manifest.offset, ManifestPage(image));
    PerformOutside(chip, op, l.manifest);
    ProgramErased(chip, l.manifest.offset, ManifestPage(image));
    SpliceSlice(chip, l.manifest.offset, ManifestPage(image), 0, PAGE);
    OutsideFront(chip, Perform(chip, op), l.manifest, l.staging, |image|);
    assert Describes(Perform(chip, op), l, image);
    ManifestOpHonest(chip, op, l, verified);
  }

  /**
   * Work elsewhere on the chip: on anything but the manifest while there is none, and on
   * anything but the manifest and staging while there is one.
   */
  lemma ElsewhereHonest(chip: Chip, ops: seq<FlashOp>, r: Region, l: Layout, verified: set<seq<byte>>)
    requires Honest(chip, l, verified) && AllFit(chip, ops) && OpsWithin(ops, r)
    requires r.offset + r.size <= l.manifest.offset
    requires r.offset + r.size <= l.staging.offset || !HasManifest(chip, l)
    ensures HonestThroughout(chip, ops, l, verified)
    ensures SameOutside(chip, PerformAll(chip, ops), r)
    ensures HasManifest(PerformAll(chip, ops), l) <==> HasManifest(chip, l)
  {
    hide Perform, PerformAll, Validate, ManifestPage, OpsWithin, AllFit, CutAt;
    forall after | CutWithin(chip, ops, after)
      ensures Honest(after, l, verified) && (HasManifest(after, l) <==> HasManifest(chip, l))
    {
      CutOutside(chip, ops, r, after);
      OutsideFront(chip, after, r, l.manifest, PAGE);
      if HasManifest(chip, l) {
        OutsideFront(chip, after, r, l.staging, l.staging.size);
      }
      HonestKept(chip, after, l, verified);
    }
    assert CutWithin(chip, ops, PerformAll(chip, ops));
    PerformAllOutside(chip, ops, r);
  }

  /** ... and the same of a log. */
  lemma GrownHonest(factory: Chip, a: seq<FlashOp>, b: seq<FlashOp>, r: Region, l: Layout, verified: set<seq<byte>>)
    requires AllFit(factory, a) && AllFit(factory, b) && GrewWithin(a, b, r)
    requires Honest(PerformAll(factory, a), l, verified)
    requires r.offset + r.size <= l.manifest.offset
    requires r.offset + r.size <= l.staging.offset || !HasManifest(PerformAll(factory, a), l)
    ensures a <= b && HonestThroughout(PerformAll(factory, a), b[|a|..], l, verified)
    ensures Honest(PerformAll(factory, b), l, verified)
    ensures HasManifest(PerformAll(factory, b), l) <==> HasManifest(PerformAll(factory, a), l)
    ensures SameOutside(PerformAll(factory, a), PerformAll(factory, b), r)
  {
    hide PerformAll, HasManifest, AllFit, HonestThroughout;
    LogGrown(factory, a, b);
    ElsewhereHonest(PerformAll(factory, a), b[|a|..], r, l, verified);
    AfterAll(PerformAll(factory, a), b[|a|..], l, verified);
  }
}
