/** The description of a firmware image kept in flash (components/firmware_update/firmware_image.c). */
module ImageFormat {
  import Crc
  import opened Bytes
  import opened FlashLayout
  import opened FlashStorage

  const IMAGE_MAGIC: nat := 0x31574650
  const VERSION: nat := 1
  const HEADER_SIZE: nat := 28
  const COVERED: nat := 24
  const MAX_PAYLOAD: nat := 8 * 1024 * 1024

  datatype ImageResult = ImageOk | ImageBadMagic | ImageBadVersion | ImageBadSize | ImageBadHeaderCrc | ImageBadPayloadCrc

  function Half(x: nat): (b: seq<byte>)
    ensures |b| == 2
  {
    NatBytes(x, 2)
  }

  function HeaderCore(size: nat, crc: nat, load: nat, build: nat): (b: seq<byte>)
    ensures |b| == COVERED
  {
    Word(IMAGE_MAGIC) + Half(VERSION) + Half(HEADER_SIZE) + Word(size) + Word(crc) + Word(load) + Word(build)
  }

  function EncodeHeader(size: nat, crc: nat, load: nat, build: nat): (b: seq<byte>)
    ensures |b| == HEADER_SIZE
  {
    var core := HeaderCore(size, crc, load, build);
    core + Word(Crc.Crc32(core))
  }

  function HeaderInit(size: nat, crc: nat, load: nat, build: nat): (ImageResult, seq<byte>)
  {
    if size == 0 || size > MAX_PAYLOAD then (ImageBadSize, []) else (ImageOk, EncodeHeader(size, crc, load, build))
  }

  function PayloadSize(raw: seq<byte>): nat
    requires |raw| == HEADER_SIZE
  {
    BytesNat(raw[8..12])
  }

  function PayloadCrc(raw: seq<byte>): nat
    requires |raw| == HEADER_SIZE
  {
    BytesNat(raw[12..16])
  }

  function LoadAddress(raw: seq<byte>): nat
    requires |raw| == HEADER_SIZE
  {
    BytesNat(raw[16..20])
  }

  function BuildId(raw: seq<byte>): nat
    requires |raw| == HEADER_SIZE
  {
    BytesNat(raw[20..24])
  }

  function Validate(raw: seq<byte>): ImageResult
    requires |raw| == HEADER_SIZE
  {
    if BytesNat(raw[..4]) != IMAGE_MAGIC then ImageBadMagic
    else if BytesNat(raw[4..6]) != VERSION || BytesNat(raw[6..8]) != HEADER_SIZE then ImageBadVersion
    else if PayloadSize(raw) == 0 || PayloadSize(raw) > MAX_PAYLOAD then ImageBadSize
    else if BytesNat(raw[COVERED..]) != Crc.Crc32(raw[..COVERED]) then ImageBadHeaderCrc
    else ImageOk
  }

  function VerifyPayload(raw: seq<byte>, crc: nat): ImageResult
    requires |raw| == HEADER_SIZE
  {
    if Validate(raw) != ImageOk then Validate(raw)
    else if PayloadCrc(raw) == crc then ImageOk else ImageBadPayloadCrc
  }

  /** A header as its eight fields, each where it belongs. */
  predicate LaidOut(raw: seq<byte>, magic: seq<byte>, version: seq<byte>, length: seq<byte>, size: seq<byte>,
                    crc: seq<byte>, load: seq<byte>, build: seq<byte>, sum: seq<byte>)
  {
    && |raw| == HEADER_SIZE
    && raw[..4] == magic && raw[4..6] == version && raw[6..8] == length && raw[8..12] == size
    && raw[12..16] == crc && raw[16..20] == load && raw[20..24] == build && raw[COVERED..] == sum
  }

  lemma FieldsApart(magic: seq<byte>, version: seq<byte>, length: seq<byte>, size: seq<byte>,
                    crc: seq<byte>, load: seq<byte>, build: seq<byte>, sum: seq<byte>)
    requires |magic| == |size| == |crc| == |load| == |build| == |sum| == 4 && |version| == |length| == 2
    ensures var core := magic + version + length + size + crc + load + build;
            LaidOut(core + sum, magic, version, length, size, crc, load, build, sum) && (core + sum)[..COVERED] == core
  {
  }

  lemma FieldsTogether(raw: seq<byte>)
    requires |raw| == HEADER_SIZE
    ensures raw == raw[..COVERED] + raw[COVERED..]
    ensures raw[..COVERED] == raw[..4] + raw[4..6] + raw[6..8] + raw[8..12] + raw[12..16] + raw[16..20] + raw[20..24]
  {
  }

  lemma FieldValues(size: nat, crc: nat, load: nat, build: nat)
    requires size < WORD_LIMIT && crc < WORD_LIMIT && load < WORD_LIMIT && build < WORD_LIMIT
    ensures BytesNat(Word(IMAGE_MAGIC)) == IMAGE_MAGIC && BytesNat(Half(VERSION)) == VERSION
    ensures BytesNat(Half(HEADER_SIZE)) == HEADER_SIZE
    ensures BytesNat(Word(size)) == size && BytesNat(Word(crc)) == crc
    ensures BytesNat(Word(load)) == load && BytesNat(Word(build)) == build
  {
    Pow256Values();
    NatRoundTrip(VERSION, 2);
    NatRoundTrip(HEADER_SIZE, 2);
    WordRoundTrip(IMAGE_MAGIC);
    WordRoundTrip(size);
    WordRoundTrip(crc);
    WordRoundTrip(load);
    WordRoundTrip(build);
  }

  /** A header written is a header accepted, field for field. */
  lemma HeaderRoundTrip(size: nat, crc: nat, load: nat, build: nat)
    requires 0 < size <= MAX_PAYLOAD && crc < WORD_LIMIT && load < WORD_LIMIT && build < WORD_LIMIT
    ensures var raw := EncodeHeader(size, crc, load, build);
            Validate(raw) == ImageOk && PayloadSize(raw) == size && PayloadCrc(raw) == crc &&
            LoadAddress(raw) == load && BuildId(raw) == build
  {
    hide BytesNat, NatBytes, Word, Half, HeaderCore;
    var core := HeaderCore(size, crc, load, build);
    Crc.Crc32Bound(core);
    FieldValues(size, crc, load, build);
    WordRoundTrip(Crc.Crc32(core));
    CoreFields(size, crc, load, build, Word(Crc.Crc32(core)));
  }

  lemma CoreFields(size: nat, crc: nat, load: nat, build: nat, sum: seq<byte>)
    requires |sum| == 4
    ensures var core := HeaderCore(size, crc, load, build);
            LaidOut(core + sum, Word(IMAGE_MAGIC), Half(VERSION), Half(HEADER_SIZE), Word(size), Word(crc),
                    Word(load), Word(build), sum) && (core + sum)[..COVERED] == core
  {
    hide BytesNat, NatBytes, Word, Half, LaidOut;
    FieldsApart(Word(IMAGE_MAGIC), Half(VERSION), Half(HEADER_SIZE), Word(size), Word(crc), Word(load), Word(build), sum);
  }

  /** ... and nothing else is: whatever passes every check is what writing its fields gives. */
  lemma AcceptedIsWritten(raw: seq<byte>)
    requires |raw| == HEADER_SIZE && Validate(raw) == ImageOk
    ensures HeaderInit(PayloadSize(raw), PayloadCrc(raw), LoadAddress(raw), BuildId(raw)) == (ImageOk, raw)
  {
    hide BytesNat, NatBytes;
    Pow256Values();
    FieldsTogether(raw);
    FieldWritten(raw[..4], IMAGE_MAGIC);
    FieldWritten(raw[4..6], VERSION);
    FieldWritten(raw[6..8], HEADER_SIZE);
    FieldWritten(raw[8..12], PayloadSize(raw));
    FieldWritten(raw[12..16], PayloadCrc(raw));
    FieldWritten(raw[16..20], LoadAddress(raw));
    FieldWritten(raw[20..24], BuildId(raw));
    FieldWritten(raw[COVERED..], Crc.Crc32(raw[..COVERED]));
  }

  lemma FieldWritten(b: seq<byte>, x: nat)
    requires BytesNat(b) == x
    ensures NatBytes(x, |b|) == b
  {
    BytesNatBound(b);
    NatRoundTrip(x, |b|);
    BytesNatInjective(NatBytes(x, |b|), b);
  }

  /** Exactly which bytes pass: the letters PFW1, version 1, length 28, up to eight megabytes, and the header's own checksum. */
  predicate Passes(raw: seq<byte>)
    requires |raw| == 28
  {
    && raw[..8] == [0x50, 0x46, 0x57, 0x31, 1, 0, 28, 0]
    && 1 <= LittleEndian(raw, 8) <= 0x80_0000
    && LittleEndian(raw, 24) == Crc.Crc32(raw[..24])
  }

  lemma HalfWord(b: seq<byte>)
    requires |b| == 2
    ensures BytesNat(b) == b[0] as nat + 256 * b[1] as nat
  {
    assert b[1..][1..] == [];
    assert BytesNat(b[1..]) == b[1] as int;
  }

  lemma FirstEight(raw: seq<byte>)
    requires |raw| == HEADER_SIZE
    ensures (BytesNat(raw[..4]) == IMAGE_MAGIC && BytesNat(raw[4..6]) == VERSION && BytesNat(raw[6..8]) == HEADER_SIZE) <==>
            raw[..8] == [0x50, 0x46, 0x57, 0x31, 1, 0, 28, 0]
  {
    hide BytesNat;
    var expected: seq<byte> := [0x50, 0x46, 0x57, 0x31, 1, 0, 28, 0];
    HalfWord(raw[4..6]);
    HalfWord(raw[6..8]);
    WordAt(expected, 0);
    assert raw[..8] == raw[..4] + [raw[4], raw[5], raw[6], raw[7]];
    assert expected == expected[..4] + [1, 0, 28, 0] && expected[0..4] == expected[..4];
    if BytesNat(raw[..4]) == IMAGE_MAGIC {
      BytesNatInjective(raw[..4], expected[..4]);
    }
    if raw[..8] == expected {
      assert raw[..4] == raw[..8][..4];
      assert raw[4] == raw[..8][4] && raw[5] == raw[..8][5] && raw[6] == raw[..8][6] && raw[7] == raw[..8][7];
    }
  }

  /** A header is accepted exactly when it passes, and its fields are the words at 8, 12, 16 and 20. */
  lemma HeaderAcceptedIff(raw: seq<byte>)
    requires |raw| == 28
    ensures Validate(raw) == ImageOk <==> Passes(raw)
    ensures PayloadSize(raw) == LittleEndian(raw, 8) && PayloadCrc(raw) == LittleEndian(raw, 12)
    ensures LoadAddress(raw) == LittleEndian(raw, 16) && BuildId(raw) == LittleEndian(raw, 20)
  {
    hide BytesNat, Crc.Crc32, LittleEndian;
    FirstEight(raw);
    WordAt(raw, 8);
    WordAt(raw, 12);
    WordAt(raw, 16);
    WordAt(raw, 20);
    WordAt(raw, 24);
    assert raw[24..] == raw[24..28];
  }

  lemma ErasedHeaderRejected(raw: seq<byte>)
    requires raw == Blank(HEADER_SIZE)
    ensures Validate(raw) == ImageBadMagic
  {
    assert raw[0] == 0xFF && raw[..4][1..][0] == 0xFF;
    assert BytesNat(raw[..4]) % 256 == 0xFF;
  }

  /** Any change to a valid header within four consecutive bytes, its checksum included, is caught. */
  lemma DamagedImageHeaderRejected(raw: seq<byte>, before: seq<byte>, a: seq<byte>, b: seq<byte>, after: seq<byte>)
    requires |raw| == HEADER_SIZE && Validate(raw) == ImageOk
    requires |a| == |b| <= 4 && a != b && raw == before + a + after
    ensures Validate(before + b + after) != ImageOk
  {
    Crc.ChecksummedBurstRejected(raw, before + b + after, before, a, b, after);
  }

  /** The same damage to the payload is caught by the header's checksum of it. */
  lemma DamagedPayloadRejected(raw: seq<byte>, before: seq<byte>, a: seq<byte>, b: seq<byte>, after: seq<byte>)
    requires |raw| == HEADER_SIZE && VerifyPayload(raw, Crc.Crc32(before + a + after)) == ImageOk
    requires |a| == |b| <= 4 && a != b
    ensures VerifyPayload(raw, Crc.Crc32(before + b + after)) == ImageBadPayloadCrc
  {
    Crc.BurstDetected(before, a, b, after);
  }
}
