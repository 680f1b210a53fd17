/** What one slot of components/persistent_config/persistent_config.c looks like in flash. */
module SlotFormat {
  import Crc
  import opened Bytes
  import opened FlashLayout
  import opened FlashStorage

  const MAGIC: nat := 0x31464350
  const HEADER_SIZE: nat := 20
  const COVERED: nat := 16
  const CAPACITY: nat := SECTOR - PAGE

  /** The header without its own checksum. */
  function HeaderCore(sequence: nat, records: seq<byte>): (b: seq<byte>)
    ensures |b| == COVERED
  {
    Word(MAGIC) + Word(sequence) + Word(|records|) + Word(Crc.Crc32(records))
  }

  function EncodeHeader(sequence: nat, records: seq<byte>): (b: seq<byte>)
    ensures |b| == HEADER_SIZE
  {
    var core := HeaderCore(sequence, records);
    core + Word(Crc.Crc32(core))
  }

  /** The header's checks before its length is believed: the magic and its own checksum. */
  predicate HeaderSound(raw: seq<byte>)
    requires |raw| == HEADER_SIZE
  {
    BytesNat(raw[..4]) == MAGIC && BytesNat(raw[COVERED..]) == Crc.Crc32(raw[..COVERED])
  }

  function Sequence(raw: seq<byte>): nat
    requires |raw| == HEADER_SIZE
  {
    BytesNat(raw[4..8])
  }

  function Length(raw: seq<byte>): nat
    requires |raw| == HEADER_SIZE
  {
    BytesNat(raw[8..12])
  }

  function RecordsCrc(raw: seq<byte>): nat
    requires |raw| == HEADER_SIZE
  {
    BytesNat(raw[12..COVERED])
  }

  datatype Stored = Stored(sequence: nat, records: seq<byte>)

  function ReadSlot(slot: seq<byte>): Option<Stored>
    requires |slot| == SECTOR
  {
    var raw := slot[..HEADER_SIZE];
    if !HeaderSound(raw) || Length(raw) > CAPACITY then None
    else
      var records := slot[PAGE..PAGE + Length(raw)];
      if Crc.Crc32(records) != RecordsCrc(raw) then None else Some(Stored(Sequence(raw), records))
  }

  lemma HeaderFields(sequence: nat, records: seq<byte>)
    requires sequence < WORD_LIMIT && |records| < WORD_LIMIT
    ensures var raw := EncodeHeader(sequence, records);
            HeaderSound(raw) && Sequence(raw) == sequence && Length(raw) == |records| &&
            RecordsCrc(raw) == Crc.Crc32(records)
  {
    var core, sum := HeaderCore(sequence, records), Crc.Crc32(records);
    Crc.Crc32Bound(records);
    Crc.Crc32Bound(core);
    WordRoundTrip(MAGIC);
    WordRoundTrip(sequence);
    WordRoundTrip(|records|);
    WordRoundTrip(sum);
    WordRoundTrip(Crc.Crc32(core));
    Quarters(Word(MAGIC), Word(sequence), Word(|records|), Word(sum), Word(Crc.Crc32(core)));
  }

  lemma Quarters(a: seq<byte>, b: seq<byte>, c: seq<byte>, d: seq<byte>, e: seq<byte>)
    requires |a| == |b| == |c| == |d| == |e| == 4
    ensures var core := a + b + c + d;
            var raw := core + e;
            raw[..4] == a && raw[4..8] == b && raw[8..12] == c && raw[12..COVERED] == d &&
            raw[COVERED..] == e && raw[..COVERED] == core
  {
  }

  // ---- the pages a save programs ------------------------------------------------

  function PageCount(n: nat): nat
  {
    (n + PAGE - 1) / PAGE
  }

  function Padded(b: seq<byte>): (r: seq<byte>)
    ensures |r| == PAGE * PageCount(|b|)
  {
    b + Blank(PAGE * PageCount(|b|) - |b|)
  }

  function HeaderPage(sequence: nat, records: seq<byte>): (b: seq<byte>)
    ensures |b| == PAGE
  {
    EncodeHeader(sequence, records) + Blank(PAGE - HEADER_SIZE)
  }

  /** A slot part-way through a save: erased, with the first `pages` pages of records in. */
  function PartSlot(records: seq<byte>, pages: nat): (b: seq<byte>)
    requires pages <= PageCount(|records|) && |records| <= CAPACITY
    ensures |b| == SECTOR
  {
    Blank(PAGE) + Padded(records)[..PAGE * pages] + Blank(CAPACITY - PAGE * pages)
  }

  /** A slot once its header page is in. */
  function NewSlot(page: seq<byte>, records: seq<byte>): (b: seq<byte>)
    requires |page| == PAGE && |records| <= CAPACITY
    ensures |b| == SECTOR
  {
    page + Padded(records) + Blank(CAPACITY - |Padded(records)|)
  }

  lemma NewSlotParts(page: seq<byte>, records: seq<byte>)
    requires |page| == PAGE && |records| <= CAPACITY
    ensures NewSlot(page, records)[..PAGE] == page
    ensures NewSlot(page, records)[PAGE..PAGE + |records|] == records
  {
    var body := Padded(records);
    var rest := Blank(CAPACITY - |body|);
    FrontOfConcat(page + body, rest, PAGE);
    FrontOfConcat(page, body, PAGE);
    MiddleOfConcat(page, body, rest, |records|);
    FrontOfConcat(records, Blank(|body| - |records|), |records|);
  }

  lemma HeaderInPage(slot: seq<byte>, sequence: nat, records: seq<byte>)
    requires |slot| == SECTOR && slot[..PAGE] == HeaderPage(sequence, records)
    ensures slot[..HEADER_SIZE] == EncodeHeader(sequence, records)
  {
    var header := EncodeHeader(sequence, records);
    assert slot[..HEADER_SIZE] == slot[..PAGE][..HEADER_SIZE];
    FrontOfConcat(header, Blank(PAGE - HEADER_SIZE), HEADER_SIZE);
    assert header[..HEADER_SIZE] == header;
  }

  /** A finished slot reads back as exactly what was saved. */
  lemma NewSlotReads(sequence: nat, records: seq<byte>)
    requires sequence < WORD_LIMIT && |records| <= CAPACITY
    ensures var slot := NewSlot(HeaderPage(sequence, records), records);
            ReadSlot(slot) == Some(Stored(sequence, records)) &&
            HeaderSound(slot[..HEADER_SIZE]) && Sequence(slot[..HEADER_SIZE]) == sequence
  {
    HeaderFields(sequence, records);
    NewSlotParts(HeaderPage(sequence, records), records);
    HeaderInPage(NewSlot(HeaderPage(sequence, records), records), sequence, records);
  }

  lemma BlankHeader(raw: seq<byte>)
    requires raw == Blank(HEADER_SIZE)
    ensures !HeaderSound(raw)
  {
    assert raw[0] == 0xFF && raw[..4][1..][0] == 0xFF;
    assert BytesNat(raw[..4]) % 256 == 0xFF;
  }

  // ---- byte by byte ------------------------------------------------------------------

  /** Exactly which sectors hold what: the letters PCF1, three words, two checksums, and the records from byte 256 on. */
  predicate Holds(slot: seq<byte>, sequence: nat, records: seq<byte>)
    requires |slot| == 4096
  {
    && slot[..4] == [0x50, 0x43, 0x46, 0x31]
    && LittleEndian(slot, 4) == sequence && LittleEndian(slot, 8) == |records| <= 3840
    && LittleEndian(slot, 12) == Crc.Crc32(records) && LittleEndian(slot, 16) == Crc.Crc32(slot[..16])
    && slot[256..256 + |records|] == records
  }

  lemma MagicBytes(b: seq<byte>)
    requires |b| == 4
    ensures BytesNat(b) == MAGIC <==> b == [0x50, 0x43, 0x46, 0x31]
  {
    var magic: seq<byte> := [0x50, 0x43, 0x46, 0x31];
    WordAt(magic, 0);
    assert magic[0..4] == magic;
    if BytesNat(b) == MAGIC {
      BytesNatInjective(b, magic);
    }
  }

  /** A slot is read as those records under that sequence number exactly when it holds them. */
  lemma SlotReadsIff(slot: seq<byte>, sequence: nat, records: seq<byte>)
    requires |slot| == 4096
    ensures ReadSlot(slot) == Some(Stored(sequence, records)) <==> Holds(slot, sequence, records)
  {
    hide BytesNat, Crc.Crc32, LittleEndian;
    var raw := slot[..HEADER_SIZE];
    MagicBytes(slot[..4]);
    WordAt(slot, 4);
    WordAt(slot, 8);
    WordAt(slot, 12);
    WordAt(slot, 16);
    assert raw[..4] == slot[..4] && raw[..16] == slot[..16] && raw[16..] == slot[16..16 + 4];
    assert raw[4..8] == slot[4..4 + 4] && raw[8..12] == slot[8..8 + 4] && raw[12..16] == slot[12..12 + 4];
  }

  // ---- damage ---------------------------------------------------------------------

  /** Under a header written for other records with another checksum, nothing is read. */
  lemma ForeignRecordsRejected(sequence: nat, records: seq<byte>, found: seq<byte>, slot: seq<byte>)
    requires sequence < WORD_LIMIT && |found| == |records| <= CAPACITY
    requires |slot| == SECTOR
    requires slot[..PAGE] == HeaderPage(sequence, records) && slot[PAGE..PAGE + |found|] == found
    requires Crc.Crc32(found) != Crc.Crc32(records)
    ensures ReadSlot(slot) == None
  {
    HeaderFields(sequence, records);
    HeaderInPage(slot, sequence, records);
  }

  /** Any change to the records within four consecutive bytes makes the slot unreadable. */
  lemma DamagedRecordsRejected(sequence: nat, before: seq<byte>, a: seq<byte>, b: seq<byte>, after: seq<byte>, slot: seq<byte>)
    requires sequence < WORD_LIMIT && |a| == |b| <= 4 && a != b
    requires |before + a + after| <= CAPACITY
    requires |slot| == SECTOR
    requires slot[..PAGE] == HeaderPage(sequence, before + a + after)
    requires slot[PAGE..PAGE + |before + b + after|] == before + b + after
    ensures ReadSlot(slot) == None
  {
    Crc.BurstDetected(before, a, b, after);
    ForeignRecordsRejected(sequence, before + a + after, before + b + after, slot);
  }

  /** Any change to a sound header within four consecutive bytes makes it unsound, its checksum included. */
  lemma DamagedHeaderRejected(raw: seq<byte>, before: seq<byte>, a: seq<byte>, b: seq<byte>, after: seq<byte>)
    requires |raw| == HEADER_SIZE && HeaderSound(raw)
    requires |a| == |b| <= 4 && a != b && raw == before + a + after
    ensures !HeaderSound(before + b + after)
  {
    Crc.ChecksummedBurstRejected(raw, before + b + after, before, a, b, after);
  }
}
