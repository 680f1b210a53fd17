/**
 * Acceptance filters in software (components/can_frame/can_frame.c) and as the registers of a
 * controller with two receive buffers (components/mcp2515/mcp2515_filters.c and
 * components/mcp2515/mcp2515_frame.c).
 */
module CanFilters {
  import opened Arithmetic
  import opened Bytes
  import opened CanFrames

  const STANDARD: nat := 0x800
  const EID_WIDTH: nat := 0x4_0000
  const EXTENDED: nat := 0x2000_0000
  const RTR_FLAG: nat := 0x4000_0000
  const EXTENDED_FLAG: nat := 0x8000_0000

  // ---- packed identifiers -----------------------------------------------------------------

  predicate IsExtended(packed: nat)
  {
    packed % WORD_LIMIT >= EXTENDED_FLAG
  }

  predicate IsRemote(packed: nat)
  {
    packed % EXTENDED_FLAG >= RTR_FLAG
  }

  /** The identifier alone, in the width its kind allows. */
  function IdValue(packed: nat): nat
  {
    if IsExtended(packed) then packed % EXTENDED else packed % STANDARD
  }

  function Pack(id: nat, extended: bool, remote: bool): nat
  {
    (if extended then id % EXTENDED + EXTENDED_FLAG else id % STANDARD) + if remote then RTR_FLAG else 0
  }

  /** Where a packed identifier keeps its two flags, and how much of it is the identifier. */
  lemma PackedBits(id: nat, extended: bool, remote: bool)
    requires id < 0x2000_0000 && (!extended ==> id < 0x800)
    ensures Pack(id, extended, remote) == id + (if extended then 0x8000_0000 else 0) + if remote then 0x4000_0000 else 0
  {
  }

  lemma PackRoundTrip(id: nat, extended: bool, remote: bool)
    requires id <= IdLimit(extended)
    ensures var p := Pack(id, extended, remote);
            p < WORD_LIMIT && IsExtended(p) == extended && IsRemote(p) == remote && IdValue(p) == id
  {
    var p := Pack(id, extended, remote);
    if extended {
      assert id % EXTENDED == id && p / EXTENDED_FLAG == 1 && p % EXTENDED == id;
    } else {
      assert id % STANDARD == id && p / EXTENDED_FLAG == 0 && p % STANDARD == id;
    }
    assert p / RTR_FLAG % 2 == if remote then 1 else 0;
  }

  // ---- filters in software -----------------------------------------------------------------

  datatype Filter = Filter(id: nat, mask: nat)

  predicate Matches(f: Filter, packed: nat)
  {
    And(packed, f.mask) == And(f.id, f.mask)
  }

  predicate FiltersAccept(filters: seq<Filter>, packed: nat)
  {
    |filters| == 0 || exists i :: 0 <= i < |filters| && Matches(filters[i], packed)
  }

  method CheckFilters(filters: seq<Filter>, packed: nat) returns (accepted: bool)
    ensures accepted == FiltersAccept(filters, packed)
  {
    if |filters| == 0 {
      return true;
    }
    for i := 0 to |filters|
      invariant forall j :: 0 <= j < i ==> !Matches(filters[j], packed)
    {
      if Matches(filters[i], packed) {
        return true;
      }
    }
    return false;
  }

  // ---- register bytes ----------------------------------------------------------------------

  const EXIDE: nat := 8

  /** SIDH, SIDL, EID8, EID0. */
  function PackId(packed: nat): (b: seq<byte>)
    ensures |b| == 4
  {
    var id := IdValue(packed);
    if IsExtended(packed) then
      var sid, eid := id / EID_WIDTH % STANDARD, id % EID_WIDTH;
      [sid / 8, sid % 8 * 32 + EXIDE + eid / 0x1_0000, eid / 256 % 256, eid % 256]
    else [id / 8, id % 8 * 32, 0, 0]
  }

  /** A mask has the layout its bank's filters have, whatever its own flag says. */
  function PackMask(mask: nat, extended: bool): (b: seq<byte>)
    ensures |b| == 4
  {
    var plain := if IsExtended(mask) then mask - EXTENDED_FLAG else mask;
    PackId(if extended then plain + EXTENDED_FLAG else plain)
  }

  function PackHeader(m: CanMessage): (b: seq<byte>)
    ensures |b| == 5
  {
    PackId(Pack(m.id, m.extended, m.remote)) + [m.length % 16 + if m.remote then 64 else 0]
  }

  /** Everything of a message but its data. */
  function UnpackHeader(b: seq<byte>): CanMessage
    requires |b| == 5
  {
    var extended := b[1] / 8 % 2 == 1;
    var sid, eid := Sid(b[..4]), Eid(b[..4]);
    CanMessage(if extended then sid * 0x4_0000 + eid else sid, DlcToLength(b[4] % 16), extended, b[4] % 128 >= 64,
               Zeros(MAX_DATA))
  }

  function SidIn(high: nat, low: nat): nat
  {
    high * 8 + low / 32
  }

  function EidIn(top: nat, high: nat, low: nat): nat
  {
    top % 4 * 0x1_0000 + high * 256 + low
  }

  function Sid(b: seq<byte>): nat
    requires |b| == 4
  {
    SidIn(b[0], b[1])
  }

  function Eid(b: seq<byte>): nat
    requires |b| == 4
  {
    EidIn(b[1], b[2], b[3])
  }

  /** The four register bytes of an identifier, bit field by bit field: eleven bits, or eleven, the kind and eighteen. */
  lemma RegisterBytes(id: nat)
    requires id < 0x2000_0000
    ensures id < 0x800 ==> PackId(id) == [id / 8, id % 8 * 32, 0, 0]
    ensures PackId(id + 0x8000_0000) ==
              [id / 0x20_0000, id / 0x4_0000 % 8 * 32 + 8 + id / 0x1_0000 % 4, id / 0x100 % 0x100, id % 0x100]
  {
    if id < 0x800 {
      StandardBytes(id);
    }
    ExtendedBytes(id);
  }

  lemma StandardBytes(id: nat)
    requires id < 0x800
    ensures PackId(id) == [id / 8, id % 8 * 32, 0, 0]
  {
    hide IsExtended, IdValue;
    FlagApart(id);
  }

  lemma ExtendedBytes(id: nat)
    requires id < 0x2000_0000
    ensures PackId(id + 0x8000_0000) ==
              [id / 0x20_0000, id / 0x4_0000 % 8 * 32 + 8 + id / 0x1_0000 % 4, id / 0x100 % 0x100, id % 0x100]
  {
    hide IsExtended, IdValue;
    FlagApart(id);
    FieldsOf(id);
  }

  lemma FlagApart(id: nat)
    requires id < 0x2000_0000
    ensures IsExtended(id + 0x8000_0000) && IdValue(id + 0x8000_0000) == id
    ensures !IsExtended(id) && (id < 0x800 ==> IdValue(id) == id)
  {
  }

  lemma FieldsOf(id: nat)
    requires id < 0x2000_0000
    ensures id / 0x4_0000 < 0x800 && id / 0x4_0000 % 0x800 == id / 0x4_0000 && id / 0x4_0000 / 8 == id / 0x20_0000
    ensures id % 0x4_0000 / 0x1_0000 == id / 0x1_0000 % 4
    ensures id % 0x4_0000 / 0x100 % 0x100 == id / 0x100 % 0x100 && id % 0x4_0000 % 0x100 == id % 0x100
  {
    LowFields(id / 0x4_0000, id % 0x4_0000, id);
    HighField(id / 0x4_0000, id % 0x4_0000, id);
  }

  lemma HighField(high: nat, low: nat, id: nat)
    requires id == 0x4_0000 * high + low && low < 0x4_0000
    ensures high / 8 == id / 0x20_0000
  {
    DivUnique(id, 0x20_0000, high / 8, 0x4_0000 * (high % 8) + low);
  }

  lemma LowFields(high: nat, low: nat, id: nat)
    requires id == 0x4_0000 * high + low && low < 0x4_0000
    ensures low / 0x1_0000 == id / 0x1_0000 % 4 && low / 0x100 % 0x100 == id / 0x100 % 0x100 && low % 0x100 == id % 0x100
  {
    DivUnique(id, 0x1_0000, 4 * high + low / 0x1_0000, low % 0x1_0000);
    DivUnique(id, 0x100, 0x400 * high + low / 0x100, low % 0x100);
    DivUnique(4 * high + low / 0x1_0000, 4, high, low / 0x1_0000);
    DivUnique(0x400 * high + low / 0x100, 0x100, 4 * high + low / 0x1_0000, low / 0x100 % 0x100);
  }

  lemma SidlBits(low: nat, top: nat)
    requires low < 8 && top < 4
    ensures var b := low * 32 + EXIDE + top; b < 256 && b / 32 == low && b / EXIDE % 2 == 1 && b % 4 == top
  {
  }

  lemma EidBytes(eid: nat)
    requires eid < EID_WIDTH
    ensures eid / 0x1_0000 < 4 && eid / 0x1_0000 * 0x1_0000 + eid / 256 % 256 * 256 + eid % 256 == eid
  {
  }

  lemma ExtendedFields(sid: nat, eid: nat)
    requires sid < STANDARD && eid < EID_WIDTH
    ensures var b1 := sid % 8 * 32 + EXIDE + eid / 0x1_0000;
            b1 < 256 && sid / 8 < 256 && b1 / EXIDE % 2 == 1 && SidIn(sid / 8, b1) == sid &&
            EidIn(b1, eid / 256 % 256, eid % 256) == eid
  {
    EidBytes(eid);
    SidlBits(sid % 8, eid / 0x1_0000);
  }

  lemma StandardFields(id: nat)
    requires id < STANDARD
    ensures var b1 := id % 8 * 32;
            b1 < 256 && id / 8 < 256 && b1 / EXIDE % 2 == 0 && SidIn(id / 8, b1) == id && EidIn(b1, 0, 0) == 0
  {
  }

  lemma IdParts(packed: nat)
    ensures var id := IdValue(packed);
            if IsExtended(packed) then id / EID_WIDTH < STANDARD else id < STANDARD
  {
  }

  /** What the controller reads in the registers of an identifier. */
  lemma PackedFields(packed: nat)
    ensures var b, id := PackId(packed), IdValue(packed);
            && (b[1] / EXIDE % 2 == 1) == IsExtended(packed)
            && Sid(b) == (if IsExtended(packed) then id / EID_WIDTH else id)
            && Eid(b) == (if IsExtended(packed) then id % EID_WIDTH else 0)
  {
    hide IsExtended, IdValue, SidIn, EidIn;
    var id := IdValue(packed);
    IdParts(packed);
    if IsExtended(packed) {
      var sid := id / EID_WIDTH;
      assert sid % STANDARD == sid;
      ExtendedFields(sid, id % EID_WIDTH);
    } else {
      StandardFields(id);
    }
  }

  /** A header written and read back is the message it was written for, its data apart. */
  lemma HeaderRoundTrip(m: CanMessage)
    requires ValidMessage(m)
    ensures UnpackHeader(PackHeader(m)) == m.(data := Zeros(MAX_DATA))
  {
    hide Zeros, PackId, Pack, IsExtended, IdValue, Sid, Eid;
    var packed := Pack(m.id, m.extended, m.remote);
    PackRoundTrip(m.id, m.extended, m.remote);
    PackedFields(packed);
    var b := PackHeader(m);
    assert b[..4] == PackId(packed);
  }

  /** Any five bytes a controller hands over: eleven bits or twenty-nine, a length no greater than eight whatever the field says. */
  lemma HeaderRead(b: seq<byte>)
    requires |b| == 5
    ensures var m := UnpackHeader(b); var sid := 8 * b[0] as nat + b[1] as nat / 32;
            && m.extended == (b[1] / 8 % 2 == 1) && m.remote == (b[4] / 64 % 2 == 1)
            && m.id == (if b[1] / 8 % 2 == 1 then 0x4_0000 * sid + 0x1_0000 * (b[1] as nat % 4) + 0x100 * b[2] as nat + b[3] as nat else sid)
            && m.length == (if b[4] % 16 > 8 then 8 else b[4] % 16) && |m.data| == 8
  {
  }

  // ---- the controller (section 4.5 of the MCP2515 datasheet) -------------------------------------

  /**
   * A frame on the bus, with the sixteen bits the controller finds where its first two data
   * bytes would be: it compares those of a standard frame with the filter's extended bits.
   */
  datatype Frame = Frame(id: nat, extended: bool, remote: bool, firstData: nat)

  predicate OnBus(f: Frame)
  {
    f.id <= IdLimit(f.extended) && f.firstData < 0x1_0000
  }

  predicate Same(x: nat, y: nat, mask: nat)
  {
    And(x, mask) == And(y, mask)
  }

  /** One filter register under one mask register; the frame type is always compared. */
  predicate SlotAccepts(filter: seq<byte>, mask: seq<byte>, f: Frame)
    requires |filter| == |mask| == 4
  {
    && (filter[1] / 8 % 2 == 1) == f.extended
    && if f.extended then
         Same(f.id / 0x4_0000, Sid(filter), Sid(mask)) && Same(f.id % 0x4_0000, Eid(filter), Eid(mask))
       else
         Same(f.id, Sid(filter), Sid(mask)) && Same(f.firstData, Eid(filter) % 0x1_0000, Eid(mask) % 0x1_0000)
  }

  // ---- compiling one to the other ---------------------------------------------------------------

  const SLOTS: nat := 6
  const BANK0: nat := 2
  const BANK1: nat := 4

  datatype Plan = Plan(acceptAll: bool, filterId: seq<nat>, mask: seq<nat>, maskExtended: seq<bool>)

  function BankLeader(i: nat): nat
  {
    if i < BANK0 then 0 else BANK0
  }

  predicate FiltersValid(filters: seq<Filter>)
  {
    && |filters| <= SLOTS
    && (forall i :: 0 <= i < |filters| ==> IsExtended(filters[i].mask) && !IsRemote(filters[i].mask))
    && (forall i :: 0 <= i < |filters| ==>
          filters[i].mask == filters[BankLeader(i)].mask &&
          IsExtended(filters[i].id) == IsExtended(filters[BankLeader(i)].id))
  }

  predicate Shaped(p: Plan)
  {
    |p.filterId| == 6 && |p.mask| == |p.maskExtended| == 2
  }

  /** Whether the controller, loaded with a plan, takes a frame into either buffer. */
  predicate ControllerAccepts(p: Plan, f: Frame)
    requires Shaped(p)
  {
    p.acceptAll ||
    exists slot :: 0 <= slot < 6 && BankAccepts(p, slot, f)
  }

  predicate BankAccepts(p: Plan, slot: nat, f: Frame)
    requires Shaped(p) && slot < 6
  {
    var bank := if slot < 2 then 0 else 1;
    SlotAccepts(PackId(p.filterId[slot]), PackMask(p.mask[bank], p.maskExtended[bank]), f)
  }

  // ---- masks, field by field --------------------------------------------------------------------

  function Low(x: nat, n: nat): nat
  {
    if n == 0 then 0 else x % 2 + 2 * Low(x / 2, n - 1)
  }

  function High(x: nat, n: nat): nat
  {
    if n == 0 then x else High(x / 2, n - 1)
  }

  lemma SameHalf(x: nat, y: nat, m: nat)
    ensures Same(x, y, m) <==> (m % 2 == 1 ==> x % 2 == y % 2) && Same(x / 2, y / 2, m / 2)
  {
    AndHalf(x, m);
    AndHalf(y, m);
  }

  lemma AndHalf(a: nat, b: nat)
    ensures And(a, b) == (if a % 2 == 1 && b % 2 == 1 then 1 else 0) + 2 * And(a / 2, b / 2)
  {
  }

  lemma LowHalf(x: nat, n: nat)
    requires n > 0
    ensures Low(x, n) % 2 == x % 2 && Low(x, n) / 2 == Low(x / 2, n - 1) && High(x, n) == High(x / 2, n - 1)
  {
  }

  lemma Whole(x: nat)
    ensures Low(x, 0) == 0 && High(x, 0) == x
  {
  }

  /** Two words agree under a mask exactly when their low and high parts do under its. */
  lemma {:induction false} SameSplit(x: nat, y: nat, m: nat, n: nat)
    ensures Same(x, y, m) <==> Same(Low(x, n), Low(y, n), Low(m, n)) && Same(High(x, n), High(y, n), High(m, n))
  {
    hide Same, And, Low, High;
    if n == 0 {
      Whole(x);
      Whole(y);
      Whole(m);
      SameSelf(0, 0);
    } else {
      LowHalf(x, n);
      LowHalf(y, n);
      LowHalf(m, n);
      SameHalf(x, y, m);
      SameHalf(Low(x, n), Low(y, n), Low(m, n));
      SameSplit(x / 2, y / 2, m / 2, n - 1);
    }
  }

  lemma SameSelf(x: nat, m: nat)
    ensures Same(x, x, m)
  {
  }

  lemma Unmasked(x: nat, y: nat)
    ensures Same(x, y, 0)
  {
  }

  lemma {:induction false} LowHigh(x: nat, n: nat)
    ensures Pow2(n) > 0 && Low(x, n) == x % Pow2(n) && High(x, n) == x / Pow2(n)
  {
    if n > 0 {
      LowHigh(x / 2, n - 1);
      HalfParts(x, Pow2(n - 1));
    } else {
      DivUnique(x, 1, x, 0);
    }
  }

  lemma PowersHere()
    ensures Pow2(11) == STANDARD && Pow2(18) == EID_WIDTH && Pow2(29) == EXTENDED
  {
    assert Pow2(8) == 256;
    assert Pow2(16) == 0x1_0000;
    assert Pow2(24) == 0x100_0000;
  }

  /** The splits that matter here, in plain arithmetic. */
  lemma SameAtFlags(x: nat, y: nat, m: nat)
    ensures Same(x, y, m) <==> Same(x % EXTENDED, y % EXTENDED, m % EXTENDED) && Same(x / EXTENDED, y / EXTENDED, m / EXTENDED)
  {
    hide Same, Pow2, Low, High;
    PowersHere();
    SameSplit(x, y, m, 29);
    LowHigh(x, 29);
    LowHigh(y, 29);
    LowHigh(m, 29);
  }

  lemma SameAtSid(x: nat, y: nat, m: nat)
    ensures Same(x, y, m) <==> Same(x % EID_WIDTH, y % EID_WIDTH, m % EID_WIDTH) && Same(x / EID_WIDTH, y / EID_WIDTH, m / EID_WIDTH)
  {
    hide Same, Pow2, Low, High;
    PowersHere();
    SameSplit(x, y, m, 18);
    LowHigh(x, 18);
    LowHigh(y, 18);
    LowHigh(m, 18);
  }

  lemma SameAtEleven(x: nat, y: nat, m: nat)
    ensures Same(x, y, m) <==> Same(x % STANDARD, y % STANDARD, m % STANDARD) && Same(x / STANDARD, y / STANDARD, m / STANDARD)
  {
    hide Same, Pow2, Low, High;
    PowersHere();
    SameSplit(x, y, m, 11);
    LowHigh(x, 11);
    LowHigh(y, 11);
    LowHigh(m, 11);
  }

  // ---- one filter, in software and in a register -------------------------------------------------

  /** Words of 32 bits, with a mask the controller can express. */
  predicate Expressible(f: Filter)
  {
    f.id < WORD_LIMIT && f.mask < WORD_LIMIT && IsExtended(f.mask) && !IsRemote(f.mask)
  }

  /** What a register keeps of an identifier: what can_id_pack would have made of it. */
  function Clean(id: nat): nat
  {
    Pack(IdValue(id), IsExtended(id), IsRemote(id))
  }

  /** No bit the register drops is one the mask compares. */
  predicate Faithful(f: Filter)
  {
    Same(f.id, Clean(f.id), f.mask)
  }

  predicate SpareBit(word: nat)
  {
    word % RTR_FLAG >= EXTENDED
  }

  function Packed(f: Frame): nat
  {
    Pack(f.id, f.extended, f.remote)
  }

  lemma PackParts(id: nat, extended: bool, remote: bool)
    requires id <= IdLimit(extended)
    ensures var p := Pack(id, extended, remote);
            p % EXTENDED == id && p / EXTENDED == (if extended then 4 else 0) + if remote then 2 else 0
  {
  }

  lemma MaskParts(mask: nat)
    requires mask < WORD_LIMIT && IsExtended(mask) && !IsRemote(mask)
    ensures mask / EXTENDED == 4 || mask / EXTENDED == 5
    ensures var plain := mask - EXTENDED_FLAG;
            IdValue(plain + EXTENDED_FLAG) == mask % EXTENDED && !IsExtended(plain) &&
            IdValue(plain) == mask % EXTENDED % STANDARD
  {
  }

  /** Flags agree when the types do, the remote bit never compared and the spare one only on asking. */
  lemma FlagsSame(e: bool, r: bool, flags: nat, mask: nat)
    requires (mask == 4 || mask == 5) && flags < 8
    ensures Same((if e then 4 else 0) + (if r then 2 else 0), flags, mask) <==>
              e == (flags >= 4) && !(mask == 5 && flags % 2 == 1)
  {
    AndSmall((if e then 4 else 0) + (if r then 2 else 0), mask);
    AndSmall(flags, mask);
  }

  lemma AndSmall(x: nat, mask: nat)
    requires x < 8 && (mask == 4 || mask == 5)
    ensures And(x, mask) == (if x >= 4 then 4 else 0) + if mask == 5 && x % 2 == 1 then 1 else 0
  {
    AndHalf(x, mask);
    AndHalf(x / 2, mask / 2);
    AndHalf(x / 4, 1);
    assert mask / 2 == 2 && mask / 4 == 1 && And(x / 8, 0) == 0;
  }

  lemma FlagsOf(id: nat)
    requires id < WORD_LIMIT
    ensures id / EXTENDED < 8 && IsExtended(id) == (id / EXTENDED >= 4)
  {
  }

  /** In software a filter compares the type, any spare bit of its own, and under the mask the identifier. */
  lemma MatchesParts(f: Filter, fr: Frame)
    requires OnBus(fr) && Expressible(f)
    ensures Matches(f, Packed(fr)) <==>
              fr.extended == IsExtended(f.id) && !(SpareBit(f.mask) && SpareBit(f.id)) &&
              Same(fr.id, f.id % EXTENDED, f.mask % EXTENDED)
  {
    hide Pack, And, IsExtended, IsRemote, IdValue;
    SameAtFlags(Packed(fr), f.id, f.mask);
    PackParts(fr.id, fr.extended, fr.remote);
    MaskParts(f.mask);
    FlagsOf(f.id);
    FlagsSame(fr.extended, fr.remote, f.id / EXTENDED, f.mask / EXTENDED);
  }

  lemma CleanParts(id: nat)
    ensures Clean(id) < WORD_LIMIT && IsExtended(Clean(id)) == IsExtended(id) && IdValue(Clean(id)) == IdValue(id)
    ensures Clean(id) % EXTENDED == IdValue(id) <= IdLimit(IsExtended(id)) && !SpareBit(Clean(id))
    ensures PackId(Clean(id)) == PackId(id)
  {
    hide PackId;
    assert IdValue(id) <= IdLimit(IsExtended(id));
    PackRoundTrip(IdValue(id), IsExtended(id), IsRemote(id));
    PackParts(IdValue(id), IsExtended(id), IsRemote(id));
    PackedAlike(Clean(id), id);
  }

  lemma PackedAlike(x: nat, y: nat)
    requires IdValue(x) == IdValue(y) && IsExtended(x) == IsExtended(y)
    ensures PackId(x) == PackId(y)
  {
    hide IdValue, IsExtended;
  }

  /** Loaded into a register, any filter under its own mask takes what its cleaned identifier matches. */
  lemma SlotCleans(f: Filter, fr: Frame)
    requires OnBus(fr) && Expressible(f)
    ensures SlotAccepts(PackId(f.id), PackMask(f.mask, IsExtended(f.id)), fr) <==>
              Matches(Filter(Clean(f.id), f.mask), Packed(fr))
  {
    hide Pack, Same, IsExtended, IsRemote, IdValue, PackId, Sid, Eid, Clean, SpareBit;
    var id, m := IdValue(f.id), f.mask % EXTENDED;
    CleanParts(f.id);
    MatchesParts(Filter(Clean(f.id), f.mask), fr);
    MaskParts(f.mask);
    FlagRestored(f.mask);
    PackedFields(f.id);
    if IsExtended(f.id) {
      PackedFields(f.mask);
      SameAtSid(fr.id, id, m);
    } else {
      PackedFields(f.mask - EXTENDED_FLAG);
      if !fr.extended {
        StandardSame(fr.id, id, m);
        Unmasked(fr.firstData, 0);
      }
    }
  }

  /** So it takes exactly the frames it matches, unless the mask compares a bit the register drops. */
  lemma SlotExact(f: Filter, fr: Frame)
    requires OnBus(fr) && Expressible(f) && Faithful(f)
    ensures SlotAccepts(PackId(f.id), PackMask(f.mask, IsExtended(f.id)), fr) <==> Matches(f, Packed(fr))
  {
    hide SlotAccepts, PackId, PackMask, Packed, Clean, And, IsExtended, IsRemote;
    SlotCleans(f, fr);
  }

  predicate SlotAgrees(f: Filter, fr: Frame)
  {
    SlotAccepts(PackId(f.id), PackMask(f.mask, IsExtended(f.id)), fr) <==> Matches(f, Packed(fr))
  }

  /** Register and software agree on every frame exactly when the mask compares no bit the register drops. */
  lemma SlotExactIff(f: Filter)
    requires Expressible(f)
    ensures (forall fr :: OnBus(fr) ==> SlotAgrees(f, fr)) <==> Faithful(f)
  {
    hide SlotAccepts, PackId, PackMask, Pack, And, IsExtended, IsRemote, IdValue;
    if Faithful(f) {
      forall fr | OnBus(fr) ensures SlotAgrees(f, fr) {
        SlotExact(f, fr);
      }
    } else {
      var fr := Frame(IdValue(f.id), IsExtended(f.id), IsRemote(f.id), 0);
      CleanParts(f.id);
      SlotCleans(f, fr);
      assert Packed(fr) == Clean(f.id);
      assert OnBus(fr) && !SlotAgrees(f, fr);
    }
  }

  /** A filter that compares a dropped bit matches no frame there can be. */
  lemma UnfaithfulMatchesNothing(f: Filter, fr: Frame)
    requires OnBus(fr) && Expressible(f) && Matches(f, Packed(fr))
    ensures Faithful(f)
  {
    hide Pack, Same, IsExtended, IsRemote, IdValue, Clean;
    var id, c, m := f.id % EXTENDED, IdValue(f.id), f.mask % EXTENDED;
    MatchesParts(f, fr);
    CleanParts(f.id);
    SameAtFlags(f.id, Clean(f.id), f.mask);
    CleanFlagsSame(f);
    IdWidths(f.id);
    if IsExtended(f.id) {
      SameSelf(id, m);
    } else {
      SameAtEleven(fr.id, id, m);
      SameAtEleven(id, c, m);
      SmallId(fr.id);
      SmallId(c);
      SameSelf(c, m % STANDARD);
      SameTurned(0, id / STANDARD, m / STANDARD);
    }
  }

  lemma SameTurned(x: nat, y: nat, m: nat)
    ensures Same(x, y, m) <==> Same(y, x, m)
  {
  }

  lemma IdWidths(id: nat)
    ensures IdValue(id) == if IsExtended(id) then id % EXTENDED else id % EXTENDED % STANDARD
  {
  }

  lemma CleanFlagsSame(f: Filter)
    requires Expressible(f) && !(SpareBit(f.mask) && SpareBit(f.id))
    ensures Same(f.id / EXTENDED, Clean(f.id) / EXTENDED, f.mask / EXTENDED)
  {
    hide Same;
    var e, r := IsExtended(f.id), IsRemote(f.id);
    IdParts(f.id);
    assert IdValue(f.id) <= IdLimit(e);
    PackParts(IdValue(f.id), e, r);
    MaskParts(f.mask);
    FlagsOf(f.id);
    FlagsSame(e, r, f.id / EXTENDED, f.mask / EXTENDED);
    SameTurned(f.id / EXTENDED, Clean(f.id) / EXTENDED, f.mask / EXTENDED);
  }

  /** A filter over a bit no standard identifier has: nothing in software, frame zero in a register. */
  lemma BitBeyondWidth(data: nat)
    requires data < 0x1_0000
    ensures var f, fr := Filter(0x800, 0x8000_0800), Frame(0, false, false, data);
            && FiltersValid([f]) && OnBus(fr) && Expressible(f) && !Faithful(f)
            && SlotAccepts(PackId(f.id), PackMask(f.mask, IsExtended(f.id)), fr) && !Matches(f, Packed(fr))
  {
    hide Same, SlotAccepts, PackMask, PackId, Clean, Pack, IsExtended, IsRemote;
    var f, fr := Filter(0x800, 0x8000_0800), Frame(0, false, false, data);
    assert [f][0] == f;
    BitDropped();
    SlotCleans(f, fr);
    SameSelf(0, f.mask);
    ElevenCompared();
  }

  lemma BitDropped()
    ensures Clean(0x800) == 0 && Pack(0, false, false) == 0
    ensures IsExtended(0x8000_0800) && !IsRemote(0x8000_0800) && !IsExtended(0x800)
  {
  }

  lemma ElevenCompared()
    ensures !Same(0x800, 0, 0x8000_0800) && !Same(0, 0x800, 0x8000_0800)
  {
    hide Same;
    SameAtFlags(0, 0x800, 0x8000_0800);
    SameAtEleven(0, 0x800, 0x800);
    LowestBit();
    SameTurned(0, 0x800, 0x8000_0800);
  }

  lemma LowestBit()
    ensures !Same(0, 1, 1)
  {
    assert And(1, 1) == 1 && And(0, 1) == 0;
  }

  lemma StandardSame(x: nat, y: nat, m: nat)
    requires x < STANDARD && y < STANDARD
    ensures Same(x, y, m) <==> Same(x, y, m % STANDARD)
  {
    hide Same;
    SameAtEleven(x, y, m);
    SmallId(x);
    SmallId(y);
    SameSelf(0, m / STANDARD);
  }

  lemma FlagRestored(mask: nat)
    requires mask < WORD_LIMIT && IsExtended(mask)
    ensures mask >= EXTENDED_FLAG && mask - EXTENDED_FLAG + EXTENDED_FLAG == mask
  {
  }

  lemma SmallId(id: nat)
    requires id < STANDARD
    ensures id % STANDARD == id && id / STANDARD == 0
  {
  }

  // ---- the whole plan ----------------------------------------------------------------------------

  /** Which of the caller's filters goes in a slot. */
  function Source(slot: nat, count: nat): (i: nat)
    requires slot < SLOTS && 0 < count <= SLOTS
    ensures i < count
  {
    if slot < BANK0 then slot % Few(count)
    else if count > BANK0 then BANK0 + (slot - BANK0) % (count - BANK0)
    else (slot - BANK0) % Few(count)
  }

  /** How many filters the first bank gets. */
  function Few(count: nat): nat
  {
    if count < BANK0 then count else BANK0
  }

  function BankSource(bank: nat, count: nat): nat
  {
    if bank == 1 && count > BANK0 then BANK0 else 0
  }

  function PlanOf(filters: seq<Filter>): (p: Option<Plan>)
    ensures p.Some? ==> Shaped(p.value)
  {
    if !FiltersValid(filters) then None
    else if |filters| == 0 then Some(Plan(true, [0, 0, 0, 0, 0, 0], [0, 0], [false, false]))
    else
      var n := |filters|;
      Some(Plan(false,
        seq(SLOTS, slot requires 0 <= slot < SLOTS => filters[Source(slot, n)].id),
        seq(2, bank requires 0 <= bank < 2 => filters[BankSource(bank, n)].mask),
        seq(2, bank requires 0 <= bank < 2 => IsExtended(filters[BankSource(bank, n)].id))))
  }

  /** One mask and one kind of identifier for all the filters from `first` up to `end`. */
  predicate OneMask(filters: seq<Filter>, first: nat, end: nat)
    requires end <= |filters|
  {
    forall i :: first <= i < end ==>
      filters[i].mask == filters[first].mask && (filters[i].id % 0x1_0000_0000 >= 0x8000_0000) == (filters[first].id % 0x1_0000_0000 >= 0x8000_0000)
  }

  /**
   * There is a plan exactly for up to six filters, the first two of one mask and kind and the other
   * four of one, whose masks compare the kind of frame and not whether it is remote.
   */
  lemma PlanGivenIff(filters: seq<Filter>)
    requires forall i :: 0 <= i < |filters| ==> filters[i].mask < 0x1_0000_0000
    ensures PlanOf(filters).Some? <==>
              && |filters| <= 6
              && (forall i :: 0 <= i < |filters| ==> filters[i].mask >= 0x8000_0000 && filters[i].mask % 0x8000_0000 < 0x4000_0000)
              && OneMask(filters, 0, if |filters| < 2 then |filters| else 2)
              && (|filters| > 2 ==> OneMask(filters, 2, |filters|))
  {
    hide PlanOf, FiltersValid, OneMask;
    PlanForValid(filters);
    ValidIsExpressible(filters);
    BanksIff(filters);
  }

  /** Each filter compared with its bank's leader. */
  predicate Led(filters: seq<Filter>)
  {
    forall i :: 0 <= i < |filters| ==>
      BankLeader(i) < |filters| && filters[i].mask == filters[BankLeader(i)].mask &&
      IsExtended(filters[i].id) == IsExtended(filters[BankLeader(i)].id)
  }

  lemma ValidIsExpressible(filters: seq<Filter>)
    requires forall i :: 0 <= i < |filters| ==> filters[i].mask < 0x1_0000_0000
    ensures FiltersValid(filters) <==>
              |filters| <= 6 && Led(filters) &&
              forall i :: 0 <= i < |filters| ==> filters[i].mask >= 0x8000_0000 && filters[i].mask % 0x8000_0000 < 0x4000_0000
  {
    forall i | 0 <= i < |filters|
      ensures IsExtended(filters[i].mask) && !IsRemote(filters[i].mask) <==>
              filters[i].mask >= 0x8000_0000 && filters[i].mask % 0x8000_0000 < 0x4000_0000
    {
    }
  }

  lemma BanksIff(filters: seq<Filter>)
    ensures Led(filters) <==>
              OneMask(filters, 0, if |filters| < 2 then |filters| else 2) && (|filters| > 2 ==> OneMask(filters, 2, |filters|))
  {
    if Led(filters) {
      forall i | 0 <= i < |filters|
        ensures filters[i].mask == filters[if i < 2 then 0 else 2].mask
        ensures IsExtended(filters[i].id) == IsExtended(filters[if i < 2 then 0 else 2].id)
      {
        assert BankLeader(i) == if i < 2 then 0 else 2;
      }
    }
  }

  lemma PlanForValid(filters: seq<Filter>)
    ensures PlanOf(filters).Some? <==> FiltersValid(filters)
  {
    hide FiltersValid;
  }

  lemma SourceInBank(slot: nat, count: nat)
    requires slot < SLOTS && 0 < count <= SLOTS
    ensures BankLeader(Source(slot, count)) == BankSource(if slot < BANK0 then 0 else 1, count)
  {
  }

  lemma EverySourceUsed(i: nat, count: nat)
    requires i < count <= SLOTS
    ensures i < SLOTS && Source(i, count) == i
  {
  }

  function Cleaned(filters: seq<Filter>): (c: seq<Filter>)
    ensures |c| == |filters|
  {
    seq(|filters|, i requires 0 <= i < |filters| => Filter(Clean(filters[i].id), filters[i].mask))
  }

  predicate Words(filters: seq<Filter>)
  {
    forall i :: 0 <= i < |filters| ==> filters[i].id < WORD_LIMIT && filters[i].mask < WORD_LIMIT
  }

  /**
   * For every list the controller can express, loaded with its plan it takes a frame, into either
   * buffer, exactly when the filters with their identifiers cleaned would in software: whatever the
   * frame's data bytes, and however few filters there are.
   */
  lemma PlanCleans(filters: seq<Filter>, fr: Frame)
    requires FiltersValid(filters) && OnBus(fr) && Words(filters)
    ensures PlanOf(filters).Some?
    ensures ControllerAccepts(PlanOf(filters).value, fr) <==> FiltersAccept(Cleaned(filters), Packed(fr))
  {
    hide SlotAccepts, Matches, PackId, PackMask, IsExtended, IsRemote, Packed, Source, BankAccepts, Clean;
    var p, n, c := PlanOf(filters).value, |filters|, Cleaned(filters);
    if n > 0 {
      forall slot | 0 <= slot < SLOTS ensures BankAccepts(p, slot, fr) <==> Matches(c[Source(slot, n)], Packed(fr)) {
        PlanLoads(filters, slot);
        SlotOfPlan(p, slot, filters[Source(slot, n)], fr);
      }
      if FiltersAccept(c, Packed(fr)) {
        var i :| 0 <= i < n && Matches(c[i], Packed(fr));
        EverySourceUsed(i, n);
        assert BankAccepts(p, i, fr);
      }
    }
  }

  /**
   * So the controller takes exactly what the filters in software do, as long as no mask compares a
   * bit its register drops.
   */
  lemma PlanExact(filters: seq<Filter>, fr: Frame)
    requires FiltersValid(filters) && OnBus(fr) && Words(filters)
    requires forall i :: 0 <= i < |filters| ==> Faithful(filters[i])
    ensures PlanOf(filters).Some?
    ensures ControllerAccepts(PlanOf(filters).value, fr) <==> FiltersAccept(filters, Packed(fr))
  {
    hide ControllerAccepts, PlanOf, Packed, Clean, And, FiltersValid;
    PlanCleans(filters, fr);
    var c := Cleaned(filters);
    forall i | 0 <= i < |filters| ensures Matches(c[i], Packed(fr)) <==> Matches(filters[i], Packed(fr)) {
    }
  }

  /** And for every list at all it takes every frame the filters in software do. */
  lemma PlanMissesNothing(filters: seq<Filter>, fr: Frame)
    requires FiltersValid(filters) && OnBus(fr) && Words(filters)
    requires FiltersAccept(filters, Packed(fr))
    ensures PlanOf(filters).Some? && ControllerAccepts(PlanOf(filters).value, fr)
  {
    hide ControllerAccepts, PlanOf, Packed, Clean, And, IsExtended, IsRemote;
    PlanCleans(filters, fr);
    if |filters| > 0 {
      var i :| 0 <= i < |filters| && Matches(filters[i], Packed(fr));
      UnfaithfulMatchesNothing(filters[i], fr);
      assert Matches(Cleaned(filters)[i], Packed(fr));
    }
  }

  /** A slot and its bank's mask, loaded for one filter. */
  lemma SlotOfPlan(p: Plan, slot: nat, f: Filter, fr: Frame)
    requires Shaped(p) && slot < SLOTS && OnBus(fr) && Expressible(f)
    requires p.filterId[slot] == f.id
    requires var bank := if slot < BANK0 then 0 else 1;
             p.mask[bank] == f.mask && p.maskExtended[bank] == IsExtended(f.id)
    ensures BankAccepts(p, slot, fr) <==> Matches(Filter(Clean(f.id), f.mask), Packed(fr))
  {
    hide SlotAccepts, Matches, PackId, PackMask, IsExtended, IsRemote, Packed, Clean;
    SlotCleans(f, fr);
  }

  /** The plan has each filter's register where its bank's mask is that filter's own. */
  lemma PlanLoads(filters: seq<Filter>, slot: nat)
    requires FiltersValid(filters) && |filters| > 0 && slot < SLOTS
    ensures PlanOf(filters).Some?
    ensures var p, f := PlanOf(filters).value, filters[Source(slot, |filters|)];
            var bank := if slot < BANK0 then 0 else 1;
            p.filterId[slot] == f.id && p.mask[bank] == f.mask && p.maskExtended[bank] == IsExtended(f.id)
  {
    hide IsExtended, IsRemote, Source;
    SourceInBank(slot, |filters|);
  }

  method FiltersAreValid(filters: seq<Filter>) returns (valid: bool)
    ensures valid == FiltersValid(filters)
  {
    hide IsExtended, IsRemote;
    if |filters| == 0 {
      return true;
    }
    if |filters| > SLOTS {
      return false;
    }
    for i := 0 to |filters|
      invariant forall j :: 0 <= j < i ==> IsExtended(filters[j].mask) && !IsRemote(filters[j].mask)
    {
      if !IsExtended(filters[i].mask) || IsRemote(filters[i].mask) {
        return false;
      }
    }
    for i := 1 to |filters|
      invariant forall j :: 0 <= j < i ==>
                  filters[j].mask == filters[BankLeader(j)].mask &&
                  IsExtended(filters[j].id) == IsExtended(filters[BankLeader(j)].id)
    {
      var leader := BankLeader(i);
      if filters[i].mask != filters[leader].mask || IsExtended(filters[i].id) != IsExtended(filters[leader].id) {
        return false;
      }
    }
    return true;
  }

  method FilterPlan(filters: seq<Filter>) returns (plan: Option<Plan>)
    ensures plan == PlanOf(filters)
  {
    hide IsExtended, FiltersValid;
    var valid := FiltersAreValid(filters);
    CountLimited(filters);
    if !valid {
      return None;
    }
    if |filters| == 0 {
      return Some(Plan(true, [0, 0, 0, 0, 0, 0], [0, 0], [false, false]));
    }
    var count := |filters|;
    var bank0Count := if count < BANK0 then count else BANK0;
    var ids: seq<nat> := [];
    for i := 0 to BANK0
      invariant |ids| == i && forall k :: 0 <= k < i ==> ids[k] == filters[Source(k, count)].id
    {
      ids := ids + [filters[i % bank0Count].id];
    }
    var bank1Count := if count > BANK0 then count - BANK0 else bank0Count;
    var bank1Source := if count > BANK0 then BANK0 else 0;
    for i := 0 to BANK1
      invariant |ids| == BANK0 + i && forall k :: 0 <= k < BANK0 + i ==> ids[k] == filters[Source(k, count)].id
    {
      ids := ids + [filters[bank1Source + i % bank1Count].id];
    }
    var masks := [filters[0].mask, filters[bank1Source].mask];
    var extended := [IsExtended(filters[0].id), IsExtended(filters[bank1Source].id)];
    ghost var p := PlanOf(filters).value;
    assert ids == p.filterId && masks == p.mask && extended == p.maskExtended;
    return Some(Plan(false, ids, masks, extended));
  }

  lemma CountLimited(filters: seq<Filter>)
    ensures FiltersValid(filters) ==> |filters| <= SLOTS
  {
  }
}
