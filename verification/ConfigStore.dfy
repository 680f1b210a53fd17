/**
 * Key/value settings in one caller-owned byte buffer, edited in place
 * (components/persistent_config/config_store.c).
 */
module ConfigStore {
  import opened Bytes

  const MAX_KEY_LENGTH: nat := 31
  const MAX_VALUE_LENGTH: nat := 255

  datatype ConfigResult = ConfigOk | ConfigInvalidArg | ConfigKeyTooLong | ConfigValueTooLong
                        | ConfigFull | ConfigNotFound | ConfigTooSmall | ConfigCorrupt

  datatype Record = Record(key: seq<byte>, value: seq<byte>)

  /** A zero-terminated string, without its terminator. */
  type cstring = s: seq<byte> | 0 !in s

  // ---- the record format ------------------------------------------------------

  predicate Sound(r: Record)
  {
    1 <= |r.key| <= MAX_KEY_LENGTH && |r.value| <= MAX_VALUE_LENGTH
  }

  predicate AllSound(rs: seq<Record>)
  {
    forall i :: 0 <= i < |rs| ==> Sound(rs[i])
  }

  function RecordSize(r: Record): nat
  {
    |r.key| + |r.value| + 2
  }

  function Encode(r: Record): (b: seq<byte>)
    requires Sound(r)
    ensures |b| == RecordSize(r)
  {
    [|r.key|, |r.value|] + r.key + r.value
  }

  function Image(rs: seq<Record>): seq<byte>
    requires AllSound(rs)
  {
    if |rs| == 0 then [] else Encode(rs[0]) + Image(rs[1..])
  }

  /** Bytes the record at the front of `b` says it takes. */
  function FirstSize(b: seq<byte>): (n: nat)
    requires |b| >= 2
    ensures n >= 2
  {
    var keyLength: nat, valueLength: nat := b[0], b[1];
    keyLength + valueLength + 2
  }

  function FirstRecord(b: seq<byte>): Record
    requires |b| >= 2 && FirstSize(b) <= |b|
  {
    var valueAt: nat := b[0];
    Record(b[2..2 + valueAt], b[2 + valueAt..FirstSize(b)])
  }

  /** The only way to read a run of bytes as records, or nothing when it is not one. */
  function Parse(b: seq<byte>): Option<seq<Record>>
    decreases |b|
  {
    if |b| == 0 then Some([])
    else if |b| < 2 || b[0] == 0 || b[0] > MAX_KEY_LENGTH || FirstSize(b) > |b| then None
    else
      match Parse(b[FirstSize(b)..])
      case None => None
      case Some(rest) => Some([FirstRecord(b)] + rest)
  }

  lemma EncodeFirst(b: seq<byte>)
    requires |b| >= 2 && 1 <= b[0] <= MAX_KEY_LENGTH && FirstSize(b) <= |b|
    ensures Sound(FirstRecord(b))
    ensures Encode(FirstRecord(b)) == b[..FirstSize(b)]
  {
  }

  /** A record at the front of a longer run is read back whole. */
  lemma FirstOfEncode(r: Record, tail: seq<byte>)
    requires Sound(r)
    ensures var b := Encode(r) + tail;
            b[0] == |r.key| && b[1] == |r.value| && FirstSize(b) == RecordSize(r) &&
            FirstRecord(b) == r && b[RecordSize(r)..] == tail &&
            b[2..2 + |r.key|] == r.key && b[2 + |r.key|..RecordSize(r)] == r.value
  {
    var b := Encode(r) + tail;
    assert b[2..2 + |r.key|] == r.key;
    assert b[2 + |r.key|..RecordSize(r)] == r.value;
  }

  /** A record as bytes: the two lengths, up to 31 and 255, then the key and then the value. */
  lemma RecordBytes(r: Record)
    ensures Sound(r) <==> 1 <= |r.key| <= 31 && |r.value| <= 255
    ensures Sound(r) ==>
              && Encode(r)[0] == |r.key| && Encode(r)[1] == |r.value|
              && Encode(r)[2..2 + |r.key|] == r.key && Encode(r)[2 + |r.key|..] == r.value
  {
  }

  /** Parsing is sound: whatever it accepts is the image of what it returns. */
  lemma {:induction false} ParseSound(b: seq<byte>, rs: seq<Record>)
    requires Parse(b) == Some(rs)
    ensures AllSound(rs) && Image(rs) == b
    decreases |b|
  {
    if |b| > 0 {
      ParseCons(b);
      ParseSound(b[FirstSize(b)..], rs[1..]);
      FrontOfImage(b, rs);
    }
  }

  lemma FrontOfImage(b: seq<byte>, rs: seq<Record>)
    requires |b| >= 2 && 1 <= b[0] <= MAX_KEY_LENGTH && FirstSize(b) <= |b|
    requires |rs| > 0 && rs[0] == FirstRecord(b)
    requires AllSound(rs[1..]) && Image(rs[1..]) == b[FirstSize(b)..]
    ensures AllSound(rs) && Image(rs) == b
  {
    hide Sound, Encode, FirstRecord, Image;
    EncodeFirst(b);
    assert b == b[..FirstSize(b)] + b[FirstSize(b)..];
    assert forall i :: 1 <= i < |rs| ==> rs[i] == rs[1..][i - 1];
    ImageFirst(rs);
  }

  lemma ImageFirst(rs: seq<Record>)
    requires AllSound(rs) && |rs| > 0
    ensures Image(rs) == Encode(rs[0]) + Image(rs[1..])
  {
  }

  lemma ParseCons(b: seq<byte>)
    requires |b| > 0 && Parse(b).Some?
    ensures |b| >= 2 && 1 <= b[0] <= MAX_KEY_LENGTH && FirstSize(b) <= |b|
    ensures |Parse(b).value| > 0 && Parse(b).value[0] == FirstRecord(b)
    ensures Parse(b[FirstSize(b)..]) == Some(Parse(b).value[1..])
  {
  }

  /** Parsing is complete: it reads back every image. */
  lemma {:induction false} ParseImage(rs: seq<Record>)
    requires AllSound(rs)
    ensures Parse(Image(rs)) == Some(rs)
  {
    if |rs| > 0 {
      ParseImage(rs[1..]);
      FirstOfEncode(rs[0], Image(rs[1..]));
      assert rs == [rs[0]] + rs[1..];
    }
  }

  lemma {:induction false} ImageConcat(a: seq<Record>, b: seq<Record>)
    requires AllSound(a) && AllSound(b)
    ensures Image(a + b) == Image(a) + Image(b)
  {
    if |a| == 0 {
      assert a + b == b;
    } else {
      assert (a + b)[1..] == a[1..] + b;
      ImageConcat(a[1..], b);
    }
  }

  lemma ImageOne(r: Record)
    requires Sound(r)
    ensures Image([r]) == Encode(r)
  {
    assert [r][1..] == [];
  }

  lemma ImageOfNothing()
    ensures Image([]) == []
  {
  }

  lemma EmptyImage(rs: seq<Record>)
    requires AllSound(rs) && Image(rs) == []
    ensures rs == []
  {
  }

  /** Part of a buffer, seen through a copy of its front. */
  lemma Window(buffer: array<byte>, image: seq<byte>, from: nat, to: nat)
    requires from <= to <= |image| <= buffer.Length
    requires image == buffer[..|image|]
    ensures buffer[from..to] == image[from..to]
  {
  }

  lemma SliceOfDrop(b: seq<byte>, at: nat, i: nat, j: nat)
    requires i <= j && at + j <= |b|
    ensures b[at..][i..j] == b[at + i..at + j]
  {
  }

  lemma Joined(buffer: array<byte>, at: nat, end: nat)
    requires at <= end <= buffer.Length
    ensures buffer[..end] == buffer[..at] + buffer[at..end]
  {
  }

  lemma ImageSnoc(rs: seq<Record>, r: Record)
    requires AllSound(rs) && Sound(r)
    ensures Image(rs + [r]) == Image(rs) + Encode(r)
  {
    ImageConcat(rs, [r]);
    ImageOne(r);
  }

  lemma ImageSplit(rs: seq<Record>, i: nat)
    requires AllSound(rs) && i < |rs|
    ensures Image(rs[..i + 1]) == Image(rs[..i]) + Encode(rs[i])
    ensures Image(rs) == Image(rs[..i]) + Encode(rs[i]) + Image(rs[i + 1..])
    ensures Image(rs)[|Image(rs[..i])|..] == Image(rs[i..])
  {
    assert rs[..i + 1] == rs[..i] + [rs[i]];
    ImageSnoc(rs[..i], rs[i]);
    ImageHalves(rs, i + 1);
    ImageHalves(rs, i);
  }

  lemma ImageHalves(rs: seq<Record>, i: nat)
    requires AllSound(rs) && i <= |rs|
    ensures Image(rs) == Image(rs[..i]) + Image(rs[i..])
  {
    assert rs == rs[..i] + rs[i..];
    ImageConcat(rs[..i], rs[i..]);
  }

  // ---- what the operations mean -----------------------------------------------

  function FirstWith(rs: seq<Record>, key: seq<byte>): (i: nat)
    ensures i <= |rs|
    ensures i < |rs| ==> rs[i].key == key
    ensures forall j :: 0 <= j < i ==> rs[j].key != key
  {
    if |rs| == 0 || rs[0].key == key then 0 else 1 + FirstWith(rs[1..], key)
  }

  function Put(rs: seq<Record>, key: seq<byte>, value: seq<byte>): seq<Record>
  {
    var i := FirstWith(rs, key);
    if i < |rs| then rs[i := Record(key, value)] else rs + [Record(key, value)]
  }

  function Without(rs: seq<Record>, key: seq<byte>): seq<Record>
  {
    var i := FirstWith(rs, key);
    if i < |rs| then rs[..i] + rs[i + 1..] else rs
  }

  function Lookup(rs: seq<Record>, key: seq<byte>): Option<seq<byte>>
  {
    var i := FirstWith(rs, key);
    if i < |rs| then Some(rs[i].value) else None
  }

  ghost predicate Unique(rs: seq<Record>)
  {
    forall i, j :: 0 <= i < j < |rs| ==> rs[i].key != rs[j].key
  }

  ghost function Keys(rs: seq<Record>): set<seq<byte>>
  {
    set r | r in rs :: r.key
  }

  /** The finite map a run of records stands for; of several with one key the first counts. */
  ghost function AsMap(rs: seq<Record>): map<seq<byte>, seq<byte>>
  {
    map k | k in Keys(rs) && Lookup(rs, k).Some? :: Lookup(rs, k).value
  }

  lemma LookupInMap(rs: seq<Record>, key: seq<byte>)
    ensures key in AsMap(rs) <==> Lookup(rs, key).Some?
    ensures key in AsMap(rs) <==> key in Keys(rs)
    ensures key in AsMap(rs) ==> AsMap(rs)[key] == Lookup(rs, key).value
  {
    var i := FirstWith(rs, key);
    if i < |rs| {
      assert rs[i] in rs;
    }
  }

  lemma FirstWithIs(rs: seq<Record>, key: seq<byte>, i: nat)
    requires i <= |rs| && (i < |rs| ==> rs[i].key == key)
    requires forall j :: 0 <= j < i ==> rs[j].key != key
    ensures FirstWith(rs, key) == i
  {
  }

  lemma PutLookup(rs: seq<Record>, key: seq<byte>, value: seq<byte>, k: seq<byte>)
    ensures Lookup(Put(rs, key, value), k) == if k == key then Some(value) else Lookup(rs, k)
  {
    var out := Put(rs, key, value);
    if k == key {
      FirstWithIs(out, key, FirstWith(rs, key));
    } else if FirstWith(rs, k) < |rs| {
      FirstWithIs(out, k, FirstWith(rs, k));
    } else {
      FirstWithIs(out, k, |out|);
    }
  }

  /** Setting refines map update, whatever the records were; it never makes keys repeat. */
  lemma PutRefinesMap(rs: seq<Record>, key: seq<byte>, value: seq<byte>)
    ensures AsMap(Put(rs, key, value)) == AsMap(rs)[key := value]
    ensures Unique(rs) ==> Unique(Put(rs, key, value))
  {
    forall k
      ensures k in AsMap(Put(rs, key, value)) <==> k in AsMap(rs)[key := value]
      ensures k in AsMap(Put(rs, key, value)) ==> AsMap(Put(rs, key, value))[k] == AsMap(rs)[key := value][k]
    {
      LookupInMap(rs, k);
      LookupInMap(Put(rs, key, value), k);
      PutLookup(rs, key, value, k);
    }
  }

  /** Setting leaves every other record where it was and puts a new key last. */
  lemma PutKeepsOrder(rs: seq<Record>, key: seq<byte>, value: seq<byte>)
    ensures |rs| <= |Put(rs, key, value)| <= |rs| + 1
    ensures forall i :: 0 <= i < |rs| && (rs[i].key != key || i != FirstWith(rs, key)) ==>
              Put(rs, key, value)[i] == rs[i]
    ensures key in Keys(rs) <==> |Put(rs, key, value)| == |rs|
  {
    LookupInMap(rs, key);
  }

  lemma {:induction false} WithoutLookup(rs: seq<Record>, key: seq<byte>, k: seq<byte>)
    requires k != key
    ensures Lookup(Without(rs, key), k) == Lookup(rs, k)
  {
    var i, j, out := FirstWith(rs, key), FirstWith(rs, k), Without(rs, key);
    if i < |rs| {
      if j == |rs| {
        FirstWithIs(out, k, |out|);
      } else {
        FirstWithIs(out, k, if j < i then j else j - 1);
      }
    }
  }

  ghost predicate OccursOnce(rs: seq<Record>, key: seq<byte>)
  {
    forall i, j :: 0 <= i < j < |rs| ==> rs[i].key != key || rs[j].key != key
  }

  lemma WithoutDropsKeyIff(rs: seq<Record>, key: seq<byte>)
    ensures Lookup(Without(rs, key), key) == None <==> OccursOnce(rs, key)
  {
    var f, out := FirstWith(rs, key), Without(rs, key);
    if f < |rs| {
      var g := FirstWith(out, key);
      if g < |out| {
        assert rs[g + 1].key == key && f <= g;
      } else {
        forall i, j | 0 <= i < j < |rs| ensures rs[i].key != key || rs[j].key != key {
          if f < j {
            assert out[j - 1] == rs[j];
          }
        }
      }
    }
  }

  lemma WithoutUnique(rs: seq<Record>, key: seq<byte>)
    ensures Unique(rs) ==> Unique(Without(rs, key)) && OccursOnce(rs, key)
  {
  }

  /**
   * Removing refines map removal exactly when the key occurs no more than once: the
   * loader lets repeated keys in, and removal takes out only the first.
   */
  lemma WithoutRefinesMapIff(rs: seq<Record>, key: seq<byte>)
    ensures AsMap(Without(rs, key)) == AsMap(rs) - {key} <==> OccursOnce(rs, key)
    ensures Unique(rs) ==> Unique(Without(rs, key)) && OccursOnce(rs, key)
  {
    hide Without, AsMap, Lookup;
    var out := Without(rs, key);
    WithoutDropsKeyIff(rs, key);
    WithoutUnique(rs, key);
    LookupInMap(out, key);
    forall k | k != key
      ensures k in AsMap(out) <==> k in AsMap(rs)
      ensures k in AsMap(out) ==> AsMap(out)[k] == AsMap(rs)[k]
    {
      LookupInMap(rs, k);
      LookupInMap(out, k);
      WithoutLookup(rs, key, k);
    }
    if key !in AsMap(out) {
      assert AsMap(out) == AsMap(rs) - {key};
    }
  }

  /** Two records under one key: removing it leaves it present. */
  lemma RemovalCanLeaveKey(key: seq<byte>, a: seq<byte>, b: seq<byte>)
    ensures Lookup(Without([Record(key, a), Record(key, b)], key), key) == Some(b)
  {
    var rs := [Record(key, a), Record(key, b)];
    assert FirstWith(rs, key) == 0;
    assert Without(rs, key) == [Record(key, b)];
  }

  // ---- keys ---------------------------------------------------------------------

  function CheckKey(key: Option<cstring>): ConfigResult
  {
    match key
    case None => ConfigInvalidArg
    case Some(k) =>
      if |k| == 0 then ConfigInvalidArg
      else if |k| > MAX_KEY_LENGTH then ConfigKeyTooLong
      else ConfigOk
  }

  /** A value longer than `capacity` is not copied, but its length is still reported. */
  function GetSpec(rs: seq<Record>, key: Option<cstring>, capacity: byte): (ConfigResult, seq<byte>, byte)
    requires AllSound(rs)
  {
    if CheckKey(key) != ConfigOk then (CheckKey(key), [], 0)
    else
      match Lookup(rs, key.value)
      case None => (ConfigNotFound, [], 0)
      case Some(v) => if |v| > capacity then (ConfigTooSmall, [], |v|) else (ConfigOk, v, |v|)
  }

  /** A set fails for want of room exactly when the new total would exceed the buffer. */
  function SetSpec(rs: seq<Record>, key: Option<cstring>, value: Option<seq<byte>>, capacity: nat): ConfigResult
    requires AllSound(rs) && (value.Some? ==> |value.value| <= MAX_VALUE_LENGTH)
  {
    if CheckKey(key) != ConfigOk then CheckKey(key)
    else if value == None then ConfigInvalidArg
    else
      PutImage(rs, key.value, value.value);
      if |Image(Put(rs, key.value, value.value))| > capacity then ConfigFull else ConfigOk
  }

  /** Every answer to a key, and to a read and a write under it, in the order they are given. */
  lemma AnswerTable(rs: seq<Record>, key: Option<cstring>, value: Option<seq<byte>>, room: byte, capacity: nat)
    requires AllSound(rs) && (value.Some? ==> |value.value| <= 255)
    ensures key == None || key.value == [] ==> CheckKey(key) == ConfigInvalidArg
    ensures key.Some? && |key.value| > 31 ==> CheckKey(key) == ConfigKeyTooLong
    ensures key.Some? && 1 <= |key.value| <= 31 ==>
              && CheckKey(key) == ConfigOk
              && GetSpec(rs, key, room) ==
                   (match Lookup(rs, key.value)
                    case None => (ConfigNotFound, [], 0)
                    case Some(v) => (if |v| > room then ConfigTooSmall else ConfigOk, if |v| > room then [] else v, |v|))
              && (value == None ==> SetSpec(rs, key, value, capacity) == ConfigInvalidArg)
              && (value.Some? ==>
                    AllSound(Put(rs, key.value, value.value)) &&
                    SetSpec(rs, key, value, capacity) == if |Image(Put(rs, key.value, value.value))| > capacity then ConfigFull else ConfigOk)
    ensures CheckKey(key) != ConfigOk ==>
              SetSpec(rs, key, value, capacity) == CheckKey(key) && GetSpec(rs, key, room) == (CheckKey(key), [], 0)
  {
    hide Image, Lookup;
    if CheckKey(key) == ConfigOk && value.Some? {
      PutImage(rs, key.value, value.value);
    }
  }

  lemma LittleEndianWord(x: nat)
    requires x < WORD_LIMIT
    ensures NatBytes(x, 4) == [x % 256, x / 0x100 % 256, x / 0x1_0000 % 256, x / 0x100_0000 % 256]
  {
    assert x / 256 / 256 == x / 0x1_0000 && x / 0x1_0000 / 256 == x / 0x100_0000;
    assert NatBytes(x / 0x100_0000, 1) == [x / 0x100_0000 % 256];
    assert NatBytes(x / 0x1_0000, 2) == [x / 0x1_0000 % 256] + NatBytes(x / 0x100_0000, 1);
    assert NatBytes(x / 256, 3) == [x / 256 % 256] + NatBytes(x / 0x1_0000, 2);
  }

  lemma WordFromBytes(b: seq<byte>)
    requires |b| == 4
    ensures BytesNat(b) == b[0] as int + 0x100 * b[1] as int + 0x1_0000 * b[2] as int + 0x100_0000 * b[3] as int
  {
    assert b[1..][1..] == b[2..] && b[2..][1..] == b[3..] && b[3..][1..] == [];
    assert BytesNat(b[3..]) == b[3] as int;
    assert BytesNat(b[2..]) == b[2] as int + 256 * BytesNat(b[3..]);
    assert BytesNat(b[1..]) == b[1] as int + 256 * BytesNat(b[2..]);
  }

  // ---- typed values -----------------------------------------------------------------

  function GetU32Spec(rs: seq<Record>, key: Option<cstring>, fallback: nat): (ConfigResult, nat)
    requires AllSound(rs)
  {
    var (probe, _, length) := GetSpec(rs, key, 0);
    if probe == ConfigNotFound || probe == ConfigInvalidArg || probe == ConfigKeyTooLong then (probe, fallback)
    else if length != 4 then (ConfigCorrupt, fallback)
    else (ConfigOk, BytesNat(GetSpec(rs, key, 4).1))
  }

  /** The text left before the terminator. The capacity narrows to a byte on the second read. */
  function GetStringSpec(rs: seq<Record>, key: Option<cstring>, capacity: nat, fallback: cstring):
    (ConfigResult, seq<byte>)
    requires AllSound(rs)
  {
    if capacity == 0 then (ConfigInvalidArg, [])
    else
      var (probe, _, length) := GetSpec(rs, key, 0);
      if probe == ConfigNotFound || length + 1 > capacity then
        (if probe == ConfigNotFound then ConfigNotFound else ConfigTooSmall,
         fallback[..if |fallback| + 1 <= capacity then |fallback| else capacity - 1])
      else
        var (result, value, _) := GetSpec(rs, key, (capacity - 1) % 256);
        if result != ConfigOk then (result, []) else (ConfigOk, value)
  }

  /** What a caller gets for a number that is missing or no number, and for a text missing or too long. */
  lemma TypedAnswerTable(rs: seq<Record>, key: Option<cstring>, number: nat, capacity: nat, text: cstring)
    requires AllSound(rs)
    ensures var v := if CheckKey(key) == ConfigOk then Lookup(rs, key.value) else None;
            var number4 := GetU32Spec(rs, key, number);
            var cut := text[..if |text| < capacity then |text| else if capacity > 0 then capacity - 1 else 0];
            && (CheckKey(key) != ConfigOk ==>
                  number4 == (CheckKey(key), number) &&
                  GetStringSpec(rs, key, capacity, text) == (if capacity == 0 then ConfigInvalidArg else CheckKey(key), []))
            && (CheckKey(key) == ConfigOk && v == None ==>
                  number4 == (ConfigNotFound, number) &&
                  GetStringSpec(rs, key, capacity, text) == if capacity == 0 then (ConfigInvalidArg, []) else (ConfigNotFound, cut))
            && (v.Some? ==>
                  && number4 == (if |v.value| == 4 then (ConfigOk, LittleEndian(v.value, 0)) else (ConfigCorrupt, number))
                  && GetStringSpec(rs, key, capacity, text) ==
                       if capacity == 0 then (ConfigInvalidArg, [])
                       else if |v.value| >= capacity then (ConfigTooSmall, cut)
                       else if |v.value| > (capacity - 1) % 256 then (ConfigTooSmall, [])
                       else (ConfigOk, v.value))
  {
    hide Lookup, BytesNat;
    if CheckKey(key) == ConfigOk && Lookup(rs, key.value).Some? && |Lookup(rs, key.value).value| == 4 {
      var b := Lookup(rs, key.value).value;
      WordAt(b, 0);
      assert b[0..4] == b;
    }
  }

  /** Every 32-bit value set is the value got, whatever else is stored. */
  lemma U32RoundTrip(rs: seq<Record>, key: cstring, x: nat, fallback: nat)
    requires AllSound(rs) && CheckKey(Some(key)) == ConfigOk && x < WORD_LIMIT
    ensures AllSound(Put(rs, key, NatBytes(x, 4)))
    ensures GetU32Spec(Put(rs, key, NatBytes(x, 4)), Some(key), fallback) == (ConfigOk, x)
  {
    PutImage(rs, key, NatBytes(x, 4));
    PutLookup(rs, key, NatBytes(x, 4), key);
    Pow256Values();
    NatRoundTrip(x, 4);
  }

  /**
   * A string set is the string got exactly when it and its terminator fit the
   * caller's buffer and it also fits what is left of that size in eight bits.
   */
  lemma StringRoundTripIff(rs: seq<Record>, key: cstring, text: cstring, capacity: nat, fallback: cstring)
    requires AllSound(rs) && CheckKey(Some(key)) == ConfigOk && |text| <= MAX_VALUE_LENGTH
    requires capacity > 0
    ensures AllSound(Put(rs, key, text))
    ensures GetStringSpec(Put(rs, key, text), Some(key), capacity, fallback) == (ConfigOk, text) <==>
              |text| + 1 <= capacity && |text| <= (capacity - 1) % 256
  {
    PutImage(rs, key, text);
    PutLookup(rs, key, text, key);
  }

  /** A buffer one byte past 256 cannot read back even a single character. */
  lemma LargeBufferLosesString(key: cstring, c: byte)
    requires CheckKey(Some(key)) == ConfigOk && c != 0
    ensures AllSound(Put([], key, [c]))
    ensures GetStringSpec(Put([], key, [c]), Some(key), 257, []) == (ConfigTooSmall, [])
  {
    PutImage([], key, [c]);
    PutLookup([], key, [c], key);
  }

  // ---- the store ------------------------------------------------------------------

  class Store {
    var buffer: array<byte>
    var used: nat
    var initialised: bool
    /** The records the buffer spells out. */
    ghost var records: seq<Record>

    ghost predicate Valid()
      reads this, buffer
    {
      && initialised
      && used <= buffer.Length
      && AllSound(records)
      && buffer[..used] == Image(records)
    }

    constructor (buffer: array<byte>)
      ensures Valid() && this.buffer == buffer && used == 0 && records == []
      ensures buffer[..] == old(buffer[..])
    {
      this.buffer := buffer;
      used := 0;
      initialised := true;
      records := [];
    }

    /** Start an empty set over `storage`. */
    method Init(storage: array<byte>) returns (result: ConfigResult)
      modifies this
      ensures result == if storage.Length == 0 then ConfigInvalidArg else ConfigOk
      ensures result == ConfigOk ==> Valid() && buffer == storage && used == 0 && records == []
      ensures result != ConfigOk ==> unchanged(this)
    {
      if storage.Length == 0 {
        return ConfigInvalidArg;
      }
      buffer, used, initialised := storage, 0, true;
      records := [];
      return ConfigOk;
    }

    /** Adopt `length` bytes already in `storage`, all of them or none. */
    method Load(storage: array<byte>, length: nat) returns (result: ConfigResult)
      modifies this
      ensures result == if storage.Length == 0 then ConfigInvalidArg
                        else if length > storage.Length || Parse(storage[..length]) == None then ConfigCorrupt
                        else ConfigOk
      ensures result == ConfigOk ==> Valid() && buffer == storage && used == length
      ensures result == ConfigOk ==> Some(records) == Parse(storage[..length])
      ensures result == ConfigCorrupt ==> Valid() && buffer == storage && used == 0 && records == []
      ensures storage[..] == old(storage[..])
    {
      hide Image, FirstRecord, Sound, AllSound, Parse, ParseFrom;
      result := Init(storage);
      if result != ConfigOk {
        return;
      }
      if length > storage.Length {
        return ConfigCorrupt;
      }
      var at := 0;
      ghost var read: seq<Record>, image := [], storage[..length];
      ParseFromStart(image);
      while at < length
        invariant at <= length
        invariant Valid() && buffer == storage && used == 0 && records == []
        invariant ParseFrom(image, at, read)
        decreases length - at
      {
        ParseFromStops(image, at, read);
        if length - at < 2 {
          return ConfigCorrupt;
        }
        var keyLength: nat, valueLength: nat := storage[at], storage[at + 1];
        assert image[at..][0] == keyLength && image[at..][1] == valueLength;
        if keyLength == 0 || keyLength > MAX_KEY_LENGTH {
          return ConfigCorrupt;
        }
        var size := keyLength + valueLength + 2;
        if size > length - at {
          return ConfigCorrupt;
        }
        ParseFromStep(image, at, read);
        read := read + [FirstRecord(image[at..])];
        at := at + size;
      }
      ParseFromEnd(image, read);
      ParseSound(image, read);
      used := length;
      records := read;
      return ConfigOk;
    }

    /** Reading `b` comes to `read` followed by whatever reading the bytes from `at` gives. */
    static ghost predicate ParseFrom(b: seq<byte>, at: nat, read: seq<Record>)
      requires at <= |b|
    {
      match Parse(b[at..])
      case None => Parse(b) == None
      case Some(rest) => Parse(b) == Some(read + rest)
    }

    static lemma ParseFromStart(b: seq<byte>)
      ensures ParseFrom(b, 0, [])
    {
      assert b[0..] == b;
      if Parse(b).Some? {
        assert [] + Parse(b).value == Parse(b).value;
      }
    }

    static lemma ParseFromEnd(b: seq<byte>, read: seq<Record>)
      requires ParseFrom(b, |b|, read)
      ensures Parse(b) == Some(read)
    {
      assert b[|b|..] == [] && read + [] == read;
    }

    /** What the front of the rest says cannot be, or runs past the end, is no record. */
    static lemma ParseFromStops(b: seq<byte>, at: nat, read: seq<Record>)
      requires at < |b| && ParseFrom(b, at, read)
      ensures |b| - at < 2 || b[at] == 0 || b[at] > MAX_KEY_LENGTH || b[at] + b[at + 1] + 2 > |b| - at ==> Parse(b) == None
    {
      hide FirstRecord;
      var rest := b[at..];
      assert |rest| == |b| - at && rest[0] == b[at];
    }

    static lemma ParseFromStep(b: seq<byte>, at: nat, read: seq<Record>)
      requires at <= |b| && |b| - at >= 2 && ParseFrom(b, at, read)
      requires b[at] != 0 && b[at] <= MAX_KEY_LENGTH && FirstSize(b[at..]) <= |b| - at
      ensures ParseFrom(b, at + FirstSize(b[at..]), read + [FirstRecord(b[at..])])
    {
      var rest := b[at..][FirstSize(b[at..])..];
      assert rest == b[at + FirstSize(b[at..])..];
      if Parse(rest).Some? {
        assert read + ([FirstRecord(b[at..])] + Parse(rest).value)
            == read + [FirstRecord(b[at..])] + Parse(rest).value;
      }
    }

    function Free(): nat
      reads this
      requires used <= buffer.Length
    {
      buffer.Length - used
    }

    method FindRecord(key: seq<byte>) returns (found: bool, offset: nat)
      requires Valid()
      ensures found <==> FirstWith(records, key) < |records|
      ensures offset == |Image(records[..FirstWith(records, key)])|
    {
      hide Image, FirstWith;
      var at := 0;
      ghost var i, image := 0, buffer[..used];
      ImageOfNothing();
      assert records[..0] == [];
      assert records[0..] == records && image[0..] == image;
      while at < used
        invariant 0 <= i <= |records| && at <= used
        invariant at == |Image(records[..i])|
        invariant image[at..] == Image(records[i..])
        invariant forall j :: 0 <= j < i ==> records[j].key != key
        decreases used - at
      {
        AtRecord(records, i, image, at);
        var recordKey: nat, recordValue: nat := buffer[at], buffer[at + 1];
        assert recordKey == image[at] && recordValue == image[at + 1];
        Window(buffer, image, at + 2, at + 2 + recordKey);
        if recordKey == |key| && buffer[at + 2..at + 2 + recordKey] == key {
          FirstWithIs(records, key, i);
          return true, at;
        }
        ImageSplit(records, i);
        at := at + recordKey + recordValue + 2;
        i := i + 1;
      }
      assert image[at..] == [];
      EmptyImage(records[i..]);
      FirstWithIs(records, key, |records|);
      assert records[..|records|] == records;
      return false, used;
    }

    /** What a cursor standing on record `i` sees. */
    static lemma AtRecord(rs: seq<Record>, i: nat, b: seq<byte>, at: nat)
      requires AllSound(rs) && i < |rs|
      requires at <= |b| && b[at..] == Image(rs[i..])
      ensures at + RecordSize(rs[i]) <= |b|
      ensures b[at] == |rs[i].key| && b[at + 1] == |rs[i].value|
      ensures b[at + 2..at + 2 + |rs[i].key|] == rs[i].key
      ensures b[at + 2 + |rs[i].key|..at + RecordSize(rs[i])] == rs[i].value
      ensures b[at + RecordSize(rs[i])..] == Image(rs[i + 1..])
    {
      var rest := Image(rs[i + 1..]);
      assert rs[i..][1..] == rs[i + 1..];
      ghost var view, n := b[at..], |rs[i].key|;
      assert view == Encode(rs[i]) + rest;
      FirstOfEncode(rs[i], rest);
      assert b[at] == view[0] && b[at + 1] == view[1];
      SliceOfDrop(b, at, 2, 2 + n);
      SliceOfDrop(b, at, 2 + n, RecordSize(rs[i]));
      SliceOfDrop(b, at, RecordSize(rs[i]), |view|);
    }

    /** memmove: copy `n` bytes as if through a temporary. */
    method MoveBytes(dst: nat, src: nat, n: nat)
      requires dst + n <= buffer.Length && src + n <= buffer.Length
      modifies buffer
      ensures buffer[..] == old(buffer[..dst]) + old(buffer[src..src + n]) + old(buffer[dst + n..])
    {
      forall i | 0 <= i < n {
        buffer[dst + i] := buffer[src + i];
      }
      MovedIn(old(buffer[..]), buffer[..], dst, old(buffer[src..src + n]));
    }

    static lemma MovedIn(was: seq<byte>, now: seq<byte>, dst: nat, moved: seq<byte>)
      requires |was| == |now| && dst + |moved| <= |was|
      requires forall j :: dst <= j < dst + |moved| ==> now[j] == moved[j - dst]
      requires forall j :: 0 <= j < |was| && !(dst <= j < dst + |moved|) ==> now[j] == was[j]
      ensures now == was[..dst] + moved + was[dst + |moved|..]
    {
    }

    /** memcpy from outside the buffer. */
    method CopyIn(dst: nat, bytes: seq<byte>)
      requires dst + |bytes| <= buffer.Length
      modifies buffer
      ensures forall j :: 0 <= j < buffer.Length ==>
                buffer[j] == if dst <= j < dst + |bytes| then bytes[j - dst] else old(buffer[j])
    {
      forall i | 0 <= i < |bytes| {
        buffer[dst + i] := bytes[i];
      }
    }

    /** `None` for a null value pointer with a length above zero. */
    method Set(key: Option<cstring>, value: Option<seq<byte>>) returns (result: ConfigResult)
      requires Valid()
      requires value.Some? ==> |value.value| <= MAX_VALUE_LENGTH
      modifies this`used, this`records, buffer
      ensures Valid()
      ensures result == SetSpec(old(records), key, value, buffer.Length)
      ensures result == ConfigOk ==> records == Put(old(records), key.value, value.value)
      ensures result != ConfigOk ==>
                records == old(records) && used == old(used) && buffer[..] == old(buffer[..])
    {
      hide Encode, Image, FirstWith, After;
      result := CheckKey(key);
      if result != ConfigOk {
        return;
      }
      if value == None {
        return ConfigInvalidArg;
      }
      var k, v := key.value, value.value;
      var found, offset := FindRecord(k);
      var wanted := |k| + |v| + 2;
      PutImage(records, k, v);
      var room := MakeRoom(k, found, offset, wanted);
      if !room {
        return ConfigFull;
      }
      WriteRecord(offset, k, v);
      records := Put(records, k, v);
      return ConfigOk;
    }

    /**
     * Make `used` what it will be once the record for `key` takes `wanted` bytes, with
     * the records after it already in their final place; or touch nothing.
     */
    method MakeRoom(key: seq<byte>, found: bool, offset: nat, wanted: nat) returns (room: bool)
      requires Valid() && wanted >= 2
      requires found <==> FirstWith(records, key) < |records|
      requires offset == |Image(records[..FirstWith(records, key)])|
      modifies this`used, buffer
      ensures var i := FirstWith(old(records), key);
              var tail := Image(After(old(records), key));
              && (room <==> offset + wanted + |tail| <= buffer.Length)
              && (!room ==> used == old(used) && buffer[..] == old(buffer[..]))
              && (room ==> used == offset + wanted + |tail| && buffer[..offset] == Image(old(records)[..i])
                                                            && buffer[offset + wanted..used] == tail)
    {
      hide Encode, Sound, FirstWith, Image, After;
      ghost var image := buffer[..used];
      Place(records, key, image);
      if found {
        var recordKey: nat, recordValue: nat := buffer[offset], buffer[offset + 1];
        assert recordKey == image[offset] && recordValue == image[offset + 1];
        var existing := recordKey + recordValue + 2;
        if wanted > existing && wanted - existing > Free() {
          return false;
        }
        Window(buffer, image, offset + existing, used);
        Window(buffer, image, 0, offset);
        Resize(offset, existing, wanted);
      } else {
        if wanted > Free() {
          return false;
        }
        used := used + wanted;
      }
      return true;
    }

    /** The record for a key, where there is one, between what goes before it and what follows. */
    static lemma Place(rs: seq<Record>, key: seq<byte>, image: seq<byte>)
      requires AllSound(rs) && image == Image(rs)
      ensures var i := FirstWith(rs, key);
              var at, tail := |Image(rs[..i])|, Image(After(rs, key));
              if i < |rs| then
                && at + 2 <= |image| && at + image[at] + image[at + 1] + 2 + |tail| == |image|
                && image[..at] == Image(rs[..i]) && image[at + image[at] + image[at + 1] + 2..] == tail
              else at == |image| && image[..at] == Image(rs[..i]) && tail == []
    {
      hide Encode, Image;
      var i := FirstWith(rs, key);
      if i < |rs| {
        ImageSplit(rs, i);
        AtRecord(rs, i, image, |Image(rs[..i])|);
      } else {
        assert rs[..i] == rs;
        ImageOfNothing();
      }
    }

    /** Give the record at `offset` `wanted` bytes instead of `existing`, moving what follows it. */
    method Resize(offset: nat, existing: nat, wanted: nat)
      requires offset + existing <= used <= buffer.Length
      requires used - existing + wanted <= buffer.Length
      modifies this`used, buffer
      ensures used == old(used) - existing + wanted
      ensures offset + wanted <= used <= buffer.Length
      ensures buffer[..offset] == old(buffer[..offset])
      ensures buffer[offset + wanted..used] == old(buffer[offset + existing..used])
    {
      ghost var n := used - offset - existing;
      MoveBytes(offset + wanted, offset + existing, used - offset - existing);
      used := used - existing + wanted;
      assert buffer[offset + wanted..used] == buffer[..][offset + wanted..offset + wanted + n];
      assert buffer[..offset] == buffer[..][..offset];
    }

    /** Two lengths, the key and the value, written at `offset`. */
    method WriteRecord(offset: nat, key: seq<byte>, value: seq<byte>)
      requires Sound(Record(key, value))
      requires offset + |key| + |value| + 2 <= used <= buffer.Length
      modifies buffer
      ensures buffer[..used] ==
                old(buffer[..offset]) + Encode(Record(key, value)) +
                old(buffer[offset + |key| + |value| + 2..used])
    {
      buffer[offset] := |key|;
      buffer[offset + 1] := |value|;
      CopyIn(offset + 2, key);
      CopyIn(offset + 2 + |key|, value);
      ghost var record := Encode(Record(key, value));
      assert forall j :: offset <= j < offset + |record| ==> buffer[j] == record[j - offset];
      MovedIn(old(buffer[..]), buffer[..], offset, record);
      FrontOfThree(old(buffer[..]), buffer[..], offset, record, used);
    }

    static lemma FrontOfThree(was: seq<byte>, now: seq<byte>, at: nat, part: seq<byte>, n: nat)
      requires at + |part| <= n <= |was| && now == was[..at] + part + was[at + |part|..]
      ensures now[..n] == was[..at] + part + was[at + |part|..n]
    {
    }

    /** The bytes copied out and the length reported. */
    method Get(key: Option<cstring>, capacity: byte) returns (result: ConfigResult, value: seq<byte>, length: byte)
      requires Valid()
      ensures (result, value, length) == GetSpec(records, key, capacity)
    {
      hide Image, FirstWith;
      result := CheckKey(key);
      if result != ConfigOk {
        return result, [], 0;
      }
      var found, offset := FindRecord(key.value);
      if !found {
        return ConfigNotFound, [], 0;
      }
      ghost var i := FirstWith(records, key.value);
      ImageSplit(records, i);
      ghost var image := buffer[..used];
      AtRecord(records, i, image, offset);
      var valueLength := buffer[offset + 1];
      assert valueLength == image[offset + 1];
      if valueLength > capacity {
        return ConfigTooSmall, [], valueLength;
      }
      var valueAt, n: nat := offset + 2 + |key.value|, valueLength;
      Window(buffer, image, valueAt, valueAt + n);
      return ConfigOk, buffer[valueAt..valueAt + n], valueLength;
    }

    method Remove(key: Option<cstring>) returns (result: ConfigResult)
      requires Valid()
      modifies this`used, this`records, buffer
      ensures Valid()
      ensures CheckKey(key) != ConfigOk ==> result == CheckKey(key)
      ensures CheckKey(key) == ConfigOk ==>
                result == (if Lookup(old(records), key.value).Some? then ConfigOk else ConfigNotFound) &&
                records == Without(old(records), key.value)
      ensures result != ConfigOk ==>
                records == old(records) && used == old(used) && buffer[..] == old(buffer[..])
    {
      result := CheckKey(key);
      if result != ConfigOk {
        return;
      }
      var found, offset := FindRecord(key.value);
      if !found {
        return ConfigNotFound;
      }
      CloseGap(key.value, offset);
      WithoutImage(records, key.value);
      Joined(buffer, offset, used);
      records := Without(records, key.value);
      return ConfigOk;
    }

    /** Move what follows the record for `key` down over it. */
    method CloseGap(key: seq<byte>, offset: nat)
      requires Valid() && FirstWith(records, key) < |records|
      requires offset == |Image(records[..FirstWith(records, key)])|
      modifies this`used, buffer
      ensures offset <= used <= buffer.Length
      ensures buffer[..offset] == Image(old(records)[..FirstWith(old(records), key)])
      ensures buffer[offset..used] == Image(After(old(records), key))
    {
      hide Encode, Sound, FirstWith, Image, After;
      ghost var image := buffer[..used];
      Place(records, key, image);
      var recordKey: nat, recordValue: nat := buffer[offset], buffer[offset + 1];
      assert recordKey == image[offset] && recordValue == image[offset + 1];
      var size := recordKey + recordValue + 2;
      Window(buffer, image, offset + size, used);
      Window(buffer, image, 0, offset);
      Resize(offset, size, 0);
    }

    method SetU32(key: Option<cstring>, value: nat) returns (result: ConfigResult)
      requires Valid() && value < WORD_LIMIT
      modifies this`used, this`records, buffer
      ensures Valid()
      ensures result == SetSpec(old(records), key, Some(NatBytes(value, 4)), buffer.Length)
      ensures records == if result == ConfigOk then Put(old(records), key.value, NatBytes(value, 4)) else old(records)
    {
      var bytes: seq<byte> := [value % 256, value / 0x100 % 256, value / 0x1_0000 % 256, value / 0x100_0000 % 256];
      LittleEndianWord(value);
      result := Set(key, Some(bytes));
    }

    method GetU32(key: Option<cstring>, fallback: nat) returns (result: ConfigResult, value: nat)
      requires Valid()
      ensures (result, value) == GetU32Spec(records, key, fallback)
    {
      value := fallback;
      var probe, _, length := Get(key, 0);
      if probe == ConfigNotFound || probe == ConfigInvalidArg || probe == ConfigKeyTooLong {
        return probe, value;
      }
      if length != 4 {
        return ConfigCorrupt, value;
      }
      var got, bytes, _ := Get(key, 4);
      if got != ConfigOk {
        return got, value;
      }
      WordFromBytes(bytes);
      return ConfigOk, bytes[0] + 0x100 * bytes[1] as int + 0x1_0000 * bytes[2] as int + 0x100_0000 * bytes[3] as int;
    }

    method SetString(key: Option<cstring>, value: Option<cstring>) returns (result: ConfigResult)
      requires Valid()
      modifies this`used, this`records, buffer
      ensures Valid()
      ensures result == if value == None then ConfigInvalidArg
                        else if |value.value| > MAX_VALUE_LENGTH then ConfigValueTooLong
                        else SetSpec(old(records), key, value, buffer.Length)
      ensures records == if result == ConfigOk then Put(old(records), key.value, value.value) else old(records)
    {
      if value == None {
        return ConfigInvalidArg;
      }
      if |value.value| > MAX_VALUE_LENGTH {
        return ConfigValueTooLong;
      }
      result := Set(key, Some(value.value));
    }

    method GetString(key: Option<cstring>, capacity: nat, fallback: cstring)
      returns (result: ConfigResult, text: seq<byte>)
      requires Valid()
      ensures (result, text) == GetStringSpec(records, key, capacity, fallback)
    {
      if capacity == 0 {
        return ConfigInvalidArg, [];
      }
      var probe, _, length: nat := Get(key, 0);
      if probe == ConfigNotFound || length + 1 > capacity {
        var copy := if |fallback| + 1 <= capacity then |fallback| else capacity - 1;
        return if probe == ConfigNotFound then ConfigNotFound else ConfigTooSmall, fallback[..copy];
      }
      var got, value, _ := Get(key, (capacity - 1) % 256);
      if got != ConfigOk {
        return got, [];
      }
      return ConfigOk, value;
    }

    method Clear()
      modifies this`used, this`records
      ensures initialised ==> used == 0 && records == []
      ensures old(Valid()) ==> Valid()
    {
      if initialised {
        used := 0;
        records := [];
      }
    }
  }

  /** The records a set of `key` leaves behind the one it writes. */
  function After(rs: seq<Record>, key: seq<byte>): seq<Record>
  {
    var i := FirstWith(rs, key);
    if i < |rs| then rs[i + 1..] else []
  }

  /** Where a set leaves the bytes: the named record replaced, or a new one at the end. */
  lemma PutImage(rs: seq<Record>, key: seq<byte>, value: seq<byte>)
    requires AllSound(rs) && Sound(Record(key, value))
    ensures AllSound(Put(rs, key, value))
    ensures Image(Put(rs, key, value)) ==
              Image(rs[..FirstWith(rs, key)]) + Encode(Record(key, value)) + Image(After(rs, key))
  {
    var i, r, out := FirstWith(rs, key), Record(key, value), Put(rs, key, value);
    if i < |rs| {
      ImageSplit(out, i);
      assert out[..i] == rs[..i] && out[i + 1..] == rs[i + 1..];
    } else {
      assert rs[..i] == rs;
      ImageSnoc(rs, r);
    }
  }

  lemma WithoutImage(rs: seq<Record>, key: seq<byte>)
    requires AllSound(rs)
    ensures AllSound(Without(rs, key))
    ensures Image(Without(rs, key)) == Image(rs[..FirstWith(rs, key)]) + Image(After(rs, key))
  {
    var i := FirstWith(rs, key);
    if i < |rs| {
      ImageConcat(rs[..i], rs[i + 1..]);
    } else {
      assert rs[..i] == rs;
    }
  }
}
