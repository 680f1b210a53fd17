/** Intel HEX records, one line at a time (components/hex_parser/hex_parser.c). */
module HexParser {
  import opened Bytes
  import opened Characters

  const FRAME: nat := 5
  const MAX_DATA: nat := 255

  const DATA: nat := 0
  const END_OF_FILE: nat := 1
  const EXTENDED_SEGMENT: nat := 2
  const START_SEGMENT: nat := 3
  const EXTENDED_LINEAR: nat := 4
  const START_LINEAR: nat := 5

  datatype HexResult = HexOk | HexNoStartCode | HexBadCharacter | HexBadLength | HexBadChecksum
                     | HexUnknownType | HexMalformed | HexAfterEof

  /** `address` is the full 32-bit one for a data record and zero otherwise. */
  datatype HexRecord = HexRecord(kind: nat, address: nat, data: seq<byte>)

  datatype ParserState = ParserState(addressBase: nat, startAddress: nat, haveStart: bool, seenEof: bool)

  const FRESH := ParserState(0, 0, false, false)

  // ---- text ---------------------------------------------------------------------

  function WithoutLeading(s: string): string
  {
    if |s| > 0 && IsSpace(s[0]) then WithoutLeading(s[1..]) else s
  }

  function WithoutTrailing(s: string): (r: string)
    ensures |r| <= |s| && r == s[..|r|]
  {
    if |s| > 0 && IsSpace(s[|s| - 1]) then WithoutTrailing(s[..|s| - 1]) else s
  }

  function DecodeByte(high: char, low: char): (b: Option<byte>)
  {
    match (HexValue(high), HexValue(low))
    case (Some(h), Some(l)) => assert h < 16 && l < 16; Some(h * 16 + l)
    case _ => None
  }

  /** The bytes an even run of digits stands for, if they all are digits. */
  function DecodeHex(s: string): (b: Option<seq<byte>>)
    ensures b.Some? ==> |b.value| == |s| / 2
  {
    if |s| < 2 then Some([])
    else
      match (DecodeHex(s[..|s| - 2]), DecodeByte(s[|s| - 2], s[|s| - 1]))
      case (Some(front), Some(b)) => Some(front + [b])
      case _ => None
  }

  function Sum(b: seq<byte>): nat
  {
    if |b| == 0 then 0 else Sum(b[..|b| - 1]) + b[|b| - 1]
  }

  // ---- what a record does -----------------------------------------------------------

  function BigEndian(b: seq<byte>): nat
  {
    if |b| == 0 then 0 else 256 * BigEndian(b[..|b| - 1]) + b[|b| - 1]
  }

  /** A record whose bytes are all there and sum to zero. Nothing changes on an error. */
  function ApplyRecord(st: ParserState, bytes: seq<byte>): (HexResult, HexRecord, ParserState)
    requires |bytes| >= FRAME
  {
    var kind: nat := bytes[3];
    var data := bytes[4..|bytes| - 1];
    var record := HexRecord(kind, 0, data);
    if st.seenEof then (HexAfterEof, record, st)
    else if kind == DATA then
      (HexOk, record.(address := U32(st.addressBase + BigEndian(bytes[1..3]))), st)
    else if kind == END_OF_FILE then
      if |data| != 0 then (HexMalformed, record, st) else (HexOk, record, st.(seenEof := true))
    else if kind == EXTENDED_SEGMENT || kind == EXTENDED_LINEAR then
      if |data| != 2 then (HexMalformed, record, st)
      else (HexOk, record, st.(addressBase := BigEndian(data) * if kind == EXTENDED_LINEAR then 0x1_0000 else 16))
    else if kind == START_SEGMENT || kind == START_LINEAR then
      if |data| != 4 then (HexMalformed, record, st)
      else (HexOk, record, st.(startAddress := BigEndian(data), haveStart := true))
    else (HexUnknownType, record, st)
  }

  const NO_RECORD := HexRecord(0, 0, [])

  function FeedSpec(st: ParserState, line: string): (HexResult, HexRecord, ParserState)
  {
    var text := WithoutLeading(line);
    if |text| == 0 || text[0] != ':' then (HexNoStartCode, NO_RECORD, st)
    else
      var body := WithoutTrailing(text[1..]);
      if |body| < 2 * FRAME || |body| % 2 != 0 || |body| / 2 > FRAME + MAX_DATA then (HexBadLength, NO_RECORD, st)
      else
        match DecodeHex(body)
        case None => (HexBadCharacter, NO_RECORD, st)
        case Some(bytes) =>
          if |bytes| != bytes[0] as nat + FRAME then (HexBadLength, NO_RECORD, st)
          else if Sum(bytes) % 256 != 0 then (HexBadChecksum, NO_RECORD, st)
          else ApplyRecord(st, bytes)
  }

  lemma {:induction false} DecodeHexPrefix(s: string, n: nat)
    requires 2 * n <= |s| && |s| % 2 == 0 && DecodeHex(s[..2 * n]) == None
    ensures DecodeHex(s) == None
  {
    if |s| == 2 * n {
      assert s[..2 * n] == s;
    } else {
      assert s[..|s| - 2][..2 * n] == s[..2 * n];
      DecodeHexPrefix(s[..|s| - 2], n);
    }
  }

  class Parser {
    var addressBase: nat
    var startAddress: nat
    var haveStart: bool
    var seenEof: bool

    function State(): ParserState
      reads this
    {
      ParserState(addressBase, startAddress, haveStart, seenEof)
    }

    constructor ()
      ensures State() == FRESH
    {
      addressBase, startAddress, haveStart, seenEof := 0, 0, false, false;
    }

    method Reset()
      modifies this
      ensures State() == FRESH
    {
      addressBase, startAddress, haveStart, seenEof := 0, 0, false, false;
    }

    method Feed(line: string) returns (result: HexResult, record: HexRecord)
      modifies this
      ensures (result, record, State()) == FeedSpec(old(State()), line)
    {
      hide DecodeByte, ApplyRecord, HexValue, IsSpace;
      var text := SkipSpaces(line);
      if |text| == 0 || text[0] != ':' {
        return HexNoStartCode, NO_RECORD;
      }
      var body := TrimmedBody(text[1..]);
      if |body| < 2 * FRAME || |body| % 2 != 0 {
        return HexBadLength, NO_RECORD;
      }
      if |body| / 2 > FRAME + MAX_DATA {
        return HexBadLength, NO_RECORD;
      }
      var decoded := DecodeBody(body);
      if decoded == None {
        return HexBadCharacter, NO_RECORD;
      }
      var bytes := decoded.value;
      if |bytes| != bytes[0] as nat + FRAME {
        return HexBadLength, NO_RECORD;
      }
      var sum := SumModulo(bytes);
      if sum != 0 {
        return HexBadChecksum, NO_RECORD;
      }
      result, record := Apply(bytes);
    }

    static method SkipSpaces(line: string) returns (text: string)
      ensures text == WithoutLeading(line)
    {
      var at := 0;
      assert line[0..] == line;
      while at < |line| && IsSpace(line[at])
        invariant 0 <= at <= |line|
        invariant WithoutLeading(line[at..]) == WithoutLeading(line)
      {
        assert line[at..][1..] == line[at + 1..];
        at := at + 1;
      }
      return line[at..];
    }

    /** An eight-bit accumulator. */
    static method SumModulo(bytes: seq<byte>) returns (sum: nat)
      ensures sum == Sum(bytes) % 256
    {
      sum := 0;
      for i := 0 to |bytes|
        invariant sum == Sum(bytes[..i]) % 256
      {
        assert bytes[..i + 1][..i] == bytes[..i];
        sum := (sum + bytes[i]) % 256;
      }
      assert bytes[..|bytes|] == bytes;
    }

    static method TrimmedBody(text: string) returns (body: string)
      ensures body == WithoutTrailing(text)
    {
      var length := |text|;
      assert text[..|text|] == text;
      while length > 0 && IsSpace(text[length - 1])
        invariant 0 <= length <= |text|
        invariant WithoutTrailing(text[..length]) == WithoutTrailing(text)
      {
        assert text[..length][..length - 1] == text[..length - 1];
        length := length - 1;
      }
      return text[..length];
    }

    static method DecodeBody(body: string) returns (bytes: Option<seq<byte>>)
      requires |body| % 2 == 0
      ensures bytes == DecodeHex(body)
    {
      hide DecodeByte;
      var done: seq<byte> := [];
      for i := 0 to |body| / 2
        invariant DecodeHex(body[..2 * i]) == Some(done)
      {
        var b := DecodeByte(body[2 * i], body[2 * i + 1]);
        assert body[..2 * (i + 1)][..2 * i] == body[..2 * i];
        if b == None {
          DecodeHexPrefix(body, i + 1);
          return None;
        }
        done := done + [b.value];
      }
      assert body[..2 * (|body| / 2)] == body;
      return Some(done);
    }

    method Apply(bytes: seq<byte>) returns (result: HexResult, record: HexRecord)
      requires |bytes| >= FRAME
      modifies this
      ensures (result, record, State()) == ApplyRecord(old(State()), bytes)
    {
      var kind: nat := bytes[3];
      record := HexRecord(kind, 0, bytes[4..|bytes| - 1]);
      if seenEof {
        return HexAfterEof, record;
      }
      var data := record.data;
      if kind == DATA {
        var offset := BigEndian(bytes[1..3]);
        record := record.(address := U32(addressBase + offset));
        return HexOk, record;
      } else if kind == END_OF_FILE {
        if |data| != 0 {
          return HexMalformed, record;
        }
        seenEof := true;
        return HexOk, record;
      } else if kind == EXTENDED_SEGMENT || kind == EXTENDED_LINEAR {
        if |data| != 2 {
          return HexMalformed, record;
        }
        addressBase := BigEndian(data) * if kind == EXTENDED_LINEAR then 0x1_0000 else 16;
        return HexOk, record;
      } else if kind == START_SEGMENT || kind == START_LINEAR {
        if |data| != 4 {
          return HexMalformed, record;
        }
        startAddress, haveStart := BigEndian(data), true;
        return HexOk, record;
      }
      return HexUnknownType, record;
    }
  }

  // ---- writing records, and reading them back ------------------------------------------

  function Digit(n: nat, upper: bool): char
    requires n < 16
  {
    if n < 10 then '0' + n as char
    else if upper then 'A' + (n - 10) as char else 'a' + (n - 10) as char
  }

  function EncodeHex(b: seq<byte>, upper: bool): string
  {
    if |b| == 0 then ""
    else EncodeHex(b[..|b| - 1], upper) +
         [Digit(b[|b| - 1] / 16, upper), Digit(b[|b| - 1] % 16, upper)]
  }

  lemma DigitRoundTrip(n: nat, upper: bool)
    requires n < 16
    ensures HexValue(Digit(n, upper)) == Some(n) && !IsSpace(Digit(n, upper))
  {
  }

  lemma ByteRoundTrip(b: byte, upper: bool)
    ensures DecodeByte(Digit(b / 16, upper), Digit(b % 16, upper)) == Some(b)
    ensures !IsSpace(Digit(b % 16, upper))
  {
    hide Digit, HexValue, IsSpace;
    DigitRoundTrip(b / 16, upper);
    DigitRoundTrip(b % 16, upper);
  }

  lemma {:induction false} EncodeHexRoundTrip(b: seq<byte>, upper: bool)
    ensures |EncodeHex(b, upper)| == 2 * |b|
    ensures DecodeHex(EncodeHex(b, upper)) == Some(b)
    ensures |b| > 0 ==> !IsSpace(EncodeHex(b, upper)[2 * |b| - 1])
  {
    hide Digit, HexValue, IsSpace, DecodeByte, DecodeHex, EncodeHex;
    if |b| > 0 {
      var front, last := b[..|b| - 1], b[|b| - 1];
      EncodeHexRoundTrip(front, upper);
      ByteRoundTrip(last, upper);
      DecodeOneMore(EncodeHex(front, upper), Digit(last / 16, upper), Digit(last % 16, upper), front, last);
      EncodeOneMore(front, last, upper);
      assert b == front + [last];
    } else {
      NoDigits();
      NothingEncoded(upper);
    }
  }

  lemma NoDigits()
    ensures DecodeHex("") == Some([])
  {
  }

  lemma DecodeOneMore(digits: string, high: char, low: char, front: seq<byte>, last: byte)
    requires DecodeHex(digits) == Some(front) && DecodeByte(high, low) == Some(last)
    ensures DecodeHex(digits + [high, low]) == Some(front + [last])
  {
    hide DecodeByte;
    var all := digits + [high, low];
    assert all[..|all| - 2] == digits && all[|all| - 2] == high && all[|all| - 1] == low;
  }

  /** The bytes of a record up to its checksum. */
  function Unsummed(offset: nat, kind: byte, data: seq<byte>): (b: seq<byte>)
    requires offset < 0x1_0000 && |data| <= MAX_DATA
    ensures |b| == 4 + |data|
  {
    [|data|, offset / 256, offset % 256, kind] + data
  }

  function Checksum(b: seq<byte>): byte
  {
    (256 - Sum(b) % 256) % 256
  }

  function Format(offset: nat, kind: byte, data: seq<byte>, upper: bool): string
    requires offset < 0x1_0000 && |data| <= MAX_DATA
  {
    var b := Unsummed(offset, kind, data);
    ":" + EncodeHex(b + [Checksum(b)], upper)
  }

  lemma {:induction false} SpacesTrimmed(s: string, spaces: string)
    requires (|s| > 0 ==> !IsSpace(s[|s| - 1])) && forall c :: c in spaces ==> IsSpace(c)
    ensures WithoutTrailing(s + spaces) == s
  {
    if |spaces| == 0 {
      assert s + spaces == s;
    } else {
      assert spaces[|spaces| - 1] in spaces;
      assert (s + spaces)[..|s + spaces| - 1] == s + spaces[..|spaces| - 1];
      SpacesTrimmed(s, spaces[..|spaces| - 1]);
    }
  }

  lemma {:induction false} SpacesSkipped(spaces: string, s: string)
    requires |s| > 0 && !IsSpace(s[0]) && forall c :: c in spaces ==> IsSpace(c)
    ensures WithoutLeading(spaces + s) == s
  {
    if |spaces| == 0 {
      assert spaces + s == s;
    } else {
      assert spaces[0] in spaces;
      assert (spaces + s)[1..] == spaces[1..] + s;
      SpacesSkipped(spaces[1..], s);
    }
  }

  /**
   * Every record written in the format is accepted as written, in either case of
   * digit and with any white space around it.
   */
  lemma FormatRoundTrip(st: ParserState, offset: nat, kind: byte, data: seq<byte>, upper: bool, before: string, after: string)
    requires offset < 0x1_0000 && |data| <= MAX_DATA
    requires (forall c :: c in before ==> IsSpace(c)) && (forall c :: c in after ==> IsSpace(c))
    ensures var b := Unsummed(offset, kind, data);
            FeedSpec(st, before + Format(offset, kind, data, upper) + after) == ApplyRecord(st, b + [Checksum(b)])
    ensures kind == DATA && !st.seenEof ==>
              FeedSpec(st, before + Format(offset, kind, data, upper) + after) ==
                (HexOk, HexRecord(DATA, U32(st.addressBase + offset), data), st)
  {
    hide FeedSpec, EncodeHex;
    var b := Unsummed(offset, kind, data);
    var bytes := b + [Checksum(b)];
    assert bytes[..|bytes| - 1] == b;
    assert Sum(bytes) == Sum(b) + Checksum(b);
    FramedLine(st, bytes, upper, before, after);
    assert bytes[4..|bytes| - 1] == data;
    OffsetBytes(offset, bytes);
  }

  /** White space and digits aside, a line is its bytes. */
  lemma FramedLine(st: ParserState, bytes: seq<byte>, upper: bool, before: string, after: string)
    requires FRAME <= |bytes| <= FRAME + MAX_DATA && |bytes| == bytes[0] as nat + FRAME && Sum(bytes) % 256 == 0
    requires (forall c :: c in before ==> IsSpace(c)) && (forall c :: c in after ==> IsSpace(c))
    ensures FeedSpec(st, before + (":" + EncodeHex(bytes, upper)) + after) == ApplyRecord(st, bytes)
  {
    hide DecodeByte, EncodeHex, DecodeHex, ApplyRecord;
    var digits := EncodeHex(bytes, upper);
    EncodeHexRoundTrip(bytes, upper);
    assert before + (":" + digits) + after == before + (":" + digits + after);
    SpacesSkipped(before, ":" + digits + after);
    assert (":" + digits + after)[1..] == digits + after;
    SpacesTrimmed(digits, after);
  }

  function Upper(c: char): char
  {
    if 'a' <= c <= 'z' then (c as int - 32) as char else c
  }

  function UpperCase(s: string): (u: string)
    ensures |u| == |s|
  {
    seq(|s|, i requires 0 <= i < |s| => Upper(s[i]))
  }

  lemma DigitsAreBytes(high: char, low: char)
    requires DecodeByte(high, low).Some?
    ensures var b := DecodeByte(high, low).value;
            Digit(b / 16, true) == Upper(high) && Digit(b % 16, true) == Upper(low)
  {
  }

  lemma {:induction false} DecodedIsEncoded(s: string)
    requires |s| % 2 == 0 && DecodeHex(s).Some?
    ensures EncodeHex(DecodeHex(s).value, true) == UpperCase(s)
  {
    hide DecodeByte, Digit, Upper, EncodeHex, UpperCase;
    if |s| > 0 {
      var front, n := s[..|s| - 2], |s|;
      DecodedIsEncoded(front);
      DigitsAreBytes(s[n - 2], s[n - 1]);
      EncodeOneMore(DecodeHex(front).value, DecodeByte(s[n - 2], s[n - 1]).value, true);
      UpperOneMore(front, s[n - 2], s[n - 1]);
      assert s == front + [s[n - 2], s[n - 1]];
    } else {
      NothingEncoded(true);
    }
  }

  lemma NothingEncoded(upper: bool)
    ensures EncodeHex([], upper) == "" == UpperCase("")
  {
  }

  lemma EncodeOneMore(front: seq<byte>, last: byte, upper: bool)
    ensures EncodeHex(front + [last], upper) == EncodeHex(front, upper) + [Digit(last / 16, upper), Digit(last % 16, upper)]
  {
    hide Digit;
    assert (front + [last])[..|front|] == front;
  }

  lemma UpperOneMore(s: string, high: char, low: char)
    ensures UpperCase(s + [high, low]) == UpperCase(s) + [Upper(high), Upper(low)]
  {
  }

  /** A line is taken only if, white space and the case of its digits aside, it is a summed record. */
  lemma AcceptedIsFormatted(st: ParserState, line: string)
    requires FeedSpec(st, line).0 == HexOk
    ensures exists bytes: seq<byte> ::
              && FRAME <= |bytes| == bytes[0] as nat + FRAME && Sum(bytes) % 256 == 0
              && WithoutLeading(line) != "" && WithoutLeading(line)[0] == ':'
              && UpperCase(WithoutTrailing(WithoutLeading(line)[1..])) == EncodeHex(bytes, true)
              && ApplyRecord(st, bytes) == FeedSpec(st, line)
  {
    hide DecodeByte, ApplyRecord, EncodeHex, UpperCase;
    var body := WithoutTrailing(WithoutLeading(line)[1..]);
    DecodedIsEncoded(body);
  }

  lemma OffsetBytes(offset: nat, bytes: seq<byte>)
    requires offset < 0x1_0000 && |bytes| >= 3 && bytes[1] == offset / 256 && bytes[2] == offset % 256
    ensures BigEndian(bytes[1..3]) == offset
  {
    assert bytes[1..3][..1] == [bytes[1]] && [bytes[1]][..0] == [];
    assert BigEndian([bytes[1]]) == bytes[1];
  }

  // ---- the record kinds ------------------------------------------------------------------

  /** Spaces, tabs, line feeds and carriage returns. */
  predicate White(s: string)
  {
    forall i :: 0 <= i < |s| ==> s[i] as int == 32 || s[i] as int == 9 || s[i] as int == 10 || s[i] as int == 13
  }

  /** What the four start-address bytes, or the two of a base, stand for. */
  function Big(b: seq<byte>): nat
  {
    if |b| == 2 then 256 * b[0] as nat + b[1] as nat
    else if |b| == 4 then 0x100_0000 * b[0] as nat + 0x1_0000 * b[1] as nat + 256 * b[2] as nat + b[3] as nat
    else 0
  }

  /**
   * The standard's six kinds of record before the end mark: data at its offset above the base, the
   * end, the two bases, the two start addresses. Each has one length it may be; there is no seventh.
   */
  lemma RecordTable(st: ParserState, offset: nat, kind: byte, data: seq<byte>, upper: bool, before: string, after: string)
    requires offset < 65536 && |data| <= 255 && White(before) && White(after) && !st.seenEof
    ensures var (result, record, next) := FeedSpec(st, before + Format(offset, kind, data, upper) + after);
            && (kind == 0 ==> (result, next) == (HexOk, st) &&
                              record == HexRecord(0, (st.addressBase + offset) % 0x1_0000_0000, data))
            && (kind == 1 ==> (result, next) == if data == [] then (HexOk, st.(seenEof := true)) else (HexMalformed, st))
            && (kind == 2 ==> (result, next) ==
                                if |data| == 2 then (HexOk, st.(addressBase := 16 * Big(data))) else (HexMalformed, st))
            && (kind == 4 ==> (result, next) ==
                                if |data| == 2 then (HexOk, st.(addressBase := 65536 * Big(data))) else (HexMalformed, st))
            && (kind == 3 || kind == 5 ==>
                  (result, next) == if |data| == 4 then (HexOk, st.(startAddress := Big(data), haveStart := true))
                                    else (HexMalformed, st))
            && (kind > 5 ==> (result, next) == (HexUnknownType, st))
            && (result == HexOk ==> record.kind == kind && record.data == data)
  {
    hide FeedSpec, Format, BigEndian, Checksum;
    FormatRoundTrip(st, offset, kind, data, upper, before, after);
    var b := Unsummed(offset, kind, data);
    assert (b + [Checksum(b)])[4..|b|] == data && (b + [Checksum(b)])[3] == kind;
    if |data| == 2 {
      TwoBytes(data);
    } else if |data| == 4 {
      FourBytes(data);
    }
  }

  lemma TwoBytes(b: seq<byte>)
    requires |b| == 2
    ensures BigEndian(b) == Big(b)
  {
    assert b[..1][..0] == [] && b[..1] == [b[0]];
    assert BigEndian(b[..1]) == b[0];
  }

  lemma FourBytes(b: seq<byte>)
    requires |b| == 4
    ensures BigEndian(b) == Big(b)
  {
    assert b[..3][..2] == b[..2];
    TwoBytes(b[..2]);
    assert BigEndian(b[..3]) == 256 * BigEndian(b[..2]) + b[2] as nat;
  }

  // ---- what is refused, and why ------------------------------------------------------------

  /** The digits of either case, and nothing else. */
  predicate AllHex(s: string)
  {
    forall i :: 0 <= i < |s| ==> 48 <= s[i] as int <= 57 || 65 <= s[i] as int <= 70 || 97 <= s[i] as int <= 102
  }

  lemma {:induction false} DecodedIffHex(s: string)
    requires |s| % 2 == 0
    ensures DecodeHex(s).Some? <==> AllHex(s)
  {
    hide HexValue;
    if |s| > 0 {
      var n := |s| - 2;
      DecodedIffHex(s[..n]);
      HexIff(s[n]);
      HexIff(s[n + 1]);
      assert s == s[..n] + [s[n], s[n + 1]];
    }
  }

  lemma HexIff(c: char)
    ensures HexValue(c).Some? <==> 48 <= c as int <= 57 || 65 <= c as int <= 70 || 97 <= c as int <= 102
  {
  }

  /**
   * Every line with a colon, white space around it aside: too few digits or too many, or not in pairs;
   * something that is no digit; not as long as its own first byte says; a sum that is not zero. Then it
   * is a record, and how that is taken is RecordTable's to say.
   */
  lemma RefusalTable(st: ParserState, before: string, body: string, after: string)
    requires White(before) && White(after) && (|body| > 0 ==> !White(body[|body| - 1..]))
    ensures var (result, _, next) := FeedSpec(st, before + (":" + body) + after);
            if |body| < 10 || |body| % 2 != 0 || |body| > 520 then (result, next) == (HexBadLength, st)
            else if !AllHex(body) then (result, next) == (HexBadCharacter, st)
            else
              var bytes := DecodeHex(body);
              && bytes.Some? && |bytes.value| == |body| / 2
              && if |body| / 2 != bytes.value[0] as nat + 5 then (result, next) == (HexBadLength, st)
                 else if Sum(bytes.value) % 256 != 0 then (result, next) == (HexBadChecksum, st)
                 else FeedSpec(st, before + (":" + body) + after) == ApplyRecord(st, bytes.value)
  {
    hide DecodeHex, ApplyRecord, AllHex, Sum;
    WhiteSpaces(before);
    WhiteSpaces(after);
    if |body| > 0 {
      NotASpace(body);
    }
    assert before + (":" + body) + after == before + (":" + body + after);
    SpacesSkipped(before, ":" + body + after);
    assert (":" + body + after)[1..] == body + after;
    SpacesTrimmed(body, after);
    if |body| % 2 == 0 {
      DecodedIffHex(body);
    }
  }

  lemma WhiteSpaces(s: string)
    requires White(s)
    ensures forall c :: c in s ==> IsSpace(c)
  {
    forall c | c in s ensures IsSpace(c) {
      var i :| 0 <= i < |s| && s[i] == c;
    }
  }

  lemma NotASpace(s: string)
    requires |s| > 0 && !White(s[|s| - 1..])
    ensures !IsSpace(s[|s| - 1])
  {
    assert s[|s| - 1..] == [s[|s| - 1]];
  }

  /** Without a colon after any white space there is no record at all. */
  lemma NoStartCode(st: ParserState, before: string, rest: string)
    requires White(before) && (rest == "" || (!White(rest[..1]) && rest[0] != ':'))
    ensures FeedSpec(st, before + rest) == (HexNoStartCode, NO_RECORD, st)
  {
    WhiteSpaces(before);
    if rest == "" {
      assert before + rest == before;
      AllSkipped(before);
    } else {
      assert rest[..1] == [rest[0]];
      SpacesSkipped(before, rest);
    }
  }

  lemma {:induction false} AllSkipped(spaces: string)
    requires forall c :: c in spaces ==> IsSpace(c)
    ensures WithoutLeading(spaces) == ""
  {
    if |spaces| > 0 {
      AllSkipped(spaces[1..]);
    }
  }

  /** The entry point a linker writes: 0x10000101, say. */
  lemma EntryPointLine()
    ensures Format(0, 5, [0x10, 0, 1, 1], true) == ":0400000510000101E5"
  {
    hide EncodeHex, Sum;
    EntryPointSum();
    var b := Unsummed(0, 5, [0x10, 0, 1, 1]);
    assert b == [4, 0, 0, 5, 0x10, 0, 1, 1] && b + [0xE5] == [4, 0, 0, 5, 0x10, 0, 1, 1, 0xE5];
    EntryPointDigits();
  }

  lemma EntryPointSum()
    ensures Sum([4, 0, 0, 5, 0x10, 0, 1, 1]) == 27
  {
    hide Sum;
    NoSum();
    SumMore([], 4);
    SumMore([4], 0);
    SumMore([4, 0], 0);
    SumMore([4, 0, 0], 5);
    assert [] + [4] == [4] && [4] + [0] == [4, 0] && [4, 0] + [0] == [4, 0, 0] && [4, 0, 0] + [5] == [4, 0, 0, 5];
    SumMore([4, 0, 0, 5], 0x10);
    SumMore([4, 0, 0, 5, 0x10], 0);
    SumMore([4, 0, 0, 5, 0x10, 0], 1);
    SumMore([4, 0, 0, 5, 0x10, 0, 1], 1);
    assert [4, 0, 0, 5] + [0x10] == [4, 0, 0, 5, 0x10] && [4, 0, 0, 5, 0x10] + [0] == [4, 0, 0, 5, 0x10, 0];
    assert [4, 0, 0, 5, 0x10, 0] + [1] == [4, 0, 0, 5, 0x10, 0, 1];
    assert [4, 0, 0, 5, 0x10, 0, 1] + [1] == [4, 0, 0, 5, 0x10, 0, 1, 1];
  }

  lemma NoSum()
    ensures Sum([]) == 0
  {
  }

  lemma EntryPointDigits()
    ensures EncodeHex([4, 0, 0, 5, 0x10, 0, 1, 1, 0xE5], true) == "0400000510000101E5"
  {
    hide EncodeHex, Digit;
    var b: seq<byte> := [4, 0, 0, 5, 0x10, 0, 1, 1, 0xE5];
    NinePairs(b);
    DigitsUsed();
    var s, t := EncodeHex(b, true), "0400000510000101E5";
    forall i | 0 <= i < 9 ensures s[2 * i] == t[2 * i] && s[2 * i + 1] == t[2 * i + 1] {
    }
    forall j | 0 <= j < 18 ensures s[j] == t[j] {
      assert j == 2 * (j / 2) || j == 2 * (j / 2) + 1;
    }
  }

  lemma DigitsUsed()
    ensures Digit(0, true) == '0' && Digit(1, true) == '1' && Digit(4, true) == '4' && Digit(5, true) == '5'
    ensures Digit(14, true) == 'E'
  {
  }

  lemma SumMore(b: seq<byte>, x: byte)
    ensures Sum(b + [x]) == Sum(b) + x as nat
  {
    assert (b + [x])[..|b|] == b;
  }

  /** Two digits a byte, the high one first. */
  lemma {:induction false} NinePairs(b: seq<byte>)
    ensures |EncodeHex(b, true)| == 2 * |b|
    ensures forall i :: 0 <= i < |b| ==>
              EncodeHex(b, true)[2 * i] == Digit(b[i] / 16, true) && EncodeHex(b, true)[2 * i + 1] == Digit(b[i] % 16, true)
  {
    hide Digit;
    if |b| > 0 {
      NinePairs(b[..|b| - 1]);
    }
  }

  // ---- what a run of records keeps -------------------------------------------------------

  /** A line that is refused, for whatever reason, changes nothing. */
  lemma RefusedChangesNothing(st: ParserState, line: string)
    requires FeedSpec(st, line).0 != HexOk
    ensures FeedSpec(st, line).2 == st
  {
    hide Sum, DecodeHex, WithoutTrailing, WithoutLeading;
  }

  /** After the end mark every record that sums is refused as coming after it, and no line is taken. */
  lemma NothingAfterEnd(st: ParserState, bytes: seq<byte>, upper: bool, line: string)
    requires st.seenEof
    requires FRAME <= |bytes| <= FRAME + MAX_DATA && |bytes| == bytes[0] as nat + FRAME && Sum(bytes) % 256 == 0
    ensures FeedSpec(st, ":" + EncodeHex(bytes, upper)).0 == HexAfterEof
    ensures FeedSpec(st, line).0 != HexOk
  {
    hide Sum, DecodeHex, WithoutTrailing, WithoutLeading, EncodeHex;
    var text := ":" + EncodeHex(bytes, upper);
    assert "" + text + "" == text;
    FramedLine(st, bytes, upper, "", "");
  }

  function Fed(st: ParserState, lines: seq<string>): ParserState
  {
    if |lines| == 0 then st else FeedSpec(Fed(st, lines[..|lines| - 1]), lines[|lines| - 1]).2
  }

  /** No line of these is taken as an address extension or as the end of the file. */
  predicate KeepsBase(st: ParserState, lines: seq<string>)
  {
    if |lines| == 0 then true
    else
      var (result, record, _) := FeedSpec(Fed(st, lines[..|lines| - 1]), lines[|lines| - 1]);
      KeepsBase(st, lines[..|lines| - 1]) &&
      (result == HexOk ==> record.kind !in {EXTENDED_SEGMENT, EXTENDED_LINEAR, END_OF_FILE})
  }

  lemma OneKeepsBase(st: ParserState, line: string)
    requires FeedSpec(st, line).0 == HexOk ==>
               FeedSpec(st, line).1.kind !in {EXTENDED_SEGMENT, EXTENDED_LINEAR, END_OF_FILE}
    ensures FeedSpec(st, line).2.addressBase == st.addressBase && FeedSpec(st, line).2.seenEof == st.seenEof
  {
    hide Sum, DecodeHex, WithoutTrailing, WithoutLeading;
  }

  lemma {:induction false} BaseKept(st: ParserState, lines: seq<string>)
    requires KeepsBase(st, lines)
    ensures Fed(st, lines).addressBase == st.addressBase && Fed(st, lines).seenEof == st.seenEof
  {
    hide FeedSpec;
    if |lines| > 0 {
      BaseKept(st, lines[..|lines| - 1]);
      OneKeepsBase(Fed(st, lines[..|lines| - 1]), lines[|lines| - 1]);
    }
  }

  /**
   * A base, sixteen bits above or four, holds for every data record until the next: whatever other
   * lines come between, data lands that far above its own offset.
   */
  lemma BaseHolds(st: ParserState, high: byte, low: byte, linear: bool, lines: seq<string>, offset: nat, data: seq<byte>)
    requires !st.seenEof && offset < 0x1_0000 && |data| <= MAX_DATA
    requires var based := FeedSpec(st, Format(0, if linear then EXTENDED_LINEAR else EXTENDED_SEGMENT, [high, low], true)).2;
             KeepsBase(based, lines)
    ensures var based := FeedSpec(st, Format(0, if linear then EXTENDED_LINEAR else EXTENDED_SEGMENT, [high, low], true)).2;
            FeedSpec(Fed(based, lines), Format(offset, DATA, data, true)) ==
              (HexOk, HexRecord(DATA, (256 * high + low) * (if linear then 0x1_0000 else 16) + offset, data), Fed(based, lines))
  {
    hide FeedSpec, Format, Fed, KeepsBase, Unsummed, Checksum;
    var kind := if linear then EXTENDED_LINEAR else EXTENDED_SEGMENT;
    var line, after := Format(0, kind, [high, low], true), Format(offset, DATA, data, true);
    assert "" + line + "" == line && "" + after + "" == after;
    FormatRoundTrip(st, 0, kind, [high, low], true, "", "");
    var st1 := FeedSpec(st, line).2;
    BaseSet(st, kind, high, low);
    BaseKept(st1, lines);
    FormatRoundTrip(Fed(st1, lines), offset, DATA, data, true, "", "");
    assert U32(st1.addressBase + offset) == st1.addressBase + offset;
  }

  lemma BaseSet(st: ParserState, kind: byte, high: byte, low: byte)
    requires !st.seenEof && (kind == EXTENDED_LINEAR || kind == EXTENDED_SEGMENT)
    ensures var b := Unsummed(0, kind, [high, low]);
            ApplyRecord(st, b + [Checksum(b)]).2 ==
              st.(addressBase := (256 * high + low) * if kind == EXTENDED_LINEAR then 0x1_0000 else 16)
  {
    hide Checksum;
    var b := Unsummed(0, kind, [high, low]);
    var bytes := b + [Checksum(b)];
    assert bytes[4..|bytes| - 1] == [high, low];
    assert [high, low][..1] == [high] && [high][..0] == [];
    assert BigEndian([high]) == high;
  }
}
