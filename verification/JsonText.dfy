/**
 * JSON documents as trees, the text components/json/json.c writes for them, and the escapes
 * and numbers within it (sections 4 to 7 of RFC 8259).
 */
module JsonText {
  import opened Arithmetic
  import opened Bytes
  import opened Characters

  const MAX_DEPTH: nat := 16

  datatype Json = Null | Bool(b: bool) | Int(i: int) | Str(text: string) | Container(isObject: bool, items: Items)

  /** Members of an object, or elements of an array, whose keys mean nothing. */
  datatype Items = Nil | Item(key: string, value: Json, rest: Items)

  function Nesting(v: Json): nat
  {
    match v
    case Container(_, items) => 1 + ItemsNesting(items)
    case _ => 0
  }

  function ItemsNesting(items: Items): nat
  {
    match items
    case Nil => 0
    case Item(_, value, rest) => Larger(Nesting(value), ItemsNesting(rest))
  }

  /** Every integer fits 32 bits with a sign, and no string holds the terminator. */
  predicate Writable(v: Json)
    decreases v
  {
    match v
    case Int(i) => IsInt32(i)
    case Str(text) => IsCString(text)
    case Container(isObject, items) => ItemsWritable(isObject, items)
    case _ => true
  }

  predicate ItemsWritable(isObject: bool, items: Items)
    decreases items
  {
    match items
    case Nil => true
    case Item(key, value, rest) => (isObject ==> IsCString(key)) && Writable(value) && ItemsWritable(isObject, rest)
  }

  predicate IsInt32(i: int)
  {
    -0x8000_0000 <= i < 0x8000_0000
  }

  predicate IsCString(s: string)
  {
    forall i :: 0 <= i < |s| ==> s[i] != NUL
  }

  // ---- strings ------------------------------------------------------------------------

  const QUOTE: char := 34 as char
  const BACKSLASH: char := 92 as char

  function HexDigit(n: nat): char
    requires n < 16
  {
    if n < 10 then '0' + n as char else 'a' + (n - 10) as char
  }

  /** The one-letter escapes the writer uses, by the letter after the backslash. */
  function ShortEscape(c: char): Option<char>
  {
    if c == QUOTE || c == BACKSLASH then Some(c)
    else if c == 8 as char then Some('b')
    else if c == 12 as char then Some('f')
    else if c == '\n' then Some('n')
    else if c == '\r' then Some('r')
    else if c == '\t' then Some('t')
    else None
  }

  function EscapeChar(c: char): (r: string)
    ensures |r| > 0
  {
    match ShortEscape(c)
    case Some(letter) => [BACKSLASH, letter]
    case None =>
      if c < ' ' then [BACKSLASH, 'u', '0', '0', HexDigit(c as nat / 16), HexDigit(c as nat % 16)] else [c]
  }

  function Escape(s: string): string
  {
    if |s| == 0 then "" else EscapeChar(s[0]) + Escape(s[1..])
  }

  /** The character a single-letter escape stands for, to a reader. */
  function LongMeaning(letter: char): Option<char>
  {
    if letter == QUOTE || letter == BACKSLASH || letter == '/' then Some(letter)
    else if letter == 'b' then Some(8 as char)
    else if letter == 'f' then Some(12 as char)
    else if letter == 'n' then Some('\n')
    else if letter == 'r' then Some('\r')
    else if letter == 't' then Some('\t')
    else None
  }

  function HexNumber(s: string): Option<nat>
  {
    if |s| == 0 then Some(0)
    else
      match (HexNumber(s[..|s| - 1]), HexValue(s[|s| - 1]))
      case (Some(high), Some(low)) => Some(16 * high + low)
      case _ => None
  }

  /** The first character an escaped text stands for, and how much of the text it takes. */
  function FirstChar(s: string): (r: Option<(char, nat)>)
    requires |s| > 0
    ensures r.Some? ==> 0 < r.value.1 <= |s|
  {
    if s[0] != BACKSLASH then Some((s[0], 1))
    else if |s| < 2 then None
    else if s[1] == 'u' then
      if |s| < 6 then None
      else
        match HexNumber(s[2..6])
        case Some(code) => if code > 0x7F then None else Some((code as char, 6))
        case None => None
    else
      match LongMeaning(s[1])
      case Some(c) => Some((c, 2))
      case None => None
  }

  function Unescape(s: string): (r: Option<string>)
    ensures r.Some? ==> |r.value| <= |s|
    decreases |s|
  {
    if |s| == 0 then Some("")
    else
      match FirstChar(s)
      case None => None
      case Some((c, width)) =>
        match Unescape(s[width..])
        case None => None
        case Some(rest) => Some([c] + rest)
  }

  lemma HexRoundTrip(n: nat)
    requires n < 16
    ensures HexValue(HexDigit(n)) == Some(n)
  {
  }

  lemma {:induction false} FourDigits(a: char, b: char, high: nat, low: nat)
    requires a == '0' && b == '0' && high < 2 && low < 16
    ensures HexNumber([a, b, HexDigit(high), HexDigit(low)]) == Some(16 * high + low)
  {
    hide HexDigit;
    HexRoundTrip(high);
    HexRoundTrip(low);
    var s := [a, b, HexDigit(high), HexDigit(low)];
    assert s[..3] == [a, b, HexDigit(high)] && s[..3][..2] == [a, b] && [a, b][..1] == [a] && [a][..0] == "";
    assert HexNumber([a]) == Some(0);
    assert HexNumber([a, b]) == Some(0);
    assert HexNumber(s[..3]) == Some(high);
  }

  /** Whatever follows it, an escaped character reads back as itself. */
  lemma EscapedCharReads(c: char, rest: string)
    ensures FirstChar(EscapeChar(c) + rest) == Some((c, |EscapeChar(c)|))
  {
    hide HexNumber, HexDigit;
    var s := EscapeChar(c) + rest;
    if ShortEscape(c) == None && c < ' ' {
      FourDigits('0', '0', c as nat / 16, c as nat % 16);
      assert s[2..6] == ['0', '0', HexDigit(c as nat / 16), HexDigit(c as nat % 16)];
    }
  }

  lemma {:induction false} EscapeRoundTrip(s: string)
    ensures Unescape(Escape(s)) == Some(s)
  {
    hide EscapeChar, FirstChar;
    if |s| > 0 {
      EscapedCharReads(s[0], Escape(s[1..]));
      EscapeRoundTrip(s[1..]);
      var whole := Escape(s);
      assert whole[|EscapeChar(s[0])|..] == Escape(s[1..]);
      assert s == [s[0]] + s[1..];
    }
  }

  // ---- numbers -----------------------------------------------------------------------

  function Digits(n: nat): (s: string)
    ensures |s| > 0
  {
    (if n < 10 then "" else Digits(n / 10)) + ['0' + (n % 10) as char]
  }

  function DigitsValue(s: string): nat
    requires forall i :: 0 <= i < |s| ==> IsDigit(s[i])
  {
    if |s| == 0 then 0
    else
      assert IsDigit(s[|s| - 1]);
      10 * DigitsValue(s[..|s| - 1]) + (s[|s| - 1] as nat - '0' as nat)
  }

  lemma {:induction false} DigitsRoundTrip(n: nat)
    ensures forall i :: 0 <= i < |Digits(n)| ==> IsDigit(Digits(n)[i])
    ensures DigitsValue(Digits(n)) == n
  {
    if n >= 10 {
      DigitsRoundTrip(n / 10);
      assert Digits(n)[..|Digits(n)| - 1] == Digits(n / 10);
    }
  }

  function IntText(i: int): string
  {
    if i < 0 then "-" + Digits(-i) else Digits(i)
  }

  // ---- the whole text ------------------------------------------------------------------

  function Quoted(s: string): string
  {
    [QUOTE] + Escape(s) + [QUOTE]
  }

  function Opening(isObject: bool): char
  {
    if isObject then '{' else '['
  }

  function Closing(isObject: bool): char
  {
    if isObject then '}' else ']'
  }

  function KeyText(isObject: bool, key: string): string
  {
    if isObject then Quoted(key) + ":" else ""
  }

  function Print(v: Json): (s: string)
    ensures |s| > 0
    decreases v
  {
    match v
    case Null => "null"
    case Bool(b) => if b then "true" else "false"
    case Int(i) => IntText(i)
    case Str(text) => Quoted(text)
    case Container(isObject, items) => [Opening(isObject)] + PrintItems(isObject, items) + [Closing(isObject)]
  }

  function PrintItems(isObject: bool, items: Items): string
    decreases items
  {
    match items
    case Nil => ""
    case Item(key, value, rest) =>
      KeyText(isObject, key) + Print(value) + if rest.Nil? then "" else "," + PrintItems(isObject, rest)
  }

  /** The first member of that name. */
  function Lookup(items: Items, key: string): Option<Json>
  {
    match items
    case Nil => None
    case Item(k, value, rest) => if k == key then Some(value) else Lookup(rest, key)
  }
}
