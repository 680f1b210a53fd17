/** What the writer of components/json/json.c writes, as one of the documents its reader accepts. */
module JsonPrinted {
  import opened Bytes
  import opened Characters
  import opened JsonText
  import opened JsonScan
  import opened JsonFind
  import opened JsonDocs
  import opened JsonLookups

  /** A printed value has no white space and no more escapes than it needs. */
  function Plainly(v: Json): Doc
    decreases v
  {
    match v
    case Null => Word("null")
    case Bool(b) => Word(if b then "true" else "false")
    case Int(i) => Number(if i < 0 then "-" else "", Digits(if i < 0 then -i else i), "", "")
    case Str(text) => Text(Escape(text))
    case Container(isObject, items) => Group(isObject, "", PlainItems(items))
  }

  function PlainItems(items: Items): Members
    decreases items
  {
    match items
    case Nil => Done
    case Item(key, value, rest) => Member("", Escape(key), "", "", Plainly(value), "", PlainItems(rest))
  }

  // ---- the text of a value ------------------------------------------------------------------

  lemma EscapedCharIsBody(c: char, rest: string)
    requires IsBody(rest)
    ensures IsBody(EscapeChar(c) + rest)
  {
    hide HexDigit;
    var s := EscapeChar(c) + rest;
    var n := |EscapeChar(c)|;
    assert s[n..] == rest;
    if n == 6 {
      var high, low := HexDigit(c as nat / 16), HexDigit(c as nat % 16);
      HexDigitPlain(c as nat / 16);
      HexDigitPlain(c as nat % 16);
      OneAhead(low, rest);
      OneAhead(high, [low] + rest);
      OneAhead('0', [high] + ([low] + rest));
      OneAhead('0', ['0'] + ([high] + ([low] + rest)));
      assert s[2..] == ['0'] + (['0'] + ([high] + ([low] + rest)));
    }
  }

  lemma OneAhead(c: char, rest: string)
    requires IsBody(rest) && c as int != 34 && c as int != 92
    ensures IsBody([c] + rest)
  {
    assert ([c] + rest)[1..] == rest;
  }

  lemma HexDigitPlain(n: nat)
    requires n < 16
    ensures HexDigit(n) as int != 34 && HexDigit(n) as int != 92
  {
  }

  lemma {:induction false} EscapedIsBody(text: string)
    ensures IsBody(Escape(text))
  {
    hide EscapeChar, IsBody;
    if |text| > 0 {
      EscapedIsBody(text[1..]);
      EscapedCharIsBody(text[0], Escape(text[1..]));
    } else {
      EmptyIsBody();
    }
  }

  lemma EmptyIsBody()
    ensures IsBody("")
  {
  }

  lemma PlainNumber(i: int)
    ensures IsDoc(Plainly(Int(i))) && Spelled(Plainly(Int(i))) == Print(Int(i))
  {
    hide Digits;
    var digits := Digits(if i < 0 then -i else i);
    DigitsRoundTrip(if i < 0 then -i else i);
    assert Decimals(digits);
    var sign := if i < 0 then "-" else "";
    var t := sign + digits + "" + "";
    assert t == sign + digits == Print(Int(i));
    assert t[|t| - 1..] == [digits[|digits| - 1]];
  }

  /** Printing a value spells a document, which nests as deep as the value does. */
  lemma {:induction false} PrintedIsSpelled(v: Json)
    ensures IsDoc(Plainly(v)) && Spelled(Plainly(v)) == Print(v) && Depth(Plainly(v)) == Nesting(v)
    decreases v
  {
    hide IsBody, Escape, Digits, IntText;
    match v
    case Null =>
    case Bool(b) =>
    case Int(i) => PlainNumber(i);
    case Str(text) => EscapedIsBody(text);
    case Container(isObject, items) => ItemsAreSpelled(isObject, items);
  }

  lemma {:induction false} ItemsAreSpelled(isObject: bool, items: Items)
    ensures AreMembers(isObject, PlainItems(items)) && SpelledMembers(isObject, PlainItems(items)) == PrintItems(isObject, items)
    ensures MembersDepth(PlainItems(items)) == ItemsNesting(items)
    decreases items
  {
    hide IsBody, Escape, IsDoc, Spelled, Print, Depth, Nesting;
    if items.Item? {
      PrintedIsSpelled(items.value);
      ItemsAreSpelled(isObject, items.rest);
      EscapedIsBody(items.key);
    }
  }

  /** The scanner's limit is the writer's: what is written is valid exactly when it nests within it. */
  lemma PrintedIsValidIff(v: Json)
    ensures ValidText(Print(v)) <==> Nesting(v) <= MAX_DEPTH
  {
    hide ValidText, Spelled, Print, Depth, Nesting, IsDoc;
    PrintedIsSpelled(v);
    SpelledIsValidIff("", Plainly(v), "");
    assert "" + Print(v) + "" == Print(v);
  }

  /** A value is known for its kind by its first letter. */
  lemma PrintedKind(v: Json)
    ensures KindOf(Print(v)[0]) == KindOfValue(v)
  {
    hide Spelled, Print, IsDoc, Depth, Nesting;
    PrintedIsSpelled(v);
    OccursWhole(Print(v));
    FirstLetter(Print(v), 0, Plainly(v));
  }

  // ---- its very characters ---------------------------------------------------------------------

  /** How each character is written inside quotes, by its code: seven letters, two lower-case digits, or as it is. */
  lemma WrittenTable(c: char)
    ensures c as int in {34, 92} ==> EscapeChar(c) == [92 as char, c]
    ensures c as int == 8 ==> EscapeChar(c) == [92 as char, 98 as char]
    ensures c as int == 9 ==> EscapeChar(c) == [92 as char, 116 as char]
    ensures c as int == 10 ==> EscapeChar(c) == [92 as char, 110 as char]
    ensures c as int == 12 ==> EscapeChar(c) == [92 as char, 102 as char]
    ensures c as int == 13 ==> EscapeChar(c) == [92 as char, 114 as char]
    ensures c as int < 32 && c as int !in {8, 9, 10, 12, 13} ==>
              var low := c as int % 16;
              EscapeChar(c) == [92 as char, 117 as char, 48 as char, 48 as char, (48 + c as int / 16) as char,
                                (if low < 10 then 48 + low else 87 + low) as char]
    ensures c as int >= 32 && c as int !in {34, 92} ==> EscapeChar(c) == [c]
  {
  }

  /** Decimal digits worth the number, and none of them in vain: only zero begins with a zero. */
  lemma {:induction false} WrittenNumber(n: nat)
    ensures Decimals(Digits(n)) && Worth(Digits(n)) == n && (Digits(n)[0] == '0' ==> Digits(n) == "0")
  {
    DigitsRoundTrip(n);
    DigitsWorth(Digits(n));
    if n >= 10 {
      WrittenNumber(n / 10);
      assert Digits(n)[0] == Digits(n / 10)[0];
      assert Worth("0") == 0;
    }
  }

  /** A whole document as written: its members in order, commas between them and white space nowhere. */
  lemma WrittenExample()
    ensures var list := Container(false, Item("", Int(-50), Item("", Bool(true), Nil)));
            var v := Container(true, Item("a", list, Item("b", Str("x"), Nil)));
            Print(v) == "{\"a\":[-50,true],\"b\":\"x\"}"
  {
    hide IntText, Quoted, Print, PrintItems;
    var elements := Item("", Int(-50), Item("", Bool(true), Nil));
    var list := Container(false, elements);
    var members := Item("a", list, Item("b", Str("x"), Nil));
    FiftyDigits();
    OneQuoted('a');
    OneQuoted('b');
    OneQuoted('x');
    TwoPrinted(false, "", Int(-50), "", Bool(true));
    TwoPrinted(true, "a", list, "b", Str("x"));
    WordsPrinted();
    BracketsPrinted(false, elements);
    BracketsPrinted(true, members);
    assert Print(list) == "[-50,true]";
    assert PrintItems(true, members) == "\"a\":[-50,true],\"b\":\"x\"";
  }

  lemma TwoPrinted(isObject: bool, j: string, v: Json, k: string, w: Json)
    ensures PrintItems(isObject, Item(j, v, Item(k, w, Nil))) ==
              (if isObject then Quoted(j) + ":" else "") + Print(v) + "," + (if isObject then Quoted(k) + ":" else "") + Print(w)
  {
    hide Print, Quoted;
    assert PrintItems(isObject, Item(k, w, Nil)) == KeyText(isObject, k) + Print(w) + "";
  }

  lemma WordsPrinted()
    ensures Print(Bool(true)) == "true" && Print(Int(-50)) == IntText(-50) && Print(Str("x")) == Quoted("x")
  {
  }

  lemma BracketsPrinted(isObject: bool, items: Items)
    ensures Print(Container(isObject, items)) ==
              (if isObject then "{" else "[") + PrintItems(isObject, items) + if isObject then "}" else "]"
  {
  }

  lemma FiftyDigits()
    ensures IntText(-50) == "-50"
  {
    assert Digits(5) == "5";
    assert Digits(50) == "5" + "0";
  }

  lemma OneQuoted(c: char)
    requires 'a' <= c <= 'z'
    ensures Quoted([c]) == [34 as char, c, 34 as char]
  {
    assert Escape("") == "";
    assert Escape([c]) == [c] + "";
  }

  // ---- its parts ------------------------------------------------------------------------------

  function LengthOf(items: Items): nat
  {
    match items
    case Nil => 0
    case Item(_, _, rest) => 1 + LengthOf(rest)
  }

  function Nth(items: Items, n: nat): Option<Json>
  {
    match items
    case Nil => None
    case Item(_, value, rest) => if n == 0 then Some(value) else Nth(rest, n - 1)
  }

  function PlainOption(v: Option<Json>): Option<Doc>
  {
    match v
    case None => None
    case Some(value) => Some(Plainly(value))
  }

  lemma {:induction false} FirstIsLookup(items: Items, key: string)
    ensures First(PlainItems(items), key) == PlainOption(Lookup(items, key))
    decreases items
  {
    hide Escape, Unescape, Plainly, Means;
    if items.Item? {
      EscapeRoundTrip(items.key);
      UnescapedIff(Escape(items.key), key);
      FirstIsLookup(items.rest, key);
    }
  }

  lemma {:induction false} ElementIsNth(items: Items, n: nat)
    ensures ElementOf(PlainItems(items), n) == PlainOption(Nth(items, n)) && CountOf(PlainItems(items)) == LengthOf(items)
    ensures Nth(items, n).Some? <==> n < LengthOf(items)
    decreases items
  {
    hide Plainly;
    if items.Item? {
      ElementIsNth(items.rest, if n == 0 then 0 else n - 1);
    }
  }

  /** The text located is what is written for the value, and known for its kind. */
  predicate Located(s: string, f: Option<Found>, v: Option<Json>)
  {
    match v
    case None => f == None
    case Some(value) =>
      && f.Some? && f.value.start + f.value.length <= |s|
      && s[f.value.start..f.value.start + f.value.length] == Print(value) && f.value.kind == KindOfValue(value)
  }

  lemma AnswersLocated(s: string, f: Option<Found>, v: Option<Json>)
    requires Answers(s, f, PlainOption(v))
    ensures Located(s, f, v)
  {
    hide Print, Spelled, IsDoc, Depth, Nesting;
    if v.Some? {
      PrintedIsSpelled(v.value);
    }
  }

  /**
   * Looking a key up in an object that was written gives exactly the text of its first member of
   * that name, quotes and braces included, and nothing when there is none.
   */
  lemma PrintedFound(items: Items, key: string)
    requires Nesting(Container(true, items)) <= MAX_DEPTH
    ensures Located(Print(Container(true, items)), Find(Print(Container(true, items)), key), Lookup(items, key))
  {
    hide Find, Spelled, Print, Depth, Nesting, IsDoc, PlainItems, First, Lookup, Answers, Located;
    var v := Container(true, items);
    PrintedIsSpelled(v);
    MemberFoundIff("", "", PlainItems(items), "", key);
    assert "" + Print(v) + "" == Print(v);
    FirstIsLookup(items, key);
    AnswersLocated(Print(v), Find(Print(v), key), Lookup(items, key));
  }

  /** An array that was written has as many elements as went in, each exactly the text of its value. */
  lemma PrintedElements(items: Items, n: nat)
    requires Nesting(Container(false, items)) <= MAX_DEPTH
    ensures var s := Print(Container(false, items));
            && ArrayLength(s) == LengthOf(items) && Located(s, ElementAt(s, n), Nth(items, n))
            && (Nth(items, n).Some? <==> n < LengthOf(items))
  {
    hide ArrayLength, ElementAt, Spelled, Print, Depth, Nesting, IsDoc, PlainItems, Nth, Answers, Located;
    var v := Container(false, items);
    PrintedIsSpelled(v);
    ElementFoundIff("", PlainItems(items), n);
    ElementIsNth(items, n);
    AnswersLocated(Print(v), ElementAt(Print(v), n), Nth(items, n));
  }

  // ---- values read back ---------------------------------------------------------------------------

  lemma GetIntRoundTrip(i: int)
    requires IsInt32(i)
    ensures GetInt(IntText(i)) == Some(i)
  {
    hide Digits, GetInt, Worth, IsNumber;
    var n := if i < 0 then -i else i;
    DigitsRoundTrip(n);
    DigitsWorth(Digits(n));
    PlainNumber(i);
    var sign := if i < 0 then "-" else "";
    assert sign + Digits(n) + "" + "" == IntText(i);
    IntReadIs(sign, Digits(n), "", "");
  }

  lemma GetStringRoundTrip(text: string, size: nat)
    ensures GetString(Quoted(text), size) == if size > |text| then Some(text) else None
  {
    hide Escape, Unescape;
    EscapeRoundTrip(text);
    assert Quoted(text)[1..|Quoted(text)| - 1] == Escape(text);
  }
}
