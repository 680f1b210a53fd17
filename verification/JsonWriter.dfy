/** The writing half of components/json/json.c: text appended to a buffer that may be too small. */
module JsonWriter {
  import opened Bytes
  import opened Characters
  import opened JsonText

  function Key(key: Option<string>): string
  {
    match key
    case None => ""
    case Some(k) => KeyText(true, k)
  }

  function Comma(needed: bool): string
  {
    if needed then "," else ""
  }

  function Pow10(n: nat): nat
  {
    if n == 0 then 1 else 10 * Pow10(n - 1)
  }

  function Backwards(s: seq<char>): (r: string)
    ensures |r| == |s|
  {
    if |s| == 0 then "" else [s[|s| - 1]] + Backwards(s[..|s| - 1])
  }

  class Writer {
    const buffer: array<char>
    var length: nat
    var depth: nat
    var needsComma: bool
    var overflowed: bool
    var malformed: bool
    /** The text so far, had there been room for all of it. */
    ghost var wanted: string

    /** A text that leaves no place free after it has overflowed. */
    ghost predicate Valid()
      reads this, buffer
    {
      && depth <= MAX_DEPTH
      && (overflowed <==> |wanted| + 1 > buffer.Length)
      && length <= |wanted| && (!overflowed ==> length == |wanted|)
      && (overflowed ==> length == if buffer.Length == 0 then 0 else buffer.Length - 1)
      && buffer[..length] == wanted[..length]
    }

    constructor (size: nat)
      ensures Valid() && fresh(buffer) && buffer.Length == size
      ensures wanted == "" && depth == 0 && !needsComma && !malformed
    {
      buffer := new char[size](_ => NUL);
      length, depth, needsComma, malformed := 0, 0, false, false;
      overflowed := size == 0;
      wanted := "";
    }

    method Put(c: char)
      requires Valid()
      modifies this`length, this`overflowed, this`wanted, buffer
      ensures Valid() && wanted == old(wanted) + [c]
    {
      wanted := wanted + [c];
      if overflowed || length + 1 >= buffer.Length {
        overflowed := true;
        assert buffer[..length] == old(buffer[..length]);
        return;
      }
      buffer[length] := c;
      length := length + 1;
    }

    method PutText(text: string)
      requires Valid()
      modifies this`length, this`overflowed, this`wanted, buffer
      ensures Valid() && wanted == old(wanted) + text
    {
      hide Valid;
      for i := 0 to |text|
        invariant Valid() && wanted == old(wanted) + text[..i]
      {
        Put(text[i]);
      }
      assert text[..|text|] == text;
    }

    method PutEscaped(text: string)
      requires Valid() && IsCString(text)
      modifies this`length, this`overflowed, this`wanted, buffer
      ensures Valid() && wanted == old(wanted) + Escape(text)
    {
      hide Valid, EscapeChar, Escape;
      assert text[0..] == text;
      NothingToEscape();
      for i := 0 to |text|
        invariant Valid() && wanted + Escape(text[i..]) == old(wanted) + Escape(text)
      {
        EscapeMore(text, i, wanted);
        PutOneEscaped(text[i]);
      }
      assert text[|text|..] == "";
    }

    method PutOneEscaped(c: char)
      requires Valid()
      modifies this`length, this`overflowed, this`wanted, buffer
      ensures Valid() && wanted == old(wanted) + EscapeChar(c)
    {
      hide Valid, HexDigit;
      var letter := ShortEscape(c);
      if letter.Some? {
        PutText([BACKSLASH, letter.value]);
      } else if c < ' ' {
        PutText([BACKSLASH, 'u', '0', '0']);
        Put(HexDigit(c as nat / 16));
        Put(HexDigit(c as nat % 16));
      } else {
        Put(c);
      }
    }

    method PutSeparator(key: Option<string>)
      requires Valid() && (key.Some? ==> IsCString(key.value))
      modifies this`length, this`overflowed, this`wanted, this`needsComma, buffer
      ensures Valid() && needsComma
      ensures wanted == old(wanted) + Comma(old(needsComma)) + Key(key)
    {
      hide Valid, Escape, KeyText;
      if needsComma {
        Put(',');
      }
      if key.Some? {
        KeyInParts(wanted, key.value);
        Put(QUOTE);
        PutEscaped(key.value);
        PutText([QUOTE, ':']);
      }
      label Written:
      needsComma := true;
      SameText@Written();
    }

    method Open(key: Option<string>, brace: char)
      requires Valid() && (key.Some? ==> IsCString(key.value))
      modifies this, buffer
      ensures Valid()
      ensures old(depth) >= MAX_DEPTH ==>
                malformed && depth == old(depth) && wanted == old(wanted) && needsComma == old(needsComma)
      ensures old(depth) < MAX_DEPTH ==>
                malformed == old(malformed) && depth == old(depth) + 1 && !needsComma &&
                wanted == old(wanted) + Comma(old(needsComma)) + Key(key) + [brace]
    {
      hide Valid, Key;
      if depth >= MAX_DEPTH {
        malformed := true;
        SameText();
        return;
      }
      PutSeparator(key);
      Put(brace);
      label Written:
      depth := depth + 1;
      needsComma := false;
      SameText@Written();
    }

    method Close(brace: char)
      requires Valid()
      modifies this, buffer
      ensures Valid()
      ensures old(depth) == 0 ==>
                malformed && depth == 0 && wanted == old(wanted) && needsComma == old(needsComma)
      ensures old(depth) > 0 ==>
                malformed == old(malformed) && depth == old(depth) - 1 && needsComma && wanted == old(wanted) + [brace]
    {
      if depth == 0 {
        malformed := true;
        return;
      }
      Put(brace);
      depth := depth - 1;
      needsComma := true;
    }

    method WriteInt(key: Option<string>, value: int)
      requires Valid() && (key.Some? ==> IsCString(key.value)) && IsInt32(value)
      modifies this`length, this`overflowed, this`wanted, this`needsComma, buffer
      ensures Valid() && needsComma
      ensures wanted == old(wanted) + Comma(old(needsComma)) + Key(key) + IntText(value)
    {
      hide Valid, Key, Digits;
      PutSeparator(key);
      var magnitude := value;
      if magnitude < 0 {
        Put('-');
        magnitude := -magnitude;
      }
      PutDigits(magnitude);
    }

    method PutDigits(value: nat)
      requires Valid() && value <= 0x8000_0000
      modifies this`length, this`overflowed, this`wanted, buffer
      ensures Valid() && wanted == old(wanted) + Digits(value)
    {
      hide Valid, Digits;
      var digits := new char[12];
      var n := CollectDigits(value, digits);
      ghost var all := Backwards(digits[..n]);
      while n > 0
        invariant 0 <= n <= 12 && Valid() && wanted + Backwards(digits[..n]) == old(wanted) + all
      {
        n := n - 1;
        assert digits[..n + 1][..n] == digits[..n];
        Put(digits[n]);
      }
      assert digits[..0] == [] && wanted + "" == wanted;
    }

    /** The digits of a value, lowest first. */
    static method CollectDigits(value: nat, digits: array<char>) returns (n: nat)
      requires value <= 0x8000_0000 && digits.Length == 12
      modifies digits
      ensures n <= 10 && Digits(value) == Backwards(digits[..n])
    {
      hide Digits, Backwards;
      var rest: nat := value;
      TenDigits();
      DigitMore(rest);
      digits[0] := '0' + (rest % 10) as char;
      BackwardsMore(digits[..1], []);
      n := 1;
      rest := rest / 10;
      while rest != 0
        invariant 1 <= n <= 10 && rest < Pow10(10 - n)
        invariant Digits(value) == (if rest == 0 then "" else Digits(rest)) + Backwards(digits[..n])
      {
        DigitMore(rest);
        ghost var held := digits[..n];
        digits[n] := '0' + (rest % 10) as char;
        assert digits[..n + 1][..n] == held;
        BackwardsMore(digits[..n + 1], held);
        n := n + 1;
        rest := rest / 10;
      }
    }

    method WriteBool(key: Option<string>, value: bool)
      requires Valid() && (key.Some? ==> IsCString(key.value))
      modifies this`length, this`overflowed, this`wanted, this`needsComma, buffer
      ensures Valid() && needsComma
      ensures wanted == old(wanted) + Comma(old(needsComma)) + Key(key) + if value then "true" else "false"
    {
      hide Valid, Key;
      PutSeparator(key);
      PutText(if value then "true" else "false");
    }

    /** json_writer_string; no value at all is written as null. */
    method WriteString(key: Option<string>, value: Option<string>)
      requires Valid() && (key.Some? ==> IsCString(key.value)) && (value.Some? ==> IsCString(value.value))
      modifies this`length, this`overflowed, this`wanted, this`needsComma, buffer
      ensures Valid() && needsComma
      ensures wanted == old(wanted) + Comma(old(needsComma)) + Key(key) + if value.Some? then Quoted(value.value) else "null"
    {
      hide Valid, Key, Escape;
      PutSeparator(key);
      if value == None {
        PutText("null");
        return;
      }
      Put(QUOTE);
      PutEscaped(value.value);
      Put(QUOTE);
    }

    /** json_writer_raw, and json_writer_null with none. */
    method WriteRaw(key: Option<string>, json: Option<string>)
      requires Valid() && (key.Some? ==> IsCString(key.value))
      modifies this`length, this`overflowed, this`wanted, this`needsComma, buffer
      ensures Valid() && needsComma
      ensures wanted == old(wanted) + Comma(old(needsComma)) + Key(key) + if json.Some? then json.value else "null"
    {
      hide Valid, Key;
      PutSeparator(key);
      PutText(if json.Some? then json.value else "null");
    }

    /** json_writer_finish; the length never reaches the size, so its clamp never acts. */
    method Finish() returns (ok: bool)
      requires Valid()
      modifies buffer
      ensures length <= |wanted| && length <= buffer.Length && (buffer.Length > 0 ==> length < buffer.Length && buffer[length] == NUL)
      ensures buffer.Length > 0 ==> buffer[..length] == wanted[..length]
      ensures ok <==> !malformed && depth == 0 && |wanted| + 1 <= buffer.Length
      ensures ok ==> buffer[..length] == wanted
    {
      if buffer.Length > 0 {
        buffer[length] := NUL;
        assert buffer[..length] == old(buffer[..length]);
      }
      return !overflowed && !malformed && depth == 0;
    }

    lemma DepthBounded()
      requires Valid()
      ensures depth <= MAX_DEPTH
    {
    }

    /** Where the next comma goes, and how deep we are, is nothing to the text. */
    twostate lemma SameText()
      requires old(Valid()) && unchanged(buffer) && (depth <= MAX_DEPTH || depth == old(depth))
      requires length == old(length) && overflowed == old(overflowed) && wanted == old(wanted)
      ensures Valid()
    {
      assert buffer[..length] == old(buffer[..length]);
    }
  }

  // ---- whole values, by matching calls ------------------------------------------------------

  /** Every call for a value, in order. Nesting it too deep is noticed and never forgotten. */
  method WriteValue(w: Writer, key: Option<string>, v: Json)
    requires w.Valid() && (key.Some? ==> IsCString(key.value)) && Writable(v)
    modifies w, w.buffer
    ensures w.Valid() && (old(w.malformed) ==> w.malformed)
    ensures old(w.depth) + Nesting(v) > MAX_DEPTH ==> w.malformed
    ensures old(w.depth) + Nesting(v) <= MAX_DEPTH && !old(w.malformed) ==>
              !w.malformed && w.depth == old(w.depth) && w.needsComma &&
              w.wanted == old(w.wanted) + Comma(old(w.needsComma)) + Key(key) + Print(v)
    decreases v
  {
    hide Writer.Valid, IntText, Quoted, KeyText, Comma;
    w.DepthBounded();
    match v
    case Null => w.WriteRaw(key, None);
    case Bool(b) => w.WriteBool(key, b);
    case Int(i) => w.WriteInt(key, i);
    case Str(text) => w.WriteString(key, Some(text));
    case Container(isObject, items) =>
      w.Open(key, Opening(isObject));
      WriteItems(w, isObject, items);
      w.Close(Closing(isObject));
      if old(w.depth) + Nesting(v) <= MAX_DEPTH && !old(w.malformed) {
        ContainerText(old(w.wanted), Comma(old(w.needsComma)), Key(key), isObject, items);
      }
  }

  lemma ContainerText(start: string, comma: string, key: string, isObject: bool, items: Items)
    ensures (start + comma + key + [Opening(isObject)]) + Comma(false) + PrintItems(isObject, items) + [Closing(isObject)] ==
              start + comma + key + Print(Container(isObject, items))
    ensures Comma(false) == ""
  {
  }

  /** The members one after another; only the first goes without a comma, and only in a new container. */
  method WriteItems(w: Writer, isObject: bool, items: Items)
    requires w.Valid() && ItemsWritable(isObject, items)
    modifies w, w.buffer
    ensures w.Valid() && (old(w.malformed) ==> w.malformed)
    ensures old(w.depth) + ItemsNesting(items) > MAX_DEPTH ==> w.malformed
    ensures old(w.depth) + ItemsNesting(items) <= MAX_DEPTH && !old(w.malformed) ==>
              !w.malformed && w.depth == old(w.depth) &&
              w.wanted == old(w.wanted) + Comma(old(w.needsComma) && items.Item?) + PrintItems(isObject, items)
    decreases items
  {
    hide Writer.Valid, Print, KeyText, PrintItems, Comma, Key;
    w.DepthBounded();
    match items
    case Nil => NoItems(old(w.wanted), isObject);
    case Item(key, value, rest) =>
      WriteValue(w, if isObject then Some(key) else None, value);
      WriteItems(w, isObject, rest);
      if old(w.depth) + ItemsNesting(items) <= MAX_DEPTH && !old(w.malformed) {
        ItemsText(old(w.wanted), Comma(old(w.needsComma)), isObject, items);
      }
  }

  lemma NoItems(start: string, isObject: bool)
    ensures start + Comma(false) + PrintItems(isObject, Nil) == start
  {
  }

  lemma ItemsText(start: string, comma: string, isObject: bool, items: Items)
    requires items.Item?
    ensures start + comma + Key(if isObject then Some(items.key) else None) + Print(items.value) +
              Comma(items.rest.Item?) + PrintItems(isObject, items.rest) == start + comma + PrintItems(isObject, items)
  {
    hide Print, Quoted;
    var key, text, tail := KeyText(isObject, items.key), Print(items.value), PrintItems(isObject, items.rest);
    assert PrintItems(isObject, items) == key + text + (Comma(items.rest.Item?) + tail);
  }

  /**
   * A document is finished exactly when it nests no deeper than the limit and fits with its
   * terminator, and then the buffer holds all of it.
   */
  method WriteDocument(v: Json, size: nat) returns (ok: bool, text: seq<char>)
    requires Writable(v)
    ensures ok <==> Nesting(v) <= MAX_DEPTH && |Print(v)| + 1 <= size
    ensures ok ==> text == Print(v)
  {
    hide Print, Writer.Valid, Nesting, Writable;
    var w := new Writer(size);
    WriteValue(w, None, v);
    ok := w.Finish();
    text := w.buffer[..w.length];
  }

  lemma KeyInParts(start: string, key: string)
    ensures start + [QUOTE] + Escape(key) + [QUOTE, ':'] == start + KeyText(true, key)
  {
    hide Escape;
  }

  lemma NothingToEscape()
    ensures Escape("") == ""
  {
  }

  lemma EscapeMore(text: string, i: nat, before: string)
    requires i < |text|
    ensures before + Escape(text[i..]) == before + EscapeChar(text[i]) + Escape(text[i + 1..])
  {
    hide EscapeChar;
    assert text[i..][1..] == text[i + 1..];
  }

  lemma BackwardsMore(s: string, front: string)
    requires |s| == |front| + 1 && s[..|front|] == front
    ensures Backwards(s) == [s[|front|]] + Backwards(front) && Backwards("") == ""
  {
  }

  lemma DigitMore(n: nat)
    ensures Digits(n) == (if n < 10 then "" else Digits(n / 10)) + ['0' + (n % 10) as char]
  {
  }

  lemma TenDigits()
    ensures Pow10(9) == 1_000_000_000
  {
    assert Pow10(3) == 1000;
    assert Pow10(6) == 1_000_000;
  }
}
