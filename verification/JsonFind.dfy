/** Members found by name and values read back out of the text (components/json/json.c). */
module JsonFind {
  import opened Bytes
  import opened Characters
  import opened JsonText
  import opened JsonScan

  datatype Kind = KindNull | KindBool | KindNumber | KindString | KindObject | KindArray

  /** Where in the document a value lies; a string's quotes are part of it. */
  datatype Found = Found(kind: Kind, start: nat, length: nat)

  function KindOf(c: char): Kind
  {
    if c == QUOTE then KindString
    else if c == '{' then KindObject
    else if c == '[' then KindArray
    else if c == 't' || c == 'f' then KindBool
    else if c == 'n' then KindNull
    else KindNumber
  }

  function KindOfValue(v: Json): Kind
  {
    match v
    case Null => KindNull
    case Bool(_) => KindBool
    case Int(_) => KindNumber
    case Str(_) => KindString
    case Container(isObject, _) => if isObject then KindObject else KindArray
  }

  function FindFrom(s: string, p: nat, key: string): (r: Option<Found>)
    requires p <= |s|
    ensures r.Some? ==> r.value.start + r.value.length <= |s|
    decreases |s| - p
  {
    var name := SkipWhite(s, p);
    match SkipString(s, name)
    case None => None
    case Some(nameEnd) =>
      var q := SkipWhite(s, nameEnd);
      if q >= |s| || s[q] != ':' then None
      else
        var value := SkipWhite(s, q + 1);
        match SkipValue(s, value, 1)
        case None => None
        case Some(valueEnd) =>
          if Unescape(s[name + 1..nameEnd - 1]) == Some(key) then
            Some(Found(KindOf(s[value]), value, valueEnd - value))
          else
            var t := SkipWhite(s, valueEnd);
            if t >= |s| || s[t] != ',' then None else FindFrom(s, t + 1, key)
  }

  function Find(s: string, key: string): (r: Option<Found>)
    ensures r.Some? ==> r.value.start + r.value.length <= |s|
  {
    var p := SkipWhite(s, 0);
    if p >= |s| || s[p] != '{' || SkipContainer(s, p, 0) == None then None
    else
      var q := SkipWhite(s, p + 1);
      if q < |s| && s[q] == '}' then None else FindFrom(s, q, key)
  }

  /** Element `n` counted from the one at `p`. */
  function ElementFrom(s: string, p: nat, n: nat): (r: Option<Found>)
    requires p <= |s|
    ensures r.Some? ==> r.value.start + r.value.length <= |s|
    decreases |s| - p
  {
    match SkipValue(s, p, 1)
    case None => None
    case Some(e) =>
      if n == 0 then Some(Found(KindOf(s[p]), p, e - p))
      else
        var t := SkipWhite(s, e);
        if t >= |s| || s[t] != ',' then None else ElementFrom(s, SkipWhite(s, t + 1), n - 1)
  }

  function ElementAt(s: string, n: nat): (r: Option<Found>)
    requires |s| > 0
    ensures r.Some? ==> r.value.start + r.value.length <= |s|
  {
    var p := SkipWhite(s, 1);
    if p < |s| && s[p] == ']' then None else ElementFrom(s, p, n)
  }

  function CountFrom(s: string, p: nat): nat
    requires p <= |s|
    decreases |s| - p
  {
    match SkipValue(s, p, 1)
    case None => 0
    case Some(e) =>
      var t := SkipWhite(s, e);
      if t >= |s| || s[t] != ',' then 1 else 1 + CountFrom(s, SkipWhite(s, t + 1))
  }

  function ArrayLength(s: string): nat
    requires |s| > 0
  {
    var p := SkipWhite(s, 1);
    if p < |s| && s[p] == ']' then 0 else CountFrom(s, p)
  }

  // ---- reading values ----------------------------------------------------------------------

  function Run(s: string, p: nat): (r: string)
    requires p <= |s|
    ensures forall i :: 0 <= i < |r| ==> IsDigit(r[i])
  {
    DigitRun(s, p);
    s[p..SkipDigits(s, p)]
  }

  lemma {:induction false} DigitRun(s: string, p: nat)
    requires p <= |s|
    ensures forall i :: 0 <= i < SkipDigits(s, p) - p ==> IsDigit(s[p..SkipDigits(s, p)][i])
    decreases |s| - p
  {
    if p < |s| && IsDigit(s[p]) {
      DigitRun(s, p + 1);
      var tail := s[p + 1..SkipDigits(s, p)];
      forall i | 0 <= i < SkipDigits(s, p) - p ensures IsDigit(s[p..SkipDigits(s, p)][i]) {
        if i > 0 {
          assert s[p..SkipDigits(s, p)][i] == tail[i - 1];
        }
      }
    }
  }

  /** A fraction is dropped, an exponent refused, and so is what does not fit 32 bits. */
  function GetInt(s: string): Option<int>
  {
    if |s| == 0 then None
    else
      var p := SkipSign(s, 0);
      var magnitude: int := DigitsValue(Run(s, p));
      var e := SkipDigits(s, p);
      if e == p || (e < |s| && s[e] != '.') then None
      else if s[0] == '-' then if magnitude > 0x8000_0000 then None else Some(-magnitude)
      else if magnitude >= 0x8000_0000 then None else Some(magnitude)
  }

  function GetBool(s: string): Option<bool>
  {
    if |s| == 0 || KindOf(s[0]) != KindBool then None else Some(s[0] == 't')
  }

  /** What fits a buffer of `size` with its terminator. */
  function GetString(s: string, size: nat): Option<string>
  {
    if size == 0 || |s| < 2 then None
    else
      match Unescape(s[1..|s| - 1])
      case None => None
      case Some(text) => if |text| <= size - 1 then Some(text) else None
  }

  // ---- what any text found must be -----------------------------------------------------------

  /** What a value located in any text, written here or not, must look like for its kind. */
  predicate Wellformed(s: string, f: Found)
    requires f.start + f.length <= |s|
  {
    var text := s[f.start..f.start + f.length];
    && |text| > 0 && f.kind == KindOf(text[0])
    && (f.kind == KindBool ==> text == "true" || text == "false")
    && (f.kind == KindNull ==> text == "null")
    && (f.kind == KindString ==> |text| >= 2 && text[|text| - 1] == QUOTE)
    && (f.kind == KindNumber ==> IsDigit(text[|text| - 1]))
  }

  /** The scanner believes a first letter only as far as the whole word bears it out. */
  lemma ScannedValue(s: string, p: nat, depth: nat)
    requires p <= |s| && SkipValue(s, p, depth).Some?
    ensures p < |s| && Wellformed(s, Found(KindOf(s[p]), p, SkipValue(s, p, depth).value - p))
  {
    hide SkipContainer, SkipExponent, SkipFraction, SkipDigits, SkipSign, StringEnd;
    var e := SkipValue(s, p, depth).value;
    var text := s[p..e];
    assert text[0] == s[p] && text[|text| - 1] == s[e - 1];
    if s[p] == QUOTE {
      EndsInQuote(s, p + 1);
    }
  }

  lemma {:induction false} EndsInQuote(s: string, p: nat)
    requires StringEnd(s, p).Some?
    ensures s[StringEnd(s, p).value - 1] == QUOTE
    decreases |s| - p
  {
    if s[p] == BACKSLASH {
      EndsInQuote(s, p + 2);
    } else if s[p] != QUOTE {
      EndsInQuote(s, p + 1);
    }
  }

  lemma {:induction false} MembersWellformed(s: string, p: nat, key: string)
    requires p <= |s| && FindFrom(s, p, key).Some?
    ensures Wellformed(s, FindFrom(s, p, key).value)
    decreases |s| - p
  {
    hide SkipValue, SkipString, SkipWhite, Unescape, Wellformed, KindOf;
    var nameEnd := SkipString(s, SkipWhite(s, p)).value;
    var value := SkipWhite(s, SkipWhite(s, nameEnd) + 1);
    ScannedValue(s, value, 1);
    if Unescape(s[SkipWhite(s, p) + 1..nameEnd - 1]) != Some(key) {
      MembersWellformed(s, SkipWhite(s, SkipValue(s, value, 1).value) + 1, key);
    }
  }

  lemma {:induction false} ElementsWellformed(s: string, p: nat, n: nat)
    requires p <= |s| && ElementFrom(s, p, n).Some?
    ensures Wellformed(s, ElementFrom(s, p, n).value)
    decreases n
  {
    hide SkipValue, Wellformed, KindOf;
    ScannedValue(s, p, 1);
    if n > 0 {
      ElementsWellformed(s, SkipWhite(s, SkipWhite(s, SkipValue(s, p, 1).value) + 1), n - 1);
    }
  }

  /**
   * A member or an element found in any text at all is a whole value of its kind, so a boolean read
   * out of it, on the strength of one letter, is the word that stands there.
   */
  lemma FoundBoolIsWord(s: string, f: Found)
    requires (exists key :: Find(s, key) == Some(f)) || (|s| > 0 && exists n: nat :: ElementAt(s, n) == Some(f))
    ensures f.start + f.length <= |s| && Wellformed(s, f)
    ensures var text := s[f.start..f.start + f.length];
            && (f.kind == KindBool <==> GetBool(text).Some?)
            && (f.kind == KindBool ==> (text == "true" && GetBool(text) == Some(true)) ||
                                       (text == "false" && GetBool(text) == Some(false)))
  {
    hide FindFrom, ElementFrom, SkipContainer;
    if key :| Find(s, key) == Some(f) {
      MembersWellformed(s, SkipWhite(s, SkipWhite(s, 0) + 1), key);
    } else {
      var n: nat :| ElementAt(s, n) == Some(f);
      ElementsWellformed(s, SkipWhite(s, 1), n);
    }
  }
}
