/** The reading half of components/json/json.c: one cursor walked over the buffer. */
module JsonReader {
  import opened Bytes
  import opened Characters
  import opened JsonText
  import opened JsonScan
  import opened JsonFind

  method WalkWhite(s: string, start: nat) returns (p: nat)
    requires start <= |s|
    ensures p == SkipWhite(s, start)
  {
    p := start;
    while p < |s| && IsSpace(s[p])
      invariant start <= p <= |s| && SkipWhite(s, p) == SkipWhite(s, start)
    {
      p := p + 1;
    }
  }

  method WalkString(s: string, start: nat) returns (end: Option<nat>)
    ensures end == SkipString(s, start)
  {
    if start >= |s| || s[start] != QUOTE {
      return None;
    }
    var p := start + 1;
    while p < |s|
      invariant StringEnd(s, p) == StringEnd(s, start + 1)
    {
      if s[p] == BACKSLASH {
        p := p + 2;
        continue;
      }
      if s[p] == QUOTE {
        return Some(p + 1);
      }
      p := p + 1;
    }
    return None;
  }

  method WalkDigits(s: string, start: nat) returns (p: nat)
    requires start <= |s|
    ensures p == SkipDigits(s, start)
  {
    p := start;
    while p < |s| && IsDigit(s[p])
      invariant start <= p <= |s| && SkipDigits(s, p) == SkipDigits(s, start)
    {
      p := p + 1;
    }
  }

  method WalkNumber(s: string, start: nat) returns (end: Option<nat>)
    requires start <= |s|
    ensures end == SkipNumber(s, start)
  {
    hide SkipDigits;
    var p := start;
    if p < |s| && (s[p] == '-' || s[p] == '+') {
      p := p + 1;
    }
    p := WalkDigits(s, p);
    if p < |s| && s[p] == '.' {
      p := WalkDigits(s, p + 1);
    }
    if p < |s| && (s[p] == 'e' || s[p] == 'E') {
      p := p + 1;
      if p < |s| && (s[p] == '-' || s[p] == '+') {
        p := p + 1;
      }
      p := WalkDigits(s, p);
    }
    return if p > start && IsDigit(s[p - 1]) then Some(p) else None;
  }

  method WalkWord(s: string, start: nat, word: string) returns (end: Option<nat>)
    requires start <= |s|
    ensures end == SkipWord(s, start, word)
  {
    for i := 0 to |word|
      invariant start + i <= |s| && s[start..start + i] == word[..i]
    {
      if start + i >= |s| || s[start + i] != word[i] {
        if start + |word| <= |s| {
          assert s[start..start + |word|][i] == s[start + i];
        }
        return None;
      }
      assert s[start..start + i + 1] == s[start..start + i] + [s[start + i]];
      assert word[..i + 1] == word[..i] + [word[i]];
    }
    return Some(start + |word|);
  }

  lemma ItemsTurn(s: string, p: nat, isObject: bool, depth: nat)
    requires p <= |s|
    ensures SkipItems(s, p, isObject, depth) ==
              match SkipKey(s, p, isObject)
              case None => None
              case Some(q) =>
                match SkipValue(s, SkipWhite(s, q), depth + 1)
                case None => None
                case Some(e) =>
                  var t := SkipWhite(s, e);
                  if t >= |s| then None
                  else if s[t] == Closing(isObject) then Some(t + 1)
                  else if s[t] != ',' then None
                  else SkipItems(s, SkipWhite(s, t + 1), isObject, depth)
  {
  }

  /** The member loop of skip_container. */
  method WalkItems(s: string, start: nat, isObject: bool, depth: nat) returns (end: Option<nat>)
    requires start <= |s|
    ensures end == SkipItems(s, start, isObject, depth)
    decreases |s| - start, 2
  {
    hide SkipValue, SkipWhite, SkipString, SkipItems;
    var p := start;
    while true
      invariant start <= p <= |s| && SkipItems(s, p, isObject, depth) == SkipItems(s, start, isObject, depth)
      decreases |s| - p
    {
      ghost var was := p;
      ItemsTurn(s, was, isObject, depth);
      if isObject {
        var name := WalkWhite(s, p);
        var nameEnd := WalkString(s, name);
        if nameEnd == None {
          return None;
        }
        p := WalkWhite(s, nameEnd.value);
        if p >= |s| || s[p] != ':' {
          return None;
        }
        p := p + 1;
      }
      assert SkipKey(s, was, isObject) == Some(p);
      p := WalkWhite(s, p);
      var valueEnd := WalkValue(s, p, depth + 1);
      if valueEnd == None {
        return None;
      }
      p := WalkWhite(s, valueEnd.value);
      if p >= |s| {
        return None;
      }
      if s[p] == Closing(isObject) {
        return Some(p + 1);
      }
      if s[p] != ',' {
        return None;
      }
      p := WalkWhite(s, p + 1);
    }
    return None;
  }

  method WalkContainer(s: string, start: nat, depth: nat) returns (end: Option<nat>)
    requires start < |s|
    ensures end == SkipContainer(s, start, depth)
    decreases |s| - start, 0
  {
    hide SkipItems, SkipWhite;
    var isObject := s[start] == '{';
    if depth >= MAX_DEPTH {
      return None;
    }
    var p := WalkWhite(s, start + 1);
    if p < |s| && s[p] == Closing(isObject) {
      return Some(p + 1);
    }
    end := WalkItems(s, p, isObject, depth);
  }

  method WalkValue(s: string, start: nat, depth: nat) returns (end: Option<nat>)
    requires start <= |s|
    ensures end == SkipValue(s, start, depth)
    decreases |s| - start, 1
  {
    hide SkipContainer, SkipNumber, SkipString, SkipWord;
    if start >= |s| {
      return None;
    }
    if s[start] == QUOTE {
      end := WalkString(s, start);
    } else if s[start] == '{' || s[start] == '[' {
      end := WalkContainer(s, start, depth);
    } else if s[start] == 't' {
      end := WalkWord(s, start, "true");
    } else if s[start] == 'f' {
      end := WalkWord(s, start, "false");
    } else if s[start] == 'n' {
      end := WalkWord(s, start, "null");
    } else {
      end := WalkNumber(s, start);
    }
  }

  method JsonValid(s: string) returns (valid: bool)
    ensures valid == ValidText(s)
  {
    hide SkipValue, SkipWhite;
    var p := WalkWhite(s, 0);
    var end := WalkValue(s, p, 0);
    if end == None {
      return false;
    }
    var last := WalkWhite(s, end.value);
    return last == |s|;
  }

  // ---- strings ----------------------------------------------------------------------------

  /** The rest of an unescaped text put after what is already done. */
  function After(done: string, rest: Option<string>): Option<string>
  {
    match rest
    case None => None
    case Some(text) => Some(done + text)
  }

  method DecodeAt(s: string, at: nat) returns (first: Option<(char, nat)>)
    requires at < |s|
    ensures first == FirstChar(s[at..])
  {
    hide HexNumber, LongMeaning;
    ghost var t := s[at..];
    if s[at] != BACKSLASH {
      return Some((s[at], 1));
    }
    if at + 1 >= |s| {
      return None;
    }
    if s[at + 1] != 'u' {
      var meaning := LongMeaning(s[at + 1]);
      if meaning == None {
        return None;
      }
      return Some((meaning.value, 2));
    }
    if at + 1 + 4 >= |s| {
      return None;
    }
    ghost var digits := t[2..6];
    var value := 0;
    EmptyHexNumber(digits);
    for k := 1 to 5
      invariant HexNumber(digits[..k - 1]) == Some(value)
    {
      var digit := HexValue(s[at + 1 + k]);
      HexNumberMore(digits, k - 1);
      assert digits[k - 1] == s[at + 1 + k];
      if digit == None {
        HexNumberStops(digits, k);
        return None;
      }
      value := 16 * value + digit.value;
    }
    assert digits[..4] == digits;
    if value > 0x7F {
      return None;
    }
    return Some((value as char, 6));
  }

  lemma EmptyHexNumber(s: string)
    ensures HexNumber(s[..0]) == Some(0)
  {
  }

  lemma HexNumberMore(s: string, k: nat)
    requires k < |s|
    ensures HexNumber(s[..k + 1]) ==
              match (HexNumber(s[..k]), HexValue(s[k]))
              case (Some(high), Some(low)) => Some(16 * high + low)
              case _ => None
  {
    assert s[..k + 1][..k] == s[..k];
  }

  lemma {:induction false} HexNumberStops(s: string, k: nat)
    requires k <= |s| && HexNumber(s[..k]) == None
    ensures HexNumber(s) == None
    decreases |s| - k
  {
    if k == |s| {
      assert s[..k] == s;
    } else {
      HexNumberMore(s, k);
      HexNumberStops(s, k + 1);
    }
  }

  lemma UnescapeMore(s: string, i: nat, done: string)
    requires i < |s|
    ensures After(done, Unescape(s[i..])) ==
              match FirstChar(s[i..])
              case None => None
              case Some((c, width)) => After(done + [c], Unescape(s[i + width..]))
  {
    hide FirstChar;
    match FirstChar(s[i..])
    case None =>
    case Some((c, width)) =>
      assert s[i..][width..] == s[i + width..];
      match Unescape(s[i + width..])
      case None =>
      case Some(rest) => assert done + ([c] + rest) == (done + [c]) + rest;
  }

  /** unescape, into a buffer of `capacity` characters or into none at all. */
  method UnescapeInto(s: string, capacity: Option<nat>) returns (out: Option<string>)
    ensures out == match Unescape(s)
                   case None => None
                   case Some(text) => if capacity.Some? && |text| > capacity.value then None else Some(text)
  {
    hide FirstChar, Unescape;
    var done: string := "";
    var i := 0;
    NothingEscaped();
    assert s[0..] == s;
    AfterNothing("", Unescape(s));
    while i < |s|
      invariant i <= |s| && After(done, Unescape(s[i..])) == Unescape(s)
      invariant capacity.Some? ==> |done| <= capacity.value
    {
      UnescapeMore(s, i, done);
      var first := DecodeAt(s, i);
      if first == None {
        return None;
      }
      if capacity.Some? && |done| >= capacity.value {
        return None;
      }
      done := done + [first.value.0];
      i := i + first.value.1;
    }
    assert s[i..] == "";
    AfterNothing(done, None);
    return Some(done);
  }

  lemma NothingEscaped()
    ensures Unescape("") == Some("")
  {
  }

  lemma AfterNothing(done: string, rest: Option<string>)
    ensures After("", rest) == rest && After(done, Some("")) == Some(done)
  {
    assert done + "" == done;
    if rest.Some? {
      assert "" + rest.value == rest.value;
    }
  }

  function EscapeWidth(s: string): nat
    requires |s| > 0
  {
    if s[0] != BACKSLASH then 1 else if |s| < 2 then |s| else if s[1] == 'u' then 6 else 2
  }

  /** One escape, cut to the width it claims, unescapes alone as it would where it stands. */
  lemma OneEscape(s: string)
    requires |s| > 0
    ensures EscapeWidth(s) > |s| ==> FirstChar(s) == None
    ensures EscapeWidth(s) <= |s| ==>
              FirstChar(s) == match Unescape(s[..EscapeWidth(s)])
                              case None => None
                              case Some(t) => if |t| == 1 then Some((t[0], EscapeWidth(s))) else None
  {
    hide HexNumber, LongMeaning;
    var w := EscapeWidth(s);
    if w <= |s| {
      var t := s[..w];
      assert t[w..] == "";
      if w == 6 {
        assert t[2..6] == s[2..6];
      }
    }
  }

  /** escaped_equals: the text against a plain one, a character at a time. */
  method EscapedEquals(body: string, expected: string) returns (equal: bool)
    ensures equal <==> Unescape(body) == Some(expected)
  {
    hide FirstChar, Unescape, EscapeWidth;
    var i, j := 0, 0;
    NothingEscaped();
    assert body[0..] == body && expected[..0] == "";
    AfterNothing("", Unescape(body));
    while i < |body|
      invariant i <= |body| && j <= |expected|
      invariant Unescape(body) == After(expected[..j], Unescape(body[i..]))
    {
      UnescapeMore(body, i, expected[..j]);
      OneEscape(body[i..]);
      var width := EscapeWidth(body[i..]);
      if width == 0 || i + width > |body| {
        return false;
      }
      assert body[i..][..width] == body[i..i + width];
      var decoded := UnescapeInto(body[i..i + width], Some(1));
      if decoded == None || |decoded.value| != 1 {
        return false;
      }
      var c := decoded.value[0];
      if j >= |expected| || expected[j] != c {
        NotThisText(expected, j, c, Unescape(body[i + width..]));
        return false;
      }
      assert expected[..j] + [c] == expected[..j + 1];
      i := i + width;
      j := j + 1;
    }
    assert body[i..] == "";
    AfterNothing(expected[..j], None);
    assert j == |expected| ==> expected[..j] == expected;
    assert |expected[..j]| == j;
    return j == |expected|;
  }

  lemma NotThisText(expected: string, j: nat, c: char, rest: Option<string>)
    requires j <= |expected| && (j < |expected| ==> expected[j] != c)
    ensures After(expected[..j] + [c], rest) != Some(expected)
  {
    if rest.Some? {
      var text := expected[..j] + [c] + rest.value;
      assert text[j] == c;
    }
  }

  // ---- members and values ------------------------------------------------------------------

  method JsonFindN(s: string, key: string) returns (found: Option<Found>)
    ensures found == Find(s, key)
  {
    hide SkipWhite, SkipContainer, SkipString, SkipValue, Unescape, FindFrom;
    var p := WalkWhite(s, 0);
    if p >= |s| || s[p] != '{' {
      return None;
    }
    var closed := WalkContainer(s, p, 0);
    if closed == None {
      return None;
    }
    p := WalkWhite(s, p + 1);
    if p < |s| && s[p] == '}' {
      return None;
    }
    ghost var first := p;
    while true
      invariant first <= p <= |s| && FindFrom(s, p, key) == FindFrom(s, first, key)
      decreases |s| - p
    {
      var answered;
      answered, found, p := TryMember(s, p, key);
      if answered {
        return;
      }
    }
  }

  /** One turn of the search: an answer, or where the next member begins. */
  method TryMember(s: string, start: nat, key: string) returns (answered: bool, found: Option<Found>, next: nat)
    requires start <= |s|
    ensures answered ==> found == FindFrom(s, start, key)
    ensures !answered ==> start < next <= |s| && FindFrom(s, next, key) == FindFrom(s, start, key)
  {
    hide SkipWhite, SkipString, SkipValue, Unescape, KindOf, IsSpace;
    answered, found, next := true, None, start;
    var name := WalkWhite(s, start);
    var nameEnd := WalkString(s, name);
    if nameEnd == None {
      return;
    }
    var p := WalkWhite(s, nameEnd.value);
    if p >= |s| || s[p] != ':' {
      return;
    }
    var value := WalkWhite(s, p + 1);
    var valueEnd := WalkValue(s, value, 1);
    if valueEnd == None {
      return;
    }
    var same := EscapedEquals(s[name + 1..nameEnd.value - 1], key);
    if same {
      found := Some(Found(KindOf(s[value]), value, valueEnd.value - value));
      return;
    }
    p := WalkWhite(s, valueEnd.value);
    if p >= |s| || s[p] == '}' || s[p] != ',' {
      return;
    }
    answered, next := false, p + 1;
  }

  lemma RunValue(run: string, k: nat)
    requires k < |run| && forall i :: 0 <= i < |run| ==> IsDigit(run[i])
    ensures DigitsValue(run[..k + 1]) == 10 * DigitsValue(run[..k]) + (run[k] as int - '0' as int)
  {
    assert run[..k + 1][..k] == run[..k];
  }

  lemma {:induction false} RunGrows(run: string, k: nat)
    requires k <= |run| && forall i :: 0 <= i < |run| ==> IsDigit(run[i])
    ensures DigitsValue(run) >= DigitsValue(run[..k])
    decreases |run| - k
  {
    if k < |run| {
      RunValue(run, k);
      RunGrows(run, k + 1);
    } else {
      assert run[..k] == run;
    }
  }

  lemma {:induction false} RunEnds(s: string, p: nat, q: nat)
    requires p <= |s| && p <= q <= SkipDigits(s, p)
    ensures q < |s| && IsDigit(s[q]) <==> q < SkipDigits(s, p)
    decreases q - p
  {
    if p < q {
      RunEnds(s, p + 1, q);
    }
  }

  method JsonGetInt(s: string) returns (value: Option<int>)
    ensures value == GetInt(s)
  {
    hide SkipDigits, DigitsValue;
    if |s| == 0 {
      return None;
    }
    var p := 0;
    var negative := s[0] == '-';
    if negative || s[0] == '+' {
      p := p + 1;
    }
    ghost var first, run := p, Run(s, p);
    var magnitude: int, any := 0, false;
    assert run[..0] == "";
    NoDigits();
    while p < |s| && IsDigit(s[p])
      invariant first <= p <= SkipDigits(s, first) && (any <==> p > first)
      invariant magnitude == DigitsValue(run[..p - first]) <= 0x8000_0000
    {
      RunEnds(s, first, p);
      RunValue(run, p - first);
      magnitude := magnitude * 10 + (s[p] as int - '0' as int);
      if magnitude > 0x8000_0000 {
        RunGrows(run, p - first + 1);
        return None;
      }
      any := true;
      p := p + 1;
    }
    RunEnds(s, first, p);
    assert run[..p - first] == run;
    if !any {
      return None;
    }
    if p < |s| && (s[p] == '.' || s[p] == 'e' || s[p] == 'E') {
      if s[p] == 'e' || s[p] == 'E' {
        return None;
      }
      p := |s|;
    }
    if p != |s| {
      return None;
    }
    if negative {
      return if magnitude > 0x8000_0000 then None else Some(-magnitude);
    }
    return if magnitude > 0x7FFF_FFFF then None else Some(magnitude);
  }

  lemma NoDigits()
    ensures DigitsValue("") == 0
  {
  }

  method JsonGetString(s: string, size: nat) returns (text: Option<string>)
    ensures text == GetString(s, size)
  {
    hide Unescape;
    if size == 0 || |s| < 2 {
      return None;
    }
    text := UnescapeInto(s[1..|s| - 1], Some(size - 1));
  }

  /** json_get_bool: the first letter decides, so it is for the scan to have seen the whole word. */
  method JsonGetBool(s: string) returns (value: Option<bool>)
    ensures value == GetBool(s)
    ensures value.Some? <==> |s| > 0 && (s[0] == 't' || s[0] == 'f')
  {
    if |s| == 0 || KindOf(s[0]) != KindBool {
      return None;
    }
    return Some(s[0] == 't');
  }

  method JsonArrayLength(s: string) returns (count: nat)
    requires |s| > 0
    ensures count == ArrayLength(s)
  {
    hide SkipValue, SkipWhite;
    var p := WalkWhite(s, 1);
    count := 0;
    if p < |s| && s[p] == ']' {
      return 0;
    }
    ghost var first := p;
    while true
      invariant first <= p <= |s| && count + CountFrom(s, p) == CountFrom(s, first)
      decreases |s| - p
    {
      var end := WalkValue(s, p, 1);
      if end == None {
        return;
      }
      count := count + 1;
      p := WalkWhite(s, end.value);
      if p >= |s| || s[p] != ',' {
        return;
      }
      p := WalkWhite(s, p + 1);
    }
  }

  method JsonArrayAt(s: string, index: nat) returns (found: Option<Found>)
    requires |s| > 0
    ensures found == ElementAt(s, index)
  {
    hide SkipValue, SkipWhite, KindOf;
    var p := WalkWhite(s, 1);
    if p < |s| && s[p] == ']' {
      return None;
    }
    ghost var first := p;
    var position := 0;
    while true
      invariant first <= p <= |s| && position <= index
      invariant ElementFrom(s, p, index - position) == ElementFrom(s, first, index)
      decreases |s| - p
    {
      var end := WalkValue(s, p, 1);
      if end == None {
        return None;
      }
      if position == index {
        return Some(Found(KindOf(s[p]), p, end.value - p));
      }
      position := position + 1;
      p := WalkWhite(s, end.value);
      if p >= |s| || s[p] != ',' {
        return None;
      }
      p := WalkWhite(s, p + 1);
    }
    return None;
  }
}
