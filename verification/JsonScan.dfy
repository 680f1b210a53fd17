/**
 * The scanner of components/json/json.c as functions on positions: every one returns where its
 * piece of the document ends, or nothing.
 */
module JsonScan {
  import opened Bytes
  import opened Characters
  import opened JsonText

  function SkipWhite(s: string, p: nat): (r: nat)
    requires p <= |s|
    ensures p <= r <= |s|
    decreases |s| - p
  {
    if p < |s| && IsSpace(s[p]) then SkipWhite(s, p + 1) else p
  }

  /** Past the closing quote, from somewhere inside a string; an escape hides what follows it. */
  function StringEnd(s: string, p: nat): (r: Option<nat>)
    ensures r.Some? ==> p < r.value <= |s|
    decreases |s| - p
  {
    if p >= |s| then None
    else if s[p] == BACKSLASH then StringEnd(s, p + 2)
    else if s[p] == QUOTE then Some(p + 1)
    else StringEnd(s, p + 1)
  }

  function SkipString(s: string, p: nat): (r: Option<nat>)
    ensures r.Some? ==> p + 1 < r.value <= |s|
  {
    if p >= |s| || s[p] != QUOTE then None else StringEnd(s, p + 1)
  }

  function SkipDigits(s: string, p: nat): (r: nat)
    requires p <= |s|
    ensures p <= r <= |s|
    decreases |s| - p
  {
    if p < |s| && IsDigit(s[p]) then SkipDigits(s, p + 1) else p
  }

  function SkipSign(s: string, p: nat): (r: nat)
    requires p <= |s|
    ensures p <= r <= |s|
  {
    if p < |s| && (s[p] == '-' || s[p] == '+') then p + 1 else p
  }

  function SkipFraction(s: string, p: nat): (r: nat)
    requires p <= |s|
    ensures p <= r <= |s|
  {
    if p < |s| && s[p] == '.' then SkipDigits(s, p + 1) else p
  }

  function SkipExponent(s: string, p: nat): (r: nat)
    requires p <= |s|
    ensures p <= r <= |s|
  {
    if p < |s| && (s[p] == 'e' || s[p] == 'E') then SkipDigits(s, SkipSign(s, p + 1)) else p
  }

  /** A number has to end in a digit, so that neither its sign nor its point will do alone. */
  function SkipNumber(s: string, p: nat): (r: Option<nat>)
    requires p <= |s|
    ensures r.Some? ==> p < r.value <= |s|
  {
    var e := SkipExponent(s, SkipFraction(s, SkipDigits(s, SkipSign(s, p))));
    if e > p && IsDigit(s[e - 1]) then Some(e) else None
  }

  function SkipWord(s: string, p: nat, word: string): (r: Option<nat>)
    ensures r.Some? ==> r.value == p + |word| <= |s|
  {
    if p + |word| <= |s| && s[p..p + |word|] == word then Some(p + |word|) else None
  }

  /** Past the colon of a member whose key begins at `p`, or just `p` in an array. */
  function SkipKey(s: string, p: nat, isObject: bool): (r: Option<nat>)
    requires p <= |s|
    ensures r.Some? ==> p <= r.value <= |s|
  {
    if !isObject then Some(p)
    else
      match SkipString(s, SkipWhite(s, p))
      case None => None
      case Some(e) =>
        var q := SkipWhite(s, e);
        if q >= |s| || s[q] != ':' then None else Some(q + 1)
  }

  /** The members of a container from `p` on, to past its closing bracket. */
  function SkipItems(s: string, p: nat, isObject: bool, depth: nat): (r: Option<nat>)
    requires p <= |s|
    ensures r.Some? ==> p < r.value <= |s|
    decreases |s| - p, 2
  {
    match SkipKey(s, p, isObject)
    case None => None
    case Some(q) =>
      match SkipValue(s, SkipWhite(s, q), depth + 1)
      case None => None
      case Some(e) =>
        var t := SkipWhite(s, e);
        if t >= |s| then None
        else if s[t] == Closing(isObject) then Some(t + 1)
        else if s[t] != ',' then None
        else SkipItems(s, SkipWhite(s, t + 1), isObject, depth)
  }

  function SkipContainer(s: string, p: nat, depth: nat): (r: Option<nat>)
    requires p < |s|
    ensures r.Some? ==> p < r.value <= |s|
    decreases |s| - p, 0
  {
    var isObject := s[p] == '{';
    if depth >= MAX_DEPTH then None
    else
      var q := SkipWhite(s, p + 1);
      if q < |s| && s[q] == Closing(isObject) then Some(q + 1) else SkipItems(s, q, isObject, depth)
  }

  function SkipValue(s: string, p: nat, depth: nat): (r: Option<nat>)
    requires p <= |s|
    ensures r.Some? ==> p < r.value <= |s|
    decreases |s| - p, 1
  {
    if p >= |s| then None
    else if s[p] == QUOTE then SkipString(s, p)
    else if s[p] == '{' || s[p] == '[' then SkipContainer(s, p, depth)
    else if s[p] == 't' then SkipWord(s, p, "true")
    else if s[p] == 'f' then SkipWord(s, p, "false")
    else if s[p] == 'n' then SkipWord(s, p, "null")
    else SkipNumber(s, p)
  }

  /** One complete value and nothing but white space around it. */
  predicate ValidText(s: string)
  {
    match SkipValue(s, SkipWhite(s, 0), 0)
    case None => false
    case Some(e) => SkipWhite(s, e) == |s|
  }

  // ---- pieces of a text ----------------------------------------------------------------------

  predicate Occurs(s: string, p: nat, text: string)
  {
    p + |text| <= |s| && s[p..p + |text|] == text
  }

  lemma OccursBoth(s: string, p: nat, a: string, b: string)
    requires Occurs(s, p, a + b)
    ensures Occurs(s, p, a) && Occurs(s, p + |a|, b)
  {
    var t := s[p..p + |a + b|];
    assert s[p..p + |a|] == t[..|a|] == a;
    assert s[p + |a|..p + |a| + |b|] == t[|a|..] == b;
  }

  lemma OccursChar(s: string, p: nat, c: char)
    requires Occurs(s, p, [c])
    ensures p < |s| && s[p] == c
  {
    assert s[p..p + 1][0] == s[p];
  }

  lemma StringSteps(s: string, p: nat)
    requires p < |s|
    ensures s[p] == BACKSLASH ==> StringEnd(s, p) == StringEnd(s, p + 2)
    ensures s[p] != BACKSLASH && s[p] != QUOTE ==> StringEnd(s, p) == StringEnd(s, p + 1)
    ensures s[p] == QUOTE ==> StringEnd(s, p) == Some(p + 1)
  {
  }

  lemma {:induction false} DigitsSkipped(s: string, p: nat, text: string)
    requires Occurs(s, p, text) && forall i :: 0 <= i < |text| ==> IsDigit(text[i])
    ensures SkipDigits(s, p) == SkipDigits(s, p + |text|)
    decreases text
  {
    if |text| > 0 {
      assert text == [text[0]] + text[1..];
      OccursBoth(s, p, [text[0]], text[1..]);
      OccursChar(s, p, text[0]);
      DigitsSkipped(s, p + 1, text[1..]);
    }
  }

  lemma WordSkipped(s: string, p: nat, word: string)
    requires Occurs(s, p, word) && |word| > 0
    ensures SkipWord(s, p, word) == Some(p + |word|) && s[p] == word[0]
  {
    assert s[p] == s[p..p + |word|][0];
  }
}
