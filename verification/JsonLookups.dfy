/**
 * What the reader of components/json/json.c answers about any document it accepts, however it is
 * spaced and spelled: members by name, elements by place, strings through every escape and numbers
 * with their fractions.
 */
module JsonLookups {
  import opened Bytes
  import opened Characters
  import opened JsonText
  import opened JsonScan
  import opened JsonFind
  import opened JsonDocs

  // ---- strings --------------------------------------------------------------------------------

  /** One piece of a string body and the character it stands for. */
  datatype Piece = Plain(c: char) | Letter(letter: char, c: char) | Code(digits: string, c: char)

  /** A hexadecimal digit of either case, and its value. */
  predicate Nibble(digit: char, v: int)
  {
    || (48 <= digit as int <= 57 && v == digit as int - 48)
    || (65 <= digit as int <= 70 && v == digit as int - 55)
    || (97 <= digit as int <= 102 && v == digit as int - 87)
  }

  ghost predicate IsPiece(x: Piece)
  {
    match x
    case Plain(c) => c as int != 92
    case Letter(letter, c) =>
      (letter as int, c as int) in {(34, 34), (92, 92), (47, 47), (98, 8), (102, 12), (110, 10), (114, 13), (116, 9)}
    case Code(digits, c) =>
      && |digits| == 4 && c as int <= 127
      && exists h, l :: digits[..2] == "00" && Nibble(digits[2], h) && Nibble(digits[3], l) && c as int == 16 * h + l
  }

  function SpelledPiece(x: Piece): (r: string)
    ensures |r| > 0
  {
    match x
    case Plain(c) => [c]
    case Letter(letter, _) => [92 as char, letter]
    case Code(digits, _) => [92 as char, 'u'] + digits
  }

  function SpelledPieces(ps: seq<Piece>): string
  {
    if |ps| == 0 then "" else SpelledPiece(ps[0]) + SpelledPieces(ps[1..])
  }

  function MeaningOf(ps: seq<Piece>): (r: string)
    ensures |r| == |ps|
  {
    if |ps| == 0 then "" else [ps[0].c] + MeaningOf(ps[1..])
  }

  /** A body that stands for that text. */
  ghost predicate Means(body: string, text: string)
  {
    exists ps :: Pieced(ps, body, text)
  }

  ghost predicate Pieced(ps: seq<Piece>, body: string, text: string)
  {
    (forall i :: 0 <= i < |ps| ==> IsPiece(ps[i])) && SpelledPieces(ps) == body && MeaningOf(ps) == text
  }

  lemma NibbleIff(digit: char, v: nat)
    ensures HexValue(digit) == Some(v) <==> Nibble(digit, v)
  {
  }

  lemma FourHex(t: string)
    requires |t| == 4
    ensures HexNumber(t) ==
              match (HexValue(t[0]), HexValue(t[1]), HexValue(t[2]), HexValue(t[3]))
              case (Some(a), Some(b), Some(c), Some(d)) => Some(16 * (16 * (16 * a + b) + c) + d)
              case _ => None
  {
    hide HexValue;
    assert t[..3][..2] == t[..2] && t[..2][..1] == t[..1] && t[..1][..0] == "";
    assert HexNumber(t[..1]) == HexValue(t[0]);
    assert HexNumber(t[..2]) == match (HexValue(t[0]), HexValue(t[1])) case (Some(a), Some(b)) => Some(16 * a + b) case _ => None;
  }

  lemma CodeRead(digits: string, c: char)
    requires IsPiece(Code(digits, c))
    ensures HexNumber(digits) == Some(c as nat)
  {
    hide HexNumber;
    var h, l :| digits[..2] == "00" && Nibble(digits[2], h) && Nibble(digits[3], l) && c as int == 16 * h + l;
    assert digits[0] == digits[..2][0] && digits[1] == digits[..2][1];
    FourHex(digits);
  }

  lemma CodeFound(digits: string, c: nat)
    requires |digits| == 4 && HexNumber(digits) == Some(c) && c <= 127
    ensures IsPiece(Code(digits, c as char))
  {
    hide HexNumber, HexValue;
    FourHex(digits);
    ZeroNibble(digits[0]);
    ZeroNibble(digits[1]);
    NibbleIff(digits[2], HexValue(digits[2]).value);
    NibbleIff(digits[3], HexValue(digits[3]).value);
    NibbleBelow16(digits[2]);
    NibbleBelow16(digits[3]);
    HighZero(HexValue(digits[0]).value, HexValue(digits[1]).value, HexValue(digits[2]).value, HexValue(digits[3]).value);
    assert digits[..2] == [digits[0], digits[1]];
  }

  lemma ZeroNibble(digit: char)
    ensures HexValue(digit) == Some(0) ==> digit == '0'
  {
  }

  lemma NibbleBelow16(digit: char)
    ensures HexValue(digit).Some? ==> HexValue(digit).value < 16
  {
  }

  lemma HighZero(a: nat, b: nat, c: nat, d: nat)
    requires 16 * (16 * (16 * a + b) + c) + d <= 127
    ensures a == 0 && b == 0
  {
  }

  lemma PieceRead(x: Piece, rest: string)
    requires IsPiece(x)
    ensures FirstChar(SpelledPiece(x) + rest) == Some((x.c, |SpelledPiece(x)|))
  {
    hide HexNumber;
    var s := SpelledPiece(x) + rest;
    if x.Code? {
      CodeRead(x.digits, x.c);
      assert s[2..6] == x.digits;
    }
  }

  lemma PieceFound(s: string) returns (x: Piece)
    requires |s| > 0 && FirstChar(s).Some?
    ensures IsPiece(x) && x.c == FirstChar(s).value.0 && SpelledPiece(x) == s[..FirstChar(s).value.1]
  {
    hide HexNumber;
    var (c, n) := FirstChar(s).value;
    if s[0] != BACKSLASH {
      x := Plain(c);
    } else if s[1] == 'u' {
      CodeFound(s[2..6], HexNumber(s[2..6]).value);
      x := Code(s[2..6], c);
      assert s[..6] == s[..2] + s[2..6];
    } else {
      x := Letter(s[1], c);
    }
  }

  lemma {:induction false} PiecesRead(ps: seq<Piece>, body: string, text: string)
    requires Pieced(ps, body, text)
    ensures Unescape(body) == Some(text)
    decreases |ps|
  {
    hide FirstChar, SpelledPiece, IsPiece;
    if |ps| > 0 {
      var rest := SpelledPieces(ps[1..]);
      PieceRead(ps[0], rest);
      PiecesRead(ps[1..], rest, MeaningOf(ps[1..]));
      assert body[|SpelledPiece(ps[0])|..] == rest;
    }
  }

  lemma {:induction false} PiecesFound(body: string) returns (ps: seq<Piece>)
    requires Unescape(body).Some?
    ensures Pieced(ps, body, Unescape(body).value)
    decreases |body|
  {
    hide FirstChar, SpelledPiece, IsPiece;
    ps := [];
    if |body| > 0 {
      var x := PieceFound(body);
      var n := FirstChar(body).value.1;
      var rest := PiecesFound(body[n..]);
      ps := [x] + rest;
      assert ps[1..] == rest;
      assert body == body[..n] + body[n..];
    }
  }

  /** A body unescapes to the text its pieces stand for, and not at all when it has no such pieces. */
  lemma UnescapedIff(body: string, text: string)
    ensures Unescape(body) == Some(text) <==> Means(body, text)
  {
    hide Unescape;
    if Unescape(body) == Some(text) {
      var ps := PiecesFound(body);
    }
    forall ps | Pieced(ps, body, text) ensures Unescape(body) == Some(text) {
      PiecesRead(ps, body, text);
    }
  }

  /** A string value is read as what its body means, when that fits with its terminator. */
  lemma StringReadIff(body: string, size: nat, text: string)
    ensures GetString(InQuotes(body), size) == Some(text) <==> Means(body, text) && |text| < size
  {
    hide Unescape, Means;
    assert InQuotes(body)[1..|InQuotes(body)| - 1] == body;
    UnescapedIff(body, text);
  }

  // ---- numbers ----------------------------------------------------------------------------------

  function TenTo(n: nat): nat
  {
    if n == 0 then 1 else 10 * TenTo(n - 1)
  }

  /** Each digit by the power of ten of its place. */
  function Worth(t: string): int
  {
    if |t| == 0 then 0 else (t[0] as int - 48) * TenTo(|t| - 1) + Worth(t[1..])
  }

  lemma {:induction false} WorthOfMore(t: string, digit: char)
    ensures Worth(t + [digit]) == 10 * Worth(t) + (digit as int - 48)
  {
    if |t| == 0 {
      assert [digit][1..] == "";
    } else {
      var u := t + [digit];
      assert u[1..] == t[1..] + [digit];
      WorthOfMore(t[1..], digit);
      Scaled(t[0] as int - 48, TenTo(|t| - 1));
    }
  }

  lemma Scaled(d: int, n: int)
    ensures d * (10 * n) == 10 * (d * n)
  {
  }

  lemma {:induction false} DigitsWorth(t: string)
    requires forall i :: 0 <= i < |t| ==> IsDigit(t[i])
    ensures DigitsValue(t) == Worth(t)
    decreases |t|
  {
    if |t| > 0 {
      var n := |t| - 1;
      DigitsWorth(t[..n]);
      WorthOfMore(t[..n], t[n]);
      assert t == t[..n] + [t[n]];
    }
  }

  /**
   * A number is read as the whole number in front of its fraction, whatever follows that, when it
   * fits 32 bits with a sign; not when nothing is in front, nor when an exponent comes first.
   */
  lemma IntReadIs(sign: string, whole: string, fraction: string, exponent: string)
    requires IsNumber(sign, whole, fraction, exponent)
    ensures var n := if sign == "-" then -Worth(whole) else Worth(whole);
            GetInt(sign + whole + fraction + exponent) ==
              if whole == "" || (fraction == "" && exponent != "") || n < -2147483648 || n > 2147483647 then None else Some(n)
  {
    hide SkipDigits, SkipSign, DigitsValue, Worth, Run, IsNumber;
    var t := sign + whole + fraction + exponent;
    NumberHasMore(sign, whole, fraction, exponent);
    WholeScanned(sign, whole, fraction, exponent);
    AfterWhole(sign, whole, fraction, exponent);
    DigitsWorth(whole);
  }

  /** So an exponent is refused exactly when no fraction comes before it. */
  lemma ExponentRefusedIff(sign: string, whole: string, fraction: string, exponent: string)
    requires IsNumber(sign, whole, fraction, exponent) && exponent != "" && whole != "" && Worth(whole) <= 2147483647
    ensures GetInt(sign + whole + fraction + exponent) == None <==> fraction == ""
  {
    hide GetInt, IsFraction, IsExponent;
    IntReadIs(sign, whole, fraction, exponent);
    DigitsWorth(whole);
  }

  /** Fifteen hundred written with a point is read as one, and without it is not read at all. */
  lemma ExponentSlipsThrough()
    ensures GetInt("1.5e3") == Some(1) && GetInt("15e2") == None
  {
    hide GetInt;
    IntReadIs("", "1", ".5", "e3");
    IntReadIs("", "15", "", "e2");
    assert "" + "1" + ".5" + "e3" == "1.5e3" && "" + "15" + "" + "e2" == "15e2";
    assert Worth("1") == 1;
  }

  lemma WholeScanned(sign: string, whole: string, fraction: string, exponent: string)
    requires IsNumber(sign, whole, fraction, exponent)
    ensures var t := sign + whole + fraction + exponent;
            SkipSign(t, 0) == |sign| && SkipDigits(t, |sign|) == |sign| + |whole| && Run(t, |sign|) == whole
    ensures forall i :: 0 <= i < |whole| ==> IsDigit(whole[i])
  {
    hide SkipDigits, SkipSign, Occurs, IsNumber, Run;
    var t := sign + whole + fraction + exponent;
    var p := |sign|;
    OccursWhole(t);
    NumberParts(t, 0, sign, whole, fraction, exponent);
    AfterWhole(sign, whole, fraction, exponent);
    SignStepped(t, 0, sign);
    DigitsEnd(t, p, whole);
    RunIs(t, p, whole);
  }

  lemma RunIs(t: string, p: nat, part: string)
    requires Occurs(t, p, part) && SkipDigits(t, p) == p + |part|
    ensures Run(t, p) == part
  {
    hide SkipDigits;
  }

  lemma OccursWhole(t: string)
    ensures Occurs(t, 0, t)
  {
    assert t[0..|t|] == t;
  }

  /** What the reader looks at: the first character, and the one after the whole number. */
  lemma AfterWhole(sign: string, whole: string, fraction: string, exponent: string)
    requires IsNumber(sign, whole, fraction, exponent)
    ensures var t := sign + whole + fraction + exponent; var e := |sign| + |whole|;
            && |t| > 0 && (t[0] == '-' <==> sign == "-")
            && IsSign(sign) && Decimals(whole)
            && |sign| < |t| && t[|sign|] != '-' && t[|sign|] != '+' && (e < |t| ==> !IsDigit(t[e]))
            && (e < |t| <==> fraction != "" || exponent != "") && (e < |t| ==> (t[e] == '.' <==> fraction != ""))
  {
    NumberHasMore(sign, whole, fraction, exponent);
    var t := sign + whole + fraction + exponent;
    assert t == sign + (whole + (fraction + exponent));
    assert sign == "" ==> t == whole + (fraction + exponent);
  }

  // ---- members by name -----------------------------------------------------------------------------

  /** The value of the first member whose name means that key. */
  ghost function First(m: Members, key: string): Option<Doc>
  {
    if m.Done? then None else if Means(m.key, key) then Some(m.value) else First(m.rest, key)
  }

  function KindOfDoc(d: Doc): Kind
  {
    match d
    case Word(word) => if word == "null" then KindNull else KindBool
    case Number(_, _, _, _) => KindNumber
    case Text(_) => KindString
    case Group(isObject, _, _) => if isObject then KindObject else KindArray
  }

  /** The answer is the value's own text, delimiters and all, with its kind; or nothing for nothing. */
  predicate Answers(s: string, f: Option<Found>, d: Option<Doc>)
  {
    match d
    case None => f == None
    case Some(value) =>
      && f.Some? && f.value.start + f.value.length <= |s|
      && s[f.value.start..f.value.start + f.value.length] == Spelled(value) && f.value.kind == KindOfDoc(value)
  }

  lemma FirstLetter(s: string, p: nat, d: Doc)
    requires IsDoc(d) && Occurs(s, p, Spelled(d))
    ensures p < |s| && KindOf(s[p]) == KindOfDoc(d) && s[p..p + |Spelled(d)|] == Spelled(d)
  {
    hide IsBody, SpelledMembers, IsNumber, IsFraction, IsExponent, Decimals;
    NextIs(s, p, Spelled(d));
    if d.Number? {
      NumberLetter(d.sign, d.whole, d.fraction, d.exponent);
    }
  }

  lemma NumberLetter(sign: string, whole: string, fraction: string, exponent: string)
    requires IsNumber(sign, whole, fraction, exponent)
    ensures var t := sign + whole + fraction + exponent; |t| > 0 && KindOf(t[0]) == KindNumber
  {
    NumberHasMore(sign, whole, fraction, exponent);
    assert sign == "" ==> sign + whole + fraction + exponent == whole + fraction + exponent;
  }

  /** One member passed over, or the one asked for. */
  lemma OneFound(s: string, p: nat, key: string, a: nat, b: nat, q: nat, v: nat, e: nat, t: nat)
    requires p <= a < b <= q <= v < e <= t < |s|
    requires SkipWhite(s, p) == a && SkipWhite(s, a) == a && SkipKey(s, a, true) == Some(q) && SkipWhite(s, q) == v
    requires SkipString(s, a) == Some(b) && SkipValue(s, v, 1) == Some(e) && SkipWhite(s, e) == t
    ensures FindFrom(s, p, key) ==
              if Unescape(s[a + 1..b - 1]) == Some(key) then Some(Found(KindOf(s[v]), v, e - v))
              else if s[t] == ',' then FindFrom(s, t + 1, key) else None
  {
    hide SkipString, SkipValue, SkipWhite, Unescape, KindOf;
  }

  lemma {:induction false} MembersFound(s: string, p: nat, m: Members, key: string)
    requires m.Member? && AreMembers(true, m) && MembersDepth(m) <= 15
    requires Occurs(s, p, SpelledMembers(true, m))
    requires p + |SpelledMembers(true, m)| < |s| && s[p + |SpelledMembers(true, m)|] == '}'
    ensures Answers(s, FindFrom(s, p, key), First(m, key))
    decreases m
  {
    hide SkipKey, SkipValue, SkipWhite, SkipString, Spelled, SpelledMembers, SpelledKey, Occurs, Blank, IsDoc, IsBody, Depth,
         MembersDepth, Leads, Unescape, KindOf, KindOfDoc, FindFrom, Means;
    MemberLaid(s, p, true, m);
    var a, v := p + |m.before|, p + ValueAt(true, m);
    var e, t := v + |Spelled(m.value)|, p + TurnAt(true, m);
    DeeperOf(m);
    AfterValue(s, e, m);
    DocSkipped(s, v, m.value, 1);
    ToValue(s, p, true, m);
    KeyLaid(s, a, m);
    StartsPut(s, p);
    FirstLetter(s, v, m.value);
    KeyEnds(s, a);
    UnescapedIff(m.key, key);
    OneFound(s, p, key, a, a + |m.key| + 2, SkipKey(s, a, true).value, v, e, t);
    if m.rest.Member? {
      MembersFound(s, t + 1, m.rest, key);
    }
  }

  lemma {:induction false} StartsPut(s: string, p: nat)
    requires p <= |s|
    ensures SkipWhite(s, SkipWhite(s, p)) == SkipWhite(s, p)
    decreases |s| - p
  {
    if SkipWhite(s, p) != p {
      StartsPut(s, p + 1);
    }
  }

  lemma KeyEnds(s: string, a: nat)
    requires a <= |s| && SkipWhite(s, a) == a && SkipKey(s, a, true).Some?
    ensures SkipString(s, a).Some? && SkipString(s, a).value <= SkipKey(s, a, true).value
  {
    hide SkipString, SkipWhite;
  }

  /**
   * A key looked up in an object, after any white space and whatever comes behind: the answer is the
   * text of its first member of that name, however the name is spelled, if the object nests no
   * deeper than sixteen levels, and nothing otherwise.
   */
  lemma MemberFoundIff(lead: string, gap: string, m: Members, trail: string, key: string)
    requires IsDoc(Group(true, gap, m)) && Blank(lead)
    ensures var s := lead + Spelled(Group(true, gap, m)) + trail;
            Answers(s, Find(s, key), if Depth(Group(true, gap, m)) <= 16 then First(m, key) else None)
  {
    hide SkipWhite, SkipContainer, Spelled, SpelledMembers, AreMembers, Blank, Find, FindFrom, First, Occurs, KindOfDoc, Answers;
    var d := Group(true, gap, m);
    var s, p := lead + Spelled(d) + trail, |lead|;
    Apart(lead, Spelled(d), trail);
    GroupParts(s, p, true, gap, m);
    GroupSkipped(s, p, true, gap, m, 0);
    GapSkipped(s, 0, lead);
    ObjectOpened(s, p, key);
    if m.Done? {
      GapSkipped(s, p + 1, gap);
      NoFirst(m, key);
      NoAnswer(s);
    } else if Depth(d) <= 16 {
      MembersFound(s, p + 1, m, key);
      MembersSkipped(s, p + 1, true, m, 0);
    } else {
      NoAnswer(s);
    }
  }

  lemma ObjectOpened(s: string, p: nat, key: string)
    requires SkipWhite(s, 0) == p < |s| && s[p] == '{'
    ensures Find(s, key) ==
              if SkipContainer(s, p, 0) == None || (SkipWhite(s, p + 1) < |s| && s[SkipWhite(s, p + 1)] == '}') then None
              else FindFrom(s, p + 1, key)
  {
    hide SkipWhite, SkipContainer, FindFrom;
    FindsAlike(s, p + 1, key);
  }

  lemma NoAnswer(s: string)
    ensures Answers(s, None, None)
  {
  }

  lemma NoFirst(m: Members, key: string)
    requires m.Done?
    ensures First(m, key) == None
  {
  }

  /** White space ahead of a member's name makes no difference. */
  lemma FindsAlike(s: string, p: nat, key: string)
    requires p <= |s|
    ensures FindFrom(s, SkipWhite(s, p), key) == FindFrom(s, p, key)
  {
    hide SkipString, SkipValue, SkipWhite, Unescape;
    StartsPut(s, p);
  }

  ghost predicate HasMember(s: string, lead: string, gap: string, m: Members, trail: string, key: string)
  {
    && IsDoc(Group(true, gap, m)) && Blank(lead) && Depth(Group(true, gap, m)) <= 16
    && s == lead + Spelled(Group(true, gap, m)) + trail && First(m, key).Some?
  }

  /** In any text at all a key is found exactly when the text begins with such an object that has it. */
  lemma FoundIff(s: string, key: string)
    ensures Find(s, key).Some? <==> exists lead, gap, m, trail :: HasMember(s, lead, gap, m, trail, key)
  {
    hide SkipWhite, SkipContainer, Spelled, IsDoc, Depth, Blank, FindFrom, First;
    if Find(s, key).Some? {
      var p := SkipWhite(s, 0);
      GapRead(s, 0);
      var d := GroupRead(s, p, 0);
      var e := SkipContainer(s, p, 0).value;
      assert s == s[0..p] + s[p..e] + s[e..];
      MemberFoundIff(s[0..p], d.gap, d.members, s[e..], key);
      assert HasMember(s, s[0..p], d.gap, d.members, s[e..], key);
    }
    forall lead, gap, m, trail | HasMember(s, lead, gap, m, trail, key) ensures Find(s, key).Some? {
      MemberFoundIff(lead, gap, m, trail, key);
    }
  }

  // ---- elements by place ---------------------------------------------------------------------------

  function CountOf(m: Members): nat
  {
    if m.Done? then 0 else 1 + CountOf(m.rest)
  }

  function ElementOf(m: Members, n: nat): Option<Doc>
  {
    if m.Done? then None else if n == 0 then Some(m.value) else ElementOf(m.rest, n - 1)
  }

  /** One element counted, and then the end or the next. */
  lemma OneElement(s: string, v: nat, e: nat, t: nat, n: nat)
    requires v < e <= t < |s| && SkipValue(s, v, 1) == Some(e) && SkipWhite(s, e) == t
    ensures CountFrom(s, v) == 1 + if s[t] == ',' then CountFrom(s, SkipWhite(s, t + 1)) else 0
    ensures ElementFrom(s, v, n) ==
              if n == 0 then Some(Found(KindOf(s[v]), v, e - v))
              else if s[t] == ',' then ElementFrom(s, SkipWhite(s, t + 1), n - 1) else None
  {
    hide SkipValue, SkipWhite, KindOf;
  }

  lemma {:induction false} MembersCounted(s: string, p: nat, m: Members, n: nat)
    requires m.Member? && AreMembers(false, m) && MembersDepth(m) <= 15
    requires Occurs(s, p, SpelledMembers(false, m))
    requires p + |SpelledMembers(false, m)| < |s| && s[p + |SpelledMembers(false, m)|] == ']'
    ensures CountFrom(s, SkipWhite(s, p)) == CountOf(m)
    ensures Answers(s, ElementFrom(s, SkipWhite(s, p), n), ElementOf(m, n))
    decreases m
  {
    hide SkipKey, SkipValue, SkipWhite, Spelled, SpelledMembers, SpelledKey, Occurs, Blank, IsDoc, Depth, MembersDepth,
         Leads, KindOf, KindOfDoc, ElementFrom, CountFrom;
    MemberLaid(s, p, false, m);
    var v := p + ValueAt(false, m);
    var e, t := v + |Spelled(m.value)|, p + TurnAt(false, m);
    DeeperOf(m);
    AfterValue(s, e, m);
    DocSkipped(s, v, m.value, 1);
    ToValue(s, p, false, m);
    FirstLetter(s, v, m.value);
    OneElement(s, v, e, t, n);
    if m.rest.Member? {
      MembersCounted(s, t + 1, m.rest, if n == 0 then 0 else n - 1);
    }
  }

  /** An array has as many elements as stand in it, and each is found by its place and no other. */
  lemma ElementFoundIff(gap: string, m: Members, n: nat)
    requires IsDoc(Group(false, gap, m)) && Depth(Group(false, gap, m)) <= 16
    ensures var s := Spelled(Group(false, gap, m));
            |s| > 0 && ArrayLength(s) == CountOf(m) && Answers(s, ElementAt(s, n), ElementOf(m, n))
  {
    hide SkipWhite, Spelled, SpelledMembers, AreMembers, MembersDepth, Blank, ElementFrom, CountFrom, Occurs, KindOfDoc, CountOf, ElementOf;
    var s := Spelled(Group(false, gap, m));
    OccursWhole(s);
    GroupParts(s, 0, false, gap, m);
    if m.Done? {
      GapSkipped(s, 1, gap);
      NoElement(m, n);
    } else {
      MembersCounted(s, 1, m, n);
      MembersSkipped(s, 1, false, m, 0);
    }
  }

  lemma NoElement(m: Members, n: nat)
    requires m.Done?
    ensures CountOf(m) == 0 && ElementOf(m, n) == None
  {
  }
}
