/**
 * Every text components/json/json.c accepts, as trees of what may stand in it: white space in any
 * gap, numbers with fractions and exponents, strings under every escape. The grammar stands on its own,
 * and the scanner is proved to step over its documents and nothing else.
 */
module JsonDocs {
  import opened Bytes
  import opened Characters
  import opened JsonText
  import opened JsonScan

  datatype Doc =
    | Word(word: string)
    | Number(sign: string, whole: string, fraction: string, exponent: string)
    | Text(body: string)
    | Group(isObject: bool, gap: string, members: Members)

  /** Members of an object, or elements of an array, which have no key and no gaps around one. */
  datatype Members =
    | Done
    | Member(before: string, key: string, afterKey: string, ahead: string, value: Doc, after: string, rest: Members)

  // ---- the grammar -------------------------------------------------------------------------

  predicate White(c: char)
  {
    c as int == 32 || c as int == 9 || c as int == 10 || c as int == 13
  }

  predicate Blank(gap: string)
  {
    forall i :: 0 <= i < |gap| ==> White(gap[i])
  }

  predicate Decimals(t: string)
  {
    forall i :: 0 <= i < |t| ==> 48 <= t[i] as int <= 57
  }

  predicate IsSign(t: string)
  {
    t == "" || t == "-" || t == "+"
  }

  predicate IsFraction(t: string)
  {
    t == "" || (t[0] == '.' && Decimals(t[1..]))
  }

  predicate IsExponent(t: string)
  {
    t == "" || ((t[0] == 'e' || t[0] == 'E') &&
                (Decimals(t[1..]) || (|t| > 1 && IsSign(t[1..2]) && Decimals(t[2..]))))
  }

  /** Any of the four parts may be missing, so long as a digit comes last. */
  predicate IsNumber(sign: string, whole: string, fraction: string, exponent: string)
  {
    var t := sign + whole + fraction + exponent;
    && IsSign(sign) && Decimals(whole) && IsFraction(fraction) && IsExponent(exponent)
    && |t| > 0 && Decimals(t[|t| - 1..])
  }

  /** What may stand between quotes: a backslash (92) covers whatever follows it, and no quote (34) is bare. */
  predicate IsBody(t: string)
  {
    if |t| == 0 then true
    else if t[0] as int == 92 then |t| > 1 && IsBody(t[2..])
    else t[0] as int != 34 && IsBody(t[1..])
  }

  predicate IsDoc(d: Doc)
    decreases d
  {
    match d
    case Word(word) => word == "true" || word == "false" || word == "null"
    case Number(sign, whole, fraction, exponent) => IsNumber(sign, whole, fraction, exponent)
    case Text(body) => IsBody(body)
    case Group(isObject, gap, members) => Blank(gap) && AreMembers(isObject, members)
  }

  predicate AreMembers(isObject: bool, m: Members)
    decreases m
  {
    m.Member? ==>
      && Blank(m.before) && (isObject ==> IsBody(m.key) && Blank(m.afterKey) && Blank(m.ahead))
      && IsDoc(m.value) && Blank(m.after) && AreMembers(isObject, m.rest)
  }

  function InQuotes(body: string): string
  {
    [34 as char] + body + [34 as char]
  }

  function Spelled(d: Doc): (s: string)
    decreases d
  {
    match d
    case Word(word) => word
    case Number(sign, whole, fraction, exponent) => sign + whole + fraction + exponent
    case Text(body) => InQuotes(body)
    case Group(true, gap, members) => "{" + (if members.Done? then gap else SpelledMembers(true, members)) + "}"
    case Group(false, gap, members) => "[" + (if members.Done? then gap else SpelledMembers(false, members)) + "]"
  }

  function SpelledMembers(isObject: bool, m: Members): string
    decreases m
  {
    if m.Done? then ""
    else
      m.before + SpelledKey(isObject, m) + Spelled(m.value) + m.after +
      if m.rest.Done? then "" else "," + SpelledMembers(isObject, m.rest)
  }

  function SpelledKey(isObject: bool, m: Members): string
    requires m.Member?
  {
    if isObject then InQuotes(m.key) + m.afterKey + ":" + m.ahead else ""
  }

  function Depth(d: Doc): nat
    decreases d
  {
    if d.Group? then 1 + MembersDepth(d.members) else 0
  }

  function MembersDepth(m: Members): nat
    decreases m
  {
    if m.Done? then 0
    else if Depth(m.value) > MembersDepth(m.rest) then Depth(m.value) else MembersDepth(m.rest)
  }

  // ---- the scanner over white space, strings and numbers --------------------------------------

  lemma {:induction false} GapSkipped(s: string, p: nat, gap: string)
    requires Occurs(s, p, gap) && Blank(gap)
    requires p + |gap| < |s| ==> !White(s[p + |gap|])
    ensures SkipWhite(s, p) == p + |gap|
    decreases gap
  {
    if |gap| > 0 {
      assert gap == [gap[0]] + gap[1..];
      OccursBoth(s, p, [gap[0]], gap[1..]);
      OccursChar(s, p, gap[0]);
      GapSkipped(s, p + 1, gap[1..]);
    }
  }

  lemma {:induction false} BodySkipped(s: string, p: nat, body: string)
    requires Occurs(s, p, body + [34 as char]) && IsBody(body)
    ensures StringEnd(s, p) == Some(p + |body| + 1)
    decreases body
  {
    hide StringEnd;
    OccursBoth(s, p, body, [34 as char]);
    OccursChar(s, p + |body|, 34 as char);
    StringSteps(s, p);
    if |body| > 0 {
      var n := if body[0] as int == 92 then 2 else 1;
      BodyAhead(s, p, body, n);
      BodySkipped(s, p + n, body[n..]);
    }
  }

  lemma BodyAhead(s: string, p: nat, body: string, n: nat)
    requires Occurs(s, p, body + [34 as char]) && 0 < n <= |body|
    ensures p < |s| && s[p] == body[0] && Occurs(s, p + n, body[n..] + [34 as char])
  {
    var t := body + [34 as char];
    assert s[p] == s[p..p + |t|][0];
    assert s[p + n..p + |t|] == s[p..p + |t|][n..] == t[n..] == body[n..] + [34 as char];
  }

  lemma TextSkipped(s: string, p: nat, body: string)
    requires Occurs(s, p, InQuotes(body)) && IsBody(body)
    ensures p < |s| && s[p] as int == 34 && SkipString(s, p) == Some(p + |body| + 2) && s[p + 1..p + |body| + 1] == body
  {
    hide StringEnd, IsBody, Occurs;
    QuotesApart(s, p, body);
    BodySkipped(s, p + 1, body);
  }

  lemma QuotesApart(s: string, p: nat, body: string)
    requires Occurs(s, p, InQuotes(body))
    ensures p < |s| && s[p] as int == 34 && Occurs(s, p + 1, body + [34 as char])
    ensures p + |body| + 2 <= |s| && s[p + 1..p + |body| + 1] == body
  {
    var quote := [34 as char];
    Regrouped(quote, body, quote);
    OccursBoth(s, p, quote, body + quote);
    OccursBoth(s, p + 1, body, quote);
    OccursChar(s, p, 34 as char);
  }

  lemma Regrouped(a: string, b: string, c: string)
    ensures a + b + c == a + (b + c)
  {
  }

  /** What may come after a number that is not part of it. */
  predicate Ends(s: string, p: nat)
  {
    p >= |s| || White(s[p]) || s[p] == ',' || s[p] == '}' || s[p] == ']'
  }

  lemma DigitsEnd(s: string, p: nat, text: string)
    requires Occurs(s, p, text) && Decimals(text)
    requires p + |text| < |s| ==> !IsDigit(s[p + |text|])
    ensures SkipDigits(s, p) == p + |text|
  {
    DigitsSkipped(s, p, text);
  }

  lemma FractionSkipped(s: string, p: nat, t: string)
    requires Occurs(s, p, t) && IsFraction(t)
    requires p + |t| < |s| ==> s[p + |t|] != '.' && !IsDigit(s[p + |t|])
    ensures SkipFraction(s, p) == p + |t|
  {
    hide SkipDigits;
    if t != "" {
      assert t == [t[0]] + t[1..];
      OccursBoth(s, p, [t[0]], t[1..]);
      OccursChar(s, p, t[0]);
      DigitsEnd(s, p + 1, t[1..]);
    }
  }

  lemma ExponentSkipped(s: string, p: nat, t: string)
    requires Occurs(s, p, t) && IsExponent(t) && Ends(s, p + |t|)
    requires |t| != 1
    ensures SkipExponent(s, p) == p + |t|
  {
    hide SkipDigits;
    if t != "" {
      assert t == [t[0]] + t[1..];
      OccursBoth(s, p, [t[0]], t[1..]);
      OccursChar(s, p, t[0]);
      assert s[p + 1] == s[p + 1..p + |t|][0] == t[1];
      if Decimals(t[1..]) {
        assert t[1] == t[1..][0];
        DigitsEnd(s, p + 1, t[1..]);
      } else {
        assert t[1..2] == [t[1]];
        assert t[1..] == [t[1]] + t[2..];
        OccursBoth(s, p + 1, [t[1]], t[2..]);
        DigitsEnd(s, p + 2, t[2..]);
      }
    }
  }

  lemma SignStepped(s: string, p: nat, sign: string)
    requires Occurs(s, p, sign) && IsSign(sign)
    requires p + |sign| < |s| ==> s[p + |sign|] != '-' && s[p + |sign|] != '+'
    ensures SkipSign(s, p) == p + |sign|
  {
    if sign != "" {
      OccursChar(s, p, sign[0]);
    }
  }

  lemma NumberParts(s: string, p: nat, sign: string, whole: string, fraction: string, exponent: string)
    requires Occurs(s, p, sign + whole + fraction + exponent)
    ensures var b := p + |sign|; var c := b + |whole|; var d := c + |fraction|;
            Occurs(s, p, sign) && Occurs(s, b, whole) && Occurs(s, c, fraction) && Occurs(s, d, exponent)
  {
    hide Occurs;
    OccursBoth(s, p, sign + whole + fraction, exponent);
    OccursBoth(s, p, sign + whole, fraction);
    OccursBoth(s, p, sign, whole);
  }

  lemma NextIs(s: string, p: nat, t: string)
    requires Occurs(s, p, t)
    ensures t != "" ==> p < |s| && s[p] == t[0] && s[p + |t| - 1] == t[|t| - 1]
  {
    if t != "" {
      assert s[p] == s[p..p + |t|][0];
      assert s[p + |t| - 1] == s[p..p + |t|][|t| - 1];
    }
  }

  /** An exponent takes up more than its letter, when a number ends in a digit. */
  lemma ExponentHasDigits(sign: string, whole: string, fraction: string, exponent: string)
    requires IsNumber(sign, whole, fraction, exponent)
    ensures |exponent| != 1
  {
    var t := sign + whole + fraction + exponent;
    assert t[|t| - 1..][0] == t[|t| - 1];
    assert exponent != "" ==> t[|t| - 1] == exponent[|exponent| - 1];
  }

  /** Neither a sign nor nothing at all ends in a digit. */
  lemma NumberHasMore(sign: string, whole: string, fraction: string, exponent: string)
    requires IsNumber(sign, whole, fraction, exponent)
    ensures whole != "" || fraction != "" || exponent != ""
  {
    var t := sign + whole + fraction + exponent;
    assert t[|t| - 1..][0] == t[|t| - 1];
    assert sign == "" || t[|sign| - 1] == sign[|sign| - 1];
  }

  lemma NumberSkipped(s: string, p: nat, sign: string, whole: string, fraction: string, exponent: string)
    requires IsNumber(sign, whole, fraction, exponent)
    requires Occurs(s, p, sign + whole + fraction + exponent) && Ends(s, p + |sign + whole + fraction + exponent|)
    ensures SkipNumber(s, p) == Some(p + |sign + whole + fraction + exponent|)
    ensures p < |s| && LeadsNumber(s[p])
  {
    hide SkipSign, SkipDigits, SkipFraction, SkipExponent, Occurs;
    var t := sign + whole + fraction + exponent;
    ExponentHasDigits(sign, whole, fraction, exponent);
    NumberHasMore(sign, whole, fraction, exponent);
    NumberParts(s, p, sign, whole, fraction, exponent);
    var b := p + |sign|;
    var c := b + |whole|;
    var d := c + |fraction|;
    NextIs(s, p, sign);
    NextIs(s, b, whole);
    NextIs(s, c, fraction);
    NextIs(s, d, exponent);
    NextIs(s, p, t);
    assert t[|t| - 1..][0] == t[|t| - 1];
    SignStepped(s, p, sign);
    DigitsEnd(s, b, whole);
    FractionSkipped(s, c, fraction);
    ExponentSkipped(s, d, exponent);
  }

  predicate LeadsNumber(c: char)
  {
    c == '-' || c == '+' || c == '.' || c == 'e' || c == 'E' || 48 <= c as int <= 57
  }

  // ---- the scanner over whole values -----------------------------------------------------------

  /** No value begins with white space, a comma or a closing bracket. */
  predicate Leads(c: char)
  {
    LeadsNumber(c) || c as int == 34 || c == '{' || c == '[' || c == 't' || c == 'f' || c == 'n'
  }

  /** The scanner steps over each value nested up to its limit, and refuses each nested deeper. */
  lemma {:induction false} DocSkipped(s: string, p: nat, d: Doc, depth: nat)
    requires IsDoc(d) && depth <= 16
    requires Occurs(s, p, Spelled(d)) && Ends(s, p + |Spelled(d)|)
    ensures SkipValue(s, p, depth) == if depth + Depth(d) <= 16 then Some(p + |Spelled(d)|) else None
    ensures p < |s| && Leads(s[p])
    decreases d, 0
  {
    hide SkipNumber, SkipString, SkipContainer, SkipWord, Ends, Occurs, SpelledMembers, IsNumber, IsBody, AreMembers, InQuotes;
    match d
    case Word(word) => WordSkipped(s, p, word);
    case Number(sign, whole, fraction, exponent) => NumberSkipped(s, p, sign, whole, fraction, exponent);
    case Text(body) =>
      TextSkipped(s, p, body);
      QuotesAround(body);
    case Group(isObject, gap, members) => GroupSkipped(s, p, isObject, gap, members, depth);
  }

  lemma QuotesAround(body: string)
    ensures |InQuotes(body)| == |body| + 2
  {
  }

  lemma {:induction false} GroupSkipped(s: string, p: nat, isObject: bool, gap: string, members: Members, depth: nat)
    requires IsDoc(Group(isObject, gap, members)) && depth <= 16
    requires Occurs(s, p, Spelled(Group(isObject, gap, members)))
    ensures p < |s| && s[p] == if isObject then '{' else '['
    ensures SkipContainer(s, p, depth) ==
              if depth + 1 + MembersDepth(members) <= 16 then Some(p + |Spelled(Group(isObject, gap, members))|) else None
    decreases members, 1
  {
    hide SkipItems, SkipWhite, Occurs, MembersDepth, AreMembers, Blank;
    GroupParts(s, p, isObject, gap, members);
    var body := if members.Done? then gap else SpelledMembers(isObject, members);
    if members.Done? {
      GapSkipped(s, p + 1, gap);
      NoDepth(members);
    } else if depth < 16 {
      MembersSkipped(s, p + 1, isObject, members, depth);
    }
  }

  lemma NoDepth(m: Members)
    requires m.Done?
    ensures MembersDepth(m) == 0
  {
  }

  lemma GroupParts(s: string, p: nat, isObject: bool, gap: string, members: Members)
    requires Occurs(s, p, Spelled(Group(isObject, gap, members)))
    ensures var body := if members.Done? then gap else SpelledMembers(isObject, members);
            var e := p + 1 + |body|;
            && e < |s| && Occurs(s, p + 1, body) && |Spelled(Group(isObject, gap, members))| == |body| + 2
            && s[p] == (if isObject then '{' else '[') && s[e] == (if isObject then '}' else ']')
  {
    hide SpelledMembers, Occurs;
    var body := if members.Done? then gap else SpelledMembers(isObject, members);
    var open, close := if isObject then "{" else "[", if isObject then "}" else "]";
    OccursBoth(s, p, open + body, close);
    OccursBoth(s, p, open, body);
    OccursChar(s, p, open[0]);
    OccursChar(s, p + 1 + |body|, close[0]);
  }

  /** Where the first member's value lies, counted from the start of its text. */
  function ValueAt(isObject: bool, m: Members): nat
    requires m.Member?
  {
    |m.before| + if isObject then |m.key| + |m.afterKey| + |m.ahead| + 3 else 0
  }

  /** Where the text of the first member ends. */
  function TurnAt(isObject: bool, m: Members): nat
    requires m.Member?
  {
    ValueAt(isObject, m) + |Spelled(m.value)| + |m.after|
  }

  /** Where each piece of the first member lies. */
  predicate Laid(s: string, p: nat, isObject: bool, m: Members)
    requires m.Member?
  {
    var a := p + |m.before|;
    var v := p + ValueAt(isObject, m);
    var e := v + |Spelled(m.value)|;
    var t := p + TurnAt(isObject, m);
    && Occurs(s, p, m.before) && Occurs(s, a, SpelledKey(isObject, m)) && Occurs(s, v, Spelled(m.value)) && Occurs(s, e, m.after)
    && t < |s|
    && (m.rest.Done? ==> s[t] == Closing(isObject) && t == p + |SpelledMembers(isObject, m)|)
    && (m.rest.Member? ==>
          && s[t] == ',' && Occurs(s, t + 1, SpelledMembers(isObject, m.rest))
          && p + |SpelledMembers(isObject, m)| == t + 1 + |SpelledMembers(isObject, m.rest)|)
  }

  lemma MemberLaid(s: string, p: nat, isObject: bool, m: Members)
    requires m.Member? && Occurs(s, p, SpelledMembers(isObject, m))
    requires p + |SpelledMembers(isObject, m)| < |s| && s[p + |SpelledMembers(isObject, m)|] == Closing(isObject)
    ensures Laid(s, p, isObject, m)
  {
    hide Spelled, SpelledKey, Occurs, SpelledMembers, Tail;
    var k, t := SpelledKey(isObject, m), Spelled(m.value);
    AsParts(isObject, m);
    FiveApart(s, p, m.before, k, t, m.after, Tail(isObject, m.rest));
    KeyWidth(isObject, m);
    TailLaid(s, p + TurnAt(isObject, m), isObject, m.rest);
  }

  lemma KeyWidth(isObject: bool, m: Members)
    requires m.Member?
    ensures |m.before| + |SpelledKey(isObject, m)| == ValueAt(isObject, m)
  {
  }

  lemma FiveApart(s: string, p: nat, a: string, b: string, c: string, d: string, e: string)
    requires Occurs(s, p, a + b + c + d + e)
    ensures Occurs(s, p, a) && Occurs(s, p + |a|, b) && Occurs(s, p + |a| + |b|, c) && Occurs(s, p + |a| + |b| + |c|, d)
    ensures Occurs(s, p + |a| + |b| + |c| + |d|, e)
  {
    hide Occurs;
    OccursBoth(s, p, a + b + c + d, e);
    OccursBoth(s, p, a + b + c, d);
    OccursBoth(s, p, a + b, c);
    OccursBoth(s, p, a, b);
  }

  lemma TailLaid(s: string, t: nat, isObject: bool, rest: Members)
    requires Occurs(s, t, Tail(isObject, rest))
    ensures rest.Done? ==> Tail(isObject, rest) == ""
    ensures rest.Member? ==> t < |s| && s[t] == ',' && Occurs(s, t + 1, SpelledMembers(isObject, rest))
    ensures rest.Member? ==> |Tail(isObject, rest)| == 1 + |SpelledMembers(isObject, rest)|
  {
    hide SpelledMembers, Occurs;
    if rest.Member? {
      OccursBoth(s, t, ",", SpelledMembers(isObject, rest));
      OccursChar(s, t, ',');
    }
  }

  /** Where each piece of a key lies. */
  lemma KeyLaid(s: string, a: nat, m: Members)
    requires m.Member? && Occurs(s, a, SpelledKey(true, m)) && IsBody(m.key)
    ensures var b := a + |m.key| + 2; var c := b + |m.afterKey|;
            && c + 1 + |m.ahead| <= |s|
            && SkipString(s, a) == Some(b) && s[a] as int == 34 && s[a + 1..b - 1] == m.key
            && Occurs(s, b, m.afterKey) && c < |s| && s[c] == ':' && Occurs(s, c + 1, m.ahead)
  {
    hide Occurs, SkipString, IsBody, InQuotes;
    QuotesAround(m.key);
    FourApart(s, a, InQuotes(m.key), m.afterKey, ":", m.ahead);
    OccursChar(s, a + |m.key| + 2 + |m.afterKey|, ':');
    TextSkipped(s, a, m.key);
  }

  lemma FourApart(s: string, p: nat, a: string, b: string, c: string, d: string)
    requires Occurs(s, p, a + b + c + d)
    ensures Occurs(s, p, a) && Occurs(s, p + |a|, b) && Occurs(s, p + |a| + |b|, c) && Occurs(s, p + |a| + |b| + |c|, d)
    ensures p + |a| + |b| + |c| + |d| <= |s|
  {
    OccursBoth(s, p, a + b + c, d);
    OccursBoth(s, p, a + b, c);
    OccursBoth(s, p, a, b);
  }

  /** From the front of a member to its value. */
  lemma ToValue(s: string, p: nat, isObject: bool, m: Members)
    requires m.Member? && AreMembers(isObject, m) && Laid(s, p, isObject, m)
    requires p + ValueAt(isObject, m) < |s| && Leads(s[p + ValueAt(isObject, m)])
    ensures var a := p + |m.before|;
            && a < |s| && SkipWhite(s, p) == a && s[a] != Closing(isObject)
            && SkipKey(s, a, isObject).Some?
            && SkipWhite(s, SkipKey(s, a, isObject).value) == p + ValueAt(isObject, m)
  {
    hide Occurs, SkipWhite, SkipString, Spelled, SpelledMembers, SpelledKey, IsDoc, IsBody, Blank;
    var a := p + |m.before|;
    if isObject {
      KeyLaid(s, a, m);
      GapSkipped(s, a + |m.key| + 2, m.afterKey);
      GapSkipped(s, a + |m.key| + 3 + |m.afterKey|, m.ahead);
      StaysPut(s, a);
    } else {
      StaysPut(s, a);
    }
    GapSkipped(s, p, m.before);
  }

  lemma StaysPut(s: string, p: nat)
    requires p < |s| && !White(s[p])
    ensures SkipWhite(s, p) == p
  {
  }

  /** From the end of its value to what comes after the member. */
  lemma AfterValue(s: string, e: nat, m: Members)
    requires m.Member? && Occurs(s, e, m.after) && Blank(m.after)
    requires e + |m.after| < |s| && s[e + |m.after|] in ",}]"
    ensures Ends(s, e) && SkipWhite(s, e) == e + |m.after|
  {
    GapSkipped(s, e, m.after);
    NextIs(s, e, m.after);
  }

  /** One member stepped over, or the whole container refused. */
  lemma OneMember(s: string, a: nat, isObject: bool, depth: nat, q: nat, v: nat, t: nat)
    requires a <= q <= v <= t < |s|
    requires SkipKey(s, a, isObject) == Some(q) && SkipWhite(s, q) == v
    requires SkipValue(s, v, depth + 1).Some? ==> SkipWhite(s, SkipValue(s, v, depth + 1).value) == t
    requires s[t] == Closing(isObject) || s[t] == ','
    ensures SkipItems(s, a, isObject, depth) ==
              if SkipValue(s, v, depth + 1) == None then None
              else if s[t] == Closing(isObject) then Some(t + 1)
              else SkipItems(s, SkipWhite(s, t + 1), isObject, depth)
  {
    hide SkipKey, SkipValue, SkipWhite;
  }

  lemma DeeperOf(m: Members)
    requires m.Member?
    ensures MembersDepth(m) == if m.rest.Done? || Depth(m.value) > MembersDepth(m.rest) then Depth(m.value) else MembersDepth(m.rest)
  {
  }

  lemma {:induction false} MembersSkipped(s: string, p: nat, isObject: bool, m: Members, depth: nat)
    requires m.Member? && AreMembers(isObject, m) && depth < 16
    requires Occurs(s, p, SpelledMembers(isObject, m))
    requires p + |SpelledMembers(isObject, m)| < |s| && s[p + |SpelledMembers(isObject, m)|] == Closing(isObject)
    ensures SkipWhite(s, p) == p + |m.before| < |s| && s[p + |m.before|] != Closing(isObject)
    ensures SkipItems(s, SkipWhite(s, p), isObject, depth) ==
              if depth + 1 + MembersDepth(m) <= 16 then Some(p + |SpelledMembers(isObject, m)| + 1) else None
    decreases m, 0
  {
    hide SkipItems, SkipKey, SkipValue, SkipWhite, Spelled, SpelledMembers, SpelledKey, Occurs, Blank, IsDoc, IsBody, Depth, MembersDepth,
         Leads, ValueAt;
    MemberLaid(s, p, isObject, m);
    var v := p + ValueAt(isObject, m);
    var e := v + |Spelled(m.value)|;
    var t := p + TurnAt(isObject, m);
    AfterValue(s, e, m);
    DocSkipped(s, v, m.value, depth + 1);
    if m.rest.Member? {
      MembersSkipped(s, t + 1, isObject, m.rest, depth);
    }
    DeeperOf(m);
    ToValue(s, p, isObject, m);
    OneMember(s, p + |m.before|, isObject, depth, SkipKey(s, p + |m.before|, isObject).value, v, t);
  }

  // ---- and nothing else ---------------------------------------------------------------------------

  lemma {:induction false} GapRead(s: string, p: nat)
    requires p <= |s|
    ensures Blank(s[p..SkipWhite(s, p)])
    decreases |s| - p
  {
    var e := SkipWhite(s, p);
    if p < e {
      GapRead(s, p + 1);
      assert s[p..e] == [s[p]] + s[p + 1..e];
    }
  }

  lemma {:induction false} BodyRead(s: string, p: nat)
    requires StringEnd(s, p).Some?
    ensures IsBody(s[p..StringEnd(s, p).value - 1]) && s[StringEnd(s, p).value - 1] as int == 34
    decreases |s| - p
  {
    hide StringEnd;
    StringEndKnown(s, p);
    var t := s[p..StringEnd(s, p).value - 1];
    StringSteps(s, p);
    if s[p] as int != 34 {
      var n := if s[p] as int == 92 then 2 else 1;
      StringEndKnown(s, p + n);
      BodyRead(s, p + n);
      assert t[n..] == s[p + n..StringEnd(s, p).value - 1];
    }
  }

  lemma StringEndKnown(s: string, p: nat)
    requires StringEnd(s, p).Some?
    ensures p < StringEnd(s, p).value <= |s|
  {
  }

  lemma TextRead(s: string, p: nat)
    requires p <= |s| && SkipString(s, p).Some?
    ensures var e := SkipString(s, p).value;
            IsBody(s[p + 1..e - 1]) && s[p..e] == InQuotes(s[p + 1..e - 1])
  {
    hide StringEnd, IsBody;
    BodyRead(s, p + 1);
  }

  lemma {:induction false} DigitsRead(s: string, p: nat)
    requires p <= |s|
    ensures Decimals(s[p..SkipDigits(s, p)])
    decreases |s| - p
  {
    var e := SkipDigits(s, p);
    if p < e {
      DigitsRead(s, p + 1);
      assert s[p..e] == [s[p]] + s[p + 1..e];
    }
  }

  lemma FractionRead(s: string, p: nat)
    requires p <= |s|
    ensures IsFraction(s[p..SkipFraction(s, p)])
  {
    hide SkipDigits;
    var t := s[p..SkipFraction(s, p)];
    if t != "" {
      DigitsRead(s, p + 1);
      assert t[1..] == s[p + 1..SkipFraction(s, p)];
    }
  }

  lemma ExponentRead(s: string, p: nat)
    requires p <= |s|
    ensures IsExponent(s[p..SkipExponent(s, p)])
  {
    hide SkipDigits;
    var t := s[p..SkipExponent(s, p)];
    if t != "" {
      var q := SkipSign(s, p + 1);
      DigitsRead(s, q);
      assert t[q - p..] == s[q..SkipExponent(s, p)];
      if q == p + 2 {
        assert t[1..2] == [s[p + 1]];
      }
    }
  }

  lemma NumberRead(s: string, p: nat) returns (d: Doc)
    requires p <= |s| && SkipNumber(s, p).Some?
    ensures d.Number? && IsDoc(d) && s[p..SkipNumber(s, p).value] == Spelled(d)
  {
    hide SkipSign, SkipDigits, SkipFraction, SkipExponent, IsFraction, IsExponent, IsSign, Decimals;
    var a := SkipSign(s, p);
    var b := SkipDigits(s, a);
    var c := SkipFraction(s, b);
    var e := SkipExponent(s, c);
    SignRead(s, p);
    DigitsRead(s, a);
    FractionRead(s, b);
    ExponentRead(s, c);
    Joined(s, p, a, b);
    Joined(s, p, b, c);
    Joined(s, p, c, e);
    LastDigitRead(s, p, e);
    d := Number(s[p..a], s[a..b], s[b..c], s[c..e]);
  }

  lemma LastDigitRead(s: string, p: nat, e: nat)
    requires p < e <= |s| && IsDigit(s[e - 1])
    ensures |s[p..e]| > 0 && Decimals(s[p..e][|s[p..e]| - 1..])
  {
    assert s[p..e][|s[p..e]| - 1..] == [s[e - 1]];
  }

  lemma SignRead(s: string, p: nat)
    requires p <= |s|
    ensures IsSign(s[p..SkipSign(s, p)])
  {
  }

  /** Whatever the scanner steps over is the spelling of a document nested within its limit. */
  lemma {:induction false} ValueRead(s: string, p: nat, depth: nat) returns (d: Doc)
    requires p <= |s| && depth <= 16 && SkipValue(s, p, depth).Some?
    ensures IsDoc(d) && s[p..SkipValue(s, p, depth).value] == Spelled(d) && depth + Depth(d) <= 16
    ensures p < |s| && s[p] == '{' <==> d.Group? && d.isObject
    decreases |s| - p, 1
  {
    hide SkipNumber, SkipString, SkipContainer, IsBody, IsNumber, SpelledMembers;
    var e := SkipValue(s, p, depth).value;
    if s[p] == QUOTE {
      TextRead(s, p);
      d := Text(s[p + 1..e - 1]);
    } else if s[p] == '{' || s[p] == '[' {
      d := GroupRead(s, p, depth);
    } else if s[p] in "tfn" {
      d := Word(s[p..e]);
    } else {
      d := NumberRead(s, p);
    }
  }

  lemma {:induction false} GroupRead(s: string, p: nat, depth: nat) returns (d: Doc)
    requires p < |s| && depth <= 16 && s[p] in "{[" && SkipContainer(s, p, depth).Some?
    ensures d.Group? && d.isObject == (s[p] == '{')
    ensures IsDoc(d) && s[p..SkipContainer(s, p, depth).value] == Spelled(d) && depth + Depth(d) <= 16
    decreases |s| - p, 0
  {
    hide SkipItems, SkipWhite, SpelledMembers, AreMembers, MembersDepth, Blank, IsDoc, Depth, Spelled;
    var isObject := s[p] == '{';
    var q := SkipWhite(s, p + 1);
    GapRead(s, p + 1);
    if q < |s| && s[q] == Closing(isObject) {
      d := Group(isObject, s[p + 1..q], Done);
      Bracketed(s, p, q);
      EmptyGroup(isObject, s[p + 1..q]);
    } else {
      var m := MembersRead(s, q, isObject, depth);
      var e := SkipItems(s, q, isObject, depth).value;
      Joined(s, p + 1, q, e - 1);
      Bracketed(s, p, e - 1);
      d := FullGroup(isObject, s[p + 1..q], m);
    }
  }

  lemma EmptyGroup(isObject: bool, gap: string)
    requires Blank(gap)
    ensures var d := Group(isObject, gap, Done);
            IsDoc(d) && Depth(d) == 1 && Spelled(d) == [if isObject then '{' else '['] + gap + [Closing(isObject)]
  {
  }

  /** Members put between brackets, with what white space there was ahead of them. */
  lemma FullGroup(isObject: bool, gap: string, m: Members) returns (d: Doc)
    requires Blank(gap) && m.Member? && AreMembers(isObject, m)
    ensures d.Group? && d.isObject == isObject && IsDoc(d) && Depth(d) == 1 + MembersDepth(m)
    ensures Spelled(d) == [if isObject then '{' else '['] + (gap + SpelledMembers(isObject, m)) + [Closing(isObject)]
  {
    hide SpelledMembers, AreMembers, MembersDepth;
    Widened(isObject, m, gap);
    d := Group(isObject, "", m.(before := gap + m.before));
  }

  lemma Bracketed(s: string, p: nat, q: nat)
    requires p < q < |s|
    ensures s[p..q + 1] == [s[p]] + s[p + 1..q] + [s[q]]
  {
  }

  /** A wider gap before the first member. */
  lemma Widened(isObject: bool, m: Members, gap: string)
    requires m.Member? && AreMembers(isObject, m) && Blank(gap)
    ensures var w := m.(before := gap + m.before);
            && AreMembers(isObject, w) && SpelledMembers(isObject, w) == gap + SpelledMembers(isObject, m)
            && MembersDepth(w) == MembersDepth(m)
    ensures Blank("")
  {
    hide Spelled, IsDoc, Depth, SpelledKey, IsBody;
    var w := m.(before := gap + m.before);
    SameKey(isObject, m, w);
    AsParts(isObject, m);
    AsParts(isObject, w);
    Ahead(gap, m.before, SpelledKey(isObject, m), Spelled(m.value), m.after, Tail(isObject, m.rest));
  }

  /** What follows a member: nothing, or a comma and the rest. */
  function Tail(isObject: bool, rest: Members): string
  {
    if rest.Done? then "" else "," + SpelledMembers(isObject, rest)
  }

  lemma AsParts(isObject: bool, m: Members)
    requires m.Member?
    ensures SpelledMembers(isObject, m) == m.before + SpelledKey(isObject, m) + Spelled(m.value) + m.after + Tail(isObject, m.rest)
  {
    hide Spelled, SpelledKey;
  }

  lemma SameKey(isObject: bool, m: Members, n: Members)
    requires m.Member? && n.Member? && n.key == m.key && n.afterKey == m.afterKey && n.ahead == m.ahead
    ensures SpelledKey(isObject, m) == SpelledKey(isObject, n)
  {
  }

  lemma Ahead(gap: string, a: string, b: string, c: string, d: string, e: string)
    ensures (gap + a) + b + c + d + e == gap + (a + b + c + d + e)
  {
    Regrouped(gap, a, b);
    Regrouped(gap, a + b, c);
    Regrouped(gap, a + b + c, d);
    Regrouped(gap, a + b + c + d, e);
  }

  lemma {:induction false} MembersRead(s: string, p: nat, isObject: bool, depth: nat) returns (m: Members)
    requires p <= |s| && depth < 16 && SkipItems(s, p, isObject, depth).Some?
    ensures var e := SkipItems(s, p, isObject, depth).value;
            && m.Member? && AreMembers(isObject, m) && depth + 1 + MembersDepth(m) <= 16
            && s[p..e - 1] == SpelledMembers(isObject, m) && s[e - 1] == Closing(isObject)
    decreases |s| - p, 2
  {
    hide SkipKey, SkipWhite, SkipValue, SkipString, SkipItems, Spelled, SpelledMembers, SpelledKey, AreMembers, IsDoc, Depth, MembersDepth,
         Blank;
    ItemsTaken(s, p, isObject, depth);
    var q := SkipKey(s, p, isObject).value;
    var v := SkipWhite(s, q);
    var e := SkipValue(s, v, depth + 1).value;
    var t := SkipWhite(s, e);
    var d := ValueRead(s, v, depth + 1);
    m := HeadRead(s, p, isObject, d, e);
    if s[t] != Closing(isObject) {
      var rest := MembersRead(s, SkipWhite(s, t + 1), isObject, depth);
      m := Chained(s, p, t, isObject, m, rest, SkipItems(s, SkipWhite(s, t + 1), isObject, depth).value - 1);
    }
  }

  lemma ItemsTaken(s: string, p: nat, isObject: bool, depth: nat)
    requires p <= |s| && SkipItems(s, p, isObject, depth).Some?
    ensures SkipKey(s, p, isObject).Some?
    ensures var v := SkipWhite(s, SkipKey(s, p, isObject).value);
            && SkipValue(s, v, depth + 1).Some? && v >= p
            && var t := SkipWhite(s, SkipValue(s, v, depth + 1).value);
               && t < |s|
               && (s[t] == Closing(isObject) ==> SkipItems(s, p, isObject, depth) == Some(t + 1))
               && (s[t] != Closing(isObject) ==>
                     s[t] == ',' && SkipItems(s, p, isObject, depth) == SkipItems(s, SkipWhite(s, t + 1), isObject, depth))
  {
    hide SkipKey, SkipWhite, SkipValue;
  }

  /** A member, the comma behind it, and the members behind that. */
  lemma Chained(s: string, p: nat, t: nat, isObject: bool, head: Members, rest: Members, end: nat) returns (m: Members)
    requires p <= t < |s| && s[t] == ',' && SkipWhite(s, t + 1) <= end <= |s|
    requires head.Member? && head.rest.Done? && AreMembers(isObject, head) && s[p..t] == SpelledMembers(isObject, head)
    requires rest.Member? && AreMembers(isObject, rest) && s[SkipWhite(s, t + 1)..end] == SpelledMembers(isObject, rest)
    ensures m.Member? && AreMembers(isObject, m) && s[p..end] == SpelledMembers(isObject, m)
    ensures MembersDepth(m) <= if MembersDepth(head) > MembersDepth(rest) then MembersDepth(head) else MembersDepth(rest)
  {
    hide SkipWhite, SpelledMembers, AreMembers, MembersDepth, Blank;
    var n := SkipWhite(s, t + 1);
    GapRead(s, t + 1);
    Widened(isObject, rest, s[t + 1..n]);
    var wider := rest.(before := s[t + 1..n] + rest.before);
    Longer(isObject, head, wider);
    m := head.(rest := wider);
    Joined(s, t + 1, n, end);
    CommaBetween(s, p, t, end);
  }

  lemma CommaBetween(s: string, p: nat, t: nat, end: nat)
    requires p <= t < end <= |s| && s[t] == ','
    ensures s[p..end] == s[p..t] + "," + s[t + 1..end]
  {
  }

  /** The rest put behind a member. */
  lemma Longer(isObject: bool, m: Members, rest: Members)
    requires m.Member? && m.rest.Done? && rest.Member? && AreMembers(isObject, m) && AreMembers(isObject, rest)
    ensures var l := m.(rest := rest);
            && AreMembers(isObject, l) && SpelledMembers(isObject, l) == SpelledMembers(isObject, m) + "," + SpelledMembers(isObject, rest)
            && MembersDepth(l) <= if MembersDepth(m) > MembersDepth(rest) then MembersDepth(m) else MembersDepth(rest)
  {
    hide Spelled, IsDoc, Depth, SpelledKey, IsBody;
    var l := m.(rest := rest);
    SameKey(isObject, m, l);
    AsParts(isObject, m);
    AsParts(isObject, l);
    var head := m.before + SpelledKey(isObject, m) + Spelled(m.value) + m.after;
    assert head + "" == head;
    Regrouped(head, ",", SpelledMembers(isObject, rest));
  }

  /** One member, as if it were the last, given its value. */
  lemma HeadRead(s: string, p: nat, isObject: bool, d: Doc, e: nat) returns (m: Members)
    requires p <= |s| && SkipKey(s, p, isObject).Some? && IsDoc(d)
    requires SkipWhite(s, SkipKey(s, p, isObject).value) <= e <= |s|
    requires s[SkipWhite(s, SkipKey(s, p, isObject).value)..e] == Spelled(d)
    ensures m.Member? && m.rest.Done? && AreMembers(isObject, m) && MembersDepth(m) == Depth(d)
    ensures s[p..SkipWhite(s, e)] == SpelledMembers(isObject, m)
  {
    hide SkipWhite, SkipString, Spelled, IsDoc, Depth, Blank, IsBody, SpelledMembers, AreMembers, MembersDepth;
    var v, t := SkipWhite(s, SkipKey(s, p, isObject).value), SkipWhite(s, e);
    GapRead(s, e);
    if isObject {
      m := KeyRead(s, p, d, s[e..t]);
    } else {
      GapRead(s, p);
      m := Member(s[p..v], "", "", "", d, s[e..t], Done);
      LastMember(false, m);
    }
    Joined(s, p, v, e);
    Joined(s, p, e, t);
    HeadOf(isObject, m);
    assert s[p..v] == m.before + SpelledKey(isObject, m);
  }

  lemma Joined(s: string, a: nat, b: nat, c: nat)
    requires a <= b <= c <= |s|
    ensures s[a..c] == s[a..b] + s[b..c]
  {
  }

  lemma KeyRead(s: string, p: nat, d: Doc, after: string) returns (m: Members)
    requires p <= |s| && SkipKey(s, p, true).Some? && IsDoc(d) && Blank(after)
    ensures m.Member? && m.rest.Done? && m.value == d && m.after == after
    ensures AreMembers(true, m) && MembersDepth(m) == Depth(d)
    ensures s[p..SkipWhite(s, SkipKey(s, p, true).value)] == m.before + SpelledKey(true, m)
  {
    hide SkipWhite, SkipString, Spelled, SpelledMembers, IsDoc, Depth, Blank, IsBody, AreMembers, MembersDepth;
    var a := SkipWhite(s, p);
    var b := SkipString(s, a).value;
    var c := SkipWhite(s, b);
    var v := SkipWhite(s, c + 1);
    TextRead(s, a);
    GapRead(s, p);
    GapRead(s, b);
    GapRead(s, c + 1);
    m := Member(s[p..a], s[a + 1..b - 1], s[b..c], s[c + 1..v], d, after, Done);
    LastMember(true, m);
    Joined(s, p, a, v);
    ColonBetween(s, a, b, c, v);
  }

  lemma ColonBetween(s: string, a: nat, b: nat, c: nat, v: nat)
    requires a <= b <= c < v <= |s| && s[c] == ':'
    ensures s[a..v] == s[a..b] + s[b..c] + ":" + s[c + 1..v]
  {
    Joined(s, a, b, c);
    CharBetween(s, a, c, v);
  }

  lemma CharBetween(s: string, a: nat, c: nat, v: nat)
    requires a <= c < v <= |s|
    ensures s[a..v] == s[a..c] + [s[c]] + s[c + 1..v]
  {
  }

  lemma LastMember(isObject: bool, m: Members)
    requires m.Member? && m.rest.Done? && IsDoc(m.value) && Blank(m.before) && Blank(m.after)
    requires isObject ==> IsBody(m.key) && Blank(m.afterKey) && Blank(m.ahead)
    ensures AreMembers(isObject, m) && MembersDepth(m) == Depth(m.value)
  {
    hide IsDoc, Depth, Blank, IsBody;
    NoDepth(m.rest);
    DeeperOf(m);
  }

  lemma HeadOf(isObject: bool, m: Members)
    requires m.Member? && m.rest.Done?
    ensures SpelledMembers(isObject, m) == m.before + SpelledKey(isObject, m) + Spelled(m.value) + m.after
  {
    hide Spelled, SpelledKey;
    assert SpelledMembers(isObject, m) == m.before + SpelledKey(isObject, m) + Spelled(m.value) + m.after + "";
  }

  // ---- whole texts -------------------------------------------------------------------------------------

  /** A document with white space before and after it. */
  ghost predicate Spells(s: string, lead: string, d: Doc, trail: string)
  {
    IsDoc(d) && Blank(lead) && Blank(trail) && s == lead + Spelled(d) + trail
  }

  /** Every document, with any white space in any of its gaps, is valid exactly when it nests no deeper than sixteen levels. */
  lemma SpelledIsValidIff(lead: string, d: Doc, trail: string)
    requires IsDoc(d) && Blank(lead) && Blank(trail)
    ensures ValidText(lead + Spelled(d) + trail) <==> Depth(d) <= 16
  {
    hide SkipWhite, SkipValue, Spelled, IsDoc, Depth, Leads, Occurs;
    var s := lead + Spelled(d) + trail;
    var p := |lead|;
    Apart(lead, Spelled(d), trail);
    NextIs(s, p + |Spelled(d)|, trail);
    DocSkipped(s, p, d, 0);
    LeadIsNotWhite(s[p]);
    GapSkipped(s, 0, lead);
    GapSkipped(s, p + |Spelled(d)|, trail);
  }

  lemma Apart(a: string, b: string, c: string)
    ensures Occurs(a + b + c, 0, a) && Occurs(a + b + c, |a|, b) && Occurs(a + b + c, |a| + |b|, c)
  {
  }

  lemma LeadIsNotWhite(c: char)
    requires Leads(c)
    ensures !White(c) && c != ']' && c != '}'
  {
  }

  /** The texts that are valid are exactly the spellings of documents that nest no deeper than sixteen levels. */
  lemma ValidIff(s: string)
    ensures ValidText(s) <==> exists lead, d, trail :: Spells(s, lead, d, trail) && Depth(d) <= 16
  {
    hide SkipWhite, SkipValue, Spelled, IsDoc, Depth, Blank;
    if ValidText(s) {
      var p := SkipWhite(s, 0);
      var e := SkipValue(s, p, 0).value;
      GapRead(s, 0);
      GapRead(s, e);
      var d := ValueRead(s, p, 0);
      assert s == s[0..p] + s[p..e] + s[e..|s|];
      assert Spells(s, s[0..p], d, s[e..|s|]);
    }
    forall lead, d, trail | Spells(s, lead, d, trail) && Depth(d) <= 16 ensures ValidText(s) {
      SpelledIsValidIff(lead, d, trail);
    }
  }
}
