/** Cutting a line into arguments (the token functions of components/cli/cli.c). */
module CliTokens {
  import opened Bytes
  import opened CliEditor

  function Skipped(s: string): (r: string)
    ensures |r| <= |s|
  {
    if |s| > 0 && IsSeparator(s[0]) then Skipped(s[1..]) else s
  }

  /** How many characters before the next separator. */
  function TokenLength(s: string): (n: nat)
    ensures n <= |s|
  {
    if |s| == 0 || IsSeparator(s[0]) then 0 else 1 + TokenLength(s[1..])
  }

  /** The next token and what is left after the separator that ended it. */
  function NextOf(s: string): (r: Option<(string, string)>)
    ensures r.Some? ==> |r.value.1| < |s|
  {
    var t := Skipped(s);
    if |t| == 0 then None
    else
      var n := TokenLength(t);
      Some((t[..n], if n < |t| then t[n + 1..] else ""))
  }

  lemma NextOfParts(s: string)
    ensures var t := Skipped(s);
            var n := TokenLength(t);
            NextOf(s) == if |t| == 0 then None else Some((t[..n], if n < |t| then t[n + 1..] else ""))
  {
  }

  function Tokens(s: string): seq<string>
    decreases |s|
  {
    match NextOf(s)
    case None => []
    case Some((token, rest)) => [token] + Tokens(rest)
  }

  predicate Solid(s: string)
  {
    |s| > 0 && forall i :: 0 <= i < |s| ==> !IsSeparator(s[i])
  }

  /** What is left of a line with its separators taken out. */
  function Squeezed(s: string): string
  {
    if |s| == 0 then ""
    else (if IsSeparator(s[0]) then "" else [s[0]]) + Squeezed(s[1..])
  }

  function Joined(tokens: seq<string>): string
  {
    if |tokens| == 0 then "" else tokens[0] + Joined(tokens[1..])
  }

  /** Tokens between single separators, any of them at each place. */
  function Separated(tokens: seq<string>, separators: string): string
    requires |separators| >= |tokens|
  {
    if |tokens| == 0 then "" else tokens[0] + [separators[0]] + Separated(tokens[1..], separators[1..])
  }

  lemma BlankFirst(s: string)
    requires |s| > 0
    ensures BlankLine(s) <==> IsSeparator(s[0]) && BlankLine(s[1..])
  {
    hide IsSeparator;
    if IsSeparator(s[0]) && BlankLine(s[1..]) {
      forall i | 0 <= i < |s| ensures IsSeparator(s[i]) {
        if i > 0 {
          assert s[1..][i - 1] == s[i];
        }
      }
    }
  }

  lemma {:induction false} SkippedFacts(s: string)
    ensures Squeezed(Skipped(s)) == Squeezed(s)
    ensures |Skipped(s)| > 0 ==> !IsSeparator(Skipped(s)[0])
    ensures |Skipped(s)| == 0 <==> BlankLine(s)
  {
    hide IsSeparator, BlankLine;
    if |s| > 0 {
      BlankFirst(s);
      if IsSeparator(s[0]) {
        SkippedFacts(s[1..]);
      }
    } else {
      NothingBlank();
    }
  }

  lemma SkippedBlank(s: string)
    ensures |Skipped(s)| == 0 <==> BlankLine(s)
  {
    SkippedFacts(s);
  }

  lemma NothingBlank()
    ensures BlankLine("")
  {
  }

  lemma {:induction false} TokenFacts(s: string)
    ensures var n := TokenLength(s);
            (forall i :: 0 <= i < n ==> !IsSeparator(s[i])) && (n < |s| ==> IsSeparator(s[n])) &&
            Squeezed(s) == s[..n] + Squeezed(if n < |s| then s[n + 1..] else "")
  {
    hide IsSeparator, Squeezed;
    if |s| > 0 && !IsSeparator(s[0]) {
      var rest := s[1..];
      TokenFacts(rest);
      var n := TokenLength(rest);
      SqueezedFirst(s);
      assert s[..n + 1] == [s[0]] + rest[..n];
      if n < |rest| {
        assert rest[n + 1..] == s[n + 2..];
      }
      forall i | 0 <= i < n + 1 ensures !IsSeparator(s[i]) {
        if i > 0 {
          assert s[i] == rest[i - 1];
        }
      }
    } else if |s| > 0 {
      SqueezedFirst(s);
      assert s[0 + 1..] == s[1..];
    } else {
      NothingSqueezed();
    }
  }

  lemma SqueezedFirst(s: string)
    requires |s| > 0
    ensures Squeezed(s) == (if IsSeparator(s[0]) then "" else [s[0]]) + Squeezed(s[1..])
  {
  }

  /** Every token is solid, and between them they hold every character that is not a separator. */
  lemma {:induction false} TokensKeepEverything(s: string)
    ensures forall i :: 0 <= i < |Tokens(s)| ==> Solid(Tokens(s)[i])
    ensures Joined(Tokens(s)) == Squeezed(s)
    ensures Tokens(s) == [] <==> BlankLine(s)
    decreases |s|
  {
    hide IsSeparator, BlankLine, Skipped, Squeezed, TokenLength;
    SkippedFacts(s);
    var t := Skipped(s);
    if |t| > 0 {
      TokenFacts(t);
      FirstTokenSolid(t);
      var (token, rest) := NextOf(s).value;
      TokensKeepEverything(rest);
      assert Tokens(s)[1..] == Tokens(rest);
    } else {
      NothingSqueezed();
    }
  }

  lemma NothingSqueezed()
    ensures Squeezed("") == ""
  {
  }

  lemma FirstTokenSolid(t: string)
    requires |t| > 0 && !IsSeparator(t[0])
    ensures Solid(t[..TokenLength(t)])
  {
    TokenFacts(t);
  }

  lemma {:induction false} TokenOf(token: string, separator: char, rest: string)
    requires (forall i :: 0 <= i < |token| ==> !IsSeparator(token[i])) && IsSeparator(separator)
    ensures TokenLength(token + [separator] + rest) == |token|
  {
    var s := token + [separator] + rest;
    if |token| > 0 {
      assert s[1..] == token[1..] + [separator] + rest;
      TokenOf(token[1..], separator, rest);
    }
  }

  /** Arguments written out with any separators between them are read back as they were. */
  lemma {:induction false} TokensRoundTrip(tokens: seq<string>, separators: string)
    requires |separators| == |tokens| && forall i :: 0 <= i < |tokens| ==> Solid(tokens[i]) && IsSeparator(separators[i])
    ensures Tokens(Separated(tokens, separators)) == tokens
  {
    if |tokens| > 0 {
      var rest := Separated(tokens[1..], separators[1..]);
      var s := tokens[0] + [separators[0]] + rest;
      TokensRoundTrip(tokens[1..], separators[1..]);
      assert s[0] == tokens[0][0];
      TokenOf(tokens[0], separators[0], rest);
      assert s[..|tokens[0]|] == tokens[0] && s[|tokens[0]| + 1..] == rest;
      assert NextOf(s) == Some((tokens[0], rest));
    }
  }
}
