/**
 * The line editor of components/cli/cli.c as a pure machine over what is left and right of the
 * cursor, and the one row of a remote terminal its echo must keep in step.
 */
module CliEditor {
  import opened Bytes

  const ESC: char := 27 as char
  const BACKSPACE: char := 8 as char
  const BACK: string := [BACKSPACE]
  const WIPE: string := [BACKSPACE, ' ', BACKSPACE]
  const DELETE: char := 127 as char

  datatype Escape = NoEscape | GotEscape | GotBracket

  datatype Settings = Settings(
    lineSize: nat, echo: bool, rawPrefix: Option<char>, depth: nat, entrySize: nat, prompt: string)

  /** What cli_init accepts. */
  predicate Accepted(cfg: Settings)
  {
    && cfg.lineSize >= 2
    && (cfg.depth > 0 ==> cfg.entrySize >= 2 && cfg.echo)
  }

  /** `history` holds the newest line first; `browse` is how far back the user has gone. */
  datatype Editor = Editor(
    left: string, right: string, raw: bool, overflow: bool, escape: Escape, lastWasCr: bool,
    history: seq<string>, browse: nat)

  const EMPTY := Editor("", "", false, false, NoEscape, false, [], 0)

  function Line(e: Editor): string
  {
    e.left + e.right
  }

  predicate Visible(cfg: Settings, e: Editor)
  {
    cfg.echo && !e.raw
  }

  function Times(n: nat, text: string): (s: string)
    ensures |s| == n * |text|
  {
    if n == 0 then "" else Times(n - 1, text) + text
  }

  function Shown(cfg: Settings, e: Editor, text: string): string
  {
    if Visible(cfg, e) then text else ""
  }

  // ---- one edit: the new state and what goes out ------------------------------------------

  function Insert(cfg: Settings, e: Editor, c: char): (Editor, string)
  {
    if |Line(e)| + 1 >= cfg.lineSize then (e.(overflow := true), "")
    else (e.(left := e.left + [c]), Shown(cfg, e, [c] + e.right + Times(|e.right|, BACK)))
  }

  function Rubout(cfg: Settings, e: Editor): (Editor, string)
  {
    if |e.left| == 0 then (e, "")
    else (e.(left := e.left[..|e.left| - 1]), Shown(cfg, e, BACK + e.right + " " + Times(|e.right| + 1, BACK)))
  }

  function Left(cfg: Settings, e: Editor): (Editor, string)
  {
    if |e.left| == 0 then (e, "")
    else (e.(left := e.left[..|e.left| - 1], right := [e.left[|e.left| - 1]] + e.right), Shown(cfg, e, BACK))
  }

  function Right(cfg: Settings, e: Editor): (Editor, string)
  {
    if |e.right| == 0 then (e, "")
    else (e.(left := e.left + [e.right[0]], right := e.right[1..]), Shown(cfg, e, [e.right[0]]))
  }

  function Truncated(text: string, size: nat): (t: string)
    requires size > 0
    ensures |t| < size && t <= text
  {
    if |text| >= size then text[..size - 1] else text
  }

  function Replace(cfg: Settings, e: Editor, text: string): (Editor, string)
    requires cfg.lineSize > 0
  {
    var line := Truncated(text, cfg.lineSize);
    (e.(left := line, right := ""), Shown(cfg, e, e.right + Times(|Line(e)|, WIPE) + line))
  }

  function Browse(cfg: Settings, e: Editor, n: nat): (Editor, string)
    requires cfg.lineSize > 0 && n <= |e.history|
  {
    var (next, out) := Replace(cfg, e, if n == 0 then "" else e.history[n - 1]);
    (next.(browse := n), out)
  }

  function Recall(cfg: Settings, e: Editor, older: bool): (Editor, string)
    requires cfg.lineSize > 0 && e.browse <= |e.history|
  {
    if |e.history| == 0 || (older && e.browse >= |e.history|) || (!older && e.browse == 0) then (e, "")
    else Browse(cfg, e, if older then e.browse + 1 else e.browse - 1)
  }

  function Remember(cfg: Settings, history: seq<string>, line: string): (h: seq<string>)
    requires cfg.depth > 0 ==> cfg.entrySize > 0
  {
    if cfg.depth == 0 then history
    else
      var all := [Truncated(line, cfg.entrySize)] + history;
      if |all| > cfg.depth then all[..cfg.depth] else all
  }

  // ---- whole characters ---------------------------------------------------------------------

  predicate IsSeparator(c: char)
  {
    c == ' ' || c == '\t' || c == ',' || c == ';'
  }

  predicate BlankLine(line: string)
  {
    forall i :: 0 <= i < |line| ==> IsSeparator(line[i])
  }

  /**
   * What the rest of the firmware does with a line: what it prints, and whether the line
   * filter claims it.
   */
  datatype Answer = Answer(text: string, claimed: bool)

  function Reset(e: Editor): Editor
  {
    e.(left := "", right := "", raw := false, overflow := false, escape := NoEscape, browse := 0)
  }

  /** Whether this line ending hands the line on. */
  predicate Dispatches(e: Editor)
  {
    !e.overflow && !BlankLine(Line(e))
  }

  /** The remembered lines once this one has ended. */
  function Kept(cfg: Settings, e: Editor): seq<string>
    requires Accepted(cfg)
  {
    if e.overflow || Line(e) == "" || e.raw then e.history else Remember(cfg, e.history, Line(e))
  }

  function Reply(e: Editor, answer: Answer): string
  {
    if e.overflow then "line too long\r\n" else if Dispatches(e) then answer.text else ""
  }

  function EndLine(cfg: Settings, e: Editor, answer: Answer): (Editor, string)
    requires Accepted(cfg)
  {
    var quiet := Dispatches(e) && answer.claimed;
    (Reset(e).(history := Kept(cfg, e)), Shown(cfg, e, "\r\n") + Reply(e, answer) + if quiet then "" else cfg.prompt)
  }

  function Letter(cfg: Settings, e: Editor, c: char): (Editor, string)
    requires Accepted(cfg) && e.browse <= |e.history|
  {
    if c == 'D' then Left(cfg, e)
    else if c == 'C' then Right(cfg, e)
    else if c == 'A' then Recall(cfg, e, true)
    else if c == 'B' then Recall(cfg, e, false)
    else (e, "")
  }

  predicate EndsLine(e: Editor, c: char)
  {
    c == '\r' || (c == '\n' && !e.lastWasCr)
  }

  /** A character that does not end the line. */
  function Edit(cfg: Settings, e0: Editor, c: char): (Editor, string)
    requires Accepted(cfg) && e0.browse <= |e0.history|
  {
    var e := e0.(lastWasCr := false);
    if c == '\n' then (e, "")
    else if e.escape == GotBracket then Letter(cfg, e.(escape := NoEscape), c)
    else if e.escape == GotEscape then (e.(escape := if c == '[' then GotBracket else NoEscape), "")
    else if c == ESC then (e.(escape := GotEscape), "")
    else if c == BACKSPACE || c == DELETE then Rubout(cfg, e)
    else if c < ' ' then (e, "")
    else Insert(cfg, if Line(e) == "" && cfg.rawPrefix == Some(c) then e.(raw := true) else e, c)
  }

  function Feed(cfg: Settings, e: Editor, c: char, answer: Answer): (Editor, string)
    requires Accepted(cfg) && e.browse <= |e.history|
  {
    if EndsLine(e, c) then EndLine(cfg, e.(lastWasCr := c == '\r', escape := NoEscape), answer)
    else Edit(cfg, e, c)
  }

  // ---- what every run keeps --------------------------------------------------------------------

  predicate Typed(c: char)
  {
    c >= ' ' && c != DELETE
  }

  predicate AllTyped(s: string)
  {
    forall i :: 0 <= i < |s| ==> Typed(s[i])
  }

  predicate SaneHistory(cfg: Settings, history: seq<string>)
  {
    |history| <= cfg.depth &&
    forall i :: 0 <= i < |history| ==> AllTyped(history[i]) && |history[i]| < cfg.entrySize
  }

  predicate Sane(cfg: Settings, e: Editor)
  {
    && |Line(e)| < cfg.lineSize
    && AllTyped(e.left) && AllTyped(e.right)
    && SaneHistory(cfg, e.history) && e.browse <= |e.history|
  }

  // ---- the terminal ---------------------------------------------------------------------------

  /** One row from where the line began. `strayed` is set by a step back past its start. */
  datatype Screen = Screen(cells: string, cursor: nat, strayed: bool)

  const FRESH_ROW := Screen("", 0, false)

  function Put(s: Screen, c: char): Screen
  {
    if c as int == 8 then
      if s.cursor == 0 then s.(strayed := true) else s.(cursor := s.cursor - 1)
    else if s.cursor < |s.cells| then s.(cells := s.cells[s.cursor := c], cursor := s.cursor + 1)
    else s.(cells := s.cells + [c], cursor := |s.cells| + 1)
  }

  function Draw(s: Screen, text: string): Screen
  {
    if |text| == 0 then s else Put(Draw(s, text[..|text| - 1]), text[|text| - 1])
  }

  predicate BlankFrom(cells: string, n: nat)
  {
    forall i :: n <= i < |cells| ==> cells[i] == ' '
  }

  /** The row reads `line`, blank beyond, with the cursor at `at`. */
  predicate Reads(s: Screen, line: string, at: nat)
  {
    !s.strayed && s.cursor == at && line <= s.cells && BlankFrom(s.cells, |line|)
  }

  /** The terminal agrees with the buffer. A line that is not echoed leaves the row empty. */
  predicate Agrees(cfg: Settings, e: Editor, s: Screen)
  {
    if Visible(cfg, e) then Reads(s, Line(e), |e.left|) else Reads(s, "", 0)
  }

  // ---- drawing ------------------------------------------------------------------------------

  lemma {:induction false} DrawBoth(s: Screen, a: string, b: string)
    ensures Draw(s, a + b) == Draw(Draw(s, a), b)
  {
    if |b| == 0 {
      assert a + b == a;
    } else {
      assert (a + b)[..|a + b| - 1] == a + b[..|b| - 1];
      DrawBoth(s, a, b[..|b| - 1]);
    }
  }

  lemma PutTyped(d: Screen, c: char)
    requires Typed(c) && d.cursor <= |d.cells|
    ensures Put(d, c) == Screen(d.cells[..d.cursor] + [c] + (if d.cursor < |d.cells| then d.cells[d.cursor + 1..] else ""),
                                d.cursor + 1, d.strayed)
  {
  }

  /** Text written over or past what is there. */
  lemma {:induction false} DrawTyped(s: Screen, text: string)
    requires AllTyped(text) && s.cursor <= |s.cells|
    ensures var d := Draw(s, text);
            d.strayed == s.strayed && d.cursor == s.cursor + |text| <= |d.cells| &&
            d.cells == s.cells[..s.cursor] + text +
                       if s.cursor + |text| < |s.cells| then s.cells[s.cursor + |text|..] else ""
  {
    hide Put;
    if |text| > 0 {
      var front, c := text[..|text| - 1], text[|text| - 1];
      DrawTyped(s, front);
      assert Typed(c) && text == front + [c];
      PutTyped(Draw(s, front), c);
    }
  }

  lemma {:induction false} DrawBack(s: Screen, n: nat)
    requires n <= s.cursor
    ensures Draw(s, Times(n, BACK)) == s.(cursor := s.cursor - n)
  {
    if n > 0 {
      DrawBack(s, n - 1);
      assert Times(n, BACK)[..n - 1] == Times(n - 1, BACK);
    }
  }

  /** The last `n` cells before the cursor wiped, one by one. */
  lemma {:induction false} DrawWipe(s: Screen, n: nat)
    requires n <= s.cursor <= |s.cells| && BlankFrom(s.cells, s.cursor)
    ensures var d := Draw(s, Times(n, WIPE));
            d.strayed == s.strayed && d.cursor == s.cursor - n && |d.cells| == |s.cells| &&
            d.cells[..d.cursor] == s.cells[..d.cursor] && BlankFrom(d.cells, d.cursor)
  {
    hide Draw;
    NothingDrawn(s);
    if n > 0 {
      DrawWipe(s, n - 1);
      DrawBoth(s, Times(n - 1, WIPE), WIPE);
      var d := Draw(s, Times(n - 1, WIPE));
      DrawThree(d);
    }
  }

  lemma DrawThree(d: Screen)
    requires 0 < d.cursor <= |d.cells|
    ensures Draw(d, WIPE) == d.(cells := d.cells[d.cursor - 1 := ' '], cursor := d.cursor - 1)
  {
    assert WIPE[..2][..1] == WIPE[..1] && WIPE[..1][..0] == "";
    assert WIPE[..3] == WIPE;
    assert Draw(d, WIPE[..1]) == d.(cursor := d.cursor - 1);
    assert Draw(d, WIPE[..2]) == d.(cells := d.cells[d.cursor - 1 := ' ']);
  }

  // ---- each edit keeps the row in step ----------------------------------------------------

  /** An edit that keeps the editor sane and, whatever the row showed, leaves it agreeing. */
  ghost predicate InStep(cfg: Settings, e: Editor, after: (Editor, string))
  {
    Sane(cfg, after.0) && forall s: Screen :: Agrees(cfg, e, s) ==> Agrees(cfg, after.0, Draw(s, after.1))
  }

  lemma InStepSane(cfg: Settings, e: Editor, after: (Editor, string))
    requires InStep(cfg, e, after)
    ensures Sane(cfg, after.0)
  {
  }

  lemma NothingDrawn(s: Screen)
    ensures Draw(s, "") == s
  {
  }

  /** Rewrite what is right of the cursor, then step back over it. */
  lemma DrawTail(s: Screen, text: string, back: nat)
    requires AllTyped(text) && s.cursor <= |s.cells| && back <= s.cursor + |text|
    ensures var d := Draw(Draw(s, text), Times(back, BACK));
            d.strayed == s.strayed && d.cursor == s.cursor + |text| - back &&
            d.cells == s.cells[..s.cursor] + text +
                       if s.cursor + |text| < |s.cells| then s.cells[s.cursor + |text|..] else ""
  {
    hide Draw, Times;
    DrawTyped(s, text);
    DrawBack(Draw(s, text), back);
  }

  lemma InsertInStep(cfg: Settings, e: Editor, c: char)
    requires Accepted(cfg) && Sane(cfg, e) && Typed(c)
    ensures InStep(cfg, e, Insert(cfg, e, c))
  {
    hide Draw, Times;
    var (next, out) := Insert(cfg, e, c);
    forall s: Screen | Agrees(cfg, e, s) ensures Agrees(cfg, next, Draw(s, out)) {
      NothingDrawn(s);
      if out != "" {
        DrawBoth(s, [c] + e.right, Times(|e.right|, BACK));
        DrawTail(s, [c] + e.right, |e.right|);
      }
    }
  }

  lemma RuboutInStep(cfg: Settings, e: Editor)
    requires Accepted(cfg) && Sane(cfg, e)
    ensures InStep(cfg, e, Rubout(cfg, e))
  {
    hide Agrees, Draw, Times;
    var (next, out) := Rubout(cfg, e);
    forall s: Screen | Agrees(cfg, e, s) ensures Agrees(cfg, next, Draw(s, out)) {
      RuboutDrawn(cfg, e, s);
    }
  }

  lemma RuboutDrawn(cfg: Settings, e: Editor, s: Screen)
    requires Accepted(cfg) && Sane(cfg, e) && Agrees(cfg, e, s)
    ensures Agrees(cfg, Rubout(cfg, e).0, Draw(s, Rubout(cfg, e).1))
  {
    hide Draw, Times;
    var (next, out) := Rubout(cfg, e);
    NothingDrawn(s);
    if out != "" {
      var n := |e.right| + 1;
      assert out == BACK + ((e.right + " ") + Times(n, BACK));
      DrawBoth(s, BACK, (e.right + " ") + Times(n, BACK));
      StepBack(s);
      var t := s.(cursor := s.cursor - 1);
      DrawBoth(t, e.right + " ", Times(n, BACK));
      DrawTail(t, e.right + " ", n);
    }
  }

  lemma StepBack(s: Screen)
    requires s.cursor > 0
    ensures Draw(s, BACK) == s.(cursor := s.cursor - 1)
  {
    assert BACK[..0] == "";
  }

  lemma LeftInStep(cfg: Settings, e: Editor)
    requires Accepted(cfg) && Sane(cfg, e)
    ensures InStep(cfg, e, Left(cfg, e))
  {
    hide Draw;
    var (next, out) := Left(cfg, e);
    assert Line(next) == Line(e);
    forall s: Screen | Agrees(cfg, e, s) ensures Agrees(cfg, next, Draw(s, out)) {
      NothingDrawn(s);
      if out != "" {
        StepBack(s);
      }
    }
  }

  lemma RightInStep(cfg: Settings, e: Editor)
    requires Accepted(cfg) && Sane(cfg, e)
    ensures InStep(cfg, e, Right(cfg, e))
  {
    hide Agrees, Draw;
    var (next, out) := Right(cfg, e);
    forall s: Screen | Agrees(cfg, e, s) ensures Agrees(cfg, next, Draw(s, out)) {
      RightDrawn(cfg, e, s);
    }
  }

  lemma RightDrawn(cfg: Settings, e: Editor, s: Screen)
    requires Accepted(cfg) && Sane(cfg, e) && Agrees(cfg, e, s)
    ensures Agrees(cfg, Right(cfg, e).0, Draw(s, Right(cfg, e).1))
  {
    hide Draw;
    var (next, out) := Right(cfg, e);
    assert Line(next) == Line(e);
    NothingDrawn(s);
    if out != "" {
      DrawTyped(s, [e.right[0]]);
    }
  }

  lemma ReplaceInStep(cfg: Settings, e: Editor, text: string)
    requires Accepted(cfg) && Sane(cfg, e) && AllTyped(text)
    ensures InStep(cfg, e, Replace(cfg, e, text))
  {
    hide Draw, Times;
    var (next, out) := Replace(cfg, e, text);
    var n := |Line(e)|;
    forall s: Screen | Agrees(cfg, e, s) ensures Agrees(cfg, next, Draw(s, out)) {
      NothingDrawn(s);
      if Visible(cfg, e) {
        DrawBoth(s, e.right + Times(n, WIPE), next.left);
        DrawBoth(s, e.right, Times(n, WIPE));
        DrawTyped(s, e.right);
        var t := Draw(s, e.right);
        DrawWipe(t, n);
        DrawTyped(Draw(t, Times(n, WIPE)), next.left);
      }
    }
  }

  lemma RecallInStep(cfg: Settings, e: Editor, older: bool)
    requires Accepted(cfg) && Sane(cfg, e)
    ensures InStep(cfg, e, Recall(cfg, e, older))
  {
    hide Draw, Replace;
    var n := if older then e.browse + 1 else e.browse - 1;
    if 0 <= n <= |e.history| {
      ReplaceInStep(cfg, e, if n == 0 then "" else e.history[n - 1]);
      ReplaceKeeps(cfg, e, if n == 0 then "" else e.history[n - 1]);
    }
    forall s: Screen ensures Draw(s, "") == s {
      NothingDrawn(s);
    }
  }

  lemma ReplaceKeeps(cfg: Settings, e: Editor, text: string)
    requires cfg.lineSize > 0
    ensures Replace(cfg, e, text).0.history == e.history && Replace(cfg, e, text).0.raw == e.raw
  {
  }

  lemma UnchangedInStep(cfg: Settings, e: Editor, after: Editor)
    requires Sane(cfg, e) && after.left == e.left && after.right == e.right && after.raw == e.raw
    requires after.history == e.history && after.browse == e.browse
    ensures InStep(cfg, e, (after, ""))
  {
    forall s: Screen | Agrees(cfg, e, s) ensures Agrees(cfg, after, Draw(s, "")) {
      NothingDrawn(s);
    }
  }

  /** Two editors that look alike agree with the same rows. */
  lemma AlikeInStep(cfg: Settings, e: Editor, f: Editor, after: (Editor, string))
    requires InStep(cfg, f, after)
    requires forall s :: Agrees(cfg, e, s) ==> Agrees(cfg, f, s)
    ensures InStep(cfg, e, after)
  {
  }

  lemma EditInStep(cfg: Settings, e0: Editor, c: char)
    requires Accepted(cfg) && Sane(cfg, e0) && !EndsLine(e0, c)
    ensures InStep(cfg, e0, Edit(cfg, e0, c))
  {
    hide Draw, InStep, Insert, Rubout, Left, Right, Recall, Reads;
    var e := e0.(lastWasCr := false);
    var f := e.(escape := NoEscape);
    UnchangedInStep(cfg, e0, e);
    UnchangedInStep(cfg, e0, f);
    UnchangedInStep(cfg, f, f);
    UnchangedInStep(cfg, e0, e.(escape := GotEscape));
    UnchangedInStep(cfg, e0, e.(escape := GotBracket));
    LeftInStep(cfg, f);
    RightInStep(cfg, f);
    RecallInStep(cfg, f, true);
    RecallInStep(cfg, f, false);
    AlikeInStep(cfg, e0, f, Letter(cfg, f, c));
    RuboutInStep(cfg, e);
    AlikeInStep(cfg, e0, e, Rubout(cfg, e));
    if Typed(c) && c != ESC {
      var g := if Line(e) == "" && cfg.rawPrefix == Some(c) then e.(raw := true) else e;
      InsertInStep(cfg, g, c);
      AlikeInStep(cfg, e0, g, Insert(cfg, g, c));
    }
  }

  lemma RememberSane(cfg: Settings, history: seq<string>, line: string)
    requires Accepted(cfg) && SaneHistory(cfg, history) && AllTyped(line)
    ensures SaneHistory(cfg, Remember(cfg, history, line))
  {
  }

  /** A line ending leaves an empty line, on a row of its own. */
  lemma EndLineSane(cfg: Settings, e: Editor, answer: Answer)
    requires Accepted(cfg) && Sane(cfg, e)
    ensures Sane(cfg, EndLine(cfg, e, answer).0) && Agrees(cfg, EndLine(cfg, e, answer).0, FRESH_ROW)
  {
    hide Remember;
    RememberSane(cfg, e.history, Line(e));
  }

  // ---- whole runs -----------------------------------------------------------------------------

  datatype Session = Session(editor: Editor, row: Screen)

  /** Every character and, should it end a line, the answer that line gets. */
  function Run(cfg: Settings, input: seq<(char, Answer)>): (r: Session)
    requires Accepted(cfg)
    ensures Sane(cfg, r.editor)
  {
    if |input| == 0 then Session(EMPTY, FRESH_ROW)
    else
      var before, (c, answer) := Run(cfg, input[..|input| - 1]), input[|input| - 1];
      var (editor, out) := Feed(cfg, before.editor, c, answer);
      if EndsLine(before.editor, c) then
        (EndLineSane(cfg, before.editor.(lastWasCr := c == '\r', escape := NoEscape), answer);
         Session(editor, FRESH_ROW))
      else
        (EditInStep(cfg, before.editor, c);
         Session(editor, Draw(before.row, out)))
  }

  /**
   * Whatever is typed, the terminal and the buffer agree after every character: with echo on and
   * the line not raw, the row reads the line, blank beyond, with the cursor where the next
   * character goes; and nothing ever steps back into the prompt.
   */
  lemma {:induction false} ScreenAgrees(cfg: Settings, input: seq<(char, Answer)>)
    requires Accepted(cfg)
    ensures var r := Run(cfg, input);
            && |Line(r.editor)| < cfg.lineSize && !r.row.strayed
            && (cfg.echo && !r.editor.raw ==> Reads(r.row, Line(r.editor), |r.editor.left|))
            && (!cfg.echo || r.editor.raw ==> Reads(r.row, "", 0))
  {
    hide Edit, EndLine, Draw;
    if |input| > 0 {
      var front := input[..|input| - 1];
      var (c, answer) := input[|input| - 1];
      ScreenAgrees(cfg, front);
      var before := Run(cfg, front);
      if EndsLine(before.editor, c) {
        EndLineSane(cfg, before.editor.(lastWasCr := c == '\r', escape := NoEscape), answer);
      } else {
        EditInStep(cfg, before.editor, c);
      }
    }
  }

  // ---- what edits undo -----------------------------------------------------------------------

  /** Rubbing out what was just typed, anywhere in the line, gives the line back. */
  lemma RuboutUndoesInsert(cfg: Settings, e: Editor, c: char)
    requires |Line(e)| + 1 < cfg.lineSize
    ensures Rubout(cfg, Insert(cfg, e, c).0).0 == e
  {
  }

  lemma RightUndoesLeft(cfg: Settings, e: Editor)
    requires |e.left| > 0
    ensures Right(cfg, Left(cfg, e).0).0 == e && Line(Left(cfg, e).0) == Line(e)
  {
    hide Shown;
    var front, last := e.left[..|e.left| - 1], e.left[|e.left| - 1];
    var moved := Left(cfg, e).0;
    assert e.left == front + [last];
    assert moved.right == [last] + e.right && moved.right[1..] == e.right;
    assert Line(moved) == front + ([last] + e.right) == (front + [last]) + e.right;
  }

  lemma LeftUndoesRight(cfg: Settings, e: Editor)
    requires |e.right| > 0
    ensures Left(cfg, Right(cfg, e).0).0 == e && Line(Right(cfg, e).0) == Line(e)
  {
    hide Shown;
    var first, rest := e.right[0], e.right[1..];
    var moved := Right(cfg, e).0;
    assert e.right == [first] + rest;
    assert moved.left == e.left + [first] && moved.left[..|e.left|] == e.left;
    assert Line(moved) == (e.left + [first]) + rest == e.left + ([first] + rest);
  }

  /** The up arrow brings back the line just entered, cut to what the two buffers hold. */
  lemma RecallBringsBack(cfg: Settings, e: Editor, answer: Answer)
    requires Accepted(cfg) && Sane(cfg, e) && cfg.depth > 0
    requires Line(e) != "" && !e.raw && !e.overflow
    ensures var after := EndLine(cfg, e, answer).0;
            Line(Recall(cfg, after, true).0) == Truncated(Truncated(Line(e), cfg.entrySize), cfg.lineSize)
  {
  }

  /** Going back `n` lines and on to newer ones again shows the lines in the order they were entered. */
  lemma OlderThenNewer(cfg: Settings, e: Editor)
    requires Accepted(cfg) && Sane(cfg, e) && e.browse < |e.history|
    ensures var older := Recall(cfg, e, true).0;
            older.browse == e.browse + 1 && Line(older) == Truncated(e.history[e.browse], cfg.lineSize) &&
            Line(Recall(cfg, older, false).0) ==
              if e.browse == 0 then "" else Truncated(e.history[e.browse - 1], cfg.lineSize)
  {
    hide Browse, Truncated, Line, Shown;
    BrowseShows(cfg, e, e.browse + 1);
    BrowseShows(cfg, Browse(cfg, e, e.browse + 1).0, e.browse);
  }

  lemma BrowseShows(cfg: Settings, e: Editor, n: nat)
    requires cfg.lineSize > 0 && n <= |e.history|
    ensures var b := Browse(cfg, e, n).0;
            && b.browse == n && b.history == e.history
            && Line(b) == if n == 0 then "" else Truncated(e.history[n - 1], cfg.lineSize)
  {
    hide Shown;
  }

  // ---- keys ------------------------------------------------------------------------------------

  /** An arrow key is three characters, of which only the last does anything. */
  lemma ArrowKeys(cfg: Settings, e: Editor, c: char)
    requires Accepted(cfg) && e.browse <= |e.history| && e.escape == NoEscape && !e.lastWasCr && c != '\n'
    ensures var got := Edit(cfg, Edit(cfg, e, ESC).0, '[').0;
            && Edit(cfg, e, ESC).1 == "" && Edit(cfg, Edit(cfg, e, ESC).0, '[').1 == ""
            && Edit(cfg, got, c) ==
                 match c {
                   case 'D' => Left(cfg, e)
                   case 'C' => Right(cfg, e)
                   case 'A' => Recall(cfg, e, true)
                   case 'B' => Recall(cfg, e, false)
                   case _ => (e, "")
                 }
  {
    hide Left, Right, Recall;
    assert e == e.(escape := NoEscape, lastWasCr := false);
  }

  /**
   * What every key does to the line, by its code, with no escape sequence under way: 8 and 127 rub
   * out, 10 and 13 end the line but for a line feed after a carriage return, no other code below 32
   * changes it, and any character beyond is typed at the cursor if there is room for it.
   */
  lemma KeyTable(cfg: Settings, e: Editor, c: char, answer: Answer)
    requires Accepted(cfg) && e.browse <= |e.history| && e.escape == NoEscape
    ensures var code, n := c as int, Feed(cfg, e, c, answer).0;
            if code == 13 || (code == 10 && !e.lastWasCr) then n.left == "" && n.right == "" && !n.overflow && !n.raw
            else if code == 8 || code == 127 then
              n.left == (if e.left == "" then "" else e.left[..|e.left| - 1]) && n.right == e.right && n.overflow == e.overflow
            else if code < 32 then
              n.left == e.left && n.right == e.right && n.overflow == e.overflow
            else if |e.left| + |e.right| + 1 < cfg.lineSize then
              n.left == e.left + [c] && n.right == e.right && n.overflow == e.overflow
            else n.left == e.left && n.right == e.right && n.overflow
    ensures Feed(cfg, e, c, answer).0.escape == if c as int == 27 then GotEscape else NoEscape
    ensures Feed(cfg, e, c, answer).0.lastWasCr <==> c as int == 13
  {
    hide Times, Kept;
  }

  /** After an escape a bracket is awaited and then a letter, and whatever comes instead is dropped. */
  lemma EscapeTable(cfg: Settings, e: Editor, c: char, answer: Answer)
    requires Accepted(cfg) && e.browse <= |e.history| && e.escape != NoEscape && c as int != 13 && c as int != 10
    ensures var code, n := c as int, Feed(cfg, e, c, answer).0;
            && n.escape == (if e.escape == GotEscape && code == 91 then GotBracket else NoEscape)
            && n.overflow == e.overflow && n.raw == e.raw
            && (e.escape == GotEscape || !(65 <= code <= 68) ==> n.left == e.left && n.right == e.right)
            && (e.escape == GotBracket && code == 68 ==>
                  if e.left == "" then n.left == "" && n.right == e.right
                  else n.left == e.left[..|e.left| - 1] && n.right == [e.left[|e.left| - 1]] + e.right)
            && (e.escape == GotBracket && code == 67 ==>
                  if e.right == "" then n.left == e.left && n.right == ""
                  else n.left == e.left + [e.right[0]] && n.right == e.right[1..])
  {
    hide Times;
  }

  /** Up is an older line and down a newer one, the newest of all being none; past either end nothing moves. */
  lemma RecallTable(cfg: Settings, e: Editor, c: char, answer: Answer)
    requires Accepted(cfg) && e.browse <= |e.history| && e.escape == GotBracket
    ensures var code, n := c as int, Feed(cfg, e, c, answer).0;
            && (code == 65 && e.browse < |e.history| ==>
                  n.browse == e.browse + 1 && n.right == "" && n.left == Cut(e.history[e.browse], cfg.lineSize))
            && (code == 66 && e.browse > 1 ==>
                  n.browse == e.browse - 1 && n.right == "" && n.left == Cut(e.history[e.browse - 2], cfg.lineSize))
            && (code == 66 && e.browse == 1 ==> n.browse == 0 && n.right == "" && n.left == "")
            && ((code == 65 && e.browse == |e.history|) || (code == 66 && e.browse == 0) ==>
                  n.browse == e.browse && n.left == e.left && n.right == e.right)
  {
    hide Times;
  }

  /** As much of a line as fits before the terminator. */
  function Cut(line: string, size: nat): string
    requires size > 0
  {
    if |line| < size then line else line[..size - 1]
  }

  /** A line that is neither raw, empty nor overlong is remembered as the newest, and pushes out the oldest of too many. */
  lemma RememberedIff(cfg: Settings, e: Editor, c: char, answer: Answer)
    requires Accepted(cfg) && e.browse <= |e.history| <= cfg.depth && (c as int == 13 || (c as int == 10 && !e.lastWasCr))
    ensures var n, line := Feed(cfg, e, c, answer).0, e.left + e.right;
            && n.browse == 0
            && if e.raw || line == "" || e.overflow || cfg.depth == 0 then n.history == e.history
               else |n.history| == (if |e.history| < cfg.depth then |e.history| + 1 else cfg.depth) &&
                    n.history[0] == Cut(line, cfg.entrySize) && n.history[1..] == e.history[..|n.history| - 1]
  {
  }

  /** What a line ending prints: its echo, what is made of the line, and a prompt unless the filter took it. */
  lemma EndingPrints(cfg: Settings, e: Editor, answer: Answer)
    requires Accepted(cfg) && e.browse <= |e.history|
    ensures var blank := forall i :: 0 <= i < |e.left + e.right| ==> (e.left + e.right)[i] as int in {32, 9, 44, 59};
            var out := Feed(cfg, e, 13 as char, answer).1;
            out == (if cfg.echo && !e.raw then "\r\n" else "") +
                   (if e.overflow then "line too long\r\n" else if blank then "" else answer.text) +
                   (if !e.overflow && !blank && answer.claimed then "" else cfg.prompt)
  {
    hide Kept;
    assert BlankLine(e.left + e.right) <==>
             forall i :: 0 <= i < |e.left + e.right| ==> (e.left + e.right)[i] as int in {32, 9, 44, 59};
  }

  /** A carriage return and the line feed after it are one line ending. */
  lemma CrLfEndsOneLine(cfg: Settings, e: Editor, answer: Answer, other: Answer)
    requires Accepted(cfg) && Sane(cfg, e)
    ensures var after := Feed(cfg, e, '\r', answer).0;
            after.lastWasCr && after.browse == 0 &&
            Feed(cfg, after, '\n', other) == (after.(lastWasCr := false), "")
  {
    hide Kept;
  }

  // ---- a raw line stays raw ---------------------------------------------------------------------

  /** The prefix, come as the first thing on a line and not as part of an escape sequence. */
  predicate BeginsRaw(cfg: Settings, e: Editor, c: char)
  {
    Line(e) == "" && e.escape == NoEscape && cfg.rawPrefix == Some(c) && Typed(c)
  }

  /** Where the line being typed began in all the input. */
  function LineStart(cfg: Settings, input: seq<(char, Answer)>): (i: nat)
    requires Accepted(cfg)
    ensures i <= |input|
  {
    if |input| == 0 then 0
    else if EndsLine(Run(cfg, input[..|input| - 1]).editor, input[|input| - 1].0) then |input|
    else LineStart(cfg, input[..|input| - 1])
  }

  ghost predicate BeganRawAt(cfg: Settings, input: seq<(char, Answer)>, k: nat)
    requires Accepted(cfg) && k < |input|
  {
    BeginsRaw(cfg, Run(cfg, input[..k]).editor, input[k].0)
  }

  lemma EditRaw(cfg: Settings, e: Editor, c: char)
    requires Accepted(cfg) && e.browse <= |e.history| && !EndsLine(e, c)
    ensures Edit(cfg, e, c).0.raw <==> e.raw || BeginsRaw(cfg, e, c)
  {
    hide Shown, Truncated, Times;
  }

  lemma EndedNotRaw(cfg: Settings, e: Editor, answer: Answer)
    requires Accepted(cfg)
    ensures !EndLine(cfg, e, answer).0.raw
  {
  }

  /**
   * After any input, the line being typed is raw exactly when, since it began, the prefix has come
   * while it was empty with no escape sequence under way.
   */
  lemma {:induction false} RawIff(cfg: Settings, input: seq<(char, Answer)>)
    requires Accepted(cfg)
    ensures Run(cfg, input).editor.raw <==>
              exists k :: LineStart(cfg, input) <= k < |input| && BeganRawAt(cfg, input, k)
  {
    hide Edit, EndLine, Draw, BeginsRaw, EndsLine;
    if |input| > 0 {
      var front, n := input[..|input| - 1], |input| - 1;
      var (c, answer) := input[n];
      var before := Run(cfg, front).editor;
      RawIff(cfg, front);
      forall k | 0 <= k < n ensures BeganRawAt(cfg, front, k) <==> BeganRawAt(cfg, input, k) {
        assert front[..k] == input[..k];
      }
      if EndsLine(before, c) {
        EndedNotRaw(cfg, before.(lastWasCr := c == '\r', escape := NoEscape), answer);
      } else {
        EditRaw(cfg, before, c);
        assert BeganRawAt(cfg, input, n) <==> BeginsRaw(cfg, before, c);
        if Run(cfg, front).editor.raw {
          var k :| LineStart(cfg, front) <= k < |front| && BeganRawAt(cfg, front, k);
          assert BeganRawAt(cfg, input, k);
        }
        if k :| LineStart(cfg, input) <= k < |input| && BeganRawAt(cfg, input, k) {
          if k < n {
            assert BeganRawAt(cfg, front, k);
          }
        }
      }
    }
  }

  lemma TypedKey(cfg: Settings, e: Editor, c: char)
    requires Accepted(cfg) && e.browse <= |e.history| && e.escape == NoEscape && !e.lastWasCr && Typed(c) && c != ESC
    ensures Edit(cfg, e, c) == Insert(cfg, if Line(e) == "" && cfg.rawPrefix == Some(c) then e.(raw := true) else e, c)
  {
    hide Insert;
  }

  lemma DeleteKey(cfg: Settings, e: Editor)
    requires Accepted(cfg) && e.browse <= |e.history| && e.escape == NoEscape && !e.lastWasCr
    ensures Edit(cfg, e, DELETE) == Rubout(cfg, e)
  {
    hide Rubout;
  }

  /**
   * Once a line has begun with the prefix it is not echoed or remembered again until it ends,
   * even if all of it is rubbed out and something else is typed in its place.
   */
  lemma RawOutlivesItsPrefix(cfg: Settings, prefix: char, c: char)
    requires Accepted(cfg) && cfg.echo && cfg.rawPrefix == Some(prefix) && Typed(prefix) && Typed(c) && c != prefix
    requires prefix != ESC && c != ESC
    ensures var typed := Edit(cfg, Edit(cfg, Edit(cfg, EMPTY, prefix).0, DELETE).0, c);
            typed.0.left == [c] && typed.0.right == "" && typed.0.raw && typed.1 == ""
  {
    hide Edit, Times;
    TypedKey(cfg, EMPTY, prefix);
    var a := EMPTY.(left := [prefix], raw := true);
    assert [] + [prefix] == [prefix];
    DeleteKey(cfg, a);
    var b := EMPTY.(raw := true);
    assert [prefix][..0] == "";
    TypedKey(cfg, b, c);
    assert [] + [c] == [c];
  }
}
