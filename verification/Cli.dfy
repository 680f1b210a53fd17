/**
 * The interpreter of components/cli/cli.c: one line buffer edited in place, a ring of remembered
 * lines in fixed-size slots, and tokens cut out of the buffer where it stands.
 */
module Cli {
  import opened Bytes
  import opened Characters
  import opened CliEditor
  import opened CliTokens

  /** Where slot `i` of `size` characters begins. */
  function At(size: nat, i: nat): nat
  {
    i * size
  }

  /** Slot `i` of the history buffer holds `text` as a terminated string. */
  predicate SlotHolds(buffer: seq<char>, size: nat, i: nat, text: string)
  {
    && At(size, i) + size <= |buffer| && |text| < size
    && buffer[At(size, i)..At(size, i) + |text|] == text && buffer[At(size, i) + |text|] == NUL
  }

  /** The slot of the line entered `k` lines ago, the newest being 0. */
  function SlotOf(head: nat, depth: nat, k: nat): (i: nat)
    requires head < depth && k < depth
    ensures i < depth
  {
    if k < head then head - 1 - k else head + depth - 1 - k
  }

  ghost predicate RingHolds(buffer: seq<char>, size: nat, depth: nat, head: nat, lines: seq<string>)
    requires |lines| <= depth && (depth > 0 ==> head < depth)
  {
    forall k :: 0 <= k < |lines| ==> SlotHolds(buffer, size, SlotOf(head, depth, k), lines[k])
  }

  lemma {:induction false} SlotsApart(size: nat, i: nat, j: nat)
    requires i < j
    ensures At(size, i) + size <= At(size, j)
    decreases j
  {
    if i < j - 1 {
      SlotsApart(size, i, j - 1);
    }
  }

  lemma SlotFits(size: nat, depth: nat, i: nat)
    requires i < depth
    ensures At(size, i) + size <= At(size, depth)
  {
    if i + 1 < depth {
      SlotsApart(size, i, depth - 1);
      SlotsApart(size, depth - 1, depth);
    }
  }

  /** Writing one slot leaves the others holding what they held. */
  lemma OtherSlotHolds(buffer: seq<char>, after: seq<char>, size: nat, i: nat, j: nat, text: string)
    requires i != j && SlotHolds(buffer, size, j, text) && |after| == |buffer|
    requires forall at :: 0 <= at < |buffer| && !(At(size, i) <= at < At(size, i) + size) ==> after[at] == buffer[at]
    ensures SlotHolds(after, size, j, text)
  {
    if i < j {
      SlotsApart(size, i, j);
    } else {
      SlotsApart(size, j, i);
    }
  }

  /** Stepping the head on makes every remembered line one older, and drops the oldest of a full ring. */
  lemma RingPushed(buffer: seq<char>, after: seq<char>, size: nat, depth: nat, head: nat, lines: seq<string>, text: string)
    requires head < depth && |lines| <= depth && RingHolds(buffer, size, depth, head, lines)
    requires |after| == |buffer| && SlotHolds(after, size, head, text)
    requires forall at :: 0 <= at < |buffer| && !(At(size, head) <= at < At(size, head) + size) ==> after[at] == buffer[at]
    ensures var all := [text] + lines;
            RingHolds(after, size, depth, if head + 1 == depth then 0 else head + 1,
                      if |all| > depth then all[..depth] else all)
  {
    hide SlotHolds, At;
    var all := [text] + lines;
    var kept := if |all| > depth then all[..depth] else all;
    var next := if head + 1 == depth then 0 else head + 1;
    forall k | 0 <= k < |kept| ensures SlotHolds(after, size, SlotOf(next, depth, k), kept[k]) {
      if k > 0 {
        assert SlotOf(next, depth, k) == SlotOf(head, depth, k - 1);
        OtherSlotHolds(buffer, after, size, head, SlotOf(head, depth, k - 1), lines[k - 1]);
      }
    }
  }

  class Cli {
    const cfg: Settings
    const line: array<char>
    const historyBuffer: array<char>
    var lineLen: nat
    var parsePos: nat
    var editCursor: nat
    var overflow: bool
    var lastWasCr: bool
    var escape: Escape
    var raw: bool
    var historyHead: nat
    var historyCount: nat
    var historyCursor: nat
    /** Everything written to the stream. */
    var output: string
    ghost var remembered: seq<string>
    /** Every line offered to the filter and the commands. */
    ghost var handedOn: seq<string>

    ghost predicate Valid()
      reads this, line, historyBuffer
    {
      && Accepted(cfg) && line.Length == cfg.lineSize && line != historyBuffer
      && editCursor <= lineLen < cfg.lineSize
      && |remembered| == historyCount <= cfg.depth && historyCursor <= historyCount
      && At(cfg.entrySize, cfg.depth) <= historyBuffer.Length
      && (cfg.depth > 0 ==> historyHead < cfg.depth)
      && RingHolds(historyBuffer[..], cfg.entrySize, cfg.depth, historyHead, remembered)
      && Sane(cfg, Abs())
    }

    ghost function Abs(): Editor
      reads this, line
      requires editCursor <= lineLen <= line.Length
    {
      Editor(line[..editCursor], line[editCursor..lineLen], raw, overflow, escape, lastWasCr, remembered, historyCursor)
    }

    /** cli_init with a configuration it accepts. */
    constructor (cfg: Settings)
      requires cfg.lineSize >= 2 && (cfg.depth > 0 ==> cfg.entrySize >= 2 && cfg.echo)
      ensures Valid() && this.cfg == cfg && Abs() == EMPTY && output == ""
      ensures fresh(line) && fresh(historyBuffer) && handedOn == []
    {
      this.cfg := cfg;
      line := new char[cfg.lineSize](_ => NUL);
      historyBuffer := new char[At(cfg.entrySize, cfg.depth)](_ => NUL);
      lineLen, parsePos, editCursor := 0, 0, 0;
      overflow, lastWasCr, escape, raw := false, false, NoEscape, false;
      historyHead, historyCount, historyCursor := 0, 0, 0;
      output, remembered, handedOn := "", [], [];
    }

    method Write(text: string)
      modifies this`output
      ensures output == old(output) + text
    {
      output := output + text;
    }

    method WriteTimes(n: nat, text: string)
      modifies this`output
      ensures output == old(output) + Times(n, text)
    {
      for i := 0 to n
        invariant output == old(output) + Times(i, text)
      {
        Write(text);
      }
    }

    predicate ShouldEcho()
      reads this
    {
      cfg.echo && !raw
    }

    /** Both halves of the line as the buffer holds them. */
    ghost predicate Holds(left: string, right: string)
      reads this, line
    {
      editCursor <= lineLen <= line.Length && line[..editCursor] == left && line[editCursor..lineLen] == right
    }

    /** An edit that left the remembered lines alone. */
    twostate lemma Edited(e: Editor)
      requires old(Valid()) && unchanged(historyBuffer)
      requires historyHead == old(historyHead) && historyCount == old(historyCount) && remembered == old(remembered)
      requires Holds(e.left, e.right) && e == Editor(e.left, e.right, raw, overflow, escape, lastWasCr, remembered, historyCursor)
      requires Sane(cfg, e)
      ensures Valid() && Abs() == e
    {
      hide RingHolds, SaneHistory, AllTyped;
      assert historyBuffer[..] == old(historyBuffer[..]);
      assert |line[..editCursor]| == editCursor && |line[editCursor..lineLen]| == lineLen - editCursor;
    }

    method DeleteLeft()
      requires 0 < editCursor <= lineLen < line.Length
      modifies this`lineLen, this`editCursor, line
      ensures Holds(old(line[..editCursor - 1]), old(line[editCursor..lineLen]))
      ensures lineLen == old(lineLen) - 1 && editCursor == old(editCursor) - 1
    {
      var tail := lineLen - editCursor;
      forall i | 0 <= i < tail {
        line[editCursor - 1 + i] := line[editCursor + i];
      }
      lineLen := lineLen - 1;
      editCursor := editCursor - 1;
      line[lineLen] := NUL;
    }

    method HandleBackspace()
      requires Valid()
      modifies this`lineLen, this`editCursor, this`output, line
      ensures Valid() && Abs() == Rubout(cfg, old(Abs())).0
      ensures output == old(output) + Rubout(cfg, old(Abs())).1
    {
      hide Times, RingHolds, AllTyped, SaneHistory, InStep, At;
      if editCursor == 0 {
        return;
      }
      ghost var e := Abs();
      RuboutInStep(cfg, e);
      InStepSane(cfg, e, Rubout(cfg, e));
      DeleteLeft();
      EchoRubout(e.right);
      Edited(Rubout(cfg, e).0);
    }

    method EchoRubout(ghost right: string)
      requires editCursor <= lineLen <= line.Length && right == line[editCursor..lineLen]
      modifies this`output
      ensures output == old(output) + if cfg.echo && !raw then BACK + right + " " + Times(|right| + 1, BACK) else ""
    {
      hide Times;
      if ShouldEcho() {
        Write(BACK);
        if lineLen > editCursor {
          Write(line[editCursor..lineLen]);
        }
        Write(" ");
        WriteTimes(lineLen - editCursor + 1, BACK);
        InOneGo(old(output), BACK, right, " ", Times(|right| + 1, BACK));
      }
    }

    method CursorLeft()
      requires Valid()
      modifies this`editCursor, this`output
      ensures Valid() && Abs() == Left(cfg, old(Abs())).0
      ensures output == old(output) + Left(cfg, old(Abs())).1
    {
      hide RingHolds, SaneHistory, AllTyped, InStep, At;
      if editCursor == 0 {
        return;
      }
      ghost var e := Abs();
      LeftInStep(cfg, e);
      InStepSane(cfg, e, Left(cfg, e));
      editCursor := editCursor - 1;
      if ShouldEcho() {
        Write(BACK);
      }
      FirstApart(line[..], editCursor, lineLen);
      Edited(Left(cfg, e).0);
    }

    method CursorRight()
      requires Valid()
      modifies this`editCursor, this`output
      ensures Valid() && Abs() == Right(cfg, old(Abs())).0
      ensures output == old(output) + Right(cfg, old(Abs())).1
    {
      hide RingHolds, SaneHistory, AllTyped, InStep, At;
      if editCursor >= lineLen {
        return;
      }
      ghost var e := Abs();
      RightInStep(cfg, e);
      InStepSane(cfg, e, Right(cfg, e));
      if ShouldEcho() {
        Write([line[editCursor]]);
      }
      editCursor := editCursor + 1;
      LastApart(line[..], editCursor);
      FirstApart(line[..], editCursor - 1, lineLen);
      Edited(Right(cfg, e).0);
    }

    /** A place opened for `c`, seen as the halves of the line on either side of the cursor. */
    static lemma Opened(was: string, now: string, cursor: nat, length: nat, c: char)
      requires cursor <= length < |was| == |now| && now[..cursor] == was[..cursor] && now[cursor] == c
      requires forall i :: cursor <= i < length ==> now[i + 1] == was[i]
      ensures now[..cursor + 1] == was[..cursor] + [c] && now[cursor + 1..length + 1] == was[cursor..length]
    {
    }

    method PutIn(c: char)
      requires editCursor <= lineLen < line.Length - 1
      modifies this`lineLen, this`editCursor, line
      ensures Holds(old(line[..editCursor]) + [c], old(line[editCursor..lineLen]))
      ensures lineLen == old(lineLen) + 1 && editCursor == old(editCursor) + 1
    {
      var tail := lineLen - editCursor;
      forall i | 0 <= i < tail {
        line[editCursor + 1 + i] := line[editCursor + i];
      }
      line[editCursor] := c;
      lineLen := lineLen + 1;
      editCursor := editCursor + 1;
      Opened(old(line[..]), line[..], old(editCursor), old(lineLen), c);
    }

    method InsertCharAtCursor(c: char)
      requires Valid() && Typed(c)
      modifies this`lineLen, this`editCursor, this`overflow, this`output, line
      ensures Valid() && Abs() == Insert(cfg, old(Abs()), c).0
      ensures output == old(output) + Insert(cfg, old(Abs()), c).1
    {
      hide Times, RingHolds, AllTyped, SaneHistory, InStep, At;
      ghost var e := Abs();
      InsertInStep(cfg, e, c);
      InStepSane(cfg, e, Insert(cfg, e, c));
      if lineLen + 1 >= cfg.lineSize {
        overflow := true;
        Edited(Insert(cfg, e, c).0);
        return;
      }
      PutIn(c);
      if ShouldEcho() {
        Write([c] + line[editCursor..lineLen]);
        WriteTimes(lineLen - editCursor, BACK);
        assert output == old(output) + ([c] + e.right + Times(|e.right|, BACK));
      }
      Edited(Insert(cfg, e, c).0);
    }

    /** Copy the line into the slot the head points at. */
    method StoreEntry(at: nat, length: nat)
      requires line != historyBuffer && length < cfg.entrySize && length <= line.Length
      requires at + cfg.entrySize <= historyBuffer.Length
      modifies historyBuffer
      ensures historyBuffer[..] == Stored(old(historyBuffer[..]), at, line[..length])
    {
      forall i | 0 <= i < length {
        historyBuffer[at + i] := line[i];
      }
      historyBuffer[at + length] := NUL;
    }

    method HistoryPush()
      requires Valid()
      modifies this`historyHead, this`historyCount, this`remembered, historyBuffer
      ensures Valid() && Abs() == old(Abs()).(history := Remember(cfg, old(remembered), Line(old(Abs()))))
    {
      hide AllTyped, RingHolds, SlotHolds, Remember, Truncated, SaneHistory, At;
      if cfg.depth == 0 {
        NothingRemembered(cfg, remembered, Line(Abs()));
        return;
      }
      ghost var line := Line(Abs());
      WholeTyped(Abs().left, Abs().right);
      RememberSane(cfg, remembered, line);
      PushEntry();
      NextSlot(historyHead, cfg.depth);
      historyHead := (historyHead + 1) % cfg.depth;
      remembered := Remember(cfg, remembered, line);
      if historyCount < cfg.depth {
        historyCount := historyCount + 1;
      }
    }

    method PushEntry()
      requires Valid() && cfg.depth > 0
      modifies historyBuffer
      ensures unchanged(line)
      ensures var kept := Remember(cfg, remembered, Line(Abs()));
              |kept| == (if historyCount < cfg.depth then historyCount + 1 else historyCount) &&
              RingHolds(historyBuffer[..], cfg.entrySize, cfg.depth,
                        if historyHead + 1 == cfg.depth then 0 else historyHead + 1, kept)
    {
      hide AllTyped, RingHolds, SlotHolds, Remember, Truncated, SaneHistory, Stored, Sane, SlotOf, At;
      ghost var e, was := Abs(), historyBuffer[..];
      var length := lineLen;
      if length >= cfg.entrySize {
        length := cfg.entrySize - 1;
      }
      SlotFits(cfg.entrySize, cfg.depth, historyHead);
      var at := At(cfg.entrySize, historyHead);
      LineKept(e, length);
      RememberedInRing(cfg, was, Stored(was, at, line[..length]), historyHead, at, remembered, Line(e), length);
      StoreEntry(at, length);
    }

    lemma LineKept(e: Editor, length: nat)
      requires editCursor <= lineLen <= line.Length && e == Abs() && length <= lineLen
      ensures line[..length] == Line(e)[..length] && |Line(e)| == lineLen
    {
    }

    /** The string in a slot, up to its terminator. */
    method ReadEntry(slot: nat, ghost text: string) returns (entry: string)
      requires SlotHolds(historyBuffer[..], cfg.entrySize, slot, text) && AllTyped(text)
      ensures entry == text
    {
      var at, length := At(cfg.entrySize, slot), 0;
      ghost var held := historyBuffer[..][at..at + |text|];
      while historyBuffer[at + length] != NUL
        invariant 0 <= length <= |text|
        decreases |text| - length
      {
        assert length < |text|;
        length := length + 1;
      }
      return historyBuffer[at..at + length];
    }

    method CopyIn(text: string)
      requires |text| < line.Length
      modifies line, this`lineLen, this`editCursor
      ensures Holds(text, "")
    {
      forall i | 0 <= i < |text| {
        line[i] := text[i];
      }
      line[|text|] := NUL;
      lineLen := |text|;
      editCursor := |text|;
    }

    method ReplaceLine(text: string)
      requires Valid() && AllTyped(text)
      modifies this`lineLen, this`editCursor, this`output, line
      ensures Valid() && Abs() == Replace(cfg, old(Abs()), text).0
      ensures output == old(output) + Replace(cfg, old(Abs()), text).1
    {
      hide Times, RingHolds, AllTyped, SaneHistory, InStep, At;
      ghost var e := Abs();
      ReplaceInStep(cfg, e, text);
      InStepSane(cfg, e, Replace(cfg, e, text));
      var length := |text|;
      if length >= cfg.lineSize {
        length := cfg.lineSize - 1;
      }
      EchoReplacement(e, text[..length]);
      CopyIn(text[..length]);
      Edited(Replace(cfg, e, text).0);
    }

    method EchoReplacement(ghost e: Editor, text: string)
      requires editCursor <= lineLen <= line.Length && e == Abs()
      modifies this`output
      ensures output == old(output) + Shown(cfg, e, e.right + Times(|Line(e)|, WIPE) + text)
    {
      hide Times;
      if ShouldEcho() {
        if editCursor < lineLen {
          Write(line[editCursor..lineLen]);
        }
        WriteTimes(lineLen, WIPE);
        Write(text);
        InOneGo(old(output), e.right, Times(lineLen, WIPE), text, "");
      }
    }

    method HistoryRecall(older: bool)
      requires Valid()
      modifies this`lineLen, this`editCursor, this`historyCursor, this`output, line
      ensures Valid() && Abs() == Recall(cfg, old(Abs()), older).0
      ensures output == old(output) + Recall(cfg, old(Abs()), older).1
    {
      hide RingHolds, AllTyped, InStep, Replace, SlotHolds, At;
      if cfg.depth == 0 || historyCount == 0 {
        return;
      }
      var cursor;
      if older {
        if historyCursor >= historyCount {
          return;
        }
        cursor := historyCursor + 1;
      } else {
        if historyCursor == 0 {
          return;
        }
        cursor := historyCursor - 1;
      }
      ghost var e := Abs();
      if cursor == 0 {
        NothingTyped();
        ReplaceLine("");
      } else {
        RecalledSlot(historyHead, cfg.depth, cursor);
        var slot := (historyHead + cfg.depth - cursor) % cfg.depth;
        RingSlot(historyBuffer[..], cfg.entrySize, cfg.depth, historyHead, remembered, cursor - 1);
        var entry := ReadEntry(slot, remembered[cursor - 1]);
        ReplaceLine(entry);
      }
      ReplaceKeeps(cfg, e, if cursor == 0 then "" else remembered[cursor - 1]);
      historyCursor := cursor;
    }

    // ---- arguments -----------------------------------------------------------------

    /** A terminated line with some of it still to be read. */
    ghost predicate Reading()
      reads this, line
    {
      parsePos <= lineLen < line.Length && line[lineLen] == NUL
    }

    ghost function Rest(): string
      reads this, line
      requires parsePos <= lineLen <= line.Length
    {
      line[parsePos..lineLen]
    }

    method SkipSeparators()
      requires Reading()
      modifies this`parsePos
      ensures Reading() && old(parsePos) <= parsePos && Rest() == Skipped(old(Rest()))
    {
      hide IsSeparator, Skipped;
      ghost var text := line[..];
      while parsePos < lineLen && IsSeparator(line[parsePos])
        invariant old(parsePos) <= parsePos <= lineLen
        invariant Skipped(text[parsePos..lineLen]) == Skipped(text[old(parsePos)..lineLen])
      {
        FirstApart(text, parsePos, lineLen);
        SkipOne(text[parsePos..lineLen]);
        parsePos := parsePos + 1;
      }
      if parsePos < lineLen {
        SkipNone(text[parsePos..lineLen]);
      }
    }

    /** A token stands in the buffer, terminated, and `rest` is still to be read. */
    ghost predicate CutOut(start: nat, token: string, rest: string)
      reads this, line
      requires Reading()
    {
      && start + |token| <= lineLen
      && line[start..start + |token|] == token && line[start + |token|] == NUL
      && Rest() == rest
    }

    /** cli_next_token: the token stands in the buffer, terminated; the rest waits behind it. */
    method NextToken() returns (start: Option<nat>)
      requires Reading()
      modifies this`parsePos, line
      ensures Reading() && old(parsePos) <= parsePos
      ensures NextOf(old(Rest())).Some? <==> start.Some?
      ensures start.Some? ==>
                CutOut(start.value, NextOf(old(Rest())).value.0, NextOf(old(Rest())).value.1)
      ensures start == None ==> Rest() == "" && line[..] == old(line[..])
    {
      hide IsSeparator, Skipped, TokenLength, NextOf, CutOut;
      NextOfParts(Rest());
      SkipSeparators();
      if parsePos >= lineLen {
        return None;
      }
      start := Some(parsePos);
      ghost var t := Rest();
      ScanToken(t);
      CutHere(start.value, t, TokenLength(t));
    }

    method CutHere(ghost at: nat, ghost t: string, ghost n: nat)
      requires at + |t| == lineLen < line.Length && t == line[at..lineLen] && n <= |t| && parsePos == at + n
      requires line[lineLen] == NUL
      modifies this`parsePos, line
      ensures Reading() && old(parsePos) <= parsePos
      ensures CutOut(at, t[..n], if n < |t| then t[n + 1..] else "")
    {
      if parsePos < lineLen {
        line[parsePos] := NUL;
        parsePos := parsePos + 1;
        assert line[parsePos..lineLen] == t[n + 1..];
      }
    }

    method ScanToken(ghost t: string)
      requires parsePos <= lineLen < line.Length && t == line[parsePos..lineLen]
      modifies this`parsePos
      ensures parsePos == old(parsePos) + TokenLength(t) <= lineLen
    {
      hide IsSeparator, TokenLength;
      ghost var from := parsePos;
      while parsePos < lineLen && !IsSeparator(line[parsePos])
        invariant from <= parsePos <= lineLen
        invariant parsePos + TokenLength(t[parsePos - from..]) == from + TokenLength(t)
      {
        TokenOne(t, parsePos - from);
        parsePos := parsePos + 1;
      }
      TokenNone(t[parsePos - from..]);
    }

    // ---- whole characters -----------------------------------------------------------

    /** Offer the line to the filter and then the commands; `answer` is what they make of it. */
    method ExecuteLine(answer: Answer) returns (filtered: bool)
      requires lineLen < line.Length
      modifies this`parsePos, this`output, this`handedOn, line
      ensures BlankLine(old(line[..lineLen])) ==> !filtered && output == old(output) && handedOn == old(handedOn)
      ensures !BlankLine(old(line[..lineLen])) ==>
                filtered == answer.claimed && output == old(output) + answer.text &&
                handedOn == old(handedOn) + [old(line[..lineLen])]
    {
      hide BlankLine, Skipped, NextOf, CutOut, TokenLength, IsSeparator;
      ghost var text := line[..lineLen];
      line[lineLen] := NUL;
      parsePos := 0;
      assert Rest() == text;
      SkippedBlank(text);
      SkipSeparators();
      if parsePos >= lineLen {
        return false;
      }
      parsePos := 0;
      handedOn := handedOn + [line[..lineLen]];
      Write(answer.text);
      if answer.claimed {
        return true;
      }
      var name := NextToken();
      return false;
    }

    /** cli_reset_line */
    method ResetLine()
      requires 0 < line.Length
      modifies this`lineLen, this`parsePos, this`editCursor, this`overflow, this`raw, this`escape, this`historyCursor, line
      ensures lineLen == editCursor == historyCursor == 0 && !overflow && !raw && escape == NoEscape
    {
      lineLen, parsePos, editCursor, historyCursor := 0, 0, 0, 0;
      overflow, raw, escape := false, false, NoEscape;
      line[0] := NUL;
    }

    method HandleEndOfLine(answer: Answer)
      requires Valid()
      modifies this`lineLen, this`parsePos, this`editCursor, this`overflow, this`raw, this`escape, this`historyCursor,
               this`historyHead, this`historyCount, this`remembered, this`output, this`handedOn, line, historyBuffer
      ensures Valid() && Abs() == EndLine(cfg, old(Abs()), answer).0
      ensures output == old(output) + EndLine(cfg, old(Abs()), answer).1
      ensures handedOn == old(handedOn) + if Dispatches(old(Abs())) then [Line(old(Abs()))] else []
    {
      hide RingHolds, AllTyped, SaneHistory, At, Remember, Dispatches, Reply, Shown, CliEditor.Kept, Sane, Line;
      ghost var e, quiet := Abs(), Dispatches(Abs()) && answer.claimed;
      EchoEnd();
      KeepLine();
      SameReply(e, Abs(), answer);
      Finish(answer);
      InOneGo(old(output), Shown(cfg, e, "\r\n"), Reply(e, answer), if quiet then "" else cfg.prompt, "");
    }

    method EchoEnd()
      requires Valid()
      modifies this`output
      ensures Valid() && Abs() == old(Abs()) && output == old(output) + Shown(cfg, old(Abs()), "\r\n")
    {
      hide RingHolds, AllTyped, SaneHistory, At;
      if ShouldEcho() {
        Write("\r\n");
        Edited(old(Abs()));
      }
    }

    method Finish(answer: Answer)
      requires Valid()
      modifies this`lineLen, this`parsePos, this`editCursor, this`overflow, this`raw, this`escape, this`historyCursor,
               this`output, this`handedOn, line
      ensures Valid() && Abs() == Reset(old(Abs()))
      ensures output == old(output) + Reply(old(Abs()), answer) +
                        if Dispatches(old(Abs())) && answer.claimed then "" else cfg.prompt
      ensures handedOn == old(handedOn) + if Dispatches(old(Abs())) then [Line(old(Abs()))] else []
    {
      hide RingHolds, AllTyped, SaneHistory, At, Dispatches, Reply;
      ghost var e := Abs();
      WholeLine();
      var filtered := RunLine(e, answer);
      ResetLine();
      if !filtered {
        Write(cfg.prompt);
      }
      NothingHeld();
      NothingTyped();
      Edited(Reset(e));
    }

    lemma SameReply(e: Editor, f: Editor, answer: Answer)
      requires e.left == f.left && e.right == f.right && e.overflow == f.overflow
      ensures Reply(e, answer) == Reply(f, answer) && Dispatches(e) == Dispatches(f) && Line(e) == Line(f)
    {
    }

    lemma NothingHeld()
      requires lineLen == editCursor == 0
      ensures Holds("", "")
    {
    }

    method KeepLine()
      requires Valid()
      modifies this`historyHead, this`historyCount, this`remembered, historyBuffer
      ensures Valid() && Abs() == old(Abs()).(history := CliEditor.Kept(cfg, old(Abs())))
    {
      hide RingHolds, AllTyped, SaneHistory, At, Remember;
      WholeLine();
      if !overflow && lineLen > 0 && !raw {
        HistoryPush();
      }
    }

    method RunLine(ghost e: Editor, answer: Answer) returns (filtered: bool)
      requires lineLen < line.Length && Line(e) == line[..lineLen] && e.overflow == overflow
      modifies this`parsePos, this`output, this`handedOn, line
      ensures output == old(output) + Reply(e, answer) && (filtered <==> Dispatches(e) && answer.claimed)
      ensures handedOn == old(handedOn) + if Dispatches(e) then [Line(e)] else []
    {
      hide BlankLine, Line;
      NothingBlank();
      filtered := false;
      if overflow {
        Write("line too long\r\n");
      } else if lineLen > 0 {
        filtered := ExecuteLine(answer);
      }
    }

    lemma WholeLine()
      requires editCursor <= lineLen <= line.Length
      ensures line[..lineLen] == Line(Abs())
    {
    }

    method HandleEscapeLetter(c: char)
      requires Valid()
      modifies this`lineLen, this`editCursor, this`historyCursor, this`output, line
      ensures Valid() && Abs() == Letter(cfg, old(Abs()), c).0
      ensures output == old(output) + Letter(cfg, old(Abs()), c).1
    {
      hide RingHolds, AllTyped, SaneHistory, At, Left, Right, Recall, Sane;
      match c
      case 'D' => CursorLeft();
      case 'C' => CursorRight();
      case 'A' => HistoryRecall(true);
      case 'B' => HistoryRecall(false);
      case _ =>
    }

    /** cli_feed_char; `answer` is what the rest of the firmware makes of a line this ends. */
    method FeedChar(c: char, answer: Answer)
      requires Valid()
      modifies this, line, historyBuffer
      ensures Valid() && Abs() == Feed(cfg, old(Abs()), c, answer).0
      ensures output == old(output) + Feed(cfg, old(Abs()), c, answer).1
      ensures handedOn == old(handedOn) +
                if EndsLine(old(Abs()), c) && Dispatches(old(Abs())) then [Line(old(Abs()))] else []
    {
      hide RingHolds, AllTyped, SaneHistory, At, EndLine, Dispatches, Letter, Rubout, Insert;
      ghost var e := Abs();
      if c == '\n' && lastWasCr {
        lastWasCr := false;
        Edited(e.(lastWasCr := false));
        return;
      }
      if c == '\r' || c == '\n' {
        lastWasCr := c == '\r';
        escape := NoEscape;
        Edited(e.(lastWasCr := lastWasCr, escape := NoEscape));
        SameReply(e, Abs(), answer);
        HandleEndOfLine(answer);
        return;
      }
      FeedInLine(c);
    }

    method FeedInLine(c: char)
      requires Valid() && !EndsLine(Abs(), c) && c != '\n'
      modifies this`lineLen, this`editCursor, this`lastWasCr, this`escape, this`raw, this`overflow, this`historyCursor,
               this`output, line
      ensures Valid() && Abs() == Edit(cfg, old(Abs()), c).0
      ensures output == old(output) + Edit(cfg, old(Abs()), c).1
    {
      hide RingHolds, AllTyped, SaneHistory, At, Letter, Rubout, Insert;
      ghost var e := Abs();
      lastWasCr := false;
      Edited(e.(lastWasCr := false));
      if escape == GotBracket {
        escape := NoEscape;
        Edited(e.(lastWasCr := false, escape := NoEscape));
        HandleEscapeLetter(c);
      } else if escape == GotEscape {
        escape := if c == '[' then GotBracket else NoEscape;
        Edited(e.(lastWasCr := false, escape := escape));
      } else if c == ESC {
        escape := GotEscape;
        Edited(e.(lastWasCr := false, escape := GotEscape));
      } else if c == BACKSPACE || c == DELETE {
        HandleBackspace();
      } else if c >= ' ' {
        if lineLen == 0 && cfg.rawPrefix == Some(c) {
          raw := true;
          Edited(e.(lastWasCr := false, raw := true));
        }
        InsertCharAtCursor(c);
      }
    }
  }

  lemma NothingRemembered(cfg: Settings, history: seq<string>, line: string)
    requires cfg.depth == 0
    ensures Remember(cfg, history, line) == history
  {
  }

  lemma RememberedInRing(cfg: Settings, buffer: seq<char>, after: seq<char>, head: nat, at: nat, lines: seq<string>, line: string, length: nat)
    requires Accepted(cfg) && head < cfg.depth && |lines| <= cfg.depth && |after| == |buffer|
    requires RingHolds(buffer, cfg.entrySize, cfg.depth, head, lines)
    requires length == if |line| >= cfg.entrySize then cfg.entrySize - 1 else |line|
    requires at == At(cfg.entrySize, head) && at + cfg.entrySize <= |buffer|
    requires after == Stored(buffer, at, line[..length])
    ensures var kept := Remember(cfg, lines, line);
            |kept| == (if |lines| < cfg.depth then |lines| + 1 else |lines|) &&
            RingHolds(after, cfg.entrySize, cfg.depth, if head + 1 == cfg.depth then 0 else head + 1, kept)
  {
    hide RingHolds, SlotHolds, At, Stored;
    var text := Truncated(line, cfg.entrySize);
    assert text == line[..length];
    SlotStored(buffer, cfg.entrySize, head, text);
    RingPushed(buffer, after, cfg.entrySize, cfg.depth, head, lines, text);
  }

  lemma FirstApart(s: string, i: nat, n: nat)
    requires i < n <= |s|
    ensures s[i..n] == [s[i]] + s[i + 1..n]
  {
  }

  lemma LastApart(s: string, i: nat)
    requires 0 < i <= |s|
    ensures s[..i] == s[..i - 1] + [s[i - 1]]
  {
  }

  lemma TokenOne(t: string, i: nat)
    requires i < |t| && !IsSeparator(t[i])
    ensures TokenLength(t[i..]) == 1 + TokenLength(t[i + 1..])
  {
    assert t[i..][1..] == t[i + 1..];
  }

  lemma TokenNone(t: string)
    requires |t| == 0 || IsSeparator(t[0])
    ensures TokenLength(t) == 0
  {
  }

  lemma SkipOne(s: string)
    requires |s| > 0 && IsSeparator(s[0])
    ensures Skipped(s) == Skipped(s[1..])
  {
  }

  lemma SkipNone(s: string)
    requires |s| > 0 && !IsSeparator(s[0])
    ensures Skipped(s) == s
  {
  }

  lemma NothingTyped()
    ensures AllTyped("")
  {
  }

  lemma WholeTyped(left: string, right: string)
    requires AllTyped(left) && AllTyped(right)
    ensures AllTyped(left + right)
  {
  }

  /** A buffer with a terminated string written into it. */
  function Stored(buffer: seq<char>, at: nat, text: string): (after: seq<char>)
    requires at + |text| < |buffer|
    ensures |after| == |buffer|
  {
    buffer[..at] + text + [NUL] + buffer[at + |text| + 1..]
  }

  lemma SlotStored(buffer: seq<char>, size: nat, i: nat, text: string)
    requires At(size, i) + size <= |buffer| && |text| < size
    ensures var after := Stored(buffer, At(size, i), text);
            SlotHolds(after, size, i, text) &&
            forall at :: 0 <= at < |buffer| && !(At(size, i) <= at < At(size, i) + size) ==> after[at] == buffer[at]
  {
  }

  lemma RingSlot(buffer: seq<char>, size: nat, depth: nat, head: nat, lines: seq<string>, k: nat)
    requires 0 < |lines| <= depth && head < depth && RingHolds(buffer, size, depth, head, lines) && k < |lines|
    ensures SlotHolds(buffer, size, SlotOf(head, depth, k), lines[k])
  {
  }

  lemma NextSlot(head: nat, depth: nat)
    requires head < depth
    ensures (head + 1) % depth == if head + 1 == depth then 0 else head + 1
  {
    if head + 1 < depth {
      SmallMod(head + 1, depth);
    }
  }

  lemma RecalledSlot(head: nat, depth: nat, cursor: nat)
    requires head < depth && 0 < cursor <= depth
    ensures (head + depth - cursor) % depth == SlotOf(head, depth, cursor - 1)
  {
    if cursor <= head {
      AddedMod(head - cursor, depth);
    } else {
      SmallMod(head + depth - cursor, depth);
    }
  }

  lemma SmallMod(n: nat, d: nat)
    requires n < d
    ensures n % d == n
  {
  }

  lemma AddedMod(n: nat, d: nat)
    requires n < d
    ensures (n + d) % d == n
  {
  }

  lemma InOneGo(start: string, a: string, b: string, c: string, d: string)
    ensures start + a + b + c + d == start + (a + b + c + d)
  {
  }
}
