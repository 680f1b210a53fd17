/**
 * The state of the light and of its range, published in three messages that the broker may take
 * or refuse one at a time (apps/home_led/net.c), while both go on changing.
 */
module Publication {
  import opened Bytes

  /** What the three state topics carry, or last carried. */
  datatype Topics = Topics(state: Option<string>, first: Option<string>, last: Option<string>)

  /**
   * The edits count every change and never wrap; the generations the code compares are what is
   * left of them in 32 bits.
   */
  datatype Node = Node(
    connected: bool,
    lightEdits: nat, light: string,
    rangeEdits: nat, first: string, last: string,
    pending: bool, step: nat, takenLight: nat, takenRange: nat,
    publishedLight: nat, publishedRange: nat,
    announcing: bool, announceStep: nat,
    topics: Topics,
    cycled: bool)          // some cycle of three has been completed

  datatype Event =
    | LightChanged(payload: string)
    | RangeChanged(first: string, last: string)
    | Connected              // a session begins, and with it an announcement
    | Disconnected
    | Announce               // asked for at the console
    | PublishState           // the main loop has noticed a change
    | PollAnnouncement(accepted: bool)
    | PollState(accepted: bool)

  function Generation(edits: nat): nat
  {
    U32(1 + edits)
  }

  /** Settings restored at start-up count as published, though nothing has been. */
  function Booted(light: string, first: string, last: string): Node
  {
    Node(false, 0, light, 0, first, last, false, 0, 0, 0, 0, 0, false, 0, Topics(None, None, None), false)
  }

  function StartCycle(n: Node): Node
  {
    if !n.connected || n.pending then n
    else n.(takenLight := n.lightEdits, takenRange := n.rangeEdits, step := 0, pending := true)
  }

  function PollCycle(n: Node, accepted: bool): Node
  {
    if !n.pending || !n.connected then n
    else if n.step >= 3 then
      n.(publishedLight := n.takenLight, publishedRange := n.takenRange, pending := false, cycled := true)
    else if !accepted then n
    else if n.step == 0 then n.(topics := n.topics.(state := Some(n.light)), step := 1)
    else if n.step == 1 then n.(topics := n.topics.(first := Some(n.first)), step := 2)
    else n.(topics := n.topics.(last := Some(n.last)), step := 3)
  }

  function Announced(n: Node): Node
  {
    n.(announceStep := 0, announcing := true, pending := false)
  }

  /** Four documents, then a cycle of the state, then the wait for it. */
  function PollAnnounced(n: Node, accepted: bool): Node
  {
    if !n.announcing || !n.connected then n
    else if n.announceStep < 4 then if accepted then n.(announceStep := n.announceStep + 1) else n
    else if n.announceStep == 4 then
      var m := StartCycle(n);
      if m.pending then m.(announceStep := 5) else m
    else if !n.pending then n.(announcing := false)
    else n
  }

  function Next(n: Node, event: Event): Node
  {
    match event
    case LightChanged(payload) => n.(lightEdits := n.lightEdits + 1, light := payload)
    case RangeChanged(first, last) => n.(rangeEdits := n.rangeEdits + 1, first := first, last := last)
    case Connected => Announced(n.(connected := true))
    case Disconnected => n.(connected := false)
    case Announce => Announced(n)
    case PublishState => StartCycle(n)
    case PollAnnouncement(accepted) => PollAnnounced(n, accepted)
    case PollState(accepted) => PollCycle(n, accepted)
  }

  function Run(n: Node, events: seq<Event>): Node
  {
    if |events| == 0 then n else Next(Run(n, events[..|events| - 1]), events[|events| - 1])
  }

  // ---- what every run keeps --------------------------------------------------------------------

  /** Unless the light has changed since `edits`, its topic carries what it is. */
  predicate LightCurrentSince(n: Node, edits: nat)
  {
    edits <= n.lightEdits && (edits == n.lightEdits ==> n.topics.state == Some(n.light))
  }

  predicate FirstCurrentSince(n: Node, edits: nat)
  {
    edits <= n.rangeEdits && (edits == n.rangeEdits ==> n.topics.first == Some(n.first))
  }

  predicate LastCurrentSince(n: Node, edits: nat)
  {
    edits <= n.rangeEdits && (edits == n.rangeEdits ==> n.topics.last == Some(n.last))
  }

  predicate Inv(n: Node)
  {
    && (n.pending ==>
          && n.takenLight <= n.lightEdits && n.takenRange <= n.rangeEdits && n.step <= 3
          && n.publishedLight <= n.takenLight && n.publishedRange <= n.takenRange
          && (n.step >= 1 ==> LightCurrentSince(n, n.takenLight))
          && (n.step >= 2 ==> FirstCurrentSince(n, n.takenRange))
          && (n.step >= 3 ==> LastCurrentSince(n, n.takenRange)))
    && n.publishedLight <= n.lightEdits && n.publishedRange <= n.rangeEdits
    && (n.cycled ==>
          LightCurrentSince(n, n.publishedLight) && FirstCurrentSince(n, n.publishedRange) &&
          LastCurrentSince(n, n.publishedRange))
  }

  lemma StartKeeps(n: Node)
    requires Inv(n)
    ensures Inv(StartCycle(n))
  {
  }

  lemma PollKeeps(n: Node, accepted: bool)
    requires Inv(n)
    ensures Inv(PollCycle(n, accepted))
  {
  }

  lemma ChangeKeeps(n: Node, payload: string, first: string, last: string)
    requires Inv(n)
    ensures Inv(Next(n, LightChanged(payload))) && Inv(Next(n, RangeChanged(first, last)))
  {
  }

  lemma StepKeepsInv(n: Node, event: Event)
    requires Inv(n)
    ensures Inv(Next(n, event))
  {
    hide PollCycle, StartCycle;
    match event
    case LightChanged(payload) => ChangeKeeps(n, payload, "", "");
    case RangeChanged(first, last) => ChangeKeeps(n, "", first, last);
    case PollState(accepted) => PollKeeps(n, accepted);
    case PublishState => StartKeeps(n);
    case PollAnnouncement(_) => StartKeeps(n);
    case _ =>
  }

  lemma {:induction false} RunKeepsInv(n: Node, events: seq<Event>)
    requires Inv(n)
    ensures Inv(Run(n, events))
  {
    hide Inv, Next;
    if |events| > 0 {
      RunKeepsInv(n, events[..|events| - 1]);
      StepKeepsInv(Run(n, events[..|events| - 1]), events[|events| - 1]);
    }
  }

  /** All three topics carry what the light and its range are now. */
  predicate TopicsCurrent(n: Node)
  {
    n.topics == Topics(Some(n.light), Some(n.first), Some(n.last))
  }

  /** What the main loop compares before it asks for a cycle. */
  predicate LooksPublished(n: Node)
  {
    Generation(n.publishedLight) == Generation(n.lightEdits) && Generation(n.publishedRange) == Generation(n.rangeEdits)
  }

  /** Fewer changes since the last completed cycle than would bring a generation round again. */
  predicate FewChanges(n: Node)
  {
    n.lightEdits - n.publishedLight < WORD_LIMIT && n.rangeEdits - n.publishedRange < WORD_LIMIT
  }

  /**
   * In every run, whatever the broker refuses and however often the session drops: once a cycle
   * has completed, generations that look published mean that all three topics are current.
   */
  lemma PublishedMeansCurrent(light: string, first: string, last: string, events: seq<Event>)
    ensures var n := Run(Booted(light, first, last), events);
            n.cycled && LooksPublished(n) && FewChanges(n) ==> TopicsCurrent(n)
  {
    RunKeepsInv(Booted(light, first, last), events);
    var n := Run(Booted(light, first, last), events);
    if LooksPublished(n) && FewChanges(n) {
      SameGeneration(n.publishedLight, n.lightEdits);
      SameGeneration(n.publishedRange, n.rangeEdits);
    }
  }

  lemma SameGeneration(a: nat, b: nat)
    requires a <= b < a + WORD_LIMIT
    ensures Generation(a) == Generation(b) <==> a == b
  {
  }

  // ---- why both conditions are needed -------------------------------------------------------------

  /** Straight after start-up everything looks published and nothing is. */
  lemma NothingPublishedYet(light: string, first: string, last: string)
    ensures var n := Booted(light, first, last);
            LooksPublished(n) && FewChanges(n) && !n.cycled && !TopicsCurrent(n)
  {
  }

  function Changes(payload: string, count: nat): (events: seq<Event>)
    ensures |events| == count
  {
    seq(count, _ => LightChanged(payload))
  }

  lemma {:induction false} ManyChanges(n: Node, payload: string, count: nat)
    requires count > 0
    ensures Run(n, Changes(payload, count)) == n.(lightEdits := n.lightEdits + count, light := payload)
    decreases count
  {
    var events := Changes(payload, count);
    assert events[..count - 1] == Changes(payload, count - 1);
    if count > 1 {
      ManyChanges(n, payload, count - 1);
    } else {
      assert events[..0] == [];
    }
  }

  /** After exactly 2^32 changes a generation comes round, and a stale topic passes for current. */
  lemma WrappedLooksPublished(n: Node, payload: string)
    requires n.cycled && LooksPublished(n) && TopicsCurrent(n) && n.light != payload
    ensures var m := Run(n, Changes(payload, WORD_LIMIT));
            m.cycled && LooksPublished(m) && !TopicsCurrent(m)
  {
    hide Changes, Run;
    ManyChanges(n, payload, WORD_LIMIT);
    RoundAgain(n.lightEdits);
  }

  lemma RoundAgain(edits: nat)
    ensures Generation(edits + WORD_LIMIT) == Generation(edits)
  {
  }

  // ---- how long a cycle takes --------------------------------------------------------------------

  function Accepted(answers: seq<bool>): nat
  {
    if |answers| == 0 then 0 else Accepted(answers[..|answers| - 1]) + if answers[|answers| - 1] then 1 else 0
  }

  function Polled(n: Node, answers: seq<bool>): Node
  {
    if |answers| == 0 then n else PollCycle(Polled(n, answers[..|answers| - 1]), answers[|answers| - 1])
  }

  /**
   * Left alone, a cycle lasts until its third message has been accepted and one poll more; until
   * then its step is the number accepted, refusals costing nothing but time.
   */
  lemma {:induction false} CycleEnds(n: Node, answers: seq<bool>)
    requires n.connected && n.pending && n.step == 0
    ensures var m := Polled(n, answers);
            && (m.pending <==> |answers| == 0 || Accepted(answers[..|answers| - 1]) < 3)
            && (m.pending ==> m.step == Accepted(answers) <= 3)
            && (!m.pending ==> m.publishedLight == n.takenLight && m.publishedRange == n.takenRange && m.cycled)
            && m.connected && m.takenLight == n.takenLight && m.takenRange == n.takenRange
  {
    if |answers| > 0 {
      CycleEnds(n, answers[..|answers| - 1]);
    }
  }

  /**
   * Nothing throws the cycle away: no new session and no announcement asked for. The main loop's own
   * requests and announcement polls may come for as long as the cycle lasts.
   */
  predicate Undisturbed(n: Node, events: seq<Event>)
  {
    if |events| == 0 then true
    else
      var front := events[..|events| - 1];
      Undisturbed(n, front) &&
      match events[|events| - 1]
      case Announce => false
      case Connected => false
      case PublishState => Run(n, front).pending
      case PollAnnouncement(_) => Run(n, front).pending
      case _ => true
  }

  /** The answers to the polls of the state made while there was a session. */
  function Answers(n: Node, events: seq<Event>): seq<bool>
  {
    if |events| == 0 then []
    else
      var front, last := events[..|events| - 1], events[|events| - 1];
      Answers(n, front) + if last.PollState? && Run(n, front).connected then [last.accepted] else []
  }

  /** A cycle of `n` after some answers: where it stands, or what it has published. */
  predicate StandsAfter(n: Node, m: Node, answers: seq<bool>)
  {
    && (m.pending <==> |answers| == 0 || Accepted(answers[..|answers| - 1]) < 3)
    && (m.pending ==> m.step == Accepted(answers) <= 3 && m.takenLight == n.takenLight && m.takenRange == n.takenRange)
    && (!m.pending ==> m.publishedLight == n.takenLight && m.publishedRange == n.takenRange && m.cycled)
  }

  lemma AcceptedMore(answers: seq<bool>, accepted: bool)
    ensures (answers + [accepted])[..|answers|] == answers
    ensures Accepted(answers + [accepted]) == Accepted(answers) + if accepted then 1 else 0
    ensures |answers| > 0 ==> Accepted(answers[..|answers| - 1]) <= Accepted(answers)
  {
  }

  lemma PollStands(n: Node, m: Node, answers: seq<bool>, accepted: bool)
    requires StandsAfter(n, m, answers) && m.connected
    ensures StandsAfter(n, PollCycle(m, accepted), answers + [accepted])
  {
    AcceptedMore(answers, accepted);
  }

  /** Anything but a poll that is answered leaves the cycle where it stood. */
  lemma OthersStand(n: Node, m: Node, answers: seq<bool>, event: Event)
    requires StandsAfter(n, m, answers) && !event.Announce? && !event.Connected?
    requires event.PublishState? || event.PollAnnouncement? ==> m.pending
    requires event.PollState? ==> !m.connected
    ensures StandsAfter(n, Next(m, event), answers)
  {
    hide Accepted;
  }

  /**
   * Whatever changes, drops and announcement polls come in between, a cycle ends with the first poll
   * after the third of its messages has been accepted, having promised what it promised at its start.
   */
  lemma {:induction false} CycleEndsAmidst(n: Node, events: seq<Event>)
    requires n.pending && n.step == 0 && Undisturbed(n, events)
    ensures StandsAfter(n, Run(n, events), Answers(n, events))
  {
    hide Next, StandsAfter;
    if |events| > 0 {
      var front, last := events[..|events| - 1], events[|events| - 1];
      CycleEndsAmidst(n, front);
      var m, answers := Run(n, front), Answers(n, front);
      if last.PollState? && m.connected {
        PollStands(n, m, answers, last.accepted);
        assert Next(m, last) == PollCycle(m, last.accepted) by { NextPoll(m, last.accepted); }
      } else {
        OthersStand(n, m, answers, last);
        assert answers + [] == answers;
      }
    } else {
      StandsAtFirst(n);
    }
  }

  lemma NextPoll(m: Node, accepted: bool)
    ensures Next(m, PollState(accepted)) == PollCycle(m, accepted)
  {
  }

  lemma StandsAtFirst(n: Node)
    requires n.pending && n.step == 0
    ensures StandsAfter(n, n, [])
  {
  }

  /** A change noticed while connected, then three messages accepted and one poll more, is published. */
  lemma QuietCyclePublishes(n: Node, answers: seq<bool>)
    requires Inv(n) && n.connected && !n.pending && |answers| > 0 && Accepted(answers[..|answers| - 1]) >= 3
    ensures var m := Polled(StartCycle(n), answers);
            m.cycled && LooksPublished(m) && TopicsCurrent(m)
  {
    hide Inv;
    var s := StartCycle(n);
    assert StartCycle(n) == Next(n, PublishState);
    StepKeepsInv(n, PublishState);
    CycleEnds(s, answers);
    PolledKeeps(s, answers);
    NowCurrent(Polled(s, answers));
  }

  lemma NowCurrent(m: Node)
    requires Inv(m) && m.cycled && m.publishedLight == m.lightEdits && m.publishedRange == m.rangeEdits
    ensures LooksPublished(m) && TopicsCurrent(m)
  {
  }

  lemma {:induction false} PolledKeeps(n: Node, answers: seq<bool>)
    requires Inv(n)
    ensures var m := Polled(n, answers);
            Inv(m) && m.light == n.light && m.first == n.first && m.last == n.last &&
            m.lightEdits == n.lightEdits && m.rangeEdits == n.rangeEdits
  {
    hide Inv;
    if |answers| > 0 {
      var front, last := answers[..|answers| - 1], answers[|answers| - 1];
      PolledKeeps(n, front);
      StepKeepsInv(Polled(n, front), PollState(last));
      assert Polled(n, answers) == Next(Polled(n, front), PollState(last));
    }
  }

  // ---- what an announcement brings -------------------------------------------------------------

  /** A session just begun, with whatever the broker retained and whatever was completed before it forgotten. */
  function SessionBegun(n: Node): Node
  {
    Next(n.(topics := Topics(None, None, None), cycled := false), Connected)
  }

  /** No new session has come and nobody has asked for another announcement. */
  predicate OneAnnouncement(events: seq<Event>)
  {
    forall i :: 0 <= i < |events| ==> !events[i].Connected? && !events[i].Announce?
  }

  /** A whole cycle completed that took the light and its range no earlier than those edits. */
  predicate SentSince(m: Node, light: nat, range: nat)
  {
    m.cycled && m.publishedLight >= light && m.publishedRange >= range
  }

  /** A cycle under way is of this session, and the wait for it ends only when it is completed. */
  predicate Sending(m: Node, light: nat, range: nat)
  {
    && light <= m.lightEdits && range <= m.rangeEdits
    && (m.pending ==> light <= m.takenLight && range <= m.takenRange)
    && (m.announcing && m.announceStep >= 5 && !m.pending ==> SentSince(m, light, range))
    && (!m.announcing ==> SentSince(m, light, range))
  }

  lemma SendingKept(m: Node, event: Event, light: nat, range: nat)
    requires Sending(m, light, range) && !event.Connected? && !event.Announce?
    ensures Sending(Next(m, event), light, range)
  {
  }

  lemma JustBegun(n: Node)
    requires Inv(n)
    ensures Inv(SessionBegun(n)) && Sending(SessionBegun(n), n.lightEdits, n.rangeEdits)
    ensures var m := SessionBegun(n);
            m.light == n.light && m.first == n.first && m.last == n.last && m.lightEdits == n.lightEdits && m.rangeEdits == n.rangeEdits
  {
  }

  /** What is published is what was there at the start, as long as nothing has been edited. */
  predicate UnlessEdited(n: Node, m: Node)
  {
    && n.lightEdits <= m.lightEdits && n.rangeEdits <= m.rangeEdits
    && (m.lightEdits == n.lightEdits ==> m.light == n.light)
    && (m.rangeEdits == n.rangeEdits ==> m.first == n.first && m.last == n.last)
  }

  lemma StillUnlessEdited(n: Node, m: Node, event: Event)
    requires UnlessEdited(n, m)
    ensures UnlessEdited(n, Next(m, event))
  {
  }

  lemma {:induction false} SessionSends(n: Node, events: seq<Event>)
    requires Inv(n) && OneAnnouncement(events)
    ensures Inv(Run(SessionBegun(n), events))
    ensures Sending(Run(SessionBegun(n), events), n.lightEdits, n.rangeEdits)
    ensures UnlessEdited(n, Run(SessionBegun(n), events))
  {
    hide Next, Inv, Sending, SessionBegun;
    if |events| > 0 {
      var front := events[..|events| - 1];
      SessionSends(n, front);
      StepKeepsInv(Run(SessionBegun(n), front), events[|events| - 1]);
      SendingKept(Run(SessionBegun(n), front), events[|events| - 1], n.lightEdits, n.rangeEdits);
      StillUnlessEdited(n, Run(SessionBegun(n), front), events[|events| - 1]);
    } else {
      JustBegun(n);
    }
  }

  /**
   * In every run from the start of a session, whatever is refused, changed or dropped: when its
   * announcement is over, a whole cycle has been sent in that session. So what was published is
   * current until something is edited, even though the main loop has never seen a difference.
   */
  lemma AnnouncementSends(n: Node, events: seq<Event>)
    requires Inv(n) && OneAnnouncement(events)
    ensures var m := Run(SessionBegun(n), events);
            !m.announcing ==>
              && SentSince(m, n.lightEdits, n.rangeEdits)
              && (m.publishedLight == m.lightEdits && m.publishedRange == m.rangeEdits ==> TopicsCurrent(m))
              && (m.lightEdits == n.lightEdits && m.rangeEdits == n.rangeEdits ==>
                    LooksPublished(m) && m.topics == Topics(Some(n.light), Some(n.first), Some(n.last)))
  {
    hide Next, Run, SessionBegun;
    SessionSends(n, events);
  }

  // ---- and when it is over ------------------------------------------------------------------------

  /** Nothing but the two polls and changes: no drop, and no cycle asked for besides the announcement's own. */
  predicate Steady(events: seq<Event>)
  {
    forall i :: 0 <= i < |events| ==>
      events[i].PollAnnouncement? || events[i].PollState? || events[i].LightChanged? || events[i].RangeChanged?
  }

  /** A poll that gets on: a document or a message accepted, the cycle started, its end noticed, or the end of the wait. */
  predicate GetsOn(m: Node, event: Event)
  {
    match event
    case PollAnnouncement(accepted) =>
      m.announcing && (if m.announceStep <= 3 then accepted else m.announceStep == 4 || !m.pending)
    case PollState(accepted) => m.pending && (m.step == 3 || accepted)
    case _ => false
  }

  function GotOn(n: Node, events: seq<Event>): nat
  {
    if |events| == 0 then 0
    else
      var front := events[..|events| - 1];
      GotOn(n, front) + if GetsOn(Run(n, front), events[|events| - 1]) then 1 else 0
  }

  /** Where an announcement stands after so many polls that got on. */
  predicate Stands(m: Node, count: nat)
  {
    && m.connected && count <= 10
    && (m.announcing <==> count < 10)
    && (count <= 4 ==> m.announceStep == count && !m.pending)
    && (5 <= count < 10 ==> m.announceStep == 5)
    && (5 <= count < 9 ==> m.pending && m.step == count - 5)
    && (count >= 9 ==> !m.pending)
  }

  lemma StandsOn(m: Node, event: Event, count: nat)
    requires Stands(m, count) && Steady([event])
    ensures Stands(Next(m, event), count + if GetsOn(m, event) then 1 else 0)
  {
    assert Steady([event]) ==> [event][0] == event;
  }

  /**
   * An announcement undisturbed is over after exactly ten polls that got on: four documents
   * accepted, the cycle started, its three messages accepted, its end noticed, and the end of the wait.
   */
  lemma {:induction false} AnnouncementEndsIff(n: Node, events: seq<Event>)
    requires Steady(events)
    ensures Run(SessionBegun(n), events).announcing <==> GotOn(SessionBegun(n), events) < 10
    ensures Stands(Run(SessionBegun(n), events), GotOn(SessionBegun(n), events))
    decreases events
  {
    hide Next, GetsOn;
    if |events| > 0 {
      var front := events[..|events| - 1];
      AnnouncementEndsIff(n, front);
      StandsOn(Run(SessionBegun(n), front), events[|events| - 1], GotOn(SessionBegun(n), front));
    } else {
      BegunStands(n);
    }
  }

  lemma BegunStands(n: Node)
    ensures Stands(SessionBegun(n), 0)
  {
  }

  /** Until it is over, one of the two polls gets on if it is accepted. */
  lemma OneGetsOn(n: Node, events: seq<Event>)
    requires Steady(events) && Run(SessionBegun(n), events).announcing
    ensures var m := Run(SessionBegun(n), events);
            GetsOn(m, PollAnnouncement(true)) || GetsOn(m, PollState(true))
  {
    hide Run, GotOn, SessionBegun;
    AnnouncementEndsIff(n, events);
  }

  /** Passes of the main loop, each polling the announcement and then the state, and both accepted. */
  function Passes(count: nat): seq<Event>
  {
    if count == 0 then [] else Passes(count - 1) + [PollAnnouncement(true)] + [PollState(true)]
  }

  lemma {:induction false} PassesSteady(count: nat)
    ensures Steady(Passes(count))
  {
    if count > 0 {
      PassesSteady(count - 1);
    }
  }

  lemma Split(events: seq<Event>, event: Event)
    ensures (events + [event])[..|events|] == events && (events + [event])[|events|] == event
  {
  }

  lemma {:induction false} PassesGetOn(n: Node, count: nat)
    requires count <= 9
    ensures GotOn(SessionBegun(n), Passes(count)) == if count <= 4 then count else count + 1
  {
    hide Run, SessionBegun, Stands, GetsOn;
    if count > 0 {
      PassesGetOn(n, count - 1);
      var before := Passes(count - 1);
      var halfway := before + [PollAnnouncement(true)];
      PassesSteady(count - 1);
      AnnouncementEndsIff(n, before);
      AnnouncementEndsIff(n, halfway);
      Split(before, PollAnnouncement(true));
      Split(halfway, PollState(true));
      PollsGetOn(Run(SessionBegun(n), before), GotOn(SessionBegun(n), before));
      PollsGetOn(Run(SessionBegun(n), halfway), GotOn(SessionBegun(n), halfway));
    }
  }

  lemma PollsGetOn(m: Node, count: nat)
    requires Stands(m, count)
    ensures GetsOn(m, PollAnnouncement(true)) <==> count <= 4 || count == 9
    ensures GetsOn(m, PollState(true)) <==> 5 <= count <= 8
  {
  }

  /** With nothing refused an announcement takes nine passes of the main loop, and no fewer. */
  lemma NinePasses(n: Node, count: nat)
    requires count <= 9
    ensures Run(SessionBegun(n), Passes(count)).announcing <==> count < 9
  {
    hide Run, SessionBegun, Stands, GotOn;
    PassesSteady(count);
    AnnouncementEndsIff(n, Passes(count));
    PassesGetOn(n, count);
  }

  // ---- the program ----------------------------------------------------------------------------------

  /** The fields net.c keeps, with the models it reads. */
  class Publisher {
    var connected: bool
    var lightGeneration: nat
    var light: string
    var rangeGeneration: nat
    var first: string
    var last: string
    var pending: bool
    var step: nat
    var stateGeneration: nat
    var stateRangeGeneration: nat
    var publishedGeneration: nat
    var publishedRangeGeneration: nat
    var announcing: bool
    var announceStep: nat
    var topics: Topics
    ghost var node: Node

    ghost predicate Valid()
      reads this
    {
      && connected == node.connected && light == node.light && first == node.first && last == node.last
      && lightGeneration == Generation(node.lightEdits) && rangeGeneration == Generation(node.rangeEdits)
      && pending == node.pending && step == node.step
      && (pending ==> stateGeneration == Generation(node.takenLight) && stateRangeGeneration == Generation(node.takenRange))
      && publishedGeneration == Generation(node.publishedLight)
      && publishedRangeGeneration == Generation(node.publishedRange)
      && announcing == node.announcing && announceStep == node.announceStep
      && topics == node.topics
    }

    constructor (light: string, first: string, last: string)
      ensures Valid() && node == Booted(light, first, last)
    {
      connected, pending, step, announcing, announceStep := false, false, 0, false, 0;
      this.light, this.first, this.last := light, first, last;
      lightGeneration, rangeGeneration, publishedGeneration, publishedRangeGeneration := 1, 1, 1, 1;
      stateGeneration, stateRangeGeneration := 0, 0;
      topics := Topics(None, None, None);
      node := Booted(light, first, last);
    }

    method ChangeLight(payload: string)
      requires Valid()
      modifies this`light, this`lightGeneration, this`node
      ensures Valid() && node == Next(old(node), LightChanged(payload))
    {
      light := payload;
      lightGeneration := U32(lightGeneration + 1);
      node := Next(node, LightChanged(payload));
    }

    method ChangeRange(newFirst: string, newLast: string)
      requires Valid()
      modifies this`first, this`last, this`rangeGeneration, this`node
      ensures Valid() && node == Next(old(node), RangeChanged(newFirst, newLast))
    {
      first, last := newFirst, newLast;
      rangeGeneration := U32(rangeGeneration + 1);
      node := Next(node, RangeChanged(newFirst, newLast));
    }

    /** net_publish_state: what the cycle will promise is settled before its first message. */
    method PublishState()
      requires Valid()
      modifies this`pending, this`step, this`stateGeneration, this`stateRangeGeneration, this`node
      ensures Valid() && node == Next(old(node), Event.PublishState)
    {
      node := Next(node, Event.PublishState);
      if !connected || pending {
        return;
      }
      stateGeneration := lightGeneration;
      stateRangeGeneration := rangeGeneration;
      step := 0;
      pending := true;
    }

    /** poll_state_publish; `accepted` is whether the message fits and the client takes it. */
    method PollStatePublish(accepted: bool)
      requires Valid()
      modifies this`pending, this`step, this`publishedGeneration, this`publishedRangeGeneration, this`topics, this`node
      ensures Valid() && node == Next(old(node), PollState(accepted))
    {
      node := Next(node, PollState(accepted));
      if !pending || !connected {
        return;
      }
      var sent := topics;
      match step {
        case 0 => sent := topics.(state := Some(light));
        case 1 => sent := topics.(first := Some(first));
        case 2 => sent := topics.(last := Some(last));
        case _ =>
          publishedGeneration := stateGeneration;
          publishedRangeGeneration := stateRangeGeneration;
          pending := false;
          return;
      }
      if accepted {
        topics := sent;
        step := step + 1;
      }
    }

    /** net_announce, the three subscriptions aside. */
    method NetAnnounce()
      requires Valid()
      modifies this`announcing, this`announceStep, this`pending, this`node
      ensures Valid() && node == Next(old(node), Announce)
    {
      announceStep, announcing, pending := 0, true, false;
      node := Next(node, Announce);
    }

    /** The session callback. */
    method OnBrokerSession()
      requires Valid()
      modifies this`connected, this`announcing, this`announceStep, this`pending, this`node
      ensures Valid() && node == Next(old(node), Connected)
    {
      ghost var was := node;
      connected := true;
      node := node.(connected := true);
      NetAnnounce();
      assert node == Next(was, Connected);
    }

    method OnDropped()
      requires Valid()
      modifies this`connected, this`node
      ensures Valid() && node == Next(old(node), Disconnected)
    {
      connected := false;
      node := Next(node, Disconnected);
    }

    method PollAnnouncement(accepted: bool)
      requires Valid()
      modifies this`announcing, this`announceStep, this`pending, this`step, this`stateGeneration,
               this`stateRangeGeneration, this`node
      ensures Valid() && node == Next(old(node), Event.PollAnnouncement(accepted))
    {
      if !announcing || !connected {
        return;
      }
      ghost var was := node;
      if announceStep < 4 {
        if accepted {
          announceStep := announceStep + 1;
        }
        node := Next(was, Event.PollAnnouncement(accepted));
        return;
      }
      if announceStep == 4 {
        PublishState();
        if pending {
          announceStep := announceStep + 1;
          node := node.(announceStep := 5);
        }
        return;
      }
      if !pending {
        announcing := false;
      }
      node := Next(was, Event.PollAnnouncement(accepted));
    }
  }
}
