/**
 The durable read mark and the crash-safe re-walk, as a machine over one recipient device and one
 mailbox.  Sends, acknowledgements, other devices, the clock, delayed requests, lost responses and
 process exit interleave freely between the steps of a poll.  `judged` and `since` only record what the
 device has judged, ever and since its last contact import; no step looks at them.
 */
module ReadMark {
  import opened Wrappers
  import opened Decimals
  import opened MailboxState
  import opened Paging
  import opened Sets

  /** Where the running poll is; all of it is lost when the process ends. */
  datatype Walk =
    | Idle
    | Asking(cursor: Option<nat>)                 // the page request is on the wire
    | Resolved(resume: nat)                       // the relay knows where to resume
    | Judging(resume: nat, items: seq<Item>, more: Option<nat>, done: nat)
    | Turned(next: Option<nat>)                   // the page is judged, the re-walk position is moved

  datatype System = System(
    box: Box,
    nowMs: nat,
    device: Device,
    walk: Walk,
    rewalk: Option<nat>,                          // the client's durable re-walk position
    reported: set<nat>,                           // read positions ever signed and sent
    judged: set<Item>,                            // the envelopes this device has judged, each at its position
    held: set<EnvelopeId>,                        // live at the last contact import and ever since
    since: set<EnvelopeId>                        // judged since the last contact import
  )

  datatype Event =
    | Tick(ms: nat)
    | Send(envelope: Envelope, capMs: nat)
    | Acknowledge(id: EnvelopeId)
    | OtherMark(other: Device, position: nat)
    | MarkExpires
    | ReportArrives(position: nat)                // any report ever sent, at any time, any number of times
    | Import
    | StartPoll
    | Resolve
    | Select(limit: nat, byteBudget: int)
    | Judge
    | EndPage
    | AskNext
    | EndPoll
    | Abort                                       // process exit, lost response, refusal, local failure

  ghost function LiveIds(box: Box, nowMs: nat): set<EnvelopeId> {
    set id | id in box.primary && LiveRecord(box, id, nowMs)
  }

  /** A position whose token the relay reads back. */
  predicate Nameable(position: nat) { position < Pow10(MAX_CURSOR_DIGITS) }

  /** The re-walk position the client keeps after a page: what is no token starts over. */
  function Kept(more: Option<nat>): Option<nat> {
    if more.Some? && !Nameable(more.value) then Some(0) else more
  }

  ghost function Step(s: System, e: Event): System {
    match e
    case Tick(ms) => s.(nowMs := s.nowMs + ms)
    case Send(envelope, capMs) => if s.box.next.None? then s else s.(box := Save(s.box, envelope, s.nowMs, capMs).0)
    case Acknowledge(id) => s.(box := Delete(s.box, id))
    case OtherMark(other, position) => if other == s.device then s
        else s.(box := AdvanceReadMark(s.box, other, position))
    case MarkExpires => s.(box := s.box.(marks := s.box.marks - {s.device}))
    case ReportArrives(position) =>
      if position in s.reported && Nameable(position) && position <= HighestIssued(s.box)
      then s.(box := AdvanceReadMark(s.box, s.device, position)) else s
    case Import => if s.walk.Idle? then s.(rewalk := Some(0)) else s
    case StartPoll => if s.walk.Idle? then s.(walk := Asking(s.rewalk)) else s
    case Resolve =>
      if !s.walk.Asking? then s
      else s.(walk := Resolved(if s.walk.cursor.Some? then s.walk.cursor.value else ReadMark(s.box, s.device)))
    case Select(limit, byteBudget) =>
      if !s.walk.Resolved? || limit == 0 then s else
      var page := Page(s.box, s.nowMs, limit, byteBudget, s.walk.resume);
      s.(walk := Judging(s.walk.resume, page.items, page.next, 0))
    case Judge =>
      if !s.walk.Judging? || s.walk.done >= |s.walk.items| then s else
      var item := s.walk.items[s.walk.done];
      s.(walk := s.walk.(done := s.walk.done + 1), judged := s.judged + {item},
          since := s.since + {item.envelope.id})
    case EndPage =>
      if !s.walk.Judging? || s.walk.done != |s.walk.items| then s
      else s.(walk := Turned(s.walk.more), rewalk := if s.rewalk.Some? then Kept(s.walk.more) else None)
    case AskNext =>
      if !s.walk.Turned? || s.walk.next.None? || !Nameable(s.walk.next.value) then s
      else s.(walk := Asking(s.walk.next), reported := s.reported + {s.walk.next.value})
    case EndPoll => if s.walk.Turned? then s.(walk := Idle) else s
    case Abort => s.(walk := Idle)
  }

  /** A step, with the record of which envelopes have stayed live since the import kept up to date. */
  ghost function Apply(s: System, e: Event): System {
    var t := Step(s, e);
    if e.Import? && s.walk.Idle? then t.(held := LiveIds(t.box, t.nowMs), since := {})
    else t.(held := s.held * LiveIds(t.box, t.nowMs))
  }

  ghost function Run(s: System, events: seq<Event>): System
    decreases |events|
  {
    if events == [] then s else Run(Apply(s, events[0]), events[1..])
  }

  lemma {:induction false} RunInParts(s: System, first: seq<Event>, second: seq<Event>)
    ensures Run(s, first + second) == Run(Run(s, first), second)
    decreases |first|
  {
    if first == [] {
      assert first + second == second;
    } else {
      assert (first + second)[1..] == first[1..] + second;
      RunInParts(Apply(s, first[0]), first[1..], second);
    }
  }

  lemma OneStep(s: System, a: Event)
    ensures Run(s, [a]) == Apply(s, a)
  {
    hide Apply;
    assert [a][1..] == [];
  }

  lemma TwoSteps(s: System, a: Event, b: Event)
    ensures Run(s, [a, b]) == Apply(Apply(s, a), b)
  {
    hide Apply;
    assert [a, b][1..] == [b] && [b][1..] == [];
    var x := Apply(s, a);
    assert Run(x, [b]) == Apply(x, b);
  }

  /** A device that has judged and reported nothing, at a mailbox whose records all have positions. */
  ghost predicate Begin(s: System) {
    && Placed(s.box, s.nowMs) && Keyed(s.box) && 0 !in s.box.index
    && s.device !in s.box.marks
    && s.walk.Idle? && s.rewalk.None?
    && s.reported == {} && s.judged == {} && s.held == {} && s.since == {}
  }

  // ---- the tail ----------------------------------------------------------------------------------------

  /** How many envelopes must be stored again before two entries both lead to a live record. */
  ghost function Missing(box: Box, nowMs: nat, p: nat, q: nat): nat
    requires p in box.index && q in box.index
  {
    |{box.index[p].id, box.index[q].id} - LiveIds(box, nowMs)|
  }

  /**
   Two unexpired entries above the counter that can still both come alive while the counter is below the
   first, whose token the relay reads back: storing an envelope again takes one position.
   */
  ghost predicate Arming(box: Box, nowMs: nat, p: nat, q: nat) {
    && box.next.Some? && HighestIssued(box) < p < q && Nameable(p) && p in box.index && q in box.index
    && Shown(box.index[p].deadline, nowMs) && Shown(box.index[q].deadline, nowMs)
    && box.next.value + Missing(box, nowMs, p, q) <= p
  }

  ghost predicate Armed(box: Box, nowMs: nat) {
    exists p, q :: Arming(box, nowMs, p, q)
  }

  lemma FewerLiveMissMore(box: Box, nowMs: nat, after: Box, laterMs: nat, p: nat, q: nat)
    requires p in box.index && q in box.index && p in after.index && q in after.index
    requires after.index[p].id == box.index[p].id && after.index[q].id == box.index[q].id
    requires LiveIds(after, laterMs) <= LiveIds(box, nowMs)
    ensures Missing(box, nowMs, p, q) <= Missing(after, laterMs, p, q)
  {
    var ids := {box.index[p].id, box.index[q].id};
    SubsetSize(ids - LiveIds(box, nowMs), ids - LiveIds(after, laterMs));
  }

  /** With fewer live records under the same index and counter nothing is armed that was not. */
  lemma FewerStayUnarmed(box: Box, nowMs: nat, after: Box, laterMs: nat)
    requires !Armed(box, nowMs) && nowMs <= laterMs && after.index == box.index && after.next == box.next
    requires LiveIds(after, laterMs) <= LiveIds(box, nowMs)
    ensures !Armed(after, laterMs)
  {
    LaterIsFewer(box, nowMs, laterMs);
    forall p, q | Arming(after, laterMs, p, q) ensures Arming(box, nowMs, p, q) {
      FewerLiveMissMore(box, nowMs, after, laterMs, p, q);
    }
  }

  /** A store revives one identifier at most and takes one position. */
  lemma SaveStaysUnarmed(box: Box, envelope: Envelope, nowMs: nat, capMs: nat)
    requires box.next.Some? && box.next.value >= 1 && !Armed(box, nowMs)
    ensures !Armed(Save(box, envelope, nowMs, capMs).0, nowMs)
  {
    hide Arming, Save;
    forall p, q | Arming(Save(box, envelope, nowMs, capMs).0, nowMs, p, q) ensures Arming(box, nowMs, p, q) {
      SaveArmsNothing(box, envelope, nowMs, capMs, p, q);
    }
  }

  lemma SaveArmsNothing(box: Box, envelope: Envelope, nowMs: nat, capMs: nat, p: nat, q: nat)
    requires box.next.Some? && box.next.value >= 1
    requires Arming(Save(box, envelope, nowMs, capMs).0, nowMs, p, q)
    ensures Arming(box, nowMs, p, q)
  {
    hide RetentionDeadline, Nameable;
    var after := Save(box, envelope, nowMs, capMs).0;
    if after != box {
      var ids := {box.index[p].id, box.index[q].id};
      SaveRevivesOne(box, envelope, nowMs, capMs);
      hide LiveIds;
      assert ids - LiveIds(box, nowMs) <= (ids - LiveIds(after, nowMs)) + {envelope.id};
      SubsetSize(ids - LiveIds(box, nowMs), (ids - LiveIds(after, nowMs)) + {envelope.id});
    }
  }

  lemma SaveRevivesOne(box: Box, envelope: Envelope, nowMs: nat, capMs: nat)
    requires box.next.Some?
    ensures LiveIds(Save(box, envelope, nowMs, capMs).0, nowMs) <= LiveIds(box, nowMs) + {envelope.id}
  {
    hide RetentionDeadline;
  }

  /** In an unarmed mailbox no page names, in a token the relay reads, a position that was not issued. */
  lemma UnarmedCursorsAreIssued(box: Box, nowMs: nat, limit: nat, byteBudget: int, after: nat)
    requires box.next.Some? && box.next.value >= 1 && !Armed(box, nowMs) && limit > 0
    ensures var page := Page(box, nowMs, limit, byteBudget, after);
            page.next.Some? && Nameable(page.next.value) ==> page.next.value <= HighestIssued(box)
  {
    hide Arming, Nameable;
    PageCovers(box, nowMs, limit, byteBudget, after);
    var page := Page(box, nowMs, limit, byteBudget, after);
    if page.next.Some? {
      assert LiveAt(box, page.items[|page.items| - 1].position, nowMs);
      var q := LiveBehind(box, nowMs, page.next.value);
      LivePairAboveArms(box, nowMs, page.next.value, q);
    }
  }

  /** Two live entries above the counter arm it when the relay reads the first one's token back. */
  lemma LivePairAboveArms(box: Box, nowMs: nat, p: nat, q: nat)
    requires box.next.Some? && p < q && LiveAt(box, p, nowMs) && LiveAt(box, q, nowMs)
    ensures p > HighestIssued(box) && Nameable(p) ==> Arming(box, nowMs, p, q)
  {
    assert {box.index[p].id, box.index[q].id} - LiveIds(box, nowMs) == {};
  }

  lemma LiveBehind(box: Box, nowMs: nat, p: nat) returns (q: nat)
    requires exists q :: q > p && LiveAt(box, q, nowMs)
    ensures q > p && LiveAt(box, q, nowMs)
  {
    q :| q > p && LiveAt(box, q, nowMs);
  }

  // ---- the invariant ---------------------------------------------------------------------------------

  /** Nothing live at or below `x` is an envelope left unjudged, unless it has been stored again beyond. */
  ghost predicate Settled(s: System, x: nat) {
    && Nameable(x) && x <= HighestIssued(s.box)
    && forall p: nat :: p <= x && LiveAt(s.box, p, s.nowMs) ==> ItemAt(s.box, p) in s.judged || Superseded(s.box, p)
  }

  ghost predicate Positions(s: System) {
    && Settled(s, ReadMark(s.box, s.device))
    && (forall x :: x in s.reported ==> Settled(s, x))
    && (s.rewalk.Some? ==> Settled(s, s.rewalk.value))
  }

  ghost predicate JudgedUpTo(s: System, items: seq<Item>, done: nat) {
    done <= |items| &&
    forall i :: 0 <= i < done ==> items[i] in s.judged
  }

  /** Every live envelope from `resume` to `through` is on the page, unless it has been stored again beyond. */
  ghost predicate PageHolds(s: System, resume: nat, items: seq<Item>, through: nat) {
    forall p :: resume < p <= through && LiveAt(s.box, p, s.nowMs) ==> ItemAt(s.box, p) in items || Superseded(s.box, p)
  }

  ghost predicate Walking(s: System) {
    match s.walk
    case Idle => true
    case Asking(cursor) => cursor.Some? ==> Settled(s, cursor.value)
    case Resolved(resume) => Settled(s, resume)
    case Judging(resume, items, next, done) =>
      && Settled(s, resume) && JudgedUpTo(s, items, done)
      && (next.Some? && Nameable(next.value) ==>
            next.value <= HighestIssued(s.box) && PageHolds(s, resume, items, next.value))
    case Turned(next) => next.Some? && Nameable(next.value) ==> Settled(s, next.value)
  }

  /** What the mark rests on: only an unarmed mailbox keeps it. */
  ghost predicate MarkInv(s: System) { !Armed(s.box, s.nowMs) && Positions(s) && Walking(s) }

  // ---- and what the re-walk rests on, in every mailbox -------------------------------------------------------

  ghost predicate Ordered(s: System) {
    Placed(s.box, s.nowMs) && Keyed(s.box) && 0 !in s.box.index
  }

  /** Where the device's next poll starts: its pending re-walk position, or its mark. */
  ghost function Resume(s: System): nat {
    if s.rewalk.Some? then s.rewalk.value else ReadMark(s.box, s.device)
  }

  /** The relay takes either as it is, and a walk under a pending re-walk is where that says. */
  ghost predicate Coherent(s: System) {
    && (s.rewalk.Some? ==> Nameable(s.rewalk.value))
    && Nameable(ReadMark(s.box, s.device)) && ReadMark(s.box, s.device) <= HighestIssued(s.box)
    && match s.walk
       case Idle => true
       case Asking(cursor) => s.rewalk.Some? ==> s.rewalk == cursor
       case Resolved(resume) => s.rewalk.Some? ==> s.rewalk.value == resume
       case Judging(resume, items, next, done) => done <= |items| && (s.rewalk.Some? ==> s.rewalk.value == resume)
       case Turned(next) => s.rewalk.Some? ==> s.rewalk == Kept(next)
  }

  /** Still ahead of the re-walk: the envelope's own position lies beyond `x`. */
  ghost predicate Beyond(box: Box, id: EnvelopeId, x: nat) {
    exists p :: x < p <= HighestIssued(box) && HomeAt(box, id, p)
  }

  ghost predicate OnPage(box: Box, id: EnvelopeId, items: seq<Item>, done: nat) {
    exists i :: done <= i < |items| && items[i].envelope.id == id
  }

  /** Where a held envelope that has not been judged since the import still is. */
  ghost predicate Outstanding(s: System, id: EnvelopeId) {
    && s.rewalk.Some?
    && Beyond(s.box, id, s.rewalk.value)
    && (s.walk.Judging? ==>
          || OnPage(s.box, id, s.walk.items, s.walk.done)
          || (s.walk.more.Some? && Beyond(s.box, id, s.walk.more.value)))
  }

  ghost predicate Rewalking(s: System) {
    && s.held <= LiveIds(s.box, s.nowMs)
    && forall id :: id in s.held ==> id in s.since || Outstanding(s, id)
  }

  ghost predicate Inv(s: System) { Ordered(s) && Coherent(s) && Rewalking(s) }

  // ---- the mailbox moves under the walk -----------------------------------------------------------------

  /** What every step does to the issued part of the mailbox. */
  ghost predicate Evolves(s: System, t: System) {
    && s.nowMs <= t.nowMs && s.device == t.device && s.judged <= t.judged
    && HighestIssued(s.box) <= HighestIssued(t.box)
    && (forall p :: p in s.box.index && p <= HighestIssued(s.box) ==>
          p in t.box.index && t.box.index[p] == s.box.index[p])
    && (forall p: nat :: p <= HighestIssued(s.box) && LiveAt(t.box, p, t.nowMs) ==>
          (LiveAt(s.box, p, s.nowMs) && ItemAt(t.box, p) == ItemAt(s.box, p)) || Superseded(t.box, p))
    && (forall id :: id in LiveIds(s.box, s.nowMs) && id in LiveIds(t.box, t.nowMs) ==>
          t.box.primary[id] == s.box.primary[id])
  }

  lemma SettledSurvives(s: System, t: System, x: nat)
    requires Evolves(s, t) && Settled(s, x)
    ensures Settled(t, x)
  {
    forall p: nat | p <= x && LiveAt(t.box, p, t.nowMs)
      ensures ItemAt(t.box, p) in t.judged || Superseded(t.box, p)
    {
      if LiveAt(s.box, p, s.nowMs) { SupersededSurvives(s, t, p); }
    }
  }

  lemma SupersededSurvives(s: System, t: System, p: nat)
    requires Evolves(s, t)
    ensures Superseded(s.box, p) ==> Superseded(t.box, p)
  {
    if Superseded(s.box, p) {
      var q :| q in s.box.index && p < q <= HighestIssued(s.box) && s.box.index[q].id == s.box.index[p].id;
      assert t.box.index[q].id == t.box.index[p].id;
    }
  }

  lemma BeyondSurvives(s: System, t: System, id: EnvelopeId, x: nat)
    requires Evolves(s, t) && id in LiveIds(s.box, s.nowMs) && id in LiveIds(t.box, t.nowMs) && Beyond(s.box, id, x)
    ensures Beyond(t.box, id, x)
  {
    var p :| x < p <= HighestIssued(s.box) && HomeAt(s.box, id, p);
    assert HomeAt(t.box, id, p);
  }

  /** A step that leaves the client alone keeps both whenever the mailbox evolves. */
  ghost predicate ClientAlone(s: System, t: System) {
    && t.walk == s.walk && t.rewalk == s.rewalk && t.reported == s.reported && t.since == s.since
    && t.held == s.held * LiveIds(t.box, t.nowMs)
  }

  lemma MailboxStepKeepsInv(s: System, t: System)
    requires Inv(s) && Evolves(s, t) && ClientAlone(s, t) && Ordered(t)
    requires ReadMark(t.box, t.device) == ReadMark(s.box, s.device)
        || ReadMark(t.box, t.device) == 0
        || (Nameable(ReadMark(t.box, t.device)) && ReadMark(t.box, t.device) <= HighestIssued(s.box))
    ensures Inv(t)
  {
    ZeroIsNameable();
    forall id | id in t.held ensures id in t.since || Outstanding(t, id) {
      if id !in t.since { OutstandingSurvives(s, t, id); }
    }
  }

  lemma ZeroIsNameable()
    ensures Nameable(0)
  {}

  lemma MailboxStepKeepsMark(s: System, t: System)
    requires MarkInv(s) && Evolves(s, t) && ClientAlone(s, t) && !Armed(t.box, t.nowMs)
    requires ReadMark(t.box, t.device) == ReadMark(s.box, s.device) || Settled(s, ReadMark(t.box, t.device))
    ensures MarkInv(t)
  {
    SettledSurvives(s, t, ReadMark(t.box, t.device));
    forall x | x in t.reported ensures Settled(t, x) { SettledSurvives(s, t, x); }
    if t.rewalk.Some? { SettledSurvives(s, t, t.rewalk.value); }
    WalkSurvives(s, t);
  }

  lemma WalkSurvives(s: System, t: System)
    requires Walking(s) && Evolves(s, t) && t.walk == s.walk && t.rewalk == s.rewalk
    ensures Walking(t)
  {
    match s.walk
    case Idle =>
    case Asking(cursor) => if cursor.Some? { SettledSurvives(s, t, cursor.value); }
    case Resolved(resume) => SettledSurvives(s, t, resume);
    case Judging(resume, items, next, done) =>
      SettledSurvives(s, t, resume);
      if next.Some? && Nameable(next.value) {
        forall p | resume < p <= next.value && LiveAt(t.box, p, t.nowMs)
          ensures ItemAt(t.box, p) in items || Superseded(t.box, p)
        {
          if LiveAt(s.box, p, s.nowMs) { SupersededSurvives(s, t, p); }
        }
      }
    case Turned(next) => if next.Some? && Nameable(next.value) { SettledSurvives(s, t, next.value); }
  }

  lemma OutstandingSurvives(s: System, t: System, id: EnvelopeId)
    requires Evolves(s, t) && t.walk == s.walk && t.rewalk == s.rewalk && Outstanding(s, id)
    requires id in LiveIds(s.box, s.nowMs) && id in LiveIds(t.box, t.nowMs)
    ensures Outstanding(t, id)
  {
    BeyondSurvives(s, t, id, s.rewalk.value);
    if s.walk.Judging? {
      if OnPage(s.box, id, s.walk.items, s.walk.done) {
        assert OnPage(t.box, id, t.walk.items, t.walk.done);
      } else {
        BeyondSurvives(s, t, id, s.walk.more.value);
      }
    }
  }

  lemma TickEvolves(s: System, ms: nat)
    requires Ordered(s)
    ensures Evolves(s, Apply(s, Tick(ms))) && Ordered(Apply(s, Tick(ms)))
  {
    LaterIsFewer(s.box, s.nowMs, s.nowMs + ms);
    FewerStayPlaced(s.box, s.nowMs, s.box, s.nowMs + ms);
  }

  lemma SendEvolves(s: System, envelope: Envelope, capMs: nat)
    requires Ordered(s)
    ensures Evolves(s, Apply(s, Send(envelope, capMs))) && Ordered(Apply(s, Send(envelope, capMs)))
  {
    SaveKeepsPlaced(s.box, envelope, s.nowMs, capMs);
    var t := Apply(s, Send(envelope, capMs));
    forall p: nat | p <= HighestIssued(s.box) && LiveAt(t.box, p, t.nowMs)
      ensures (LiveAt(s.box, p, s.nowMs) && ItemAt(t.box, p) == ItemAt(s.box, p)) || Superseded(t.box, p)
    {
      if t.box != s.box && t.box.index[p].id == envelope.id {
        var q := s.box.next.value;
        assert t.box.index[q].id == envelope.id == t.box.index[p].id;
      }
    }
  }

  lemma AcknowledgeEvolves(s: System, id: EnvelopeId)
    requires Ordered(s)
    ensures Evolves(s, Apply(s, Acknowledge(id))) && Ordered(Apply(s, Acknowledge(id)))
  {
    FewerStayPlaced(s.box, s.nowMs, Delete(s.box, id), s.nowMs);
  }

  lemma MarksDoNotOrder(s: System, t: System)
    requires Ordered(s) && t.nowMs == s.nowMs && t.device == s.device && t.judged == s.judged
    requires t.box == s.box.(marks := t.box.marks)
    ensures Evolves(s, t) && Ordered(t)
  {
    FewerStayPlaced(s.box, s.nowMs, t.box, t.nowMs);
  }

  predicate OfTheMailbox(e: Event) {
    e.Tick? || e.Send? || e.Acknowledge? || e.OtherMark? || e.MarkExpires? || e.ReportArrives?
  }

  /** Whatever happens to the mailbox, it evolves and the client does not move. */
  lemma MailboxEvolves(s: System, e: Event)
    requires Ordered(s) && OfTheMailbox(e)
    ensures var t := Apply(s, e); Evolves(s, t) && ClientAlone(s, t) && Ordered(t)
  {
    assert s.box.next.Some?;
    hide Ordered, Evolves, Nameable, Save, LiveIds;
    match e
    case Tick(ms) => TickEvolves(s, ms);
    case Send(envelope, capMs) => SendEvolves(s, envelope, capMs);
    case Acknowledge(id) => AcknowledgeEvolves(s, id);
    case _ => MarksDoNotOrder(s, Apply(s, e));
  }

  /** The device's mark stays, expires, or moves to a position it reported and the relay has issued. */
  lemma MarkMovesTo(s: System, e: Event)
    requires OfTheMailbox(e)
    ensures var x := ReadMark(Apply(s, e).box, Apply(s, e).device);
            || x == ReadMark(s.box, s.device) || x == 0
            || (x in s.reported && Nameable(x) && x <= HighestIssued(s.box))
  {
    hide Nameable, Save, LiveIds;
    if e.Send? && s.box.next.Some? { SaveKeepsMarks(s.box, e.envelope, s.nowMs, e.capMs); }
  }

  lemma SaveKeepsMarks(box: Box, envelope: Envelope, nowMs: nat, capMs: nat)
    requires box.next.Some?
    ensures Save(box, envelope, nowMs, capMs).0.marks == box.marks
  {}

  lemma MailboxStaysUnarmed(s: System, e: Event)
    requires Ordered(s) && OfTheMailbox(e) && !Armed(s.box, s.nowMs)
    ensures var t := Apply(s, e); !Armed(t.box, t.nowMs)
  {
    hide Armed, Save;
    match e
    case Tick(ms) =>
      LaterIsFewer(s.box, s.nowMs, s.nowMs + ms);
      FewerStayUnarmed(s.box, s.nowMs, s.box, s.nowMs + ms);
    case Send(envelope, capMs) => SaveStaysUnarmed(s.box, envelope, s.nowMs, capMs);
    case Acknowledge(id) => FewerStayUnarmed(s.box, s.nowMs, Delete(s.box, id), s.nowMs);
    case _ => FewerStayUnarmed(s.box, s.nowMs, Apply(s, e).box, s.nowMs);
  }

  // ---- the client's own steps ------------------------------------------------------------------------------

  /** A step of the client leaves the mailbox and the clock alone. */
  ghost predicate SameMailbox(s: System, t: System) {
    t.box == s.box && t.nowMs == s.nowMs && t.device == s.device
  }

  lemma SettledWithMoreJudged(s: System, t: System, x: nat)
    requires SameMailbox(s, t) && s.judged <= t.judged
    ensures Settled(s, x) ==> Settled(t, x)
  {}

  lemma PositionsStay(s: System, t: System)
    requires Positions(s) && SameMailbox(s, t) && s.judged <= t.judged
    requires forall x :: x in t.reported ==> x in s.reported || Settled(s, x)
    requires t.rewalk.Some? ==> t.rewalk == s.rewalk || Settled(s, t.rewalk.value)
    ensures Positions(t)
  {
    SettledWithMoreJudged(s, t, ReadMark(s.box, s.device));
    forall x | x in t.reported ensures Settled(t, x) { SettledWithMoreJudged(s, t, x); }
    if t.rewalk.Some? { SettledWithMoreJudged(s, t, t.rewalk.value); }
  }

  lemma ImportKeepsInv(s: System)
    requires Inv(s) && s.walk.Idle?
    ensures Inv(Apply(s, Import))
  {
    var t := Apply(s, Import);
    ZeroIsNameable();
    forall id | id in t.held ensures Outstanding(t, id) {
      var p := LiveRecordIsSelectable(t.box, id, t.nowMs);
      assert 0 < p <= HighestIssued(t.box) && HomeAt(t.box, id, p);
    }
  }

  /** A step that only moves the walk, and not to a page. */
  lemma QuietStepKeepsInv(s: System, t: System)
    requires Inv(s) && SameMailbox(s, t) && t.since == s.since && t.held == s.held * LiveIds(s.box, s.nowMs)
    requires t.rewalk == s.rewalk && !t.walk.Judging? && Coherent(t)
    ensures Inv(t)
  {
    assert t.held == s.held;
    forall id | id in t.held && id !in t.since ensures Outstanding(t, id) {
      assert Outstanding(s, id);
    }
  }

  ghost function Selected(s: System, limit: nat, byteBudget: int): System
    requires s.walk.Resolved? && limit > 0
  {
    var page := Page(s.box, s.nowMs, limit, byteBudget, s.walk.resume);
    s.(walk := Judging(s.walk.resume, page.items, page.next, 0))
  }

  lemma SelectIs(s: System, limit: nat, byteBudget: int)
    requires Rewalking(s) && s.walk.Resolved? && limit > 0
    ensures Apply(s, Select(limit, byteBudget)) == Selected(s, limit, byteBudget)
  {
    hide Page;
    assert s.held * LiveIds(s.box, s.nowMs) == s.held;
  }

  lemma SelectKeepsInv(s: System, limit: nat, byteBudget: int)
    requires Inv(s) && s.walk.Resolved? && limit > 0
    ensures Inv(Selected(s, limit, byteBudget))
  {
    var t := Selected(s, limit, byteBudget);
    var resume, page := s.walk.resume, Page(s.box, s.nowMs, limit, byteBudget, s.walk.resume);
    PageCovers(s.box, s.nowMs, limit, byteBudget, resume);
    hide Page, Placed, LiveAt, Beyond, OnPage;
    forall id | id in t.held && id !in t.since ensures Outstanding(t, id) {
      assert Outstanding(s, id);
      HeldIsOnThePageOrBeyond(s, id, resume, page);
    }
  }

  lemma SelectKeepsMark(s: System, limit: nat, byteBudget: int)
    requires Ordered(s) && MarkInv(s) && s.walk.Resolved? && limit > 0
    ensures MarkInv(Selected(s, limit, byteBudget))
  {
    var t := Selected(s, limit, byteBudget);
    var resume, page := s.walk.resume, Page(s.box, s.nowMs, limit, byteBudget, s.walk.resume);
    PageCovers(s.box, s.nowMs, limit, byteBudget, resume);
    UnarmedCursorsAreIssued(s.box, s.nowMs, limit, byteBudget, resume);
    hide Page, Armed, Placed, PageHolds, Settled, LiveAt, Nameable;
    PositionsStay(s, t);
    if page.next.Some? { SelectedPageHolds(t, resume, page.items, page.next.value); }
    SettledWithMoreJudged(s, t, resume);
  }

  lemma SelectedPageHolds(s: System, resume: nat, items: seq<Item>, through: nat)
    requires AreLive(s.box, s.nowMs, items)
    requires forall p :: resume < p <= through && LiveAt(s.box, p, s.nowMs) ==> Holds(items, p)
    ensures PageHolds(s, resume, items, through)
  {
    forall p | resume < p <= through && LiveAt(s.box, p, s.nowMs) ensures ItemAt(s.box, p) in items {
      var i :| 0 <= i < |items| && items[i].position == p;
      assert items[i] == ItemAt(s.box, p);
    }
  }

  lemma HeldIsOnThePageOrBeyond(s: System, id: EnvelopeId, resume: nat, page: Batch)
    requires Keyed(s.box) && LiveRecord(s.box, id, s.nowMs) && Beyond(s.box, id, resume)
        && AreLive(s.box, s.nowMs, page.items)
    requires page.next.Some? ==>
               forall p :: resume < p <= page.next.value && LiveAt(s.box, p, s.nowMs) ==> Holds(page.items, p)
    requires page.next.None? ==> forall p :: resume < p && LiveAt(s.box, p, s.nowMs) ==> Holds(page.items, p)
    ensures OnPage(s.box, id, page.items, 0) || (page.next.Some? && Beyond(s.box, id, page.next.value))
  {
    var p :| resume < p <= HighestIssued(s.box) && HomeAt(s.box, id, p);
    assert LiveAt(s.box, p, s.nowMs);
    if page.next.None? || p <= page.next.value {
      var i :| 0 <= i < |page.items| && page.items[i].position == p;
      assert page.items[i].envelope.id == id;
    }
  }

  lemma JudgeKeepsInv(s: System)
    requires Inv(s) && s.walk.Judging? && s.walk.done < |s.walk.items|
    ensures Inv(Apply(s, Judge))
  {
    var t := Apply(s, Judge);
    assert t.held == s.held;
    var done := s.walk.done;
    forall id | id in t.held && id !in t.since ensures Outstanding(t, id) {
      assert Outstanding(s, id);
      if OnPage(s.box, id, s.walk.items, done) {
        var i :| done <= i < |s.walk.items| && s.walk.items[i].envelope.id == id;
        assert i != done;
        assert OnPage(t.box, id, t.walk.items, t.walk.done);
      }
    }
  }

  lemma JudgeKeepsMark(s: System)
    requires MarkInv(s) && s.walk.Judging? && s.walk.done < |s.walk.items|
    ensures MarkInv(Apply(s, Judge))
  {
    hide Settled, Armed;
    var t := Apply(s, Judge);
    PositionsStay(s, t);
    SettledWithMoreJudged(s, t, s.walk.resume);
  }

  /** A fully judged page settles everything up to its own cursor. */
  lemma JudgedPageSettles(s: System)
    requires MarkInv(s) && s.walk.Judging? && s.walk.done == |s.walk.items|
    requires s.walk.more.Some? && Nameable(s.walk.more.value)
    ensures Settled(s, s.walk.more.value)
  {
    var items, cursor := s.walk.items, s.walk.more.value;
    forall p: nat | p <= cursor && LiveAt(s.box, p, s.nowMs)
      ensures ItemAt(s.box, p) in s.judged || Superseded(s.box, p)
    {
      if p > s.walk.resume && ItemAt(s.box, p) in items {
        var i :| 0 <= i < |items| && items[i] == ItemAt(s.box, p);
        assert items[i] in s.judged;
      }
    }
  }

  lemma EndPageKeepsInv(s: System)
    requires Inv(s) && s.walk.Judging? && s.walk.done == |s.walk.items|
    ensures Inv(Apply(s, EndPage))
  {
    var t := Apply(s, EndPage);
    assert t.held == s.held;
    ZeroIsNameable();
    forall id | id in t.held && id !in t.since ensures Outstanding(t, id) {
      assert Outstanding(s, id);
      assert !OnPage(s.box, id, s.walk.items, s.walk.done);
    }
  }

  lemma EndPageKeepsMark(s: System)
    requires Ordered(s) && MarkInv(s) && s.walk.Judging? && s.walk.done == |s.walk.items|
    ensures MarkInv(Apply(s, EndPage))
  {
    var t := Apply(s, EndPage);
    ZeroIsSettled(s);
    if s.walk.more.Some? && Nameable(s.walk.more.value) {
      JudgedPageSettles(s);
      SettledWithMoreJudged(s, t, s.walk.more.value);
    }
    hide Settled, Nameable, Armed;
    PositionsStay(s, t);
  }

  lemma ZeroIsSettled(s: System)
    requires 0 !in s.box.index
    ensures Settled(s, 0)
  {
    ZeroIsNameable();
  }

  predicate Quiet(e: Event) { e.StartPoll? || e.Resolve? || e.AskNext? || e.EndPoll? || e.Abort? }

  /** Where the walk of one state is settled, it is in a state that differs only in the walk. */
  lemma WalkStaysSettled(s: System, t: System)
    requires SameMailbox(s, t) && s.judged == t.judged
    ensures s.walk.Turned? && s.walk.next.Some? && Settled(s, s.walk.next.value) ==> Settled(t, s.walk.next.value)
    ensures s.walk.Asking? && s.walk.cursor.Some? && Settled(s, s.walk.cursor.value) ==>
              Settled(t, s.walk.cursor.value)
  {}

  lemma QuietKeepsInv(s: System, e: Event)
    requires Inv(s) && Quiet(e)
    ensures Inv(Apply(s, e))
  {
    hide Nameable, Ordered, Outstanding;
    var t := Apply(s, e);
    assert s.held * LiveIds(s.box, s.nowMs) == s.held;
    if t != s { QuietStepKeepsInv(s, t); }
  }

  lemma QuietKeepsMark(s: System, e: Event)
    requires Rewalking(s) && MarkInv(s) && Quiet(e)
    ensures MarkInv(Apply(s, e))
  {
    hide Nameable, Settled, PageHolds, JudgedUpTo, Armed;
    var t := Apply(s, e);
    assert s.held * LiveIds(s.box, s.nowMs) == s.held;
    SettledWithMoreJudged(s, t, ReadMark(s.box, s.device));
    if s.rewalk.Some? { SettledWithMoreJudged(s, t, s.rewalk.value); }
    WalkStaysSettled(s, t);
    PositionsStay(s, t);
  }

  lemma StepKeepsInv(s: System, e: Event)
    requires Inv(s)
    ensures Inv(Apply(s, e))
  {
    hide Apply, Ordered, Coherent;
    if Unchanged(s, e) {
      UnchangedKeepsInv(s, e);
    } else if OfTheMailbox(e) {
      MailboxEvolves(s, e);
      MarkMovesTo(s, e);
      MailboxStepKeepsInv(s, Apply(s, e));
    } else if Quiet(e) {
      QuietKeepsInv(s, e);
    } else {
      match e
      case Import => ImportKeepsInv(s);
      case Select(limit, byteBudget) => SelectIs(s, limit, byteBudget); SelectKeepsInv(s, limit, byteBudget);
      case Judge => JudgeKeepsInv(s);
      case EndPage => EndPageKeepsInv(s);
    }
  }

  lemma StepKeepsMark(s: System, e: Event)
    requires Inv(s) && MarkInv(s)
    ensures MarkInv(Apply(s, e))
  {
    hide Apply, Coherent, MarkInv;
    if Unchanged(s, e) {
      UnchangedKeepsInv(s, e);
    } else if OfTheMailbox(e) {
      MailboxKeepsMark(s, e);
    } else if Quiet(e) {
      QuietKeepsMark(s, e);
    } else {
      match e
      case Import => ImportKeepsMark(s);
      case Select(limit, byteBudget) => SelectIs(s, limit, byteBudget); SelectKeepsMark(s, limit, byteBudget);
      case Judge => JudgeKeepsMark(s);
      case EndPage => EndPageKeepsMark(s);
    }
  }

  lemma MailboxKeepsMark(s: System, e: Event)
    requires Ordered(s) && MarkInv(s) && OfTheMailbox(e)
    ensures MarkInv(Apply(s, e))
  {
    hide Apply, Ordered, Settled, Armed, Evolves;
    MailboxEvolves(s, e);
    MarkMovesTo(s, e);
    MailboxStaysUnarmed(s, e);
    assert Settled(s, 0) by { ZeroIn(s); }
    MailboxStepKeepsMark(s, Apply(s, e));
  }

  lemma ZeroIn(s: System)
    requires Ordered(s)
    ensures Settled(s, 0)
  {
    ZeroIsSettled(s);
  }

  lemma ImportKeepsMark(s: System)
    requires Ordered(s) && MarkInv(s) && s.walk.Idle?
    ensures MarkInv(Apply(s, Import))
  {
    ZeroIn(s);
    hide Settled, Armed;
    PositionsStay(s, Apply(s, Import));
  }

  /** The step is refused or comes to nothing. */
  ghost predicate Unchanged(s: System, e: Event) {
    match e
    case Import => !s.walk.Idle?
    case Select(limit, _) => !s.walk.Resolved? || limit == 0
    case Judge => !s.walk.Judging? || s.walk.done >= |s.walk.items|
    case EndPage => !s.walk.Judging? || s.walk.done != |s.walk.items|
    case _ => false
  }

  lemma UnchangedKeepsInv(s: System, e: Event)
    requires Rewalking(s) && Unchanged(s, e)
    ensures Apply(s, e) == s
  {
    assert s.held * LiveIds(s.box, s.nowMs) == s.held;
  }

  lemma {:induction false} RunKeepsInv(s: System, events: seq<Event>)
    requires Inv(s)
    ensures Inv(Run(s, events))
    decreases |events|
  {
    hide Inv, Apply;
    if events != [] {
      StepKeepsInv(s, events[0]);
      RunKeepsInv(Apply(s, events[0]), events[1..]);
    }
  }

  lemma {:induction false} RunKeepsMark(s: System, events: seq<Event>)
    requires Inv(s) && MarkInv(s)
    ensures MarkInv(Run(s, events))
    decreases |events|
  {
    hide Inv, MarkInv, Apply;
    if events != [] {
      StepKeepsInv(s, events[0]);
      StepKeepsMark(s, events[0]);
      RunKeepsMark(Apply(s, events[0]), events[1..]);
    }
  }

  lemma StartIsInv(s: System)
    requires Begin(s)
    ensures Inv(s)
  {
    hide Placed, Superseded;
    ZeroIsNameable();
  }

  lemma StartIsMarkInv(s: System)
    requires Begin(s) && !Armed(s.box, s.nowMs)
    ensures MarkInv(s)
  {
    hide Armed, Placed, Superseded;
    ZeroIsSettled(s);
  }

  // ---- the theorems -----------------------------------------------------------------------------------------

  /** Every live envelope at or below the device's mark has been judged, or stored again beyond. */
  ghost predicate MarkIsSafe(t: System) {
    && ReadMark(t.box, t.device) <= HighestIssued(t.box)
    && forall p: nat :: p <= ReadMark(t.box, t.device) && LiveAt(t.box, p, t.nowMs) ==>
         ItemAt(t.box, p) in t.judged || Superseded(t.box, p)
  }

  lemma UnarmedMarkIsSafe(s: System, events: seq<Event>)
    requires Begin(s) && !Armed(s.box, s.nowMs)
    ensures MarkIsSafe(Run(s, events))
  {
    StartIsInv(s);
    StartIsMarkInv(s);
    RunKeepsMark(s, events);
  }

  /**
   Read-mark safety.  Over every interleaving, a live envelope whose latest position is at or below the
   device's stored mark, that very envelope, has been judged by that device, and the mark never passes an
   issued position.
   */
  lemma ReadMarkNeverPassesAnUnjudgedEnvelope(s: System, events: seq<Event>, id: EnvelopeId, position: nat)
    requires Begin(s) && !Armed(s.box, s.nowMs)
    requires var t := Run(s, events);
             IsLatest(t.box, id, position) && LiveAt(t.box, position, t.nowMs) && position <= ReadMark(t.box, t.device)
    ensures var t := Run(s, events);
            && Item(position, t.box.primary[id].envelope) in t.judged
            && ReadMark(t.box, t.device) <= HighestIssued(t.box)
  {
    UnarmedMarkIsSafe(s, events);
    var t := Run(s, events);
    assert !Superseded(t.box, position);
  }

  /**
   Nothing is skipped: at every moment each live envelope is selectable at its own position, and it has been
   judged by the device or lies past its mark, where the next cursorless poll starts.
   */
  lemma EveryLiveEnvelopeIsJudgedOrAhead(s: System, events: seq<Event>, id: EnvelopeId) returns (position: nat)
    requires Begin(s) && !Armed(s.box, s.nowMs)
    requires var t := Run(s, events); LiveRecord(t.box, id, t.nowMs)
    ensures var t := Run(s, events);
            && HomeAt(t.box, id, position) && LiveAt(t.box, position, t.nowMs)
            && (Item(position, t.box.primary[id].envelope) in t.judged || position > ReadMark(t.box, t.device))
  {
    UnarmedMarkIsSafe(s, events);
    StartIsInv(s);
    RunKeepsInv(s, events);
    var t := Run(s, events);
    position :| HomeAt(t.box, id, position) && !Superseded(t.box, position);
  }

  lemma PlacedIsNotBeyond(box: Box, id: EnvelopeId, position: nat, x: nat)
    requires HomeAt(box, id, position) && !Superseded(box, position) && position <= x
    ensures !Beyond(box, id, x)
  {}

  /**
   Re-walk crash safety.  From every mailbox whose records have positions, whatever an interrupted migration
   has left above the counter, and over every interleaving with one command at a time on the profile: while a
   re-walk is pending at a position, every envelope that has been live since the import and whose own position
   is not beyond it has been judged since the import; once nothing is pending, every envelope that has been
   live since the import has been judged since.
   */
  lemma RewalkLosesNothing(s: System, events: seq<Event>, id: EnvelopeId, position: nat)
    requires Begin(s)
    requires var t := Run(s, events);
             id in t.held && HomeAt(t.box, id, position) && !Superseded(t.box, position)
    requires var t := Run(s, events); t.rewalk.Some? ==> position <= t.rewalk.value
    ensures id in Run(s, events).since
  {
    StartIsInv(s);
    RunKeepsInv(s, events);
    var t := Run(s, events);
    if t.rewalk.Some? {
      PlacedIsNotBeyond(t.box, id, position, t.rewalk.value);
    }
  }

  /** Every envelope it speaks of has such a position: an issued one, at which pages hand it out. */
  lemma HeldHasItsPosition(s: System, events: seq<Event>, id: EnvelopeId) returns (position: nat)
    requires Begin(s) && id in Run(s, events).held
    ensures var t := Run(s, events);
            && 1 <= position <= HighestIssued(t.box) && HomeAt(t.box, id, position)
            && !Superseded(t.box, position) && LiveAt(t.box, position, t.nowMs)
  {
    StartIsInv(s);
    RunKeepsInv(s, events);
    var t := Run(s, events);
    position :| 1 <= position < t.box.next.value && HomeAt(t.box, id, position) && !Superseded(t.box, position);
  }

  /**
   What `held` means: an envelope live at an import stays held exactly as long as it stays live, so the
   theorem above speaks about every envelope that was there at the import and never left.
   */
  lemma {:induction false} HeldIsLiveEverSince(s: System, events: seq<Event>, id: EnvelopeId)
    requires s.walk.Idle? && LiveRecord(s.box, id, s.nowMs)
    requires forall n :: 0 <= n <= |events| ==>
               var t := Run(Apply(s, Import), events[..n]); LiveRecord(t.box, id, t.nowMs)
    ensures id in Run(Apply(s, Import), events).held
    decreases |events|
  {
    if events == [] {
      assert events[..0] == [];
    } else {
      var n := |events| - 1;
      forall m | 0 <= m <= n
        ensures var t := Run(Apply(s, Import), events[..n][..m]); LiveRecord(t.box, id, t.nowMs)
      {
        assert events[..n][..m] == events[..m];
      }
      HeldIsLiveEverSince(s, events[..n], id);
      assert events == events[..n] + [events[n]] && events[..|events|] == events;
      RunInParts(Apply(s, Import), events[..n], [events[n]]);
      OneStep(Run(Apply(s, Import), events[..n]), events[n]);
    }
  }

  // ---- the judgements of one page ----------------------------------------------------------------------------

  function Judges(n: nat): seq<Event> { seq(n, _ => Judge) }

  /** A page's envelopes judged one after another: they and nothing else. */
  lemma {:induction false} JudgeSteps(s: System, n: nat)
    requires s.walk.Judging? && s.walk.done + n == |s.walk.items|
    ensures var t := Run(s, Judges(n));
            && t.walk == s.walk.(done := |s.walk.items|) && t.box == s.box && t.nowMs == s.nowMs && t.device == s.device
            && t.rewalk == s.rewalk && t.reported == s.reported && s.judged <= t.judged
            && (forall i :: s.walk.done <= i < |s.walk.items| ==> s.walk.items[i] in t.judged)
            && (forall x :: x in t.judged ==> x in s.judged || x in s.walk.items)
            && (s.held == {} ==> t.held == {})
    decreases n
  {
    if n > 0 {
      assert Judges(n)[1..] == Judges(n - 1);
      JudgeSteps(Apply(s, Judge), n - 1);
    }
  }
}
