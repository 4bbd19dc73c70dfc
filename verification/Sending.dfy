/**
 What the sender's messenger does, on values: one delivery, a retry of everything pending, and the proof that
 each of its commands is a run of the delivery machine.
 */
module Sending {
  import opened Wrappers
  import opened MailboxState
  import opened ClientStore
  import opened Delivery
  import opened MailboxHandler
  import B = Backfill

  type Outbox = map<MessageId, OutboxRecord>

  /** The relay's side of an exchange: its settings and its clock. */
  datatype Terms = Terms(quota: nat, capMs: nat, established: bool, nowMs: nat, writes: nat)

  ghost function Answer(box: Box, e: Envelope, t: Terms): (Box, Result<(), RouteError>) {
    AnswerSend(box, t.quota, t.capMs, e, t.established, t.nowMs, t.writes)
  }

  // ---- delivery --------------------------------------------------------------------------------------------

  datatype Delivered = Delivered(outbox: Outbox, box: Box, refusal: Option<RouteError>)

  /** The one envelope of a message handed to the relay, and noted as delivered when the relay took it. */
  ghost function DeliverOne(outbox: Outbox, box: Box, m: MessageId, t: Terms): Delivered
    requires m in outbox
  {
    var record := outbox[m];
    if record.delivered then Delivered(outbox, box, None)
    else
      var (after, answer) := Answer(box, record.envelope, t);
      if answer.Ok? then Delivered(outbox[m := record.(delivered := true)], after, None)
      else Delivered(outbox, after, Some(answer.error))
  }

  datatype Retried = Retried(outbox: Outbox, box: Box, results: seq<EnvelopeId>, refusal: Option<RouteError>)

  /** Messages delivered in turn, until one is refused. */
  ghost function DeliverAll(outbox: Outbox, box: Box, ids: seq<MessageId>, t: Terms): Retried
    requires forall i :: 0 <= i < |ids| ==> ids[i] in outbox
    decreases |ids|
  {
    if ids == [] then Retried(outbox, box, [], None)
    else
      var first := DeliverOne(outbox, box, ids[0], t);
      if first.refusal.Some? then Retried(first.outbox, first.box, [], first.refusal)
      else
        var rest := DeliverAll(first.outbox, first.box, ids[1..], t);
        rest.(results := [outbox[ids[0]].envelope.id] + rest.results)
  }

  ghost function Pending(outbox: Outbox): set<MessageId> {
    set m | m in outbox && !outbox[m].delivered
  }

  /** Whatever happens on the way, each delivery or retry changes nothing of a message but that it is delivered. */
  lemma {:induction false} DeliveriesKeepMessages(outbox: Outbox, box: Box, ids: seq<MessageId>, t: Terms)
    requires forall i :: 0 <= i < |ids| ==> ids[i] in outbox
    ensures var r := DeliverAll(outbox, box, ids, t);
            && r.outbox.Keys == outbox.Keys
            && (forall m :: m in outbox ==> r.outbox[m] == outbox[m].(delivered := r.outbox[m].delivered)
                                            && (outbox[m].delivered ==> r.outbox[m].delivered))
            && (r.refusal.None? ==> forall i :: 0 <= i < |ids| ==> r.outbox[ids[i]].delivered)
    decreases |ids|
  {
    hide Answer;
    if ids != [] {
      var first := DeliverOne(outbox, box, ids[0], t);
      if first.refusal.None? { DeliveriesKeepMessages(first.outbox, first.box, ids[1..], t); }
    }
  }

  /** The messages named are different ones. */
  ghost predicate Different(ids: seq<MessageId>) {
    forall i, j :: 0 <= i < j < |ids| ==> ids[i] != ids[j]
  }

  /**
   A retry stops at the first refusal: the messages before it are delivered and named in its results, in order;
   that one and those after it are as they were.
   */
  lemma {:induction false} ARetryStopsAtTheFirstRefusal(outbox: Outbox, box: Box, ids: seq<MessageId>, t: Terms)
    requires (forall i :: 0 <= i < |ids| ==> ids[i] in outbox) && Different(ids)
    ensures var r := DeliverAll(outbox, box, ids, t);
            var n := |r.results|;
            && n <= |ids| && (r.refusal.None? <==> n == |ids|) && r.outbox.Keys == outbox.Keys
            && (forall i :: 0 <= i < n ==> r.results[i] == outbox[ids[i]].envelope.id && r.outbox[ids[i]].delivered)
            && (forall i :: n <= i < |ids| ==> r.outbox[ids[i]] == outbox[ids[i]])
            && (n < |ids| ==> !outbox[ids[n]].delivered)
    decreases |ids|
  {
    hide Answer;
    if ids != [] {
      var first := DeliverOne(outbox, box, ids[0], t);
      if first.refusal.None? {
        DeliveriesKeepMessages(first.outbox, first.box, ids[1..], t);
        ARetryStopsAtTheFirstRefusal(first.outbox, first.box, ids[1..], t);
        var r, rest := DeliverAll(outbox, box, ids, t), DeliverAll(first.outbox, first.box, ids[1..], t);
        assert r.results[1..] == rest.results;
        UntouchedByTheRest(first.outbox, first.box, ids[0], ids[1..], t);
      }
    }
  }

  /** A message that is not among those delivered stays as it is. */
  lemma {:induction false} UntouchedByTheRest(outbox: Outbox, box: Box, m: MessageId, ids: seq<MessageId>, t: Terms)
    requires (forall i :: 0 <= i < |ids| ==> ids[i] in outbox && ids[i] != m) && m in outbox
    ensures m in DeliverAll(outbox, box, ids, t).outbox && DeliverAll(outbox, box, ids, t).outbox[m] == outbox[m]
    decreases |ids|
  {
    hide Answer;
    if ids != [] {
      var first := DeliverOne(outbox, box, ids[0], t);
      if first.refusal.None? { UntouchedByTheRest(first.outbox, first.box, m, ids[1..], t); }
    }
  }

  // ---- the sender's side of the delivery machine ----------------------------------------------------------------

  /** What the machine sees of one sender: its outbox, its outbound history and the mailbox it sends to. */
  datatype View = View(me: Identity, outbox: Outbox, history: seq<HistoryEntry>, box: Box)

  /** One sender's lines of the outbound history of all. */
  function Lines(history: seq<(Sent, string)>, me: Identity): seq<(MessageId, string)> {
    if history == [] then [] else
    var rest, last := Lines(history[..|history| - 1], me), history[|history| - 1];
    if last.0.sender == me then rest + [(last.0.message, last.1)] else rest
  }

  function Told(history: seq<HistoryEntry>): (r: seq<(MessageId, string)>)
    ensures |r| == |history|
  {
    seq(|history|, i requires 0 <= i < |history| => (history[i].message, history[i].plaintext))
  }

  ghost predicate Mirrors(w: World, v: View, nowMs: nat) {
    && v.me in w.honest && w.box == v.box && w.nowMs == nowMs
    && (forall m :: m in v.outbox <==> Sent(v.me, m) in w.outbox)
    && (forall m :: m in v.outbox ==> w.outbox[Sent(v.me, m)] == v.outbox[m])
    && Lines(w.outHistory, v.me) == Told(v.history)
  }

  /** The recipient and the other senders have not moved. */
  ghost predicate OthersStay(w: World, t: World, me: Identity) {
    && t.honest == w.honest && t.store == w.store && t.offered == w.offered && t.ackWire == w.ackWire
    && w.wire <= t.wire && w.accepted <= t.accepted
    && (forall key: Sent :: key.sender != me ==> (key in w.outbox <==> key in t.outbox))
    && (forall key: Sent :: key.sender != me && key in w.outbox ==> t.outbox[key] == w.outbox[key])
  }

  ghost predicate Reaches(w: World, open: Opener, after: View, nowMs: nat) {
    exists events: seq<Event> ::
      Mirrors(Run(w, events, open), after, nowMs) && OthersStay(w, Run(w, events, open), after.me)
  }

  /** What happened between two views of a sender is a run of the machine, from every world that has the first. */
  ghost predicate IsARun(before: View, after: View, nowMs: nat) {
    after.me == before.me &&
    forall w: World, open: Opener :: Mirrors(w, before, nowMs) ==> Reaches(w, open, after, nowMs)
  }

  lemma StandingStillIsARun(v: View, nowMs: nat)
    ensures IsARun(v, v, nowMs)
  {
    forall w: World, open: Opener | Mirrors(w, v, nowMs) ensures Reaches(w, open, v, nowMs) {
      assert Run(w, [], open) == w;
    }
  }

  lemma ReachesOn(w: World, open: Opener, middle: View, after: View, nowMs: nat)
    requires Reaches(w, open, middle, nowMs) && IsARun(middle, after, nowMs)
    ensures Reaches(w, open, after, nowMs)
  {
    hide Run, Mirrors;
    var first: seq<Event> :| Mirrors(Run(w, first, open), middle, nowMs)
      && OthersStay(w, Run(w, first, open), middle.me);
    var t := Run(w, first, open);
    assert Reaches(t, open, after, nowMs);
    var second: seq<Event> :| Mirrors(Run(t, second, open), after, nowMs)
      && OthersStay(t, Run(t, second, open), after.me);
    RunInParts(w, first, second, open);
    OthersStayTwice(w, t, Run(t, second, open), after.me);
  }

  lemma OthersStayTwice(w: World, t: World, u: World, me: Identity)
    requires OthersStay(w, t, me) && OthersStay(t, u, me)
    ensures OthersStay(w, u, me)
  {}

  lemma RunsInARow(before: View, middle: View, after: View, nowMs: nat)
    requires IsARun(before, middle, nowMs) && IsARun(middle, after, nowMs)
    ensures IsARun(before, after, nowMs)
  {
    hide Reaches, Mirrors;
    forall w: World, open: Opener | Mirrors(w, before, nowMs) ensures Reaches(w, open, after, nowMs) {
      ReachesOn(w, open, middle, after, nowMs);
    }
  }

  // ---- its two kinds of step ------------------------------------------------------------------------------------

  /** What one committed message adds to a view. */
  ghost function WithMessage(v: View, e: Event, h: HistoryEntry): View
    requires e.SendMessage?
  {
    v.(outbox := v.outbox[e.content.message := OutboxRecord(e.content, Built(e), false)], history := v.history + [h])
  }

  lemma CommitIsARun(v: View, e: Event, h: HistoryEntry, nowMs: nat)
    requires e.SendMessage? && e.sender == v.me && e.content.message !in v.outbox
    requires h.message == e.content.message && h.plaintext == e.content.plaintext
    ensures IsARun(v, WithMessage(v, e, h), nowMs)
  {
    hide Run, Built;
    var after := WithMessage(v, e, h);
    forall w: World, open: Opener | Mirrors(w, v, nowMs) ensures Reaches(w, open, after, nowMs) {
      OneStep(w, e, open);
      CommitMirrors(w, v, e, h, nowMs, open);
      assert OthersStay(w, Run(w, [e], open), v.me);
    }
  }

  lemma CommitMirrors(w: World, v: View, e: Event, h: HistoryEntry, nowMs: nat, open: Opener)
    requires e.SendMessage? && e.sender == v.me && e.content.message !in v.outbox && Mirrors(w, v, nowMs)
    requires h.message == e.content.message && h.plaintext == e.content.plaintext
    ensures Mirrors(Apply(w, e, open), WithMessage(v, e, h), nowMs)
    ensures OthersStay(w, Apply(w, e, open), v.me)
  {
    var key := Sent(v.me, h.message);
    LinesGrow(w.outHistory, (key, h.plaintext), v.me);
    assert Told(v.history + [h]) == Told(v.history) + [(h.message, h.plaintext)];
  }

  lemma LinesGrow(history: seq<(Sent, string)>, line: (Sent, string), me: Identity)
    ensures Lines(history + [line], me)
            == if line.0.sender == me then Lines(history, me) + [(line.0.message, line.1)] else Lines(history, me)
  {
    var longer := history + [line];
    assert longer[..|longer| - 1] == history;
  }

  /** The relay refuses an envelope at once, or numbers old records first and then refuses or stores it. */
  lemma AnswerIsAStep(w: World, e: Envelope, t: Terms, open: Opener)
    requires w.nowMs == t.nowMs && e in w.wire
    ensures var (box, answer) := Answer(w.box, e, t);
            var ordered := Apply(w, Migrate(t.writes), open);
            || (answer.Err? && box == w.box)
            || (answer.Err? && ordered == w.(box := box))
            || (answer.Ok? &&
                Apply(ordered, RelayStores(e, t.capMs), open) == w.(box := box, accepted := w.accepted + {e}))
  {
    hide B.EnsureOrdering;
  }

  ghost function AfterDelivery(v: View, m: MessageId, t: Terms): View
    requires m in v.outbox
  {
    var d := DeliverOne(v.outbox, v.box, m, t);
    v.(outbox := d.outbox, box := d.box)
  }

  lemma DeliveryIsARun(v: View, m: MessageId, t: Terms)
    requires m in v.outbox
    ensures IsARun(v, AfterDelivery(v, m, t), t.nowMs)
  {
    hide Run, Answer, Mirrors;
    if v.outbox[m].delivered {
      StandingStillIsARun(v, t.nowMs);
    } else {
      forall w: World, open: Opener | Mirrors(w, v, t.nowMs) ensures Reaches(w, open, AfterDelivery(v, m, t), t.nowMs) {
        DeliveryReaches(w, open, v, m, t);
      }
    }
  }

  /** An envelope put on the wire, and if the relay takes it stored, answered and noted. */
  lemma DeliveryReaches(w: World, open: Opener, v: View, m: MessageId, t: Terms)
    requires Mirrors(w, v, t.nowMs) && m in v.outbox && !v.outbox[m].delivered
    ensures Reaches(w, open, AfterDelivery(v, m, t), t.nowMs)
  {
    hide Answer, Run, Lines, Told, Save, B.EnsureOrdering, AcceptOne, ImportContact, Built;
    var key, e := Sent(v.me, m), v.outbox[m].envelope;
    var sent := Apply(w, Transmit(key), open);
    OneStep(w, Transmit(key), open);
    AnswerIsAStep(sent, e, t, open);
    var ordered := Apply(sent, Migrate(t.writes), open);
    OneStep(sent, Migrate(t.writes), open);
    RunInParts(w, [Transmit(key)], [Migrate(t.writes)], open);
    var migrated := [Transmit(key)] + [Migrate(t.writes)];
    if Answer(v.box, e, t).1.Ok? {
      var stored := Apply(ordered, RelayStores(e, t.capMs), open);
      OneStep(ordered, RelayStores(e, t.capMs), open);
      OneStep(stored, Confirm(key), open);
      RunInParts(w, migrated, [RelayStores(e, t.capMs)], open);
      RunInParts(w, migrated + [RelayStores(e, t.capMs)], [Confirm(key)], open);
      var events := migrated + [RelayStores(e, t.capMs)] + [Confirm(key)];
      ConfirmedMirrors(w, v, m, t, Run(w, events, open));
    } else if Answer(v.box, e, t).0 == v.box {
      RefusedMirrors(w, v, m, t, Run(w, [Transmit(key)], open));
    } else {
      RefusedMirrors(w, v, m, t, Run(w, migrated, open));
    }
  }

  lemma RefusedMirrors(w: World, v: View, m: MessageId, t: Terms, u: World)
    requires Mirrors(w, v, t.nowMs) && m in v.outbox && !v.outbox[m].delivered
    requires var e := v.outbox[m].envelope;
             Answer(v.box, e, t).1.Err? && u == w.(wire := w.wire + {e}, box := Answer(v.box, e, t).0)
    ensures Mirrors(u, AfterDelivery(v, m, t), t.nowMs) && OthersStay(w, u, v.me)
  {
    hide Answer, Lines, Told;
  }

  lemma ConfirmedMirrors(w: World, v: View, m: MessageId, t: Terms, u: World)
    requires Mirrors(w, v, t.nowMs) && m in v.outbox && !v.outbox[m].delivered
    requires Answer(v.box, v.outbox[m].envelope, t).1.Ok?
    requires var key, e := Sent(v.me, m), v.outbox[m].envelope;
             u == w.(wire := w.wire + {e}, box := Answer(v.box, e, t).0, accepted := w.accepted + {e},
                     outbox := w.outbox[key := w.outbox[key].(delivered := true)])
    ensures Mirrors(u, AfterDelivery(v, m, t), t.nowMs) && OthersStay(w, u, v.me)
  {
    hide Answer, Lines, Told;
  }

  ghost function AfterRetry(v: View, ids: seq<MessageId>, t: Terms): View
    requires forall i :: 0 <= i < |ids| ==> ids[i] in v.outbox
  {
    var r := DeliverAll(v.outbox, v.box, ids, t);
    v.(outbox := r.outbox, box := r.box)
  }

  lemma {:induction false} RetryIsARun(v: View, ids: seq<MessageId>, t: Terms)
    requires forall i :: 0 <= i < |ids| ==> ids[i] in v.outbox
    ensures IsARun(v, AfterRetry(v, ids, t), t.nowMs)
    decreases |ids|
  {
    hide IsARun, Answer;
    if ids == [] {
      StandingStillIsARun(v, t.nowMs);
    } else {
      DeliveryIsARun(v, ids[0], t);
      var middle := AfterDelivery(v, ids[0], t);
      if DeliverOne(v.outbox, v.box, ids[0], t).refusal.None? {
        RetryIsARun(middle, ids[1..], t);
        RunsInARow(v, middle, AfterRetry(middle, ids[1..], t), t.nowMs);
      }
    }
  }
}
