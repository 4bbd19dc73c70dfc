/**
 The recipient's poll as a run of the delivery machine: every page is offered, every envelope on it judged,
 and every acknowledgement requested, carried out and confirmed, by steps of that machine.  What is proved of
 its runs therefore holds of the command.
 */
module DeliveryRefinement {
  import opened Wrappers
  import opened Decimals
  import opened MailboxState
  import opened Paging
  import opened ClientStore
  import opened MailboxHandler
  import opened PageFit
  import opened PollDrain
  import opened PollWalk
  import B = Backfill
  import D = Delivery
  import MR = MailboxRepository

  /** Only the recipient's side and the mailbox have moved; what was offered and acknowledged has only grown. */
  ghost predicate RecipientMoved(w: D.World, t: D.World) {
    && t == w.(box := t.box, store := t.store, offered := t.offered, ackWire := t.ackWire)
    && w.offered <= t.offered && w.ackWire <= t.ackWire
  }

  ghost predicate At(t: D.World, store: Store, box: Box) { t.store == store && t.box == box }

  /** One envelope of a page: the relay has offered it, and the recipient judges it. */
  lemma OneIsARun(w: D.World, item: Item, before: Verdicts, open: Opener) returns (t: D.World, events: seq<D.Event>)
    requires LiveAt(w.box, item.position, w.nowMs) && item == ItemAt(w.box, item.position) && w.store == before.store
    ensures t == D.Run(w, events, open) && RecipientMoved(w, t) && item.envelope in t.offered
    ensures At(t, JudgeOne(before, item.envelope, w.nowMs, open).store, w.box)
  {
    hide AcceptOne;
    var offer, judge := D.Offer(w.box.index[item.position].id), D.Judge(item.envelope);
    D.TwoSteps(w, offer, judge, open);
    events := [offer, judge];
    t := D.Run(w, events, open);
  }

  ghost predicate Offered(t: D.World, items: seq<Item>) {
    forall i :: 0 <= i < |items| ==> items[i].envelope in t.offered
  }

  /** A page: each of its envelopes in turn. */
  lemma {:induction false} JudgingIsARun(w: D.World, items: seq<Item>, open: Opener)
      returns (t: D.World, events: seq<D.Event>)
    requires AreLive(w.box, w.nowMs, items)
    ensures t == D.Run(w, events, open) && RecipientMoved(w, t) && Offered(t, items)
    ensures At(t, JudgeAll(w.store, MR.Envelopes(items), w.nowMs, open).store, w.box)
    decreases |items|
  {
    hide D.Run, JudgeOne, LiveAt;
    if items == [] {
      events := [];
      t := w;
      NoSteps(w, open);
    } else {
      var n := |items| - 1;
      var middle, first := JudgingIsARun(w, items[..n], open);
      assert MR.Envelopes(items)[..n] == MR.Envelopes(items[..n]);
      assert LiveAt(w.box, items[n].position, w.nowMs);
      LiveIsThere(w.box, items[n].position, w.nowMs);
      var before := JudgeAll(w.store, MR.Envelopes(items[..n]), w.nowMs, open);
      var last;
      t, last := OneIsARun(middle, items[n], before, open);
      D.RunInParts(w, first, last, open);
      events := first + last;
      forall i | 0 <= i < |items| ensures items[i].envelope in t.offered {
        if i < n { assert items[..n][i].envelope in middle.offered; }
      }
    }
  }

  lemma LiveIsThere(box: Box, p: nat, nowMs: nat)
    requires LiveAt(box, p, nowMs)
    ensures p in box.index && box.index[p].id in box.primary
  {}

  lemma NoSteps(w: D.World, open: Opener)
    ensures D.Run(w, [], open) == w
  {}

  function ReportedPosition(readThrough: Option<string>): nat {
    var shape := ReadThroughShape(readThrough);
    if shape.Ok? then shape.value else 0
  }

  /** What a request for a page leaves of the mailbox: the relay may move a mark, and may number old records. */
  lemma AnswerMoves(cfg: Config, box: Box, cursor: string, readThrough: Option<string>)
    ensures var after := AnswerPoll(box, cfg.limits, Request(cfg, cursor, readThrough), cfg.nowMs, cfg.writes).0;
            var marked := AdvanceReadMark(box, cfg.device, ReportedPosition(readThrough));
            || after == box || after == marked
            || after == B.EnsureOrdering(box, cfg.nowMs, cfg.writes)
            || after == B.EnsureOrdering(marked, cfg.nowMs, cfg.writes)
  {
    hide Page, DecodeMailboxCursor, Digits, PollBatchSize, B.EnsureOrdering;
  }

  lemma AnswerIsARun(cfg: Config, w: D.World, cursor: string, readThrough: Option<string>, open: Opener)
      returns (t: D.World, events: seq<D.Event>)
    requires w.nowMs == cfg.nowMs
    ensures var request := Request(cfg, cursor, readThrough);
            var (box, answer) := AnswerPoll(w.box, cfg.limits, request, cfg.nowMs, cfg.writes);
            && t == D.Run(w, events, open) && t == w.(box := box)
            && (answer.Ok? ==> AreLive(box, cfg.nowMs, answer.value.items))
  {
    hide AnswerPoll, AdvanceReadMark, D.Run, B.EnsureOrdering, ReportedPosition, AreLive;
    var (box, answer) := AnswerPoll(w.box, cfg.limits, Request(cfg, cursor, readThrough), cfg.nowMs, cfg.writes);
    var move, migrate := D.MoveMark(cfg.device, ReportedPosition(readThrough)), D.Migrate(cfg.writes);
    AnswerMoves(cfg, w.box, cursor, readThrough);
    NoSteps(w, open);
    D.OneStep(w, move, open);
    D.OneStep(w, migrate, open);
    D.TwoSteps(w, move, migrate, open);
    var marked := D.Apply(w, move, open).box;
    events := if box == w.box then [] else if box == marked then [move]
              else if box == D.Apply(w, migrate, open).box then [migrate] else [move, migrate];
    t := D.Run(w, events, open);
    if answer.Ok? { AnsweredPageIsLive(cfg, w.box, cursor, readThrough); }
  }

  lemma AnsweredPageIsLive(cfg: Config, box: Box, cursor: string, readThrough: Option<string>)
    requires AnswerPoll(box, cfg.limits, Request(cfg, cursor, readThrough), cfg.nowMs, cfg.writes).1.Ok?
    ensures var request := Request(cfg, cursor, readThrough);
            var (after, answer) := AnswerPoll(box, cfg.limits, request, cfg.nowMs, cfg.writes);
            AreLive(after, cfg.nowMs, answer.value.items)
  {
    hide Page, DecodeMailboxCursor, Digits, B.EnsureOrdering;
    var q := Request(cfg, cursor, readThrough);
    var (after, answer) := AnswerPoll(box, cfg.limits, q, cfg.nowMs, cfg.writes);
    var resume: nat :| answer.value == Page(after, cfg.nowMs, PollBatchSize(cfg.limits.maxBatch, q.batchSize),
                                            cfg.limits.byteBudget, resume);
    PageCovers(after, cfg.nowMs, PollBatchSize(cfg.limits.maxBatch, q.batchSize), cfg.limits.byteBudget, resume);
  }

  /** A page judged, and the re-walk position moved. */
  lemma TurnIsARun(cfg: Config, w: D.World, p: Progress, page: Batch, open: Opener)
      returns (t: D.World, events: seq<D.Event>)
    requires w.nowMs == cfg.nowMs && w.store == p.store && AreLive(w.box, cfg.nowMs, page.items)
    ensures var q := Turn(cfg, open, p, w.box, page);
            t == D.Run(w, events, open) && RecipientMoved(w, t) && At(t, q.store, q.box) && Offered(t, page.items)
    ensures t.box == w.box
  {
    hide JudgeAll, D.Run, AreLive;
    var judged, first := JudgingIsARun(w, page.items, open);
    var q := Turn(cfg, open, p, w.box, page);
    var keep := D.KeepRewalk(q.store.rewalk);
    D.OneStep(judged, keep, open);
    D.RunInParts(w, first, [keep], open);
    events := first + [keep];
    t := D.Run(w, events, open);
  }

  ghost predicate SeenOffered(t: D.World, p: Progress, r: Progress) {
    p.seen <= r.seen && Offered(t, r.seen[|p.seen|..])
  }

  lemma OfferedTwice(t: D.World, u: D.World, p: Progress, q: Progress, r: Progress)
    requires SeenOffered(t, p, q) && SeenOffered(u, q, r) && t.offered <= u.offered
    ensures SeenOffered(u, p, r)
  {
    var items := r.seen[|p.seen|..];
    forall i | 0 <= i < |items| ensures items[i].envelope in u.offered {
      if i + |p.seen| < |q.seen| {
        assert items[i] == q.seen[|p.seen|..][i];
      } else {
        assert items[i] == r.seen[|q.seen|..][i + |p.seen| - |q.seen|];
      }
    }
  }

  /** The page loop, from any point of it and however it goes. */
  lemma {:induction false} WalkIsARun(cfg: Config, open: Opener, w: D.World, p: Progress, cursor: string,
      readThrough: Option<string>, pagesLeft: nat) returns (t: D.World, events: seq<D.Event>)
    requires w.nowMs == cfg.nowMs && At(w, p.store, p.box)
    ensures var r := WalkFrom(cfg, open, p, cursor, readThrough, pagesLeft);
            && t == D.Run(w, events, open) && RecipientMoved(w, t) && At(t, r.store, r.box) && SeenOffered(t, p, r)
    decreases pagesLeft
  {
    hide D.Run, AnswerPoll, Readable, Turn, AreLive, SeenOffered;
    if pagesLeft == 0 {
      events := [];
      t := w;
      NoSteps(w, open);
      NothingSeen(w, p, p);
      return;
    }
    var answered;
    answered, events := AnswerIsARun(cfg, w, cursor, readThrough, open);
    var (box, answer) := AnswerPoll(p.box, cfg.limits, Request(cfg, cursor, readThrough), cfg.nowMs, cfg.writes);
    if answer.Err? || !Readable(MR.Rendered(answer.value), CLIENT_RESPONSE_BOUND) {
      t := answered;
      NothingSeen(t, p, p.(box := box, failed := true));
      return;
    }
    var page := answer.value;
    var q := Turn(cfg, open, p, box, page);
    var turned, judging := TurnIsARun(cfg, answered, p, page, open);
    PageSeen(cfg, open, p, box, page, turned);
    D.RunInParts(w, events, judging, open);
    t, events := turned, events + judging;
    if q.received == 0 && page.next.Some? {
      var token := EncodeMailboxCursor(page.next.value);
      var end, rest := WalkIsARun(cfg, open, turned, q, token, Some(token), pagesLeft - 1);
      OfferedTwice(turned, end, p, q, WalkFrom(cfg, open, q, token, Some(token), pagesLeft - 1));
      D.RunInParts(w, events, rest, open);
      t, events := end, events + rest;
    }
  }

  lemma NothingSeen(t: D.World, p: Progress, r: Progress)
    requires r.seen == p.seen
    ensures SeenOffered(t, p, r)
  {}

  lemma PageSeen(cfg: Config, open: Opener, p: Progress, box: Box, page: Batch, t: D.World)
    requires Offered(t, page.items)
    ensures SeenOffered(t, p, Turn(cfg, open, p, box, page))
  {
    hide JudgeAll;
    assert (p.seen + page.items)[|p.seen|..] == page.items;
  }

  /** The acknowledgements: each requested, carried out by the relay, and forgotten when answered. */
  lemma {:induction false} AcksAreARun(w: D.World, ids: set<EnvelopeId>, open: Opener)
      returns (t: D.World, events: seq<D.Event>)
    requires ids <= w.store.acks.Keys
    ensures t == D.Run(w, events, open) && RecipientMoved(w, t) && ids <= t.ackWire
    ensures At(t, w.store.(acks := w.store.acks - ids), w.box.(primary := w.box.primary - ids))
    decreases ids
  {
    if ids == {} {
      events := [];
      t := w;
      assert w.store.acks - {} == w.store.acks && w.box.primary - {} == w.box.primary;
    } else {
      var id :| id in ids;
      var one, first := OneAckIsARun(w, id, open);
      var rest;
      t, rest := AcksAreARun(one, ids - {id}, open);
      D.RunInParts(w, first, rest, open);
      events := first + rest;
      assert w.store.acks - {id} - (ids - {id}) == w.store.acks - ids;
      assert w.box.primary - {id} - (ids - {id}) == w.box.primary - ids;
    }
  }

  lemma OneAckIsARun(w: D.World, id: EnvelopeId, open: Opener) returns (t: D.World, events: seq<D.Event>)
    requires id in w.store.acks
    ensures t == D.Run(w, events, open) && RecipientMoved(w, t) && id in t.ackWire
    ensures At(t, w.store.(acks := w.store.acks - {id}), w.box.(primary := w.box.primary - {id}))
  {
    var asked := D.Apply(w, D.RequestAck(id), open);
    D.TwoSteps(asked, D.RelayAcks(id), D.ConfirmAck(id), open);
    D.OneStep(w, D.RequestAck(id), open);
    D.RunInParts(w, [D.RequestAck(id)], [D.RelayAcks(id), D.ConfirmAck(id)], open);
    events := [D.RequestAck(id)] + [D.RelayAcks(id), D.ConfirmAck(id)];
    t := D.Run(w, events, open);
  }

  /**
   A whole poll is a run of the delivery machine, from any world with the recipient's store, its mailbox and
   the clock: it ends with the store and the mailbox the poll leaves, everything the poll has seen offered,
   and nothing of the senders' or of the wire changed.
   */
  lemma PollIsADeliveryRun(cfg: Config, open: Opener, w: D.World) returns (events: seq<D.Event>)
    requires w.nowMs == cfg.nowMs
    ensures var (store, mailbox, _) := Poll(cfg, open, w.store, w.box);
            var t := D.Run(w, events, open);
            && RecipientMoved(w, t) && At(t, store, mailbox) && Offered(t, Walk(cfg, open, w.store, w.box).seen)
  {
    hide D.Run, WalkFrom, AcksFit;
    var r := Walk(cfg, open, w.store, w.box);
    var walked;
    walked, events := WalkIsARun(cfg, open, w, First(w.store, w.box), PendingCursor(w.store), None, MAX_POLL_PAGES);
    assert r.seen[0..] == r.seen;
    var (store, mailbox, _) := Poll(cfg, open, w.store, w.box);
    if (store, mailbox) != (r.store, r.box) {
      var t, acks := AcksAreARun(walked, r.store.acks.Keys, open);
      assert r.store.acks - r.store.acks.Keys == map[];
      D.RunInParts(w, events, acks, open);
      events := events + acks;
    }
  }

  lemma TickIsARun(w: D.World, ms: nat, open: Opener)
    ensures D.Run(w, [D.Tick(ms)], open) == w.(nowMs := w.nowMs + ms)
  {
    D.OneStep(w, D.Tick(ms), open);
  }

  /** What leaves between two polls: acknowledgements that were sent earlier arrive, once more or for the first time. */
  lemma {:induction false} LeavingIsARun(w: D.World, gone: set<EnvelopeId>, open: Opener) returns (events: seq<D.Event>)
    requires gone <= w.ackWire
    ensures D.Run(w, events, open) == w.(box := Left(w.box, gone))
    decreases gone
  {
    events := [];
    if gone == {} {
      NoSteps(w, open);
      assert w.box.primary - {} == w.box.primary;
    } else {
      var id :| id in gone;
      var one := w.(box := Delete(w.box, id));
      D.OneStep(w, D.RelayAcks(id), open);
      var rest := LeavingIsARun(one, gone - {id}, open);
      D.RunInParts(w, [D.RelayAcks(id)], rest, open);
      events := [D.RelayAcks(id)] + rest;
      assert w.box.primary - {id} - (gone - {id}) == w.box.primary - gone;
    }
  }

  /** The clock moves on and acknowledgements arrive: what the next poll finds. */
  lemma BetweenPolls(w: D.World, visit: Visit, open: Opener) returns (t: D.World, events: seq<D.Event>)
    requires w.nowMs <= visit.cfg.nowMs && visit.gone <= w.ackWire
    ensures t == D.Run(w, events, open) == w.(nowMs := visit.cfg.nowMs, box := Left(w.box, visit.gone))
  {
    hide D.Run, D.Apply, Left;
    var tick := D.Tick(visit.cfg.nowMs - w.nowMs);
    TickIsARun(w, visit.cfg.nowMs - w.nowMs, open);
    var later := w.(nowMs := visit.cfg.nowMs);
    var leaving := LeavingIsARun(later, visit.gone, open);
    D.RunInParts(w, [tick], leaving, open);
    events := [tick] + leaving;
    t := D.Run(w, events, open);
  }

  /**
   And so are all the polls of a drain, with the clock moved between them and the recipient's earlier
   acknowledgements arriving between them: what is proved of every run, exactly one history entry for a
   message first of all, holds of the store they leave.
   */
  lemma {:induction false} DrainIsADeliveryRun(visits: seq<Visit>, open: Opener, w: D.World)
      returns (events: seq<D.Event>)
    requires forall i :: 0 <= i < |visits| ==> visits[i].gone <= w.ackWire
    requires forall i, j :: 0 <= i <= j < |visits| ==> w.nowMs <= visits[i].cfg.nowMs <= visits[j].cfg.nowMs
    ensures var d := Drain(visits, open, w.store, w.box);
            var t := D.Run(w, events, open);
            && At(t, d.store, d.box) && t == w.(box := t.box, store := t.store, offered := t.offered,
                                                ackWire := t.ackWire, nowMs := t.nowMs)
    decreases |visits|
  {
    hide D.Run, Walk, Poll, D.Apply;
    events := [];
    if visits == [] {
      NoSteps(w, open);
      return;
    }
    var ready, leaving := BetweenPolls(w, visits[0], open);
    var poll := PollIsADeliveryRun(visits[0].cfg, open, ready);
    D.RunInParts(w, leaving, poll, open);
    events := leaving + poll;
    var t := D.Run(w, events, open);
    var q := Walk(visits[0].cfg, open, ready.store, ready.box);
    if q.more || q.failed {
      var rest := DrainIsADeliveryRun(visits[1..], open, t);
      D.RunInParts(w, events, rest, open);
      events := events + rest;
    }
  }
}
