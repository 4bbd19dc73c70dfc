/**
 A poll of the recipient is a run of the read-mark machine: every request, judgement, re-walk move and
 acknowledgement of the command is one of its steps, in that order.  What is proved of every run of the
 machine therefore holds of the command.
 */
module PollRefinement {
  import opened Wrappers
  import opened Decimals
  import opened MailboxState
  import opened Paging
  import opened Backfill
  import opened ClientStore
  import opened MailboxHandler
  import opened PageFit
  import opened PollWalk
  import opened PollDrain
  import opened Sets
  import MR = MailboxRepository
  import RM = ReadMark

  /** The durable re-walk position of the store, as the machine holds it. */
  ghost predicate SameRewalk(s: RM.System, st: Store) {
    (s.rewalk.Some? <==> st.rewalk.Some?) && (s.rewalk.Some? ==> RewalkAt(st, s.rewalk.value))
  }

  ghost predicate SameMailbox(cfg: Config, s: RM.System, box: Box) {
    s.box == box && s.nowMs == cfg.nowMs && s.device == cfg.device
  }

  /** A machine whose running poll is about to have a page request answered. */
  ghost predicate Matches(cfg: Config, s: RM.System, p: Progress, readThrough: Option<nat>, after: nat) {
    && SameMailbox(cfg, s, p.box) && SameRewalk(s, p.store)
    && s.walk.Asking? && after == (if s.walk.cursor.Some? then s.walk.cursor.value else ReadMark(p.box, cfg.device))
    && (readThrough.Some? ==> readThrough == s.walk.cursor && readThrough.value in s.reported)
  }

  /** A machine whose running poll has judged its page. */
  ghost predicate Judged(cfg: Config, s: RM.System, t: RM.System, q: Progress) {
    && SameMailbox(cfg, t, q.box) && SameRewalk(t, q.store)
    && t.walk == RM.Turned(if q.more then Some(q.at) else None)
    && s.judged <= t.judged
  }

  ghost predicate Covers(t: RM.System, items: seq<Item>) {
    forall i :: 0 <= i < |items| ==> items[i] in t.judged
  }

  /** The report of the page before arrives, and the relay resolves where this page starts. */
  lemma ReportIsARun(cfg: Config, s: RM.System, p: Progress, readThrough: Option<nat>, after: nat)
      returns (t: RM.System, events: seq<RM.Event>)
    requires Matches(cfg, s, p, readThrough, after)
    requires readThrough.Some? ==> after <= HighestIssued(p.box) && RM.Nameable(readThrough.value)
    ensures t == RM.Run(s, events) && SameMailbox(cfg, t, MarkedBy(cfg, p.box, readThrough)) && t.rewalk == s.rewalk
    ensures t.walk == RM.Resolved(after) && t.judged == s.judged && t.reported == s.reported
  {
    var report := if readThrough.Some? then RM.ReportArrives(readThrough.value) else RM.Tick(0);
    events := [report, RM.Resolve];
    RM.TwoSteps(s, report, RM.Resolve);
    t := RM.Run(s, events);
  }

  /** The page is selected, each of its envelopes judged, and the re-walk position moved. */
  lemma PageIsARun(cfg: Config, s: RM.System, after: nat) returns (t: RM.System, events: seq<RM.Event>)
    requires s.walk == RM.Resolved(after) && s.nowMs == cfg.nowMs && Limit(cfg) > 0
    ensures t == RM.Run(s, events)
    ensures var page := PageAt(cfg, s.box, after);
            && SameMailbox(cfg, t, s.box) == (s.device == cfg.device) && t.walk == RM.Turned(page.next)
            && t.rewalk == (if s.rewalk.Some? then RM.Kept(page.next) else None)
            && s.judged <= t.judged && t.reported == s.reported && Covers(t, page.items)
  {
    hide Page;
    var page := PageAt(cfg, s.box, after);
    var select, n := RM.Select(Limit(cfg), cfg.limits.byteBudget), |page.items|;
    var selected := RM.Apply(s, select);
    RM.JudgeSteps(selected, n);
    var judged := RM.Run(selected, RM.Judges(n));
    RM.OneStep(s, select);
    RM.OneStep(judged, RM.EndPage);
    RM.RunInParts(s, [select], RM.Judges(n));
    RM.RunInParts(s, [select] + RM.Judges(n), [RM.EndPage]);
    events := [select] + RM.Judges(n) + [RM.EndPage];
    t := RM.Run(s, events);
  }

  lemma TurnIsARun(cfg: Config, open: Opener, s: RM.System, p: Progress, cursor: string, readThrough: Option<nat>,
      after: nat)
    returns (t: RM.System, events: seq<RM.Event>)
    requires Asks(cfg, p, cursor, readThrough, after) && Matches(cfg, s, p, readThrough, after)
    ensures t == RM.Run(s, events) && Judged(cfg, s, t, Turned(cfg, open, p, readThrough, after))
    ensures Covers(t, PageAt(cfg, MarkedBy(cfg, p.box, readThrough), after).items)
  {
    hide Page, JudgeAll, RM.Apply, PageAt;
    var r, first := ReportIsARun(cfg, s, p, readThrough, after);
    var second;
    t, second := PageIsARun(cfg, r, after);
    RM.RunInParts(s, first, second);
    events := first + second;
    var marked := MarkedBy(cfg, p.box, readThrough);
    var q := Turned(cfg, open, p, readThrough, after);
    ThisTurnAchieves(cfg, open, p, cursor, readThrough, after);
    TurnMoves(cfg, open, p, marked, PageAt(cfg, marked, after));
  }

  lemma TurnMoves(cfg: Config, open: Opener, p: Progress, box: Box, page: Batch)
    ensures var q := Turn(cfg, open, p, box, page);
            && q.box == box && q.more == page.next.Some? && (page.next.Some? ==> q.at == page.next.value)
            && (q.store.rewalk.Some? <==> p.store.rewalk.Some? && page.next.Some?)
  {
    JudgeAllFacts(p.store, MR.Envelopes(page.items), cfg.nowMs, open);
  }

  ghost predicate SeenSince(t: RM.System, p: Progress, r: Progress) {
    p.seen <= r.seen && forall i :: |p.seen| <= i < |r.seen| ==> r.seen[i] in t.judged
  }

  lemma SeenOnce(cfg: Config, open: Opener, p: Progress, readThrough: Option<nat>, after: nat, t: RM.System)
    requires Covers(t, PageAt(cfg, MarkedBy(cfg, p.box, readThrough), after).items)
    ensures SeenSince(t, p, Turned(cfg, open, p, readThrough, after))
  {
    hide Page, JudgeAll, AfterPage;
  }

  lemma AskIsARun(cfg: Config, s: RM.System, q: Progress) returns (t: RM.System)
    requires SameMailbox(cfg, s, q.box) && SameRewalk(s, q.store) && s.walk == RM.Turned(Some(q.at))
    requires RM.Nameable(q.at)
    ensures t == RM.Run(s, [RM.AskNext]) && Matches(cfg, t, q, Some(q.at), q.at) && t.judged == s.judged
  {
    RM.OneStep(s, RM.AskNext);
    t := RM.Apply(s, RM.AskNext);
  }

  lemma TurnedMatches(cfg: Config, s: RM.System, t: RM.System, q: Progress)
    requires Judged(cfg, s, t, q) && q.more
    ensures SameMailbox(cfg, t, q.box) && SameRewalk(t, q.store) && t.walk == RM.Turned(Some(q.at))
  {}

  lemma FailedLater(cfg: Config, s: RM.System, t: RM.System, p: Progress, q: Progress)
    requires Judged(cfg, s, t, q) && SeenSince(t, p, q)
    ensures Judged(cfg, s, t, q.(failed := true)) && SeenSince(t, p, q.(failed := true))
  {}

  /** What a page leaves judged stays so over the pages after it. */
  lemma GoesOnJudging(cfg: Config, s: RM.System, t: RM.System, asked: RM.System, end: RM.System, p: Progress,
      q: Progress, r: Progress)
    requires Judged(cfg, s, t, q) && asked.judged == t.judged && Judged(cfg, asked, end, r)
    requires SeenSince(t, p, q) && SeenSince(end, q, r)
    ensures Judged(cfg, s, end, r) && SeenSince(end, p, r)
  {
    forall i | |p.seen| <= i < |r.seen| ensures r.seen[i] in end.judged {
      if i < |q.seen| { assert r.seen[i] == q.seen[i]; }
    }
  }

  /** The page loop, from any point of it. */
  lemma {:induction false} WalkIsARun(cfg: Config, open: Opener, s: RM.System, p: Progress, cursor: string,
      readThrough: Option<nat>,
                                      after: nat, pagesLeft: nat)
    returns (t: RM.System, events: seq<RM.Event>)
    requires Asks(cfg, p, cursor, readThrough, after) && Matches(cfg, s, p, readThrough, after) && pagesLeft >= 1
    ensures var r := WalkFrom(cfg, open, p, cursor, TokenOf(readThrough), pagesLeft);
            t == RM.Run(s, events) && Judged(cfg, s, t, r) && SeenSince(t, p, r)
    decreases pagesLeft
  {
    hide RM.Run, WalkFrom, Turned, Asks, Matches, Achieved, TokenOf, Covers, Judged, SeenSince;
    var q := Turned(cfg, open, p, readThrough, after);
    t, events := TurnIsARun(cfg, open, s, p, cursor, readThrough, after);
    SeenOnce(cfg, open, p, readThrough, after, t);
    WalkUnfolds(cfg, open, p, cursor, readThrough, after, pagesLeft);
    if q.received == 0 && q.more {
      if pagesLeft == 1 {
        WalkWithoutPages(cfg, open, q, Digits(q.at), Some(q.at));
      } else {
        NextAsks(cfg, open, p, cursor, readThrough, after);
        if q.at > HighestIssued(q.box) {
          RefusedReportEndsTheWalk(cfg, open, q, pagesLeft - 1);
          FailedLater(cfg, s, t, p, q);
          return;
        }
        TurnedMatches(cfg, s, t, q);
        var asked := AskIsARun(cfg, t, q);
        var end, rest := WalkIsARun(cfg, open, asked, q, Digits(q.at), Some(q.at), q.at, pagesLeft - 1);
        GoesOnJudging(cfg, s, t, asked, end, p, q,
                      WalkFrom(cfg, open, q, Digits(q.at), TokenOf(Some(q.at)), pagesLeft - 1));
        RM.RunInParts(s, events, [RM.AskNext]);
        RM.RunInParts(s, events + [RM.AskNext], rest);
        t, events := end, events + [RM.AskNext] + rest;
      }
    }
  }

  lemma {:induction false} AcksAreARun(s: RM.System, ids: set<EnvelopeId>) returns (events: seq<RM.Event>)
    ensures var t := RM.Run(s, events);
            && t.box == s.box.(primary := s.box.primary - ids) && t.nowMs == s.nowMs && t.device == s.device
            && t.rewalk == s.rewalk && t.walk == s.walk && t.judged == s.judged
    decreases ids
  {
    if ids == {} {
      events := [];
      assert s.box.primary - {} == s.box.primary;
    } else {
      var id :| id in ids;
      var first := RM.Acknowledge(id);
      var rest := AcksAreARun(RM.Apply(s, first), ids - {id});
      events := [first] + rest;
      assert events[1..] == rest;
      assert s.box.primary - {id} - (ids - {id}) == s.box.primary - ids;
    }
  }

  lemma StartIsARun(cfg: Config, s: RM.System, st: Store, box: Box, after: nat)
    requires s.walk.Idle? && SameMailbox(cfg, s, box) && SameRewalk(s, st) && StartsAt(st, box, cfg.device, after)
    ensures Matches(cfg, RM.Run(s, [RM.StartPoll]), PollWalk.First(st, box), None, after)
    ensures RM.Run(s, [RM.StartPoll]).judged == s.judged
  {
    RM.OneStep(s, RM.StartPoll);
  }

  lemma EndIsARun(s: RM.System)
    requires s.walk.Turned?
    ensures var t := RM.Run(s, [RM.EndPoll]);
            t.walk.Idle? && t.box == s.box && t.nowMs == s.nowMs && t.device == s.device && t.rewalk == s.rewalk
                && t.judged == s.judged
  {
    RM.OneStep(s, RM.EndPoll);
  }

  /** The walk of a poll, from an idle machine to an idle machine. */
  lemma WholeWalkIsARun(cfg: Config, open: Opener, s: RM.System, st: Store, box: Box, after: nat)
      returns (t: RM.System, events: seq<RM.Event>)
    requires Ready(cfg, st, box, after) && s.walk.Idle? && SameMailbox(cfg, s, box) && SameRewalk(s, st)
    ensures var r := Walk(cfg, open, st, box);
            && t == RM.Run(s, events) && t.walk.Idle? && SameMailbox(cfg, t, r.box) && SameRewalk(t, r.store)
            && s.judged <= t.judged && Covers(t, r.seen)
  {
    hide RM.Run, WalkFrom, RM.Apply;
    StartIsARun(cfg, s, st, box, after);
    var started := RM.Run(s, [RM.StartPoll]);
    var walked, middle := WalkIsARun(cfg, open, started, PollWalk.First(st, box), PendingCursor(st), None, after,
        MAX_POLL_PAGES);
    EndIsARun(walked);
    RM.RunInParts(s, [RM.StartPoll], middle);
    RM.RunInParts(s, [RM.StartPoll] + middle, [RM.EndPoll]);
    events := [RM.StartPoll] + middle + [RM.EndPoll];
    t := RM.Run(walked, [RM.EndPoll]);
  }

  /** What a poll does after its walk: some identifiers are deleted from the mailbox, and no position moves. */
  lemma PollEnds(cfg: Config, open: Opener, st: Store, box: Box) returns (gone: set<EnvelopeId>)
    ensures var (store, mailbox, _) := Poll(cfg, open, st, box);
            var r := Walk(cfg, open, st, box);
            store.rewalk == r.store.rewalk && mailbox == r.box.(primary := r.box.primary - gone)
  {
    hide Walk;
    var r := Walk(cfg, open, st, box);
    gone := if Poll(cfg, open, st, box).1 == r.box then {} else r.store.acks.Keys;
    assert r.box.primary - {} == r.box.primary;
  }

  /**
   A whole poll is a run: from an idle machine in the same mailbox, at the same clock and the same durable
   re-walk position, there are steps that lead to the mailbox and the position the poll leaves, with
   everything the poll has seen judged.
   */
  lemma PollIsARun(cfg: Config, open: Opener, s: RM.System, st: Store, box: Box, after: nat)
      returns (events: seq<RM.Event>)
    requires Ready(cfg, st, box, after) && s.walk.Idle? && SameMailbox(cfg, s, box) && SameRewalk(s, st)
    ensures var (store, mailbox, _) := Poll(cfg, open, st, box);
            var t := RM.Run(s, events);
            && t.walk.Idle? && SameMailbox(cfg, t, mailbox) && SameRewalk(t, store)
            && s.judged <= t.judged && Covers(t, Walk(cfg, open, st, box).seen)
  {
    hide RM.Run, Walk, Poll, Ready;
    var idle, walked := WholeWalkIsARun(cfg, open, s, st, box, after);
    var gone := PollEnds(cfg, open, st, box);
    var acks := AcksAreARun(idle, gone);
    RM.RunInParts(s, walked, acks);
    events := walked + acks;
  }

  // ---- and every state a run reaches can be drained -----------------------------------------------------------

  lemma ReachedIsReady(cfg: Config, t: RM.System, st: Store)
    requires RM.Inv(t) && SameMailbox(cfg, t, t.box) && SameRewalk(t, st) && Suited(cfg)
    requires Passable(t.box, t.nowMs, RM.Resume(t), t.rewalk.Some?) && AllReadable(t.box, t.nowMs, RM.Resume(t))
    ensures Ready(cfg, st, t.box, RM.Resume(t))
  {
    hide Pow10, RewalkAt, LiveAt, Passable, ReadableAlone, RM.Rewalking;
  }

  /**
   Recovery.  From every state the machine reaches, crashes and lost answers and whatever an interrupted
   migration has left included: as long as the relay takes the token of every page end and the client reads
   every envelope alone, both beyond the place where the next poll starts, enough further polls with nothing
   new arriving reach the end of the mailbox, and everything then live beyond that place was offered in them
   and refused.
   */
  lemma EveryReachableMailboxDrains(s: RM.System, events: seq<RM.Event>, st: Store, visits: seq<Visit>,
      open: Opener)
    requires RM.Begin(s) && visits != [] && InTurn(visits, s.device)
    requires var t := RM.Run(s, events);
             && visits[0].cfg.nowMs == t.nowMs && SameRewalk(t, st) && |visits| > |t.box.index|
             && Passable(t.box, t.nowMs, RM.Resume(t), t.rewalk.Some?)
             && AllReadable(t.box, t.nowMs, RM.Resume(t))
    ensures var t := RM.Run(s, events);
            var d := Drain(visits, open, st, t.box);
            && StartsAt(st, t.box, s.device, RM.Resume(t))
            && d.ended && Remains(t.box, d.box)
            && AllRefused(d.box, visits[|visits| - 1].cfg.nowMs, RM.Resume(t), d.seen, d.rejected)
  {
    hide RM.Run, RM.Inv, RM.Begin, Drain, Passable, AllReadable, Pow10, Suited, RM.Resume;
    BeginAndRun(s, events);
    var t := RM.Run(s, events);
    ReachedIsReady(visits[0].cfg, t, st);
    NoMoreThanEntries(t.box, t.nowMs, RM.Resume(t));
    PollsDrainTheMailbox(visits, open, st, t.box, RM.Resume(t));
  }

  /**
   When the relay takes those tokens.  With a re-walk pending, or from an unarmed mailbox, it does as soon as
   it reads them back, which it does below 10^15.
   */
  lemma ReadBackIsEnough(s: RM.System, events: seq<RM.Event>)
    requires RM.Begin(s)
    requires var t := RM.Run(s, events);
             Passable(t.box, t.nowMs, RM.Resume(t), true) && (t.rewalk.Some? || !RM.Armed(s.box, s.nowMs))
    ensures var t := RM.Run(s, events); Passable(t.box, t.nowMs, RM.Resume(t), t.rewalk.Some?)
  {
    hide RM.Run, RM.Armed, Pow10, RM.Resume;
    var t := RM.Run(s, events);
    if t.rewalk.None? {
      BeginAndRun(s, events);
      RM.StartIsInv(s);
      RM.StartIsMarkInv(s);
      RM.RunKeepsMark(s, events);
      UnarmedIsPassable(t.box, t.nowMs, RM.Resume(t));
    }
  }

  lemma UnarmedIsPassable(box: Box, nowMs: nat, after: nat)
    requires box.next.Some? && !RM.Armed(box, nowMs) && Passable(box, nowMs, after, true)
    ensures Passable(box, nowMs, after, false)
  {
    hide Pow10;
    forall p, q | after < p < q && LiveAt(box, p, nowMs) && LiveAt(box, q, nowMs)
      ensures p < Pow10(MAX_CURSOR_DIGITS) && p <= HighestIssued(box)
    {
      RM.LivePairAboveArms(box, nowMs, p, q);
    }
  }

  lemma BeginAndRun(s: RM.System, events: seq<RM.Event>)
    requires RM.Begin(s)
    ensures RM.Inv(RM.Run(s, events)) && RM.Run(s, events).device == s.device
  {
    hide RM.Run, RM.Inv;
    RM.StartIsInv(s);
    RM.RunKeepsInv(s, events);
    DeviceStays(s, events);
  }

  lemma {:induction false} DeviceStays(s: RM.System, events: seq<RM.Event>)
    ensures RM.Run(s, events).device == s.device
    decreases |events|
  {
    if events != [] { DeviceStays(RM.Apply(s, events[0]), events[1..]); }
  }

  lemma NoMoreThanEntries(box: Box, nowMs: nat, after: nat)
    ensures |Ahead(box, nowMs, after)| <= |box.index|
  {
    SubsetSize(Ahead(box, nowMs, after), box.index.Keys);
  }
}
