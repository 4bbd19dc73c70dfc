/**
 Polls that never end.  A walk stops short of an entry when no page from before it gets past it: because the
 client cannot read the response it would come in, or because the relay does not take the token of a page
 that ends on it.
 */
module PollBlocked {
  import opened Wrappers
  import opened Decimals
  import opened MailboxState
  import opened Paging
  import opened ClientStore
  import opened MailboxHandler
  import opened PageFit
  import opened PollWalk
  import opened PollDrain
  import opened Sets
  import MR = MailboxRepository

  // ---- walks that stop short of an entry ----------------------------------------------------------------------

  ghost predicate StartsBelow(st: Store, box: Box, device: Device, after: nat) {
    after < Pow10(MAX_CURSOR_DIGITS) && StartsAt(st, box, device, after)
  }

  /** The next poll starts before `x`. */
  ghost predicate Short(st: Store, box: Box, device: Device, x: nat) {
    exists a: nat :: a < x && StartsBelow(st, box, device, a)
  }

  /** The relay does not take the token of this position. */
  ghost predicate NotTaken(box: Box, rewalking: bool, z: nat) {
    z >= Pow10(MAX_CURSOR_DIGITS) || (!rewalking && z > HighestIssued(box))
  }

  /** The page after a position cannot be read, or ends before `x`, or on it and its token is not taken. */
  ghost predicate PageStops(cfg: Config, box: Box, rewalking: bool, after: nat, x: nat) {
    var page := PageAt(cfg, box, after);
    || !Readable(MR.Rendered(page), CLIENT_RESPONSE_BOUND)
    || (page.next.Some? && after < page.next.value <= x && (page.next.value < x || NotTaken(box, rewalking, x)))
  }

  ghost predicate StopsAt(cfg: Config, box: Box, rewalking: bool, x: nat) {
    forall after: nat :: after < x ==> PageStops(cfg, box, rewalking, after, x)
  }

  lemma StopsStill(cfg: Config, box: Box, t: Box, rewalking: bool, x: nat)
    requires StopsAt(cfg, box, rewalking, x) && t == box.(marks := t.marks)
    ensures StopsAt(cfg, t, rewalking, x)
  {
    hide Readable, PageAt, Pow10;
    forall after: nat | after < x ensures PageStops(cfg, t, rewalking, after, x) {
      MarkingChangesNoPage(cfg, box, t, after);
      assert PageStops(cfg, box, rewalking, after, x);
    }
  }

  /** A report below `x` keeps the next start below it. */
  lemma MarkKeepsShort(cfg: Config, st: Store, box: Box, readThrough: Option<nat>, x: nat)
    requires Short(st, box, cfg.device, x)
    requires readThrough.Some? ==> readThrough.value < x && readThrough.value < Pow10(MAX_CURSOR_DIGITS)
    ensures Short(st, MarkedBy(cfg, box, readThrough), cfg.device, x)
  {
    hide DecodeMailboxCursor, KeptPosition, Pow10;
    var marked := MarkedBy(cfg, box, readThrough);
    var a: nat :| a < x && StartsBelow(st, box, cfg.device, a);
    assert StartsBelow(st, marked, cfg.device, if st.rewalk.Some? then a else ReadMark(marked, cfg.device));
  }

  /** A token of sixteen digits and more makes a re-walk start over. */
  lemma StartsOver(z: nat)
    requires z >= Pow10(MAX_CURSOR_DIGITS)
    ensures KeptPosition(Digits(z)) == "0" == KeptPosition("0") && DecodeMailboxCursor("0") == Ok(0)
  {
    hide Pow10;
    DigitsFit(z, MAX_CURSOR_DIGITS);
    assert Digits(0) == "0";
    TokenReadsBack(0) by { PowerIsPositive(); }
  }

  lemma PowerIsPositive()
    ensures 0 < Pow10(MAX_CURSOR_DIGITS)
  {}

  /** And so does a re-walk moved to a page that ends before it, or on it beyond fifteen digits. */
  lemma RewalkKeepsShort(st: Store, box: Box, device: Device, z: nat, x: nat)
    requires Short(st, box, device, x) && (st.rewalk.None? || z < x || z >= Pow10(MAX_CURSOR_DIGITS))
    ensures Short(AfterPage(st, Some(z)), box, device, x)
  {
    hide Digits, Pow10, KeptPosition, DecodeMailboxCursor;
    if st.rewalk.Some? {
      var t := AfterPage(st, Some(z));
      if z < Pow10(MAX_CURSOR_DIGITS) {
        TokenReadsBack(z);
        assert StartsBelow(t, box, device, z);
      } else {
        StartsOver(z);
        PowerIsPositive();
        assert StartsBelow(t, box, device, 0);
      }
    }
  }

  lemma SameStart(st: Store, box: Box, t: Store, u: Box, device: Device, x: nat)
    requires Short(st, box, device, x) && t.rewalk == st.rewalk && u.marks == box.marks
    ensures Short(t, u, device, x)
  {
    hide Pow10, DecodeMailboxCursor, KeptPosition;
    var a: nat :| a < x && StartsBelow(st, box, device, a);
    assert StartsBelow(t, u, device, a);
  }

  /** A walk that is to meet `x`. */
  ghost predicate Meets(cfg: Config, p: Progress, cursor: string, readThrough: Option<nat>, after: nat, x: nat) {
    && cfg.batchSize >= 0 && p.box.next.Some?
    && StopsAt(cfg, p.box, p.store.rewalk.Some?, x) && Short(p.store, p.box, cfg.device, x)
    && CursorFor(p.box, cfg.device, cursor, after) && after < x
    && (readThrough.Some? ==> readThrough.value == after && after <= HighestIssued(p.box) && cursor != "")
  }

  /** A walk that has not come to the end, and starts again below `x`. */
  ghost predicate Stopped(cfg: Config, p: Progress, r: Progress, x: nat) {
    && (r.failed || (r.more && r.seen != []))
    && r.box == p.box.(marks := r.box.marks) && (r.store.rewalk.Some? <==> p.store.rewalk.Some?)
    && Short(r.store, r.box, cfg.device, x)
  }

  lemma PageStopsShort(cfg: Config, open: Opener, p: Progress, cursor: string, readThrough: Option<nat>, after: nat,
      x: nat)
    requires Meets(cfg, p, cursor, readThrough, after, x)
    ensures var marked := MarkedBy(cfg, p.box, readThrough);
            && Stopped(cfg, p, p.(box := marked, failed := true), x)
            && (Readable(MR.Rendered(PageAt(cfg, marked, after)), CLIENT_RESPONSE_BOUND) ==>
                  var q := Turned(cfg, open, p, readThrough, after);
                  && Stopped(cfg, p, q, x) && q.more && !q.failed && q.box == marked && after < q.at
                  && (q.at < x || NotTaken(q.box, q.store.rewalk.Some?, q.at)))
  {
    hide JudgeAll, Page, Readable, Pow10, DecodeMailboxCursor, Digits, KeptPosition, StopsAt, Short;
    var marked := MarkedBy(cfg, p.box, readThrough);
    MarkKeepsShort(cfg, p.store, p.box, readThrough, x);
    StopsStill(cfg, p.box, marked, p.store.rewalk.Some?, x);
    if Readable(MR.Rendered(PageAt(cfg, marked, after)), CLIENT_RESPONSE_BOUND) {
      assert PageStops(cfg, marked, p.store.rewalk.Some?, after, x) by { StopsThere(cfg, marked, p, after, x); }
      PageIsJudged(cfg, open, p, marked, after, x);
    }
  }

  lemma StopsThere(cfg: Config, box: Box, p: Progress, after: nat, x: nat)
    requires StopsAt(cfg, box, p.store.rewalk.Some?, x) && after < x
    ensures PageStops(cfg, box, p.store.rewalk.Some?, after, x)
  {}

  lemma PageIsJudged(cfg: Config, open: Opener, p: Progress, box: Box, after: nat, x: nat)
    requires Short(p.store, box, cfg.device, x) && box == p.box.(marks := box.marks) && after < x
    requires var page := PageAt(cfg, box, after);
             && page.next.Some? && after < page.next.value <= x
             && (page.next.value < x || NotTaken(box, p.store.rewalk.Some?, x))
    ensures var q := Turn(cfg, open, p, box, PageAt(cfg, box, after));
            Stopped(cfg, p, q, x) && q.more && !q.failed && q.box == box && q.at == PageAt(cfg, box, after).next.value
  {
    hide JudgeAll, Page, Pow10, Short, AfterPage;
    var page := PageAt(cfg, box, after);
    var v := JudgeAll(p.store, MR.Envelopes(page.items), cfg.nowMs, open);
    JudgeAllFacts(p.store, MR.Envelopes(page.items), cfg.nowMs, open);
    SameStart(p.store, box, v.store, box, cfg.device, x);
    RewalkKeepsShort(v.store, box, cfg.device, page.next.value, x);
    AfterPageRewalks(v.store, page.next.value);
    PageCovers(box, cfg.nowMs, Limit(cfg), cfg.limits.byteBudget, after);
    assert p.seen + page.items != [] by { assert (p.seen + page.items)[|p.seen|] == page.items[0]; }
  }

  lemma AfterPageRewalks(st: Store, z: nat)
    ensures AfterPage(st, Some(z)).rewalk.Some? <==> st.rewalk.Some?
  {}

  /**
   Whatever the store, the opener and the page size: a walk from before an entry that pages stop at never
   comes to the end of the mailbox, and never leaves the next start at or past that entry.
   */
  lemma {:induction false} WalkStopsShort(cfg: Config, open: Opener, p: Progress, cursor: string,
      readThrough: Option<nat>, after: nat, pagesLeft: nat, x: nat)
    requires Meets(cfg, p, cursor, readThrough, after, x) && pagesLeft > 0
    ensures Stopped(cfg, p, WalkFrom(cfg, open, p, cursor, TokenOf(readThrough), pagesLeft), x)
    decreases pagesLeft
  {
    hide AnswerPoll, JudgeAll, Page, DecodeMailboxCursor, Digits, KeptPosition, Readable, Pow10, StopsAt, Short, Turn;
    HonestRequestsAreAnswered(cfg, p.box, cursor, readThrough, after);
    PageStopsShort(cfg, open, p, cursor, readThrough, after, x);
    OnePageOfTheWalk(cfg, open, p, cursor, readThrough, after, pagesLeft);
    var marked := MarkedBy(cfg, p.box, readThrough);
    if Readable(MR.Rendered(PageAt(cfg, marked, after)), CLIENT_RESPONSE_BOUND) {
      var q := Turned(cfg, open, p, readThrough, after);
      if q.received == 0 {
        if pagesLeft == 1 {
          WalkWithoutPages(cfg, open, q, Digits(q.at), Some(q.at));
        } else if q.at > HighestIssued(q.box) || q.at >= Pow10(MAX_CURSOR_DIGITS) {
          RefusedReportEndsTheWalk(cfg, open, q, pagesLeft - 1);
        } else {
          TokenReadsBack(q.at);
          StopsStill(cfg, p.box, q.box, p.store.rewalk.Some?, x);
          WalkStopsShort(cfg, open, q, Digits(q.at), Some(q.at), q.at, pagesLeft - 1, x);
        }
      }
    }
  }

  /** An answered page either cannot be read, or is judged and the walk ends with it or goes on from it. */
  lemma OnePageOfTheWalk(cfg: Config, open: Opener, p: Progress, cursor: string, readThrough: Option<nat>, after: nat,
      pagesLeft: nat)
    requires pagesLeft > 0
    requires var marked := MarkedBy(cfg, p.box, readThrough);
             AnswerPoll(p.box, cfg.limits, Request(cfg, cursor, TokenOf(readThrough)), cfg.nowMs, cfg.writes)
             == (marked, Ok(PageAt(cfg, marked, after)))
    ensures var r := WalkFrom(cfg, open, p, cursor, TokenOf(readThrough), pagesLeft);
            var marked := MarkedBy(cfg, p.box, readThrough);
            var q := Turned(cfg, open, p, readThrough, after);
            if !Readable(MR.Rendered(PageAt(cfg, marked, after)), CLIENT_RESPONSE_BOUND)
            then r == p.(box := marked, failed := true)
            else if q.received > 0 || !q.more then r == q
            else r == WalkFrom(cfg, open, q, Digits(q.at), TokenOf(Some(q.at)), pagesLeft - 1)
  {
    hide AnswerPoll, JudgeAll, Page, Readable, Digits;
  }

  lemma TokenNotEmpty(st: Store)
    ensures st.rewalk.Some? ==> KeptPosition(st.rewalk.value) != ""
  {}

  /** The walk of a poll that starts before such an entry. */
  lemma WholeWalkStopsShort(cfg: Config, open: Opener, st: Store, box: Box, x: nat)
    requires cfg.batchSize >= 0 && box.next.Some? && StopsAt(cfg, box, st.rewalk.Some?, x)
    requires Short(st, box, cfg.device, x)
    ensures Stopped(cfg, First(st, box), Walk(cfg, open, st, box), x)
  {
    hide WalkFrom, StopsAt, Pow10, DecodeMailboxCursor, KeptPosition;
    var a: nat :| a < x && StartsBelow(st, box, cfg.device, a);
    TokenNotEmpty(st);
    WalkStopsShort(cfg, open, First(st, box), PendingCursor(st), None, a, MAX_POLL_PAGES, x);
  }

  // ---- when everything is refused ------------------------------------------------------------------------------

  ghost predicate RefusesEverything(st: Store, open: Opener) {
    forall e: Envelope, nowMs: nat :: AcceptOne(st, e, nowMs, open).Err?
  }

  lemma RefusalIgnoresTheRewalk(st: Store, t: Store, open: Opener)
    requires RefusesEverything(st, open) && t == st.(rewalk := t.rewalk)
    ensures RefusesEverything(t, open)
  {
    forall e: Envelope, nowMs: nat ensures AcceptOne(t, e, nowMs, open).Err? {
      assert AcceptOne(st, e, nowMs, open).Err?;
    }
  }

  lemma {:induction false} AllAreRefused(st: Store, envelopes: seq<Envelope>, nowMs: nat, open: Opener)
    requires RefusesEverything(st, open)
    ensures var v := JudgeAll(st, envelopes, nowMs, open);
            v.store == st && v.received == 0 && |v.rejected| == |envelopes|
  {
    hide AcceptOne;
    if envelopes != [] { AllAreRefused(st, envelopes[..|envelopes| - 1], nowMs, open); }
  }

  /** A stretch of the walk that has accepted nothing. */
  ghost predicate AllRejected(p: Progress, r: Progress) {
    && r.store == p.store.(rewalk := r.store.rewalk) && r.received == p.received
    && |r.seen| - |p.seen| == |r.rejected| - |p.rejected| && p.seen <= r.seen
  }

  lemma {:induction false} WalkRefuses(cfg: Config, open: Opener, p: Progress, cursor: string,
      readThrough: Option<string>, pagesLeft: nat)
    requires RefusesEverything(p.store, open)
    ensures AllRejected(p, WalkFrom(cfg, open, p, cursor, readThrough, pagesLeft))
    decreases pagesLeft
  {
    hide AnswerPoll, Turn, RefusesEverything, Readable;
    if pagesLeft > 0 {
      var (box, answer) := AnswerPoll(p.box, cfg.limits, Request(cfg, cursor, readThrough), cfg.nowMs, cfg.writes);
      if answer.Ok? && Readable(MR.Rendered(answer.value), CLIENT_RESPONSE_BOUND) {
        var page := answer.value;
        var q := Turn(cfg, open, p, box, page);
        TurnRefuses(cfg, open, p, box, page);
        if q.received == 0 && page.next.Some? {
          var token := EncodeMailboxCursor(page.next.value);
          WalkRefuses(cfg, open, q, token, Some(token), pagesLeft - 1);
        }
      }
    }
  }

  lemma TurnRefuses(cfg: Config, open: Opener, p: Progress, box: Box, page: Batch)
    requires RefusesEverything(p.store, open)
    ensures var q := Turn(cfg, open, p, box, page); AllRejected(p, q) && RefusesEverything(q.store, open)
  {
    hide JudgeAll, RefusesEverything;
    AllAreRefused(p.store, MR.Envelopes(page.items), cfg.nowMs, open);
    RefusalIgnoresTheRewalk(p.store, Turn(cfg, open, p, box, page).store, open);
  }

  /** A whole poll of a client that refuses everything ends where it began, short of the end. */
  lemma RefusedPollStopsShort(cfg: Config, open: Opener, st: Store, box: Box, x: nat)
    requires cfg.batchSize >= 0 && box.next.Some? && StopsAt(cfg, box, st.rewalk.Some?, x)
    requires Short(st, box, cfg.device, x) && RefusesEverything(st, open)
    ensures var q := Walk(cfg, open, st, box);
            var (store, mailbox, _) := Poll(cfg, open, st, box);
            && (q.more || q.failed) && Short(store, mailbox, cfg.device, x)
            && store == st.(rewalk := store.rewalk) && (store.rewalk.Some? <==> st.rewalk.Some?)
            && mailbox == box.(marks := mailbox.marks)
  {
    hide WalkFrom, StopsAt, Short, RefusesEverything, AcksFit, Acknowledged;
    WholeWalkStopsShort(cfg, open, st, box, x);
    WalkRefuses(cfg, open, First(st, box), PendingCursor(st), None, MAX_POLL_PAGES);
  }

  /** Everything that leaves before the last of these polls. */
  function GoneBy(visits: seq<Visit>): set<EnvelopeId> {
    if visits == [] then {} else visits[0].gone + GoneBy(visits[1..])
  }

  /** Before each poll the mailbox, without what has left it, stops walks at `x`. */
  ghost predicate StopsThroughout(visits: seq<Visit>, box: Box, rewalking: bool, x: nat) {
    forall i :: 0 <= i < |visits| ==>
      StopsAt(visits[i].cfg, Left(box, GoneBy(visits[..i + 1])), rewalking, x)
  }

  ghost predicate OfDevice(visits: seq<Visit>, device: Device) {
    forall i :: 0 <= i < |visits| ==> visits[i].cfg.device == device && visits[i].cfg.batchSize >= 0
  }

  lemma StopsThroughoutTheRest(visits: seq<Visit>, box: Box, t: Box, rewalking: bool, x: nat)
    requires visits != [] && StopsThroughout(visits, box, rewalking, x)
    requires var found := Left(box, visits[0].gone); t == found.(marks := t.marks)
    ensures StopsThroughout(visits[1..], t, rewalking, x)
    ensures StopsAt(visits[0].cfg, Left(box, visits[0].gone), rewalking, x)
  {
    hide StopsAt;
    assert GoneBy(visits[..1]) == visits[0].gone by { assert visits[..1][1..] == []; }
    assert StopsAt(visits[0].cfg, Left(box, GoneBy(visits[..0 + 1])), rewalking, x);
    forall i | 0 <= i < |visits[1..]|
      ensures StopsAt(visits[1..][i].cfg, Left(t, GoneBy(visits[1..][..i + 1])), rewalking, x)
    {
      var later := GoneBy(visits[1..][..i + 1]);
      assert visits[..i + 2][1..] == visits[1..][..i + 1];
      assert GoneBy(visits[..i + 2]) == visits[0].gone + later;
      assert StopsAt(visits[i + 1].cfg, Left(box, GoneBy(visits[..i + 1 + 1])), rewalking, x);
      assert box.primary - visits[0].gone - later == box.primary - (visits[0].gone + later);
      StopsStill(visits[i + 1].cfg, Left(box, GoneBy(visits[..i + 2])), Left(t, later), rewalking, x);
    }
  }

  /** No number of polls that accept nothing ends, and nothing but positions moves. */
  lemma {:induction false} RefusedPollsNeverEnd(visits: seq<Visit>, open: Opener, st: Store, box: Box, device: Device,
      x: nat)
    requires box.next.Some? && RefusesEverything(st, open) && Short(st, box, device, x) && OfDevice(visits, device)
    requires StopsThroughout(visits, box, st.rewalk.Some?, x)
    ensures var d := Drain(visits, open, st, box);
            && !d.ended && d.store == st.(rewalk := d.store.rewalk)
            && d.box == Left(box, GoneBy(visits)).(marks := d.box.marks)
    decreases |visits|
  {
    hide Walk, Poll, RefusesEverything, Short, StopsThroughout, StopsAt;
    if visits == [] {
      assert box.primary - {} == box.primary;
    } else {
      var cfg, found := visits[0].cfg, Left(box, visits[0].gone);
      StopsThroughoutTheRest(visits, box, found, st.rewalk.Some?, x);
      SameStart(st, box, st, found, device, x);
      RefusedPollStopsShort(cfg, open, st, found, x);
      var (store, mailbox, _) := Poll(cfg, open, st, found);
      StopsThroughoutTheRest(visits, box, mailbox, st.rewalk.Some?, x);
      RefusalIgnoresTheRewalk(st, store, open);
      RefusedPollsNeverEnd(visits[1..], open, store, mailbox, device, x);
      var later := GoneBy(visits[1..]);
      assert box.primary - visits[0].gone - later == box.primary - (visits[0].gone + later);
    }
  }

  // ---- a token the relay does not take ----------------------------------------------------------------------------

  /** The relay does not take the first one's token, and there is more to come after it. */
  ghost predicate Blocks(box: Box, nowMs: nat, rewalking: bool, x: nat, y: nat) {
    x < y && LiveAt(box, x, nowMs) && LiveAt(box, y, nowMs) && NotTaken(box, rewalking, x)
  }

  /** With one envelope to a page, a walk stops on each live entry that has another behind it. */
  lemma OneToAPage(cfg: Config, box: Box, after: nat, x: nat, y: nat)
    requires Limit(cfg) == 1 && after < x < y && LiveAt(box, x, cfg.nowMs) && LiveAt(box, y, cfg.nowMs)
    ensures var page := PageAt(cfg, box, after);
            |page.items| == 1 && page.next == Some(page.items[0].position) && after < page.next.value <= x
  {
    var page := PageAt(cfg, box, after);
    PageShape(box, cfg.nowMs, 1, cfg.limits.byteBudget, after);
    PageCovers(box, cfg.nowMs, 1, cfg.limits.byteBudget, after);
    PageIsTheLongestAdmissiblePrefix(box, cfg.nowMs, 1, cfg.limits.byteBudget, after, |page.items|);
    assert page.next.None? ==> Holds(page.items, x) && Holds(page.items, y);
    assert page.next.Some? && x <= page.next.value ==> Holds(page.items, x);
  }

  lemma BlockedStops(cfg: Config, box: Box, rewalking: bool, x: nat, y: nat)
    requires Limit(cfg) == 1 && Blocks(box, cfg.nowMs, rewalking, x, y)
    ensures StopsAt(cfg, box, rewalking, x)
  {
    hide Readable, PageAt, LiveAt;
    forall after: nat | after < x ensures PageStops(cfg, box, rewalking, after, x) {
      OneToAPage(cfg, box, after, x, y);
    }
  }

  /**
   No number of polls ends.  The first of two live entries lies where the relay does not take its token, the
   relay hands out one envelope at a time and the client accepts none: then every poll leaves the mailbox
   short of its end, whatever else leaves it in between.
   */
  lemma BlockedPollsNeverEnd(visits: seq<Visit>, open: Opener, st: Store, box: Box, device: Device, after: nat, x: nat,
      y: nat)
    requires box.next.Some? && RefusesEverything(st, open) && StartsBelow(st, box, device, after) && after < x < y
    requires x in box.index && y in box.index
    requires box.index[x].id !in GoneBy(visits) && box.index[y].id !in GoneBy(visits)
    requires forall i :: 0 <= i < |visits| ==>
               && visits[i].cfg.device == device && Limit(visits[i].cfg) == 1 && visits[i].cfg.batchSize >= 0
               && Blocks(box, visits[i].cfg.nowMs, st.rewalk.Some?, x, y)
    ensures var d := Drain(visits, open, st, box);
            && !d.ended && d.store == st.(rewalk := d.store.rewalk)
            && d.box == Left(box, GoneBy(visits)).(marks := d.box.marks)
  {
    hide Drain, RefusesEverything, StartsBelow, StopsAt, Limit, Pow10;
    forall i | 0 <= i < |visits|
      ensures StopsAt(visits[i].cfg, Left(box, GoneBy(visits[..i + 1])), st.rewalk.Some?, x)
    {
      GoneEarlier(visits, i + 1);
      var t := Left(box, GoneBy(visits[..i + 1]));
      assert Blocks(box, visits[i].cfg.nowMs, st.rewalk.Some?, x, y);
      assert LiveAt(t, x, visits[i].cfg.nowMs) && LiveAt(t, y, visits[i].cfg.nowMs);
      BlockedStops(visits[i].cfg, t, st.rewalk.Some?, x, y);
    }
    RefusedPollsNeverEnd(visits, open, st, box, device, x);
  }

  lemma {:induction false} GoneEarlier(visits: seq<Visit>, n: nat)
    requires n <= |visits|
    ensures GoneBy(visits[..n]) <= GoneBy(visits)
    decreases n
  {
    if n > 0 {
      assert visits[..n][1..] == visits[1..][..n - 1];
      GoneEarlier(visits[1..], n - 1);
    }
  }

  // ---- a response the client does not read ------------------------------------------------------------------------

  /** The shorter of the texts around the envelopes in a page that ends on a position. */
  function LeastWrapper(y: nat): nat {
    Backfill.Min(WrapperBytes(None), WrapperBytes(Some(EncodeMailboxCursor(y))))
  }

  /** Wherever the index leads to this envelope, it is too long for any response. */
  ghost predicate TooLong(box: Box, id: EnvelopeId) {
    && id in box.primary
    && forall y :: y in box.index && box.index[y].id == id ==>
         box.primary[id].envelope.encodedBytes + LeastWrapper(y) > CLIENT_RESPONSE_BOUND
  }

  lemma {:induction false} ContentsOfEach(envelopes: seq<Envelope>, i: nat)
    requires i < |envelopes|
    ensures Contents(envelopes) >= envelopes[i].encodedBytes
  {
    var n := |envelopes| - 1;
    if i < n { ContentsOfEach(envelopes[..n], i); }
  }

  lemma LaterTokensAreLonger(y: nat, z: nat)
    requires y <= z
    ensures |Digits(y)| <= |Digits(z)|
  {
    hide Pow10;
    DigitsFit(z, |Digits(z)|);
    DigitsFit(y, |Digits(z)|);
  }

  /** No readable page holds it. */
  lemma NeverRead(cfg: Config, box: Box, after: nat, id: EnvelopeId, i: nat)
    requires Keyed(box) && TooLong(box, id)
    requires var page := PageAt(cfg, box, after);
             i < |page.items| && Readable(MR.Rendered(page), CLIENT_RESPONSE_BOUND)
    ensures PageAt(cfg, box, after).items[i].envelope.id != id
  {
    hide Digits;
    var page := PageAt(cfg, box, after);
    var y := page.items[i].position;
    PageCovers(box, cfg.nowMs, Limit(cfg), cfg.limits.byteBudget, after);
    assert LiveAt(box, y, cfg.nowMs);
    ContentsOfEach(MR.Envelopes(page.items), i);
    if page.next.Some? { LaterTokensAreLonger(y, page.next.value); }
    assert WrapperBytes(MR.Rendered(page).nextCursor) >= LeastWrapper(y);
  }

  lemma TooLongStops(cfg: Config, box: Box, rewalking: bool, x: nat)
    requires Keyed(box) && LiveAt(box, x, cfg.nowMs) && TooLong(box, box.index[x].id)
    ensures StopsAt(cfg, box, rewalking, x)
  {
    hide Readable, TooLong;
    forall after: nat | after < x ensures PageStops(cfg, box, rewalking, after, x) {
      var page := PageAt(cfg, box, after);
      PageCovers(box, cfg.nowMs, Limit(cfg), cfg.limits.byteBudget, after);
      if Readable(MR.Rendered(page), CLIENT_RESPONSE_BOUND) && (page.next.None? || x <= page.next.value) {
        assert Holds(page.items, x);
        var i: nat :| i < |page.items| && page.items[i].position == x;
        NeverRead(cfg, box, after, box.index[x].id, i);
        assert false;
      }
    }
  }

  lemma {:induction false} AcksComeFrom(st: Store, envelopes: seq<Envelope>, nowMs: nat, open: Opener, id: EnvelopeId)
    requires id !in st.acks && forall i :: 0 <= i < |envelopes| ==> envelopes[i].id != id
    ensures id !in JudgeAll(st, envelopes, nowMs, open).store.acks
  {
    if envelopes != [] {
      var n := |envelopes| - 1;
      AcksComeFrom(st, envelopes[..n], nowMs, open, id);
    }
  }

  /** What the relay answers is a page of the mailbox it has. */
  lemma AnswerIsAPage(cfg: Config, box: Box, cursor: string, readThrough: Option<string>) returns (resume: nat)
    requires box.next.Some?
    ensures var request := Request(cfg, cursor, readThrough);
            var (after, answer) := AnswerPoll(box, cfg.limits, request, cfg.nowMs, cfg.writes);
            after == box.(marks := after.marks) && (answer.Ok? ==> answer.value == PageAt(cfg, after, resume))
  {
    hide Page, DecodeMailboxCursor, Digits, Limit;
    var (after, answer) := AnswerPoll(box, cfg.limits, Request(cfg, cursor, readThrough), cfg.nowMs, cfg.writes);
    resume := 0;
    if answer.Ok? {
      resume :| answer.value == Page(after, cfg.nowMs, PollBatchSize(cfg.limits.maxBatch, cfg.batchSize),
                                     cfg.limits.byteBudget, resume);
      LimitIs(cfg);
    }
  }

  lemma LimitIs(cfg: Config)
    ensures Limit(cfg) == PollBatchSize(cfg.limits.maxBatch, cfg.batchSize)
  {}

  lemma TurnLeavesUnread(cfg: Config, open: Opener, p: Progress, box: Box, resume: nat, id: EnvelopeId)
    requires Keyed(box) && TooLong(box, id) && id !in p.store.acks
    requires Readable(MR.Rendered(PageAt(cfg, box, resume)), CLIENT_RESPONSE_BOUND)
    ensures id !in Turn(cfg, open, p, box, PageAt(cfg, box, resume)).store.acks
  {
    hide JudgeAll, Page, Readable, TooLong;
    var page := PageAt(cfg, box, resume);
    forall i | 0 <= i < |page.items| ensures page.items[i].envelope.id != id {
      NeverRead(cfg, box, resume, id, i);
    }
    AcksComeFrom(p.store, MR.Envelopes(page.items), cfg.nowMs, open, id);
  }

  /** A walk never acknowledges it. */
  lemma {:induction false} WalkLeavesUnread(cfg: Config, open: Opener, p: Progress, cursor: string,
      readThrough: Option<string>, pagesLeft: nat, id: EnvelopeId)
    requires p.box.next.Some? && Keyed(p.box) && TooLong(p.box, id) && id !in p.store.acks
    ensures id !in WalkFrom(cfg, open, p, cursor, readThrough, pagesLeft).store.acks
    decreases pagesLeft
  {
    hide AnswerPoll, Turn, PageAt, Readable, LeastWrapper;
    if pagesLeft > 0 {
      var resume := AnswerIsAPage(cfg, p.box, cursor, readThrough);
      var (box, answer) := AnswerPoll(p.box, cfg.limits, Request(cfg, cursor, readThrough), cfg.nowMs, cfg.writes);
      if answer.Ok? && Readable(MR.Rendered(answer.value), CLIENT_RESPONSE_BOUND) {
        var page := answer.value;
        var q := Turn(cfg, open, p, box, page);
        TurnLeavesUnread(cfg, open, p, box, resume, id);
        TurnBox(cfg, open, p, box, page);
        if q.received == 0 && page.next.Some? {
          var token := EncodeMailboxCursor(page.next.value);
          WalkLeavesUnread(cfg, open, q, token, Some(token), pagesLeft - 1, id);
        }
      }
    }
  }

  lemma TurnBox(cfg: Config, open: Opener, p: Progress, box: Box, page: Batch)
    ensures Turn(cfg, open, p, box, page).box == box
  {}

  /** A whole poll leaves it stored and unacknowledged, and itself short of the end. */
  lemma UnreadPollStopsShort(cfg: Config, open: Opener, st: Store, box: Box, x: nat)
    requires cfg.batchSize >= 0 && box.next.Some? && Keyed(box) && Short(st, box, cfg.device, x)
    requires LiveAt(box, x, cfg.nowMs) && TooLong(box, box.index[x].id) && box.index[x].id !in st.acks
    ensures var q := Walk(cfg, open, st, box);
            var (store, mailbox, _) := Poll(cfg, open, st, box);
            && (q.more || q.failed) && Short(store, mailbox, cfg.device, x) && box.index[x].id !in store.acks
            && Remains(box, mailbox) && box.index[x].id in mailbox.primary
  {
    hide WalkFrom, StopsAt, Short, AcksFit, LeastWrapper;
    var id := box.index[x].id;
    TooLongStops(cfg, box, st.rewalk.Some?, x);
    WholeWalkStopsShort(cfg, open, st, box, x);
    WalkLeavesUnread(cfg, open, First(st, box), PendingCursor(st), None, MAX_POLL_PAGES, id);
    var q := Walk(cfg, open, st, box);
    var (store, mailbox, _) := Poll(cfg, open, st, box);
    SameStart(q.store, q.box, store, mailbox, cfg.device, x);
  }

  /**
   Whatever the store, the opener and the page size, whatever lies before it and whatever else leaves the
   mailbox: no number of polls gets past an envelope that is too long for the client while it stays live, and
   none acknowledges it.
   */
  lemma {:induction false} AnUnreadableEnvelopeStopsEveryPoll(visits: seq<Visit>, open: Opener, st: Store, box: Box,
      device: Device, after: nat, x: nat)
    requires box.next.Some? && Keyed(box) && StartsBelow(st, box, device, after) && after < x
    requires x in box.index && TooLong(box, box.index[x].id) && box.index[x].id !in st.acks
    requires forall i :: 0 <= i < |visits| ==>
               && visits[i].cfg.device == device && visits[i].cfg.batchSize >= 0
               && LiveAt(box, x, visits[i].cfg.nowMs) && box.index[x].id !in visits[i].gone
    ensures var d := Drain(visits, open, st, box);
            !d.ended && Remains(box, d.box) && box.index[x].id in d.box.primary && box.index[x].id !in d.store.acks
    decreases |visits|
  {
    hide Walk, Poll, StartsBelow, LeastWrapper;
    var id := box.index[x].id;
    if visits != [] {
      var cfg, found := visits[0].cfg, Left(box, visits[0].gone);
      LeavingRemains(box, visits[0].gone);
      assert Short(st, box, device, x);
      SameStart(st, box, st, found, device, x);
      UnreadPollStopsShort(cfg, open, st, found, x);
      var (store, mailbox, _) := Poll(cfg, open, st, found);
      var next: nat :| next < x && StartsBelow(store, mailbox, device, next);
      RemainsTwice(box, found, mailbox);
      StaysKeyed(box, mailbox);
      AnUnreadableEnvelopeStopsEveryPoll(visits[1..], open, store, mailbox, device, next, x);
      RemainsTwice(box, mailbox, Drain(visits[1..], open, store, mailbox).box);
    }
  }
}
