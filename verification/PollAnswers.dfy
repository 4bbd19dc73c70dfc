/**
 What a poll answers: when it raises a rejection and which one, how far it walks a mailbox that yields nothing,
 and that it walks no further than the page that yielded something.
 */
module PollAnswers {
  import opened Wrappers
  import opened Decimals
  import opened MailboxState
  import opened Paging
  import opened ClientStore
  import opened MailboxHandler
  import opened PageFit
  import opened PollBlocked
  import opened PollWalk
  import MR = MailboxRepository

  /** Every one of these was refused, each for the reason the store of the beginning gives. */
  ghost predicate AllRefusedAs(st: Store, seen: seq<Item>, rejected: Refusals, nowMs: nat, open: Opener) {
    && |rejected| == |seen|
    && forall i :: 0 <= i < |seen| ==>
         rejected[i].0 == seen[i].envelope.id
         && AcceptOne(st, seen[i].envelope, nowMs, open) == Err(rejected[i].1)
  }

  /** A refusal does not look at the re-walk position. */
  lemma VerdictIgnoresTheRewalk(st: Store, t: Store, e: Envelope, nowMs: nat, open: Opener)
    requires t == st.(rewalk := t.rewalk)
    ensures AcceptOne(t, e, nowMs, open).Err? ==> AcceptOne(st, e, nowMs, open) == AcceptOne(t, e, nowMs, open)
  {}

  lemma {:induction false} JudgedAs(st: Store, t: Store, items: seq<Item>, nowMs: nat, open: Opener)
    requires t == st.(rewalk := t.rewalk)
    ensures var v := JudgeAll(t, MR.Envelopes(items), nowMs, open);
            v.received == 0 ==> v.store == t && AllRefusedAs(st, items, v.rejected, nowMs, open)
  {
    hide AcceptOne;
    if items != [] {
      var n := |items| - 1;
      assert MR.Envelopes(items)[..n] == MR.Envelopes(items[..n]);
      JudgedAs(st, t, items[..n], nowMs, open);
      VerdictIgnoresTheRewalk(st, t, items[n].envelope, nowMs, open);
    }
  }

  /** A walk that has accepted nothing so far. */
  ghost predicate Fruitless(cfg: Config, open: Opener, st: Store, p: Progress) {
    p.received == 0 && p.store == st.(rewalk := p.store.rewalk)
    && AllRefusedAs(st, p.seen, p.rejected, cfg.nowMs, open)
  }

  lemma TurnStaysFruitless(cfg: Config, open: Opener, st: Store, p: Progress, box: Box, page: Batch)
    requires Fruitless(cfg, open, st, p)
    ensures var q := Turn(cfg, open, p, box, page);
            && q.seen == p.seen + page.items && p.rejected <= q.rejected
            && (q.received == 0 ==> Fruitless(cfg, open, st, q))
  {
    hide AcceptOne, JudgeAll;
    JudgedAs(st, p.store, page.items, cfg.nowMs, open);
  }

  /** What a stretch of the page loop has come to. */
  ghost predicate Walked(cfg: Config, open: Opener, st: Store, p: Progress, r: Progress, pagesLeft: nat) {
    if r.received == 0 then
      Fruitless(cfg, open, st, r) && (!r.failed && r.more ==> |r.seen| >= |p.seen| + pagesLeft)
    else exists n: nat :: FruitlessUntil(cfg, open, st, r, n)
  }

  /** Only the last page, of what was seen from `n` on, yielded anything. */
  ghost predicate FruitlessUntil(cfg: Config, open: Opener, st: Store, r: Progress, n: nat) {
    n <= |r.seen| <= n + Limit(cfg) && n <= |r.rejected|
    && AllRefusedAs(st, r.seen[..n], r.rejected[..n], cfg.nowMs, open)
  }

  lemma {:induction false} WalkComesTo(cfg: Config, open: Opener, st: Store, p: Progress, cursor: string,
      readThrough: Option<string>, pagesLeft: nat)
    requires Fruitless(cfg, open, st, p)
    ensures Walked(cfg, open, st, p, WalkFrom(cfg, open, p, cursor, readThrough, pagesLeft), pagesLeft)
    decreases pagesLeft
  {
    hide AnswerPoll, Turn, Readable, AllRefusedAs, Limit;
    if pagesLeft > 0 {
      var (box, answer) := AnswerPoll(p.box, cfg.limits, Request(cfg, cursor, readThrough), cfg.nowMs, cfg.writes);
      if answer.Ok? && Readable(MR.Rendered(answer.value), CLIENT_RESPONSE_BOUND) {
        var page := answer.value;
        var q := Turn(cfg, open, p, box, page);
        TurnStaysFruitless(cfg, open, st, p, box, page);
        PageSize(cfg, p.box, cursor, readThrough);
        if q.received > 0 {
          FruitfulPage(cfg, open, st, p, box, page);
        } else if page.next.Some? {
          var token := EncodeMailboxCursor(page.next.value);
          WalkComesTo(cfg, open, st, q, token, Some(token), pagesLeft - 1);
        } else {
          TurnMore(cfg, open, p, box, page);
        }
      }
    }
  }

  lemma TurnMore(cfg: Config, open: Opener, p: Progress, box: Box, page: Batch)
    ensures Turn(cfg, open, p, box, page).more == page.next.Some?
  {}

  lemma PageSize(cfg: Config, box: Box, cursor: string, readThrough: Option<string>)
    ensures var answer := AnswerPoll(box, cfg.limits, Request(cfg, cursor, readThrough), cfg.nowMs, cfg.writes).1;
            answer.Ok? ==> |answer.value.items| <= Limit(cfg) && (answer.value.next.Some? ==> answer.value.items != [])
  {
    hide Page, DecodeMailboxCursor, Digits;
    var (after, answer) := AnswerPoll(box, cfg.limits, Request(cfg, cursor, readThrough), cfg.nowMs, cfg.writes);
    if answer.Ok? {
      var resume: nat :| answer.value == Page(after, cfg.nowMs, Limit(cfg), cfg.limits.byteBudget, resume);
      PageShape(after, cfg.nowMs, Limit(cfg), cfg.limits.byteBudget, resume);
      PageCovers(after, cfg.nowMs, Limit(cfg), cfg.limits.byteBudget, resume);
      PageIsTheLongestAdmissiblePrefix(after, cfg.nowMs, Limit(cfg), cfg.limits.byteBudget, resume,
                                       |answer.value.items|);
    }
  }

  lemma FruitfulPage(cfg: Config, open: Opener, st: Store, p: Progress, box: Box, page: Batch)
    requires Fruitless(cfg, open, st, p) && |page.items| <= Limit(cfg)
    ensures FruitlessUntil(cfg, open, st, Turn(cfg, open, p, box, page), |p.seen|)
  {
    hide JudgeAll, AcceptOne;
    var q := Turn(cfg, open, p, box, page);
    assert q.seen[..|p.seen|] == p.seen && q.rejected[..|p.rejected|] == p.rejected;
  }

  /** The whole walk of a poll. */
  lemma APollWalks(cfg: Config, open: Opener, st: Store, box: Box)
    ensures Walked(cfg, open, st, First(st, box), Walk(cfg, open, st, box), 16)
  {
    WalkComesTo(cfg, open, st, First(st, box), PendingCursor(st), None, MAX_POLL_PAGES);
  }

  /**
   How far a poll walks.  One that has accepted nothing and says more remain has seen at least sixteen envelopes,
   one for each page it may ask for; one that has accepted something saw no more than that page after the last
   envelope it knew to be refused.
   */
  lemma APollWalksOn(cfg: Config, open: Opener, st: Store, box: Box)
    ensures var r := Walk(cfg, open, st, box);
            && (r.received == 0 && r.more && !r.failed ==> |r.seen| >= 16)
            && (r.received > 0 ==>
                  exists n: nat :: n <= |r.seen| <= n + Limit(cfg) && RefusedUpTo(cfg, open, st, r.seen, n))
  {
    hide Walk, AllRefusedAs, Limit;
    APollWalks(cfg, open, st, box);
    var r := Walk(cfg, open, st, box);
    if r.received > 0 {
      var n: nat :| FruitlessUntil(cfg, open, st, r, n);
      UntilIsRefused(cfg, open, st, r, n);
    }
  }

  ghost predicate RefusedUpTo(cfg: Config, open: Opener, st: Store, seen: seq<Item>, n: nat)
    requires n <= |seen|
  {
    forall i :: 0 <= i < n ==> AcceptOne(st, seen[i].envelope, cfg.nowMs, open).Err?
  }

  lemma UntilIsRefused(cfg: Config, open: Opener, st: Store, r: Progress, n: nat)
    requires FruitlessUntil(cfg, open, st, r, n)
    ensures RefusedUpTo(cfg, open, st, r.seen, n)
  {
    hide AcceptOne;
    forall i | 0 <= i < n ensures AcceptOne(st, r.seen[i].envelope, cfg.nowMs, open).Err? {
      assert r.seen[..n][i] == r.seen[i];
    }
  }

  /**
   What it answers.  A rejection is raised exactly when the relay served every page, some envelope was seen and
   the store refuses every one of them, and it is the reason for the first; an unknown sender in particular is
   answered as one exactly when that first envelope is addressed to this device and its sender was never imported.
   Otherwise the answer counts what was accepted, and names what was refused.
   */
  lemma WhatAPollAnswers(cfg: Config, open: Opener, st: Store, box: Box)
    ensures var r := Walk(cfg, open, st, box);
            var (store, _, outcome) := Poll(cfg, open, st, box);
            && (outcome.Refused? <==> !r.failed && r.received == 0 && r.seen != [])
            && (outcome.Refused? ==>
                  && RefusedUpTo(cfg, open, st, r.seen, |r.seen|)
                  && AcceptOne(st, r.seen[0].envelope, cfg.nowMs, open) == Err(outcome.reason)
                  && store == st.(rewalk := store.rewalk)
                  && (outcome.reason == ContactNotTrusted
                      <==> Addressed(st, r.seen[0].envelope, cfg.nowMs)
                           && r.seen[0].envelope.sender !in st.contacts)
                  && (outcome.reason == ContactPinMismatch
                      <==> && Addressed(st, r.seen[0].envelope, cfg.nowMs)
                           && r.seen[0].envelope.sender in st.contacts
                           && !FromAPinnedContact(st, r.seen[0].envelope)))
            && (outcome.Polled? ==>
                  !r.failed && outcome.received == r.received && outcome.rejected == r.rejected
                  && outcome.more == r.more && store.acks == map[])
  {
    hide Walk, AcceptOne, Addressed, FromAPinnedContact;
    APollWalks(cfg, open, st, box);
    var r := Walk(cfg, open, st, box);
    if r.received == 0 && r.seen != [] {
      WhichRejection(st, r.seen[0].envelope, cfg.nowMs, open);
      assert AcceptOne(st, r.seen[0].envelope, cfg.nowMs, open) == Err(r.rejected[0].1);
    }
  }

  /** A response of more than a hundred envelopes, or beyond the client's bound, ends the poll unread. */
  lemma AnOversizedResponseEndsThePoll(cfg: Config, open: Opener, p: Progress, cursor: string,
      readThrough: Option<string>, pagesLeft: nat)
    requires pagesLeft > 0
    requires var answer := AnswerPoll(p.box, cfg.limits, Request(cfg, cursor, readThrough), cfg.nowMs, cfg.writes).1;
             answer.Ok? && (|answer.value.items| > 100 || ResponseBytes(MR.Rendered(answer.value)) > 1024 * 1024)
    ensures var r := WalkFrom(cfg, open, p, cursor, readThrough, pagesLeft);
            r.failed && r.store == p.store && r.seen == p.seen && r.received == p.received
  {
    hide AnswerPoll, ResponseBytes;
    TheBoundsAre();
  }

  /** What no client issued as a re-walk position starts over at the head of the mailbox. */
  lemma AKeptPositionIsReadable(token: string)
    ensures IsToken(token) ==> KeptPosition(token) == token
    ensures DecodeMailboxCursor(KeptPosition(token)) == Ok(if IsToken(token) then Value(token) else 0)
  {
    hide Value;
    AcceptedCursorsAre(token);
    ZeroReads();
  }

  lemma ZeroReads()
    ensures DecodeMailboxCursor("0") == Ok(0)
  {
    assert "0"[..0] == "";
  }
}
