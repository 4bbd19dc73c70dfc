/**
 One `poll` of the recipient as a function of its store and the relay's mailbox: what the relay answers an
 honest walk, what each page does to the store, and what the page loop has achieved when it is left.
 */
module PollWalk {
  import opened Wrappers
  import opened Decimals
  import opened MailboxState
  import opened Paging
  import opened Backfill
  import opened ClientStore
  import opened MailboxHandler
  import opened PageFit
  import opened Sets
  import MR = MailboxRepository

  /** How many pages one poll walks while every page has yielded nothing. */
  const MAX_POLL_PAGES: nat := 16

  /** How many identifiers one acknowledgement request of the client carries. */
  const ACK_CHUNK: nat := 100

  datatype Config = Config(limits: Limits, device: Device, batchSize: int, nowMs: nat, writes: nat)

  // ---- judging a page -------------------------------------------------------------------------------

  type Refusals = seq<(EnvelopeId, Rejection)>

  datatype Verdicts = Verdicts(store: Store, received: nat, rejected: Refusals)

  /** Each envelope in its own transaction; a refused one leaves no trace in the store. */
  function JudgeAll(st: Store, envelopes: seq<Envelope>, nowMs: nat, open: Opener): Verdicts {
    if envelopes == [] then Verdicts(st, 0, [])
    else JudgeOne(JudgeAll(st, envelopes[..|envelopes| - 1], nowMs, open), envelopes[|envelopes| - 1], nowMs, open)
  }

  function JudgeOne(before: Verdicts, e: Envelope, nowMs: nat, open: Opener): Verdicts {
    match AcceptOne(before.store, e, nowMs, open)
    case Ok(after) => before.(store := after, received := before.received + 1)
    case Err(reason) => before.(rejected := before.rejected + [(e.id, reason)])
  }

  ghost predicate RefusedIn(rejected: Refusals, id: EnvelopeId) {
    exists i :: 0 <= i < |rejected| && rejected[i].0 == id
  }

  /** Refused, or accepted with its acknowledgement pending. */
  ghost predicate Decided(store: Store, received: nat, rejected: Refusals, id: EnvelopeId) {
    RefusedIn(rejected, id) || (received > 0 && id in store.acks)
  }

  lemma RefusedInLonger(a: Refusals, b: Refusals, id: EnvelopeId)
    requires RefusedIn(a, id) || RefusedIn(b, id)
    ensures RefusedIn(a + b, id)
  {
    if RefusedIn(a, id) {
      var i :| 0 <= i < |a| && a[i].0 == id;
      assert (a + b)[i].0 == id;
    } else {
      var i :| 0 <= i < |b| && b[i].0 == id;
      assert (a + b)[|a| + i].0 == id;
    }
  }

  /** What judging a page comes to. */
  ghost predicate JudgedInto(st: Store, envelopes: seq<Envelope>, v: Verdicts) {
    && v.received + |v.rejected| == |envelopes|
    && v.store.rewalk == st.rewalk
    && st.acks.Keys <= v.store.acks.Keys
    && (v.received > 0 ==> exists i :: 0 <= i < |envelopes| && envelopes[i].id in v.store.acks)
    && (v.received == 0 ==> v.store == st)
    && forall i :: 0 <= i < |envelopes| ==> Decided(v.store, v.received, v.rejected, envelopes[i].id)
  }

  /**
   Judging accepts or refuses every envelope, whatever became of the others.  It keeps the re-walk position,
   only adds acknowledgements, and leaves the store as it was when it refuses everything.
   */
  lemma {:induction false} JudgeAllFacts(st: Store, envelopes: seq<Envelope>, nowMs: nat, open: Opener)
    ensures JudgedInto(st, envelopes, JudgeAll(st, envelopes, nowMs, open))
  {
    if envelopes != [] {
      hide JudgedInto, JudgeOne;
      var front, e := envelopes[..|envelopes| - 1], envelopes[|envelopes| - 1];
      JudgeAllFacts(st, front, nowMs, open);
      OneMoreDecided(st, front, JudgeAll(st, front, nowMs, open), e, nowMs, open);
      assert envelopes == front + [e];
    }
  }

  lemma OneMoreDecided(st: Store, front: seq<Envelope>, before: Verdicts, e: Envelope, nowMs: nat, open: Opener)
    requires JudgedInto(st, front, before)
    ensures JudgedInto(st, front + [e], JudgeOne(before, e, nowMs, open))
  {
    hide Addressed, KeyOf;
    var v, all := JudgeOne(before, e, nowMs, open), front + [e];
    assert all[|front|] == e;
    if before.received > 0 {
      var i :| 0 <= i < |front| && front[i].id in before.store.acks;
      assert all[i].id in v.store.acks;
    }
    forall i | 0 <= i < |all| ensures Decided(v.store, v.received, v.rejected, all[i].id) {
      if i < |front| {
        DecidedLater(before, v, front[i].id);
      } else if v.received == before.received {
        assert v.rejected[|before.rejected|].0 == e.id;
      }
    }
  }

  lemma DecidedLater(before: Verdicts, v: Verdicts, id: EnvelopeId)
    requires Decided(before.store, before.received, before.rejected, id)
    requires before.rejected <= v.rejected && before.received <= v.received
    requires before.store.acks.Keys <= v.store.acks.Keys
    ensures Decided(v.store, v.received, v.rejected, id)
  {
    if RefusedIn(before.rejected, id) {
      assert v.rejected == before.rejected + v.rejected[|before.rejected|..];
      RefusedInLonger(before.rejected, v.rejected[|before.rejected|..], id);
    }
  }

  /** What judging leaves of an envelope: its message is committed as it was sealed, or it was refused. */
  ghost predicate CommittedOrRefused(store: Store, rejected: Refusals, e: Envelope) {
    Committed(store, e) || RefusedIn(rejected, e.id)
  }

  lemma StaysCommittedOrRefused(before: Store, store: Store, a: Refusals, b: Refusals, e: Envelope)
    requires CommittedOrRefused(before, a, e) && Extends(before, store) && a <= b
    ensures CommittedOrRefused(store, b, e)
  {
    if RefusedIn(a, e.id) {
      assert b == a + b[|a|..];
      RefusedInLonger(a, b[|a|..], e.id);
    }
  }

  ghost predicate JudgedHonestly(st: Store, envelopes: seq<Envelope>, v: Verdicts) {
    && Consistent(v.store) && Extends(st, v.store)
    && forall i :: 0 <= i < |envelopes| ==> CommittedOrRefused(v.store, v.rejected, envelopes[i])
  }

  /** Over an honest store: every envelope committed or refused, nothing earlier lost or replaced. */
  lemma {:induction false} JudgingCommitsOrRefuses(st: Store, envelopes: seq<Envelope>, nowMs: nat, open: Opener)
    requires Consistent(st) && Authentic(open)
    ensures JudgedHonestly(st, envelopes, JudgeAll(st, envelopes, nowMs, open))
  {
    if envelopes != [] {
      hide JudgedHonestly, JudgeOne, Consistent, Authentic;
      var front, e := envelopes[..|envelopes| - 1], envelopes[|envelopes| - 1];
      JudgingCommitsOrRefuses(st, front, nowMs, open);
      OneMoreJudged(st, front, JudgeAll(st, front, nowMs, open), e, nowMs, open);
      assert envelopes == front + [e];
    }
  }

  lemma OneMoreJudged(st: Store, front: seq<Envelope>, before: Verdicts, e: Envelope, nowMs: nat, open: Opener)
    requires JudgedHonestly(st, front, before) && Authentic(open)
    ensures JudgedHonestly(st, front + [e], JudgeOne(before, e, nowMs, open))
  {
    hide Consistent, CommittedOrRefused;
    var v, all := JudgeOne(before, e, nowMs, open), front + [e];
    JudgedAlone(before, e, nowMs, open);
    forall i | 0 <= i < |all| ensures CommittedOrRefused(v.store, v.rejected, all[i]) {
      if i < |front| {
        StaysCommittedOrRefused(before.store, v.store, before.rejected, v.rejected, front[i]);
      }
    }
  }

  lemma JudgedAlone(before: Verdicts, e: Envelope, nowMs: nat, open: Opener)
    requires Consistent(before.store) && Authentic(open)
    ensures var v := JudgeOne(before, e, nowMs, open);
            && Consistent(v.store) && Extends(before.store, v.store) && before.rejected <= v.rejected
            && CommittedOrRefused(v.store, v.rejected, e)
  {
    hide AcceptOne, Consistent;
    match AcceptOne(before.store, e, nowMs, open)
    case Ok(_) => AcceptOneIsExactlyOnce(before.store, e, nowMs, open);
    case Err(reason) => assert (before.rejected + [(e.id, reason)])[|before.rejected|].0 == e.id;
  }

  // ---- the walk ------------------------------------------------------------------------------------

  datatype Progress = Progress(
    store: Store,
    box: Box,
    received: nat,
    rejected: Refusals,
    more: bool,
    failed: bool,                // the relay refused a request, or its response could not be read
    seen: seq<Item>,             // everything this poll has judged
    at: nat                      // the position of the last page's cursor
  )

  /** The re-walk position the client keeps: a token of at most fifteen digits, anything else starts over. */
  function KeptPosition(token: string): string {
    if 1 <= |token| <= 15 && AllDigits(token) then token else "0"
  }

  function Request(cfg: Config, cursor: string, readThrough: Option<string>): PollRequest {
    PollRequest(cfg.device, cfg.batchSize, cursor, readThrough, true)
  }

  /** The durable re-walk position after a judged page: advanced while it is pending, gone at the end. */
  function AfterPage(st: Store, next: Option<nat>): Store {
    if st.rewalk.None? then st
    else st.(rewalk := if next.Some? then Some(KeptPosition(EncodeMailboxCursor(next.value))) else None)
  }

  /** The page loop of a poll.  A response beyond the client's bound is a failure like a refusal. */
  ghost function WalkFrom(cfg: Config, open: Opener, p: Progress, cursor: string, readThrough: Option<string>,
      pagesLeft: nat): Progress
    decreases pagesLeft
  {
    if pagesLeft == 0 then p else
    var (box, answer) := AnswerPoll(p.box, cfg.limits, Request(cfg, cursor, readThrough), cfg.nowMs, cfg.writes);
    if answer.Err? || !Readable(MR.Rendered(answer.value), CLIENT_RESPONSE_BOUND)
    then p.(box := box, failed := true)
    else
      var page := answer.value;
      var q := Turn(cfg, open, p, box, page);
      if q.received > 0 || page.next.None? then q
      else
        var token := EncodeMailboxCursor(page.next.value);
        WalkFrom(cfg, open, q, token, Some(token), pagesLeft - 1)
  }

  /** One page: everything on it judged, then the re-walk position moved. */
  ghost function Turn(cfg: Config, open: Opener, p: Progress, box: Box, page: Batch): Progress {
    var v := JudgeAll(p.store, MR.Envelopes(page.items), cfg.nowMs, open);
    Progress(AfterPage(v.store, page.next), box, p.received + v.received, p.rejected + v.rejected, page.next.Some?,
        false, p.seen + page.items, if page.next.Some? then page.next.value else p.at)
  }

  datatype PollOutcome =
    | Polled(received: nat, more: bool, rejected: Refusals)
    | Refused(reason: Rejection)              // nothing was accepted: the first rejection is raised
    | RelayFailed

  ghost function PendingCursor(st: Store): string {
    if st.rewalk.Some? then KeptPosition(st.rewalk.value) else ""
  }

  ghost function First(st: Store, box: Box): Progress { Progress(st, box, 0, [], false, false, [], 0) }

  ghost function Walk(cfg: Config, open: Opener, st: Store, box: Box): Progress {
    WalkFrom(cfg, open, First(st, box), PendingCursor(st), None, MAX_POLL_PAGES)
  }

  /** Whether the relay takes the client's acknowledgement requests, the first of which is the longest. */
  predicate AcksFit(limits: Limits, acks: map<EnvelopeId, InboxKey>) {
    Min(|acks|, ACK_CHUNK) <= MaxAckedEnvelopeIds(limits.maxBatch)
  }

  /** Every acknowledgement that is pending is delivered and forgotten. */
  ghost function Acknowledged(st: Store, box: Box): (Store, Box) {
    (st.(acks := map[]), box.(primary := box.primary - st.acks.Keys))
  }

  /** A whole poll: the walk, then the acknowledgements unless the walk is reported as a failure. */
  ghost function Poll(cfg: Config, open: Opener, st: Store, box: Box): (Store, Box, PollOutcome) {
    var p := Walk(cfg, open, st, box);
    if p.failed then (p.store, p.box, RelayFailed)
    else if p.received == 0 && p.rejected != [] then (p.store, p.box, Refused(p.rejected[0].1))
    else if !AcksFit(cfg.limits, p.store.acks) then (p.store, p.box, RelayFailed)
    else
      var (store, mailbox) := Acknowledged(p.store, p.box);
      (store, mailbox, Polled(p.received, p.more, p.rejected))
  }

  // ---- a poll commits or refuses what it judges -------------------------------------------------------

  /** What a stretch of the walk has done with the envelopes it judged. */
  ghost predicate Committing(p: Progress, q: Progress) {
    && Consistent(q.store) && Extends(p.store, q.store) && p.seen <= q.seen && p.rejected <= q.rejected
    && forall i :: |p.seen| <= i < |q.seen| ==> CommittedOrRefused(q.store, q.rejected, q.seen[i].envelope)
  }

  lemma AfterPageStaysConsistent(st: Store, next: Option<nat>)
    requires Consistent(st)
    ensures Consistent(AfterPage(st, next)) && Extends(st, AfterPage(st, next))
  {
    SameMessagesStayConsistent(st, AfterPage(st, next));
  }

  lemma TurnCommits(cfg: Config, open: Opener, p: Progress, box: Box, page: Batch)
    requires Consistent(p.store) && Authentic(open)
    ensures Committing(p, Turn(cfg, open, p, box, page))
  {
    hide JudgeAll, Consistent;
    var envelopes := MR.Envelopes(page.items);
    var v := JudgeAll(p.store, envelopes, cfg.nowMs, open);
    var q := Turn(cfg, open, p, box, page);
    JudgingCommitsOrRefuses(p.store, envelopes, cfg.nowMs, open);
    AfterPageStaysConsistent(v.store, page.next);
    forall i | |p.seen| <= i < |q.seen| ensures CommittedOrRefused(q.store, q.rejected, q.seen[i].envelope) {
      var e := envelopes[i - |p.seen|];
      assert CommittedOrRefused(v.store, v.rejected, e);
      if RefusedIn(v.rejected, e.id) { RefusedInLonger(p.rejected, v.rejected, e.id); }
    }
  }

  lemma CommittingTwice(p: Progress, q: Progress, r: Progress)
    requires Committing(p, q) && Committing(q, r)
    ensures Committing(p, r)
  {
    hide Consistent;
    forall i | |p.seen| <= i < |r.seen| ensures CommittedOrRefused(r.store, r.rejected, r.seen[i].envelope) {
      if i < |q.seen| {
        assert r.seen[i] == q.seen[i];
        StaysCommittedOrRefused(q.store, r.store, q.rejected, r.rejected, q.seen[i].envelope);
      }
    }
  }

  /** However the loop goes, each envelope it has judged is committed in the resulting store or was refused. */
  lemma {:induction false} WalkCommits(cfg: Config, open: Opener, p: Progress, cursor: string,
      readThrough: Option<string>, pagesLeft: nat)
    requires Consistent(p.store) && Authentic(open)
    ensures Committing(p, WalkFrom(cfg, open, p, cursor, readThrough, pagesLeft))
    decreases pagesLeft
  {
    hide AnswerPoll, Turn, Consistent, Readable, CommittedOrRefused;
    if pagesLeft > 0 {
      var (box, answer) := AnswerPoll(p.box, cfg.limits, Request(cfg, cursor, readThrough), cfg.nowMs, cfg.writes);
      if answer.Ok? && Readable(MR.Rendered(answer.value), CLIENT_RESPONSE_BOUND) {
        var page := answer.value;
        var q := Turn(cfg, open, p, box, page);
        TurnCommits(cfg, open, p, box, page);
        if q.received == 0 && page.next.Some? {
          var token := EncodeMailboxCursor(page.next.value);
          WalkCommits(cfg, open, q, token, Some(token), pagesLeft - 1);
          CommittingTwice(p, q, WalkFrom(cfg, open, q, token, Some(token), pagesLeft - 1));
        }
      }
    }
  }

  /** And so it is after the whole poll. */
  lemma PollCommits(cfg: Config, open: Opener, st: Store, box: Box)
    requires Consistent(st) && Authentic(open)
    ensures var q := Walk(cfg, open, st, box);
            var (store, _, _) := Poll(cfg, open, st, box);
            && Consistent(store) && Extends(st, store)
            && forall i :: 0 <= i < |q.seen| ==> CommittedOrRefused(store, q.rejected, q.seen[i].envelope)
  {
    hide WalkFrom, Consistent, CommittedOrRefused, AcksFit;
    WalkCommits(cfg, open, First(st, box), PendingCursor(st), None, MAX_POLL_PAGES);
    var q := Walk(cfg, open, st, box);
    AcknowledgedCommits(First(st, box), q);
  }

  lemma AcknowledgedCommits(p: Progress, q: Progress)
    requires Committing(p, q)
    ensures Committing(p, q.(store := Acknowledged(q.store, q.box).0))
  {
    SameMessagesStayConsistent(q.store, Acknowledged(q.store, q.box).0);
  }

  // ---- what the relay answers an honest walk ------------------------------------------------------------

  /**
   The relay takes the token of every page end past a position.  It reads fifteen digits back; and unless the
   walk is a re-walk, which has its position kept elsewhere, it must have issued the position when that is
   reported to it.
   */
  ghost predicate Passable(box: Box, nowMs: nat, after: nat, rewalking: bool) {
    forall p, q :: after < p < q && LiveAt(box, p, nowMs) && LiveAt(box, q, nowMs) ==>
      p < Pow10(MAX_CURSOR_DIGITS) && (rewalking || p <= HighestIssued(box))
  }

  /** The client reads a response with this envelope alone and this cursor. */
  predicate FitsWith(e: Envelope, cursor: Option<string>) {
    e.encodedBytes + WrapperBytes(cursor) <= CLIENT_RESPONSE_BOUND
  }

  /** Another live entry lies behind this one, so a page that ends on it carries its token. */
  ghost predicate Followed(box: Box, nowMs: nat, p: nat) { exists q :: q > p && LiveAt(box, q, nowMs) }

  /**
   The client reads a page that holds this envelope alone: as it is now, and when nothing is left behind it.
   (`null` is one byte longer than the token of a one-digit position.)
   */
  ghost predicate ReadableAlone(box: Box, nowMs: nat, p: nat)
    requires LiveAt(box, p, nowMs)
  {
    var e := ItemAt(box, p).envelope;
    FitsWith(e, None) && (Followed(box, nowMs, p) ==> FitsWith(e, Some(EncodeMailboxCursor(p))))
  }

  ghost predicate AllReadable(box: Box, nowMs: nat, after: nat) {
    forall p :: after < p && LiveAt(box, p, nowMs) ==> ReadableAlone(box, nowMs, p)
  }

  /** An ordered mailbox that can be walked from a position. */
  ghost predicate Serviceable(box: Box, nowMs: nat, after: nat, rewalking: bool) {
    && box.next.Some? && Keyed(box)
    && Passable(box, nowMs, after, rewalking) && AllReadable(box, nowMs, after)
  }

  /** The settings of the programs: the client's page size, and a relay budget that leaves room for the wrapper. */
  predicate Agreed(cfg: Config) {
    && 1 <= cfg.batchSize <= MAX_POLLED_ENVELOPES
    && 0 < cfg.limits.byteBudget && cfg.limits.byteBudget + RESPONSE_WRAPPER_BYTES <= CLIENT_RESPONSE_BOUND
  }

  function Limit(cfg: Config): nat { PollBatchSize(cfg.limits.maxBatch, cfg.batchSize) }

  ghost function PageAt(cfg: Config, box: Box, after: nat): Batch {
    Page(box, cfg.nowMs, Limit(cfg), cfg.limits.byteBudget, after)
  }

  /** A cursor of the walk: a token of a position, or none, which means the read mark. */
  ghost predicate CursorFor(box: Box, device: Device, cursor: string, after: nat) {
    && after < Pow10(MAX_CURSOR_DIGITS)
    && ((cursor == "" && after == ReadMark(box, device)) || (cursor != "" && DecodeMailboxCursor(cursor) == Ok(after)))
  }

  lemma TokenReadsBack(position: nat)
    requires position < Pow10(MAX_CURSOR_DIGITS)
    ensures DecodeMailboxCursor(Digits(position)) == Ok(position) && Digits(position) != ""
        && KeptPosition(Digits(position)) == Digits(position)
  {
    CursorRoundTrip(position);
  }

  ghost function TokenOf(readThrough: Option<nat>): Option<string> {
    if readThrough.Some? then Some(Digits(readThrough.value)) else None
  }

  /** The mailbox once the request for the next page has reported what it reports. */
  ghost function MarkedBy(cfg: Config, box: Box, readThrough: Option<nat>): Box {
    if readThrough.Some? then AdvanceReadMark(box, cfg.device, readThrough.value) else box
  }

  /** The relay answers every request that reports an issued position, and marks exactly what was reported. */
  lemma HonestRequestsAreAnswered(cfg: Config, box: Box, cursor: string, readThrough: Option<nat>, after: nat)
    requires cfg.batchSize >= 0 && box.next.Some? && CursorFor(box, cfg.device, cursor, after)
    requires readThrough.Some? ==> readThrough.value == after && after <= HighestIssued(box) && cursor != ""
    ensures var marked := MarkedBy(cfg, box, readThrough);
            AnswerPoll(box, cfg.limits, Request(cfg, cursor, TokenOf(readThrough)), cfg.nowMs, cfg.writes)
            == (marked, Ok(PageAt(cfg, marked, after)))
  {
    hide Digits, Value, Page, Pow10;
    TokenReadsBack(after);
  }

  /** And refuses, without a change, every request that reports anything else. */
  lemma OtherReportsAreRefused(cfg: Config, box: Box, cursor: string, position: nat)
    requires position > HighestIssued(box) || position >= Pow10(MAX_CURSOR_DIGITS)
    ensures AnswerPoll(box, cfg.limits, Request(cfg, cursor, Some(Digits(position))), cfg.nowMs, cfg.writes)
            == (box, Err(InvalidSchema))
  {
    hide Page, Pow10;
    CursorRoundTrip(position);
  }

  /** Every page of such a walk is a response the client reads. */
  lemma PagesAreRead(cfg: Config, box: Box, after: nat, rewalking: bool)
    requires Agreed(cfg) && Serviceable(box, cfg.nowMs, after, rewalking)
    ensures Readable(MR.Rendered(PageAt(cfg, box, after)), CLIENT_RESPONSE_BOUND)
    ensures var page := PageAt(cfg, box, after);
            page.next.Some? ==>
              page.next.value < Pow10(MAX_CURSOR_DIGITS) && (rewalking || page.next.value <= HighestIssued(box))
  {
    hide Pow10, WrapperBytes;
    var page := PageAt(cfg, box, after);
    PageCovers(box, cfg.nowMs, Limit(cfg), cfg.limits.byteBudget, after);
    if page.next.Some? {
      assert LiveAt(box, page.items[|page.items| - 1].position, cfg.nowMs);
      Pow10Monotone(MAX_CURSOR_DIGITS, 20);
    }
    WrapperIsSmall(page.next);
    PageFitsIff(box, cfg.nowMs, Limit(cfg), cfg.limits.byteBudget, after, CLIENT_RESPONSE_BOUND);
    PageIsTheLongestAdmissiblePrefix(box, cfg.nowMs, Limit(cfg), cfg.limits.byteBudget, after, |page.items|);
    if |page.items| == 1 { assert LiveAt(box, page.items[0].position, cfg.nowMs); }
  }

  // ---- the walk makes progress ----------------------------------------------------------------------------

  /** Pages of one poll see the same records: only the read mark moves, and forward. */
  ghost predicate OnlyMarked(box: Box, t: Box, device: Device) {
    t == box.(marks := t.marks) && ReadMark(box, device) <= ReadMark(t, device)
  }

  lemma MarkingChangesNoPage(cfg: Config, box: Box, t: Box, after: nat)
    requires t == box.(marks := t.marks)
    ensures PageAt(cfg, t, after) == PageAt(cfg, box, after)
    ensures forall p :: LiveAt(t, p, cfg.nowMs) <==> LiveAt(box, p, cfg.nowMs)
  {
    var top := Top(box.index);
    MarkingChangesNoItem(cfg, box, t, after + 1, top);
  }

  lemma {:induction false} MarkingChangesNoItem(cfg: Config, box: Box, t: Box, from: nat, top: nat)
    requires t == box.(marks := t.marks)
    ensures LiveItems(t, cfg.nowMs, from, top) == LiveItems(box, cfg.nowMs, from, top)
    decreases top + 1 - from
  {
    if from <= top { MarkingChangesNoItem(cfg, box, t, from + 1, top); }
  }

  /** The numeric re-walk position of a store, when one is pending. */
  ghost predicate RewalkAt(st: Store, position: nat) {
    st.rewalk.Some? && DecodeMailboxCursor(KeptPosition(st.rewalk.value)) == Ok(position)
  }

  /** Everything live in a range of positions has been seen. */
  ghost predicate Covered(cfg: Config, box: Box, after: nat, through: nat, seen: seq<Item>) {
    forall p :: after < p <= through && LiveAt(box, p, cfg.nowMs) ==> ItemAt(box, p) in seen
  }

  ghost predicate CoveredToEnd(cfg: Config, box: Box, after: nat, seen: seq<Item>) {
    forall p :: after < p && LiveAt(box, p, cfg.nowMs) ==> ItemAt(box, p) in seen
  }

  /** A live position past `after` that this poll has put behind it. */
  ghost predicate Passed(cfg: Config, box: Box, after: nat, q: Progress, p: nat) {
    && after < p <= q.at && LiveAt(box, p, cfg.nowMs)
    && (q.store.rewalk.Some? || p <= ReadMark(q.box, cfg.device) || (q.received > 0 && box.index[p].id in q.store.acks))
  }

  /** What was judged since `p` is decided. */
  ghost predicate AllDecided(p: Progress, q: Progress) {
    && p.seen <= q.seen && p.rejected <= q.rejected && p.received <= q.received
    && p.store.acks.Keys <= q.store.acks.Keys
    && forall i :: |p.seen| <= i < |q.seen| ==> Decided(q.store, q.received, q.rejected, q.seen[i].envelope.id)
  }

  /** Where the walk stands when more remains: at a position the next request can name. */
  ghost predicate Stands(cfg: Config, after: nat, p: Progress, q: Progress) {
    && after < q.at < Pow10(MAX_CURSOR_DIGITS)
    && (ReadMark(q.box, cfg.device) == ReadMark(p.box, cfg.device) || ReadMark(q.box, cfg.device) <= q.at)
    && (p.store.rewalk.Some? <==> q.store.rewalk.Some?)
    && (if q.store.rewalk.Some? then RewalkAt(q.store, q.at) else q.at <= HighestIssued(q.box))
  }

  /** What a stretch of the walk from `after` has achieved. */
  ghost predicate Achieved(cfg: Config, box: Box, after: nat, p: Progress, q: Progress) {
    && OnlyMarked(p.box, q.box, cfg.device) && AllDecided(p, q)
    && (q.failed ==> q.more && q.received == 0 && q.store.rewalk.Some?)
    && (q.more ==> Stands(cfg, after, p, q) && Covered(cfg, box, after, q.at, q.seen))
    && (!q.more ==> CoveredToEnd(cfg, box, after, q.seen) && q.store.rewalk.None?)
  }

  lemma TurnDecides(cfg: Config, open: Opener, p: Progress, box: Box, page: Batch)
    ensures AllDecided(p, Turn(cfg, open, p, box, page))
  {
    hide JudgeAll;
    var envelopes := MR.Envelopes(page.items);
    JudgeAllFacts(p.store, envelopes, cfg.nowMs, open);
    var v := JudgeAll(p.store, envelopes, cfg.nowMs, open);
    var q := Turn(cfg, open, p, box, page);
    forall i | |p.seen| <= i < |q.seen| ensures Decided(q.store, q.received, q.rejected, q.seen[i].envelope.id) {
      var e := envelopes[i - |p.seen|];
      assert Decided(v.store, v.received, v.rejected, e.id);
      if RefusedIn(v.rejected, e.id) { RefusedInLonger(p.rejected, v.rejected, e.id); }
    }
  }

  /** One page that holds everything live up to its cursor, or to the end. */
  lemma PageIsCovered(cfg: Config, p: Progress, box: Box, after: nat, seen: seq<Item>)
    requires box == p.box.(marks := box.marks)
    requires var page := PageAt(cfg, box, after); |seen| >= |page.items| && page.items == seen[|seen| - |page.items|..]
    ensures var page := PageAt(cfg, box, after);
            && (page.next.Some? ==> page.next.value > after && Covered(cfg, p.box, after, page.next.value, seen))
            && (page.next.None? ==> CoveredToEnd(cfg, p.box, after, seen))
  {
    var page := PageAt(cfg, box, after);
    MarkingChangesNoPage(cfg, p.box, box, after);
    PageCovers(box, cfg.nowMs, Limit(cfg), cfg.limits.byteBudget, after);
    forall x | after < x && LiveAt(p.box, x, cfg.nowMs) && (page.next.Some? ==> x <= page.next.value)
      ensures ItemAt(p.box, x) in seen
    {
      HeldItem(box, cfg.nowMs, page.items, x);
      assert ItemAt(p.box, x) in page.items;
      assert seen == seen[..|seen| - |page.items|] + seen[|seen| - |page.items|..];
    }
  }

  /** One answered page. */
  lemma TurnAchieves(cfg: Config, open: Opener, p: Progress, box: Box, after: nat)
    requires Agreed(cfg) && Serviceable(p.box, cfg.nowMs, after, p.store.rewalk.Some?)
    requires OnlyMarked(p.box, box, cfg.device)
    requires ReadMark(box, cfg.device) == ReadMark(p.box, cfg.device) || ReadMark(box, cfg.device) <= after
    ensures Achieved(cfg, p.box, after, p, Turn(cfg, open, p, box, PageAt(cfg, box, after)))
  {
    hide JudgeAll, Page, Pow10, Digits, DecodeMailboxCursor, Decided;
    var page := PageAt(cfg, box, after);
    var q := Turn(cfg, open, p, box, page);
    JudgeAllFacts(p.store, MR.Envelopes(page.items), cfg.nowMs, open);
    TurnDecides(cfg, open, p, box, page);
    MarkingChangesNoPage(cfg, p.box, box, after);
    PagesAreRead(cfg, p.box, after, p.store.rewalk.Some?);
    assert q.seen[|q.seen| - |page.items|..] == page.items;
    PageIsCovered(cfg, p, box, after, q.seen);
    if page.next.Some? { TokenReadsBack(page.next.value); }
  }

  lemma DecidedTwice(p: Progress, q: Progress, r: Progress)
    requires AllDecided(p, q) && AllDecided(q, r)
    ensures AllDecided(p, r)
  {
    forall i | |p.seen| <= i < |r.seen| ensures Decided(r.store, r.received, r.rejected, r.seen[i].envelope.id) {
      if i < |q.seen| {
        var id := q.seen[i].envelope.id;
        var more := r.rejected[|q.rejected|..];
        assert Decided(q.store, q.received, q.rejected, id);
        assert r.rejected == q.rejected + more && r.seen[i] == q.seen[i];
        if RefusedIn(q.rejected, id) { RefusedInLonger(q.rejected, more, id); }
      }
    }
  }

  lemma CoveredTwice(cfg: Config, after: nat, p: Progress, q: Progress, r: Progress)
    requires Achieved(cfg, p.box, after, p, q) && q.more && Achieved(cfg, q.box, q.at, q, r)
    ensures r.more ==> Covered(cfg, p.box, after, r.at, r.seen)
    ensures !r.more ==> CoveredToEnd(cfg, p.box, after, r.seen)
  {
    hide Decided, RewalkAt, Pow10;
    MarkingChangesNoPage(cfg, p.box, q.box, after);
    forall x | x > after && LiveAt(p.box, x, cfg.nowMs) && (r.more ==> x <= r.at) ensures ItemAt(p.box, x) in r.seen {
      assert ItemAt(q.box, x) == ItemAt(p.box, x);
    }
  }

  lemma AchievedTwice(cfg: Config, after: nat, p: Progress, q: Progress, r: Progress)
    requires Achieved(cfg, p.box, after, p, q) && q.more && Achieved(cfg, q.box, q.at, q, r)
    ensures Achieved(cfg, p.box, after, p, r)
  {
    hide AllDecided, Covered, CoveredToEnd, RewalkAt, Pow10;
    DecidedTwice(p, q, r);
    CoveredTwice(cfg, after, p, q, r);
  }

  /** A page that accepted something, or moved the re-walk, has put a live position behind the walk. */
  lemma TurnPasses(cfg: Config, open: Opener, p: Progress, box: Box, after: nat) returns (x: nat)
    requires OnlyMarked(p.box, box, cfg.device) && Keyed(p.box)
    requires PageAt(cfg, box, after).next.Some?
    ensures var q := Turn(cfg, open, p, box, PageAt(cfg, box, after));
            && x > after && LiveAt(p.box, x, cfg.nowMs) && x <= q.at
            && (q.received > p.received ==> p.box.index[x].id in q.store.acks)
  {
    var page := PageAt(cfg, box, after);
    var q := Turn(cfg, open, p, box, page);
    var envelopes := MR.Envelopes(page.items);
    JudgeAllFacts(p.store, envelopes, cfg.nowMs, open);
    PageCovers(box, cfg.nowMs, Limit(cfg), cfg.limits.byteBudget, after);
    assert |page.items| > 0;
    assert 0 < |page.items| && envelopes[0] == page.items[0].envelope;
    var i: nat :| i < |page.items| && (q.received > p.received ==> envelopes[i].id in q.store.acks);
    x := page.items[i].position;
    assert LiveAt(box, x, cfg.nowMs);
  }

  /** A point of the page loop with a page still to ask for, under a report the relay accepts. */
  ghost predicate Asks(cfg: Config, p: Progress, cursor: string, readThrough: Option<nat>, after: nat) {
    && Agreed(cfg) && Serviceable(p.box, cfg.nowMs, after, p.store.rewalk.Some?) && p.received == 0
    && CursorFor(p.box, cfg.device, cursor, after)
    && (readThrough.Some? ==> readThrough.value == after && after <= HighestIssued(p.box) && cursor != "")
    && (p.store.rewalk.Some? ==> RewalkAt(p.store, after))
  }

  ghost function Turned(cfg: Config, open: Opener, p: Progress, readThrough: Option<nat>, after: nat): Progress {
    var marked := MarkedBy(cfg, p.box, readThrough);
    Turn(cfg, open, p, marked, PageAt(cfg, marked, after))
  }

  lemma WalkUnfolds(cfg: Config, open: Opener, p: Progress, cursor: string, readThrough: Option<nat>, after: nat,
      pagesLeft: nat)
    requires Asks(cfg, p, cursor, readThrough, after) && pagesLeft >= 1
    ensures var q := Turned(cfg, open, p, readThrough, after);
            WalkFrom(cfg, open, p, cursor, TokenOf(readThrough), pagesLeft)
            == if q.received > 0 || !q.more then q
               else WalkFrom(cfg, open, q, Digits(q.at), TokenOf(Some(q.at)), pagesLeft - 1)
  {
    hide AnswerPoll, JudgeAll, Page, Passable, AllReadable, Readable, CursorFor, RewalkAt;
    HonestRequestsAreAnswered(cfg, p.box, cursor, readThrough, after);
    ReadAfterMarking(cfg, p.box, MarkedBy(cfg, p.box, readThrough), after, p.store.rewalk.Some?);
  }

  lemma ReadAfterMarking(cfg: Config, box: Box, t: Box, after: nat, rewalking: bool)
    requires Agreed(cfg) && Serviceable(box, cfg.nowMs, after, rewalking) && t == box.(marks := t.marks)
    ensures Readable(MR.Rendered(PageAt(cfg, t, after)), CLIENT_RESPONSE_BOUND)
  {
    hide Readable, Serviceable, Page;
    MarkingChangesNoPage(cfg, box, t, after);
    PagesAreRead(cfg, box, after, rewalking);
  }

  /** A walk that stands where the relay does not take its token is refused its report there, and nothing moves. */
  lemma RefusedReportEndsTheWalk(cfg: Config, open: Opener, q: Progress, pagesLeft: nat)
    requires pagesLeft >= 1 && (q.at > HighestIssued(q.box) || q.at >= Pow10(MAX_CURSOR_DIGITS))
    ensures WalkFrom(cfg, open, q, Digits(q.at), TokenOf(Some(q.at)), pagesLeft) == q.(failed := true)
  {
    hide AnswerPoll, Pow10;
    OtherReportsAreRefused(cfg, q.box, Digits(q.at), q.at);
  }

  /** What the loop has achieved when it is left, as far as the pages it had allow. */
  ghost predicate Outcome(cfg: Config, after: nat, p: Progress, q: Progress, reported: bool, pagesLeft: nat) {
    && Achieved(cfg, p.box, after, p, q)
    && (reported ==> ReadMark(q.box, cfg.device) >= after)
    && (q.more && (pagesLeft >= 2 || q.received > 0 || q.store.rewalk.Some?)
        ==> exists x: nat :: Passed(cfg, p.box, after, q, x))
  }

  lemma LeftAfterOnePage(cfg: Config, open: Opener, p: Progress, cursor: string, readThrough: Option<nat>, after: nat,
      pagesLeft: nat)
    requires Asks(cfg, p, cursor, readThrough, after)
    requires var q := Turned(cfg, open, p, readThrough, after);
             q.received > 0 || !q.more || pagesLeft == 1 || q.store.rewalk.Some?
    ensures var q := Turned(cfg, open, p, readThrough, after);
            && Outcome(cfg, after, p, q, readThrough.Some?, pagesLeft)
            && (q.received == 0 && q.more && q.store.rewalk.Some? ==>
                  Outcome(cfg, after, p, q.(failed := true), readThrough.Some?, pagesLeft))
  {
    hide Page, JudgeAll, Passable, AllReadable, CursorFor, Achieved, LiveAt, RewalkAt, Turn;
    var marked := MarkedBy(cfg, p.box, readThrough);
    var q := Turned(cfg, open, p, readThrough, after);
    ThisTurnAchieves(cfg, open, p, cursor, readThrough, after);
    if q.more {
      var x := ThisTurnPasses(cfg, open, p, cursor, readThrough, after);
      if q.received > 0 || q.store.rewalk.Some? {
        assert Passed(cfg, p.box, after, q, x);
        assert Passed(cfg, p.box, after, q.(failed := true), x);
      }
    }
  }

  /** The same of a point of the page loop. */
  lemma ThisTurnAchieves(cfg: Config, open: Opener, p: Progress, cursor: string, readThrough: Option<nat>, after: nat)
    requires Asks(cfg, p, cursor, readThrough, after)
    ensures var q := Turned(cfg, open, p, readThrough, after);
            && Achieved(cfg, p.box, after, p, q) && (readThrough.Some? ==> ReadMark(q.box, cfg.device) >= after)
            && (q.received == 0 && q.more && q.store.rewalk.Some? ==>
                  Achieved(cfg, p.box, after, p, q.(failed := true)))
  {
    hide Page, JudgeAll, Serviceable, CursorFor, RewalkAt, Covered, CoveredToEnd, Decided;
    TurnAchieves(cfg, open, p, MarkedBy(cfg, p.box, readThrough), after);
  }

  lemma ThisTurnPasses(cfg: Config, open: Opener, p: Progress, cursor: string, readThrough: Option<nat>, after: nat)
      returns (x: nat)
    requires Asks(cfg, p, cursor, readThrough, after) && Turned(cfg, open, p, readThrough, after).more
    ensures var q := Turned(cfg, open, p, readThrough, after);
            && x > after && LiveAt(p.box, x, cfg.nowMs) && x <= q.at
            && (q.received > 0 ==> p.box.index[x].id in q.store.acks)
  {
    hide Page, JudgeAll, Passable, AllReadable, CursorFor, RewalkAt;
    x := TurnPasses(cfg, open, p, MarkedBy(cfg, p.box, readThrough), after);
  }

  lemma WentOn(cfg: Config, after: nat, p: Progress, q: Progress, r: Progress, x: nat, reported: bool, pagesLeft: nat)
    requires Achieved(cfg, p.box, after, p, q) && q.more && Achieved(cfg, q.box, q.at, q, r)
    requires reported ==> ReadMark(q.box, cfg.device) >= after
    requires x > after && LiveAt(p.box, x, cfg.nowMs) && x <= q.at && ReadMark(r.box, cfg.device) >= q.at
    ensures Outcome(cfg, after, p, r, reported, pagesLeft)
  {
    hide LiveAt, AllDecided, Covered, CoveredToEnd, RewalkAt, Pow10;
    AchievedTwice(cfg, after, p, q, r);
    if r.more { assert Passed(cfg, p.box, after, r, x); }
  }

  lemma ServiceableBeyond(box: Box, t: Box, nowMs: nat, after: nat, next: nat, rewalking: bool)
    requires Serviceable(box, nowMs, after, rewalking) && t == box.(marks := t.marks) && after <= next
    ensures Serviceable(t, nowMs, next, rewalking)
  {
    hide Pow10;
    SameLiveEntries(box, t, nowMs);
  }

  lemma SameLiveEntries(box: Box, t: Box, nowMs: nat)
    requires t == box.(marks := t.marks)
    ensures forall p :: LiveAt(t, p, nowMs) ==> LiveAt(box, p, nowMs) && ItemAt(t, p) == ItemAt(box, p)
  {}

  lemma NextAsks(cfg: Config, open: Opener, p: Progress, cursor: string, readThrough: Option<nat>, after: nat)
    requires Asks(cfg, p, cursor, readThrough, after)
    requires var q := Turned(cfg, open, p, readThrough, after); q.received == 0 && q.more
    ensures var q := Turned(cfg, open, p, readThrough, after);
            && Achieved(cfg, p.box, after, p, q)
            && (readThrough.Some? ==> ReadMark(q.box, cfg.device) >= after)
            && q.at < Pow10(MAX_CURSOR_DIGITS)
            && (q.at <= HighestIssued(q.box) ==> Asks(cfg, q, Digits(q.at), Some(q.at), q.at))
            && (q.at > HighestIssued(q.box) ==> q.store.rewalk.Some?)
  {
    hide JudgeAll, Page, Covered, DecodeMailboxCursor, Digits, KeptPosition, Serviceable, Pow10;
    ThisTurnAchieves(cfg, open, p, cursor, readThrough, after);
    var q := Turned(cfg, open, p, readThrough, after);
    TokenReadsBack(q.at);
    ServiceableBeyond(p.box, q.box, cfg.nowMs, after, q.at, p.store.rewalk.Some?);
  }

  /**
   The page loop, from any point of it.  Either it reaches the end of the mailbox, with everything live
   beyond its start seen, or it has put a live position behind it for good: acknowledged, below the
   read mark, or below the re-walk position.  Everything it saw was accepted or refused.
   */
  lemma {:induction false} WalkAchieves(cfg: Config, open: Opener, p: Progress, cursor: string,
      readThrough: Option<nat>, after: nat, pagesLeft: nat)
    requires Asks(cfg, p, cursor, readThrough, after) && pagesLeft >= 1
    ensures Outcome(cfg, after, p, WalkFrom(cfg, open, p, cursor, TokenOf(readThrough), pagesLeft), readThrough.Some?,
        pagesLeft)
    decreases pagesLeft
  {
    hide WalkFrom, Achieved, Asks, Turn, Passed;
    var q := Turned(cfg, open, p, readThrough, after);
    WalkUnfolds(cfg, open, p, cursor, readThrough, after, pagesLeft);
    if q.received > 0 || !q.more || pagesLeft == 1 {
      WalkWithoutPages(cfg, open, q, Digits(q.at), Some(q.at));
      LeftAfterOnePage(cfg, open, p, cursor, readThrough, after, pagesLeft);
    } else {
      NextAsks(cfg, open, p, cursor, readThrough, after);
      if q.at <= HighestIssued(q.box) {
        WalkAchieves(cfg, open, q, Digits(q.at), Some(q.at), q.at, pagesLeft - 1);
        GoesOn(cfg, open, p, cursor, readThrough, after, pagesLeft,
               WalkFrom(cfg, open, q, Digits(q.at), TokenOf(Some(q.at)), pagesLeft - 1));
      } else {
        RefusedReportEndsTheWalk(cfg, open, q, pagesLeft - 1);
        LeftAfterOnePage(cfg, open, p, cursor, readThrough, after, pagesLeft);
      }
    }
  }

  lemma WalkWithoutPages(cfg: Config, open: Opener, p: Progress, cursor: string, readThrough: Option<nat>)
    ensures WalkFrom(cfg, open, p, cursor, TokenOf(readThrough), 0) == p
  {}

  lemma GoesOn(cfg: Config, open: Opener, p: Progress, cursor: string, readThrough: Option<nat>, after: nat,
      pagesLeft: nat, r: Progress)
    requires Asks(cfg, p, cursor, readThrough, after) && pagesLeft >= 2
    requires var q := Turned(cfg, open, p, readThrough, after);
             q.received == 0 && q.more && Outcome(cfg, q.at, q, r, true, pagesLeft - 1)
    ensures Outcome(cfg, after, p, r, readThrough.Some?, pagesLeft)
  {
    hide Achieved, JudgeAll, Page, Serviceable, Turn;
    NextAsks(cfg, open, p, cursor, readThrough, after);
    var x := ThisTurnPasses(cfg, open, p, cursor, readThrough, after);
    WentOn(cfg, after, p, Turned(cfg, open, p, readThrough, after), r, x, readThrough.Some?, pagesLeft);
  }
}
