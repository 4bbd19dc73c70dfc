/**
 What the mailbox routes answer, each answer exactly when, and what they change: over every request, whatever it
 carries and whoever sent it, on the fields of the request and of the mailbox.
 */
module RouteAnswers {
  import opened Wrappers
  import opened Decimals
  import opened MailboxState
  import opened Paging
  import opened Backfill
  import opened MailboxHandler
  import MR = MailboxRepository

  // ---- the poll route ---------------------------------------------------------------------------------------------

  /** The request is well-formed, before anything about the mailbox is looked at. */
  predicate WellFormed(q: PollRequest) {
    q.batchSize >= 0 && (q.readThrough.Some? ==> IsToken(q.readThrough.value))
  }

  /** The position it reports, zero when it reports none. */
  function Reported(q: PollRequest): nat
    requires WellFormed(q)
  {
    if q.readThrough.Some? then Value(q.readThrough.value) else 0
  }

  /** The relay has issued what is reported: nothing at or above its counter. */
  predicate Issued(box: Box, position: nat) {
    position == 0 || (box.next.Some? && position < box.next.value)
  }

  /** The device's mark once the report is taken. */
  function MarkAfter(box: Box, q: PollRequest): nat
    requires WellFormed(q)
  {
    var mark := if q.device in box.marks then box.marks[q.device] else 0;
    if Reported(q) > mark then Reported(q) else mark
  }

  /** The request names a place to resume: with a token, or without one at the mark, when that fits a token. */
  predicate Resumable(box: Box, q: PollRequest)
    requires WellFormed(q)
  {
    if q.cursor == "" then MarkAfter(box, q) < Pow10(15) else IsToken(q.cursor)
  }

  function ResumesAt(box: Box, q: PollRequest): nat
    requires WellFormed(q) && Resumable(box, q)
  {
    if q.cursor == "" then MarkAfter(box, q) else Value(q.cursor)
  }

  /** The mailbox has positions, or gets them: its records in batches of 512 and the counter, all committed. */
  ghost predicate Orderable(box: Box, nowMs: nat, writes: nat) {
    box.next.Some? || writes * 512 >= |StoredIds(box, nowMs)| + 512
  }

  lemma OrderingAvailable(box: Box, nowMs: nat, writes: nat)
    ensures EnsureOrdering(box, nowMs, writes).next.Some? <==> Orderable(box, nowMs, writes)
  {
    AscendingCounts(StoredIds(box, nowMs));
    EntriesForEach(box, Ascending(StoredIds(box, nowMs)));
  }

  lemma TokensAreRead(token: string)
    ensures DecodeMailboxCursor(token).Ok? && token != "" <==> IsToken(token)
    ensures IsToken(token) ==> AllDigits(token) && DecodeMailboxCursor(token) == Ok(Value(token))
  {
    hide Value;
    AcceptedCursorsAre(token);
  }

  lemma MarksAreRead(mark: nat)
    ensures var token := if mark > 0 then Digits(mark) else "";
            (DecodeMailboxCursor(token).Ok? <==> mark < Pow10(15))
            && (mark < Pow10(15) ==> DecodeMailboxCursor(token) == Ok(mark))
  {
    CursorRoundTrip(mark);
  }

  /** The mailbox after the report: only this device's mark may have moved, and forward. */
  ghost function Marked(box: Box, q: PollRequest): Box
    requires WellFormed(q)
  {
    if q.readThrough.Some? then AdvanceReadMark(box, q.device, Reported(q)) else box
  }

  lemma MarkedIs(box: Box, q: PollRequest)
    requires WellFormed(q)
    ensures ReadMark(Marked(box, q), q.device) == MarkAfter(box, q)
    ensures StoredIds(Marked(box, q), 0) == StoredIds(box, 0)
    ensures Marked(box, q) == box.(marks := Marked(box, q).marks)
  {}

  /** Where the route resumes, and whether it can. */
  lemma ResumeIsRead(box: Box, q: PollRequest)
    requires WellFormed(q)
    ensures var mark := ReadMark(Marked(box, q), q.device);
            var resume := DecodeMailboxCursor(if q.cursor == "" && mark > 0 then Digits(mark) else q.cursor);
            && (resume.Ok? <==> Resumable(box, q))
            && (resume.Ok? ==> resume.value == ResumesAt(box, q))
  {
    hide Digits, Value, Pow10, DecodeMailboxCursor;
    MarkedIs(box, q);
    MarksAreRead(MarkAfter(box, q));
    TokensAreRead(q.cursor);
  }

  lemma ShapeIs(q: PollRequest)
    ensures q.batchSize >= 0 && ReadThroughShape(q.readThrough).Ok? <==> WellFormed(q)
    ensures WellFormed(q) ==> ReadThroughShape(q.readThrough) == Ok(Reported(q))
  {
    hide Value;
    if q.readThrough.Some? { TokensAreRead(q.readThrough.value); }
  }

  lemma OrderableMarked(box: Box, q: PollRequest, nowMs: nat, writes: nat)
    requires WellFormed(q)
    ensures Orderable(Marked(box, q), nowMs, writes) <==> Orderable(box, nowMs, writes)
  {
    assert StoredIds(Marked(box, q), nowMs) == StoredIds(box, nowMs);
  }

  /**
   The poll route, over every request.  A page is served exactly when the request is well-formed, its sender
   established, its report issued, its resume position readable and the mailbox ordered; every refusal has its one
   cause; and an unestablished request changes nothing.
   */
  lemma APollIsAnsweredIff(box: Box, limits: Limits, q: PollRequest, nowMs: nat, writes: nat)
    ensures var (after, answer) := AnswerPoll(box, limits, q, nowMs, writes);
            var established := WellFormed(q) && q.established && Issued(box, Reported(q));
            && (answer.Ok? <==> established && Resumable(box, q) && Orderable(box, nowMs, writes))
            && (answer == Err(Unauthorized) <==> WellFormed(q) && !q.established)
            && (answer == Err(Internal) <==> established && Resumable(box, q) && !Orderable(box, nowMs, writes))
            && (answer.Err? ==> answer.error in {InvalidSchema, Unauthorized, Internal})
            && (!established ==> after == box)
            && (answer.Ok? ==>
                  answer.value == Page(after, nowMs, PollBatchSize(limits.maxBatch, q.batchSize), limits.byteBudget,
                                       ResumesAt(box, q)))
  {
    hide Digits, Value, Pow10, DecodeMailboxCursor, EnsureOrdering, Page, PollBatchSize, Orderable;
    ShapeIs(q);
    if WellFormed(q) {
      ResumeIsRead(box, q);
      OrderableMarked(box, q, nowMs, writes);
      OrderingAvailable(Marked(box, q), nowMs, writes);
    }
  }

  /** What an established poll moves: this device's mark, forward to what it reports, and a missing ordering. */
  lemma WhatAPollMoves(box: Box, limits: Limits, q: PollRequest, nowMs: nat, writes: nat, other: Device)
    requires WellFormed(q) && q.established && Issued(box, Reported(q))
    ensures var after := AnswerPoll(box, limits, q, nowMs, writes).0;
            && after.primary == box.primary
            && ReadMark(after, q.device) == MarkAfter(box, q)
            && (other != q.device ==> ReadMark(after, other) == ReadMark(box, other))
            && (box.next.Some? ==> after == box.(marks := after.marks))
  {
    hide Digits, Value, Pow10, DecodeMailboxCursor, Page, PollBatchSize, Snapshot, Numbered;
    ShapeIs(q);
    MarkedIs(box, q);
    ResumeIsRead(box, q);
  }

  // ---- the send route ---------------------------------------------------------------------------------------------

  /** Stored already, and as another envelope. */
  predicate Conflicts(box: Box, e: Envelope, nowMs: nat) {
    Stored(box, e.id, nowMs) && box.primary[e.id].envelope != e
  }

  /** Let through to the store: in time, authenticated, and stored already or within the configured allowance. */
  ghost predicate LetThrough(box: Box, configured: int, e: Envelope, established: bool, nowMs: nat) {
    && e.expiresAtMs > nowMs && established
    && (Stored(box, e.id, nowMs)
        || |Waiting(box, e.sender, nowMs)| < (if configured > 0 then configured else 16))
  }

  /** What a sender has waiting in the mailbox: neither past its retention deadline nor past its declared expiry. */
  function Waiting(box: Box, sender: Identity, nowMs: nat): set<EnvelopeId> {
    set id | && id in box.primary && box.primary[id].envelope.sender == sender
             && (box.primary[id].deadline == 0 || nowMs / 1000 < box.primary[id].deadline)
             && box.primary[id].envelope.expiresAtMs > nowMs
  }

  lemma MigrationKeepsRecords(box: Box, nowMs: nat, writes: nat)
    ensures EnsureOrdering(box, nowMs, writes).primary == box.primary
  {}

  /**
   The send route, over every envelope: each answer exactly when, the stored envelope when it is taken, and no
   change when it is refused before the store.
   */
  lemma ASendIsAnsweredIff(box: Box, configured: int, capMs: nat, e: Envelope, established: bool, nowMs: nat,
      writes: nat)
    ensures var (after, answer) := AnswerSend(box, SenderQuota(configured), capMs, e, established, nowMs, writes);
            var through := LetThrough(box, configured, e, established, nowMs);
            && (answer == Err(InvalidSchema) <==> e.expiresAtMs <= nowMs)
            && (answer == Err(Unauthorized) <==> e.expiresAtMs > nowMs && !established)
            && (answer == Err(QuotaExceeded) <==> e.expiresAtMs > nowMs && established && !through)
            && (answer == Err(Internal) <==> through && !Orderable(box, nowMs, writes))
            && (answer == Err(IdConflict) <==> through && Orderable(box, nowMs, writes) && Conflicts(box, e, nowMs))
            && (answer.Ok? <==> through && Orderable(box, nowMs, writes) && !Conflicts(box, e, nowMs))
            && (answer.Ok? ==> e.id in after.primary && after.primary[e.id].envelope == e)
            && (!through ==> after == box)
            && (forall id :: id != e.id ==>
                  (id in after.primary <==> id in box.primary)
                  && (id in box.primary ==> after.primary[id] == box.primary[id]))
            && after.marks == box.marks
  {
    hide EnsureOrdering, RetentionDeadline, Orderable;
    assert Waiting(box, e.sender, nowMs) == MR.LiveOf(box, e.sender, nowMs);
    OrderingAvailable(box, nowMs, writes);
    MigrationKeepsRecords(box, nowMs, writes);
    MigrationKeepsMarks(box, nowMs, writes);
  }

  lemma MigrationKeepsMarks(box: Box, nowMs: nat, writes: nat)
    ensures EnsureOrdering(box, nowMs, writes).marks == box.marks
  {}
}
