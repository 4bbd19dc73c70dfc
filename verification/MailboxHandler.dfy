/**
 The three mailbox routes: the order in which they check, refuse and change state.  Challenge, device
 binding and signature are foreign checks and arrive as one verdict, `established`.
 */
module MailboxHandler {
  import opened Wrappers
  import opened Decimals
  import opened MailboxState
  import opened Paging
  import opened Backfill
  import MR = MailboxRepository

  datatype RouteError = InvalidSchema | Unauthorized | QuotaExceeded | IdConflict | Internal

  const DEFAULT_MAX_BATCH: nat := 100
  const MAX_ACK_ENVELOPE_IDS: nat := 1000

  /** The client's wish for a page size, clamped to the server's maximum. */
  function PollBatchSize(maxBatch: int, requested: int): (limit: nat)
    ensures limit > 0
    ensures limit <= (if maxBatch <= 0 then DEFAULT_MAX_BATCH else maxBatch)
    ensures 0 < requested ==> limit <= requested
    ensures 0 < requested <= (if maxBatch <= 0 then DEFAULT_MAX_BATCH else maxBatch) ==> limit == requested
  {
    var top := if maxBatch <= 0 then DEFAULT_MAX_BATCH else maxBatch;
    if 0 < requested < top then requested else top
  }

  /** How many identifiers one acknowledgement may carry. */
  function MaxAckedEnvelopeIds(maxBatch: int): nat { if maxBatch > 0 then maxBatch else MAX_ACK_ENVELOPE_IDS }

  /** One to fifteen decimal digits. */
  predicate IsToken(token: string) {
    1 <= |token| <= 15 && forall i :: 0 <= i < |token| ==> '0' <= token[i] <= '9'
  }

  /** The shape rule of a reported read position; it looks at nothing but the token. */
  function ReadThroughShape(readThrough: Option<string>): Result<nat, RouteError> {
    match readThrough
    case None => Ok(0)
    case Some(token) =>
      if token == "" then Err(InvalidSchema)
      else match DecodeMailboxCursor(token)
           case Ok(position) => Ok(position)
           case Err(_) => Err(InvalidSchema)
  }

  datatype PollRequest = PollRequest(device: Device, batchSize: int, cursor: string, readThrough: Option<string>,
      established: bool)

  datatype Limits = Limits(maxBatch: int, byteBudget: int, quota: int)

  /** The poll route on values: the mailbox afterwards, and the page or the refusal. */
  ghost function AnswerPoll(box: Box, limits: Limits, q: PollRequest, nowMs: nat, writes: nat)
    : (Box, Result<Batch, RouteError>)
  {
    var shape := ReadThroughShape(q.readThrough);
    if q.batchSize < 0 then (box, Err(InvalidSchema))
    else if shape.Err? then (box, Err(InvalidSchema))
    else if !q.established then (box, Err(Unauthorized))
    else if q.readThrough.Some? && shape.value > HighestIssued(box) then (box, Err(InvalidSchema))
    else
      var marked := if q.readThrough.Some? then AdvanceReadMark(box, q.device, shape.value) else box;
      var mark := ReadMark(marked, q.device);
      var cursor := if q.cursor == "" && mark > 0 then Digits(mark) else q.cursor;
      var resume := DecodeMailboxCursor(cursor);
      if resume.Err? then (marked, Err(InvalidSchema))
      else
        var ordered := EnsureOrdering(marked, nowMs, writes);
        if ordered.next.None? then (ordered, Err(Internal))
        else (ordered, Ok(Page(ordered, nowMs, PollBatchSize(limits.maxBatch, q.batchSize), limits.byteBudget,
            resume.value)))
  }

  const DEFAULT_SENDER_UNACKED_QUOTA: nat := 16

  /** The allowance in force. */
  function SenderQuota(configured: int): nat {
    if configured <= 0 then DEFAULT_SENDER_UNACKED_QUOTA else configured
  }

  /** Whether the allowance lets an envelope through: an identifier already stored is never charged. */
  ghost predicate WithinQuota(box: Box, quota: nat, envelope: Envelope, nowMs: nat) {
    Stored(box, envelope.id, nowMs) || |MR.LiveOf(box, envelope.sender, nowMs)| < quota
  }

  /** The send route on values. */
  ghost function AnswerSend(box: Box, quota: nat, capMs: nat, envelope: Envelope, established: bool, nowMs: nat,
      writes: nat)
    : (Box, Result<(), RouteError>)
  {
    if envelope.expiresAtMs <= nowMs then (box, Err(InvalidSchema))
    else if !established then (box, Err(Unauthorized))
    else if !WithinQuota(box, quota, envelope, nowMs) then (box, Err(QuotaExceeded))
    else
      var ordered := EnsureOrdering(box, nowMs, writes);
      if ordered.next.None? then (ordered, Err(Internal))
      else
        var (saved, outcome) := Save(ordered, envelope, nowMs, capMs);
        (saved, if outcome.Conflict? then Err(IdConflict) else Ok(()))
  }

  class Handler {
    const repo: MR.Repository
    const limits: Limits

    constructor (repo: MR.Repository, limits: Limits)
      ensures this.repo == repo && this.limits == limits
    {
      this.repo := repo;
      this.limits := limits;
    }

    method PollMailbox(q: PollRequest, nowMs: nat, writes: nat) returns (r: Result<MR.EnvelopeBatch, RouteError>)
      modifies repo`marks, repo`index, repo`next
      ensures var (box, answer) := AnswerPoll(old(repo.State()), limits, q, nowMs, writes);
              repo.State() == box && r == match answer case Ok(page) => Ok(MR.Rendered(page)) case Err(e) => Err(e)
      ensures !q.established ==> r.Err? && repo.State() == old(repo.State())
      ensures q.batchSize >= 0 && (q.readThrough.Some? ==> IsToken(q.readThrough.value)) ==>
                (r == Err(Unauthorized) <==> !q.established)
    {
      if q.batchSize < 0 { return Err(InvalidSchema); }
      var shape := ReadThroughShape(q.readThrough);
      if shape.Err? { return Err(InvalidSchema); }
      if !q.established { return Err(Unauthorized); }
      if q.readThrough.Some? {
        var highest := repo.HighestIssuedPosition();
        if shape.value > highest { return Err(InvalidSchema); }
        repo.AdvanceReadMark(q.device, shape.value);
      }
      var cursor := q.cursor;
      if cursor == "" {
        var mark := repo.GetReadMark(q.device);
        if mark > 0 { cursor := Digits(mark); }
      }
      var batch := repo.GetEnvelopeBatchFrom(PollBatchSize(limits.maxBatch, q.batchSize), limits.byteBudget, cursor,
          nowMs, writes);
      r := match batch
           case Ok(b) => Ok(b)
           case Err(InvalidCursor) => Err(InvalidSchema)
           case Err(_) => Err(Internal);
    }

    method AckMailbox(device: Device, ids: seq<EnvelopeId>, readThrough: Option<string>, established: bool)
      returns (r: Result<(), RouteError>)
      modifies repo`primary, repo`marks
      ensures var shape := ReadThroughShape(readThrough);
              var refused := |ids| > MaxAckedEnvelopeIds(limits.maxBatch) || shape.Err? || !established
                             || (readThrough.Some? && shape.value > HighestIssued(old(repo.State())));
              && (r.Ok? <==> !refused)
              && (refused ==> repo.State() == old(repo.State()))
              && (!refused ==>
                    var deleted := DeleteAll(old(repo.State()), ids);
                    repo.State() == if readThrough.Some? then AdvanceReadMark(deleted, device, shape.value)
                        else deleted)
      ensures r == Err(Unauthorized)
              <==> !established && |ids| <= (if limits.maxBatch > 0 then limits.maxBatch else 1000)
                   && (readThrough.Some? ==> IsToken(readThrough.value))
      ensures r.Err? ==> r.error == Unauthorized || r.error == InvalidSchema
    {
      if |ids| > MaxAckedEnvelopeIds(limits.maxBatch) { return Err(InvalidSchema); }
      var shape := ReadThroughShape(readThrough);
      if shape.Err? { return Err(InvalidSchema); }
      if !established { return Err(Unauthorized); }
      if readThrough.Some? {
        var highest := repo.HighestIssuedPosition();
        if shape.value > highest { return Err(InvalidSchema); }
      }
      repo.AckEnvelopes(ids);
      if readThrough.Some? {
        repo.AdvanceReadMark(device, shape.value);
      }
      r := Ok(());
    }

    /**
     The send route.  An envelope over its sender's allowance is refused without a change, an identifier
     already stored is never charged, and what is let through is stored as the repository stores it.  The
     allowance is the configured number, or sixteen when none is configured.
     */
    method SendEnvelope(envelope: Envelope, established: bool, nowMs: nat, writes: nat)
        returns (r: Result<(), RouteError>)
      modifies repo`primary, repo`index, repo`next
      ensures (repo.State(), r)
              == AnswerSend(old(repo.State()), SenderQuota(limits.quota), repo.retentionCapMs, envelope, established,
                            nowMs, writes)
      ensures r == Err(QuotaExceeded)
              <==> envelope.expiresAtMs > nowMs && established && !Stored(old(repo.State()), envelope.id, nowMs)
                   && |MR.LiveOf(old(repo.State()), envelope.sender, nowMs)|
                      >= (if limits.quota > 0 then limits.quota else 16)
      ensures r == Err(QuotaExceeded) || r == Err(Unauthorized) || r == Err(InvalidSchema) ==>
                repo.State() == old(repo.State())
      ensures r == Err(Unauthorized) <==> envelope.expiresAtMs > nowMs && !established
      ensures r == Err(InvalidSchema) <==> envelope.expiresAtMs <= nowMs
      ensures r.Ok? ==> envelope.id in repo.primary && repo.primary[envelope.id].envelope == envelope
    {
      hide EnsureOrdering;
      if envelope.expiresAtMs <= nowMs { return Err(InvalidSchema); }
      if !established { return Err(Unauthorized); }
      var quota := SenderQuota(limits.quota);
      var occupancy := repo.SenderOccupancy(envelope.sender, envelope.id, quota, nowMs);
      if !occupancy.alreadyStored && occupancy.liveEnvelopes >= quota { return Err(QuotaExceeded); }
      var stored := repo.SaveEnvelope(envelope, nowMs, writes);
      r := match stored
           case Ok(_) => Ok(())
           case Err(EnvelopeIdConflict) => Err(IdConflict)
           case Err(_) => Err(Internal);
    }
  }
}
