/**
 The recipient's messenger: judging envelopes one transaction at a time, acknowledging what was committed,
 and the page loop of a poll, as the program runs them over its durable store and the relay's routes.
 */
module Inbound {
  import opened Wrappers
  import opened Decimals
  import opened MailboxState
  import opened Paging
  import opened Backfill
  import opened ClientStore
  import opened MailboxHandler
  import opened PageFit
  import opened PollWalk
  import MR = MailboxRepository

  // ---- acknowledging in chunks -----------------------------------------------------------------------

  function IdsOf(ids: seq<EnvelopeId>): set<EnvelopeId> { set id | id in ids }

  /** Deletes one after another are one removal of the identifiers they name. */
  lemma {:induction false} DeleteAllIsOneRemoval(box: Box, ids: seq<EnvelopeId>)
    ensures DeleteAll(box, ids) == box.(primary := box.primary - (set id | id in ids))
    decreases |ids|
  {
    if ids == [] {
      assert box.primary - {} == box.primary;
    } else {
      DeleteAllIsOneRemoval(Delete(box, ids[0]), ids[1..]);
      assert IdsOf(ids) == {ids[0]} + IdsOf(ids[1..]);
      assert box.primary - {ids[0]} - IdsOf(ids[1..]) == box.primary - IdsOf(ids);
    }
  }

  /** The identifiers delivered: their records gone from the mailbox, their acknowledgements from the store. */
  ghost function Delivered(st: Store, box: Box, ids: seq<EnvelopeId>): (Store, Box) {
    (st.(acks := st.acks - IdsOf(ids)), box.(primary := box.primary - IdsOf(ids)))
  }

  lemma DeliveredInChunks(st: Store, box: Box, ids: seq<EnvelopeId>, start: nat, end: nat)
    requires start <= end <= |ids|
    ensures var (st', box') := Delivered(st, box, ids[..start]);
            Delivered(st', box', ids[start..end]) == Delivered(st, box, ids[..end])
  {
    assert ids[..end] == ids[..start] + ids[start..end];
    assert IdsOf(ids[..end]) == IdsOf(ids[..start]) + IdsOf(ids[start..end]);
    assert st.acks - IdsOf(ids[..start]) - IdsOf(ids[start..end]) == st.acks - IdsOf(ids[..end]);
    assert box.primary - IdsOf(ids[..start]) - IdsOf(ids[start..end]) == box.primary - IdsOf(ids[..end]);
  }

  lemma NothingDelivered(st: Store, box: Box)
    ensures Delivered(st, box, []) == (st, box)
  {
    assert IdsOf([]) == {};
    assert st.acks - {} == st.acks && box.primary - {} == box.primary;
  }

  lemma AllDelivered(st: Store, box: Box, ids: seq<EnvelopeId>)
    requires Lists(ids, st.acks.Keys)
    ensures Delivered(st, box, ids) == Acknowledged(st, box)
  {
    assert IdsOf(ids) == st.acks.Keys;
    assert st.acks - st.acks.Keys == map[];
  }

  /** One turn of the page loop, in the words of the routes: what the relay answered, judged. */
  lemma PageTurns(cfg: Config, open: Opener, p: Progress, box: Box, page: Batch, cursor: string,
      readThrough: Option<string>, pagesLeft: nat)
    requires pagesLeft > 0
    requires AnswerPoll(p.box, cfg.limits, Request(cfg, cursor, readThrough), cfg.nowMs, cfg.writes) == (box, Ok(page))
    requires Readable(MR.Rendered(page), CLIENT_RESPONSE_BOUND)
    ensures var q := Turn(cfg, open, p, box, page);
            WalkFrom(cfg, open, p, cursor, readThrough, pagesLeft)
            == if q.received > 0 || page.next.None? then q
               else WalkFrom(cfg, open, q, EncodeMailboxCursor(page.next.value),
                   Some(EncodeMailboxCursor(page.next.value)), pagesLeft - 1)
  {}

  /** The same turn, by what judging the page left. */
  lemma TurnLeaves(cfg: Config, open: Opener, p: Progress, box: Box, page: Batch)
    ensures var v := JudgeAll(p.store, MR.Envelopes(page.items), cfg.nowMs, open);
            var q := Turn(cfg, open, p, box, page);
            && q.store == AfterPage(v.store, page.next) && q.box == box && !q.failed && q.more == page.next.Some?
            && q.received == p.received + v.received && q.rejected == p.rejected + v.rejected
  {
    hide JudgeAll;
  }

  lemma PageRefused(cfg: Config, open: Opener, p: Progress, cursor: string, readThrough: Option<string>, pagesLeft: nat)
    requires pagesLeft > 0
    requires var answer := AnswerPoll(p.box, cfg.limits, Request(cfg, cursor, readThrough), cfg.nowMs, cfg.writes).1;
             answer.Err? || !Readable(MR.Rendered(answer.value), CLIENT_RESPONSE_BOUND)
    ensures WalkFrom(cfg, open, p, cursor, readThrough, pagesLeft)
            == p.(box := AnswerPoll(p.box, cfg.limits, Request(cfg, cursor, readThrough), cfg.nowMs, cfg.writes).0,
                failed := true)
  {}

  lemma OutOfPages(cfg: Config, open: Opener, p: Progress, cursor: string, readThrough: Option<string>)
    ensures WalkFrom(cfg, open, p, cursor, readThrough, 0) == p
  {}

  class InboundMessenger {
    var store: Store
    const handler: Handler
    const device: Device
    const batchSize: int

    constructor (store: Store, handler: Handler, batchSize: int)
      ensures this.store == store && this.handler == handler && this.device == store.device
          && this.batchSize == batchSize
    {
      this.store, this.handler, this.device, this.batchSize := store, handler, store.device, batchSize;
    }

    /** One envelope in one transaction: the store changes only when everything was accepted. */
    method AcceptOne(e: Envelope, nowMs: nat, open: Opener) returns (r: Result<(), Rejection>)
      modifies this`store
      ensures match ClientStore.AcceptOne(old(store), e, nowMs, open)
              case Ok(after) => store == after && r == Ok(())
              case Err(reason) => store == old(store) && r == Err(reason)
    {
      var tx := store;
      if !Addressed(tx, e, nowMs) { return Err(InvalidEnvelope); }
      if e.sender !in tx.contacts { return Err(ContactNotTrusted); }
      var contact := tx.contacts[e.sender];
      if contact.device != e.senderDevice { return Err(ContactPinMismatch); }
      if e.sender !in tx.trust || tx.trust[e.sender] != contact.signalKey { return Err(ContactPinMismatch); }
      if e.ciphertext.Malformed? { return Err(InboundRejected); }
      var key := KeyOf(e);
      if key in tx.inbox {
        if tx.inbox[key] != e.ciphertext { return Err(MessageIdConflict); }
      } else {
        if key in tx.unsealed { return Err(InboundRejected); }
        var plaintext := open(|tx.inbox|, e);
        if plaintext.None? { return Err(InboundRejected); }
        tx := tx.(unsealed := tx.unsealed + {key});
        tx := tx.(inbox := tx.inbox[key := e.ciphertext]);
        tx := tx.(history := tx.history + [HistoryEntry(e.sender, e.message, true, plaintext.value, e.createdAtMs)]);
      }
      if e.id in tx.acks && tx.acks[e.id] != key { return Err(InvalidEnvelope); }
      tx := tx.(acks := tx.acks[e.id := key]);
      store := tx;
      r := Ok(());
    }

    /** A page's envelopes, each judged on its own. */
    method Accept(envelopes: seq<Envelope>, nowMs: nat, open: Opener)
      returns (received: nat, rejected: seq<(EnvelopeId, Rejection)>, firstRejection: Option<Rejection>)
      modifies this`store
      ensures Verdicts(store, received, rejected) == JudgeAll(old(store), envelopes, nowMs, open)
      ensures firstRejection == if rejected == [] then None else Some(rejected[0].1)
    {
      received, rejected, firstRejection := 0, [], None;
      var i := 0;
      while i < |envelopes|
        invariant i <= |envelopes|
        invariant Verdicts(store, received, rejected) == JudgeAll(old(store), envelopes[..i], nowMs, open)
        invariant firstRejection == if rejected == [] then None else Some(rejected[0].1)
      {
        assert envelopes[..i + 1][..i] == envelopes[..i];
        var verdict := AcceptOne(envelopes[i], nowMs, open);
        match verdict {
          case Ok(_) => received := received + 1;
          case Err(reason) =>
            if firstRejection.None? { firstRejection := Some(reason); }
            rejected := rejected + [(envelopes[i].id, reason)];
        }
        i := i + 1;
      }
      assert envelopes[..|envelopes|] == envelopes;
    }

    ghost function Settings(nowMs: nat, writes: nat): Config
      reads this, handler
    {
      Config(handler.limits, device, batchSize, nowMs, writes)
    }

    /** The durable re-walk position, peeked at and never taken. */
    method PendingMailboxRewalk() returns (position: Option<string>)
      ensures position == if store.rewalk.Some? then Some(KeptPosition(store.rewalk.value)) else None
    {
      if store.rewalk.None? { return None; }
      var token := store.rewalk.value;
      position := if 1 <= |token| <= 15 && AllDigits(token) then Some(token) else Some("0");
    }

    method KeepMailboxRewalk(position: string)
      modifies this`store
      ensures store == old(store).(rewalk := Some(KeptPosition(position)))
    {
      store := store.(rewalk := Some(if 1 <= |position| <= 15 && AllDigits(position) then position else "0"));
    }

    method FinishMailboxRewalk()
      modifies this`store
      ensures store == old(store).(rewalk := None)
    {
      store := store.(rewalk := None);
    }

    /** One page judged, and only then the re-walk position of a pending re-walk moved. */
    method JudgePage(batch: MR.EnvelopeBatch, pending: bool, nowMs: nat, open: Opener, ghost page: Batch)
      returns (received: nat, rejected: seq<(EnvelopeId, Rejection)>, firstRejection: Option<Rejection>)
      requires batch == MR.Rendered(page) && (pending <==> store.rewalk.Some?)
      modifies this`store
      ensures var v := JudgeAll(old(store), MR.Envelopes(page.items), nowMs, open);
              store == AfterPage(v.store, page.next) && received == v.received && rejected == v.rejected
      ensures store.rewalk.Some? <==> pending && batch.nextCursor.Some?
      ensures firstRejection == if rejected == [] then None else Some(rejected[0].1)
    {
      hide JudgeAll;
      JudgeAllFacts(store, MR.Envelopes(page.items), nowMs, open);
      received, rejected, firstRejection := Accept(batch.envelopes, nowMs, open);
      if pending {
        if batch.nextCursor.None? {
          FinishMailboxRewalk();
        } else {
          KeepMailboxRewalk(batch.nextCursor.value);
        }
      }
    }

    /**
     The page loop: pages are asked for and judged while every one has yielded nothing and the relay says
     more remain.  A refusal, or a response longer than the client reads, ends it.  Each request reports the
     page before it; the re-walk position moves only after its page was judged, and goes only at the end of
     the mailbox.
     */
    method WalkPages(nowMs: nat, writes: nat, open: Opener)
      returns (received: nat, rejected: seq<(EnvelopeId, Rejection)>, firstRejection: Option<Rejection>, more: bool,
          failed: bool)
      modifies this`store, handler.repo`marks, handler.repo`index, handler.repo`next
      ensures var p := Walk(Settings(nowMs, writes), open, old(store), old(handler.repo.State()));
              && store == p.store && handler.repo.State() == p.box
              && received == p.received && rejected == p.rejected && more == p.more && failed == p.failed
      ensures firstRejection == if rejected == [] then None else Some(rejected[0].1)
    {
      hide WalkFrom, JudgeAll, AnswerPoll, Readable, Turn, AfterPage, KeptPosition, EncodeMailboxCursor, MR.Envelopes;
      ghost var cfg := Settings(nowMs, writes);
      ghost var walk := Walk(cfg, open, store, handler.repo.State());
      ghost var p := PollWalk.First(store, handler.repo.State());
      received, rejected, firstRejection, more, failed := 0, [], None, false, false;
      var rewalk := PendingMailboxRewalk();
      var cursor, readThrough: Option<string> := if rewalk.Some? then rewalk.value else "", None;
      var page, walking := 0, true;
      while page < MAX_POLL_PAGES && walking
        invariant page <= MAX_POLL_PAGES && !failed
        invariant p.store == store && p.box == handler.repo.State() && !p.failed
        invariant p.received == received && p.rejected == rejected && p.more == more
        invariant firstRejection == if rejected == [] then None else Some(rejected[0].1)
        invariant (rewalk.Some? <==> store.rewalk.Some?) && (walking ==> received == 0)
        invariant walk == if walking then WalkFrom(cfg, open, p, cursor, readThrough, MAX_POLL_PAGES - page) else p
      {
        var answer := handler.PollMailbox(PollRequest(device, batchSize, cursor, readThrough, true), nowMs, writes);
        ghost var (box, reply) := AnswerPoll(p.box, cfg.limits, Request(cfg, cursor, readThrough), nowMs, writes);
        if answer.Err? || !Readable(answer.value, CLIENT_RESPONSE_BOUND) {
          PageRefused(cfg, open, p, cursor, readThrough, MAX_POLL_PAGES - page);
          failed := true;
          return;
        }
        var batch := answer.value;
        PageTurns(cfg, open, p, box, reply.value, cursor, readThrough, MAX_POLL_PAGES - page);
        TurnLeaves(cfg, open, p, box, reply.value);
        var got, refused, first := JudgePage(batch, rewalk.Some?, nowMs, open, reply.value);
        received, rejected := received + got, rejected + refused;
        if firstRejection.None? { firstRejection := first; }
        more := batch.nextCursor.Some?;
        if rewalk.Some? { rewalk := batch.nextCursor; }
        p := Turn(cfg, open, p, box, reply.value);
        if got > 0 || !more {
          walking := false;
        } else {
          cursor, readThrough := batch.nextCursor.value, batch.nextCursor;
        }
        page := page + 1;
      }
      if walking { OutOfPages(cfg, open, p, cursor, readThrough); }
    }

    /** A poll: the walk, the first rejection raised when nothing was accepted, and else the acknowledgements. */
    method Poll(nowMs: nat, writes: nat, open: Opener) returns (r: PollOutcome)
      modifies this`store, handler.repo`primary, handler.repo`marks, handler.repo`index, handler.repo`next
      ensures (store, handler.repo.State(), r) == PollWalk.Poll(Settings(nowMs, writes), open, old(store),
          old(handler.repo.State()))
    {
      hide Walk, Acknowledged;
      var received, rejected, firstRejection, more, failed := WalkPages(nowMs, writes, open);
      if failed { return RelayFailed; }
      if received == 0 && firstRejection.Some? { return Refused(firstRejection.value); }
      var delivered := AckPending();
      r := if delivered then Polled(received, more, rejected) else RelayFailed;
    }

    /**
     Delivers the pending acknowledgements, a hundred identifiers to a request, and forgets each chunk
     once the relay has answered.  The relay refuses either the first request or none.
     */
    method AckPending() returns (ok: bool)
      modifies this`store, handler.repo`primary, handler.repo`marks
      ensures ok <==> AcksFit(handler.limits, old(store).acks)
      ensures ok <==> (if |old(store).acks| < 100 then |old(store).acks| else 100)
                      <= (if handler.limits.maxBatch > 0 then handler.limits.maxBatch else 1000)
      ensures (store, handler.repo.State())
              == if ok then Acknowledged(old(store), old(handler.repo.State()))
                  else (old(store), old(handler.repo.State()))
    {
      hide Delivered, Acknowledged;
      var ids := SortedKeys(store.acks);
      ghost var st, box := store, handler.repo.State();
      var start := 0;
      NothingDelivered(st, box);
      assert ids[..0] == [];
      while start < |ids|
        invariant start <= |ids| && (start > 0 ==> AcksFit(handler.limits, st.acks))
        invariant (store, handler.repo.State()) == Delivered(st, box, ids[..start])
      {
        var end := Min(start + ACK_CHUNK, |ids|);
        DeliveredInChunks(st, box, ids, start, end);
        ok := AckChunk(ids[start..end]);
        if !ok { return; }
        start := end;
      }
      AllDelivered(st, box, ids);
      assert ids[..|ids|] == ids;
      ok := true;
    }

    /** One acknowledgement request, and the transaction that forgets what it delivered. */
    method AckChunk(chunk: seq<EnvelopeId>) returns (ok: bool)
      modifies this`store, handler.repo`primary, handler.repo`marks
      ensures ok <==> |chunk| <= MaxAckedEnvelopeIds(handler.limits.maxBatch)
      ensures (store, handler.repo.State())
              == if ok then Delivered(old(store), old(handler.repo.State()), chunk)
                  else (old(store), old(handler.repo.State()))
    {
      var answer := handler.AckMailbox(device, chunk, None, true);
      ok := answer.Ok?;
      DeleteAllIsOneRemoval(old(handler.repo.State()), chunk);
      if ok {
        store := store.(acks := store.acks - IdsOf(chunk));
      }
    }
  }

  lemma AppendGreatest(ids: seq<nat>, s: set<nat>, id: nat)
    requires Lists(ids, s) && forall x :: x in ids ==> x < id
    ensures Lists(ids + [id], s + {id})
  {
    var longer := ids + [id];
    forall x ensures x in s + {id} <==> x in longer {
      assert x in longer <==> x in ids || x == id;
    }
    forall i, j | 0 <= i < j < |longer| ensures longer[i] < longer[j] {
      assert longer[i] in ids;
    }
  }

  /** The identifiers with a pending acknowledgement, in key order. */
  method SortedKeys(acks: map<EnvelopeId, InboxKey>) returns (ids: seq<EnvelopeId>)
    ensures Lists(ids, acks.Keys) && |ids| == |acks|
  {
    ids := [];
    var rest := acks.Keys;
    while rest != {}
      invariant rest <= acks.Keys && |ids| + |rest| == |acks|
      invariant Lists(ids, acks.Keys - rest)
      invariant forall x, y :: x in ids && y in rest ==> x < y
      decreases rest
    {
      var id := MR.First(rest);
      AppendGreatest(ids, acks.Keys - rest, id);
      assert acks.Keys - (rest - {id}) == acks.Keys - rest + {id};
      ids := ids + [id];
      rest := rest - {id};
    }
    assert acks.Keys - rest == acks.Keys;
  }
}
