/**
 The sender's messenger: one committed envelope per message id, claimed first contact, and delivery that
 repeats that envelope and nothing else.
 */
module Outbound {
  import opened Wrappers
  import opened MailboxState
  import opened ClientStore
  import opened Delivery
  import opened MailboxHandler
  import opened Sets
  import B = Backfill
  import P = PreKeyRelay
  import S = Sending
  import F = FirstContact
  import MR = MailboxRepository

  datatype SendError =
    | MessageIdConflict
    | ContactNotTrusted
    | SenderNotPublished
    | ContactPinMismatch
    | PreKeyBundleExpired
    | OutboundRejected
    | ClaimRefused(prekey: P.PreKeyError)
    | RelayRefused(route: RouteError)

  /** Where the sender's and the relay's clocks stand at each exchange of one send. */
  datatype Clocks = Clocks(relayMs: nat -> nat, at: nat -> nat)

  datatype Claimed = Claimed(relay: P.Relay, replaced: bool, answer: Result<P.Bundle, SendError>, requests: nat)

  /** One claim, its answer judged at the sender's clock: a bundle, a reason to give up, or one found outdated. */
  ghost function ClaimOnce(r: P.Relay, contact: F.Contact, id: P.ClaimId, relayMs: nat, at: nat)
    : (P.Relay, Result<P.Bundle, SendError>)
  {
    var (relay, answer) := P.Claim(r, id, F.Wanted(contact), relayMs);
    match answer
    case Err(e) => (relay, Err(ClaimRefused(e)))
    case Ok(b) =>
      if !F.Pinned(contact, b) then (relay, Err(SendError.ContactPinMismatch))
      else if P.InWindow(b, at) then (relay, Ok(b))
      else (relay, Err(PreKeyBundleExpired))
  }

  /** What an answered claim is worth to the sender at its own clock. */
  function Judged(contact: F.Contact, answer: Result<P.Bundle, P.PreKeyError>, at: nat)
    : Result<P.Bundle, SendError>
  {
    match answer
    case Err(e) => Err(ClaimRefused(e))
    case Ok(b) =>
      if !F.Pinned(contact, b) then Err(SendError.ContactPinMismatch)
      else if b.createdAtMs <= at < b.expiresAtMs then Ok(b)
      else Err(PreKeyBundleExpired)
  }

  /** What the pin is: the contact's identity, device, device key and Signal key, on a bundle with a one-time prekey. */
  lemma APinIsEveryField(contact: F.Contact, answer: Result<P.Bundle, P.PreKeyError>, at: nat)
    requires answer.Ok?
    ensures var b := answer.value;
            var pinned := b.oneTime && b.identity == contact.identity && b.device == contact.device
                          && b.devicePubKey == contact.devicePubKey && b.signalIdentity == contact.signalIdentity;
            && (Judged(contact, answer, at) == Err(SendError.ContactPinMismatch) <==> !pinned)
            && (Judged(contact, answer, at) == Err(PreKeyBundleExpired)
                <==> pinned && !(b.createdAtMs <= at < b.expiresAtMs))
            && (Judged(contact, answer, at).Ok? <==> pinned && b.createdAtMs <= at < b.expiresAtMs)
  {}

  /** The claim under the stored identifier, and one replacement when its bundle is outdated. */
  ghost function FirstClaim(r: P.Relay, contact: F.Contact, id: P.ClaimId, draw: P.ClaimId, clocks: Clocks): Claimed {
    var (r1, first) := ClaimOnce(r, contact, id, clocks.relayMs(0), clocks.at(0));
    if first != Err(PreKeyBundleExpired) then Claimed(r1, false, first, 1)
    else
      var (r2, second) := ClaimOnce(r1, contact, draw, clocks.relayMs(1), clocks.at(1));
      Claimed(r2, true, second, 2)
  }

  /** What one send may draw: a claim identifier to start with and one to replace it, and the envelope's own. */
  datatype Draws = Draws(claim: P.ClaimId, replacement: P.ClaimId, envelope: EnvelopeId, nonce: nat, encodedBytes: nat)

  const ENVELOPE_LIFETIME_MS: nat := 86400000

  /** The one outbound entry of a message. */
  function Narration(content: Content, createdAtMs: int): HistoryEntry {
    HistoryEntry(content.recipient, content.message, false, content.plaintext, createdAtMs)
  }

  /** The envelope says who it is from and to, on which devices, and carries this message sealed for it. */
  predicate Addresses(e: Envelope, me: Identity, device: Device, contact: F.Contact, content: Content) {
    && e.sender == me && e.senderDevice == device && e.recipient == content.recipient
    && e.recipientDevice == contact.device && e.message == content.message && e.sizeMatches
    && e.ciphertext.Sealed? && e.ciphertext.sender == me && e.ciphertext.message == content.message
    && e.ciphertext.plaintext == content.plaintext
  }

  /** Nothing of an earlier message changed, except that it may have become delivered. */
  ghost predicate Preserved(before: map<MessageId, OutboxRecord>, after: map<MessageId, OutboxRecord>) {
    forall m :: m in before ==>
      m in after && after[m].content == before[m].content && after[m].envelope == before[m].envelope
      && (before[m].delivered ==> after[m].delivered)
  }

  type SignalOutbox = map<(Identity, MessageId), (string, Ciphertext)>

  /** Every record is this sender's envelope for its message, and the Signal layer holds its ciphertext. */
  ghost predicate OutboxSealed(me: Identity, outbox: map<MessageId, OutboxRecord>, signal: SignalOutbox) {
    && (forall m :: m in outbox ==>
          var record := outbox[m];
          && record.content.message == m && record.envelope.message == m
              && record.envelope.recipient == record.content.recipient
          && record.envelope.sender == me && record.envelope.ciphertext.Sealed?
          && record.envelope.ciphertext.plaintext == record.content.plaintext
          && (record.content.recipient, m) in signal
          && signal[(record.content.recipient, m)] == (record.content.plaintext, record.envelope.ciphertext))
    && (forall k :: k in signal ==> k.1 in outbox && outbox[k.1].content.recipient == k.0)
  }

  lemma SealedOneMore(me: Identity, outbox: map<MessageId, OutboxRecord>, signal: SignalOutbox, record: OutboxRecord)
    requires OutboxSealed(me, outbox, signal) && record.content.message !in outbox
    requires record.envelope.message == record.content.message && record.envelope.recipient == record.content.recipient
    requires record.envelope.sender == me && record.envelope.ciphertext.Sealed?
    requires record.envelope.ciphertext.plaintext == record.content.plaintext
    ensures var m := record.content.message;
            OutboxSealed(me, outbox[m := record],
                         signal[(record.content.recipient, m) := (record.content.plaintext,
                             record.envelope.ciphertext)])
  {}

  lemma StillSealed(me: Identity, outbox: map<MessageId, OutboxRecord>, signal: SignalOutbox, m: MessageId)
    requires OutboxSealed(me, outbox, signal) && m in outbox
    ensures OutboxSealed(me, outbox[m := outbox[m].(delivered := true)], signal)
    ensures (outbox[m].envelope.recipient, m) in signal
        && signal[(outbox[m].envelope.recipient, m)].1 == outbox[m].envelope.ciphertext
  {}

  class OutboundMessenger {
    const me: Identity
    const device: Device
    const handler: Handler
    const prekeys: P.PreKeyBundleRepository
    const published: bool
    var contacts: map<Identity, F.Contact>
    var sessions: set<Identity>
    var claimKeys: map<Identity, P.ClaimId>
    var outbox: map<MessageId, OutboxRecord>
    var signal: SignalOutbox            // the Signal layer's own record of what it sealed
    var history: seq<HistoryEntry>

    ghost predicate Valid()
      reads this
    {
      OutboxSealed(me, outbox, signal) && forall k :: k in contacts ==> contacts[k].identity == k
    }

    constructor (me: Identity, device: Device, handler: Handler, prekeys: P.PreKeyBundleRepository, published: bool,
        contacts: map<Identity, F.Contact>)
      requires forall k :: k in contacts ==> contacts[k].identity == k
      ensures Valid() && outbox == map[] && history == [] && this.me == me && this.handler == handler
          && this.prekeys == prekeys
    {
      this.me, this.device, this.handler, this.prekeys, this.published := me, device, handler, prekeys, published;
      this.contacts, sessions, claimKeys, outbox, signal, history := contacts, {}, map[], map[], map[], [];
    }

    /** One claim request.  Its identifier is the durable one: it can only be asked under what is stored. */
    method RequestClaim(contact: F.Contact, identifier: P.ClaimId, relayMs: nat)
        returns (answer: Result<P.Bundle, P.PreKeyError>)
      requires P.Linked(prekeys.State())
      requires contact.identity in claimKeys && claimKeys[contact.identity] == identifier
      modifies prekeys
      ensures P.Linked(prekeys.State())
      ensures (prekeys.State(), answer) == P.Claim(old(prekeys.State()), identifier, F.Wanted(contact), relayMs)
    {
      answer := prekeys.ClaimSignalV2(identifier, F.Wanted(contact), relayMs);
    }

    /** Claims under the stored identifier; an outdated bundle is given up once, its replacement stored first. */
    method ClaimFirstContact(contact: F.Contact, claimId: P.ClaimId, draw: P.ClaimId, clocks: Clocks)
      returns (r: Result<P.Bundle, SendError>, replaced: bool, requests: nat)
      requires P.Linked(prekeys.State()) && contact.identity in claimKeys && claimKeys[contact.identity] == claimId
      modifies this`claimKeys, prekeys
      ensures var c := FirstClaim(old(prekeys.State()), contact, claimId, draw, clocks);
              && prekeys.State() == c.relay && r == c.answer && replaced == c.replaced && requests == c.requests <= 2
              && claimKeys == if c.replaced then old(claimKeys)[contact.identity := draw] else old(claimKeys)
      ensures P.Linked(prekeys.State())
      ensures var (relay, first) := P.Claim(old(prekeys.State()), claimId, F.Wanted(contact), clocks.relayMs(0));
              if first.Ok? && F.Pinned(contact, first.value) && !P.InWindow(first.value, clocks.at(0))
              then
                var (again, second) := P.Claim(relay, draw, F.Wanted(contact), clocks.relayMs(1));
                && replaced && requests == 2 && claimKeys == old(claimKeys)[contact.identity := draw]
                && prekeys.State() == again && r == Judged(contact, second, clocks.at(1))
              else
                && !replaced && requests == 1 && claimKeys == old(claimKeys)
                && prekeys.State() == relay && r == Judged(contact, first, clocks.at(0))
    {
      hide P.Claim, P.Linked;
      var identifier := claimId;
      replaced, requests := false, 0;
      while true
        invariant P.Linked(prekeys.State()) && requests == (if replaced then 1 else 0)
        invariant !replaced ==>
          && identifier == claimId && prekeys.State() == old(prekeys.State()) && claimKeys == old(claimKeys)
        invariant replaced ==>
          && identifier == draw && claimKeys == old(claimKeys)[contact.identity := draw]
          && ClaimOnce(old(prekeys.State()), contact, claimId, clocks.relayMs(0), clocks.at(0))
             == (prekeys.State(), Err(PreKeyBundleExpired))
        decreases 2 - requests
      {
        var answer := RequestClaim(contact, identifier, clocks.relayMs(requests));
        var at := clocks.at(requests);
        requests := requests + 1;
        if answer.Err? { return Err(ClaimRefused(answer.error)), replaced, requests; }
        var bundle := answer.value;
        if !F.Pinned(contact, bundle) { return Err(SendError.ContactPinMismatch), replaced, requests; }
        if P.InWindow(bundle, at) { return Ok(bundle), replaced, requests; }
        if replaced { return Err(PreKeyBundleExpired), replaced, requests; }
        replaced := true;
        claimKeys := claimKeys[contact.identity := draw];
        identifier := draw;
      }
    }

    /** The stored claim identifier, or a new one stored first, and the claim under it. */
    method ClaimFor(contact: F.Contact, draws: Draws, clocks: Clocks)
        returns (failure: Option<SendError>, replaced: bool, requests: nat)
      requires P.Linked(prekeys.State())
      modifies this`claimKeys, prekeys
      ensures var who := contact.identity;
              var id := if who in old(claimKeys) then old(claimKeys)[who] else draws.claim;
              var c := FirstClaim(old(prekeys.State()), contact, id, draws.replacement, clocks);
              && prekeys.State() == c.relay && replaced == c.replaced && requests == c.requests <= 2
              && failure == (if c.answer.Ok? then None else Some(c.answer.error))
              && claimKeys == old(claimKeys)[who := if c.replaced then draws.replacement else id]
      ensures P.Linked(prekeys.State())
    {
      hide FirstClaim, P.Linked;
      if contact.identity !in claimKeys { claimKeys := claimKeys[contact.identity := draws.claim]; }
      var claimed;
      claimed, replaced, requests := ClaimFirstContact(contact, claimKeys[contact.identity], draws.replacement, clocks);
      failure := if claimed.Ok? then None else Some(claimed.error);
    }

    /** What the delivery machine sees of this messenger. */
    ghost function View(): S.View
      reads this, handler.repo
    {
      S.View(me, outbox, history, handler.repo.State())
    }

    ghost function Terms(established: bool, nowMs: nat, writes: nat): S.Terms {
      S.Terms(SenderQuota(handler.limits.quota), handler.repo.retentionCapMs, established, nowMs, writes)
    }

    /** The one envelope of a message handed to the relay, and noted as delivered only after the relay took it. */
    method Deliver(m: MessageId, established: bool, nowMs: nat, writes: nat) returns (r: Result<EnvelopeId, SendError>)
      requires Valid() && m in outbox
      modifies this`outbox, handler.repo`primary, handler.repo`index, handler.repo`next
      ensures Valid() && Preserved(old(outbox), outbox)
      ensures var d := S.DeliverOne(old(outbox), old(handler.repo.State()), m, Terms(established, nowMs, writes));
              && outbox == d.outbox && handler.repo.State() == d.box
              && r == (if d.refusal.Some? then Err(RelayRefused(d.refusal.value)) else Ok(outbox[m].envelope.id))
      ensures old(outbox)[m].delivered ==>
                outbox == old(outbox) && handler.repo.State() == old(handler.repo.State())
    {
      hide AnswerSend, OutboxSealed;
      StillSealed(me, outbox, signal, m);
      var record := outbox[m];
      if record.delivered { return Ok(record.envelope.id); }
      var key := (record.envelope.recipient, m);
      if key !in signal || signal[key].1 != record.envelope.ciphertext { return Err(OutboundRejected); }
      var answer := handler.SendEnvelope(record.envelope, established, nowMs, writes);
      if answer.Err? { return Err(RelayRefused(answer.error)); }
      outbox := outbox[m := record.(delivered := true)];
      r := Ok(record.envelope.id);
    }

    /** A message id already committed: the same content is delivered again, any other is refused. */
    method Settle(input: Content, established: bool, nowMs: nat, writes: nat) returns (r: Result<EnvelopeId, SendError>)
      requires Valid() && input.message in outbox
      modifies this`outbox, handler.repo`primary, handler.repo`index, handler.repo`next
      ensures Valid() && Preserved(old(outbox), outbox) && outbox.Keys == old(outbox).Keys
      ensures old(outbox)[input.message].content != input ==>
                r == Err(SendError.MessageIdConflict) && outbox == old(outbox)
                    && handler.repo.State() == old(handler.repo.State())
      ensures S.IsARun(old(View()), View(), nowMs)
      ensures Transmitted(old(handler.repo.State()), handler.repo.State(), outbox[input.message].envelope,
                          Terms(established, nowMs, writes))
      ensures r.Ok? ==>
                && outbox[input.message].delivered && outbox[input.message].content == input
                && r.value == outbox[input.message].envelope.id
    {
      hide AnswerSend, OutboxSealed, S.IsARun;
      if outbox[input.message].content != input {
        S.StandingStillIsARun(View(), nowMs);
        return Err(SendError.MessageIdConflict);
      }
      S.DeliveryIsARun(View(), input.message, Terms(established, nowMs, writes));
      r := Deliver(input.message, established, nowMs, writes);
    }

    /**
     A send.  A used message id never changes; a new one is committed at most once, with its envelope, one
     outbound history entry and the session it needed; and only that envelope is ever handed to the relay.
     */
    method SendOwned(input: Content, draws: Draws, clocks: Clocks, established: bool, nowMs: nat, writes: nat)
      returns (r: Result<EnvelopeId, SendError>, claimReplaced: bool, requests: nat)
      requires Valid() && P.Linked(prekeys.State())
      modifies this`sessions, this`signal, this`outbox, this`history, this`claimKeys
      modifies prekeys, handler.repo`primary, handler.repo`index, handler.repo`next
      ensures Valid() && P.Linked(prekeys.State()) && Preserved(old(outbox), outbox)
      ensures requests <= 2 && (input.message in old(outbox) || input.recipient in old(sessions) ==> requests == 0)
      ensures input.message in old(outbox) ==>
                outbox.Keys == old(outbox).Keys && history == old(history) && sessions == old(sessions)
                    && claimKeys == old(claimKeys)
      ensures input.message in old(outbox) && old(outbox)[input.message].content != input ==>
                r == Err(SendError.MessageIdConflict) && outbox == old(outbox)
                    && handler.repo.State() == old(handler.repo.State())
      ensures input.message !in old(outbox) && input.message in outbox ==>
                && outbox.Keys == old(outbox).Keys + {input.message} && outbox[input.message].content == input
                && history == old(history) + [Narration(input, outbox[input.message].envelope.createdAtMs)]
                && input.recipient in sessions && input.recipient !in claimKeys
                && input.recipient in contacts
                && var e := outbox[input.message].envelope;
                   && Addresses(e, me, device, contacts[input.recipient], input)
                   && e.expiresAtMs == e.createdAtMs + 24 * 60 * 60 * 1000
                   && history[|history| - 1] == HistoryEntry(input.recipient, input.message, false, input.plaintext,
                                                             e.createdAtMs)
      ensures input.message !in old(outbox) ==>
                && (input.recipient !in contacts ==> r == Err(SendError.ContactNotTrusted))
                && (input.recipient in contacts && !published ==> r == Err(SenderNotPublished))
      ensures if input.message in old(outbox) || input.recipient !in contacts || !published
                 || input.recipient in old(sessions)
              then prekeys.State() == old(prekeys.State())
              else
                var id := if input.recipient in old(claimKeys) then old(claimKeys)[input.recipient] else draws.claim;
                var c := FirstClaim(old(prekeys.State()), contacts[input.recipient], id, draws.replacement, clocks);
                && prekeys.State() == c.relay && requests == c.requests && claimReplaced == c.replaced
                && (c.answer.Ok? <==> input.message in outbox)
                && (c.answer.Err? ==>
                      && r == Err(c.answer.error)
                      && claimKeys == old(claimKeys)[input.recipient := if c.replaced then draws.replacement else id])
      ensures input.message !in outbox ==>
                outbox == old(outbox) && history == old(history)
                    && handler.repo.State() == old(handler.repo.State()) && r.Err?
      ensures S.IsARun(old(View()), View(), nowMs)
      ensures input.message in outbox ==>
                Transmitted(old(handler.repo.State()), handler.repo.State(), outbox[input.message].envelope,
                            Terms(established, nowMs, writes))
      ensures r.Ok? ==>
                && input.message in outbox && outbox[input.message].delivered && outbox[input.message].content == input
                && r.value == outbox[input.message].envelope.id
    {
      hide AnswerSend, P.Claim, P.Linked, FirstClaim, OutboxSealed, Transmitted, S.IsARun;
      S.StandingStillIsARun(View(), nowMs);
      claimReplaced, requests := false, 0;
      if input.message in outbox {
        r := Settle(input, established, nowMs, writes);
        return;
      }
      if input.recipient !in contacts { return Err(SendError.ContactNotTrusted), false, 0; }
      if !published { return Err(SenderNotPublished), false, 0; }
      var contact := contacts[input.recipient];
      if input.recipient !in sessions {
        var failure;
        failure, claimReplaced, requests := ClaimFor(contact, draws, clocks);
        if failure.Some? { return Err(failure.value), claimReplaced, requests; }
      }
      r := SendNew(input, contact, draws, clocks.at(requests), established, nowMs, writes);
    }

    /** A new message committed, and its envelope handed to the relay once. */
    method SendNew(input: Content, contact: F.Contact, draws: Draws, createdMs: nat, established: bool, nowMs: nat,
        writes: nat)
      returns (r: Result<EnvelopeId, SendError>)
      requires Valid() && input.message !in outbox
      modifies this`sessions, this`signal, this`outbox, this`history, this`claimKeys
      modifies handler.repo`primary, handler.repo`index, handler.repo`next
      ensures Valid() && outbox.Keys == old(outbox).Keys + {input.message} && Preserved(old(outbox), outbox)
      ensures var e := outbox[input.message].envelope; e.expiresAtMs == e.createdAtMs + 24 * 60 * 60 * 1000
      ensures Addresses(outbox[input.message].envelope, me, device, contact, input)
      ensures outbox[input.message].content == input
      ensures r.Ok? ==> outbox[input.message].delivered && r.value == outbox[input.message].envelope.id
      ensures history == old(history) + [Narration(input, outbox[input.message].envelope.createdAtMs)]
      ensures sessions == old(sessions) + {input.recipient} && claimKeys == old(claimKeys) - {input.recipient}
      ensures S.IsARun(old(View()), View(), nowMs)
      ensures Transmitted(old(handler.repo.State()), handler.repo.State(), outbox[input.message].envelope,
                          Terms(established, nowMs, writes))
    {
      hide AnswerSend, OutboxSealed, S.IsARun;
      ghost var before := View();
      Commit(input, contact, draws, createdMs);
      ghost var committed := View();
      S.CommitIsARun(before, Written(input, contact, draws, createdMs), Narration(input, createdMs), nowMs);
      S.DeliveryIsARun(committed, input.message, Terms(established, nowMs, writes));
      r := Deliver(input.message, established, nowMs, writes);
      S.RunsInARow(before, committed, View(), nowMs);
    }

    /** The machine's step for a message this messenger writes. */
    ghost function Written(input: Content, contact: F.Contact, draws: Draws, createdMs: nat): Event {
      SendMessage(me, input, draws.envelope, device, contact.device, draws.nonce, createdMs,
                  createdMs + ENVELOPE_LIFETIME_MS, draws.encodedBytes)
    }

    /** The transaction of a new message: session, ciphertext, outbox record and history entry together. */
    method Commit(input: Content, contact: F.Contact, draws: Draws, createdMs: nat)
      requires Valid() && input.message !in outbox
      modifies this`sessions, this`signal, this`outbox, this`history, this`claimKeys
      ensures Valid() && outbox.Keys == old(outbox).Keys + {input.message} && Preserved(old(outbox), outbox)
      ensures outbox[input.message].content == input && !outbox[input.message].delivered
      ensures View() == S.WithMessage(old(View()), Written(input, contact, draws, createdMs),
                                      Narration(input, createdMs))
      ensures outbox[input.message].envelope.createdAtMs == createdMs
      ensures Addresses(outbox[input.message].envelope, me, device, contact, input)
      ensures outbox[input.message].envelope.expiresAtMs == createdMs + 24 * 60 * 60 * 1000
      ensures sessions == old(sessions) + {input.recipient} && claimKeys == old(claimKeys) - {input.recipient}
    {
      hide OutboxSealed;
      ghost var before, sealed := outbox, signal;
      sessions := sessions + {input.recipient};
      var ciphertext := Sealed(me, input.message, input.plaintext, draws.nonce);
      signal := signal[(input.recipient, input.message) := (input.plaintext, ciphertext)];
      var envelope := Envelope(draws.envelope, input.message, me, device, input.recipient, contact.device, ciphertext,
                               createdMs, createdMs + ENVELOPE_LIFETIME_MS, true, draws.encodedBytes);
      outbox := outbox[input.message := OutboxRecord(input, envelope, false)];
      history := history + [Narration(input, createdMs)];
      claimKeys := claimKeys - {input.recipient};
      SealedOneMore(me, before, sealed, OutboxRecord(input, envelope, false));
    }

    /**
     Everything pending delivered again, in key order, until one is refused: the outbox, the relay's mailbox
     and the answers are those of the deliveries made in that order.
     */
    method RetryPending(established: bool, nowMs: nat, writes: nat)
        returns (results: seq<EnvelopeId>, failure: Option<SendError>)
      requires Valid()
      modifies this`outbox, handler.repo`primary, handler.repo`index, handler.repo`next
      ensures Valid() && Preserved(old(outbox), outbox) && outbox.Keys == old(outbox).Keys
      ensures failure.None? ==> forall m :: m in outbox ==> outbox[m].delivered
      ensures var r := Outstanding(old(outbox), old(handler.repo.State()), S.Pending(old(outbox)),
                                   Terms(established, nowMs, writes));
              && outbox == r.outbox && handler.repo.State() == r.box && results == r.results
              && failure == (if r.refusal.Some? then Some(RelayRefused(r.refusal.value)) else None)
      ensures S.IsARun(old(View()), View(), nowMs)
    {
      hide AnswerSend, OutboxSealed, S.IsARun, S.DeliverOne, Outstanding, Preserved, After;
      PreservedItself(outbox);
      ghost var t, before := Terms(established, nowMs, writes), View();
      results, failure := [], None;
      var pending := set m | m in outbox && !outbox[m].delivered;
      assert pending == S.Pending(outbox);
      ghost var all := Outstanding(outbox, handler.repo.State(), pending, t);
      RetryIsARun(before, pending, t);
      NothingYet(all);
      while pending != {}
        invariant Valid() && Preserved(old(outbox), outbox) && outbox.Keys == old(outbox).Keys
        invariant pending <= outbox.Keys && forall m :: m in outbox ==> m in pending || outbox[m].delivered
        invariant all == After(results, Outstanding(outbox, handler.repo.State(), pending, t))
        decreases pending
      {
        var m := MR.First(pending);
        DeliveredNext(outbox, handler.repo.State(), pending, m, t);
        pending := pending - {m};
        ghost var was, earlier := results, outbox;
        var r := Deliver(m, established, nowMs, writes);
        PreservedTwice(old(outbox), earlier, outbox);
        if r.Err? {
          NothingMore(was, S.Retried(outbox, handler.repo.State(), [], Some(r.error.route)));
          return results, Some(r.error);
        }
        results := results + [r.value];
        Regroup(was, r.value, Outstanding(outbox, handler.repo.State(), pending, t));
      }
      NothingOutstanding(outbox, handler.repo.State(), t);
      NothingMore(results, S.Retried(outbox, handler.repo.State(), [], None));
    }
  }

  // ---- deliveries in key order -------------------------------------------------------------------------------

  lemma ListedAreKeys(outbox: map<MessageId, OutboxRecord>, pending: set<MessageId>)
    requires pending <= outbox.Keys
    ensures forall i :: 0 <= i < |B.Ascending(pending)| ==> B.Ascending(pending)[i] in outbox
  {
    B.AscendingLists(pending);
    forall i | 0 <= i < |B.Ascending(pending)| ensures B.Ascending(pending)[i] in outbox {
      assert B.Ascending(pending)[i] in B.Ascending(pending);
    }
  }

  /** The deliveries still to make: these messages, least identifier first. */
  ghost function Outstanding(outbox: map<MessageId, OutboxRecord>, box: Box, pending: set<MessageId>, t: S.Terms)
    : S.Retried
    requires pending <= outbox.Keys
  {
    ListedAreKeys(outbox, pending);
    S.DeliverAll(outbox, box, B.Ascending(pending), t)
  }

  /** What was delivered before, and then the rest. */
  ghost function After(results: seq<EnvelopeId>, r: S.Retried): S.Retried { r.(results := results + r.results) }

  lemma NothingYet(r: S.Retried)
    ensures After([], r) == r
  {}

  lemma NothingMore(results: seq<EnvelopeId>, r: S.Retried)
    requires r.results == []
    ensures After(results, r) == r.(results := results)
  {}

  lemma PreservedItself(outbox: map<MessageId, OutboxRecord>)
    ensures Preserved(outbox, outbox)
  {}

  lemma PreservedTwice(a: map<MessageId, OutboxRecord>, b: map<MessageId, OutboxRecord>,
      c: map<MessageId, OutboxRecord>)
    requires Preserved(a, b) && Preserved(b, c)
    ensures Preserved(a, c)
  {}

  lemma Regroup(results: seq<EnvelopeId>, id: EnvelopeId, r: S.Retried)
    ensures After(results, After([id], r)) == After(results + [id], r)
  {}

  lemma FirstOfAscending(pending: set<MessageId>, m: MessageId)
    requires m in pending && forall x :: x in pending ==> m <= x
    ensures B.Ascending(pending) == [m] + B.Ascending(pending - {m})
  {
    B.AscendingLists(pending - {m});
    B.PrependLeast(pending, m, B.Ascending(pending - {m}));
    B.AscendingIsUnique(pending, [m] + B.Ascending(pending - {m}));
  }

  /** One delivery off the front of those that are left. */
  lemma DeliveredNext(outbox: map<MessageId, OutboxRecord>, box: Box, pending: set<MessageId>, m: MessageId, t: S.Terms)
    requires m in pending && pending <= outbox.Keys && forall x :: x in pending ==> m <= x
    ensures var d := S.DeliverOne(outbox, box, m, t);
            && d.outbox.Keys == outbox.Keys && d.outbox[m].envelope == outbox[m].envelope
            && (forall k :: k in outbox && k != m ==> d.outbox[k] == outbox[k])
            && (d.refusal.None? ==> d.outbox[m].delivered)
            && Outstanding(outbox, box, pending, t)
               == if d.refusal.Some? then S.Retried(d.outbox, d.box, [], d.refusal)
                  else After([outbox[m].envelope.id], Outstanding(d.outbox, d.box, pending - {m}, t))
  {
    hide S.Answer, B.Ascending;
    FirstOfAscending(pending, m);
    assert B.Ascending(pending)[1..] == B.Ascending(pending - {m});
  }

  lemma NothingOutstanding(outbox: map<MessageId, OutboxRecord>, box: Box, t: S.Terms)
    ensures Outstanding(outbox, box, {}, t) == S.Retried(outbox, box, [], None)
  {
    assert B.Ascending({}) == [];
  }

  lemma RetryIsARun(before: S.View, pending: set<MessageId>, t: S.Terms)
    requires pending <= before.outbox.Keys
    ensures var r := Outstanding(before.outbox, before.box, pending, t);
            S.IsARun(before, before.(outbox := r.outbox, box := r.box), t.nowMs)
  {
    hide S.IsARun;
    ListedAreKeys(before.outbox, pending);
    S.RetryIsARun(before, B.Ascending(pending), t);
  }

  /** The relay saw nothing, or exactly this envelope. */
  ghost predicate Transmitted(before: Box, after: Box, envelope: Envelope, t: S.Terms) {
    after == before || after == S.Answer(before, envelope, t).0
  }

  /**
   A retry is harmless: an envelope that is still stored is answered "relayed" again, whatever the
   sender's allowance, and nothing in the mailbox moves.
   */
  lemma ARetryMovesNothing(box: Box, quota: nat, capMs: nat, envelope: Envelope, nowMs: nat, writes: nat)
    requires box.next.Some? && Stored(box, envelope.id, nowMs) && box.primary[envelope.id].envelope == envelope
        && envelope.expiresAtMs > nowMs
    ensures AnswerSend(box, quota, capMs, envelope, true, nowMs, writes) == (box, Ok(()))
  {}

  // ---- the loop is a run of the first-contact machine --------------------------------------------------------------

  /** One request answered and judged: the three steps of the machine, and what they leave. */
  lemma ClaimOnceIsARun(w: F.World, relayMs: nat, at: nat, draw: P.ClaimId) returns (events: seq<F.Event>)
    requires w.phase.Claiming? && !w.phase.asked && w.claimKey == Some(w.phase.id) && w.phase.id in w.mine
    requires F.FreshId(w, draw) && draw != w.phase.id
    ensures var (relay, answer) := ClaimOnce(w.relay, w.contact, w.phase.id, relayMs, at);
            var t := F.Run(w, events);
            && t.relay == relay && t.contact == w.contact && t.session == w.session
            && t.requests == w.requests + 1 && draw !in relay.claims
            && (answer.Ok? ==> t.phase == F.Verified(w.phase.id, answer.value) && t.claimKey == w.claimKey)
            && (answer.Err? && (answer.error != PreKeyBundleExpired || w.phase.replaced) ==>
                  t.phase == F.Idle && t.claimKey == w.claimKey)
            && (answer == Err(PreKeyBundleExpired) && !w.phase.replaced ==>
                  t.phase == F.Claiming(draw, true, false) && t.claimKey == Some(draw) && t.mine == w.mine + {draw})
  {
    var id := w.phase.id;
    var refused := P.Claim(w.relay, id, F.Wanted(w.contact), relayMs).1.Err?;
    var last := if refused then F.Refused else F.Read(at, draw);
    events := [F.Ask, F.Serve(id, relayMs), last];
    F.ThreeSteps(w, F.Ask, F.Serve(id, relayMs), last);
  }

  /**
   The claim loop of a send is a run of the first-contact machine, from its stored or its new identifier to
   a verified bundle or to idleness: so what is proved of every run holds of the loop.
   */
  lemma FirstClaimIsARun(w: F.World, draws: Draws, clocks: Clocks) returns (events: seq<F.Event>)
    requires w.phase.Idle? && !w.session && F.NothingWasted(w)
    requires F.FreshId(w, draws.claim) && F.FreshId(w, draws.replacement) && draws.claim != draws.replacement
    ensures var id := if w.claimKey.Some? then w.claimKey.value else draws.claim;
            var c := FirstClaim(w.relay, w.contact, id, draws.replacement, clocks);
            var t := F.Run(w, events);
            && t.relay == c.relay && t.requests == c.requests && !t.session
            && t.claimKey == Some(if c.replaced then draws.replacement else id)
            && (c.answer.Ok? ==> t.phase.Verified? && t.phase.bundle == c.answer.value)
            && (c.answer.Err? ==> t.phase.Idle?)
  {
    hide ClaimOnce, P.Claim;
    var begun := F.Apply(w, F.Begin(draws.claim));
    var first := ClaimOnceIsARun(begun, clocks.relayMs(0), clocks.at(0), draws.replacement);
    var once := F.Run(begun, first);
    events := [F.Begin(draws.claim)] + first;
    assert events[1..] == first;
    if ClaimOnce(begun.relay, begun.contact, begun.phase.id, clocks.relayMs(0),
        clocks.at(0)).1 == Err(PreKeyBundleExpired) {
      var spare := Unused(once);
      var second := ClaimOnceIsARun(once, clocks.relayMs(1), clocks.at(1), spare);
      F.RunInParts(w, events, second);
      events := events + second;
    }
  }

  /**
   And so is the commit after it, as for the messages that follow: under a bundle just verified, or under a
   session there already was, it leaves a session and no claim identifier, and nothing else moves.
   */
  lemma CommitIsAStep(w: F.World) returns (e: F.Event)
    requires if w.session then w.phase.Idle? else w.phase.Verified?
    ensures var t := F.Run(w, [e]);
            && t.session && t.claimKey.None? && t.phase.Idle?
            && t == w.(session := t.session, claimKey := t.claimKey, phase := t.phase, spent := t.spent)
            && (w.claimKey.Some? && F.NothingWasted(w) ==> t.spent == w.claimKey)
  {
    e := if w.session then F.CommitUnderSession else F.Establish;
    assert [e][1..] == [];
  }

  /** The stored claim is dead: it holds a bundle of the pinned contact whose window has closed for the sender. */
  ghost predicate Dead(r: P.Relay, contact: F.Contact, id: P.ClaimId, at: nat) {
    && id in r.claims && r.claims[id].identity == contact.identity && r.claims[id].device == Some(contact.device)
    && F.Pinned(contact, r.claims[id].bundle)
    && !(r.claims[id].bundle.createdAtMs <= at < r.claims[id].bundle.expiresAtMs)
  }

  /** Whatever the relay would hand out now is the pinned contact's and in its window for the sender. */
  ghost predicate AllServe(r: P.Relay, contact: F.Contact, relayMs: nat, at: nat) {
    forall k :: k in P.EligibleKeys(r, F.Wanted(contact), relayMs) ==>
      k.id in r.bundles && F.Pinned(contact, r.bundles[k.id].bundle)
      && r.bundles[k.id].bundle.createdAtMs <= at < r.bundles[k.id].bundle.expiresAtMs
  }

  /** The oldest bundle the relay had, bound to this identifier, and every older claim as it was. */
  ghost predicate CameAwayWith(r: P.Relay, t: P.Relay, contact: F.Contact, b: P.Bundle, id: P.ClaimId, relayMs: nat) {
    && P.KeyFor(b) in P.EligibleKeys(r, F.Wanted(contact), relayMs)
    && (forall k :: k in P.EligibleKeys(r, F.Wanted(contact), relayMs) ==> P.Before(P.KeyFor(b), k))
    && P.BoundBy(t, b.id, id) && (forall c :: c in r.claims ==> c in t.claims && t.claims[c] == r.claims[c])
  }

  /**
   A dead claim does not silence a contact.  As long as the relay has an eligible bundle, and what it has is the
   pinned contact's and in its window for the sender, the send that finds its claim dead comes away with the
   oldest, bound to a new identifier, after two requests; the old claim is what it was.
   */
  lemma ADeadClaimIsReplaced(r: P.Relay, contact: F.Contact, id: P.ClaimId, draw: P.ClaimId, clocks: Clocks)
    requires P.Linked(r) && Dead(r, contact, id, clocks.at(0)) && draw !in r.claims
    requires P.EligibleKeys(r, F.Wanted(contact), clocks.relayMs(1)) != {}
    requires AllServe(r, contact, clocks.relayMs(1), clocks.at(1))
    ensures var c := FirstClaim(r, contact, id, draw, clocks);
            && c.replaced && c.requests == 2 && c.answer.Ok?
            && CameAwayWith(r, c.relay, contact, c.answer.value, draw, clocks.relayMs(1))
  {
    hide P.Linked, P.EligibleKeys, P.BoundBy, P.Before;
    P.AFreshClaimTakesTheOldest(r, draw, F.Wanted(contact), clocks.relayMs(1));
    P.ClaimedIsEligible(r, draw, F.Wanted(contact), clocks.relayMs(1));
    P.StepGrows(r, P.ClaimRequest(draw, F.Wanted(contact), clocks.relayMs(1)));
  }

  /** Some identifier is always unused. */
  lemma Unused(w: F.World) returns (id: P.ClaimId)
    ensures F.FreshId(w, id) && w.claimKey != Some(id) && (w.phase.Claiming? ==> w.phase.id != id)
  {
    var taken := w.mine + w.relay.claims.Keys + (if w.claimKey.Some? then {w.claimKey.value} else {})
                 + (if w.phase.Claiming? then {w.phase.id} else {});
    id := Above(taken);
  }
}
