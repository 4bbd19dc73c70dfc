/**
 End-to-end delivery into one mailbox, as a machine: honest senders with durable outboxes, anyone else
 on the wire, the relay, and one recipient.  A request or a page that was ever sent may take effect at
 any later time and any number of times, so retries, duplicates, lost responses and process exits are
 all included.
 */
module Delivery {
  import opened Wrappers
  import opened MailboxState
  import opened ClientStore
  import B = Backfill

  /** What a sender was asked to send; its digest stands for exactly this. */
  datatype Content = Content(recipient: Identity, message: MessageId, plaintext: string)

  datatype OutboxRecord = OutboxRecord(content: Content, envelope: Envelope, delivered: bool)

  datatype Sent = Sent(sender: Identity, message: MessageId)

  datatype World = World(
    honest: set<Identity>,
    outbox: map<Sent, OutboxRecord>,
    outHistory: seq<(Sent, string)>,      // outbound history of all honest senders
    wire: set<Envelope>,                  // every send request ever made
    box: Box,
    accepted: set<Envelope>,              // every envelope the relay has answered "relayed" for
    offered: set<Envelope>,               // every envelope a page response has carried
    store: Store,
    ackWire: set<EnvelopeId>,             // every identifier an ack request has carried
    nowMs: nat
  )

  datatype Event =
    | Tick(ms: nat)
    | SendMessage(sender: Identity, content: Content, id: EnvelopeId, senderDevice: Device, recipientDevice: Device,
        nonce: nat, createdAtMs: int, expiresAtMs: int, encodedBytes: nat)
    | Transmit(key: Sent)                 // deliver, or any retry of it
    | Inject(envelope: Envelope)          // anything anybody else can put on the wire
    | RelayStores(envelope: Envelope, capMs: nat)
    | Confirm(key: Sent)                  // the sender reads the relay's answer
    | Offer(id: EnvelopeId)
    | Judge(envelope: Envelope)
    | RequestAck(id: EnvelopeId)
    | RelayAcks(id: EnvelopeId)
    | ConfirmAck(id: EnvelopeId)
    | ImportCard(who: Identity, contact: Contact)
    | MoveMark(device: Device, position: nat)
    | KeepRewalk(token: Option<string>)
    | Migrate(writes: nat)                // the relay numbers old records, as far as its transactions commit

  /** The one envelope a sender builds for a message, at whatever its own clock says. */
  function Built(e: Event): Envelope
    requires e.SendMessage?
  {
    Envelope(e.id, e.content.message, e.sender, e.senderDevice, e.content.recipient, e.recipientDevice,
             Sealed(e.sender, e.content.message, e.content.plaintext, e.nonce), e.createdAtMs, e.expiresAtMs, true,
             e.encodedBytes)
  }

  /** No one but the sender seals in the sender's name; copying what was sealed is possible. */
  predicate Genuine(w: World, c: Ciphertext) {
    c.Sealed? && c.sender in w.honest ==>
      Sent(c.sender, c.message) in w.outbox && w.outbox[Sent(c.sender, c.message)].envelope.ciphertext == c
  }

  ghost function Apply(w: World, e: Event, open: Opener): World {
    match e
    case Tick(ms) => w.(nowMs := w.nowMs + ms)
    case SendMessage(sender, content, _, _, _, _, _, _, _) =>
      var key := Sent(sender, content.message);
      if sender !in w.honest || key in w.outbox then w
      else w.(outbox := w.outbox[key := OutboxRecord(content, Built(e), false)],
              outHistory := w.outHistory + [(key, content.plaintext)])
    case Transmit(key) => if key in w.outbox then w.(wire := w.wire + {w.outbox[key].envelope}) else w
    case Inject(envelope) => if Genuine(w, envelope.ciphertext) then w.(wire := w.wire + {envelope}) else w
    case RelayStores(envelope, capMs) =>
      if envelope !in w.wire || w.box.next.None? then w else
      var (box, outcome) := Save(w.box, envelope, w.nowMs, capMs);
      w.(box := box, accepted := if outcome.Conflict? then w.accepted else w.accepted + {envelope})
    case Confirm(key) =>
      if key in w.outbox && w.outbox[key].envelope in w.accepted
      then w.(outbox := w.outbox[key := w.outbox[key].(delivered := true)]) else w
    case Offer(id) =>
      if LiveRecord(w.box, id, w.nowMs) then w.(offered := w.offered + {w.box.primary[id].envelope}) else w
    case Judge(envelope) =>
      if envelope !in w.offered then w else
      var verdict := AcceptOne(w.store, envelope, w.nowMs, open);
      if verdict.Ok? then w.(store := verdict.value) else w
    case RequestAck(id) => if id in w.store.acks then w.(ackWire := w.ackWire + {id}) else w
    case RelayAcks(id) => if id in w.ackWire then w.(box := Delete(w.box, id)) else w
    case ConfirmAck(id) =>
      if id in w.ackWire then w.(store := w.store.(acks := w.store.acks - {id})) else w
    case ImportCard(who, contact) => w.(store := ImportContact(w.store, who, contact))
    case MoveMark(device, position) => w.(box := AdvanceReadMark(w.box, device, position))
    case KeepRewalk(token) => w.(store := w.store.(rewalk := token))
    case Migrate(writes) => w.(box := B.EnsureOrdering(w.box, w.nowMs, writes))
  }

  ghost function Run(w: World, events: seq<Event>, open: Opener): World
    decreases |events|
  {
    if events == [] then w else Run(Apply(w, events[0], open), events[1..], open)
  }

  lemma {:induction false} RunInParts(w: World, first: seq<Event>, second: seq<Event>, open: Opener)
    ensures Run(w, first + second, open) == Run(Run(w, first, open), second, open)
    decreases |first|
  {
    hide Apply;
    if first == [] {
      assert first + second == second;
    } else {
      assert (first + second)[1..] == first[1..] + second;
      RunInParts(Apply(w, first[0], open), first[1..], second, open);
    }
  }

  lemma OneStep(w: World, e: Event, open: Opener)
    ensures Run(w, [e], open) == Apply(w, e, open)
  {
    hide Apply;
    assert [e][1..] == [];
    assert Run(Apply(w, e, open), [], open) == Apply(w, e, open);
  }

  lemma TwoSteps(w: World, a: Event, b: Event, open: Opener)
    ensures Run(w, [a, b], open) == Apply(Apply(w, a, open), b, open)
  {
    hide Apply;
    assert [a, b][1..] == [b];
    OneStep(Apply(w, a, open), b, open);
  }

  lemma ThreeSteps(w: World, a: Event, b: Event, c: Event, open: Opener)
    ensures Run(w, [a, b, c], open) == Apply(Apply(Apply(w, a, open), b, open), c, open)
  {
    hide Apply;
    assert [a, b, c][1..] == [b, c];
    TwoSteps(Apply(w, a, open), b, c, open);
  }

  /** Nothing sent, stored or received yet. */
  ghost predicate Start(w: World) {
    && w.outbox == map[] && w.outHistory == [] && w.wire == {} && w.accepted == {} && w.offered == {} && w.ackWire == {}
    && w.box.primary == map[]
    && w.store.inbox == map[] && w.store.unsealed == {} && w.store.history == [] && w.store.acks == map[]
  }

  // ---- the invariant ---------------------------------------------------------------------------------

  /** One outbound history entry per outbox record, carrying its plaintext, and none without a record. */
  ghost predicate SenderSide(w: World) {
    && (forall key :: key in w.outbox ==>
          var r := w.outbox[key];
          && key.sender in w.honest && r.content.message == key.message && r.envelope.message == key.message
              && r.envelope.sender == key.sender
          && r.envelope.ciphertext.Sealed? && r.envelope.ciphertext.sender == key.sender
          && r.envelope.ciphertext.message == key.message && r.envelope.ciphertext.plaintext == r.content.plaintext
          && (r.delivered ==> r.envelope in w.accepted))
    && (forall i :: 0 <= i < |w.outHistory| ==>
          w.outHistory[i].0 in w.outbox && w.outHistory[i].1 == w.outbox[w.outHistory[i].0].content.plaintext)
    && (forall i, j :: 0 <= i < j < |w.outHistory| ==> w.outHistory[i].0 != w.outHistory[j].0)
    && (forall key :: key in w.outbox ==> Narrated(w.outHistory, key))
  }

  ghost predicate Narrated(history: seq<(Sent, string)>, key: Sent) {
    exists i :: 0 <= i < |history| && history[i].0 == key
  }

  /** Everything that moves through the system descends from the wire, and the wire is genuine. */
  ghost predicate Flow(w: World) {
    && (forall e :: e in w.wire ==> Genuine(w, e.ciphertext))
    && w.accepted <= w.wire && w.offered <= w.accepted
    && (forall id :: id in w.box.primary ==>
          w.box.primary[id].envelope in w.accepted && w.box.primary[id].envelope.id == id)
    && (forall k :: k in w.store.inbox ==> Genuine(w, w.store.inbox[k]))
  }

  /** An identifier was acknowledged, or is about to be, only for an offered envelope that is committed. */
  ghost predicate AckBacked(w: World, id: EnvelopeId) {
    exists e :: e in w.offered && e.id == id && Committed(w.store, e)
  }

  ghost predicate Acks(w: World) {
    && (forall id :: id in w.store.acks ==> AckBacked(w, id))
    && (forall id :: id in w.ackWire ==> AckBacked(w, id))
  }

  /** The identifier of this envelope was also used by a different envelope the relay accepted. */
  ghost predicate IdShared(w: World, e: Envelope) {
    exists other :: other in w.accepted && other.id == e.id && other != e
  }

  ghost predicate InMailbox(w: World, e: Envelope) {
    e.id in w.box.primary && w.box.primary[e.id].envelope == e
  }

  ghost predicate Kept(w: World) {
    forall e :: e in w.accepted ==> InMailbox(w, e) || Committed(w.store, e) || IdShared(w, e)
  }

  ghost predicate Inv(w: World) {
    SenderSide(w) && Flow(w) && Consistent(w.store) && Acks(w) && Kept(w)
  }

  // ---- preservation -----------------------------------------------------------------------------------

  /** A step after the senders' part: their outboxes and histories are as they were. */
  ghost predicate SameSenders(w: World, t: World) {
    t.honest == w.honest && t.outbox == w.outbox && t.outHistory == w.outHistory
  }

  lemma SenderFrame(w: World, t: World)
    requires SenderSide(w) && SameSenders(w, t) && w.accepted <= t.accepted
    ensures SenderSide(t)
  {}

  /** The relay and the network see nothing new; only the recipient's bookkeeping may have moved. */
  lemma FlowFrame(w: World, t: World)
    requires Flow(w) && SameSenders(w, t)
    requires t.wire == w.wire && t.accepted == w.accepted && t.offered == w.offered && t.store.inbox == w.store.inbox
    requires forall id :: id in t.box.primary ==> id in w.box.primary && t.box.primary[id] == w.box.primary[id]
    ensures Flow(t)
  {}

  lemma AckBackedSurvives(w: World, t: World, id: EnvelopeId)
    requires AckBacked(w, id) && w.offered <= t.offered
    requires forall k :: k in w.store.inbox ==> k in t.store.inbox && t.store.inbox[k] == w.store.inbox[k]
    ensures AckBacked(t, id)
  {
    var e :| e in w.offered && e.id == id && Committed(w.store, e);
    assert Committed(t.store, e);
  }

  lemma AcksSurvive(w: World, t: World)
    requires Acks(w) && w.offered <= t.offered
    requires forall k :: k in w.store.inbox ==> k in t.store.inbox && t.store.inbox[k] == w.store.inbox[k]
    requires forall id :: id in t.store.acks ==> id in w.store.acks
    requires forall id :: id in t.ackWire ==> id in w.ackWire || id in w.store.acks
    ensures Acks(t)
  {
    forall id | id in t.store.acks ensures AckBacked(t, id) { AckBackedSurvives(w, t, id); }
    forall id | id in t.ackWire ensures AckBacked(t, id) { AckBackedSurvives(w, t, id); }
  }

  lemma KeptSurvives(w: World, t: World)
    requires Kept(w) && t.accepted == w.accepted
    requires forall k :: k in w.store.inbox ==> k in t.store.inbox && t.store.inbox[k] == w.store.inbox[k]
    requires forall e :: e in w.accepted && InMailbox(w, e) ==>
               InMailbox(t, e) || Committed(t.store, e) || IdShared(t, e)
    ensures Kept(t)
  {
    forall e | e in t.accepted ensures InMailbox(t, e) || Committed(t.store, e) || IdShared(t, e) {
      if IdShared(w, e) {
        var other :| other in w.accepted && other.id == e.id && other != e;
        assert IdShared(t, e);
      }
    }
  }

  /** Nothing was stored, deleted or committed. */
  lemma KeptFrame(w: World, t: World)
    requires Kept(w) && t.accepted == w.accepted && t.box == w.box && t.store.inbox == w.store.inbox
    ensures Kept(t)
  {
    forall e | e in t.accepted ensures InMailbox(t, e) || Committed(t.store, e) || IdShared(t, e) {
      assert IdShared(w, e) ==> IdShared(t, e);
    }
  }

  lemma AcksFrame(w: World, t: World)
    requires Acks(w) && w.offered <= t.offered && t.store.inbox == w.store.inbox
    requires t.store.acks.Keys <= w.store.acks.Keys && t.ackWire <= w.ackWire + w.store.acks.Keys
    ensures Acks(t)
  {
    AcksSurvive(w, t);
  }

  lemma SendKeepsInv(w: World, e: Event, open: Opener)
    requires Inv(w) && e.SendMessage?
    ensures Inv(Apply(w, e, open))
  {
    SendKeepsSenderSide(w, e, open);
    SendKeepsFlow(w, e, open);
    OnlySendersMoved(w, Apply(w, e, open));
  }

  lemma SendKeepsFlow(w: World, e: Event, open: Opener)
    requires Flow(w) && e.SendMessage?
    ensures Flow(Apply(w, e, open))
  {
    assert forall c: Ciphertext :: Genuine(w, c) ==> Genuine(Apply(w, e, open), c);
  }

  lemma NarratedStays(history: seq<(Sent, string)>, line: (Sent, string), key: Sent)
    requires Narrated(history, key) || line.0 == key
    ensures Narrated(history + [line], key)
  {
    var longer := history + [line];
    if Narrated(history, key) {
      var i :| 0 <= i < |history| && history[i].0 == key;
      assert longer[i].0 == key;
    } else {
      assert longer[|history|].0 == key;
    }
  }

  lemma SendKeepsSenderSide(w: World, e: Event, open: Opener)
    requires SenderSide(w) && e.SendMessage?
    ensures SenderSide(Apply(w, e, open))
  {
    hide Narrated;
    var t := Apply(w, e, open);
    if t != w {
      forall key | key in t.outbox ensures Narrated(t.outHistory, key) {
        NarratedStays(w.outHistory, (Sent(e.sender, e.content.message), e.content.plaintext), key);
      }
    }
  }

  lemma OnlyTheWireMoved(w: World, t: World)
    requires SenderSide(w) && Acks(w) && Kept(w)
    requires t == w.(wire := t.wire, offered := t.offered, nowMs := t.nowMs) && w.offered <= t.offered
    ensures SenderSide(t) && Acks(t) && Kept(t)
  {
    SenderFrame(w, t);
    AcksFrame(w, t);
    KeptFrame(w, t);
  }

  lemma WireKeepsInv(w: World, e: Event, open: Opener)
    requires Inv(w) && (e.Transmit? || e.Inject? || e.Tick? || e.Offer?)
    ensures Inv(Apply(w, e, open))
  {
    WireKeepsFlow(w, e, open);
    OnlyTheWireMoved(w, Apply(w, e, open));
  }

  lemma WireKeepsFlow(w: World, e: Event, open: Opener)
    requires SenderSide(w) && Flow(w) && (e.Transmit? || e.Inject? || e.Tick? || e.Offer?)
    ensures Flow(Apply(w, e, open))
  {
    assert forall c: Ciphertext :: Genuine(w, c) ==> Genuine(Apply(w, e, open), c);
  }

  lemma OnlySendersMoved(w: World, t: World)
    requires Acks(w) && Kept(w)
    requires t == w.(outbox := t.outbox, outHistory := t.outHistory)
    ensures Acks(t) && Kept(t)
  {
    AcksFrame(w, t);
    KeptFrame(w, t);
  }

  lemma ConfirmKeepsInv(w: World, key: Sent, open: Opener)
    requires Inv(w)
    ensures Inv(Apply(w, Confirm(key), open))
  {
    ConfirmKeepsSenders(w, key, open);
    OnlySendersMoved(w, Apply(w, Confirm(key), open));
  }

  lemma ConfirmKeepsSenders(w: World, key: Sent, open: Opener)
    requires SenderSide(w) && Flow(w)
    ensures SenderSide(Apply(w, Confirm(key), open)) && Flow(Apply(w, Confirm(key), open))
  {
    var t := Apply(w, Confirm(key), open);
    forall k | k in t.outbox ensures Narrated(t.outHistory, k) {
      assert Narrated(w.outHistory, k);
    }
    assert forall c: Ciphertext :: Genuine(w, c) ==> Genuine(t, c);
  }

  lemma StoreKeepsInv(w: World, envelope: Envelope, capMs: nat, open: Opener)
    requires Inv(w)
    ensures Inv(Apply(w, RelayStores(envelope, capMs), open))
  {
    var t := Apply(w, RelayStores(envelope, capMs), open);
    if t != w {
      SenderFrame(w, t);
      StoreKeepsFlow(w, envelope, capMs, open);
      AcksSurvive(w, t);
      forall e | e in t.accepted ensures InMailbox(t, e) || Committed(t.store, e) || IdShared(t, e) {
        StoreKeepsEach(w, t, envelope, capMs, e);
      }
    }
  }

  lemma StoreKeepsFlow(w: World, envelope: Envelope, capMs: nat, open: Opener)
    requires Flow(w)
    ensures Flow(Apply(w, RelayStores(envelope, capMs), open))
  {
    assert forall c: Ciphertext :: Genuine(w, c) ==> Genuine(Apply(w, RelayStores(envelope, capMs), open), c);
  }

  lemma SharedStays(w: World, t: World, e: Envelope)
    requires IdShared(w, e) && w.accepted <= t.accepted
    ensures IdShared(t, e)
  {
    var other :| other in w.accepted && other.id == e.id && other != e;
    assert other in t.accepted;
  }

  /** What a store step leaves of one accepted envelope. */
  lemma StoreKeepsEach(w: World, t: World, envelope: Envelope, capMs: nat, e: Envelope)
    requires w.box.next.Some? && t.store == w.store && t.box == Save(w.box, envelope, w.nowMs, capMs).0
    requires t.accepted == if Save(w.box, envelope, w.nowMs, capMs).1.Conflict? then w.accepted
        else w.accepted + {envelope}
    requires e in w.accepted ==> InMailbox(w, e) || Committed(w.store, e) || IdShared(w, e)
    requires e in t.accepted
    ensures InMailbox(t, e) || Committed(t.store, e) || IdShared(t, e)
  {
    if e == envelope {
      if e in w.accepted && IdShared(w, e) { SharedStays(w, t, e); }
    } else if IdShared(w, e) {
      SharedStays(w, t, e);
    } else if e.id == envelope.id && envelope in t.accepted {
      assert IdShared(t, e);
    }
  }

  lemma JudgeKeepsFlow(w: World, t: World, envelope: Envelope)
    requires Flow(w) && SameSenders(w, t) && envelope in w.offered
    requires t.wire == w.wire && t.accepted == w.accepted && t.offered == w.offered && t.box == w.box
    requires t.store.inbox == w.store.inbox[KeyOf(envelope) := envelope.ciphertext]
    ensures Flow(t)
  {
    assert envelope in w.wire;
  }

  lemma JudgeKeepsInv(w: World, envelope: Envelope, open: Opener)
    requires Inv(w) && Authentic(open)
    ensures Inv(Apply(w, Judge(envelope), open))
  {
    var t := Apply(w, Judge(envelope), open);
    if envelope in w.offered && AcceptOne(w.store, envelope, w.nowMs, open).Ok? {
      AcceptOneIsExactlyOnce(w.store, envelope, w.nowMs, open);
      SenderFrame(w, t);
      JudgeKeepsFlow(w, t, envelope);
      forall id | id in t.store.acks ensures AckBacked(t, id) {
        if id == envelope.id {
          assert envelope in t.offered && Committed(t.store, envelope);
        } else {
          AckBackedSurvives(w, t, id);
        }
      }
      forall id | id in t.ackWire ensures AckBacked(t, id) { AckBackedSurvives(w, t, id); }
      KeptSurvives(w, t);
    }
  }

  lemma AckMovesKeepAcks(w: World, e: Event, open: Opener)
    requires Acks(w) && (e.RequestAck? || e.ConfirmAck?)
    ensures Acks(Apply(w, e, open))
  {
    AcksFrame(w, Apply(w, e, open));
  }

  lemma AckMovesKeepStore(w: World, e: Event, open: Opener)
    requires Consistent(w.store) && (e.RequestAck? || e.ConfirmAck?)
    ensures Consistent(Apply(w, e, open).store)
  {
    SameMessagesStayConsistent(w.store, Apply(w, e, open).store);
  }

  lemma OnlyAcksMoved(w: World, t: World)
    requires SenderSide(w) && Flow(w) && Kept(w)
    requires t == w.(ackWire := t.ackWire, store := w.store.(acks := t.store.acks))
    ensures SenderSide(t) && Flow(t) && Kept(t)
  {
    SenderFrame(w, t);
    FlowFrame(w, t);
    KeptFrame(w, t);
  }

  lemma AckKeepsInv(w: World, e: Event, open: Opener)
    requires Inv(w) && (e.RequestAck? || e.ConfirmAck?)
    ensures Inv(Apply(w, e, open))
  {
    AckMovesKeepAcks(w, e, open);
    AckMovesKeepStore(w, e, open);
    OnlyAcksMoved(w, Apply(w, e, open));
  }

  /** Deleting by identifier loses nothing that is not committed, unless the identifier was shared. */
  lemma DeleteKeepsKept(w: World, t: World, id: EnvelopeId)
    requires Kept(w) && w.offered <= w.accepted && AckBacked(w, id)
    requires t == w.(box := Delete(w.box, id))
    ensures Kept(t)
  {
    var backed :| backed in w.offered && backed.id == id && Committed(w.store, backed);
    forall e | e in t.accepted ensures InMailbox(t, e) || Committed(t.store, e) || IdShared(t, e) {
      assert backed in t.accepted;
      if IdShared(w, e) { SharedStays(w, t, e); }
    }
  }

  lemma RelayAckKeepsInv(w: World, id: EnvelopeId, open: Opener)
    requires Inv(w)
    ensures Inv(Apply(w, RelayAcks(id), open))
  {
    var t := Apply(w, RelayAcks(id), open);
    if id in w.ackWire {
      SenderFrame(w, t);
      FlowFrame(w, t);
      AcksFrame(w, t);
      DeleteKeepsKept(w, t, id);
    }
  }

  lemma ImportKeepsInv(w: World, who: Identity, contact: Contact, open: Opener)
    requires Inv(w)
    ensures Inv(Apply(w, ImportCard(who, contact), open))
  {
    var t := Apply(w, ImportCard(who, contact), open);
    ImportKeepsConsistent(w.store, who, contact);
    SenderFrame(w, t);
    FlowFrame(w, t);
    AcksFrame(w, t);
    KeptFrame(w, t);
  }

  /** Read marks, the re-walk position and the ordering index say nothing about what is stored or committed. */
  lemma PositionsKeepInv(w: World, e: Event, open: Opener)
    requires Inv(w) && (e.MoveMark? || e.KeepRewalk? || e.Migrate?)
    ensures Inv(Apply(w, e, open))
  {
    var t := Apply(w, e, open);
    SenderFrame(w, t);
    FlowFrame(w, t);
    AcksFrame(w, t);
    PositionsKeepStore(w, e, open);
    PositionsKeepKept(w, t);
  }

  lemma PositionsKeepStore(w: World, e: Event, open: Opener)
    requires Consistent(w.store) && (e.MoveMark? || e.KeepRewalk? || e.Migrate?)
    ensures Consistent(Apply(w, e, open).store)
  {
    SameMessagesStayConsistent(w.store, Apply(w, e, open).store);
  }

  lemma PositionsKeepKept(w: World, t: World)
    requires Kept(w) && t.accepted == w.accepted && t.box.primary == w.box.primary && t.store.inbox == w.store.inbox
    ensures Kept(t)
  {
    forall e | e in t.accepted ensures InMailbox(t, e) || Committed(t.store, e) || IdShared(t, e) {
      assert IdShared(w, e) ==> IdShared(t, e);
    }
  }

  lemma StepKeepsInv(w: World, e: Event, open: Opener)
    requires Inv(w) && Authentic(open)
    ensures Inv(Apply(w, e, open))
  {
    match e
    case MoveMark(_, _) => PositionsKeepInv(w, e, open);
    case KeepRewalk(_) => PositionsKeepInv(w, e, open);
    case Migrate(_) => PositionsKeepInv(w, e, open);
    case SendMessage(_, _, _, _, _, _, _, _, _) => SendKeepsInv(w, e, open);
    case RelayStores(envelope, capMs) => StoreKeepsInv(w, envelope, capMs, open);
    case Confirm(key) => ConfirmKeepsInv(w, key, open);
    case Judge(envelope) => JudgeKeepsInv(w, envelope, open);
    case RequestAck(_) => AckKeepsInv(w, e, open);
    case ConfirmAck(_) => AckKeepsInv(w, e, open);
    case RelayAcks(id) => RelayAckKeepsInv(w, id, open);
    case ImportCard(who, contact) => ImportKeepsInv(w, who, contact, open);
    case _ => WireKeepsInv(w, e, open);
  }

  lemma {:induction false} RunKeepsInv(w: World, events: seq<Event>, open: Opener)
    requires Inv(w) && Authentic(open)
    ensures Inv(Run(w, events, open))
    decreases |events|
  {
    if events != [] {
      StepKeepsInv(w, events[0], open);
      RunKeepsInv(Apply(w, events[0], open), events[1..], open);
    }
  }

  // ---- the theorems ---------------------------------------------------------------------------------------

  lemma StartIsInv(w: World)
    requires Start(w)
    ensures Inv(w)
  {}

  /**
   Exactly once.  Whatever is retried, duplicated, lost or injected, the recipient's history holds at
   most one inbound entry for a sender and message, and for an honest sender that entry is the plaintext
   the sender committed under that message.
   */
  lemma InboundHistoryIsExactlyOnce(w: World, events: seq<Event>, open: Opener, i: nat)
    requires Start(w) && Authentic(open)
    requires var t := Run(w, events, open); i < |t.store.history| && t.store.history[i].inbound
    ensures var t := Run(w, events, open);
            var h := t.store.history[i];
            && (forall j :: 0 <= j < |t.store.history| && j != i && t.store.history[j].inbound ==>
                  t.store.history[j].contact != h.contact || t.store.history[j].message != h.message)
            && (h.contact in t.honest ==>
                  var key := Sent(h.contact, h.message);
                  key in t.outbox && t.outbox[key].content.plaintext == h.plaintext)
  {
    StartIsInv(w);
    RunKeepsInv(w, events, open);
    var t := Run(w, events, open);
    assert Truthful(t.store, t.store.history[i]);
  }

  /**
   Only what is committed is acknowledged: every identifier an ack request ever carried belongs to an
   envelope the relay accepted and offered, whose message is in the recipient's history with the
   plaintext sealed in it.
   */
  lemma AcknowledgedIsCommitted(w: World, events: seq<Event>, open: Opener, id: EnvelopeId)
      returns (e: Envelope, i: nat)
    requires Start(w) && Authentic(open)
    requires id in Run(w, events, open).ackWire
    ensures var t := Run(w, events, open);
            && e in t.accepted && e in t.offered && e.id == id && e.ciphertext.Sealed?
            && i < |t.store.history|
            && t.store.history[i].inbound && t.store.history[i].contact == e.sender
            && t.store.history[i].message == e.message && t.store.history[i].plaintext == e.ciphertext.plaintext
  {
    StartIsInv(w);
    RunKeepsInv(w, events, open);
    var t := Run(w, events, open);
    assert AckBacked(t, id);
    e :| e in t.offered && e.id == id && Committed(t.store, e);
    assert InHistory(t.store.history, KeyOf(e));
    i :| 0 <= i < |t.store.history| && t.store.history[i].inbound
         && t.store.history[i].contact == e.sender && t.store.history[i].message == e.message;
    assert Truthful(t.store, t.store.history[i]);
  }

  /**
   No loss.  Every envelope the relay ever accepted is still stored, or past the retention deadline it
   was stored with, or committed by the recipient; the one exception is an identifier that the relay
   also accepted for a different envelope.
   */
  lemma AcceptedEnvelopesAreNotLost(w: World, events: seq<Event>, open: Opener, e: Envelope)
    requires Start(w) && Authentic(open)
    requires e in Run(w, events, open).accepted && !IdShared(Run(w, events, open), e)
    ensures var t := Run(w, events, open);
            || (Stored(t.box, e.id, t.nowMs) && t.box.primary[e.id].envelope == e)
            || (InMailbox(t, e) && t.nowMs / 1000 >= t.box.primary[e.id].deadline)
            || Committed(t.store, e)
  {
    StartIsInv(w);
    RunKeepsInv(w, events, open);
  }

  /** In particular for what a sender was told is delivered. */
  lemma DeliveredMessagesAreNotLost(w: World, events: seq<Event>, open: Opener, key: Sent)
    requires Start(w) && Authentic(open)
    requires var t := Run(w, events, open);
             key in t.outbox && t.outbox[key].delivered && !IdShared(t, t.outbox[key].envelope)
    ensures var t := Run(w, events, open);
            var e := t.outbox[key].envelope;
            || (Stored(t.box, e.id, t.nowMs) && t.box.primary[e.id].envelope == e)
            || (InMailbox(t, e) && t.nowMs / 1000 >= t.box.primary[e.id].deadline)
            || Committed(t.store, e)
  {
    StartIsInv(w);
    RunKeepsInv(w, events, open);
    AcceptedEnvelopesAreNotLost(w, events, open, Run(w, events, open).outbox[key].envelope);
  }

  ghost predicate SameMessage(w: World, t: World, key: Sent)
    requires key in w.outbox
  {
    key in t.outbox && t.outbox[key].content == w.outbox[key].content
        && t.outbox[key].envelope == w.outbox[key].envelope
    && (w.outbox[key].delivered ==> t.outbox[key].delivered)
  }

  /**
   Outbox stability.  From the moment a message is committed its content and its one envelope never
   change, so every transmission of it, first or retried, is the same envelope; and the outbound history
   has exactly one entry for it.
   */
  lemma {:induction false} OutboxIsStable(w: World, events: seq<Event>, open: Opener, key: Sent)
    requires key in w.outbox
    ensures SameMessage(w, Run(w, events, open), key)
    decreases |events|
  {
    if events != [] {
      OutboxIsStable(Apply(w, events[0], open), events[1..], open, key);
    }
  }

  /** Exactly one outbound history entry exists for a message exactly when its outbox record does. */
  lemma OutboundHistoryMatchesOutbox(w: World, events: seq<Event>, open: Opener, key: Sent)
    requires Start(w) && Authentic(open)
    ensures var t := Run(w, events, open);
            && (key in t.outbox <==> Narrated(t.outHistory, key))
            && (forall i, j :: 0 <= i < j < |t.outHistory| && t.outHistory[i].0 == key ==> t.outHistory[j].0 != key)
            && (forall i :: 0 <= i < |t.outHistory| && t.outHistory[i].0 == key ==>
                  key in t.outbox && t.outHistory[i].1 == t.outbox[key].content.plaintext)
  {
    StartIsInv(w);
    RunKeepsInv(w, events, open);
  }
}
