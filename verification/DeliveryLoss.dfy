/**
 The one way an accepted envelope is lost: an acknowledgement names an identifier, and the relay deletes
 whatever is stored under it.  Exactly when a step of the relay can do so, exactly when a run can, and a run
 from nothing that ends with a message its sender was told is delivered and nobody ever read.
 */
module DeliveryLoss {
  import opened Wrappers
  import opened MailboxState
  import opened ClientStore
  import opened Delivery

  /** The steps that touch the mailbox. */
  predicate OfTheRelay(step: Event) { step.RelayAcks? || step.RelayStores? || step.MoveMark? || step.Migrate? }

  /** Of the relay's own steps only an acknowledgement of its identifier takes a stored envelope away. */
  lemma OnlyItsAcknowledgementDeletes(t: World, open: Opener, e: Envelope)
    requires Stored(t.box, e.id, t.nowMs) && InMailbox(t, e)
    ensures (exists step: Event :: OfTheRelay(step) && !InMailbox(Apply(t, step, open), e)) <==> e.id in t.ackWire
  {
    if e.id in t.ackWire {
      assert OfTheRelay(RelayAcks(e.id)) && !InMailbox(Apply(t, RelayAcks(e.id), open), e);
    }
  }

  /**
   Exactly when the relay can lose a stored envelope the recipient has not committed: when an acknowledgement
   of its identifier has been sent, which in a reachable world was for another envelope.
   */
  lemma TheRelayCanLoseItIff(w: World, events: seq<Event>, open: Opener, e: Envelope)
    requires Start(w) && Authentic(open)
    requires var t := Run(w, events, open);
             Stored(t.box, e.id, t.nowMs) && InMailbox(t, e) && !Committed(t.store, e)
    ensures var t := Run(w, events, open);
            && ((exists step: Event :: OfTheRelay(step) && !InMailbox(Apply(t, step, open), e)) <==> e.id in t.ackWire)
            && (e.id in t.ackWire ==> IdShared(t, e))
  {
    hide Run, Apply, Authentic;
    StartIsInv(w);
    RunKeepsInv(w, events, open);
    OnlyItsAcknowledgementDeletes(Run(w, events, open), open, e);
    AcknowledgedElsewhere(Run(w, events, open), e);
  }

  lemma AcknowledgedElsewhere(t: World, e: Envelope)
    requires Inv(t) && InMailbox(t, e) && !Committed(t.store, e)
    ensures e.id in t.ackWire ==> IdShared(t, e)
  {
    hide SenderSide, Consistent, Kept;
    assert e.id in t.ackWire ==> AckBacked(t, e.id);
  }

  /**
   How it happens: whenever an acknowledgement for an identifier is on the wire and the mailbox no longer
   stores it, a different envelope sent under that identifier is accepted, and the next arrival of the old
   acknowledgement deletes it unread.
   */
  lemma AReusedIdentifierIsDeletedUnread(w: World, other: Envelope, capMs: nat, open: Opener)
    requires w.box.next.Some? && other in w.wire && other.id in w.ackWire
    requires !Stored(w.box, other.id, w.nowMs) && !Committed(w.store, other)
    ensures var t := Run(w, [RelayStores(other, capMs), RelayAcks(other.id)], open);
            other in t.accepted && !InMailbox(t, other) && !Committed(t.store, other)
  {
    hide Run, RetentionDeadline, Committed, AcceptOne, ImportContact, B.EnsureOrdering;
    TwoSteps(w, RelayStores(other, capMs), RelayAcks(other.id), open);
    var stored := Apply(w, RelayStores(other, capMs), open);
    assert other in stored.accepted && stored.store == w.store && stored.ackWire == w.ackWire;
  }

  // ---- what a run can do ---------------------------------------------------------------------------------------

  /** After these events, before its deadline, the envelope is in no mailbox and in no inbox. */
  ghost predicate IsLost(w: World, events: seq<Event>, open: Opener, e: Envelope, deadline: nat) {
    var t := Run(w, events, open);
    Shown(deadline, t.nowMs) && !InMailbox(t, e) && !Committed(t.store, e)
  }

  /** After these events, before its deadline, the recipient would accept the other envelope and not have this one. */
  ghost predicate Preempts(w: World, events: seq<Event>, open: Opener, other: Envelope, e: Envelope, deadline: nat) {
    var t := Run(w, events, open);
    var verdict := AcceptOne(t.store, other, t.nowMs, open);
    Shown(deadline, t.nowMs) && verdict.Ok? && !Committed(verdict.value, e)
  }

  /** Another envelope under the identifier was offered already, and can still be accepted. */
  ghost predicate Contended(w: World, open: Opener, e: Envelope, deadline: nat) {
    exists other: Envelope, events: seq<Event> ::
      other in w.offered && other.id == e.id && other != e && Preempts(w, events, open, other, e, deadline)
  }

  /** Stored with this record, its identifier acknowledged nowhere, and offered for no envelope but these. */
  ghost predicate Spared(s: World, r: Record, offers: set<Envelope>) {
    var id := r.envelope.id;
    && id in s.box.primary && s.box.primary[id] == r && id !in s.ackWire && id !in s.store.acks
    && (forall o :: o in s.offered && o.id == id ==> o == r.envelope || o in offers)
  }

  /** A step takes it away from a spared envelope only by judging one of the others. */
  lemma StepSpares(s: World, step: Event, open: Opener, r: Record, offers: set<Envelope>)
    requires Inv(s) && Spared(s, r, offers) && Shown(r.deadline, s.nowMs)
    ensures Spared(Apply(s, step, open), r, offers)
            || (step.Judge? && step.envelope in s.offered && step.envelope.id == r.envelope.id
                && AcceptOne(s.store, step.envelope, s.nowMs, open).Ok?)
  {
    hide SenderSide, Consistent, Acks, Kept, Save, AcceptOne, B.EnsureOrdering;
    match step
    case Judge(envelope) => JudgeSpares(s, envelope, open, r, offers);
    case RelayStores(envelope, capMs) => StoreSpares(s, envelope, capMs, open, r, offers);
    case Migrate(writes) => MigrationSpares(s, writes, open, r, offers);
    case _ =>
  }

  lemma StoreSpares(s: World, envelope: Envelope, capMs: nat, open: Opener, r: Record, offers: set<Envelope>)
    requires Spared(s, r, offers) && Shown(r.deadline, s.nowMs)
    ensures Spared(Apply(s, RelayStores(envelope, capMs), open), r, offers)
  {
    hide RetentionDeadline;
  }

  lemma MigrationSpares(s: World, writes: nat, open: Opener, r: Record, offers: set<Envelope>)
    requires Spared(s, r, offers)
    ensures Spared(Apply(s, Migrate(writes), open), r, offers)
  {
    assert Apply(s, Migrate(writes), open).box.primary == s.box.primary;
  }

  lemma JudgeSpares(s: World, envelope: Envelope, open: Opener, r: Record, offers: set<Envelope>)
    requires Spared(s, r, offers)
    ensures Spared(Apply(s, Judge(envelope), open), r, offers)
            || (envelope in s.offered && envelope.id == r.envelope.id
                && AcceptOne(s.store, envelope, s.nowMs, open).Ok?)
  {}

  /** What is committed stays committed, and the clock does not go back. */
  lemma StepKeepsCommitted(s: World, step: Event, open: Opener, e: Envelope)
    requires Inv(s) && Authentic(open)
    ensures var t := Apply(s, step, open); t.nowMs >= s.nowMs && (Committed(s.store, e) ==> Committed(t.store, e))
  {
    hide SenderSide, Flow, Acks, Kept, AcceptOne;
    if step.Judge? && AcceptOne(s.store, step.envelope, s.nowMs, open).Ok? {
      AcceptOneIsExactlyOnce(s.store, step.envelope, s.nowMs, open);
    }
  }

  lemma {:induction false} RunKeepsCommitted(s: World, events: seq<Event>, open: Opener, e: Envelope)
    requires Inv(s) && Authentic(open)
    ensures var t := Run(s, events, open); t.nowMs >= s.nowMs && (Committed(s.store, e) ==> Committed(t.store, e))
    decreases |events|
  {
    hide Inv, Apply, Committed, Authentic;
    if events != [] {
      StepKeepsCommitted(s, events[0], open, e);
      StepKeepsInv(s, events[0], open);
      RunKeepsCommitted(Apply(s, events[0], open), events[1..], open, e);
    }
  }

  /** A run that loses a spared envelope judges another one first. */
  lemma {:induction false} LostByAnother(w: World, done: seq<Event>, rest: seq<Event>, open: Opener, r: Record)
      returns (other: Envelope, before: seq<Event>)
    requires Inv(w) && Authentic(open) && Spared(Run(w, done, open), r, w.offered)
    requires IsLost(w, done + rest, open, r.envelope, r.deadline)
    ensures other in w.offered && other.id == r.envelope.id && other != r.envelope
        && Preempts(w, before, open, other, r.envelope, r.deadline)
    decreases |rest|
  {
    hide Inv, Apply, Run, Committed, Authentic, AcceptOne, Spared;
    var e, s := r.envelope, Run(w, done, open);
    RunKeepsInv(w, done, open);
    RunInParts(w, done, rest, open);
    RunKeepsCommitted(s, rest, open, e);
    NotLostYet(s, r, w.offered, rest, open);
    assert done + rest == (done + [rest[0]]) + rest[1..];
    RunInParts(w, done, [rest[0]], open);
    OneStep(s, rest[0], open);
    var t := Apply(s, rest[0], open);
    StepSpares(s, rest[0], open, r, w.offered);
    if Spared(t, r, w.offered) {
      other, before := LostByAnother(w, done + [rest[0]], rest[1..], open, r);
    } else {
      other, before := rest[0].envelope, done;
      StepKeepsInv(s, rest[0], open);
      RunInParts(s, [rest[0]], rest[1..], open);
      assert rest == [rest[0]] + rest[1..];
      RunKeepsCommitted(t, rest[1..], open, e);
      JudgedStore(s, other, open);
      OfferedBefore(s, r, w.offered, other);
    }
  }

  lemma NotLostYet(s: World, r: Record, offers: set<Envelope>, rest: seq<Event>, open: Opener)
    requires Spared(s, r, offers) && !InMailbox(Run(s, rest, open), r.envelope)
    ensures rest != []
  {}

  lemma JudgedStore(s: World, other: Envelope, open: Opener)
    requires Inv(s) && Authentic(open) && other in s.offered && AcceptOne(s.store, other, s.nowMs, open).Ok?
    ensures var verdict := AcceptOne(s.store, other, s.nowMs, open);
            Apply(s, Judge(other), open).store == verdict.value && Committed(verdict.value, other)
  {
    hide AcceptOne, Committed, Consistent, SenderSide, Flow, Acks, Kept;
    AcceptOneIsExactlyOnce(s.store, other, s.nowMs, open);
  }

  lemma OfferedBefore(s: World, r: Record, offers: set<Envelope>, other: Envelope)
    requires Spared(s, r, offers) && other in s.offered && other.id == r.envelope.id
    ensures other == r.envelope || other in offers
  {}

  /** An acknowledgement that was sent, or is about to be, arrives. */
  lemma AcknowledgementLoses(w: World, open: Opener, e: Envelope, deadline: nat) returns (events: seq<Event>)
    requires InMailbox(w, e) && !Committed(w.store, e) && Shown(deadline, w.nowMs)
    requires e.id in w.ackWire || e.id in w.store.acks
    ensures IsLost(w, events, open, e, deadline)
  {
    events := [RequestAck(e.id), RelayAcks(e.id)];
    TwoSteps(w, events[0], events[1], open);
  }

  /** The other envelope is accepted, and its acknowledgement deletes this one. */
  lemma AnotherLoses(w: World, open: Opener, before: seq<Event>, other: Envelope, e: Envelope, deadline: nat)
      returns (events: seq<Event>)
    requires Inv(w) && Authentic(open) && other in w.offered && other.id == e.id
    requires Preempts(w, before, open, other, e, deadline)
    ensures IsLost(w, events, open, e, deadline)
  {
    hide Inv, Apply, Run, Committed, Authentic, AcceptOne;
    var s := Run(w, before, open);
    RunKeepsInv(w, before, open);
    OfferedStays(w, before, open, other);
    StepKeepsCommitted(s, Judge(other), open, e);
    JudgedStore(s, other, open);
    if !InMailbox(s, e) {
      events := before;
    } else {
      JudgedAcks(s, other, open, e);
      var t := Apply(s, Judge(other), open);
      var more := AcknowledgementLoses(t, open, e, deadline);
      OneStep(s, Judge(other), open);
      RunInParts(w, before, [Judge(other)], open);
      RunInParts(w, before + [Judge(other)], more, open);
      events := before + [Judge(other)] + more;
    }
  }

  lemma JudgedAcks(s: World, other: Envelope, open: Opener, e: Envelope)
    requires Inv(s) && Authentic(open) && other in s.offered && AcceptOne(s.store, other, s.nowMs, open).Ok?
    requires other.id == e.id
    ensures var t := Apply(s, Judge(other), open);
            e.id in t.store.acks && t.nowMs == s.nowMs && (InMailbox(s, e) ==> InMailbox(t, e))
  {
    hide AcceptOne, Committed, Consistent, SenderSide, Flow, Acks, Kept;
    AcceptOneIsExactlyOnce(s.store, other, s.nowMs, open);
  }

  lemma {:induction false} OfferedStays(w: World, events: seq<Event>, open: Opener, other: Envelope)
    requires other in w.offered
    ensures other in Run(w, events, open).offered
    decreases |events|
  {
    if events != [] { OfferedStays(Apply(w, events[0], open), events[1..], open, other); }
  }

  /**
   Exactly when some run loses a stored envelope the recipient has not committed, before its deadline: when its
   identifier has been acknowledged, or is about to be, or was already offered for another envelope that can
   still be accepted.  What is not offered yet cannot take it away while it is stored.
   */
  lemma SomeRunLosesItIff(start: World, past: seq<Event>, open: Opener, e: Envelope)
    requires Start(start) && Authentic(open)
    requires var w := Run(start, past, open);
             Stored(w.box, e.id, w.nowMs) && InMailbox(w, e) && !Committed(w.store, e)
    ensures var w := Run(start, past, open);
            var deadline := w.box.primary[e.id].deadline;
            (exists events: seq<Event> :: IsLost(w, events, open, e, deadline))
            <==> e.id in w.ackWire || e.id in w.store.acks || Contended(w, open, e, deadline)
  {
    hide Run, Apply, Authentic, Inv, Start, IsLost, Preempts, Committed, AcceptOne;
    StartIsInv(start);
    RunKeepsInv(start, past, open);
    var w := Run(start, past, open);
    var r := w.box.primary[e.id];
    if e.id in w.ackWire || e.id in w.store.acks {
      var events := AcknowledgementLoses(w, open, e, r.deadline);
    } else if Contended(w, open, e, r.deadline) {
      var other, before :| other in w.offered && other.id == e.id && other != e
                           && Preempts(w, before, open, other, e, r.deadline);
      var events := AnotherLoses(w, open, before, other, e, r.deadline);
    } else {
      forall events: seq<Event> ensures !IsLost(w, events, open, e, r.deadline) {
        OnlyAnotherLoses(w, events, open, r);
      }
    }
  }

  lemma OnlyAnotherLoses(w: World, events: seq<Event>, open: Opener, r: Record)
    requires Inv(w) && Authentic(open) && Spared(w, r, w.offered)
    ensures IsLost(w, events, open, r.envelope, r.deadline) ==> Contended(w, open, r.envelope, r.deadline)
  {
    hide Inv, IsLost, Preempts, Spared, Authentic;
    if IsLost(w, events, open, r.envelope, r.deadline) {
      assert Run(w, [], open) == w && [] + events == events;
      var other, before := LostByAnother(w, [], events, open, r);
    }
  }

  // ---- the same without a run: what the world itself says -----------------------------------------------------

  /** The first moment from now on at which an envelope is no longer dated ahead. */
  function Soonest(nowMs: nat, e: Envelope): nat { if e.createdAtMs > nowMs then e.createdAtMs else nowMs }

  /**
   Nothing but decryption stands in the way of the other envelope before the deadline: it was offered, it is
   addressed to the recipient, in time, its sender is not pinned to another device, and what is committed under
   its message is its own ciphertext, or nothing and it was sealed for that message; and it is not a copy of
   the one it would cost.
   */
  predicate Threatens(w: World, other: Envelope, e: Envelope, deadline: nat) {
    var soonest := Soonest(w.nowMs, other);
    && other in w.offered && other.id == e.id
    && other.recipient == w.store.me && other.recipientDevice == w.store.device && other.sizeMatches
    && 0 <= other.createdAtMs < other.expiresAtMs && soonest < other.expiresAtMs && Shown(deadline, soonest)
    && (other.sender in w.store.contacts ==> w.store.contacts[other.sender].device == other.senderDevice)
    && (if KeyOf(other) in w.store.inbox then w.store.inbox[KeyOf(other)] == other.ciphertext
        else other.ciphertext.Sealed? && other.ciphertext.sender == other.sender
             && other.ciphertext.message == other.message)
    && (KeyOf(other) == KeyOf(e) ==> other.ciphertext != e.ciphertext)
  }

  /** What never goes back: the clock, who the recipient is, whom it knows and what it has committed. */
  ghost predicate Later(w: World, t: World) {
    && w.nowMs <= t.nowMs && t.store.me == w.store.me && t.store.device == w.store.device
    && (forall k :: k in w.store.contacts ==> k in t.store.contacts && t.store.contacts[k] == w.store.contacts[k])
    && (forall k :: k in w.store.inbox ==> k in t.store.inbox && t.store.inbox[k] == w.store.inbox[k])
  }

  lemma StepIsLater(w: World, step: Event, open: Opener)
    requires Inv(w) && Authentic(open)
    ensures Later(w, Apply(w, step, open))
  {
    hide SenderSide, Flow, Acks, Kept, AcceptOne, Save, B.EnsureOrdering;
    if step.Judge? && AcceptOne(w.store, step.envelope, w.nowMs, open).Ok? {
      AcceptOneIsExactlyOnce(w.store, step.envelope, w.nowMs, open);
      JudgementKeepsIdentity(w.store, step.envelope, w.nowMs, open);
    }
  }

  lemma JudgementKeepsIdentity(st: Store, e: Envelope, nowMs: nat, open: Opener)
    requires AcceptOne(st, e, nowMs, open).Ok?
    ensures var t := AcceptOne(st, e, nowMs, open).value; t.me == st.me && t.device == st.device
  {}

  lemma {:induction false} RunIsLater(w: World, events: seq<Event>, open: Opener)
    requires Inv(w) && Authentic(open)
    ensures Later(w, Run(w, events, open))
    decreases |events|
  {
    hide Inv, Apply, Authentic;
    if events != [] {
      StepIsLater(w, events[0], open);
      StepKeepsInv(w, events[0], open);
      RunIsLater(Apply(w, events[0], open), events[1..], open);
    }
  }

  /** What is committed was sealed for its message by its sender. */
  lemma CommittedIsSealed(st: Store, k: InboxKey)
    requires Consistent(st) && k in st.inbox
    ensures st.inbox[k].Sealed? && st.inbox[k].sender == k.sender && st.inbox[k].message == k.message
  {
    assert InHistory(st.history, k);
    var i :| 0 <= i < |st.history| && st.history[i].inbound && st.history[i].contact == k.sender
             && st.history[i].message == k.message;
    assert Truthful(st, st.history[i]);
    assert KeyAt(st.contacts, st.history[i]) == k;
  }

  /** What a run accepts is a threat before it. */
  lemma PreemptedWasThreatened(w: World, events: seq<Event>, open: Opener, other: Envelope, e: Envelope, deadline: nat)
    requires Inv(w) && Authentic(open) && other in w.offered && other.id == e.id
    requires Preempts(w, events, open, other, e, deadline)
    ensures Threatens(w, other, e, deadline)
  {
    hide Run, SenderSide, Flow, Acks, Kept, Consistent;
    var t := Run(w, events, open);
    RunIsLater(w, events, open);
    RunKeepsInv(w, events, open);
    AcceptOneIsExactlyOnce(t.store, other, t.nowMs, open);
    if KeyOf(other) in t.store.inbox { CommittedIsSealed(t.store, KeyOf(other)); }
  }

  /** The contact card the recipient has, or one that pins this sender's device. */
  function CardFor(st: Store, e: Envelope): Contact {
    if e.sender in st.contacts then st.contacts[e.sender] else Contact(e.senderDevice, 0)
  }

  /** With that card imported, and in time, a threat that decryption does not refuse is accepted. */
  lemma ThreatIsAccepted(w: World, open: Opener, other: Envelope, e: Envelope, deadline: nat)
    requires Inv(w) && Threatens(w, other, e, deadline) && e.id !in w.store.acks && !Committed(w.store, e)
    requires KeyOf(other) in w.store.inbox || open(|w.store.inbox|, other).Some?
    ensures var st := ImportContact(w.store, other.sender, CardFor(w.store, other));
            var verdict := AcceptOne(st, other, Soonest(w.nowMs, other), open);
            verdict.Ok? && !Committed(verdict.value, e)
  {
    hide SenderSide, Flow, Acks, Kept, Told;
    if KeyOf(other) in w.store.inbox { CommittedIsSealed(w.store, KeyOf(other)); }
  }

  lemma ThreatPreempts(w: World, open: Opener, other: Envelope, e: Envelope, deadline: nat)
    requires Inv(w) && Threatens(w, other, e, deadline) && e.id !in w.store.acks && !Committed(w.store, e)
    requires KeyOf(other) in w.store.inbox || open(|w.store.inbox|, other).Some?
    ensures Preempts(w, [ImportCard(other.sender, CardFor(w.store, other)),
                         Tick(Soonest(w.nowMs, other) - w.nowMs)], open, other, e, deadline)
  {
    hide Inv, AcceptOne, ImportContact, Committed, Run;
    var card, wait := ImportCard(other.sender, CardFor(w.store, other)), Tick(Soonest(w.nowMs, other) - w.nowMs);
    TwoSteps(w, card, wait, open);
    ThreatIsAccepted(w, open, other, e, deadline);
  }

  /** So with a given Signal session an envelope is in danger once that opens a threat now, or opened it before. */
  lemma AnOpenedThreatContends(w: World, open: Opener, other: Envelope, e: Envelope, deadline: nat)
    requires Inv(w) && Threatens(w, other, e, deadline) && e.id !in w.store.acks && !Committed(w.store, e)
    requires KeyOf(other) in w.store.inbox || open(|w.store.inbox|, other).Some?
    ensures Contended(w, open, e, deadline)
  {
    hide Inv, Preempts, Committed;
    assert other != e;
    ThreatPreempts(w, open, other, e, deadline);
  }

  /** Decryption at its best: it yields what was sealed, whenever sender and message agree. */
  function Open(n: nat, e: Envelope): Option<string> {
    if e.ciphertext.Sealed? && e.ciphertext.sender == e.sender && e.ciphertext.message == e.message
    then Some(e.ciphertext.plaintext) else None
  }

  lemma OpenIsAuthentic()
    ensures Authentic(Open)
  {}

  /**
   Exactly when a stored envelope the recipient has not committed can be lost before its deadline, as a test on
   the world, whatever the Signal session may yet make of what it is given: when its identifier has been
   acknowledged, or is about to be, or is that of a threat.
   */
  lemma AStoredEnvelopeCanBeLostIff(start: World, past: seq<Event>, open: Opener, e: Envelope)
    requires Start(start) && Authentic(open)
    requires var w := Run(start, past, open);
             Stored(w.box, e.id, w.nowMs) && InMailbox(w, e) && !Committed(w.store, e)
    ensures var w := Run(start, past, open);
            var deadline := w.box.primary[e.id].deadline;
            (exists yet: Opener, events: seq<Event> :: Authentic(yet) && IsLost(w, events, yet, e, deadline))
            <==> e.id in w.ackWire || e.id in w.store.acks || exists other :: Threatens(w, other, e, deadline)
  {
    hide Run, Apply, Authentic, Inv, Start, IsLost, Preempts, Committed, AcceptOne, Threatens;
    StartIsInv(start);
    RunKeepsInv(start, past, open);
    OpenIsAuthentic();
    var w := Run(start, past, open);
    var r := w.box.primary[e.id];
    if e.id in w.ackWire || e.id in w.store.acks {
      var events := AcknowledgementLoses(w, Open, e, r.deadline);
    } else if other: Envelope :| Threatens(w, other, e, r.deadline) {
      var events := AThreatLoses(w, other, e, r.deadline);
    } else {
      forall yet: Opener, events: seq<Event> | Authentic(yet) ensures !IsLost(w, events, yet, e, r.deadline) {
        OnlyAThreatLoses(w, events, yet, r);
      }
    }
  }

  lemma AThreatLoses(w: World, other: Envelope, e: Envelope, deadline: nat) returns (events: seq<Event>)
    requires Inv(w) && Threatens(w, other, e, deadline) && e.id !in w.store.acks && !Committed(w.store, e)
    ensures IsLost(w, events, Open, e, deadline)
  {
    hide Inv, Preempts, Committed, IsLost;
    OpenIsAuthentic();
    ThreatPreempts(w, Open, other, e, deadline);
    events := AnotherLoses(w, Open, [ImportCard(other.sender, CardFor(w.store, other)),
                                     Tick(Soonest(w.nowMs, other) - w.nowMs)], other, e, deadline);
  }

  lemma OnlyAThreatLoses(w: World, events: seq<Event>, yet: Opener, r: Record)
    requires Inv(w) && Authentic(yet) && Spared(w, r, w.offered)
    ensures IsLost(w, events, yet, r.envelope, r.deadline) ==>
              exists other :: Threatens(w, other, r.envelope, r.deadline)
  {
    hide Inv, IsLost, Preempts, Spared, Authentic, Threatens;
    OnlyAnotherLoses(w, events, yet, r);
    if IsLost(w, events, yet, r.envelope, r.deadline) {
      var other, before :| other in w.offered && other.id == r.envelope.id && other != r.envelope
                           && Preempts(w, before, yet, other, r.envelope, r.deadline);
      PreemptedWasThreatened(w, before, yet, other, r.envelope, r.deadline);
    }
  }

  // ---- a run that ends so -------------------------------------------------------------------------------------

  const ME: Identity := 3
  const STRANGER: Identity := 1
  const FRIEND: Identity := 2
  const SHARED: EnvelopeId := 7
  const LATER_MS: nat := 1000000

  const EMPTY_STORE := Store(ME, 3, map[], map[], map[], {}, [], map[], None)

  const NOTHING :=
    World({FRIEND}, map[], [], {}, EMPTY_BOX.(next := Some(1)), {}, {}, EMPTY_STORE, {}, 5000)

  const STRANGERS := Envelope(SHARED, 1, STRANGER, 1, ME, 3, Sealed(STRANGER, 1, "hello", 0), 0, LATER_MS, true, 700)

  const SENT := Sent(FRIEND, 2)
  const WRITES := SendMessage(FRIEND, Content(ME, 2, "lost"), SHARED, 2, 3, 0, 0, LATER_MS, 700)

  function FriendsEnvelope(): Envelope { Built(WRITES) }

  function Arrives(): seq<Event> {
    [ImportCard(STRANGER, Contact(1, 1)), Inject(STRANGERS), RelayStores(STRANGERS, LATER_MS)]
  }

  function IsRead(): seq<Event> { [Offer(SHARED), Judge(STRANGERS), RequestAck(SHARED)] }

  function IsSent(): seq<Event> { [RelayAcks(SHARED), WRITES, Transmit(SENT)] }

  function IsDeleted(): seq<Event> {
    [RelayStores(FriendsEnvelope(), LATER_MS), Confirm(SENT), RelayAcks(SHARED)]
  }

  function Met(): Store { ImportContact(EMPTY_STORE, STRANGER, Contact(1, 1)) }

  function Deadline(): nat { RetentionDeadline(LATER_MS, 5000, LATER_MS) }

  function Holding(): Box {
    Box(map[SHARED := Record(STRANGERS, Deadline())], map[1 := Entry(SHARED, Deadline())], Some(2), map[])
  }

  ghost function AfterArrival(): World {
    NOTHING.(store := Met(), wire := {STRANGERS}, box := Holding(), accepted := {STRANGERS})
  }

  lemma FirstPart()
    ensures Run(NOTHING, Arrives(), Open) == AfterArrival()
  {
    ThreeSteps(NOTHING, ImportCard(STRANGER, Contact(1, 1)), Inject(STRANGERS), RelayStores(STRANGERS, LATER_MS), Open);
  }

  function Read(): Store {
    Met().(inbox := map[KeyOf(STRANGERS) := STRANGERS.ciphertext], unsealed := {KeyOf(STRANGERS)},
           history := [HistoryEntry(STRANGER, 1, true, "hello", 0)], acks := map[SHARED := KeyOf(STRANGERS)])
  }

  ghost function AfterReading(): World {
    AfterArrival().(offered := {STRANGERS}, store := Read(), ackWire := {SHARED})
  }

  lemma StrangerIsRead()
    ensures AcceptOne(Met(), STRANGERS, 5000, Open) == Ok(Read())
  {
    var t := AcceptOne(Met(), STRANGERS, 5000, Open).value;
    assert t.inbox == Read().inbox && t.unsealed == Read().unsealed && t.history == Read().history;
    assert t.acks == Read().acks;
  }

  lemma DeadlineIsAhead()
    ensures Deadline() == 1000 && Shown(Deadline(), 5000)
  {}

  lemma SecondPart()
    ensures Run(AfterArrival(), IsRead(), Open) == AfterReading()
  {
    hide AcceptOne;
    DeadlineIsAhead();
    StrangerIsRead();
    ThreeSteps(AfterArrival(), Offer(SHARED), Judge(STRANGERS), RequestAck(SHARED), Open);
  }

  ghost function AfterSending(): World {
    AfterReading().(box := Delete(Holding(), SHARED), outbox := map[SENT := OutboxRecord(Content(ME, 2, "lost"),
        FriendsEnvelope(), false)], outHistory := [(SENT, "lost")], wire := {STRANGERS, FriendsEnvelope()})
  }

  lemma ThirdPart()
    ensures Run(AfterReading(), IsSent(), Open) == AfterSending()
  {
    ThreeSteps(AfterReading(), RelayAcks(SHARED), WRITES, Transmit(SENT), Open);
  }

  lemma FourthPart()
    ensures var t := Run(AfterSending(), IsDeleted(), Open);
            && SENT in t.outbox && t.outbox[SENT].delivered && t.outbox[SENT].envelope == FriendsEnvelope()
            && !InMailbox(t, FriendsEnvelope()) && !Committed(t.store, FriendsEnvelope())
  {
    ThreeSteps(AfterSending(), RelayStores(FriendsEnvelope(), LATER_MS), Confirm(SENT), RelayAcks(SHARED), Open);
  }

  /**
   The failing input, from nothing.  A stranger's envelope is read and its acknowledgement sent; a friend's
   message goes out under the same identifier, is stored, and its sender is told it is delivered; then the
   acknowledgement arrives once more.  The message is in no mailbox and in no inbox.
   */
  lemma ADeliveredMessageIsLost()
    ensures Start(NOTHING) && Authentic(Open)
    ensures var t := Run(NOTHING, Arrives() + (IsRead() + (IsSent() + IsDeleted())), Open);
            && SENT in t.outbox && t.outbox[SENT].delivered
            && !InMailbox(t, t.outbox[SENT].envelope) && !Committed(t.store, t.outbox[SENT].envelope)
  {
    hide Run, Apply, AfterArrival, AfterReading, AfterSending;
    FirstPart();
    SecondPart();
    ThirdPart();
    FourthPart();
    RunInParts(AfterReading(), IsSent(), IsDeleted(), Open);
    RunInParts(AfterArrival(), IsRead(), IsSent() + IsDeleted(), Open);
    RunInParts(NOTHING, Arrives(), IsRead() + (IsSent() + IsDeleted()), Open);
  }
}
