/**
 The recipient's durable store and the judgement of one envelope.  A judgement is one store transaction:
 it commits everything it wrote or nothing.
 */
module ClientStore {
  import opened Wrappers
  import opened MailboxState

  type SignalKey = nat

  datatype Contact = Contact(device: Device, signalKey: SignalKey)

  datatype InboxKey = InboxKey(sender: Identity, device: Device, message: MessageId)

  datatype HistoryEntry = HistoryEntry(contact: Identity, message: MessageId, inbound: bool, plaintext: string,
      createdAtMs: int)

  datatype Store = Store(
    me: Identity,
    device: Device,
    contacts: map<Identity, Contact>,
    trust: map<Identity, SignalKey>,          // the Signal identity approved for each contact
    inbox: map<InboxKey, Ciphertext>,         // the ciphertext committed under each message
    unsealed: set<InboxKey>,                    // the Signal layer's own record of unsealed messages
    history: seq<HistoryEntry>,
    acks: map<EnvelopeId, InboxKey>,          // committed, not yet acknowledged
    rewalk: Option<string>
  )

  datatype Rejection = InvalidEnvelope | ContactNotTrusted | ContactPinMismatch | MessageIdConflict | InboundRejected

  /**
   The Signal session, as an oracle: what it makes of an envelope after so many messages have been
   unsealed.  It may refuse anything.
   */
  type Opener = (nat, Envelope) -> Option<string>

  /** Decryption is authentic: it only ever yields what the pinned sender sealed under that message id. */
  ghost predicate Authentic(open: Opener) {
    forall n: nat, e: Envelope :: open(n, e).Some? ==>
      e.ciphertext.Sealed? && e.ciphertext.sender == e.sender && e.ciphertext.message == e.message
      && open(n, e).value == e.ciphertext.plaintext
  }

  function KeyOf(e: Envelope): InboxKey { InboxKey(e.sender, e.senderDevice, e.message) }

  predicate Addressed(st: Store, e: Envelope, nowMs: nat) {
    && e.recipient == st.me && e.recipientDevice == st.device && e.sizeMatches
    && 0 <= e.createdAtMs <= nowMs && e.expiresAtMs > nowMs && e.expiresAtMs > e.createdAtMs
  }

  /** The pending acknowledgement of an envelope, unless its identifier already stands for another message. */
  function NoteAck(st: Store, e: Envelope): Result<Store, Rejection> {
    if e.id in st.acks && st.acks[e.id] != KeyOf(e) then Err(InvalidEnvelope)
    else Ok(st.(acks := st.acks[e.id := KeyOf(e)]))
  }

  /** A message unsealed for the first time: both inbox records and one history entry. */
  function Commit(st: Store, e: Envelope, plaintext: string): Store {
    st.(inbox := st.inbox[KeyOf(e) := e.ciphertext],
        unsealed := st.unsealed + {KeyOf(e)},
        history := st.history + [HistoryEntry(e.sender, e.message, true, plaintext, e.createdAtMs)])
  }

  /** The judgement of one envelope. */
  function AcceptOne(st: Store, e: Envelope, nowMs: nat, open: Opener): Result<Store, Rejection> {
    if !Addressed(st, e, nowMs) then Err(InvalidEnvelope)
    else if e.sender !in st.contacts then Err(ContactNotTrusted)
    else if st.contacts[e.sender].device != e.senderDevice then Err(ContactPinMismatch)
    else if e.sender !in st.trust || st.trust[e.sender] != st.contacts[e.sender].signalKey then Err(ContactPinMismatch)
    else if e.ciphertext.Malformed? then Err(InboundRejected)
    else if KeyOf(e) in st.inbox then
      if st.inbox[KeyOf(e)] != e.ciphertext then Err(MessageIdConflict) else NoteAck(st, e)
    else if KeyOf(e) in st.unsealed then Err(InboundRejected)
    else
      var plaintext := open(|st.inbox|, e);
      if plaintext.None? then Err(InboundRejected) else NoteAck(Commit(st, e, plaintext.value), e)
  }

  /** A contact once imported is never replaced by different identifiers. */
  function ImportContact(st: Store, who: Identity, contact: Contact): Store {
    if who in st.contacts && st.contacts[who] != contact then st
    else st.(contacts := st.contacts[who := contact], trust := st.trust[who := contact.signalKey])
  }

  // ---- what the store always satisfies ---------------------------------------------------------------

  /** The key of the message an inbound history entry is about. */
  function KeyAt(contacts: map<Identity, Contact>, h: HistoryEntry): InboxKey {
    InboxKey(h.contact, if h.contact in contacts then contacts[h.contact].device else 0, h.message)
  }

  ghost predicate InHistory(history: seq<HistoryEntry>, k: InboxKey) {
    exists i :: 0 <= i < |history| && history[i].inbound && history[i].contact == k.sender
        && history[i].message == k.message
  }

  /** Committed messages come from pinned devices, and the Signal layer agrees which they are. */
  ghost predicate Pinned(st: Store) {
    && st.unsealed == st.inbox.Keys
    && (forall k :: k in st.inbox ==> k.sender in st.contacts && st.contacts[k.sender].device == k.device)
    && (forall id :: id in st.acks ==> st.acks[id] in st.inbox)
  }

  /** An inbound entry tells what was sealed in the committed ciphertext of its message. */
  ghost predicate Truthful(st: Store, h: HistoryEntry) {
    var k := KeyAt(st.contacts, h);
    && h.contact in st.contacts && k in st.inbox
    && st.inbox[k].Sealed? && st.inbox[k].sender == h.contact && st.inbox[k].message == h.message
    && st.inbox[k].plaintext == h.plaintext
  }

  ghost predicate Told(st: Store) {
    && (forall i :: 0 <= i < |st.history| && st.history[i].inbound ==> Truthful(st, st.history[i]))
    && (forall k :: k in st.inbox ==> InHistory(st.history, k))
  }

  /** No message is in the inbound history twice. */
  ghost predicate Distinct(history: seq<HistoryEntry>) {
    forall i, j :: 0 <= i < j < |history| && history[i].inbound && history[j].inbound ==>
      history[i].contact != history[j].contact || history[i].message != history[j].message
  }

  ghost predicate Consistent(st: Store) { Pinned(st) && Told(st) && Distinct(st.history) }

  ghost predicate Committable(st: Store, e: Envelope, plaintext: string) {
    && KeyOf(e) !in st.inbox
    && e.sender in st.contacts && st.contacts[e.sender].device == e.senderDevice
    && e.ciphertext.Sealed? && e.ciphertext.sender == e.sender && e.ciphertext.message == e.message
    && e.ciphertext.plaintext == plaintext
  }

  lemma CommitStaysDistinct(st: Store, e: Envelope, plaintext: string)
    requires Consistent(st) && Committable(st, e, plaintext)
    ensures Distinct(Commit(st, e, plaintext).history)
  {
    forall i | 0 <= i < |st.history| && st.history[i].inbound
      ensures st.history[i].contact != e.sender || st.history[i].message != e.message
    {
      assert Truthful(st, st.history[i]);
    }
  }

  lemma LongerHistoryStillHas(history: seq<HistoryEntry>, h: HistoryEntry, k: InboxKey)
    requires InHistory(history, k) || (h.inbound && h.contact == k.sender && h.message == k.message)
    ensures InHistory(history + [h], k)
  {
    var longer := history + [h];
    if InHistory(history, k) {
      var i :| 0 <= i < |history| && history[i].inbound && history[i].contact == k.sender
          && history[i].message == k.message;
      assert longer[i] == history[i];
    } else {
      assert longer[|history|] == h;
    }
  }

  lemma CommitStaysTold(st: Store, e: Envelope, plaintext: string)
    requires Consistent(st) && Committable(st, e, plaintext)
    ensures Told(Commit(st, e, plaintext))
  {
    var t := Commit(st, e, plaintext);
    var h := t.history[|st.history|];
    forall i | 0 <= i < |t.history| && t.history[i].inbound ensures Truthful(t, t.history[i]) {
      if i < |st.history| { assert Truthful(st, st.history[i]); }
    }
    forall k | k in t.inbox ensures InHistory(t.history, k) {
      LongerHistoryStillHas(st.history, h, k);
    }
  }

  lemma CommitKeepsConsistent(st: Store, e: Envelope, plaintext: string)
    requires Consistent(st) && Committable(st, e, plaintext)
    ensures Consistent(Commit(st, e, plaintext))
  {
    CommitStaysDistinct(st, e, plaintext);
    CommitStaysTold(st, e, plaintext);
  }

  /** A change that leaves messages, contacts and history alone. */
  lemma SameMessagesStayConsistent(st: Store, t: Store)
    requires Consistent(st)
    requires t.inbox == st.inbox && t.unsealed == st.unsealed && t.history == st.history && t.contacts == st.contacts
    requires forall id :: id in t.acks ==> t.acks[id] in t.inbox
    ensures Consistent(t)
  {
    forall i | 0 <= i < |t.history| && t.history[i].inbound ensures Truthful(t, t.history[i]) {
      assert Truthful(st, st.history[i]);
    }
  }

  lemma ImportKeepsConsistent(st: Store, who: Identity, contact: Contact)
    requires Consistent(st)
    ensures Consistent(ImportContact(st, who, contact))
  {
    var t := ImportContact(st, who, contact);
    forall i | 0 <= i < |t.history| && t.history[i].inbound ensures Truthful(t, t.history[i]) {
      assert Truthful(st, st.history[i]);
    }
  }

  /** What an accepted envelope leaves behind. */
  ghost predicate Committed(st: Store, e: Envelope) {
    KeyOf(e) in st.inbox && st.inbox[KeyOf(e)] == e.ciphertext
  }

  /** One store extends another: nothing committed is lost or replaced, and history grows at its end. */
  ghost predicate Extends(st: Store, t: Store) {
    && (forall k :: k in st.inbox ==> k in t.inbox && t.inbox[k] == st.inbox[k])
    && st.history <= t.history && t.contacts == st.contacts
  }

  /**
   A judgement keeps the store consistent.  An accepted envelope is committed with its acknowledgement
   pending; nothing committed before is lost or replaced; history grows by exactly one entry, the
   sealed plaintext, when the message is new, and not at all when it is a repetition.
   */
  lemma AcceptOneIsExactlyOnce(st: Store, e: Envelope, nowMs: nat, open: Opener)
    requires Consistent(st) && Authentic(open) && AcceptOne(st, e, nowMs, open).Ok?
    ensures var t := AcceptOne(st, e, nowMs, open).value;
            && Consistent(t) && Committed(t, e) && Extends(st, t)
            && t.acks == st.acks[e.id := KeyOf(e)]
            && t.inbox == st.inbox[KeyOf(e) := e.ciphertext]
            && t.history == if KeyOf(e) in st.inbox then st.history
                            else st.history + [HistoryEntry(e.sender, e.message, true, e.ciphertext.plaintext,
                                e.createdAtMs)]
  {
    if KeyOf(e) in st.inbox {
      RepetitionAccepted(st, e, AcceptOne(st, e, nowMs, open).value);
    } else {
      NewMessageAccepted(st, e, open(|st.inbox|, e).value, AcceptOne(st, e, nowMs, open).value);
    }
  }

  /** The sender is a contact, on the pinned device, and the approved Signal key is the imported one. */
  predicate FromAPinnedContact(st: Store, e: Envelope) {
    && e.sender in st.contacts && st.contacts[e.sender].device == e.senderDevice
    && e.sender in st.trust && st.trust[e.sender] == st.contacts[e.sender].signalKey
  }

  /** Its message is committed as this ciphertext, or is new and the session opens it. */
  predicate Opens(st: Store, e: Envelope, open: Opener) {
    if KeyOf(e) in st.inbox then st.inbox[KeyOf(e)] == e.ciphertext
    else KeyOf(e) !in st.unsealed && open(|st.inbox|, e).Some?
  }

  /** Its identifier already has a pending acknowledgement, of another message. */
  predicate IdTaken(st: Store, e: Envelope) { e.id in st.acks && st.acks[e.id] != KeyOf(e) }

  /** Which answer an envelope gets, each exactly when. */
  lemma WhichRejection(st: Store, e: Envelope, nowMs: nat, open: Opener)
    ensures var r := AcceptOne(st, e, nowMs, open);
            var judged := Addressed(st, e, nowMs) && FromAPinnedContact(st, e) && !e.ciphertext.Malformed?;
            && (r == Err(ContactNotTrusted) <==> Addressed(st, e, nowMs) && e.sender !in st.contacts)
            && (r == Err(ContactPinMismatch)
                <==> Addressed(st, e, nowMs) && e.sender in st.contacts && !FromAPinnedContact(st, e))
            && (r == Err(MessageIdConflict)
                <==> judged && KeyOf(e) in st.inbox && st.inbox[KeyOf(e)] != e.ciphertext)
            && (r == Err(InboundRejected)
                <==> Addressed(st, e, nowMs) && FromAPinnedContact(st, e)
                     && (e.ciphertext.Malformed? || (KeyOf(e) !in st.inbox && !Opens(st, e, open))))
            && (r == Err(InvalidEnvelope)
                <==> !Addressed(st, e, nowMs) || (judged && Opens(st, e, open) && IdTaken(st, e)))
            && (r.Ok? <==> judged && Opens(st, e, open) && !IdTaken(st, e))
  {}

  lemma RepetitionAccepted(st: Store, e: Envelope, t: Store)
    requires Consistent(st) && Committed(st, e) && NoteAck(st, e) == Ok(t)
    ensures Consistent(t) && t.inbox == st.inbox[KeyOf(e) := e.ciphertext]
  {
    SameMessagesStayConsistent(st, t);
    assert t.inbox == st.inbox[KeyOf(e) := e.ciphertext];
  }

  lemma NewMessageAccepted(st: Store, e: Envelope, plaintext: string, t: Store)
    requires Consistent(st) && Committable(st, e, plaintext) && NoteAck(Commit(st, e, plaintext), e) == Ok(t)
    ensures Consistent(t)
  {
    CommitKeepsConsistent(st, e, plaintext);
    SameMessagesStayConsistent(Commit(st, e, plaintext), t);
  }
}
