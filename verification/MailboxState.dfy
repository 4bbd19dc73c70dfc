/**
 The relay's view of one recipient mailbox as a value: primary records, the relay-assigned ordering
 index, the next-position counter and one read mark per device.  Identifiers are numbered in the byte
 order of their keys, and times are milliseconds; a physical deadline is in whole seconds and zero
 means "keep for ever", as in the key-value store underneath.
 */
module MailboxState {
  import opened Wrappers

  type Identity = nat
  type Device = nat
  type EnvelopeId = nat
  type MessageId = nat

  /**
   The wire ciphertext.  `Sealed` is what a sender's Signal session produced for one message,
   `Wrapped` parses as a wrapper but opens for nobody, and `Malformed` does not parse at all.
   */
  datatype Ciphertext =
    | Sealed(sender: Identity, message: MessageId, plaintext: string, nonce: nat)
    | Wrapped(noise: nat)
    | Malformed(junk: nat)

  datatype Envelope = Envelope(
    id: EnvelopeId,
    message: MessageId,
    sender: Identity,
    senderDevice: Device,
    recipient: Identity,
    recipientDevice: Device,
    ciphertext: Ciphertext,
    createdAtMs: int,
    expiresAtMs: int,
    sizeMatches: bool,     // the declared size is the ciphertext's own length
    encodedBytes: nat      // length of the envelope's JSON encoding
  )

  datatype Record = Record(envelope: Envelope, deadline: nat)

  /** An ordering-index entry: the envelope it points at and its own physical deadline. */
  datatype Entry = Entry(id: EnvelopeId, deadline: nat)

  datatype Box = Box(
    primary: map<EnvelopeId, Record>,
    index: map<nat, Entry>,
    next: Option<nat>,
    marks: map<Device, nat>
  )

  const EMPTY_BOX := Box(map[], map[], None, map[])

  /** An entry is visible until its physical deadline. */
  predicate Shown(deadline: nat, nowMs: nat) {
    deadline == 0 || nowMs / 1000 < deadline
  }

  predicate Stored(box: Box, id: EnvelopeId, nowMs: nat) {
    id in box.primary && Shown(box.primary[id].deadline, nowMs)
  }

  /** A record that is visible and has not passed the expiry its envelope declares. */
  predicate LiveRecord(box: Box, id: EnvelopeId, nowMs: nat) {
    Stored(box, id, nowMs) && box.primary[id].envelope.expiresAtMs > nowMs
  }

  /** An index position through which a live record is selectable. */
  predicate LiveAt(box: Box, position: nat, nowMs: nat) {
    position in box.index && Shown(box.index[position].deadline, nowMs)
        && LiveRecord(box, box.index[position].id, nowMs)
  }

  /** The position the current record of `id` was given: entry and record share their deadline. */
  predicate HomeAt(box: Box, id: EnvelopeId, position: nat) {
    id in box.primary && position in box.index && box.index[position] == Entry(id, box.primary[id].deadline)
  }

  // ---- retention ---------------------------------------------------------------------------------

  function Seconds(ms: int): int {
    if ms >= 0 then ms / 1000 else -((-ms) / 1000)
  }

  /** The physical deadline: the declared expiry, capped, and never before the present second. */
  function RetentionDeadline(expiresAtMs: int, nowMs: nat, capMs: nat): nat {
    var declared := Seconds(expiresAtMs);
    var capped := if declared > (nowMs + capMs) / 1000 then (nowMs + capMs) / 1000 else declared;
    if capped < nowMs / 1000 then nowMs / 1000 else capped
  }

  /**
   A record stored at `nowMs` is visible later exactly until the earlier of its declared expiry and
   the server's cap, in whole seconds.
   */
  lemma RetentionWindow(expiresAtMs: int, nowMs: nat, capMs: nat, laterMs: nat)
    requires nowMs >= 1000 && laterMs >= nowMs
    ensures Shown(RetentionDeadline(expiresAtMs, nowMs, capMs), laterMs)
            <==> laterMs / 1000 < Seconds(expiresAtMs) && laterMs / 1000 < (nowMs + capMs) / 1000
    ensures Shown(RetentionDeadline(expiresAtMs, nowMs, capMs), laterMs) ==> laterMs < expiresAtMs
  {
    var d := RetentionDeadline(expiresAtMs, nowMs, capMs);
    assert laterMs / 1000 >= nowMs / 1000 >= 1;
    assert d != 0;
    if laterMs / 1000 < Seconds(expiresAtMs) {
      assert expiresAtMs >= 0;
      assert laterMs < expiresAtMs;
    }
  }

  /** The clock reading that turns a deadline into "keep for ever" is the first second of the epoch, and only that. */
  lemma RetentionNeverUnbounded(expiresAtMs: int, nowMs: nat, capMs: nat)
    ensures RetentionDeadline(expiresAtMs, nowMs, capMs) == 0
            <==> nowMs / 1000 == 0 && (Seconds(expiresAtMs) <= 0 || (nowMs + capMs) / 1000 == 0)
  {}

  // ---- operations --------------------------------------------------------------------------------

  datatype SaveOutcome = Saved(position: nat) | Replayed | Conflict

  /** One store transaction of the send route, in a mailbox that has its ordering. */
  function Save(box: Box, envelope: Envelope, nowMs: nat, capMs: nat): (r: (Box, SaveOutcome))
    requires box.next.Some?
  {
    var id := envelope.id;
    if Stored(box, id, nowMs) then
      if box.primary[id].envelope == envelope then (box, Replayed) else (box, Conflict)
    else
      var position := if box.next.value == 0 then 1 else box.next.value;
      var deadline := RetentionDeadline(envelope.expiresAtMs, nowMs, capMs);
      (Box(box.primary[id := Record(envelope, deadline)],
           box.index[position := Entry(id, deadline)],
           Some(position + 1),
           box.marks),
       Saved(position))
  }

  /** One acknowledgement transaction: only the primary record goes. */
  function Delete(box: Box, id: EnvelopeId): Box {
    box.(primary := box.primary - {id})
  }

  function DeleteAll(box: Box, ids: seq<EnvelopeId>): Box
    decreases |ids|
  {
    if ids == [] then box else DeleteAll(Delete(box, ids[0]), ids[1..])
  }

  function ReadMark(box: Box, device: Device): nat {
    if device in box.marks then box.marks[device] else 0
  }

  /** Forward, and only forward. */
  function AdvanceReadMark(box: Box, device: Device, position: nat): Box {
    if device in box.marks && position <= box.marks[device] then box
    else box.(marks := box.marks[device := position])
  }

  /** A mark ends at the larger of what it was and what is reported, and nobody else's moves. */
  lemma AMarkOnlyMovesForward(box: Box, device: Device, position: nat, other: Device)
    ensures var t := AdvanceReadMark(box, device, position);
            && ReadMark(t, device) == (if position > ReadMark(box, device) then position else ReadMark(box, device))
            && (other != device ==> ReadMark(t, other) == ReadMark(box, other))
            && t == box.(marks := t.marks)
  {}

  /** The highest position the counter has handed out. */
  function HighestIssued(box: Box): nat {
    if box.next.None? || box.next.value == 0 then 0 else box.next.value - 1
  }

  // ---- the standing invariants of an ordered mailbox ------------------------------------------------

  /** The record keys are the envelopes' own identifiers. */
  ghost predicate Keyed(box: Box) {
    forall id :: id in box.primary ==> box.primary[id].envelope.id == id
  }

  /** Every visible record is reachable through its own entry, below the counter. */
  ghost predicate Complete(box: Box, nowMs: nat) {
    box.next.Some? && box.next.value >= 1 &&
    forall id :: Stored(box, id, nowMs) ==> exists p :: 1 <= p < box.next.value && HomeAt(box, id, p)
  }

  /** No index entry was left at or above the counter by an interrupted backfill. */
  ghost predicate NoTail(box: Box) {
    box.next.Some? && forall p :: p in box.index ==> 1 <= p < box.next.value
  }

  /** `position` is the last one any index entry gives for `id`. */
  ghost predicate IsLatest(box: Box, id: EnvelopeId, position: nat) {
    && position in box.index && box.index[position].id == id
    && forall q :: q in box.index && box.index[q].id == id ==> q <= position
  }

  /** Each visible record's own entry is the latest one naming it. */
  ghost predicate Current(box: Box, nowMs: nat) {
    forall id :: Stored(box, id, nowMs) ==> exists p :: HomeAt(box, id, p) && IsLatest(box, id, p)
  }

  /** The envelope at this position has been stored again, at a later issued position. */
  ghost predicate Superseded(box: Box, position: nat) {
    && position in box.index
    && exists q :: q in box.index && position < q <= HighestIssued(box) && box.index[q].id == box.index[position].id
  }

  /** Each visible record's own entry is issued, and no later issued entry names it. */
  ghost predicate Placed(box: Box, nowMs: nat) {
    box.next.Some? && box.next.value >= 1 &&
    forall id :: Stored(box, id, nowMs) ==>
      exists p :: 1 <= p < box.next.value && HomeAt(box, id, p) && !Superseded(box, p)
  }

  lemma SaveKeepsPlaced(box: Box, envelope: Envelope, nowMs: nat, capMs: nat)
    requires Placed(box, nowMs)
    ensures Placed(Save(box, envelope, nowMs, capMs).0, nowMs)
  {
    var after := Save(box, envelope, nowMs, capMs).0;
    if after != box {
      var issued := box.next.value;
      forall id | Stored(after, id, nowMs)
        ensures exists p :: 1 <= p < after.next.value && HomeAt(after, id, p) && !Superseded(after, p)
      {
        if id == envelope.id {
          assert HomeAt(after, id, issued) && !Superseded(after, issued);
        } else {
          assert Stored(box, id, nowMs);
          var p :| 1 <= p < box.next.value && HomeAt(box, id, p) && !Superseded(box, p);
          assert HomeAt(after, id, p) && !Superseded(after, p);
        }
      }
    }
  }

  /** Fewer visible records under the same index and counter stay placed. */
  lemma FewerStayPlaced(box: Box, nowMs: nat, after: Box, laterMs: nat)
    requires Placed(box, nowMs) && after.index == box.index && after.next == box.next
    requires forall id :: Stored(after, id, laterMs) ==> Stored(box, id, nowMs) && after.primary[id] == box.primary[id]
    ensures Placed(after, laterMs)
  {
    forall id | Stored(after, id, laterMs)
      ensures exists p :: 1 <= p < after.next.value && HomeAt(after, id, p) && !Superseded(after, p)
    {
      var p :| 1 <= p < box.next.value && HomeAt(box, id, p) && !Superseded(box, p);
      assert HomeAt(after, id, p) && !Superseded(after, p);
    }
  }

  lemma SaveKeepsCurrent(box: Box, envelope: Envelope, nowMs: nat, capMs: nat)
    requires box.next.Some? && box.next.value >= 1 && NoTail(box) && Current(box, nowMs)
    ensures Current(Save(box, envelope, nowMs, capMs).0, nowMs)
  {
    var after := Save(box, envelope, nowMs, capMs).0;
    if after != box {
      var issued := box.next.value;
      forall id | Stored(after, id, nowMs)
        ensures exists p :: HomeAt(after, id, p) && IsLatest(after, id, p)
      {
        if id == envelope.id {
          assert HomeAt(after, id, issued) && IsLatest(after, id, issued);
        } else {
          assert Stored(box, id, nowMs);
          var p :| HomeAt(box, id, p) && IsLatest(box, id, p);
          assert HomeAt(after, id, p) && IsLatest(after, id, p);
        }
      }
    }
  }

  /** Fewer visible records under the same index stay current. */
  lemma FewerStayCurrent(box: Box, nowMs: nat, after: Box, laterMs: nat)
    requires Current(box, nowMs) && after.index == box.index
    requires forall id :: Stored(after, id, laterMs) ==> Stored(box, id, nowMs) && after.primary[id] == box.primary[id]
    ensures Current(after, laterMs)
  {
    forall id | Stored(after, id, laterMs)
      ensures exists p :: HomeAt(after, id, p) && IsLatest(after, id, p)
    {
      var p :| HomeAt(box, id, p) && IsLatest(box, id, p);
      assert HomeAt(after, id, p) && IsLatest(after, id, p);
    }
  }

  lemma SaveKeepsOrdering(box: Box, envelope: Envelope, nowMs: nat, capMs: nat)
    requires Complete(box, nowMs)
    ensures Complete(Save(box, envelope, nowMs, capMs).0, nowMs)
    ensures NoTail(box) ==> NoTail(Save(box, envelope, nowMs, capMs).0)
    ensures Keyed(box) ==> Keyed(Save(box, envelope, nowMs, capMs).0)
  {
    var after := Save(box, envelope, nowMs, capMs).0;
    if after != box {
      var issued := box.next.value;
      forall id | Stored(after, id, nowMs)
        ensures exists p :: 1 <= p < after.next.value && HomeAt(after, id, p)
      {
        if id == envelope.id {
          assert HomeAt(after, id, issued);
        } else {
          assert Stored(box, id, nowMs);
          var p :| 1 <= p < box.next.value && HomeAt(box, id, p);
          assert HomeAt(after, id, p);
        }
      }
    }
  }

  lemma DeleteKeepsOrdering(box: Box, id: EnvelopeId, nowMs: nat)
    requires Complete(box, nowMs)
    ensures Complete(Delete(box, id), nowMs)
    ensures NoTail(box) ==> NoTail(Delete(box, id))
    ensures Keyed(box) ==> Keyed(Delete(box, id))
  {
    var after := Delete(box, id);
    forall other | Stored(after, other, nowMs)
      ensures exists p :: 1 <= p < after.next.value && HomeAt(after, other, p)
    {
      assert Stored(box, other, nowMs);
      var p :| 1 <= p < box.next.value && HomeAt(box, other, p);
      assert HomeAt(after, other, p);
    }
  }

  /** Time only hides entries. */
  lemma LaterIsFewer(box: Box, nowMs: nat, laterMs: nat)
    requires nowMs <= laterMs
    ensures forall d: nat :: Shown(d, laterMs) ==> Shown(d, nowMs)
    ensures forall id :: Stored(box, id, laterMs) ==> Stored(box, id, nowMs)
    ensures forall id :: LiveRecord(box, id, laterMs) ==> LiveRecord(box, id, nowMs)
    ensures forall p :: LiveAt(box, p, laterMs) ==> LiveAt(box, p, nowMs)
    ensures Complete(box, nowMs) ==> Complete(box, laterMs)
  {
    assert nowMs / 1000 <= laterMs / 1000;
  }

  /** In an ordered mailbox a live record can be selected, at a position the counter has issued. */
  lemma LiveRecordIsSelectable(box: Box, id: EnvelopeId, nowMs: nat) returns (position: nat)
    requires Complete(box, nowMs) && LiveRecord(box, id, nowMs)
    ensures 1 <= position < box.next.value && HomeAt(box, id, position) && LiveAt(box, position, nowMs)
  {
    position :| 1 <= position < box.next.value && HomeAt(box, id, position);
  }

  /**
   An exact replay of a stored envelope changes nothing: it neither conflicts nor moves the envelope,
   and a different envelope under the same identifier is refused without a change.
   */
  lemma ReplayIsInert(box: Box, envelope: Envelope, nowMs: nat, capMs: nat)
    requires box.next.Some? && Stored(box, envelope.id, nowMs)
    ensures Save(box, envelope, nowMs, capMs).0 == box
    ensures Save(box, envelope, nowMs, capMs).1 == Replayed <==> box.primary[envelope.id].envelope == envelope
    ensures Save(box, envelope, nowMs, capMs).1 == Conflict <==> box.primary[envelope.id].envelope != envelope
  {}
}
