/**
 One sender's allowance in one mailbox when its check and the store it admits are separate steps: what the
 mailbox may hold for that sender while several of its requests are in flight.
 */
module Quota {
  import opened Wrappers
  import opened MailboxState
  import opened MailboxHandler
  import opened Sets
  import MR = MailboxRepository

  /** The sender watched, its allowance, the retention cap, and how many of its requests may be in flight. */
  datatype Terms = Terms(sender: Identity, quota: nat, capMs: nat, flights: nat)

  datatype Room = Room(
    box: Box,
    nowMs: nat,
    inflight: seq<Envelope>,       // the sender's requests that passed the check and are not stored yet
    borrowed: set<EnvelopeId>      // identifiers let through because somebody else's record held them
  )

  datatype Event =
    | Tick(ms: nat)
    | Check(envelope: Envelope)
    | Store(i: nat)
    | Abandon(i: nat)
    | OthersStore(envelope: Envelope)
    | Acknowledge(id: EnvelopeId)

  function Without(requests: seq<Envelope>, i: nat): seq<Envelope>
    requires i < |requests|
  {
    requests[..i] + requests[i + 1..]
  }

  ghost function Held(t: Terms, s: Room): set<EnvelopeId> { MR.LiveOf(s.box, t.sender, s.nowMs) }

  function Flying(requests: seq<Envelope>): set<EnvelopeId> {
    set i | 0 <= i < |requests| :: requests[i].id
  }

  ghost function Apply(t: Terms, s: Room, e: Event): Room {
    match e
    case Tick(ms) => s.(nowMs := s.nowMs + ms)
    case Check(envelope) =>
      if envelope.sender != t.sender || |s.inflight| >= t.flights || envelope.expiresAtMs <= s.nowMs
         || !WithinQuota(s.box, t.quota, envelope, s.nowMs) then s
      else s.(inflight := s.inflight + [envelope],
              borrowed := if Stored(s.box, envelope.id, s.nowMs) && envelope.id !in Held(t, s)
                          then s.borrowed + {envelope.id}
                          else s.borrowed)
    case Store(i) =>
      if i >= |s.inflight| || s.box.next.None? then s
      else s.(box := Save(s.box, s.inflight[i], s.nowMs, t.capMs).0, inflight := Without(s.inflight, i))
    case Abandon(i) => if i >= |s.inflight| then s else s.(inflight := Without(s.inflight, i))
    case OthersStore(envelope) =>
      if envelope.sender == t.sender || s.box.next.None? then s
      else s.(box := Save(s.box, envelope, s.nowMs, t.capMs).0)
    case Acknowledge(id) => s.(box := Delete(s.box, id))
  }

  ghost function Run(t: Terms, s: Room, events: seq<Event>): Room
    decreases |events|
  {
    if events == [] then s else Run(t, Apply(t, s, events[0]), events[1..])
  }

  lemma {:induction false} RunInParts(t: Terms, s: Room, first: seq<Event>, second: seq<Event>)
    ensures Run(t, s, first + second) == Run(t, Run(t, s, first), second)
    decreases |first|
  {
    hide Apply;
    if first == [] {
      assert first + second == second;
    } else {
      assert (first + second)[1..] == first[1..] + second;
      RunInParts(t, Apply(t, s, first[0]), first[1..], second);
    }
  }

  lemma OneStep(t: Terms, s: Room, e: Event)
    ensures Run(t, s, [e]) == Apply(t, s, e)
  {
    hide Apply;
    assert [e][1..] == [];
    assert Run(t, Apply(t, s, e), []) == Apply(t, s, e);
  }

  lemma TwoSteps(t: Terms, s: Room, a: Event, b: Event)
    ensures Run(t, s, [a, b]) == Apply(t, Apply(t, s, a), b)
  {
    hide Apply;
    assert [a, b][1..] == [b];
    OneStep(t, Apply(t, s, a), b);
  }

  lemma ThreeSteps(t: Terms, s: Room, a: Event, b: Event, c: Event)
    ensures Run(t, s, [a, b, c]) == Apply(t, Apply(t, Apply(t, s, a), b), c)
  {
    hide Apply;
    assert [a, b, c][1..] == [b, c];
    TwoSteps(t, Apply(t, s, a), b, c);
  }

  /** A mailbox before the sender has anything in it, at a clock past the first second of the epoch. */
  ghost predicate Start(t: Terms, s: Room) {
    t.flights > 0 && s.nowMs >= 1000 && s.box == EMPTY_BOX.(next := Some(1)) && s.inflight == [] && s.borrowed == {}
  }

  // ---- the bound ------------------------------------------------------------------------------------------

  /** What counts against the allowance: held, or about to be. */
  ghost function Charged(t: Terms, s: Room): set<EnvelopeId> { Held(t, s) + Flying(s.inflight) - s.borrowed }

  ghost predicate Bounded(t: Terms, s: Room) {
    && |s.inflight| <= t.flights
    && (forall i :: 0 <= i < |s.inflight| ==> s.inflight[i].sender == t.sender)
    && |Charged(t, s)| + 1 <= t.quota + t.flights
  }

  lemma {:induction false} FewerThanRequests(requests: seq<Envelope>)
    ensures |Flying(requests)| <= |requests|
  {
    if requests != [] {
      var n := |requests| - 1;
      FewerThanRequests(requests[..n]);
      assert Flying(requests) <= Flying(requests[..n]) + {requests[n].id};
      SubsetSize(Flying(requests), Flying(requests[..n]) + {requests[n].id});
    }
  }

  /** A step after which nothing new is charged. */
  lemma NothingMoreCharged(t: Terms, s: Room, r: Room)
    requires Bounded(t, s) && s.borrowed <= r.borrowed && |r.inflight| <= |s.inflight|
    requires forall i :: 0 <= i < |r.inflight| ==> r.inflight[i] in s.inflight
    requires Held(t, r) <= Held(t, s) + Flying(s.inflight)
    ensures Bounded(t, r)
  {
    assert Flying(r.inflight) <= Flying(s.inflight);
    SubsetSize(Charged(t, r), Charged(t, s));
  }

  lemma HeldAfterSave(t: Terms, s: Room, r: Room, envelope: Envelope)
    requires s.box.next.Some? && r.nowMs == s.nowMs && r.box == Save(s.box, envelope, s.nowMs, t.capMs).0
    ensures Held(t, r) <= Held(t, s) + (if envelope.sender == t.sender then {envelope.id} else {})
  {}

  lemma CheckKeepsBound(t: Terms, s: Room, envelope: Envelope)
    requires Bounded(t, s)
    ensures Bounded(t, Apply(t, s, Check(envelope)))
  {
    var r := Apply(t, s, Check(envelope));
    if r != s {
      var flying := Flying(r.inflight);
      assert flying == Flying(s.inflight) + {envelope.id} by {
        assert r.inflight[|s.inflight|] == envelope;
        assert forall i :: 0 <= i < |s.inflight| ==> r.inflight[i] == s.inflight[i];
      }
      if Stored(s.box, envelope.id, s.nowMs) {
        assert Charged(t, r) <= Charged(t, s);
        SubsetSize(Charged(t, r), Charged(t, s));
      } else {
        FewerThanRequests(r.inflight);
        SubsetSize(Charged(t, r), Held(t, s) + flying);
        Union(Held(t, s), flying);
      }
    }
  }

  lemma Union(a: set<nat>, b: set<nat>)
    ensures |a + b| <= |a| + |b|
  {
    assert |a + b| + |a * b| == |a| + |b|;
  }

  lemma SaveKeepsBound(t: Terms, s: Room, r: Room, envelope: Envelope)
    requires Bounded(t, s) && s.box.next.Some? && r.nowMs == s.nowMs
        && r.box == Save(s.box, envelope, s.nowMs, t.capMs).0
    requires r.borrowed == s.borrowed && |r.inflight| <= |s.inflight|
    requires forall i :: 0 <= i < |r.inflight| ==> r.inflight[i] in s.inflight
    requires envelope.sender == t.sender ==> envelope.id in Flying(s.inflight)
    ensures Bounded(t, r)
  {
    hide Save;
    HeldAfterSave(t, s, r, envelope);
    NothingMoreCharged(t, s, r);
  }

  lemma StepKeepsBound(t: Terms, s: Room, e: Event)
    requires Bounded(t, s)
    ensures Bounded(t, Apply(t, s, e))
  {
    hide Save, Charged;
    var r := Apply(t, s, e);
    match e
    case Tick(ms) => LaterIsFewer(s.box, s.nowMs, s.nowMs + ms); NothingMoreCharged(t, s, r);
    case Check(envelope) => CheckKeepsBound(t, s, envelope);
    case Store(i) => if r != s { SaveKeepsBound(t, s, r, s.inflight[i]); }
    case Abandon(i) => NothingMoreCharged(t, s, r);
    case OthersStore(envelope) => if r != s { SaveKeepsBound(t, s, r, envelope); }
    case Acknowledge(id) => NothingMoreCharged(t, s, r);
  }

  lemma {:induction false} RunKeepsBound(t: Terms, s: Room, events: seq<Event>)
    requires Bounded(t, s)
    ensures Bounded(t, Run(t, s, events))
    decreases |events|
  {
    if events != [] {
      StepKeepsBound(t, s, events[0]);
      RunKeepsBound(t, Apply(t, s, events[0]), events[1..]);
    }
  }

  /**
   The allowance over every run.  With at most `flights` of the sender's requests in flight, what the
   mailbox holds for it exceeds `quota + flights - 1` by at most the identifiers it was let through with
   because another sender's record was stored under them.
   */
  lemma QuotaHoldsUpToBorrowedIdentifiers(t: Terms, s: Room, events: seq<Event>)
    requires Start(t, s)
    ensures var r := Run(t, s, events); |Held(t, r)| + 1 <= t.quota + t.flights + |r.borrowed|
  {
    assert Held(t, s) == {} && Flying(s.inflight) == {};
    assert Charged(t, s) == {};
    RunKeepsBound(t, s, events);
    var r := Run(t, s, events);
    SubsetSize(Held(t, r), Charged(t, r) + r.borrowed);
    Union(Charged(t, r), r.borrowed);
  }

  // ---- no borrowing without shared identifiers ------------------------------------------------------------

  /** The sender's identifiers are its own. */
  ghost predicate OwnIdentifiers(t: Terms, events: seq<Event>, mine: set<EnvelopeId>) {
    forall i :: 0 <= i < |events| ==>
      && (events[i].Check? ==> events[i].envelope.id in mine)
      && (events[i].OthersStore? ==> events[i].envelope.id !in mine)
  }

  /** A stored deadline never outlives the declared expiry, so what is visible is live. */
  predicate Expiring(r: Record, nowMs: nat) {
    r.deadline != 0 && (r.deadline * 1000 <= r.envelope.expiresAtMs || r.deadline <= nowMs / 1000)
  }

  ghost predicate Owned(t: Terms, s: Room, mine: set<EnvelopeId>) {
    && s.nowMs >= 1000 && s.borrowed == {}
    && (forall i :: 0 <= i < |s.inflight| ==> s.inflight[i].sender == t.sender && s.inflight[i].id in mine)
    && (forall id :: id in s.box.primary ==>
          Expiring(s.box.primary[id], s.nowMs) && (id in mine <==> s.box.primary[id].envelope.sender == t.sender))
  }

  lemma SavedIsExpiring(envelope: Envelope, nowMs: nat, capMs: nat)
    requires nowMs >= 1000
    ensures Expiring(Record(envelope, RetentionDeadline(envelope.expiresAtMs, nowMs, capMs)), nowMs)
  {
    RetentionNeverUnbounded(envelope.expiresAtMs, nowMs, capMs);
  }

  lemma StepKeepsOwned(t: Terms, s: Room, e: Event, mine: set<EnvelopeId>)
    requires Owned(t, s, mine) && OwnIdentifiers(t, [e], mine)
    ensures Owned(t, Apply(t, s, e), mine)
  {
    hide RetentionDeadline;
    assert [e][0] == e;
    match e
    case Check(envelope) =>
      if Stored(s.box, envelope.id, s.nowMs) {
        assert Expiring(s.box.primary[envelope.id], s.nowMs);
        assert LiveRecord(s.box, envelope.id, s.nowMs);
      }
    case Store(i) =>
      if i < |s.inflight| { SavedIsExpiring(s.inflight[i], s.nowMs, t.capMs); }
    case OthersStore(envelope) => SavedIsExpiring(envelope, s.nowMs, t.capMs);
    case _ =>
  }

  lemma {:induction false} RunKeepsOwned(t: Terms, s: Room, events: seq<Event>, mine: set<EnvelopeId>)
    requires Owned(t, s, mine) && OwnIdentifiers(t, events, mine)
    ensures Owned(t, Run(t, s, events), mine)
    decreases |events|
  {
    if events != [] {
      assert OwnIdentifiers(t, [events[0]], mine);
      StepKeepsOwned(t, s, events[0], mine);
      RunKeepsOwned(t, Apply(t, s, events[0]), events[1..], mine);
    }
  }

  /**
   When no other sender uses this sender's identifiers, the mailbox never holds more than
   `quota + flights - 1` of its envelopes, and never more than `quota` when it sends one at a time.
   */
  lemma QuotaHoldsForOwnIdentifiers(t: Terms, s: Room, events: seq<Event>, mine: set<EnvelopeId>)
    requires Start(t, s) && OwnIdentifiers(t, events, mine)
    ensures var r := Run(t, s, events);
            && |Held(t, r)| + 1 <= t.quota + t.flights
            && (t.flights == 1 ==> |Held(t, r)| <= t.quota)
  {
    RunKeepsOwned(t, s, events, mine);
    QuotaHoldsUpToBorrowedIdentifiers(t, s, events);
  }

  /** At the number the relay is configured with, or at sixteen when it is configured with none. */
  lemma TheConfiguredAllowanceHolds(limits: Limits, sender: Identity, capMs: nat, flights: nat, s: Room,
      events: seq<Event>, mine: set<EnvelopeId>)
    requires var t := Terms(sender, SenderQuota(limits.quota), capMs, flights);
             Start(t, s) && OwnIdentifiers(t, events, mine)
    ensures var held := |Held(Terms(sender, SenderQuota(limits.quota), capMs, flights),
                              Run(Terms(sender, SenderQuota(limits.quota), capMs, flights), s, events))|;
            var allowed := if limits.quota > 0 then limits.quota else 16;
            held + 1 <= allowed + flights && (flights == 1 ==> held <= allowed)
  {
    QuotaHoldsForOwnIdentifiers(Terms(sender, SenderQuota(limits.quota), capMs, flights), s, events, mine);
  }

  // ---- and with them -----------------------------------------------------------------------------------------

  /**
   The condition is needed.  Whenever a sender holds all it may with so many requests in flight and names an
   identifier somebody else's record holds, and that record is acknowledged between the check and the store,
   the mailbox goes past the bound.
   */
  lemma ASharedIdentifierBreaksTheQuota(t: Terms, s: Room, envelope: Envelope)
    requires s.box.next.Some? && s.inflight == [] && t.flights > 0 && s.nowMs >= 1000
    requires |Held(t, s)| + 1 == t.quota + t.flights && envelope.sender == t.sender
    requires Stored(s.box, envelope.id, s.nowMs) && s.box.primary[envelope.id].envelope.sender != t.sender
    requires Visible(envelope, s.nowMs, t.capMs)
    ensures |Held(t, Run(t, s, [Check(envelope), Acknowledge(envelope.id), Store(0)]))| == t.quota + t.flights
  {
    hide Run, RetentionDeadline;
    var events := [Check(envelope), Acknowledge(envelope.id), Store(0)];
    var checked := Apply(t, s, events[0]);
    var gone := Apply(t, checked, events[1]);
    var after := Apply(t, gone, events[2]);
    ThreeSteps(t, s, events[0], events[1], events[2]);
    assert checked.inflight == [envelope];
    assert Held(t, after) == Held(t, s) + {envelope.id};
  }

  /** A record of this envelope, stored now, is visible now. */
  predicate Visible(envelope: Envelope, nowMs: nat, capMs: nat) {
    envelope.expiresAtMs > nowMs && Shown(RetentionDeadline(envelope.expiresAtMs, nowMs, capMs), nowMs)
  }

  // ---- a run that gets there, for every allowance and every number of requests -----------------------------------

  const DAY_MS: nat := 86400000

  /** The last millisecond of the first second: whatever is kept at all is still visible then. */
  const CLOCK: nat := 1999

  function Note(id: EnvelopeId, sender: Identity): Envelope {
    Envelope(id, id, sender, 1, 3, 3, Wrapped(id), 0, DAY_MS, true, 700)
  }

  lemma NoteOf(id: EnvelopeId, sender: Identity)
    ensures Note(id, sender).id == id
  {}

  lemma NotesAreVisible(e: Envelope, capMs: nat)
    requires e.expiresAtMs == DAY_MS && capMs > 0
    ensures Visible(e, CLOCK, capMs)
  {}

  const FRESH_ROOM := Room(EMPTY_BOX.(next := Some(1)), CLOCK, [], {})

  /**
   A room the sender has filled with so much: the other sender's one record, the sender's own, and requests
   that passed the check.
   */
  ghost predicate Filled(t: Terms, s: Room, shared: EnvelopeId, held: set<EnvelopeId>, flying: seq<Envelope>) {
    && s.nowMs == CLOCK && s.inflight == flying && s.box.next.Some? && shared !in held
    && s.box.primary.Keys == held + {shared}
    && (forall id :: id in s.box.primary ==> IsNote(t, id == shared, id, s.box.primary[id]))
  }

  predicate IsNote(t: Terms, shared: bool, id: EnvelopeId, r: Record) {
    Shown(r.deadline, CLOCK) && r.envelope == Note(id, if shared then t.sender + 1 else t.sender)
  }

  lemma FilledHolds(t: Terms, s: Room, shared: EnvelopeId, held: set<EnvelopeId>, flying: seq<Envelope>)
    requires Filled(t, s, shared, held, flying)
    ensures Held(t, s) == held
  {
    forall id ensures id in Held(t, s) <==> id in held {
      if id in s.box.primary { assert IsNote(t, id == shared, id, s.box.primary[id]); }
    }
  }

  /** The events name only these identifiers of the sender and of others. */
  ghost predicate Names(t: Terms, events: seq<Event>, mine: set<EnvelopeId>, theirs: set<EnvelopeId>) {
    forall i :: 0 <= i < |events| ==>
      && (events[i].Check? ==> events[i].envelope.id in mine)
      && (events[i].OthersStore? ==> events[i].envelope.id in theirs)
  }

  lemma NamesTogether(t: Terms, a: seq<Event>, b: seq<Event>, mine: set<EnvelopeId>, theirs: set<EnvelopeId>)
    requires Names(t, a, mine, theirs) && Names(t, b, mine, theirs)
    ensures Names(t, a + b, mine, theirs)
  {}

  lemma FirstIsFilled(t: Terms, shared: EnvelopeId)
    requires t.capMs > 0
    ensures Filled(t, Apply(t, FRESH_ROOM, OthersStore(Note(shared, t.sender + 1))), shared, {}, [])
  {
    hide RetentionDeadline;
    var e := Note(shared, t.sender + 1);
    NotesAreVisible(e, t.capMs);
    var s := Apply(t, FRESH_ROOM, OthersStore(e));
    var deadline := RetentionDeadline(DAY_MS, CLOCK, t.capMs);
    assert s.box.primary == map[shared := Record(e, deadline)];
  }

  /** A request for a new identifier passes the check while the allowance and the flights last. */
  lemma OneChecked(t: Terms, s: Room, shared: EnvelopeId, held: set<EnvelopeId>, flying: seq<Envelope>, id: EnvelopeId)
    requires Filled(t, s, shared, held, flying) && id !in held && id != shared
    requires |held| < t.quota && |flying| < t.flights
    ensures Filled(t, Apply(t, s, Check(Note(id, t.sender))), shared, held, flying + [Note(id, t.sender)])
  {
    FilledHolds(t, s, shared, held, flying);
  }

  /** And is stored when its turn comes. */
  lemma FirstStored(t: Terms, s: Room, shared: EnvelopeId, held: set<EnvelopeId>, flying: seq<Envelope>, id: EnvelopeId)
    requires flying != [] && Filled(t, s, shared, held, flying) && id !in held && id != shared
    requires flying[0] == Note(id, t.sender) && t.capMs > 0
    ensures Filled(t, Apply(t, s, Store(0)), shared, held + {id}, flying[1..])
  {
    hide RetentionDeadline;
    NotesAreVisible(flying[0], t.capMs);
    var r := Apply(t, s, Store(0));
    assert Without(flying, 0) == flying[1..];
    forall x | x in r.box.primary ensures IsNote(t, x == shared, x, r.box.primary[x]) {
      if x != id { assert IsNote(t, x == shared, x, s.box.primary[x]); }
    }
  }

  lemma NoEvents(t: Terms, s: Room, mine: set<EnvelopeId>, theirs: set<EnvelopeId>)
    ensures Run(t, s, []) == s && Names(t, [], mine, theirs)
  {}

  lemma OneIsNamed(t: Terms, e: Envelope, mine: set<EnvelopeId>, theirs: set<EnvelopeId>)
    requires e.id in mine
    ensures Names(t, [Check(e)], mine, theirs)
  {}

  lemma OneMoreAloft(held: set<EnvelopeId>, aloft: set<EnvelopeId>, more: set<EnvelopeId>, id: EnvelopeId)
    requires id in more && more !! held + aloft && aloft !! held
    ensures held + (aloft + {id}) + (more - {id}) == held + aloft + more
    ensures more - {id} !! held + (aloft + {id}) && aloft + {id} !! held && |more| == |more - {id}| + 1
  {}

  /** All at once: every one checked before any is stored. */
  lemma {:induction false} FillAtOnce(t: Terms, s: Room, shared: EnvelopeId, held: set<EnvelopeId>,
      flying: seq<Envelope>, aloft: set<EnvelopeId>, more: set<EnvelopeId>, mine: set<EnvelopeId>,
      theirs: set<EnvelopeId>) returns (r: Room, events: seq<Event>)
    requires Filled(t, s, shared, held, flying) && Carries(t, flying, aloft)
    requires more !! held + aloft && shared !in more + aloft && aloft !! held && more <= mine
    requires |held| < t.quota && |flying| + |more| <= t.flights && t.capMs > 0
    ensures r == Run(t, s, events) && Filled(t, r, shared, held + aloft + more, []) && Names(t, events, mine, theirs)
    decreases more
  {
    hide Run, Filled, Apply, Carries, Names, Note;
    if more == {} {
      assert held + aloft + more == held + aloft;
      r, events := StoreAll(t, s, shared, held, flying, aloft, mine, theirs);
    } else {
      var id :| id in more;
      var e := Note(id, t.sender);
      OneChecked(t, s, shared, held, flying, id);
      CarriesOneMore(t, flying, aloft, id);
      OneMoreAloft(held, aloft, more, id);
      var rest;
      r, rest := FillAtOnce(t, Apply(t, s, Check(e)), shared, held, flying + [e], aloft + {id}, more - {id},
                            mine, theirs);
      OneStep(t, s, Check(e));
      RunInParts(t, s, [Check(e)], rest);
      events := [Check(e)] + rest;
      assert e.id == id by { NoteOf(id, t.sender); }
      OneIsNamed(t, e, mine, theirs);
      NamesTogether(t, [Check(e)], rest, mine, theirs);
    }
  }

  /** These requests, for these identifiers, each once. */
  ghost predicate Carries(t: Terms, flying: seq<Envelope>, aloft: set<EnvelopeId>)
    decreases |flying|
  {
    if flying == [] then aloft == {}
    else flying[0].id in aloft && flying[0] == Note(flying[0].id, t.sender)
         && Carries(t, flying[1..], aloft - {flying[0].id})
  }

  lemma {:induction false} CarriesOneMore(t: Terms, flying: seq<Envelope>, aloft: set<EnvelopeId>, id: EnvelopeId)
    requires Carries(t, flying, aloft) && id !in aloft
    ensures Carries(t, flying + [Note(id, t.sender)], aloft + {id})
    decreases |flying|
  {
    var e := Note(id, t.sender);
    if flying == [] {
      assert [e][1..] == [] && {id} - {id} == {};
      assert flying + [e] == [e] && aloft + {id} == {id};
    } else {
      CarriesOneMore(t, flying[1..], aloft - {flying[0].id}, id);
      assert (flying + [e])[1..] == flying[1..] + [e];
      assert aloft + {id} - {flying[0].id} == aloft - {flying[0].id} + {id};
    }
  }

  lemma {:induction false} StoreAll(t: Terms, s: Room, shared: EnvelopeId, held: set<EnvelopeId>,
      flying: seq<Envelope>, aloft: set<EnvelopeId>, mine: set<EnvelopeId>, theirs: set<EnvelopeId>)
      returns (r: Room, events: seq<Event>)
    requires Filled(t, s, shared, held, flying) && Carries(t, flying, aloft) && aloft !! held && shared !in aloft
    requires t.capMs > 0
    ensures r == Run(t, s, events) && Filled(t, r, shared, held + aloft, []) && Names(t, events, mine, theirs)
    decreases |flying|
  {
    hide Run, Filled, Apply;
    if flying == [] {
      r, events := s, [];
      NoEvents(t, s, mine, theirs);
      assert held + aloft == held;
    } else {
      var id := flying[0].id;
      FirstStored(t, s, shared, held, flying, id);
      var rest;
      r, rest := StoreAll(t, Apply(t, s, Store(0)), shared, held + {id}, flying[1..], aloft - {id}, mine, theirs);
      assert held + {id} + (aloft - {id}) == held + aloft;
      OneStep(t, s, Store(0));
      RunInParts(t, s, [Store(0)], rest);
      events := [Store(0)] + rest;
    }
  }

  /** One after another: each checked and stored before the next. */
  lemma {:induction false} FillOneByOne(t: Terms, s: Room, shared: EnvelopeId, held: set<EnvelopeId>,
      more: set<EnvelopeId>, mine: set<EnvelopeId>, theirs: set<EnvelopeId>) returns (r: Room, events: seq<Event>)
    requires Filled(t, s, shared, held, []) && more !! held && shared !in more && more <= mine
    requires |held| + |more| <= t.quota && t.flights > 0 && t.capMs > 0
    ensures r == Run(t, s, events) && Filled(t, r, shared, held + more, []) && Names(t, events, mine, theirs)
    decreases more
  {
    hide Run, Filled, Apply, Names;
    if more == {} {
      r, events := s, [];
      NoEvents(t, s, mine, theirs);
      assert held + more == held;
    } else {
      var id :| id in more;
      var stored, one := FillAtOnce(t, s, shared, held, [], {}, {id}, mine, theirs);
      assert held + {} + {id} == held + {id} && held + {id} + (more - {id}) == held + more;
      var rest;
      r, rest := FillOneByOne(t, stored, shared, held + {id}, more - {id}, mine, theirs);
      RunInParts(t, s, one, rest);
      NamesTogether(t, one, rest, mine, theirs);
      events := one + rest;
    }
  }

  lemma {:induction false} SomeOf(s: set<EnvelopeId>, n: nat) returns (part: set<EnvelopeId>)
    requires n <= |s|
    ensures part <= s && |part| == n
  {
    if n == 0 {
      part := {};
    } else {
      var id :| id in s;
      part := SomeOf(s - {id}, n - 1);
      part := part + {id};
    }
  }

  /**
   The failing family, from an empty mailbox, for every allowance and every number of requests in flight: the
   sender fills all but one of its allowance, sends as many requests at once as it may, and then names an
   identifier of another sender's while that record is acknowledged.
   */
  lemma ARunBreaksEveryQuota(t: Terms, mine: set<EnvelopeId>, theirs: set<EnvelopeId>, shared: EnvelopeId)
      returns (events: seq<Event>)
    requires t.flights > 0 && t.capMs > 0 && (t.quota > 0 || t.flights == 1)
    requires shared in mine && shared in theirs && |mine| >= t.quota + t.flights
    ensures Start(t, FRESH_ROOM) && Names(t, events, mine, theirs)
    ensures |Held(t, Run(t, FRESH_ROOM, events))| == t.quota + t.flights
  {
    hide Run, Apply, Filled;
    var r, filling := FullRoom(t, mine, theirs, shared);
    var held: set<EnvelopeId> :| Filled(t, r, shared, held, []) && |held| + 1 == t.quota + t.flights;
    FilledHolds(t, r, shared, held, []);
    var borrow := Note(shared, t.sender);
    FilledRoomFacts(t, r, shared, held);
    NotesAreVisible(borrow, t.capMs);
    ASharedIdentifierBreaksTheQuota(t, r, borrow);
    var overdraw := [Check(borrow), Acknowledge(shared), Store(0)];
    RunInParts(t, FRESH_ROOM, filling, overdraw);
    NamesTogether(t, filling, overdraw, mine, theirs);
    events := filling + overdraw;
  }

  lemma FilledRoomFacts(t: Terms, s: Room, shared: EnvelopeId, held: set<EnvelopeId>)
    requires Filled(t, s, shared, held, [])
    ensures s.box.next.Some? && s.inflight == [] && s.nowMs == CLOCK && Stored(s.box, shared, s.nowMs)
    ensures s.box.primary[shared].envelope.sender != t.sender
  {
    assert shared in s.box.primary && IsNote(t, true, shared, s.box.primary[shared]);
  }

  lemma FullRoom(t: Terms, mine: set<EnvelopeId>, theirs: set<EnvelopeId>, shared: EnvelopeId)
      returns (r: Room, events: seq<Event>)
    requires t.flights > 0 && t.capMs > 0 && (t.quota > 0 || t.flights == 1)
    requires shared in mine && shared in theirs && |mine| >= t.quota + t.flights
    ensures r == Run(t, FRESH_ROOM, events) && Names(t, events, mine, theirs)
    ensures exists held :: Filled(t, r, shared, held, []) && |held| + 1 == t.quota + t.flights
  {
    hide Run, Apply, Filled;
    var first := OthersStore(Note(shared, t.sender + 1));
    FirstIsFilled(t, shared);
    OneStep(t, FRESH_ROOM, first);
    var others := Apply(t, FRESH_ROOM, first);
    var own := mine - {shared};
    if t.quota == 0 {
      r, events := others, [first];
      var none: set<EnvelopeId> := {};
      assert Filled(t, r, shared, none, []) && |none| == 0;
    } else {
      var slow := SomeOf(own, t.quota - 1);
      var fast := SomeOf(own - slow, t.flights);
      var some, one := FillOneByOne(t, others, shared, {}, slow, mine, theirs);
      assert {} + slow == slow;
      var all;
      r, all := FillAtOnce(t, some, shared, slow, [], {}, fast, mine, theirs);
      RunInParts(t, FRESH_ROOM, [first], one);
      RunInParts(t, FRESH_ROOM, [first] + one, all);
      NamesTogether(t, [first], one, mine, theirs);
      NamesTogether(t, [first] + one, all, mine, theirs);
      events := [first] + one + all;
      assert slow + {} + fast == slow + fast && |slow + fast| == |slow| + |fast|;
      assert Filled(t, r, shared, slow + fast, []);
    }
  }

  // ---- exactly when the bound holds -----------------------------------------------------------------------------

  /** The sender holds only what it named, and the mailbox keeps nothing beyond the moment when the cap is zero. */
  ghost predicate Bounds(t: Terms, s: Room, mine: set<EnvelopeId>) {
    && s.nowMs >= 1000
    && (forall i :: 0 <= i < |s.inflight| ==> s.inflight[i].id in mine)
    && (forall id :: id in s.box.primary ==>
          && (s.box.primary[id].envelope.sender == t.sender ==> id in mine)
          && (t.capMs == 0 ==> !Shown(s.box.primary[id].deadline, s.nowMs)))
  }

  lemma NothingIsKept(envelope: Envelope, nowMs: nat)
    requires nowMs >= 1000
    ensures !Shown(RetentionDeadline(envelope.expiresAtMs, nowMs, 0), nowMs)
  {}

  lemma StepKeepsBounds(t: Terms, s: Room, e: Event, mine: set<EnvelopeId>)
    requires Bounds(t, s, mine) && (e.Check? ==> e.envelope.id in mine)
    ensures Bounds(t, Apply(t, s, e), mine)
  {
    hide RetentionDeadline;
    match e
    case Tick(ms) => LaterIsFewer(s.box, s.nowMs, s.nowMs + ms);
    case Store(i) => if i < |s.inflight| { NothingIsKept(s.inflight[i], s.nowMs); }
    case OthersStore(envelope) => NothingIsKept(envelope, s.nowMs);
    case _ =>
  }

  lemma {:induction false} RunKeepsBounds(t: Terms, s: Room, events: seq<Event>, mine: set<EnvelopeId>,
      theirs: set<EnvelopeId>)
    requires Bounds(t, s, mine) && Names(t, events, mine, theirs)
    ensures Bounds(t, Run(t, s, events), mine)
    decreases |events|
  {
    hide Apply, Bounds;
    if events != [] {
      StepKeepsBounds(t, s, events[0], mine);
      RunKeepsBounds(t, Apply(t, s, events[0]), events[1..], mine, theirs);
    }
  }

  lemma BoundHolds(t: Terms, s: Room, events: seq<Event>, mine: set<EnvelopeId>, theirs: set<EnvelopeId>)
    requires Start(t, s) && Names(t, events, mine, theirs) && t.quota > 0
    requires mine !! theirs || |mine| < t.quota + t.flights || t.capMs == 0
    ensures |Held(t, Run(t, s, events))| + 1 <= t.quota + t.flights
  {
    hide Run;
    if mine !! theirs {
      QuotaHoldsForOwnIdentifiers(t, s, events, mine);
    } else {
      RunKeepsBounds(t, s, events, mine, theirs);
      var r := Run(t, s, events);
      assert t.capMs == 0 ==> Held(t, r) == {};
      SubsetSize(Held(t, r), mine);
    }
  }

  /**
   The allowance, exactly.  A sender that names only these identifiers, with others naming only those, stays
   within `quota + flights - 1` over every run if and only if no identifier is shared, or it has too few of
   them to go past it, or the relay keeps nothing.
   */
  lemma QuotaHoldsIff(t: Terms, mine: set<EnvelopeId>, theirs: set<EnvelopeId>)
    requires t.quota > 0 && t.flights > 0
    ensures (forall s: Room, events: seq<Event> :: Start(t, s) && Names(t, events, mine, theirs) ==>
               |Held(t, Run(t, s, events))| + 1 <= t.quota + t.flights)
            <==> mine !! theirs || |mine| < t.quota + t.flights || t.capMs == 0
  {
    hide Run, Start, Held, Names;
    if mine !! theirs || |mine| < t.quota + t.flights || t.capMs == 0 {
      forall s: Room, events: seq<Event> | Start(t, s) && Names(t, events, mine, theirs)
        ensures |Held(t, Run(t, s, events))| + 1 <= t.quota + t.flights
      {
        BoundHolds(t, s, events, mine, theirs);
      }
    } else {
      var shared :| shared in mine && shared in theirs;
      var events := ARunBreaksEveryQuota(t, mine, theirs, shared);
      assert |Held(t, Run(t, FRESH_ROOM, events))| + 1 > t.quota + t.flights;
    }
  }

  // ---- the route is the two steps together ---------------------------------------------------------------

  /** The send route is the check and the store with nothing in between. */
  lemma SendRouteIsCheckThenStore(t: Terms, s: Room, envelope: Envelope, writes: nat)
    requires s.box.next.Some? && s.inflight == [] && t.flights > 0 && envelope.sender == t.sender
    ensures AnswerSend(s.box, t.quota, t.capMs, envelope, true, s.nowMs, writes).0
            == Run(t, s, [Check(envelope), Store(0)]).box
  {
    TwoSteps(t, s, Check(envelope), Store(0));
  }
}
