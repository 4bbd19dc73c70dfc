/**
 The one-shot migration that gives every record of an older mailbox a position.  It writes its index
 entries in separately committed batches and the counter last, so it can stop anywhere and be retried.
 The relay is a machine over events; every statement is about every sequence of them.
 */
module Backfill {
  import opened Wrappers
  import opened MailboxState
  import opened Paging

  const BACKFILL_BATCH: nat := 512

  // ---- key order ---------------------------------------------------------------------------------------

  ghost function Least(s: set<nat>): (m: nat)
    requires s != {}
    ensures m in s && forall x :: x in s ==> m <= x
  {
    var x :| x in s;
    if s == {x} then x else
    var m := Least(s - {x});
    assert forall y :: y in s ==> y == x || y in s - {x};
    if x <= m then x else m
  }

  /** The elements of a set in the order an iterator visits them. */
  ghost function Ascending(s: set<nat>): seq<nat> {
    if s == {} then [] else
    var m := Least(s);
    [m] + Ascending(s - {m})
  }

  /** `r` lists the elements of `s`, each once, in ascending order. */
  ghost predicate Lists(r: seq<nat>, s: set<nat>) {
    && (forall x :: x in s <==> x in r)
    && (forall i, j :: 0 <= i < j < |r| ==> r[i] < r[j])
  }

  lemma {:induction false} AscendingLists(s: set<nat>)
    ensures Lists(Ascending(s), s)
  {
    if s != {} {
      var m := Least(s);
      AscendingLists(s - {m});
      PrependLeast(s, m, Ascending(s - {m}));
    }
  }

  lemma PrependLeast(s: set<nat>, m: nat, rest: seq<nat>)
    requires m in s && (forall x :: x in s ==> m <= x) && Lists(rest, s - {m})
    ensures Lists([m] + rest, s)
  {
    var r := [m] + rest;
    forall x ensures x in s <==> x in r {
      assert x in r <==> x == m || x in rest;
    }
    forall i, j | 0 <= i < j < |r| ensures r[i] < r[j] {
      assert rest[j - 1] in rest;
      assert rest[j - 1] in s - {m};
    }
  }

  lemma TailLists(s: set<nat>, r: seq<nat>)
    requires r != [] && Lists(r, s)
    ensures Lists(r[1..], s - {r[0]})
  {
    forall x ensures x in s - {r[0]} <==> x in r[1..] {
      if x in s - {r[0]} {
        var i :| 0 <= i < |r| && r[i] == x;
        assert r[1..][i - 1] == x;
      }
    }
  }

  lemma FirstIsLeast(s: set<nat>, r: seq<nat>)
    requires r != [] && Lists(r, s)
    ensures s != {} && Least(s) == r[0]
  {
    assert r[0] in r;
    assert r[0] in s;
    var k :| 0 <= k < |r| && r[k] == Least(s);
  }

  lemma NothingListed(s: set<nat>)
    requires Lists([], s)
    ensures s == {}
  {
    assert forall x :: x !in s;
  }

  lemma {:induction false} AscendingIsUnique(s: set<nat>, r: seq<nat>)
    requires Lists(r, s)
    ensures Ascending(s) == r
    decreases |r|
  {
    if r == [] {
      NothingListed(s);
    } else {
      FirstIsLeast(s, r);
      TailLists(s, r);
      AscendingIsUnique(s - {r[0]}, r[1..]);
      AscendingFromLeast(s, r);
    }
  }

  lemma AscendingFromLeast(s: set<nat>, r: seq<nat>)
    requires s != {} && r != [] && Least(s) == r[0] && Ascending(s - {r[0]}) == r[1..]
    ensures Ascending(s) == r
  {
    assert r == [r[0]] + r[1..];
  }

  // ---- the migration's two ingredients --------------------------------------------------------------------

  ghost function StoredIds(box: Box, nowMs: nat): set<EnvelopeId> {
    set id | id in box.primary && Stored(box, id, nowMs)
  }

  function EntryFor(box: Box, id: EnvelopeId): Entry {
    Entry(id, if id in box.primary then box.primary[id].deadline else 0)
  }

  /** The records a backfill sees, in key order, each with the deadline its entry will carry. */
  ghost function Snapshot(box: Box, nowMs: nat): seq<Entry> {
    EntriesFor(box, Ascending(StoredIds(box, nowMs)))
  }

  function EntriesFor(box: Box, ids: seq<EnvelopeId>): seq<Entry> {
    if ids == [] then [] else EntriesFor(box, ids[..|ids| - 1]) + [EntryFor(box, ids[|ids| - 1])]
  }

  lemma {:induction false} EntriesForEach(box: Box, ids: seq<EnvelopeId>)
    ensures |EntriesFor(box, ids)| == |ids|
    ensures forall i :: 0 <= i < |ids| ==> EntriesFor(box, ids)[i] == EntryFor(box, ids[i])
  {
    if ids != [] { EntriesForEach(box, ids[..|ids| - 1]); }
  }

  lemma SnapshotLists(box: Box, nowMs: nat)
    ensures Covers(box, nowMs, Snapshot(box, nowMs))
  {
    var ids := Ascending(StoredIds(box, nowMs));
    AscendingLists(StoredIds(box, nowMs));
    EntriesForEach(box, ids);
    forall id | Stored(box, id, nowMs) ensures Entry(id, box.primary[id].deadline) in Snapshot(box, nowMs) {
      assert id in StoredIds(box, nowMs);
      var i :| 0 <= i < |ids| && ids[i] == id;
      assert EntriesFor(box, ids)[i] == Entry(id, box.primary[id].deadline);
    }
  }

  /** The index once the first `count` records have been numbered from one. */
  function Numbered(index: map<nat, Entry>, records: seq<Entry>, count: nat): map<nat, Entry>
    requires count <= |records|
  {
    index + map p {:trigger records[p - 1]} | 1 <= p <= count :: records[p - 1]
  }

  lemma NumberedTwice(index: map<nat, Entry>, records: seq<Entry>, some: nat, more: nat)
    requires some <= more <= |records|
    ensures Numbered(Numbered(index, records, some), records, more) == Numbered(index, records, more)
  {}

  lemma NumberedOneMore(index: map<nat, Entry>, records: seq<Entry>, count: nat)
    requires count < |records|
    ensures Numbered(index, records, count)[count + 1 := records[count]] == Numbered(index, records, count + 1)
  {}

  function Min(a: nat, b: nat): nat { if a <= b then a else b }

  /** A migration that runs undisturbed and commits its first `writes` transactions, the counter being the last. */
  ghost function EnsureOrdering(box: Box, nowMs: nat, writes: nat): Box {
    if box.next.Some? then box else
    var records := Snapshot(box, nowMs);
    var index := Numbered(box.index, records, Min(writes * BACKFILL_BATCH, |records|));
    if writes * BACKFILL_BATCH >= |records| + BACKFILL_BATCH then box.(index := index, next := Some(|records| + 1))
    else box.(index := index)
  }

  lemma {:induction false} AscendingCounts(s: set<nat>)
    ensures |Ascending(s)| == |s|
  {
    if s != {} { AscendingCounts(s - {Least(s)}); }
  }

  /** How many elements lie below one of them. */
  function Below(s: set<nat>, id: nat): set<nat> { set x | x in s && x < id }

  lemma {:induction false} RankInOrder(s: set<nat>, r: seq<nat>, i: nat)
    requires Lists(r, s) && i < |r|
    ensures |Below(s, r[i])| == i
    decreases i
  {
    if i == 0 {
      NoneBelow(s, r);
    } else {
      RankInOrder(s, r, i - 1);
      OneMoreBelow(s, r, i);
    }
  }

  lemma NoneBelow(s: set<nat>, r: seq<nat>)
    requires Lists(r, s) && r != []
    ensures Below(s, r[0]) == {}
  {
    forall x | x in s ensures x >= r[0] { var k := Where(s, r, x); }
  }

  lemma Where(s: set<nat>, r: seq<nat>, x: nat) returns (k: nat)
    requires Lists(r, s) && x in s
    ensures k < |r| && r[k] == x
  {
    k :| 0 <= k < |r| && r[k] == x;
  }

  lemma OneMoreBelow(s: set<nat>, r: seq<nat>, i: nat)
    requires Lists(r, s) && 0 < i < |r|
    ensures Below(s, r[i]) == Below(s, r[i - 1]) + {r[i - 1]} && r[i - 1] !in Below(s, r[i - 1])
  {
    assert r[i - 1] in r;
    forall x | x in s ensures x < r[i] <==> x <= r[i - 1] { var k := Where(s, r, x); }
  }

  /** Where the migration's records list one identifier: at its rank, with its own deadline. */
  lemma SnapshotAt(box: Box, nowMs: nat, id: EnvelopeId)
    requires Stored(box, id, nowMs)
    ensures var records, i := Snapshot(box, nowMs), |Below(StoredIds(box, nowMs), id)|;
            |records| == |StoredIds(box, nowMs)| && i < |records| && records[i] == Entry(id, box.primary[id].deadline)
  {
    var s := StoredIds(box, nowMs);
    assert id in s;
    hide Below, Stored;
    AscendingLists(s);
    AscendingCounts(s);
    EntriesForEach(box, Ascending(s));
    var i := Where(s, Ascending(s), id);
    RankInOrder(s, Ascending(s), i);
  }

  /**
   A migration none of whose transactions fails: every visible record gets the position of its rank in key order,
   with its own deadline, the counter stands behind the last, and nothing else of the mailbox moves.
   */
  lemma AWholeMigration(box: Box, nowMs: nat, writes: nat, id: EnvelopeId)
    requires box.next.None? && writes * 512 >= |StoredIds(box, nowMs)| + 512 && Stored(box, id, nowMs)
    ensures var t := EnsureOrdering(box, nowMs, writes);
            var position := |Below(StoredIds(box, nowMs), id)| + 1;
            && t.next == Some(|StoredIds(box, nowMs)| + 1) && t == box.(index := t.index, next := t.next)
            && position in t.index && t.index[position] == Entry(id, box.primary[id].deadline)
            && (forall p :: p in t.index && (p == 0 || p > |StoredIds(box, nowMs)|) ==>
                  p in box.index && t.index[p] == box.index[p])
  {
    hide Below, StoredIds, Snapshot;
    SnapshotAt(box, nowMs, id);
  }

  ghost predicate DistinctIds(records: seq<Entry>) {
    forall i, j :: 0 <= i < j < |records| ==> records[i].id != records[j].id
  }

  lemma SnapshotIsDistinct(box: Box, nowMs: nat)
    ensures DistinctIds(Snapshot(box, nowMs))
  {
    var ids := Ascending(StoredIds(box, nowMs));
    AscendingLists(StoredIds(box, nowMs));
    EntriesForEach(box, ids);
  }

  // ---- the relay machine -----------------------------------------------------------------------------------

  datatype Job = Job(records: seq<Entry>, done: nat)

  datatype Relay = Relay(
    box: Box,
    job: Option<Job>,        // the running migration, lost when the process stops
    nowMs: nat,
    interrupted: bool,       // some migration stopped after committing a batch
    issued: seq<nat>         // the positions handed to envelopes, in order
  )

  const START := Relay(EMPTY_BOX, None, 0, false, [])

  datatype Event =
    | Tick(ms: nat)
    | RawWrite(record: Record)                 // a store written by a relay that had no ordering index
    | Begin                                    // read the counter, find it absent, list the records
    | WriteBatch
    | Finish                                   // write the counter
    | Stop                                     // failure or process exit in the middle of a migration
    | Send(envelope: Envelope, capMs: nat)
    | Acknowledge(id: EnvelopeId)
    | Mark(device: Device, position: nat)

  /** One atomic step; an event that cannot happen in a state changes nothing. */
  ghost function Apply(s: Relay, e: Event): Relay {
    match e
    case Tick(ms) => s.(nowMs := s.nowMs + ms)
    case RawWrite(record) =>
      if s.box.next.Some? || s.job.Some? then s
      else s.(box := s.box.(primary := s.box.primary[record.envelope.id := record]))
    case Begin =>
      if s.box.next.Some? || s.job.Some? then s
      else s.(job := Some(Job(Snapshot(s.box, s.nowMs), 0)))
    case WriteBatch =>
      if s.job.None? || s.job.value.done >= |s.job.value.records| then s else
      var job := s.job.value;
      var end := Min(job.done + BACKFILL_BATCH, |job.records|);
      s.(box := s.box.(index := Numbered(s.box.index, job.records, end)), job := Some(job.(done := end)))
    case Finish =>
      if s.job.None? || s.job.value.done != |s.job.value.records| then s
      else s.(box := s.box.(next := Some(|s.job.value.records| + 1)), job := None)
    case Stop =>
      if s.job.None? then s else s.(job := None, interrupted := s.interrupted || s.job.value.done > 0)
    case Send(envelope, capMs) =>
      if s.box.next.None? then s else
      var (box, outcome) := Save(s.box, envelope, s.nowMs, capMs);
      s.(box := box, issued := if outcome.Saved? then s.issued + [outcome.position] else s.issued)
    case Acknowledge(id) => s.(box := Delete(s.box, id))
    case Mark(device, position) => s.(box := AdvanceReadMark(s.box, device, position))
  }

  ghost function Run(s: Relay, events: seq<Event>): Relay
    decreases |events|
  {
    if events == [] then s else Run(Apply(s, events[0]), events[1..])
  }

  lemma {:induction false} RunInParts(s: Relay, first: seq<Event>, second: seq<Event>)
    ensures Run(s, first + second) == Run(Run(s, first), second)
    decreases |first|
  {
    if first == [] {
      assert first + second == second;
    } else {
      assert (first + second)[1..] == first[1..] + second;
      RunInParts(Apply(s, first[0]), first[1..], second);
    }
  }

  lemma TwoSteps(s: Relay, a: Event, b: Event)
    ensures Run(s, [a, b]) == Apply(Apply(s, a), b)
  {
    hide Apply;
    assert [a, b][1..] == [b] && [b][1..] == [];
    assert Run(Apply(Apply(s, a), b), []) == Apply(Apply(s, a), b);
  }

  lemma ThreeSteps(s: Relay, a: Event, b: Event, c: Event)
    ensures Run(s, [a, b, c]) == Apply(Apply(Apply(s, a), b), c)
  {
    hide Apply;
    assert [a, b, c][1..] == [b, c];
    TwoSteps(Apply(s, a), b, c);
  }

  lemma RunBetween(s: Relay, first: Event, middle: seq<Event>, last: Event)
    ensures Run(s, [first] + middle + [last]) == Apply(Run(Apply(s, first), middle), last)
  {
    RunInParts(s, [first] + middle, [last]);
    assert ([first] + middle)[1..] == middle;
    assert [last][1..] == [];
    assert Run(Apply(Run(s, [first] + middle), last), []) == Apply(Run(s, [first] + middle), last);
  }

  /** The records a running migration still has to account for are all on its list. */
  ghost predicate Covers(box: Box, nowMs: nat, records: seq<Entry>) {
    forall id :: Stored(box, id, nowMs) ==> Entry(id, box.primary[id].deadline) in records
  }

  ghost predicate Counting(s: Relay) {
    && (forall i, j :: 0 <= i < j < |s.issued| ==> s.issued[i] < s.issued[j])
    && (s.box.next.None? ==> s.issued == [])
    && (s.box.next.Some? ==> forall i :: 0 <= i < |s.issued| ==> s.issued[i] < s.box.next.value)
  }

  ghost predicate Migrating(s: Relay) {
    && (s.job.Some? ==>
          && s.box.next.None?
          && s.job.value.done <= |s.job.value.records|
          && (forall p :: 1 <= p <= s.job.value.done ==>
                p in s.box.index && s.box.index[p] == s.job.value.records[p - 1])
          && Covers(s.box, s.nowMs, s.job.value.records) && DistinctIds(s.job.value.records))
    && (s.box.next.Some? ==> Complete(s.box, s.nowMs))
  }

  ghost predicate Undisturbed(s: Relay) {
    !s.interrupted ==>
      && (s.box.next.Some? ==> NoTail(s.box) && Current(s.box, s.nowMs))
      && (s.box.next.None? && s.job.None? ==> s.box.index == map[])
      && (s.job.Some? ==> forall p :: p in s.box.index ==> 1 <= p <= s.job.value.done)
  }

  /** Positions start at one, and interruptions or not, the issued ones give each record its own last one. */
  ghost predicate Positioned(s: Relay) {
    0 !in s.box.index && (s.box.next.Some? ==> Placed(s.box, s.nowMs))
  }

  ghost predicate Inv(s: Relay) { Counting(s) && Migrating(s) && Undisturbed(s) && Keyed(s.box) && Positioned(s) }

  lemma FewerRecordsStayCovered(box: Box, nowMs: nat, after: Box, laterMs: nat, records: seq<Entry>)
    requires Covers(box, nowMs, records)
    requires forall id :: Stored(after, id, laterMs) ==> Stored(box, id, nowMs) && after.primary[id] == box.primary[id]
    ensures Covers(after, laterMs, records)
  {
    forall id | Stored(after, id, laterMs) ensures Entry(id, after.primary[id].deadline) in records {
      assert Stored(box, id, nowMs);
    }
  }

  lemma FinishCompletes(s: Relay)
    requires Inv(s) && s.job.Some? && s.job.value.done == |s.job.value.records|
    ensures Complete(Apply(s, Finish).box, s.nowMs)
  {
    var after := Apply(s, Finish).box;
    var records := s.job.value.records;
    forall id | Stored(after, id, s.nowMs)
      ensures exists p :: 1 <= p < after.next.value && HomeAt(after, id, p)
    {
      assert Stored(s.box, id, s.nowMs);
      var i :| 0 <= i < |records| && records[i] == Entry(id, s.box.primary[id].deadline);
      assert HomeAt(after, id, i + 1);
    }
  }

  /** An undisturbed migration gives each record exactly one position. */
  lemma FinishIsCurrent(s: Relay)
    requires Inv(s) && !s.interrupted && s.job.Some? && s.job.value.done == |s.job.value.records|
    ensures Current(Apply(s, Finish).box, s.nowMs)
  {
    var after := Apply(s, Finish).box;
    var records := s.job.value.records;
    forall id | Stored(after, id, s.nowMs)
      ensures exists p :: HomeAt(after, id, p) && IsLatest(after, id, p)
    {
      assert Stored(s.box, id, s.nowMs);
      var i :| 0 <= i < |records| && records[i] == Entry(id, s.box.primary[id].deadline);
      assert HomeAt(after, id, i + 1);
      forall q | q in after.index && after.index[q].id == id ensures q <= i + 1 {
        assert after.index[q] == records[q - 1];
      }
      assert IsLatest(after, id, i + 1);
    }
  }

  lemma FinishPlaces(s: Relay)
    requires Inv(s) && s.job.Some? && s.job.value.done == |s.job.value.records|
    ensures Placed(Apply(s, Finish).box, s.nowMs)
  {
    var after := Apply(s, Finish).box;
    var records := s.job.value.records;
    forall id | Stored(after, id, s.nowMs)
      ensures exists p :: 1 <= p < after.next.value && HomeAt(after, id, p) && !Superseded(after, p)
    {
      assert Stored(s.box, id, s.nowMs);
      var i :| 0 <= i < |records| && records[i] == Entry(id, s.box.primary[id].deadline);
      assert HomeAt(after, id, i + 1);
      forall q | q in after.index && i + 1 < q <= |records| ensures after.index[q].id != id {
        assert after.index[q] == records[q - 1];
      }
      assert !Superseded(after, i + 1);
    }
  }

  lemma FewerKeepPositioned(s: Relay, t: Relay)
    requires Positioned(s) && t.box.index == s.box.index && t.box.next == s.box.next
    requires forall id :: Stored(t.box, id, t.nowMs) ==>
               Stored(s.box, id, s.nowMs) && t.box.primary[id] == s.box.primary[id]
    ensures Positioned(t)
  {
    if s.box.next.Some? { FewerStayPlaced(s.box, s.nowMs, t.box, t.nowMs); }
  }

  lemma TickKeepsInv(s: Relay, ms: nat)
    requires Inv(s)
    ensures Inv(Apply(s, Tick(ms)))
  {
    LaterIsFewer(s.box, s.nowMs, s.nowMs + ms);
    FewerKeepPositioned(s, Apply(s, Tick(ms)));
    if s.box.next.Some? && !s.interrupted { FewerStayCurrent(s.box, s.nowMs, s.box, s.nowMs + ms); }
    if s.job.Some? {
      FewerRecordsStayCovered(s.box, s.nowMs, s.box, s.nowMs + ms, s.job.value.records);
    }
  }

  lemma AcknowledgeKeepsInv(s: Relay, id: EnvelopeId)
    requires Inv(s)
    ensures Inv(Apply(s, Acknowledge(id)))
  {
    FewerKeepPositioned(s, Apply(s, Acknowledge(id)));
    if s.box.next.Some? {
      DeleteKeepsOrdering(s.box, id, s.nowMs);
      if !s.interrupted { FewerStayCurrent(s.box, s.nowMs, Delete(s.box, id), s.nowMs); }
    }
    if s.job.Some? {
      FewerRecordsStayCovered(s.box, s.nowMs, Delete(s.box, id), s.nowMs, s.job.value.records);
    }
  }

  lemma BatchKeepsInv(s: Relay)
    requires Inv(s)
    ensures Inv(Apply(s, WriteBatch))
  {
    var after := Apply(s, WriteBatch);
    if after != s {
      FewerRecordsStayCovered(s.box, s.nowMs, after.box, s.nowMs, s.job.value.records);
    }
  }

  lemma MarkKeepsInv(s: Relay, device: Device, position: nat)
    requires Inv(s)
    ensures Inv(Apply(s, Mark(device, position)))
  {
    var after := Apply(s, Mark(device, position));
    FewerKeepPositioned(s, after);
    if s.job.Some? {
      FewerRecordsStayCovered(s.box, s.nowMs, after.box, s.nowMs, s.job.value.records);
    }
    if s.box.next.Some? {
      if !s.interrupted { FewerStayCurrent(s.box, s.nowMs, after.box, s.nowMs); }
      forall id | Stored(after.box, id, s.nowMs)
        ensures exists p :: 1 <= p < after.box.next.value && HomeAt(after.box, id, p)
      {
        assert Stored(s.box, id, s.nowMs);
        var p :| 1 <= p < s.box.next.value && HomeAt(s.box, id, p);
        assert HomeAt(after.box, id, p);
      }
    }
  }

  lemma SendKeepsInv(s: Relay, envelope: Envelope, capMs: nat)
    requires Inv(s)
    ensures Inv(Apply(s, Send(envelope, capMs)))
  {
    if s.box.next.Some? {
      SaveKeepsOrdering(s.box, envelope, s.nowMs, capMs);
      SaveKeepsPlaced(s.box, envelope, s.nowMs, capMs);
      if !s.interrupted { SaveKeepsCurrent(s.box, envelope, s.nowMs, capMs); }
    }
  }

  lemma StepKeepsInv(s: Relay, e: Event)
    requires Inv(s)
    ensures Inv(Apply(s, e))
  {
    match e
    case Tick(ms) => TickKeepsInv(s, ms);
    case RawWrite(record) =>
    case Begin => SnapshotLists(s.box, s.nowMs); SnapshotIsDistinct(s.box, s.nowMs);
    case WriteBatch => BatchKeepsInv(s);
    case Finish =>
      if s.job.Some? && s.job.value.done == |s.job.value.records| {
        FinishCompletes(s);
        FinishPlaces(s);
        if !s.interrupted { FinishIsCurrent(s); }
      }
    case Stop =>
    case Send(envelope, capMs) => SendKeepsInv(s, envelope, capMs);
    case Acknowledge(id) => AcknowledgeKeepsInv(s, id);
    case Mark(device, position) => MarkKeepsInv(s, device, position);
  }

  lemma {:induction false} RunKeepsInv(s: Relay, events: seq<Event>)
    requires Inv(s)
    ensures Inv(Run(s, events))
    decreases |events|
  {
    if events != [] {
      StepKeepsInv(s, events[0]);
      RunKeepsInv(Apply(s, events[0]), events[1..]);
    }
  }

  /**
   Index completeness.  In every reachable relay state, however often migrations were interrupted and
   retried while records left, as soon as the counter exists every live record is selectable at a
   position the counter has issued.
   */
  lemma EveryLiveRecordIsSelectable(events: seq<Event>, id: EnvelopeId)
    requires var s := Run(START, events); s.box.next.Some? && LiveRecord(s.box, id, s.nowMs)
    ensures var s := Run(START, events);
            exists p :: 1 <= p <= HighestIssued(s.box) && p in s.box.index && s.box.index[p].id == id
                && LiveAt(s.box, p, s.nowMs)
  {
    RunKeepsInv(START, events);
    var s := Run(START, events);
    var p := LiveRecordIsSelectable(s.box, id, s.nowMs);
    assert s.box.index[p].id == id;
  }

  /** Positions are handed out strictly increasing and never again, over every run. */
  lemma PositionsAreNeverReissued(events: seq<Event>)
    ensures var s := Run(START, events);
            && (forall i, j :: 0 <= i < j < |s.issued| ==> s.issued[i] < s.issued[j])
            && (forall i :: 0 <= i < |s.issued| ==> s.issued[i] <= HighestIssued(s.box))
  {
    RunKeepsInv(START, events);
  }

  /**
   If no migration was interrupted after a committed batch, no index entry lies above the counter and
   each record's own entry is the latest that names it.
   */
  lemma UninterruptedRunsHaveNoTail(events: seq<Event>)
    requires var s := Run(START, events); s.box.next.Some? && !s.interrupted
    ensures var s := Run(START, events);
            NoTail(s.box) && Complete(s.box, s.nowMs) && Current(s.box, s.nowMs) && Keyed(s.box)
  {
    RunKeepsInv(START, events);
  }

  /**
   Where the read-mark machine starts: in every reachable relay state with a counter, interruptions or not,
   each visible record has an issued entry of its own that no later issued entry supersedes.
   */
  lemma EveryReachableMailboxIsPlaced(events: seq<Event>)
    requires Run(START, events).box.next.Some?
    ensures var s := Run(START, events); Placed(s.box, s.nowMs) && Keyed(s.box) && 0 !in s.box.index
  {
    RunKeepsInv(START, events);
  }

  // ---- the migration method's effect is a run of the machine -------------------------------------------------

  function Batches(count: nat): seq<Event> { seq(count, _ => WriteBatch) }

  ghost predicate Underway(s: Relay) {
    && s.job.Some? && s.job.value.done <= |s.job.value.records|
    && s.box.index == Numbered(s.box.index, s.job.value.records, s.job.value.done)
  }

  /** The state once the running migration has numbered its records up to `end`. */
  ghost function NumberedUpTo(s: Relay, end: nat): Relay
    requires s.job.Some? && end <= |s.job.value.records|
  {
    s.(job := Some(s.job.value.(done := end)), box := s.box.(index := Numbered(s.box.index, s.job.value.records, end)))
  }

  lemma OneBatchRuns(s: Relay)
    requires Underway(s)
    ensures var end := Min(s.job.value.done + BACKFILL_BATCH, |s.job.value.records|);
            Apply(s, WriteBatch) == NumberedUpTo(s, end) && Underway(NumberedUpTo(s, end))
  {
    var end := Min(s.job.value.done + BACKFILL_BATCH, |s.job.value.records|);
    NumberedTwice(s.box.index, s.job.value.records, end, end);
  }

  lemma NumberedUpToTwice(s: Relay, some: nat, more: nat)
    requires s.job.Some? && some <= more <= |s.job.value.records|
    ensures NumberedUpTo(NumberedUpTo(s, some), more) == NumberedUpTo(s, more)
  {
    NumberedTwice(s.box.index, s.job.value.records, some, more);
  }

  lemma NumberedUpToHere(s: Relay)
    requires Underway(s)
    ensures NumberedUpTo(s, s.job.value.done) == s && Run(s, Batches(0)) == s
  {}

  lemma JobUpTo(s: Relay, end: nat)
    requires s.job.Some? && end <= |s.job.value.records|
    ensures NumberedUpTo(s, end).job == Some(s.job.value.(done := end))
  {}

  lemma FirstBatch(s: Relay, count: nat)
    requires count > 0
    ensures Run(s, Batches(count)) == Run(Apply(s, WriteBatch), Batches(count - 1))
  {
    hide Apply;
    assert Batches(count)[1..] == Batches(count - 1);
  }

  lemma {:induction false} BatchesRun(s: Relay, count: nat)
    requires Underway(s)
    ensures Run(s, Batches(count))
            == NumberedUpTo(s, Min(s.job.value.done + count * BACKFILL_BATCH, |s.job.value.records|))
    decreases count
  {
    var size := |s.job.value.records|;
    if count == 0 {
      NumberedUpToHere(s);
    } else {
      var mid := Min(s.job.value.done + BACKFILL_BATCH, size);
      var end := Min(s.job.value.done + count * BACKFILL_BATCH, size);
      OneBatchRuns(s);
      NumberedUpToTwice(s, mid, end);
      FirstBatch(s, count);
      JobUpTo(s, mid);
      assert Min(mid + (count - 1) * BACKFILL_BATCH, size) == end;
      hide Apply, Run, NumberedUpTo, Underway, Batches;
      BatchesRun(NumberedUpTo(s, mid), count - 1);
    }
  }

  /** The events of a migration that commits `writes` transactions and then finishes or stops. */
  ghost function MigrationEvents(box: Box, nowMs: nat, writes: nat): seq<Event> {
    [Begin] + Batches(writes) + [LastEvent(box, nowMs, writes)]
  }

  ghost function LastEvent(box: Box, nowMs: nat, writes: nat): Event {
    if writes * BACKFILL_BATCH >= |Snapshot(box, nowMs)| + BACKFILL_BATCH then Finish else Stop
  }

  lemma MigrationEnd(s: Relay, begun: Relay, writes: nat, last: Event)
    requires begun == Apply(s, Begin) && Underway(begun)
    ensures var end := Min(begun.job.value.done + writes * BACKFILL_BATCH, |begun.job.value.records|);
            Run(s, [Begin] + Batches(writes) + [last]) == Apply(NumberedUpTo(begun, end), last)
  {
    BatchesRun(begun, writes);
    RunBetween(s, Begin, Batches(writes), last);
  }

  /** Whatever number of its transactions commit, the migration's effect is a run of the machine. */
  lemma EnsureOrderingIsARun(s: Relay, writes: nat)
    requires s.box.next.None? && s.job.None?
    ensures Run(s, MigrationEvents(s.box, s.nowMs, writes)).box == EnsureOrdering(s.box, s.nowMs, writes)
  {
    BeginIsUnderway(s);
    MigrationEnd(s, Apply(s, Begin), writes, LastEvent(s.box, s.nowMs, writes));
  }

  lemma BeginIsUnderway(s: Relay)
    requires s.box.next.None? && s.job.None?
    ensures Underway(Apply(s, Begin))
  {
    assert Numbered(s.box.index, Snapshot(s.box, s.nowMs), 0) == s.box.index;
  }
}
