/**
 What an interrupted migration can leave behind: index entries above the counter.  They are harmless for
 completeness, but a page that ends on one names a cursor the relay has not issued yet, and the next
 envelope is then given a position the recipient already holds as judged.
 */
module StaleTail {
  import opened Wrappers
  import opened MailboxState
  import opened Paging
  import opened Backfill
  import MarkSafety
  import RM = ReadMark

  /** With one envelope a page, a walk stops on each live entry that has another behind it. */
  lemma SingleItemPage(box: Box, nowMs: nat, limit: nat, position: nat, later: nat)
    requires limit == 1
    requires 1 <= position < later && LiveAt(box, position, nowMs) && LiveAt(box, later, nowMs)
    ensures var page := Page(box, nowMs, limit, 0, position - 1);
            |page.items| == 1 && page.items[0].position == position && page.next == Some(position)
  {
    AtMostLimit(box, nowMs, limit, position - 1);
    TwoLiveEntries(box, nowMs, position, later);
    PageShape(box, nowMs, limit, 0, position - 1);
    PageCovers(box, nowMs, limit, 0, position - 1);
    assert Holds(Page(box, nowMs, limit, 0, position - 1).items, position);
  }

  lemma AtMostLimit(box: Box, nowMs: nat, limit: nat, after: nat)
    requires limit > 0
    ensures |Page(box, nowMs, limit, 0, after).items| <= limit
  {
    PageShape(box, nowMs, limit, 0, after);
    PageIsTheLongestAdmissiblePrefix(box, nowMs, limit, 0, after, |Page(box, nowMs, limit, 0, after).items|);
  }

  lemma TwoLiveEntries(box: Box, nowMs: nat, position: nat, later: nat)
    requires 1 <= position < later && LiveAt(box, position, nowMs) && LiveAt(box, later, nowMs)
    ensures |Scan(box, nowMs, position - 1)| >= 2
  {
    ScanIsExactlyTheLiveEntries(box, nowMs, position - 1);
    assert Holds(Scan(box, nowMs, position - 1), position) && Holds(Scan(box, nowMs, position - 1), later);
  }

  /**
   Exactly when a page can name a cursor above every issued position: when two live entries lie there.
   Since the poll route refuses such a position, this is also when an honest walk can be refused its
   own token.
   */
  lemma CursorsStayWithinIssuedIff(box: Box, nowMs: nat)
    ensures (forall limit: nat, byteBudget: int, after: nat :: limit > 0 ==>
               var page := Page(box, nowMs, limit, byteBudget, after);
               page.next.Some? ==> page.next.value <= HighestIssued(box))
            <==> !(exists p, q :: HighestIssued(box) < p < q && LiveAt(box, p, nowMs) && LiveAt(box, q, nowMs))
  {
    if exists p, q :: HighestIssued(box) < p < q && LiveAt(box, p, nowMs) && LiveAt(box, q, nowMs) {
      var p, q :| HighestIssued(box) < p < q && LiveAt(box, p, nowMs) && LiveAt(box, q, nowMs);
      SingleItemPage(box, nowMs, 1, p, q);
      assert Page(box, nowMs, 1, 0, p - 1).next.value > HighestIssued(box);
    } else {
      forall limit: nat, byteBudget: int, after: nat | limit > 0
        ensures var page := Page(box, nowMs, limit, byteBudget, after);
                page.next.Some? ==> page.next.value <= HighestIssued(box)
      {
        PageCovers(box, nowMs, limit, byteBudget, after);
        var page := Page(box, nowMs, limit, byteBudget, after);
        if page.next.Some? {
          assert LiveAt(box, page.items[|page.items| - 1].position, nowMs);
        }
      }
    }
  }

  // ---- a run that goes wrong --------------------------------------------------------------------------------

  function Letter(id: EnvelopeId): Envelope {
    Envelope(id, id, 1, 1, 2, 2, Wrapped(id), 0, 1000000, true, 100)
  }

  function OldRecord(id: EnvelopeId): Record { Record(Letter(id), 0) }

  function Arrivals(): seq<Event> {
    [Tick(5000), RawWrite(OldRecord(0)), RawWrite(OldRecord(1))] + [RawWrite(OldRecord(2)), RawWrite(OldRecord(3))]
  }

  /** Four old records; the migration commits its batch and stops; two records are acknowledged; it is retried. */
  function StaleRun(): seq<Event> {
    Arrivals() + ([Begin, WriteBatch, Stop] + ([Acknowledge(0), Acknowledge(1)] + [Begin, WriteBatch, Finish]))
  }

  function FourRecords(): map<EnvelopeId, Record> {
    map[0 := OldRecord(0), 1 := OldRecord(1), 2 := OldRecord(2), 3 := OldRecord(3)]
  }

  function FourEntries(): map<nat, Entry> {
    map[1 := Entry(0, 0), 2 := Entry(1, 0), 3 := Entry(2, 0), 4 := Entry(3, 0)]
  }

  function StaleBox(): Box {
    Box(map[2 := OldRecord(2), 3 := OldRecord(3)],
        map[1 := Entry(2, 0), 2 := Entry(3, 0), 3 := Entry(2, 0), 4 := Entry(3, 0)], Some(3), map[])
  }

  lemma SnapshotIs(box: Box, nowMs: nat, ids: seq<EnvelopeId>)
    requires forall id :: Stored(box, id, nowMs) <==> id in ids
    requires forall i, j :: 0 <= i < j < |ids| ==> ids[i] < ids[j]
    ensures Snapshot(box, nowMs) == EntriesFor(box, ids)
  {
    assert Lists(ids, StoredIds(box, nowMs));
    AscendingIsUnique(StoredIds(box, nowMs), ids);
  }

  lemma OldRecordsArrive()
    ensures Run(START, Arrivals()) == Relay(Box(FourRecords(), map[], None, map[]), None, 5000, false, [])
  {
    var first, second := [Tick(5000), RawWrite(OldRecord(0)), RawWrite(OldRecord(1))], [RawWrite(OldRecord(2)),
        RawWrite(OldRecord(3))];
    ThreeSteps(START, Tick(5000), RawWrite(OldRecord(0)), RawWrite(OldRecord(1)));
    var s := Run(START, first);
    TwoSteps(s, RawWrite(OldRecord(2)), RawWrite(OldRecord(3)));
    RunInParts(START, first, second);
    assert Run(s, second).box.primary == FourRecords();
  }

  /** A migration of one batch: begin, write, end. */
  lemma OneBatchMigration(s: Relay, ids: seq<EnvelopeId>, last: Event)
    requires s.job.None? && s.box.next.None? && 0 < |ids| <= BACKFILL_BATCH
    requires forall id :: Stored(s.box, id, s.nowMs) <==> id in ids
    requires forall i, j :: 0 <= i < j < |ids| ==> ids[i] < ids[j]
    ensures |EntriesFor(s.box, ids)| == |ids|
    ensures var entries := EntriesFor(s.box, ids);
            Run(s, [Begin, WriteBatch, last])
            == Apply(s.(job := Some(Job(entries, |ids|)), box := s.box.(index := Numbered(s.box.index, entries,
                |ids|))), last)
  {
    SnapshotIs(s.box, s.nowMs, ids);
    EntriesForEach(s.box, ids);
    ThreeSteps(s, Begin, WriteBatch, last);
  }

  lemma FirstNumbering(primary: map<EnvelopeId, Record>)
    requires primary == FourRecords()
    ensures |EntriesFor(Box(primary, map[], None, map[]), [0, 1, 2, 3])| == 4
    ensures Numbered(map[], EntriesFor(Box(primary, map[], None, map[]), [0, 1, 2, 3]), 4) == FourEntries()
  {
    EntriesForEach(Box(primary, map[], None, map[]), [0, 1, 2, 3]);
  }

  lemma FirstMigrationStops(s: Relay)
    requires s == Relay(Box(FourRecords(), map[], None, map[]), None, 5000, false, [])
    ensures Run(s, [Begin, WriteBatch, Stop]) == s.(interrupted := true, box := s.box.(index := FourEntries()))
  {
    OneBatchMigration(s, [0, 1, 2, 3], Stop);
    FirstNumbering(s.box.primary);
  }

  lemma SecondNumbering(box: Box)
    requires box == Box(StaleBox().primary, FourEntries(), None, map[])
    ensures |EntriesFor(box, [2, 3])| == 2
    ensures Numbered(box.index, EntriesFor(box, [2, 3]), 2) == StaleBox().index
  {
    EntriesForEach(box, [2, 3]);
    assert EntriesFor(box, [2, 3])[0] == Entry(2, 0) && EntriesFor(box, [2, 3])[1] == Entry(3, 0);
  }

  lemma SecondMigrationLeavesATail(s: Relay)
    requires s.job.None? && s.nowMs == 5000
    requires s.box == Box(StaleBox().primary, FourEntries(), None, map[])
    ensures Run(s, [Begin, WriteBatch, Finish]) == s.(box := StaleBox())
  {
    OneBatchMigration(s, [2, 3], Finish);
    SecondNumbering(s.box);
  }

  lemma TwoLeave(s: Relay)
    requires s.box.primary == FourRecords()
    ensures Run(s, [Acknowledge(0), Acknowledge(1)]) == s.(box := s.box.(primary := StaleBox().primary))
  {
    TwoSteps(s, Acknowledge(0), Acknowledge(1));
    assert FourRecords() - {0} - {1} == StaleBox().primary;
  }

  lemma StaleRunReaches()
    ensures Run(START, StaleRun()) == Relay(StaleBox(), None, 5000, true, [])
  {
    var stopped, leave, retried := [Begin, WriteBatch, Stop], [Acknowledge(0), Acknowledge(1)], [Begin, WriteBatch,
        Finish];
    OldRecordsArrive();
    var s5 := Run(START, Arrivals());
    FirstMigrationStops(s5);
    var s8 := Run(s5, stopped);
    TwoLeave(s8);
    var s10 := Run(s8, leave);
    SecondMigrationLeavesATail(s10);
    RunInParts(s8, leave, retried);
    RunInParts(s5, stopped, leave + retried);
    RunInParts(START, Arrivals(), stopped + (leave + retried));
  }

  lemma TailIsServed()
    ensures var page := Page(StaleBox(), 5000, 1, 0, 2);
            page.next == Some(3) && forall i :: 0 <= i < |page.items| ==> page.items[i].envelope.id != 9
  {
    var box := StaleBox();
    assert LiveAt(box, 3, 5000) && LiveAt(box, 4, 5000);
    SingleItemPage(box, 5000, 1, 3, 4);
    PageCovers(box, 5000, 1, 0, 2);
  }

  lemma NextSendOverwritesTheTail(s: Relay, envelope: Envelope)
    requires s == Relay(StaleBox(), None, 5000, true, []) && envelope.id == 9 && envelope.expiresAtMs == 1000000
    ensures var t := Apply(s, Send(envelope, 1000000));
            && t.issued == [3] && LiveAt(t.box, 3, t.nowMs) && t.box.index[3].id == 9 && HighestIssued(t.box) == 3
  {
    var t := Apply(s, Send(envelope, 1000000));
    assert t.box.index[3] == Entry(9, 1000);
    assert t.box.primary[9] == Record(envelope, 1000);
  }

  /**
   The failing input.  After that run a one-envelope page from position 2 names cursor 3, which the
   relay has not issued; the next envelope stored is given position 3, was not in that page, and the
   relay now accepts 3 as a read position.
   */
  lemma AnInterruptedMigrationCanHideAnEnvelope()
    ensures var s := Run(START, StaleRun());
            var page := Page(s.box, s.nowMs, 1, 0, 2);
            var t := Apply(s, Send(Letter(9), 1000000));
            && s.interrupted
            && page.next == Some(3) && HighestIssued(s.box) == 2
            && (forall i :: 0 <= i < |page.items| ==> page.items[i].envelope.id != 9)
            && t.issued == [3] && LiveAt(t.box, 3, t.nowMs) && t.box.index[3].id == 9
            && HighestIssued(t.box) == 3
  {
    StaleRunReaches();
    TailIsServed();
    NextSendOverwritesTheTail(Run(START, StaleRun()), Letter(9));
  }

  /** Its two entries above the counter, both live, can be served before the counter reaches the first. */
  lemma TheStaleMailboxIsArmed()
    ensures RM.Arming(StaleBox(), 5000, 3, 4)
  {
    var box := StaleBox();
    assert {box.index[3].id, box.index[4].id} - RM.LiveIds(box, 5000) == {};
  }

  /**
   The same run continued through a report.  A fresh device of that mailbox has a run after which its mark is
   at 3, where a live envelope lies that it was never offered.
   */
  lemma AnInterruptedMigrationBreaksTheReadMark(s: RM.System) returns (events: seq<RM.Event>)
    requires s.box == Run(START, StaleRun()).box && s.nowMs == 5000
    requires s.walk.Idle? && s.rewalk.None? && s.reported == {} && s.judged == {} && s.held == {} && s.since == {}
    ensures var t := RM.Run(s, events);
            && ReadMark(t.box, t.device) == 3 && LiveAt(t.box, 3, t.nowMs)
            && ItemAt(t.box, 3) !in t.judged && !RM.MarkIsSafe(t)
  {
    StaleRunReaches();
    EveryReachableMailboxIsPlaced(StaleRun());
    TheStaleMailboxIsArmed();
    events := MarkSafety.AnArmedMarkIsUnsafe(s, 3, 4);
  }

  /**
   Read-mark safety over relay histories.  Whatever happened to a relay, interrupted migrations included, a
   fresh device of its mailbox is safe over every run if and only if the mailbox is not armed.
   */
  lemma MarkSafetyOfReachableMailboxes(history: seq<Event>, s: RM.System)
    requires var r := Run(START, history); r.box.next.Some? && s.box == r.box && s.nowMs == r.nowMs
    requires s.device !in s.box.marks
    requires s.walk.Idle? && s.rewalk.None? && s.reported == {} && s.judged == {} && s.held == {} && s.since == {}
    ensures (forall events: seq<RM.Event> :: RM.MarkIsSafe(RM.Run(s, events))) <==> !RM.Armed(s.box, s.nowMs)
    ensures !Run(START, history).interrupted ==> !RM.Armed(s.box, s.nowMs)
  {
    hide RM.Run, RM.MarkIsSafe;
    EveryReachableMailboxIsPlaced(history);
    MarkSafety.MarkIsSafeIffUnarmed(s);
    if !Run(START, history).interrupted { UninterruptedRunsHaveNoTail(history); }
  }

  // ---- records the migration never sees --------------------------------------------------------------------------

  /**
   A live record stored behind the repository's back is made selectable by the migration exactly when
   the mailbox has never allocated a position; once the counter exists it stays out of every page.
   */
  lemma RawRecordsAreFoundOnlyBeforeTheCounter(box: Box, id: EnvelopeId, nowMs: nat, writes: nat)
    requires LiveRecord(box, id, nowMs)
    requires forall p :: p in box.index ==> box.index[p].id != id
    requires writes * BACKFILL_BATCH >= |Snapshot(box, nowMs)| + BACKFILL_BATCH
    ensures var after := EnsureOrdering(box, nowMs, writes);
            (exists p :: p in after.index && after.index[p].id == id && LiveAt(after, p, nowMs)) <==> box.next.None?
  {
    if box.next.None? {
      SnapshotLists(box, nowMs);
      var records := Snapshot(box, nowMs);
      var i :| 0 <= i < |records| && records[i] == Entry(id, box.primary[id].deadline);
      var after := EnsureOrdering(box, nowMs, writes);
      assert after.index[i + 1] == records[i];
      assert LiveAt(after, i + 1, nowMs);
    }
  }
}
