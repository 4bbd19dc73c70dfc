/**
 The relay's mailbox repository for one mailbox, as the object it is: four groups of keys updated in
 place, iterators that visit keys in order, and transactions that can fail between one another.  Each
 method is proved against the value-level operation of the same name.
 */
module MailboxRepository {
  import opened Wrappers
  import opened Decimals
  import opened MailboxState
  import opened Paging
  import opened Backfill
  import opened Sets

  datatype RepositoryError = EnvelopeIdConflict | InvalidCursor | StoreFailed

  /** One selection as the repository returns it: envelopes and an opaque continuation token. */
  datatype EnvelopeBatch = EnvelopeBatch(envelopes: seq<Envelope>, nextCursor: Option<string>)

  datatype Occupancy = Occupancy(liveEnvelopes: nat, alreadyStored: bool)

  function Envelopes(items: seq<Item>): (r: seq<Envelope>)
    ensures |r| == |items|
    ensures forall i :: 0 <= i < |items| ==> r[i] == items[i].envelope
  {
    seq(|items|, i requires 0 <= i < |items| => items[i].envelope)
  }

  /** What the repository hands out for a page. */
  ghost function Rendered(page: Batch): EnvelopeBatch {
    EnvelopeBatch(Envelopes(page.items), if page.next.Some? then Some(EncodeMailboxCursor(page.next.value)) else None)
  }

  /** The envelopes one sender keeps live in the mailbox. */
  ghost function LiveOf(box: Box, sender: Identity, nowMs: nat): set<EnvelopeId> {
    set id | id in box.primary && LiveRecord(box, id, nowMs) && box.primary[id].envelope.sender == sender
  }

  method First(keys: set<nat>) returns (least: nat)
    requires keys != {}
    ensures least in keys && forall k :: k in keys ==> least <= k
  {
    least :| least in keys;
    var rest := keys - {least};
    while rest != {}
      invariant least in keys && rest <= keys
      invariant forall k :: k in keys ==> least <= k || k in rest
      decreases rest
    {
      var k :| k in rest;
      if k < least { least := k; }
      rest := rest - {k};
    }
  }

  // ---- the selection loop's steps --------------------------------------------------------------------

  /** The scan is what was taken followed by what is ahead, and the fill count agrees. */
  ghost predicate Selecting(scan: seq<Item>, ahead: seq<Item>, envelopes: seq<Envelope>, limit: nat, byteBudget: int,
                            usedBytes: nat, lastPosition: nat) {
    var n := |envelopes|;
    && n <= |scan| && scan[n..] == ahead && envelopes == Envelopes(scan[..n])
    && Fill(scan, limit, byteBudget, 0, 0) == n + Fill(ahead, limit, byteBudget, usedBytes, n)
    && (n > 0 ==> lastPosition == scan[n - 1].position)
  }

  lemma TakeOne(scan: seq<Item>, ahead: seq<Item>, envelopes: seq<Envelope>, limit: nat, byteBudget: int,
                usedBytes: nat, lastPosition: nat)
    requires Selecting(scan, ahead, envelopes, limit, byteBudget, usedBytes, lastPosition)
    requires ahead != [] && |envelopes| < limit
    requires !(byteBudget > 0 && |envelopes| > 0 && usedBytes + Cost(ahead[0].envelope) > byteBudget)
    ensures Selecting(scan, ahead[1..], envelopes + [ahead[0].envelope], limit, byteBudget,
                      usedBytes + Cost(ahead[0].envelope), ahead[0].position)
  {
    var n := |envelopes|;
    assert scan[n] == ahead[0];
    assert scan[..n + 1] == scan[..n] + [scan[n]];
    assert scan[n + 1..] == ahead[1..];
  }

  lemma SelectionDone(view: Box, nowMs: nat, resumeAfter: nat, scan: seq<Item>, ahead: seq<Item>,
      envelopes: seq<Envelope>,
                      limit: nat, byteBudget: int, usedBytes: nat, lastPosition: nat)
    requires limit > 0 && scan == Scan(view, nowMs, resumeAfter)
    requires Selecting(scan, ahead, envelopes, limit, byteBudget, usedBytes, lastPosition)
    requires ahead == [] || (envelopes != [] && Fill(ahead, limit, byteBudget, usedBytes, |envelopes|) == 0)
    ensures EnvelopeBatch(envelopes, if ahead != [] then Some(EncodeMailboxCursor(lastPosition)) else None)
            == Rendered(Page(view, nowMs, limit, byteBudget, resumeAfter))
  {
    assert Fill(scan, limit, byteBudget, 0, 0) == |envelopes|;
    assert |envelopes| < |scan| <==> ahead != [];
  }

  lemma StopHere(ahead: seq<Item>, limit: nat, byteBudget: int, usedBytes: nat, taken: nat)
    requires ahead != [] && (taken >= limit || (byteBudget > 0 && taken > 0
        && usedBytes + Cost(ahead[0].envelope) > byteBudget))
    ensures Fill(ahead, limit, byteBudget, usedBytes, taken) == 0
  {}

  /** The next index key after `at` is where the scan continues. */
  lemma NextEntry(box: Box, nowMs: nat, at: nat, position: nat, rest: set<nat>)
    requires rest == (set p | p in box.index.Keys && p > at)
    requires position in rest && forall p :: p in rest ==> position <= p
    ensures LiveAt(box, position, nowMs) ==>
              Scan(box, nowMs, at) == [Item(position, box.primary[box.index[position].id].envelope)] + Scan(box, nowMs,
                  position)
    ensures !LiveAt(box, position, nowMs) ==> Scan(box, nowMs, at) == Scan(box, nowMs, position)
    ensures (set p | p in box.index.Keys && p > position) == rest - {position}
  {
    assert forall p :: at + 1 <= p < position ==> p !in box.index by {
      assert forall p :: p in box.index && p > at ==> p in rest;
    }
    SkipGap(box, nowMs, at + 1, position, Top(box.index));
    assert position <= Top(box.index);
  }

  lemma NothingAhead(box: Box, nowMs: nat, at: nat, rest: set<nat>)
    requires rest == (set p | p in box.index.Keys && p > at) && rest == {}
    ensures Scan(box, nowMs, at) == []
  {
    assert forall p :: p in box.index && p > at ==> p in rest;
    var top := Top(box.index);
    if at + 1 <= top {
      SkipGap(box, nowMs, at + 1, top + 1, top);
    }
  }

  /** The primary keys an iterator still shows, in key order. */
  method ListRecords(view: Box, nowMs: nat) returns (records: seq<Entry>)
    ensures records == Snapshot(view, nowMs)
  {
    var rest := set id | id in view.primary && Stored(view, id, nowMs);
    ghost var ids: seq<nat> := [];
    records := [];
    assert rest == StoredIds(view, nowMs);
    while rest != {}
      invariant rest <= StoredIds(view, nowMs)
      invariant ids + Ascending(rest) == Ascending(StoredIds(view, nowMs))
      invariant records == EntriesFor(view, ids)
      decreases rest
    {
      var id := First(rest);
      ListOneMore(view, ids, rest, id);
      records := records + [EntryFor(view, id)];
      ids := ids + [id];
      rest := rest - {id};
    }
    assert ids + Ascending({}) == ids;
  }

  lemma ListOneMore(view: Box, ids: seq<nat>, rest: set<nat>, id: nat)
    requires id in rest && forall x :: x in rest ==> id <= x
    ensures (ids + [id]) + Ascending(rest - {id}) == ids + Ascending(rest)
    ensures EntriesFor(view, ids + [id]) == EntriesFor(view, ids) + [EntryFor(view, id)]
  {
    assert Least(rest) == id;
    assert ids + ([id] + Ascending(rest - {id})) == (ids + [id]) + Ascending(rest - {id});
    assert (ids + [id])[..|ids|] == ids;
  }

  /** What selection has put together so far. */
  datatype Selection = Selection(envelopes: seq<Envelope>, usedBytes: nat, lastPosition: nat, hasMore: bool)

  ghost predicate InProgress(view: Box, nowMs: nat, limit: nat, byteBudget: int, resumeAfter: nat, at: nat,
      s: Selection) {
    !s.hasMore &&
    Selecting(Scan(view, nowMs, resumeAfter), Scan(view, nowMs, at), s.envelopes, limit, byteBudget, s.usedBytes,
        s.lastPosition)
  }

  ghost predicate Finished(view: Box, nowMs: nat, limit: nat, byteBudget: int, resumeAfter: nat, s: Selection) {
    EnvelopeBatch(s.envelopes, if s.hasMore then Some(EncodeMailboxCursor(s.lastPosition)) else None)
    == Rendered(Page(view, nowMs, limit, byteBudget, resumeAfter))
  }

  /** One index entry: skipped when it leads to no live record, taken, or the reason to stop. */
  method Visit(view: Box, position: nat, limit: nat, byteBudget: int, nowMs: nat, s: Selection,
               ghost resumeAfter: nat, ghost at: nat, ghost rest: set<nat>)
    returns (t: Selection)
    requires limit > 0 && InProgress(view, nowMs, limit, byteBudget, resumeAfter, at, s)
    requires rest == (set p | p in view.index.Keys && p > at) && position in rest
        && forall p :: p in rest ==> position <= p
    ensures !t.hasMore ==> InProgress(view, nowMs, limit, byteBudget, resumeAfter, position, t)
    ensures t.hasMore ==> Finished(view, nowMs, limit, byteBudget, resumeAfter, t)
  {
    NextEntry(view, nowMs, at, position, rest);
    if !LiveAt(view, position, nowMs) { return s; }
    ghost var scan, ahead := Scan(view, nowMs, resumeAfter), Scan(view, nowMs, at);
    var envelope := view.primary[view.index[position].id].envelope;
    var n := |s.envelopes|;
    if n >= limit || (byteBudget > 0 && n > 0 && s.usedBytes + Cost(envelope) > byteBudget) {
      StopHere(ahead, limit, byteBudget, s.usedBytes, n);
      SelectionDone(view, nowMs, resumeAfter, scan, ahead, s.envelopes, limit, byteBudget, s.usedBytes, s.lastPosition);
      return s.(hasMore := true);
    }
    TakeOne(scan, ahead, s.envelopes, limit, byteBudget, s.usedBytes, s.lastPosition);
    assert ahead[1..] == Scan(view, nowMs, position);
    t := Selection(s.envelopes + [envelope], s.usedBytes + Cost(envelope), position, false);
  }

  lemma SelectionStarts(view: Box, nowMs: nat, limit: nat, byteBudget: int, resumeAfter: nat)
    ensures InProgress(view, nowMs, limit, byteBudget, resumeAfter, resumeAfter, Selection([], 0, 0, false))
  {
    var scan := Scan(view, nowMs, resumeAfter);
    assert scan[0..] == scan;
  }

  lemma SelectionExhausted(view: Box, nowMs: nat, limit: nat, byteBudget: int, resumeAfter: nat, at: nat, s: Selection)
    requires limit > 0 && InProgress(view, nowMs, limit, byteBudget, resumeAfter, at, s)
    requires (set p | p in view.index.Keys && p > at) == {}
    ensures Finished(view, nowMs, limit, byteBudget, resumeAfter, s)
  {
    NothingAhead(view, nowMs, at, {});
    SelectionDone(view, nowMs, resumeAfter, Scan(view, nowMs, resumeAfter), [], s.envelopes, limit, byteBudget,
                  s.usedBytes, s.lastPosition);
  }

  /** The selection loop over the ordering index. */
  method Select(view: Box, limit: nat, byteBudget: int, resumeAfter: nat, nowMs: nat) returns (batch: EnvelopeBatch)
    requires limit > 0
    ensures batch == Rendered(Page(view, nowMs, limit, byteBudget, resumeAfter))
  {
    var s := Selection([], 0, 0, false);
    ghost var at := resumeAfter;
    var rest := set p | p in view.index.Keys && p > resumeAfter;
    SelectionStarts(view, nowMs, limit, byteBudget, resumeAfter);
    while rest != {} && !s.hasMore
      invariant !s.hasMore ==>
        rest == (set p | p in view.index.Keys && p > at)
            && InProgress(view, nowMs, limit, byteBudget, resumeAfter, at, s)
      invariant s.hasMore ==> Finished(view, nowMs, limit, byteBudget, resumeAfter, s)
      decreases rest
    {
      var position := First(rest);
      NextEntry(view, nowMs, at, position, rest);
      s := Visit(view, position, limit, byteBudget, nowMs, s, resumeAfter, at, rest);
      rest := rest - {position};
      at := position;
    }
    if !s.hasMore {
      SelectionExhausted(view, nowMs, limit, byteBudget, resumeAfter, at, s);
    }
    batch := EnvelopeBatch(s.envelopes, if s.hasMore then Some(EncodeMailboxCursor(s.lastPosition)) else None);
  }

  /**
   What one sender occupies: an identifier already stored answers at once; otherwise the mailbox is
   scanned and the count stops at the limit.
   */
  method Occupied(view: Box, sender: Identity, id: EnvelopeId, countLimit: nat, nowMs: nat) returns (o: Occupancy)
    ensures o.alreadyStored <==> Stored(view, id, nowMs)
    ensures !o.alreadyStored ==>
              o.liveEnvelopes == if countLimit > 0 then Min(|LiveOf(view, sender, nowMs)|, countLimit)
                                 else |LiveOf(view, sender, nowMs)|
  {
    if Stored(view, id, nowMs) { return Occupancy(0, true); }
    var rest := view.primary.Keys;
    var count := 0;
    ghost var counted: set<EnvelopeId> := {};
    while rest != {}
      invariant rest <= view.primary.Keys && count == |counted|
      invariant counted == set i | i in LiveOf(view, sender, nowMs) && i !in rest
      invariant countLimit > 0 ==> count <= countLimit
      decreases rest
    {
      if countLimit > 0 && count >= countLimit {
        SubsetSize(counted, LiveOf(view, sender, nowMs));
        return Occupancy(count, false);
      }
      var key := First(rest);
      rest := rest - {key};
      if LiveRecord(view, key, nowMs) && view.primary[key].envelope.sender == sender {
        count := count + 1;
        counted := counted + {key};
      }
    }
    assert counted == LiveOf(view, sender, nowMs);
    o := Occupancy(count, false);
  }

  class Repository {
    var primary: map<EnvelopeId, Record>
    var index: map<nat, Entry>
    var next: Option<nat>
    var marks: map<Device, nat>
    const retentionCapMs: nat

    ghost function State(): Box
      reads this
    {
      Box(primary, index, next, marks)
    }

    constructor (retentionCapMs: nat)
      ensures State() == EMPTY_BOX && this.retentionCapMs == retentionCapMs
    {
      primary, index, next, marks := map[], map[], None, map[];
      this.retentionCapMs := retentionCapMs;
    }

    /**
     Gives every record a position if the mailbox has never allocated one.  `writes` is how many of its
     transactions commit before one fails.
     */
    method EnsureMailboxOrdering(nowMs: nat, writes: nat) returns (ok: bool)
      modifies this`index, this`next
      ensures State() == EnsureOrdering(old(State()), nowMs, writes)
      ensures ok <==> next.Some?
    {
      if next.Some? { return true; }
      ghost var before := State();
      var view := Box(primary, index, next, marks);
      var records := ListRecords(view, nowMs);
      var start, committed := 0, 0;
      assert Numbered(index, records, 0) == index;
      while start < |records|
        invariant committed <= writes && start == Min(committed * BACKFILL_BATCH, |records|)
        invariant State() == before.(index := Numbered(before.index, records, start))
        decreases |records| - start
      {
        if committed == writes { return false; }
        var end := Min(start + BACKFILL_BATCH, |records|);
        NumberBatch(records, start, end, before.index);
        start, committed := end, committed + 1;
      }
      if writes * BACKFILL_BATCH < |records| + BACKFILL_BATCH {
        return false;
      }
      next := Some(|records| + 1);
      ok := true;
    }

    /** One backfill transaction: consecutive records at consecutive positions. */
    method NumberBatch(records: seq<Entry>, start: nat, end: nat, ghost before: map<nat, Entry>)
      requires start <= end <= |records|
      requires index == Numbered(before, records, start)
      modifies this`index
      ensures index == Numbered(before, records, end)
    {
      hide Numbered;
      var position := start;
      while position < end
        invariant start <= position <= end
        invariant index == Numbered(before, records, position)
      {
        NumberedOneMore(before, records, position);
        index := index[position + 1 := records[position]];
        position := position + 1;
      }
    }

    method SaveEnvelope(envelope: Envelope, nowMs: nat, writes: nat) returns (r: Result<(), RepositoryError>)
      modifies this`primary, this`index, this`next
      ensures var ordered := EnsureOrdering(old(State()), nowMs, writes);
              if ordered.next.None? then State() == ordered && r == Err(StoreFailed)
              else var (saved, outcome) := Save(ordered, envelope, nowMs, retentionCapMs);
                   State() == saved && r == if outcome.Conflict? then Err(EnvelopeIdConflict) else Ok(())
    {
      var ok := EnsureMailboxOrdering(nowMs, writes);
      if !ok { return Err(StoreFailed); }
      var id := envelope.id;
      if id in primary && Shown(primary[id].deadline, nowMs) {
        if primary[id].envelope == envelope { return Ok(()); }
        return Err(EnvelopeIdConflict);
      }
      var position := AllocatePosition();
      var deadline := RetentionDeadline(envelope.expiresAtMs, nowMs, retentionCapMs);
      primary := primary[id := Record(envelope, deadline)];
      index := index[position := Entry(id, deadline)];
      r := Ok(());
    }

    method AllocatePosition() returns (position: nat)
      requires next.Some?
      modifies this`next
      ensures position == (if old(next).value == 0 then 1 else old(next).value) && next == Some(position + 1)
    {
      position := if next.value == 0 then 1 else next.value;
      next := Some(position + 1);
    }

    /**
     Selects up to `limit` envelopes after a continuation token, both bounds applied while selecting.
     */
    method GetEnvelopeBatchFrom(limit: nat, byteBudget: int, cursor: string, nowMs: nat, writes: nat)
      returns (r: Result<EnvelopeBatch, RepositoryError>)
      modifies this`index, this`next
      ensures var resume := DecodeMailboxCursor(cursor);
              var ordered := EnsureOrdering(old(State()), nowMs, writes);
              if resume.Err? then State() == old(State()) && r == Err(InvalidCursor)
              else if limit == 0 then State() == old(State()) && r == Ok(EnvelopeBatch([], None))
              else State() == ordered &&
                   r == if ordered.next.None? then Err(StoreFailed)
                        else Ok(Rendered(Page(ordered, nowMs, limit, byteBudget, resume.value)))
    {
      var resume := DecodeMailboxCursor(cursor);
      if resume.Err? { return Err(InvalidCursor); }
      if limit == 0 { return Ok(EnvelopeBatch([], None)); }
      var ok := EnsureMailboxOrdering(nowMs, writes);
      if !ok { return Err(StoreFailed); }
      var batch := Select(Box(primary, index, next, marks), limit, byteBudget, resume.value, nowMs);
      r := Ok(batch);
    }

    method DeleteEnvelope(id: EnvelopeId)
      modifies this`primary
      ensures State() == Delete(old(State()), id)
    {
      primary := primary - {id};
    }

    /** The acknowledgement of a list of envelopes: one delete transaction each. */
    method AckEnvelopes(ids: seq<EnvelopeId>)
      modifies this`primary
      ensures State() == DeleteAll(old(State()), ids)
    {
      var i := 0;
      while i < |ids|
        invariant i <= |ids|
        invariant DeleteAll(State(), ids[i..]) == DeleteAll(old(State()), ids)
        invariant next == old(next) && index == old(index) && marks == old(marks)
      {
        DeleteEnvelope(ids[i]);
        assert ids[i..][1..] == ids[i + 1..];
        i := i + 1;
      }
    }

    method AdvanceReadMark(device: Device, position: nat)
      modifies this`marks
      ensures State() == MailboxState.AdvanceReadMark(old(State()), device, position)
    {
      if device in marks && position <= marks[device] { return; }
      marks := marks[device := position];
    }

    method GetReadMark(device: Device) returns (mark: nat)
      ensures mark == ReadMark(State(), device)
    {
      mark := if device in marks then marks[device] else 0;
    }

    /** The occupancy of one sender, from one consistent view. */
    method SenderOccupancy(sender: Identity, id: EnvelopeId, countLimit: nat, nowMs: nat) returns (o: Occupancy)
      ensures o.alreadyStored <==> Stored(State(), id, nowMs)
      ensures !o.alreadyStored && countLimit > 0 ==>
                (o.liveEnvelopes >= countLimit <==> |LiveOf(State(), sender, nowMs)| >= countLimit)
    {
      o := Occupied(Box(primary, index, next, marks), sender, id, countLimit, nowMs);
    }

    method HighestIssuedPosition() returns (highest: nat)
      ensures highest == HighestIssued(State())
    {
      highest := if next.None? || next.value == 0 then 0 else next.value - 1;
    }
  }
}
