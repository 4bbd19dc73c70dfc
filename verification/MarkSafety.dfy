/**
 Exactly when the read mark is safe.  Two entries above the counter that can still come alive let a page end
 on a position the relay has not issued; storing new envelopes then issues that very position, and the
 recipient's report moves the mark past an envelope it was never offered.
 */
module MarkSafety {
  import opened Wrappers
  import opened MailboxState
  import opened Paging
  import opened ReadMark
  import opened Sets

  /** A machine whose device has judged and reported nothing, at the same clock and with the same device. */
  ghost predicate StillFresh(s: System, t: System) {
    Begin(t) && t.nowMs == s.nowMs && t.device == s.device
  }

  const LIFETIME_MS: nat := 1000000

  function Renewed(id: EnvelopeId, nowMs: nat): Envelope {
    Envelope(id, id, 0, 0, 0, 0, Malformed(0), nowMs, nowMs + LIFETIME_MS, true, 0)
  }

  lemma StoredAnew(box: Box, id: EnvelopeId, nowMs: nat)
    requires box.next.Some? && box.next.value >= 1 && id !in box.primary
    ensures var (after, outcome) := Save(box, Renewed(id, nowMs), nowMs, LIFETIME_MS);
            && outcome == Saved(box.next.value) && after.next == Some(box.next.value + 1)
            && LiveAt(after, box.next.value, nowMs) && after.index[box.next.value].id == id
            && after.primary == box.primary[id := after.primary[id]] && after.primary[id].envelope == Renewed(id, nowMs)
            && after.index == box.index[box.next.value := after.index[box.next.value]] && after.marks == box.marks
  {}

  // ---- both entries brought to life -------------------------------------------------------------------------

  /** The mailbox once an envelope that is not live was acknowledged and stored again. */
  ghost function Revived(box: Box, id: EnvelopeId, nowMs: nat): Box
    requires box.next.Some?
  {
    Save(Delete(box, id), Renewed(id, nowMs), nowMs, LIFETIME_MS).0
  }

  lemma RevivedIsPlaced(box: Box, id: EnvelopeId, nowMs: nat)
    requires Placed(box, nowMs) && Keyed(box) && 0 !in box.index
    ensures var after := Revived(box, id, nowMs);
            && Placed(after, nowMs) && Keyed(after) && 0 !in after.index && after.marks == box.marks
            && after.next == Some(box.next.value + 1) && LiveIds(after, nowMs) == LiveIds(box, nowMs) + {id}
            && forall p :: p in box.index && p > box.next.value ==> p in after.index && after.index[p] == box.index[p]
  {
    var gone := Delete(box, id);
    FewerStayPlaced(box, nowMs, gone, nowMs);
    SaveKeepsPlaced(gone, Renewed(id, nowMs), nowMs, LIFETIME_MS);
    StoredAnew(gone, id, nowMs);
    RevivedIsLive(box, gone, id, nowMs);
  }

  lemma RevivedIsLive(box: Box, gone: Box, id: EnvelopeId, nowMs: nat)
    requires gone == Delete(box, id) && box.next.Some? && box.next.value >= 1
    ensures LiveIds(Revived(box, id, nowMs), nowMs) == LiveIds(box, nowMs) + {id}
  {
    StoredAnew(gone, id, nowMs);
  }

  lemma StillArming(box: Box, after: Box, nowMs: nat, p: nat, q: nat, id: EnvelopeId)
    requires Arming(box, nowMs, p, q) && id in {box.index[p].id, box.index[q].id} - LiveIds(box, nowMs)
    requires after.next == Some(box.next.value + 1) && LiveIds(after, nowMs) == LiveIds(box, nowMs) + {id}
    requires forall r :: r in box.index && r > box.next.value ==> r in after.index && after.index[r] == box.index[r]
    ensures p in after.index && q in after.index && Missing(after, nowMs, p, q) + 1 == Missing(box, nowMs, p, q)
    ensures Arming(after, nowMs, p, q)
  {
    hide LiveIds;
    var ids := {box.index[p].id, box.index[q].id};
    OneLess(ids, LiveIds(box, nowMs), id);
    assert p > box.next.value;
  }

  lemma OneLess(ids: set<EnvelopeId>, live: set<EnvelopeId>, id: EnvelopeId)
    requires id in ids - live
    ensures |ids - live| >= 1 && |ids - (live + {id})| + 1 == |ids - live|
  {
    assert ids - (live + {id}) == (ids - live) - {id};
  }

  /** One missing envelope acknowledged, if it is still kept, and stored again. */
  lemma ReviveOne(s: System, p: nat, q: nat, id: EnvelopeId) returns (t: System, events: seq<Event>)
    requires Begin(s) && Arming(s.box, s.nowMs, p, q)
    requires id in {s.box.index[p].id, s.box.index[q].id} - LiveIds(s.box, s.nowMs)
    ensures t == Run(s, events) && StillFresh(s, t) && Arming(t.box, t.nowMs, p, q)
    ensures Missing(t.box, t.nowMs, p, q) < Missing(s.box, s.nowMs, p, q)
  {
    hide Run, Apply, Revived, Placed, Keyed;
    var send := Send(Renewed(id, s.nowMs), LIFETIME_MS);
    events := [Acknowledge(id), send];
    TwoSteps(s, Acknowledge(id), send);
    t := s.(box := Revived(s.box, id, s.nowMs));
    TwoStepsRevive(s, t, id);
    RevivedIsPlaced(s.box, id, s.nowMs);
    hide LiveIds;
    StillArming(s.box, t.box, s.nowMs, p, q, id);
  }

  lemma TwoStepsRevive(s: System, t: System, id: EnvelopeId)
    requires s.box.next.Some? && t == s.(box := Revived(s.box, id, s.nowMs)) && s.held == {}
    ensures t == Apply(Apply(s, Acknowledge(id)), Send(Renewed(id, s.nowMs), LIFETIME_MS))
  {
    hide Save;
    var acknowledged := Apply(s, Acknowledge(id));
    assert acknowledged.held == s.held && acknowledged.held * LiveIds(t.box, t.nowMs) == s.held;
  }

  lemma {:induction false} Revive(s: System, p: nat, q: nat) returns (t: System, events: seq<Event>)
    requires Begin(s) && Arming(s.box, s.nowMs, p, q)
    ensures t == Run(s, events) && StillFresh(s, t) && Arming(t.box, t.nowMs, p, q)
    ensures LiveAt(t.box, p, t.nowMs) && LiveAt(t.box, q, t.nowMs)
    decreases Missing(s.box, s.nowMs, p, q)
  {
    var missing := {s.box.index[p].id, s.box.index[q].id} - LiveIds(s.box, s.nowMs);
    if missing == {} {
      t, events := s, [];
      assert s.box.index[p].id in LiveIds(s.box, s.nowMs) && s.box.index[q].id in LiveIds(s.box, s.nowMs);
    } else {
      var id :| id in missing;
      var once, first := ReviveOne(s, p, q, id);
      var rest;
      t, rest := Revive(once, p, q);
      RunInParts(s, first, rest);
      events := first + rest;
    }
  }

  // ---- a page that ends on the first of them -------------------------------------------------------------------

  /** A page of exactly so many of the live entries, when more remain. */
  lemma PageOfCount(box: Box, nowMs: nat, limit: nat, scan: seq<Item>)
    requires scan == Scan(box, nowMs, 0) && 0 < limit < |scan|
    ensures Page(box, nowMs, limit, 0, 0) == Batch(scan[..limit], Some(scan[limit - 1].position))
  {
    hide Page, Scan;
    var page := Page(box, nowMs, limit, 0, 0);
    PageShape(box, nowMs, limit, 0, 0);
    PageIsTheLongestAdmissiblePrefix(box, nowMs, limit, 0, 0, limit);
    PageIsTheLongestAdmissiblePrefix(box, nowMs, limit, 0, 0, limit + 1);
    assert |page.items| == limit;
  }

  lemma PageEndingAt(box: Box, nowMs: nat, p: nat, q: nat) returns (limit: nat)
    requires 0 < p < q && LiveAt(box, p, nowMs) && LiveAt(box, q, nowMs)
    ensures limit > 0 && Page(box, nowMs, limit, 0, 0).next == Some(p)
  {
    hide Page, Scan, LiveAt;
    var scan := Scan(box, nowMs, 0);
    ScanIsExactlyTheLiveEntries(box, nowMs, 0);
    var i :| 0 <= i < |scan| && scan[i].position == p;
    var j :| 0 <= j < |scan| && scan[j].position == q;
    limit := i + 1;
    PageOfCount(box, nowMs, limit, scan);
  }

  /** The device's first page, of everything up to `p`, on its way to be judged. */
  lemma SelectThrough(s: System, p: nat, q: nat) returns (t: System, events: seq<Event>)
    requires Begin(s) && 0 < p < q && LiveAt(s.box, p, s.nowMs) && LiveAt(s.box, q, s.nowMs)
    ensures t == Run(s, events) && t.box == s.box && t.nowMs == s.nowMs && t.device == s.device && t.judged == {}
    ensures t.walk.Judging? && t.walk.done == 0 && t.walk.more == Some(p) && t.rewalk.None?
    ensures forall x :: x in t.walk.items ==> x.envelope.id in s.box.primary
  {
    var limit := PageEndingAt(s.box, s.nowMs, p, q);
    var page := Page(s.box, s.nowMs, limit, 0, 0);
    PageCovers(s.box, s.nowMs, limit, 0, 0);
    hide Page;
    TwoSteps(s, StartPoll, Resolve);
    var resolved := Run(s, [StartPoll, Resolve]);
    OneStep(resolved, Select(limit, 0));
    RunInParts(s, [StartPoll, Resolve], [Select(limit, 0)]);
    events := [StartPoll, Resolve] + [Select(limit, 0)];
    t := Run(s, events);
    assert t.walk.items == page.items;
    forall x | x in page.items ensures x.envelope.id in s.box.primary {
      var i :| 0 <= i < |page.items| && page.items[i] == x;
      assert LiveAt(s.box, page.items[i].position, s.nowMs);
    }
  }

  lemma PageEnds(s: System, p: nat)
    requires s.walk.Judging? && s.walk.done == |s.walk.items| && s.walk.more == Some(p) && Nameable(p)
    ensures var t := Run(s, [EndPage, AskNext]);
            t.box == s.box && t.nowMs == s.nowMs && t.device == s.device && t.judged == s.judged && p in t.reported
  {
    TwoSteps(s, EndPage, AskNext);
    hide Run, LiveIds, Nameable, Page, Save, AdvanceReadMark;
    assert Apply(s, EndPage).walk == Turned(Some(p));
  }

  /** The device's first page, fully judged, and its end reported. */
  lemma JudgeThrough(s: System, p: nat, q: nat) returns (t: System, events: seq<Event>)
    requires Begin(s) && 0 < p < q && Nameable(p) && LiveAt(s.box, p, s.nowMs) && LiveAt(s.box, q, s.nowMs)
    ensures t == Run(s, events) && t.box == s.box && t.nowMs == s.nowMs && t.device == s.device && p in t.reported
    ensures forall x :: x in t.judged ==> x.envelope.id in s.box.primary
  {
    hide Begin, LiveAt;
    var selected, first := SelectThrough(s, p, q);
    var n := |selected.walk.items|;
    JudgeSteps(selected, n);
    var judged := Run(selected, Judges(n));
    PageEnds(judged, p);
    hide Run, Apply;
    t := Run(judged, [EndPage, AskNext]);
    RunInParts(s, first, Judges(n));
    RunInParts(s, first + Judges(n), [EndPage, AskNext]);
    events := first + Judges(n) + [EndPage, AskNext];
  }

  // ---- and the position issued to an envelope never offered --------------------------------------------------------

  /** Identifiers from `base` on are unused. */
  ghost predicate Unused(box: Box, base: nat) { forall id :: id in box.primary ==> id < base }

  /** New envelopes stored until one is given position `p`. */
  lemma {:induction false} FillThrough(s: System, p: nat, base: nat) returns (t: System, events: seq<Event>)
    requires s.box.next.Some? && 1 <= s.box.next.value <= p && Unused(s.box, base)
    ensures t == Run(s, events) && t.nowMs == s.nowMs && t.device == s.device
    ensures t.judged == s.judged && t.reported == s.reported
    ensures t.box.marks == s.box.marks && HighestIssued(t.box) == p && LiveAt(t.box, p, t.nowMs)
    ensures t.box.index[p].id >= base && t.box.primary[t.box.index[p].id].envelope.id >= base
    decreases p - s.box.next.value
  {
    var send := Send(Renewed(base, s.nowMs), LIFETIME_MS);
    StoredAnew(s.box, base, s.nowMs);
    OneStep(s, send);
    t, events := Run(s, [send]), [send];
    if s.box.next.value < p {
      var rest;
      var end;
      end, rest := FillThrough(t, p, base + 1);
      RunInParts(s, [send], rest);
      t, events := end, [send] + rest;
    }
  }

  lemma ReportPasses(s: System, p: nat, base: nat)
    requires s.device !in s.box.marks && p in s.reported && Nameable(p) && p == HighestIssued(s.box)
    requires LiveAt(s.box, p, s.nowMs)
    requires s.box.primary[s.box.index[p].id].envelope.id >= base && forall x :: x in s.judged ==> x.envelope.id < base
    ensures var t := Run(s, [ReportArrives(p)]);
            && MailboxState.ReadMark(t.box, t.device) == p && LiveAt(t.box, p, t.nowMs)
            && ItemAt(t.box, p) !in t.judged && !MarkIsSafe(t)
  {
    OneStep(s, ReportArrives(p));
  }

  /** The failing family: from every armed mailbox a run moves the mark to a live envelope never judged. */
  lemma AnArmedMarkIsUnsafe(s: System, p: nat, q: nat) returns (events: seq<Event>)
    requires Begin(s) && Arming(s.box, s.nowMs, p, q)
    ensures var t := Run(s, events);
            && MailboxState.ReadMark(t.box, t.device) == p && LiveAt(t.box, p, t.nowMs) && ItemAt(t.box, p) !in t.judged
            && !MarkIsSafe(t)
  {
    hide Run, Begin, Arming, LiveAt, MarkIsSafe, Unused;
    var revived, first := Revive(s, p, q);
    BeginFacts(revived, p, q);
    var asked, second := JudgeThrough(revived, p, q);
    var base := Above(asked.box.primary.Keys);
    BaseIsUnused(asked.box, base);
    var filled, third := FillThrough(asked, p, base);
    ReportPasses(filled, p, base);
    RunInParts(s, first, second);
    RunInParts(s, first + second, third);
    RunInParts(s, first + second + third, [ReportArrives(p)]);
    events := first + second + third + [ReportArrives(p)];
  }

  lemma BeginFacts(s: System, p: nat, q: nat)
    requires Begin(s) && Arming(s.box, s.nowMs, p, q)
    ensures s.device !in s.box.marks && s.box.next.Some? && 1 <= s.box.next.value <= p && 0 < p < q && Nameable(p)
  {}

  lemma BaseIsUnused(box: Box, base: nat)
    requires forall id :: id in box.primary.Keys ==> id < base
    ensures Unused(box, base)
  {}

  /**
   Read-mark safety, exactly.  From any mailbox whose records have positions, the mark of a fresh device is
   safe over every run if and only if no two unexpired entries above the counter, the first one's token short of
   sixteen digits, can both come alive while the counter is below the first.
   */
  lemma MarkIsSafeIffUnarmed(s: System)
    requires Begin(s)
    ensures (forall events: seq<Event> :: MarkIsSafe(Run(s, events))) <==> !Armed(s.box, s.nowMs)
  {
    if Armed(s.box, s.nowMs) {
      var p, q :| Arming(s.box, s.nowMs, p, q);
      var events := AnArmedMarkIsUnsafe(s, p, q);
      assert !MarkIsSafe(Run(s, events));
    } else {
      forall events: seq<Event> ensures MarkIsSafe(Run(s, events)) {
        UnarmedMarkIsSafe(s, events);
      }
    }
  }
}
