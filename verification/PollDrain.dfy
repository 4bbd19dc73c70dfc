/**
 Polls one after another: they reach the end of a mailbox that can be walked, whatever it is filled with, and
 of no other when every envelope is refused one to a page.
 */
module PollDrain {
  import opened Wrappers
  import opened Decimals
  import opened MailboxState
  import opened Paging
  import opened ClientStore
  import opened MailboxHandler
  import opened PageFit
  import opened PollWalk
  import opened Sets
  import MR = MailboxRepository

  // ---- one poll of many -------------------------------------------------------------------------------------

  /** Where the next poll's walk starts: a pending re-walk, or the read mark. */
  ghost predicate StartsAt(st: Store, box: Box, device: Device, after: nat) {
    if st.rewalk.Some? then RewalkAt(st, after) else after == ReadMark(box, device)
  }

  ghost function Ahead(box: Box, nowMs: nat, after: nat): set<nat> {
    set p | p in box.index && p > after && LiveAt(box, p, nowMs)
  }

  /** The programs' own settings, with a relay that takes the client's acknowledgements in chunks of a hundred. */
  predicate Suited(cfg: Config) { Agreed(cfg) && MaxAckedEnvelopeIds(cfg.limits.maxBatch) >= ACK_CHUNK }

  /** A client and a mailbox between two polls. */
  ghost predicate Ready(cfg: Config, st: Store, box: Box, after: nat) {
    && Suited(cfg) && Serviceable(box, cfg.nowMs, after, st.rewalk.Some?)
    && after < Pow10(MAX_CURSOR_DIGITS) && StartsAt(st, box, cfg.device, after)
  }

  lemma WholeWalkAchieves(cfg: Config, open: Opener, st: Store, box: Box, after: nat)
    requires Ready(cfg, st, box, after)
    ensures var q := Walk(cfg, open, st, box);
            && Achieved(cfg, box, after, First(st, box), q)
            && (q.more ==> exists x: nat :: Passed(cfg, box, after, q, x))
  {
    hide WalkFrom, Serviceable, Achieved, Pow10, DecodeMailboxCursor;
    ReadyAsks(cfg, st, box, after);
    WalkAchieves(cfg, open, First(st, box), PendingCursor(st), None, after, MAX_POLL_PAGES);
  }

  lemma ReadyAsks(cfg: Config, st: Store, box: Box, after: nat)
    requires Ready(cfg, st, box, after)
    ensures Asks(cfg, First(st, box), PendingCursor(st), None, after)
  {
    hide Serviceable, Pow10, DecodeMailboxCursor;
  }

  /** A position the poll leaves behind for good: before the next start, or acknowledged by this poll. */
  ghost predicate Dropped(cfg: Config, box: Box, after: nat, q: Progress, next: nat, x: nat) {
    after < x && LiveAt(box, x, cfg.nowMs) && (x <= next || (q.received > 0 && box.index[x].id in q.store.acks))
  }

  lemma NextStart(cfg: Config, open: Opener, st: Store, box: Box, after: nat) returns (next: nat, x: nat)
    requires Ready(cfg, st, box, after) && Walk(cfg, open, st, box).more
    ensures var q := Walk(cfg, open, st, box);
            && after <= next <= q.at && StartsAt(q.store, q.box, cfg.device, next)
            && Achieved(cfg, box, after, First(st, box), q) && Dropped(cfg, box, after, q, next, x)
  {
    hide Walk, Serviceable, AllDecided, Covered, CoveredToEnd;
    WholeWalkAchieves(cfg, open, st, box, after);
    var q := Walk(cfg, open, st, box);
    next := if q.store.rewalk.Some? then q.at else ReadMark(q.box, cfg.device);
    x :| Passed(cfg, box, after, q, x);
  }

  /** What is left after a poll, of a mailbox in which only the mark moved and some identifiers went. */
  ghost predicate LeftOver(q: Progress, store: Store, mailbox: Box) {
    || (store, mailbox) == Acknowledged(q.store, q.box)
    || ((store, mailbox) == (q.store, q.box) && q.received == 0)
  }

  lemma PollLeaves(cfg: Config, open: Opener, st: Store, box: Box)
    requires Suited(cfg) && (Walk(cfg, open, st, box).failed ==> Walk(cfg, open, st, box).received == 0)
    ensures var (store, mailbox, _) := Poll(cfg, open, st, box);
            LeftOver(Walk(cfg, open, st, box), store, mailbox)
  {
    hide Walk;
  }

  /** Nothing arrived: index and counter are the same and every record left is one that was there. */
  ghost predicate Remains(box: Box, t: Box) {
    && t.index == box.index && t.next == box.next
    && forall id :: id in t.primary ==> id in box.primary && t.primary[id] == box.primary[id]
  }

  lemma RemainingIsLive(box: Box, t: Box, nowMs: nat, laterMs: nat)
    requires Remains(box, t) && nowMs <= laterMs
    ensures forall p :: LiveAt(t, p, laterMs) ==> LiveAt(box, p, nowMs) && ItemAt(t, p) == ItemAt(box, p)
  {
    LaterIsFewer(t, nowMs, laterMs);
  }

  lemma LeftOverRemains(device: Device, box: Box, q: Progress, store: Store, mailbox: Box)
    requires OnlyMarked(box, q.box, device) && LeftOver(q, store, mailbox)
    ensures Remains(box, mailbox) && ReadMark(mailbox, device) == ReadMark(q.box, device)
    ensures store.rewalk == q.store.rewalk
  {}

  /** A mailbox that can be walked stays one as records leave, time passes and the walk goes on. */
  lemma StaysServiceable(box: Box, t: Box, nowMs: nat, laterMs: nat, after: nat, next: nat, rewalking: bool)
    requires Serviceable(box, nowMs, after, rewalking) && Remains(box, t) && nowMs <= laterMs && after <= next
    ensures Serviceable(t, laterMs, next, rewalking)
  {
    hide Passable, AllReadable;
    StaysPassable(box, t, nowMs, laterMs, after, next, rewalking);
    StaysReadable(box, t, nowMs, laterMs, after, next);
    StaysKeyed(box, t);
  }

  lemma StaysReadable(box: Box, t: Box, nowMs: nat, laterMs: nat, after: nat, next: nat)
    requires AllReadable(box, nowMs, after) && Remains(box, t) && nowMs <= laterMs && after <= next
    ensures AllReadable(t, laterMs, next)
  {
    hide LiveAt, FitsWith;
    RemainingIsLive(box, t, nowMs, laterMs);
    LiveHasItem(t, laterMs);
    forall p | next < p && LiveAt(t, p, laterMs) ensures ReadableAlone(t, laterMs, p) {
      assert LiveAt(box, p, nowMs) && ReadableAlone(box, nowMs, p);
      if Followed(t, laterMs, p) {
        var q :| q > p && LiveAt(t, q, laterMs);
        assert Followed(box, nowMs, p);
      }
    }
  }

  lemma LiveHasItem(box: Box, nowMs: nat)
    ensures forall p :: LiveAt(box, p, nowMs) ==> p in box.index && box.index[p].id in box.primary
  {}

  lemma StaysKeyed(box: Box, t: Box)
    requires Keyed(box) && Remains(box, t)
    ensures Keyed(t)
  {}

  lemma StaysPassable(box: Box, t: Box, nowMs: nat, laterMs: nat, after: nat, next: nat, rewalking: bool)
    requires Passable(box, nowMs, after, rewalking) && Remains(box, t) && nowMs <= laterMs && after <= next
    ensures Passable(t, laterMs, next, rewalking)
  {
    hide Pow10;
    RemainingIsLive(box, t, nowMs, laterMs);
  }

  /** What a poll acknowledged is no longer live. */
  lemma AcknowledgedIsGone(device: Device, box: Box, nowMs: nat, q: Progress, store: Store, mailbox: Box, p: nat)
    requires OnlyMarked(box, q.box, device) && LeftOver(q, store, mailbox)
    requires q.received > 0 && p in box.index && box.index[p].id in q.store.acks
    ensures !LiveAt(mailbox, p, nowMs)
  {}

  /** A poll that leaves more to come makes what lies ahead of the next one strictly smaller. */
  lemma PollShrinks(cfg: Config, open: Opener, st: Store, box: Box, after: nat) returns (next: nat)
    requires Ready(cfg, st, box, after) && Walk(cfg, open, st, box).more
    ensures var (store, mailbox, _) := Poll(cfg, open, st, box);
            && Ready(cfg, store, mailbox, next) && after <= next <= Walk(cfg, open, st, box).at
            && Ahead(mailbox, cfg.nowMs, next) < Ahead(box, cfg.nowMs, after)
  {
    hide Walk, Poll, Serviceable, AllDecided, Covered, CoveredToEnd, LeftOver, Pow10, DecodeMailboxCursor;
    var x;
    next, x := NextStart(cfg, open, st, box, after);
    var q := Walk(cfg, open, st, box);
    var (store, mailbox, _) := Poll(cfg, open, st, box);
    PollLeaves(cfg, open, st, box);
    LeftOverRemains(cfg.device, box, q, store, mailbox);
    StaysServiceable(box, mailbox, cfg.nowMs, cfg.nowMs, after, next, st.rewalk.Some?);
    Shrinks(cfg, box, after, q, next, x, store, mailbox);
  }

  lemma Shrinks(cfg: Config, box: Box, after: nat, q: Progress, next: nat, x: nat, store: Store, mailbox: Box)
    requires OnlyMarked(box, q.box, cfg.device) && LeftOver(q, store, mailbox) && Remains(box, mailbox)
    requires after <= next && Dropped(cfg, box, after, q, next, x)
    ensures Ahead(mailbox, cfg.nowMs, next) < Ahead(box, cfg.nowMs, after)
  {
    hide LeftOver, OnlyMarked;
    RemainingIsLive(box, mailbox, cfg.nowMs, cfg.nowMs);
    if x > next { AcknowledgedIsGone(cfg.device, box, cfg.nowMs, q, store, mailbox, x); }
    assert x in Ahead(box, cfg.nowMs, after) && x !in Ahead(mailbox, cfg.nowMs, next);
  }

  // ---- the drain ---------------------------------------------------------------------------------------------

  datatype Drained = Drained(store: Store, box: Box, seen: seq<Item>, rejected: Refusals, ended: bool)

  /** A poll, and what has left the mailbox since the one before: expired, or acknowledged by another device. */
  datatype Visit = Visit(cfg: Config, gone: set<EnvelopeId>)

  function Left(box: Box, gone: set<EnvelopeId>): Box { box.(primary := box.primary - gone) }

  /** Polls one after another, failed ones repeated, until one reaches the end of the mailbox. */
  ghost function Drain(visits: seq<Visit>, open: Opener, st: Store, box: Box): Drained
    decreases |visits|
  {
    if visits == [] then Drained(st, box, [], [], false) else
    var (cfg, found) := (visits[0].cfg, Left(box, visits[0].gone));
    var q := Walk(cfg, open, st, found);
    var (store, mailbox, _) := Poll(cfg, open, st, found);
    if !q.more && !q.failed then Drained(store, mailbox, q.seen, q.rejected, true) else
    var rest := Drain(visits[1..], open, store, mailbox);
    rest.(seen := q.seen + rest.seen, rejected := q.rejected + rest.rejected)
  }

  /** The polls of one device, at clocks that never go back. */
  ghost predicate InTurn(visits: seq<Visit>, device: Device) {
    && (forall i :: 0 <= i < |visits| ==> visits[i].cfg.device == device && Suited(visits[i].cfg))
    && (forall i, j :: 0 <= i <= j < |visits| ==> visits[i].cfg.nowMs <= visits[j].cfg.nowMs)
  }

  lemma LeavingRemains(box: Box, gone: set<EnvelopeId>)
    ensures Remains(box, Left(box, gone))
  {}

  /** What leaves takes nothing away from what a client is ready for. */
  lemma ReadyAsOthersLeave(cfg: Config, st: Store, box: Box, gone: set<EnvelopeId>, after: nat)
    requires Ready(cfg, st, box, after)
    ensures Ready(cfg, st, Left(box, gone), after)
    ensures |Ahead(Left(box, gone), cfg.nowMs, after)| <= |Ahead(box, cfg.nowMs, after)|
  {
    hide Serviceable, Pow10, RewalkAt, LiveAt;
    LeavingRemains(box, gone);
    StaysServiceable(box, Left(box, gone), cfg.nowMs, cfg.nowMs, after, after, st.rewalk.Some?);
    RemainingIsLive(box, Left(box, gone), cfg.nowMs, cfg.nowMs);
    SubsetSize(Ahead(Left(box, gone), cfg.nowMs, after), Ahead(box, cfg.nowMs, after));
  }

  /** Everything live past a position was offered in these polls, and refused in one of them. */
  ghost predicate AllRefused(box: Box, nowMs: nat, after: nat, seen: seq<Item>, rejected: Refusals) {
    forall p :: p > after && LiveAt(box, p, nowMs) ==>
      ItemAt(box, p) in seen && RefusedIn(rejected, box.index[p].id)
  }

  /** What a poll has seen and its acknowledgements have left live, it has refused. */
  lemma LeftIsRefused(cfg: Config, box: Box, after: nat, q: Progress, st: Store, store: Store, mailbox: Box, p: nat,
      laterMs: nat)
    requires Keyed(box) && Achieved(cfg, box, after, First(st, box), q) && LeftOver(q, store, mailbox)
    requires cfg.nowMs <= laterMs && after < p && (q.more ==> p <= q.at)
    requires p in box.index && box.index[p].id in box.primary
    requires LiveAt(box, p, cfg.nowMs) && LiveAt(mailbox, p, laterMs)
    ensures ItemAt(box, p) in q.seen && RefusedIn(q.rejected, box.index[p].id)
  {
    hide LeftOver, Stands, RefusedIn, LiveAt;
    var i :| 0 <= i < |q.seen| && q.seen[i] == ItemAt(box, p);
    assert q.seen[i].envelope.id == box.index[p].id;
    assert Decided(q.store, q.received, q.rejected, q.seen[i].envelope.id);
    if q.received > 0 && box.index[p].id in q.store.acks {
      AcknowledgedIsGone(cfg.device, box, laterMs, q, store, mailbox, p);
    }
  }

  lemma {:induction false} Smaller(a: set<nat>, b: set<nat>)
    requires a < b
    ensures |a| < |b|
  {
    SubsetSize(a, b);
    var x :| x in b && x !in a;
    SubsetSize(a, b - {x});
  }

  /** A later poll has no more ahead of it than an earlier one from the same place. */
  lemma AheadLater(box: Box, nowMs: nat, laterMs: nat, after: nat)
    requires nowMs <= laterMs
    ensures |Ahead(box, laterMs, after)| <= |Ahead(box, nowMs, after)|
  {
    LaterIsFewer(box, nowMs, laterMs);
    SubsetSize(Ahead(box, laterMs, after), Ahead(box, nowMs, after));
  }

  lemma ReadyStays(cfg: Config, later: Config, st: Store, box: Box, after: nat)
    requires Ready(cfg, st, box, after) && later.device == cfg.device && Suited(later) && cfg.nowMs <= later.nowMs
    ensures Ready(later, st, box, after)
  {
    hide Serviceable, Pow10, RewalkAt;
    StaysServiceable(box, box, cfg.nowMs, later.nowMs, after, after, st.rewalk.Some?);
  }

  lemma RemainsTwice(a: Box, b: Box, c: Box)
    requires Remains(a, b) && Remains(b, c)
    ensures Remains(a, c)
  {}

  /** The last poll: everything past its start was decided in it. */
  lemma LastPoll(cfg: Config, open: Opener, st: Store, box: Box, after: nat, lastMs: nat)
    requires Ready(cfg, st, box, after) && !Walk(cfg, open, st, box).more && cfg.nowMs <= lastMs
    ensures var q := Walk(cfg, open, st, box);
            var (_, mailbox, _) := Poll(cfg, open, st, box);
            !q.failed && Remains(box, mailbox) && AllRefused(mailbox, lastMs, after, q.seen, q.rejected)
  {
    hide Walk, Poll, Passable, AllReadable, LeftOver, Covered, CoveredToEnd, AllDecided, LiveAt;
    WholeWalkAchieves(cfg, open, st, box, after);
    var q := Walk(cfg, open, st, box);
    var (store, mailbox, _) := Poll(cfg, open, st, box);
    PollLeaves(cfg, open, st, box);
    LeftOverRemains(cfg.device, box, q, store, mailbox);
    LeftAreRefused(cfg, box, after, q, st, store, mailbox, mailbox, lastMs, after);
  }

  lemma LeftAreRefused(cfg: Config, box: Box, after: nat, q: Progress, st: Store, store: Store, mailbox: Box,
      left: Box, lastMs: nat, next: nat)
    requires Keyed(box) && Achieved(cfg, box, after, First(st, box), q) && LeftOver(q, store, mailbox)
    requires Remains(box, mailbox) && Remains(mailbox, left) && cfg.nowMs <= lastMs && (q.more ==> next <= q.at)
    ensures forall p :: after < p && (q.more ==> p <= next) && LiveAt(left, p, lastMs) ==>
              ItemAt(left, p) in q.seen && RefusedIn(q.rejected, left.index[p].id)
  {
    hide Achieved, LeftOver, RefusedIn, LiveAt;
    RemainsTwice(box, mailbox, left);
    RemainingIsLive(mailbox, left, lastMs, lastMs);
    RemainingIsLive(box, left, cfg.nowMs, lastMs);
    LiveHasItem(left, lastMs);
    forall p | after < p && (q.more ==> p <= next) && LiveAt(left, p, lastMs)
      ensures ItemAt(left, p) in q.seen && RefusedIn(q.rejected, left.index[p].id)
    {
      LeftIsRefused(cfg, box, after, q, st, store, mailbox, p, lastMs);
    }
  }

  /** A poll before the last: what it passed and is still live at the end, it has refused. */
  lemma EarlierPoll(cfg: Config, open: Opener, st: Store, box: Box, after: nat, next: nat, left: Box, lastMs: nat,
      seen: seq<Item>, rejected: Refusals)
    requires Ready(cfg, st, box, after) && cfg.nowMs <= lastMs
    requires var q := Walk(cfg, open, st, box); q.more && next <= q.at
    requires Remains(Poll(cfg, open, st, box).1, left) && AllRefused(left, lastMs, next, seen, rejected)
    ensures var q := Walk(cfg, open, st, box);
            Remains(box, left) && AllRefused(left, lastMs, after, q.seen + seen, q.rejected + rejected)
  {
    hide Walk, Poll, Passable, AllReadable, LeftOver, Covered, CoveredToEnd, AllDecided, LiveAt, RefusedIn;
    WholeWalkAchieves(cfg, open, st, box, after);
    var q := Walk(cfg, open, st, box);
    var (store, mailbox, _) := Poll(cfg, open, st, box);
    PollLeaves(cfg, open, st, box);
    LeftOverRemains(cfg.device, box, q, store, mailbox);
    RemainsTwice(box, mailbox, left);
    LiveHasItem(left, lastMs);
    LeftAreRefused(cfg, box, after, q, st, store, mailbox, left, lastMs, next);
    forall p | p > after && LiveAt(left, p, lastMs)
      ensures ItemAt(left, p) in q.seen + seen && RefusedIn(q.rejected + rejected, left.index[p].id)
    {
      RefusedInLonger(q.rejected, rejected, left.index[p].id);
    }
  }

  /**
   The drain theorem.  When nothing new arrives, more polls than there are live entries ahead of the first
   always reach the end of a mailbox that can be walked, whatever it is filled with, whatever leaves it in
   between and however each poll ends; and everything still live at the last of them was offered in these
   polls and refused.
   */
  lemma {:induction false} PollsDrainTheMailbox(visits: seq<Visit>, open: Opener, st: Store, box: Box, after: nat)
    requires visits != [] && InTurn(visits, visits[0].cfg.device) && Ready(visits[0].cfg, st, box, after)
    requires |visits| > |Ahead(box, visits[0].cfg.nowMs, after)|
    ensures var d := Drain(visits, open, st, box);
            && d.ended && Remains(box, d.box)
            && AllRefused(d.box, visits[|visits| - 1].cfg.nowMs, after, d.seen, d.rejected)
    decreases |visits|
  {
    hide Walk, Poll, LiveAt, Ready, AllRefused, Remains, Suited, Left;
    var lastMs := visits[|visits| - 1].cfg.nowMs;
    var cfg, found := visits[0].cfg, Left(box, visits[0].gone);
    LeavingRemains(box, visits[0].gone);
    ReadyAsOthersLeave(cfg, st, box, visits[0].gone, after);
    var q := Walk(cfg, open, st, found);
    var (store, mailbox, _) := Poll(cfg, open, st, found);
    if q.more {
      var next := PollShrinks(cfg, open, st, found, after);
      Smaller(Ahead(mailbox, cfg.nowMs, next), Ahead(found, cfg.nowMs, after));
      AheadLater(mailbox, cfg.nowMs, visits[1].cfg.nowMs, next);
      ReadyStays(cfg, visits[1].cfg, store, mailbox, next);
      PollsDrainTheMailbox(visits[1..], open, store, mailbox, next);
      var rest := Drain(visits[1..], open, store, mailbox);
      EarlierPoll(cfg, open, st, found, after, next, rest.box, lastMs, rest.seen, rest.rejected);
      RemainsTwice(box, found, rest.box);
    } else {
      LastPoll(cfg, open, st, found, after, lastMs);
      RemainsTwice(box, found, mailbox);
    }
  }

  /**
   What the polls did with what they were offered, however many there were and however they ended: each
   envelope is committed in the store they leave, or its identifier was refused; and nothing the store held
   before is lost or replaced.
   */
  lemma {:induction false} DrainCommitsOrRefuses(visits: seq<Visit>, open: Opener, st: Store, box: Box)
    requires Consistent(st) && Authentic(open)
    ensures var d := Drain(visits, open, st, box);
            && Consistent(d.store) && Extends(st, d.store)
            && forall i :: 0 <= i < |d.seen| ==> CommittedOrRefused(d.store, d.rejected, d.seen[i].envelope)
    decreases |visits|
  {
    hide Walk, Poll, Consistent, CommittedOrRefused, Authentic;
    if visits != [] {
      var cfg, found := visits[0].cfg, Left(box, visits[0].gone);
      PollCommits(cfg, open, st, found);
      var q := Walk(cfg, open, st, found);
      var (store, mailbox, _) := Poll(cfg, open, st, found);
      if q.more || q.failed {
        DrainCommitsOrRefuses(visits[1..], open, store, mailbox);
        var rest := Drain(visits[1..], open, store, mailbox);
        CommitsTogether(store, q.seen, q.rejected, rest.store, rest.seen, rest.rejected);
      }
    }
  }

  lemma CommitsTogether(before: Store, seen: seq<Item>, rejected: Refusals, after: Store, more: seq<Item>,
      refused: Refusals)
    requires Extends(before, after)
    requires forall i :: 0 <= i < |seen| ==> CommittedOrRefused(before, rejected, seen[i].envelope)
    requires forall i :: 0 <= i < |more| ==> CommittedOrRefused(after, refused, more[i].envelope)
    ensures forall i :: 0 <= i < |seen + more| ==>
              CommittedOrRefused(after, rejected + refused, (seen + more)[i].envelope)
  {
    forall i | 0 <= i < |seen + more|
      ensures CommittedOrRefused(after, rejected + refused, (seen + more)[i].envelope)
    {
      if i < |seen| {
        StaysCommittedOrRefused(before, after, rejected, rejected + refused, seen[i].envelope);
      } else {
        var e := more[i - |seen|].envelope;
        if RefusedIn(refused, e.id) { RefusedInLonger(rejected, refused, e.id); }
      }
    }
  }
}
