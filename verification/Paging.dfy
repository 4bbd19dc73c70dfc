/**
 Mailbox selection: what one page holds, and how pages add up to a scan of the whole mailbox.
 */
module Paging {
  import opened Wrappers
  import opened MailboxState

  /** One selected envelope with the position it was selected at. */
  datatype Item = Item(position: nat, envelope: Envelope)

  /** A page: the envelopes handed out, and the position to resume strictly after when more remain. */
  datatype Batch = Batch(items: seq<Item>, next: Option<nat>)

  const ENVELOPE_SEPARATOR_BYTES: nat := 1

  // ---- the scan a page is cut from ------------------------------------------------------------------

  /** The live entries of the ordering index in positions `from` to `top`, in position order. */
  function LiveItems(box: Box, nowMs: nat, from: nat, top: nat): seq<Item>
    decreases top + 1 - from
  {
    if from > top then []
    else
      (if LiveAt(box, from, nowMs) then [Item(from, box.primary[box.index[from].id].envelope)] else [])
      + LiveItems(box, nowMs, from + 1, top)
  }

  ghost predicate AtMost(index: map<nat, Entry>, top: nat) {
    forall p :: p in index ==> p <= top
  }

  /** A position no index entry lies beyond. */
  ghost function Top(index: map<nat, Entry>): (top: nat)
    ensures AtMost(index, top)
  {
    if |index| == 0 then
      assert index == map[];
      0
    else
      var p :| p in index;
      var rest := index - {p};
      var below := Top(rest);
      assert forall q :: q in index ==> q == p || q in rest;
      if p > below then p else below
  }

  /** Every live entry strictly after a position. */
  ghost function Scan(box: Box, nowMs: nat, after: nat): seq<Item> {
    LiveItems(box, nowMs, after + 1, Top(box.index))
  }

  ghost predicate Holds(items: seq<Item>, position: nat) {
    exists i :: 0 <= i < |items| && items[i].position == position
  }

  ghost predicate Increasing(items: seq<Item>) {
    forall i, j :: 0 <= i < j < |items| ==> items[i].position < items[j].position
  }

  /** The envelope a position leads to. */
  ghost function ItemAt(box: Box, position: nat): Item
    requires position in box.index && box.index[position].id in box.primary
  {
    Item(position, box.primary[box.index[position].id].envelope)
  }

  /** Each item is a live entry of the box, carrying the envelope stored there. */
  ghost predicate AreLive(box: Box, nowMs: nat, items: seq<Item>) {
    forall i :: 0 <= i < |items| ==>
      LiveAt(box, items[i].position, nowMs) &&
      items[i].envelope == box.primary[box.index[items[i].position].id].envelope
  }

  /** What a live page holds at a position is the envelope there. */
  lemma HeldItem(box: Box, nowMs: nat, items: seq<Item>, position: nat)
    requires AreLive(box, nowMs, items) && Holds(items, position)
    ensures LiveAt(box, position, nowMs) && ItemAt(box, position) in items
  {
    var i :| 0 <= i < |items| && items[i].position == position;
    assert items[i] == ItemAt(box, position);
  }

  lemma {:induction false} LiveItemsHold(box: Box, nowMs: nat, from: nat, top: nat, p: nat)
    requires from <= p <= top && LiveAt(box, p, nowMs)
    ensures Holds(LiveItems(box, nowMs, from, top), p)
    decreases top + 1 - from
  {
    var items, rest := LiveItems(box, nowMs, from, top), LiveItems(box, nowMs, from + 1, top);
    if p == from {
      assert items[0].position == p;
    } else {
      LiveItemsHold(box, nowMs, from + 1, top, p);
      var i :| 0 <= i < |rest| && rest[i].position == p;
      assert items[i + |items| - |rest|].position == p;
    }
  }

  lemma {:induction false} LiveItemsAreInOrder(box: Box, nowMs: nat, from: nat, top: nat)
    ensures var items := LiveItems(box, nowMs, from, top);
            && Increasing(items) && AreLive(box, nowMs, items)
            && (forall i :: 0 <= i < |items| ==> from <= items[i].position <= top)
    decreases top + 1 - from
  {
    if from <= top { LiveItemsAreInOrder(box, nowMs, from + 1, top); }
  }

  lemma LiveItemsAreExactlyTheLiveEntries(box: Box, nowMs: nat, from: nat, top: nat)
    ensures var items := LiveItems(box, nowMs, from, top);
            && Increasing(items) && AreLive(box, nowMs, items)
            && (forall i :: 0 <= i < |items| ==> from <= items[i].position <= top)
            && (forall p :: from <= p <= top && LiveAt(box, p, nowMs) ==> Holds(items, p))
  {
    hide LiveItems, Holds, LiveAt;
    LiveItemsAreInOrder(box, nowMs, from, top);
    forall p | from <= p <= top && LiveAt(box, p, nowMs) ensures Holds(LiveItems(box, nowMs, from, top), p) {
      LiveItemsHold(box, nowMs, from, top, p);
    }
  }

  /** Which envelopes pages hand out: those with a visible entry and record whose declared expiry is still ahead. */
  lemma ServedIff(box: Box, nowMs: nat, after: nat, p: nat)
    ensures Holds(Scan(box, nowMs, after), p)
            <==> && p > after && p in box.index && (box.index[p].deadline == 0 || nowMs / 1000 < box.index[p].deadline)
                 && var id := box.index[p].id;
                    && id in box.primary && (box.primary[id].deadline == 0 || nowMs / 1000 < box.primary[id].deadline)
                    && box.primary[id].envelope.expiresAtMs > nowMs
  {
    LiveItemsAreExactlyTheLiveEntries(box, nowMs, after + 1, Top(box.index));
  }

  /** The scan strictly after one of its items is what follows that item. */
  lemma {:induction false} ScanAfterItem(box: Box, nowMs: nat, from: nat, top: nat, n: nat)
    requires 1 <= n <= |LiveItems(box, nowMs, from, top)|
    ensures var items := LiveItems(box, nowMs, from, top);
            items[n..] == LiveItems(box, nowMs, items[n - 1].position + 1, top)
    decreases top + 1 - from
  {
    var items, rest := LiveItems(box, nowMs, from, top), LiveItems(box, nowMs, from + 1, top);
    if LiveAt(box, from, nowMs) {
      assert items[1..] == rest;
      if n > 1 {
        ScanAfterItem(box, nowMs, from + 1, top, n - 1);
        assert items[n..] == rest[n - 1..];
      }
    } else {
      assert items == rest;
      ScanAfterItem(box, nowMs, from + 1, top, n);
    }
  }

  /** Positions without an entry contribute nothing. */
  lemma {:induction false} SkipGap(box: Box, nowMs: nat, from: nat, until: nat, top: nat)
    requires from <= until
    requires forall p :: from <= p < until ==> p !in box.index
    ensures LiveItems(box, nowMs, from, top) == LiveItems(box, nowMs, until, top)
    decreases until - from
  {
    if from < until { SkipGap(box, nowMs, from + 1, until, top); }
  }

  // ---- the cut: count and bytes ---------------------------------------------------------------------

  function Cost(envelope: Envelope): nat { envelope.encodedBytes + ENVELOPE_SEPARATOR_BYTES }

  function Bytes(items: seq<Item>): nat {
    if items == [] then 0 else Bytes(items[..|items| - 1]) + Cost(items[|items| - 1].envelope)
  }

  /** How many of the waiting items selection takes when `taken` of them, `used` bytes, are already in. */
  function Fill(items: seq<Item>, limit: nat, byteBudget: int, used: nat, taken: nat): (n: nat)
    ensures n <= |items|
  {
    if items == [] then 0
    else if taken >= limit then 0
    else if byteBudget > 0 && taken > 0 && used + Cost(items[0].envelope) > byteBudget then 0
    else 1 + Fill(items[1..], limit, byteBudget, used + Cost(items[0].envelope), taken + 1)
  }

  /** One page of the mailbox: the relay's selection with both bounds applied while selecting. */
  ghost function Page(box: Box, nowMs: nat, limit: nat, byteBudget: int, after: nat): Batch {
    if limit == 0 then Batch([], None) else
    var items := Scan(box, nowMs, after);
    var n := Fill(items, limit, byteBudget, 0, 0);
    Batch(items[..n], if 0 < n < |items| then Some(items[n - 1].position) else None)
  }

  /** What the bounds admit: at most `limit` items and, past the exempt first one, at most the byte budget. */
  predicate Admissible(items: seq<Item>, n: nat, limit: nat, byteBudget: int)
    requires n <= |items|
  {
    n <= limit && (byteBudget <= 0 || n <= 1 || Bytes(items[..n]) <= byteBudget)
  }

  lemma {:induction false} FillFrom(items: seq<Item>, limit: nat, byteBudget: int, taken: nat)
    requires taken <= |items| && Admissible(items, taken, limit, byteBudget)
    ensures var n := taken + Fill(items[taken..], limit, byteBudget, Bytes(items[..taken]), taken);
            && n <= |items| && Admissible(items, n, limit, byteBudget)
            && (n < |items| ==> !Admissible(items, n + 1, limit, byteBudget))
            && (limit > 0 && taken < |items| ==> n > 0)
    decreases |items| - taken
  {
    if taken < |items| {
      assert items[..taken + 1][..taken] == items[..taken];
      assert Bytes(items[..taken + 1]) == Bytes(items[..taken]) + Cost(items[taken].envelope);
      assert items[taken..][1..] == items[taken + 1..];
      if Fill(items[taken..], limit, byteBudget, Bytes(items[..taken]), taken) > 0 {
        FillFrom(items, limit, byteBudget, taken + 1);
      }
    }
  }

  lemma {:induction false} BytesMonotone(items: seq<Item>, n: nat, m: nat)
    requires n <= m <= |items|
    ensures Bytes(items[..n]) <= Bytes(items[..m])
    decreases m
  {
    if n < m {
      assert items[..m][..m - 1] == items[..m - 1];
      BytesMonotone(items, n, m - 1);
    }
  }

  lemma FillIsLongest(items: seq<Item>, limit: nat, byteBudget: int, m: nat)
    requires limit > 0 && m <= |items|
    ensures m <= Fill(items, limit, byteBudget, 0, 0) <==> Admissible(items, m, limit, byteBudget)
  {
    assert items[0..] == items && items[..0] == [];
    FillFrom(items, limit, byteBudget, 0);
    var n := Fill(items, limit, byteBudget, 0, 0);
    if m <= n {
      BytesMonotone(items, m, n);
    } else {
      BytesMonotone(items, n + 1, m);
    }
  }

  /**
   A page is the longest prefix of the live entries after the resume position that the bounds admit:
   a prefix is admissible exactly when it is no longer than the page.
   */
  lemma PageIsTheLongestAdmissiblePrefix(box: Box, nowMs: nat, limit: nat, byteBudget: int, after: nat, m: nat)
    requires limit > 0 && m <= |Scan(box, nowMs, after)|
    ensures var items, page := Scan(box, nowMs, after), Page(box, nowMs, limit, byteBudget, after);
            && page.items <= items
            && (m <= |page.items| <==> Admissible(items, m, limit, byteBudget))
  {
    FillIsLongest(Scan(box, nowMs, after), limit, byteBudget, m);
  }

  lemma ScanIsExactlyTheLiveEntries(box: Box, nowMs: nat, after: nat)
    ensures var items := Scan(box, nowMs, after);
            && Increasing(items) && AreLive(box, nowMs, items)
            && (forall i :: 0 <= i < |items| ==> after < items[i].position)
            && (forall p :: after < p && LiveAt(box, p, nowMs) ==> Holds(items, p))
  {
    LiveItemsAreExactlyTheLiveEntries(box, nowMs, after + 1, Top(box.index));
  }

  lemma PrefixHolds(items: seq<Item>, n: nat, position: nat)
    requires Increasing(items) && 0 < n <= |items| && Holds(items, position)
    requires position <= items[n - 1].position
    ensures Holds(items[..n], position)
  {
    var i :| 0 <= i < |items| && items[i].position == position;
    assert items[..n][i].position == position;
  }

  /** A page is a piece off the front of the scan, not empty unless the scan is. */
  lemma PageShape(box: Box, nowMs: nat, limit: nat, byteBudget: int, after: nat)
    requires limit > 0
    ensures var items, page := Scan(box, nowMs, after), Page(box, nowMs, limit, byteBudget, after);
            && |page.items| <= |items| && page.items == items[..|page.items|]
            && (page.next.Some? ==> 0 < |page.items| < |items| && page.next.value == items[|page.items| - 1].position)
            && (page.next.None? ==> page.items == items)
  {
    hide Scan, Fill;
    var items := Scan(box, nowMs, after);
    assert items[0..] == items && items[..0] == [];
    FillFrom(items, limit, byteBudget, 0);
  }

  /** The scan after a page's own cursor is the rest of the scan the page was cut from. */
  lemma PageRest(box: Box, nowMs: nat, limit: nat, byteBudget: int, after: nat)
    requires limit > 0 && Page(box, nowMs, limit, byteBudget, after).next.Some?
    ensures var page := Page(box, nowMs, limit, byteBudget, after);
            Scan(box, nowMs, after) == page.items + Scan(box, nowMs, page.next.value)
  {
    PageShape(box, nowMs, limit, byteBudget, after);
    var n := |Page(box, nowMs, limit, byteBudget, after).items|;
    ScanAfterItem(box, nowMs, after + 1, Top(box.index), n);
    SplitAt(Scan(box, nowMs, after), n);
  }

  lemma SplitAt(items: seq<Item>, n: nat)
    requires n <= |items|
    ensures items == items[..n] + items[n..]
  {}

  /**
   What a page from `after` covers.  It is live and in order; it is empty only at the end of the
   mailbox; when it names a next position that position lies strictly beyond `after` and every live
   entry up to it is in the page; when it names none, every live entry beyond `after` is.
   */
  lemma PageCovers(box: Box, nowMs: nat, limit: nat, byteBudget: int, after: nat)
    requires limit > 0
    ensures var page := Page(box, nowMs, limit, byteBudget, after);
            && Increasing(page.items) && AreLive(box, nowMs, page.items)
            && (forall i :: 0 <= i < |page.items| ==> page.items[i].position > after)
            && (page.next.Some? ==>
                  && |page.items| > 0 && page.items[|page.items| - 1].position == page.next.value
                  && page.next.value > after
                  && (exists q :: q > page.next.value && LiveAt(box, q, nowMs))
                  && forall p :: after < p <= page.next.value && LiveAt(box, p, nowMs) ==> Holds(page.items, p))
            && (page.next.None? ==> forall p :: after < p && LiveAt(box, p, nowMs) ==> Holds(page.items, p))
  {
    var items := Scan(box, nowMs, after);
    var page := Page(box, nowMs, limit, byteBudget, after);
    PageShape(box, nowMs, limit, byteBudget, after);
    ScanIsExactlyTheLiveEntries(box, nowMs, after);
    if page.next.Some? {
      assert LiveAt(box, items[|page.items|].position, nowMs);
      forall p | after < p <= page.next.value && LiveAt(box, p, nowMs)
        ensures Holds(page.items, p)
      {
        PrefixHolds(items, |page.items|, p);
      }
    }
  }

  // ---- pages add up to the scan ----------------------------------------------------------------------

  datatype Bounds = Bounds(limit: nat, byteBudget: int)

  /** The envelopes of consecutive pages, each with its own bounds, while the relay reports more. */
  ghost function Pages(box: Box, nowMs: nat, after: nat, bounds: seq<Bounds>): (seq<Item>, Option<nat>)
    decreases |bounds|
  {
    if bounds == [] then ([], Some(after)) else
    var page := Page(box, nowMs, bounds[0].limit, bounds[0].byteBudget, after);
    match page.next
    case None => (page.items, None)
    case Some(cursor) =>
      var rest := Pages(box, nowMs, cursor, bounds[1..]);
      (page.items + rest.0, rest.1)
  }

  /**
   Paging refines a full scan.  In an unchanged mailbox the pages, whatever their bounds, are the scan
   cut into consecutive pieces: together they are a prefix of it, what is left is the scan after the
   last cursor, and a walk that runs to the end returns all of it.
   */
  lemma {:induction false} PagesRefineTheScan(box: Box, nowMs: nat, after: nat, bounds: seq<Bounds>)
    requires forall i :: 0 <= i < |bounds| ==> bounds[i].limit > 0
    ensures var (got, end) := Pages(box, nowMs, after, bounds);
            && (end.None? ==> got == Scan(box, nowMs, after))
            && (end.Some? ==> got + Scan(box, nowMs, end.value) == Scan(box, nowMs, after))
    decreases |bounds|
  {
    if bounds != [] {
      PageShape(box, nowMs, bounds[0].limit, bounds[0].byteBudget, after);
      var page := Page(box, nowMs, bounds[0].limit, bounds[0].byteBudget, after);
      if page.next.Some? {
        PageRest(box, nowMs, bounds[0].limit, bounds[0].byteBudget, after);
        PagesRefineTheScan(box, nowMs, page.next.value, bounds[1..]);
        var (rest, end) := Pages(box, nowMs, page.next.value, bounds[1..]);
        if end.Some? {
          Regroup(page.items, rest, Scan(box, nowMs, end.value));
        }
      }
    }
  }

  lemma Regroup(a: seq<Item>, b: seq<Item>, c: seq<Item>)
    ensures (a + b) + c == a + (b + c)
  {}

  /** Enough pages always reach the end: each takes at least one envelope off what is left. */
  lemma {:induction false} EnoughPagesReachTheEnd(box: Box, nowMs: nat, after: nat, bounds: seq<Bounds>)
    requires forall i :: 0 <= i < |bounds| ==> bounds[i].limit > 0
    requires |bounds| > |Scan(box, nowMs, after)|
    ensures Pages(box, nowMs, after, bounds) == (Scan(box, nowMs, after), None)
    decreases |bounds|
  {
    var page := Page(box, nowMs, bounds[0].limit, bounds[0].byteBudget, after);
    PageShape(box, nowMs, bounds[0].limit, bounds[0].byteBudget, after);
    if page.next.Some? {
      PageRest(box, nowMs, bounds[0].limit, bounds[0].byteBudget, after);
      EnoughPagesReachTheEnd(box, nowMs, page.next.value, bounds[1..]);
    }
    PagesRefineTheScan(box, nowMs, after, bounds);
  }

  /** What one page of a walk saw: the mailbox and the clock at its own moment. */
  datatype View = View(box: Box, nowMs: nat, bounds: Bounds)

  /** A walk over a mailbox that may change between its pages: each page resumes where the last ended. */
  ghost function WalkedItems(views: seq<View>, after: nat): (seq<Item>, Option<nat>)
    decreases |views|
  {
    if views == [] then ([], Some(after)) else
    var page := Page(views[0].box, views[0].nowMs, views[0].bounds.limit, views[0].bounds.byteBudget, after);
    match page.next
    case None => (page.items, None)
    case Some(cursor) =>
      var rest := WalkedItems(views[1..], cursor);
      (page.items + rest.0, rest.1)
  }

  /**
   Whatever acknowledgements, sends and expiries happen between the pages, an entry beyond the start
   that is live at every page is either handed out or still ahead of the walk; a walk that reaches the
   end has handed it out.
   */
  lemma {:induction false} InterleavedWalkMissesNothing(views: seq<View>, after: nat, position: nat)
    requires forall i :: 0 <= i < |views| ==>
               views[i].bounds.limit > 0 && LiveAt(views[i].box, position, views[i].nowMs)
    requires position > after
    ensures var (got, end) := WalkedItems(views, after);
            Holds(got, position) || (end.Some? && end.value < position)
    decreases |views|
  {
    if views != [] {
      var v := views[0];
      var page := Page(v.box, v.nowMs, v.bounds.limit, v.bounds.byteBudget, after);
      PageCovers(v.box, v.nowMs, v.bounds.limit, v.bounds.byteBudget, after);
      var got := WalkedItems(views, after).0;
      if Holds(page.items, position) {
        var i :| 0 <= i < |page.items| && page.items[i].position == position;
        assert got[i].position == position;
      } else {
        assert page.next.Some? && page.next.value < position;
        InterleavedWalkMissesNothing(views[1..], page.next.value, position);
        var rest := WalkedItems(views[1..], page.next.value).0;
        if Holds(rest, position) {
          var i :| 0 <= i < |rest| && rest[i].position == position;
          assert got[|page.items| + i].position == position;
        }
      }
    }
  }
}
