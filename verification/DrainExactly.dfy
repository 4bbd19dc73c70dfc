/**
 Exactly which mailboxes polls drain: those in which the relay takes the token of every page end ahead and the
 client reads every envelope ahead alone.
 */
module DrainExactly {
  import opened Wrappers
  import opened Decimals
  import opened MailboxState
  import opened Paging
  import opened ClientStore
  import opened MailboxHandler
  import opened PageFit
  import opened PollBlocked
  import opened PollWalk
  import opened PollDrain
  import opened Sets
  import ST = StaleTail
  import W = WireSize

  /** More polls than live entries ahead, from a clock reading on. */
  ghost predicate Enough(visits: seq<Visit>, box: Box, device: Device, nowMs: nat, after: nat) {
    && InTurn(visits, device) && |visits| > |Ahead(box, nowMs, after)|
    && forall i :: 0 <= i < |visits| ==> nowMs <= visits[i].cfg.nowMs
  }

  ghost predicate StoreAt(st: Store, box: Box, device: Device, after: nat, rewalking: bool) {
    (st.rewalk.Some? <==> rewalking) && StartsAt(st, box, device, after)
  }

  /** A store that knows nobody refuses everything. */
  function Stranger(after: nat, rewalking: bool): Store {
    Store(0, 0, map[], map[], map[], {}, [], map[], if rewalking then Some(Digits(after)) else None)
  }

  function OneByOne(device: Device, nowMs: nat): Config {
    Config(Limits(100, PollByteBudget(MAX_MESSAGE_BYTES), 16), device, 1, nowMs, 0)
  }

  lemma StrangerRefuses(after: nat, rewalking: bool, open: Opener)
    ensures RefusesEverything(Stranger(after, rewalking), open)
  {}

  lemma StrangerStarts(box: Box, device: Device, after: nat, rewalking: bool)
    requires after < Pow10(MAX_CURSOR_DIGITS) && (rewalking || after == ReadMark(box, device))
    ensures StoreAt(Stranger(after, rewalking), box, device, after, rewalking)
    ensures StartsBelow(Stranger(after, rewalking), box, device, after)
  {
    hide Pow10, Digits, DecodeMailboxCursor;
    if rewalking { TokenReadsBack(after); }
  }

  /** One-envelope polls at one moment, before the first of which so much has left. */
  function Polls(device: Device, nowMs: nat, gone: set<EnvelopeId>, n: nat): seq<Visit> {
    seq(n, i => Visit(OneByOne(device, nowMs), if i == 0 then gone else {}))
  }

  lemma {:induction false} PollsGone(device: Device, nowMs: nat, gone: set<EnvelopeId>, n: nat, m: nat)
    requires 0 < m <= n
    ensures GoneBy(Polls(device, nowMs, gone, n)[..m]) == gone
  {
    var visits := Polls(device, nowMs, gone, n);
    NobodyGone(visits[..m][1..]);
  }

  lemma {:induction false} NobodyGone(visits: seq<Visit>)
    requires forall i :: 0 <= i < |visits| ==> visits[i].gone == {}
    ensures GoneBy(visits) == {}
  {
    if visits != [] { NobodyGone(visits[1..]); }
  }

  /** Where one entry stops one-envelope walks, there is a client that polls for ever. */
  lemma NeverEnds(box: Box, device: Device, nowMs: nat, after: nat, rewalking: bool, gone: set<EnvelopeId>, x: nat)
      returns (visits: seq<Visit>, open: Opener, st: Store)
    requires box.next.Some? && after < x && StopsAt(OneByOne(device, nowMs), Left(box, gone), rewalking, x)
    requires after < Pow10(MAX_CURSOR_DIGITS) && (rewalking || after == ReadMark(box, device))
    ensures Enough(visits, box, device, nowMs, after) && StoreAt(st, box, device, after, rewalking)
    ensures !Drain(visits, open, st, box).ended
  {
    hide Drain, Pow10, StartsAt, RefusesEverything, StoreAt, StartsBelow, StopsAt;
    open := (_, _) => None;
    st := Stranger(after, rewalking);
    StrangerRefuses(after, rewalking, open);
    StrangerStarts(box, device, after, rewalking);
    var n := |Ahead(box, nowMs, after)| + 1;
    visits := Polls(device, nowMs, gone, n);
    PollsStop(box, device, nowMs, rewalking, gone, x, n);
    RefusedPollsNeverEnd(visits, open, st, box, device, x);
  }

  lemma PollsStop(box: Box, device: Device, nowMs: nat, rewalking: bool, gone: set<EnvelopeId>, x: nat, n: nat)
    requires StopsAt(OneByOne(device, nowMs), Left(box, gone), rewalking, x)
    ensures StopsThroughout(Polls(device, nowMs, gone, n), box, rewalking, x)
  {
    hide StopsAt, GoneBy;
    var visits := Polls(device, nowMs, gone, n);
    forall i | 0 <= i < n ensures StopsAt(visits[i].cfg, Left(box, GoneBy(visits[..i + 1])), rewalking, x) {
      PollsGone(device, nowMs, gone, n, i + 1);
    }
  }

  /** The last live entry that leads to the same envelope. */
  lemma {:induction false} LastOf(box: Box, nowMs: nat, p: nat, top: nat) returns (x: nat)
    requires LiveAt(box, p, nowMs) && AtMost(box.index, top)
    ensures p <= x && LiveAt(box, x, nowMs) && box.index[x].id == box.index[p].id
    ensures forall y :: y > x && LiveAt(box, y, nowMs) ==> box.index[y].id != box.index[x].id
    decreases top - p
  {
    if exists y :: y > p && LiveAt(box, y, nowMs) && box.index[y].id == box.index[p].id {
      var y :| y > p && LiveAt(box, y, nowMs) && box.index[y].id == box.index[p].id;
      x := LastOf(box, nowMs, y, top);
    } else {
      x := p;
    }
  }

  ghost function Behind(box: Box, nowMs: nat, x: nat): set<EnvelopeId> {
    set q | q in box.index && q > x && LiveAt(box, q, nowMs) :: box.index[q].id
  }

  /** Once nothing is left behind it, an envelope too long without a token stops a walk. */
  lemma LastUnreadableStops(device: Device, box: Box, nowMs: nat, rewalking: bool, x: nat)
    requires LiveAt(box, x, nowMs) && !FitsWith(ItemAt(box, x).envelope, None)
    requires forall y :: y > x && LiveAt(box, y, nowMs) ==> box.index[y].id != box.index[x].id
    ensures StopsAt(OneByOne(device, nowMs), Left(box, Behind(box, nowMs, x)), rewalking, x)
  {
    hide Page, WrapperBytes;
    var cfg, t := OneByOne(device, nowMs), Left(box, Behind(box, nowMs, x));
    assert LiveAt(t, x, nowMs) && ItemAt(t, x) == ItemAt(box, x);
    forall y: nat | y > x ensures !LiveAt(t, y, nowMs) {
      if LiveAt(box, y, nowMs) { assert box.index[y].id in Behind(box, nowMs, x); }
    }
    forall after: nat | after < x ensures PageStops(cfg, t, rewalking, after, x) {
      LastPageStops(cfg, t, rewalking, after, x);
    }
  }

  lemma LastPageStops(cfg: Config, box: Box, rewalking: bool, after: nat, x: nat)
    requires Limit(cfg) == 1 && after < x && LiveAt(box, x, cfg.nowMs)
    requires forall y: nat :: LiveAt(box, y, cfg.nowMs) ==> y <= x
    requires !FitsWith(ItemAt(box, x).envelope, None)
    ensures PageStops(cfg, box, rewalking, after, x)
  {
    hide WrapperBytes;
    var page := PageAt(cfg, box, after);
    PageCovers(box, cfg.nowMs, Limit(cfg), cfg.limits.byteBudget, after);
    if page.next.None? {
      HeldItem(box, cfg.nowMs, page.items, x);
      var i: nat :| i < |page.items| && page.items[i] == ItemAt(box, x);
      ContentsOfEach(MR.Envelopes(page.items), i);
    }
  }

  /** And one too long with its token, while another is behind it. */
  lemma FollowedUnreadableStops(device: Device, box: Box, nowMs: nat, rewalking: bool, x: nat)
    requires LiveAt(box, x, nowMs) && Followed(box, nowMs, x)
    requires !FitsWith(ItemAt(box, x).envelope, Some(EncodeMailboxCursor(x)))
    ensures StopsAt(OneByOne(device, nowMs), box, rewalking, x)
  {
    hide Page, WrapperBytes, EncodeMailboxCursor;
    var cfg := OneByOne(device, nowMs);
    var y :| y > x && LiveAt(box, y, nowMs);
    forall after: nat | after < x ensures PageStops(cfg, box, rewalking, after, x) {
      var page := PageAt(cfg, box, after);
      OneToAPage(cfg, box, after, x, y);
      PageCovers(box, cfg.nowMs, Limit(cfg), cfg.limits.byteBudget, after);
      ContentsOfEach(MR.Envelopes(page.items), 0);
    }
  }

  /** A mailbox that cannot be walked has an entry that stops one-envelope walks, if enough leaves first. */
  lemma StoppingEntry(box: Box, device: Device, nowMs: nat, after: nat, rewalking: bool)
      returns (gone: set<EnvelopeId>, x: nat)
    requires !Passable(box, nowMs, after, rewalking) || !AllReadable(box, nowMs, after)
    ensures after < x && StopsAt(OneByOne(device, nowMs), Left(box, gone), rewalking, x)
  {
    hide LiveAt, Pow10, StopsAt, FitsWith;
    gone := {};
    LeavesNothing(box);
    if !Passable(box, nowMs, after, rewalking) {
      var p: nat, q: nat :| after < p < q && LiveAt(box, p, nowMs) && LiveAt(box, q, nowMs)
        && !(p < Pow10(MAX_CURSOR_DIGITS) && (rewalking || p <= HighestIssued(box)));
      x := p;
      BlockedStops(OneByOne(device, nowMs), box, rewalking, x, q);
    } else {
      var p: nat :| after < p && LiveAt(box, p, nowMs) && !ReadableAlone(box, nowMs, p);
      LiveHasItem(box, nowMs);
      if FitsWith(ItemAt(box, p).envelope, None) {
        x := p;
        FollowedUnreadableStops(device, box, nowMs, rewalking, x);
      } else {
        x := LastOf(box, nowMs, p, Top(box.index));
        gone := Behind(box, nowMs, x);
        LastUnreadableStops(device, box, nowMs, rewalking, x);
      }
    }
  }

  lemma LeavesNothing(box: Box)
    ensures Left(box, {}) == box
  {
    assert box.primary - {} == box.primary;
  }

  /**
   The drain theorem, both ways.  Enough polls end whatever the store, the opener and the page sizes are and
   whatever leaves the mailbox in between, if and only if the relay takes the token of every live entry ahead
   that has another behind it (issued already when no re-walk is pending, and below 10^15 in any case) and the
   client reads every live envelope ahead alone.
   */
  lemma PollsDrainIff(box: Box, device: Device, nowMs: nat, after: nat, rewalking: bool)
    requires box.next.Some? && Keyed(box)
    requires after < Pow10(MAX_CURSOR_DIGITS) && (rewalking || after == ReadMark(box, device))
    ensures (forall visits: seq<Visit>, open: Opener, st: Store ::
               Enough(visits, box, device, nowMs, after) && StoreAt(st, box, device, after, rewalking) ==>
                 Drain(visits, open, st, box).ended)
            <==> Passable(box, nowMs, after, rewalking) && AllReadable(box, nowMs, after)
  {
    hide Drain, Passable, AllReadable, Keyed, Pow10, StopsAt, Enough, StoreAt;
    if Passable(box, nowMs, after, rewalking) && AllReadable(box, nowMs, after) {
      forall visits: seq<Visit>, open: Opener, st: Store
        | Enough(visits, box, device, nowMs, after) && StoreAt(st, box, device, after, rewalking)
        ensures Drain(visits, open, st, box).ended
      {
        EnoughPollsEnd(visits, open, st, box, device, nowMs, after, rewalking);
      }
    } else {
      var gone, x := StoppingEntry(box, device, nowMs, after, rewalking);
      var visits, open, st := NeverEnds(box, device, nowMs, after, rewalking, gone, x);
      assert !Drain(visits, open, st, box).ended;
    }
  }

  lemma EnoughPollsEnd(visits: seq<Visit>, open: Opener, st: Store, box: Box, device: Device, nowMs: nat, after: nat,
      rewalking: bool)
    requires Enough(visits, box, device, nowMs, after) && StoreAt(st, box, device, after, rewalking)
    requires Serviceable(box, nowMs, after, rewalking) && after < Pow10(MAX_CURSOR_DIGITS)
    ensures Drain(visits, open, st, box).ended
  {
    hide Drain, Serviceable, LiveAt, Pow10, StartsAt, Suited;
    var laterMs := visits[0].cfg.nowMs;
    RemainsItself(box);
    StaysServiceable(box, box, nowMs, laterMs, after, after, rewalking);
    AheadLater(box, nowMs, laterMs, after);
    PollsDrainTheMailbox(visits, open, st, box, after);
  }

  lemma RemainsItself(box: Box)
    ensures Remains(box, box)
  {}

  // ---- mailboxes the clients write to ----------------------------------------------------------------------------

  /** Only the token of a one-digit position is shorter than none: elsewhere being readable now is enough. */
  lemma OneDigitTokensAreShorter(p: nat)
    ensures WrapperBytes(Some(EncodeMailboxCursor(p))) < WrapperBytes(None) <==> p < 10
  {}

  /** What the clients write is read alone, at every 64-bit position. */
  lemma ClientsAreRead(box: Box, nowMs: nat, configured: nat)
    requires WrittenByClients(box, configured) && configured <= MAX_MESSAGE_BYTES
    requires forall p :: p in box.index ==> p < Pow10(20)
    ensures AllReadable(box, nowMs, 0)
  {
    hide Pow10, WrapperBytes, Carries, W.Base64UrlText;
    forall p: nat | LiveAt(box, p, nowMs) ensures ReadableAlone(box, nowMs, p) {
      var e := ItemAt(box, p).envelope;
      var w :| Carries(e, w, configured) && W.Base64UrlText(w.ciphertext);
      PlainEnvelopeFitsAlone(e, w, configured, MAX_MESSAGE_BYTES);
      WrapperIsSmall(None);
      WrapperIsSmall(Some(p));
    }
  }

  // ---- what an interrupted migration leaves ------------------------------------------------------------------------

  lemma StaleMailboxIsWalkable()
    ensures var box := ST.StaleBox();
            && box.next.Some? && Keyed(box) && AllReadable(box, 5000, 0)
            && Passable(box, 5000, 0, true) && !Passable(box, 5000, 0, false)
  {
    hide Pow10;
    var box := ST.StaleBox();
    BelowTheLimit();
    assert LiveAt(box, 3, 5000) && LiveAt(box, 4, 5000);
    forall p | LiveAt(box, p, 5000) ensures ReadableAlone(box, 5000, p) {
      assert box.index[p].id in {2, 3} && p <= 4;
      LaterTokensAreLonger(p, 4);
      assert |Digits(4)| == 1;
    }
  }

  lemma BelowTheLimit()
    ensures 4 < Pow10(MAX_CURSOR_DIGITS)
  {
    Pow10Monotone(1, MAX_CURSOR_DIGITS);
    assert Pow10(1) == 10 * Pow10(0);
  }

  /**
   What an interrupted migration can leave is no such mailbox from a fresh mark: polls may never reach its end;
   and polls under a pending re-walk always do.
   */
  lemma AStaleTailNeedsARewalk(device: Device)
    ensures exists visits: seq<Visit>, open: Opener, st: Store ::
              && Enough(visits, ST.StaleBox(), device, 5000, 0) && StoreAt(st, ST.StaleBox(), device, 0, false)
              && !Drain(visits, open, st, ST.StaleBox()).ended
    ensures forall visits: seq<Visit>, open: Opener, st: Store ::
              Enough(visits, ST.StaleBox(), device, 5000, 0) && StoreAt(st, ST.StaleBox(), device, 0, true) ==>
                Drain(visits, open, st, ST.StaleBox()).ended
  {
    hide Drain, AllReadable, Keyed, Passable, Pow10, StoreAt, Enough;
    StaleMailboxIsWalkable();
    BelowTheLimit();
    PollsDrainIff(ST.StaleBox(), device, 5000, 0, false);
    PollsDrainIff(ST.StaleBox(), device, 5000, 0, true);
  }
}
