/**
 `relay publish`: complete the pool, ask the relay about every member by submitting it again, and replace
 exactly the members it no longer serves.
 */
module PoolPublish {
  import opened Wrappers
  import opened PreKeyRelay
  import opened PreKeyPool
  import PR = PoolRuns

  datatype PublishError = PoolFailed(pool: PoolError) | RelayRefused(relay: PreKeyError)

  datatype Report = Report(target: nat, claimable: nat, minted: nat)

  // ---- the command on values ------------------------------------------------------------------------------

  /** The state after some members were submitted: the slots answered dead, and how many can be claimed. */
  datatype Submission = Submission(relay: Relay, dead: seq<nat>, claimable: nat, failure: Option<PublishError>)

  function Answered(s: Submission, slot: nat, relay: Relay, answer: Result<bool, PreKeyError>): Submission {
    match answer
    case Ok(true) => s.(relay := relay, claimable := s.claimable + 1)
    case Ok(false) => s.(relay := relay, dead := s.dead + [slot])
    case Err(BundleExpired) => s.(relay := relay, dead := s.dead + [slot])
    case Err(e) => s.(relay := relay, failure := Some(RelayRefused(e)))
  }

  /** Every member in slot order; an expired one is a dead slot, any other refusal ends the command. */
  function SubmitAll(r: Relay, members: seq<Bundle>, nowMs: nat): Submission {
    if members == [] then Submission(r, [], 0, None) else
    var n := |members| - 1;
    var before := SubmitAll(r, members[..n], nowMs);
    if before.failure.Some? then before else
    var (relay, answer) := Publish(before.relay, members[n], nowMs);
    Answered(before, n, relay, answer)
  }

  datatype Replacement = Replacement(keys: Keyring, relay: Relay, minted: nat, claimable: nat,
      failure: Option<PublishError>)

  /** One dead slot: a fresh member, stored before it is offered. */
  ghost function ReplaceOne(o: Owner, p: Replacement, slot: nat, d: Draw, nowMs: nat): Replacement {
    match Mint(o, p.keys, slot, true, d)
    case Err(e) => p.(failure := Some(PoolFailed(e)))
    case Ok(keys) =>
      var (relay, answer) := Publish(p.relay, keys.slots[slot], nowMs);
      match answer
      case Err(e) => p.(keys := keys, relay := relay, minted := p.minted + 1, failure := Some(RelayRefused(e)))
      case Ok(claimable) =>
        p.(keys := keys, relay := relay, minted := p.minted + 1,
           claimable := p.claimable + (if claimable then 1 else 0))
  }

  /** The dead slots, highest first. */
  ghost function ReplaceAll(o: Owner, p: Replacement, dead: seq<nat>, draws: nat -> Draw, from: nat,
      nowMs: nat): Replacement
    decreases |dead|
  {
    if dead == [] || p.failure.Some? then p
    else ReplaceAll(o, ReplaceOne(o, p, dead[|dead| - 1], draws(from), nowMs), dead[..|dead| - 1], draws, from + 1,
        nowMs)
  }

  function MembersOf(k: Keyring): seq<Bundle>
    requires forall slot: nat :: slot < POOL_TARGET ==> slot in k.slots
  {
    seq(POOL_TARGET, slot requires 0 <= slot < POOL_TARGET => k.slots[slot])
  }

  lemma FillFillsEverySlot(o: Owner, k: Keyring, n: nat, draws: nat -> Draw, from: nat)
    requires FillDown(o, k, n, draws, from).Ok?
    ensures var (filled, next) := FillDown(o, k, n, draws, from).value;
            next >= from && k.slots.Keys <= filled.slots.Keys && forall slot: nat :: slot < n ==> slot in filled.slots
    decreases n
  {
    if n > 0 {
      if n - 1 in k.slots {
        FillFillsEverySlot(o, k, n - 1, draws, from);
      } else {
        FillFillsEverySlot(o, Mint(o, k, n - 1, k.slots != map[], draws(from)).value, n - 1, draws, from + 1);
      }
    }
  }

  /** The whole command: the keys and the relay afterwards, and the report or the failure. */
  ghost function PublishPool(o: Owner, k: Keyring, r: Relay, draws: nat -> Draw, nowMs: nat)
    : (Keyring, Relay, Result<Report, PublishError>)
  {
    var restored := FillDown(o, k, POOL_TARGET, draws, 0);
    if restored.Err? then (k, r, Err(PoolFailed(restored.error))) else
    FillFillsEverySlot(o, k, POOL_TARGET, draws, 0);
    var (keys, minted) := restored.value;
    var s := SubmitAll(r, MembersOf(keys), nowMs);
    if s.failure.Some? then (keys, s.relay, Err(s.failure.value)) else
    var p := ReplaceAll(o, Replacement(keys, s.relay, minted, s.claimable, None), s.dead, draws, minted, nowMs);
    (p.keys, p.relay, if p.failure.Some? then Err(p.failure.value) else Ok(Report(POOL_TARGET, p.claimable, p.minted)))
  }

  // ---- what submitting finds out ----------------------------------------------------------------------------

  /** A member the relay serves, or will as soon as it is submitted. */
  predicate Alive(r: Relay, b: Bundle, nowMs: nat) {
    InWindow(b, nowMs) && (b.id in r.bundles ==> !r.bundles[b.id].claimed)
  }

  /** A member the relay serves now. */
  predicate Served(r: Relay, b: Bundle, nowMs: nat) {
    InWindow(b, nowMs) && b.id in r.bundles && r.bundles[b.id] == Stored(b, false)
  }

  /** The device's record is stored, or there is room for it. */
  predicate Admitted(r: Relay, o: Owner) {
    var key := (o.identity, o.device);
    if key in r.devices then r.devices[key] == o.devicePubKey
        else |DevicesOf(r.devices, o.identity)| < MAX_DEVICES_PER_IDENTITY
  }

  ghost predicate Complete(w: PR.World) {
    PR.Sound(w) && Admitted(w.relay, w.owner) && forall slot: nat :: slot < POOL_TARGET ==> slot in w.keys.slots
  }

  /** The relay keeps what it stores, and marks nothing. */
  ghost predicate Keeps(r: Relay, t: Relay) {
    && (forall id :: id in r.bundles ==> id in t.bundles && t.bundles[id] == r.bundles[id])
  }

  /** One submission of a bundle of one's own. */
  lemma SubmitOne(w: PR.World, b: Bundle)
    requires PR.Sound(w) && b in w.minted && Admitted(w.relay, w.owner)
    ensures var (t, answer) := Publish(w.relay, b, w.nowMs);
            && PR.Sound(w.(relay := t)) && Admitted(t, w.owner) && Keeps(w.relay, t)
            && answer == (if InWindow(b, w.nowMs) then Ok(Alive(w.relay, b, w.nowMs)) else Err(BundleExpired))
            && (answer == Ok(true) ==> Served(t, b, w.nowMs))
            && (forall id :: id in t.bundles ==> id in w.relay.bundles || id == b.id)
            && (forall p :: p in t.publics ==> p in w.relay.publics || p == b.publicKey)
  {
    PR.SignedIsOfferable(w, b);
    assert PR.SignedBy(w.owner, b);
    hide PR.Sound;
    PublishedOffer(w.relay, w.owner, b, w.nowMs);
    PR.PublishKeepsSound(w, b);
  }

  lemma PublishedOffer(r: Relay, o: Owner, b: Bundle, nowMs: nat)
    requires PR.Offerable(r, b) && PR.SignedBy(o, b) && Admitted(r, o)
    ensures var (t, answer) := Publish(r, b, nowMs);
            && Admitted(t, o) && Keeps(r, t)
            && answer == (if InWindow(b, nowMs) then Ok(Alive(r, b, nowMs)) else Err(BundleExpired))
            && (answer == Ok(true) ==> Served(t, b, nowMs))
            && (forall id :: id in t.bundles ==> id in r.bundles || id == b.id)
            && (forall p :: p in t.publics ==> p in r.publics || p == b.publicKey)
  {}

  /** Draws that were new stay new. */
  ghost predicate StaysFresh(w: PR.World, v: PR.World) {
    forall d :: PR.Fresh(w, d) ==> PR.Fresh(v, d)
  }

  lemma SubmissionStaysFresh(w: PR.World, b: Bundle, t: Relay)
    requires b in w.minted && b.publicKey in w.drawn
    requires forall id :: id in t.bundles ==> id in w.relay.bundles || id == b.id
    requires forall p :: p in t.publics ==> p in w.relay.publics || p == b.publicKey
    ensures StaysFresh(w, w.(relay := t))
  {}

  /** What the answers to the first `n` members say about the pool as it was. */
  ghost predicate Judged(w: PR.World, n: nat, s: Submission)
    requires Complete(w) && n <= POOL_TARGET
  {
    && s.failure.None? && Complete(w.(relay := s.relay)) && Keeps(w.relay, s.relay)
        && StaysFresh(w, w.(relay := s.relay))
    && s.claimable + |s.dead| == n
    && (forall i, j :: 0 <= i < j < |s.dead| ==> s.dead[i] < s.dead[j])
    && (forall slot :: slot in s.dead ==> slot < n)
    && (forall slot: nat :: slot < n ==>
          (slot in s.dead <==> !Alive(w.relay, w.keys.slots[slot], w.nowMs))
          && (slot !in s.dead ==> Served(s.relay, w.keys.slots[slot], w.nowMs)))
    && (forall slot: nat :: n <= slot < POOL_TARGET ==>
          (w.keys.slots[slot].id in s.relay.bundles ==> w.keys.slots[slot].id in w.relay.bundles))
  }

  lemma AnsweredOneMore(s: Submission, n: nat, relay: Relay, answer: Result<bool, PreKeyError>, t: Submission)
    requires s.failure.None? && t == Answered(s, n, relay, answer) && (answer.Ok? || answer == Err(BundleExpired))
    requires s.claimable + |s.dead| == n && (forall slot :: slot in s.dead ==> slot < n)
    requires forall i, j :: 0 <= i < j < |s.dead| ==> s.dead[i] < s.dead[j]
    ensures t.failure.None? && t.relay == relay && t.claimable + |t.dead| == n + 1
    ensures forall slot :: slot in t.dead <==> slot in s.dead || (slot == n && answer != Ok(true))
    ensures forall i, j :: 0 <= i < j < |t.dead| ==> t.dead[i] < t.dead[j]
  {
    forall i, j | 0 <= i < j < |t.dead| ensures t.dead[i] < t.dead[j] {
      assert s.dead[i] in s.dead;
    }
  }

  lemma JudgedOneMore(w: PR.World, n: nat, s: Submission, t: Submission)
    requires Complete(w) && n < POOL_TARGET && Judged(w, n, s)
    requires var b := w.keys.slots[n];
             var (relay, answer) := Publish(s.relay, b, w.nowMs);
             && t == Answered(s, n, relay, answer) && Complete(w.(relay := relay)) && Keeps(s.relay, relay)
             && StaysFresh(w.(relay := s.relay), w.(relay := relay))
             && answer == (if InWindow(b, w.nowMs) then Ok(Alive(s.relay, b, w.nowMs)) else Err(BundleExpired))
             && (answer == Ok(true) ==> Served(relay, b, w.nowMs))
             && (forall id :: id in relay.bundles ==> id in s.relay.bundles || id == b.id)
    requires forall slot: nat :: n < slot < POOL_TARGET ==> w.keys.slots[slot].id != w.keys.slots[n].id
    ensures Judged(w, n + 1, t)
  {
    hide PR.Sound, PR.Fresh, Publish, Admitted, Answered;
    var b := w.keys.slots[n];
    var (relay, answer) := Publish(s.relay, b, w.nowMs);
    AnsweredOneMore(s, n, relay, answer, t);
    assert Alive(s.relay, b, w.nowMs) <==> Alive(w.relay, b, w.nowMs);
  }

  lemma SlotsAreApart(w: PR.World, n: nat)
    requires Complete(w) && n < POOL_TARGET
    ensures w.keys.slots[n] in w.minted && w.keys.slots[n].publicKey in w.drawn
    ensures forall slot: nat :: slot < POOL_TARGET && slot != n ==> w.keys.slots[slot].id != w.keys.slots[n].id
  {
    forall slot: nat | slot < POOL_TARGET && slot != n ensures w.keys.slots[slot].id != w.keys.slots[n].id {
      assert PR.Apart(w.keys.slots[slot], w.keys.slots[n]);
    }
  }

  /** Submitting the members one after another finds out exactly which of them the relay no longer serves. */
  lemma {:induction false} SubmittingJudges(w: PR.World, n: nat)
    requires Complete(w) && n <= POOL_TARGET
    ensures Judged(w, n, SubmitAll(w.relay, MembersOf(w.keys)[..n], w.nowMs))
  {
    hide PR.Sound;
    var members := MembersOf(w.keys);
    if n == 0 {
      assert w.(relay := w.relay) == w;
    } else {
      SubmittingJudges(w, n - 1);
      assert members[..n][..n - 1] == members[..n - 1];
      var s := SubmitAll(w.relay, members[..n - 1], w.nowMs);
      var v := w.(relay := s.relay);
      SlotsAreApart(w, n - 1);
      SubmitOne(v, w.keys.slots[n - 1]);
      SubmissionStaysFresh(v, w.keys.slots[n - 1], Publish(s.relay, w.keys.slots[n - 1], w.nowMs).0);
      JudgedOneMore(w, n - 1, s, SubmitAll(w.relay, members[..n], w.nowMs));
    }
  }

  // ---- what replacing leaves ----------------------------------------------------------------------------------

  /** Enough new random values from one point on, all different, drawn by a clock that agrees with the relay's. */
  ghost predicate FreshFrom(w: PR.World, draws: nat -> Draw, from: nat) {
    && (forall i: nat :: i >= from ==>
          PR.Fresh(w, draws(i)) && draws(i).atMs <= w.nowMs < draws(i).atMs + BUNDLE_LIFETIME_MS)
    && (forall i: nat, j: nat :: from <= i < j ==>
          draws(i).bundleId != draws(j).bundleId && draws(i).publicKey != draws(j).publicKey)
  }

  /** Every slot but the dead ones is served. */
  ghost predicate ServedBut(w: PR.World, dead: seq<nat>)
    requires Complete(w)
  {
    && (forall i, j :: 0 <= i < j < |dead| ==> dead[i] < dead[j])
    && (forall slot :: slot in dead ==> slot < POOL_TARGET)
    && (forall slot: nat :: slot < POOL_TARGET && slot !in dead ==> Served(w.relay, w.keys.slots[slot], w.nowMs))
  }

  ghost predicate Mintable(w: PR.World, slot: nat, rotate: bool, d: Draw) {
    && PR.Sound(w) && slot < POOL_TARGET && PR.Fresh(w, d)
    && (if rotate then Current(w.keys) < MAX_ONE_TIME_PREKEY_ID else w.keys.slots == map[])
  }

  lemma SlotCanBeMinted(w: PR.World, slot: nat, rotate: bool, d: Draw)
    requires Mintable(w, slot, rotate, d)
    ensures var m := PR.Minted(w, slot, rotate, d);
            m.Some? && Mint(w.owner, w.keys, slot, rotate, d) == Ok(m.value.keys)
  {
    hide PR.Fresh, PR.Separate, PR.Recognised;
    PR.NextIsOneMore(w);
  }

  /** A slot minted anew: nothing else of the pool moves, and the other draws stay new. */
  lemma MintReplaces(w: PR.World, slot: nat, rotate: bool, d: Draw) returns (m: PR.World)
    requires Mintable(w, slot, rotate, d)
    ensures PR.Sound(m) && Mint(w.owner, w.keys, slot, rotate, d) == Ok(m.keys) && m.relay == w.relay
        && m.nowMs == w.nowMs && m.owner == w.owner
    ensures Current(m.keys) == Current(w.keys) + (if rotate then 1 else 0)
    ensures slot in m.keys.slots && m.keys.slots == w.keys.slots[slot := m.keys.slots[slot]]
    ensures var b := m.keys.slots[slot];
            b in m.minted && b.id == d.bundleId && b.createdAtMs == d.atMs
                && b.expiresAtMs == d.atMs + BUNDLE_LIFETIME_MS
    ensures forall e :: PR.Fresh(w, e) && e.bundleId != d.bundleId && e.publicKey != d.publicKey ==> PR.Fresh(m, e)
  {
    hide PR.Sound, PR.Minted, Mint;
    SlotCanBeMinted(w, slot, rotate, d);
    m := PR.Minted(w, slot, rotate, d).value;
    PR.MintKeepsSound(w, slot, rotate, d);
    PR.MintedBundle(w, slot, rotate, d);
  }

  lemma FreshAfterOne(w: PR.World, v: PR.World, draws: nat -> Draw, from: nat)
    requires FreshFrom(w, draws, from) && v.nowMs == w.nowMs
    requires forall e ::
               PR.Fresh(w, e) && e.bundleId != draws(from).bundleId && e.publicKey != draws(from).publicKey ==>
                 PR.Fresh(v, e)
    ensures FreshFrom(v, draws, from + 1)
  {
    hide PR.Fresh;
  }

  /** One replacement: the slot has a new member, the relay serves it, and nothing else moved. */
  lemma ReplaceServes(w: PR.World, p: Replacement, slot: nat, draws: nat -> Draw, from: nat) returns (v: PR.World)
    requires Complete(w) && slot < POOL_TARGET && FreshFrom(w, draws, from) && Current(w.keys) < MAX_ONE_TIME_PREKEY_ID
    requires p.keys == w.keys && p.relay == w.relay && p.failure.None?
    ensures var q := ReplaceOne(w.owner, p, slot, draws(from), w.nowMs);
            && Complete(v) && FreshFrom(v, draws, from + 1) && v.nowMs == w.nowMs && v.owner == w.owner
            && q == Replacement(v.keys, v.relay, p.minted + 1, p.claimable + 1, None)
            && Current(v.keys) == Current(w.keys) + 1 && v.keys.slots == w.keys.slots[slot := v.keys.slots[slot]]
            && Keeps(w.relay, v.relay) && Served(v.relay, v.keys.slots[slot], v.nowMs)
  {
    hide PR.Sound, PR.Fresh, Mint, Publish, Admitted;
    var d := draws(from);
    assert PR.Fresh(w, d);
    var m := MintReplaces(w, slot, true, d);
    var b := m.keys.slots[slot];
    FreshIsUnknown(w, d);
    MemberIsSigned(m, b);
    SubmitOne(m, b);
    var t := Publish(m.relay, b, m.nowMs).0;
    SubmissionStaysFresh(m, b, t);
    v := m.(relay := t);
    FreshAfterOne(w, v, draws, from);
  }

  lemma FreshIsUnknown(w: PR.World, d: Draw)
    requires PR.Fresh(w, d)
    ensures d.bundleId !in w.relay.bundles
  {}

  lemma MemberIsSigned(w: PR.World, b: Bundle)
    requires PR.Sound(w) && b in w.minted
    ensures PR.SignedBy(w.owner, b) && b.publicKey in w.drawn
  {}

  lemma ServedStay(w: PR.World, v: PR.World, dead: seq<nat>, slot: nat)
    requires Complete(w) && Complete(v) && Keeps(w.relay, v.relay) && v.nowMs == w.nowMs
    requires slot < POOL_TARGET && v.keys.slots == w.keys.slots[slot := v.keys.slots[slot]]
    requires Served(v.relay, v.keys.slots[slot], v.nowMs) && ServedBut(w, dead + [slot])
    ensures ServedBut(v, dead)
  {
    hide PR.Sound, Admitted;
    var all := dead + [slot];
    forall i, j | 0 <= i < j < |dead| ensures dead[i] < dead[j] {
      assert all[i] < all[j];
    }
    forall s | s in dead ensures s < POOL_TARGET {
      assert s in all;
    }
    assert forall s :: s in all <==> s in dead || s == slot;
  }

  /** Outside the dead slots the members are the very same bundles. */
  ghost predicate SameBut(k: Keyring, l: Keyring, dead: seq<nat>) {
    forall slot :: slot in k.slots && slot !in dead ==> slot in l.slots && l.slots[slot] == k.slots[slot]
  }

  lemma SameButOneMore(k: Keyring, l: Keyring, m: Keyring, dead: seq<nat>, slot: nat)
    requires slot in l.slots && l.slots == k.slots[slot := l.slots[slot]] && SameBut(l, m, dead)
    ensures SameBut(k, m, dead + [slot])
  {
    assert forall s :: s in dead + [slot] <==> s in dead || s == slot;
  }

  lemma ReplaceAllFrom(o: Owner, p: Replacement, dead: seq<nat>, draws: nat -> Draw, from: nat, nowMs: nat)
    requires dead != [] && p.failure.None?
    ensures ReplaceAll(o, p, dead, draws, from, nowMs)
            == ReplaceAll(o, ReplaceOne(o, p, dead[|dead| - 1], draws(from), nowMs), dead[..|dead| - 1], draws,
                from + 1, nowMs)
  {
    hide ReplaceOne;
  }

  lemma NothingReplaced(w: PR.World, p: Replacement, dead: seq<nat>, draws: nat -> Draw, from: nat)
    requires dead == [] && Complete(w) && ServedBut(w, dead) && p.keys == w.keys && p.relay == w.relay
        && p.failure.None?
    ensures ServedBut(w, []) && SameBut(w.keys, w.keys, dead)
    ensures ReplaceAll(w.owner, p, dead, draws, from, w.nowMs) == Replacement(w.keys, w.relay, p.minted, p.claimable,
        None)
  {
    hide PR.Sound, Served, Admitted;
  }

  lemma SlotOfPool(w: PR.World, dead: seq<nat>, slot: nat)
    requires Complete(w) && ServedBut(w, dead + [slot])
    ensures slot < POOL_TARGET
  {
    hide PR.Sound, Served, Admitted;
    assert slot in dead + [slot];
  }

  /** Replacing the dead slots, highest first, ends with every slot served and the others as they were. */
  lemma {:induction false} ReplacingServesAll(w: PR.World, p: Replacement, dead: seq<nat>, draws: nat -> Draw,
      from: nat) returns (v: PR.World)
    requires Complete(w) && ServedBut(w, dead) && FreshFrom(w, draws, from)
        && Current(w.keys) + |dead| <= MAX_ONE_TIME_PREKEY_ID
    requires p.keys == w.keys && p.relay == w.relay && p.failure.None?
    ensures Complete(v) && ServedBut(v, []) && v.nowMs == w.nowMs && v.owner == w.owner
    ensures ReplaceAll(w.owner, p, dead, draws, from, w.nowMs)
            == Replacement(v.keys, v.relay, p.minted + |dead|, p.claimable + |dead|, None)
    ensures SameBut(w.keys, v.keys, dead)
    decreases |dead|
  {
    hide *;
    if dead == [] {
      v := w;
      NothingReplaced(w, p, dead, draws, from);
    } else {
      var n := |dead| - 1;
      var rest, slot := dead[..n], dead[n];
      assert dead == rest + [slot];
      SlotOfPool(w, rest, slot);
      var x := ReplaceServes(w, p, slot, draws, from);
      ServedStay(w, x, rest, slot);
      var q := ReplaceOne(w.owner, p, slot, draws(from), w.nowMs);
      ReplaceAllFrom(w.owner, p, dead, draws, from, w.nowMs);
      v := ReplacingServesAll(x, q, rest, draws, from + 1);
      SameButOneMore(w.keys, x.keys, v.keys, rest, slot);
    }
  }

  // ---- the fill, and the whole command ---------------------------------------------------------------------------

  function EmptyBelow(k: Keyring, n: nat): set<nat> { set slot: nat | 0 <= slot < n && slot !in k.slots }

  /** The slots that were filled have members the relay will serve, and the others the members they had. */
  ghost predicate NewMembers(w: PR.World, v: PR.World, filled: set<nat>) {
    && v.keys.slots.Keys == w.keys.slots.Keys + filled
    && (forall slot :: slot in w.keys.slots ==> v.keys.slots[slot] == w.keys.slots[slot])
    && (forall slot :: slot in v.keys.slots && slot !in w.keys.slots ==> Alive(w.relay, v.keys.slots[slot], w.nowMs))
  }

  /** A fill that met no failure: it minted one bundle per empty slot, and left every member as it was. */
  ghost predicate Refilled(w: PR.World, v: PR.World, n: nat, draws: nat -> Draw, from: nat, next: nat) {
    && PR.Sound(v) && v.relay == w.relay && v.nowMs == w.nowMs && v.owner == w.owner
    && FillDown(w.owner, w.keys, n, draws, from) == Ok((v.keys, next))
    && next == from + |EmptyBelow(w.keys, n)| && Current(v.keys) <= Current(w.keys) + (next - from)
    && FreshFrom(v, draws, next)
    && NewMembers(w, v, EmptyBelow(w.keys, n))
  }

  /** What one mint of the fill did. */
  ghost predicate FilledOne(w: PR.World, m: PR.World, slot: nat, draws: nat -> Draw, from: nat) {
    && PR.Sound(m) && m.relay == w.relay && m.nowMs == w.nowMs && m.owner == w.owner && FreshFrom(m, draws, from + 1)
    && Mint(w.owner, w.keys, slot, w.keys.slots != map[], draws(from)) == Ok(m.keys)
    && Current(m.keys) <= Current(w.keys) + 1
    && slot in m.keys.slots && m.keys.slots == w.keys.slots[slot := m.keys.slots[slot]]
    && Alive(w.relay, m.keys.slots[slot], w.nowMs)
  }

  lemma EmptyAfterOne(k: Keyring, l: Keyring, slot: nat)
    requires slot !in k.slots && l.slots.Keys == k.slots.Keys + {slot}
    ensures EmptyBelow(l, slot) == EmptyBelow(k, slot) && EmptyBelow(k, slot + 1) == EmptyBelow(k, slot) + {slot}
    ensures |EmptyBelow(k, slot + 1)| == |EmptyBelow(k, slot)| + 1
  {}

  lemma EmptyFirst(k: Keyring, slot: nat)
    requires slot !in k.slots
    ensures |EmptyBelow(k, slot + 1)| == |EmptyBelow(k, slot)| + 1
  {
    assert EmptyBelow(k, slot + 1) == EmptyBelow(k, slot) + {slot};
  }

  lemma FilledOneLeaves(w: PR.World, m: PR.World, slot: nat, draws: nat -> Draw, from: nat)
    requires slot !in w.keys.slots && FilledOne(w, m, slot, draws, from)
    ensures PR.Sound(m) && FreshFrom(m, draws, from + 1)
    ensures Current(m.keys) + |EmptyBelow(m.keys, slot)| <= Current(w.keys) + |EmptyBelow(w.keys, slot + 1)|
  {
    hide PR.Sound, Mint, FreshFrom, Alive;
    EmptyAfterOne(w.keys, m.keys, slot);
  }

  lemma MembersAfterOne(w: PR.World, m: PR.World, v: PR.World, slot: nat, rest: set<nat>)
    requires slot !in w.keys.slots && slot in m.keys.slots && m.keys.slots == w.keys.slots[slot := m.keys.slots[slot]]
    requires NewMembers(m, v, rest) && m.relay == w.relay && m.nowMs == w.nowMs
        && Alive(w.relay, m.keys.slots[slot], w.nowMs)
    ensures NewMembers(w, v, rest + {slot})
  {
    hide Alive;
  }

  lemma FillDownAfterOne(w: PR.World, m: PR.World, v: PR.World, slot: nat, draws: nat -> Draw, from: nat, next: nat)
    requires slot !in w.keys.slots && m.owner == w.owner
    requires Mint(w.owner, w.keys, slot, w.keys.slots != map[], draws(from)) == Ok(m.keys)
    requires FillDown(m.owner, m.keys, slot, draws, from + 1) == Ok((v.keys, next))
    ensures FillDown(w.owner, w.keys, slot + 1, draws, from) == Ok((v.keys, next))
  {
    hide Mint, FillDown;
    FillDownFrom(w.owner, w.keys, slot + 1, draws, from);
  }

  lemma RefilledAfterOne(w: PR.World, m: PR.World, v: PR.World, slot: nat, draws: nat -> Draw, from: nat, next: nat)
    requires slot !in w.keys.slots && FilledOne(w, m, slot, draws, from) && Refilled(m, v, slot, draws, from + 1, next)
    ensures Refilled(w, v, slot + 1, draws, from, next)
  {
    hide PR.Sound, Mint, FreshFrom, FillDown, EmptyBelow, Alive, Current, NewMembers;
    FillDownAfterOne(w, m, v, slot, draws, from, next);
    EmptyAfterOne(w.keys, m.keys, slot);
    MembersAfterOne(w, m, v, slot, EmptyBelow(w.keys, slot));
  }

  lemma NothingToRefill(w: PR.World, draws: nat -> Draw, from: nat)
    requires PR.Sound(w) && FreshFrom(w, draws, from)
    ensures Refilled(w, w, 0, draws, from, from)
  {
    hide FreshFrom, PR.Sound, Alive;
    assert EmptyBelow(w.keys, 0) == {};
  }

  lemma SameEmpty(k: Keyring, slot: nat)
    requires slot in k.slots
    ensures EmptyBelow(k, slot + 1) == EmptyBelow(k, slot)
  {}

  lemma RefilledPast(w: PR.World, v: PR.World, slot: nat, draws: nat -> Draw, from: nat, next: nat)
    requires slot in w.keys.slots && Refilled(w, v, slot, draws, from, next)
    ensures Refilled(w, v, slot + 1, draws, from, next)
  {
    hide PR.Sound, FreshFrom, Alive, FillDown, EmptyBelow;
    FillDownFrom(w.owner, w.keys, slot + 1, draws, from);
    SameEmpty(w.keys, slot);
  }

  lemma {:induction false} FillingCompletes(w: PR.World, n: nat, draws: nat -> Draw, from: nat)
      returns (v: PR.World, next: nat)
    requires PR.Sound(w) && n <= POOL_TARGET && FreshFrom(w, draws, from)
    requires Current(w.keys) + |EmptyBelow(w.keys, n)| <= MAX_ONE_TIME_PREKEY_ID
    ensures Refilled(w, v, n, draws, from, next)
    decreases n
  {
    hide PR.Sound, FreshFrom, Refilled, EmptyBelow, FilledOne;
    if n == 0 {
      v, next := w, from;
      NothingToRefill(w, draws, from);
    } else if n - 1 in w.keys.slots {
      SameEmpty(w.keys, n - 1);
      v, next := FillingCompletes(w, n - 1, draws, from);
      RefilledPast(w, v, n - 1, draws, from, next);
    } else {
      EmptyFirst(w.keys, n - 1);
      var m := FillOne(w, n - 1, draws, from);
      FilledOneLeaves(w, m, n - 1, draws, from);
      v, next := FillingCompletes(m, n - 1, draws, from + 1);
      RefilledAfterOne(w, m, v, n - 1, draws, from, next);
    }
  }

  lemma FillOne(w: PR.World, slot: nat, draws: nat -> Draw, from: nat) returns (m: PR.World)
    requires PR.Sound(w) && slot < POOL_TARGET && FreshFrom(w, draws, from) && Current(w.keys) < MAX_ONE_TIME_PREKEY_ID
    ensures FilledOne(w, m, slot, draws, from)
  {
    hide PR.Sound, Mint, PR.Fresh;
    assert PR.Fresh(w, draws(from));
    m := MintReplaces(w, slot, w.keys.slots != map[], draws(from));
    FreshIsUnknown(w, draws(from));
    FreshAfterOne(w, m, draws, from);
  }

  ghost function EmptySlots(k: Keyring): set<nat> { EmptyBelow(k, POOL_TARGET) }

  /** The slots whose member was claimed or is outside its validity window. */
  ghost function DeadSlots(w: PR.World): set<nat> {
    set slot | slot in w.keys.slots && slot < POOL_TARGET && !Alive(w.relay, w.keys.slots[slot], w.nowMs)
  }

  lemma {:induction false} AscendingCounts(s: seq<nat>, members: set<nat>)
    requires forall i, j :: 0 <= i < j < |s| ==> s[i] < s[j]
    requires forall x :: x in s <==> x in members
    ensures |s| == |members|
    decreases |s|
  {
    if s == [] {
      assert members == {};
    } else {
      var n := |s| - 1;
      assert s == s[..n] + [s[n]];
      assert s[n] in members;
      forall x ensures x in s[..n] <==> x in members - {s[n]} {
        if x in s[..n] { assert x in s; }
      }
      AscendingCounts(s[..n], members - {s[n]});
    }
  }

  /** After a publish: the pool is whole, every member can be claimed, and the live ones are the very same bytes. */
  ghost predicate Restored(w: PR.World, k: Keyring, r: Relay) {
    && (forall slot: nat :: slot < POOL_TARGET ==>
          slot in k.slots && Served(r, k.slots[slot], w.nowMs) && KeyFor(k.slots[slot]) in r.available)
    && (forall slot: nat :: slot in w.keys.slots && slot !in DeadSlots(w) ==>
          slot in k.slots && k.slots[slot] == w.keys.slots[slot])
  }

  /** The fill and the submissions, before anything is replaced. */
  lemma FilledAndSubmitted(w: PR.World, v: PR.World, draws: nat -> Draw, next: nat)
    requires Complete(v) && Refilled(w, v, POOL_TARGET, draws, 0, next)
    ensures var s := SubmitAll(v.relay, MembersOf(v.keys), v.nowMs);
            && s.failure.None? && s.claimable + |s.dead| == POOL_TARGET && |s.dead| == |DeadSlots(w)|
            && Complete(v.(relay := s.relay)) && ServedBut(v.(relay := s.relay), s.dead)
                && FreshFrom(v.(relay := s.relay), draws, next)
            && (forall slot :: slot in s.dead <==> slot in DeadSlots(w))
  {
    hide *;
    SubmittingJudges(v, POOL_TARGET);
    WholePool(v);
    var s := SubmitAll(v.relay, MembersOf(v.keys), v.nowMs);
    RefilledMembers(w, v, draws, next);
    JudgedIsServed(v, s);
    DeadAreDead(w, v, s);
    AscendingCounts(s.dead, DeadSlots(w));
    StillFresh(v, v.(relay := s.relay), draws, next);
  }

  lemma WholePool(v: PR.World)
    requires Complete(v)
    ensures forall slot: nat :: slot < POOL_TARGET ==> slot in v.keys.slots
    ensures MembersOf(v.keys)[..POOL_TARGET] == MembersOf(v.keys)
  {
    hide PR.Sound, Admitted;
  }

  lemma RefilledMembers(w: PR.World, v: PR.World, draws: nat -> Draw, next: nat)
    requires Refilled(w, v, POOL_TARGET, draws, 0, next)
    ensures NewMembers(w, v, EmptyBelow(w.keys, POOL_TARGET)) && FreshFrom(v, draws, next) && v.relay == w.relay
        && v.nowMs == w.nowMs
  {
    hide PR.Sound, FreshFrom, NewMembers, FillDown;
  }

  lemma JudgedIsServed(v: PR.World, s: Submission)
    requires Complete(v) && Judged(v, POOL_TARGET, s)
    ensures var x := v.(relay := s.relay);
            s.failure.None? && s.claimable + |s.dead| == POOL_TARGET && Complete(x) && ServedBut(x, s.dead)
                && StaysFresh(v, x)
    ensures forall i, j :: 0 <= i < j < |s.dead| ==> s.dead[i] < s.dead[j]
  {
    hide PR.Sound, Alive, Served, Admitted, StaysFresh;
  }

  lemma DeadAreDead(w: PR.World, v: PR.World, s: Submission)
    requires Complete(v) && Judged(v, POOL_TARGET, s) && v.relay == w.relay && v.nowMs == w.nowMs
    requires NewMembers(w, v, EmptyBelow(w.keys, POOL_TARGET))
    ensures forall slot :: slot in s.dead <==> slot in DeadSlots(w)
  {
    hide PR.Sound, Alive, Served, Admitted, StaysFresh;
    forall slot ensures slot in s.dead <==> slot in DeadSlots(w) {
      if slot in s.dead { assert slot < POOL_TARGET && slot in v.keys.slots; }
    }
  }

  lemma StillFresh(v: PR.World, x: PR.World, draws: nat -> Draw, next: nat)
    requires StaysFresh(v, x) && FreshFrom(v, draws, next) && x.nowMs == v.nowMs
    ensures FreshFrom(x, draws, next)
  {
    hide PR.Fresh;
  }

  /**
   Publish restores the pool.  In every state the owner and the relay can reach, when no claim comes in
   between, the clocks agree and the identifiers last, `publish` ends with all twenty slots stored at the
   relay, unclaimed and available; it minted exactly one bundle for each slot that was empty and each whose
   member had been claimed or had expired; every other member is byte-identical; and it reports just that.
   */
  lemma PublishRestoresThePool(w: PR.World, draws: nat -> Draw)
    requires PR.Inv(w) && Admitted(w.relay, w.owner) && FreshFrom(w, draws, 0)
    requires Current(w.keys) + |EmptySlots(w.keys)| + |DeadSlots(w)| <= MAX_ONE_TIME_PREKEY_ID
    ensures var (k, r, result) := PublishPool(w.owner, w.keys, w.relay, draws, w.nowMs);
            && result == Ok(Report(POOL_TARGET, POOL_TARGET, |EmptySlots(w.keys)| + |DeadSlots(w)|))
            && Restored(w, k, r) && Linked(r)
  {
    hide *;
    InvIsSound(w);
    var v, next := FillingCompletes(w, POOL_TARGET, draws, 0);
    FullyFilled(w, v, draws, next);
    FilledAndSubmitted(w, v, draws, next);
    var members := MembersOf(v.keys);
    var s := SubmitAll(v.relay, members, v.nowMs);
    var x := v.(relay := s.relay);
    var p := Replacement(v.keys, s.relay, next, s.claimable, None);
    var y := ReplacingServesAll(x, p, s.dead, draws, next);
    AllServed(w, v, x, y, s.dead);
    var q := ReplaceAll(w.owner, p, s.dead, draws, next, w.nowMs);
    PublishPoolIs(w.owner, w.keys, w.relay, draws, w.nowMs, v.keys, next, s, q);
  }

  lemma InvIsSound(w: PR.World)
    requires PR.Inv(w)
    ensures PR.Sound(w) && EmptySlots(w.keys) == EmptyBelow(w.keys, POOL_TARGET)
  {}

  lemma PublishPoolIs(o: Owner, k: Keyring, r: Relay, draws: nat -> Draw, nowMs: nat, keys: Keyring, next: nat,
      s: Submission, q: Replacement)
    requires FillDown(o, k, POOL_TARGET, draws, 0) == Ok((keys, next))
    requires (forall slot: nat :: slot < POOL_TARGET ==> slot in keys.slots)
        && s == SubmitAll(r, MembersOf(keys), nowMs) && s.failure.None?
    requires q == ReplaceAll(o, Replacement(keys, s.relay, next, s.claimable, None), s.dead, draws, next, nowMs)
        && q.failure.None?
    ensures PublishPool(o, k, r, draws, nowMs) == (q.keys, q.relay, Ok(Report(POOL_TARGET, q.claimable, q.minted)))
  {
    hide FillDown, SubmitAll, ReplaceAll, MembersOf;
  }

  lemma FullyFilled(w: PR.World, v: PR.World, draws: nat -> Draw, next: nat)
    requires Refilled(w, v, POOL_TARGET, draws, 0, next) && Admitted(w.relay, w.owner)
    ensures Complete(v) && v.relay == w.relay && v.nowMs == w.nowMs && v.owner == w.owner
    ensures FillDown(w.owner, w.keys, POOL_TARGET, draws, 0) == Ok((v.keys, next)) && next == |EmptySlots(w.keys)|
    ensures Current(v.keys) <= Current(w.keys) + |EmptySlots(w.keys)|
    ensures forall slot :: slot in w.keys.slots ==> slot in v.keys.slots && v.keys.slots[slot] == w.keys.slots[slot]
    ensures forall slot: nat :: slot < POOL_TARGET ==> slot in v.keys.slots
  {
    hide PR.Sound, FillDown, FreshFrom, Alive;
  }

  lemma AllServed(w: PR.World, v: PR.World, x: PR.World, y: PR.World, dead: seq<nat>)
    requires Complete(v) && x == v.(relay := x.relay) && Complete(y) && ServedBut(y, []) && y.nowMs == w.nowMs
    requires forall slot :: slot in w.keys.slots ==> slot in v.keys.slots && v.keys.slots[slot] == w.keys.slots[slot]
    requires forall slot :: slot in dead <==> slot in DeadSlots(w)
    requires SameBut(x.keys, y.keys, dead)
    ensures Restored(w, y.keys, y.relay) && Linked(y.relay)
  {
    hide DeadSlots, PR.Allocated, PR.Anchored, PR.Separate, Accounted, Bound, Reserved;
  }

  /** In particular a new profile's first publish, at a relay that knows nothing, mints and serves all twenty. */
  lemma AFirstPublishMintsTwenty(o: Owner, initialPreKey: nat, nowMs: nat)
    ensures var draws := (i: nat) => Draw(i, initialPreKey + 1 + i, nowMs, 0);
            var keys := Keyring(None, map[1 := initialPreKey], map[]);
            PublishPool(o, keys, EMPTY_RELAY, draws, nowMs).2 == Ok(Report(20, 20, 20))
  {
    hide PublishPool;
    var draws := (i: nat) => Draw(i, initialPreKey + 1 + i, nowMs, 0);
    var w := PR.World(o, Keyring(None, map[1 := initialPreKey], map[]), EMPTY_RELAY, {}, {initialPreKey}, [], nowMs);
    EmptyIsLinked();
    PR.StartIsInv(w, initialPreKey);
    assert DeadSlots(w) == {};
    NoSlotsAreEmpty(w.keys, POOL_TARGET);
    PublishRestoresThePool(w, draws);
  }

  lemma {:induction false} NoSlotsAreEmpty(k: Keyring, n: nat)
    requires k.slots == map[]
    ensures |EmptyBelow(k, n)| == n
    decreases n
  {
    if n > 0 {
      NoSlotsAreEmpty(k, n - 1);
      EmptyFirst(k, n - 1);
    } else {
      assert EmptyBelow(k, 0) == {};
    }
  }

  /** Dead slots are replaced highest first: of two replaced together the lower one has the younger prekey. */
  lemma {:induction false} LowerReplacementsAreYounger(o: Owner, p: Replacement, dead: seq<nat>, draws: nat -> Draw,
      from: nat, nowMs: nat, i: nat, j: nat)
    requires i < j < |dead| && forall a, b :: 0 <= a < b < |dead| ==> dead[a] < dead[b]
    requires ReplaceAll(o, p, dead, draws, from, nowMs).failure.None?
    ensures var q := ReplaceAll(o, p, dead, draws, from, nowMs);
            && dead[i] in q.keys.slots && dead[j] in q.keys.slots
            && q.keys.slots[dead[j]].keyId < q.keys.slots[dead[i]].keyId
    decreases |dead|
  {
    hide Mint, Publish, NextId;
    var n := |dead| - 1;
    FailureStays(o, p, dead, draws, from, nowMs);
    var one := ReplaceOne(o, p, dead[n], draws(from), nowMs);
    FailureStays(o, one, dead[..n], draws, from + 1, nowMs);
    AMintSigns(o, p.keys, dead[n], true, draws(from));
    if j < n {
      LowerReplacementsAreYounger(o, one, dead[..n], draws, from + 1, nowMs, i, j);
    } else {
      ReplacedLater(o, one, dead[..n], draws, from + 1, nowMs, i, dead[n]);
    }
  }

  lemma FailureStays(o: Owner, p: Replacement, dead: seq<nat>, draws: nat -> Draw, from: nat, nowMs: nat)
    ensures p.failure.Some? ==> ReplaceAll(o, p, dead, draws, from, nowMs).failure.Some?
  {}

  /** What is replaced later comes after everything on offer now; a slot that is not replaced stays. */
  lemma {:induction false} ReplacedLater(o: Owner, p: Replacement, dead: seq<nat>, draws: nat -> Draw, from: nat,
      nowMs: nat, i: nat, kept: nat)
    requires i < |dead| && p.failure.None? && kept in p.keys.slots && (forall a :: 0 <= a < |dead| ==> dead[a] < kept)
    requires forall a, b :: 0 <= a < b < |dead| ==> dead[a] < dead[b]
    requires ReplaceAll(o, p, dead, draws, from, nowMs).failure.None?
    ensures var q := ReplaceAll(o, p, dead, draws, from, nowMs);
            && kept in q.keys.slots && q.keys.slots[kept] == p.keys.slots[kept]
            && dead[i] in q.keys.slots && q.keys.slots[dead[i]].keyId > Current(p.keys)
    decreases |dead|
  {
    hide Mint, Publish, NextId;
    var n := |dead| - 1;
    var one := ReplaceOne(o, p, dead[n], draws(from), nowMs);
    FailureStays(o, one, dead[..n], draws, from + 1, nowMs);
    AMintSigns(o, p.keys, dead[n], true, draws(from));
    TheNextIdIsOneAbove(p.keys, draws(from).publicKey);
    if n > 0 {
      ReplacedLater(o, one, dead[..n], draws, from + 1, nowMs, if i < n then i else 0, kept);
      ReplacedLater(o, one, dead[..n], draws, from + 1, nowMs, 0, dead[n]);
    } else {
      assert dead[..0] == [];
    }
  }

  /** A member the relay refuses for another reason than its window ends the command there: nothing is replaced. */
  lemma ARefusedMemberEndsThePublish(o: Owner, k: Keyring, r: Relay, draws: nat -> Draw, nowMs: nat, keys: Keyring,
      next: nat, n: nat, e: PreKeyError)
    requires FillDown(o, k, POOL_TARGET, draws, 0) == Ok((keys, next)) && n < POOL_TARGET
    requires forall slot: nat :: slot < POOL_TARGET ==> slot in keys.slots
    requires var before := SubmitAll(r, MembersOf(keys)[..n], nowMs);
             before.failure.None? && e != BundleExpired && Publish(before.relay, keys.slots[n], nowMs).1 == Err(e)
    ensures PublishPool(o, k, r, draws, nowMs)
            == (keys, SubmitAll(r, MembersOf(keys)[..n], nowMs).relay, Err(RelayRefused(e)))
  {
    hide FillDown, Publish, ReplaceAll;
    var members := MembersOf(keys);
    assert members[..n + 1][..n] == members[..n] && members[..n + 1][n] == keys.slots[n];
    RefusalsChangeNothing(SubmitAll(r, members[..n], nowMs).relay, keys.slots[n], nowMs);
    SubmitStops(r, members, n + 1, nowMs);
    FillFillsEverySlot(o, k, POOL_TARGET, draws, 0);
  }

  lemma RefusalsChangeNothing(r: Relay, b: Bundle, nowMs: nat)
    ensures Publish(r, b, nowMs).1.Err? ==> Publish(r, b, nowMs).0 == r
  {}

  // ---- the command ------------------------------------------------------------------------------------------------

  class Publisher {
    const profile: Profile
    const relay: PreKeyBundleRepository

    constructor (profile: Profile, relay: PreKeyBundleRepository)
      ensures this.profile == profile && this.relay == relay
    {
      this.profile, this.relay := profile, relay;
    }

    /** Every member submitted again, the expired and the claimed ones noted. */
    method Submit(members: seq<Bundle>, nowMs: nat)
        returns (dead: seq<nat>, claimable: nat, failure: Option<PublishError>)
      requires Linked(relay.State())
      modifies relay
      ensures SubmitAll(old(relay.State()), members, nowMs) == Submission(relay.State(), dead, claimable, failure)
      ensures Linked(relay.State())
    {
      hide Publish, Linked;
      dead, claimable, failure := [], 0, None;
      var slot := 0;
      while slot < |members|
        invariant slot <= |members| && failure.None? && Linked(relay.State())
        invariant SubmitAll(old(relay.State()), members[..slot], nowMs) == Submission(relay.State(), dead, claimable,
            None)
      {
        assert members[..slot + 1][..slot] == members[..slot];
        var answer := relay.SaveSignalV2(members[slot], nowMs);
        match answer {
          case Ok(true) => claimable := claimable + 1;
          case Ok(false) => dead := dead + [slot];
          case Err(BundleExpired) => dead := dead + [slot];
          case Err(e) =>
            failure := Some(RelayRefused(e));
            SubmitStops(old(relay.State()), members, slot + 1, nowMs);
            return;
        }
        slot := slot + 1;
      }
      assert members[..|members|] == members;
    }

    /** The dead slots replaced, highest first: each member stored before it is offered. */
    method Replace(dead: seq<nat>, minted: nat, claimable: nat, draws: nat -> Draw, nowMs: nat)
      returns (m: nat, c: nat, failure: Option<PublishError>)
      requires Linked(relay.State()) && forall slot :: slot in dead ==> slot < POOL_TARGET
      modifies profile`keys, relay
      ensures ReplaceAll(profile.owner, Replacement(old(profile.keys), old(relay.State()), minted, claimable, None),
          dead, draws, minted, nowMs)
              == Replacement(profile.keys, relay.State(), m, c, failure)
      ensures Linked(relay.State())
    {
      hide Publish, Linked, Mint;
      m, c, failure := minted, claimable, None;
      ghost var all := ReplaceAll(profile.owner, Replacement(profile.keys, relay.State(), minted, claimable, None),
          dead, draws, minted, nowMs);
      var left := |dead|;
      assert dead[..left] == dead;
      while left > 0
        invariant left <= |dead| && m == minted + (|dead| - left) && failure.None? && Linked(relay.State())
        invariant ReplaceAll(profile.owner, Replacement(profile.keys, relay.State(), m, c, None), dead[..left], draws,
            m, nowMs) == all
      {
        left := left - 1;
        assert dead[..left + 1][..left] == dead[..left] && dead[left] in dead;
        var bundle := profile.ReplacePublicationSlot(dead[left], draws(m));
        if bundle.Err? {
          failure := Some(PoolFailed(bundle.error));
          return;
        }
        m := m + 1;
        var answer := relay.SaveSignalV2(bundle.value, nowMs);
        if answer.Err? {
          failure := Some(RelayRefused(answer.error));
          return;
        }
        if answer.value { c := c + 1; }
      }
    }

    method RestorePool(draws: nat -> Draw, nowMs: nat) returns (r: Result<Report, PublishError>)
      requires WithinPool(profile.keys) && Linked(relay.State())
      modifies profile`keys, relay
      ensures (profile.keys, relay.State(), r)
              == PublishPool(profile.owner, old(profile.keys), old(relay.State()), draws, nowMs)
    {
      hide FillDown, SubmitAll, ReplaceAll, Linked;
      var restored := profile.RestorePublicationPool(draws, 0);
      if restored.Err? { return Err(PoolFailed(restored.error)); }
      var (members, minted) := restored.value;
      ghost var r0 := relay.State();
      assert Bundles(members) == MembersOf(profile.keys);
      var dead, claimable, failure := Submit(Bundles(members), nowMs);
      if failure.Some? { return Err(failure.value); }
      DeadAreSlots(r0, Bundles(members), nowMs);
      minted, claimable, failure := Replace(dead, minted, claimable, draws, nowMs);
      r := if failure.Some? then Err(failure.value) else Ok(Report(|members|, claimable, minted));
    }
  }

  function Bundles(members: seq<Option<Bundle>>): seq<Bundle>
    requires forall i :: 0 <= i < |members| ==> members[i].Some?
  {
    seq(|members|, i requires 0 <= i < |members| => members[i].value)
  }

  /** A refusal is final: nothing after it is submitted. */
  lemma {:induction false} SubmitStops(r: Relay, members: seq<Bundle>, n: nat, nowMs: nat)
    requires n <= |members| && SubmitAll(r, members[..n], nowMs).failure.Some?
    ensures SubmitAll(r, members, nowMs) == SubmitAll(r, members[..n], nowMs)
    decreases |members|
  {
    if n == |members| {
      assert members[..n] == members;
    } else {
      var m := |members| - 1;
      assert members[..m][..n] == members[..n];
      SubmitStops(r, members[..m], n, nowMs);
    }
  }

  lemma {:induction false} DeadAreSlots(r: Relay, members: seq<Bundle>, nowMs: nat)
    ensures forall slot :: slot in SubmitAll(r, members, nowMs).dead ==> slot < |members|
  {
    if members != [] {
      DeadAreSlots(r, members[..|members| - 1], nowMs);
    }
  }
}
