/**
 The pool and the relay together, as a machine: the owner fills and replaces slots, any bundle it ever
 minted may reach the relay at any later time and any number of times, other devices publish, anyone
 claims, and a first message consumes the prekey it was built on.
 */
module PoolRuns {
  import opened Wrappers
  import opened PreKeyRelay
  import opened PreKeyPool

  datatype World = World(
    owner: Owner,
    keys: Keyring,
    relay: Relay,
    minted: set<Bundle>,         // every bundle this owner ever signed
    drawn: set<nat>,             // every key this owner ever generated
    issued: seq<nat>,            // the prekey identifiers allocated, in order
    nowMs: nat
  )

  datatype Event =
    | Tick(ms: nat)
    | Fill(draws: nat -> Draw)
    | Anchor(draw: Draw)                 // slot 0 as it is, or minted around the initial prekey
    | Replace(slot: nat, draw: Draw)
    | Arrive(bundle: Bundle)             // a publish request of this owner's, first or repeated
    | OthersPublish(bundle: Bundle)
    | Claims(claim: ClaimId, selector: Selector)
    | Consume(keyId: nat)                // a first message built on a claimed bundle was decrypted

  /** Random values are new: no one has used the identifier or the key before. */
  ghost predicate Fresh(w: World, d: Draw) {
    && d.publicKey !in w.drawn && d.publicKey !in w.relay.publics
    && d.bundleId !in w.relay.bundles && (forall b :: b in w.minted ==> b.id != d.bundleId)
  }

  /** The owner mints one slot. */
  ghost function Minted(w: World, slot: nat, rotate: bool, d: Draw): Option<World> {
    if slot >= POOL_TARGET || !Fresh(w, d) then None else
    match Mint(w.owner, w.keys, slot, rotate, d)
    case Err(_) => None
    case Ok(keys) =>
      Some(w.(keys := keys,
              minted := w.minted + {keys.slots[slot]},
              drawn := w.drawn + {d.publicKey},
              issued := if rotate then w.issued + [Current(keys)] else w.issued))
  }

  ghost function Filled(w: World, n: nat, draws: nat -> Draw, from: nat): Option<World>
    decreases n
  {
    if n == 0 then Some(w)
    else if n - 1 in w.keys.slots then Filled(w, n - 1, draws, from)
    else match Minted(w, n - 1, w.keys.slots != map[], draws(from))
         case None => None
         case Some(next) => Filled(next, n - 1, draws, from + 1)
  }

  /** Someone claimed a bundle offering this prekey, which only then can arrive in a first message. */
  ghost predicate Used(w: World, keyId: nat) {
    exists b :: b in w.minted && b.keyId == keyId && b.id in w.relay.bundles && w.relay.bundles[b.id].claimed
  }

  /** A transaction that failed leaves everything as it was. */
  function Or(after: Option<World>, before: World): World {
    match after case None => before case Some(w) => w
  }

  ghost function Apply(w: World, e: Event): World {
    match e
    case Tick(ms) => w.(nowMs := w.nowMs + ms)
    case Fill(draws) => Or(Filled(w, POOL_TARGET, draws, 0), w)
    case Anchor(d) => if 0 in w.keys.slots then w else Or(Minted(w, 0, false, d), w)
    case Replace(slot, d) => if slot != 0 && w.keys.slots == map[] then w else Or(Minted(w, slot, true, d), w)
    case Arrive(b) => if b in w.minted then w.(relay := Publish(w.relay, b, w.nowMs).0) else w
    case OthersPublish(b) =>
      if ByOthers(w, b) then w.(relay := Publish(w.relay, b, w.nowMs).0) else w
    case Claims(claim, q) => w.(relay := Claim(w.relay, claim, q, w.nowMs).0)
    case Consume(keyId) => if Used(w, keyId) then w.(keys := w.keys.(pres := w.keys.pres - {keyId})) else w
  }

  /** A bundle of another device: nobody else signs for this one, and its identifiers and keys are its own. */
  ghost predicate ByOthers(w: World, b: Bundle) {
    && (b.identity, b.device) != (w.owner.identity, w.owner.device)
    && b.publicKey !in w.drawn && forall m :: m in w.minted ==> m.id != b.id
  }

  ghost function Run(w: World, events: seq<Event>): World
    decreases |events|
  {
    if events == [] then w else Run(Apply(w, events[0]), events[1..])
  }

  /** A new profile, and a relay that knows nothing of it. */
  ghost predicate Start(w: World, initialPreKey: nat) {
    && w.keys == Keyring(None, map[1 := initialPreKey], map[]) && w.minted == {} && w.issued == []
    && w.drawn == {initialPreKey} && Linked(w.relay)
    && forall id :: id in w.relay.bundles ==> ByOthers(w, w.relay.bundles[id].bundle)
  }

  // ---- the invariant ----------------------------------------------------------------------------------------

  /** Identifiers only grow: nothing held or signed lies beyond the one on offer. */
  ghost predicate Allocated(w: World) {
    && 1 <= Current(w.keys) <= MAX_ONE_TIME_PREKEY_ID
    && (forall id :: id in w.keys.pres ==> id <= Current(w.keys))
    && (forall b :: b in w.minted ==> b.keyId <= Current(w.keys))
    && (forall i :: 0 <= i < |w.issued| ==> 1 < w.issued[i] <= Current(w.keys))
    && (forall i, j :: 0 <= i < j < |w.issued| ==> w.issued[i] < w.issued[j])
  }

  /** Before the first bundle the initial prekey is on offer and nothing was ever signed. */
  ghost predicate Anchored(w: World) {
    && WithinPool(w.keys)
    && (w.keys.slots == map[] ==> w.keys.pointer.None? && w.keys.pres.Keys == {1} && w.minted == {})
  }

  ghost predicate SignedBy(o: Owner, b: Bundle) {
    && b.identity == o.identity && b.device == o.device && b.devicePubKey == o.devicePubKey
    && b.signalIdentity == o.signalIdentity && b.oneTime && b.expiresAtMs == b.createdAtMs + BUNDLE_LIFETIME_MS
  }

  /** Two bundles share neither identifier nor one-time prekey. */
  predicate Apart(a: Bundle, b: Bundle) {
    a.id != b.id && a.keyId != b.keyId && a.publicKey != b.publicKey
  }

  /** Every bundle ever minted has a one-time prekey of its own, and the slots hold different ones. */
  ghost predicate Separate(w: World) {
    && (forall b :: b in w.minted ==> SignedBy(w.owner, b) && b.publicKey in w.drawn)
    && (forall a, b :: a in w.minted && b in w.minted && a != b ==> Apart(a, b))
    && (forall s :: s in w.keys.slots ==> w.keys.slots[s] in w.minted)
    && (forall s, t :: s in w.keys.slots && t in w.keys.slots && s != t ==> w.keys.slots[s] != w.keys.slots[t])
    && (forall id :: id in w.keys.pres ==> w.keys.pres[id] in w.drawn)
    && (forall id, b :: id in w.keys.pres && b in w.minted ==> (w.keys.pres[id] == b.publicKey <==> id == b.keyId))
  }

  /** What the relay stores is this owner's own bundles, unchanged, and bundles of others. */
  ghost predicate Recognised(w: World) {
    && Linked(w.relay)
    && forall id :: id in w.relay.bundles ==>
         w.relay.bundles[id].bundle in w.minted || ByOthers(w, w.relay.bundles[id].bundle)
  }

  ghost predicate Sound(w: World) { Allocated(w) && Anchored(w) && Separate(w) && Recognised(w) }

  /** Between two commands a pool that has any member has its anchor. */
  ghost predicate Inv(w: World) { Sound(w) && (w.keys.slots != map[] ==> 0 in w.keys.slots) }

  // ---- minting ------------------------------------------------------------------------------------------------

  lemma NextIsOneMore(w: World)
    requires Allocated(w)
    ensures NextId(w.keys) == Current(w.keys) + 1
  {
    var ids := w.keys.pres.Keys + {Current(w.keys)};
    assert Current(w.keys) in ids;
  }

  /** The new bundle of a mint that rotates, and of the one that does not. */
  lemma MintedBundle(w: World, slot: nat, rotate: bool, d: Draw)
    requires Sound(w) && Minted(w, slot, rotate, d).Some? && (rotate || w.keys.slots == map[])
    ensures var t := Minted(w, slot, rotate, d).value;
            var b := t.keys.slots[slot];
            && slot < POOL_TARGET && Current(t.keys) <= MAX_ONE_TIME_PREKEY_ID
            && t.keys == Keyring(t.keys.pointer, t.keys.pres, w.keys.slots[slot := b])
            && b == Signed(w.owner, t.keys, d) && b.oneTime
            && Current(t.keys) == Current(w.keys) + (if rotate then 1 else 0)
            && t.keys.pres == (if rotate then w.keys.pres[Current(t.keys) := d.publicKey] else w.keys.pres)
            && (rotate ==> b.publicKey == d.publicKey)
            && t == w.(keys := t.keys, minted := w.minted + {b}, drawn := w.drawn + {d.publicKey},
                       issued := if rotate then w.issued + [Current(t.keys)] else w.issued)
  {
    NextIsOneMore(w);
  }

  lemma MintKeepsAllocated(w: World, slot: nat, rotate: bool, d: Draw)
    requires Sound(w) && Minted(w, slot, rotate, d).Some? && (rotate || w.keys.slots == map[])
    ensures Allocated(Minted(w, slot, rotate, d).value) && Anchored(Minted(w, slot, rotate, d).value)
  {
    hide Minted, Separate, Recognised;
    MintedBundle(w, slot, rotate, d);
  }

  lemma MintKeepsSeparate(w: World, slot: nat, rotate: bool, d: Draw)
    requires Sound(w) && Minted(w, slot, rotate, d).Some? && (rotate || w.keys.slots == map[])
    ensures Separate(Minted(w, slot, rotate, d).value)
  {
    var t := Minted(w, slot, rotate, d).value;
    MintedBundle(w, slot, rotate, d);
    NewBundleIsSeparate(w, t, slot, rotate, d);
  }

  lemma NewBundleIsSeparate(w: World, t: World, slot: nat, rotate: bool, d: Draw)
    requires Allocated(w) && Anchored(w) && Separate(w) && Fresh(w, d) && (rotate || w.keys.slots == map[])
    requires slot in t.keys.slots && t.keys.slots == w.keys.slots[slot := t.keys.slots[slot]]
    requires var b := t.keys.slots[slot];
             && b == Signed(w.owner, t.keys, d) && b.oneTime
             && Current(t.keys) == Current(w.keys) + (if rotate then 1 else 0)
             && t.keys.pres == (if rotate then w.keys.pres[Current(t.keys) := d.publicKey] else w.keys.pres)
             && t.owner == w.owner && t.minted == w.minted + {b} && t.drawn == w.drawn + {d.publicKey}
    ensures Separate(t)
  {
    var b := t.keys.slots[slot];
    forall a | a in w.minted ensures Apart(a, b) {}
    forall s, u | s in t.keys.slots && u in t.keys.slots && s != u ensures t.keys.slots[s] != t.keys.slots[u] {
      assert s != slot ==> t.keys.slots[s] in w.minted;
      assert u != slot ==> t.keys.slots[u] in w.minted;
    }
  }

  lemma MintKeepsRecognised(w: World, slot: nat, rotate: bool, d: Draw)
    requires Sound(w) && Minted(w, slot, rotate, d).Some? && (rotate || w.keys.slots == map[])
    ensures Recognised(Minted(w, slot, rotate, d).value)
  {
    var t := Minted(w, slot, rotate, d).value;
    MintedBundle(w, slot, rotate, d);
    OthersStayOthers(w, t, d);
  }

  lemma OthersStayOthers(w: World, t: World, d: Draw)
    requires Recognised(w) && Fresh(w, d) && t.owner == w.owner && t.relay == w.relay
    requires w.minted <= t.minted && t.drawn == w.drawn + {d.publicKey}
    requires forall b :: b in t.minted && b !in w.minted ==> b.id == d.bundleId
    ensures Recognised(t)
  {
    forall id | id in t.relay.bundles && t.relay.bundles[id].bundle !in t.minted
      ensures ByOthers(t, t.relay.bundles[id].bundle)
    {
      assert t.relay.bundles[id].bundle.publicKey in t.relay.publics && t.relay.bundles[id].bundle.id == id;
    }
  }

  lemma MintKeepsSound(w: World, slot: nat, rotate: bool, d: Draw)
    requires Sound(w) && Minted(w, slot, rotate, d).Some? && (rotate || w.keys.slots == map[])
    ensures Sound(Minted(w, slot, rotate, d).value)
    ensures var t := Minted(w, slot, rotate, d).value;
            t.keys.slots.Keys == w.keys.slots.Keys + {slot} && t.relay == w.relay
  {
    hide Allocated, Anchored, Separate, Recognised;
    MintKeepsAllocated(w, slot, rotate, d);
    MintKeepsSeparate(w, slot, rotate, d);
    MintKeepsRecognised(w, slot, rotate, d);
  }

  lemma {:induction false} FillKeepsSound(w: World, n: nat, draws: nat -> Draw, from: nat)
    requires Sound(w) && Filled(w, n, draws, from).Some?
    ensures var t := Filled(w, n, draws, from).value;
            Sound(t) && t.relay == w.relay && w.keys.slots.Keys <= t.keys.slots.Keys
                && forall s: nat :: s < n ==> s in t.keys.slots
    decreases n
  {
    hide Sound, Minted;
    if n > 0 {
      if n - 1 in w.keys.slots {
        FillKeepsSound(w, n - 1, draws, from);
      } else {
        MintKeepsSound(w, n - 1, w.keys.slots != map[], draws(from));
        FillKeepsSound(Minted(w, n - 1, w.keys.slots != map[], draws(from)).value, n - 1, draws, from + 1);
      }
    }
  }

  // ---- the relay's steps ------------------------------------------------------------------------------------------

  /** The relay may hold one more bundle, if it is one of those it may hold, and mark bundles claimed. */
  lemma RelayStepKeepsRecognised(w: World, relay: Relay, b: Bundle)
    requires Recognised(w) && Linked(relay)
    requires b in w.minted || ByOthers(w, b)
    requires forall id :: id in relay.bundles ==>
               || (id in w.relay.bundles && relay.bundles[id].bundle == w.relay.bundles[id].bundle)
               || relay.bundles[id].bundle == b
    ensures Recognised(w.(relay := relay))
  {}

  lemma OnlyTheRelayMoved(w: World, relay: Relay)
    requires Sound(w) && Recognised(w.(relay := relay))
    ensures Sound(w.(relay := relay))
  {
    hide Recognised;
  }

  lemma WhatPublishStores(r: Relay, b: Bundle, nowMs: nat)
    ensures var t := Publish(r, b, nowMs).0;
            forall id :: id in t.bundles ==>
              (id in r.bundles && t.bundles[id] == r.bundles[id]) || t.bundles[id].bundle == b
  {}

  lemma PublishKeepsSound(w: World, b: Bundle)
    requires Sound(w) && (b in w.minted || ByOthers(w, b))
    ensures Sound(w.(relay := Publish(w.relay, b, w.nowMs).0))
  {
    hide Linked, Publish, ByOthers, Allocated, Anchored, Separate;
    PublishKeepsLinked(w.relay, b, w.nowMs);
    WhatPublishStores(w.relay, b, w.nowMs);
    RelayStepKeepsRecognised(w, Publish(w.relay, b, w.nowMs).0, b);
    OnlyTheRelayMoved(w, Publish(w.relay, b, w.nowMs).0);
  }

  lemma WhatClaimStores(r: Relay, claim: ClaimId, q: Selector, nowMs: nat)
    ensures var t := Claim(r, claim, q, nowMs).0;
            forall id :: id in t.bundles ==> id in r.bundles && t.bundles[id].bundle == r.bundles[id].bundle
  {}

  lemma ClaimKeepsSound(w: World, claim: ClaimId, q: Selector)
    requires Sound(w)
    ensures Sound(w.(relay := Claim(w.relay, claim, q, w.nowMs).0))
  {
    hide Linked, Claim, Allocated, Anchored, Separate;
    ClaimKeepsLinked(w.relay, claim, q, w.nowMs);
    WhatClaimStores(w.relay, claim, q, w.nowMs);
    OnlyTheRelayMoved(w, Claim(w.relay, claim, q, w.nowMs).0);
  }

  lemma ConsumeKeepsSound(w: World, keyId: nat)
    requires Sound(w) && Used(w, keyId)
    ensures Sound(w.(keys := w.keys.(pres := w.keys.pres - {keyId})))
  {
    hide Linked;
  }

  lemma StepKeepsInv(w: World, e: Event)
    requires Inv(w)
    ensures Inv(Apply(w, e))
  {
    hide Allocated, Anchored, Separate, Recognised, Minted;
    match e
    case Tick(ms) => TickKeepsSound(w, ms);
    case Fill(draws) => if Filled(w, POOL_TARGET, draws, 0).Some? { FillKeepsSound(w, POOL_TARGET, draws, 0); }
    case Anchor(d) => if 0 !in w.keys.slots && Minted(w, 0, false, d).Some? { MintKeepsSound(w, 0, false, d); }
    case Replace(slot, d) => if Minted(w, slot, true, d).Some? { MintKeepsSound(w, slot, true, d); }
    case Arrive(b) => if b in w.minted { PublishKeepsSound(w, b); }
    case OthersPublish(b) => if ByOthers(w, b) { PublishKeepsSound(w, b); }
    case Claims(claim, q) => ClaimKeepsSound(w, claim, q);
    case Consume(keyId) => if Used(w, keyId) { ConsumeKeepsSound(w, keyId); }
  }

  lemma TickKeepsSound(w: World, ms: nat)
    requires Sound(w)
    ensures Sound(w.(nowMs := w.nowMs + ms))
  {
    hide Linked;
  }

  lemma {:induction false} RunKeepsInv(w: World, events: seq<Event>)
    requires Inv(w)
    ensures Inv(Run(w, events))
    decreases |events|
  {
    hide Inv;
    if events != [] {
      StepKeepsInv(w, events[0]);
      RunKeepsInv(Apply(w, events[0]), events[1..]);
    }
  }

  lemma StartIsInv(w: World, initialPreKey: nat)
    requires Start(w, initialPreKey)
    ensures Inv(w)
  {
    hide Linked;
  }

  // ---- the theorems -------------------------------------------------------------------------------------------------

  /**
   One-time prekeys are one-time.  In every reachable state any two slots of the pool, and any two bundles
   the owner ever signed, carry different one-time prekeys.
   */
  lemma PoolMembersAreDistinct(w: World, initialPreKey: nat, events: seq<Event>, s: nat, t: nat)
    requires Start(w, initialPreKey)
    requires var v := Run(w, events); s in v.keys.slots && t in v.keys.slots && s != t
    ensures var v := Run(w, events); Apart(v.keys.slots[s], v.keys.slots[t]) && v.keys.slots[s].oneTime
  {
    hide Apply, Linked;
    StartIsInv(w, initialPreKey);
    RunKeepsInv(w, events);
  }

  /** No identifier is ever allocated twice, whatever was consumed in between. */
  lemma IdentifiersAreNeverReissued(w: World, initialPreKey: nat, events: seq<Event>)
    requires Start(w, initialPreKey)
    ensures var issued := Run(w, events).issued;
            forall i, j :: 0 <= i < j < |issued| ==> 1 < issued[i] < issued[j] <= MAX_ONE_TIME_PREKEY_ID
  {
    hide Apply, Linked;
    StartIsInv(w, initialPreKey);
    RunKeepsInv(w, events);
  }

  /** What the relay would do with a bundle: take it as it is, or recognise it. */
  ghost predicate Offerable(r: Relay, b: Bundle) {
    && b.oneTime
    && (b.id in r.bundles ==> r.bundles[b.id].bundle == b)
    && (b.id !in r.bundles ==> TupleOf(b) !in r.tuples && b.publicKey !in r.publics)
  }

  lemma StoredIsApart(w: World, id: BundleId, b: Bundle)
    requires Separate(w) && Recognised(w) && b in w.minted && b.id !in w.relay.bundles && id in w.relay.bundles
    ensures TupleOf(w.relay.bundles[id].bundle) != TupleOf(b) && w.relay.bundles[id].bundle.publicKey != b.publicKey
  {
    var stored := w.relay.bundles[id].bundle;
    assert stored.id == id;
    if stored in w.minted { assert Apart(stored, b); }
  }

  lemma SignedIsOfferable(w: World, b: Bundle)
    requires Sound(w) && b in w.minted
    ensures Offerable(w.relay, b)
  {
    hide Allocated, Anchored, Accounted, Bound;
    if b.id in w.relay.bundles {
      assert w.relay.bundles[b.id].bundle in w.minted || ByOthers(w, w.relay.bundles[b.id].bundle);
    } else {
      if TupleOf(b) in w.relay.tuples {
        StoredIsApart(w, w.relay.tuples[TupleOf(b)], b);
        assert false;
      }
      if b.publicKey in w.relay.publics {
        StoredIsApart(w, w.relay.publics[b.publicKey], b);
        assert false;
      }
    }
  }

  /** Over every run, no bundle the owner ever signed is refused for what the relay already stores. */
  lemma EveryMemberIsOfferable(w: World, initialPreKey: nat, events: seq<Event>, b: Bundle)
    requires Start(w, initialPreKey) && b in Run(w, events).minted
    ensures Offerable(Run(w, events).relay, b)
  {
    hide Run, Offerable, Linked;
    StartIsInv(w, initialPreKey);
    RunKeepsInv(w, events);
    SignedIsOfferable(Run(w, events), b);
  }
}
