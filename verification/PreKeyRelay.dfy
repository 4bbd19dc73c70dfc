/**
 The relay's store of published prekey bundles: the bundle, its place in the availability index, the two
 reservations of its one-time prekey, and the claim that consumed it.  Each publish and each claim is one
 transaction over all five.  Identifiers are numbered in the byte order of their keys; two equal digests
 are taken to come from equal inputs.
 */
module PreKeyRelay {
  import opened Sets
  import opened Wrappers

  type Identity = nat
  type Device = nat
  type BundleId = nat
  type ClaimId = nat

  const MAX_DEVICES_PER_IDENTITY: nat := 16

  /** A signed bundle; two bundles are equal exactly when their published bytes are. */
  datatype Bundle = Bundle(
    id: BundleId,
    identity: Identity,
    device: Device,
    devicePubKey: nat,
    signalIdentity: nat,
    oneTime: bool,         // whether there is a one-time prekey at all
    keyId: nat,
    publicKey: nat,
    createdAtMs: nat,
    expiresAtMs: nat,
    signature: nat
  )

  datatype Stored = Stored(bundle: Bundle, claimed: bool)

  /** The availability index is ordered by identity, then creation time, then bundle. */
  datatype AvailKey = AvailKey(identity: Identity, createdAtMs: nat, id: BundleId)

  datatype Tuple = Tuple(identity: Identity, device: Device, signalIdentity: nat, keyId: nat)

  datatype Claimed = Claimed(identity: Identity, device: Option<Device>, bundle: Bundle, claimedAtMs: nat)

  datatype Relay = Relay(
    bundles: map<BundleId, Stored>,
    available: set<AvailKey>,
    tuples: map<Tuple, BundleId>,
    publics: map<nat, BundleId>,
    claims: map<ClaimId, Claimed>,
    devices: map<(Identity, Device), nat>     // the published device keys
  )

  const EMPTY_RELAY := Relay(map[], {}, map[], map[], map[], map[])

  datatype PreKeyError =
    | BundleSchema
    | BundleExpired
    | BundleConflict
    | PreKeyReused
    | TooManyDevices
    | ClaimConflict
    | Unavailable

  function KeyFor(b: Bundle): AvailKey { AvailKey(b.identity, b.createdAtMs, b.id) }

  function TupleOf(b: Bundle): Tuple { Tuple(b.identity, b.device, b.signalIdentity, b.keyId) }

  predicate InWindow(b: Bundle, nowMs: nat) { b.createdAtMs <= nowMs < b.expiresAtMs }

  // ---- publishing ---------------------------------------------------------------------------------------

  function DevicesOf(devices: map<(Identity, Device), nat>, identity: Identity): set<(Identity, Device)> {
    set k | k in devices && k.0 == identity
  }

  /** The device record stored with every publication. */
  function Authorize(devices: map<(Identity, Device), nat>, b: Bundle)
    : Result<map<(Identity, Device), nat>, PreKeyError>
  {
    var key := (b.identity, b.device);
    if key in devices then if devices[key] != b.devicePubKey then Err(BundleConflict) else Ok(devices)
    else if |DevicesOf(devices, b.identity)| >= MAX_DEVICES_PER_IDENTITY then Err(TooManyDevices)
    else Ok(devices[key := b.devicePubKey])
  }

  function Added(r: Relay, b: Bundle): Relay {
    r.(bundles := r.bundles[b.id := Stored(b, false)],
       available := r.available + {KeyFor(b)},
       tuples := r.tuples[TupleOf(b) := b.id],
       publics := r.publics[b.publicKey := b.id])
  }

  /** The publish route: `Ok` answers whether the stored publication can still be claimed. */
  function Publish(r: Relay, b: Bundle, nowMs: nat): (Relay, Result<bool, PreKeyError>) {
    if !b.oneTime then (r, Err(BundleSchema))
    else if !InWindow(b, nowMs) then (r, Err(BundleExpired)) else
    var devices := Authorize(r.devices, b);
    if b.id in r.bundles then
      if r.bundles[b.id].bundle != b then (r, Err(BundleConflict))
      else if devices.Err? then (r, Err(devices.error))
      else (r.(devices := devices.value), Ok(!r.bundles[b.id].claimed))
    else if TupleOf(b) in r.tuples || b.publicKey in r.publics then (r, Err(PreKeyReused))
    else if devices.Err? then (r, Err(devices.error))
    else
      (Added(r, b).(devices := devices.value), Ok(true))
  }

  // ---- claiming -----------------------------------------------------------------------------------------

  datatype Selector = Selector(identity: Identity, device: Option<Device>)

  /** What a claim may be given: unclaimed, inside its window, and of the device asked for. */
  predicate Eligible(r: Relay, k: AvailKey, q: Selector, nowMs: nat) {
    && k in r.available && k.identity == q.identity && k.id in r.bundles
    && !r.bundles[k.id].claimed && InWindow(r.bundles[k.id].bundle, nowMs)
    && (q.device.Some? ==> r.bundles[k.id].bundle.device == q.device.value)
  }

  predicate Before(a: AvailKey, b: AvailKey) {
    a.createdAtMs < b.createdAtMs || (a.createdAtMs == b.createdAtMs && a.id <= b.id)
  }

  /** The first eligible key in index order. */
  ghost predicate IsOldest(r: Relay, k: AvailKey, q: Selector, nowMs: nat) {
    Eligible(r, k, q, nowMs) && forall other :: Eligible(r, other, q, nowMs) ==> Before(k, other)
  }

  ghost predicate AnyOldest(r: Relay, q: Selector, nowMs: nat) {
    exists k :: IsOldest(r, k, q, nowMs)
  }

  function Bind(r: Relay, claim: ClaimId, q: Selector, k: AvailKey, nowMs: nat): Relay
    requires k.id in r.bundles
  {
    var b := r.bundles[k.id].bundle;
    r.(bundles := r.bundles[k.id := Stored(b, true)],
       available := r.available - {k},
       claims := r.claims[claim := Claimed(q.identity, q.device, b, nowMs)])
  }

  ghost function Claim(r: Relay, claim: ClaimId, q: Selector, nowMs: nat): (Relay, Result<Bundle, PreKeyError>) {
    if claim in r.claims then
      if r.claims[claim].identity != q.identity || r.claims[claim].device != q.device then (r, Err(ClaimConflict))
      else (r, Ok(r.claims[claim].bundle))
    else if AnyOldest(r, q, nowMs) then
      var k :| IsOldest(r, k, q, nowMs);
      (Bind(r, claim, q, k, nowMs), Ok(r.bundles[k.id].bundle))
    else (r, Err(Unavailable))
  }

  lemma AvailableIsStored(r: Relay)
    requires Indexed(r)
    ensures forall k :: k in r.available ==> k.id in r.bundles
  {}

  lemma OldestIsUnique(r: Relay, a: AvailKey, b: AvailKey, q: Selector, nowMs: nat)
    requires IsOldest(r, a, q, nowMs) && IsOldest(r, b, q, nowMs)
    ensures a == b
  {}

  // ---- the linked indexes ---------------------------------------------------------------------------------

  ghost predicate BoundBy(r: Relay, id: BundleId, claim: ClaimId) {
    claim in r.claims && r.claims[claim].bundle.id == id
  }

  ghost predicate IsBound(r: Relay, id: BundleId) {
    exists claim :: BoundBy(r, id, claim)
  }

  /** A bundle is in the availability index exactly while it is unclaimed. */
  ghost predicate Indexed(r: Relay) {
    && (forall id :: id in r.bundles ==> r.bundles[id].bundle.id == id)
    && (forall id :: id in r.bundles ==> (KeyFor(r.bundles[id].bundle) in r.available <==> !r.bundles[id].claimed))
    && (forall k :: k in r.available ==> k.id in r.bundles && k == KeyFor(r.bundles[k.id].bundle))
  }

  /** A bundle is marked claimed exactly when a claim holds it, and the counts agree. */
  ghost predicate Accounted(r: Relay) {
    && (forall id :: id in r.bundles ==> (r.bundles[id].claimed <==> IsBound(r, id)))
    && |r.available| + |r.claims| == |r.bundles|
  }

  /** A claim keeps the bundle it was bound to, which is of the identity and device it asked for. */
  ghost predicate Bound(r: Relay) {
    && (forall c :: c in r.claims ==>
          var claim := r.claims[c];
          && claim.bundle.id in r.bundles && r.bundles[claim.bundle.id].bundle == claim.bundle
          && claim.bundle.identity == claim.identity && InWindow(claim.bundle, claim.claimedAtMs)
          && (claim.device.Some? ==> claim.bundle.device == claim.device.value))
    && (forall c, d :: c in r.claims && d in r.claims && c != d ==> r.claims[c].bundle.id != r.claims[d].bundle.id)
  }

  /** Each one-time prekey is reserved for the one bundle that offers it, and nothing else is reserved. */
  ghost predicate Reserved(r: Relay) {
    && (forall id :: id in r.bundles ==>
          && TupleOf(r.bundles[id].bundle) in r.tuples && r.tuples[TupleOf(r.bundles[id].bundle)] == id
          && r.bundles[id].bundle.publicKey in r.publics && r.publics[r.bundles[id].bundle.publicKey] == id)
    && (forall t :: t in r.tuples ==> r.tuples[t] in r.bundles && TupleOf(r.bundles[r.tuples[t]].bundle) == t)
    && (forall p :: p in r.publics ==> r.publics[p] in r.bundles && r.bundles[r.publics[p]].bundle.publicKey == p)
  }

  ghost predicate Linked(r: Relay) { Indexed(r) && Accounted(r) && Bound(r) && Reserved(r) }

  lemma SameClaimsBindTheSame(r: Relay, t: Relay)
    requires t.claims == r.claims
    ensures forall id :: IsBound(t, id) <==> IsBound(r, id)
  {
    assert forall id, c :: BoundBy(t, id, c) <==> BoundBy(r, id, c);
  }

  lemma AddKeepsAccounted(r: Relay, b: Bundle)
    requires Accounted(r) && b.id !in r.bundles && KeyFor(b) !in r.available && !IsBound(r, b.id)
    ensures Accounted(Added(r, b))
  {
    hide IsBound;
    SameClaimsBindTheSame(r, Added(r, b));
  }

  lemma AddKeepsIndexed(r: Relay, b: Bundle)
    requires Indexed(r) && b.id !in r.bundles
    ensures Indexed(Added(r, b))
  {}

  lemma NewIsUnknown(r: Relay, b: Bundle)
    requires Indexed(r) && Bound(r) && b.id !in r.bundles
    ensures KeyFor(b) !in r.available && !IsBound(r, b.id)
  {}

  lemma AddKeepsReserved(r: Relay, b: Bundle)
    requires Bound(r) && Reserved(r) && b.id !in r.bundles && TupleOf(b) !in r.tuples && b.publicKey !in r.publics
    ensures Bound(Added(r, b)) && Reserved(Added(r, b))
  {}

  lemma DevicesDoNotLink(r: Relay, t: Relay)
    requires Linked(r) && t == r.(devices := t.devices)
    ensures Linked(t)
  {
    SameClaimsBindTheSame(r, t);
  }

  lemma PublishKeepsLinked(r: Relay, b: Bundle, nowMs: nat)
    requires Linked(r)
    ensures Linked(Publish(r, b, nowMs).0)
  {
    hide Indexed, Accounted, Bound, Reserved;
    var t := Publish(r, b, nowMs).0;
    if t.bundles != r.bundles {
      NewIsUnknown(r, b);
      AddKeepsIndexed(r, b);
      AddKeepsAccounted(r, b);
      AddKeepsReserved(r, b);
      DevicesDoNotLink(Added(r, b), t);
    } else if t != r {
      DevicesDoNotLink(r, t);
    }
  }

  lemma BindKeepsAccounted(r: Relay, claim: ClaimId, q: Selector, k: AvailKey, nowMs: nat)
    requires Accounted(r) && claim !in r.claims && Eligible(r, k, q, nowMs) && r.bundles[k.id].bundle.id == k.id
    ensures Accounted(Bind(r, claim, q, k, nowMs))
  {
    var t := Bind(r, claim, q, k, nowMs);
    assert BoundBy(t, k.id, claim);
    forall id | id in t.bundles && id != k.id ensures t.bundles[id].claimed <==> IsBound(t, id) {
      assert forall c :: BoundBy(r, id, c) ==> BoundBy(t, id, c);
      assert forall c :: BoundBy(t, id, c) ==> BoundBy(r, id, c);
    }
    assert t.bundles.Keys == r.bundles.Keys;
  }

  lemma BindKeepsIndexed(r: Relay, claim: ClaimId, q: Selector, k: AvailKey, nowMs: nat)
    requires Indexed(r) && Eligible(r, k, q, nowMs)
    ensures Indexed(Bind(r, claim, q, k, nowMs)) && r.bundles[k.id].bundle.id == k.id
  {}

  lemma BindKeepsBound(r: Relay, claim: ClaimId, q: Selector, k: AvailKey, nowMs: nat)
    requires Bound(r) && claim !in r.claims && Eligible(r, k, q, nowMs) && KeyFor(r.bundles[k.id].bundle) == k
        && !IsBound(r, k.id)
    ensures Bound(Bind(r, claim, q, k, nowMs))
  {
    assert forall c :: c in r.claims ==> BoundBy(r, r.claims[c].bundle.id, c);
  }

  lemma BindKeepsReserved(r: Relay, claim: ClaimId, q: Selector, k: AvailKey, nowMs: nat)
    requires Reserved(r) && Eligible(r, k, q, nowMs)
    ensures Reserved(Bind(r, claim, q, k, nowMs))
  {}

  lemma EligibleIsUnbound(r: Relay, q: Selector, k: AvailKey, nowMs: nat)
    requires Indexed(r) && Accounted(r) && Eligible(r, k, q, nowMs)
    ensures !IsBound(r, k.id) && KeyFor(r.bundles[k.id].bundle) == k
  {}

  lemma ClaimKeepsLinked(r: Relay, claim: ClaimId, q: Selector, nowMs: nat)
    requires Linked(r)
    ensures Linked(Claim(r, claim, q, nowMs).0)
  {
    hide Indexed, Accounted, Bound, Reserved;
    if claim !in r.claims && AnyOldest(r, q, nowMs) {
      var k :| IsOldest(r, k, q, nowMs) && Claim(r, claim, q, nowMs).0 == Bind(r, claim, q, k, nowMs);
      EligibleIsUnbound(r, q, k, nowMs);
      BindKeepsIndexed(r, claim, q, k, nowMs);
      BindKeepsAccounted(r, claim, q, k, nowMs);
      BindKeepsReserved(r, claim, q, k, nowMs);
      BindKeepsBound(r, claim, q, k, nowMs);
    }
  }

  // ---- runs -------------------------------------------------------------------------------------------------

  datatype Event =
    | Publication(bundle: Bundle, atMs: nat)
    | ClaimRequest(claim: ClaimId, selector: Selector, atMs: nat)

  ghost function Apply(r: Relay, e: Event): Relay {
    match e
    case Publication(b, atMs) => Publish(r, b, atMs).0
    case ClaimRequest(claim, q, atMs) => Claim(r, claim, q, atMs).0
  }

  ghost function Run(r: Relay, events: seq<Event>): Relay
    decreases |events|
  {
    if events == [] then r else Run(Apply(r, events[0]), events[1..])
  }

  lemma {:induction false} RunKeepsLinked(r: Relay, events: seq<Event>)
    requires Linked(r)
    ensures Linked(Run(r, events))
    decreases |events|
  {
    if events != [] {
      match events[0] {
        case Publication(b, atMs) => PublishKeepsLinked(r, b, atMs);
        case ClaimRequest(claim, q, atMs) => ClaimKeepsLinked(r, claim, q, atMs);
      }
      RunKeepsLinked(Apply(r, events[0]), events[1..]);
    }
  }

  lemma EmptyIsLinked()
    ensures Linked(EMPTY_RELAY)
  {}

  /**
   Conservation.  In every reachable state each stored bundle is claimable or bound to exactly one claim,
   never both; the counts add up; and each claim holds a bundle of its own, with a one-time prekey no other
   claim was given.
   */
  lemma PreKeysAreConserved(events: seq<Event>, id: BundleId, c: ClaimId, d: ClaimId)
    ensures var r := Run(EMPTY_RELAY, events);
            && |r.available| + |r.claims| == |r.bundles|
            && (id in r.bundles ==> (KeyFor(r.bundles[id].bundle) in r.available <==> !IsBound(r, id)))
            && (BoundBy(r, id, c) && BoundBy(r, id, d) ==> c == d)
            && (c in r.claims && d in r.claims && c != d ==>
                  && r.claims[c].bundle.id != r.claims[d].bundle.id
                  && TupleOf(r.claims[c].bundle) != TupleOf(r.claims[d].bundle)
                  && r.claims[c].bundle.publicKey != r.claims[d].bundle.publicKey)
  {
    EmptyIsLinked();
    RunKeepsLinked(EMPTY_RELAY, events);
  }

  /** No two stored bundles share a reserved tuple or public key. */
  lemma ReservationsAreUnique(events: seq<Event>, a: BundleId, b: BundleId)
    requires var r := Run(EMPTY_RELAY, events); a in r.bundles && b in r.bundles && a != b
    ensures var r := Run(EMPTY_RELAY, events);
            && TupleOf(r.bundles[a].bundle) != TupleOf(r.bundles[b].bundle)
            && r.bundles[a].bundle.publicKey != r.bundles[b].bundle.publicKey
  {
    EmptyIsLinked();
    RunKeepsLinked(EMPTY_RELAY, events);
  }

  /** Claims are for ever: no later step changes one, and no stored bundle is replaced. */
  ghost predicate Grows(r: Relay, t: Relay) {
    && (forall c :: c in r.claims ==> c in t.claims && t.claims[c] == r.claims[c])
    && (forall id :: id in r.bundles ==>
          id in t.bundles && t.bundles[id].bundle == r.bundles[id].bundle
              && (r.bundles[id].claimed ==> t.bundles[id].claimed))
  }

  lemma StepGrows(r: Relay, e: Event)
    ensures Grows(r, Apply(r, e))
  {
    hide InWindow, Authorize, IsOldest;
  }

  lemma {:induction false} RunGrows(r: Relay, events: seq<Event>)
    ensures Grows(r, Run(r, events))
    decreases |events|
  {
    if events != [] {
      hide Apply;
      StepGrows(r, events[0]);
      RunGrows(Apply(r, events[0]), events[1..]);
    }
  }

  /**
   A claim's answer is its answer for ever.  Whatever is published and claimed later and however late the
   repetition comes, the same claim identifier with the same selector gets the same bytes and changes
   nothing, and with another selector it is refused.
   */
  lemma AClaimIsReplayedForEver(r: Relay, claim: ClaimId, q: Selector, nowMs: nat, later: seq<Event>, again: Selector,
      laterMs: nat)
    requires Claim(r, claim, q, nowMs).1.Ok?
    ensures var t := Run(Claim(r, claim, q, nowMs).0, later);
            Claim(t, claim, again, laterMs) == (t, if again == q then Claim(r, claim, q, nowMs).1
                else Err(ClaimConflict))
  {
    RunGrows(Claim(r, claim, q, nowMs).0, later);
  }

  /** Publishing what is stored is idempotent and says truthfully whether it can still be claimed. */
  lemma RepublicationAnswersTruthfully(r: Relay, b: Bundle, nowMs: nat)
    requires Linked(r) && b.id in r.bundles && r.bundles[b.id].bundle == b && Publish(r, b, nowMs).1.Ok?
    ensures var (t, answer) := Publish(r, b, nowMs);
            t == r.(devices := t.devices) && (answer.value <==> KeyFor(b) in r.available)
                && (answer.value <==> !IsBound(r, b.id))
  {}

  ghost function EligibleKeys(r: Relay, q: Selector, nowMs: nat): set<AvailKey> {
    set k | k in r.available && Eligible(r, k, q, nowMs)
  }

  lemma {:induction false} OldestExists(r: Relay, q: Selector, nowMs: nat, keys: set<AvailKey>)
      returns (first: AvailKey)
    requires keys != {} && keys <= EligibleKeys(r, q, nowMs)
    ensures first in keys && forall k :: k in keys ==> Before(first, k)
    decreases keys
  {
    first :| first in keys;
    if keys != {first} {
      var below := OldestExists(r, q, nowMs, keys - {first});
      assert forall k :: k in keys ==> k == first || k in keys - {first};
      if Before(below, first) { first := below; }
    }
  }

  /**
   What a fresh claim gets: nothing exactly when no bundle is eligible, and otherwise the oldest eligible
   one, inside its window and of the identity and device asked for, and no longer available afterwards.
   */
  lemma AFreshClaimTakesTheOldest(r: Relay, claim: ClaimId, q: Selector, nowMs: nat)
    requires Linked(r) && claim !in r.claims
    ensures var (t, answer) := Claim(r, claim, q, nowMs);
            && (answer.Err? <==> EligibleKeys(r, q, nowMs) == {})
            && (answer.Err? ==> t == r && answer == Err(Unavailable))
            && (answer.Ok? ==>
                  var b := answer.value;
                  && KeyFor(b) in r.available && KeyFor(b) !in t.available && BoundBy(t, b.id, claim)
                  && b.identity == q.identity && InWindow(b, nowMs) && (q.device.Some? ==> b.device == q.device.value)
                  && forall k :: k in EligibleKeys(r, q, nowMs) ==> Before(KeyFor(b), k))
  {
    hide Accounted, Bound, Reserved;
    if EligibleKeys(r, q, nowMs) != {} {
      var k := OldestExists(r, q, nowMs, EligibleKeys(r, q, nowMs));
      assert IsOldest(r, k, q, nowMs);
      ClaimTakes(r, claim, q, k, nowMs);
      assert k == KeyFor(r.bundles[k.id].bundle);
    } else {
      assert forall k :: Eligible(r, k, q, nowMs) ==> k in EligibleKeys(r, q, nowMs);
    }
  }

  /** And it is one of those eligible. */
  lemma ClaimedIsEligible(r: Relay, claim: ClaimId, q: Selector, nowMs: nat)
    requires Linked(r) && claim !in r.claims && Claim(r, claim, q, nowMs).1.Ok?
    ensures KeyFor(Claim(r, claim, q, nowMs).1.value) in EligibleKeys(r, q, nowMs)
    ensures r.bundles[KeyFor(Claim(r, claim, q, nowMs).1.value).id].bundle == Claim(r, claim, q, nowMs).1.value
  {
    hide Accounted, Bound, Reserved;
    var k :| IsOldest(r, k, q, nowMs) && Claim(r, claim, q, nowMs) == (Bind(r, claim, q, k, nowMs),
        Ok(r.bundles[k.id].bundle));
  }

  /** A stored bundle this claim may be given: unclaimed, in its window, and the contact's and device's asked for. */
  ghost predicate Offered(r: Relay, id: BundleId, q: Selector, nowMs: nat) {
    && id in r.bundles && !IsBound(r, id)
    && var b := r.bundles[id].bundle;
       && b.identity == q.identity && (q.device.Some? ==> b.device == q.device.value)
       && b.createdAtMs <= nowMs < b.expiresAtMs
  }

  /**
   When a claim is served, on what is stored: a fresh claim gets a bundle exactly when one is offered to it, and
   then the oldest of those, by creation and then by identifier.
   */
  lemma AClaimIsServedIff(r: Relay, claim: ClaimId, q: Selector, nowMs: nat)
    requires Linked(r) && claim !in r.claims
    ensures var (t, answer) := Claim(r, claim, q, nowMs);
            && (answer.Ok? <==> exists id :: Offered(r, id, q, nowMs))
            && (answer.Ok? ==>
                  var b := answer.value;
                  && Offered(r, b.id, q, nowMs) && r.bundles[b.id].bundle == b
                  && (forall id :: Offered(r, id, q, nowMs) ==>
                        var other := r.bundles[id].bundle;
                        b.createdAtMs < other.createdAtMs || (b.createdAtMs == other.createdAtMs && b.id <= id))
                  && t.claims == r.claims[claim := Claimed(q.identity, q.device, b, nowMs)])
  {
    hide Accounted, Bound, Reserved;
    forall id ensures Offered(r, id, q, nowMs)
                      <==> id in r.bundles && KeyFor(r.bundles[id].bundle) in EligibleKeys(r, q, nowMs) {
      OfferedIsEligible(r, id, q, nowMs);
    }
    AFreshClaimTakesTheOldest(r, claim, q, nowMs);
    if Claim(r, claim, q, nowMs).1.Ok? {
      ClaimedIsEligible(r, claim, q, nowMs);
      assert Offered(r, Claim(r, claim, q, nowMs).1.value.id, q, nowMs);
      forall id | Offered(r, id, q, nowMs)
        ensures Before(KeyFor(Claim(r, claim, q, nowMs).1.value), KeyFor(r.bundles[id].bundle))
      {}
    }
  }

  lemma OfferedIsEligible(r: Relay, id: BundleId, q: Selector, nowMs: nat)
    requires Linked(r)
    ensures Offered(r, id, q, nowMs) <==> id in r.bundles && KeyFor(r.bundles[id].bundle) in EligibleKeys(r, q, nowMs)
  {
    hide Bound, Reserved, IsBound;
  }

  // ---- the publish route, each answer exactly when ------------------------------------------------------------------

  /** The identity's published devices. */
  function Devices(r: Relay, identity: Identity): set<Device> {
    set k | k in r.devices && k.0 == identity :: k.1
  }

  lemma DevicesCount(r: Relay, identity: Identity)
    ensures |Devices(r, identity)| == |DevicesOf(r.devices, identity)|
  {
    PairsCount(DevicesOf(r.devices, identity), identity);
    assert Devices(r, identity) == set k | k in DevicesOf(r.devices, identity) :: k.1;
  }

  lemma {:induction false} PairsCount(pairs: set<(Identity, Device)>, identity: Identity)
    requires forall k :: k in pairs ==> k.0 == identity
    ensures |set k | k in pairs :: k.1| == |pairs|
  {
    if pairs != {} {
      var k :| k in pairs;
      PairsCount(pairs - {k}, identity);
      assert (set x | x in pairs :: x.1) == (set x | x in pairs - {k} :: x.1) + {k.1};
    }
  }

  /** Another stored bundle already offers this one-time prekey: the same number of the same device, or the same key. */
  ghost predicate Reuses(r: Relay, b: Bundle) {
    exists id :: id in r.bundles && SamePreKey(r.bundles[id].bundle, b)
  }

  predicate SamePreKey(a: Bundle, b: Bundle) {
    || (a.identity == b.identity && a.device == b.device && a.signalIdentity == b.signalIdentity && a.keyId == b.keyId)
    || a.publicKey == b.publicKey
  }

  lemma ReusesIsReserved(r: Relay, b: Bundle)
    requires Reserved(r)
    ensures Reuses(r, b) <==> TupleOf(b) in r.tuples || b.publicKey in r.publics
  {
    if TupleOf(b) in r.tuples { assert SamePreKey(r.bundles[r.tuples[TupleOf(b)]].bundle, b); }
    if b.publicKey in r.publics { assert SamePreKey(r.bundles[r.publics[b.publicKey]].bundle, b); }
  }

  /**
   Publishing, over every bundle and every state: which refusal it gets, each exactly when, no change with any of
   them, and what is stored when there is none.
   */
  lemma APublishIsAnsweredIff(r: Relay, b: Bundle, nowMs: nat)
    requires Linked(r)
    ensures var (t, answer) := Publish(r, b, nowMs);
            var timely := b.oneTime && b.createdAtMs <= nowMs < b.expiresAtMs;
            var known := b.id in r.bundles;
            var free := if known then r.bundles[b.id].bundle == b else !Reuses(r, b);
            var key := (b.identity, b.device);
            && (answer == Err(BundleSchema) <==> !b.oneTime)
            && (answer == Err(BundleExpired) <==> b.oneTime && !timely)
            && (answer == Err(PreKeyReused) <==> timely && !known && !free)
            && (answer == Err(BundleConflict)
                <==> timely && ((known && !free) || (free && key in r.devices && r.devices[key] != b.devicePubKey)))
            && (answer == Err(TooManyDevices)
                <==> timely && free && key !in r.devices && |Devices(r, b.identity)| >= 16)
            && (answer.Ok? <==> timely && free && (if key in r.devices then r.devices[key] == b.devicePubKey
                                                   else |Devices(r, b.identity)| < 16))
            && (answer.Err? ==> t == r)
            && (answer.Ok? ==>
                  && t.devices == r.devices[key := b.devicePubKey] && t.claims == r.claims
                  && (known ==> t == r.(devices := t.devices))
                  && (!known ==> answer == Ok(true) && t.bundles == r.bundles[b.id := Stored(b, false)]
                                 && t.available == r.available + {AvailKey(b.identity, b.createdAtMs, b.id)}))
  {
    hide Accounted, Bound, Indexed;
    ReusesIsReserved(r, b);
    DevicesCount(r, b.identity);
    hide Reserved, Reuses, DevicesOf, Devices;
  }

  /** A published device keeps its key for ever. */
  lemma {:induction false} ADeviceKeepsItsKey(r: Relay, events: seq<Event>, identity: Identity, device: Device)
    requires (identity, device) in r.devices
    ensures var t := Run(r, events);
            (identity, device) in t.devices && t.devices[(identity, device)] == r.devices[(identity, device)]
    decreases |events|
  {
    if events != [] {
      OneStepKeepsKeys(r, events[0], identity, device);
      ADeviceKeepsItsKey(Apply(r, events[0]), events[1..], identity, device);
    }
  }

  lemma OneStepKeepsKeys(r: Relay, e: Event, identity: Identity, device: Device)
    requires (identity, device) in r.devices
    ensures var t := Apply(r, e);
            (identity, device) in t.devices && t.devices[(identity, device)] == r.devices[(identity, device)]
  {
    hide InWindow, IsOldest, DevicesOf;
  }

  // ---- the repository ---------------------------------------------------------------------------------------

  class PreKeyBundleRepository {
    var bundles: map<BundleId, Stored>
    var available: set<AvailKey>
    var tuples: map<Tuple, BundleId>
    var publics: map<nat, BundleId>
    var claims: map<ClaimId, Claimed>
    var devices: map<(Identity, Device), nat>

    ghost function State(): Relay
      reads this
    {
      Relay(bundles, available, tuples, publics, claims, devices)
    }

    constructor ()
      ensures State() == EMPTY_RELAY && Linked(State())
    {
      bundles, available, tuples, publics, claims, devices := map[], {}, map[], map[], map[], map[];
    }

    /** One publish transaction: everything is written or nothing is. */
    method SaveSignalV2(b: Bundle, nowMs: nat) returns (answer: Result<bool, PreKeyError>)
      requires Linked(State())
      modifies this
      ensures (State(), answer) == Publish(old(State()), b, nowMs) && Linked(State())
    {
      hide Linked, DevicesOf;
      PublishKeepsLinked(State(), b, nowMs);
      if !b.oneTime { return Err(BundleSchema); }
      if !InWindow(b, nowMs) { return Err(BundleExpired); }
      if b.id in bundles {
        if bundles[b.id].bundle != b { return Err(BundleConflict); }
        var authorized := SaveAuthorization(b);
        if authorized.Err? { return Err(authorized.error); }
        devices := authorized.value;
        return Ok(!bundles[b.id].claimed);
      }
      if TupleOf(b) in tuples { return Err(PreKeyReused); }
      if b.publicKey in publics { return Err(PreKeyReused); }
      var authorized := SaveAuthorization(b);
      if authorized.Err? { return Err(authorized.error); }
      tuples := tuples[TupleOf(b) := b.id];
      publics := publics[b.publicKey := b.id];
      bundles := bundles[b.id := Stored(b, false)];
      devices := authorized.value;
      available := available + {KeyFor(b)};
      answer := Ok(true);
    }

    /** The device record of a publication, counting the identity's devices only when it is a new one. */
    method SaveAuthorization(b: Bundle) returns (r: Result<map<(Identity, Device), nat>, PreKeyError>)
      ensures r == Authorize(devices, b)
    {
      var key := (b.identity, b.device);
      if key in devices {
        if devices[key] != b.devicePubKey { return Err(BundleConflict); }
        return Ok(devices);
      }
      var rest, stored := devices.Keys, 0;
      ghost var counted: set<(Identity, Device)> := {};
      while rest != {}
        invariant rest <= devices.Keys && stored == |counted| < MAX_DEVICES_PER_IDENTITY
        invariant counted == set k | k in DevicesOf(devices, b.identity) && k !in rest
        decreases rest
      {
        var k :| k in rest;
        rest := rest - {k};
        if k.0 == b.identity {
          stored, counted := stored + 1, counted + {k};
          if stored >= MAX_DEVICES_PER_IDENTITY {
            SubsetSize(counted, DevicesOf(devices, b.identity));
            return Err(TooManyDevices);
          }
        }
      }
      assert counted == DevicesOf(devices, b.identity);
      r := Ok(devices[key := b.devicePubKey]);
    }

    /** One claim transaction: a replay, the oldest eligible bundle, or nothing. */
    method ClaimSignalV2(claim: ClaimId, q: Selector, nowMs: nat) returns (answer: Result<Bundle, PreKeyError>)
      requires Linked(State())
      modifies this
      ensures (State(), answer) == Claim(old(State()), claim, q, nowMs) && Linked(State())
    {
      hide Indexed, Accounted, Bound, Reserved;
      ghost var before := State();
      AvailableIsStored(before);
      ClaimKeepsLinked(before, claim, q, nowMs);
      if claim in claims {
        if claims[claim].identity != q.identity || claims[claim].device != q.device { return Err(ClaimConflict); }
        return Ok(claims[claim].bundle);
      }
      var rest := set k | k in available && k.identity == q.identity;
      while rest != {}
        invariant State() == before && rest <= available
        invariant forall k :: Eligible(before, k, q, nowMs) ==> k in rest
        invariant forall k :: k in rest ==> k.identity == q.identity
        decreases rest
      {
        var key := FirstKey(rest);
        rest := rest - {key};
        var stored := bundles[key.id];
        if stored.claimed || !InWindow(stored.bundle, nowMs)
           || (q.device.Some? && stored.bundle.device != q.device.value) {
          continue;
        }
        assert IsOldest(before, key, q, nowMs);
        ClaimTakes(before, claim, q, key, nowMs);
        bundles := bundles[key.id := Stored(stored.bundle, true)];
        available := available - {key};
        claims := claims[claim := Claimed(q.identity, q.device, stored.bundle, nowMs)];
        return Ok(stored.bundle);
      }
      answer := Err(Unavailable);
    }
  }

  /** The next key an iterator over the index visits. */
  method FirstKey(keys: set<AvailKey>) returns (first: AvailKey)
    requires keys != {}
    ensures first in keys && forall k :: k in keys ==> Before(first, k)
  {
    first :| first in keys;
    var rest := keys - {first};
    while rest != {}
      invariant first in keys && rest <= keys
      invariant forall k :: k in keys && k !in rest ==> Before(first, k)
      decreases rest
    {
      var k :| k in rest;
      rest := rest - {k};
      if Before(k, first) { first := k; }
    }
  }

  lemma ClaimTakes(r: Relay, claim: ClaimId, q: Selector, k: AvailKey, nowMs: nat)
    requires claim !in r.claims && IsOldest(r, k, q, nowMs)
    ensures Claim(r, claim, q, nowMs) == (Bind(r, claim, q, k, nowMs), Ok(r.bundles[k.id].bundle))
  {
    var chosen :| IsOldest(r, chosen, q, nowMs)
        && Claim(r, claim, q, nowMs) == (Bind(r, claim, q, chosen, nowMs), Ok(r.bundles[chosen.id].bundle));
    OldestIsUnique(r, chosen, k, q, nowMs);
  }
}
