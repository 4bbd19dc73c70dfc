/**
 A recipient's own side of first contact: the allocator of one-time prekeys and the pool of twenty signed
 publications, each around a prekey of its own.  Random values arrive as draws; a draw is one bundle
 identifier, one generated key and one signature.
 */
module PreKeyPool {
  import opened Wrappers
  import opened PreKeyRelay

  const POOL_TARGET: nat := 20
  const MAX_ONE_TIME_PREKEY_ID: nat := 0xffffff
  const BUNDLE_LIFETIME_MS: nat := 604800000

  datatype Owner = Owner(identity: Identity, device: Device, devicePubKey: nat, signalIdentity: nat)

  datatype Keyring = Keyring(
    pointer: Option<nat>,        // the one-time prekey on offer; absent means the initial one
    pres: map<nat, nat>,         // the one-time prekeys still held, and their public keys
    slots: map<nat, Bundle>      // the durable publications
  )

  datatype Draw = Draw(bundleId: BundleId, publicKey: nat, atMs: nat, signature: nat)

  datatype PoolError = Exhausted | SlotOutside

  // ---- allocation ---------------------------------------------------------------------------------------

  function Current(k: Keyring): nat { if k.pointer.None? then 1 else k.pointer.value }

  ghost function Greatest(ids: set<nat>): (m: nat)
    requires ids != {}
    ensures m in ids && forall x :: x in ids ==> x <= m
  {
    var x :| x in ids;
    if ids == {x} then x else
    var m := Greatest(ids - {x});
    assert forall y :: y in ids ==> y == x || y in ids - {x};
    if x >= m then x else m
  }

  /** One more than everything that is or was on offer. */
  ghost function NextId(k: Keyring): nat { Greatest(k.pres.Keys + {Current(k)}) + 1 }

  ghost function Rotate(k: Keyring, publicKey: nat): Result<Keyring, PoolError> {
    var next := NextId(k);
    if next > MAX_ONE_TIME_PREKEY_ID then Err(Exhausted)
    else Ok(k.(pres := k.pres[next := publicKey], pointer := Some(next)))
  }

  /** The bundle signed around the prekey on offer, or around none when that one is gone. */
  function Signed(o: Owner, k: Keyring, d: Draw): Bundle {
    var id := Current(k);
    Bundle(d.bundleId, o.identity, o.device, o.devicePubKey, o.signalIdentity, id in k.pres, id,
           if id in k.pres then k.pres[id] else 0, d.atMs, d.atMs + BUNDLE_LIFETIME_MS, d.signature)
  }

  /** One slot's bundle allocated and stored. */
  ghost function Mint(o: Owner, k: Keyring, slot: nat, rotate: bool, d: Draw): Result<Keyring, PoolError> {
    var rotated := if rotate then Rotate(k, d.publicKey) else Ok(k);
    if rotated.Err? then rotated
    else Ok(rotated.value.(slots := rotated.value.slots[slot := Signed(o, rotated.value, d)]))
  }

  /** The empty slots below `n` filled from the highest down; only the very first bundle keeps the initial prekey. */
  ghost function FillDown(o: Owner, k: Keyring, n: nat, draws: nat -> Draw, from: nat)
    : Result<(Keyring, nat), PoolError>
    decreases n
  {
    if n == 0 then Ok((k, from))
    else if n - 1 in k.slots then FillDown(o, k, n - 1, draws, from)
    else match Mint(o, k, n - 1, k.slots != map[], draws(from))
         case Err(e) => Err(e)
         case Ok(minted) => FillDown(o, minted, n - 1, draws, from + 1)
  }

  function Members(k: Keyring): seq<Option<Bundle>> {
    seq(POOL_TARGET, slot => if slot in k.slots then Some(k.slots[slot]) else None)
  }

  /** What the fill does with one slot, and how many bundles it minted for it. */
  ghost function Filled(o: Owner, k: Keyring, slot: nat, d: Draw): Result<(Keyring, nat), PoolError> {
    if slot in k.slots then Ok((k, 0))
    else match Mint(o, k, slot, k.slots != map[], d)
         case Err(e) => Err(e)
         case Ok(minted) => Ok((minted, 1))
  }

  lemma FillDownFrom(o: Owner, k: Keyring, n: nat, draws: nat -> Draw, from: nat)
    requires n > 0
    ensures FillDown(o, k, n, draws, from)
            == match Filled(o, k, n - 1, draws(from))
               case Err(e) => Err(e)
               case Ok((filled, minted)) => FillDown(o, filled, n - 1, draws, from + minted)
  {}

  lemma FillDownEnds(o: Owner, k: Keyring, draws: nat -> Draw, from: nat)
    ensures FillDown(o, k, 0, draws, from) == Ok((k, from))
  {}

  lemma SomeMember(k: Keyring)
    requires WithinPool(k)
    ensures k.slots != map[] <==> exists s :: 0 <= s < |Members(k)| && Members(k)[s].Some?
  {
    if k.slots != map[] {
      var s :| s in k.slots;
      assert Members(k)[s].Some?;
    }
  }

  ghost predicate WithinPool(k: Keyring) { forall slot :: slot in k.slots ==> slot < POOL_TARGET }

  /** The next identifier is one above everything held and on offer; at the end of the space there is none. */
  lemma TheNextIdIsOneAbove(k: Keyring, publicKey: nat)
    ensures var top := NextId(k) - 1;
            && (top == Current(k) || top in k.pres) && Current(k) <= top && (forall id :: id in k.pres ==> id <= top)
            && (Rotate(k, publicKey) == Err(Exhausted) <==> top >= 0xff_ffff)
            && (Rotate(k, publicKey).Ok? ==>
                  Rotate(k, publicKey).value == k.(pres := k.pres[top + 1 := publicKey], pointer := Some(top + 1)))
  {}

  const WEEK_MS: nat := 7 * 24 * 60 * 60 * 1000

  /** What a mint signs: the owner's bundle around the prekey on offer, good for a week from the draw's clock. */
  lemma AMintSigns(o: Owner, k: Keyring, slot: nat, rotate: bool, d: Draw)
    ensures match Mint(o, k, slot, rotate, d)
            case Err(e) => rotate && e == Exhausted && NextId(k) > 0xff_ffff
            case Ok(minted) =>
              && slot in minted.slots && minted.slots == k.slots[slot := minted.slots[slot]]
              && Current(minted) == (if rotate then NextId(k) else Current(k))
              && minted.pres == (if rotate then k.pres[NextId(k) := d.publicKey] else k.pres)
              && var b := minted.slots[slot];
                 && b.id == d.bundleId && b.identity == o.identity && b.device == o.device
                 && b.devicePubKey == o.devicePubKey && b.signalIdentity == o.signalIdentity
                 && b.signature == d.signature && b.keyId == Current(minted)
                 && (b.oneTime <==> Current(minted) in minted.pres)
                 && (b.oneTime ==> b.publicKey == minted.pres[Current(minted)])
                 && b.createdAtMs == d.atMs && b.expiresAtMs == d.atMs + WEEK_MS
  {}

  /** A bundle is good for exactly a week. */
  lemma ABundleLastsAWeek(o: Owner, k: Keyring, d: Draw, nowMs: nat)
    ensures InWindow(Signed(o, k, d), nowMs) <==> d.atMs <= nowMs < d.atMs + WEEK_MS
  {}

  /** Filled from the highest slot down: of two slots filled together the lower one has the younger prekey. */
  lemma {:induction false} LowerSlotsAreYounger(o: Owner, k: Keyring, n: nat, draws: nat -> Draw, from: nat, low: nat,
      high: nat)
    requires FillDown(o, k, n, draws, from).Ok? && low < high < n && low !in k.slots && high !in k.slots
    ensures var filled := FillDown(o, k, n, draws, from).value.0;
            && low in filled.slots && high in filled.slots
            && filled.slots[high].keyId < filled.slots[low].keyId
    decreases n
  {
    hide Mint, NextId;
    if n - 1 in k.slots {
      LowerSlotsAreYounger(o, k, n - 1, draws, from, low, high);
    } else {
      var minted := Mint(o, k, n - 1, k.slots != map[], draws(from)).value;
      AMintSigns(o, k, n - 1, k.slots != map[], draws(from));
      if high < n - 1 {
        LowerSlotsAreYounger(o, minted, n - 1, draws, from + 1, low, high);
      } else {
        FilledLater(o, minted, n - 1, draws, from + 1, low, high);
      }
    }
  }

  /** Only the very first bundle keeps the prekey on offer: the highest slot of a pool that was empty. */
  lemma TheFirstKeepsTheInitialPreKey(o: Owner, k: Keyring, draws: nat -> Draw, from: nat, low: nat)
    requires k.slots == map[] && FillDown(o, k, POOL_TARGET, draws, from).Ok? && low < 19
    ensures var filled := FillDown(o, k, POOL_TARGET, draws, from).value.0;
            && 19 in filled.slots && filled.slots[19].keyId == Current(k)
            && low in filled.slots && filled.slots[low].keyId > Current(k)
  {
    hide Mint, FillDown;
    FillDownFrom(o, k, 20, draws, from);
    AMintSigns(o, k, 19, false, draws(from));
    FilledLater(o, Mint(o, k, 19, false, draws(from)).value, 19, draws, from + 1, low, 19);
  }

  /** What is filled later comes after everything on offer now; what is stored stays. */
  lemma {:induction false} FilledLater(o: Owner, k: Keyring, n: nat, draws: nat -> Draw, from: nat, low: nat, high: nat)
    requires FillDown(o, k, n, draws, from).Ok? && low < n && low !in k.slots && high in k.slots
    ensures var filled := FillDown(o, k, n, draws, from).value.0;
            && low in filled.slots && high in filled.slots && filled.slots[high] == k.slots[high]
            && filled.slots[low].keyId > Current(k)
    decreases n
  {
    hide Mint;
    if n - 1 in k.slots {
      FilledLater(o, k, n - 1, draws, from, low, high);
    } else {
      var minted := Mint(o, k, n - 1, true, draws(from)).value;
      AMintSigns(o, k, n - 1, true, draws(from));
      TheNextIdIsOneAbove(k, draws(from).publicKey);
      if low < n - 1 {
        FilledLater(o, minted, n - 1, draws, from + 1, low, high);
      } else {
        StoredStays(o, minted, n - 1, draws, from + 1, low);
        StoredStays(o, minted, n - 1, draws, from + 1, high);
      }
    }
  }

  lemma {:induction false} StoredStays(o: Owner, k: Keyring, n: nat, draws: nat -> Draw, from: nat, slot: nat)
    requires FillDown(o, k, n, draws, from).Ok? && slot in k.slots
    ensures var filled := FillDown(o, k, n, draws, from).value.0;
            slot in filled.slots && filled.slots[slot] == k.slots[slot]
    decreases n
  {
    hide Mint;
    if n > 0 {
      if n - 1 in k.slots {
        StoredStays(o, k, n - 1, draws, from, slot);
      } else {
        AMintSigns(o, k, n - 1, k.slots != map[], draws(from));
        StoredStays(o, Mint(o, k, n - 1, k.slots != map[], draws(from)).value, n - 1, draws, from + 1, slot);
      }
    }
  }

  // ---- the profile ----------------------------------------------------------------------------------------

  class Profile {
    const owner: Owner
    var keys: Keyring

    constructor (owner: Owner, initialPreKey: nat)
      ensures this.owner == owner && keys == Keyring(None, map[1 := initialPreKey], map[])
    {
      this.owner, keys := owner, Keyring(None, map[1 := initialPreKey], map[]);
    }

    /** A fresh one-time prekey; the ones allocated before are kept. */
    method RotateOneTimePreKey(publicKey: nat) returns (r: Result<nat, PoolError>)
      modifies this`keys
      ensures match Rotate(old(keys), publicKey)
              case Ok(rotated) => keys == rotated && r == Ok(Current(rotated))
              case Err(e) => keys == old(keys) && r == Err(e)
    {
      var next, rest := Current(keys), keys.pres.Keys;
      while rest != {}
        invariant rest <= keys.pres.Keys && next in keys.pres.Keys + {Current(keys)} && Current(keys) <= next
        invariant forall id :: id in keys.pres && id !in rest ==> id <= next
        decreases rest
      {
        var id :| id in rest;
        rest := rest - {id};
        if id > next { next := id; }
      }
      assert next == Greatest(keys.pres.Keys + {Current(keys)});
      next := next + 1;
      if next > MAX_ONE_TIME_PREKEY_ID { return Err(Exhausted); }
      keys := keys.(pres := keys.pres[next := publicKey], pointer := Some(next));
      r := Ok(next);
    }

    /** One slot minted; inside a caller's transaction, which undoes it when it fails. */
    method MintPublicationSlot(slot: nat, rotate: bool, d: Draw) returns (r: Result<Bundle, PoolError>)
      modifies this`keys
      ensures match Mint(owner, old(keys), slot, rotate, d)
              case Ok(minted) => keys == minted && r == Ok(minted.slots[slot])
              case Err(e) => keys == old(keys) && r == Err(e)
    {
      if rotate {
        var rotated := RotateOneTimePreKey(d.publicKey);
        if rotated.Err? { return Err(rotated.error); }
      }
      var bundle := Signed(owner, keys, d);
      keys := keys.(slots := keys.slots[slot := bundle]);
      r := Ok(bundle);
    }

    method ReadMembers() returns (members: array<Option<Bundle>>)
      ensures fresh(members) && members[..] == Members(keys)
    {
      members := new Option<Bundle>[POOL_TARGET](slot => None);
      for slot := 0 to POOL_TARGET
        invariant forall s :: 0 <= s < slot ==> members[s] == Members(keys)[s]
      {
        members[slot] := if slot in keys.slots then Some(keys.slots[slot]) else None;
      }
    }

    /** One slot of the fill: left alone when it has a member, minted when it has none. */
    method FillSlot(members: array<Option<Bundle>>, slot: nat, d: Draw) returns (r: Result<nat, PoolError>)
      requires slot < POOL_TARGET && WithinPool(keys) && members[..] == Members(keys)
      modifies this`keys, members
      ensures Filled(owner, old(keys), slot, d) == if r.Ok? then Ok((keys, r.value)) else Err(r.error)
      ensures r.Ok? ==>
                members[..] == Members(keys) && WithinPool(keys) && old(keys).slots.Keys + {slot} == keys.slots.Keys
    {
      ghost var before := keys;
      if members[slot].Some? { return Ok(0); }
      var some := AnySome(members);
      SomeMember(keys);
      var bundle := MintPublicationSlot(slot, some, d);
      if bundle.Err? { return Err(bundle.error); }
      members[slot] := Some(bundle.value);
      assert members[..] == Members(before)[slot := Some(bundle.value)];
      r := Ok(1);
    }

    /**
     The whole pool, completed in one transaction: the stored members as they are, and every empty slot
     filled from the highest down.
     */
    method RestorePublicationPool(draws: nat -> Draw, from: nat)
        returns (r: Result<(seq<Option<Bundle>>, nat), PoolError>)
      requires WithinPool(keys)
      modifies this`keys
      ensures match FillDown(owner, old(keys), POOL_TARGET, draws, from)
              case Ok((filled, next)) => keys == filled && next >= from && r == Ok((Members(filled), next - from))
              case Err(e) => keys == old(keys) && r == Err(e)
      ensures WithinPool(keys) && (r.Ok? ==> forall slot: nat :: slot < POOL_TARGET ==> slot in keys.slots)
    {
      hide Filled, Members, FillDown;
      ghost var start := FillDown(owner, keys, POOL_TARGET, draws, from);
      var before := keys;
      var members := ReadMembers();
      var slot: nat, minted: nat := POOL_TARGET, 0;
      while slot > 0
        invariant slot <= POOL_TARGET && WithinPool(keys) && fresh(members) && members[..] == Members(keys)
        invariant forall s :: slot <= s < POOL_TARGET ==> s in keys.slots
        invariant FillDown(owner, keys, slot, draws, from + minted) == start
      {
        FillDownFrom(owner, keys, slot, draws, from + minted);
        slot := slot - 1;
        var one := FillSlot(members, slot, draws(from + minted));
        if one.Err? {
          keys := before;
          return Err(one.error);
        }
        minted := minted + one.value;
      }
      FillDownEnds(owner, keys, draws, from + minted);
      r := Ok((members[..], minted));
    }

    method ReplacePublicationSlot(slot: nat, d: Draw) returns (r: Result<Bundle, PoolError>)
      modifies this`keys
      ensures if slot >= POOL_TARGET then keys == old(keys) && r == Err(SlotOutside)
              else match Mint(owner, old(keys), slot, true, d)
                   case Ok(minted) => keys == minted && r == Ok(minted.slots[slot])
                   case Err(e) => keys == old(keys) && r == Err(e)
    {
      if slot >= POOL_TARGET { return Err(SlotOutside); }
      r := MintPublicationSlot(slot, true, d);
    }
  }

  method AnySome(members: array<Option<Bundle>>) returns (some: bool)
    ensures some <==> exists s :: 0 <= s < members.Length && members[s].Some?
  {
    var s := 0;
    while s < members.Length
      invariant s <= members.Length && forall t :: 0 <= t < s ==> members[t].None?
    {
      if members[s].Some? { return true; }
      s := s + 1;
    }
    some := false;
  }
}
