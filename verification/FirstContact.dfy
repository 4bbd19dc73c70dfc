/**
 First contact: a sender claims one of its contact's bundles under an identifier it stored before asking,
 so a lost answer or a crash replays the claim instead of consuming another bundle.  The sender runs one
 command at a time; any request it made may reach the relay at any later time and any number of times.
 */
module FirstContact {
  import opened Wrappers
  import opened PreKeyRelay
  import opened Sets

  datatype Contact = Contact(identity: Identity, device: Device, devicePubKey: nat, signalIdentity: nat)

  function Wanted(c: Contact): Selector { Selector(c.identity, Some(c.device)) }

  /** The bundle is the pinned contact's, and has a one-time prekey. */
  predicate Pinned(c: Contact, b: Bundle) {
    b.oneTime && b.identity == c.identity && b.device == c.device && b.devicePubKey == c.devicePubKey
        && b.signalIdentity == c.signalIdentity
  }

  /** What the running send is doing; a crash forgets it. */
  datatype Phase =
    | Idle
    | Claiming(id: ClaimId, replaced: bool, asked: bool)
    | Verified(id: ClaimId, bundle: Bundle)

  datatype World = World(
    contact: Contact,
    claimKey: Option<ClaimId>,       // the durable claim identifier
    session: bool,
    phase: Phase,
    relay: Relay,
    wire: set<ClaimId>,              // every claim this sender ever requested
    mine: set<ClaimId>,              // every claim identifier it ever drew
    outdated: set<Bundle>,           // every claimed bundle it found outside its validity window
    spent: Option<ClaimId>,          // the claim identifier a committed message deleted
    requests: nat                    // claims asked for by the running send
  )

  datatype Event =
    | Begin(draw: ClaimId)                    // read the session and the claim key, or store a new one
    | Ask                                     // request the claim
    | Serve(id: ClaimId, atMs: nat)           // the relay handles a request
    | Read(atMs: nat, draw: ClaimId)          // the answer arrives and is judged at the sender's clock
    | Refused                                 // the relay has nothing, or the request failed
    | Establish                               // session, message and outbox in one transaction
    | CommitUnderSession                      // a message to a contact that has a session already
    | Crash
    | InboundSession                          // the contact wrote first
    | OthersClaim(id: ClaimId, selector: Selector, atMs: nat)
    | Publication(bundle: Bundle, atMs: nat)

  predicate FreshId(w: World, id: ClaimId) { id !in w.mine && id !in w.relay.claims }

  ghost function Apply(w: World, e: Event): World {
    match e
    case Begin(draw) =>
      if !w.phase.Idle? || w.session then w
      else if w.claimKey.Some? then w.(phase := Claiming(w.claimKey.value, false, false), requests := 0)
      else if !FreshId(w, draw) then w
      else w.(claimKey := Some(draw), mine := w.mine + {draw}, phase := Claiming(draw, false, false), requests := 0)
    case Ask =>
      if !w.phase.Claiming? || w.phase.asked then w
      else w.(phase := w.phase.(asked := true), wire := w.wire + {w.phase.id}, requests := w.requests + 1)
    case Serve(id, atMs) => if id !in w.wire then w else w.(relay := Claim(w.relay, id, Wanted(w.contact), atMs).0)
    case Read(atMs, draw) =>
      if !w.phase.Claiming? || !w.phase.asked || w.phase.id !in w.relay.claims then w else
      var b := w.relay.claims[w.phase.id].bundle;
      if !Pinned(w.contact, b) then w.(phase := Idle)
      else if InWindow(b, atMs) then w.(phase := Verified(w.phase.id, b))
      else if w.phase.replaced then w.(phase := Idle)
      else if !FreshId(w, draw) then w
      else w.(outdated := w.outdated + {b}, claimKey := Some(draw), mine := w.mine + {draw},
              phase := Claiming(draw, true, false))
    case Refused => if w.phase.Claiming? then w.(phase := Idle) else w
    case Establish =>
      if !w.phase.Verified? then w
      else if w.session then w.(phase := Idle)
      else w.(session := true, claimKey := None, spent := Some(w.phase.id), phase := Idle)
    case CommitUnderSession =>
      if !w.phase.Idle? || !w.session then w
      else w.(claimKey := None, spent := if w.claimKey.Some? then w.claimKey else w.spent)
    case Crash => w.(phase := Idle)
    case InboundSession => w.(session := true)
    case OthersClaim(id, selector, atMs) => if id in w.mine then w
        else w.(relay := Claim(w.relay, id, selector, atMs).0)
    case Publication(b, atMs) => w.(relay := Publish(w.relay, b, atMs).0)
  }

  ghost function Run(w: World, events: seq<Event>): World
    decreases |events|
  {
    if events == [] then w else Run(Apply(w, events[0]), events[1..])
  }

  lemma {:induction false} RunInParts(w: World, first: seq<Event>, second: seq<Event>)
    ensures Run(w, first + second) == Run(Run(w, first), second)
    decreases |first|
  {
    hide Apply;
    if first == [] {
      assert first + second == second;
    } else {
      assert (first + second)[1..] == first[1..] + second;
      RunInParts(Apply(w, first[0]), first[1..], second);
    }
  }

  lemma ThreeSteps(w: World, a: Event, b: Event, c: Event)
    ensures Run(w, [a, b, c]) == Apply(Apply(Apply(w, a), b), c)
  {
    hide Apply;
    assert [a, b, c][1..] == [b, c] && [b, c][1..] == [c] && [c][1..] == [];
    var x := Apply(w, a);
    var y := Apply(x, b);
    assert Run(y, [c]) == Apply(y, c);
  }

  /** A sender that has never written to this contact. */
  ghost predicate Start(w: World) {
    && w.claimKey.None? && !w.session && w.phase.Idle? && w.wire == {} && w.mine == {} && w.outdated == {}
        && w.spent.None?
    && w.requests == 0 && Linked(w.relay)
  }

  /** The bundles this sender's claims consumed. */
  ghost function Consumed(w: World): set<Bundle> {
    set c | c in w.mine && c in w.relay.claims :: w.relay.claims[c].bundle
  }

  // ---- the invariant ------------------------------------------------------------------------------------------

  ghost predicate Current(w: World, id: ClaimId) { w.claimKey == Some(id) || w.spent == Some(id) }

  /**
   Every identifier given up unspent was given up for a bundle found outside its window, and a message is
   committed only under a session, after which no new one is drawn.
   */
  ghost predicate NothingWasted(w: World) {
    && (forall c :: c in w.mine ==> Current(w, c) || (c in w.relay.claims && w.relay.claims[c].bundle in w.outdated))
    && (w.spent.Some? ==> w.claimKey.None? && w.session)
    && (w.phase.Claiming? ==> w.claimKey == Some(w.phase.id))
    && (w.phase.Verified? ==> w.claimKey == Some(w.phase.id))
    && (w.claimKey.Some? ==> w.claimKey.value in w.mine)
    && w.wire <= w.mine
  }

  ghost predicate Counted(w: World) {
    && w.requests <= 2
    && (w.phase.Claiming? ==> w.requests == (if w.phase.replaced then 1 else 0) + (if w.phase.asked then 1 else 0))
  }

  ghost predicate Inv(w: World) { NothingWasted(w) && Counted(w) }

  lemma RelayKeepsNothingWasted(w: World, relay: Relay)
    requires NothingWasted(w) && Grows(w.relay, relay)
    ensures NothingWasted(w.(relay := relay))
  {}

  lemma ClaimGrows(r: Relay, id: ClaimId, q: Selector, atMs: nat)
    ensures Grows(r, Claim(r, id, q, atMs).0)
  {
    StepGrows(r, ClaimRequest(id, q, atMs));
  }

  lemma StepKeepsInv(w: World, e: Event)
    requires Inv(w)
    ensures Inv(Apply(w, e))
  {
    hide Grows, Claim, Publish;
    match e
    case Serve(id, atMs) =>
      ClaimGrows(w.relay, id, Wanted(w.contact), atMs);
      RelayKeepsNothingWasted(w, Claim(w.relay, id, Wanted(w.contact), atMs).0);
    case OthersClaim(id, selector, atMs) =>
      ClaimGrows(w.relay, id, selector, atMs);
      RelayKeepsNothingWasted(w, Claim(w.relay, id, selector, atMs).0);
    case Publication(b, atMs) =>
      StepGrows(w.relay, PreKeyRelay.Publication(b, atMs));
      RelayKeepsNothingWasted(w, Publish(w.relay, b, atMs).0);
    case _ =>
  }

  lemma {:induction false} RunKeepsInv(w: World, events: seq<Event>)
    requires Inv(w)
    ensures Inv(Run(w, events))
    decreases |events|
  {
    hide Apply;
    if events != [] {
      StepKeepsInv(w, events[0]);
      RunKeepsInv(Apply(w, events[0]), events[1..]);
    }
  }

  /**
   First contact wastes nothing.  Over every run with crashes, lost answers and repeated requests, and
   whichever side's session a message is committed under, at most one of the bundles a sender's claims
   consumed was not found outside its validity window, so it consumes no more than one plus the times that
   happened; and no send asks for more than two claims.
   */
  lemma FirstContactWastesNothing(w: World, events: seq<Event>)
    requires Start(w)
    ensures var t := Run(w, events);
            && |Consumed(t) - t.outdated| <= 1
            && |Consumed(t)| <= 1 + |t.outdated|
            && t.requests <= 2
  {
    hide Apply;
    RunKeepsInv(w, events);
    var t := Run(w, events);
    OneIsCurrent(t);
    SubsetSize(Consumed(t), (Consumed(t) - t.outdated) + t.outdated);
  }

  lemma OneIsCurrent(t: World)
    requires NothingWasted(t)
    ensures |Consumed(t) - t.outdated| <= 1
  {
    var live := Consumed(t) - t.outdated;
    if live != {} {
      var b :| b in live;
      forall a | a in live ensures a == b {
        var c :| c in t.mine && c in t.relay.claims && t.relay.claims[c].bundle == a;
        var d :| d in t.mine && d in t.relay.claims && t.relay.claims[d].bundle == b;
        assert Current(t, c) && Current(t, d);
      }
      assert live == {b};
    }
  }
}
