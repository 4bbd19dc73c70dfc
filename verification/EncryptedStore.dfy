/**
 The client's store: one encrypted snapshot, and transactions that run one after another on a working copy.
 A transaction reads and writes its copy call by call, and may throw, be cut off by the end of the process, or
 go on using its handle when it is over.  Encryption is uninterpreted; a snapshot is the map it decrypts to.
 */
module EncryptedStore {
  import opened Wrappers

  type Value = seq<nat>

  type Records = map<string, Value>

  type Handle = nat

  datatype Write = Put(key: string, value: Value) | Drop(key: string)

  function Wrote(records: Records, w: Write): Records {
    match w
    case Put(key, value) => records[key := value]
    case Drop(key) => records - {key}
  }

  /** Writes applied one after another. */
  function WroteAll(records: Records, writes: seq<Write>): Records {
    if writes == [] then records else Wrote(WroteAll(records, writes[..|writes| - 1]), writes[|writes| - 1])
  }

  function Lookup(records: Records, key: string): Option<Value> {
    if key in records then Some(records[key]) else None
  }

  /** The last of these writes to a key. */
  ghost predicate LastTo(writes: seq<Write>, key: string, i: nat) {
    i < |writes| && writes[i].key == key && forall j :: i < j < |writes| ==> writes[j].key != key
  }

  /** What a key holds after some writes: what the last one to it put, nothing if that deleted it, else what it held. */
  lemma {:induction false} AReadFindsTheLastWrite(records: Records, writes: seq<Write>, key: string, i: nat)
    ensures LastTo(writes, key, i) ==>
              Lookup(WroteAll(records, writes), key) == if writes[i].Put? then Some(writes[i].value) else None
    ensures (forall j :: 0 <= j < |writes| ==> writes[j].key != key) ==>
              Lookup(WroteAll(records, writes), key) == if key in records then Some(records[key]) else None
  {
    if writes != [] {
      var n := |writes| - 1;
      AReadFindsTheLastWrite(records, writes[..n], key, i);
      if i < n && LastTo(writes, key, i) { assert LastTo(writes[..n], key, i); }
    }
  }

  // ---- the store as a machine ---------------------------------------------------------------------------------

  /** A running transaction: its copy, and what it has written to it. */
  datatype Scope = Scope(handle: Handle, records: Records, writes: seq<Write>)

  datatype Commit = Commit(handle: Handle, writes: seq<Write>)

  /** What the last call was answered. */
  datatype Answer = Nothing | Read(found: Option<Value>) | Written | NoLongerActive | Nested | Closed

  datatype Disk = Disk(
    durable: Records,
    queue: seq<Handle>,                // submitted and not finished; the first may be running
    next: Handle,                     // the next transaction's handle
    running: Option<Scope>,
    finished: seq<Handle>,             // committed or rolled back, in order
    committed: seq<Commit>,
    closing: bool,
    open: bool,
    answer: Answer
  )

  datatype Event =
    | Submit
    | SubmitInside(handle: Handle)               // a transaction begun from inside another
    | Begin
    | Get(handle: Handle, key: string)
    | Set(handle: Handle, key: string, value: Value)
    | Delete(handle: Handle, key: string)
    | Return                                     // the operation returns: write back and commit
    | Throw                                      // the operation or the commit throws: roll back
    | Close
    | Release                                    // the database handle goes when the queue is empty
    | Exit                                       // the process ends in the middle of anything
    | Reopen

  predicate Active(d: Disk, handle: Handle) { d.running.Some? && d.running.value.handle == handle }

  function Writing(d: Disk, handle: Handle, w: Write): Disk {
    if !Active(d, handle) then d.(answer := NoLongerActive)
    else
      var scope := d.running.value;
      d.(running := Some(scope.(records := Wrote(scope.records, w), writes := scope.writes + [w])), answer := Written)
  }

  function Apply(d: Disk, e: Event): Disk {
    match e
    case Submit =>
      if d.closing then d.(answer := Closed)
      else d.(queue := d.queue + [d.next], next := d.next + 1, answer := Nothing)
    case SubmitInside(handle) => if Active(d, handle) then d.(answer := Nested) else d
    case Begin =>
      if !d.open || d.running.Some? || d.queue == [] then d
      else d.(running := Some(Scope(d.queue[0], d.durable, [])))
    case Get(handle, key) =>
      d.(answer := if Active(d, handle) then Read(Lookup(d.running.value.records, key)) else NoLongerActive)
    case Set(handle, key, value) => Writing(d, handle, Put(key, value))
    case Delete(handle, key) => Writing(d, handle, Drop(key))
    case Return =>
      if d.running.None? || d.queue == [] then d
      else
        var scope := d.running.value;
        d.(durable := scope.records, running := None, queue := d.queue[1..], finished := d.finished + [scope.handle],
           committed := d.committed + [Commit(scope.handle, scope.writes)])
    case Throw =>
      if d.running.None? || d.queue == [] then d
      else d.(running := None, queue := d.queue[1..], finished := d.finished + [d.running.value.handle])
    case Close => d.(closing := true)
    case Release => if d.closing && d.queue == [] then d.(open := false) else d
    case Exit => d.(queue := [], running := None, closing := true, open := false)
    case Reopen => if d.open then d else d.(closing := false, open := true)
  }

  function Run(d: Disk, events: seq<Event>): Disk
    decreases |events|
  {
    if events == [] then d else Run(Apply(d, events[0]), events[1..])
  }

  /** A store just opened on a snapshot. */
  predicate Start(d: Disk) {
    d.queue == [] && d.running.None? && d.finished == [] && d.committed == [] && !d.closing && d.open
  }

  /** What the committed transactions leave of a snapshot, one at a time in their order. */
  function Committed(initial: Records, commits: seq<Commit>): Records {
    if commits == [] then initial
    else WroteAll(Committed(initial, commits[..|commits| - 1]), commits[|commits| - 1].writes)
  }

  ghost predicate Inv(initial: Records, d: Disk) {
    && d.durable == Committed(initial, d.committed)
    && (d.running.Some? ==>
          && d.queue != [] && d.running.value.handle == d.queue[0] && d.open
          && d.running.value.records == WroteAll(d.durable, d.running.value.writes))
    && (!d.open ==> d.closing && d.queue == [])
    && (forall i :: 0 <= i < |d.queue| ==> d.queue[i] < d.next)
    && (forall i :: 0 <= i < |d.finished| ==> d.finished[i] < d.next)
    && (forall i, j :: 0 <= i < j < |d.queue| ==> d.queue[i] < d.queue[j])
    && (forall i, j :: 0 <= i < |d.finished| && 0 <= j < |d.queue| ==> d.finished[i] < d.queue[j])
    && (forall i, j :: 0 <= i < j < |d.finished| ==> d.finished[i] < d.finished[j])
    && (forall i :: 0 <= i < |d.committed| ==> d.committed[i].handle in d.finished)
  }

  lemma OneMoreCommit(initial: Records, commits: seq<Commit>, c: Commit)
    ensures Committed(initial, commits + [c]) == WroteAll(Committed(initial, commits), c.writes)
  {
    var all := commits + [c];
    assert all[..|all| - 1] == commits;
  }

  lemma OneMoreWrite(records: Records, writes: seq<Write>, w: Write)
    ensures WroteAll(records, writes + [w]) == Wrote(WroteAll(records, writes), w)
  {
    var all := writes + [w];
    assert all[..|all| - 1] == writes;
  }

  lemma EndingKeepsInv(initial: Records, d: Disk, e: Event)
    requires Inv(initial, d) && (e.Return? || e.Throw?)
    ensures Inv(initial, Apply(d, e))
  {
    hide Committed, WroteAll;
    var t := Apply(d, e);
    if d.running.Some? {
      if e.Return? { OneMoreCommit(initial, d.committed, Commit(d.running.value.handle, d.running.value.writes)); }
      assert t.finished[|d.finished|] == d.queue[0];
      forall i | 0 <= i < |t.committed| ensures t.committed[i].handle in t.finished {
        if i < |d.committed| { assert d.committed[i].handle in d.finished; }
      }
    }
  }

  lemma WritingKeepsInv(initial: Records, d: Disk, handle: Handle, w: Write)
    requires Inv(initial, d)
    ensures Inv(initial, Writing(d, handle, w))
  {
    hide Committed, WroteAll, Wrote;
    if Active(d, handle) { OneMoreWrite(d.durable, d.running.value.writes, w); }
  }

  lemma StepKeepsInv(initial: Records, d: Disk, e: Event)
    requires Inv(initial, d)
    ensures Inv(initial, Apply(d, e))
  {
    hide Committed, WroteAll;
    match e
    case Return => EndingKeepsInv(initial, d, e);
    case Throw => EndingKeepsInv(initial, d, e);
    case Set(handle, key, value) => WritingKeepsInv(initial, d, handle, Put(key, value));
    case Delete(handle, key) => WritingKeepsInv(initial, d, handle, Drop(key));
    case Begin => NothingWritten(d.durable);
    case _ =>
  }

  lemma NothingWritten(records: Records)
    ensures WroteAll(records, []) == records
  {}

  lemma {:induction false} RunKeepsInv(initial: Records, d: Disk, events: seq<Event>)
    requires Inv(initial, d)
    ensures Inv(initial, Run(d, events))
    decreases |events|
  {
    hide Inv, Apply;
    if events != [] {
      StepKeepsInv(initial, d, events[0]);
      RunKeepsInv(initial, Apply(d, events[0]), events[1..]);
    }
  }

  lemma StartIsInv(d: Disk)
    requires Start(d)
    ensures Inv(d.durable, d)
  {}

  /**
   Transactions are serial and all or nothing.  Over every run, with calls of every kind in any order, throws,
   crashes and reopenings, the snapshot is what the committed transactions wrote, each in full, one at a time
   in the order they were submitted: of one that is running, that threw or was cut off, it holds nothing.
   */
  lemma TransactionsAreSerial(d: Disk, events: seq<Event>)
    requires Start(d)
    ensures var t := Run(d, events);
            && t.durable == Committed(d.durable, t.committed)
            && (forall i, j :: 0 <= i < j < |t.finished| ==> t.finished[i] < t.finished[j])
            && (forall i :: 0 <= i < |t.committed| ==> t.committed[i].handle in t.finished)
            && (t.running.Some? ==> t.running.value.handle !in t.finished)
            && (!t.open ==> t.queue == [] && t.running.None?)
  {
    hide Run;
    StartIsInv(d);
    RunKeepsInv(d.durable, d, events);
  }

  /**
   A transaction sees the snapshot it began on and its own writes, and nothing else: a read in any reachable
   state is answered from the committed transactions followed by what this one has written.
   */
  lemma ReadsSeeOwnWrites(d: Disk, events: seq<Event>, handle: Handle, key: string)
    requires Start(d) && Active(Run(d, events), handle)
    ensures var t := Run(d, events);
            var seen := WroteAll(Committed(d.durable, t.committed), t.running.value.writes);
            Apply(t, Get(handle, key)) == t.(answer := Read(Lookup(seen, key)))
  {
    hide Run;
    StartIsInv(d);
    RunKeepsInv(d.durable, d, events);
  }

  /** A transaction begun inside another is refused, and a closing store takes no new one: neither moves anything. */
  lemma RefusedSubmissions(d: Disk, handle: Handle)
    ensures Active(d, handle) ==> Apply(d, SubmitInside(handle)) == d.(answer := Nested)
    ensures d.closing ==> Apply(d, Submit) == d.(answer := Closed)
    ensures !d.closing ==> Apply(d, Submit).queue == d.queue + [d.next]
  {}

  ghost predicate Uses(e: Event, handle: Handle) {
    (e.Get? || e.Set? || e.Delete?) && e.handle == handle
  }

  /**
   A handle is good until its transaction ends and never again: from then on, in every run, whatever is called
   on it is answered "no longer active" and changes nothing.
   */
  lemma ADeadHandleDoesNothing(d: Disk, events: seq<Event>, later: seq<Event>, handle: Handle, use: Event)
    requires Start(d) && handle in Run(d, events).finished && Uses(use, handle)
    ensures var t := Run(Run(d, events), later);
            handle in t.finished && Apply(t, use) == t.(answer := NoLongerActive)
  {
    hide Run, Committed;
    StartIsInv(d);
    RunKeepsInv(d.durable, d, events);
    RunKeepsInv(d.durable, Run(d, events), later);
    FinishedStays(Run(d, events), later, handle);
  }

  lemma {:induction false} FinishedStays(d: Disk, events: seq<Event>, handle: Handle)
    requires handle in d.finished
    ensures handle in Run(d, events).finished
    decreases |events|
  {
    if events != [] { FinishedStays(Apply(d, events[0]), events[1..], handle); }
  }

  /** Nothing but a commit moves the snapshot, and a commit moves it by the whole transaction. */
  lemma OnlyACommitMovesTheSnapshot(d: Disk, events: seq<Event>, e: Event)
    requires Start(d)
    ensures var s, t := Run(d, events), Apply(Run(d, events), e);
            t.durable != s.durable ==>
              e.Return? && s.running.Some? && t.durable == WroteAll(s.durable, s.running.value.writes)
  {
    hide Run, Committed, WroteAll;
    StartIsInv(d);
    RunKeepsInv(d.durable, d, events);
  }

  /** From any reachable state on, without a crash, nothing submitted is lost or reordered. */
  lemma SubmissionsRunInOrder(d: Disk, events: seq<Event>, later: seq<Event>)
    requires Start(d) && forall i :: 0 <= i < |later| ==> !later[i].Exit?
    ensures var s, t := Run(d, events), Run(Run(d, events), later);
            s.finished + s.queue <= t.finished + t.queue && s.finished <= t.finished
  {
    hide Run;
    StartIsInv(d);
    RunKeepsInv(d.durable, d, events);
    RunsInOrder(d.durable, Run(d, events), later);
  }

  lemma {:induction false} RunsInOrder(initial: Records, d: Disk, events: seq<Event>)
    requires Inv(initial, d) && forall i :: 0 <= i < |events| ==> !events[i].Exit?
    ensures var t := Run(d, events); d.finished + d.queue <= t.finished + t.queue && d.finished <= t.finished
    decreases |events|
  {
    hide Inv, Apply;
    if events != [] {
      InOrder(initial, d, events[0]);
      StepKeepsInv(initial, d, events[0]);
      RunsInOrder(initial, Apply(d, events[0]), events[1..]);
    }
  }

  lemma QueueShape(initial: Records, d: Disk)
    requires Inv(initial, d)
    ensures d.running.Some? ==> d.queue != [] && d.running.value.handle == d.queue[0]
    ensures !d.open ==> d.queue == []
  {
    hide Committed, WroteAll;
  }

  lemma InOrder(initial: Records, d: Disk, e: Event)
    requires Inv(initial, d) && !e.Exit?
    ensures var t := Apply(d, e); d.finished + d.queue <= t.finished + t.queue && d.finished <= t.finished
  {
    QueueShape(initial, d);
    hide Committed, WroteAll, Inv;
    var t := Apply(d, e);
    if e.Submit? && !d.closing {
      assert t.finished + t.queue == (d.finished + d.queue) + [d.next];
    } else if (e.Return? || e.Throw?) && d.running.Some? && d.queue != [] {
      assert d.queue == [d.queue[0]] + d.queue[1..];
      assert t.finished + t.queue == d.finished + d.queue;
    }
  }

  // ---- one transaction -------------------------------------------------------------------------------------------

  /** What an operation calls on its handle, or that it throws. */
  datatype Call = GetCall(key: string) | SetCall(key: string, value: Value) | DeleteCall(key: string) | ThrowCall

  /** An operation: its calls in order; without a throw it returns after the last. */
  type Operation = seq<Call>

  predicate Throws(operation: Operation) { exists i :: 0 <= i < |operation| && operation[i].ThrowCall? }

  function WriteOf(c: Call): seq<Write> {
    match c
    case SetCall(key, value) => [Put(key, value)]
    case DeleteCall(key) => [Drop(key)]
    case _ => []
  }

  /** The writes an operation has made when it has come so far. */
  function WritesOf(operation: Operation): seq<Write> {
    if operation == [] then [] else WritesOf(operation[..|operation| - 1]) + WriteOf(operation[|operation| - 1])
  }

  /** What a call does to the copy. */
  function AfterCall(records: Records, c: Call): Records {
    if c.SetCall? then records[c.key := c.value] else if c.DeleteCall? then records - {c.key} else records
  }

  lemma OneMoreCall(records: Records, operation: Operation, c: Call)
    ensures WroteAll(records, WritesOf(operation + [c]))
            == AfterCall(WroteAll(records, WritesOf(operation)), c)
  {
    var all := operation + [c];
    assert all[..|all| - 1] == operation;
    if c.SetCall? || c.DeleteCall? {
      assert WritesOf(all) == WritesOf(operation) + [WriteOf(c)[0]];
      OneMoreWrite(records, WritesOf(operation), WriteOf(c)[0]);
    } else {
      assert WritesOf(all) == WritesOf(operation) + [] == WritesOf(operation);
    }
  }

  /** The calls as steps of the machine, up to the commit or the throw. */
  function Steps(handle: Handle, operation: Operation): seq<Event> {
    if operation == [] then [Return]
    else match operation[0]
         case GetCall(key) => [Get(handle, key)] + Steps(handle, operation[1..])
         case SetCall(key, value) => [Set(handle, key, value)] + Steps(handle, operation[1..])
         case DeleteCall(key) => [Delete(handle, key)] + Steps(handle, operation[1..])
         case ThrowCall => [Throw]
  }

  /** A transaction under way, its copy the snapshot and the writes of what it has called. */
  ghost predicate UnderWay(d: Disk, handle: Handle, done: Operation) {
    Active(d, handle) && d.queue != [] && d.running.value.records == WroteAll(d.durable, WritesOf(done))
  }

  lemma StepIsTaken(d: Disk, handle: Handle, done: Operation, rest: Operation)
    requires UnderWay(d, handle, done) && rest != [] && !rest[0].ThrowCall?
    ensures var e := Steps(handle, rest)[0];
            && Run(d, Steps(handle, rest)) == Run(Apply(d, e), Steps(handle, rest[1..]))
            && Apply(d, e).durable == d.durable && UnderWay(Apply(d, e), handle, done + [rest[0]])
  {
    hide WroteAll, WritesOf;
    assert Steps(handle, rest)[1..] == Steps(handle, rest[1..]);
    OneMoreCall(d.durable, done, rest[0]);
  }

  lemma LastStepIsTaken(d: Disk, e: Event)
    ensures Run(d, [e]) == Apply(d, e)
  {
    assert [e][1..] == [];
    assert Run(Apply(d, e), []) == Apply(d, e);
  }

  lemma ThrowsLater(operation: Operation)
    requires operation != []
    ensures Throws(operation) <==> operation[0].ThrowCall? || Throws(operation[1..])
  {
    if Throws(operation) && !operation[0].ThrowCall? {
      var i :| 0 <= i < |operation| && operation[i].ThrowCall?;
      assert operation[1..][i - 1].ThrowCall?;
    }
  }

  /** The machine does with a transaction's calls what is said of them as a whole. */
  lemma {:induction false} CallsAreSteps(d: Disk, handle: Handle, done: Operation, rest: Operation)
    requires UnderWay(d, handle, done)
    ensures Run(d, Steps(handle, rest)).durable
            == if Throws(rest) then d.durable else WroteAll(d.durable, WritesOf(done + rest))
    decreases |rest|
  {
    hide Run, WroteAll, WritesOf, Throws;
    if rest == [] {
      LastStepIsTaken(d, Return);
      assert done + rest == done && !Throws(rest) by { NoCalls(); }
    } else {
      ThrowsLater(rest);
      if rest[0].ThrowCall? {
        LastStepIsTaken(d, Throw);
      } else {
        StepIsTaken(d, handle, done, rest);
        CallsAreSteps(Apply(d, Steps(handle, rest)[0]), handle, done + [rest[0]], rest[1..]);
        assert done + [rest[0]] + rest[1..] == done + rest;
      }
    }
  }

  lemma NoCalls()
    ensures !Throws([])
  {}

  class EncryptedSqliteStore {
    var snapshot: Records

    constructor (snapshot: Records)
      ensures this.snapshot == snapshot
    {
      this.snapshot := snapshot;
    }

    /**
     Decrypt, run the calls on the copy, and either write the copy back or leave the snapshot as it was.  Each
     read is answered from the snapshot and the writes before it.
     */
    method Perform(operation: Operation) returns (ok: bool, answers: seq<Option<Value>>)
      modifies this
      ensures ok <==> !Throws(operation)
      ensures snapshot == if ok then WroteAll(old(snapshot), WritesOf(operation)) else old(snapshot)
      ensures |answers| <= |operation| && (ok ==> |answers| == |operation|)
      ensures forall j :: 0 <= j < |answers| && operation[j].GetCall? ==>
                answers[j] == Lookup(WroteAll(old(snapshot), WritesOf(operation[..j])), operation[j].key)
    {
      hide WroteAll, WritesOf;
      var records := snapshot;
      answers := [];
      var i := 0;
      NothingCalled(snapshot);
      assert operation[..0] == [];
      while i < |operation|
        invariant i <= |operation| && |answers| == i && snapshot == old(snapshot)
        invariant records == WroteAll(old(snapshot), WritesOf(operation[..i]))
        invariant forall j :: 0 <= j < i ==> !operation[j].ThrowCall?
        invariant forall j :: 0 <= j < i && operation[j].GetCall? ==>
                    answers[j] == Lookup(WroteAll(old(snapshot), WritesOf(operation[..j])), operation[j].key)
      {
        OneMoreCall(old(snapshot), operation[..i], operation[i]);
        assert operation[..i + 1] == operation[..i] + [operation[i]];
        match operation[i] {
          case GetCall(key) => answers := answers + [Lookup(records, key)];
          case SetCall(key, value) =>
            records := records[key := value];
            answers := answers + [None];
          case DeleteCall(key) =>
            records := records - {key};
            answers := answers + [None];
          case ThrowCall => return false, answers;
        }
        i := i + 1;
      }
      assert operation[..i] == operation;
      snapshot := records;
      ok := true;
    }
  }

  lemma NothingCalled(records: Records)
    ensures WroteAll(records, WritesOf([])) == records
  {}

  /**
   The method's transaction is the machine's: from any state in which it has just begun, its calls and their end
   leave the snapshot the method leaves.
   */
  lemma PerformIsARun(d: Disk, handle: Handle, operation: Operation)
    requires Active(d, handle) && d.queue != [] && d.running.value.records == d.durable
    ensures Run(d, Steps(handle, operation)).durable
            == if Throws(operation) then d.durable else WroteAll(d.durable, WritesOf(operation))
  {
    NothingCalled(d.durable);
    CallsAreSteps(d, handle, [], operation);
    assert [] + operation == operation;
  }
}
