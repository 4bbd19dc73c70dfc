/**
 The message history: a sequence counter, and records under sixteen-digit keys read back in the byte order
 of those keys.
 */
module History {
  import opened Wrappers
  import opened Decimals

  const SEQUENCE_DIGITS: nat := 16
  const MAX_SAFE_INTEGER: nat := 9007199254740991

  datatype Entry = Entry(contact: nat, message: nat, inbound: bool, plaintext: string, createdAtMs: nat)

  datatype Sequenced = Sequenced(sequence: nat, entry: Entry)

  datatype HistoryError = HistorySequenceExhausted

  function KeyOf(sequence: nat): string { ZeroPadded(sequence, SEQUENCE_DIGITS) }

  type Records = map<string, Sequenced>

  /** The records are exactly what was appended, each under its own number. */
  ghost predicate Represents(records: Records, counter: Option<nat>, contents: seq<Entry>) {
    && |contents| <= MAX_SAFE_INTEGER && counter == (if contents == [] then None else Some(|contents|))
    && (forall k :: k in records ==> IsKey(k, |contents|))
    && (forall i: nat :: 1 <= i <= |contents| ==>
          KeyOf(i) in records && records[KeyOf(i)] == Sequenced(i, contents[i - 1]))
  }

  ghost predicate IsKey(k: string, count: nat) {
    exists i: nat :: 1 <= i <= count && k == KeyOf(i)
  }

  /** One contact's messages, in the order they were appended. */
  ghost function Conversation(contents: seq<Entry>, contact: nat): seq<Sequenced> {
    if contents == [] then [] else
    var n := |contents| - 1;
    Conversation(contents[..n], contact) + (if contents[n].contact == contact then [Sequenced(n + 1, contents[n])]
        else [])
  }

  /** An entry of that contact, under its own number. */
  ghost predicate Belongs(contents: seq<Entry>, contact: nat, x: Sequenced) {
    1 <= x.sequence <= |contents| && x.entry == contents[x.sequence - 1] && x.entry.contact == contact
  }

  /** What reading yields: every entry of that contact and no other, each once, in the order of its number. */
  lemma {:induction false} ConversationIsTheContacts(contents: seq<Entry>, contact: nat)
    ensures var read := Conversation(contents, contact);
            && (forall x: Sequenced :: x in read <==> Belongs(contents, contact, x))
            && (forall i, j :: 0 <= i < j < |read| ==> read[i].sequence < read[j].sequence)
  {
    if contents != [] {
      var n := |contents| - 1;
      ConversationIsTheContacts(contents[..n], contact);
      var front, read := Conversation(contents[..n], contact), Conversation(contents, contact);
      forall x: Sequenced ensures x in read <==> Belongs(contents, contact, x) {
        assert x in front <==> Belongs(contents[..n], contact, x);
      }
      forall i | 0 <= i < |front| ensures front[i].sequence <= n {
        assert front[i] in front && Belongs(contents[..n], contact, front[i]);
      }
    }
  }

  /** Sequence numbers sort as their keys do. */
  lemma KeysSortBySequence(i: nat, j: nat)
    requires i <= MAX_SAFE_INTEGER && j <= MAX_SAFE_INTEGER
    ensures ByteLess(KeyOf(i), KeyOf(j)) <==> i < j
    ensures KeyOf(i) == KeyOf(j) <==> i == j
  {
    WidthsSuffice(i);
    WidthsSuffice(j);
    PaddedKeysSortNumerically(i, j, SEQUENCE_DIGITS);
  }

  // ---- byte order is a total order -------------------------------------------------------------------------------

  lemma {:induction false} ByteOrderIsTotal(a: string, b: string)
    ensures a == b || ByteLess(a, b) || ByteLess(b, a)
    decreases |a|
  {
    if a != "" && b != "" && a[0] == b[0] {
      ByteOrderIsTotal(a[1..], b[1..]);
      assert a == [a[0]] + a[1..] && b == [b[0]] + b[1..];
    }
  }

  lemma {:induction false} ByteOrderIsTransitive(a: string, b: string, c: string)
    requires ByteLess(a, b) && ByteLess(b, c)
    ensures ByteLess(a, c)
    decreases |a|
  {
    if a != "" && a[0] == b[0] && b[0] == c[0] {
      ByteOrderIsTransitive(a[1..], b[1..], c[1..]);
    }
  }

  /** The first key in byte order. */
  method LeastKey(keys: set<string>) returns (least: string)
    requires keys != {}
    ensures least in keys && forall k :: k in keys ==> k == least || ByteLess(least, k)
  {
    least :| least in keys;
    var rest := keys - {least};
    while rest != {}
      invariant least in keys && rest <= keys
      invariant forall k :: k in keys && k !in rest ==> k == least || ByteLess(least, k)
      decreases rest
    {
      var k :| k in rest;
      rest := rest - {k};
      ByteOrderIsTotal(least, k);
      if ByteLess(k, least) {
        forall j | j in keys && j !in rest ensures j == k || ByteLess(k, j) {
          if j != k && j != least { ByteOrderIsTransitive(k, least, j); }
        }
        least := k;
      }
    }
  }

  // ---- the store -------------------------------------------------------------------------------------------------

  class HistoryStore {
    var records: Records
    var counter: Option<nat>
    ghost var contents: seq<Entry>

    ghost predicate Valid()
      reads this
    {
      Represents(records, counter, contents)
    }

    constructor ()
      ensures Valid() && contents == []
    {
      records, counter, contents := map[], None, [];
    }

    method AppendHistory(entry: Entry) returns (r: Result<nat, HistoryError>)
      requires Valid()
      modifies this
      ensures Valid()
      ensures if |old(contents)| < MAX_SAFE_INTEGER then contents == old(contents) + [entry] && r == Ok(|contents|)
              else contents == old(contents) && r == Err(HistorySequenceExhausted)
      ensures r.Err? <==> |old(contents)| >= 0x1f_ffff_ffff_ffff
    {
      var sequence := if counter.Some? then counter.value + 1 else 1;
      if sequence > MAX_SAFE_INTEGER { return Err(HistorySequenceExhausted); }
      AppendRepresents(records, counter, contents, entry);
      records := records[KeyOf(sequence) := Sequenced(sequence, entry)];
      counter := Some(sequence);
      contents := contents + [entry];
      r := Ok(sequence);
    }

    /** One contact's messages: every key in byte order, decoded and filtered. */
    method ReadHistory(contact: nat) returns (read: seq<Sequenced>)
      requires Valid()
      ensures read == Conversation(contents, contact)
    {
      var rest := records.Keys;
      ghost var n := 0;
      read := [];
      StartsWithAll(records, counter, contents);
      while rest != {}
        invariant n <= |contents| && rest == KeysAfter(n, |contents|)
        invariant read == Conversation(contents[..n], contact)
        decreases rest
      {
        var key := LeastKey(rest);
        NextKey(n, |contents|, rest, key);
        var record := records[key];
        assert contents[..n + 1][..n] == contents[..n];
        if record.entry.contact == contact { read := read + [record]; }
        rest := rest - {key};
        n := n + 1;
      }
      LastIsAfter(n, |contents|);
      assert contents[..n] == contents;
    }
  }

  /** The keys of the sequence numbers after `n`. */
  ghost function KeysAfter(n: nat, count: nat): set<string> {
    set i: nat | n < i <= count :: KeyOf(i)
  }

  lemma AppendRepresents(records: Records, counter: Option<nat>, contents: seq<Entry>, entry: Entry)
    requires Represents(records, counter, contents) && |contents| < MAX_SAFE_INTEGER
    ensures var n := |contents| + 1;
            Represents(records[KeyOf(n) := Sequenced(n, entry)], Some(n), contents + [entry])
  {
    hide KeyOf;
    var n := |contents| + 1;
    var after := records[KeyOf(n) := Sequenced(n, entry)];
    forall k | k in after ensures IsKey(k, n) {
      if k != KeyOf(n) {
        var i: nat :| 1 <= i <= |contents| && k == KeyOf(i);
      }
    }
    forall i: nat | 1 <= i <= n ensures KeyOf(i) in after
        && after[KeyOf(i)] == Sequenced(i, (contents + [entry])[i - 1]) {
      KeysSortBySequence(i, n);
    }
  }

  lemma StartsWithAll(records: Records, counter: Option<nat>, contents: seq<Entry>)
    requires Represents(records, counter, contents)
    ensures records.Keys == KeysAfter(0, |contents|)
  {
    hide KeyOf;
    forall k | k in records ensures k in KeysAfter(0, |contents|) {
      var i: nat :| 1 <= i <= |contents| && k == KeyOf(i);
    }
  }

  lemma NextKey(n: nat, count: nat, rest: set<string>, key: string)
    requires count <= MAX_SAFE_INTEGER && rest == KeysAfter(n, count) && rest != {}
    requires key in rest && forall k :: k in rest ==> k == key || ByteLess(key, k)
    ensures n < count && key == KeyOf(n + 1) && rest - {key} == KeysAfter(n + 1, count)
  {
    hide KeyOf, ByteLess;
    var i: nat :| n < i <= count && key == KeyOf(i);
    assert KeyOf(n + 1) in rest;
    KeysSortBySequence(i, n + 1);
    forall k | k in rest ensures k != key <==> k in KeysAfter(n + 1, count) {
      var j: nat :| n < j <= count && k == KeyOf(j);
      KeysSortBySequence(j, n + 1);
      if k in KeysAfter(n + 1, count) {
        var l: nat :| n + 1 < l <= count && k == KeyOf(l);
        KeysSortBySequence(l, n + 1);
      }
    }
  }

  lemma LastIsAfter(n: nat, count: nat)
    ensures n < count ==> KeyOf(count) in KeysAfter(n, count)
  {}
}
