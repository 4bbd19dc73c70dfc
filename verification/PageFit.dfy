/**
 Whether the client can read a page: the bytes of the response around and between its envelopes, the bound
 both sides derive from one maximum message size, and exactly which first envelopes pass it.
 */
module PageFit {
  import opened Wrappers
  import opened Decimals
  import opened MailboxState
  import opened Paging
  import MR = MailboxRepository
  import W = WireSize

  /** The text around the envelopes: the encoder writes the keys of an object in order. */
  const RESPONSE_HEAD := "{\"data\":{\"envelopes\":["
  const RESPONSE_CURSOR := "],\"next_cursor\":"
  const RESPONSE_TAIL := "},\"ok\":true}\n"

  /** A token in quotes, or `null`. */
  function CursorBytes(cursor: Option<string>): nat {
    if cursor.Some? then |cursor.value| + 2 else |"null"|
  }

  function WrapperBytes(cursor: Option<string>): nat {
    |RESPONSE_HEAD| + |RESPONSE_CURSOR| + CursorBytes(cursor) + |RESPONSE_TAIL|
  }

  /** The envelopes with a separator between each two. */
  function Contents(envelopes: seq<Envelope>): nat {
    if envelopes == [] then 0
    else
      (if |envelopes| == 1 then 0 else Contents(envelopes[..|envelopes| - 1]) + ENVELOPE_SEPARATOR_BYTES)
      + envelopes[|envelopes| - 1].encodedBytes
  }

  function ResponseBytes(batch: MR.EnvelopeBatch): nat {
    WrapperBytes(batch.nextCursor) + Contents(batch.envelopes)
  }

  const MAX_POLLED_ENVELOPES: nat := 100

  /** What the client takes of a response: so many bytes, and so many envelopes in it. */
  predicate Readable(batch: MR.EnvelopeBatch, responseBound: nat) {
    |batch.envelopes| <= MAX_POLLED_ENVELOPES && ResponseBytes(batch) <= responseBound
  }

  /** The room the relay keeps free for that text. */
  const RESPONSE_WRAPPER_BYTES: nat := 4096

  /** The room the client adds for one envelope of the largest size, alone. */
  const CLIENT_WRAPPER_BYTES: nat := 65536

  /** The relay's aggregate budget for one response, from a maximum message size. */
  function PollByteBudget(maxMessageBytes: nat): int { 4 * maxMessageBytes - RESPONSE_WRAPPER_BYTES }

  /** The largest response the client reads, from the same maximum. */
  function ClientResponseBound(maxMessageBytes: nat): nat {
    if 4 * maxMessageBytes > maxMessageBytes + CLIENT_WRAPPER_BYTES then 4 * maxMessageBytes
    else maxMessageBytes + CLIENT_WRAPPER_BYTES
  }

  /** The maximum both programs are built with, and the client's bound from it. */
  const MAX_MESSAGE_BYTES: nat := 262144
  const CLIENT_RESPONSE_BOUND: nat := ClientResponseBound(MAX_MESSAGE_BYTES)

  /** The numbers both programs end up with: a mebibyte, less four kibibytes on the relay's side. */
  lemma TheBoundsAre()
    ensures CLIENT_RESPONSE_BOUND == 1024 * 1024 && PollByteBudget(256 * 1024) == 1024 * 1024 - 4 * 1024
    ensures MAX_MESSAGE_BYTES == 256 * 1024 && MAX_POLLED_ENVELOPES == 100
    ensures ClientResponseBound(16 * 1024) == (16 + 64) * 1024
  {}

  lemma {:induction false} ContentsOfItems(items: seq<Item>)
    requires items != []
    ensures Contents(MR.Envelopes(items)) + ENVELOPE_SEPARATOR_BYTES == Paging.Bytes(items)
  {
    var n := |items| - 1;
    var envelopes := MR.Envelopes(items);
    assert envelopes[..n] == MR.Envelopes(items[..n]);
    if n == 0 {
      assert items[..0] == [] && Paging.Bytes([]) == 0;
    } else {
      ContentsOfItems(items[..n]);
    }
  }

  /** The text around the envelopes with the longest token, twenty digits. */
  const LONGEST_WRAPPER_BYTES: nat := |RESPONSE_HEAD| + |RESPONSE_CURSOR| + 22 + |RESPONSE_TAIL|

  /** Positions are 64-bit numbers, so a token has at most twenty digits. */
  lemma WrapperIsSmall(next: Option<nat>)
    requires next.Some? ==> next.value < Pow10(20)
    ensures WrapperBytes(if next.Some? then Some(EncodeMailboxCursor(next.value)) else None) <= LONGEST_WRAPPER_BYTES
    ensures LONGEST_WRAPPER_BYTES <= RESPONSE_WRAPPER_BYTES
  {
    hide Pow10, Digits;
    if next.Some? { DigitsFit(next.value, 20); }
  }

  ghost function Served(box: Box, nowMs: nat, limit: nat, byteBudget: int, after: nat): MR.EnvelopeBatch {
    MR.Rendered(Page(box, nowMs, limit, byteBudget, after))
  }

  /**
   When a page fits.  Two or more envelopes were selected under the budget, which leaves room for the text
   around them; the first is exempt from the budget, so a page fits exactly when it is not one envelope that
   alone, with that text, is longer than the client reads.
   */
  lemma PageFitsIff(box: Box, nowMs: nat, limit: nat, byteBudget: int, after: nat, responseBound: nat)
    requires limit > 0 && 0 < byteBudget && byteBudget + RESPONSE_WRAPPER_BYTES <= responseBound
    requires var page := Page(box, nowMs, limit, byteBudget, after); page.next.Some? ==> page.next.value < Pow10(20)
    ensures var batch := Served(box, nowMs, limit, byteBudget, after);
            ResponseBytes(batch) <= responseBound
            <==> (|batch.envelopes| == 1 ==>
                    batch.envelopes[0].encodedBytes + WrapperBytes(batch.nextCursor) <= responseBound)
  {
    hide Pow10, WrapperBytes;
    var page := Page(box, nowMs, limit, byteBudget, after);
    var items := Scan(box, nowMs, after);
    var n := |page.items|;
    PageShape(box, nowMs, limit, byteBudget, after);
    PageIsTheLongestAdmissiblePrefix(box, nowMs, limit, byteBudget, after, n);
    WrapperIsSmall(page.next);
    if n > 1 { ContentsOfItems(page.items); }
  }

  /** The two sides' derivations from one maximum agree in the way the page needs, above 1024 bytes. */
  lemma SharedMaximumAgrees(maxMessageBytes: nat)
    ensures maxMessageBytes > 1024
        <==> 0 < PollByteBudget(maxMessageBytes)
             && PollByteBudget(maxMessageBytes) + RESPONSE_WRAPPER_BYTES <= ClientResponseBound(maxMessageBytes)
  {}

  // ---- what the clients send, and what the relay admits -------------------------------------------------------

  /** This envelope was admitted under a maximum, and is as long as its JSON text. */
  ghost predicate Carries(e: Envelope, w: W.Wire, maxBytes: nat) {
    W.Admitted(w, maxBytes) && e.encodedBytes == W.EncodedBytes(w)
  }

  /** Every stored envelope was admitted with a ciphertext as the clients write it. */
  ghost predicate WrittenByClients(box: Box, maxBytes: nat) {
    forall id :: id in box.primary ==>
      exists w :: Carries(box.primary[id].envelope, w, maxBytes) && W.Base64UrlText(w.ciphertext)
  }

  /** Such an envelope fits alone. */
  lemma PlainEnvelopeFitsAlone(e: Envelope, w: W.Wire, configured: nat, maxMessageBytes: nat)
    requires Carries(e, w, configured) && W.Base64UrlText(w.ciphertext) && configured <= maxMessageBytes
    ensures e.encodedBytes + RESPONSE_WRAPPER_BYTES <= ClientResponseBound(maxMessageBytes)
  {
    hide W.Admitted, W.EncodedBytes, W.Base64UrlText;
    W.PlainEnvelopesAreShort(w, configured);
  }

  /**
   For every shared maximum above 1024 bytes, and whatever lower maximum a deployment admits envelopes with, a
   page of a mailbox the clients write to is one the client reads.
   */
  lemma EveryPageFitsTheClient(box: Box, nowMs: nat, limit: nat, after: nat, maxMessageBytes: nat, configured: nat)
    requires 0 < limit <= MAX_POLLED_ENVELOPES && maxMessageBytes > 1024 && configured <= maxMessageBytes
    requires WrittenByClients(box, configured)
    requires forall p :: p in box.index ==> p < Pow10(20)
    ensures Readable(Served(box, nowMs, limit, PollByteBudget(maxMessageBytes), after),
                     ClientResponseBound(maxMessageBytes))
  {
    hide Pow10, WrapperBytes, W.Admitted, W.EncodedBytes, W.Base64UrlText;
    var budget := PollByteBudget(maxMessageBytes);
    var page := Page(box, nowMs, limit, budget, after);
    PageCovers(box, nowMs, limit, budget, after);
    if page.next.Some? { assert LiveAt(box, page.items[|page.items| - 1].position, nowMs); }
    PageFitsIff(box, nowMs, limit, budget, after, ClientResponseBound(maxMessageBytes));
    PageIsTheLongestAdmissiblePrefix(box, nowMs, limit, budget, after, |page.items|);
    if |page.items| == 1 {
      var e := page.items[0].envelope;
      assert LiveAt(box, page.items[0].position, nowMs);
      var w :| Carries(e, w, configured) && W.Base64UrlText(w.ciphertext);
      PlainEnvelopeFitsAlone(e, w, configured, maxMessageBytes);
      WrapperIsSmall(page.next);
    }
  }

  /**
   The alphabet is needed.  From a maximum of 13108 bytes on, whatever else an admitted envelope says, it may
   carry a ciphertext of the largest size that is all `<`; and no response that starts with it is readable,
   because the first envelope is exempt from the budget and its JSON text is over six times the maximum.
   */
  lemma AnEscapedCiphertextIsUnreadable(w: W.Wire, maxMessageBytes: nat, e: Envelope, batch: MR.EnvelopeBatch)
    requires W.Admitted(w, maxMessageBytes) && 13108 <= maxMessageBytes && W.Int64(maxMessageBytes)
    requires e.encodedBytes == W.EncodedBytes(W.Costly(w, maxMessageBytes))
    requires batch.envelopes != [] && batch.envelopes[0] == e
    ensures Carries(e, W.Costly(w, maxMessageBytes), maxMessageBytes)
    ensures !Readable(batch, ClientResponseBound(maxMessageBytes))
  {
    hide W.Admitted, W.EncodedBytes, WrapperBytes;
    W.CostlyEnvelopesAreLong(w, maxMessageBytes);
    FirstCounts(batch.envelopes);
  }

  /** At the shared maximum there is such an envelope, alone above the client's whole bound. */
  lemma AnUnreadableEnvelopeIsAdmitted() returns (w: W.Wire)
    ensures W.Admitted(w, MAX_MESSAGE_BYTES) && W.EncodedBytes(w) > CLIENT_RESPONSE_BOUND
  {
    hide W.Admitted, W.EncodedBytes;
    W.SmallestIsAdmitted(MAX_MESSAGE_BYTES);
    W.CostlyEnvelopesAreLong(W.SMALLEST, MAX_MESSAGE_BYTES);
    w := W.Costly(W.SMALLEST, MAX_MESSAGE_BYTES);
  }

  lemma {:induction false} FirstCounts(envelopes: seq<Envelope>)
    requires envelopes != []
    ensures Contents(envelopes) >= envelopes[0].encodedBytes
  {
    if |envelopes| > 1 { FirstCounts(envelopes[..|envelopes| - 1]); }
  }

  // ---- at 1024 bytes and less ------------------------------------------------------------------------------

  lemma {:induction false} NoByteBound(items: seq<Item>, limit: nat, byteBudget: int, used: nat, taken: nat)
    requires byteBudget <= 0 && taken + |items| <= limit
    ensures Fill(items, limit, byteBudget, used, taken) == |items|
    decreases |items|
  {
    if items != [] { NoByteBound(items[1..], limit, byteBudget, used + Cost(items[0].envelope), taken + 1); }
  }

  lemma {:induction false} ContentsAtLeast(envelopes: seq<Envelope>, size: nat)
    requires forall i :: 0 <= i < |envelopes| ==> envelopes[i].encodedBytes >= size
    ensures Contents(envelopes) >= size * |envelopes|
  {
    if envelopes != [] {
      var n := |envelopes| - 1;
      ContentsAtLeast(envelopes[..n], size);
      assert size * (n + 1) == size * n + size;
    }
  }

  /**
   The threshold is sharp.  At 1024 bytes or less the budget is not positive, which selection reads as "no
   byte bound": it then takes every one of a hundred waiting envelopes, and at 666 bytes each they make a
   response the client refuses.
   */
  lemma {:induction false} SmallMaximaLoseTheByteBound(maxMessageBytes: nat, items: seq<Item>, next: Option<string>)
    requires maxMessageBytes <= 1024 && |items| == MAX_POLLED_ENVELOPES
    requires forall i :: 0 <= i < |items| ==> items[i].envelope.encodedBytes >= 666
    ensures Fill(items, MAX_POLLED_ENVELOPES, PollByteBudget(maxMessageBytes), 0, 0) == |items|
    ensures !Readable(MR.EnvelopeBatch(MR.Envelopes(items), next), ClientResponseBound(maxMessageBytes))
  {
    hide WrapperBytes;
    NoByteBound(items, MAX_POLLED_ENVELOPES, PollByteBudget(maxMessageBytes), 0, 0);
    ContentsAtLeast(MR.Envelopes(items), 666);
  }

  /**
   Such envelopes are admitted at every one of those maxima: whatever else an admitted envelope says, it may
   name its recipient in 256 times `<`, and there is one to start from.
   */
  lemma SmallMaximaAdmitSuchEnvelopes(maxMessageBytes: nat, w: W.Wire, e: Envelope)
    requires 0 < maxMessageBytes
    requires W.Admitted(w, maxMessageBytes) && e.encodedBytes == W.EncodedBytes(W.CostlyRecipient(w))
    ensures Carries(e, W.CostlyRecipient(w), maxMessageBytes) && e.encodedBytes >= 666
    ensures W.Admitted(W.SMALLEST, maxMessageBytes)
  {
    hide W.Admitted, W.EncodedBytes;
    W.CostlyRecipientsAreLong(w, maxMessageBytes);
    W.SmallestIsAdmitted(maxMessageBytes);
  }
}
