/**
 How long an envelope is once stored: its JSON text as the relay writes it, the admission check that bounds
 its fields before that text exists, and what the one says about the other.
 */
module WireSize {
  import opened Decimals

  /** The bytes of one character in UTF-8. */
  function CharBytes(c: char): (n: nat)
    ensures n > 0
  {
    if c < '\U{80}' then 1 else if c < '\U{800}' then 2 else if c < '\U{10000}' then 3 else 4
  }

  function Bytes(s: string): nat {
    if s == [] then 0 else Bytes(s[..|s| - 1]) + CharBytes(s[|s| - 1])
  }

  lemma {:induction false} BytesOfConcat(a: string, b: string)
    ensures Bytes(a + b) == Bytes(a) + Bytes(b)
    decreases |b|
  {
    if b == [] {
      assert a + b == a;
    } else {
      BytesOfConcat(a, b[..|b| - 1]);
      assert (a + b)[..|a + b| - 1] == a + b[..|b| - 1];
    }
  }

  predicate Ascii(s: string) { forall i :: 0 <= i < |s| ==> s[i] < '\U{80}' }

  lemma {:induction false} BytesOfAscii(s: string)
    requires Ascii(s)
    ensures Bytes(s) == |s|
  {
    if s != [] { BytesOfAscii(s[..|s| - 1]); }
  }

  // ---- JSON text ------------------------------------------------------------------------------------------

  const HEX := "0123456789abcdef"

  /** The characters the encoder writes as a six-byte escape, so that its text is safe inside HTML and scripts. */
  predicate WrittenAsUnicode(c: char) {
    || c in "<>&" || c == '\U{2028}' || c == '\U{2029}'
    || (c < ' ' && c !in "\n\r\t" && c != '\U{8}' && c != '\U{c}')
  }

  predicate Backslashed(c: char) { c in "\"\\\n\r\t" || c == '\U{8}' || c == '\U{c}' }

  function CodePoint(c: char): string {
    var n := c as int;
    "\\u" + [HEX[n / 4096 % 16], HEX[n / 256 % 16], HEX[n / 16 % 16], HEX[n % 16]]
  }

  function Letter(c: char): char {
    if c == '\n' then 'n' else if c == '\r' then 'r' else if c == '\t' then 't'
    else if c == '\U{8}' then 'b' else if c == '\U{c}' then 'f' else c
  }

  /** One character inside a JSON string. */
  function Escaped(c: char): string {
    if WrittenAsUnicode(c) then CodePoint(c) else if Backslashed(c) then ['\\', Letter(c)] else [c]
  }

  function Body(s: string): string {
    if s == [] then "" else Body(s[..|s| - 1]) + Escaped(s[|s| - 1])
  }

  function Quoted(s: string): string { "\"" + Body(s) + "\"" }

  function Number(n: int): string { if n < 0 then "-" + Digits(-n) else Digits(n) }

  /** One member of an object, and the members after it. */
  datatype Field = Field(name: string, text: string)

  function Members(fields: seq<Field>): string {
    if fields == [] then ""
    else
      (if |fields| == 1 then "" else Members(fields[..|fields| - 1]) + ",")
      + Quoted(fields[|fields| - 1].name) + ":" + fields[|fields| - 1].text
  }

  function Object(fields: seq<Field>): string { "{" + Members(fields) + "}" }

  // ---- the envelope on the wire ------------------------------------------------------------------------------

  datatype Wire = Wire(
    envelopeId: string,
    messageId: string,
    sender: string,
    senderDevice: string,
    recipient: string,
    recipientDevice: string,
    mailbox: string,
    ciphertext: string,
    createdAtMs: int,
    expiresAtMs: int,
    sizeBytes: int,
    signature: string
  )

  function Fields(w: Wire): seq<Field> {
    [Field("type", Quoted("mailbox_envelope")), Field("version", Number(1)),
     Field("envelope_id", Quoted(w.envelopeId)), Field("message_id", Quoted(w.messageId)),
     Field("sender_identity_id", Quoted(w.sender)), Field("sender_device_id", Quoted(w.senderDevice)),
     Field("recipient_identity_id", Quoted(w.recipient)), Field("recipient_device_id", Quoted(w.recipientDevice)),
     Field("recipient_mailbox_id", Quoted(w.mailbox)), Field("payload_type", Quoted("ciphertext_message")),
     Field("ciphertext", Quoted(w.ciphertext)), Field("created_at_ms", Number(w.createdAtMs)),
     Field("expires_at_ms", Number(w.expiresAtMs)), Field("size_bytes", Number(w.sizeBytes))]
    + (if w.signature == "" then [] else [Field("sender_signature", Quoted(w.signature))])
  }

  /** The stored value, and its length: what the envelope contributes to a response. */
  function Encoding(w: Wire): string { Object(Fields(w)) }

  function EncodedBytes(w: Wire): nat { Bytes(Encoding(w)) }

  // ---- what is admitted ------------------------------------------------------------------------------------

  const MAX_IDENTIFIER_BYTES: nat := 256
  const MAX_SIGNATURE_BYTES: nat := 256

  predicate IsHex(c: char) { '0' <= c <= '9' || 'a' <= c <= 'f' || 'A' <= c <= 'F' }

  const NIL_UUID := "00000000-0000-0000-0000-000000000000"

  /** The identifier shape of the client's schema: versions 1 to 8, or the nil value. */
  predicate IsUuid(s: string) {
    || s == NIL_UUID
    || (|s| == 36 && (forall i :: 0 <= i < 36 ==> if i in {8, 13, 18, 23} then s[i] == '-' else IsHex(s[i]))
        && '1' <= s[14] <= '8' && s[19] in "89abAB")
  }

  predicate Int64(n: int) { -0x8000_0000_0000_0000 <= n < 0x8000_0000_0000_0000 }

  /** The shape checks of the send route: lengths in bytes, and no rule about characters outside identifiers. */
  predicate Admitted(w: Wire, maxBytes: nat) {
    && Bytes(w.sender) <= MAX_IDENTIFIER_BYTES && Bytes(w.recipient) <= MAX_IDENTIFIER_BYTES
    && Bytes(w.mailbox) <= MAX_IDENTIFIER_BYTES
    && IsUuid(w.envelopeId) && IsUuid(w.messageId) && IsUuid(w.senderDevice) && IsUuid(w.recipientDevice)
    && w.ciphertext != "" && Bytes(w.ciphertext) <= maxBytes && w.sizeBytes == Bytes(w.ciphertext)
    && Int64(w.createdAtMs) && Int64(w.expiresAtMs) && Int64(w.sizeBytes) && w.expiresAtMs > w.createdAtMs
    && w.signature != "" && Bytes(w.signature) <= MAX_SIGNATURE_BYTES
  }

  /** The alphabet a client of this program writes its ciphertext in. */
  predicate Base64UrlText(s: string) {
    forall i :: 0 <= i < |s| ==> 'A' <= s[i] <= 'Z' || 'a' <= s[i] <= 'z' || '0' <= s[i] <= '9' || s[i] in "-_"
  }

  // ---- lengths -----------------------------------------------------------------------------------------------

  lemma CodePointBytes(c: char)
    ensures Bytes(CodePoint(c)) == 6
  {
    hide Bytes;
    BytesOfAscii(CodePoint(c));
  }

  lemma OneCharBytes(c: char)
    ensures Bytes([c]) == CharBytes(c)
  {
    assert [c][..0] == [];
  }

  lemma EscapedBytes(c: char)
    ensures Bytes(Escaped(c))
            == if WrittenAsUnicode(c) then 6 else if Backslashed(c) then 2 else CharBytes(c)
    ensures 1 <= Bytes(Escaped(c)) <= 6 * CharBytes(c)
  {
    hide Bytes;
    if WrittenAsUnicode(c) {
      CodePointBytes(c);
    } else if Backslashed(c) {
      BytesOfAscii(Escaped(c));
    } else {
      OneCharBytes(c);
    }
  }

  /** How long an ASCII character is in a JSON string the relay writes. */
  lemma EscapesOfAscii(c: char)
    requires c < '\U{80}'
    ensures Bytes(Escaped(c))
            == if c == '<' || c == '>' || c == '&' then 6
               else if c == '"' || c == '\\' then 2
               else if c >= ' ' then 1
               else if c in {'\U{8}', '\U{9}', '\U{a}', '\U{c}', '\U{d}'} then 2
               else 6
  {
    EscapedBytes(c);
  }

  /** Escaping lengthens a string at most sixfold. */
  lemma QuotedAtMost(s: string)
    ensures Bytes(Quoted(s)) <= 6 * Bytes(s) + 2
  {
    BodyAtMost(s);
    QuotedBytes(s);
  }

  lemma {:induction false} BodyAtMost(s: string)
    ensures Bytes(Body(s)) <= 6 * Bytes(s)
  {
    if s != [] {
      BodyAtMost(s[..|s| - 1]);
      EscapedBytes(s[|s| - 1]);
      BytesOfConcat(Body(s[..|s| - 1]), Escaped(s[|s| - 1]));
    }
  }

  /** And leaves alone what needs no escape. */
  lemma {:induction false} PlainBody(s: string)
    requires Ascii(s) && forall i :: 0 <= i < |s| ==> !WrittenAsUnicode(s[i]) && !Backslashed(s[i])
    ensures Body(s) == s
  {
    if s != [] {
      PlainBody(s[..|s| - 1]);
      assert s == s[..|s| - 1] + [s[|s| - 1]];
    }
  }

  lemma PlainQuoted(s: string)
    requires Ascii(s) && forall i :: 0 <= i < |s| ==> !WrittenAsUnicode(s[i]) && !Backslashed(s[i])
    ensures Bytes(s) == |s| && Bytes(Quoted(s)) == |s| + 2
  {
    hide WrittenAsUnicode, Backslashed, Body, Bytes;
    PlainBody(s);
    BytesOfAscii(s);
    QuotedBytes(s);
  }

  lemma QuotedBytes(s: string)
    ensures Bytes(Quoted(s)) == Bytes(Body(s)) + 2
  {
    hide Body;
    BytesOfConcat("\"", Body(s));
    BytesOfConcat("\"" + Body(s), "\"");
    BytesOfAscii("\"");
  }

  /** `n` times the character that costs most. */
  function LessThans(n: nat): (s: string)
    ensures |s| == n
  {
    seq(n, _ => '<')
  }

  lemma LessThanBytes(n: nat)
    ensures Bytes(LessThans(n)) == n && Bytes(Quoted(LessThans(n))) == 6 * n + 2
  {
    BytesOfAscii(LessThans(n));
    LessThanBody(n);
    QuotedBytes(LessThans(n));
  }

  lemma {:induction false} LessThanBody(n: nat)
    ensures Bytes(Body(LessThans(n))) == 6 * n
  {
    if n > 0 {
      var s := LessThans(n);
      assert s[..n - 1] == LessThans(n - 1);
      LessThanBody(n - 1);
      EscapedBytes('<');
      BytesOfConcat(Body(s[..n - 1]), Escaped('<'));
    }
  }

  lemma NumberBytes(n: int)
    requires Int64(n)
    ensures Bytes(Number(n)) <= 21
  {
    hide Bytes, Pow10, Digits;
    var size: nat := if n < 0 then -n else n;
    WidthsSuffice(size);
    DigitsFit(size, 20);
    BytesOfAscii(Number(n));
  }

  function FieldBytes(f: Field): nat { Bytes(Quoted(f.name)) + 1 + Bytes(f.text) }

  lemma MemberBytes(fields: seq<Field>)
    requires fields != []
    ensures var n := |fields| - 1;
            Bytes(Members(fields))
            == (if n == 0 then 0 else Bytes(Members(fields[..n])) + 1) + FieldBytes(fields[n])
  {
    hide Bytes, Quoted;
    var n := |fields| - 1;
    if n == 0 {
      NothingBytes();
      PairBytes("", fields[n]);
    } else {
      PairBytes(Members(fields[..n]) + ",", fields[n]);
      BytesOfConcat(Members(fields[..n]), ",");
      BytesOfAscii(",");
    }
  }

  lemma NothingBytes()
    ensures Bytes("") == 0
  {}

  lemma PairBytes(front: string, f: Field)
    ensures Bytes(front + Quoted(f.name) + ":" + f.text) == Bytes(front) + FieldBytes(f)
  {
    hide Bytes, Quoted;
    var name := Quoted(f.name);
    BytesOfConcat(front + name + ":", f.text);
    BytesOfConcat(front + name, ":");
    BytesOfConcat(front, name);
    BytesOfAscii(":");
  }

  /** One member counts in full, and when the others are short the whole is little longer. */
  lemma {:induction false} MembersBytes(fields: seq<Field>, k: nat, cap: nat)
    requires k < |fields|
    requires forall i :: 0 <= i < |fields| && i != k ==> FieldBytes(fields[i]) <= cap
    ensures FieldBytes(fields[k]) <= Bytes(Members(fields)) <= FieldBytes(fields[k]) + (cap + 1) * (|fields| - 1)
  {
    hide FieldBytes, Members, Bytes;
    var n := |fields| - 1;
    MemberBytes(fields);
    if n > 0 {
      if k == n {
        ShortMembers(fields[..n], cap);
      } else {
        MembersBytes(fields[..n], k, cap);
      }
      assert (cap + 1) * n == (cap + 1) * (n - 1) + (cap + 1);
    }
  }

  lemma {:induction false} ShortMembers(fields: seq<Field>, cap: nat)
    requires fields != [] && forall i :: 0 <= i < |fields| ==> FieldBytes(fields[i]) <= cap
    ensures Bytes(Members(fields)) + 1 <= (cap + 1) * |fields|
  {
    hide FieldBytes, Members, Bytes;
    var n := |fields| - 1;
    MemberBytes(fields);
    if n > 0 {
      ShortMembers(fields[..n], cap);
      assert (cap + 1) * (n + 1) == (cap + 1) * n + (cap + 1);
    }
  }

  /** Every member counts in full, whatever the others are. */
  lemma {:induction false} MemberCounts(fields: seq<Field>, k: nat)
    requires k < |fields|
    ensures Bytes(Members(fields)) >= FieldBytes(fields[k])
  {
    hide FieldBytes, Members, Bytes;
    var n := |fields| - 1;
    MemberBytes(fields);
    if k < n { MemberCounts(fields[..n], k); }
  }

  // ---- the length of an admitted envelope ----------------------------------------------------------------------

  /** Enough for every field but the ciphertext, escaped or not. */
  const SHORT_FIELD_BYTES: nat := 1700

  const OTHER_FIELDS_BYTES: nat := 24576

  /** Where the ciphertext stands in the object. */
  const CIPHERTEXT: nat := 10

  lemma ShortString(name: string, s: string)
    requires |name| <= 21 && Ascii(name) && Bytes(s) <= 256
    ensures FieldBytes(Field(name, Quoted(s))) <= SHORT_FIELD_BYTES
  {
    hide Bytes, Quoted;
    BytesOfAscii(name);
    QuotedAtMost(name);
    QuotedAtMost(s);
  }

  lemma ShortNumber(name: string, n: int)
    requires |name| <= 21 && Ascii(name) && Int64(n)
    ensures FieldBytes(Field(name, Number(n))) <= SHORT_FIELD_BYTES
  {
    hide Bytes, Quoted, Number;
    BytesOfAscii(name);
    QuotedAtMost(name);
    NumberBytes(n);
  }

  lemma UuidBytes(s: string)
    requires IsUuid(s)
    ensures Bytes(s) <= 256
  {
    hide Bytes;
    BytesOfAscii(s);
  }

  lemma LiteralBytes()
    ensures Bytes("mailbox_envelope") <= 256 && Bytes("ciphertext_message") <= 256
  {
    hide Bytes;
    BytesOfAscii("mailbox_envelope");
    BytesOfAscii("ciphertext_message");
  }

  predicate Short(f: Field) { FieldBytes(f) <= SHORT_FIELD_BYTES }

  lemma UuidsAreShort(w: Wire, maxBytes: nat)
    requires Admitted(w, maxBytes)
    ensures Short(Field("envelope_id", Quoted(w.envelopeId))) && Short(Field("message_id", Quoted(w.messageId)))
    ensures Short(Field("sender_device_id", Quoted(w.senderDevice)))
    ensures Short(Field("recipient_device_id", Quoted(w.recipientDevice)))
  {
    hide Bytes, Quoted, FieldBytes, IsUuid;
    UuidBytes(w.envelopeId);
    ShortString("envelope_id", w.envelopeId);
    UuidBytes(w.messageId);
    ShortString("message_id", w.messageId);
    UuidBytes(w.senderDevice);
    ShortString("sender_device_id", w.senderDevice);
    UuidBytes(w.recipientDevice);
    ShortString("recipient_device_id", w.recipientDevice);
  }

  lemma StringsAreShort(w: Wire, maxBytes: nat)
    requires Admitted(w, maxBytes)
    ensures Short(Field("sender_identity_id", Quoted(w.sender)))
    ensures Short(Field("recipient_identity_id", Quoted(w.recipient)))
    ensures Short(Field("recipient_mailbox_id", Quoted(w.mailbox)))
    ensures Short(Field("sender_signature", Quoted(w.signature)))
  {
    hide Bytes, Quoted, FieldBytes, IsUuid;
    ShortString("sender_identity_id", w.sender);
    ShortString("recipient_identity_id", w.recipient);
    ShortString("recipient_mailbox_id", w.mailbox);
    ShortString("sender_signature", w.signature);
  }

  lemma ConstantsAreShort()
    ensures Short(Field("type", Quoted("mailbox_envelope"))) && Short(Field("version", Number(1)))
    ensures Short(Field("payload_type", Quoted("ciphertext_message")))
  {
    hide Bytes, Quoted, FieldBytes, Number;
    LiteralBytes();
    ShortString("type", "mailbox_envelope");
    ShortNumber("version", 1);
    ShortString("payload_type", "ciphertext_message");
  }

  lemma NumbersAreShort(w: Wire, maxBytes: nat)
    requires Admitted(w, maxBytes)
    ensures Short(Field("created_at_ms", Number(w.createdAtMs)))
    ensures Short(Field("expires_at_ms", Number(w.expiresAtMs)))
    ensures Short(Field("size_bytes", Number(w.sizeBytes)))
  {
    hide Bytes, Quoted, FieldBytes, Number, IsUuid;
    ShortNumber("created_at_ms", w.createdAtMs);
    ShortNumber("expires_at_ms", w.expiresAtMs);
    ShortNumber("size_bytes", w.sizeBytes);
  }

  lemma OtherFieldsAreShort(w: Wire, maxBytes: nat)
    requires Admitted(w, maxBytes)
    ensures var fields := Fields(w);
            |fields| == 15 && fields[CIPHERTEXT] == Field("ciphertext", Quoted(w.ciphertext))
            && forall i :: 0 <= i < 15 && i != CIPHERTEXT ==> Short(fields[i])
  {
    hide Bytes, Quoted, Number, IsUuid, Short;
    UuidsAreShort(w, maxBytes);
    StringsAreShort(w, maxBytes);
    ConstantsAreShort();
    NumbersAreShort(w, maxBytes);
  }

  lemma ObjectBytes(fields: seq<Field>)
    ensures Bytes(Object(fields)) == Bytes(Members(fields)) + 2
  {
    hide Bytes, Members;
    BytesOfConcat("{", Members(fields));
    BytesOfConcat("{" + Members(fields), "}");
    BytesOfAscii("{");
    BytesOfAscii("}");
  }

  /** An admitted envelope is as long as its quoted ciphertext, up to the fields beside it. */
  lemma AdmittedBytes(w: Wire, maxBytes: nat)
    requires Admitted(w, maxBytes)
    ensures Bytes(Quoted(w.ciphertext)) <= EncodedBytes(w) <= Bytes(Quoted(w.ciphertext)) + OTHER_FIELDS_BYTES
  {
    hide Bytes, Quoted, Number, Members, Admitted, Object, Fields;
    OtherFieldsAreShort(w, maxBytes);
    var fields := Fields(w);
    ObjectBytes(fields);
    assert forall i :: 0 <= i < |fields| && i != CIPHERTEXT ==> Short(fields[i]);
    MembersBytes(fields, CIPHERTEXT, SHORT_FIELD_BYTES);
    NameBytes();
  }

  lemma NameBytes()
    ensures Bytes(Quoted("ciphertext")) <= 62
  {
    hide Bytes, Quoted;
    QuotedAtMost("ciphertext");
    BytesOfAscii("ciphertext");
  }

  /**
   The clients' own envelopes.  A ciphertext in the base64url alphabet is written as it is, so an admitted
   envelope that carries one is at most the maximum and the other fields long.
   */
  lemma PlainEnvelopesAreShort(w: Wire, maxBytes: nat)
    requires Admitted(w, maxBytes) && Base64UrlText(w.ciphertext)
    ensures EncodedBytes(w) <= maxBytes + 2 + OTHER_FIELDS_BYTES
  {
    hide EncodedBytes, Bytes, Quoted;
    AdmittedBytes(w, maxBytes);
    PlainQuoted(w.ciphertext);
  }

  /** The admission check lets every length up to the maximum through, six bytes to a character. */
  function Costly(w: Wire, n: nat): Wire { w.(ciphertext := LessThans(n), sizeBytes := n) }

  lemma CostlyEnvelopesAreLong(w: Wire, maxBytes: nat)
    requires Admitted(w, maxBytes) && 0 < maxBytes && Int64(maxBytes)
    ensures Admitted(Costly(w, maxBytes), maxBytes) && EncodedBytes(Costly(w, maxBytes)) > 6 * maxBytes
  {
    hide EncodedBytes, Bytes, Quoted, IsUuid;
    LessThanBytes(maxBytes);
    AdmittedBytes(Costly(w, maxBytes), maxBytes);
  }

  /** So does the check of an identifier. */
  function CostlyRecipient(w: Wire): Wire { w.(recipient := LessThans(MAX_IDENTIFIER_BYTES)) }

  const RECIPIENT: nat := 6

  lemma CostlyRecipientsAreLong(w: Wire, maxBytes: nat)
    requires Admitted(w, maxBytes)
    ensures Admitted(CostlyRecipient(w), maxBytes)
    ensures EncodedBytes(CostlyRecipient(w)) > 6 * MAX_IDENTIFIER_BYTES
  {
    hide Bytes, Quoted, IsUuid, Members, Number, Object;
    var fields := Fields(CostlyRecipient(w));
    LessThanBytes(MAX_IDENTIFIER_BYTES);
    ObjectBytes(fields);
    MemberCounts(fields, RECIPIENT);
  }

  /** An envelope of one byte, to show that the check can be passed. */
  const SMALLEST: Wire :=
    Wire(NIL_UUID, NIL_UUID, "a", NIL_UUID, "b", NIL_UUID, "c", "d", 0, 1, 1, "e")

  lemma SmallestIsAdmitted(maxBytes: nat)
    requires maxBytes > 0
    ensures Admitted(SMALLEST, maxBytes)
  {
    hide Bytes;
    BytesOfAscii("a");
    BytesOfAscii("b");
    BytesOfAscii("c");
    BytesOfAscii("d");
    BytesOfAscii("e");
  }
}
