/**
 Canonical base64url without padding (RFC 4648 sections 5 and 3.5): the relay decodes and encodes again,
 the client tests lengths, letters and spare bits.  Shifts, masks and unions of disjoint bits are written
 as the arithmetic they are.
 */
module Base64Url {
  import opened Wrappers

  type byte = b: nat | b < 256
  type sextet = v: nat | v < 64

  // ---- the alphabet ---------------------------------------------------------------------------------------

  function LetterOf(v: sextet): char {
    if v < 26 then 'A' + v as char
    else if v < 52 then 'a' + (v - 26) as char
    else if v < 62 then '0' + (v - 52) as char
    else if v == 62 then '-' else '_'
  }

  predicate IsLetter(c: char) {
    'A' <= c <= 'Z' || 'a' <= c <= 'z' || '0' <= c <= '9' || c == '-' || c == '_'
  }

  /** The place of a letter in the alphabet. */
  function ValueOf(c: char): sextet
    requires IsLetter(c)
  {
    if 'A' <= c <= 'Z' then (c - 'A') as nat
    else if 'a' <= c <= 'z' then (c - 'a') as nat + 26
    else if '0' <= c <= '9' then (c - '0') as nat + 52
    else if c == '-' then 62 else 63
  }

  predicate Letters(s: string) { forall i :: 0 <= i < |s| ==> IsLetter(s[i]) }

  function Values(s: string): seq<sextet>
    requires Letters(s)
  {
    seq(|s|, i requires 0 <= i < |s| => ValueOf(s[i]))
  }

  function Spelled(v: seq<sextet>): string { seq(|v|, i requires 0 <= i < |v| => LetterOf(v[i])) }

  lemma SpellingIsExact(v: seq<sextet>, s: string)
    ensures Letters(Spelled(v)) && Values(Spelled(v)) == v
    ensures Letters(s) ==> Spelled(Values(s)) == s
  {}

  // ---- groups of three bytes ---------------------------------------------------------------------------------

  function First(a: byte): sextet { a / 4 }
  function Second(a: byte, b: byte): sextet { a % 4 * 16 + b / 16 }
  function Third(b: byte, c: byte): sextet { b % 16 * 4 + c / 64 }
  function Fourth(c: byte): sextet { c % 64 }

  function High(v: sextet, w: sextet): byte { v * 4 + w / 16 }
  function Middle(w: sextet, x: sextet): byte { w % 16 * 16 + x / 4 }
  function Low(x: sextet, y: sextet): byte { x % 4 * 64 + y }

  /** Three bytes and four letters carry the same twenty-four bits. */
  lemma GroupsAreExact(a: byte, b: byte, c: byte)
    ensures High(First(a), Second(a, b)) == a && Middle(Second(a, b), Third(b, c)) == b
        && Low(Third(b, c), Fourth(c)) == c
  {}

  lemma LettersAreExact(v: sextet, w: sextet, x: sextet, y: sextet)
    ensures var (a, b, c) := (High(v, w), Middle(w, x), Low(x, y));
            First(a) == v && Second(a, b) == w && Third(b, c) == x && Fourth(c) == y
  {}

  /** What the last letter leaves unused. */
  lemma SpareBits(a: byte, b: byte, w: sextet, x: sextet)
    ensures Second(a, 0) % 16 == 0 && Third(b, 0) % 4 == 0
    ensures (w % 16 == 0 ==> Middle(w, 0) == 0) && (x % 4 == 0 ==> Low(x, 0) == 0)
  {}

  function Sextets(b: seq<byte>): seq<sextet> {
    if b == [] then []
    else if |b| == 1 then [First(b[0]), Second(b[0], 0)]
    else if |b| == 2 then [First(b[0]), Second(b[0], b[1]), Third(b[1], 0)]
    else [First(b[0]), Second(b[0], b[1]), Third(b[1], b[2]), Fourth(b[2])] + Sextets(b[3..])
  }

  /** The strict inverse: a last group of one letter, or one with spare bits set, decodes to nothing. */
  function Bytes(v: seq<sextet>): Option<seq<byte>> {
    if v == [] then Some([])
    else if |v| == 1 then None
    else if |v| == 2 then if v[1] % 16 != 0 then None else Some([High(v[0], v[1])])
    else if |v| == 3 then if v[2] % 4 != 0 then None else Some([High(v[0], v[1]), Middle(v[1], v[2])])
    else match Bytes(v[4..])
         case None => None
         case Some(rest) => Some([High(v[0], v[1]), Middle(v[1], v[2]), Low(v[2], v[3])] + rest)
  }

  lemma GroupDecoded(v: sextet, w: sextet, x: sextet, y: sextet, rest: seq<sextet>)
    requires Bytes(rest).Some?
    ensures Bytes([v, w, x, y] + rest) == Some([High(v, w), Middle(w, x), Low(x, y)] + Bytes(rest).value)
  {
    hide High, Middle, Low;
    assert ([v, w, x, y] + rest)[4..] == rest;
  }

  lemma GroupEncoded(b: seq<byte>)
    requires |b| >= 3
    ensures Sextets(b) == [First(b[0]), Second(b[0], b[1]), Third(b[1], b[2]), Fourth(b[2])] + Sextets(b[3..])
  {
    hide First, Second, Third, Fourth;
  }

  lemma GroupUndone(b: seq<byte>)
    requires |b| >= 3 && Bytes(Sextets(b[3..])) == Some(b[3..])
    ensures Bytes(Sextets(b)) == Some(b)
  {
    hide First, Second, Third, Fourth, High, Middle, Low, Bytes, Sextets;
    GroupEncoded(b);
    GroupDecoded(First(b[0]), Second(b[0], b[1]), Third(b[1], b[2]), Fourth(b[2]), Sextets(b[3..]));
    GroupsAreExact(b[0], b[1], b[2]);
    assert b == [b[0], b[1], b[2]] + b[3..];
  }

  lemma {:induction false} DecodeUndoesEncode(b: seq<byte>)
    ensures Bytes(Sextets(b)) == Some(b)
    decreases |b|
  {
    hide First, Second, Third, Fourth, High, Middle, Low;
    if b == [] {
    } else if |b| == 1 {
      assert b == [b[0]];
      GroupsAreExact(b[0], 0, 0);
      SpareBits(b[0], 0, 0, 0);
    } else if |b| == 2 {
      assert b == [b[0], b[1]];
      GroupsAreExact(b[0], b[1], 0);
      SpareBits(b[0], b[1], 0, 0);
    } else {
      DecodeUndoesEncode(b[3..]);
      GroupUndone(b);
    }
  }

  lemma {:induction false} EncodeUndoesDecode(v: seq<sextet>)
    requires Bytes(v).Some?
    ensures Sextets(Bytes(v).value) == v
    decreases |v|
  {
    hide First, Second, Third, Fourth, High, Middle, Low;
    if v == [] {
    } else if |v| == 2 {
      LettersAreExact(v[0], v[1], 0, 0);
      SpareBits(0, 0, v[1], 0);
    } else if |v| == 3 {
      LettersAreExact(v[0], v[1], v[2], 0);
      SpareBits(0, 0, 0, v[2]);
    } else {
      LettersAreExact(v[0], v[1], v[2], v[3]);
      EncodeUndoesDecode(v[4..]);
      assert Bytes(v).value[3..] == Bytes(v[4..]).value;
      assert v == [v[0], v[1], v[2], v[3]] + v[4..];
    }
  }

  /** How many letters `n` bytes take. */
  function EncodedLength(n: nat): nat { (8 * n + 5) / 6 }

  /** One more than the largest value of the spare bits in the last letter. */
  function SpareRange(n: nat): (range: nat)
    ensures range > 0
  {
    if n % 3 == 0 then 1 else if n % 3 == 1 then 16 else 4
  }

  /** A string of letters decodes to `n` bytes exactly when its length and its spare bits say so. */
  lemma {:induction false} DecodesWhenCanonical(v: seq<sextet>, n: nat)
    ensures (Bytes(v).Some? && |Bytes(v).value| == n)
            <==> |v| == EncodedLength(n) && (n > 0 ==> v[|v| - 1] % SpareRange(n) == 0)
    decreases |v|
  {
    if |v| >= 4 {
      if n >= 3 {
        DecodesWhenCanonical(v[4..], n - 3);
        assert EncodedLength(n) == EncodedLength(n - 3) + 4 && SpareRange(n) == SpareRange(n - 3);
        if |v| > 4 { assert v[4..][|v| - 5] == v[|v| - 1]; }
      }
    }
  }

  // ---- the three readings ---------------------------------------------------------------------------------------

  function Encode(b: seq<byte>): string { Spelled(Sextets(b)) }

  function WithoutLineBreaks(s: string): string {
    if s == "" then "" else (if s[0] == '\r' || s[0] == '\n' then "" else [s[0]]) + WithoutLineBreaks(s[1..])
  }

  /** The relay's decoder, which passes over line breaks. */
  function Decode(s: string): Option<seq<byte>> {
    var t := WithoutLineBreaks(s);
    if Letters(t) then Bytes(Values(t)) else None
  }

  /** The relay's test: decode, compare the length, encode again, compare the first byte. */
  predicate RelayAccepts(s: string, n: nat, prefix: Option<byte>) {
    var b := Decode(s);
    b.Some? && |b.value| == n && Encode(b.value) == s && (prefix.Some? ==> n > 0 && b.value[0] == prefix.value)
  }

  /** `(6 - (length * 8) % 6) % 6` */
  function UnusedBits(n: nat): nat { (6 - (n * 8) % 6) % 6 }

  function Power2(k: nat): (p: nat)
    ensures p > 0
  {
    if k == 0 then 1 else 2 * Power2(k - 1)
  }

  /** The client's test of length, letters, spare bits and first byte. */
  predicate ClientAccepts(s: string, n: nat, prefix: Option<byte>) {
    && |s| == EncodedLength(n) && s != "" && Letters(s)
    && ValueOf(s[|s| - 1]) % Power2(UnusedBits(n)) == 0
    && (prefix.Some? ==> |s| >= 2 && High(ValueOf(s[0]), ValueOf(s[1])) == prefix.value)
  }

  /** The encodings of `n` bytes that begin with the byte asked for. */
  ghost predicate Canonical(s: string, n: nat, prefix: Option<byte>) {
    exists b: seq<byte> :: Encodes(b, s, n, prefix)
  }

  lemma SpareBitsAreTheRange(n: nat)
    ensures Power2(UnusedBits(n)) == SpareRange(n)
  {
    assert Power2(2) == 4 && Power2(4) == 16;
    var q := n / 3;
    if n % 3 == 0 {
      Remainder(n * 8, 4 * q, 0);
    } else if n % 3 == 1 {
      Remainder(n * 8, 4 * q + 1, 2);
    } else {
      Remainder(n * 8, 4 * q + 2, 4);
    }
  }

  lemma Remainder(m: nat, q: nat, r: nat)
    requires m == 6 * q + r && r < 6
    ensures m % 6 == r
  {}

  lemma {:induction false} NothingToSkip(s: string)
    requires Letters(s)
    ensures WithoutLineBreaks(s) == s
    decreases |s|
  {
    if s != "" {
      NothingToSkip(s[1..]);
      assert s == [s[0]] + s[1..];
    }
  }

  lemma FirstByte(v: seq<sextet>)
    requires Bytes(v).Some? && v != []
    ensures |v| >= 2 && |Bytes(v).value| > 0 && Bytes(v).value[0] == High(v[0], v[1])
  {}

  ghost predicate Encodes(b: seq<byte>, s: string, n: nat, prefix: Option<byte>) {
    |b| == n && s == Encode(b) && (prefix.Some? ==> n > 0 && b[0] == prefix.value)
  }

  lemma RelayAcceptsEncodings(b: seq<byte>, s: string, n: nat, prefix: Option<byte>)
    requires Encodes(b, s, n, prefix)
    ensures RelayAccepts(s, n, prefix)
  {
    SpellingIsExact(Sextets(b), s);
    NothingToSkip(s);
    DecodeUndoesEncode(b);
  }

  lemma ClientAcceptsEncodings(b: seq<byte>, s: string, n: nat, prefix: Option<byte>)
    requires n >= 1 && Encodes(b, s, n, prefix)
    ensures ClientAccepts(s, n, prefix)
  {
    hide Sextets, Bytes, LetterOf, ValueOf, High;
    var v := Sextets(b);
    SpareBitsAreTheRange(n);
    SpellingIsExact(v, s);
    DecodeUndoesEncode(b);
    DecodesWhenCanonical(v, n);
    FirstByte(v);
  }

  lemma ClientAcceptsOnlyEncodings(s: string, n: nat, prefix: Option<byte>) returns (b: seq<byte>)
    requires n >= 1 && ClientAccepts(s, n, prefix)
    ensures Encodes(b, s, n, prefix)
  {
    hide Sextets, Bytes, LetterOf, ValueOf, High;
    var v := Values(s);
    SpareBitsAreTheRange(n);
    DecodesWhenCanonical(v, n);
    EncodeUndoesDecode(v);
    SpellingIsExact(v, s);
    FirstByte(v);
    b := Bytes(v).value;
  }

  /**
   The two tests agree.  For every length of at least one byte, the client accepts exactly the strings the
   relay accepts, and those are the encodings of that many bytes with the first byte asked for.
   */
  lemma BothSidesAcceptTheSame(s: string, n: nat, prefix: Option<byte>)
    requires n >= 1
    ensures ClientAccepts(s, n, prefix) <==> RelayAccepts(s, n, prefix)
    ensures RelayAccepts(s, n, prefix) <==> Canonical(s, n, prefix)
  {
    if ClientAccepts(s, n, prefix) {
      var b := ClientAcceptsOnlyEncodings(s, n, prefix);
      RelayAcceptsEncodings(b, s, n, prefix);
    }
    if RelayAccepts(s, n, prefix) {
      var b := Decode(s).value;
      assert Encodes(b, s, n, prefix);
      ClientAcceptsEncodings(b, s, n, prefix);
    }
    if Canonical(s, n, prefix) {
      var b: seq<byte> :| Encodes(b, s, n, prefix);
      RelayAcceptsEncodings(b, s, n, prefix);
    }
  }

  /** The empty string is the exception: the relay's test accepts it as no bytes, the client's accepts nothing there. */
  lemma NoBytesAreTheException(s: string)
    ensures !ClientAccepts(s, 0, None) && (RelayAccepts(s, 0, None) <==> s == "")
  {
    if RelayAccepts(s, 0, None) {
      assert Decode(s).value == [];
      assert Spelled([]) == "";
    }
    assert Spelled([]) == "" && Decode("") == Some([]);
  }

  // ---- the client's encoder and decoder ------------------------------------------------------------------------

  function Padding(n: nat): string { if n % 3 == 1 then "==" else if n % 3 == 2 then "=" else "" }

  function Standard(c: char): char { if c == '-' then '+' else if c == '_' then '/' else c }

  function UrlSafe(c: char): char { if c == '+' then '-' else if c == '/' then '_' else c }

  function Replaced(s: string, f: char -> char): string { seq(|s|, i requires 0 <= i < |s| => f(s[i])) }

  predicate IsBinary(s: string) { forall i :: 0 <= i < |s| ==> s[i] as nat < 256 }

  function Codes(s: string): seq<byte>
    requires IsBinary(s)
  {
    seq(|s|, i requires 0 <= i < |s| => s[i] as nat)
  }

  function Characters(b: seq<byte>): string { seq(|b|, i requires 0 <= i < |b| => b[i] as char) }

  /** The platform's encoder of a string of byte characters: the standard alphabet, padded. */
  function Btoa(binary: string): string
    requires IsBinary(binary)
  {
    Replaced(Spelled(Sextets(Codes(binary))), Standard) + Padding(|binary|)
  }

  function WithoutPadding(s: string): string
    decreases |s|
  {
    if s != "" && s[|s| - 1] == '=' then WithoutPadding(s[..|s| - 1]) else s
  }

  /** The groups as the platform reads them, spare bits passed over. */
  function Lenient(v: seq<sextet>): Option<seq<byte>> {
    if v == [] then Some([])
    else if |v| == 1 then None
    else if |v| == 2 then Some([High(v[0], v[1])])
    else if |v| == 3 then Some([High(v[0], v[1]), Middle(v[1], v[2])])
    else match Lenient(v[4..])
         case None => None
         case Some(rest) => Some([High(v[0], v[1]), Middle(v[1], v[2]), Low(v[2], v[3])] + rest)
  }

  predicate IsSpace(c: char) { c == ' ' || c == '\t' || c == '\n' || c == '\r' || c == '\U{000c}' }

  function WithoutSpaces(s: string): string {
    if s == "" then "" else (if IsSpace(s[0]) then "" else [s[0]]) + WithoutSpaces(s[1..])
  }

  function WithoutTwo(s: string): string {
    if |s| >= 2 && s[|s| - 2..] == "==" then s[..|s| - 2]
    else if |s| >= 1 && s[|s| - 1] == '=' then s[..|s| - 1]
    else s
  }

  /** The platform's decoder of the standard alphabet: white space and padding are optional, spare bits ignored. */
  function Atob(s: string): (r: Option<string>)
    ensures r.Some? ==> IsBinary(r.value)
  {
    var t := WithoutSpaces(s);
    var u := if |t| % 4 == 0 then WithoutTwo(t) else t;
    var v := Replaced(u, UrlSafe);
    if '-' in u || '_' in u || !Letters(v) then None
    else match Lenient(Values(v))
         case None => None
         case Some(b) => Some(Characters(b))
  }

  lemma {:induction false} LenientReadsCanonical(v: seq<sextet>)
    requires Bytes(v).Some?
    ensures Lenient(v) == Bytes(v)
    decreases |v|
  {
    if |v| >= 4 { LenientReadsCanonical(v[4..]); }
  }

  lemma ReplacementsAreExact(s: string)
    requires Letters(s)
    ensures Replaced(Replaced(s, Standard), UrlSafe) == s
    ensures var t := Replaced(s, Standard);
            '-' !in t && '_' !in t && '=' !in t && forall i :: 0 <= i < |t| ==> !IsSpace(t[i])
  {
    var t := Replaced(s, Standard);
    forall i | 0 <= i < |s| ensures UrlSafe(t[i]) == s[i] && t[i] != '-' && t[i] != '_' && t[i] != '='
        && !IsSpace(t[i]) {
      assert IsLetter(s[i]);
    }
  }

  lemma PaddingGoes(s: string, n: nat)
    requires Letters(s)
    ensures WithoutPadding(s + Padding(n)) == s
  {
    hide WithoutPadding;
    LettersStay(s);
    OnePaddingGoes(s);
    OnePaddingGoes(s + "=");
    assert s + "" == s && s + "=" + "=" == s + "==";
  }

  lemma LettersStay(s: string)
    requires Letters(s)
    ensures WithoutPadding(s) == s
  {
    if s != "" { assert IsLetter(s[|s| - 1]); }
  }

  lemma OnePaddingGoes(s: string)
    ensures WithoutPadding(s + "=") == WithoutPadding(s)
  {
    var padded := s + "=";
    assert padded[|padded| - 1] == '=' && padded[..|padded| - 1] == s;
  }

  lemma {:induction false} NoSpacesToDrop(s: string)
    requires forall i :: 0 <= i < |s| ==> !IsSpace(s[i])
    ensures WithoutSpaces(s) == s
    decreases |s|
  {
    if s != "" {
      NoSpacesToDrop(s[1..]);
      assert s == [s[0]] + s[1..];
    }
  }

  lemma UrlSafeOfBtoa(binary: string)
    requires IsBinary(binary)
    ensures Replaced(Btoa(binary), UrlSafe) == Encode(Codes(binary)) + Padding(|binary|)
  {
    var spelled := Encode(Codes(binary));
    SpellingIsExact(Sextets(Codes(binary)), spelled);
    ReplacementsAreExact(spelled);
    var standard, padding := Replaced(spelled, Standard), Padding(|binary|);
    PaddingStays(|binary|);
    ReplacedTogether(standard, padding, UrlSafe);
  }

  lemma PaddingStays(n: nat)
    ensures Replaced(Padding(n), UrlSafe) == Padding(n)
  {
    assert Replaced("", UrlSafe) == "" && Replaced("=", UrlSafe) == "=" && Replaced("==", UrlSafe) == "==";
  }

  lemma ReplacedTogether(a: string, b: string, f: char -> char)
    ensures Replaced(a + b, f) == Replaced(a, f) + Replaced(b, f)
  {}

  /** Bytes to a string of characters, the platform's encoder, and its alphabet and padding replaced. */
  method EncodeBase64Url(bytes: seq<byte>) returns (s: string)
    ensures s == Encode(bytes)
  {
    var binary: string := "";
    var i := 0;
    while i < |bytes|
      invariant i <= |bytes| && binary == Characters(bytes[..i])
    {
      binary := binary + [bytes[i] as char];
      i := i + 1;
    }
    assert bytes[..|bytes|] == bytes;
    assert Codes(binary) == bytes;
    UrlSafeOfBtoa(binary);
    SpellingIsExact(Sextets(bytes), "");
    PaddingGoes(Encode(bytes), |bytes|);
    s := WithoutPadding(Replaced(Btoa(binary), UrlSafe));
  }

  lemma AtobReadsEncodings(b: seq<byte>)
    ensures Atob(Replaced(Encode(b), Standard)) == Some(Characters(b))
  {
    hide WithoutSpaces, WithoutTwo, Replaced, Bytes, Lenient, Sextets;
    var s := Encode(b);
    var t := Replaced(s, Standard);
    SpellingIsExact(Sextets(b), s);
    ReplacementsAreExact(s);
    NoSpacesToDrop(t);
    NoPaddingToDrop(t);
    DecodeUndoesEncode(b);
    LenientReadsCanonical(Sextets(b));
  }

  lemma NoPaddingToDrop(t: string)
    requires '=' !in t
    ensures WithoutTwo(t) == t
  {
    assert |t| >= 1 ==> t[|t| - 1] in t;
    assert |t| >= 2 ==> t[|t| - 2..][1] == t[|t| - 1];
  }

  /** The standard alphabet restored, the platform's decoder, and its characters written to an array. */
  method DecodeBase64Url(s: string) returns (r: Option<array<byte>>)
    ensures r.Some? <==> Atob(Replaced(s, Standard)).Some?
    ensures r.Some? ==> fresh(r.value) && r.value[..] == Codes(Atob(Replaced(s, Standard)).value)
    ensures forall b: seq<byte> :: s == Encode(b) ==> r.Some? && r.value[..] == b
  {
    hide Atob, Encode;
    var binary := Atob(Replaced(s, Standard));
    forall b: seq<byte> | s == Encode(b) ensures binary.Some? && Codes(binary.value) == b {
      AtobReadsEncodings(b);
    }
    if binary.None? { return None; }
    var bytes := new byte[|binary.value|];
    var i := 0;
    while i < |binary.value|
      invariant i <= |binary.value|
      invariant forall j :: 0 <= j < i ==> bytes[j] == binary.value[j] as nat
    {
      bytes[i] := binary.value[i] as nat;
      i := i + 1;
    }
    r := Some(bytes);
  }
}
