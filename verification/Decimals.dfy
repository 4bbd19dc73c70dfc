/**
 The decimal renderings the program relies on: zero-padded keys whose byte order has to be numeric
 order, and the unpadded continuation token of the mailbox.
 */
module Decimals {
  import opened Wrappers

  /** The longest continuation token the relay accepts. */
  const MAX_CURSOR_DIGITS: nat := 15

  function Pow10(width: nat): (r: nat)
    ensures r > 0
  {
    if width == 0 then 1 else 10 * Pow10(width - 1)
  }

  function DigitChar(d: nat): char
    requires d < 10
  {
    '0' + d as char
  }

  predicate IsDigit(c: char) { '0' <= c <= '9' }

  predicate AllDigits(s: string) { forall i :: 0 <= i < |s| ==> IsDigit(s[i]) }

  /** Plain decimal rendering, without leading zeros. */
  function Digits(n: nat): (s: string)
    ensures |s| > 0 && AllDigits(s)
  {
    if n < 10 then [DigitChar(n)] else Digits(n / 10) + [DigitChar(n % 10)]
  }

  function Zeros(count: nat): (s: string)
    ensures |s| == count && AllDigits(s)
  {
    seq(count, _ => '0')
  }

  /** `%0*d`: the plain rendering, filled up with zeros on the left to at least `width`. */
  function ZeroPadded(n: nat, width: nat): string {
    var plain := Digits(n);
    if |plain| < width then Zeros(width - |plain|) + plain else plain
  }

  /** The number a string of digits denotes, read from its last digit. */
  function Value(s: string): nat
    requires AllDigits(s)
  {
    if s == [] then 0 else 10 * Value(s[..|s| - 1]) + (s[|s| - 1] - '0') as nat
  }

  /** Byte order of keys. */
  predicate ByteLess(a: string, b: string) {
    if |b| == 0 then false
    else if |a| == 0 then true
    else a[0] < b[0] || (a[0] == b[0] && ByteLess(a[1..], b[1..]))
  }

  lemma {:induction false} ValueOfDigits(n: nat)
    ensures Value(Digits(n)) == n
  {
    if n >= 10 {
      ValueOfDigits(n / 10);
      var s := Digits(n);
      assert s[..|s| - 1] == Digits(n / 10);
    }
  }

  /** A rendering fits a positive width exactly when the number is below that power of ten. */
  lemma {:induction false} DigitsFit(n: nat, width: nat)
    requires width > 0
    ensures |Digits(n)| <= width <==> n < Pow10(width)
    decreases n
  {
    if n < 10 {
      assert Pow10(width) == 10 * Pow10(width - 1);
    } else if width == 1 {
      assert Pow10(1) == 10 * Pow10(0);
    } else {
      DigitsFit(n / 10, width - 1);
    }
  }

  lemma {:induction false} ValueOfZeros(count: nat, s: string)
    requires AllDigits(s)
    ensures AllDigits(Zeros(count) + s) && Value(Zeros(count) + s) == Value(s)
    decreases |s|, count
  {
    var whole := Zeros(count) + s;
    if s != [] {
      ValueOfZeros(count, s[..|s| - 1]);
      assert whole[..|whole| - 1] == Zeros(count) + s[..|s| - 1];
    } else if count > 0 {
      ValueOfZeros(count - 1, s);
      assert whole[..|whole| - 1] == Zeros(count - 1) + s;
    }
  }

  /** A padded rendering keeps its number and, below the power of ten, has exactly the given width. */
  lemma PaddedShape(n: nat, width: nat)
    requires width > 0 && n < Pow10(width)
    ensures |ZeroPadded(n, width)| == width
    ensures AllDigits(ZeroPadded(n, width)) && Value(ZeroPadded(n, width)) == n
  {
    hide Digits, Value, Pow10;
    DigitsFit(n, width);
    ValueOfDigits(n);
    ValueOfZeros(width - |Digits(n)|, Digits(n));
    if |Digits(n)| == width {
      assert ZeroPadded(n, width) == Digits(n);
    }
  }

  /** Byte order looks at a last byte only when everything before it is equal. */
  lemma {:induction false} ByteOrderOfLast(a: string, x: char, b: string, y: char)
    requires |a| == |b|
    ensures ByteLess(a + [x], b + [y]) <==> ByteLess(a, b) || (a == b && x < y)
  {
    if a != [] {
      ByteOrderOfLast(a[1..], x, b[1..], y);
      assert (a + [x])[1..] == a[1..] + [x] && (b + [y])[1..] == b[1..] + [y];
      assert a == b <==> a[0] == b[0] && a[1..] == b[1..] by {
        if a[0] == b[0] && a[1..] == b[1..] {
          assert a == [a[0]] + a[1..] && b == [b[0]] + b[1..];
        }
      }
    }
  }

  /** On digit strings of one length, byte order is numeric order and equal numbers are equal strings. */
  lemma {:induction false} ByteOrderIsNumeric(a: string, b: string)
    requires |a| == |b| && AllDigits(a) && AllDigits(b)
    ensures ByteLess(a, b) <==> Value(a) < Value(b)
    ensures a == b <==> Value(a) == Value(b)
  {
    if a != [] {
      var last := |a| - 1;
      ByteOrderIsNumeric(a[..last], b[..last]);
      ByteOrderOfLast(a[..last], a[last], b[..last], b[last]);
      assert a == a[..last] + [a[last]] && b == b[..last] + [b[last]];
      assert IsDigit(a[last]) && IsDigit(b[last]);
      assert (a[last] - '0') as nat < 10 && (b[last] - '0') as nat < 10;
    }
  }

  /**
   The fact every padded key depends on: 20-digit mailbox positions, 16-digit creation times and
   16-digit history sequence numbers sort by byte order exactly as the numbers do.
   */
  lemma PaddedKeysSortNumerically(n: nat, m: nat, width: nat)
    requires width > 0 && n < Pow10(width) && m < Pow10(width)
    ensures ByteLess(ZeroPadded(n, width), ZeroPadded(m, width)) <==> n < m
    ensures ZeroPadded(n, width) == ZeroPadded(m, width) <==> n == m
  {
    PaddedShape(n, width);
    PaddedShape(m, width);
    ByteOrderIsNumeric(ZeroPadded(n, width), ZeroPadded(m, width));
  }

  /** Every 64-bit position fits the 20 digits of an index key; safe integers fit 16 digits. */
  lemma WidthsSuffice(n: nat)
    ensures n < 0x1_0000_0000_0000_0000 ==> n < Pow10(20)
    ensures n < 0x20_0000_0000_0000 ==> n < Pow10(16)
  {
    assert Pow10(4) == 10000;
    assert Pow10(8) == 10000 * Pow10(4) by { Pow10Sum(4, 4); }
    assert Pow10(16) == Pow10(8) * Pow10(8) by { Pow10Sum(8, 8); }
    assert Pow10(20) == Pow10(16) * Pow10(4) by { Pow10Sum(16, 4); }
  }

  lemma {:induction false} Pow10Sum(a: nat, b: nat)
    ensures Pow10(a + b) == Pow10(a) * Pow10(b)
  {
    if a > 0 { Pow10Sum(a - 1, b); }
  }

  datatype CursorError = InvalidMailboxCursor

  /** Reads a continuation token; the empty token is the head of the mailbox. */
  function DecodeMailboxCursor(cursor: string): Result<nat, CursorError> {
    if cursor == "" then Ok(0)
    else if |cursor| > MAX_CURSOR_DIGITS then Err(InvalidMailboxCursor)
    else if !AllDigits(cursor) then Err(InvalidMailboxCursor)
    else Ok(Value(cursor))
  }

  function EncodeMailboxCursor(position: nat): string { Digits(position) }

  /** The relay reads its own token back as the position it issued exactly below 10^15; above, it refuses it. */
  lemma CursorRoundTrip(position: nat)
    ensures position < Pow10(MAX_CURSOR_DIGITS) <==> DecodeMailboxCursor(EncodeMailboxCursor(position)) == Ok(position)
    ensures position >= Pow10(MAX_CURSOR_DIGITS) <==> DecodeMailboxCursor(EncodeMailboxCursor(position)).Err?
  {
    DigitsFit(position, MAX_CURSOR_DIGITS);
    ValueOfDigits(position);
  }

  /** What the relay reads: nothing, the head of the mailbox, or up to fifteen digits, the number they denote. */
  lemma AcceptedCursorsAre(cursor: string)
    ensures DecodeMailboxCursor(cursor).Ok?
            <==> |cursor| <= 15 && forall i :: 0 <= i < |cursor| ==> '0' <= cursor[i] <= '9'
    ensures DecodeMailboxCursor("") == Ok(0)
    ensures cursor != "" && DecodeMailboxCursor(cursor).Ok? ==> DecodeMailboxCursor(cursor) == Ok(Value(cursor))
  {}

  /** A token that is accepted stands for a position below 10^15, whatever it looks like. */
  lemma {:induction false} AcceptedCursorIsBounded(cursor: string)
    ensures DecodeMailboxCursor(cursor).Ok? ==> DecodeMailboxCursor(cursor).value < Pow10(MAX_CURSOR_DIGITS)
  {
    if DecodeMailboxCursor(cursor).Ok? && cursor != "" {
      ValueBelow(cursor);
      Pow10Monotone(|cursor|, MAX_CURSOR_DIGITS);
    }
  }

  lemma {:induction false} ValueBelow(s: string)
    requires AllDigits(s)
    ensures Value(s) < Pow10(|s|)
  {
    if s != [] {
      ValueBelow(s[..|s| - 1]);
      assert IsDigit(s[|s| - 1]);
    }
  }

  lemma {:induction false} Pow10Monotone(a: nat, b: nat)
    requires a <= b
    ensures Pow10(a) <= Pow10(b)
    decreases b
  {
    if a < b { Pow10Monotone(a, b - 1); }
  }
}
