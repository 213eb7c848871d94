/** Bytes, ASCII text and unsigned decimal numerals.

    Rust's `String::len` counts UTF-8 bytes, so file contents and responses are
    byte sequences here. The status lines and header names are ASCII, so their
    bytes are their character codes. */
module Bytes {
  import opened Wrappers

  type byte = x: int | 0 <= x < 256

  const CR: byte := 13
  const LF: byte := 10
  const DigitZero: byte := 48

  /** Every character is a 7-bit ASCII character. */
  predicate IsAscii(s: string) {
    forall i :: 0 <= i < |s| ==> s[i] as int < 128
  }

  /** The UTF-8 encoding of an ASCII string: one byte per character. */
  function Ascii(s: string): (r: seq<byte>)
    requires IsAscii(s)
    ensures |r| == |s|
    ensures forall i :: 0 <= i < |s| ==> r[i] == s[i] as int
  {
    seq(|s|, i requires 0 <= i < |s| => s[i] as int)
  }

  /** Neither carriage return nor line feed occurs in `s`. */
  predicate NoLineBreak(s: seq<byte>) {
    forall i :: 0 <= i < |s| ==> s[i] != CR && s[i] != LF
  }

  predicate IsDigit(b: byte) {
    DigitZero <= b <= DigitZero + 9
  }

  predicate AllDigits(s: seq<byte>) {
    forall i :: 0 <= i < |s| ==> IsDigit(s[i])
  }

  function DigitByte(d: nat): (b: byte)
    requires d < 10
    ensures IsDigit(b) && b - DigitZero == d
  {
    DigitZero + d
  }

  /** How Rust's `{}` formats an unsigned integer: its decimal digits, most
      significant first, with no sign and no leading zero. */
  function Decimal(n: nat): (r: seq<byte>)
    ensures |r| > 0
    ensures AllDigits(r)
    ensures NoLineBreak(r)
    ensures r[0] == DigitZero ==> n == 0
    decreases n
  {
    if n < 10 then [DigitByte(n)] else Decimal(n / 10) + [DigitByte(n % 10)]
  }

  /** The number a non-empty digit string denotes. */
  function DigitsValue(s: seq<byte>): nat
    requires AllDigits(s)
  {
    if |s| == 0 then 0 else DigitsValue(s[..|s| - 1]) * 10 + (s[|s| - 1] - DigitZero)
  }

  /** A numeral as `{}` writes one: a non-empty run of digits whose first
      digit is `0` only when it is the whole numeral. */
  predicate Canonical(s: seq<byte>) {
    |s| > 0 && AllDigits(s) && (s[0] != DigitZero || |s| == 1)
  }

  /** Reads a header value as an unsigned decimal number. Only canonical
      numerals are accepted: an empty value, a non-digit or a leading zero
      is rejected. */
  function ParseDecimal(s: seq<byte>): (r: Option<nat>)
    ensures r.Some? <==> Canonical(s)
  {
    if Canonical(s) then Some(DigitsValue(s)) else None
  }

  lemma {:induction false} DigitsValueOfDecimal(n: nat)
    ensures DigitsValue(Decimal(n)) == n
    decreases n
  {
    if n >= 10 {
      var init := Decimal(n / 10);
      var r := init + [DigitByte(n % 10)];
      assert r[..|r| - 1] == init;
      DigitsValueOfDecimal(n / 10);
    }
  }

  /** Round trip: the formatted length reads back as exactly that length. */
  lemma DecimalRoundTrip(n: nat)
    ensures ParseDecimal(Decimal(n)) == Some(n)
  {
    DigitsValueOfDecimal(n);
  }

  /** A digit string without a leading zero denotes a positive number. */
  lemma {:induction false} LeadingDigitPositive(s: seq<byte>)
    requires |s| > 0 && AllDigits(s) && s[0] != DigitZero
    ensures DigitsValue(s) > 0
    decreases |s|
  {
    if |s| > 1 {
      var init := s[..|s| - 1];
      assert init[0] == s[0];
      LeadingDigitPositive(init);
    }
  }

  /** Canonical numerals are exactly the formatted ones: a canonical numeral
      is the formatting of the number it denotes. */
  lemma {:induction false} CanonicalIsDecimal(s: seq<byte>)
    requires Canonical(s)
    ensures Decimal(DigitsValue(s)) == s
    decreases |s|
  {
    var n := DigitsValue(s);
    if |s| == 1 {
      assert DigitsValue(s[..0]) == 0;
      assert n == s[0] - DigitZero;
    } else {
      var init := s[..|s| - 1];
      var d := s[|s| - 1] - DigitZero;
      assert init[0] == s[0];
      LeadingDigitPositive(init);
      CanonicalIsDecimal(init);
      assert n == DigitsValue(init) * 10 + d;
      assert n / 10 == DigitsValue(init) && n % 10 == d;
      assert s == init + [s[|s| - 1]];
    }
  }

  /** The converse round trip: whatever `ParseDecimal` accepts is exactly the
      formatting of the number it returns, so no other spelling of a length
      (a leading zero, say) is read back. */
  lemma ParseDecimalCanonical(s: seq<byte>, n: nat)
    requires ParseDecimal(s) == Some(n)
    ensures s == Decimal(n)
  {
    CanonicalIsDecimal(s);
  }

  /** Formatting is injective: different lengths never print alike. */
  lemma DecimalInjective(m: nat, n: nat)
    ensures Decimal(m) == Decimal(n) <==> m == n
  {
    if Decimal(m) == Decimal(n) {
      DecimalRoundTrip(m);
      DecimalRoundTrip(n);
    }
  }
}
