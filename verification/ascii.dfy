/**
  Bytes, 32-bit unsigned words, optional values and unsigned decimal digit
  strings shared by the Arduino codecs, the Arduino timers and the Python
  module's `str()`/`int()` conversions.
  A decimal string here is a sequence of ASCII digit bytes, most significant
  digit first, exactly as `String(value)` and `str(value)` produce it.
 */
module Ascii {

  /** An 8-bit unsigned value (`byte` on the Arduino, `dbus.Byte` in Python). */
  type byte = b: int | 0 <= b < 256

  /** `unsigned int` and `unsigned long` on the 32-bit boards the firmware targets. */
  type uint32 = n: int | 0 <= n < 0x1_0000_0000

  const UINT_LIMIT: int := 0x1_0000_0000

  datatype Option<+T> = None | Some(value: T)

  const ZERO: byte := 48   // '0'
  const NINE: byte := 57   // '9'
  const MINUS: byte := 45  // '-'
  const PLUS: byte := 43   // '+'

  predicate IsDigit(b: byte) {
    ZERO <= b <= NINE
  }

  predicate AllDigits(s: seq<byte>) {
    forall i :: 0 <= i < |s| ==> IsDigit(s[i])
  }

  /** The ASCII digit byte for a decimal digit. */
  function DigitByte(d: nat): (b: byte)
    requires d < 10
    ensures IsDigit(b) && b - ZERO == d
  {
    ZERO + d
  }

  /** Numeric value of a digit string (the empty string has value 0). */
  function ValueOf(s: seq<byte>): nat
    requires AllDigits(s)
  {
    if s == [] then 0 else ValueOf(s[..|s| - 1]) * 10 + (s[|s| - 1] - ZERO)
  }

  /** 10^k. */
  function Pow10(k: nat): (p: nat)
    ensures p >= 1
  {
    if k == 0 then 1 else 10 * Pow10(k - 1)
  }

  /** Canonical digit string: at least one digit, no leading zero unless it is "0". */
  predicate Canonical(s: seq<byte>) {
    && |s| >= 1
    && AllDigits(s)
    && (s[0] == ZERO ==> |s| == 1)
  }

  /** Decimal representation of `n`, with no sign and no padding. */
  function Decimal(n: nat): (r: seq<byte>)
    ensures Canonical(r)
    ensures ValueOf(r) == n
    decreases n
  {
    if n < 10 then [DigitByte(n)]
    else
      var front := Decimal(n / 10);
      var r := front + [DigitByte(n % 10)];
      assert r[..|r| - 1] == front;
      r
  }

  /** The digit string's value is below 10^length. */
  lemma {:induction false} ValueOfBound(s: seq<byte>)
    requires AllDigits(s)
    ensures ValueOf(s) < Pow10(|s|)
    decreases |s|
  {
    if s != [] {
      ValueOfBound(s[..|s| - 1]);
    }
  }

  /** A digit string that does not start with '0' has value at least 10^(length-1). */
  lemma {:induction false} ValueOfLowerBound(s: seq<byte>)
    requires AllDigits(s) && |s| >= 1 && s[0] != ZERO
    ensures Pow10(|s| - 1) <= ValueOf(s)
    decreases |s|
  {
    if |s| > 1 {
      var front := s[..|s| - 1];
      assert front[0] == s[0];
      ValueOfLowerBound(front);
    }
  }

  /**
    The other direction of the round trip: every canonical digit string is
    the decimal representation of its value, so `Decimal` and `ValueOf` are
    inverse bijections between naturals and canonical strings.
   */
  lemma {:induction false} DecimalOfValue(s: seq<byte>)
    requires Canonical(s)
    ensures Decimal(ValueOf(s)) == s
    decreases |s|
  {
    if |s| == 1 {
      assert ValueOf(s) == s[0] - ZERO by {
        assert s[..0] == [];
      }
    } else {
      var front := s[..|s| - 1];
      var last := s[|s| - 1];
      assert front[0] == s[0];
      assert s[0] != ZERO;
      ValueOfLowerBound(front);
      var v := ValueOf(s);
      assert v == ValueOf(front) * 10 + (last - ZERO);
      assert v >= 10;
      assert v / 10 == ValueOf(front) && v % 10 == last - ZERO;
      DecimalOfValue(front);
      assert s == front + [last];
    }
  }

  /** The decimal string has at most `k` digits exactly when `n < 10^k`. */
  lemma DecimalLength(n: nat, k: nat)
    requires k >= 1
    ensures |Decimal(n)| <= k <==> n < Pow10(k)
  {
    var r := Decimal(n);
    ValueOfBound(r);
    if |r| > 1 {
      ValueOfLowerBound(r);
    }
    if |r| <= k {
      Pow10Monotone(|r|, k);
    } else {
      Pow10Monotone(k, |r| - 1);
    }
  }

  lemma {:induction false} Pow10Monotone(i: nat, j: nat)
    requires i <= j
    ensures Pow10(i) <= Pow10(j)
    decreases j
  {
    if i < j {
      Pow10Monotone(i, j - 1);
    }
  }
}
