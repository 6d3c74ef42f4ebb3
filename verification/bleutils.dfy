/**
  The Arduino peripheral's ASCII-decimal codecs (arduino_peripheral/src/ble/BleUtils.cpp).
  Values travel over the air as the ASCII digits of their decimal form; the
  decoders copy the bytes into a NUL-terminated buffer and call C's `atoi`.
  `unsigned int` is 32 bits and `int` is 32-bit two's complement on the
  boards this firmware targets.
 */
module BleUtils {
  import opened Ascii

  const INT_MAX: int := 0x7FFF_FFFF
  const INT_MIN: int := -0x8000_0000

  const ONE: byte := 49    // '1'
  const NUL: byte := 0     // the terminator the decoders append

  // ---------------------------------------------------------------- atoi

  /** C's `isspace` in the "C" locale: space, and tab through carriage return. */
  predicate IsCSpace(b: byte) {
    b == 32 || 9 <= b <= 13
  }

  function SkipSpace(s: seq<byte>): (t: seq<byte>)
    ensures |t| <= |s|
    ensures t == [] || !IsCSpace(t[0])
  {
    if s != [] && IsCSpace(s[0]) then SkipSpace(s[1..]) else s
  }

  /** The longest prefix of `s` made of digits. */
  function DigitRun(s: seq<byte>): (d: seq<byte>)
    ensures AllDigits(d) && |d| <= |s|
    ensures |d| < |s| ==> !IsDigit(s[|d|])
  {
    if s != [] && IsDigit(s[0]) then [s[0]] + DigitRun(s[1..]) else []
  }

  /**
    The mathematical value `atoi` reads: leading white space, an optional
    sign, then as many digits as follow (none gives 0). The terminating NUL
    the decoders append is neither space, sign nor digit, so it ends the scan
    like any other byte would.
   */
  function AtoiValue(s: seq<byte>): int {
    var t := SkipSpace(s);
    if |t| >= 1 && t[0] == MINUS then -(ValueOf(DigitRun(t[1..])) as int)
    else if |t| >= 1 && t[0] == PLUS then ValueOf(DigitRun(t[1..]))
    else ValueOf(DigitRun(t))
  }

  /**
    `atoi` proper: a value that does not fit in an `int` is undefined
    behaviour in C, modelled as `None`.
   */
  function Atoi(s: seq<byte>): (r: Option<int>) {
    var v := AtoiValue(s);
    if INT_MIN <= v <= INT_MAX then Some(v) else None
  }

  /** White space before the number is skipped. */
  lemma AtoiSkipsSpace(b: byte, s: seq<byte>)
    requires IsCSpace(b)
    ensures AtoiValue([b] + s) == AtoiValue(s)
  {
    assert ([b] + s)[1..] == s;
  }

  /**
    Unsigned text: a run of digits is read as its value, and the scan stops
    at the first byte that is not a digit, whatever follows it.
   */
  lemma AtoiReadsDigits(d: seq<byte>, rest: seq<byte>)
    requires |d| >= 1 && AllDigits(d)
    requires rest == [] || !IsDigit(rest[0])
    ensures AtoiValue(d + rest) == ValueOf(d)
  {
    var s := d + rest;
    assert s[0] == d[0];
    assert SkipSpace(s) == s;
    DigitRunStops(d, rest);
  }

  /**
    Signed text: one '-' or '+' and then the digits that follow it (none
    reads as 0); the scan again stops at the first non-digit.
   */
  lemma AtoiReadsSigned(sign: byte, d: seq<byte>, rest: seq<byte>)
    requires sign == MINUS || sign == PLUS
    requires AllDigits(d)
    requires rest == [] || !IsDigit(rest[0])
    ensures AtoiValue([sign] + d + rest) == if sign == MINUS then -(ValueOf(d) as int) else ValueOf(d)
  {
    var s := [sign] + d + rest;
    assert SkipSpace(s) == s;
    assert s[1..] == d + rest;
    DigitRunStops(d, rest);
  }

  /**
    The terminating NUL the decoders append never changes what `atoi`
    reads, so decoding the bytes and decoding the NUL-terminated buffer agree.
   */
  lemma AtoiIgnoresTerminator(s: seq<byte>)
    ensures AtoiValue(s + [NUL]) == AtoiValue(s)
  {
    SkipSpaceOfTerminated(s);
    var t := SkipSpace(s);
    if |t| >= 1 {
      assert (t + [NUL])[0] == t[0];
      assert (t + [NUL])[1..] == t[1..] + [NUL];
      DigitRunOfTerminated(t[1..]);
    }
    DigitRunOfTerminated(t);
  }

  /** A plain digit string, with or without its terminator, is read by `atoi` as its own value. */
  lemma AtoiOfDigits(s: seq<byte>)
    requires AllDigits(s)
    ensures AtoiValue(s) == ValueOf(s)
    ensures AtoiValue(s + [NUL]) == ValueOf(s)
  {
    if s != [] {
      assert s + [] == s;
      AtoiReadsDigits(s, []);
      AtoiReadsDigits(s, [NUL]);
    } else {
      assert [] + [NUL] == [NUL];
    }
  }

  lemma {:induction false} DigitRunStops(d: seq<byte>, rest: seq<byte>)
    requires AllDigits(d)
    requires rest == [] || !IsDigit(rest[0])
    ensures DigitRun(d + rest) == d
    decreases |d|
  {
    if d == [] {
      assert d + rest == rest;
    } else {
      assert (d + rest)[0] == d[0];
      assert (d + rest)[1..] == d[1..] + rest;
      DigitRunStops(d[1..], rest);
      assert d == [d[0]] + d[1..];
    }
  }

  lemma {:induction false} SkipSpaceOfTerminated(s: seq<byte>)
    ensures SkipSpace(s + [NUL]) == SkipSpace(s) + [NUL]
    decreases |s|
  {
    if s == [] {
      assert s + [NUL] == [NUL];
    } else {
      assert (s + [NUL])[0] == s[0];
      if IsCSpace(s[0]) {
        assert (s + [NUL])[1..] == s[1..] + [NUL];
        SkipSpaceOfTerminated(s[1..]);
      }
    }
  }

  lemma {:induction false} DigitRunOfTerminated(t: seq<byte>)
    ensures DigitRun(t + [NUL]) == DigitRun(t)
    decreases |t|
  {
    if t == [] {
      assert t + [NUL] == [NUL];
    } else {
      assert (t + [NUL])[0] == t[0];
      if IsDigit(t[0]) {
        assert (t + [NUL])[1..] == t[1..] + [NUL];
        DigitRunOfTerminated(t[1..]);
      }
    }
  }

  // ---------------------------------------------------------------- unsigned int

  /** `uintToUtf8`: the decimal digits of `value`; the out-length is `|r|`. */
  function UintToUtf8(value: uint32): (r: seq<byte>)
    ensures Canonical(r) && ValueOf(r) == value
    ensures 1 <= |r| <= 10
  {
    DecimalLength(value, 10);
    Decimal(value)
  }

  /**
    Encoded length: `|UintToUtf8(v)| <= k` exactly when `v < 10^k`. In
    particular values below 100000 fit the five-byte buffer the therapy
    service hands to the encoder for the elapsed time.
   */
  lemma UintToUtf8Length(value: uint32, k: nat)
    requires k >= 1
    ensures |UintToUtf8(value)| <= k <==> value < Pow10(k)
  {
    DecimalLength(value, k);
  }

  /**
    `utf8ToUint`: `atoi` of the NUL-terminated copy of the bytes, converted
    to `unsigned int` (a negative `int` wraps modulo 2^32). `None` is the
    undefined behaviour of `atoi`.
   */
  function Utf8ToUint(bytes: seq<byte>): (r: Option<uint32>)
    ensures r.Some? <==> Atoi(bytes + [NUL]).Some?
    ensures r.Some? ==> r.value % UINT_LIMIT == Atoi(bytes + [NUL]).value % UINT_LIMIT
  {
    match Atoi(bytes + [NUL])
    case None => None
    case Some(v) => Some(if v >= 0 then v else v + UINT_LIMIT)
  }

  /**
    Round trip: decoding the encoding gives the value back exactly when the
    value fits in `int`; above `INT_MAX` the decoder's `atoi` is undefined.
   */
  lemma UintRoundTrip(value: uint32)
    ensures Utf8ToUint(UintToUtf8(value)) == Some(value) <==> value <= INT_MAX
    ensures value > INT_MAX ==> Utf8ToUint(UintToUtf8(value)) == None
  {
    Utf8ToUintOfDigits(UintToUtf8(value));
  }

  /** A digit string decodes to its value when that fits in `int`, and is undefined otherwise. */
  lemma Utf8ToUintOfDigits(s: seq<byte>)
    requires AllDigits(s)
    ensures ValueOf(s) <= INT_MAX ==> Utf8ToUint(s) == Some(ValueOf(s))
    ensures ValueOf(s) > INT_MAX ==> Utf8ToUint(s) == None
  {
    AtoiOfDigits(s);
    var v := ValueOf(s);
    if v <= INT_MAX {
      assert Atoi(s + [NUL]) == Some(v as int);
    } else {
      assert Atoi(s + [NUL]) == None;
    }
  }

  /** `"-1"` decodes to the largest `unsigned int`, not to an error. */
  lemma Utf8ToUintNegativeWraps()
    ensures Utf8ToUint([MINUS, ONE]) == Some(UINT_LIMIT - 1)
  {
    var s: seq<byte> := [MINUS, ONE];
    AtoiOfMinusOne();
    assert Atoi(s + [NUL]) == Some(-1);
    assert (-1) % UINT_LIMIT == UINT_LIMIT - 1;
  }

  lemma AtoiOfMinusOne()
    ensures AtoiValue([MINUS, ONE] + [NUL]) == -1
  {
    var one: seq<byte> := [ONE];
    AtoiReadsSigned(MINUS, one, [NUL]);
    assert [MINUS] + one + [NUL] == [MINUS, ONE] + [NUL];
    assert ValueOf(one) == 1 by { assert one[..0] == []; }
  }

  // ---------------------------------------------------------------- byte

  /** `byteToUtf8`: one to three decimal digits. */
  function ByteToUtf8(value: byte): (r: seq<byte>)
    ensures Canonical(r) && ValueOf(r) == value
    ensures 1 <= |r| <= 3
  {
    DecimalLength(value, 3);
    Decimal(value)
  }

  /**
    `utf8ToByte`: `atoi` of the NUL-terminated copy of the bytes, masked with
    0xFF. For a negative `int` the two's complement mask is the same as the
    non-negative remainder.
   */
  function Utf8ToByte(bytes: seq<byte>): (r: Option<byte>)
    ensures r.Some? <==> Atoi(bytes + [NUL]).Some?
    ensures r.Some? ==> (r.value - Atoi(bytes + [NUL]).value) % 256 == 0
  {
    match Atoi(bytes + [NUL])
    case None => None
    case Some(v) => Some(v % 256)
  }

  /** Every byte round-trips through its decimal encoding. */
  lemma ByteRoundTrip(value: byte)
    ensures Utf8ToByte(ByteToUtf8(value)) == Some(value)
  {
    Utf8ToByteOfDigits(ByteToUtf8(value));
  }

  /** Out-of-range decimal text is not rejected but reduced modulo 256: "300" gives 44. */
  lemma Utf8ToByteMasks()
    ensures Utf8ToByte([51, 48, 48]) == Some(44)
  {
    var s: seq<byte> := [51, 48, 48];
    assert AllDigits(s);
    assert ValueOf(s) == 300 by {
      assert s[..2] == [51, 48] && s[..2][..1] == [51] && [51][..0] == [];
    }
    AtoiOfDigits(s);
    assert Atoi(s + [NUL]) == Some(300);
  }

  /** A digit string of value `v` within `int` range decodes to `v mod 256`. */
  lemma Utf8ToByteOfDigits(s: seq<byte>)
    requires AllDigits(s) && ValueOf(s) <= INT_MAX
    ensures Utf8ToByte(s) == Some(ValueOf(s) % 256)
  {
    AtoiOfDigits(s);
    assert Atoi(s + [NUL]) == Some(ValueOf(s));
  }

  // ---------------------------------------------------------------- bool

  /** `boolToUtf8`: exactly one byte, '1' for true and '0' for false. */
  function BoolToUtf8(value: bool): (r: seq<byte>)
    ensures |r| == 1
    ensures value <==> r[0] == ONE
    ensures !value <==> r[0] == ZERO
  {
    if value then [ONE] else [ZERO]
  }

  /**
    `utf8ToBool`: true exactly when the first byte is '1'; the rest and the
    given length are ignored. The source reads the first byte
    unconditionally, so at least one byte must be supplied.
   */
  function Utf8ToBool(bytes: seq<byte>): (r: bool)
    requires |bytes| >= 1
    ensures r <==> bytes[..1] == BoolToUtf8(true)
  {
    bytes[0] == ONE
  }

  /** Bytes after the first never change the decoded flag. */
  lemma Utf8ToBoolIgnoresRest(bytes: seq<byte>, rest: seq<byte>)
    requires |bytes| >= 1
    ensures Utf8ToBool(bytes + rest) == Utf8ToBool(bytes)
  {
  }

  lemma BoolRoundTrip(value: bool)
    ensures Utf8ToBool(BoolToUtf8(value)) == value
  {
  }
}
