/**
  Python's base-10 text/integer conversions as the virtual module uses them:
  a write payload is turned into text with `chr(byte)` per byte and then into
  an integer with `int(text)`; a read turns an integer back into bytes with
  `str(value)`. Because `chr` maps byte b to code point b, the parser is
  stated directly over the payload bytes.
 */
module PyInt {
  import opened Ascii

  const UNDERSCORE: byte := 95  // '_'

  /**
    Bytes whose code point Python's `int()` strips as surrounding white
    space: ASCII tab to carriage return and space, which `int()` skips in
    any text, and NEXT LINE (0x85) and NO-BREAK SPACE (0xA0), which it first
    turns into spaces because they make the text non-ASCII. The ASCII
    separators 0x1C-0x1F count as white space for `str.isspace()` but not
    for `int()`, which rejects them.
   */
  predicate IsPySpace(b: byte) {
    (9 <= b <= 13) || b == 0x20 || b == 0x85 || b == 0xA0
  }

  function StripLeft(s: seq<byte>): (t: seq<byte>)
    ensures |t| <= |s|
    ensures t == [] || !IsPySpace(t[0])
  {
    if s != [] && IsPySpace(s[0]) then StripLeft(s[1..]) else s
  }

  function StripRight(s: seq<byte>): (t: seq<byte>)
    ensures |t| <= |s|
    ensures t == [] || !IsPySpace(t[|t| - 1])
  {
    if s != [] && IsPySpace(s[|s| - 1]) then StripRight(s[..|s| - 1]) else s
  }

  /** The digits of a literal that may group digits with single underscores. */
  predicate WellGrouped(s: seq<byte>) {
    && |s| >= 1
    && IsDigit(s[0])
    && IsDigit(s[|s| - 1])
    && (forall i :: 0 <= i < |s| ==> IsDigit(s[i]) || s[i] == UNDERSCORE)
    && (forall i :: 0 <= i < |s| - 1 && s[i] == UNDERSCORE ==> IsDigit(s[i + 1]))
  }

  /** The digits of `s` with the grouping underscores removed. */
  function DropUnderscores(s: seq<byte>): (d: seq<byte>)
    requires forall i :: 0 <= i < |s| ==> IsDigit(s[i]) || s[i] == UNDERSCORE
    ensures AllDigits(d) && |d| <= |s|
    ensures AllDigits(s) ==> d == s
  {
    if s == [] then []
    else if s[|s| - 1] == UNDERSCORE then DropUnderscores(s[..|s| - 1])
    else DropUnderscores(s[..|s| - 1]) + [s[|s| - 1]]
  }

  /** Magnitude of an unsigned, possibly underscore-grouped literal. */
  function Magnitude(s: seq<byte>): Option<nat> {
    if WellGrouped(s) then Some(ValueOf(DropUnderscores(s))) else None
  }

  /**
    `int(text)` in base 10: surrounding white space is ignored, one optional
    sign, then a non-empty run of digits that may be grouped by single
    underscores. Anything else raises `ValueError`, modelled as `None`.
   */
  function Parse(payload: seq<byte>): (r: Option<int>)
    ensures payload == [] ==> r == None
    ensures AllDigits(payload) && payload != [] ==> r == Some(ValueOf(payload))
  {
    var t := StripRight(StripLeft(payload));
    if |t| >= 1 && (t[0] == MINUS || t[0] == PLUS) then
      match Magnitude(t[1..])
      case None => None
      case Some(m) =>
        var v: int := if t[0] == MINUS then -(m as int) else m;
        Some(v)
    else
      match Magnitude(t)
      case None => None
      case Some(m) =>
        var v: int := m;
        Some(v)
  }

  /** `str(value)` encoded to bytes: an optional '-' followed by the decimal digits. */
  function Str(v: int): (r: seq<byte>)
    ensures v >= 0 ==> Canonical(r) && ValueOf(r) == v
    ensures v < 0 ==> |r| >= 2 && r[0] == MINUS && Canonical(r[1..]) && ValueOf(r[1..]) == -v
  {
    if v >= 0 then Decimal(v) else [MINUS] + Decimal(-v)
  }

  /** `int(str(v)) == v` for every integer: reading back what was stored gives the stored value. */
  lemma ParseStr(v: int)
    ensures Parse(Str(v)) == Some(v)
  {
    if v >= 0 {
      ParseStrNatural(v);
    } else {
      ParseStrNegative(v);
    }
  }

  lemma ParseStrNatural(v: nat)
    ensures Parse(Str(v)) == Some(v)
  {
    var s := Decimal(v);
    assert Str(v) == s;
    ParseDigits(s);
  }

  lemma ParseStrNegative(v: int)
    requires v < 0
    ensures Parse(Str(v)) == Some(v)
  {
    var digits := Decimal(-v);
    var s := [MINUS] + digits;
    assert s[1..] == digits;
    ParseNegative(s);
    assert Str(v) == s;
  }

  /** A digit string parses to its value. */
  lemma ParseDigits(s: seq<byte>)
    requires AllDigits(s) && |s| >= 1
    ensures Parse(s) == Some(ValueOf(s))
  {
    NoSpaceIsStripped(s);
    DigitsMagnitude(s);
  }

  /** '-' followed by a digit string parses to the negated value. */
  lemma ParseNegative(s: seq<byte>)
    requires |s| >= 2 && s[0] == MINUS && AllDigits(s[1..])
    ensures Parse(s) == Some(-(ValueOf(s[1..]) as int))
  {
    var digits := s[1..];
    assert forall i :: 0 <= i < |s| ==> !IsPySpace(s[i]) by {
      forall i | 0 <= i < |s|
        ensures !IsPySpace(s[i])
      {
        if i > 0 {
          assert s[i] == digits[i - 1];
        }
      }
    }
    NoSpaceIsStripped(s);
    var t := StripRight(StripLeft(s));
    assert t == s;
    DigitsMagnitude(digits);
    assert Magnitude(t[1..]) == Some(ValueOf(digits));
  }

  /** '+' followed by a digit string parses to the value itself. */
  lemma ParsePositive(digits: seq<byte>)
    requires |digits| >= 1 && AllDigits(digits)
    ensures Parse([PLUS] + digits) == Some(ValueOf(digits))
  {
    var s := [PLUS] + digits;
    assert forall i :: 0 <= i < |s| ==> !IsPySpace(s[i]) by {
      forall i | 0 <= i < |s|
        ensures !IsPySpace(s[i])
      {
        if i > 0 {
          assert s[i] == digits[i - 1];
        }
      }
    }
    NoSpaceIsStripped(s);
    assert s[1..] == digits;
    DigitsMagnitude(digits);
  }

  /** Leading white space never changes what `int()` makes of the text. */
  lemma ParseSkipsLeadingSpace(b: byte, payload: seq<byte>)
    requires IsPySpace(b)
    ensures Parse([b] + payload) == Parse(payload)
  {
    assert ([b] + payload)[1..] == payload;
  }

  /** A leading ASCII separator 0x1C-0x1F is not white space to `int()`: the payload is rejected. */
  lemma ParseRejectsSeparator(b: byte, payload: seq<byte>)
    requires 0x1C <= b <= 0x1F
    ensures Parse([b] + payload) == None
  {
    var s := [b] + payload;
    assert StripLeft(s) == s;
    StripRightKeepsFirst(s);
  }

  /** Stripping trailing white space never removes a first byte that is not white space. */
  lemma {:induction false} StripRightKeepsFirst(s: seq<byte>)
    requires |s| >= 1 && !IsPySpace(s[0])
    ensures |StripRight(s)| >= 1 && StripRight(s)[0] == s[0]
    decreases |s|
  {
    if IsPySpace(s[|s| - 1]) {
      StripRightKeepsFirst(s[..|s| - 1]);
    }
  }

  /**
    An underscore between two runs of digits only groups them: the text
    reads exactly as the digits without it.
   */
  lemma ParseGrouped(a: seq<byte>, b: seq<byte>)
    requires |a| >= 1 && AllDigits(a)
    requires |b| >= 1 && AllDigits(b)
    ensures Parse(a + [UNDERSCORE] + b) == Parse(a + b)
    ensures Parse(a + [UNDERSCORE] + b) == Some(ValueOf(a + b))
  {
    var s := a + [UNDERSCORE] + b;
    GroupedIsWellGrouped(a, b);
    GroupedDropsToDigits(a, b);
    NoSpaceIsStripped(s);
    assert Magnitude(s) == Some(ValueOf(a + b));
    assert s[0] == a[0];
    ParseDigits(a + b);
  }

  /** Digits, one underscore, digits: a well-grouped literal with no white space. */
  lemma GroupedIsWellGrouped(a: seq<byte>, b: seq<byte>)
    requires |a| >= 1 && AllDigits(a)
    requires |b| >= 1 && AllDigits(b)
    ensures WellGrouped(a + [UNDERSCORE] + b)
    ensures forall i :: 0 <= i < |a + [UNDERSCORE] + b| ==> !IsPySpace((a + [UNDERSCORE] + b)[i])
  {
    var s := a + [UNDERSCORE] + b;
    forall i | 0 <= i < |s|
      ensures (IsDigit(s[i]) || s[i] == UNDERSCORE) && !IsPySpace(s[i])
      ensures i < |s| - 1 && s[i] == UNDERSCORE ==> IsDigit(s[i + 1])
    {
      if i < |a| {
        assert s[i] == a[i];
      } else if i > |a| {
        assert s[i] == b[i - |a| - 1];
      } else {
        assert s[i + 1] == b[0];
      }
    }
    assert s[0] == a[0] && s[|s| - 1] == b[|b| - 1];
  }

  /** Dropping the one grouping underscore leaves the two digit runs side by side. */
  lemma GroupedDropsToDigits(a: seq<byte>, b: seq<byte>)
    requires AllDigits(a) && AllDigits(b)
    ensures forall i :: 0 <= i < |a + [UNDERSCORE] + b| ==>
      IsDigit((a + [UNDERSCORE] + b)[i]) || (a + [UNDERSCORE] + b)[i] == UNDERSCORE
    ensures DropUnderscores(a + [UNDERSCORE] + b) == a + b
  {
    var underscore: seq<byte> := [UNDERSCORE];
    assert DropUnderscores(underscore) == [] by {
      assert underscore[..0] == [];
    }
    DropUnderscoresAppend(a, underscore);
    DropUnderscoresAppend(a + underscore, b);
  }

  /** Dropping the underscores of a concatenation drops them from each part. */
  lemma {:induction false} DropUnderscoresAppend(x: seq<byte>, y: seq<byte>)
    requires forall i :: 0 <= i < |x| ==> IsDigit(x[i]) || x[i] == UNDERSCORE
    requires forall i :: 0 <= i < |y| ==> IsDigit(y[i]) || y[i] == UNDERSCORE
    ensures forall i :: 0 <= i < |x + y| ==> IsDigit((x + y)[i]) || (x + y)[i] == UNDERSCORE
    ensures DropUnderscores(x + y) == DropUnderscores(x) + DropUnderscores(y)
    decreases |y|
  {
    assert forall i :: 0 <= i < |x + y| ==> IsDigit((x + y)[i]) || (x + y)[i] == UNDERSCORE by {
      forall i | 0 <= i < |x + y|
        ensures IsDigit((x + y)[i]) || (x + y)[i] == UNDERSCORE
      {
        if i >= |x| {
          assert (x + y)[i] == y[i - |x|];
        }
      }
    }
    if y == [] {
      assert x + y == x;
    } else {
      var front := y[..|y| - 1];
      assert (x + y)[..|x + y| - 1] == x + front;
      assert (x + y)[|x + y| - 1] == y[|y| - 1];
      DropUnderscoresAppend(x, front);
    }
  }

  /**
    The text left after stripping white space has an underscore where
    grouping allows none: first, right after a leading sign, last, or next
    to another underscore.
   */
  predicate LooseUnderscore(t: seq<byte>) {
    && |t| >= 1
    && (|| t[0] == UNDERSCORE
        || (|t| >= 2 && (t[0] == MINUS || t[0] == PLUS) && t[1] == UNDERSCORE)
        || t[|t| - 1] == UNDERSCORE
        || exists i :: 0 <= i < |t| - 1 && t[i] == UNDERSCORE && t[i + 1] == UNDERSCORE)
  }

  /** Doubled, leading and trailing underscores are rejected, with or without a sign. */
  lemma ParseRejectsLooseUnderscores(payload: seq<byte>)
    requires LooseUnderscore(StripRight(StripLeft(payload)))
    ensures Parse(payload) == None
  {
    var t := StripRight(StripLeft(payload));
    if t[0] == MINUS || t[0] == PLUS {
      var u := t[1..];
      if |u| >= 1 {
        if t[1] == UNDERSCORE {
          assert u[0] == UNDERSCORE;
        } else if t[|t| - 1] == UNDERSCORE {
          assert u[|u| - 1] == UNDERSCORE;
        } else {
          var i :| 0 <= i < |t| - 1 && t[i] == UNDERSCORE && t[i + 1] == UNDERSCORE;
          assert u[i - 1] == UNDERSCORE && !IsDigit(u[i]);
        }
      }
      assert !WellGrouped(u);
    } else {
      if t[0] != UNDERSCORE && t[|t| - 1] != UNDERSCORE {
        var i :| 0 <= i < |t| - 1 && t[i] == UNDERSCORE && t[i + 1] == UNDERSCORE;
        assert !IsDigit(t[i + 1]);
      }
      assert !WellGrouped(t);
    }
  }

  /** A plain digit string is a well-grouped literal whose magnitude is its value. */
  lemma DigitsMagnitude(s: seq<byte>)
    requires AllDigits(s) && |s| >= 1
    ensures Magnitude(s) == Some(ValueOf(s))
  {
    assert WellGrouped(s);
    assert DropUnderscores(s) == s;
  }

  /** `Str` never produces the same bytes for two different integers. */
  lemma StrInjective(v: int, w: int)
    requires Str(v) == Str(w)
    ensures v == w
  {
    ParseStr(v);
    ParseStr(w);
  }

  /** Text without surrounding white space is left as it is by stripping. */
  lemma NoSpaceIsStripped(s: seq<byte>)
    requires forall i :: 0 <= i < |s| ==> !IsPySpace(s[i])
    ensures StripRight(StripLeft(s)) == s
  {
  }

  predicate NoDigit(s: seq<byte>) {
    forall i :: 0 <= i < |s| ==> !IsDigit(s[i])
  }

  lemma {:induction false} StripKeepsNoDigit(s: seq<byte>)
    requires NoDigit(s)
    ensures NoDigit(StripLeft(s)) && NoDigit(StripRight(s))
    decreases |s|
  {
    if s != [] {
      StripKeepsNoDigit(s[1..]);
      StripKeepsNoDigit(s[..|s| - 1]);
    }
  }

  /** `int()` rejects text that holds no digit at all, such as "" or "abc". */
  lemma ParseNeedsDigit(payload: seq<byte>)
    requires NoDigit(payload)
    ensures Parse(payload) == None
  {
    StripKeepsNoDigit(payload);
    var left := StripLeft(payload);
    StripKeepsNoDigit(left);
    var t := StripRight(left);
    if |t| >= 1 {
      assert !WellGrouped(t);
      if |t| >= 2 {
        assert t[1..][0] == t[1];
      }
      assert !WellGrouped(t[1..]);
    }
  }
}
