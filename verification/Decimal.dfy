/** Decimal text of machine integers: what `fmt` prints with `%d` and what
    `strconv.ParseInt(s, 10, 64)` and `strconv.Atoi` accept. */
module Decimal {
  import opened Bytes

  const ZERO: byte := 0x30
  const PLUS: byte := 0x2b
  const MINUS: byte := 0x2d

  predicate IsDigit(b: byte) {
    ZERO <= b <= ZERO + 9
  }

  function Digits(n: nat): (d: bytes)
    ensures d != [] && forall b :: b in d ==> IsDigit(b)
  {
    if n < 10 then [ZERO + n] else Digits(n / 10) + [ZERO + n % 10]
  }

  function Itoa(v: int): (d: bytes)
    ensures d != [] && forall b :: b in d ==> IsDigit(b) || b == MINUS
  {
    if v < 0 then [MINUS] + Digits(-v) else Digits(v)
  }

  /** The value of a nonempty digit string; anything else is a syntax error. */
  function DigitsValue(d: bytes): Option<nat> {
    if d == [] || !IsDigit(d[|d| - 1]) then None
    else
      var low := d[|d| - 1] - ZERO;
      if |d| == 1 then Some(low)
      else match DigitsValue(d[..|d| - 1])
        case None => None
        case Some(high) => Some(10 * high + low)
  }

  /** One optional sign, digits, and the 64-bit range. */
  function ParseInt(s: bytes): Option<int64> {
    var signed := s != [] && (s[0] == PLUS || s[0] == MINUS);
    match DigitsValue(if signed then s[1..] else s)
    case None => None
    case Some(n) =>
      var v := if signed && s[0] == MINUS then 0 - n else n;
      if -TWO_63 <= v < TWO_63 then Some(v) else None
  }

  lemma {:induction false} DigitsRoundTrip(n: nat)
    ensures DigitsValue(Digits(n)) == Some(n)
  {
    if n >= 10 {
      DigitsRoundTrip(n / 10);
      assert Digits(n)[..|Digits(n)| - 1] == Digits(n / 10);
    }
  }

  /** Every 64-bit integer, negative ones included, reads back from its own text. */
  lemma ItoaRoundTrip(v: int64)
    ensures ParseInt(Itoa(v)) == Some(v)
  {
    hide DigitsValue;
    hide ParseInt;
    if v < 0 {
      DigitsRoundTrip(0 - v);
      assert Itoa(v)[1..] == Digits(0 - v);
      ParseSigned(Itoa(v), 0 - v);
    } else {
      DigitsRoundTrip(v);
      assert Digits(v)[0] in Digits(v);
      ParsePlain(Digits(v), v);
    }
  }

  lemma ParseSigned(s: bytes, n: nat)
    requires s != [] && s[0] == MINUS && DigitsValue(s[1..]) == Some(n) && -TWO_63 <= 0 - n < TWO_63
    ensures ParseInt(s) == Some(0 - n)
  {
    hide DigitsValue;
  }

  lemma ParsePlain(s: bytes, n: nat)
    requires s != [] && s[0] != MINUS && s[0] != PLUS && DigitsValue(s) == Some(n) && n < TWO_63
    ensures ParseInt(s) == Some(n)
  {
    hide DigitsValue;
  }

  /** Digit by digit: what a digit string stands for, and that nothing else is one. */
  lemma DigitsValueIs(d: bytes, b: byte)
    ensures DigitsValue([]) == None
    ensures DigitsValue([b]) == if 0x30 <= b <= 0x39 then Some(b - 0x30) else None
    ensures d != [] ==>
      DigitsValue(d + [b]) ==
        if DigitsValue(d).Some? && 0x30 <= b <= 0x39 then Some(10 * DigitsValue(d).value + (b - 0x30)) else None
  {
    assert (d + [b])[..|d|] == d;
  }

  /** The sign, and the range: out of it, or without digits, there is no number. */
  lemma ParseIntIs(s: bytes)
    ensures ParseInt(s) ==
      match DigitsValue(if s != [] && (s[0] == 0x2b || s[0] == 0x2d) then s[1..] else s)
      case None => None
      case Some(n) =>
        if s[0] == 0x2d then (if n <= 0x8000_0000_0000_0000 then Some(0 - n) else None)
        else if n <= 0x7FFF_FFFF_FFFF_FFFF then Some(n) else None
  {
    hide DigitsValue;
    DigitsValueIs([], 0);
  }

  lemma ItoaExample()
    ensures Itoa(-120) == [0x2d, 0x31, 0x32, 0x30]
  {
    assert Digits(12) == [0x31, 0x32];
  }
}
