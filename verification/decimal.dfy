/** Decimal text of integers: Java's `String.valueOf(int)` (used when a
    counter is concatenated into a file name) and `Integer.parseInt`. */
module Decimal {
  import opened Wrappers
  import opened Strings

  const INT_MIN: int := -0x8000_0000
  const INT_MAX: int := 0x7FFF_FFFF

  function DigitChar(d: nat): (c: char)
    requires d < 10
    ensures IsAsciiDigit(c) && c as int - '0' as int == d
  {
    ('0' as int + d) as char
  }

  predicate AllDigits(s: string) {
    forall i :: 0 <= i < |s| ==> IsAsciiDigit(s[i])
  }

  /** The number a string of decimal digits denotes (leading zeros allowed). */
  function DigitsValue(s: string): nat
    requires AllDigits(s)
  {
    if |s| == 0 then 0
    else DigitsValue(s[..|s| - 1]) * 10 + (s[|s| - 1] as int - '0' as int)
  }

  /** Shortest decimal text of a natural number. */
  function NatToString(n: nat): (r: string)
    ensures |r| > 0
    ensures n >= 10 ==> |r| >= 2
  {
    if n < 10 then [DigitChar(n)] else NatToString(n / 10) + [DigitChar(n % 10)]
  }

  /** The text is shortest: it starts with `0` only for zero itself. */
  lemma {:induction false} NatToStringNoLeadingZero(n: nat)
    ensures NatToString(n)[0] == '0' <==> n == 0
    decreases n
  {
    if n >= 10 {
      NatToStringNoLeadingZero(n / 10);
      assert NatToString(n)[0] == NatToString(n / 10)[0];
    }
  }

  function IntToString(i: int): (r: string)
    ensures |r| > 0
  {
    if i < 0 then "-" + NatToString(-i) else NatToString(i)
  }

  /** Reading back the digits of `n` gives `n`. */
  lemma {:induction false} NatToStringRoundTrip(n: nat)
    ensures AllDigits(NatToString(n))
    ensures DigitsValue(NatToString(n)) == n
    decreases n
  {
    if n >= 10 {
      NatToStringRoundTrip(n / 10);
      var s := NatToString(n);
      assert s[..|s| - 1] == NatToString(n / 10);
    }
  }

  /** Distinct numbers have distinct decimal texts. */
  lemma NatToStringInjective(a: nat, b: nat)
    requires NatToString(a) == NatToString(b)
    ensures a == b
  {
    NatToStringRoundTrip(a);
    NatToStringRoundTrip(b);
  }

  /** `Number.intValue()` of an integral value: the low 32 bits, read as a
      two's-complement `int`. */
  function WrapInt32(n: int): (r: int)
    ensures INT_MIN <= r <= INT_MAX
    ensures (n - r) % 0x1_0000_0000 == 0
    ensures INT_MIN <= n <= INT_MAX ==> r == n
  {
    var m := n % 0x1_0000_0000;
    if m > INT_MAX then m - 0x1_0000_0000 else m
  }

  /** Integer literal syntax: one sign character or none, then one or more
      ASCII digits. */
  predicate IsIntLiteral(s: string) {
    |s| > 0 &&
    if s[0] == '-' || s[0] == '+' then |s| > 1 && AllDigits(s[1..]) else AllDigits(s)
  }

  /** The signed value of an integer literal, leading zeros allowed. */
  function LiteralValue(s: string): int
    requires IsIntLiteral(s)
  {
    if s[0] == '-' then 0 - DigitsValue(s[1..])
    else if s[0] == '+' then DigitsValue(s[1..])
    else DigitsValue(s)
  }

  /** `Integer.parseInt`: an optional sign, at least one ASCII digit, and a
      value inside the 32-bit range; anything else is a NumberFormatException. */
  function ParseInt32(s: string): (r: Option<int>)
    ensures r.Some? ==> INT_MIN <= r.value <= INT_MAX
    ensures r.Some? ==> |s| > 0
    ensures r.Some? ==> '.' !in s
    ensures r.Some? <==> IsIntLiteral(s) && INT_MIN <= LiteralValue(s) <= INT_MAX
    ensures r.Some? ==> r.value == LiteralValue(s)
  {
    if |s| == 0 then None
    else
      var neg := s[0] == '-';
      var digits := if s[0] == '-' || s[0] == '+' then s[1..] else s;
      if |digits| == 0 || !AllDigits(digits) then None
      else
        var m: int := DigitsValue(digits);
        var v := if neg then 0 - m else m;
        if INT_MIN <= v <= INT_MAX then Some(v) else None
  }

  /** Texts `Integer.parseInt` accepts beyond the canonical ones, and some
      it rejects: a plus sign and leading zeros are fine, a bare sign,
      letters and a value one past the range are not. */
  lemma ParseInt32Examples()
    ensures ParseInt32("+5") == Some(5)
    ensures ParseInt32("007") == Some(7)
    ensures ParseInt32("-0") == Some(0)
    ensures ParseInt32("-") == None
    ensures ParseInt32("abc") == None
    ensures ParseInt32("2147483648") == None
    ensures ParseInt32("-2147483648") == Some(INT_MIN)
  {
    assert "+5"[1..] == "5" && "5"[..0] == [];
    assert "007"[..2] == "00" && "00"[..1] == "0" && "0"[..0] == [];
    assert "-0"[1..] == "0";
    assert !IsAsciiDigit('a');
    var big := "2147483648";
    DigitsValueOf10(big);
    assert "-2147483648"[1..] == big;
  }

  /** The value of the ten digits `2147483648`, one place at a time. */
  lemma DigitsValueOf10(s: string)
    requires s == "2147483648"
    ensures AllDigits(s) && DigitsValue(s) == 2147483648
  {
    assert s[..9] == "214748364";
    assert s[..9][..8] == "21474836";
    assert s[..9][..8][..7] == "2147483";
    assert s[..9][..8][..7][..6] == "214748";
    assert s[..9][..8][..7][..6][..5] == "21474";
    assert s[..9][..8][..7][..6][..5][..4] == "2147";
    assert s[..9][..8][..7][..6][..5][..4][..3] == "214";
    assert s[..9][..8][..7][..6][..5][..4][..3][..2] == "21";
    assert "21"[..1] == "2" && "2"[..0] == [];
    assert DigitsValue("2") == 2;
    assert DigitsValue("21") == 21;
    assert DigitsValue("214") == 214;
    assert DigitsValue("2147") == 2147;
    assert DigitsValue("21474") == 21474;
    assert DigitsValue("214748") == 214748;
    assert DigitsValue("2147483") == 2147483;
    assert DigitsValue("21474836") == 21474836;
    assert DigitsValue("214748364") == 214748364;
  }

  /** Every 32-bit integer survives printing and parsing back. */
  lemma ParseInt32RoundTrip(n: int)
    requires INT_MIN <= n <= INT_MAX
    ensures ParseInt32(IntToString(n)) == Some(n)
  {
    var s := IntToString(n);
    if n < 0 {
      var d := NatToString(-n);
      NatToStringRoundTrip(-n);
      assert s == "-" + d;
      assert s[0] == '-';
      assert s[1..] == d;
    } else {
      NatToStringRoundTrip(n);
      assert IsAsciiDigit(s[0]);
      assert s[0] != '-' && s[0] != '+';
    }
  }
}
