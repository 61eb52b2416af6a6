/**
 * Decimal text as `printf` writes it and as `atoi` / `fscanf("%d")` read it:
 * `%d` for integers, and `%.0f` / `%.1f` for the non-negative scaled rates.
 */
module Decimal {
  import opened Wrappers

  predicate IsDigit(c: char) {
    '0' <= c <= '9'
  }

  predicate AllDigits(s: string) {
    forall i :: 0 <= i < |s| ==> IsDigit(s[i])
  }

  function DigitChar(d: nat): (c: char)
    requires d < 10
    ensures IsDigit(c)
  {
    (('0' as int) + d) as char
  }

  function DigitValue(c: char): (d: nat)
    requires IsDigit(c)
    ensures d < 10 && DigitChar(d) == c
  {
    (c as int) - ('0' as int)
  }

  /** The number a string of decimal digits denotes. */
  function DigitsValue(s: string): nat
    requires AllDigits(s)
  {
    if s == [] then 0 else 10 * DigitsValue(s[..|s| - 1]) + DigitValue(s[|s| - 1])
  }

  /** The decimal digits of n, most significant first, without leading zeros. */
  function NatToString(n: nat): (s: string)
    ensures |s| >= 1 && AllDigits(s)
    ensures |s| > 1 ==> s[0] != '0'
  {
    if n < 10 then [DigitChar(n)] else NatToString(n / 10) + [DigitChar(n % 10)]
  }

  lemma {:induction false} NatToStringValue(n: nat)
    ensures DigitsValue(NatToString(n)) == n
  {
    if n >= 10 {
      var s := NatToString(n);
      assert s[..|s| - 1] == NatToString(n / 10);
      NatToStringValue(n / 10);
    }
  }

  /**
   * `%d`: a minus sign exactly for a negative number, then the digits of
   * its magnitude, without leading zeros.
   */
  function IntToString(n: int): (s: string)
    ensures |s| >= 1
    ensures s[0] == '-' <==> n < 0
    ensures var digits := if n < 0 then s[1..] else s;
      |digits| >= 1 && AllDigits(digits) && (|digits| > 1 ==> digits[0] != '0') &&
      DigitsValue(digits) == (if n < 0 then -n else n)
  {
    var m: nat := if n < 0 then -n else n;
    NatToStringValue(m);
    if n < 0 then "-" + NatToString(m) else NatToString(m)
  }

  function Pow10(k: nat): (p: nat)
    ensures p >= 1
  {
    if k == 0 then 1 else 10 * Pow10(k - 1)
  }

  /** The digits of n fit in k places exactly when n < 10^k. */
  lemma {:induction false} NatToStringLength(n: nat, k: nat)
    requires k >= 1
    ensures |NatToString(n)| <= k <==> n < Pow10(k)
    decreases n
  {
    assert Pow10(k) == 10 * Pow10(k - 1);
    if n >= 10 {
      assert |NatToString(n)| == |NatToString(n / 10)| + 1;
      assert n == 10 * (n / 10) + n % 10;
      if k > 1 {
        NatToStringLength(n / 10, k - 1);
      }
    }
  }

  /** The `%d` text of n fits in k characters exactly when its sign and digits do. */
  lemma IntToStringLength(n: int, k: nat)
    requires k >= 1
    ensures n >= 0 ==> (|IntToString(n)| <= k <==> n < Pow10(k))
    ensures n < 0 ==> (|IntToString(n)| <= k <==> k >= 2 && -n < Pow10(k - 1))
  {
    if n >= 0 {
      NatToStringLength(n, k);
    } else if k >= 2 {
      NatToStringLength(-n, k - 1);
    }
  }

  /** The white-space characters `isspace` accepts in the C locale. */
  predicate IsSpace(c: char) {
    c == ' ' || c == '\t' || c == '\n' || c == '\U{0B}' || c == '\U{0C}' || c == '\r'
  }

  function SkipSpace(s: string): (t: string)
    ensures |t| <= |s|
    ensures |t| > 0 ==> !IsSpace(t[0])
  {
    if |s| > 0 && IsSpace(s[0]) then SkipSpace(s[1..]) else s
  }

  /** The length of the run of digits at the front of s. */
  function DigitRun(s: string): (k: nat)
    ensures k <= |s| && AllDigits(s[..k])
    ensures k < |s| ==> !IsDigit(s[k])
  {
    if |s| > 0 && IsDigit(s[0]) then
      var k := 1 + DigitRun(s[1..]);
      assert s[..k] == [s[0]] + s[1..][..k - 1];
      k
    else 0
  }

  /** The value of the digit run at the front of u, if there is one. */
  function Unsigned(u: string): (r: Option<nat>)
    ensures r.None? <==> DigitRun(u) == 0
  {
    var k := DigitRun(u);
    if k == 0 then None else Some(DigitsValue(u[..k]))
  }

  /** The digit run after an optional sign. */
  function Signed(t: string): Option<int> {
    var negative := |t| > 0 && t[0] == '-';
    var digits := if |t| > 0 && (t[0] == '-' || t[0] == '+') then t[1..] else t;
    match Unsigned(digits)
    case None => None
    case Some(v) => Some(if negative then -(v as int) else v as int)
  }

  /**
   * The integer conversion of `atoi` and of `fscanf("%d")`: leading white
   * space, an optional sign, then the longest run of digits; nothing is
   * converted when there is no digit.
   */
  function LeadingInt(s: string): (r: Option<int>)
    ensures r.None? <==>
      var t := SkipSpace(s);
      var u := if |t| > 0 && (t[0] == '-' || t[0] == '+') then t[1..] else t;
      |u| == 0 || !IsDigit(u[0])
  {
    Signed(SkipSpace(s))
  }

  lemma {:induction false} DigitRunOfDigits(d: string, rest: string)
    requires AllDigits(d)
    requires |rest| > 0 ==> !IsDigit(rest[0])
    ensures DigitRun(d + rest) == |d|
    decreases |d|
  {
    if |d| > 0 {
      assert (d + rest)[1..] == d[1..] + rest;
      DigitRunOfDigits(d[1..], rest);
    } else {
      assert d + rest == rest;
    }
  }

  /** Digits followed by a non-digit give the digits' value. */
  lemma UnsignedOfDigits(d: string, rest: string)
    requires |d| > 0 && AllDigits(d)
    requires |rest| > 0 ==> !IsDigit(rest[0])
    ensures Unsigned(d + rest) == Some(DigitsValue(d))
  {
    DigitRunOfDigits(d, rest);
    assert (d + rest)[..|d|] == d;
  }

  /** Text that starts with a non-space character has no white space to skip. */
  lemma SkipSpaceNone(s: string)
    requires |s| > 0 && !IsSpace(s[0])
    ensures SkipSpace(s) == s
  {
  }

  /** A digit run with no sign in front is read as its own value. */
  lemma SignedUnsigned(t: string, v: nat)
    requires |t| > 0 && IsDigit(t[0])
    requires Unsigned(t) == Some(v)
    ensures Signed(t) == Some(v as int)
  {
  }

  /** A digit run after a minus sign is read as the negated value. */
  lemma SignedMinus(t: string, v: nat)
    requires Unsigned(t) == Some(v)
    ensures Signed("-" + t) == Some(-(v as int))
  {
    assert ("-" + t)[1..] == t;
  }

  /** The digits of a natural number, followed by a non-digit, are read back as it. */
  lemma NatTextRoundTrip(m: nat, rest: string)
    requires |rest| > 0 ==> !IsDigit(rest[0])
    ensures LeadingInt(NatToString(m) + rest) == Some(m as int)
  {
    var t := NatToString(m) + rest;
    NatToStringValue(m);
    UnsignedOfDigits(NatToString(m), rest);
    SkipSpaceNone(t);
    SignedUnsigned(t, m);
  }

  /** A minus sign and the digits of m, followed by a non-digit, are read back as -m. */
  lemma NegTextRoundTrip(m: nat, rest: string)
    requires |rest| > 0 ==> !IsDigit(rest[0])
    ensures LeadingInt("-" + NatToString(m) + rest) == Some(-(m as int))
  {
    var t := NatToString(m) + rest;
    NatToStringValue(m);
    UnsignedOfDigits(NatToString(m), rest);
    assert "-" + NatToString(m) + rest == "-" + t;
    SkipSpaceNone("-" + t);
    SignedMinus(t, m);
  }

  /** What `%d` writes, followed by a non-digit, is read back as the same integer. */
  lemma IntToStringRoundTrip(n: int, rest: string)
    requires |rest| > 0 ==> !IsDigit(rest[0])
    ensures LeadingInt(IntToString(n) + rest) == Some(n)
  {
    if n >= 0 {
      NatTextRoundTrip(n, rest);
    } else {
      NegTextRoundTrip(-n, rest);
    }
  }

  /** The `printf` precision chosen for a rate: `%.0f` or `%.1f`. */
  datatype Precision = Whole | Tenths

  /** Rounding to the nearest integer, ties to even, as `printf` rounds. */
  function RoundHalfEven(x: real): (n: nat)
    requires x >= 0.0
    ensures x - 0.5 <= n as real <= x + 0.5
    ensures (n as real == x - 0.5 || n as real == x + 0.5) ==> n % 2 == 0
  {
    var f := x.Floor;
    var frac := x - f as real;
    if frac < 0.5 then f
    else if frac > 0.5 then f + 1
    else if f % 2 == 0 then f
    else f + 1
  }

  /** `%.0f` or `%.1f` of a non-negative value. */
  function Fixed(x: real, p: Precision): (s: string)
    requires x >= 0.0
    ensures p == Whole ==> AllDigits(s) && |s| >= 1
    ensures p == Tenths ==> |s| >= 3 && AllDigits(s[..|s| - 2]) && s[|s| - 2] == '.' && IsDigit(s[|s| - 1])
  {
    match p
    case Whole => NatToString(RoundHalfEven(x))
    case Tenths =>
      var n := RoundHalfEven(x * 10.0);
      var s := NatToString(n / 10) + "." + [DigitChar(n % 10)];
      assert s[..|s| - 2] == NatToString(n / 10);
      s
  }

  /** Read back, the text of `Fixed` is x rounded to its last place. */
  lemma FixedValue(x: real, p: Precision)
    requires x >= 0.0
    ensures p == Whole ==> DigitsValue(Fixed(x, p)) == RoundHalfEven(x)
    ensures p == Tenths ==>
      var s := Fixed(x, p);
      10 * DigitsValue(s[..|s| - 2]) + DigitValue(s[|s| - 1]) == RoundHalfEven(x * 10.0)
  {
    match p
    case Whole =>
      NatToStringValue(RoundHalfEven(x));
    case Tenths =>
      var n := RoundHalfEven(x * 10.0);
      var s := Fixed(x, p);
      assert s[..|s| - 2] == NatToString(n / 10);
      NatToStringValue(n / 10);
  }
}
