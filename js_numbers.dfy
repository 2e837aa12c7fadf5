/**
 * JavaScript numbers as the calendar code meets them: whole numbers, `NaN`
 * and the two infinities; `Number(string)` for decimal digit strings;
 * `String(number)`; and truthiness (`x || y`).
 */
module JsNumbers {
  import opened JsStrings

  /** A JavaScript number, restricted to the whole values this code produces. */
  datatype JsNum = Finite(value: int) | NaN | PosInfinity | NegInfinity

  /** The falsy numbers are `0` and `NaN`; `x || d` replaces exactly those by `d`. */
  predicate Truthy(x: JsNum)
  {
    x != Finite(0) && x != NaN
  }

  /** `x || d` for a number `x` and a whole-number default `d`: never falsy unless `d` is 0. */
  function OrElse(x: JsNum, d: int): (r: JsNum)
    ensures d != 0 ==> Truthy(r)
    ensures r == x || r == Finite(d)
    ensures Truthy(x) ==> r == x
    ensures !Truthy(x) ==> r == Finite(d)
  {
    if Truthy(x) then x else Finite(d)
  }

  /** `x + k` for a whole number `k`: `NaN` and the infinities absorb it. */
  function Plus(x: JsNum, k: int): (r: JsNum)
    ensures r.Finite? <==> x.Finite?
    ensures x.Finite? ==> r.value == x.value + k
    ensures !x.Finite? ==> r == x
  {
    match x
    case Finite(v) => Finite(v + k)
    case _ => x
  }

  predicate IsDigit(c: char)
  {
    '0' <= c <= '9'
  }

  predicate AllDigits(s: string)
  {
    forall i :: 0 <= i < |s| ==> IsDigit(s[i])
  }

  function DigitChar(d: nat): (c: char)
    requires d < 10
    ensures IsDigit(c)
  {
    ('0' as int + d) as char
  }

  function DigitValue(c: char): (d: nat)
    requires IsDigit(c)
    ensures d < 10 && DigitChar(d) == c
  {
    c as int - '0' as int
  }

  /** The shortest decimal numeral of `n`, as `String(n)` writes it. */
  function DecimalString(n: nat): (s: string)
    ensures |s| >= 1 && AllDigits(s)
    ensures |s| > 1 ==> s[0] != '0'
    decreases n
  {
    if n < 10 then [DigitChar(n)] else DecimalString(n / 10) + [DigitChar(n % 10)]
  }

  /** The value of a decimal digit string, most significant digit first. */
  function DigitsValue(s: string): nat
    requires AllDigits(s)
    decreases |s|
  {
    if s == [] then 0 else DigitsValue(s[..|s| - 1]) * 10 + DigitValue(s[|s| - 1])
  }

  /** Reading a numeral back gives the number it was written from. */
  lemma {:induction false} DecimalRoundTrip(n: nat)
    ensures DigitsValue(DecimalString(n)) == n
    decreases n
  {
    if n >= 10 {
      DecimalRoundTrip(n / 10);
      var s := DecimalString(n);
      assert s[..|s| - 1] == DecimalString(n / 10);
    }
  }

  /** The numeral of a number with exactly four digits has four characters. */
  lemma DecimalStringFourDigits(n: nat)
    requires 1000 <= n <= 9999
    ensures |DecimalString(n)| == 4
  {
    assert DecimalString(n / 1000) == [DigitChar(n / 1000)];
    assert |DecimalString(n / 100)| == 2;
    assert |DecimalString(n / 10)| == 3;
  }

  /** `String(n)` for a whole number `n`. */
  function IntString(n: int): (s: string)
    ensures n >= 0 ==> s == DecimalString(n)
    ensures n < 0 ==> s == "-" + DecimalString(-n)
  {
    if n < 0 then "-" + DecimalString(-n) else DecimalString(n)
  }

  /** `Number` reads `String(n)` back as `n`, negative numbers included. */
  lemma IntStringReadsBack(n: int)
    ensures NumberOf(IntString(n)) == Finite(n)
  {
    if n < 0 {
      var k: nat := -n;
      var s := "-" + DecimalString(k);
      NumberOfSigned(k);
      assert NumberOf(s) == Finite(n);
    } else {
      NumberOfDecimal(n);
    }
  }

  /** `String(x)`. */
  function ToString(x: JsNum): string
  {
    match x
    case Finite(v) => IntString(v)
    case NaN => "NaN"
    case PosInfinity => "Infinity"
    case NegInfinity => "-Infinity"
  }

  /**
   * `Number(s)` for the strings this code feeds it: after trimming, the empty
   * string is 0, a run of decimal digits is its value, a sign followed by
   * such a run is that value with the sign, anything else is NaN.
   */
  function NumberOf(s: string): (x: JsNum)
    ensures x.Finite? || x == NaN
    ensures x.Finite? && x.value < 0 ==> Trim(s) != [] && Trim(s)[0] == '-'
  {
    var t := Trim(s);
    if t == [] then Finite(0)
    else if AllDigits(t) then Finite(DigitsValue(t))
    else if |t| >= 2 && (t[0] == '-' || t[0] == '+') && AllDigits(t[1..]) then
      Finite(if t[0] == '-' then -(DigitsValue(t[1..]) as int) else DigitsValue(t[1..]))
    else NaN
  }

  /** A sign followed by a run of digits reads as the run's value with the sign. */
  lemma NumberOfSignedDigits(t: string)
    requires |t| >= 2 && (t[0] == '-' || t[0] == '+') && AllDigits(t[1..])
    ensures NumberOf(t) == Finite(if t[0] == '-' then -(DigitsValue(t[1..]) as int) else DigitsValue(t[1..]))
  {
    assert t[|t| - 1] == t[1..][|t| - 2];
    TrimUnpadded(t);
    assert !IsDigit(t[0]);
  }

  /** A non-empty run of digits reads as its value. */
  lemma NumberOfDigits(s: string)
    requires s != [] && AllDigits(s)
    ensures NumberOf(s) == Finite(DigitsValue(s))
  {
    assert IsDigit(s[0]) && IsDigit(s[|s| - 1]);
    TrimUnpadded(s);
  }

  /** A signed `String(k)` reads as `k` with the sign. */
  lemma NumberOfSigned(k: nat)
    ensures NumberOf("-" + DecimalString(k)) == Finite(-(k as int))
    ensures NumberOf("+" + DecimalString(k)) == Finite(k)
  {
    var d := DecimalString(k);
    DecimalRoundTrip(k);
    var m, p := "-" + d, "+" + d;
    assert m[1..] == d && p[1..] == d;
    NumberOfSignedDigits(m);
    NumberOfSignedDigits(p);
  }

  /** `Number` reads back what `String` writes for a non-negative whole number. */
  lemma NumberOfDecimal(n: nat)
    ensures NumberOf(DecimalString(n)) == Finite(n)
  {
    NumberOfDigits(DecimalString(n));
    DecimalRoundTrip(n);
  }

  /** A digit with a zero in front of it reads as the digit. */
  lemma NumberOfLeadingZero(s: string)
    requires |s| == 2 && s[0] == '0' && IsDigit(s[1])
    ensures NumberOf(s) == Finite(DigitValue(s[1]))
  {
    assert AllDigits(s);
    var head := s[..1];
    assert head[..0] == [];
    assert DigitsValue(head) == DigitValue(s[0]) == 0;
    assert DigitsValue(s) == DigitsValue(head) * 10 + DigitValue(s[1]);
    NumberOfDigits(s);
  }

}
