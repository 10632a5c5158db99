/** What parse_number makes of every number that section 6 of RFC 8259 allows (src/cJSON.c:100-119). */
module JsonNumbers {
  import opened DecimalText
  import opened Wrappers
  import opened Powers
  import opened JsonTree
  import opened JsonParse
  import opened JsonRoundTrip

  // ---------------------------------------------------------------- the texts

  /** A sign, the digits in front of the point, those behind it, and an exponent with its letter and sign. */
  datatype NumberText = NumberText(minus: bool, whole: string, fraction: string, exponent: Exponent)

  datatype Exponent = NoExponent | Exponent(letter: char, sign: string, digits: string)

  predicate AreDigits(s: string) {
    forall i :: 0 <= i < |s| ==> IsDigit(s[i])
  }

  predicate IsNumberText(n: NumberText) {
    && n.whole != "" && AreDigits(n.whole) && (n.whole[0] == '0' ==> n.whole == "0")
    && AreDigits(n.fraction)
    && IsExponent(n.exponent)
  }

  predicate IsExponent(x: Exponent) {
    x.Exponent? ==> x.letter in {'e', 'E'} && x.sign in {"", "+", "-"} && x.digits != "" && AreDigits(x.digits)
  }

  function ExponentText(x: Exponent): string {
    match x
    case NoExponent => ""
    case Exponent(letter, sign, digits) => [letter] + (sign + digits)
  }

  function SignText(n: NumberText): string {
    if n.minus then "-" else ""
  }

  function FractionText(n: NumberText): string {
    if n.fraction == "" then "" else "." + n.fraction
  }

  function TextOf(n: NumberText): string {
    SignText(n) + (n.whole + (FractionText(n) + ExponentText(n.exponent)))
  }

  /** The number whose decimal digits these are. */
  function IntegerOf(s: string): nat {
    DigitsValue(s, 0, |s|, 0)
  }

  function ExponentOf(x: Exponent): int {
    match x
    case NoExponent => 0
    case Exponent(_, sign, digits) => if sign == "-" then -(IntegerOf(digits) as int) else IntegerOf(digits)
  }

  // ---------------------------------------------------------------- digits

  /** The digits of a decimal number stand for it. */
  lemma {:induction false} IntegerOfDigits(n: nat)
    ensures IntegerOf(Digits(n)) == n
  {
    if n >= 10 {
      var front, last := Digits(n / 10), [DigitChar(n % 10)];
      IntegerOfDigits(n / 10);
      DigitsJoin(front, last, 0);
      assert DigitsValue(last, 1, 1, 10 * (n / 10) + DigitValue(last[0])) == 10 * (n / 10) + DigitValue(last[0]);
      assert DigitValue(last[0]) == n % 10;
    } else {
      assert DigitsValue(Digits(n), 1, 1, DigitValue(Digits(n)[0])) == DigitValue(Digits(n)[0]) == n;
    }
  }

  /** A piece of a text. */
  predicate Stands(t: string, i: nat, s: string) {
    StandsFrom(t, i, s, 0)
  }

  predicate StandsFrom(t: string, i: nat, s: string, j: nat) {
    j <= |s| && i + |s| - j <= |t| && forall k {:trigger s[k]} :: j <= k < |s| ==> t[i + k - j] == s[k]
  }

  lemma {:induction false} SameDigits(t: string, i: nat, s: string, j: nat, n: nat)
    requires StandsFrom(t, i, s, j)
    ensures DigitsValue(t, i, i + |s| - j, n) == DigitsValue(s, j, |s|, n)
    decreases |s| - j
  {
    if j < |s| {
      assert t[i] == s[j];
      SameDigits(t, i + 1, s, j + 1, 10 * n + DigitValue(t[i]));
    }
  }

  lemma {:induction false} SplitDigits(t: string, i: nat, m: nat, e: nat, n: nat)
    requires i <= m <= e <= |t|
    ensures DigitsValue(t, i, e, n) == DigitsValue(t, m, e, DigitsValue(t, i, m, n))
    decreases m - i
  {
    if i < m {
      SplitDigits(t, i + 1, m, e, 10 * n + DigitValue(t[i]));
    }
  }

  lemma DigitsJoin(a: string, b: string, n: nat)
    ensures DigitsValue(a + b, 0, |a + b|, n) == DigitsValue(b, 0, |b|, DigitsValue(a, 0, |a|, n))
  {
    SplitDigits(a + b, 0, |a|, |a + b|, n);
    SameDigits(a + b, 0, a, 0, n);
    SameDigits(a + b, |a|, b, 0, DigitsValue(a, 0, |a|, n));
  }

  // ---------------------------------------------------------------- powers of ten

  lemma {:induction false} ScaledIsTimesPower(n: real, k: nat)
    ensures Scaled(n, k) == n * Power(10, k) as real
    ensures Scaled(n, 0 - k as int) * Power(10, k) as real == n
  {
    if k > 0 {
      ScaledIsTimesPower(n, k - 1);
      var p, q := Power(10, k - 1) as real, Scaled(n, 1 - k as int);
      assert Power(10, k) as real == 10.0 * p && 10.0 * (n * p) == n * (10.0 * p);
      assert q / 10.0 * (10.0 * p) == q * p;
    }
  }

  // ---------------------------------------------------------------- where the pieces stand

  lemma DigitsEndBehind(t: string, i: nat, s: string)
    requires Stands(t, i, s) && AreDigits(s) && !IsDigit(At(t, i + |s|))
    ensures DigitsEnd(t, i) == i + |s|
  {
    assert forall k :: i <= k < i + |s| ==> t[k] == s[k - i];
    DigitsEndAt(t, i, i + |s|);
  }

  lemma StandsIn(a: string, s: string, b: string)
    ensures Stands(a + (s + b), |a|, s)
  {
  }

  // Where the digits in front of the point begin and end, and where those behind it end.

  function WholeAt(n: NumberText): nat {
    |SignText(n)|
  }

  function WholeEnd(n: NumberText): nat {
    WholeAt(n) + |n.whole|
  }

  function FractionAt(n: NumberText): nat {
    WholeEnd(n) + |FractionText(n)|
  }

  /** The pieces stand in the text, one behind the other. */
  predicate IsLaid(t: string, n: NumberText) {
    && |t| == FractionAt(n) + |ExponentText(n.exponent)|
    && (n.minus ==> At(t, 0) == '-') && Stands(t, WholeAt(n), n.whole)
    && (n.fraction != "" ==> At(t, WholeEnd(n)) == '.' && Stands(t, WholeEnd(n) + 1, n.fraction))
    && (n.exponent.Exponent? ==> ExponentLaid(t, FractionAt(n), n.exponent))
  }

  predicate ExponentLaid(t: string, f: nat, x: Exponent)
    requires x.Exponent?
  {
    At(t, f) == x.letter && Stands(t, f + 1, x.sign) && Stands(t, f + 1 + |x.sign|, x.digits)
  }

  lemma TextIsLaid(n: NumberText)
    ensures IsLaid(TextOf(n), n)
  {
    StandsIn(SignText(n), n.whole, FractionText(n) + ExponentText(n.exponent));
    if n.fraction != "" {
      FractionStands(n);
    }
    if n.exponent.Exponent? {
      ExponentStands(n);
    }
  }

  lemma FractionStands(n: NumberText)
    requires n.fraction != ""
    ensures At(TextOf(n), WholeEnd(n)) == '.' && Stands(TextOf(n), WholeEnd(n) + 1, n.fraction)
  {
    var before := SignText(n) + n.whole + ".";
    var x := ExponentText(n.exponent);
    StandsIn(before, n.fraction, x);
    Associative(SignText(n), n.whole, FractionText(n) + x);
    Associative(".", n.fraction, x);
    Associative(SignText(n) + n.whole, ".", n.fraction + x);
  }

  lemma ExponentStands(n: NumberText)
    requires n.exponent.Exponent?
    ensures ExponentLaid(TextOf(n), FractionAt(n), n.exponent)
  {
    var x, before := n.exponent, SignText(n) + n.whole + FractionText(n);
    Associative(SignText(n), n.whole, FractionText(n) + ExponentText(x));
    Associative(SignText(n) + n.whole, FractionText(n), ExponentText(x));
    LetterStands(before, x);
    SignStands(before, x);
    DigitsStand(before, x);
  }

  lemma LetterStands(before: string, x: Exponent)
    requires x.Exponent?
    ensures At(before + ExponentText(x), |before|) == x.letter
  {
  }

  lemma SignStands(before: string, x: Exponent)
    requires x.Exponent?
    ensures Stands(before + ExponentText(x), |before| + 1, x.sign)
  {
    Associative(before, [x.letter], x.sign + x.digits);
    StandsIn(before + [x.letter], x.sign, x.digits);
  }

  lemma DigitsStand(before: string, x: Exponent)
    requires x.Exponent?
    ensures Stands(before + ExponentText(x), |before| + 1 + |x.sign|, x.digits)
  {
    Associative(before, [x.letter], x.sign + x.digits);
    Associative(before + [x.letter], x.sign, x.digits);
    StandsIn(before + [x.letter] + x.sign, x.digits, "");
    assert x.digits + "" == x.digits;
  }

  lemma FirstOf(t: string, i: nat, s: string)
    requires Stands(t, i, s) && s != ""
    ensures At(t, i) == s[0]
  {
    assert t[i + 0 - 0] == s[0];
  }

  // ---------------------------------------------------------------- the cursor

  lemma WholeReads(t: string, s: nat, whole: string)
    requires Stands(t, s, whole) && whole != "" && AreDigits(whole) && (whole[0] == '0' ==> whole == "0")
    requires !IsDigit(At(t, s + |whole|))
    ensures MantissaEnd(t, s) == s + |whole| && DigitsValue(t, s, s + |whole|, 0) == IntegerOf(whole)
  {
    FirstOf(t, s, whole);
    SameDigits(t, s, whole, 0, 0);
    if whole[0] != '0' {
      DigitsEndBehind(t, s, whole);
    }
  }

  lemma FractionReads(t: string, m: nat, fraction: string, n: nat)
    requires At(t, m) == '.' && Stands(t, m + 1, fraction) && fraction != "" && AreDigits(fraction)
    requires !IsDigit(At(t, m + 1 + |fraction|))
    ensures FractionEnd(t, m) == m + 1 + |fraction|
    ensures DigitsValue(t, m + 1, m + 1 + |fraction|, n) == DigitsValue(fraction, 0, |fraction|, n)
  {
    FirstOf(t, m + 1, fraction);
    SameDigits(t, m + 1, fraction, 0, n);
    DigitsEndBehind(t, m + 1, fraction);
  }

  function ExponentPower(t: string, f: nat): int
    requires f <= |t|
  {
    var x := ExponentEnd(t, f);
    var e := if f < x then DigitsValue(t, ExponentDigits(t, f), x, 0) else 0;
    if f < x && At(t, f + 1) == '-' then -(e as int) else e as int
  }

  lemma ExponentReads(t: string, f: nat, x: Exponent)
    requires x.Exponent? && IsExponent(x) && ExponentLaid(t, f, x) && |t| == f + 1 + |x.sign| + |x.digits|
    ensures ExponentEnd(t, f) == |t| && ExponentPower(t, f) == ExponentOf(x)
  {
    var d := f + 1 + |x.sign|;
    FirstOf(t, d, x.digits);
    if x.sign != "" {
      FirstOf(t, f + 1, x.sign);
    }
    assert ExponentDigits(t, f) == d;
    DigitsEndBehind(t, d, x.digits);
    SameDigits(t, d, x.digits, 0, 0);
  }

  // ---------------------------------------------------------------- the value

  function Signed(minus: bool, n: nat): real {
    if minus then -(n as real) else n as real
  }

  /** All digits as an integer, moved by the exponent less the digits of the fraction. */
  function ValueOf(n: NumberText): real {
    Scaled(Signed(n.minus, IntegerOf(n.whole + n.fraction)), ExponentOf(n.exponent) - |n.fraction|)
  }

  /** What the parser finds, part by part. */
  predicate IsRead(t: string, n: NumberText) {
    && SignEnd(t) == WholeAt(n) && MantissaEnd(t, WholeAt(n)) == WholeEnd(n)
    && FractionEnd(t, WholeEnd(n)) == FractionAt(n) && ExponentEnd(t, FractionAt(n)) == |t|
    && IntegerOf(n.whole + n.fraction) == MantissaDigits(t, WholeAt(n), WholeEnd(n), FractionAt(n))
    && ExponentPower(t, FractionAt(n)) == ExponentOf(n.exponent)
  }

  function MantissaDigits(t: string, s: nat, m: nat, f: nat): nat
    requires s <= m <= f <= |t|
  {
    var whole := DigitsValue(t, s, m, 0);
    if m < f then DigitsValue(t, m + 1, f, whole) else whole
  }

  lemma LaidIsRead(t: string, n: NumberText)
    requires IsNumberText(n) && IsLaid(t, n)
    ensures IsRead(t, n)
  {
    WholeIsRead(t, n);
    BehindWhole(t, n);
    FractionPart(t, WholeEnd(n), n.fraction, IntegerOf(n.whole));
    DigitsJoin(n.whole, n.fraction, 0);
    ExponentIsRead(t, n);
  }

  lemma WholeIsRead(t: string, n: NumberText)
    requires IsNumberText(n) && IsLaid(t, n)
    ensures SignEnd(t) == WholeAt(n) && MantissaEnd(t, WholeAt(n)) == WholeEnd(n)
    ensures DigitsValue(t, WholeAt(n), WholeEnd(n), 0) == IntegerOf(n.whole)
  {
    FirstOf(t, WholeAt(n), n.whole);
    BehindWhole(t, n);
    WholeReads(t, WholeAt(n), n.whole);
  }

  lemma BehindWhole(t: string, n: NumberText)
    requires IsNumberText(n) && IsLaid(t, n)
    ensures !IsDigit(At(t, WholeEnd(n))) && FractionLaid(t, WholeEnd(n), n.fraction)
  {
    BehindFraction(t, n);
    BehindPoint(t, WholeEnd(n), FractionAt(n), n.fraction);
  }

  lemma BehindPoint(t: string, m: nat, f: nat, fraction: string)
    requires f == (if fraction == "" then m else m + 1 + |fraction|) && f <= |t| && AreDigits(fraction)
    requires !IsDigit(At(t, f)) && At(t, f) != '.'
    requires fraction != "" ==> At(t, m) == '.' && Stands(t, m + 1, fraction)
    ensures !IsDigit(At(t, m)) && FractionLaid(t, m, fraction)
  {
  }

  lemma BehindFraction(t: string, n: NumberText)
    requires IsExponent(n.exponent) && IsLaid(t, n)
    ensures FractionAt(n) <= |t| && !IsDigit(At(t, FractionAt(n))) && At(t, FractionAt(n)) != '.'
  {
    if n.exponent.Exponent? {
      assert At(t, FractionAt(n)) == n.exponent.letter;
    } else {
      assert FractionAt(n) == |t|;
    }
  }

  /** A point and digits with no digit behind them, or neither. */
  predicate FractionLaid(t: string, m: nat, fraction: string) {
    && AreDigits(fraction) && m <= |t|
    && if fraction == "" then At(t, m) != '.'
       else At(t, m) == '.' && Stands(t, m + 1, fraction) && !IsDigit(At(t, m + 1 + |fraction|))
  }

  /** The point and the digits behind it, if there are any. */
  lemma FractionPart(t: string, m: nat, fraction: string, n: nat)
    requires FractionLaid(t, m, fraction)
    ensures FractionEnd(t, m) == if fraction == "" then m else m + 1 + |fraction|
    ensures DigitsValue(fraction, 0, |fraction|, n) ==
            if fraction == "" then n else DigitsValue(t, m + 1, m + 1 + |fraction|, n)
  {
    if fraction != "" {
      FractionReads(t, m, fraction, n);
    }
  }

  lemma ExponentIsRead(t: string, n: NumberText)
    requires IsNumberText(n) && IsLaid(t, n)
    ensures ExponentEnd(t, FractionAt(n)) == |t| && ExponentPower(t, FractionAt(n)) == ExponentOf(n.exponent)
  {
    if n.exponent.Exponent? {
      ExponentReads(t, FractionAt(n), n.exponent);
    }
  }

  lemma ReadHasValue(t: string, n: NumberText)
    requires IsRead(t, n)
    ensures NumberEnd(t) == |t| && NumberValue(t) == ValueOf(n)
  {
    ValueFrom(t, WholeEnd(n), FractionAt(n), IntegerOf(n.whole + n.fraction), ExponentOf(n.exponent));
  }

  /** From the places where the cursor stands after each part. */
  lemma ValueFrom(t: string, m: nat, f: nat, digits: nat, power: int)
    requires m == MantissaEnd(t, SignEnd(t)) && f == FractionEnd(t, m)
    requires digits == MantissaDigits(t, SignEnd(t), m, f)
    requires power == ExponentPower(t, f)
    ensures NumberEnd(t) == ExponentEnd(t, f)
    ensures NumberValue(t) == Scaled(Signed(SignEnd(t) == 1, digits), (if m < f then m + 1 - f else 0) + power)
  {
  }

  /** Every number is read to its end, and as what it says. */
  lemma NumberIsRead(n: NumberText)
    requires IsNumberText(n)
    ensures ParseText(TextOf(n), true) == Ok(Number(ValueOf(n)), "")
  {
    TextIsLaid(n);
    LaidIsRead(TextOf(n), n);
    ReadHasValue(TextOf(n), n);
    LaidStarts(TextOf(n), n);
    WholeTextRead(TextOf(n));
  }

  lemma LaidStarts(t: string, n: NumberText)
    requires IsNumberText(n) && IsLaid(t, n)
    ensures Head(t) == '-' || IsDigit(Head(t))
  {
    FirstOf(t, WholeAt(n), n.whole);
  }

  lemma WholeTextRead(t: string)
    requires (Head(t) == '-' || IsDigit(Head(t))) && NumberEnd(t) == |t|
    ensures ParseText(t, true) == Ok(Number(NumberValue(t)), "")
  {
    assert t[..|t|] == t && t[|t|..] == "";
    assert ParseValue(t) == Ok(Number(NumberValue(t)), "");
  }

  /** So 1.5 is fifteen tenths. */
  lemma FractionExample()
    ensures ParseText("1.5", true) == Ok(Number(1.5), "")
  {
    var n := NumberText(false, "1", "5", NoExponent);
    assert TextOf(n) == "1.5" && n.whole + n.fraction == "15" == Digits(15);
    NumberIsRead(n);
    ValueIs(n, 15, 0);
    TenTimes();
  }

  /** And -12e-1 is twelve tenths below zero. */
  lemma ExponentExample()
    ensures ParseText("-12e-1", true) == Ok(Number(-1.2), "")
  {
    var n := NumberText(true, "12", "", Exponent('e', "-", "1"));
    assert TextOf(n) == "-12e-1" && n.whole + n.fraction == "12" == Digits(12);
    NumberIsRead(n);
    ValueIs(n, 12, 1);
    TenTimes();
  }

  lemma TenTimes()
    ensures Scaled(Signed(false, 15), -1) == 1.5 && Scaled(Signed(true, 12), -1) == -1.2
  {
  }

  lemma ValueIs(n: NumberText, digits: nat, x: nat)
    requires n.whole + n.fraction == Digits(digits) && (n.exponent.Exponent? ==> n.exponent.digits == Digits(x))
    ensures
      var power := (if n.exponent.NoExponent? then 0 else if n.exponent.sign == "-" then -(x as int) else x) - |n.fraction|;
      ValueOf(n) == Scaled(Signed(n.minus, digits), power)
  {
    IntegerOfDigits(digits);
    IntegerOfDigits(x);
  }
}
