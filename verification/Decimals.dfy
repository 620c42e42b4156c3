/**
 Decimal amounts to smallest units and back (internal/onchain/okdex_utils.go).
 The 256-bit float of the way back is an exact real here.
 */
module Decimals {
  import opened Arith
  import opened Options
  import opened Text

  const MAX_DECIMALS := 77

  // ------------------------------------------------------------ numerals

  function Digit(c: char): nat
    requires IsDigit(c)
  {
    c as int - '0' as int
  }

  function DigitChar(d: nat): char
    requires d < 10
  {
    ('0' as int + d) as char
  }

  /** The number a digit string denotes. */
  function Number(s: string): nat
    requires AllDigits(s)
  {
    if s == "" then 0 else 10 * Number(Front(s)) + Digit(s[|s| - 1])
  }

  /** The shortest numeral of a number. */
  function Numeral(n: nat): (s: string)
    ensures s != "" && AllDigits(s)
  {
    if n < 10 then [DigitChar(n)] else Numeral(n / 10) + [DigitChar(n % 10)]
  }

  lemma {:induction false} NumeralDenotes(n: nat)
    ensures Number(Numeral(n)) == n
  {
    if n >= 10 {
      NumeralDenotes(n / 10);
      var s := Numeral(n);
      assert Front(s) == Numeral(n / 10);
    } else {
      assert Front(Numeral(n)) == "";
    }
  }

  /** `strconv.Atoi` and `big.Int.SetString` in base 10: an optional sign and at least one digit. */
  function ParseInt(s: string): Option<int> {
    var body := if s != "" && (s[0] == '-' || s[0] == '+') then s[1..] else s;
    if body == "" || !AllDigits(body) then None
    else if s[0] == '-' then Some(-(Number(body) as int))
    else Some(Number(body))
  }

  /** `big.Int.String` */
  function IntText(n: int): string {
    if n < 0 then "-" + Numeral(-n) else Numeral(n)
  }

  // ------------------------------------------------------------ powers of ten

  function Pow10(n: nat): nat {
    if n == 0 then 1 else 10 * Pow10(n - 1)
  }

  lemma {:induction false} Pow10Positive(n: nat)
    ensures Pow10(n) >= 1
  {
    if n > 0 {
      Pow10Positive(n - 1);
    }
  }

  /** `n` followed by `k` zeros. */
  function Shift(n: nat, k: nat): nat {
    n * Pow10(k)
  }

  lemma ShiftStep(n: nat, k: nat)
    ensures Shift(n, 0) == n
    ensures Shift(n, k + 1) == 10 * Shift(n, k) == Shift(10 * n, k)
  {
    assert n * (10 * Pow10(k)) == 10 * (n * Pow10(k)) == (10 * n) * Pow10(k);
  }

  lemma ShiftOfZero(k: nat)
    ensures Shift(0, k) == 0
  {
  }

  lemma ShiftSum(a: nat, b: nat, k: nat)
    ensures Shift(a + b, k) == Shift(a, k) + Shift(b, k)
  {
  }

  lemma {:induction false} ShiftTwice(n: nat, j: nat, k: nat)
    ensures Shift(Shift(n, j), k) == Shift(n, j + k)
  {
    hide Shift;
    ShiftStep(Shift(n, j), 0);
    if k > 0 {
      ShiftTwice(n, j, k - 1);
      ShiftStep(Shift(n, j), k - 1);
      ShiftStep(n, j + k - 1);
    }
  }

  // ------------------------------------------------------------ digits

  predicate AllZeros(s: string) {
    forall i :: 0 <= i < |s| ==> s[i] == '0'
  }

  function Zeros(n: nat): (s: string)
    ensures |s| == n && AllZeros(s)
  {
    seq(n, _ => '0')
  }

  /** All digits but the last. */
  function Front(s: string): (f: string)
    requires s != ""
    ensures |f| == |s| - 1 && s == f + [s[|s| - 1]]
    ensures AllDigits(s) ==> AllDigits(f) && IsDigit(s[|s| - 1])
  {
    s[..|s| - 1]
  }

  lemma {:induction false} NumberConcat(a: string, b: string)
    requires AllDigits(a) && AllDigits(b)
    ensures AllDigits(a + b)
    ensures Number(a + b) == Shift(Number(a), |b|) + Number(b)
  {
    hide Shift;
    if b == "" {
      assert a + b == a;
      ShiftStep(Number(a), 0);
    } else {
      var front := Front(b);
      assert Front(a + b) == a + front;
      NumberConcat(a, front);
      ShiftStep(Number(a), |front|);
    }
  }

  lemma {:induction false} NumberBelow(s: string)
    requires AllDigits(s)
    ensures Number(s) < Pow10(|s|)
  {
    if s != "" {
      NumberBelow(Front(s));
      assert Number(s) == 10 * Number(Front(s)) + Digit(s[|s| - 1]);
    }
  }

  lemma {:induction false} NumberZeroIff(s: string)
    requires AllDigits(s)
    ensures Number(s) == 0 <==> AllZeros(s)
  {
    if s != "" {
      NumberZeroIff(Front(s));
      assert AllZeros(s) <==> AllZeros(Front(s)) && s[|s| - 1] == '0';
    }
  }

  function TrimZeros(s: string): string {
    if s != "" && s[0] == '0' then TrimZeros(s[1..]) else s
  }

  lemma LeadingZero(s: string)
    requires AllDigits(s) && s != "" && s[0] == '0'
    ensures AllDigits(s[1..]) && Number(s) == Number(s[1..])
  {
    NumberZeroIff("0");
    hide Number, Shift, Pow10;
    assert s == "0" + s[1..];
    NumberConcat("0", s[1..]);
    ShiftOfZero(|s[1..]|);
  }

  lemma {:induction false} TrimZerosKeepsNumber(s: string)
    requires AllDigits(s)
    ensures AllDigits(TrimZeros(s)) && Number(TrimZeros(s)) == Number(s)
  {
    hide Number;
    if s != "" && s[0] == '0' {
      LeadingZero(s);
      TrimZerosKeepsNumber(s[1..]);
    }
  }

  // ------------------------------------------------------------ to smallest units

  datatype Error = InvalidDecimals | DecimalsOutOfRange | EmptyAmount | NegativeAmount | InvalidAmount

  datatype Converted<T> = Ok(value: T) | Failed(error: Error)

  /** Padded with zeros or cut to `d` digits. */
  function ToLength(fraction: string, d: nat): string {
    if |fraction| < d then fraction + Zeros(d - |fraction|)
    else if |fraction| > d then fraction[..d]
    else fraction
  }

  function IntegerPart(amount: string): string {
    amount[..IndexOf(amount, '.')]
  }

  function FractionPart(amount: string): string {
    var i := IndexOf(amount, '.');
    if i == |amount| then "" else amount[i + 1..]
  }

  /** The integer part without leading zeros, and "0" when nothing is left. */
  function LeadingDigits(integer: string): string {
    if TrimZeros(integer) == "" then "0" else TrimZeros(integer)
  }

  function AssembledDigits(amount: string, d: nat): string {
    LeadingDigits(IntegerPart(amount)) + ToLength(FractionPart(amount), d)
  }

  function ConvertToDecimals(amount: string, decimalsStr: string): Converted<string> {
    var decimals := ParseInt(decimalsStr);
    if decimals.None? then Failed(InvalidDecimals)
    else if decimals.value < 0 || decimals.value > MAX_DECIMALS then Failed(DecimalsOutOfRange)
    else if amount == "" then Failed(EmptyAmount)
    else if amount[0] == '-' then Failed(NegativeAmount)
    else
      var result := ParseInt(AssembledDigits(amount, decimals.value));
      if result.None? then Failed(InvalidAmount) else Ok(IntText(result.value))
  }

  /** A negative exponent counts as zero, the way `big.Int.Exp` has it. */
  function ConvertFromDecimals(amountStr: string, decimalsStr: string): Converted<real> {
    if amountStr == "" then Failed(EmptyAmount)
    else
      var amount, decimals := ParseInt(amountStr), if decimalsStr == "" then Some(0) else ParseInt(decimalsStr);
      if amount.None? then Failed(InvalidAmount)
      else if decimals.None? then Failed(InvalidDecimals)
      else
        var d := Pow10(if decimals.value < 0 then 0 else decimals.value);
        Pow10Positive(if decimals.value < 0 then 0 else decimals.value);
        Ok(amount.value as real / d as real)
  }

  // ------------------------------------------------------------ what the conversion means

  /** Digits with at most one dot, and not empty. */
  ghost predicate WellFormed(amount: string) {
    amount != "" && AllDigits(IntegerPart(amount)) && AllDigits(FractionPart(amount))
  }

  function Ratio(n: nat, d: nat): real
    requires d > 0
  {
    n as real / d as real
  }

  /** A value counted in units of 10^-d. */
  function InUnits(v: real, d: nat): real {
    v * Pow10(d) as real
  }

  /** The number a well-formed amount denotes. */
  ghost function Value(amount: string): real
    requires WellFormed(amount)
  {
    var f := FractionPart(amount);
    NumberConcat(IntegerPart(amount), f);
    Pow10Positive(|f|);
    Ratio(Number(IntegerPart(amount) + f), Pow10(|f|))
  }

  lemma ParseDigits(s: string)
    requires s != "" && AllDigits(s)
    ensures ParseInt(s) == Some(Number(s))
  {
    assert IsDigit(s[0]);
  }

  lemma LeadingDigitsNumber(integer: string)
    requires AllDigits(integer)
    ensures LeadingDigits(integer) != "" && AllDigits(LeadingDigits(integer))
    ensures Number(LeadingDigits(integer)) == Number(integer)
  {
    TrimZerosKeepsNumber(integer);
    NumberZeroIff("0");
    NumberZeroIff("");
  }

  /** What is left over below the smallest unit, in units of the last digit. */
  ghost function Lost(f: string, d: nat): nat
    requires AllDigits(f)
  {
    if d < |f| then Number(f[d..]) else 0
  }

  lemma ToLengthDigits(f: string, d: nat)
    requires AllDigits(f)
    ensures AllDigits(ToLength(f, d)) && |ToLength(f, d)| == d
    ensures d >= |f| ==> Number(ToLength(f, d)) == Shift(Number(f), d - |f|) && Lost(f, d) == 0
    ensures d < |f| ==> Number(f) == Shift(Number(ToLength(f, d)), |f| - d) + Lost(f, d) && Lost(f, d) < Pow10(|f| - d)
  {
    hide Shift, Number, Pow10;
    if |f| < d {
      NumberZeroIff(Zeros(d - |f|));
      NumberConcat(f, Zeros(d - |f|));
    } else if |f| > d {
      assert f == f[..d] + f[d..];
      NumberConcat(f[..d], f[d..]);
      NumberBelow(f[d..]);
    } else {
      ShiftStep(Number(f), 0);
    }
  }

  /** The number of smallest units the code arrives at. */
  ghost function Units(integer: string, f: string, d: nat): nat
    requires AllDigits(integer) && AllDigits(f)
  {
    ToLengthDigits(f, d);
    Shift(Number(integer), d) + Number(ToLength(f, d))
  }

  /** The digits the code parses denote the integer part and the fraction part, one after the other. */
  lemma AssembledNumber(amount: string, d: nat)
    requires WellFormed(amount)
    ensures ParseInt(AssembledDigits(amount, d)) == Some(Units(IntegerPart(amount), FractionPart(amount), d))
  {
    hide Shift, Number, ParseInt, LeadingDigits, ToLength, IntegerPart, FractionPart, Lost, Pow10;
    var integer, f := IntegerPart(amount), FractionPart(amount);
    ToLengthDigits(f, d);
    LeadingDigitsNumber(integer);
    NumberConcat(LeadingDigits(integer), ToLength(f, d));
    ParseDigits(LeadingDigits(integer) + ToLength(f, d));
  }

  /** The whole digit string, scaled to `d` places: quotient and remainder of the cut. */
  lemma Scaling(integer: string, f: string, d: nat)
    requires AllDigits(integer) && AllDigits(f)
    ensures AllDigits(integer + f)
    ensures d >= |f| ==> Units(integer, f, d) == Shift(Number(integer + f), d - |f|) && Lost(f, d) == 0
    ensures d < |f| ==>
      Number(integer + f) == Shift(Units(integer, f, d), |f| - d) + Lost(f, d) && Lost(f, d) < Pow10(|f| - d)
  {
    hide Shift, Number, Pow10, ToLength, Lost;
    NumberConcat(integer, f);
    ToLengthDigits(f, d);
    if d >= |f| {
      ShiftTwice(Number(integer), |f|, d - |f|);
      ShiftSum(Shift(Number(integer), |f|), Number(f), d - |f|);
    } else {
      ShiftTwice(Number(integer), d, |f| - d);
      ShiftSum(Shift(Number(integer), d), Number(ToLength(f, d)), |f| - d);
    }
  }

  ghost predicate Within(x: real, units: nat, lost: nat) {
    units as real <= x < units as real + 1.0 && (x == units as real <==> lost == 0)
  }

  lemma Pow10Sum(a: nat, b: nat)
    ensures Pow10(a + b) == Pow10(a) * Pow10(b)
  {
    ShiftTwice(1, a, b);
  }

  /** With the quotient and remainder known, the value in units lies in [units, units + 1). */
  lemma ScaledValue(w: nat, units: nat, lost: nat, k: nat, d: nat)
    requires d >= k ==> units == Shift(w, d - k) && lost == 0
    requires d < k ==> w == Shift(units, k - d) + lost && lost < Pow10(k - d)
    ensures Pow10(k) > 0
    ensures Within(InUnits(Ratio(w, Pow10(k)), d), units, lost)
  {
    hide Within, InUnits, Ratio;
    Pow10Positive(k);
    if d >= k {
      ScaledExactly(w, k, d - k);
    } else {
      ScaledCut(units, lost, d, k - d);
    }
  }

  lemma ScaledExactly(w: nat, k: nat, more: nat)
    ensures Pow10(k) > 0
    ensures Within(InUnits(Ratio(w, Pow10(k)), k + more), Shift(w, more), 0)
  {
    Pow10Positive(k);
    Pow10Sum(k, more);
    hide Pow10;
    ScaleUp(w as real, Pow10(k) as real, Pow10(more) as real);
    assert (Pow10(k) * Pow10(more)) as real == Pow10(k) as real * Pow10(more) as real;
    assert (w * Pow10(more)) as real == w as real * Pow10(more) as real;
  }

  lemma ScaledCut(units: nat, lost: nat, d: nat, more: nat)
    requires lost < Pow10(more)
    ensures Pow10(d + more) > 0
    ensures Within(InUnits(Ratio(Shift(units, more) + lost, Pow10(d + more)), d), units, lost)
  {
    Pow10Positive(d);
    Pow10Positive(more);
    Pow10Positive(d + more);
    Pow10Sum(d, more);
    hide Pow10, Within;
    CutAndScale(units, lost, Pow10(d), Pow10(more), Pow10(d + more));
  }

  lemma CutAndScale(units: nat, lost: nat, a: nat, b: nat, ab: nat)
    requires a > 0 && b > lost && ab == a * b && ab > 0
    ensures Within(Ratio(units * b + lost, ab) * a as real, units, lost)
  {
    hide Within, Ratio;
    var w := units * b + lost;
    ProductAsReal(a, b);
    SameRatio(w, a, b, ab);
    CutBounds(units, lost, b);
    RatioIs(w, b);
  }

  lemma ProductAsReal(a: nat, b: nat)
    ensures (a * b) as real == a as real * b as real
  {
  }

  lemma RatioIs(w: nat, b: nat)
    requires b > 0
    ensures Ratio(w, b) == w as real / b as real
  {
  }

  lemma SameRatio(w: nat, a: nat, b: nat, ab: nat)
    requires a > 0 && b > 0 && ab > 0 && ab as real == a as real * b as real
    ensures Ratio(w, ab) * a as real == Ratio(w, b)
  {
    ScaleDown(w as real, a as real, b as real);
  }

  lemma ScaleUp(w: real, a: real, b: real)
    requires a > 0.0
    ensures w / a * (a * b) == w * b
  {
    QuotientTimes(w, a);
    assert w / a * (a * b) == (w / a * a) * b;
  }

  lemma ScaleDown(w: real, a: real, b: real)
    requires a > 0.0 && b > 0.0
    ensures a * b > 0.0 && w / (a * b) * a == w / b
  {
    ProductPositive(a, b);
    QuotientTimes(w, a * b);
    QuotientTimes(w, b);
    SameQuotient(w / (a * b), w / b, a, b);
  }

  lemma SameQuotient(u: real, v: real, a: real, b: real)
    requires a > 0.0 && b > 0.0 && u * (a * b) == v * b
    ensures u * a == v
  {
    assert (u * a) * b == v * b;
    Cancel(u * a, v, b);
    Cancel(v, u * a, b);
  }

  lemma ProductPositive(a: real, b: real)
    requires a > 0.0 && b > 0.0
    ensures a * b > 0.0
  {
  }

  lemma CutBounds(units: nat, lost: nat, p: nat)
    requires p > 0 && lost < p
    ensures Within((units * p + lost) as real / p as real, units, lost)
  {
    var y := lost as real / p as real;
    QuotientTimes(lost as real, p as real);
    QuotientTimes((units * p + lost) as real, p as real);
    assert (units * p) as real == units as real * p as real;
    var x := (units * p + lost) as real / p as real;
    assert (units as real + y) * p as real == x * p as real;
    Cancel(x, units as real + y, p as real);
    Cancel(units as real + y, x, p as real);
    Fraction(lost as real, p as real);
  }

  lemma Fraction(l: real, p: real)
    requires 0.0 <= l < p
    ensures 0.0 <= l / p < 1.0 && (l / p == 0.0 <==> l == 0.0)
  {
    QuotientTimes(l, p);
    FractionOf(l / p, l, p);
  }

  lemma FractionOf(z: real, l: real, p: real)
    requires 0.0 <= l < p && z * p == l
    ensures 0.0 <= z < 1.0 && (z == 0.0 <==> l == 0.0)
  {
    TimesOrder(z, 0.0, p);
    TimesOrder(0.0, z, p);
    TimesOrder(1.0, z, p);
  }

  lemma FloorWithin(x: real, units: nat, lost: nat)
    requires Within(x, units, lost)
    ensures x.Floor == units
  {
  }

  /** The value in smallest units, and where it lies relative to the whole units. */
  lemma ValueInUnits(amount: string, d: nat)
    requires WellFormed(amount)
    ensures Within(InUnits(Value(amount), d),
                   Units(IntegerPart(amount), FractionPart(amount), d), Lost(FractionPart(amount), d))
  {
    hide Within, Units, Lost, Shift, Pow10, Number, InUnits, Ratio, IntegerPart, FractionPart;
    var integer, f := IntegerPart(amount), FractionPart(amount);
    Scaling(integer, f, d);
    Pow10Positive(|f|);
    assert Value(amount) == Ratio(Number(integer + f), Pow10(|f|));
    ScaledValue(Number(integer + f), Units(integer, f, d), Lost(f, d), |f|, d);
  }

  /** A well-formed amount converts to the whole units in its value, as the shortest numeral. */
  lemma ConvertsToFloor(amount: string, decimalsStr: string)
    requires WellFormed(amount)
    requires ParseInt(decimalsStr).Some? && 0 <= ParseInt(decimalsStr).value <= MAX_DECIMALS
    ensures var d := ParseInt(decimalsStr).value;
      var units := Units(IntegerPart(amount), FractionPart(amount), d);
      && InUnits(Value(amount), d).Floor == units
      && ConvertToDecimals(amount, decimalsStr) == Ok(Numeral(units))
  {
    hide ConvertToDecimals, Value, Units, InUnits, Lost, Within, Numeral, ParseInt, IntegerPart, FractionPart;
    var d := ParseInt(decimalsStr).value;
    ConvertsToUnits(amount, decimalsStr);
    ValueInUnits(amount, d);
    FloorWithin(InUnits(Value(amount), d), Units(IntegerPart(amount), FractionPart(amount), d), Lost(FractionPart(amount), d));
  }

  lemma ConvertsToUnits(amount: string, decimalsStr: string)
    requires WellFormed(amount)
    requires ParseInt(decimalsStr).Some? && 0 <= ParseInt(decimalsStr).value <= MAX_DECIMALS
    ensures ConvertToDecimals(amount, decimalsStr) ==
      Ok(Numeral(Units(IntegerPart(amount), FractionPart(amount), ParseInt(decimalsStr).value)))
  {
    FirstIsNoSign(amount);
    AssembledNumber(amount, ParseInt(decimalsStr).value);
    hide Units, AssembledDigits, IntegerPart, FractionPart, ParseInt, Numeral;
  }

  lemma FirstIsNoSign(amount: string)
    requires WellFormed(amount)
    ensures amount[0] != '-'
  {
    if IndexOf(amount, '.') > 0 {
      assert IsDigit(IntegerPart(amount)[0]);
    }
  }

  /** Every digit past position `d` of the fraction is zero. */
  ghost predicate NothingPast(amount: string, d: nat) {
    var f := FractionPart(amount);
    forall i :: d <= i < |f| ==> f[i] == '0'
  }

  /**
   Converting to units and back never gains, loses less than one unit, and loses nothing
   exactly when every digit past the last kept one is zero.
   */
  lemma RoundTrip(amount: string, decimalsStr: string)
    requires WellFormed(amount)
    requires ParseInt(decimalsStr).Some? && 0 <= ParseInt(decimalsStr).value <= MAX_DECIMALS
    ensures var d := ParseInt(decimalsStr).value;
      var there := ConvertToDecimals(amount, decimalsStr);
      && there.Ok? && ConvertFromDecimals(there.value, decimalsStr).Ok?
      && var back := ConvertFromDecimals(there.value, decimalsStr).value;
         && Pow10(d) > 0
         && back <= Value(amount) < back + 1.0 / Pow10(d) as real
         && (back == Value(amount) <==> NothingPast(amount, d))
  {
    var d := ParseInt(decimalsStr).value;
    var units := Units(IntegerPart(amount), FractionPart(amount), d);
    UnitsConvertBack(units, decimalsStr);
    hide ConvertToDecimals, ConvertFromDecimals, Units, Value, Lost, Pow10, ParseInt, NothingPast, Numeral, Within, InUnits;
    hide IntegerPart, FractionPart;
    ConvertsToFloor(amount, decimalsStr);
    ValueInUnits(amount, d);
    LostNothingIff(amount, d);
    BackInRange(Value(amount), units, Lost(FractionPart(amount), d), d);
  }

  lemma UnitsConvertBack(units: nat, decimalsStr: string)
    requires ParseInt(decimalsStr).Some? && 0 <= ParseInt(decimalsStr).value
    ensures Pow10(ParseInt(decimalsStr).value) > 0
    ensures ConvertFromDecimals(Numeral(units), decimalsStr) == Ok(units as real / Pow10(ParseInt(decimalsStr).value) as real)
  {
    assert decimalsStr != "";
    hide ParseInt, Pow10;
    NumeralParses(units);
    Pow10Positive(ParseInt(decimalsStr).value);
  }

  lemma NumeralParses(n: nat)
    ensures ParseInt(Numeral(n)) == Some(n)
  {
    NumeralDenotes(n);
    assert IsDigit(Numeral(n)[0]);
  }

  lemma BackInRange(v: real, units: nat, lost: nat, d: nat)
    requires Within(InUnits(v, d), units, lost)
    ensures Pow10(d) > 0
    ensures var p := Pow10(d) as real;
      units as real / p <= v < units as real / p + 1.0 / p && (units as real / p == v <==> lost == 0)
  {
    Pow10Positive(d);
    hide Pow10;
    BackOf(v, units as real, Pow10(d) as real);
  }

  lemma BackOf(v: real, units: real, p: real)
    requires p > 0.0 && units <= v * p < units + 1.0
    ensures units / p <= v < units / p + 1.0 / p
    ensures units / p == v <==> v * p == units
  {
    QuotientTimes(units, p);
    QuotientTimes(1.0, p);
    BackOfQuotients(v, units / p, 1.0 / p, units, p);
  }

  lemma BackOfQuotients(v: real, y: real, z: real, units: real, p: real)
    requires p > 0.0 && units <= v * p < units + 1.0 && y * p == units && z * p == 1.0
    ensures y <= v < y + z
    ensures y == v <==> v * p == units
  {
    TimesOrder(y, v, p);
    TimesOrder(v, y, p);
    TimesOrder(y + z, v, p);
  }

  lemma LostNothingIff(amount: string, d: nat)
    requires WellFormed(amount)
    ensures Lost(FractionPart(amount), d) == 0 <==> NothingPast(amount, d)
  {
    hide Number, FractionPart;
    var f := FractionPart(amount);
    if d < |f| {
      NumberZeroIff(f[d..]);
      assert forall i :: d <= i < |f| ==> f[d..][i - d] == f[i];
    }
  }
}
