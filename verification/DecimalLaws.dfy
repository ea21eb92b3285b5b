/** The value of a number as it is written: its digits, each at its place, and a power of ten. */
module DecimalLaws {
  import opened Bytes
  import opened JsonSyntax
  import opened JsonPrefix
  import opened Decimal

  // ---------------------------------------------------------------- numbers as they are written

  /** The sign, the digits before the point, those behind it, and the exponent with its mark and sign. */
  datatype Exponent = NoExponent | Exponent(mark: byte, sign: Option<byte>, digits: seq<digit>)

  datatype Written = Written(negative: bool, whole: seq<digit>, fraction: seq<digit>, exponent: Exponent)

  /** Section 6 of RFC 8259: at least one digit before the point, and no zero before another one. */
  predicate IsWritten(w: Written) {
    w.whole != [] && (|w.whole| > 1 ==> w.whole[0] != 0)
    && match w.exponent
       case NoExponent => true
       case Exponent(mark, sign, digits) =>
         (mark == 0x65 || mark == 0x45) && (sign.Some? ==> sign.value == 0x2B || sign.value == 0x2D) && digits != []
  }

  function DigitText(ds: seq<digit>): (t: Text)
    ensures |t| == |ds| && forall i :: 0 <= i < |t| ==> t[i] == ds[i] as int + 0x30
  {
    seq(|ds|, i requires 0 <= i < |ds| => (ds[i] as int + 0x30) as byte)
  }

  function SignText(negative: bool): Text {
    if negative then [0x2D] else []
  }

  function FractionText(ds: seq<digit>): Text {
    if ds == [] then [] else [0x2E] + DigitText(ds)
  }

  function MarkText(e: Exponent): Text {
    match e
    case NoExponent => []
    case Exponent(mark, sign, _) => [mark] + match sign case None => [] case Some(b) => [b]
  }

  function ExponentText(e: Exponent): Text {
    MarkText(e) + if e.NoExponent? then [] else DigitText(e.digits)
  }

  function TextOf(w: Written): Text {
    SignText(w.negative) + (DigitText(w.whole) + (FractionText(w.fraction) + ExponentText(w.exponent)))
  }

  // ---------------------------------------------------------------- what they are worth

  /** Tens, hundreds and so on to the left of the point. */
  function WholeValue(ds: seq<digit>): nat {
    if ds == [] then 0 else 10 * WholeValue(ds[..|ds| - 1]) + ds[|ds| - 1]
  }

  /** Tenths, hundredths and so on to its right. */
  function FractionValue(ds: seq<digit>): real {
    if ds == [] then 0.0 else (ds[0] as real + FractionValue(ds[1..])) / 10.0
  }

  function TenTimes(n: nat, x: real): real {
    if n == 0 then x else 10.0 * TenTimes(n - 1, x)
  }

  function Tenth(n: nat, x: real): real {
    if n == 0 then x else Tenth(n - 1, x) / 10.0
  }

  function Shifted(e: Exponent, x: real): real {
    match e
    case NoExponent => x
    case Exponent(_, sign, digits) =>
      if sign == Some(0x2D as byte) then Tenth(WholeValue(digits), x) else TenTimes(WholeValue(digits), x)
  }

  function Value(w: Written): real {
    var x := Shifted(w.exponent, WholeValue(w.whole) as real + FractionValue(w.fraction));
    if w.negative then -x else x
  }

  // ---------------------------------------------------------------- the same in bounded integers

  lemma {:induction false} WholeIsNumeral(ds: seq<digit>)
    ensures WholeValue(ds) == Numeral(ds)
  {
    if ds != [] {
      WholeIsNumeral(ds[..|ds| - 1]);
    }
  }

  lemma {:induction false} FractionIsNumeral(ds: seq<digit>)
    ensures FractionValue(ds) * Pow10(|ds|) as real == Numeral(ds) as real
  {
    hide Numeral, Pow10;
    if ds == [] {
      PowZero();
    } else {
      var rest := ds[1..];
      FractionIsNumeral(rest);
      NumeralSplit(ds, 1);
      OneDigitNumeral(ds[0]);
      assert ds[..1] == [ds[0]];
      var p := Pow10(|rest|);
      PowStep(|rest|);
      CastProduct(10, p);
      CastProduct(ds[0], p);
      TenfoldFraction(FractionValue(rest), ds[0] as real, p as real);
    }
  }

  lemma OneDigitNumeral(d: digit)
    ensures Numeral([d]) == d
  {
    assert [d][..0] == [];
  }

  lemma PowStep(n: nat)
    ensures Pow10(n + 1) == 10 * Pow10(n)
  {
  }

  lemma CastProduct(a: nat, b: nat)
    ensures (a * b) as real == a as real * b as real
  {
  }

  lemma TenfoldFraction(f: real, d: real, p: real)
    ensures (d + f) / 10.0 * (10.0 * p) == d * p + f * p
  {
    var x := (d + f) / 10.0;
    assert x * 10.0 == d + f;
    Regroup(x, 10.0, p);
    Distribute(d, f, p);
  }

  /** The digits together, without the point. */
  lemma MantissaIs(whole: seq<digit>, fraction: seq<digit>)
    ensures (WholeValue(whole) as real + FractionValue(fraction)) * Pow10(|fraction|) as real == Numeral(whole + fraction) as real
  {
    hide Numeral, Pow10, WholeValue, FractionValue;
    var ds := whole + fraction;
    NumeralSplit(ds, |whole|);
    assert ds[..|whole|] == whole && ds[|whole|..] == fraction;
    WholeIsNumeral(whole);
    FractionIsNumeral(fraction);
    Distribute(WholeValue(whole) as real, FractionValue(fraction), Pow10(|fraction|) as real);
    CastProduct(Numeral(whole), Pow10(|fraction|));
  }

  lemma Distribute(a: real, b: real, p: real)
    ensures (a + b) * p == a * p + b * p
  {
  }

  lemma {:induction false} TenTimesIs(n: nat, x: real)
    ensures TenTimes(n, x) == Pow10(n) as real * x
  {
    if n > 0 {
      TenTimesIs(n - 1, x);
      assert Pow10(n) as real == 10.0 * Pow10(n - 1) as real;
      Regroup(10.0, Pow10(n - 1) as real, x);
    }
  }

  lemma {:induction false} TenthIs(n: nat, x: real)
    ensures Tenth(n, x) * Pow10(n) as real == x
  {
    if n > 0 {
      TenthIs(n - 1, x);
      assert Pow10(n) as real == 10.0 * Pow10(n - 1) as real;
      Regroup(Tenth(n, x), 10.0, Pow10(n - 1) as real);
    }
  }

  lemma Regroup(a: real, b: real, c: real)
    ensures (a * b) * c == a * (b * c)
  {
  }

  function ExponentValue(e: Exponent): nat {
    match e case NoExponent => 0 case Exponent(_, _, digits) => Numeral(digits)
  }

  predicate IsBelow(e: Exponent) {
    e.Exponent? && e.sign == Some(0x2D as byte)
  }

  lemma PointLeft(x: real, base: real, pn: real, pf: real, m: real)
    requires x * pn == base && base * pf == m
    ensures x * (pn * pf) == m
  {
    Regroup(x, pn, pf);
  }

  lemma PointRight(x: real, base: real, pd: real, pf: real, m: real)
    requires x == (pd * pf) * base && base * pf == m
    ensures x == m * pd
  {
    Regroup(pd, pf, base);
  }

  lemma PointBetween(x: real, base: real, pd: real, pn: real, m: real)
    requires x == pn * base && base * (pd * pn) == m
    ensures x * pd == m
  {
    Regroup(pd, pn, base);
  }

  /** What is written is the mantissa with its point moved. */
  lemma ValueIsShifted(w: Written)
    ensures var x := if w.negative then -Value(w) else Value(w);
      var m := Numeral(w.whole + w.fraction);
      var shift := ShiftOf(IsBelow(w.exponent), ExponentValue(w.exponent), |w.fraction|);
      if shift >= 0 then x == m as real * Pow10(shift) as real else x * Pow10(-shift) as real == m as real
  {
    hide Numeral, Pow10, WholeValue, FractionValue, Tenth, TenTimes;
    var base := WholeValue(w.whole) as real + FractionValue(w.fraction);
    MantissaIs(w.whole, w.fraction);
    MovedPoint(w.exponent, base, |w.fraction|, Numeral(w.whole + w.fraction));
  }

  lemma MovedPoint(e: Exponent, base: real, f: nat, m: nat)
    requires base * Pow10(f) as real == m as real
    ensures var x, shift := Shifted(e, base), ShiftOf(IsBelow(e), ExponentValue(e), f);
      if shift >= 0 then x == m as real * Pow10(shift) as real else x * Pow10(-shift) as real == m as real
  {
    hide Numeral, Pow10, WholeValue, Tenth, TenTimes;
    PowZero();
    match e
    case NoExponent =>
    case Exponent(_, sign, digits) =>
      WholeIsNumeral(digits);
      var n, x := Numeral(digits), Shifted(e, base);
      if IsBelow(e) {
        TenthIs(n, base);
        PowAdd(n, f);
        CastProduct(Pow10(n), Pow10(f));
        PointLeft(x, base, Pow10(n) as real, Pow10(f) as real, m as real);
      } else {
        TenTimesIs(n, base);
        if n >= f {
          PowAdd(n - f, f);
          CastProduct(Pow10(n - f), Pow10(f));
          PointRight(x, base, Pow10(n - f) as real, Pow10(f) as real, m as real);
        } else {
          PowAdd(f - n, n);
          CastProduct(Pow10(f - n), Pow10(n));
          PointBetween(x, base, Pow10(f - n) as real, Pow10(n) as real, m as real);
        }
      }
  }

  /** A quotient is an integer exactly if there is no remainder. */
  lemma QuotientIs(x: real, m: nat, p: nat)
    requires p > 0 && x * p as real == m as real
    ensures x == x.Floor as real <==> m % p == 0
    ensures m % p == 0 ==> x == (m / p) as real
  {
    if m % p == 0 {
      NoRemainder(x, m, p, m / p);
    }
    if x == x.Floor as real {
      NotNegative(x, p as real);
      IntegerDivides(x, m, p, x.Floor);
    }
  }

  lemma NoRemainder(x: real, m: nat, p: nat, q: nat)
    requires p > 0 && x * p as real == m as real && m == q * p
    ensures x == q as real
  {
    CastProduct(q, p);
    Cancel(x, q as real, p as real);
  }

  lemma IntegerDivides(x: real, m: nat, p: nat, z: nat)
    requires p > 0 && x * p as real == m as real && x == z as real
    ensures m % p == 0
  {
    CastProduct(z, p);
    assert (z * p) as real == m as real;
    assert m == z * p + 0;
    DivisionFacts(z, p, 0);
  }

  lemma Cancel(x: real, y: real, p: real)
    requires p > 0.0 && x * p == y * p
    ensures x == y
  {
    var d := x - y;
    assert d * p == 0.0;
    if d > 0.0 {
      Positive(d, p);
    } else if d < 0.0 {
      Positive(-d, p);
    }
  }

  lemma Positive(a: real, b: real)
    requires a > 0.0 && b > 0.0
    ensures a * b > 0.0
  {
  }

  lemma NotNegative(x: real, p: real)
    requires p > 0.0 && x * p >= 0.0
    ensures x >= 0.0
  {
    if x < 0.0 {
      Positive(-x, p);
    }
  }

  // ---------------------------------------------------------------- the scanner reads what is written

  /** Where the parts stand. */
  function WholeEnd(w: Written): nat { |SignText(w.negative)| + |w.whole| }

  function PointEnd(w: Written): nat { WholeEnd(w) + |FractionText(w.fraction)| }

  function MarkEnd(w: Written): nat { PointEnd(w) + |MarkText(w.exponent)| }

  /** Digits from one place to another. */
  predicate DigitsAt(s: Text, lo: nat, hi: nat, ds: seq<digit>) {
    lo <= hi <= |s| && hi - lo == |ds| && forall i :: lo <= i < hi ==> s[i] == ds[i - lo] as int + 0x30
  }

  lemma WholeStands(w: Written)
    ensures var s, start := TextOf(w), |SignText(w.negative)|;
      DigitsAt(s, start, WholeEnd(w), w.whole) && start == (if w.negative then 1 else 0) && (w.negative ==> s[0] == 0x2D)
  {
  }

  lemma FractionStands(w: Written)
    ensures var s, p := TextOf(w), WholeEnd(w);
      p <= PointEnd(w) <= |s|
      && if w.fraction == [] then PointEnd(w) == p
         else p < |s| && s[p] == 0x2E && DigitsAt(s, p + 1, PointEnd(w), w.fraction)
  {
  }

  lemma ExponentStands(w: Written)
    ensures var s, p := TextOf(w), PointEnd(w);
      match w.exponent
      case NoExponent => |s| == p
      case Exponent(mark, sign, digits) =>
        p < MarkEnd(w) <= |s| && s[p] == mark
        && MarkEnd(w) == p + (if sign.Some? then 2 else 1) && (sign.Some? ==> s[p + 1] == sign.value)
        && DigitsAt(s, MarkEnd(w), |s|, digits)
  {
  }

  lemma FirstDigit(s: Text, lo: nat, hi: nat, ds: seq<digit>)
    requires DigitsAt(s, lo, hi, ds) && ds != []
    ensures lo < hi && s[lo] == ds[0] as int + 0x30 && IsDigit(s[lo])
  {
  }

  lemma RunIsScanned(s: Text, lo: nat, hi: nat, ds: seq<digit>)
    requires DigitsAt(s, lo, hi, ds) && (hi < |s| ==> !IsDigit(s[hi]))
    ensures SkipDigits(s, lo) == hi
  {
    DigitRunEnds(s, lo, hi);
  }

  /** Behind the digits stands a point, a mark, or nothing. */
  lemma BehindDigits(w: Written)
    requires IsWritten(w)
    ensures var s := TextOf(w);
      (WholeEnd(w) < |s| ==> !IsDigit(s[WholeEnd(w)]) && (s[WholeEnd(w)] == DOT <==> w.fraction != []))
      && (PointEnd(w) < |s| ==> IsExponentMark(s[PointEnd(w)]))
  {
    hide TextOf, WholeEnd, MarkEnd, DigitsAt;
    FractionStands(w);
    ExponentStands(w);
  }

  lemma WholeIsScanned(w: Written)
    requires IsWritten(w)
    ensures var s, start := TextOf(w), |SignText(w.negative)|;
      s != [] && start == (if s[0] == MINUS then 1 else 0) && (w.negative <==> s[0] == MINUS)
      && SkipDigits(s, start) == WholeEnd(w) && IntegerPart(s, start) == Complete(WholeEnd(w))
  {
    hide TextOf, WholeEnd, PointEnd, MarkEnd, SkipDigits, DigitsAt;
    var s, start := TextOf(w), |SignText(w.negative)|;
    WholeStands(w);
    BehindDigits(w);
    RunIsScanned(s, start, WholeEnd(w), w.whole);
    FirstDigit(s, start, WholeEnd(w), w.whole);
    if |w.whole| == 1 {
      SingleDigit(s, start, WholeEnd(w), w.whole);
    }
  }

  lemma SingleDigit(s: Text, lo: nat, hi: nat, ds: seq<digit>)
    requires DigitsAt(s, lo, hi, ds) && |ds| == 1
    ensures hi == lo + 1
  {
  }

  lemma FractionIsScanned(w: Written)
    requires IsWritten(w)
    ensures var s := TextOf(w);
      WholeEnd(w) <= |s| && FractionPart(s, WholeEnd(w)) == Complete(PointEnd(w))
      && (w.fraction != [] ==> SkipDigits(s, WholeEnd(w) + 1) == PointEnd(w))
  {
    hide TextOf, WholeEnd, PointEnd, MarkEnd, SkipDigits, DigitsAt;
    FractionStands(w);
    BehindDigits(w);
    if w.fraction != [] {
      RunIsScanned(TextOf(w), WholeEnd(w) + 1, PointEnd(w), w.fraction);
      FirstDigit(TextOf(w), WholeEnd(w) + 1, PointEnd(w), w.fraction);
    }
  }

  lemma ExponentIsScanned(w: Written)
    requires IsWritten(w)
    ensures var s, p := TextOf(w), PointEnd(w);
      p <= |s| && ExponentPart(s, p) == Complete(|s|) && (p == |s| <==> w.exponent.NoExponent?)
      && (w.exponent.Exponent? ==>
            p + 1 < |s| && MarkEnd(w) == (if IsSign(s[p + 1]) then p + 2 else p + 1) && (s[p + 1] == MINUS <==> IsBelow(w.exponent)))
  {
    hide TextOf, WholeEnd, PointEnd, MarkEnd, SkipDigits, DigitsAt;
    var s, p := TextOf(w), PointEnd(w);
    ExponentStands(w);
    FractionStands(w);
    if w.exponent.Exponent? {
      RunIsScanned(s, MarkEnd(w), |s|, w.exponent.digits);
      FirstDigit(s, MarkEnd(w), |s|, w.exponent.digits);
    }
  }

  lemma WrittenIsDecimal(w: Written)
    requires IsWritten(w) && |TextOf(w)| <= 1024
    ensures IsDecimal(TextOf(w))
  {
    hide TextOf, WholeEnd, PointEnd, MarkEnd, SkipDigits, IntegerPart, FractionPart, ExponentPart;
    WholeIsScanned(w);
    FractionIsScanned(w);
    ExponentIsScanned(w);
  }

  lemma SameDigits(s: Text, lo: nat, hi: nat, ds: seq<digit>)
    requires DigitsAt(s, lo, hi, ds)
    ensures (forall i :: lo <= i < hi ==> IsDigit(s[i])) && DigitValues(s, lo, hi) == ds
  {
    hide DigitValues;
  }

  /** The scanner finds the parts where they were written. */
  lemma WrittenEnds(w: Written)
    requires IsWritten(w) && |TextOf(w)| <= 1024
    ensures var s := TextOf(w);
      IsDecimal(s) && Start(s) == |SignText(w.negative)| && IsNegative(s) == w.negative
      && IntEnd(s) == WholeEnd(w) && (HasFraction(s) <==> w.fraction != []) && MantissaEnd(s) == PointEnd(w)
  {
    hide TextOf, WholeEnd, PointEnd, MarkEnd, SkipDigits, IntegerPart, FractionPart, ExponentPart, DigitsAt, Number;
    WrittenIsDecimal(w);
    WholeIsScanned(w);
    FractionIsScanned(w);
    BehindDigits(w);
    FractionStands(w);
  }

  /** The parts that the evaluation works with are those that were written. */
  lemma WrittenMantissa(w: Written)
    requires IsWritten(w) && |TextOf(w)| <= 1024
    ensures var s := TextOf(w);
      IsDecimal(s) && MantissaDigits(s) == w.whole + w.fraction && FractionDigits(s) == |w.fraction|
  {
    hide TextOf, WholeEnd, PointEnd, Start, IntEnd, HasFraction, MantissaEnd, DigitValues, DigitsAt, IsDecimal, SignText, IsWritten;
    var s := TextOf(w);
    WrittenEnds(w);
    DecimalShape(s);
    WholeStands(w);
    FractionStands(w);
    SameDigits(s, Start(s), WholeEnd(w), w.whole);
    if w.fraction != [] {
      SameDigits(s, WholeEnd(w) + 1, PointEnd(w), w.fraction);
      PointIsLong(s, WholeEnd(w) + 1, PointEnd(w), w.fraction);
    } else {
      assert w.whole + [] == w.whole;
    }
  }

  lemma PointIsLong(s: Text, lo: nat, hi: nat, ds: seq<digit>)
    requires DigitsAt(s, lo, hi, ds)
    ensures hi - lo == |ds|
  {
  }

  lemma WrittenMark(w: Written)
    requires IsWritten(w) && |TextOf(w)| <= 1024
    ensures var s := TextOf(w);
      IsDecimal(s) && (MantissaEnd(s) == |s| <==> w.exponent.NoExponent?) && ExponentNegative(s) == IsBelow(w.exponent)
      && (w.exponent.Exponent? ==> ExponentStart(s) == MarkEnd(w))
  {
    hide TextOf, WholeEnd, PointEnd, MarkEnd, SkipDigits, ExponentPart, Number, IsWritten, MarkText;
    WrittenEnds(w);
    ExponentIsScanned(w);
  }

  lemma WrittenExponent(w: Written)
    requires IsWritten(w) && |TextOf(w)| <= 1024
    ensures var s := TextOf(w);
      IsDecimal(s) && ExponentMagnitude(s) == ExponentValue(w.exponent) && ExponentNegative(s) == IsBelow(w.exponent)
  {
    hide TextOf, MarkEnd, ExponentStart, ExponentNegative, IsBelow, DigitValues, DigitsAt, IsDecimal, MantissaEnd, Numeral, IsWritten;
    var s := TextOf(w);
    WrittenMark(w);
    ExponentStands(w);
    DecimalShape(s);
    if w.exponent.Exponent? {
      SameDigits(s, MarkEnd(w), |s|, w.exponent.digits);
    }
  }

  lemma WrittenParts(w: Written)
    requires IsWritten(w) && |TextOf(w)| <= 1024
    ensures var s := TextOf(w);
      IsDecimal(s) && Mantissa(s) == Numeral(w.whole + w.fraction) && IsNegative(s) == w.negative
      && Shift(s) == ShiftOf(IsBelow(w.exponent), ExponentValue(w.exponent), |w.fraction|)
  {
    hide TextOf, MantissaDigits, FractionDigits, ExponentMagnitude, ExponentNegative, Numeral, ExponentValue, IsBelow, IsDecimal;
    WrittenEnds(w);
    WrittenMantissa(w);
    WrittenExponent(w);
  }

  /**
   * A number as it is written is an integer for the evaluation exactly if its value is one, and denotes
   * that value then.
   */
  lemma WrittenMeans(w: Written)
    requires IsWritten(w) && |TextOf(w)| <= 1024
    ensures var s, x := TextOf(w), Value(w);
      IsDecimal(s) && (DenotesInteger(s) <==> x == x.Floor as real) && (DenotesInteger(s) ==> Denoted(s) as real == x)
  {
    hide Numeral, Pow10, IsDecimal, Mantissa, Shift, IsNegative, Value, TextOf, ExponentValue, ShiftOf, Integral, ScaleBy;
    WrittenParts(w);
    ValueIsShifted(w);
    var x := if w.negative then -Value(w) else Value(w);
    ShiftedIs(x, Numeral(w.whole + w.fraction), Shift(TextOf(w)));
    SignAside(x);
  }

  lemma ShiftedIs(x: real, m: nat, shift: int)
    requires if shift >= 0 then x == m as real * Pow10(shift) as real else x * Pow10(-shift) as real == m as real
    ensures Integral(m, shift) <==> x == x.Floor as real
    ensures Integral(m, shift) ==> ScaleBy(m, shift) as real == x
  {
    hide Pow10;
    if shift >= 0 {
      var n: nat := m * Pow10(shift);
      CastProduct(m, Pow10(shift));
      assert x == n as real && x.Floor == n;
      assert ScaleBy(m, shift) == n;
    } else {
      QuotientIs(x, m, Pow10(-shift));
    }
  }

  lemma SignAside(x: real)
    ensures x == x.Floor as real <==> -x == (-x).Floor as real
  {
    if x == x.Floor as real {
      assert -x == (-x.Floor) as real;
    }
    if -x == (-x).Floor as real {
      assert x == (-(-x).Floor) as real;
    }
  }

  // ---------------------------------------------------------------- every number is written somehow

  lemma DigitsBack(s: Text, lo: nat, hi: nat)
    requires lo <= hi <= |s| && forall i :: lo <= i < hi ==> IsDigit(s[i])
    ensures DigitText(DigitValues(s, lo, hi)) == s[lo..hi]
  {
    hide DigitValues;
  }

  lemma NoLeadingZero(s: Text)
    requires IsDecimal(s)
    ensures Start(s) < IntEnd(s) <= |s| && (IntEnd(s) > Start(s) + 1 ==> s[Start(s)] != ZERO)
  {
    hide AfterInteger;
    DecimalShape(s);
    assert IntegerPart(s, Start(s)).Complete?;
  }

  function SignOf(s: Text, p: nat): Option<byte> {
    if p < |s| && IsSign(s[p]) then Some(s[p]) else None
  }

  lemma ExponentBack(s: Text) returns (e: Exponent)
    requires IsDecimal(s)
    ensures MantissaEnd(s) <= |s| && ExponentText(e) == s[MantissaEnd(s)..]
    ensures e.Exponent? ==> (e.mark == 0x65 || e.mark == 0x45) && (e.sign.Some? ==> e.sign.value == 0x2B || e.sign.value == 0x2D) && e.digits != []
  {
    hide Number, MantissaEnd, DigitValues;
    DecimalShape(s);
    var p := MantissaEnd(s);
    if p == |s| {
      e := NoExponent;
    } else {
      var q := ExponentStart(s);
      DigitsBack(s, q, |s|);
      e := Exponent(s[p], SignOf(s, p + 1), DigitValues(s, q, |s|));
      assert s[p..] == s[p..q] + s[q..|s|];
      assert MarkText(e) == s[p..q];
    }
  }

  lemma FractionBack(s: Text) returns (fraction: seq<digit>)
    requires IsDecimal(s)
    ensures IntEnd(s) <= MantissaEnd(s) <= |s| && FractionText(fraction) == s[IntEnd(s)..MantissaEnd(s)]
  {
    hide Number, DigitValues, SkipDigits;
    DecimalShape(s);
    var a, b := IntEnd(s), MantissaEnd(s);
    if HasFraction(s) {
      DigitsBack(s, a + 1, b);
      fraction := DigitValues(s, a + 1, b);
      assert s[a..b] == [s[a]] + s[a + 1..b];
    } else {
      fraction := [];
    }
  }

  /** Every number that the evaluation is given can be written in this way. */
  lemma EveryDecimalIsWritten(s: Text) returns (w: Written)
    requires IsDecimal(s)
    ensures IsWritten(w) && TextOf(w) == s
  {
    hide Number, DigitValues, MantissaEnd, IntEnd, FractionText, ExponentText, MarkText, TextOf, DigitText;
    DecimalShape(s);
    NoLeadingZero(s);
    var start, a, b := Start(s), IntEnd(s), MantissaEnd(s);
    var fraction := FractionBack(s);
    var exponent := ExponentBack(s);
    DigitsBack(s, start, a);
    w := Written(s[0] == MINUS, DigitValues(s, start, a), fraction, exponent);
    assert s[..start] == SignText(w.negative);
    PartsMakeText(w, s, start, a, b);
  }

  lemma PartsMakeText(w: Written, s: Text, start: nat, a: nat, b: nat)
    requires start <= a <= b <= |s| && SignText(w.negative) == s[..start] && DigitText(w.whole) == s[start..a]
    requires FractionText(w.fraction) == s[a..b] && ExponentText(w.exponent) == s[b..]
    ensures TextOf(w) == s
  {
    hide DigitText, FractionText, ExponentText, SignText;
    assert s == s[..start] + (s[start..a] + (s[a..b] + s[b..]));
  }
}
