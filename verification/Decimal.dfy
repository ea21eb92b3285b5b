/**
 * Exact evaluation of JSON numbers in src/lighting/model.c. A number is mantissa x 10^(exponent - fraction
 * digits); the code decides in bounded integers whether that is an integer, and which.
 */
module Decimal {
  import opened Bytes
  import opened JsonSyntax
  import opened JsonPrefix
  import opened ChannelSpec

  // ---------------------------------------------------------------- decimal numerals

  function Pow10(n: nat): (p: nat)
    ensures p >= 1
  {
    if n == 0 then 1 else 10 * Pow10(n - 1)
  }

  type digit = d: nat | d < 10

  /** The value of a numeral, most significant digit first. */
  function Numeral(ds: seq<digit>): nat {
    if ds == [] then 0 else 10 * Numeral(ds[..|ds| - 1]) + ds[|ds| - 1]
  }

  predicate AllZero(ds: seq<digit>) {
    forall i :: 0 <= i < |ds| ==> ds[i] == 0
  }

  lemma {:induction false} PowAdd(a: nat, b: nat)
    ensures Pow10(a + b) == Pow10(a) * Pow10(b)
    decreases b
  {
    if b > 0 {
      PowAdd(a, b - 1);
      assert Pow10(a + b) == 10 * Pow10(a + (b - 1));
    }
  }

  lemma {:induction false} PowMonotonic(a: nat, b: nat)
    requires a <= b
    ensures Pow10(a) <= Pow10(b)
    decreases b - a
  {
    if a < b {
      PowMonotonic(a, b - 1);
    }
  }

  /** Cutting a numeral behind its first `k` digits is division with remainder. */
  lemma {:induction false} NumeralSplit(ds: seq<digit>, k: nat)
    requires k <= |ds|
    ensures Numeral(ds) == Numeral(ds[..k]) * Pow10(|ds| - k) + Numeral(ds[k..])
    ensures Numeral(ds[k..]) < Pow10(|ds| - k)
    decreases |ds| - k
  {
    if k == |ds| {
      assert ds[..k] == ds && ds[k..] == [];
    } else {
      var front, tail := ds[..|ds| - 1], ds[k..];
      NumeralSplit(front, k);
      assert front[..k] == ds[..k];
      assert tail[..|tail| - 1] == front[k..];
      var n := |ds| - 1 - k;
      assert Numeral(ds) == 10 * (Numeral(ds[..k]) * Pow10(n) + Numeral(front[k..])) + ds[|ds| - 1];
      assert Pow10(|ds| - k) == 10 * Pow10(n);
      MulSwap(Numeral(ds[..k]), Pow10(n));
    }
  }

  lemma MulSwap(a: nat, b: nat)
    ensures 10 * (a * b) == a * (10 * b)
  {
  }

  lemma {:induction false} NumeralZero(ds: seq<digit>)
    ensures Numeral(ds) == 0 <==> AllZero(ds)
  {
    if ds != [] {
      NumeralZero(ds[..|ds| - 1]);
    }
  }

  lemma DivisionFacts(q: nat, b: nat, r: nat)
    requires b > 0 && r < b
    ensures (q * b + r) / b == q && (q * b + r) % b == r
  {
    var n := q * b + r;
    var k: int := (q as int) - n / b;
    assert k * b == (n % b) as int - r;
    SmallMultiple(k, b);
  }

  lemma SmallMultiple(k: int, b: nat)
    requires b > 0 && 0 < k * b + b && k * b < b
    ensures k == 0
  {
  }

  /** The last `n` digits of a numeral are zero exactly if 10^n divides it; the rest is the quotient. */
  lemma TrailingZeros(ds: seq<digit>, n: nat)
    requires n <= |ds|
    ensures Numeral(ds) % Pow10(n) == 0 <==> AllZero(ds[|ds| - n..])
    ensures Numeral(ds) / Pow10(n) == Numeral(ds[..|ds| - n])
  {
    hide Numeral, Pow10;
    var k := |ds| - n;
    NumeralSplit(ds, k);
    DivisionFacts(Numeral(ds[..k]), Pow10(n), Numeral(ds[k..]));
    NumeralZero(ds[k..]);
  }

  /** A divisor that is larger than any numeral of this length divides only zero. */
  lemma TooManyZeros(ds: seq<digit>, n: nat)
    requires |ds| <= n
    ensures Numeral(ds) < Pow10(n)
    ensures Numeral(ds) % Pow10(n) == 0 <==> AllZero(ds)
    ensures Numeral(ds) / Pow10(n) == 0
  {
    NumeralSplit(ds, 0);
    assert ds[..0] == [] && ds[0..] == ds;
    PowMonotonic(|ds|, n);
    NumeralZero(ds);
    SmallDividend(Numeral(ds), Pow10(n));
  }

  lemma SmallDividend(a: nat, b: nat)
    requires a < b
    ensures a / b == 0 && a % b == a
  {
  }

  // ---------------------------------------------------------------- the number a text denotes

  /** A number of section 6 of RFC 8259 that fills its text, of at most 1024 octets. */
  predicate IsDecimal(s: Text) {
    0 < |s| <= JSON_MAX_SIZE && Number(s, 0) == Complete(|s|)
  }

  function Start(s: Text): nat {
    if s != [] && s[0] == MINUS then 1 else 0
  }

  function IntEnd(s: Text): nat
    requires IsDecimal(s)
  {
    SkipDigits(s, Start(s))
  }

  predicate HasFraction(s: Text)
    requires IsDecimal(s)
  {
    IntEnd(s) < |s| && s[IntEnd(s)] == DOT
  }

  function MantissaEnd(s: Text): (e: nat)
    requires IsDecimal(s)
    ensures e <= |s|
  {
    if HasFraction(s) then SkipDigits(s, IntEnd(s) + 1) else IntEnd(s)
  }

  function ExponentStart(s: Text): nat
    requires IsDecimal(s) && MantissaEnd(s) < |s|
  {
    if MantissaEnd(s) + 1 < |s| && IsSign(s[MantissaEnd(s) + 1]) then MantissaEnd(s) + 2 else MantissaEnd(s) + 1
  }

  /** The shape of a decimal, which the scanning loops rely on. */
  lemma DecimalShape(s: Text)
    requires IsDecimal(s)
    ensures Start(s) < IntEnd(s) <= MantissaEnd(s) <= |s|
    ensures forall i :: Start(s) <= i < IntEnd(s) ==> IsDigit(s[i])
    ensures HasFraction(s) ==> IntEnd(s) + 1 < MantissaEnd(s) && forall i :: IntEnd(s) < i < MantissaEnd(s) ==> IsDigit(s[i])
    ensures MantissaEnd(s) < |s| ==>
      IsExponentMark(s[MantissaEnd(s)]) && ExponentStart(s) < |s|
      && forall i :: ExponentStart(s) <= i < |s| ==> IsDigit(s[i])
  {
    var a := IntegerPart(s, Start(s)).end;
    assert s[Start(s)] == ZERO ==> SkipDigits(s, Start(s)) == Start(s) + 1;
    assert a == IntEnd(s);
    assert Number(s, 0) == AfterInteger(s, a);
    assert FractionPart(s, a) == Complete(MantissaEnd(s));
  }

  function DigitOf(b: byte): (d: digit)
    requires IsDigit(b)
    ensures d == b - ZERO
  {
    b - ZERO
  }

  function DigitValues(s: Text, lo: nat, hi: nat): (ds: seq<digit>)
    requires lo <= hi <= |s| && forall i :: lo <= i < hi ==> IsDigit(s[i])
    ensures |ds| == hi - lo && forall i :: 0 <= i < |ds| ==> ds[i] == s[lo + i] - ZERO
    decreases hi - lo
  {
    if lo == hi then [] else DigitValues(s, lo, hi - 1) + [DigitOf(s[hi - 1])]
  }

  /** All digits before the exponent. */
  function MantissaDigits(s: Text): seq<digit>
    requires IsDecimal(s)
  {
    DecimalShape(s);
    DigitValues(s, Start(s), IntEnd(s))
    + if HasFraction(s) then DigitValues(s, IntEnd(s) + 1, MantissaEnd(s)) else []
  }

  function FractionDigits(s: Text): (n: nat)
    requires IsDecimal(s)
    ensures n <= |MantissaDigits(s)|
  {
    DecimalShape(s);
    if HasFraction(s) then MantissaEnd(s) - IntEnd(s) - 1 else 0
  }

  function ExponentMagnitude(s: Text): nat
    requires IsDecimal(s)
  {
    DecimalShape(s);
    if MantissaEnd(s) == |s| then 0 else Numeral(DigitValues(s, ExponentStart(s), |s|))
  }

  predicate ExponentNegative(s: Text)
    requires IsDecimal(s)
  {
    MantissaEnd(s) + 1 < |s| && s[MantissaEnd(s) + 1] == MINUS
  }

  /** The power of ten that a mantissa with `fraction` digits behind the point is multiplied with. */
  function ShiftOf(negative: bool, exponent: nat, fraction: nat): int {
    (if negative then -(exponent as int) else exponent) - fraction
  }

  predicate Integral(m: nat, shift: int) {
    hide Pow10;
    shift >= 0 || m % Pow10(-shift) == 0
  }

  function ScaleBy(m: nat, shift: int): nat {
    hide Pow10;
    if shift >= 0 then m * Pow10(shift) else m / Pow10(-shift)
  }

  function Shift(s: Text): int
    requires IsDecimal(s)
  {
    ShiftOf(ExponentNegative(s), ExponentMagnitude(s), FractionDigits(s))
  }

  function Mantissa(s: Text): nat
    requires IsDecimal(s)
  {
    Numeral(MantissaDigits(s))
  }

  predicate DenotesInteger(s: Text)
    requires IsDecimal(s)
  {
    Integral(Mantissa(s), Shift(s))
  }

  /** The absolute value, rounded down if it is no integer. */
  function Magnitude(s: Text): nat
    requires IsDecimal(s)
  {
    ScaleBy(Mantissa(s), Shift(s))
  }

  predicate IsNegative(s: Text) { s != [] && s[0] == MINUS }

  // ---------------------------------------------------------------- scanning

  /** A number between the digits of the exponent and what a saturating counter holds of it. */
  ghost predicate Saturates(counter: nat, exponent: nat) {
    if exponent <= JSON_MAX_SIZE then counter == exponent else counter > JSON_MAX_SIZE
  }

  lemma MantissaDigitAt(s: Text, pos: nat)
    requires IsDecimal(s) && Start(s) <= pos < MantissaEnd(s) && pos != IntEnd(s)
    ensures IsDigit(s[pos])
    ensures var k := if pos < IntEnd(s) then pos - Start(s) else pos - Start(s) - 1;
      k < |MantissaDigits(s)| && MantissaDigits(s)[k] == s[pos] - ZERO
  {
    hide Number, DigitValues, IntEnd;
    DecimalShape(s);
    var whole := DigitValues(s, Start(s), IntEnd(s));
    if pos < IntEnd(s) {
      assert whole[pos - Start(s)] == s[pos] - ZERO;
    } else {
      var part := DigitValues(s, IntEnd(s) + 1, MantissaEnd(s));
      assert MantissaDigits(s) == whole + part && part[pos - IntEnd(s) - 1] == s[pos] - ZERO;
    }
  }

  lemma MantissaLength(s: Text)
    requires IsDecimal(s)
    ensures |MantissaDigits(s)| == MantissaEnd(s) - Start(s) - (if HasFraction(s) then 1 else 0)
    ensures 0 < |MantissaDigits(s)| <= |s|
  {
    hide Number;
    DecimalShape(s);
  }

  /** The first loop of `number_is_integer` and of `exact_integer_value`. */
  method ScanMantissa(s: Text) returns (mantissaEnd: nat, mantissaDigits: nat, fractionalDigits: nat)
    requires IsDecimal(s)
    ensures mantissaEnd == MantissaEnd(s)
    ensures mantissaDigits == |MantissaDigits(s)| && fractionalDigits == FractionDigits(s)
  {
    hide Number, MantissaDigits;
    DecimalShape(s);
    MantissaLength(s);
    mantissaEnd, mantissaDigits, fractionalDigits := |s|, 0, 0;
    var pos := if s[0] == MINUS then 1 else 0;
    var afterDecimal := false;
    while pos < |s|
      invariant Start(s) <= pos <= MantissaEnd(s) && mantissaEnd == |s|
      invariant afterDecimal <==> HasFraction(s) && pos > IntEnd(s)
      invariant mantissaDigits == pos - Start(s) - (if afterDecimal then 1 else 0)
      invariant fractionalDigits == if afterDecimal then pos - IntEnd(s) - 1 else 0
    {
      var b := s[pos];
      if IsDigit(b) {
        mantissaDigits := mantissaDigits + 1;
        if afterDecimal {
          fractionalDigits := fractionalDigits + 1;
        }
      } else if b == DOT {
        afterDecimal := true;
      } else {
        mantissaEnd := pos;
        break;
      }
      pos := pos + 1;
    }
  }

  lemma ExponentPrefix(s: Text, pos: nat)
    requires IsDecimal(s) && MantissaEnd(s) < |s| && ExponentStart(s) <= pos < |s|
    ensures (forall i :: ExponentStart(s) <= i < |s| ==> IsDigit(s[i])) && IsDigit(s[pos])
    ensures Numeral(DigitValues(s, ExponentStart(s), pos + 1)) ==
      10 * Numeral(DigitValues(s, ExponentStart(s), pos)) + (s[pos] - ZERO)
  {
    hide Number;
    DecimalShape(s);
    var ds := DigitValues(s, ExponentStart(s), pos + 1);
    assert ds[..|ds| - 1] == DigitValues(s, ExponentStart(s), pos);
  }

  /** The exponent loops; the two functions saturate differently, which `clamped` selects. */
  method ScanExponent(s: Text, mantissaEnd: nat, clamped: bool) returns (negative: bool, exponent: nat)
    requires IsDecimal(s) && mantissaEnd == MantissaEnd(s)
    ensures negative == ExponentNegative(s)
    ensures Saturates(exponent, ExponentMagnitude(s))
    ensures clamped && exponent > JSON_MAX_SIZE ==> exponent == JSON_MAX_SIZE + 1
  {
    hide Number, Numeral, DigitValues;
    DecimalShape(s);
    negative, exponent := false, 0;
    if mantissaEnd < |s| {
      var pos := mantissaEnd + 1;
      if IsSign(s[pos]) {
        negative := s[pos] == MINUS;
        pos := pos + 1;
      }
      PowZero();
      assert DigitValues(s, pos, pos) == [];
      while pos < |s|
        invariant ExponentStart(s) <= pos <= |s|
        invariant Saturates(exponent, Numeral(DigitValues(s, ExponentStart(s), pos)))
        invariant clamped && exponent > JSON_MAX_SIZE ==> exponent == JSON_MAX_SIZE + 1
      {
        var digit := s[pos] - ZERO;
        ExponentPrefix(s, pos);
        if exponent <= JSON_MAX_SIZE {
          if !clamped {
            exponent := exponent * 10 + digit;
          } else if exponent > JSON_MAX_SIZE / 10 || exponent * 10 + digit > JSON_MAX_SIZE {
            exponent := JSON_MAX_SIZE + 1;
          } else {
            exponent := exponent * 10 + digit;
          }
        }
        pos := pos + 1;
      }
    }
  }

  /** How many digits at the end of the mantissa have to be zero. */
  function RequiredZeros(negative: bool, exponent: nat, mantissaDigits: nat, fractionalDigits: nat): nat {
    if !negative then if exponent >= fractionalDigits then 0 else fractionalDigits - exponent
    else if exponent > JSON_MAX_SIZE || fractionalDigits + exponent > mantissaDigits then mantissaDigits
    else fractionalDigits + exponent
  }

  lemma RequiredZerosDecide(ds: seq<digit>, f: nat, e: nat, negative: bool, exponent: nat)
    requires f <= |ds| <= JSON_MAX_SIZE && Saturates(exponent, e)
    ensures var n := RequiredZeros(negative, exponent, |ds|, f);
      n <= |ds| && (Integral(Numeral(ds), ShiftOf(negative, e, f)) <==> AllZero(ds[|ds| - n..]))
  {
    hide Numeral, Pow10, Integral, AllZero;
    var shift, n := ShiftOf(negative, e, f), RequiredZeros(negative, exponent, |ds|, f);
    if shift >= 0 {
      NothingRequired(ds, shift);
      assert n == 0;
    } else if -shift <= |ds| {
      SomeRequired(ds, -shift);
      assert n == -shift;
    } else {
      AllRequired(ds, -shift);
      assert n == |ds|;
    }
  }

  lemma NothingRequired(ds: seq<digit>, shift: nat)
    ensures Integral(Numeral(ds), shift) && AllZero(ds[|ds| - 0..])
  {
    hide Numeral, Pow10;
  }

  lemma SomeRequired(ds: seq<digit>, n: int)
    requires 0 < n <= |ds|
    ensures Integral(Numeral(ds), -n) <==> AllZero(ds[|ds| - n..])
  {
    hide Numeral, Pow10, AllZero;
    TrailingZeros(ds, n);
  }

  lemma AllRequired(ds: seq<digit>, n: int)
    requires |ds| < n
    ensures Integral(Numeral(ds), -n) <==> AllZero(ds[|ds| - |ds|..])
  {
    hide Numeral, Pow10, AllZero;
    TooManyZeros(ds, n);
    assert ds[0..] == ds;
  }

  /** The backward loop of `number_is_integer`. */
  method EndsInZeros(s: Text, mantissaEnd: nat, count: nat) returns (zeros: bool)
    requires IsDecimal(s) && mantissaEnd == MantissaEnd(s) && count <= |MantissaDigits(s)|
    ensures zeros <==> AllZero(MantissaDigits(s)[|MantissaDigits(s)| - count..])
  {
    hide MantissaDigits, Number, IsDecimal;
    ghost var ds := MantissaDigits(s);
    MantissaLength(s);
    DecimalShape(s);
    var pos, remaining := mantissaEnd, count;
    while pos > 0 && remaining > 0
      invariant 0 <= remaining <= count && Start(s) <= pos <= MantissaEnd(s)
      invariant AllZero(ds[|ds| - (count - remaining)..])
      invariant remaining > 0 ==>
        |ds| - (count - remaining) == (if HasFraction(s) && pos > IntEnd(s) then pos - Start(s) - 1 else pos - Start(s))
      decreases pos
    {
      pos := pos - 1;
      var b := s[pos];
      if IsDigit(b) {
        ghost var k := |ds| - (count - remaining) - 1;
        MantissaDigitAt(s, pos);
        assert ds[k] == b - ZERO;
        assert ds[k..] == [ds[k]] + ds[k + 1..];
        if b != ZERO {
          assert ds[|ds| - count..][k - (|ds| - count)] == ds[k];
          return false;
        }
        remaining := remaining - 1;
      }
    }
    return true;
  }

  /** `number_is_integer`. */
  method NumberIsInteger(s: Text) returns (integer: bool)
    requires IsDecimal(s)
    ensures integer <==> DenotesInteger(s)
  {
    hide MantissaDigits, Number, Integral, Numeral, ExponentMagnitude, Pow10, AllZero, RequiredZeros, ShiftOf;
    var mantissaEnd, mantissaDigits, fractionalDigits := ScanMantissa(s);
    var negative, exponent := ScanExponent(s, mantissaEnd, false);
    MantissaLength(s);
    ghost var ds := MantissaDigits(s);
    RequiredZerosDecide(ds, fractionalDigits, ExponentMagnitude(s), negative, exponent);
    var remaining := CountRequiredZeros(negative, exponent, mantissaDigits, fractionalDigits);
    integer := EndsInZeros(s, mantissaEnd, remaining);
  }

  /** The scale of `number_is_integer`; 0 where the source returns at once. */
  method CountRequiredZeros(negative: bool, exponent: nat, mantissaDigits: nat, fractionalDigits: nat) returns (count: nat)
    requires fractionalDigits <= mantissaDigits
    ensures count == RequiredZeros(negative, exponent, mantissaDigits, fractionalDigits)
  {
    var scale;
    if !negative {
      if exponent >= fractionalDigits {
        return 0;
      }
      scale := fractionalDigits - exponent;
    } else if exponent > JSON_MAX_SIZE {
      scale := mantissaDigits;
    } else {
      scale := fractionalDigits + exponent;
      if scale > mantissaDigits {
        scale := mantissaDigits;
      }
    }
    return if scale < mantissaDigits then scale else mantissaDigits;
  }

  // ---------------------------------------------------------------- the exact value

  datatype ExactInteger = ExactInteger(magnitude: u32, negative: bool, aboveMaximum: bool)

  /** The digits that are kept and the zeros that are appended, with the saturated exponent. */
  function KeptDigits(negative: bool, exponent: nat, mantissaDigits: nat, fractionalDigits: nat): nat {
    var scale := if exponent > JSON_MAX_SIZE then mantissaDigits else fractionalDigits + exponent;
    if negative then if scale >= mantissaDigits then 0 else mantissaDigits - scale
    else if exponent >= fractionalDigits || fractionalDigits - exponent > mantissaDigits then mantissaDigits
    else mantissaDigits - (fractionalDigits - exponent)
  }

  function AppendedZeros(negative: bool, exponent: nat, fractionalDigits: nat): nat {
    if !negative && exponent >= fractionalDigits then exponent - fractionalDigits else 0
  }

  /** The exponent as the clamped counter holds it. */
  function Clamped(exponent: nat): nat {
    if exponent <= JSON_MAX_SIZE then exponent else JSON_MAX_SIZE + 1
  }

  /** What the two loops compute when nothing exceeds the maximum. */
  function ComputedFrom(ds: seq<digit>, f: nat, e: nat, negative: bool): nat {
    hide Pow10;
    var kept := KeptDigits(negative, Clamped(e), |ds|, f);
    Numeral(ds[..kept]) * Pow10(AppendedZeros(negative, Clamped(e), f))
  }

  function Computed(s: Text): nat
    requires IsDecimal(s)
  {
    ComputedFrom(MantissaDigits(s), FractionDigits(s), ExponentMagnitude(s), ExponentNegative(s))
  }

  lemma NumeralStep(ds: seq<digit>, k: nat)
    requires k < |ds|
    ensures Numeral(ds[..k + 1]) == 10 * Numeral(ds[..k]) + ds[k]
  {
    assert ds[..k + 1][..k] == ds[..k];
  }

  lemma {:induction false} PrefixesGrow(ds: seq<digit>, k: nat, n: nat)
    requires k <= n <= |ds|
    ensures Numeral(ds[..k]) <= Numeral(ds[..n])
    decreases n - k
  {
    if k < n {
      PrefixesGrow(ds, k, n - 1);
      NumeralStep(ds, n - 1);
    }
  }

  lemma TimesPower(m: nat, n: nat)
    ensures m * Pow10(n) >= m
    ensures n > 0 ==> m * Pow10(n) == (m * 10) * Pow10(n - 1)
  {
    if n > 0 {
      var p := Pow10(n - 1);
      assert m * (10 * p) == (m * 10) * p;
      assert m * (10 * p) >= m * 1;
    }
  }

  /** The loop over the digits that are kept. */
  method AccumulateDigits(s: Text, maximum: u32, mantissaEnd: nat, keep: nat) returns (magnitude: u32, above: bool)
    requires IsDecimal(s) && mantissaEnd == MantissaEnd(s) && keep <= |MantissaDigits(s)|
    ensures above <==> Numeral(MantissaDigits(s)[..keep]) > maximum
    ensures !above ==> magnitude == Numeral(MantissaDigits(s)[..keep])
  {
    hide Number, MantissaDigits, IsDecimal;
    ghost var ds := MantissaDigits(s);
    DecimalShape(s);
    MantissaLength(s);
    magnitude, above := 0, false;
    var consumed := 0;
    var pos := Start(s);
    while pos < mantissaEnd && consumed < keep
      invariant Start(s) <= pos <= MantissaEnd(s) && consumed <= keep
      invariant consumed == if HasFraction(s) && pos > IntEnd(s) then pos - Start(s) - 1 else pos - Start(s)
      invariant magnitude == Numeral(ds[..consumed]) && magnitude <= maximum
    {
      var b := s[pos];
      pos := pos + 1;
      if !IsDigit(b) {
        continue;
      }
      MantissaDigitAt(s, pos - 1);
      NumeralStep(ds, consumed);
      var digit := b - ZERO;
      if digit > maximum || magnitude > (maximum - digit) / 10 {
        PrefixesGrow(ds, consumed + 1, keep);
        return magnitude, true;
      }
      magnitude := magnitude * 10 + digit;
      consumed := consumed + 1;
    }
  }

  /** The loop that appends zeros. */
  method AppendZeros(start: u32, maximum: u32, zeros: nat) returns (magnitude: u32, above: bool)
    requires start <= maximum
    ensures above <==> start * Pow10(zeros) > maximum
    ensures !above ==> magnitude == start * Pow10(zeros)
  {
    magnitude, above := start, false;
    var appendZeros := zeros;
    while appendZeros > 0 && magnitude != 0
      invariant 0 <= appendZeros <= zeros && magnitude <= maximum
      invariant magnitude * Pow10(appendZeros) == start * Pow10(zeros)
      decreases appendZeros
    {
      TimesPower(magnitude, appendZeros);
      appendZeros := appendZeros - 1;
      TimesPower(magnitude * 10, appendZeros);
      if magnitude > maximum / 10 {
        return magnitude, true;
      }
      magnitude := magnitude * 10;
    }
  }

  /** How many digits to keep and zeros to append. */
  method PlanDigits(negative: bool, exponent: nat, mantissaDigits: nat, fractionalDigits: nat)
    returns (keepDigits: nat, appendZeros: nat)
    requires fractionalDigits <= mantissaDigits
    ensures keepDigits == KeptDigits(negative, exponent, mantissaDigits, fractionalDigits)
    ensures appendZeros == AppendedZeros(negative, exponent, fractionalDigits)
  {
    appendZeros := 0;
    if negative {
      var scale := if exponent > JSON_MAX_SIZE then mantissaDigits else fractionalDigits + exponent;
      keepDigits := if scale >= mantissaDigits then 0 else mantissaDigits - scale;
    } else if exponent >= fractionalDigits {
      keepDigits := mantissaDigits;
      appendZeros := exponent - fractionalDigits;
    } else {
      keepDigits := mantissaDigits - (fractionalDigits - exponent);
    }
  }

  /**
   * `exact_integer_value`; `inRange` is whether the floating-point range check passes. It fails exactly
   * if that check fails or the text denotes no integer.
   */
  method ExactIntegerValue(s: Text, maximum: u32, inRange: bool) returns (ok: bool, result: ExactInteger)
    requires IsDecimal(s)
    ensures ok <==> inRange && DenotesInteger(s)
    ensures ok ==> result.negative == IsNegative(s)
    ensures ok ==> (result.aboveMaximum <==> Computed(s) > maximum)
    ensures ok && !result.aboveMaximum ==> result.magnitude == Computed(s)
  {
    assert 0 < |s|;
    hide MantissaDigits, DenotesInteger, Number, ExponentMagnitude, IsDecimal, MantissaEnd, Numeral, Pow10;
    result := ExactInteger(0, false, false);
    if !inRange {
      return false, result;
    }
    var integer := NumberIsInteger(s);
    if !integer {
      return false, result;
    }
    var mantissaEnd, mantissaDigits, fractionalDigits := ScanMantissa(s);
    var exponentNegative, exponent := ScanExponent(s, mantissaEnd, true);
    assert exponent == Clamped(ExponentMagnitude(s));
    var keepDigits, appendZeros := PlanDigits(exponentNegative, exponent, mantissaDigits, fractionalDigits);
    TimesPower(Numeral(MantissaDigits(s)[..keepDigits]), appendZeros);
    var magnitude, above := AccumulateDigits(s, maximum, mantissaEnd, keepDigits);
    if !above {
      magnitude, above := AppendZeros(magnitude, maximum, appendZeros);
    }
    return true, ExactInteger(magnitude, s[0] == MINUS, above);
  }

  // ---------------------------------------------------------------- saturation does no harm up to 10^8

  const HUNDRED_MILLION: nat := 100000000

  lemma EightZeros()
    ensures Pow10(8) == HUNDRED_MILLION
  {
    assert Pow10(4) == 10000;
    PowAdd(4, 4);
  }

  /** A saturated exponent leaves at most 1017 digits behind the point. */
  lemma SaturationLeavesRoom(s: Text)
    requires IsDecimal(s) && ExponentMagnitude(s) > JSON_MAX_SIZE
    ensures FractionDigits(s) + 8 <= JSON_MAX_SIZE + 1
  {
    hide Number;
    DecimalShape(s);
    var ds := DigitValues(s, ExponentStart(s), |s|);
    ShortNumeral(ds);
  }

  lemma ShortNumeral(ds: seq<digit>)
    ensures |ds| < 4 ==> Numeral(ds) < 1000
  {
    if |ds| < 4 {
      TooManyZeros(ds, 3);
      assert Pow10(3) == 1000;
    }
  }

  /** Up to saturation of the exponent the computed value is the magnitude. */
  lemma ComputedIsExact(ds: seq<digit>, f: nat, e: nat, negative: bool)
    requires f <= |ds| <= JSON_MAX_SIZE && (e <= JSON_MAX_SIZE || negative)
    ensures ComputedFrom(ds, f, e, negative) == ScaleBy(Numeral(ds), ShiftOf(negative, e, f))
  {
    hide Numeral, Pow10, ScaleBy;
    var shift := ShiftOf(negative, e, f);
    DigitsAreScaled(ds, shift);
    assert KeptDigits(negative, Clamped(e), |ds|, f) == if shift >= 0 then |ds| else if -shift <= |ds| then |ds| + shift else 0;
    assert AppendedZeros(negative, Clamped(e), f) == if shift >= 0 then shift else 0;
  }

  lemma DigitsAreScaled(ds: seq<digit>, shift: int)
    ensures ScaleBy(Numeral(ds), shift) ==
      if shift >= 0 then Numeral(ds[..|ds|]) * Pow10(shift)
      else if -shift <= |ds| then Numeral(ds[..|ds| + shift]) * Pow10(0)
      else Numeral(ds[..0]) * Pow10(0)
  {
    hide Numeral, Pow10;
    assert ds[..|ds|] == ds && ds[..0] == [];
    PowZero();
    if shift < 0 {
      if -shift <= |ds| {
        TrailingZeros(ds, -shift);
      } else {
        TooManyZeros(ds, -shift);
      }
    }
  }

  /** Behind saturation both the computed value and the magnitude are 0 or at least 10^8. */
  lemma SaturatedIsLarge(ds: seq<digit>, f: nat, e: nat)
    requires f <= |ds| && f + 8 <= JSON_MAX_SIZE + 1 < e + 1
    ensures var computed, exact := ComputedFrom(ds, f, e, false), ScaleBy(Numeral(ds), ShiftOf(false, e, f));
      if Numeral(ds) == 0 then computed == 0 && exact == 0
      else computed >= HUNDRED_MILLION && exact >= HUNDRED_MILLION
  {
    hide Numeral, Pow10;
    EightZeros();
    assert ds[..|ds|] == ds;
    var zeros := JSON_MAX_SIZE + 1 - f;
    PowMonotonic(8, zeros);
    PowMonotonic(8, e - f);
    ProductFacts(Numeral(ds), Pow10(zeros));
    ProductFacts(Numeral(ds), Pow10(e - f));
  }

  lemma PowZero()
    ensures Pow10(0) == 1 && Numeral([]) == 0
  {
  }

  /**
   * The exact value: despite the saturation the code decides and computes the number that the text
   * denotes, for every maximum below 10^8. (Its callers use 1, 5, 6 and 0xFFFFFF.)
   */
  lemma ComputedDecides(s: Text, maximum: nat)
    requires IsDecimal(s) && maximum < HUNDRED_MILLION
    ensures Computed(s) > maximum <==> Magnitude(s) > maximum
    ensures Computed(s) <= maximum ==> Computed(s) == Magnitude(s)
  {
    assert |s| <= JSON_MAX_SIZE;
    hide MantissaDigits, ExponentMagnitude, IsDecimal, ExponentNegative, ComputedFrom, ScaleBy, Numeral;
    var ds, f, e := MantissaDigits(s), FractionDigits(s), ExponentMagnitude(s);
    MantissaLength(s);
    if e <= JSON_MAX_SIZE || ExponentNegative(s) {
      ComputedIsExact(ds, f, e, ExponentNegative(s));
    } else {
      SaturationLeavesRoom(s);
      SaturatedIsLarge(ds, f, e);
    }
  }

  lemma ProductFacts(m: nat, p: nat)
    requires p >= HUNDRED_MILLION
    ensures m == 0 ==> m * p == 0
    ensures m > 0 ==> m * p >= HUNDRED_MILLION
  {
    if m > 0 {
      assert m * p >= 1 * p;
    }
  }

  /** A number just below the size limit whose exponent saturates: 1017 digits behind the point, exponent 9999. */
  function Witness(): (s: Text)
    ensures |s| == JSON_MAX_SIZE
  {
    [ZERO, DOT] + seq(1016, _ => ZERO) + [0x31, LOWER_E, NINE, NINE, NINE, NINE]
  }

  lemma WitnessShape()
    ensures var s := Witness();
      IsDecimal(s) && IntEnd(s) == 1 && MantissaEnd(s) == 1019 && ExponentStart(s) == 1020 && !ExponentNegative(s)
  {
    var s := Witness();
    DigitRunEnds(s, 0, 1);
    DigitRunEnds(s, 2, 1019);
    DigitRunEnds(s, 1020, 1024);
    assert FractionPart(s, 1) == Complete(1019);
    assert ExponentPart(s, 1019) == Complete(1024);
  }

  lemma WitnessNumber()
    ensures var s := Witness();
      IsDecimal(s) && MantissaEnd(s) < |s|
      && Mantissa(s) == 1 && FractionDigits(s) == 1017 && ExponentMagnitude(s) == 9999 && |MantissaDigits(s)| == 1018
  {
    hide Number, SkipDigits, Numeral;
    var s := Witness();
    WitnessShape();
    DecimalShape(s);
    var ds := MantissaDigits(s);
    NumeralSplit(ds, 1017);
    NumeralZero(ds[..1017]);
    assert AllZero(ds[..1017]);
    assert ds[1017..] == [1];
    FourNines(DigitValues(s, 1020, 1024));
    OneDigit();
  }

  lemma OneDigit()
    ensures Numeral([1]) == 1
  {
    assert [1][..0] == [];
  }

  lemma FourNines(ds: seq<digit>)
    requires |ds| == 4 && forall i :: 0 <= i < 4 ==> ds[i] == 9
    ensures Numeral(ds) == 9999
  {
    assert ds[..3][..2] == ds[..2] && ds[..2][..1] == ds[..1] && ds[..1][..0] == [];
    assert Numeral(ds[..1]) == 9;
    assert Numeral(ds[..2]) == 99;
    assert Numeral(ds[..3]) == 999;
  }

  /** From 10^8 on there is a number of at most 1024 octets whose saturated value passes for smaller than it is. */
  lemma SaturationIsVisible(maximum: nat)
    requires HUNDRED_MILLION <= maximum < U32
    ensures exists s :: IsDecimal(s) && DenotesInteger(s) && Computed(s) <= maximum < Magnitude(s)
  {
    hide IsDecimal, MantissaDigits, ExponentMagnitude, ExponentNegative, Numeral, Pow10, Witness;
    var s := Witness();
    WitnessShape();
    WitnessNumber();
    EightZeros();
    var ds := MantissaDigits(s);
    assert ds[..|ds|] == ds;
    assert Computed(s) == Pow10(8);
    assert Magnitude(s) == Pow10(8982);
    PowAdd(8, 8);
    PowMonotonic(16, 8982);
  }

  /** The exact range of maxima for which saturation is harmless, over all numbers. */
  lemma ExactnessDecided(maximum: nat)
    requires maximum < U32
    ensures maximum < HUNDRED_MILLION <==>
      forall s :: IsDecimal(s) && DenotesInteger(s) ==>
        (Computed(s) > maximum <==> Magnitude(s) > maximum) && (Computed(s) <= maximum ==> Computed(s) == Magnitude(s))
  {
    if maximum < HUNDRED_MILLION {
      forall s | IsDecimal(s) && DenotesInteger(s)
        ensures (Computed(s) > maximum <==> Magnitude(s) > maximum) && (Computed(s) <= maximum ==> Computed(s) == Magnitude(s))
      {
        ComputedDecides(s, maximum);
      }
    } else {
      SaturationIsVisible(maximum);
    }
  }

  // ---------------------------------------------------------------- callers

  /** The integer that a decimal denotes. */
  function Denoted(s: Text): int
    requires IsDecimal(s)
  {
    var m: int := Magnitude(s);
    if IsNegative(s) then -m else m
  }

  /** `bounded_integer`, for the bounds its callers pass. */
  method BoundedInteger(s: Text, minimum: int, maximum: u32, inRange: bool) returns (ok: bool, result: int)
    requires IsDecimal(s) && 0 <= minimum <= maximum < HUNDRED_MILLION
    ensures ok <==> inRange && DenotesInteger(s) && minimum <= Denoted(s) <= maximum
    ensures ok ==> result == Denoted(s)
  {
    hide IsDecimal, DenotesInteger, Computed, Magnitude;
    ComputedDecides(s, maximum);
    var exact;
    ok, exact := ExactIntegerValue(s, maximum, inRange);
    if !ok || exact.aboveMaximum {
      return false, 0;
    }
    var integer: int := exact.magnitude;
    if exact.negative {
      integer := -integer;
    }
    if integer < minimum || integer > maximum {
      return false, 0;
    }
    return true, integer;
  }

  const WHITE: u32 := 0xFFFFFF

  function Clamp(x: int, lo: int, hi: int): int
    requires lo <= hi
  {
    if x < lo then lo else if x > hi then hi else x
  }

  /** The colour field of a zone: the number clamped to 24 bits. */
  method ParseColor(s: Text, inRange: bool) returns (ok: bool, color: u32)
    requires IsDecimal(s)
    ensures ok <==> inRange && DenotesInteger(s)
    ensures ok ==> color == Clamp(Denoted(s), 0, WHITE)
  {
    hide IsDecimal, DenotesInteger, Computed, Magnitude;
    ComputedDecides(s, WHITE);
    var exact;
    ok, exact := ExactIntegerValue(s, WHITE, inRange);
    color := if exact.negative then 0 else if exact.aboveMaximum then WHITE else exact.magnitude;
  }
}
