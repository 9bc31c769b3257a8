/**
 The conversions of PB_CONVERT_DOUBLE_FLOAT builds (pb_decode_double_as_float and
 pb_encode_float_as_double) on the bit patterns of IEEE 754 binary64 and binary32.
 Magnitudes are exact: integers in units of 2^-1074, the smallest binary64 step.
 */
module DoubleFloat {
  import opened Wire

  const P23: nat := 0x80_0000
  const P24: nat := 0x100_0000
  const P28: nat := 0x1000_0000
  const P29: nat := 0x2000_0000
  const P31: nat := 0x8000_0000
  const P52: nat := 0x10_0000_0000_0000
  const P63: nat := 0x8000_0000_0000_0000

  /** The pattern of infinity; patterns above it, up to 2^31, are NaNs. */
  const INFINITY: nat := 0x7F80_0000

  /* ------------------------------------------------------------ magnitudes */

  /** A finite double's magnitude. */
  ghost function DoubleMagnitude(exponent: nat, fraction: nat): nat
  {
    if exponent == 0 then fraction else (P52 + fraction) * Pow2(exponent - 1)
  }

  /** A float's magnitude by its pattern without the sign; infinity counts as 2^128, one step above the largest. */
  ghost function FloatMagnitude(k: nat): nat
  {
    var e, m := k / P23, k % P23;
    (if e == 0 then m else P23 + m) * Step(e)
  }

  /** The distance between neighbouring floats of exponent e. */
  ghost function Step(e: nat): (u: nat)
    ensures u >= 1
  {
    Pow2(924 + (if e == 0 then 1 else e))
  }

  /** Between two neighbouring floats the nearer is taken, and half-way the one further from zero. */
  ghost predicate RoundsTo(d: nat, k: nat)
  {
    && k <= INFINITY
    && (k < INFINITY ==> 2 * d < FloatMagnitude(k) + FloatMagnitude(k + 1))
    && (k > 0 ==> 2 * d >= FloatMagnitude(k - 1) + FloatMagnitude(k))
  }

  /* ---------------------------------------------------------------- powers */

  lemma {:induction false} PowSum(a: nat, b: nat)
    ensures Pow2(a + b) == Pow2(a) * Pow2(b)
  {
    if a == 0 {
    } else {
      PowSum(a - 1, b);
      assert 2 * (Pow2(a - 1) * Pow2(b)) == 2 * Pow2(a - 1) * Pow2(b);
    }
  }

  lemma {:induction false} PowMonotone(a: nat, b: nat)
    requires a <= b
    ensures Pow2(a) <= Pow2(b)
  {
    if a == b {
    } else {
      PowMonotone(a, b - 1);
    }
  }

  lemma PowFacts()
    ensures Pow2(1) == 2 && Pow2(4) == 16 && Pow2(23) == P23 && Pow2(24) == P24 && Pow2(28) == P28 && Pow2(29) == P29
          && Pow2(52) == P52
  {
    assert Pow2(2) == 4 && Pow2(4) == 4 * Pow2(2);
    PowSum(4, 4);
    PowSum(8, 8);
    PowSum(16, 4);
    PowSum(20, 2);
    PowSum(22, 1);
    PowSum(23, 1);
    PowSum(24, 4);
    PowSum(28, 1);
    PowSum(24, 28);
  }

  lemma Scale(a: int, b: int, w: nat)
    requires w >= 1
    ensures a <= b ==> a * w <= b * w
    ensures a < b ==> a * w < b * w
  {
    assert b * w - a * w == (b - a) * w;
    if a < b { MulAtLeast(b - a, w); }
  }

  /* ---------------------------------------------------- floats in order */

  lemma StepUp(e: nat)
    ensures Step(e + 1) == if e == 0 then Step(e) else 2 * Step(e)
  {
    assert e > 0 ==> Pow2(e + 925) == 2 * Pow2(e + 924);
  }

  /** The formula of a binade also gives its upper end. */
  lemma BinadeMagnitude(e: nat, q: nat)
    requires q <= P23
    ensures FloatMagnitude(e * P23 + q) == (if e == 0 then q else P23 + q) * Step(e)
  {
    hide Step;
    if q < P23 {
      DivModUnique(e * P23 + q, e, P23, q);
    } else {
      DivModUnique(e * P23 + q, e + 1, P23, 0);
      StepUp(e);
      assert P23 * (2 * Step(e)) == (P23 + P23) * Step(e);
    }
  }

  /** The next float is at least a step away, within the binade exactly one. */
  lemma NextFloat(e: nat, q: nat)
    requires q <= P23
    ensures FloatMagnitude(e * P23 + q + 1) >= FloatMagnitude(e * P23 + q) + Step(e)
    ensures q < P23 ==> FloatMagnitude(e * P23 + q + 1) == FloatMagnitude(e * P23 + q) + Step(e)
  {
    hide Step, FloatMagnitude;
    var a := if e == 0 then q else P23 + q;
    BinadeMagnitude(e, q);
    assert (a + 1) * Step(e) == a * Step(e) + Step(e);
    if q < P23 {
      BinadeMagnitude(e, q + 1);
    } else {
      assert (e + 1) * P23 + 1 == e * P23 + q + 1;
      BinadeMagnitude(e + 1, 1);
      StepUp(e);
      assert (P23 + 1) * (2 * Step(e)) == (P23 + P23 + 1) * Step(e) + Step(e);
    }
  }

  lemma {:induction false} FloatsIncrease(k: nat, n: nat)
    requires k <= n
    ensures FloatMagnitude(k) <= FloatMagnitude(n) && (k < n ==> FloatMagnitude(k) < FloatMagnitude(n))
    decreases n
  {
    hide FloatMagnitude;
    if k == n {
    } else {
      FloatsIncrease(k, n - 1);
      NextFloat((n - 1) / P23, (n - 1) % P23);
    }
  }

  /** The rounding is unique. */
  lemma RoundingUnique(d: nat, k: nat, n: nat)
    requires RoundsTo(d, k) && RoundsTo(d, n)
    ensures k == n
  {
    if k < n { RoundingOrdered(d, k, n); }
    if n < k { RoundingOrdered(d, n, k); }
  }

  lemma RoundingOrdered(d: nat, k: nat, n: nat)
    requires RoundsTo(d, k) && RoundsTo(d, n)
    ensures k >= n
  {
    hide FloatMagnitude;
    if k < n {
      FloatsIncrease(k, n - 1);
      FloatsIncrease(k + 1, n);
    }
  }

  function Distance(a: int, b: int): nat { if a < b then b - a else a - b }

  /** It is to nearest, ties away from zero: roundTiesToAway of section 4.3.1 of IEEE 754-2008. */
  lemma RoundingIsNearest(d: nat, k: nat, n: nat)
    requires RoundsTo(d, k) && n <= INFINITY && d <= FloatMagnitude(INFINITY)
    ensures Distance(d, FloatMagnitude(k)) <= Distance(d, FloatMagnitude(n))
    ensures Distance(d, FloatMagnitude(k)) == Distance(d, FloatMagnitude(n)) ==> n <= k
  {
    if n < k {
      FloatsIncrease(n, k - 1);
      FloatsIncrease(k - 1, k);
    } else if n > k {
      FloatsIncrease(k + 1, n);
      FloatsIncrease(k, k + 1);
    }
  }

  /* ------------------------------------------------------------- narrowing */

  /** A multiple of the step between the midpoints around q rounds to q. */
  lemma MidpointsRound(d: nat, e: nat, q: nat)
    requires q <= P23 && e <= 254 && e * P23 + q <= INFINITY
    requires var a := if e == 0 then q else P23 + q; (2 * a - 1) * Step(e) <= 2 * d < (2 * a + 1) * Step(e)
    requires q == 0 && e > 0 ==> d >= P23 * Step(e)
    ensures RoundsTo(d, e * P23 + q)
  {
    hide Step, FloatMagnitude;
    var a, k := if e == 0 then q else P23 + q, e * P23 + q;
    BinadeMagnitude(e, q);
    NextFloat(e, q);
    assert (2 * a - 1) * Step(e) == 2 * (a * Step(e)) - Step(e) && (2 * a + 1) * Step(e) == 2 * (a * Step(e)) + Step(e);
    if q > 0 {
      NextFloat(e, q - 1);
    } else if e > 0 {
      FloatsIncrease(k - 1, k);
    }
  }

  /** A fraction of which 24 bits are kept, rounded to 23. */
  lemma RoundedFraction(fraction: nat, q: nat)
    requires q == (fraction / P28 + 1) / 2
    ensures (2 * q - 1) * P28 <= fraction < (2 * q + 1) * P28
  {
  }

  lemma NormalStep(e: nat)
    requires e >= 1
    ensures Step(e) == P29 * Pow2(e + 895)
  {
    hide Pow2;
    PowFacts();
    PowSum(29, e + 895);
  }

  /** Midpoints of a significand, scaled. */
  lemma MidpointsScaled(a: nat, significand: nat, w: nat)
    requires w >= 1 && (2 * a - 1) * P28 <= significand < (2 * a + 1) * P28
    ensures (2 * a - 1) * (P29 * w) <= 2 * (significand * w) < (2 * a + 1) * (P29 * w)
  {
    Scale((2 * a - 1) * P28, significand, w);
    Scale(significand, (2 * a + 1) * P28, w);
    Regroup(2 * a - 1, 1, w);
    Regroup(2 * a + 1, 1, w);
  }

  lemma NormalRounds(exponent: nat, fraction: nat)
    requires 897 <= exponent <= 1150 && fraction < P52
    ensures RoundsTo(DoubleMagnitude(exponent, fraction), (exponent - 896) * P23 + (fraction / P28 + 1) / 2)
  {
    hide Pow2, RoundsTo, Step;
    var e, q, w := exponent - 896, (fraction / P28 + 1) / 2, Pow2(exponent - 1);
    RoundedFraction(fraction, q);
    NormalStep(e);
    MidpointsScaled(P23 + q, P52 + fraction, w);
    Scale(e, 254, P23);
    Scale(P52, P52 + fraction, w);
    assert P23 * (P29 * w) == P52 * w;
    MidpointsRound((P52 + fraction) * w, e, q);
  }

  /** The significand shifted down to a subnormal and rounded. */
  lemma ShiftedRounds(significand: nat, p: nat, q: nat)
    requires p >= 1 && q == (significand / P28 / p + 1) / 2
    ensures (2 * q - 1) * (P28 * p) <= significand < (2 * q + 1) * (P28 * p)
  {
    var top := significand / P28;
    var m := top / p;
    assert top == m * p + top % p;
    Scale(2 * q - 1, m, p);
    Scale(m + 1, 2 * q + 1, p);
    assert (m + 1) * p == m * p + p;
    Scale((2 * q - 1) * p, top, P28);
    Scale(top + 1, (2 * q + 1) * p, P28);
    assert (2 * q - 1) * (P28 * p) == (2 * q - 1) * p * P28 && (2 * q + 1) * (P28 * p) == (2 * q + 1) * p * P28;
  }

  lemma SubnormalStep(s: nat)
    requires s <= 896
    ensures Step(0) == P29 * Pow2(s) * Pow2(896 - s)
  {
    hide Pow2;
    PowFacts();
    PowSum(29 + s, 896 - s);
    PowSum(29, s);
  }

  lemma SubnormalRounds(exponent: nat, fraction: nat)
    requires 873 <= exponent <= 896 && fraction < P52
    ensures ((P52 + fraction) / P28 / Pow2(897 - exponent) + 1) / 2 <= P23
    ensures RoundsTo(DoubleMagnitude(exponent, fraction), ((P52 + fraction) / P28 / Pow2(897 - exponent) + 1) / 2)
  {
    hide Step, Pow2, RoundsTo;
    var s, p, w := 897 - exponent, Pow2(897 - exponent), Pow2(exponent - 1);
    var sig := P52 + fraction;
    var q := (sig / P28 / p + 1) / 2;
    ShiftedRounds(sig, p, q);
    SubnormalStep(s);
    PowFacts();
    PowMonotone(1, s);
    Halved(sig / P28, p);
    Regroup(2 * q - 1, p, w);
    Regroup(2 * q + 1, p, w);
    Scale((2 * q - 1) * (P28 * p), sig, w);
    Scale(sig, (2 * q + 1) * (P28 * p), w);
    assert 0 * P23 + q == q;
    MidpointsRound(sig * w, 0, q);
  }

  lemma Regroup(a: int, p: nat, w: nat)
    ensures a * (P29 * p * w) == 2 * (a * (P28 * p) * w)
  {
    assert P29 * p == 2 * (P28 * p);
    assert a * (2 * (P28 * p) * w) == 2 * (a * (P28 * p) * w) by { assert 2 * (P28 * p) * w == 2 * (P28 * p * w); }
  }

  lemma Halved(top: nat, p: nat)
    requires p >= 2 && top < 2 * P24
    ensures (top / p + 1) / 2 <= P23
  {
    var m := top / p;
    assert top == m * p + top % p;
    Scale(P24, m, p);
    Scale(2, p, P24);
  }

  /** Below 2^-150 a magnitude is less than half the smallest float. */
  lemma TinyRounds(exponent: nat, fraction: nat)
    requires exponent <= 872 && fraction < P52
    ensures RoundsTo(DoubleMagnitude(exponent, fraction), 0)
  {
    hide Pow2;
    var significand := if exponent == 0 then fraction else P52 + fraction;
    var p := if exponent == 0 then Pow2(0) else Pow2(exponent - 1);
    TinyPowers();
    PowMonotone(if exponent == 0 then 0 else exponent - 1, 871);
    Scale(p, Pow2(871), significand + 1);
    Scale(significand, 2 * P52, p);
    Scale(p, Pow2(871), 2 * P52);
    BinadeMagnitude(0, 0);
    BinadeMagnitude(0, 1);
  }

  lemma TinyPowers()
    ensures Pow2(0) == 1 && 4 * P52 * Pow2(871) == Pow2(925)
  {
    PowZero();
    hide Pow2;
    PowFacts();
    PowSum(54, 871);
    PowSum(52, 2);
    PowSum(1, 1);
  }

  lemma PowZero()
    ensures Pow2(0) == 1
  {
  }

  lemma HugePowers()
    ensures P23 * Pow2(1179) == P52 * Pow2(1150)
  {
    hide Pow2;
    PowFacts();
    PowSum(23, 1179);
    PowSum(52, 1150);
  }

  lemma HugeRounds(exponent: nat, fraction: nat)
    requires exponent >= 1151
    ensures RoundsTo(DoubleMagnitude(exponent, fraction), INFINITY)
  {
    hide FloatMagnitude, Pow2;
    HugePowers();
    PowMonotone(1150, exponent - 1);
    BinadeMagnitude(255, 0);
    assert 255 * P23 + 0 == INFINITY;
    Scale(Pow2(1150), Pow2(exponent - 1), P52 + fraction);
    Scale(P52, P52 + fraction, Pow2(1150));
    FloatsIncrease(INFINITY - 1, INFINITY);
  }

  /** out is the float pattern that stands for the double pattern value. */
  ghost predicate Narrows(value: nat, out: nat)
  {
    var exponent, fraction := value / P52 % 0x800, value % P52;
    && out / P31 == value / P63
    && if exponent < 0x7FF then RoundsTo(DoubleMagnitude(exponent, fraction), out % P31)
       else out % P31 == INFINITY + fraction / P29
  }

  lemma Fields(high: nat, mid: nat, low: nat, m: nat, n: nat)
    requires low < m && mid < n
    ensures var v := low + mid * m + high * (m * n);
            v / (m * n) == high && v / m % n == mid && v % m == low && v % (m * n) == low + mid * m
  {
    var v := low + mid * m + high * (m * n);
    Scale(mid + 1, n, m);
    assert (mid + 1) * m == mid * m + m && n * m == m * n;
    DivModUnique(v, high, m * n, low + mid * m);
    assert v == (mid + high * n) * m + low by { assert (mid + high * n) * m == mid * m + high * (m * n); }
    DivModUnique(v, mid + high * n, m, low);
    DivModUnique(mid + high * n, high, n, mid);
  }

  lemma DoubleFields(value: nat)
    requires value < U64
    ensures value / P63 < 2 && value % P52 < P52
    ensures value / P28 % P24 == value % P52 / P28
    ensures (P52 + value % P52) / P28 == P24 + value % P52 / P28
  {
  }

  /** Rounding up to 2.0 in steps of 2^-23 carries into the exponent. */
  lemma Carried(q: nat)
    requires q <= P23
    ensures if q / P23 % 2 == 1 then q == P23 && q % P23 / 2 == 0 else q < P23
  {
  }

  /** The conversion in pb_decode_double_as_float, on bit patterns. */
  method NarrowDouble(value: nat) returns (out: nat)
    requires value < U64
    ensures out < U32 && Narrows(value, out)
  {
    hide RoundsTo, DoubleMagnitude, Pow2;
    DoubleFields(value);
    var sign := value / P63 % 2;
    var exponent, mantissa := NarrowFields(value / P52 % 0x800, value / P28 % P24, value % P52);
    out := mantissa + (exponent + 127) * P23 + sign * P31;
    Fields(sign, exponent + 127, mantissa, P23, 0x100);
  }

  /** Its exponent and mantissa, from the exponent and the 24 highest bits of the fraction. */
  method NarrowFields(biased: nat, mantissa0: nat, ghost fraction: nat) returns (exponent: int, mantissa: nat)
    requires biased < 0x800 && fraction < P52 && mantissa0 == fraction / P28 < P24
    ensures 0 <= exponent + 127 < 0x100 && mantissa < P23
    ensures var k := mantissa + (exponent + 127) * P23;
            if biased < 0x7FF then RoundsTo(DoubleMagnitude(biased, fraction), k) else k == INFINITY + fraction / P29
  {
    hide RoundsTo, DoubleMagnitude, Pow2;
    exponent, mantissa := biased - 1023, mantissa0;
    if exponent == 1024 {
      exponent := 128;
      mantissa := mantissa / 2;
    } else {
      if exponent > 127 {
        HugeRounds(biased, fraction);
        exponent, mantissa := 128, 0;
      } else if exponent < -150 {
        TinyRounds(biased, fraction);
        exponent, mantissa := -127, 0;
      } else if exponent < -126 {
        SubnormalRounds(biased, fraction);
        assert (P52 + fraction) / P28 == P24 + mantissa;
        mantissa := (mantissa + P24) / Pow2(-126 - exponent);
        exponent := -127;
      } else {
        NormalRounds(biased, fraction);
      }
      mantissa := (mantissa + 1) / 2;
      Carried(mantissa);
      if mantissa / P23 % 2 == 1 {
        exponent := exponent + 1;
        mantissa := mantissa % P23;
        mantissa := mantissa / 2;
      }
    }
  }

  /** A NaN stays one exactly when one of its 23 highest fraction bits is set; otherwise it becomes infinity. */
  lemma NanSurvivesIff(value: nat, out: nat)
    requires Narrows(value, out) && value / P52 % 0x800 == 0x7FF && value % P52 != 0
    ensures out % P31 > INFINITY <==> value % P52 >= P29
    ensures out % P31 >= INFINITY
  {
  }

  /** A NaN that does not: with only the lowest fraction bit set it comes back as infinity. */
  lemma LowNanIsLost(out: nat)
    requires out < U32
    ensures Narrows(0x7FF0_0000_0000_0001, out) <==> out == INFINITY
  {
    var value := 0x7FF0_0000_0000_0001;
    assert value / P52 == 0x7FF && value % P52 == 1 && value / P63 == 0;
    assert P31 == 0x8000_0000 && out / P31 < 2;
  }

  /** For every double that is not a NaN the result is the float nearest to it, ties away from zero. */
  lemma NarrowsNearest(value: nat, out: nat, n: nat)
    requires Narrows(value, out) && value / P52 % 0x800 < 0x7FF && n <= INFINITY
    ensures var d, r := DoubleMagnitude(value / P52 % 0x800, value % P52), FloatMagnitude(out % P31);
            && (d >= FloatMagnitude(INFINITY) ==> out % P31 == INFINITY)
            && (d <= FloatMagnitude(INFINITY) ==>
                  Distance(d, r) <= Distance(d, FloatMagnitude(n))
                  && (Distance(d, r) == Distance(d, FloatMagnitude(n)) ==> n <= out % P31))
  {
    hide FloatMagnitude, DoubleMagnitude;
    var d, k := DoubleMagnitude(value / P52 % 0x800, value % P52), out % P31;
    if d <= FloatMagnitude(INFINITY) { RoundingIsNearest(d, k, n); }
    FloatsIncrease(k, INFINITY);
    if k < INFINITY { FloatsIncrease(k + 1, INFINITY); }
  }

  /* -------------------------------------------------------------- widening */

  /** out is the double pattern with the value of the float pattern i. */
  ghost predicate Widens(i: nat, out: nat)
  {
    var exponent, fraction, k := out / P52 % 0x800, out % P52, i % P31;
    && out / P63 == i / P31
    && if k < INFINITY then exponent < 0x7FF && DoubleMagnitude(exponent, fraction) == FloatMagnitude(k)
       else exponent == 0x7FF && fraction == (k - INFINITY) * P29
  }

  lemma FloatFields(i: nat)
    requires i < U32
    ensures i / P31 < 2 && i / P23 % 0x100 == i % P31 / P23 && i % P23 == i % P31 % P23
    ensures i % P31 == i / P23 % 0x100 * P23 + i % P23
  {
  }

  /** The conversion in pb_encode_float_as_double, on bit patterns. */
  method WidenFloat(i: nat) returns (out: nat)
    requires i < U32
    ensures out < U64 && Widens(i, out)
  {
    hide DoubleMagnitude, FloatMagnitude, Pow2;
    FloatFields(i);
    var sign := i / P31 % 2;
    var exponent, mantissa := WidenFields(i / P23 % 0x100, i % P23);
    out := mantissa * P29 + (exponent + 1023) * P52 + sign * P63;
    Fields(sign, exponent + 1023, mantissa * P29, P52, 0x800);
  }

  lemma ZeroMagnitude()
    ensures DoubleMagnitude(0, 0) == 0 && 0 * Step(0) == 0
  {
  }

  lemma PowNext(n: nat)
    ensures Pow2(n + 1) == 2 * Pow2(n)
  {
  }

  /** A significand of 24 bits in a double of exponent e. */
  lemma WidenedMagnitude(significand: nat, e: nat)
    requires P23 <= significand < P24 && e >= 1
    ensures DoubleMagnitude(e, (significand - P23) * P29) == significand * Pow2(e + 28)
  {
    hide Pow2;
    PowFacts();
    PowSum(29, e - 1);
    assert significand * (P29 * Pow2(e - 1)) == significand * P29 * Pow2(e - 1);
  }

  /** Doubling the mantissa and lowering the exponent changes nothing, and cannot go on for long. */
  lemma WidenStep(mantissa: nat, a: nat, b: nat)
    requires Pow2(a) <= mantissa < P23
    ensures a < 23 && Pow2(a + 1) <= mantissa * 2 && mantissa * 2 * Pow2(b) == mantissa * Pow2(b + 1)
  {
    PowNext(a);
    PowNext(b);
    hide Pow2;
    PowFacts();
    if a >= 23 { PowMonotone(23, a); }
    assert mantissa * (2 * Pow2(b)) == mantissa * 2 * Pow2(b);
  }

  lemma StepPower(e: nat)
    ensures Step(e) == if e == 0 then Pow2(925) else Pow2(e + 924)
  {
  }

  method WidenFields(biased: nat, mantissa0: nat) returns (exponent: int, mantissa: nat)
    requires biased < 0x100 && mantissa0 < P23
    ensures 0 <= exponent + 1023 < 0x800 && mantissa < P23
    ensures if biased < 0xFF then
              exponent < 1024 && DoubleMagnitude(exponent + 1023,
                  mantissa * P29) == FloatMagnitude(biased * P23 + mantissa0)
            else exponent == 1024 && mantissa == mantissa0
  {
    hide DoubleMagnitude, FloatMagnitude, Pow2, Step;
    exponent, mantissa := biased - 127, mantissa0;
    BinadeMagnitude(biased, mantissa0);
    StepPower(biased);
    if exponent == 128 {
      exponent := 1024;
    } else if exponent == -127 {
      if mantissa == 0 {
        exponent := -1023;
        ZeroMagnitude();
      } else {
        mantissa := mantissa * 2;
        PowFacts();
        PowNext(924);
        assert mantissa * Pow2(924) == mantissa0 * (2 * Pow2(924));
        while mantissa / P23 % 2 == 0
          invariant 0 < mantissa < P24 && -1023 < exponent <= -127
          invariant mantissa >= Pow2(-126 - exponent)
          invariant mantissa * Pow2(exponent + 1051) == mantissa0 * Pow2(925)
          decreases exponent + 1023
        {
          WidenStep(mantissa, -126 - exponent, exponent + 1050);
          mantissa := mantissa * 2;
          exponent := exponent - 1;
        }
        WidenedMagnitude(mantissa, exponent + 1023);
        mantissa := mantissa % P23;
      }
    } else {
      WidenedMagnitude(P23 + mantissa, exponent + 1023);
    }
  }

  lemma ExactRounds(k: nat)
    requires k < INFINITY
    ensures RoundsTo(FloatMagnitude(k), k)
  {
    hide FloatMagnitude;
    FloatsIncrease(k, k + 1);
    if k > 0 { FloatsIncrease(k - 1, k); }
  }

  /** Narrowing inverts widening on every 32-bit pattern, NaNs included. */
  lemma NarrowInvertsWiden(i: nat, d: nat, out: nat)
    requires i < U32
    ensures Widens(i, d) && Narrows(d, out) ==> out == i
  {
    hide RoundsTo, FloatMagnitude, DoubleMagnitude;
    var k := i % P31;
    if k < INFINITY && Widens(i, d) && Narrows(d, out) {
      ExactRounds(k);
      RoundingUnique(FloatMagnitude(k), k, out % P31);
    }
    assert out == out / P31 * P31 + out % P31 && i == i / P31 * P31 + i % P31;
  }
}
