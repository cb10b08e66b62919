/** Integers written as doubles keep their value. */
module Amf3Doubles {
  import opened Bytes
  import opened Amf3Model

  const SIGN := 0x8000_0000_0000_0000
  const ONE := 0x10_0000_0000_0000
  const BIAS := 1023

  lemma {:induction false} Powers(a: nat, b: nat)
    ensures Pow2(a + b) == Pow2(a) * Pow2(b)
  {
    if b > 0 {
      Powers(a, b - 1);
      assert Pow2(a + b) == 2 * Pow2(a + (b - 1));
    }
  }

  lemma {:induction false} PowersGrow(a: nat, b: nat)
    requires a <= b
    ensures Pow2(a) <= Pow2(b)
  {
    if a < b {
      PowersGrow(a, b - 1);
    }
  }

  lemma Pow52()
    ensures Pow2(32) == U32_MOD && Pow2(52) == ONE
  {
    assert Pow2(8) == 256;
    Powers(8, 8);
    Powers(16, 16);
    Powers(4, 16);
    Powers(20, 32);
  }

  /** The exponent brackets the number. */
  lemma {:induction false} ExponentBrackets(mag: nat, e: nat)
    requires mag > 0
    ensures var r := Exponent(mag, e) - e;
            r >= 0 && Pow2(r) <= mag < 2 * Pow2(r)
    decreases mag
  {
    if mag > 1 {
      ExponentBrackets(mag / 2, e + 1);
      var r := Exponent(mag / 2, e + 1) - (e + 1);
      assert Pow2(r + 1) == 2 * Pow2(r);
    }
  }

  lemma SmallExponent(mag: nat, e: nat)
    requires Pow2(e) <= mag < U32_MOD
    ensures e < 32
  {
    Pow52();
    if e >= 32 {
      PowersGrow(32, e);
    }
  }

  /** A number scaled up to 53 bits. */
  lemma ScaledUp(mag: nat, e: nat)
    requires e < 32 && Pow2(e) <= mag < 2 * Pow2(e)
    ensures var m := mag * Pow2(52 - e);
            ONE <= m < 2 * ONE && m * Pow2(e) == mag * ONE
  {
    Pow52();
    Powers(e, 52 - e);
    hide Pow2;
    Products(mag, Pow2(e), Pow2(52 - e));
  }

  lemma Products(mag: nat, p: nat, q: nat)
    requires p <= mag < 2 * p
    ensures p * q <= mag * q && mag * q <= 2 * (p * q) && (mag * q) * p == mag * (p * q)
    ensures q > 0 ==> mag * q < 2 * (p * q)
  {
    assert mag * q == p * q + (mag - p) * q;
    assert (mag * q) * p == mag * (p * q);
    assert 2 * (p * q) == mag * q + (2 * p - mag) * q;
  }

  /** The sign, exponent and mantissa of the pattern spell exactly the integer. */
  lemma DoubleOfIntExact(n: int)
    requires -0x8000_0000 <= n < U32_MOD
    ensures var b := DoubleOfInt(n);
            var (low, mag) := (b % SIGN, if n < 0 then -n else n);
            && (b >= SIGN <==> n < 0)
            && (n == 0 ==> b == 0)
            && (n != 0 ==> BIAS <= low / ONE < BIAS + 32 && (ONE + low % ONE) * Pow2(low / ONE - BIAS) == mag * ONE)
  {
    hide Pow2, Exponent, Scaled;
    if n != 0 {
      var mag := if n < 0 then -n else n;
      MagnitudeExact(mag);
      var s := Scaled(mag, Exponent(mag, 0));
      assert DoubleOfInt(n) == (if n < 0 then SIGN else 0) + s;
      assert DoubleOfInt(n) % SIGN == s;
    }
  }

  lemma MagnitudeExact(mag: nat)
    requires 0 < mag < U32_MOD
    ensures var s := Scaled(mag, Exponent(mag, 0));
            s < SIGN && BIAS <= s / ONE < BIAS + 32 && (ONE + s % ONE) * Pow2(s / ONE - BIAS) == mag * ONE
  {
    hide Pow2, Exponent, Scaled;
    var e := Exponent(mag, 0);
    ExponentBrackets(mag, 0);
    SmallExponent(mag, e);
    ScaledUp(mag, e);
    ScaledFields(mag, e);
    var s := Scaled(mag, e);
    var m := mag * Pow2(52 - e);
    assert ONE + s % ONE == m && s / ONE - BIAS == e;
  }

  /** Exponent and mantissa stand side by side. */
  lemma ScaledFields(mag: nat, e: nat)
    requires e < 32 && ONE <= mag * Pow2(52 - e) < 2 * ONE
    ensures Scaled(mag, e) / ONE == BIAS + e && Scaled(mag, e) % ONE == mag * Pow2(52 - e) - ONE
    ensures Scaled(mag, e) < SIGN
  {
    hide Pow2;
    var m := mag * Pow2(52 - e);
    assert m % ONE == m - ONE;
    Fields(BIAS + e, m - ONE);
  }

  lemma Fields(x: nat, y: nat)
    requires x < 2048 && y < ONE
    ensures (x * ONE + y) % SIGN == x * ONE + y && (x * ONE + y) / ONE == x && (x * ONE + y) % ONE == y
  {
  }
}
