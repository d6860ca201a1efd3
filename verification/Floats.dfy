/** Floats of 32 bits as unsigned integers and back: what the columns' default values of type FLOAT go
    through (db/storage/edb/Endian.hpp:27-32, db/storage/edb/EDBFile.cpp:502-538). */
module Floats {
  /** Two to the 23rd: the position of the exponent, and the leading bit of the significand. */
  const LEAD: nat := 0x80_0000

  function Pow2(n: nat): (r: nat)
    ensures r > 0
  {
    if n == 0 then 1 else 2 * Pow2(n - 1)
  }

  function Exponent(bits: nat): nat {
    bits / LEAD % 256
  }

  function Fraction(bits: nat): nat {
    bits % LEAD
  }

  predicate IsNegative(bits: nat) {
    bits / LEAD >= 256
  }

  /** C++ defines the conversion to an unsigned integer of 32 bits: what is in front of the decimal
      point is not negative, and in range. */
  predicate Converts(bits: nat) {
    if IsNegative(bits) then Exponent(bits) < 127 else Exponent(bits) < 159
  }

  /** The whole part of `m` times two to the power of `e - 23`. */
  function Scaled(m: nat, e: nat): nat {
    if e < 23 then Quotient(m, Pow2(23 - e)) else Product(m, Pow2(e - 23))
  }

  function Quotient(m: nat, p: nat): nat
    requires p > 0
  {
    m / p
  }

  function Product(m: nat, p: nat): nat {
    m * p
  }

  /** The conversion: what is behind the decimal point is cut off. */
  function Truncated(bits: nat): nat {
    if Exponent(bits) < 127 then 0 else Scaled(LEAD + Fraction(bits), Exponent(bits) - 127)
  }

  /** The position of the highest bit. */
  function Log2(n: nat): nat
    requires n > 0
  {
    if n == 1 then 0 else 1 + Log2(n / 2)
  }

  /** The float next to an unsigned integer; of two, the even one. */
  function Rounded(n: nat): nat {
    if n == 0 then 0
    else
      var e := Log2(n);
      if e <= 23 then (e + 126) * LEAD + n * Pow2(23 - e)
      else
        var q, r, half := n / Pow2(e - 23), n % Pow2(e - 23), Pow2(e - 24);
        (e + 126) * LEAD + q + if r > half || (r == half && q % 2 == 1) then 1 else 0
  }

  /** The float is a whole number from 0 to 2^32 - 1 (and not the negative zero). */
  predicate IsWhole(bits: nat) {
    || bits == 0
    || (!IsNegative(bits) && 127 <= Exponent(bits) < 159
        && (Exponent(bits) < 150 ==> Fraction(bits) % Pow2(150 - Exponent(bits)) == 0))
  }

  lemma {:induction false} PowAdd(a: nat, b: nat)
    ensures Pow2(a + b) == Pow2(a) * Pow2(b)
  {
    if a > 0 {
      PowAdd(a - 1, b);
      assert Pow2(a + b) == 2 * Pow2(a - 1 + b);
      Associate(2, Pow2(a - 1), Pow2(b));
    }
  }

  lemma Associate(a: nat, b: nat, c: nat)
    ensures a * b * c == a * (b * c)
  {
  }

  lemma LeadIsPower()
    ensures Pow2(23) == LEAD && Pow2(24) == 2 * LEAD
  {
    assert Pow2(8) == 256;
    assert Pow2(16) == 0x1_0000;
  }

  lemma {:induction false} LogIs(n: nat, e: nat)
    requires Pow2(e) <= n < Pow2(e + 1)
    ensures n > 0 && Log2(n) == e
  {
    if e > 0 {
      LogIs(n / 2, e - 1);
    }
  }

  /** Division by a positive number keeps bounds that are multiples of it. */
  lemma DivBounds(m: nat, p: nat, low: nat, high: nat)
    requires p > 0 && low * p <= m < high * p
    ensures low <= m / p < high && m == m / p * p + m % p
  {
    var q := m / p;
    if q < low {
      MulMonotone(q + 1, low, p);
    }
    if q >= high {
      MulMonotone(high, q, p);
    }
  }

  lemma MulMonotone(a: nat, b: nat, p: nat)
    requires a <= b
    ensures a * p <= b * p
  {
  }

  lemma MulPositive(a: nat, b: nat, p: nat)
    requires a < b && p > 0
    ensures a * p < b * p
  {
  }

  /** The parts of a float that is not negative. */
  lemma Parts(bits: nat)
    requires bits < 0x1_0000_0000 && !IsNegative(bits)
    ensures bits == Exponent(bits) * LEAD + Fraction(bits)
  {
  }

  /** A float goes through the conversion and back unchanged exactly if it is a whole number. */
  lemma WholeExact(bits: nat)
    requires bits < 0x1_0000_0000 && Converts(bits)
    ensures Rounded(Truncated(bits)) == bits <==> IsWhole(bits)
  {
    hide Rounded, Pow2;
    var e := Exponent(bits);
    if e < 127 {
      RoundedZero();
    } else {
      Parts(bits);
      if e < 150 {
        SmallWhole(bits);
      } else {
        LargeWhole(bits);
      }
    }
  }

  lemma TruncatedFits(bits: nat)
    requires Converts(bits)
    ensures Truncated(bits) < 0x1_0000_0000
  {
    hide Exponent, Fraction, IsNegative, Pow2;
    var e, m := Exponent(bits), LEAD + Fraction(bits);
    FractionBound(bits);
    if 127 <= e < 150 {
      var p := Pow2(150 - e);
      MulMonotone(1, p, m);
      DivBounds(m, p, 0, m + 1);
    } else if e >= 150 {
      MulMonotone(m, 2 * LEAD, Pow2(e - 150));
      PowAdd(24, e - 150);
      PowAdd(e - 126, 158 - e);
      LeadIsPower();
      MulMonotone(1, Pow2(158 - e), Pow2(e - 126));
      assert Pow2(32) == 0x1_0000_0000 by {
        PowAdd(24, 8);
        PowEight();
      }
    }
  }

  lemma PowEight()
    ensures Pow2(8) == 256
  {
  }

  lemma RoundedZero()
    ensures Rounded(0) == 0
  {
  }

  lemma LargeWhole(bits: nat)
    requires bits < 0x1_0000_0000 && !IsNegative(bits) && 150 <= Exponent(bits) < 159
    ensures Rounded(Truncated(bits)) == bits
  {
    hide Exponent, Fraction, IsNegative, Pow2, Log2;
    var e, m := Exponent(bits), LEAD + Fraction(bits);
    var k := e - 150;
    Parts(bits);
    FractionBound(bits);
    LeadIsPower();
    PowAdd(23, k);
    PowAdd(24, k);
    MulMonotone(LEAD, m, Pow2(k));
    MulPositive(m, 2 * LEAD, Pow2(k));
    LogIs(m * Pow2(k), 23 + k);
    Divided(m, Pow2(k));
    PowZero();
  }

  lemma PowZero()
    ensures Pow2(0) == 1
  {
  }

  lemma Divided(m: nat, p: nat)
    requires p > 0
    ensures m * p / p == m && m * p % p == 0
  {
    DivBounds(m * p, p, m, m + 1);
  }

  lemma FractionBound(bits: nat)
    ensures Fraction(bits) < LEAD
  {
  }

  lemma SmallWhole(bits: nat)
    requires bits < 0x1_0000_0000 && !IsNegative(bits) && 127 <= Exponent(bits) < 150
    ensures Rounded(Truncated(bits)) == bits <==> Fraction(bits) % Pow2(150 - Exponent(bits)) == 0
  {
    hide Exponent, Fraction, IsNegative, Pow2, Log2;
    var e, m := Exponent(bits), LEAD + Fraction(bits);
    var j := 150 - e;
    var p := Pow2(j);
    Parts(bits);
    FractionBound(bits);
    LeadIsPower();
    PowAdd(23 - j, j);
    PowAdd(24 - j, j);
    DivBounds(m, p, Pow2(23 - j), Pow2(24 - j));
    LogIs(m / p, 23 - j);
    SameRest(Fraction(bits), Pow2(23 - j), p);
  }

  /** Adding a multiple does not change the remainder. */
  lemma SameRest(f: nat, k: nat, p: nat)
    requires p > 0
    ensures (k * p + f) % p == f % p
  {
    var q, r := f / p, f % p;
    assert k * p + f == (k + q) * p + r;
    DivBounds(f, p, q, q + 1);
    DivBounds((k + q) * p + r, p, k + q, k + q + 1);
  }

  // ---- What the bits mean ----

  /** The number a float stands for, without its sign, in units of 2^-149. */
  function Magnitude(bits: nat): nat {
    var e := Exponent(bits);
    if e == 0 then Fraction(bits) else Product(LEAD + Fraction(bits), Pow2(e - 1))
  }

  /** Leaving the sign out, the greater bits are the greater number. */
  lemma BitsOrder(a: nat, b: nat)
    requires a < b < 0x8000_0000
    ensures Magnitude(a) < Magnitude(b)
  {
    hide Exponent, Fraction, IsNegative, Pow2;
    Unsigned(a);
    Unsigned(b);
    var e, f := Exponent(a), Exponent(b);
    if e == f {
      if e > 0 {
        MulPositive(LEAD + Fraction(a), LEAD + Fraction(b), Pow2(e - 1));
      }
    } else {
      MulMonotone(LEAD, LEAD + Fraction(b), Pow2(f - 1));
      PowZero();
      PowMonotone(0, f - 1);
      if e == 0 {
        MulMonotone2(LEAD, 1, Pow2(f - 1));
      } else {
        MulPositive(LEAD + Fraction(a), 2 * LEAD, Pow2(e - 1));
        PowMonotone(e, f - 1);
        PowStep(e);
        MulMonotone2(LEAD, Pow2(e), Pow2(f - 1));
      }
    }
  }

  lemma PowStep(e: nat)
    requires e > 0
    ensures Pow2(e) == 2 * Pow2(e - 1)
  {
  }

  lemma MulMonotone2(a: nat, p: nat, q: nat)
    requires p <= q
    ensures a * p <= a * q
  {
  }

  lemma {:induction false} PowMonotone(a: nat, b: nat)
    requires a <= b
    ensures Pow2(a) <= Pow2(b)
  {
    if a < b {
      PowMonotone(a, b - 1);
    }
  }

  /** The parts of a float without its sign; the exponent counts more. */
  lemma Unsigned(bits: nat)
    requires bits < 0x8000_0000
    ensures bits == Exponent(bits) * LEAD + Fraction(bits) && Fraction(bits) < LEAD && Exponent(bits) < 256
  {
  }

  /** The conversion to an integer gives the number without what is behind its decimal point. */
  lemma TruncatedMeans(bits: nat)
    requires Converts(bits)
    ensures Truncated(bits) * Pow2(149) <= Magnitude(bits) < (Truncated(bits) + 1) * Pow2(149)
  {
    hide Exponent, Fraction, IsNegative, Pow2;
    var e, m := Exponent(bits), LEAD + Fraction(bits);
    FractionBound(bits);
    LeadIsPower();
    if e < 127 {
      PowMonotone(24, 149);
      if e > 0 {
        MulPositive(m, 2 * LEAD, Pow2(e - 1));
        PowAdd(24, e - 1);
        PowMonotone(23 + e, 149);
      }
    } else if e < 150 {
      var p, q := Pow2(150 - e), Pow2(e - 1);
      PowAdd(150 - e, e - 1);
      var n := m / p;
      MulMonotone(1, p, m + 1);
      DivBounds(m, p, 0, m + 1);
      MulMonotone(n * p, m, q);
      MulPositive(m, (n + 1) * p, q);
      Associate(n, p, q);
      Associate(n + 1, p, q);
    } else {
      PowAdd(e - 150, 149);
      Associate(m, Pow2(e - 150), Pow2(149));
      MulPositive(Truncated(bits), Truncated(bits) + 1, Pow2(149));
    }
  }
}
