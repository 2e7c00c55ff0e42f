/** Real arithmetic behind positive definiteness: powers, signs of
    products, and the two quadratic forms that <p, p> splits into for a
    polynomial p of degree at most five on a symmetric interval. */
module QuadraticForms {

  /** x^n */
  function Pow(x: real, n: nat): real {
    if n == 0 then 1.0 else x * Pow(x, n - 1)
  }

  /** A positive base has positive powers. */
  lemma {:induction false} PowPos(x: real, n: nat)
    requires x > 0.0
    ensures Pow(x, n) > 0.0
  {
    if n > 0 {
      PowPos(x, n - 1);
      MulPos(x, Pow(x, n - 1));
    }
  }

  /** The powers of b up to b^5, each from the ones below it. */
  lemma {:induction false} PowsUpToFive(b: real)
    ensures Pow(b, 0) == 1.0 && Pow(b, 1) == b && Pow(b, 2) == b * b
    ensures Pow(b, 3) == b * Pow(b, 2) && Pow(b, 4) == Pow(b, 2) * Pow(b, 2) && Pow(b, 5) == b * Pow(b, 4)
  {
    assert Pow(b, 2) == b * Pow(b, 1);
    assert Pow(b, 3) == b * Pow(b, 2);
    assert Pow(b, 4) == b * Pow(b, 3);
    assert Pow(b, 5) == b * Pow(b, 4);
  }

  /** The even-power part of <p, p> for a polynomial of degree at most five
      (m2k the moments, x0, x2, x4 the even coefficients). */
  function EvenSum(m0: real, m2: real, m4: real, m6: real, m8: real, x0: real, x2: real, x4: real): real {
    m0 * x0 * x0 + 2.0 * m2 * x0 * x2 + 2.0 * m4 * x0 * x4 + m4 * x2 * x2 + 2.0 * m6 * x2 * x4 + m8 * x4 * x4
  }

  /** The odd-power part of <p, p> (x1, x3, x5 the odd coefficients). */
  function OddSum(m2: real, m4: real, m6: real, m8: real, m10: real, x1: real, x3: real, x5: real): real {
    m2 * x1 * x1 + 2.0 * m4 * x1 * x3 + 2.0 * m6 * x1 * x5 + m6 * x3 * x3 + 2.0 * m8 * x3 * x5 + m10 * x5 * x5
  }

  /** The identity on reals. A square is written s * Same(s) in the
      sign arguments below, which keeps it an ordinary product of two terms
      for the arithmetic prover rather than a power. */
  function Same(s: real): real {
    s
  }

  lemma {:induction false} SquarePos(s: real)
    ensures s * Same(s) >= 0.0
    ensures s != 0.0 ==> s * Same(s) > 0.0
  {
  }

  /** A positive factor keeps the sign of the other one. */
  lemma {:induction false} MulPos(c: real, e: real)
    requires c > 0.0
    ensures e >= 0.0 ==> c * e >= 0.0
    ensures e > 0.0 ==> c * e > 0.0
  {
  }

  lemma {:induction false} NonzeroProduct(c: real, x: real)
    requires c > 0.0 && x != 0.0
    ensures c * x != 0.0
  {
  }

  /** EvenSum and OddSum on [-1, 1], whose moments 2 / (n + 1) are the
      literal coefficients here. */
  function UnitEven(y0: real, y2: real, y4: real): real {
    2.0 * y0 * y0 + 4.0 / 3.0 * y0 * y2 + 4.0 / 5.0 * y0 * y4
    + 2.0 / 5.0 * y2 * y2 + 4.0 / 7.0 * y2 * y4 + 2.0 / 9.0 * y4 * y4
  }

  function UnitOdd(y1: real, y3: real, y5: real): real {
    2.0 / 3.0 * y1 * y1 + 4.0 / 5.0 * y1 * y3 + 4.0 / 7.0 * y1 * y5
    + 2.0 / 7.0 * y3 * y3 + 4.0 / 9.0 * y3 * y5 + 2.0 / 11.0 * y5 * y5
  }

  /** Completing the square: UnitEven is a positive combination of three
      squares, so it is positive unless all its arguments are zero. */
  lemma {:induction false} UnitEvenPositive(y0: real, y2: real, y4: real)
    ensures UnitEven(y0, y2, y4) >= 0.0
    ensures y0 != 0.0 || y2 != 0.0 || y4 != 0.0 ==> UnitEven(y0, y2, y4) > 0.0
  {
    var s1, s2 := y0 + y2 / 3.0 + y4 / 5.0, y2 + 6.0 / 7.0 * y4;
    assert UnitEven(y0, y2, y4) == 2.0 * (s1 * Same(s1)) + 8.0 / 45.0 * (s2 * Same(s2)) + 128.0 / 11025.0 * (y4 * Same(y4));
    SquarePos(s1);
    SquarePos(s2);
    SquarePos(y4);
  }

  lemma {:induction false} UnitOddPositive(y1: real, y3: real, y5: real)
    ensures UnitOdd(y1, y3, y5) >= 0.0
    ensures y1 != 0.0 || y3 != 0.0 || y5 != 0.0 ==> UnitOdd(y1, y3, y5) > 0.0
  {
    var s1, s2 := y1 + 3.0 / 5.0 * y3 + 3.0 / 7.0 * y5, y3 + 10.0 / 9.0 * y5;
    assert UnitOdd(y1, y3, y5) == 2.0 / 3.0 * (s1 * Same(s1)) + 8.0 / 175.0 * (s2 * Same(s2)) + 128.0 / 43659.0 * (y5 * Same(y5));
    SquarePos(s1);
    SquarePos(s2);
    SquarePos(y5);
  }

  /** With the moments of [-a, a], b = a^2, c = b^2, d = b^3 and e = b^4,
      the even part is a times UnitEven of the coefficients scaled by powers
      of b, and the odd part g = a * b times UnitOdd. */
  lemma {:induction false} EvenScaled(a: real, b: real, c: real, d: real, e: real, m0: real, m2: real, m4: real, m6: real, m8: real, x0: real, x2: real, x4: real, y2: real, y4: real)
    requires c == b * b && d == b * c && e == c * c && y2 == b * x2 && y4 == c * x4
    requires m0 == 2.0 * a && m2 == 2.0 * a * b / 3.0 && m4 == 2.0 * a * c / 5.0
    requires m6 == 2.0 * a * d / 7.0 && m8 == 2.0 * a * e / 9.0
    ensures EvenSum(m0, m2, m4, m6, m8, x0, x2, x4) == a * UnitEven(x0, y2, y4)
  {
  }

  lemma {:induction false} OddScaled(g: real, b: real, c: real, d: real, e: real, m2: real, m4: real, m6: real, m8: real, m10: real, x1: real, x3: real, x5: real, y3: real, y5: real)
    requires c == b * b && d == b * c && e == c * c && y3 == b * x3 && y5 == c * x5
    requires m2 == 2.0 * g / 3.0 && m4 == 2.0 * g * b / 5.0
    requires m6 == 2.0 * g * c / 7.0 && m8 == 2.0 * g * d / 9.0 && m10 == 2.0 * g * e / 11.0
    ensures OddSum(m2, m4, m6, m8, m10, x1, x3, x5) == g * UnitOdd(x1, y3, y5)
  {
  }

  /** Scaling by positive powers of b keeps nonzero coefficients nonzero. */
  lemma {:induction false} ScaledNonzero(b: real, x: real, z: real, y: real, w: real)
    requires b > 0.0 && y == b * x && w == Pow(b, 2) * z
    ensures x != 0.0 ==> y != 0.0
    ensures z != 0.0 ==> w != 0.0
  {
    PowPos(b, 2);
    if x != 0.0 {
      NonzeroProduct(b, x);
    }
    if z != 0.0 {
      NonzeroProduct(Pow(b, 2), z);
    }
  }

  /** The even moments up to x^10 of [-a, a] with b = a^2: the first is the
      length 2a of the interval. */
  ghost predicate EvenMomentsUpToTen(mu: nat -> real, a: real, b: real) {
    && mu(0) == 2.0 * a && mu(2) == 2.0 * a * b / 3.0 && mu(4) == 2.0 * a * Pow(b, 2) / 5.0
    && mu(6) == 2.0 * a * Pow(b, 3) / 7.0 && mu(8) == 2.0 * a * Pow(b, 4) / 9.0
    && mu(10) == 2.0 * a * Pow(b, 5) / 11.0
  }

  /** The even part is a times UnitEven of the scaled coefficients. */
  lemma {:induction false} EvenFromMoments(mu: nat -> real, a: real, b: real, x0: real, x2: real, x4: real, y2: real, y4: real)
    requires EvenMomentsUpToTen(mu, a, b) && y2 == b * x2 && y4 == Pow(b, 2) * x4
    ensures EvenSum(mu(0), mu(2), mu(4), mu(6), mu(8), x0, x2, x4) == a * UnitEven(x0, y2, y4)
  {
    PowsUpToFive(b);
    EvenScaled(a, b, Pow(b, 2), Pow(b, 3), Pow(b, 4), mu(0), mu(2), mu(4), mu(6), mu(8), x0, x2, x4, y2, y4);
  }

  /** a times UnitEven of the scaled coefficients is positive unless the
      coefficients are all zero. */
  lemma {:induction false} EvenScaledPositive(a: real, b: real, x0: real, x2: real, x4: real, y2: real, y4: real)
    requires a > 0.0 && b > 0.0 && y2 == b * x2 && y4 == Pow(b, 2) * x4
    ensures a * UnitEven(x0, y2, y4) >= 0.0
    ensures x0 != 0.0 || x2 != 0.0 || x4 != 0.0 ==> a * UnitEven(x0, y2, y4) > 0.0
  {
    ScaledNonzero(b, x2, x4, y2, y4);
    UnitEvenPositive(x0, y2, y4);
    MulPos(a, UnitEven(x0, y2, y4));
  }

  /** The even part is positive unless x0, x2 and x4 are all zero. */
  lemma {:induction false} EvenDefinite(mu: nat -> real, a: real, b: real, x0: real, x2: real, x4: real)
    requires a > 0.0 && b > 0.0 && EvenMomentsUpToTen(mu, a, b)
    ensures EvenSum(mu(0), mu(2), mu(4), mu(6), mu(8), x0, x2, x4) >= 0.0
    ensures x0 != 0.0 || x2 != 0.0 || x4 != 0.0 ==> EvenSum(mu(0), mu(2), mu(4), mu(6), mu(8), x0, x2, x4) > 0.0
  {
    var y2, y4 := b * x2, Pow(b, 2) * x4;
    EvenFromMoments(mu, a, b, x0, x2, x4, y2, y4);
    EvenScaledPositive(a, b, x0, x2, x4, y2, y4);
  }

  /** The odd part is g = a * b times UnitOdd of the scaled coefficients. */
  lemma {:induction false} OddFromMoments(mu: nat -> real, a: real, b: real, x1: real, x3: real, x5: real, g: real, y3: real, y5: real)
    requires EvenMomentsUpToTen(mu, a, b) && g == a * b && y3 == b * x3 && y5 == Pow(b, 2) * x5
    ensures OddSum(mu(2), mu(4), mu(6), mu(8), mu(10), x1, x3, x5) == g * UnitOdd(x1, y3, y5)
  {
    PowsUpToFive(b);
    OddScaled(g, b, Pow(b, 2), Pow(b, 3), Pow(b, 4), mu(2), mu(4), mu(6), mu(8), mu(10), x1, x3, x5, y3, y5);
  }

  lemma {:induction false} OddScaledPositive(a: real, b: real, x1: real, x3: real, x5: real, g: real, y3: real, y5: real)
    requires a > 0.0 && b > 0.0 && g == a * b && y3 == b * x3 && y5 == Pow(b, 2) * x5
    ensures g * UnitOdd(x1, y3, y5) >= 0.0
    ensures x1 != 0.0 || x3 != 0.0 || x5 != 0.0 ==> g * UnitOdd(x1, y3, y5) > 0.0
  {
    ScaledNonzero(b, x3, x5, y3, y5);
    UnitOddPositive(x1, y3, y5);
    MulPos(a, b);
    MulPos(g, UnitOdd(x1, y3, y5));
  }

  /** The odd part is positive unless x1, x3 and x5 are all zero. */
  lemma {:induction false} OddDefinite(mu: nat -> real, a: real, b: real, x1: real, x3: real, x5: real)
    requires a > 0.0 && b > 0.0 && EvenMomentsUpToTen(mu, a, b)
    ensures OddSum(mu(2), mu(4), mu(6), mu(8), mu(10), x1, x3, x5) >= 0.0
    ensures x1 != 0.0 || x3 != 0.0 || x5 != 0.0 ==> OddSum(mu(2), mu(4), mu(6), mu(8), mu(10), x1, x3, x5) > 0.0
  {
    var g, y3, y5 := a * b, b * x3, Pow(b, 2) * x5;
    OddFromMoments(mu, a, b, x1, x3, x5, g, y3, y5);
    OddScaledPositive(a, b, x1, x3, x5, g, y3, y5);
  }
}
