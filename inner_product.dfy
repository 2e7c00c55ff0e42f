/** The inner product <f, g> = integral of f * g over [-a, a] on polynomials,
    computed exactly. The integral of a polynomial is a weighted sum of its
    coefficients, the weights being the moments mu(n) = integral of x^n of
    the interval; for [-a, a] these are (a^(n+1) - (-a)^(n+1)) / (n+1). The
    algebra below holds for any moment sequence, and the interval enters
    through Moments(a), where a > 0 stands for pi. */
module InnerProduct {
  import opened Polynomials
  import opened QuadraticForms

  /** The integral of x^n over [-a, a]: (a^(n+1) - (-a)^(n+1)) / (n+1). */
  function Moment(a: real, n: nat): real {
    (Pow(a, n + 1) - Pow(-a, n + 1)) / (n + 1) as real
  }

  /** The moment sequence of [-a, a]: n maps to the integral of x^n. */
  function Moments(a: real): nat -> real {
    (n: nat) => Moment(a, n)
  }

  /** The integral of the first n terms of p: p_0 * mu(0) + ... + p_(n-1) * mu(n-1). */
  function IntegralUpTo(mu: nat -> real, p: Poly, n: nat): real {
    if n == 0 then 0.0 else IntegralUpTo(mu, p, n - 1) + Coef(p, n - 1) * mu(n - 1)
  }

  /** comp_int: the integral of p over the interval with moments mu. */
  function Integral(mu: nat -> real, p: Poly): real {
    IntegralUpTo(mu, p, |p|)
  }


  /** The coefficient sums the inner product reduces to:
      RowSum(a, q, k, n) = sum over j < n of q_j * mu(k + j), the
      integral of x^k * q, and GramSum(a, p, q, m, n) = sum over i < m of
      p_i * RowSum(mu, q, i, n), the integral of p * q. */
  function RowSum(mu: nat -> real, q: Poly, k: nat, n: nat): real {
    if n == 0 then 0.0 else RowSum(mu, q, k, n - 1) + Coef(q, n - 1) * mu(k + n - 1)
  }

  function GramSum(mu: nat -> real, p: Poly, q: Poly, m: nat, n: nat): real {
    if m == 0 then 0.0 else GramSum(mu, p, q, m - 1, n) + Coef(p, m - 1) * RowSum(mu, q, m - 1, n)
  }

  /** inp: the integral of the product f * g, as the double sum of
      f_i * g_j * mu(i + j) over the stored coefficients (InpIntegral shows
      this is the integral of Mul(f, g)). */
  function Inp(mu: nat -> real, f: Poly, g: Poly): real {
    GramSum(mu, f, g, |f|, |g|)
  }

  /** norm_sq */
  function NormSq(mu: nat -> real, f: Poly): real {
    Inp(mu, f, f)
  }

  /** A square root on the non-negative reals, as sympy's sqrt is used here. */
  ghost predicate IsSqrt(sqrt: real -> real) {
    forall s :: 0.0 <= s ==> 0.0 <= sqrt(s) && sqrt(s) * sqrt(s) == s
  }

  /** The square root of a positive number is positive. */
  lemma {:induction false} SqrtPositive(sqrt: real -> real, s: real)
    requires IsSqrt(sqrt) && s > 0.0
    ensures sqrt(s) > 0.0
  {
    var r := sqrt(s);
    assert 0.0 <= r && r * r == s;
  }

  /** norm: the non-negative number whose square is norm_sq. */
  function Norm(mu: nat -> real, sqrt: real -> real, f: Poly): (r: real)
    requires IsSqrt(sqrt) && NormSq(mu, f) >= 0.0
    ensures r >= 0.0 && r * r == NormSq(mu, f)
  {
    sqrt(NormSq(mu, f))
  }

  /** p has only even (s = 0) or only odd (s = 1) powers of x. */
  ghost predicate HasParity(p: Poly, s: nat) {
    forall i: nat :: i % 2 != s ==> Coef(p, i) == 0.0
  }

  // ---------------------------------------------------------------------
  // Moments

  lemma {:induction false} PowNeg(x: real, n: nat)
    ensures Pow(-x, n) == if n % 2 == 0 then Pow(x, n) else -Pow(x, n)
  {
    if n > 0 {
      PowNeg(x, n - 1);
    }
  }

  /** Odd powers integrate to zero over the symmetric interval; even powers
      to twice the integral over [0, a]. */
  lemma {:induction false} MomentParity(a: real, n: nat)
    ensures n % 2 == 1 ==> Moment(a, n) == 0.0
    ensures n % 2 == 0 ==> Moment(a, n) == 2.0 * Pow(a, n + 1) / (n + 1) as real
  {
    PowNeg(a, n + 1);
  }

  /** Every odd moment vanishes. */
  ghost predicate OddMomentsVanish(mu: nat -> real) {
    forall k: nat :: k % 2 == 1 ==> mu(k) == 0.0
  }

  /** The symmetric interval has vanishing odd moments. */
  lemma {:induction false} MomentsOddVanish(a: real)
    ensures OddMomentsVanish(Moments(a))
  {
    forall k: nat | k % 2 == 1 ensures Moments(a)(k) == 0.0 {
      MomentParity(a, k);
    }
  }

  /** An odd power of a as a times a power of a^2. */
  lemma {:induction false} PowOdd(a: real, k: nat)
    ensures Pow(a, 2 * k + 1) == a * Pow(Pow(a, 2), k)
  {
    if k > 0 {
      PowOdd(a, k - 1);
      assert Pow(a, 1) == a && Pow(a, 2) == a * Pow(a, 1);
      assert Pow(a, 2 * k + 1) == a * (a * Pow(a, 2 * k - 1));
    }
  }

  /** The even moment x = mu(2k) of [-a, a] is 2a b^k / (2k + 1) with
      b = a^2; n and d stand for 2k and 2k + 1 so that callers may pass
      literals. */
  lemma {:induction false} EvenMoment(a: real, b: real, k: nat, n: nat, d: real, x: real)
    requires b == Pow(a, 2) && n == 2 * k && d == (2 * k + 1) as real && x == Moments(a)(n)
    ensures x == 2.0 * a * Pow(b, k) / d
  {
    PowNeg(a, n + 1);
    PowOdd(a, k);
  }

  /** mu(0), mu(2), ..., mu(10) of [-a, a] in closed form, each moment
      passed to EvenMoment as a value. */
  lemma {:induction false} IntervalEvenMoments(a: real)
    ensures EvenMomentsUpToTen(Moments(a), a, Pow(a, 2))
  {
    var mu, b := Moments(a), Pow(a, 2);
    PowsUpToFive(b);
    EvenMoment(a, b, 0, 0, 1.0, mu(0));
    EvenMoment(a, b, 1, 2, 3.0, mu(2));
    EvenMoment(a, b, 2, 4, 5.0, mu(4));
    EvenMoment(a, b, 3, 6, 7.0, mu(6));
    EvenMoment(a, b, 4, 8, 9.0, mu(8));
    EvenMoment(a, b, 5, 10, 11.0, mu(10));
  }

  /** comp_int of the monomial x^k is the k-th moment, the integral of x^k
      over the interval. */
  lemma {:induction false} IntegralMonomial(mu: nat -> real, n: nat, k: nat)
    requires k < n
    ensures Integral(mu, Mono(n, k)) == mu(k)
  {
    IntegralUpToMono(mu, n, k, n);
  }

  lemma {:induction false} IntegralUpToMono(mu: nat -> real, n: nat, k: nat, m: nat)
    requires k < n
    ensures IntegralUpTo(mu, Mono(n, k), m) == if k < m then mu(k) else 0.0
  {
    if m > 0 {
      IntegralUpToMono(mu, n, k, m - 1);
      MonoCoef(n, k, m - 1);
    }
  }

  /** On [-a, a], comp_int(x^k) is 0 for odd k and 2 a^(k+1) / (k+1) for
      even k. */
  lemma {:induction false} IntervalMonomial(a: real, k: nat)
    ensures Integral(Moments(a), Mono(k + 1, k))
         == if k % 2 == 1 then 0.0 else 2.0 * Pow(a, k + 1) / (k + 1) as real
  {
    IntegralMonomial(Moments(a), k + 1, k);
    MomentParity(a, k);
  }

  // ---------------------------------------------------------------------
  // Integrals against a moment sequence are linear

  /** Terms beyond the stored coefficients contribute nothing. */
  lemma {:induction false} IntegralPad(mu: nat -> real, p: Poly, n: nat)
    requires |p| <= n
    ensures IntegralUpTo(mu, p, n) == IntegralUpTo(mu, p, |p|)
  {
    if n > |p| {
      IntegralPad(mu, p, n - 1);
    }
  }

  /** A polynomial whose first n coefficients are zero has zero partial integral. */
  lemma {:induction false} IntegralZero(mu: nat -> real, p: Poly, n: nat)
    requires forall i: nat :: i < n ==> Coef(p, i) == 0.0
    ensures IntegralUpTo(mu, p, n) == 0.0
  {
    if n > 0 {
      IntegralZero(mu, p, n - 1);
    }
  }

  /** The partial integral is additive: r with the coefficients of p + q
      integrates to the sum of the integrals. */
  lemma {:induction false} IntegralAdd(mu: nat -> real, r: Poly, p: Poly, q: Poly, n: nat)
    requires forall i: nat :: i < n ==> Coef(r, i) == Coef(p, i) + Coef(q, i)
    ensures IntegralUpTo(mu, r, n) == IntegralUpTo(mu, p, n) + IntegralUpTo(mu, q, n)
  {
    if n > 0 {
      IntegralAdd(mu, r, p, q, n - 1);
    }
  }

  /** The integral of x^k * q is the row sum for k. */
  lemma {:induction false} IntegralShift(mu: nat -> real, q: Poly, k: nat, n: nat)
    ensures IntegralUpTo(mu, Shift(k, q), k + n) == RowSum(mu, q, k, n)
  {
    if n == 0 {
      forall i: nat | i < k ensures Coef(Shift(k, q), i) == 0.0 {
        ShiftCoef(k, q, i);
      }
      IntegralZero(mu, Shift(k, q), k);
    } else {
      IntegralShift(mu, q, k, n - 1);
      ShiftCoef(k, q, k + (n - 1));
      assert IntegralUpTo(mu, Shift(k, q), k + n)
          == IntegralUpTo(mu, Shift(k, q), k + (n - 1)) + Coef(Shift(k, q), k + (n - 1)) * mu(k + (n - 1));
    }
  }

  /** Row sums are homogeneous: the row sum of c * q is c times that of q. */
  lemma {:induction false} RowSumScale(mu: nat -> real, c: real, q: Poly, k: nat, n: nat)
    ensures RowSum(mu, Scale(c, q), k, n) == c * RowSum(mu, q, k, n)
  {
    if n > 0 {
      RowSumScale(mu, c, q, k, n - 1);
      ScaleCoef(c, q, n - 1);
    }
  }

  /** Row sums past the stored coefficients do not change. */
  lemma {:induction false} RowSumPad(mu: nat -> real, q: Poly, k: nat, n: nat)
    requires |q| <= n
    ensures RowSum(mu, q, k, n) == RowSum(mu, q, k, |q|)
  {
    if n > |q| {
      RowSumPad(mu, q, k, n - 1);
    }
  }

  /** The integral of x^k * c * q, over enough terms, is c times the row
      sum of q for k. */
  lemma {:induction false} IntegralShiftScale(mu: nat -> real, c: real, q: Poly, k: nat, n: nat)
    requires k + |q| <= n
    ensures IntegralUpTo(mu, Shift(k, Scale(c, q)), n) == c * RowSum(mu, q, k, |q|)
  {
    IntegralShiftTo(mu, Scale(c, q), k, n);
    RowSumScale(mu, c, q, k, |q|);
  }

  /** The partial integral of x^k * s up to a bound past its degree. */
  lemma {:induction false} IntegralShiftTo(mu: nat -> real, s: Poly, k: nat, n: nat)
    requires k + |s| <= n
    ensures IntegralUpTo(mu, Shift(k, s), n) == RowSum(mu, s, k, |s|)
  {
    IntegralPad(mu, Shift(k, s), n);
    IntegralShift(mu, s, k, |s|);
  }

  /** The partial integral of a sum of two polynomials. */
  lemma {:induction false} IntegralAddOf(mu: nat -> real, p: Poly, q: Poly, n: nat)
    ensures IntegralUpTo(mu, Add(p, q), n) == IntegralUpTo(mu, p, n) + IntegralUpTo(mu, q, n)
  {
    forall i: nat | i < n ensures Coef(Add(p, q), i) == Coef(p, i) + Coef(q, i) {
      AddCoef(p, q, i);
    }
    IntegralAdd(mu, Add(p, q), p, q, n);
  }

  /** The double sum gains one row when m grows by one. */
  lemma {:induction false} GramSumStep(mu: nat -> real, p: Poly, q: Poly, m: nat, n: nat)
    requires 0 < m
    ensures GramSum(mu, p, q, m, n) == GramSum(mu, p, q, m - 1, n) + Coef(p, m - 1) * RowSum(mu, q, m - 1, n)
  {
  }

  /** Adding x^(m-1) * p_(m-1) * q to a polynomial r' adds row m - 1 of the
      double sum of p and q to its integral. */
  lemma {:induction false} IntegralMulStep(mu: nat -> real, r': Poly, p: Poly, q: Poly, m: nat, n: nat)
    requires 0 < m && m + |q| <= n
    ensures IntegralUpTo(mu, Add(r', Shift(m - 1, Scale(Coef(p, m - 1), q))), n) - IntegralUpTo(mu, r', n)
         == GramSum(mu, p, q, m, |q|) - GramSum(mu, p, q, m - 1, |q|)
  {
    var c := Coef(p, m - 1);
    var t := Shift(m - 1, Scale(c, q));
    IntegralAddOf(mu, r', t, n);
    IntegralShiftScale(mu, c, q, m - 1, n);
    GramSumStep(mu, p, q, m, |q|);
    SameIncrement(IntegralUpTo(mu, Add(r', t), n), IntegralUpTo(mu, r', n), IntegralUpTo(mu, t, n),
                  GramSum(mu, p, q, m, |q|), GramSum(mu, p, q, m - 1, |q|), IntegralUpTo(mu, t, n));
  }

  /** Two quantities that both grow by x grow by the same amount. The
      integrals and double sums are passed as plain reals, so that the
      arithmetic step is taken without their definitions in scope. */
  lemma {:induction false} SameIncrement(u: real, u': real, t: real, g: real, g': real, x: real)
    requires u == u' + t && t == x && g == g' + x
    ensures u - u' == g - g'
  {
  }

  /** Integrating the partial products of p * q gives the partial double sum. */
  lemma {:induction false} IntegralMulUpTo(mu: nat -> real, p: Poly, q: Poly, m: nat, n: nat)
    requires m + |q| <= n
    ensures IntegralUpTo(mu, MulUpTo(p, q, m), n) == GramSum(mu, p, q, m, |q|)
  {
    if m > 0 {
      IntegralMulUpTo(mu, p, q, m - 1, n);
      IntegralMulStep(mu, MulUpTo(p, q, m - 1), p, q, m, n);
    } else {
      IntegralPad(mu, [], n);
    }
  }

  /** Row sums inside the double sum may run past the stored coefficients. */
  lemma {:induction false} GramSumPadRows(mu: nat -> real, p: Poly, q: Poly, m: nat, n: nat)
    requires |q| <= n
    ensures GramSum(mu, p, q, m, n) == GramSum(mu, p, q, m, |q|)
  {
    if m > 0 {
      GramSumPadRows(mu, p, q, m - 1, n);
      RowSumPad(mu, q, m - 1, n);
    }
  }

  /** Double sums past the stored coefficients do not change. */
  lemma {:induction false} GramSumPad(mu: nat -> real, p: Poly, q: Poly, m: nat, n: nat)
    requires |p| <= m && |q| <= n
    ensures GramSum(mu, p, q, m, n) == GramSum(mu, p, q, |p|, |q|)
  {
    if m > |p| {
      GramSumPad(mu, p, q, m - 1, n);
    } else {
      GramSumPadRows(mu, p, q, m, n);
    }
  }

  /** The inner product is the integral of the product polynomial: the
      double sum agrees with comp_int applied to f * g. */
  lemma {:induction false} InpIntegral(mu: nat -> real, f: Poly, g: Poly)
    ensures Inp(mu, f, g) == Integral(mu, Mul(f, g))
  {
    MulUpToLength(f, g, |f|);
    IntegralPad(mu, Mul(f, g), |f| + |g|);
    IntegralMulUpTo(mu, f, g, |f|, |f| + |g|);
  }

  /** The inner product as a double sum over any number of terms that
      covers both polynomials. */
  lemma {:induction false} InpGram(mu: nat -> real, p: Poly, q: Poly, m: nat, n: nat)
    requires |p| <= m && |q| <= n
    ensures Inp(mu, p, q) == GramSum(mu, p, q, m, n)
  {
    GramSumPad(mu, p, q, m, n);
  }

  // ---------------------------------------------------------------------
  // Symmetry and bilinearity

  lemma {:induction false} GramSumNoColumns(mu: nat -> real, q: Poly, p: Poly, n: nat)
    ensures GramSum(mu, q, p, n, 0) == 0.0
  {
    if n > 0 {
      GramSumNoColumns(mu, q, p, n - 1);
    }
  }

  lemma {:induction false} GramSumLastColumn(mu: nat -> real, q: Poly, p: Poly, n: nat, m: nat)
    ensures GramSum(mu, q, p, n, m + 1) == GramSum(mu, q, p, n, m) + Coef(p, m) * RowSum(mu, q, m, n)
  {
    if n > 0 {
      GramSumLastColumn(mu, q, p, n - 1, m);
      assert n - 1 + m == m + n - 1;
      DistributeStep(Coef(q, n - 1), RowSum(mu, p, n - 1, m), Coef(p, m), mu(m + n - 1));
    }
  }

  lemma {:induction false} DistributeStep(x: real, r: real, y: real, z: real)
    ensures x * (r + y * z) == x * r + y * (x * z)
  {
  }

  lemma {:induction false} GramSumSymmetric(mu: nat -> real, p: Poly, q: Poly, m: nat, n: nat)
    ensures GramSum(mu, p, q, m, n) == GramSum(mu, q, p, n, m)
  {
    if m == 0 {
      GramSumNoColumns(mu, q, p, n);
    } else {
      GramSumSymmetric(mu, p, q, m - 1, n);
      GramSumLastColumn(mu, q, p, n, m - 1);
    }
  }

  /** The double sum is additive and homogeneous in its first polynomial,
      given coefficientwise. */
  lemma {:induction false} GramSumAddLeft(mu: nat -> real, r: Poly, p: Poly, p': Poly, q: Poly, m: nat, n: nat)
    requires forall i: nat :: i < m ==> Coef(r, i) == Coef(p, i) + Coef(p', i)
    ensures GramSum(mu, r, q, m, n) == GramSum(mu, p, q, m, n) + GramSum(mu, p', q, m, n)
  {
    if m > 0 {
      GramSumAddLeft(mu, r, p, p', q, m - 1, n);
    }
  }

  lemma {:induction false} GramSumSubLeft(mu: nat -> real, r: Poly, p: Poly, p': Poly, q: Poly, m: nat, n: nat)
    requires forall i: nat :: i < m ==> Coef(r, i) == Coef(p, i) - Coef(p', i)
    ensures GramSum(mu, r, q, m, n) == GramSum(mu, p, q, m, n) - GramSum(mu, p', q, m, n)
  {
    if m > 0 {
      GramSumSubLeft(mu, r, p, p', q, m - 1, n);
    }
  }

  lemma {:induction false} GramSumScaleLeft(mu: nat -> real, r: Poly, c: real, p: Poly, q: Poly, m: nat, n: nat)
    requires forall i: nat :: i < m ==> Coef(r, i) == c * Coef(p, i)
    ensures GramSum(mu, r, q, m, n) == c * GramSum(mu, p, q, m, n)
  {
    if m > 0 {
      GramSumScaleLeft(mu, r, c, p, q, m - 1, n);
    }
  }

  /** <f, g> == <g, f> */
  lemma {:induction false} InpSymmetric(mu: nat -> real, f: Poly, g: Poly)
    ensures Inp(mu, f, g) == Inp(mu, g, f)
  {
    GramSumSymmetric(mu, f, g, |f|, |g|);
  }

  /** <f + f', g> == <f, g> + <f', g> */
  lemma {:induction false} InpAdd(mu: nat -> real, f: Poly, f': Poly, g: Poly)
    ensures Inp(mu, Add(f, f'), g) == Inp(mu, f, g) + Inp(mu, f', g)
  {
    var m := Max(|f|, |f'|);
    forall i: nat | i < m ensures Coef(Add(f, f'), i) == Coef(f, i) + Coef(f', i) {
      AddCoef(f, f', i);
    }
    InpGram(mu, Add(f, f'), g, m, |g|);
    InpGram(mu, f, g, m, |g|);
    InpGram(mu, f', g, m, |g|);
    GramSumAddLeft(mu, Add(f, f'), f, f', g, m, |g|);
  }

  /** <f - f', g> == <f, g> - <f', g> */
  lemma {:induction false} InpSub(mu: nat -> real, f: Poly, f': Poly, g: Poly)
    ensures Inp(mu, Sub(f, f'), g) == Inp(mu, f, g) - Inp(mu, f', g)
  {
    var m := Max(|f|, |f'|);
    forall i: nat | i < m ensures Coef(Sub(f, f'), i) == Coef(f, i) - Coef(f', i) {
      SubCoef(f, f', i);
    }
    InpGram(mu, Sub(f, f'), g, m, |g|);
    InpGram(mu, f, g, m, |g|);
    InpGram(mu, f', g, m, |g|);
    GramSumSubLeft(mu, Sub(f, f'), f, f', g, m, |g|);
  }

  /** <c * f, g> == c * <f, g> */
  lemma {:induction false} InpScale(mu: nat -> real, c: real, f: Poly, g: Poly)
    ensures Inp(mu, Scale(c, f), g) == c * Inp(mu, f, g)
  {
    forall i: nat | i < |f| ensures Coef(Scale(c, f), i) == c * Coef(f, i) {
      ScaleCoef(c, f, i);
    }
    GramSumScaleLeft(mu, Scale(c, f), c, f, g, |f|, |g|);
  }

  /** <f, c * g> == c * <f, g> */
  lemma {:induction false} InpScaleRight(mu: nat -> real, c: real, f: Poly, g: Poly)
    ensures Inp(mu, f, Scale(c, g)) == c * Inp(mu, f, g)
  {
    InpSymmetric(mu, f, Scale(c, g));
    InpScale(mu, c, g, f);
    InpSymmetric(mu, g, f);
  }

  /** norm_sq is quadratic: scaling f by c scales norm_sq by c^2. */
  lemma {:induction false} NormSqScale(mu: nat -> real, c: real, f: Poly)
    ensures NormSq(mu, Scale(c, f)) == c * c * NormSq(mu, f)
  {
    InpScale(mu, c, f, Scale(c, f));
    InpScaleRight(mu, c, f, f);
  }

  /** The inner product of the first n terms of a combination with g:
      c[0] * <ps[0], g> + ... + c[n-1] * <ps[n-1], g>. */
  function InpComb(mu: nat -> real, c: seq<real>, ps: seq<Poly>, g: Poly, n: nat): real
    requires n <= |c| == |ps|
  {
    if n == 0 then 0.0 else InpComb(mu, c, ps, g, n - 1) + c[n - 1] * Inp(mu, ps[n - 1], g)
  }

  /** The n-th term of a combination adds its weighted inner product. */
  lemma {:induction false} InpCombStep(mu: nat -> real, c: seq<real>, ps: seq<Poly>, g: Poly, n: nat)
    requires 0 < n <= |c| == |ps|
    ensures Inp(mu, LinCombUpTo(c, ps, n), g) - Inp(mu, LinCombUpTo(c, ps, n - 1), g)
         == InpComb(mu, c, ps, g, n) - InpComb(mu, c, ps, g, n - 1)
  {
    var r, t := LinCombUpTo(c, ps, n - 1), Scale(c[n - 1], ps[n - 1]);
    InpAddValue(mu, r, t, g, Inp(mu, LinCombUpTo(c, ps, n), g), Inp(mu, r, g), Inp(mu, t, g));
    InpScaleValue(mu, c[n - 1], ps[n - 1], g, Inp(mu, t, g), Inp(mu, ps[n - 1], g));
  }

  /** InpAdd and InpScale with the inner products passed as plain reals:
      the caller then reasons about the numbers only, and the double sums
      behind Inp are not unfolded in its proof. */
  lemma {:induction false} InpAddValue(mu: nat -> real, f: Poly, f': Poly, g: Poly, v: real, w: real, w': real)
    requires v == Inp(mu, Add(f, f'), g) && w == Inp(mu, f, g) && w' == Inp(mu, f', g)
    ensures v == w + w'
  {
    InpAdd(mu, f, f', g);
  }

  lemma {:induction false} InpScaleValue(mu: nat -> real, c: real, f: Poly, g: Poly, v: real, w: real)
    requires v == Inp(mu, Scale(c, f), g) && w == Inp(mu, f, g)
    ensures v == c * w
  {
    InpScale(mu, c, f, g);
  }

  /** <c[0] * ps[0] + ..., g> == c[0] * <ps[0], g> + ... */
  lemma {:induction false} InpLinComb(mu: nat -> real, c: seq<real>, ps: seq<Poly>, g: Poly, n: nat)
    requires n <= |c| == |ps|
    ensures Inp(mu, LinCombUpTo(c, ps, n), g) == InpComb(mu, c, ps, g, n)
  {
    if n == 0 {
      assert GramSum(mu, [], g, 0, |g|) == 0.0;
    } else {
      InpLinComb(mu, c, ps, g, n - 1);
      InpCombStep(mu, c, ps, g, n);
    }
  }

  /** Against g orthogonal to every ps[j] but ps[k], the sum keeps the k-th
      term only (none when k is not among the first n). */
  lemma {:induction false} InpCombPick(mu: nat -> real, c: seq<real>, ps: seq<Poly>, g: Poly, k: nat, n: nat)
    requires n <= |c| == |ps|
    requires forall j :: 0 <= j < n && j != k ==> Inp(mu, ps[j], g) == 0.0
    ensures InpComb(mu, c, ps, g, n) == if k < n then c[k] * Inp(mu, ps[k], g) else 0.0
  {
    if n > 0 {
      InpCombPick(mu, c, ps, g, k, n - 1);
    }
  }

  // ---------------------------------------------------------------------
  // Parity

  lemma {:induction false} RowSumParity(mu: nat -> real, q: Poly, t: nat, k: nat, n: nat)
    requires OddMomentsVanish(mu) && HasParity(q, t) && (k + t) % 2 == 1
    ensures RowSum(mu, q, k, n) == 0.0
  {
    if n > 0 {
      RowSumParity(mu, q, t, k, n - 1);
      if (n - 1) % 2 == t {
        assert (k + n - 1) % 2 == 1;
      } else {
        assert Coef(q, n - 1) == 0.0;
      }
    }
  }

  lemma {:induction false} GramSumParity(mu: nat -> real, p: Poly, s: nat, q: Poly, t: nat, m: nat, n: nat)
    requires OddMomentsVanish(mu) && HasParity(p, s) && HasParity(q, t) && s < 2 && t < 2 && s != t
    ensures GramSum(mu, p, q, m, n) == 0.0
  {
    if m > 0 {
      GramSumParity(mu, p, s, q, t, m - 1, n);
      if (m - 1) % 2 == s {
        RowSumParity(mu, q, t, m - 1, n);
      } else {
        assert Coef(p, m - 1) == 0.0;
      }
    }
  }

  /** An even and an odd polynomial are orthogonal on the symmetric interval. */
  lemma {:induction false} InpParity(mu: nat -> real, p: Poly, s: nat, q: Poly, t: nat)
    requires OddMomentsVanish(mu)
    requires HasParity(p, s) && HasParity(q, t) && s < 2 && t < 2 && s != t
    ensures Inp(mu, p, q) == 0.0
  {
    InpGram(mu, p, q, |p|, |q|);
    GramSumParity(mu, p, s, q, t, |p|, |q|);
  }

  lemma {:induction false} MonoParity(n: nat, k: nat)
    ensures HasParity(Mono(n, k), k % 2)
  {
    forall i: nat | i % 2 != k % 2 ensures Coef(Mono(n, k), i) == 0.0 {
      MonoCoef(n, k, i);
    }
  }

  /** <x^i, x^j> == 0 when i + j is odd. */
  lemma {:induction false} InpMonomials(mu: nat -> real, n: nat, i: nat, j: nat)
    requires OddMomentsVanish(mu) && (i + j) % 2 == 1
    ensures Inp(mu, Mono(n, i), Mono(n, j)) == 0.0
  {
    MonoParity(n, i);
    MonoParity(n, j);
    InpParity(mu, Mono(n, i), i % 2, Mono(n, j), j % 2);
  }

  /** <x^i, x^j> is the moment mu(i + j), the integral of x^(i+j). */
  lemma {:induction false} InpMonomialPair(mu: nat -> real, n: nat, i: nat, j: nat)
    requires i < n && j < n
    ensures Inp(mu, Mono(n, i), Mono(n, j)) == mu(i + j)
  {
    GramSumMonoLeft(mu, n, i, Mono(n, j), n, n);
    RowSumMono(mu, n, j, i, n);
  }

  /** Only row i of the double sum of x^i and q is left. */
  lemma {:induction false} GramSumMonoLeft(mu: nat -> real, n: nat, i: nat, q: Poly, m: nat, l: nat)
    requires i < n
    ensures GramSum(mu, Mono(n, i), q, m, l) == if i < m then RowSum(mu, q, i, l) else 0.0
  {
    if m > 0 {
      GramSumMonoLeft(mu, n, i, q, m - 1, l);
      MonoCoef(n, i, m - 1);
    }
  }

  /** Only column j of a row against x^j is left. */
  lemma {:induction false} RowSumMono(mu: nat -> real, n: nat, j: nat, k: nat, m: nat)
    requires j < n
    ensures RowSum(mu, Mono(n, j), k, m) == if j < m then mu(k + j) else 0.0
  {
    if m > 0 {
      RowSumMono(mu, n, j, k, m - 1);
      MonoCoef(n, j, m - 1);
    }
  }

  /** norm_sq(1) == 2a: the constant polynomial 1 has squared norm 2a on [-a, a]. */
  lemma {:induction false} NormSqOne(a: real)
    ensures NormSq(Moments(a), [1.0]) == 2.0 * a
  {
    var mu := Moments(a);
    InpGram(mu, [1.0], [1.0], 1, 1);
    assert GramSum(mu, [1.0], [1.0], 1, 1) == RowSum(mu, [1.0], 0, 1) == mu(0);
    IntervalEvenMoments(a);
  }

  // ---------------------------------------------------------------------
  // Positive definiteness on polynomials of degree at most five

  /** The sum for n = 6 written out term by term. */
  lemma {:induction false} RowSumSix(mu: nat -> real, q: Poly, k: nat)
    ensures RowSum(mu, q, k, 6)
         == Coef(q, 0) * mu(k) + Coef(q, 1) * mu(k + 1) + Coef(q, 2) * mu(k + 2)
          + Coef(q, 3) * mu(k + 3) + Coef(q, 4) * mu(k + 4) + Coef(q, 5) * mu(k + 5)
  {
    assert RowSum(mu, q, k, 1) == Coef(q, 0) * mu(k);
    assert RowSum(mu, q, k, 2) == RowSum(mu, q, k, 1) + Coef(q, 1) * mu(k + 1);
    assert RowSum(mu, q, k, 3) == RowSum(mu, q, k, 2) + Coef(q, 2) * mu(k + 2);
    assert RowSum(mu, q, k, 4) == RowSum(mu, q, k, 3) + Coef(q, 3) * mu(k + 3);
    assert RowSum(mu, q, k, 5) == RowSum(mu, q, k, 4) + Coef(q, 4) * mu(k + 4);
  }

  lemma {:induction false} GramSumSix(mu: nat -> real, p: Poly, q: Poly)
    ensures GramSum(mu, p, q, 6, 6)
         == Coef(p, 0) * RowSum(mu, q, 0, 6) + Coef(p, 1) * RowSum(mu, q, 1, 6) + Coef(p, 2) * RowSum(mu, q, 2, 6)
          + Coef(p, 3) * RowSum(mu, q, 3, 6) + Coef(p, 4) * RowSum(mu, q, 4, 6) + Coef(p, 5) * RowSum(mu, q, 5, 6)
  {
    assert GramSum(mu, p, q, 1, 6) == Coef(p, 0) * RowSum(mu, q, 0, 6);
    assert GramSum(mu, p, q, 2, 6) == GramSum(mu, p, q, 1, 6) + Coef(p, 1) * RowSum(mu, q, 1, 6);
    assert GramSum(mu, p, q, 3, 6) == GramSum(mu, p, q, 2, 6) + Coef(p, 2) * RowSum(mu, q, 2, 6);
    assert GramSum(mu, p, q, 4, 6) == GramSum(mu, p, q, 3, 6) + Coef(p, 3) * RowSum(mu, q, 3, 6);
    assert GramSum(mu, p, q, 5, 6) == GramSum(mu, p, q, 4, 6) + Coef(p, 4) * RowSum(mu, q, 4, 6);
  }

  /** The double sum of a polynomial with itself over six coefficients, when
      the odd moments vanish, split into its even-power and odd-power parts. */
  lemma {:induction false} GramSumSixSplit(mu: nat -> real, p: Poly)
    requires OddMomentsVanish(mu)
    ensures GramSum(mu, p, p, 6, 6)
         == EvenSum(mu(0), mu(2), mu(4), mu(6), mu(8), Coef(p, 0), Coef(p, 2), Coef(p, 4))
          + OddSum(mu(2), mu(4), mu(6), mu(8), mu(10), Coef(p, 1), Coef(p, 3), Coef(p, 5))
  {
    GramSumSix(mu, p, p);
    RowSumSix(mu, p, 0); RowSumSix(mu, p, 1); RowSumSix(mu, p, 2);
    RowSumSix(mu, p, 3); RowSumSix(mu, p, 4); RowSumSix(mu, p, 5);
    assert mu(1) == 0.0 && mu(3) == 0.0 && mu(5) == 0.0 && mu(7) == 0.0 && mu(9) == 0.0;
  }

  /** The inner product with the moments of [-a, a] (a > 0, b = a^2) given
      up to x^10 is positive definite on polynomials with at most six
      coefficients. */
  lemma {:induction false} DefiniteFromMoments(mu: nat -> real, a: real, b: real, p: Poly)
    requires a > 0.0 && b > 0.0 && OddMomentsVanish(mu) && EvenMomentsUpToTen(mu, a, b)
    requires |p| <= 6
    ensures NormSq(mu, p) >= 0.0
    ensures NormSq(mu, p) == 0.0 <==> forall i :: 0 <= i < |p| ==> p[i] == 0.0
  {
    InpGram(mu, p, p, 6, 6);
    GramSumSixSplit(mu, p);
    EvenDefinite(mu, a, b, Coef(p, 0), Coef(p, 2), Coef(p, 4));
    OddDefinite(mu, a, b, Coef(p, 1), Coef(p, 3), Coef(p, 5));
    if forall i :: 0 <= i < |p| ==> p[i] == 0.0 {
      assert Coef(p, 0) == 0.0 && Coef(p, 1) == 0.0 && Coef(p, 2) == 0.0;
      assert Coef(p, 3) == 0.0 && Coef(p, 4) == 0.0 && Coef(p, 5) == 0.0;
    } else {
      var i :| 0 <= i < |p| && p[i] != 0.0;
      assert Coef(p, i) != 0.0;
    }
  }

  /** norm_sq of p is non-negative, and zero exactly when p is zero. */
  ghost predicate DefiniteAt(mu: nat -> real, p: Poly) {
    NormSq(mu, p) >= 0.0 && (NormSq(mu, p) == 0.0 <==> forall i :: 0 <= i < |p| ==> p[i] == 0.0)
  }

  /** norm_sq is positive definite on polynomials of degree at most five. */
  ghost predicate DefiniteUpToDegreeFive(mu: nat -> real) {
    forall p: Poly {:trigger DefiniteAt(mu, p)} :: |p| <= 6 ==> DefiniteAt(mu, p)
  }

  /** On [-a, a] with a > 0 the integral of p * p is positive unless p is zero. */
  lemma {:induction false} MomentsDefinite(a: real)
    requires a > 0.0
    ensures DefiniteUpToDegreeFive(Moments(a))
  {
    var mu := Moments(a);
    var b := Pow(a, 2);
    PowPos(a, 2);
    MomentsOddVanish(a);
    IntervalEvenMoments(a);
    forall p: Poly | |p| <= 6 ensures DefiniteAt(mu, p) {
      DefiniteFromMoments(mu, a, b, p);
    }
  }
}
