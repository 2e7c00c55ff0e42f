/** Exact real polynomials in one variable x, as coefficient vectors.
    These are the symbolic expressions the Gram–Schmidt core builds: the
    monomial basis, the orthogonal remainders f, the normalised e and the
    projection are all polynomials of degree at most five. */
module Polynomials {

  /** p[i] is the coefficient of x^i; trailing zero coefficients are allowed,
      so a polynomial has many representations of different lengths. */
  type Poly = seq<real>

  /** The coefficient of x^i, zero beyond the stored ones. */
  function Coef(p: Poly, i: nat): real {
    if i < |p| then p[i] else 0.0
  }

  function Max(m: nat, n: nat): nat {
    if m < n then n else m
  }

  /** p + q */
  function Add(p: Poly, q: Poly): (r: Poly)
    ensures |r| == Max(|p|, |q|)
  {
    seq(Max(|p|, |q|), i requires 0 <= i => Coef(p, i) + Coef(q, i))
  }

  /** p - q */
  function Sub(p: Poly, q: Poly): (r: Poly)
    ensures |r| == Max(|p|, |q|)
  {
    seq(Max(|p|, |q|), i requires 0 <= i => Coef(p, i) - Coef(q, i))
  }

  /** c * p */
  function Scale(c: real, p: Poly): (r: Poly)
    ensures |r| == |p|
  {
    seq(|p|, i requires 0 <= i < |p| => c * p[i])
  }

  /** x^k * p */
  function Shift(k: nat, p: Poly): (r: Poly)
    ensures |r| == k + |p|
  {
    seq(k + |p|, i requires 0 <= i < k + |p| => if i < k then 0.0 else p[i - k])
  }

  /** The monomial x^k as a vector of n coefficients (k < n). */
  function Mono(n: nat, k: nat): (r: Poly)
    ensures |r| == n
  {
    seq(n, i requires 0 <= i < n => if i == k then 1.0 else 0.0)
  }

  /** The product p * q, built as the sum over i < n of x^i * p_i * q. */
  function MulUpTo(p: Poly, q: Poly, n: nat): Poly {
    if n == 0 then [] else Add(MulUpTo(p, q, n - 1), Shift(n - 1, Scale(Coef(p, n - 1), q)))
  }

  function Mul(p: Poly, q: Poly): Poly {
    MulUpTo(p, q, |p|)
  }

  /** c[0] * p[0] + c[1] * p[1] + ... summed left to right from the zero
      polynomial, as Python's sum() over a list of scaled polynomials;
      LinCombUpTo sums the first n terms. */
  function LinCombUpTo(c: seq<real>, ps: seq<Poly>, n: nat): Poly
    requires n <= |c| == |ps|
  {
    if n == 0 then [] else Add(LinCombUpTo(c, ps, n - 1), Scale(c[n - 1], ps[n - 1]))
  }

  function LinComb(c: seq<real>, ps: seq<Poly>): Poly
    requires |c| == |ps|
  {
    LinCombUpTo(c, ps, |ps|)
  }

  /** Coefficientwise meaning of the operations. */
  lemma {:induction false} AddCoef(p: Poly, q: Poly, i: nat)
    ensures Coef(Add(p, q), i) == Coef(p, i) + Coef(q, i)
  {
  }

  lemma {:induction false} SubCoef(p: Poly, q: Poly, i: nat)
    ensures Coef(Sub(p, q), i) == Coef(p, i) - Coef(q, i)
  {
  }

  lemma {:induction false} ScaleCoef(c: real, p: Poly, i: nat)
    ensures Coef(Scale(c, p), i) == c * Coef(p, i)
  {
  }

  lemma {:induction false} ShiftCoef(k: nat, p: Poly, i: nat)
    ensures Coef(Shift(k, p), i) == if i < k then 0.0 else Coef(p, i - k)
  {
  }

  lemma {:induction false} MonoCoef(n: nat, k: nat, i: nat)
    ensures Coef(Mono(n, k), i) == if i == k && k < n then 1.0 else 0.0
  {
  }

  /** p and q are the same polynomial, possibly stored with different
      numbers of trailing zeros. */
  ghost predicate SamePoly(p: Poly, q: Poly) {
    forall i: nat :: Coef(p, i) == Coef(q, i)
  }

  /** Two polynomials of the same length are equal when all coefficients are. */
  lemma {:induction false} CoefExt(p: Poly, q: Poly)
    requires |p| == |q|
    requires forall i: nat :: Coef(p, i) == Coef(q, i)
    ensures p == q
  {
    forall i | 0 <= i < |p| ensures p[i] == q[i] {
      assert Coef(p, i) == Coef(q, i);
    }
  }

  /** The product has no more than n + |q| coefficients. */
  lemma {:induction false} MulUpToLength(p: Poly, q: Poly, n: nat)
    ensures |MulUpTo(p, q, n)| <= n + |q|
  {
    if n > 0 {
      MulUpToLength(p, q, n - 1);
    }
  }

  /** A combination of polynomials with at most m coefficients has at most m. */
  lemma {:induction false} LinCombBound(c: seq<real>, ps: seq<Poly>, n: nat, m: nat)
    requires n <= |c| == |ps|
    requires forall j :: 0 <= j < n ==> |ps[j]| <= m
    ensures |LinCombUpTo(c, ps, n)| <= m
  {
    if n > 0 {
      LinCombBound(c, ps, n - 1, m);
    }
  }

  /** Coefficient i of the first n terms of a combination, as a sum of reals:
      c[0] * ps[0]_i + ... + c[n-1] * ps[n-1]_i. */
  function CombCoef(c: seq<real>, ps: seq<Poly>, n: nat, i: nat): real
    requires n <= |c| == |ps|
  {
    if n == 0 then 0.0 else CombCoef(c, ps, n - 1, i) + c[n - 1] * Coef(ps[n - 1], i)
  }

  /** Coefficient i of a combination is the weighted sum of the coefficients
      i of its terms. */
  lemma {:induction false} LinCombCoef(c: seq<real>, ps: seq<Poly>, n: nat, i: nat)
    requires n <= |c| == |ps|
    ensures Coef(LinCombUpTo(c, ps, n), i) == CombCoef(c, ps, n, i)
  {
    if n > 0 {
      LinCombCoef(c, ps, n - 1, i);
      AddCoef(LinCombUpTo(c, ps, n - 1), Scale(c[n - 1], ps[n - 1]), i);
      ScaleCoef(c[n - 1], ps[n - 1], i);
    }
  }

  /** The weighted sum vanishes when every term contributes nothing: a zero
      weight or a zero coefficient. */
  lemma {:induction false} CombCoefZero(c: seq<real>, ps: seq<Poly>, n: nat, i: nat)
    requires n <= |c| == |ps|
    requires forall j :: 0 <= j < n ==> c[j] == 0.0 || Coef(ps[j], i) == 0.0
    ensures CombCoef(c, ps, n, i) == 0.0
  {
    if n > 0 {
      CombCoefZero(c, ps, n - 1, i);
    }
  }

  /** With weight 1 at k and 0 elsewhere the weighted sum picks term k. */
  lemma {:induction false} CombCoefUnit(c: seq<real>, ps: seq<Poly>, n: nat, k: nat, i: nat)
    requires n <= |c| == |ps| && k < n
    requires forall j :: 0 <= j < n ==> c[j] == if j == k then 1.0 else 0.0
    ensures CombCoef(c, ps, n, i) == Coef(ps[k], i)
  {
    if k < n - 1 {
      CombCoefUnit(c, ps, n - 1, k, i);
    } else {
      CombCoefZero(c, ps, n - 1, i);
    }
  }

  /** The weighted sum is additive in the weights. */
  lemma {:induction false} CombCoefAddWeights(c: seq<real>, d: seq<real>, e: seq<real>, ps: seq<Poly>, n: nat, i: nat)
    requires n <= |c| == |d| == |e| == |ps|
    requires forall j :: 0 <= j < n ==> e[j] == c[j] + d[j]
    ensures CombCoef(e, ps, n, i) == CombCoef(c, ps, n, i) + CombCoef(d, ps, n, i)
  {
    if n > 0 {
      CombCoefAddWeights(c, d, e, ps, n - 1, i);
    }
  }

  /** The weighted sum is homogeneous in the weights. */
  lemma {:induction false} CombCoefScaleWeights(s: real, c: seq<real>, d: seq<real>, ps: seq<Poly>, n: nat, i: nat)
    requires n <= |c| == |d| == |ps|
    requires forall j :: 0 <= j < n ==> d[j] == s * c[j]
    ensures CombCoef(d, ps, n, i) == s * CombCoef(c, ps, n, i)
  {
    if n > 0 {
      CombCoefScaleWeights(s, c, d, ps, n - 1, i);
    }
  }
  /** A combination is additive in its weights. */
  lemma {:induction false} LinCombAddWeights(c: seq<real>, d: seq<real>, e: seq<real>, ps: seq<Poly>)
    requires |c| == |d| == |e| == |ps|
    requires forall j :: 0 <= j < |ps| ==> e[j] == c[j] + d[j]
    ensures SamePoly(LinComb(e, ps), Add(LinComb(c, ps), LinComb(d, ps)))
  {
    forall i: nat ensures Coef(LinComb(e, ps), i) == Coef(Add(LinComb(c, ps), LinComb(d, ps)), i) {
      AddCoef(LinComb(c, ps), LinComb(d, ps), i);
      LinCombCoef(c, ps, |ps|, i);
      LinCombCoef(d, ps, |ps|, i);
      LinCombCoef(e, ps, |ps|, i);
      CombCoefAddWeights(c, d, e, ps, |ps|, i);
    }
  }

  /** A combination is homogeneous in its weights. */
  lemma {:induction false} LinCombScaleWeights(s: real, c: seq<real>, d: seq<real>, ps: seq<Poly>)
    requires |c| == |d| == |ps|
    requires forall j :: 0 <= j < |ps| ==> d[j] == s * c[j]
    ensures SamePoly(LinComb(d, ps), Scale(s, LinComb(c, ps)))
  {
    forall i: nat ensures Coef(LinComb(d, ps), i) == Coef(Scale(s, LinComb(c, ps)), i) {
      ScaleCoef(s, LinComb(c, ps), i);
      LinCombScaleCoef(s, c, d, ps, i);
    }
  }

  lemma {:induction false} LinCombScaleCoef(s: real, c: seq<real>, d: seq<real>, ps: seq<Poly>, i: nat)
    requires |c| == |d| == |ps|
    requires forall j :: 0 <= j < |ps| ==> d[j] == s * c[j]
    ensures Coef(LinComb(d, ps), i) == s * Coef(LinComb(c, ps), i)
  {
    CombCoefScaleWeights(s, c, d, ps, |ps|, i);
    CoefOfScaledWeights(s, c, d, ps, i);
  }

  /** LinCombScaleCoef's last step, kept apart so that the two bridges from
      LinComb to CombCoef are not unfolded in the same proof as the
      scaled-weight sum. */
  lemma {:induction false} CoefOfScaledWeights(s: real, c: seq<real>, d: seq<real>, ps: seq<Poly>, i: nat)
    requires |c| == |d| == |ps|
    requires CombCoef(d, ps, |ps|, i) == s * CombCoef(c, ps, |ps|, i)
    ensures Coef(LinComb(d, ps), i) == s * Coef(LinComb(c, ps), i)
  {
    LinCombCoef(c, ps, |ps|, i);
    LinCombCoef(d, ps, |ps|, i);
  }
}
