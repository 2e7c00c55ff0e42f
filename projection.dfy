/** projection_gs and the driver of main. The function being approximated,
    sin(x) in the program, is not a polynomial; it enters only through its
    inner products with polynomials, so it is given by its moment sequence
    m(j) = <v, x^j>, and then <v, p> = p_0 * m(0) + p_1 * m(1) + ... for
    every polynomial p. */
module Projector {
  import opened Polynomials
  import opened InnerProduct
  import opened Orthogonalizer

  /** <v, p> for the target v with moments m. */
  function InpTarget(m: nat -> real, p: Poly): real {
    Integral(m, p)
  }

  /** The moments of a polynomial target p: j maps to <p, x^j>. */
  function PolyMoments(mu: nat -> real, p: Poly): nat -> real {
    (j: nat) => RowSum(mu, p, j, |p|)
  }

  /** A polynomial taken as a target through its moments has the inner
      products inp gives it. */
  lemma {:induction false} PolyMomentsInp(mu: nat -> real, p: Poly, q: Poly)
    ensures InpTarget(PolyMoments(mu, p), q) == Inp(mu, p, q)
  {
    PolyMomentsGram(mu, p, q, |q|);
    InpSymmetric(mu, q, p);
  }

  lemma {:induction false} PolyMomentsGram(mu: nat -> real, p: Poly, q: Poly, n: nat)
    ensures IntegralUpTo(PolyMoments(mu, p), q, n) == GramSum(mu, q, p, n, |p|)
  {
    if n > 0 {
      PolyMomentsGram(mu, p, q, n - 1);
    }
  }

  /** The normalised e of the records, in order. */
  function Es(gs: seq<GSVec>): (es: seq<Poly>)
    ensures |es| == |gs| && forall k :: 0 <= k < |gs| ==> es[k] == gs[k].e
  {
    seq(|gs|, k requires 0 <= k < |gs| => gs[k].e)
  }

  /** The weights <v, e_k> of projection_gs. */
  function Weights(m: nat -> real, gs: seq<GSVec>): (c: seq<real>)
    ensures |c| == |gs| && forall k :: 0 <= k < |gs| ==> c[k] == InpTarget(m, gs[k].e)
  {
    seq(|gs|, k requires 0 <= k < |gs| => InpTarget(m, gs[k].e))
  }

  /** projection_gs: <v, e_1> * e_1 + ... + <v, e_n> * e_n over the records
      in the order of the dictionary's values. */
  function ProjectionGs(m: nat -> real, gs: seq<GSVec>): Poly {
    LinComb(Weights(m, gs), Es(gs))
  }

  /** Against g with <e_k, g> == 1 and <e_j, g> == 0 for the other j, a
      combination with weight x at k has inner product x with g. */
  lemma {:induction false} PickUnit(mu: nat -> real, c: seq<real>, es: seq<Poly>, g: Poly, k: nat, x: real, total: real)
    requires |c| == |es| && k < |es|
    requires forall j :: 0 <= j < |es| && j != k ==> Inp(mu, es[j], g) == 0.0
    requires Inp(mu, es[k], g) == 1.0 && c[k] == x
    requires total == Inp(mu, LinComb(c, es), g)
    ensures total == x
  {
    InpLinComb(mu, c, es, g, |es|);
    InpCombPick(mu, c, es, g, k, |es|);
  }

  /** The residual v - P v is orthogonal to every e_k: v and its projection
      have the same inner product with e_k. */
  lemma {:induction false} ProjectionResidual(mu: nat -> real, m: nat -> real, gs: seq<GSVec>, k: nat)
    requires Orthonormal(mu, gs) && k < |gs|
    ensures InpTarget(m, gs[k].e) - Inp(mu, ProjectionGs(m, gs), gs[k].e) == 0.0
  {
    var c, es, g := Weights(m, gs), Es(gs), gs[k].e;
    forall j | 0 <= j < |es| && j != k ensures Inp(mu, es[j], g) == 0.0 {
      assert es[j] == gs[j].e;
    }
    assert es[k] == g;
    PickUnit(mu, c, es, g, k, InpTarget(m, g), Inp(mu, ProjectionGs(m, gs), g));
  }

  /** Projecting e_k itself gives back e_k. */
  lemma {:induction false} ProjectionReproduces(mu: nat -> real, gs: seq<GSVec>, k: nat)
    requires Orthonormal(mu, gs) && k < |gs|
    ensures SamePoly(ProjectionGs(PolyMoments(mu, gs[k].e), gs), gs[k].e)
  {
    var c, es := Weights(PolyMoments(mu, gs[k].e), gs), Es(gs);
    forall j | 0 <= j < |gs| ensures c[j] == if j == k then 1.0 else 0.0 {
      PolyMomentsInp(mu, gs[k].e, gs[j].e);
      InpSymmetric(mu, gs[k].e, gs[j].e);
    }
    forall i: nat ensures Coef(ProjectionGs(PolyMoments(mu, gs[k].e), gs), i) == Coef(gs[k].e, i) {
      LinCombCoef(c, es, |es|, i);
      CombCoefUnit(c, es, |es|, k, i);
    }
  }

  /** projection_gs is idempotent: the projection, taken as a target through
      its moments, projects onto itself. */
  lemma {:induction false} ProjectionIdempotent(mu: nat -> real, m: nat -> real, gs: seq<GSVec>)
    requires Orthonormal(mu, gs)
    ensures ProjectionGs(PolyMoments(mu, ProjectionGs(m, gs)), gs) == ProjectionGs(m, gs)
  {
    var p := ProjectionGs(m, gs);
    var c, d := Weights(PolyMoments(mu, p), gs), Weights(m, gs);
    forall k | 0 <= k < |gs| ensures c[k] == d[k] {
      PolyMomentsInp(mu, p, gs[k].e);
      ProjectionResidual(mu, m, gs, k);
    }
    assert c == d;
  }

  /** The target v + w, by its moments. */
  function AddMoments(m: nat -> real, m': nat -> real): nat -> real {
    (j: nat) => m(j) + m'(j)
  }

  /** The target s * v, by its moments. */
  function ScaleMoments(s: real, m: nat -> real): nat -> real {
    (j: nat) => s * m(j)
  }

  lemma {:induction false} IntegralAddMoments(m: nat -> real, m': nat -> real, p: Poly, n: nat)
    ensures IntegralUpTo(AddMoments(m, m'), p, n) == IntegralUpTo(m, p, n) + IntegralUpTo(m', p, n)
  {
    if n > 0 {
      IntegralAddMoments(m, m', p, n - 1);
    }
  }

  lemma {:induction false} IntegralScaleMoments(s: real, m: nat -> real, p: Poly, n: nat)
    ensures IntegralUpTo(ScaleMoments(s, m), p, n) == s * IntegralUpTo(m, p, n)
  {
    if n > 0 {
      IntegralScaleMoments(s, m, p, n - 1);
    }
  }

  /** projection_gs is additive in the target. */
  lemma {:induction false} ProjectionAdditive(m: nat -> real, m': nat -> real, gs: seq<GSVec>)
    ensures SamePoly(ProjectionGs(AddMoments(m, m'), gs), Add(ProjectionGs(m, gs), ProjectionGs(m', gs)))
  {
    var c, c', d := Weights(m, gs), Weights(m', gs), Weights(AddMoments(m, m'), gs);
    forall j | 0 <= j < |gs| ensures d[j] == c[j] + c'[j] {
      IntegralAddMoments(m, m', gs[j].e, |gs[j].e|);
    }
    LinCombAddWeights(c, c', d, Es(gs));
  }

  /** projection_gs is homogeneous in the target. */
  lemma {:induction false} ProjectionHomogeneous(s: real, m: nat -> real, gs: seq<GSVec>)
    ensures SamePoly(ProjectionGs(ScaleMoments(s, m), gs), Scale(s, ProjectionGs(m, gs)))
  {
    var c, d := Weights(m, gs), Weights(ScaleMoments(s, m), gs);
    forall j | 0 <= j < |gs| ensures d[j] == s * c[j] {
      IntegralScaleMoments(s, m, gs[j].e, |gs[j].e|);
    }
    LinCombScaleWeights(s, c, d, Es(gs));
  }
  /** An odd target such as sin(x) has <v, x^j> == 0 for every even j. */
  ghost predicate OddTarget(m: nat -> real) {
    forall j: nat :: j % 2 == 0 ==> m(j) == 0.0
  }

  /** Every term p_j * m(j) of the integral vanishes, so the integral does. */
  lemma {:induction false} IntegralVanishes(m: nat -> real, p: Poly, n: nat)
    requires forall j: nat :: j < n ==> Coef(p, j) == 0.0 || m(j) == 0.0
    ensures IntegralUpTo(m, p, n) == 0.0
  {
    if n > 0 {
      IntegralVanishes(m, p, n - 1);
    }
  }

  /** e = f / norm has the parity of f. */
  lemma {:induction false} NormalisedParity(r: GSVec, t: nat)
    requires Normalised(r) && HasParity(r.f, t)
    ensures HasParity(r.e, t)
  {
    forall i: nat | i % 2 != t ensures Coef(r.e, i) == 0.0 {
      ScaleCoef(1.0 / r.norm, r.f, i);
    }
  }

  /** With e_k of the parity of k, the projection of an odd target has only
      odd powers of x: the weights <v, e_k> of even k vanish. */
  lemma {:induction false} ProjectionOdd(m: nat -> real, gs: seq<GSVec>)
    requires AllNormalised(gs) && ParityByPosition(gs) && OddTarget(m)
    ensures HasParity(ProjectionGs(m, gs), 1)
  {
    var c, es := Weights(m, gs), Es(gs);
    forall k | 0 <= k < |gs| ensures HasParity(es[k], k % 2) {
      assert Normalised(gs[k]) && HasParity(gs[k].f, k % 2);
      NormalisedParity(gs[k], k % 2);
    }
    forall k | 0 <= k < |gs| && k % 2 == 0 ensures c[k] == 0.0 {
      assert HasParity(es[k], 0);
      IntegralVanishes(m, es[k], |es[k]|);
    }
    forall i: nat | i % 2 != 1 ensures Coef(ProjectionGs(m, gs), i) == 0.0 {
      forall k | 0 <= k < |gs| ensures c[k] == 0.0 || Coef(es[k], i) == 0.0 {
        assert HasParity(es[k], k % 2);
      }
      LinCombCoef(c, es, |es|, i);
      CombCoefZero(c, es, |es|, i);
    }
  }

  /** main: the basis x^0, ..., x^5 keyed 1..6, gram_schmidt on it with the
      inner product of [-a, a], and projection_gs of the target with
      moments m onto the resulting e_1, ..., e_6. MonomialRecords states
      what the records are; here the projection leaves a residual
      orthogonal to every e_k, and is odd for an odd target. */
  method ProjectTarget(a: real, sqrt: real -> real, m: nat -> real) returns (gsVecs: map<int, GSVec>, proj: Poly)
    requires a > 0.0 && IsSqrt(sqrt)
    ensures KeysUpTo(MonomialBasis(), N) && Defined(Moments(a), sqrt, InOrder(MonomialBasis(), N), N)
    ensures KeysUpTo(gsVecs, N)
    ensures InOrder(gsVecs, N) == Orthogonalize(Moments(a), sqrt, InOrder(MonomialBasis(), N), N)
    ensures proj == ProjectionGs(m, InOrder(gsVecs, N))
    ensures forall k :: 1 <= k <= N ==> InpTarget(m, gsVecs[k].e) - Inp(Moments(a), proj, gsVecs[k].e) == 0.0
    ensures OddTarget(m) ==> HasParity(proj, 1)
  {
    var basis := MonomialBasis();
    MonomialsDefined(a, sqrt);
    gsVecs := GramSchmidt(Moments(a), sqrt, basis, N);
    var gs := InOrder(gsVecs, N);
    proj := ProjectionGs(m, gs);
    MonomialRecords(a, sqrt);
    forall k | 1 <= k <= N ensures InpTarget(m, gsVecs[k].e) - Inp(Moments(a), proj, gsVecs[k].e) == 0.0 {
      ProjectionResidual(Moments(a), m, gs, k - 1);
    }
    if OddTarget(m) {
      ProjectionOdd(m, gs);
    }
  }
}
