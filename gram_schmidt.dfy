/** Gram–Schmidt on the monomial basis: gs_step, the GSVec records and
    gram_schmidt, which fills a dictionary keyed 1..6 with one record per
    basis polynomial, each built from all the records before it. */
module Orthogonalizer {
  import opened Polynomials
  import opened InnerProduct

  /** GSVec: the orthogonal remainder f, its norm, its squared norm and the
      normalised e = f / norm. */
  datatype GSVec = GSVec(f: Poly, norm: real, normSq: real, e: Poly)

  /** The number of basis polynomials, keyed 1..N. */
  const N: nat := 6

  /** The dictionary has keys 1..n, and possibly others. */
  ghost predicate HasKeys<T>(d: map<int, T>, n: nat) {
    forall k :: 1 <= k <= n ==> k in d
  }

  /** The dictionary has exactly the keys 1..n. */
  ghost predicate KeysUpTo<T>(d: map<int, T>, n: nat) {
    HasKeys(d, n) && forall k :: k in d ==> 1 <= k <= n
  }

  /** The values of a dictionary keyed 1..n in key order: for the
      dictionaries here keys are inserted in increasing order, so this is
      list(d.values()). */
  function InOrder<T>(d: map<int, T>, n: nat): (s: seq<T>)
    requires HasKeys(d, n)
    ensures |s| == n && forall i :: 0 <= i < n ==> s[i] == d[i + 1]
  {
    seq(n, i requires 0 <= i < n => d[i + 1])
  }

  /** The basis of main: key k holds the monomial x^(k-1), stored with k
      coefficients. */
  function MonomialBasis(): map<int, Poly> {
    map[1 := [1.0], 2 := [0.0, 1.0], 3 := [0.0, 0.0, 1.0], 4 := [0.0, 0.0, 0.0, 1.0],
        5 := [0.0, 0.0, 0.0, 0.0, 1.0], 6 := [0.0, 0.0, 0.0, 0.0, 0.0, 1.0]]
  }

  /** p is x^d plus terms of lower degree. */
  ghost predicate Monic(p: Poly, d: nat) {
    Coef(p, d) == 1.0 && forall i: nat :: d < i ==> Coef(p, i) == 0.0
  }

  /** The monomial basis is x^0, ..., x^5: position k is monic of degree k
      with k + 1 coefficients, and has the parity of k. */
  lemma {:induction false} MonomialBasisShape()
    ensures KeysUpTo(MonomialBasis(), N)
    ensures forall k :: 0 <= k < N ==>
      InOrder(MonomialBasis(), N)[k] == Mono(k + 1, k)
      && Monic(Mono(k + 1, k), k) && HasParity(Mono(k + 1, k), k % 2)
  {
    var basis := InOrder(MonomialBasis(), N);
    forall k | 0 <= k < N
      ensures basis[k] == Mono(k + 1, k) && Monic(Mono(k + 1, k), k) && HasParity(Mono(k + 1, k), k % 2)
    {
      var m := Mono(k + 1, k);
      forall i: nat ensures Coef(basis[k], i) == Coef(m, i) {
        MonoCoef(k + 1, k, i);
      }
      CoefExt(basis[k], m);
      MonoCoef(k + 1, k, k);
      forall i: nat | k < i ensures Coef(m, i) == 0.0 {
        MonoCoef(k + 1, k, i);
      }
      MonoParity(k + 1, k);
    }
  }

  // ---------------------------------------------------------------------
  // gs_step

  /** The remainders f of the records, in order. */
  function Fs(gs: seq<GSVec>): (fs: seq<Poly>)
    ensures |fs| == |gs| && forall j :: 0 <= j < |gs| ==> fs[j] == gs[j].f
  {
    seq(|gs|, j requires 0 <= j < |gs| => gs[j].f)
  }

  /** No record would make gs_step divide by zero. */
  ghost predicate NonzeroNorms(gs: seq<GSVec>) {
    forall j :: 0 <= j < |gs| ==> gs[j].normSq != 0.0
  }

  /** The weights <v, f_j> / norm_sq_j of gs_step. */
  function StepWeights(mu: nat -> real, v: Poly, gs: seq<GSVec>): (c: seq<real>)
    requires NonzeroNorms(gs)
    ensures |c| == |gs|
  {
    seq(|gs|, j requires 0 <= j < |gs| => Inp(mu, v, gs[j].f) / gs[j].normSq)
  }

  /** gs_step: v minus its projection onto each earlier remainder f_j,
      scaled by the cached norm_sq of f_j. */
  function GsStep(mu: nat -> real, v: Poly, gs: seq<GSVec>): Poly
    requires NonzeroNorms(gs)
  {
    Sub(v, LinComb(StepWeights(mu, v, gs), Fs(gs)))
  }

  /** With no records gs_step returns v itself. */
  lemma {:induction false} GsStepEmpty(mu: nat -> real, v: Poly)
    ensures GsStep(mu, v, []) == v
  {
    var r := GsStep(mu, v, []);
    forall i: nat ensures Coef(r, i) == Coef(v, i) {
      SubCoef(v, [], i);
    }
    CoefExt(r, v);
  }

  /** The record caches its squared norm: norm_sq is <f, f>, and positive. */
  ghost predicate Cached(mu: nat -> real, r: GSVec) {
    r.normSq == NormSq(mu, r.f) && r.normSq > 0.0
  }

  /** norm is the positive square root of norm_sq and e = f / norm. */
  ghost predicate Normalised(r: GSVec) {
    r.norm > 0.0 && r.norm * r.norm == r.normSq && r.e == Scale(1.0 / r.norm, r.f)
  }

  ghost predicate AllCached(mu: nat -> real, gs: seq<GSVec>) {
    forall j :: 0 <= j < |gs| ==> Cached(mu, gs[j])
  }

  ghost predicate AllNormalised(gs: seq<GSVec>) {
    forall j :: 0 <= j < |gs| ==> Normalised(gs[j])
  }

  /** The remainders of the records are pairwise orthogonal. */
  ghost predicate Orthogonal(mu: nat -> real, gs: seq<GSVec>) {
    forall i, j :: 0 <= i < |gs| && 0 <= j < |gs| && i != j ==> Inp(mu, gs[i].f, gs[j].f) == 0.0
  }

  /** gs_step removes every component along the earlier remainders: when
      they are pairwise orthogonal and carry their own squared norms, the
      result is orthogonal to each of them. */
  lemma {:induction false} GsStepOrthogonal(mu: nat -> real, v: Poly, gs: seq<GSVec>, k: nat)
    requires AllCached(mu, gs) && Orthogonal(mu, gs) && k < |gs|
    ensures Inp(mu, GsStep(mu, v, gs), gs[k].f) == 0.0
  {
    var c, fs, g := StepWeights(mu, v, gs), Fs(gs), gs[k].f;
    var l := LinComb(c, fs);
    assert Cached(mu, gs[k]);
    InpSub(mu, v, l, g);
    forall j | 0 <= j < |fs| && j != k ensures Inp(mu, fs[j], g) == 0.0 {
      assert fs[j] == gs[j].f;
    }
    PickWeight(mu, c, fs, g, k, Inp(mu, v, g), gs[k].normSq, Inp(mu, l, g));
  }

  /** Against g orthogonal to every fs[j] but fs[k], with <fs[k], g> == d
      and weight c[k] == x / d, the combination has inner product x with g. */
  lemma {:induction false} PickWeight(mu: nat -> real, c: seq<real>, fs: seq<Poly>, g: Poly, k: nat, x: real, d: real, total: real)
    requires |c| == |fs| && k < |fs|
    requires forall j :: 0 <= j < |fs| && j != k ==> Inp(mu, fs[j], g) == 0.0
    requires d != 0.0 && c[k] == x / d && Inp(mu, fs[k], g) == d
    requires total == Inp(mu, LinComb(c, fs), g)
    ensures total == x
  {
    InpLinComb(mu, c, fs, g, |fs|);
    InpCombPick(mu, c, fs, g, k, |fs|);
    Cancel(x, d, c[k], Inp(mu, fs[k], g), InpComb(mu, c, fs, g, |fs|));
  }

  /** The picked term (x / d) * d' with d' == d is x. The numbers are
      passed as plain reals so that the division is cancelled without the
      inner products and sums they stand for in scope. */
  lemma {:induction false} Cancel(x: real, d: real, w: real, d': real, picked: real)
    requires d != 0.0 && w == x / d && d' == d && picked == w * d'
    ensures picked == x
  {
  }

  /** gs_step leaves v as it is when v is already orthogonal to every
      earlier remainder: every weight <v, f_j> / norm_sq_j is zero. */
  lemma {:induction false} GsStepFixesOrthogonal(mu: nat -> real, v: Poly, gs: seq<GSVec>)
    requires NonzeroNorms(gs)
    requires forall j :: 0 <= j < |gs| ==> Inp(mu, v, gs[j].f) == 0.0
    ensures SamePoly(GsStep(mu, v, gs), v)
  {
    var c, fs := StepWeights(mu, v, gs), Fs(gs);
    forall i: nat ensures Coef(GsStep(mu, v, gs), i) == Coef(v, i) {
      SubCoef(v, LinComb(c, fs), i);
      LinCombCoef(c, fs, |fs|, i);
      CombCoefZero(c, fs, |fs|, i);
    }
  }

  /** A second gs_step against the same records changes nothing: the first
      one already left a remainder orthogonal to all of them. */
  lemma {:induction false} GsStepIdempotent(mu: nat -> real, v: Poly, gs: seq<GSVec>)
    requires AllCached(mu, gs) && Orthogonal(mu, gs)
    ensures SamePoly(GsStep(mu, GsStep(mu, v, gs), gs), GsStep(mu, v, gs))
  {
    var w := GsStep(mu, v, gs);
    forall j | 0 <= j < |gs| ensures Inp(mu, w, gs[j].f) == 0.0 {
      GsStepOrthogonal(mu, v, gs, j);
    }
    GsStepFixesOrthogonal(mu, w, gs);
  }

  /** Coefficients above the degrees of the earlier remainders pass
      through gs_step unchanged. */
  lemma {:induction false} GsStepHighCoef(mu: nat -> real, v: Poly, gs: seq<GSVec>, i: nat)
    requires NonzeroNorms(gs) && |gs| <= i && MonicByPosition(gs)
    ensures Coef(GsStep(mu, v, gs), i) == Coef(v, i)
  {
    var c, fs := StepWeights(mu, v, gs), Fs(gs);
    SubCoef(v, LinComb(c, fs), i);
    LinCombCoef(c, fs, |fs|, i);
    CombCoefZero(c, fs, |fs|, i);
  }

  /** gs_step adds no coefficient beyond those of v and the remainders. */
  lemma {:induction false} GsStepLength(mu: nat -> real, v: Poly, gs: seq<GSVec>, m: nat)
    requires NonzeroNorms(gs) && |v| <= m
    requires forall j :: 0 <= j < |gs| ==> |gs[j].f| <= m
    ensures |GsStep(mu, v, gs)| <= m
  {
    LinCombBound(StepWeights(mu, v, gs), Fs(gs), |gs|, m);
  }

  /** With vanishing odd moments gs_step keeps the parity of v when every
      earlier remainder has the parity of its position. */
  lemma {:induction false} GsStepParity(mu: nat -> real, v: Poly, s: nat, gs: seq<GSVec>)
    requires OddMomentsVanish(mu) && s < 2 && HasParity(v, s) && NonzeroNorms(gs)
    requires ParityByPosition(gs)
    ensures HasParity(GsStep(mu, v, gs), s)
  {
    var c, fs := StepWeights(mu, v, gs), Fs(gs);
    forall j | 0 <= j < |gs| && j % 2 != s ensures c[j] == 0.0 {
      InpParity(mu, v, s, gs[j].f, j % 2);
    }
    forall i: nat | i % 2 != s ensures Coef(GsStep(mu, v, gs), i) == 0.0 {
      SubCoef(v, LinComb(c, fs), i);
      LinCombCoef(c, fs, |fs|, i);
      CombCoefZero(c, fs, |fs|, i);
    }
  }

  // ---------------------------------------------------------------------
  // gram_schmidt as a specification

  /** A record for remainder f. */
  function MakeVec(mu: nat -> real, sqrt: real -> real, f: Poly): (r: GSVec)
    requires IsSqrt(sqrt) && NormSq(mu, f) > 0.0
    ensures r.f == f && Cached(mu, r) && Normalised(r)
  {
    var ns := NormSq(mu, f);
    var n := sqrt(ns);
    GSVec(f, n, ns, Scale(1.0 / n, f))
  }

  /** No norm_sq of the first n records is zero, so each step is defined. */
  ghost predicate Defined(mu: nat -> real, sqrt: real -> real, basis: seq<Poly>, n: nat)
    requires IsSqrt(sqrt) && n <= |basis|
    decreases n, 0
  {
    n == 0 || (Defined(mu, sqrt, basis, n - 1) && StepNormSq(mu, sqrt, basis, n - 1) > 0.0)
  }

  /** norm_sq of the remainder gs_step leaves of basis[n] after the first
      n records. */
  ghost function StepNormSq(mu: nat -> real, sqrt: real -> real, basis: seq<Poly>, n: nat): real
    requires IsSqrt(sqrt) && n < |basis| && Defined(mu, sqrt, basis, n)
    decreases n, 2
  {
    NormSq(mu, GsStep(mu, basis[n], Orthogonalize(mu, sqrt, basis, n)))
  }

  /** The records gram_schmidt builds for the first n basis polynomials:
      record k comes from basis[k] and all records before it. */
  function Orthogonalize(mu: nat -> real, sqrt: real -> real, basis: seq<Poly>, n: nat): (gs: seq<GSVec>)
    requires IsSqrt(sqrt) && n <= |basis| && Defined(mu, sqrt, basis, n)
    ensures |gs| == n && AllCached(mu, gs) && AllNormalised(gs)
    decreases n, 1
  {
    if n == 0 then []
    else
      var gs := Orthogonalize(mu, sqrt, basis, n - 1);
      assert StepNormSq(mu, sqrt, basis, n - 1) == NormSq(mu, GsStep(mu, basis[n - 1], gs));
      gs + [MakeVec(mu, sqrt, GsStep(mu, basis[n - 1], gs))]
  }

  lemma {:induction false} DefinedPrefix(mu: nat -> real, sqrt: real -> real, basis: seq<Poly>, m: nat, n: nat)
    requires IsSqrt(sqrt) && m <= n <= |basis| && Defined(mu, sqrt, basis, n)
    ensures Defined(mu, sqrt, basis, m)
    decreases n
  {
    if m < n {
      DefinedPrefix(mu, sqrt, basis, m, n - 1);
    }
  }

  /** gs lists records as gram_schmidt builds them from basis: each caches
      its squared norm, and the last has remainder gs_step(basis[k], the
      records before it), the records before it being built in turn. */
  ghost predicate Built(mu: nat -> real, basis: seq<Poly>, gs: seq<GSVec>)
    decreases |gs|
  {
    |gs| <= |basis| && AllCached(mu, gs)
    && (gs == [] ||
        (Built(mu, basis, gs[..|gs| - 1])
         && gs[|gs| - 1].f == GsStep(mu, basis[|gs| - 1], gs[..|gs| - 1])))
  }

  /** Orthogonalize builds its records that way. */
  lemma {:induction false} OrthogonalizeBuilt(mu: nat -> real, sqrt: real -> real, basis: seq<Poly>, n: nat)
    requires IsSqrt(sqrt) && n <= |basis| && Defined(mu, sqrt, basis, n)
    ensures Built(mu, basis, Orthogonalize(mu, sqrt, basis, n))
  {
    if n > 0 {
      OrthogonalizeBuilt(mu, sqrt, basis, n - 1);
      var gs := Orthogonalize(mu, sqrt, basis, n - 1);
      OrthogonalizeNext(mu, sqrt, basis, n, GsStep(mu, basis[n - 1], gs));
      var all := Orthogonalize(mu, sqrt, basis, n);
      assert all[..n - 1] == gs;
    }
  }

  /** The first built record has f = basis[0], as gram_schmidt sets it. */
  lemma {:induction false} BuiltFirst(mu: nat -> real, basis: seq<Poly>, gs: seq<GSVec>)
    requires Built(mu, basis, gs) && gs != []
    ensures gs[0].f == basis[0]
    decreases |gs|
  {
    var n := |gs| - 1;
    if n == 0 {
      assert gs[..n] == [];
      GsStepEmpty(mu, basis[0]);
    } else {
      BuiltFirst(mu, basis, gs[..n]);
      assert gs[..n][0] == gs[0];
    }
  }

  /** The remainders of built records are pairwise orthogonal. */
  lemma {:induction false} BuiltOrthogonal(mu: nat -> real, basis: seq<Poly>, gs: seq<GSVec>)
    requires Built(mu, basis, gs)
    ensures Orthogonal(mu, gs)
    decreases |gs|
  {
    if gs != [] {
      var n := |gs| - 1;
      var before := gs[..n];
      BuiltOrthogonal(mu, basis, before);
      var f := gs[n].f;
      forall k | 0 <= k < n
        ensures Inp(mu, f, gs[k].f) == 0.0 && Inp(mu, gs[k].f, f) == 0.0
      {
        assert before[k] == gs[k];
        GsStepOrthogonal(mu, basis[n], before, k);
        InpSymmetric(mu, f, gs[k].f);
      }
      forall i, j | 0 <= i < n && 0 <= j < n && i != j ensures Inp(mu, gs[i].f, gs[j].f) == 0.0 {
        assert before[i] == gs[i] && before[j] == gs[j];
      }
    }
  }

  /** e = f / norm: scaling f and f' scales <f, f'> by both factors. */
  lemma {:induction false} InpNormalised(mu: nat -> real, r: GSVec, s: GSVec, x: real)
    requires Normalised(r) && Normalised(s) && x == Inp(mu, r.f, s.f)
    ensures Inp(mu, r.e, s.e) == (1.0 / r.norm) * ((1.0 / s.norm) * x)
  {
    InpScale(mu, 1.0 / r.norm, r.f, s.e);
    InpScaleRight(mu, 1.0 / s.norm, r.f, s.f);
  }

  /** (1/n) * ((1/n) * n^2) == 1 */
  lemma {:induction false} InverseSquare(n: real, ns: real, r: real)
    requires n * n == ns && n > 0.0 && r == (1.0 / n) * ((1.0 / n) * ns)
    ensures r == 1.0
  {
    var u := 1.0 / n;
    assert u * n == 1.0;
    assert u * (u * ns) == (u * n) * (u * n);
  }

  /** The normalised e of the records are orthonormal: <e_i, e_j> is 1
      when i == j and 0 otherwise. */
  ghost predicate Orthonormal(mu: nat -> real, gs: seq<GSVec>) {
    forall i, j :: 0 <= i < |gs| && 0 <= j < |gs| ==>
      Inp(mu, gs[i].e, gs[j].e) == if i == j then 1.0 else 0.0
  }

  /** Normalised records with orthogonal remainders are orthogonal, and the
      e of a record with cached norm_sq has <e, e> == 1. */
  lemma {:induction false} NormalisedOrthonormal(mu: nat -> real, gs: seq<GSVec>)
    requires Orthogonal(mu, gs) && AllCached(mu, gs) && AllNormalised(gs)
    ensures Orthonormal(mu, gs)
  {
    forall i, j | 0 <= i < |gs| && 0 <= j < |gs|
      ensures Inp(mu, gs[i].e, gs[j].e) == if i == j then 1.0 else 0.0
    {
      var r, s := gs[i], gs[j];
      assert Normalised(r) && Normalised(s) && Cached(mu, r);
      InpNormalised(mu, r, s, Inp(mu, r.f, s.f));
      if i == j {
        InverseSquare(r.norm, r.normSq, Inp(mu, r.e, s.e));
      }
    }
  }

  /** The e of built records are orthonormal (the table test_inp_orth prints). */
  lemma {:induction false} BuiltOrthonormal(mu: nat -> real, basis: seq<Poly>, gs: seq<GSVec>)
    requires Built(mu, basis, gs) && AllNormalised(gs)
    ensures Orthonormal(mu, gs)
  {
    BuiltOrthogonal(mu, basis, gs);
    NormalisedOrthonormal(mu, gs);
  }

  /** Remainder k is monic of degree k with at most k + 1 coefficients. */
  ghost predicate MonicByPosition(gs: seq<GSVec>) {
    forall k :: 0 <= k < |gs| ==> Monic(gs[k].f, k) && |gs[k].f| <= k + 1
  }

  /** Remainder k has the parity of k. */
  ghost predicate ParityByPosition(gs: seq<GSVec>) {
    forall k :: 0 <= k < |gs| ==> HasParity(gs[k].f, k % 2)
  }

  lemma {:induction false} MonicAppend(gs: seq<GSVec>)
    requires gs != [] && MonicByPosition(gs[..|gs| - 1])
    requires Monic(gs[|gs| - 1].f, |gs| - 1) && |gs[|gs| - 1].f| <= |gs|
    ensures MonicByPosition(gs)
  {
    forall k | 0 <= k < |gs| - 1 ensures Monic(gs[k].f, k) && |gs[k].f| <= k + 1 {
      assert gs[..|gs| - 1][k] == gs[k];
    }
  }

  lemma {:induction false} ParityAppend(gs: seq<GSVec>)
    requires gs != [] && ParityByPosition(gs[..|gs| - 1])
    requires HasParity(gs[|gs| - 1].f, (|gs| - 1) % 2)
    ensures ParityByPosition(gs)
  {
    forall k | 0 <= k < |gs| - 1 ensures HasParity(gs[k].f, k % 2) {
      assert gs[..|gs| - 1][k] == gs[k];
    }
  }

  /** One step of BuiltMonic: the new remainder is monic of degree |gs|. */
  lemma {:induction false} StepMonic(mu: nat -> real, v: Poly, gs: seq<GSVec>)
    requires NonzeroNorms(gs) && Monic(v, |gs|) && |v| <= |gs| + 1 && MonicByPosition(gs)
    ensures Monic(GsStep(mu, v, gs), |gs|) && |GsStep(mu, v, gs)| <= |gs| + 1
  {
    forall i: nat | |gs| <= i ensures Coef(GsStep(mu, v, gs), i) == Coef(v, i) {
      GsStepHighCoef(mu, v, gs, i);
    }
    GsStepLength(mu, v, gs, |gs| + 1);
  }

  /** A basis whose k-th polynomial is monic of degree k gives built
      remainders monic of degree k, with no more coefficients than the basis. */
  lemma {:induction false} BuiltMonic(mu: nat -> real, basis: seq<Poly>, gs: seq<GSVec>)
    requires Built(mu, basis, gs)
    requires forall k :: 0 <= k < |gs| ==> Monic(basis[k], k) && |basis[k]| <= k + 1
    ensures MonicByPosition(gs)
    decreases |gs|
  {
    if gs != [] {
      var n := |gs| - 1;
      BuiltMonic(mu, basis, gs[..n]);
      StepMonic(mu, basis[n], gs[..n]);
      MonicAppend(gs);
    }
  }

  /** With vanishing odd moments, a basis whose k-th polynomial has the
      parity of k gives built remainders with the parity of their position. */
  lemma {:induction false} BuiltParity(mu: nat -> real, basis: seq<Poly>, gs: seq<GSVec>)
    requires Built(mu, basis, gs) && OddMomentsVanish(mu)
    requires forall k :: 0 <= k < |gs| ==> HasParity(basis[k], k % 2)
    ensures ParityByPosition(gs)
    decreases |gs|
  {
    if gs != [] {
      var n := |gs| - 1;
      BuiltParity(mu, basis, gs[..n]);
      GsStepParity(mu, basis[n], n % 2, gs[..n]);
      ParityAppend(gs);
    }
  }

  /** A monic polynomial of degree d < 6 with at most d + 1 coefficients
      has positive norm_sq when norm_sq is definite up to degree five. */
  lemma {:induction false} MonicPositive(mu: nat -> real, f: Poly, d: nat)
    requires DefiniteUpToDegreeFive(mu) && d < N && Monic(f, d) && |f| <= d + 1
    ensures NormSq(mu, f) > 0.0
  {
    assert DefiniteAt(mu, f);
    assert f[d] != 0.0;
  }

  /** When norm_sq is positive definite up to degree five, a basis of at
      most six monic polynomials of increasing degree never makes gs_step
      divide by zero. */
  lemma {:induction false} DefinedForMonic(mu: nat -> real, sqrt: real -> real, basis: seq<Poly>, n: nat)
    requires IsSqrt(sqrt) && DefiniteUpToDegreeFive(mu) && n <= |basis| && n <= N
    requires MonicBasis(basis, n)
    ensures Defined(mu, sqrt, basis, n)
  {
    if n > 0 {
      DefinedForMonic(mu, sqrt, basis, n - 1);
      OrthogonalizeMonic(mu, sqrt, basis, n);
      MonicStepPositive(mu, sqrt, basis, n);
    }
  }

  /** Position k of the basis is monic of degree k, for k < n. */
  ghost predicate MonicBasis(basis: seq<Poly>, n: nat)
    requires n <= |basis|
  {
    forall k :: 0 <= k < n ==> Monic(basis[k], k) && |basis[k]| <= k + 1
  }

  /** The step for basis[n - 1] of such a basis has positive norm_sq. */
  lemma {:induction false} MonicStepPositive(mu: nat -> real, sqrt: real -> real, basis: seq<Poly>, n: nat)
    requires IsSqrt(sqrt) && DefiniteUpToDegreeFive(mu) && 0 < n <= |basis| && n <= N
    requires Defined(mu, sqrt, basis, n - 1) && MonicBasis(basis, n)
    requires MonicByPosition(Orthogonalize(mu, sqrt, basis, n - 1))
    ensures Defined(mu, sqrt, basis, n)
  {
    MonicRemainderPositive(mu, basis[n - 1], Orthogonalize(mu, sqrt, basis, n - 1), StepNormSq(mu, sqrt, basis, n - 1));
  }

  /** The records of the first n - 1 polynomials of a basis monic by
      position are monic by position. */
  lemma {:induction false} OrthogonalizeMonic(mu: nat -> real, sqrt: real -> real, basis: seq<Poly>, n: nat)
    requires IsSqrt(sqrt) && 0 < n <= |basis| && Defined(mu, sqrt, basis, n - 1) && MonicBasis(basis, n)
    ensures MonicByPosition(Orthogonalize(mu, sqrt, basis, n - 1))
  {
    OrthogonalizeBuilt(mu, sqrt, basis, n - 1);
    BuiltMonic(mu, basis, Orthogonalize(mu, sqrt, basis, n - 1));
  }

  /** gs_step of a monic v of degree |gs| < N against remainders monic by
      position leaves a remainder whose norm_sq x is positive. */
  lemma {:induction false} MonicRemainderPositive(mu: nat -> real, v: Poly, gs: seq<GSVec>, x: real)
    requires DefiniteUpToDegreeFive(mu) && |gs| < N && NonzeroNorms(gs) && MonicByPosition(gs)
    requires Monic(v, |gs|) && |v| <= |gs| + 1 && x == NormSq(mu, GsStep(mu, v, gs))
    ensures x > 0.0
  {
    StepMonic(mu, v, gs);
    MonicPositive(mu, GsStep(mu, v, gs), |gs|);
  }

  /** The first record keeps the first basis polynomial. */
  lemma {:induction false} OrthogonalizeFirst(mu: nat -> real, sqrt: real -> real, basis: seq<Poly>, n: nat)
    requires IsSqrt(sqrt) && 0 < n <= |basis| && Defined(mu, sqrt, basis, n)
    ensures Orthogonalize(mu, sqrt, basis, n)[0].f == basis[0]
  {
    OrthogonalizeBuilt(mu, sqrt, basis, n);
    BuiltFirst(mu, basis, Orthogonalize(mu, sqrt, basis, n));
  }

  /** For the inner product of [-a, a] with a > 0, the monomial basis of
      main never makes gs_step divide by zero. */
  lemma {:induction false} MonomialsDefined(a: real, sqrt: real -> real)
    requires a > 0.0 && IsSqrt(sqrt)
    ensures KeysUpTo(MonomialBasis(), N)
    ensures Defined(Moments(a), sqrt, InOrder(MonomialBasis(), N), N)
  {
    MonomialBasisShape();
    MomentsDefinite(a);
    DefinedForMonic(Moments(a), sqrt, InOrder(MonomialBasis(), N), N);
  }

  /** With vanishing odd moments, a basis whose k-th polynomial is monic of
      degree k with the parity of k gives orthonormal records whose k-th
      remainder is monic of degree k with the parity of k. */
  lemma {:induction false} MonicRecords(mu: nat -> real, sqrt: real -> real, basis: seq<Poly>, n: nat)
    requires IsSqrt(sqrt) && n <= |basis| && Defined(mu, sqrt, basis, n) && OddMomentsVanish(mu)
    requires forall k :: 0 <= k < n ==>
      Monic(basis[k], k) && |basis[k]| <= k + 1 && HasParity(basis[k], k % 2)
    ensures var gs := Orthogonalize(mu, sqrt, basis, n);
      Orthonormal(mu, gs) && MonicByPosition(gs) && ParityByPosition(gs)
  {
    var gs := Orthogonalize(mu, sqrt, basis, n);
    OrthogonalizeBuilt(mu, sqrt, basis, n);
    BuiltOrthonormal(mu, basis, gs);
    BuiltMonic(mu, basis, gs);
    BuiltParity(mu, basis, gs);
  }

  /** The records of the monomial basis on [-a, a] are orthonormal, and
      record k is monic of degree k with the parity of k. */
  lemma {:induction false} MonomialRecords(a: real, sqrt: real -> real)
    requires a > 0.0 && IsSqrt(sqrt)
    ensures KeysUpTo(MonomialBasis(), N) && Defined(Moments(a), sqrt, InOrder(MonomialBasis(), N), N)
    ensures var gs := Orthogonalize(Moments(a), sqrt, InOrder(MonomialBasis(), N), N);
      Orthonormal(Moments(a), gs) && MonicByPosition(gs) && ParityByPosition(gs)
  {
    MonomialsDefined(a, sqrt);
    MonomialBasisShape();
    MomentsOddVanish(a);
    MonicRecords(Moments(a), sqrt, InOrder(MonomialBasis(), N), N);
  }

  // ---------------------------------------------------------------------
  // gram_schmidt

  /** Inserting key n + 1 into a dictionary keyed 1..n gives one keyed
      1..n + 1 whose values in key order gain the new value at the end. */
  lemma {:induction false} InOrderInsert<T>(d: map<int, T>, n: nat, x: T)
    requires KeysUpTo(d, n)
    ensures KeysUpTo(d[n + 1 := x], n + 1)
    ensures InOrder(d[n + 1 := x], n + 1) == InOrder(d, n) + [x]
  {
  }

  /** The record gram_schmidt stores for key n extends the first n - 1
      records to the first n. */
  lemma {:induction false} OrthogonalizeNext(mu: nat -> real, sqrt: real -> real, basis: seq<Poly>, n: nat, f: Poly)
    requires IsSqrt(sqrt) && 0 < n <= |basis| && Defined(mu, sqrt, basis, n)
    requires f == GsStep(mu, basis[n - 1], Orthogonalize(mu, sqrt, basis, n - 1))
    ensures NormSq(mu, f) > 0.0
    ensures Orthogonalize(mu, sqrt, basis, n) == Orthogonalize(mu, sqrt, basis, n - 1) + [MakeVec(mu, sqrt, f)]
  {
    assert StepNormSq(mu, sqrt, basis, n - 1) == NormSq(mu, f);
  }

  /** The record for remainder f, as gram_schmidt builds it for key 1 and
      in each iteration: norm_sq, its square root, and f divided by it. */
  method MakeRecord(mu: nat -> real, sqrt: real -> real, f: Poly) returns (r: GSVec)
    requires IsSqrt(sqrt) && NormSq(mu, f) > 0.0
    ensures r.f == f && Cached(mu, r) && Normalised(r)
    ensures r == MakeVec(mu, sqrt, f)
  {
    var ns := NormSq(mu, f);
    var n := sqrt(ns);
    SqrtPositive(sqrt, ns);
    r := GSVec(f, n, ns, Scale(1.0 / n, f));
  }

  /** One iteration of gram_schmidt: the record for key k comes from
      v = basis[k] and the records of keys 1..k-1 in key order. */
  method AddRecord(mu: nat -> real, sqrt: real -> real, ghost vs: seq<Poly>, v: Poly,
                   gsVecs: map<int, GSVec>, k: nat) returns (next: map<int, GSVec>)
    requires IsSqrt(sqrt) && 0 < k <= |vs| && Defined(mu, sqrt, vs, k) && v == vs[k - 1]
    requires KeysUpTo(gsVecs, k - 1) && InOrder(gsVecs, k - 1) == Orthogonalize(mu, sqrt, vs, k - 1)
    ensures KeysUpTo(next, k) && InOrder(next, k) == Orthogonalize(mu, sqrt, vs, k)
  {
    var f := GsStep(mu, v, InOrder(gsVecs, k - 1));
    OrthogonalizeNext(mu, sqrt, vs, k, f);
    var r := MakeRecord(mu, sqrt, f);
    InOrderInsert(gsVecs, k - 1, r);
    next := gsVecs[k := r];
  }

  /** gram_schmidt: records for keys 1..n, key k from basis[k] and the
      records of keys 1..k-1, in a dictionary filled key by key. The
      source fixes n = N = 6; main passes N. */
  method GramSchmidt(mu: nat -> real, sqrt: real -> real, basis: map<int, Poly>, n: nat) returns (gsVecs: map<int, GSVec>)
    requires IsSqrt(sqrt) && 0 < n && HasKeys(basis, n)
    requires Defined(mu, sqrt, InOrder(basis, n), n)
    ensures KeysUpTo(gsVecs, n)
    ensures InOrder(gsVecs, n) == Orthogonalize(mu, sqrt, InOrder(basis, n), n)
    ensures gsVecs[1].f == basis[1]
  {
    ghost var vs := InOrder(basis, n);
    DefinedPrefix(mu, sqrt, vs, 1, n);
    GsStepEmpty(mu, vs[0]);
    var f1 := basis[1];
    OrthogonalizeNext(mu, sqrt, vs, 1, f1);
    var r1 := MakeRecord(mu, sqrt, f1);
    InOrderInsert(map[], 0, r1);
    gsVecs := map[1 := r1];
    for k := 2 to n + 1
      invariant KeysUpTo(gsVecs, k - 1) && Defined(mu, sqrt, vs, k - 1)
      invariant InOrder(gsVecs, k - 1) == Orthogonalize(mu, sqrt, vs, k - 1)
    {
      DefinedPrefix(mu, sqrt, vs, k, n);
      gsVecs := AddRecord(mu, sqrt, vs, basis[k], gsVecs, k);
    }
    OrthogonalizeFirst(mu, sqrt, vs, n);
  }
}
