# Gram–Schmidt on polynomials, projection of sin(x) — a Dafny model

`gs_poly_project.py` orthonormalises the monomials 1, x, …, x⁵ with the
inner product ⟨f, g⟩ = ∫ f·g over [−π, π]. It then projects sin(x) onto
their span.
- `gs_step` subtracts from vₖ its components along the earlier remainders.
- `gram_schmidt` fills a dictionary keyed 1..6 with `GSVec(f, norm,
  norm_sq, e)` records, where e = f / norm.
- `projection_gs` sums ⟨v, eₖ⟩·eₖ.

This project models that core exactly: real arithmetic, no rounding. It
proves the properties the program relies on.

## How the model represents the program

- **Polynomials** are coefficient vectors: `seq<real>`, where index i holds
  the coefficient of xⁱ (`Polynomials`). Trailing zeros are allowed, so
  `SamePoly` compares coefficient by coefficient.
- **The integral** (`comp_int`) of a polynomial is Σᵢ pᵢ·μ(i). The μ(i)
  are the moments of the interval: μ(n) = ∫ xⁿ. For [−a, a] these are
  `Moments(a)`, μ(n) = (aⁿ⁺¹ − (−a)ⁿ⁺¹)/(n+1). The parameter `a > 0`
  stands for π. Every algebraic lemma holds for an arbitrary moment
  sequence `mu`.
- **The inner product** `Inp` is the double sum Σᵢⱼ fᵢ gⱼ μ(i+j).
  `InpIntegral` proves that it equals the integral of the product
  polynomial `Mul(f, g)`, which is how `inp` computes it.
- **sin(x)**, the target v, is not a polynomial. It enters as its moment
  sequence m(j) = ⟨v, xʲ⟩, and ⟨v, p⟩ is `InpTarget(m, p)` = Σⱼ pⱼ·m(j).
  `PolyMomentsInp` shows that a polynomial target handled this way gives
  back `Inp`.
- **sqrt** is a parameter `sqrt: real -> real`, constrained by `IsSqrt`
  (non-negative and squaring back, on non-negative arguments).
- **The dictionaries** are `map<int, …>` with keys 1..n (`KeysUpTo`).
  `list(d.values())` is `InOrder(d, n)`, the values in key order. Every
  dictionary here is filled in increasing key order, so key order and
  insertion order coincide.
- **Division by zero.** `gram_schmidt` divides by `norm_sq` and `norm`.
  The model therefore requires `Defined`: no step produces a zero
  `norm_sq`. `MonomialsDefined` proves `Defined` for main's basis on any
  [−a, a] with a > 0, by positive definiteness of ⟨p, p⟩ on polynomials
  of degree ≤ 5 (`QuadraticForms`, `MomentsDefinite`).
- **The loop count.** `gram_schmidt` fixes the count at 6 with
  `range(2, 6 + 1)`. The method takes it as a parameter `n`, and main
  (`ProjectTarget`) passes `N` = 6.

## Where each source function is modelled

| source | Dafny definition | what it computes |
|---|---|---|
| `GSVec` (lines 11-19) | `Orthogonalizer.GSVec` | the record (f, norm, norm_sq, e) |
| `comp_int` (35-37) | `InnerProduct.Integral`, `InnerProduct.Moments` | Σᵢ pᵢ·μ(i), with μ(n) = ∫₋ₐᵃ xⁿ for the interval |
| `inp` (40-49) | `InnerProduct.Inp` | Σᵢⱼ fᵢ gⱼ μ(i+j), the integral of f·g |
| `norm_sq` (52-53) | `InnerProduct.NormSq` | ⟨f, f⟩ |
| `norm` (56-57) | `InnerProduct.Norm` | sqrt(⟨f, f⟩) |
| `gs_step` (60-67) | `Orthogonalizer.GsStep`, `Orthogonalizer.StepWeights` | v − Σⱼ (⟨v, fⱼ⟩ / norm_sqⱼ)·fⱼ, defined when no cached norm_sqⱼ is 0 |
| `gram_schmidt` (70-83) | `Orthogonalizer.GramSchmidt` (the loop), `Orthogonalizer.Orthogonalize` (its specification), `Orthogonalizer.MakeVec` (one record) | records for keys 1..6, record k from basis[k] and the records before it |
| `projection_gs` (86-98) | `Projector.ProjectionGs`, `Projector.Weights`, `Projector.InpTarget` | Σₖ ⟨v, eₖ⟩·eₖ, with ⟨v, p⟩ computed from the target's moments |
| `main` (158-170) | `Orthogonalizer.MonomialBasis`, `Projector.ProjectTarget` | the basis x⁰..x⁵ keyed 1..6, gram_schmidt on it, and the projection |

The table below names, for each of these, the lemmas and methods whose
contracts state what the definition computes and what the program relies
on.

## Model

| member | source | states |
|---|---|---|
| InnerProduct.MomentParity | gs_poly_project.py:35-37 | the integral of xⁿ over [−a, a] is 0 for odd n and 2aⁿ⁺¹/(n+1) for even n |
| InnerProduct.IntegralMonomial | gs_poly_project.py:35-37 | `Integral` (comp_int) of the monomial xᵏ is the k-th moment μ(k) |
| InnerProduct.IntervalMonomial | gs_poly_project.py:35-37 | with `Moments(a)`, comp_int(xᵏ) over [−a, a] is 0 for odd k and 2aᵏ⁺¹/(k+1) for even k |
| InnerProduct.MomentsOddVanish | gs_poly_project.py:35-37 | every odd moment of [−a, a] vanishes |
| InnerProduct.IntervalEvenMoments | gs_poly_project.py:35-37 | the even moments μ(0), …, μ(10) of [−a, a] are 2a·(a²)ᵏ/(2k+1) |
| InnerProduct.InpMonomialPair | gs_poly_project.py:40-49 | `Inp` of two monomials is the moment of their product: ⟨xⁱ, xʲ⟩ = μ(i+j) |
| InnerProduct.InpIntegral | gs_poly_project.py:40-49 | `Inp`: ⟨f, g⟩ is the integral over the interval of the product polynomial f·g |
| InnerProduct.InpSymmetric | gs_poly_project.py:40-49 | ⟨f, g⟩ = ⟨g, f⟩ |
| InnerProduct.InpAdd | gs_poly_project.py:40-49 | ⟨f + f′, g⟩ = ⟨f, g⟩ + ⟨f′, g⟩ |
| InnerProduct.InpSub | gs_poly_project.py:40-49 | ⟨f − f′, g⟩ = ⟨f, g⟩ − ⟨f′, g⟩ |
| InnerProduct.InpScale | gs_poly_project.py:40-49 | ⟨c·f, g⟩ = c·⟨f, g⟩ |
| InnerProduct.InpScaleRight | gs_poly_project.py:40-49 | ⟨f, c·g⟩ = c·⟨f, g⟩ |
| InnerProduct.InpLinComb | gs_poly_project.py:40-49 | the inner product of a sum Σ cⱼ pⱼ with g is Σ cⱼ ⟨pⱼ, g⟩ |
| InnerProduct.InpCombPick | gs_poly_project.py:40-49 | when g is orthogonal to every pⱼ except pₖ, Σ cⱼ ⟨pⱼ, g⟩ reduces to cₖ ⟨pₖ, g⟩ |
| InnerProduct.InpParity | gs_poly_project.py:40-49 | with vanishing odd moments, an even polynomial and an odd one are orthogonal |
| InnerProduct.InpMonomials | gs_poly_project.py:40-49 | ⟨xⁱ, xʲ⟩ = 0 whenever i + j is odd |
| InnerProduct.NormSqScale | gs_poly_project.py:52-53 | `NormSq` is quadratic: norm_sq(c·f) = c²·norm_sq(f) |
| InnerProduct.NormSqOne | gs_poly_project.py:52-53 | norm_sq(1) = 2a, i.e. 2π |
| QuadraticForms.EvenDefinite | gs_poly_project.py:52-53 | the even-coefficient part of ⟨p, p⟩ on [−a, a] is ≥ 0, and > 0 unless p₀ = p₂ = p₄ = 0 |
| QuadraticForms.OddDefinite | gs_poly_project.py:52-53 | the odd-coefficient part of ⟨p, p⟩ on [−a, a] is ≥ 0, and > 0 unless p₁ = p₃ = p₅ = 0 |
| InnerProduct.DefiniteFromMoments | gs_poly_project.py:52-53 | for degree ≤ 5, norm_sq(p) ≥ 0, and norm_sq(p) = 0 exactly when every coefficient of p is 0 |
| InnerProduct.MomentsDefinite | gs_poly_project.py:52-53 | for a > 0 the inner product of [−a, a] is positive definite on polynomials with at most six coefficients |
| InnerProduct.Norm | gs_poly_project.py:56-57 | norm(f) is non-negative and squares to norm_sq(f) |
| InnerProduct.SqrtPositive | gs_poly_project.py:56-57 | a positive norm_sq has a positive square root, so f / norm is defined |
| Polynomials.LinCombCoef | gs_poly_project.py:67 | coefficient i of the summed list Σ cⱼ·pⱼ is Σ cⱼ·(pⱼ)ᵢ |
| Orthogonalizer.GsStepFixesOrthogonal | gs_poly_project.py:60-67 | `GsStep` returns v itself, coefficient by coefficient, when v is already orthogonal to every earlier remainder: each weight ⟨v, fⱼ⟩ / norm_sqⱼ is 0 |
| Orthogonalizer.GsStepIdempotent | gs_poly_project.py:60-67 | for cached, pairwise orthogonal records, a second gs_step against the same records changes nothing |
| Orthogonalizer.GsStepEmpty | gs_poly_project.py:60-67 | gs_step(v, []) = v |
| Orthogonalizer.GsStepOrthogonal | gs_poly_project.py:60-67 | given pairwise orthogonal records with cached norm_sq, the result of gs_step is orthogonal to every earlier fₖ |
| Orthogonalizer.GsStepHighCoef | gs_poly_project.py:60-67 | coefficients above the degrees of the earlier remainders pass through gs_step unchanged |
| Orthogonalizer.GsStepLength | gs_poly_project.py:60-67 | gs_step adds no coefficient beyond those of v and of the earlier remainders |
| Orthogonalizer.GsStepParity | gs_poly_project.py:60-67 | with vanishing odd moments, gs_step keeps the parity of v when each earlier remainder has the parity of its position |
| Orthogonalizer.StepMonic | gs_poly_project.py:60-67 | gs_step of a monic v of degree k against k remainders that are monic by position is monic of degree k |
| Orthogonalizer.MakeVec | gs_poly_project.py:73-76 | a record keeps f, caches norm_sq = ⟨f, f⟩ > 0, and has norm > 0 with norm² = norm_sq and e = f / norm |
| Orthogonalizer.MakeRecord | gs_poly_project.py:80-82 | the record the method builds keeps f, caches norm_sq = ⟨f, f⟩ > 0, has norm > 0 with norm² = norm_sq and e = f / norm; it is the record MakeVec(f) of the specification |
| Orthogonalizer.Orthogonalize | gs_poly_project.py:70-83 | the first n records of gram_schmidt: n of them, each caching its norm_sq and normalised |
| Orthogonalizer.OrthogonalizeBuilt | gs_poly_project.py:77-82 | each record k has f = gs_step(basis[k], records before k), and norm_sq cached |
| Orthogonalizer.OrthogonalizeFirst | gs_poly_project.py:72-76 | record 1 keeps f₁ = basis[1] |
| Orthogonalizer.BuiltFirst | gs_poly_project.py:72 | in any sequence built that way, the first remainder is the first basis polynomial |
| Orthogonalizer.BuiltOrthogonal | gs_poly_project.py:77-82 | the remainders fₖ of the records are pairwise orthogonal |
| Orthogonalizer.NormalisedOrthonormal | gs_poly_project.py:151-155 | normalising pairwise orthogonal remainders gives ⟨eᵢ, eⱼ⟩ = 1 if i = j and 0 otherwise |
| Orthogonalizer.BuiltOrthonormal | gs_poly_project.py:151-155 | the eₖ of gram_schmidt's records are orthonormal |
| Orthogonalizer.BuiltMonic | gs_poly_project.py:77-82 | when basis[k] is monic of degree k − 1, so is fₖ, with no more coefficients |
| Orthogonalizer.BuiltParity | gs_poly_project.py:77-82 | with vanishing odd moments, when basis[k] has the parity of k − 1, so does fₖ |
| Orthogonalizer.MonicPositive | gs_poly_project.py:52-53 | a monic polynomial of degree < 6 has a positive norm_sq |
| Orthogonalizer.MonicRemainderPositive | gs_poly_project.py:79-80 | the remainder of a monic vₖ has a positive norm_sq, so the division in gram_schmidt is defined |
| Orthogonalizer.MonicStepPositive | gs_poly_project.py:79-80 | for a basis monic by position, if the first k − 1 steps are defined (their records then being monic by position, `OrthogonalizeMonic`), step k is defined |
| Orthogonalizer.DefinedForMonic | gs_poly_project.py:77-82 | for a positive definite inner product, no step on a basis of ≤ 6 monic polynomials of increasing degree makes a norm_sq zero |
| Orthogonalizer.MonomialBasisShape | gs_poly_project.py:159 | main's basis has keys exactly 1..6, and key k is x^(k−1): monic of degree k − 1 with the parity of k − 1 |
| Orthogonalizer.MonomialsDefined | gs_poly_project.py:159-161 | on [−a, a] with a > 0, gram_schmidt never divides by zero on main's basis |
| Orthogonalizer.MonicRecords | gs_poly_project.py:70-83 | for a monic, parity-alternating basis, the records are orthonormal, and fₖ is monic of degree k − 1 with the parity of k − 1 |
| Orthogonalizer.MonomialRecords | gs_poly_project.py:151-155 | for every a > 0 and every square root: gram_schmidt on main's basis is defined, and its six records are orthonormal (the fact test_inp_orth displays), and fₖ is monic of degree k − 1 with the parity of k − 1 |
| Orthogonalizer.InOrderInsert | gs_poly_project.py:82 | storing key k in a dictionary keyed 1..k − 1 gives keys 1..k and appends the record to values() |
| Orthogonalizer.AddRecord | gs_poly_project.py:78-82 | one loop iteration: the dictionary's keys go from 1..k − 1 to 1..k, and its values go from the first k − 1 records to the first k |
| Orthogonalizer.GramSchmidt | gs_poly_project.py:70-83 | the result has keys exactly 1..n, its values in key order are the records Orthogonalize defines, and record 1 has f = basis[1] |
| Projector.PolyMomentsInp | gs_poly_project.py:40-49 | `InpTarget` of a polynomial target given by its moments has the same inner products as the polynomial itself |
| Projector.ProjectionResidual | gs_poly_project.py:86-98 | for orthonormal records, ⟨v − P v, eₖ⟩ = 0 for every k: the residual is orthogonal to the subspace |
| Projector.ProjectionIdempotent | gs_poly_project.py:86-98 | `ProjectionGs` is idempotent: for orthonormal records, projecting P v (taken as a target through its moments) gives P v again |
| Projector.ProjectionReproduces | gs_poly_project.py:86-98 | for orthonormal records, projecting eₖ gives eₖ back |
| Projector.ProjectionAdditive | gs_poly_project.py:86-98 | P(v + w) = P v + P w |
| Projector.ProjectionHomogeneous | gs_poly_project.py:86-98 | P(s·v) = s·(P v) |
| Projector.ProjectionOdd | gs_poly_project.py:86-98 | an odd target (all even moments zero, as for sin) projects onto an odd polynomial when each record has the parity of its position |
| Projector.ProjectTarget | gs_poly_project.py:158-163 | main: gram_schmidt of x⁰..x⁵ is defined, has keys 1..6 and is the specified record list; the projection is Σ ⟨v, eₖ⟩ eₖ over them, its residual is orthogonal to every eₖ, and it is odd for an odd target |
| Polynomials.LinCombAddWeights | gs_poly_project.py:98 | a summed combination is additive in its weights |
| Polynomials.LinCombScaleWeights | gs_poly_project.py:98 | a summed combination is homogeneous in its weights |

## Left out

- Plotting (`plot_projection`), `taylor_sin_5`, and numpy evaluation: they only display results.
- `evalf`, `sp.latex` and every `print`: output formatting.
- `test_inp_orth` as a procedure: it only prints ⟨eᵢ, eⱼ⟩ for i < j. The
  orthonormality it displays is proved for all pairs, i = j included
  (`MonomialRecords`).
- Symbolic integration by sympy of arbitrary expressions: the model
  integrates polynomials only. sin(x) enters through its moments m(j) =
  ∫ sin(x)·xʲ, which are parameters.
- The numeric values of π and of those sine moments are not computed. π
  is the parameter a > 0. Only the parity of sin (its even moments vanish)
  is used, as the hypothesis of `ProjectionOdd`.
- `sqrt` is a parameter constrained by `IsSqrt`, not computed. Exact
  symbolic roots such as sqrt(2π) are not represented.
- A zero `norm_sq` makes sympy produce `zoo` (complex infinity) rather
  than an error. The model excludes that case by the precondition
  `Defined`, proved for main's basis, and does not model `zoo`.
- Dictionary iteration order is modelled as key order (`InOrder`). That
  equals insertion order for dictionaries filled key by key, as here; it
  is not modelled for other insertion orders.
- Orthogonalizer.GramSchmidt: takes the loop bound as a parameter `n`
  instead of the literal 6 in `range(2, 6 + 1)`. Main passes 6.
