/** Lagrange interpolation modulo a prime. */
module Interpolation {
  import opened PrimeField
  import opened Polynomials

  // ----- Lagrange numerators -----

  /** The product of x - xs[j] over j != i. */
  function Numerator(xs: seq<int>, i: nat, x: int): int {
    if |xs| == 0 then 1
    else
      var n := |xs| - 1;
      if n == i then Numerator(xs[..n], i, x) else Numerator(xs[..n], i, x) * (x - xs[n])
  }

  function NumeratorPoly(xs: seq<int>, i: nat): (c: Poly)
    ensures |c| == |xs| + if i < |xs| then 0 else 1
  {
    if |xs| == 0 then [1]
    else
      var n := |xs| - 1;
      if n == i then NumeratorPoly(xs[..n], i) else TimesLinear(NumeratorPoly(xs[..n], i), xs[n])
  }

  lemma {:induction false} NumeratorIsPoly(xs: seq<int>, i: nat, x: int)
    ensures Eval(NumeratorPoly(xs, i), x) == Numerator(xs, i, x)
    decreases |xs|
  {
    if |xs| == 0 {
      assert Eval([1], x) == 1 + x * Eval([], x);
    } else {
      var n := |xs| - 1;
      NumeratorIsPoly(xs[..n], i, x);
      EvalTimesLinear(NumeratorPoly(xs[..n], i), xs[n], x);
    }
  }

  lemma {:induction false} NumeratorVanishes(xs: seq<int>, i: nat, t: nat)
    requires t < |xs| && t != i
    ensures Numerator(xs, i, xs[t]) == 0
    decreases |xs|
  {
    var n := |xs| - 1;
    if t < n {
      NumeratorVanishes(xs[..n], i, t);
    }
  }

  lemma {:induction false} NumeratorIsUnit(p: nat, xs: seq<int>, i: nat, x: int)
    requires Prime(p)
    requires forall j :: 0 <= j < |xs| && j != i ==> xs[j] % p != x % p
    ensures Numerator(xs, i, x) % p != 0
    decreases |xs|
  {
    if |xs| == 0 {
      SmallResidue(1, p);
    } else {
      var n := |xs| - 1;
      NumeratorIsUnit(p, xs[..n], i, x);
      if n != i {
        SameResidue(x, xs[n], p);
        EuclidLemma(p, Numerator(xs[..n], i, x), x - xs[n]);
      }
    }
  }

  // ----- the Lagrange basis -----

  /** The numerator polynomial, scaled to be 1 at its own node. */
  function BasisPoly(p: nat, xs: seq<int>, i: nat): (c: Poly)
    requires p > 1 && i < |xs|
    ensures |c| == |xs|
  {
    Scaled(Inverse(Numerator(xs, i, xs[i]), p), NumeratorPoly(xs, i))
  }

  function LagrangeBasis(p: nat, xs: seq<int>): (b: seq<Poly>)
    requires p > 1
    ensures |b| == |xs| && forall i :: 0 <= i < |xs| ==> b[i] == BasisPoly(p, xs, i)
  {
    seq(|xs|, i requires 0 <= i < |xs| => BasisPoly(p, xs, i))
  }

  lemma BasisValue(p: nat, xs: seq<int>, i: nat, x: int)
    requires p > 1 && i < |xs|
    ensures Eval(BasisPoly(p, xs, i), x) == Inverse(Numerator(xs, i, xs[i]), p) * Numerator(xs, i, x)
  {
    EvalScaled(Inverse(Numerator(xs, i, xs[i]), p), NumeratorPoly(xs, i), x);
    NumeratorIsPoly(xs, i, x);
  }

  /** Each basis polynomial is 1 at its own node and 0 at the others. */
  ghost predicate IsBasis(p: nat, xs: seq<int>, basis: seq<Poly>)
    requires p > 1
  {
    && |basis| == |xs|
    && (forall i :: 0 <= i < |xs| ==> |basis[i]| == |xs|)
    && forall i, t :: 0 <= i < |xs| && 0 <= t < |xs| ==> Eval(basis[i], xs[t]) % p == if i == t then 1 else 0
  }

  lemma BasisAtOwnNode(p: nat, xs: seq<int>, i: nat)
    requires Prime(p) && DistinctMod(xs, p) && i < |xs|
    ensures Eval(BasisPoly(p, xs, i), xs[i]) % p == 1
  {
    var den := Numerator(xs, i, xs[i]);
    BasisValue(p, xs, i, xs[i]);
    NumeratorIsUnit(p, xs, i, xs[i]);
    InverseInverts(p, den);
    assert den * Inverse(den, p) == Inverse(den, p) * den;
  }

  lemma BasisAtOtherNode(p: nat, xs: seq<int>, i: nat, t: nat)
    requires p > 1 && i < |xs| && t < |xs| && i != t
    ensures Eval(BasisPoly(p, xs, i), xs[t]) % p == 0
  {
    BasisValue(p, xs, i, xs[t]);
    NumeratorVanishes(xs, i, t);
    SmallResidue(0, p);
  }

  lemma LagrangeBasisIsBasis(p: nat, xs: seq<int>)
    requires Prime(p) && DistinctMod(xs, p)
    ensures IsBasis(p, xs, LagrangeBasis(p, xs))
  {
    var basis := LagrangeBasis(p, xs);
    forall i, t | 0 <= i < |xs| && 0 <= t < |xs|
      ensures Eval(basis[i], xs[t]) % p == if i == t then 1 else 0
    {
      if i == t {
        BasisAtOwnNode(p, xs, i);
      } else {
        BasisAtOtherNode(p, xs, i, t);
      }
    }
  }

  // ----- linear combinations of a basis -----

  /** The first n terms of the sum of ys[i] times basis[i]. */
  function Combination(basis: seq<Poly>, ys: seq<int>, m: nat, n: nat): (c: Poly)
    requires n <= |basis| == |ys| && forall i :: 0 <= i < |basis| ==> |basis[i]| == m
    ensures |c| == m
  {
    if n == 0 then Zeros(m) else Plus(Combination(basis, ys, m, n - 1), Scaled(ys[n - 1], basis[n - 1]))
  }

  lemma AddedTerm(basis: seq<Poly>, ys: seq<int>, m: nat, n: nat, x: int)
    requires n < |basis| == |ys| && forall i :: 0 <= i < |basis| ==> |basis[i]| == m
    ensures Eval(Combination(basis, ys, m, n + 1), x)
         == Eval(Combination(basis, ys, m, n), x) + ys[n] * Eval(basis[n], x)
  {
    EvalPlus(Combination(basis, ys, m, n), Scaled(ys[n], basis[n]), x);
    EvalScaled(ys[n], basis[n], x);
  }

  ghost predicate HasValue(p: nat, c: Poly, x: int, y: int)
    requires p > 0
  {
    Eval(c, x) % p == y % p
  }

  lemma AddSelected(p: nat, before: int, so: int, y: int, b: int, selected: bool)
    requires p > 1 && before % p == so % p && b % p == if selected then 1 else 0
    ensures (before + y * b) % p == (if selected then so + y else so) % p
  {
    SmallResidue(0, p);
    SmallResidue(1, p);
    ProductsAgree(y, y, b, if selected then 1 else 0, p);
    SumsAgree(before, so, y * b, if selected then y else 0, p);
  }

  lemma {:induction false} CombinationAtNode(p: nat, xs: seq<int>, basis: seq<Poly>, ys: seq<int>, n: nat, t: nat)
    requires p > 1 && IsBasis(p, xs, basis) && n <= |xs| == |ys| && t < |xs|
    ensures HasValue(p, Combination(basis, ys, |xs|, n), xs[t], if t < n then ys[t] else 0)
  {
    if n == 0 {
      EvalZeros(|xs|, xs[t]);
    } else {
      var k := n - 1;
      CombinationAtNode(p, xs, basis, ys, k, t);
      AddedTerm(basis, ys, |xs|, k, xs[t]);
      AddSelected(p, Eval(Combination(basis, ys, |xs|, k), xs[t]), if t < k then ys[t] else 0, ys[k],
                  Eval(basis[k], xs[t]), k == t);
    }
  }

  /** The polynomial through the points (xs[i], ys[i]). */
  function Interpolant(p: nat, xs: seq<int>, ys: seq<int>): (c: Poly)
    requires p > 1 && |xs| == |ys|
    ensures |c| == |xs|
  {
    Combination(LagrangeBasis(p, xs), ys, |xs|, |xs|)
  }

  /** Existence: the interpolant passes through every point. */
  lemma InterpolantThrough(p: nat, xs: seq<int>, ys: seq<int>)
    requires Prime(p) && |xs| == |ys| && DistinctMod(xs, p)
    ensures Through(p, Interpolant(p, xs, ys), xs, ys)
  {
    LagrangeBasisIsBasis(p, xs);
    forall t | 0 <= t < |xs|
      ensures HasValue(p, Interpolant(p, xs, ys), xs[t], ys[t])
    {
      CombinationAtNode(p, xs, LagrangeBasis(p, xs), ys, |xs|, t);
    }
  }

  ghost predicate Through(p: nat, c: Poly, xs: seq<int>, ys: seq<int>)
    requires p > 0 && |xs| == |ys|
  {
    forall i :: 0 <= i < |xs| ==> HasValue(p, c, xs[i], ys[i])
  }

  /** a - b, for an a that may be shorter. */
  function Difference(a: Poly, b: Poly): (c: Poly)
    requires |a| <= |b|
    ensures |c| == |b|
  {
    Plus(a + Zeros(|b| - |a|), Scaled(-1, b))
  }

  lemma EvalDifference(a: Poly, b: Poly, x: int)
    requires |a| <= |b|
    ensures Eval(Difference(a, b), x) == Eval(a, x) - Eval(b, x)
  {
    EvalPadded(a, |b| - |a|, x);
    EvalScaled(-1, b, x);
    EvalPlus(a + Zeros(|b| - |a|), Scaled(-1, b), x);
  }

  /** Uniqueness: two polynomials with at most as many coefficients as there are common points agree
      everywhere. */
  lemma PointsDetermine(p: nat, a: Poly, b: Poly, xs: seq<int>, ys: seq<int>, x: int)
    requires Prime(p) && |xs| == |ys| && DistinctMod(xs, p) && |a| <= |xs| && |b| == |xs|
    requires Through(p, a, xs, ys) && Through(p, b, xs, ys)
    ensures Eval(a, x) % p == Eval(b, x) % p
  {
    forall i | 0 <= i < |xs|
      ensures Eval(Difference(a, b), xs[i]) % p == 0
    {
      assert HasValue(p, a, xs[i], ys[i]) && HasValue(p, b, xs[i], ys[i]);
      EvalDifference(a, b, xs[i]);
      SameResidue(Eval(a, xs[i]), Eval(b, xs[i]), p);
    }
    TooManyRoots(p, Difference(a, b), xs, x);
    EvalDifference(a, b, x);
    SameResidue(Eval(a, x), Eval(b, x), p);
  }

  /** So all bases of the same nodes agree everywhere. */
  lemma BasesAgree(p: nat, xs: seq<int>, a: seq<Poly>, b: seq<Poly>, i: nat, x: int)
    requires Prime(p) && DistinctMod(xs, p) && IsBasis(p, xs, a) && IsBasis(p, xs, b) && i < |xs|
    ensures Eval(a[i], x) % p == Eval(b[i], x) % p
  {
    var ys := seq(|xs|, t requires 0 <= t < |xs| => Eval(a[i], xs[t]));
    PointsDetermine(p, a[i], b[i], xs, ys, x);
  }

  // ----- division by all nodes -----

  /** The quotient of c by the product of x - xs[j], by repeated synthetic division. */
  function QuotientBy(c: Poly, xs: seq<int>): (q: Poly)
    ensures |q| == if |c| <= |xs| then 0 else |c| - |xs|
  {
    if |xs| == 0 then c
    else
      var n := |xs| - 1;
      Quotient(QuotientBy(c, xs[..n]), xs[n])
  }

  /** What that division leaves, in Newton's form; `none` is an index of no node. */
  function Remainder(c: Poly, xs: seq<int>, none: nat): (r: Poly)
    requires none >= |xs|
    ensures |r| == |xs|
  {
    if |xs| == 0 then []
    else
      var n := |xs| - 1;
      Plus(Remainder(c, xs[..n], none) + [0],
           Scaled(Eval(QuotientBy(c, xs[..n]), xs[n]), NumeratorPoly(xs[..n], none)))
  }

  lemma SplitStep(c: int, r: int, prod: int, q: int, q': int, at: int, x: int, node: int)
    requires c == r + prod * q && q == at + (x - node) * q'
    ensures c == (r + at * prod) + (prod * (x - node)) * q'
  {
    assert prod * (at + (x - node) * q') == at * prod + (prod * (x - node)) * q';
  }

  lemma {:induction false} DivisionByAll(c: Poly, xs: seq<int>, none: nat, x: int)
    requires none >= |xs|
    ensures Eval(c, x) == Eval(Remainder(c, xs, none), x) + Numerator(xs, none, x) * Eval(QuotientBy(c, xs), x)
    decreases |xs|
  {
    if |xs| > 0 {
      var n := |xs| - 1;
      var q := QuotientBy(c, xs[..n]);
      var r, prod := Remainder(c, xs[..n], none), NumeratorPoly(xs[..n], none);
      DivisionByAll(c, xs[..n], none, x);
      DivisionByRoot(q, xs[n], x);
      NumeratorIsPoly(xs[..n], none, x);
      EvalPlus(r + [0], Scaled(Eval(q, xs[n]), prod), x);
      EvalSnoc(r, 0, x);
      EvalScaled(Eval(q, xs[n]), prod, x);
      SplitStep(Eval(c, x), Eval(r, x), Numerator(xs[..n], none, x), Eval(q, x), Eval(Quotient(q, xs[n]), x),
                Eval(q, xs[n]), x, xs[n]);
    }
  }

  /** The remainder has the values of c at every node. */
  lemma RemainderThrough(p: nat, c: Poly, xs: seq<int>, ys: seq<int>)
    requires p > 0 && |xs| == |ys| && Through(p, c, xs, ys)
    ensures Through(p, Remainder(c, xs, |xs|), xs, ys)
  {
    forall t | 0 <= t < |xs|
      ensures HasValue(p, Remainder(c, xs, |xs|), xs[t], ys[t])
    {
      assert HasValue(p, c, xs[t], ys[t]);
      DivisionByAll(c, xs, |xs|, xs[t]);
      NumeratorVanishes(xs, |xs|, t);
    }
  }

  /** Dividing by all nodes but one per coefficient leaves the leading coefficient. */
  lemma {:induction false} LastQuotient(c: Poly, xs: seq<int>)
    requires |c| == |xs| + 1
    ensures QuotientBy(c, xs) == [c[|xs|]]
  {
    LeadingStays(c, xs);
  }

  lemma {:induction false} LeadingStays(c: Poly, xs: seq<int>)
    requires |c| > |xs|
    ensures QuotientBy(c, xs)[|c| - |xs| - 1] == c[|c| - 1]
    decreases |xs|
  {
    if |xs| > 0 {
      var n := |xs| - 1;
      LeadingStays(c, xs[..n]);
      QuotientKeepsLeading(QuotientBy(c, xs[..n]), xs[n]);
    }
  }

  lemma {:induction false} QuotientKeepsLeading(c: Poly, r: int)
    requires |c| > 1
    ensures Quotient(c, r)[|c| - 2] == c[|c| - 1]
    decreases |c|
  {
    if |c| == 2 {
      assert Eval(c[1..], r) == c[1] + r * Eval(c[1..][1..], r);
      assert c[1..][1..] == [];
    } else {
      QuotientKeepsLeading(c[1..], r);
    }
  }
}
