/** Polynomials with integer coefficients, lowest first, read modulo a prime: root counting and
    interpolation. */
module Polynomials {
  import opened PrimeField

  type Poly = seq<int>

  function Eval(c: Poly, x: int): int {
    if |c| == 0 then 0 else c[0] + x * Eval(c[1..], x)
  }

  lemma {:induction false} EvalSnoc(c: Poly, a: int, x: int)
    ensures Eval(c + [a], x) == Eval(c, x) + a * Pow(x, |c|)
    decreases |c|
  {
    if |c| == 0 {
      assert Eval([a], x) == a + x * Eval([], x);
    } else {
      assert (c + [a])[1..] == c[1..] + [a];
      EvalSnoc(c[1..], a, x);
      assert x * (Eval(c[1..], x) + a * Pow(x, |c| - 1)) == x * Eval(c[1..], x) + a * (x * Pow(x, |c| - 1));
    }
  }

  lemma {:induction false} EvalAgrees(c: Poly, c': Poly, x: int, x': int, p: nat)
    requires p > 0 && |c| == |c'| && x % p == x' % p
    requires forall i :: 0 <= i < |c| ==> c[i] % p == c'[i] % p
    ensures Eval(c, x) % p == Eval(c', x') % p
    decreases |c|
  {
    if |c| > 0 {
      EvalAgrees(c[1..], c'[1..], x, x', p);
      ProductsAgree(x, x', Eval(c[1..], x), Eval(c'[1..], x'), p);
      SumsAgree(c[0], c'[0], x * Eval(c[1..], x), x' * Eval(c'[1..], x'), p);
    }
  }

  function Zeros(n: nat): (z: Poly)
    ensures |z| == n && forall i :: 0 <= i < n ==> z[i] == 0
  {
    seq(n, i => 0)
  }

  lemma {:induction false} EvalZeros(n: nat, x: int)
    ensures Eval(Zeros(n), x) == 0
  {
    if n > 0 {
      assert Zeros(n)[1..] == Zeros(n - 1);
      EvalZeros(n - 1, x);
    }
  }

  lemma {:induction false} EvalPadded(c: Poly, n: nat, x: int)
    ensures Eval(c + Zeros(n), x) == Eval(c, x)
    decreases |c|
  {
    var z: Poly := Zeros(n);
    if |c| == 0 {
      assert c + z == z;
      EvalZeros(n, x);
    } else {
      assert (c + z)[1..] == c[1..] + z;
      EvalPadded(c[1..], n, x);
    }
  }

  // ----- linear combinations -----

  function Plus(a: Poly, b: Poly): (r: Poly)
    requires |a| == |b|
    ensures |r| == |a| && forall i :: 0 <= i < |a| ==> r[i] == a[i] + b[i]
  {
    seq(|a|, i requires 0 <= i < |a| => a[i] + b[i])
  }

  function Scaled(k: int, a: Poly): (r: Poly)
    ensures |r| == |a| && forall i :: 0 <= i < |a| ==> r[i] == k * a[i]
  {
    seq(|a|, i requires 0 <= i < |a| => k * a[i])
  }

  lemma {:induction false} EvalPlus(a: Poly, b: Poly, x: int)
    requires |a| == |b|
    ensures Eval(Plus(a, b), x) == Eval(a, x) + Eval(b, x)
    decreases |a|
  {
    if |a| > 0 {
      assert Plus(a, b)[1..] == Plus(a[1..], b[1..]);
      EvalPlus(a[1..], b[1..], x);
      assert x * (Eval(a[1..], x) + Eval(b[1..], x)) == x * Eval(a[1..], x) + x * Eval(b[1..], x);
    }
  }

  lemma ScaleTerm(k: int, c: int, x: int, e: int)
    ensures k * (c + x * e) == k * c + x * (k * e)
  {
    assert k * (x * e) == x * (k * e);
  }

  lemma {:induction false} EvalScaled(k: int, a: Poly, x: int)
    ensures Eval(Scaled(k, a), x) == k * Eval(a, x)
    decreases |a|
  {
    if |a| > 0 {
      assert Scaled(k, a)[1..] == Scaled(k, a[1..]);
      EvalScaled(k, a[1..], x);
      ScaleTerm(k, a[0], x, Eval(a[1..], x));
    }
  }

  /** (x - r) times a. */
  function TimesLinear(a: Poly, r: int): (t: Poly)
    ensures |t| == |a| + 1
  {
    Plus([0] + a, Scaled(-r, a) + [0])
  }

  lemma EvalTimesLinear(a: Poly, r: int, x: int)
    ensures Eval(TimesLinear(a, r), x) == Eval(a, x) * (x - r)
  {
    EvalPlus([0] + a, Scaled(-r, a) + [0], x);
    assert ([0] + a)[1..] == a;
    EvalSnoc(Scaled(-r, a), 0, x);
    EvalScaled(-r, a, x);
    assert x * Eval(a, x) + -r * Eval(a, x) == Eval(a, x) * (x - r);
  }

  // ----- roots -----

  /** The quotient of synthetic division by x - r. */
  function Quotient(c: Poly, r: int): (q: Poly)
    ensures |q| == if |c| == 0 then 0 else |c| - 1
  {
    if |c| <= 1 then [] else [Eval(c[1..], r)] + Quotient(c[1..], r)
  }

  lemma {:induction false} DivisionByRoot(c: Poly, r: int, x: int)
    ensures Eval(c, x) == Eval(c, r) + (x - r) * Eval(Quotient(c, r), x)
    decreases |c|
  {
    if |c| == 1 {
      assert c[1..] == [];
    } else if |c| > 1 {
      var t := c[1..];
      var q := Quotient(t, r);
      DivisionByRoot(t, r, x);
      assert Quotient(c, r)[1..] == q;
      assert Eval(Quotient(c, r), x) == Eval(t, r) + x * Eval(q, x);
      Distribute(x, r, Eval(t, r), Eval(q, x));
    }
  }

  lemma Distribute(x: int, r: int, t: int, q: int)
    ensures x * (t + (x - r) * q) == r * t + (x - r) * (t + x * q)
  {
    assert x * ((x - r) * q) == (x - r) * (x * q);
    assert x * (t + (x - r) * q) == x * t + x * ((x - r) * q);
    assert (x - r) * (t + x * q) == (x - r) * t + (x - r) * (x * q);
    assert (x - r) * t == x * t - r * t;
  }

  /** Pairwise different modulo p. */
  ghost predicate DistinctMod(xs: seq<int>, p: nat)
    requires p > 0
  {
    forall i, j :: 0 <= i < j < |xs| ==> xs[i] % p != xs[j] % p
  }

  ghost predicate NonzeroMod(xs: seq<int>, p: nat)
    requires p > 0
  {
    forall i :: 0 <= i < |xs| ==> xs[i] % p != 0
  }

  ghost predicate RootsMod(c: Poly, xs: seq<int>, p: nat)
    requires p > 0
  {
    forall i :: 0 <= i < |xs| ==> Eval(c, xs[i]) % p == 0
  }

  lemma RootLeavesQuotient(p: nat, c: Poly, r: int, x: int)
    requires Prime(p) && x % p != r % p
    requires Eval(c, r) % p == 0 && Eval(c, x) % p == 0
    ensures Eval(Quotient(c, r), x) % p == 0
  {
    DivisionByRoot(c, r, x);
    SameResidue(Eval(c, x), Eval(c, r), p);
    assert Eval(c, x) - Eval(c, r) == (x - r) * Eval(Quotient(c, r), x);
    SameResidue(x, r, p);
    EuclidLemma(p, x - r, Eval(Quotient(c, r), x));
  }

  /** As many roots as coefficients, so it vanishes everywhere. */
  lemma {:induction false} TooManyRoots(p: nat, c: Poly, xs: seq<int>, x: int)
    requires Prime(p) && |xs| == |c| && DistinctMod(xs, p) && RootsMod(c, xs, p)
    ensures Eval(c, x) % p == 0
    decreases |c|
  {
    if |c| > 0 {
      var n := |c| - 1;
      var q := Quotient(c, xs[n]);
      forall i | 0 <= i < n
        ensures Eval(q, xs[i]) % p == 0
      {
        RootLeavesQuotient(p, c, xs[n], xs[i]);
      }
      TooManyRoots(p, q, xs[..n], x);
      DivisionByRoot(c, xs[n], x);
      ZeroScales(Eval(q, x), x - xs[n], p);
      ZeroAdds(Eval(c, xs[n]), (x - xs[n]) * Eval(q, x), p);
    }
  }

  /** Then every coefficient is a multiple of p as well. */
  lemma {:induction false} TooManyRootsNoCoefficients(p: nat, c: Poly, xs: seq<int>)
    requires Prime(p) && |xs| == |c| && DistinctMod(xs, p) && NonzeroMod(xs, p) && RootsMod(c, xs, p)
    ensures forall i :: 0 <= i < |c| ==> c[i] % p == 0
    decreases |c|
  {
    if |c| > 0 {
      var n := |c| - 1;
      TooManyRoots(p, c, xs, 0);
      assert Eval(c, 0) == c[0];
      forall i | 0 <= i < n
        ensures Eval(c[1..], xs[i]) % p == 0
      {
        SameResidue(Eval(c, xs[i]), c[0], p);
        EuclidLemma(p, xs[i], Eval(c[1..], xs[i]));
      }
      TooManyRootsNoCoefficients(p, c[1..], xs[..n]);
      forall i | 0 <= i < |c|
        ensures c[i] % p == 0
      {
        assert i > 0 ==> c[i] == c[1..][i - 1];
      }
    }
  }
}
