/** Arithmetic modulo a prime: Euclid's lemma, Fermat's little theorem, and the helpers of
    sdk/src/threshold.ts and sdk/src/poseidon.ts that rest on them. The modulus is a parameter. */
module PrimeField {

  predicate Prime(p: nat) {
    p >= 2 && forall d :: 2 <= d < p ==> p % d != 0
  }

  // ----- residues -----

  lemma DivisionSplits(a: int, p: int)
    requires p > 0
    ensures a == p * (a / p) + a % p
  {
  }

  lemma MultiplesAreSpread(p: int, k: int)
    requires p > 0
    ensures k >= 1 ==> p * k >= p
    ensures k <= -1 ==> p * k <= -p
    ensures k <= -2 ==> p * k <= -2 * p
    ensures k == -1 ==> p * k == -p
  {
    if k >= 1 {
      assert p * (k - 1) >= 0;
    } else if k <= -1 {
      assert p * (-1 - k) >= 0;
      if k <= -2 {
        assert p * (-2 - k) >= 0;
      }
    }
  }

  lemma ResidueIs(a: int, p: int, q: int, r: int)
    requires a == p * q + r && 0 <= r < p
    ensures a % p == r
  {
    DivisionSplits(a, p);
    assert p * (q - a / p) == a % p - r;
    MultiplesAreSpread(p, q - a / p);
  }

  /** Two residues agree exactly when the difference is a multiple. */
  lemma SameResidue(a: int, b: int, p: int)
    requires p > 0
    ensures a % p == b % p <==> (a - b) % p == 0
  {
    DivisionSplits(a, p);
    DivisionSplits(b, p);
    if a % p == b % p {
      assert a - b == p * (a / p - b / p) + 0;
      ResidueIs(a - b, p, a / p - b / p, 0);
    }
    if (a - b) % p == 0 {
      DivisionSplits(a - b, p);
      assert a == p * (b / p + (a - b) / p) + b % p;
      ResidueIs(a, p, b / p + (a - b) / p, b % p);
    }
  }

  lemma MultipleIsZero(p: int, k: int)
    requires p > 0
    ensures (p * k) % p == 0
  {
    ResidueIs(p * k, p, k, 0);
  }

  lemma ZeroScales(a: int, b: int, p: int)
    requires p > 0 && a % p == 0
    ensures (a * b) % p == 0 && (b * a) % p == 0
  {
    DivisionSplits(a, p);
    assert a * b == p * (a / p * b);
    MultipleIsZero(p, a / p * b);
  }

  lemma ZeroAdds(a: int, b: int, p: int)
    requires p > 0 && a % p == 0 && b % p == 0
    ensures (a + b) % p == 0
  {
    DivisionSplits(a, p);
    DivisionSplits(b, p);
    assert a + b == p * (a / p + b / p);
    MultipleIsZero(p, a / p + b / p);
  }

  lemma SumsAgree(a: int, a': int, b: int, b': int, p: int)
    requires p > 0 && a % p == a' % p && b % p == b' % p
    ensures (a + b) % p == (a' + b') % p
  {
    SameResidue(a, a', p);
    SameResidue(b, b', p);
    ZeroAdds(a - a', b - b', p);
    assert a + b - (a' + b') == (a - a') + (b - b');
    SameResidue(a + b, a' + b', p);
  }

  lemma ProductsAgree(a: int, a': int, b: int, b': int, p: int)
    requires p > 0 && a % p == a' % p && b % p == b' % p
    ensures (a * b) % p == (a' * b') % p
  {
    SameResidue(a, a', p);
    SameResidue(b, b', p);
    ZeroScales(a - a', b, p);
    ZeroScales(b - b', a', p);
    ZeroAdds((a - a') * b, a' * (b - b'), p);
    assert a * b - a' * b' == (a - a') * b + a' * (b - b');
    SameResidue(a * b, a' * b', p);
  }

  lemma ResidueOfResidue(a: int, p: int)
    requires p > 0
    ensures 0 <= a % p < p && (a % p) % p == a % p
  {
  }

  lemma SmallResidue(a: int, p: int)
    requires 0 <= a < p
    ensures a % p == a
  {
    ResidueIs(a, p, 0, a);
  }

  // ----- Euclid's lemma -----

  /** Descent on the multiplier: p mod a divides the same products and is smaller. */
  lemma {:induction false} EuclidDescent(p: nat, a: nat, b: int)
    requires Prime(p) && 0 < a < p && (a * b) % p == 0
    ensures b % p == 0
    decreases a
  {
    if a > 1 {
      var q, r := p / a, p % a;
      DivisionSplits(p, a);
      assert r * b == p * b - a * b * q by {
        assert r == p - a * q;
        assert (p - a * q) * b == p * b - a * q * b;
        assert a * q * b == a * b * q;
      }
      MultipleIsZero(p, b);
      ZeroScales(a * b, -q, p);
      assert (a * b) * -q == -(a * b * q);
      ZeroAdds(p * b, (a * b) * -q, p);
      EuclidDescent(p, r, b);
    }
  }

  /** A prime divides a product only if it divides a factor. */
  lemma EuclidLemma(p: nat, a: int, b: int)
    requires Prime(p)
    ensures (a * b) % p == 0 <==> a % p == 0 || b % p == 0
  {
    if a % p == 0 {
      ZeroScales(a, b, p);
    } else if b % p == 0 {
      ZeroScales(b, a, p);
    } else if (a * b) % p == 0 {
      ResidueOfResidue(a, p);
      ProductsAgree(a, a % p, b, b, p);
      EuclidDescent(p, a % p, b);
    }
  }

  lemma Cancel(p: nat, a: int, b: int, c: int)
    requires Prime(p) && c % p != 0
    ensures (a * c) % p == (b * c) % p <==> a % p == b % p
  {
    SameResidue(a * c, b * c, p);
    assert a * c - b * c == (a - b) * c;
    EuclidLemma(p, a - b, c);
    SameResidue(a, b, p);
  }

  // ----- powers -----

  function Pow(b: int, e: nat): int {
    if e == 0 then 1 else b * Pow(b, e - 1)
  }

  lemma {:induction false} PowSum(b: int, e: nat, f: nat)
    ensures Pow(b, e + f) == Pow(b, e) * Pow(b, f)
    decreases e
  {
    if e > 0 {
      PowSum(b, e - 1, f);
      assert b * (Pow(b, e - 1) * Pow(b, f)) == (b * Pow(b, e - 1)) * Pow(b, f);
    }
  }

  lemma {:induction false} PowOfPow(b: int, e: nat, f: nat)
    ensures Pow(Pow(b, e), f) == Pow(b, e * f)
    decreases f
  {
    if f > 0 {
      PowOfPow(b, e, f - 1);
      PowSum(b, e, e * (f - 1));
      assert e * f == e + e * (f - 1);
    }
  }

  lemma {:induction false} PowersAgree(a: int, b: int, e: nat, p: int)
    requires p > 0 && a % p == b % p
    ensures Pow(a, e) % p == Pow(b, e) % p
    decreases e
  {
    if e > 0 {
      PowersAgree(a, b, e - 1, p);
      ProductsAgree(a, b, Pow(a, e - 1), Pow(b, e - 1), p);
    }
  }

  // ----- Fermat's little theorem -----

  function Factorial(n: nat): nat {
    if n == 0 then 1 else n * Factorial(n - 1)
  }

  function Product(s: seq<int>): int {
    if |s| == 0 then 1 else Product(s[..|s| - 1]) * s[|s| - 1]
  }

  ghost predicate Distinct(s: seq<int>) {
    forall i, j :: 0 <= i < j < |s| ==> s[i] != s[j]
  }

  ghost predicate Within(s: seq<int>, n: nat) {
    forall i :: 0 <= i < |s| ==> 1 <= s[i] <= n
  }

  function Without(s: seq<int>, i: nat): (r: seq<int>)
    requires i < |s|
    ensures |r| == |s| - 1
  {
    s[..i] + s[i + 1..]
  }

  /** Removing the largest admissible value. */
  lemma WithoutLargest(s: seq<int>, n: nat, i: nat)
    requires Distinct(s) && Within(s, n) && i < |s| && s[i] == n
    ensures n > 0 && Distinct(Without(s, i)) && Within(Without(s, i), n - 1)
  {
    var r := Without(s, i);
    forall k | 0 <= k < |r|
      ensures 1 <= r[k] <= n - 1
    {
      assert r[k] == s[if k < i then k else k + 1];
    }
  }

  lemma {:induction false} DistinctAreMany(s: seq<int>, n: nat)
    requires Distinct(s) && Within(s, n)
    ensures |s| <= n
    decreases n
  {
    if i :| 0 <= i < |s| && s[i] == n {
      WithoutLargest(s, n, i);
      DistinctAreMany(Without(s, i), n - 1);
    } else if |s| > 0 {
      assert 1 <= s[0] <= n;
      DistinctAreMany(s, n - 1);
    }
  }

  lemma {:induction false} ProductWithout(s: seq<int>, i: nat)
    requires i < |s|
    ensures Product(s) == Product(Without(s, i)) * s[i]
    decreases |s|
  {
    var n := |s| - 1;
    var rest := Without(s, i);
    if i == n {
      assert rest == s[..n];
    } else {
      ProductWithout(s[..n], i);
      assert rest[..|rest| - 1] == Without(s[..n], i);
      assert rest[|rest| - 1] == s[n];
      var inner := Product(Without(s[..n], i));
      assert inner * s[i] * s[n] == inner * s[n] * s[i];
    }
  }

  lemma LargestOccurs(s: seq<int>, n: nat) returns (i: nat)
    requires Distinct(s) && Within(s, n) && |s| == n > 0
    ensures i < n && s[i] == n
  {
    if forall k :: 0 <= k < n ==> s[k] != n {
      DistinctAreMany(s, n - 1);
      assert false;
    }
    i :| 0 <= i < n && s[i] == n;
  }

  /** n distinct values among 1..n are those values in some order. */
  lemma {:induction false} DistinctProduct(s: seq<int>, n: nat)
    requires Distinct(s) && Within(s, n) && |s| == n
    ensures Product(s) == Factorial(n)
    decreases n
  {
    if n > 0 {
      var i := LargestOccurs(s, n);
      WithoutLargest(s, n, i);
      DistinctProduct(Without(s, i), n - 1);
      ProductWithout(s, i);
    }
  }

  lemma {:induction false} FactorialIsUnit(p: nat, n: nat)
    requires Prime(p) && n < p
    ensures Factorial(n) % p != 0
  {
    if n == 0 {
      SmallResidue(1, p);
    } else {
      FactorialIsUnit(p, n - 1);
      SmallResidue(n, p);
      EuclidLemma(p, n, Factorial(n - 1));
    }
  }

  /** The residues of a, 2a, .., na. */
  function Multiples(a: int, n: nat, p: nat): (s: seq<int>)
    requires p > 0
    ensures |s| == n
    ensures forall i :: 0 <= i < n ==> s[i] == (a * (i + 1)) % p
  {
    seq(n, i requires 0 <= i < n => (a * (i + 1)) % p)
  }

  lemma {:induction false} MultiplesProduct(a: int, n: nat, p: nat)
    requires p > 0
    ensures Product(Multiples(a, n, p)) % p == (Pow(a, n) * Factorial(n)) % p
  {
    if n > 0 {
      var s := Multiples(a, n, p);
      assert s[..n - 1] == Multiples(a, n - 1, p);
      MultiplesProduct(a, n - 1, p);
      ResidueOfResidue(a * n, p);
      ProductsAgree(Product(s[..n - 1]), Pow(a, n - 1) * Factorial(n - 1), s[n - 1], a * n, p);
      Regroup(Pow(a, n - 1), Factorial(n - 1), a, n);
    }
  }

  lemma Regroup(x: int, y: int, a: int, n: int)
    ensures x * y * (a * n) == a * x * (n * y)
  {
    assert x * y * (a * n) == x * (y * (a * n));
    assert y * (a * n) == a * (n * y);
    assert x * (a * (n * y)) == (x * a) * (n * y);
  }

  lemma MultiplesAreUnits(a: int, p: nat)
    requires Prime(p) && a % p != 0
    ensures Within(Multiples(a, p - 1, p), p - 1)
  {
    var s := Multiples(a, p - 1, p);
    forall i | 0 <= i < p - 1
      ensures 1 <= s[i] <= p - 1
    {
      SmallResidue(i + 1, p);
      EuclidLemma(p, a, i + 1);
      ResidueOfResidue(a * (i + 1), p);
    }
  }

  lemma MultiplesAreDistinct(a: int, p: nat)
    requires Prime(p) && a % p != 0
    ensures Distinct(Multiples(a, p - 1, p))
  {
    var s := Multiples(a, p - 1, p);
    forall i, j | 0 <= i < j < p - 1
      ensures s[i] != s[j]
    {
      SmallResidue(i + 1, p);
      SmallResidue(j + 1, p);
      assert (i + 1) * a == a * (i + 1) && (j + 1) * a == a * (j + 1);
      Cancel(p, i + 1, j + 1, a);
    }
  }

  /** Multiplying 1, .., p - 1 by a unit permutes them. */
  lemma FermatLittle(p: nat, a: int)
    requires Prime(p) && a % p != 0
    ensures Pow(a, p - 1) % p == 1
  {
    var s := Multiples(a, p - 1, p);
    MultiplesAreUnits(a, p);
    MultiplesAreDistinct(a, p);
    DistinctProduct(s, p - 1);
    MultiplesProduct(a, p - 1, p);
    FactorialIsUnit(p, p - 1);
    assert (1 * Factorial(p - 1)) % p == (Pow(a, p - 1) * Factorial(p - 1)) % p;
    Cancel(p, 1, Pow(a, p - 1), Factorial(p - 1));
    SmallResidue(1, p);
  }

  function Inverse(a: int, p: nat): (r: nat)
    requires p > 1
  {
    Pow(a % p, p - 2) % p
  }

  /** Fermat: the (p - 2)-nd power inverts. */
  lemma InverseInverts(p: nat, a: int)
    requires Prime(p) && a % p != 0
    ensures (a * Inverse(a, p)) % p == 1
  {
    var x := a % p;
    ResidueOfResidue(a, p);
    FermatLittle(p, x);
    assert Pow(x, p - 1) == x * Pow(x, p - 2);
    ResidueOfResidue(Pow(x, p - 2), p);
    ProductsAgree(a, x, Inverse(a, p), Pow(x, p - 2), p);
  }

  // ----- reduction into the field -----

  /** The canonical residue; Dafny's remainder is never negative. */
  function Mod(x: int, p: int): (r: nat)
    requires p > 0
    ensures r < p
  {
    x % p
  }

  /** The remainder operator of the source truncates towards zero. */
  function Rem(x: int, p: int): (r: int)
    requires p > 0
  {
    if x >= 0 then x % p else -((-x) % p)
  }

  lemma RemIsCongruent(x: int, p: int)
    requires p > 0
    ensures Rem(x, p) % p == x % p && -p < Rem(x, p) < p
  {
    if x < 0 {
      DivisionSplits(-x, p);
      assert Rem(x, p) - x == p * (-x / p);
      MultipleIsZero(p, -x / p);
      SameResidue(Rem(x, p), x, p);
    }
  }

  /** Both reductions of the source yield the canonical residue, for negative operands too. */
  lemma SourceReductions(x: int, p: int)
    requires p > 0
    ensures var m := Rem(x, p);
            && Rem(m + p, p) == Mod(x, p)
            && (if m >= 0 then m else m + p) == Mod(x, p)
  {
    var m := Rem(x, p);
    RemIsCongruent(x, p);
    ResidueIs(m, p, if m >= 0 then 0 else -1, if m >= 0 then m else m + p);
    MultipleIsZero(p, 1);
    SumsAgree(m, m, p, 0, p);
  }
}
