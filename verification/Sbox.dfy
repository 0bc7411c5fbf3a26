/** The x^5 S-box (sdk/src/poseidon.ts): a permutation of the field exactly when 5 does not divide the
    order of its multiplicative group. */
module Sbox {
  import opened PrimeField
  import opened Polynomials

  function Sbox(x: nat, p: nat): (y: nat)
    requires p > 0
  {
    var x2 := (x * x) % p;
    var x4 := (x2 * x2) % p;
    (x4 * x) % p
  }

  lemma SboxIsFifthPower(x: nat, p: nat)
    requires p > 0
    ensures Sbox(x, p) == Pow(x, 5) % p && Sbox(x, p) < p
  {
    var x2, x4 := (x * x) % p, (((x * x) % p) * ((x * x) % p)) % p;
    ResidueOfResidue(x * x, p);
    ProductsAgree(x2, x * x, x2, x * x, p);
    ResidueOfResidue(x2 * x2, p);
    ProductsAgree(x4, x * x * (x * x), x, x, p);
    ResidueOfResidue(x4 * x, p);
    FifthPower(x);
  }

  lemma FifthPower(x: int)
    ensures Pow(x, 5) == x * x * (x * x) * x
  {
    assert Pow(x, 1) == x * Pow(x, 0);
    assert Pow(x, 2) == x * Pow(x, 1);
    assert Pow(x, 3) == x * Pow(x, 2);
    assert Pow(x, 4) == x * Pow(x, 3);
    assert Pow(x, 5) == x * Pow(x, 4);
    assert x * (x * (x * x)) == x * x * (x * x);
  }

  ghost predicate Injective(p: nat)
    requires p > 0
  {
    forall x: nat, y: nat :: x < p && y < p && Sbox(x, p) == Sbox(y, p) ==> x == y
  }

  ghost predicate Reached(p: nat, y: nat)
    requires p > 0
  {
    exists x: nat :: x < p && Sbox(x, p) == y
  }

  ghost predicate Surjective(p: nat)
    requires p > 0
  {
    forall y: nat :: y < p ==> Reached(p, y)
  }

  // ----- when 5 does not divide p - 1 -----

  /** The multiple of p - 1 that is one short of a multiple of 5. */
  function Cofactor(p: nat): nat
    requires p % 5 != 1
  {
    if p % 5 == 0 then 1 else if p % 5 == 2 then 4 else if p % 5 == 3 then 2 else 3
  }

  function InverseExponent(p: nat): nat
    requires p >= 2 && p % 5 != 1
  {
    (1 + Cofactor(p) * (p - 1)) / 5
  }

  lemma InverseExponentFits(p: nat)
    requires p >= 2 && p % 5 != 1
    ensures 5 * InverseExponent(p) == 1 + Cofactor(p) * (p - 1)
  {
    var q, j := p / 5, Cofactor(p);
    assert p == 5 * q + p % 5;
    if p % 5 == 0 {
      assert j == 1 && 1 + (p - 1) == 5 * q;
    } else if p % 5 == 2 {
      assert j == 4 && 1 + 4 * (p - 1) == 5 * (4 * q + 1);
    } else if p % 5 == 3 {
      assert j == 2 && 1 + 2 * (p - 1) == 5 * (2 * q + 1);
    } else {
      assert j == 3 && 1 + 3 * (p - 1) == 5 * (3 * q + 2);
    }
  }

  /** Exponents congruent to 1 modulo p - 1 act as the identity. */
  lemma IdentityExponent(p: nat, x: int, j: nat)
    requires Prime(p)
    ensures Pow(x, 1 + j * (p - 1)) % p == x % p
  {
    var rest := Pow(x, j * (p - 1));
    assert Pow(x, 1 + j * (p - 1)) == x * rest;
    if x % p == 0 {
      ZeroScales(x, rest, p);
    } else {
      FermatLittle(p, x);
      assert (p - 1) * j == j * (p - 1);
      PowOfPow(x, p - 1, j);
      SmallResidue(1, p);
      PowersAgree(Pow(x, p - 1), 1, j, p);
      PowOne(j);
      ProductsAgree(x, x, rest, 1, p);
    }
  }

  lemma {:induction false} PowOne(e: nat)
    ensures Pow(1, e) == 1
  {
    if e > 0 {
      PowOne(e - 1);
    }
  }

  /** The d-th power is a two-sided inverse of the S-box. */
  lemma InverseUndoes(p: nat, x: nat)
    requires Prime(p) && p % 5 != 1 && x < p
    ensures Pow(Sbox(x, p), InverseExponent(p)) % p == x
    ensures Sbox(Pow(x, InverseExponent(p)) % p, p) == x
  {
    var d := InverseExponent(p);
    InverseExponentFits(p);
    IdentityExponent(p, x, Cofactor(p));
    SmallResidue(x, p);
    SboxIsFifthPower(x, p);
    ResidueOfResidue(Pow(x, 5), p);
    PowersAgree(Sbox(x, p), Pow(x, 5), d, p);
    PowOfPow(x, 5, d);
    ResidueOfResidue(Pow(x, d), p);
    SboxIsFifthPower(Pow(x, d) % p, p);
    PowersAgree(Pow(x, d) % p, Pow(x, d), 5, p);
    PowOfPow(x, d, 5);
  }

  // ----- when 5 divides p - 1 -----

  /** The coefficients of x^m - 1. */
  function UnitPoly(m: nat): (c: Poly)
    requires m > 0
    ensures |c| == m + 1
  {
    [-1] + Zeros(m - 1) + [1]
  }

  lemma EvalUnitPoly(m: nat, x: int)
    requires m > 0
    ensures Eval(UnitPoly(m), x) == Pow(x, m) - 1
  {
    var low: Poly := [-1] + Zeros(m - 1);
    EvalSnoc(low, 1, x);
    assert low[1..] == Zeros(m - 1);
    EvalZeros(m - 1, x);
  }

  lemma UnitPolyAtZero(p: nat, m: nat)
    requires p > 1 && m > 0
    ensures Eval(UnitPoly(m), 0) % p == p - 1
  {
    EvalUnitPoly(m, 0);
    assert Pow(0, m) == 0 * Pow(0, m - 1);
    ResidueIs(-1, p, -1, p - 1);
  }

  /** Not all of 1, .., m + 1 have m-th power 1: x^m - 1 would have a root for each of its coefficients
      and vanish at 0 too. */
  lemma SomePowerIsNotOne(p: nat, m: nat)
    requires Prime(p) && 0 < m && m + 1 < p
    ensures exists a :: 1 <= a <= m + 1 && Pow(a, m) % p != 1
  {
    if forall a :: 1 <= a <= m + 1 ==> Pow(a, m) % p == 1 {
      var c := UnitPoly(m);
      var xs := seq(m + 1, i requires 0 <= i < m + 1 => i + 1);
      forall i | 0 <= i < m + 1
        ensures xs[i] % p == i + 1 && Eval(c, xs[i]) % p == 0
      {
        SmallResidue(i + 1, p);
        EvalUnitPoly(m, i + 1);
        SmallResidue(1, p);
        SameResidue(Pow(i + 1, m), 1, p);
      }
      UnitPolyAtZero(p, m);
      TooManyRoots(p, c, xs, 0);
      assert false;
    }
  }

  /** Every m-th power, m = (p - 1) / 5, of a unit is a fifth root of 1, and some is not 1 itself. */
  lemma NonTrivialFifthRoot(p: nat) returns (x: nat)
    requires Prime(p) && p % 5 == 1
    ensures 1 < x < p && Sbox(x, p) == Sbox(1, p)
  {
    var m := (p - 1) / 5;
    assert p - 1 == 5 * m && m > 0;
    SomePowerIsNotOne(p, m);
    var a :| 1 <= a <= m + 1 && Pow(a, m) % p != 1;
    x := Pow(a, m) % p;
    SmallResidue(a, p);
    FermatLittle(p, a);
    PowOfPow(a, m, 5);
    ResidueOfResidue(Pow(a, m), p);
    PowersAgree(x, Pow(a, m), 5, p);
    SboxIsFifthPower(x, p);
    SboxIsFifthPower(1, p);
    PowOne(5);
    SmallResidue(1, p);
    SmallResidue(0, p);
    assert Sbox(0, p) == 0;
  }

  /** The S-box is a bijection of the field exactly when p mod 5 is not 1. */
  lemma BijectiveExactly(p: nat)
    requires Prime(p)
    ensures Injective(p) && Surjective(p) <==> p % 5 != 1
  {
    if p % 5 == 1 {
      var x := NonTrivialFifthRoot(p);
      assert Sbox(x, p) == Sbox(1, p) && x != 1;
    } else {
      forall x: nat, y: nat | x < p && y < p && Sbox(x, p) == Sbox(y, p)
        ensures x == y
      {
        InverseUndoes(p, x);
        InverseUndoes(p, y);
      }
      forall y: nat | y < p
        ensures Reached(p, y)
      {
        InverseUndoes(p, y);
        var x: nat := Pow(y, InverseExponent(p)) % p;
        assert Sbox(x, p) == y;
      }
    }
  }
}
