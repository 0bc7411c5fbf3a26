/** Shamir custody of the auditor view key (sdk/src/threshold.ts) over any prime field: every quorum
    reconstructs the key, and below quorum nothing is learned. */
module Threshold {
  import opened Wrappers
  import opened PrimeField
  import opened Polynomials
  import opened Interpolation

  datatype KeyShare = KeyShare(x: int, y: int)

  datatype ThresholdError = BadQuorum | CoefficientCount | NoShares | DuplicateShare | ZeroShare | NoInverse

  // ----- powers and inverses -----

  lemma PowerOfSquare(b: int, n: nat, p: nat)
    requires p > 0
    ensures Pow((b * b) % p, n) % p == Pow(b, 2 * n) % p
  {
    ResidueOfResidue(b * b, p);
    PowersAgree((b * b) % p, b * b, n, p);
    assert Pow(b, 2) == b * Pow(b, 1) && Pow(b, 1) == b * Pow(b, 0);
    PowOfPow(b, 2, n);
  }

  /** Halving the exponent and squaring the base moves the odd factor into the accumulator. */
  lemma OddStep(result: int, b: int, half: nat, p: nat)
    requires p > 0
    ensures ((result * b) % p * Pow((b * b) % p, half)) % p == (result * Pow(b, 2 * half + 1)) % p
  {
    PowerOfSquare(b, half, p);
    ResidueOfResidue(result * b, p);
    ProductsAgree((result * b) % p, result * b, Pow((b * b) % p, half), Pow(b, 2 * half), p);
    assert Pow(b, 2 * half + 1) == b * Pow(b, 2 * half);
    assert result * b * Pow(b, 2 * half) == result * (b * Pow(b, 2 * half));
  }

  lemma EvenStep(result: int, b: int, half: nat, p: nat)
    requires p > 0
    ensures (result * Pow((b * b) % p, half)) % p == (result * Pow(b, 2 * half)) % p
  {
    PowerOfSquare(b, half, p);
    ProductsAgree(result, result, Pow((b * b) % p, half), Pow(b, 2 * half), p);
  }

  /** What is left to multiply completes the power. */
  ghost predicate PowerSoFar(result: int, b: int, e: nat, power: int, p: nat)
    requires p > 0
  {
    (result * Pow(b, e)) % p == power % p
  }

  lemma OneBit(result: int, b: int, e: nat, power: int, p: nat)
    requires p > 0 && e > 0 && PowerSoFar(result, b, e, power, p)
    ensures PowerSoFar(if e % 2 == 1 then (result * b) % p else result, (b * b) % p, e / 2, power, p)
  {
    var half := e / 2;
    if e % 2 == 1 {
      assert e == 2 * half + 1;
      OddStep(result, b, half, p);
    } else {
      assert e == 2 * half;
      EvenStep(result, b, half, p);
    }
  }

  /** Square and multiply. */
  method ModPow(base: int, exp: nat, p: nat) returns (result: nat)
    requires p > 1
    ensures result == Pow(base, exp) % p
  {
    result := 1;
    var b := Mod(base, p);
    var e := exp;
    ResidueOfResidue(base, p);
    PowersAgree(base, b, exp, p);
    while e > 0
      invariant result < p && PowerSoFar(result, b, e, Pow(base, exp), p)
      decreases e
    {
      OneBit(result, b, e, Pow(base, exp), p);
      if e % 2 == 1 {
        result := Mod(result * b, p);
      }
      b := Mod(b * b, p);
      e := e / 2;
    }
    SmallResidue(result, p);
  }

  method ModInverse(a: int, p: nat) returns (r: Result<nat, ThresholdError>)
    requires Prime(p)
    ensures a % p == 0 ==> r == Failure(NoInverse)
    ensures a % p != 0 ==> r == Success(Inverse(a, p)) && (a * r.value) % p == 1
  {
    var x := Mod(a, p);
    if x == 0 {
      return Failure(NoInverse);
    }
    var inv := ModPow(x, p - 2, p);
    InverseInverts(p, a);
    return Success(inv);
  }

  // ----- splitting -----

  /** The secret is the constant term. */
  function KeyPoly(p: nat, kView: int, coeffs: seq<int>): (c: Poly)
    requires p > 0
    ensures |c| == |coeffs| + 1
  {
    [Mod(kView, p)] + seq(|coeffs|, i requires 0 <= i < |coeffs| => Mod(coeffs[i], p))
  }

  function ShareAt(p: nat, c: Poly, x: int): KeyShare
    requires p > 0
  {
    KeyShare(x % p, Eval(c, x) % p)
  }

  /** Authority i + 1 holds the value of the polynomial there. */
  function Shares(p: nat, c: Poly, n: nat): (s: seq<KeyShare>)
    requires p > 0
    ensures |s| == n && forall i :: 0 <= i < n ==> s[i] == ShareAt(p, c, i + 1)
  {
    seq(n, i requires 0 <= i < n => ShareAt(p, c, i + 1))
  }

  method EvalShare(p: nat, poly: Poly, i: nat) returns (share: KeyShare)
    requires p > 1
    ensures share == ShareAt(p, poly, i)
  {
    var y: int := 0;
    var xp: int := 1;
    for j := 0 to |poly|
      invariant 0 <= y < p
      invariant y % p == Eval(poly[..j], i) % p
      invariant xp % p == Pow(i, j) % p
    {
      var c := poly[j];
      EvalSnoc(poly[..j], c, i);
      assert poly[..j + 1] == poly[..j] + [c];
      ProductsAgree(c, c, xp, Pow(i, j), p);
      SumsAgree(y, Eval(poly[..j], i), c * xp, c * Pow(i, j), p);
      ProductsAgree(xp, Pow(i, j), i, i, p);
      ResidueOfResidue(y + c * xp, p);
      ResidueOfResidue(xp * i, p);
      y := Mod(y + c * xp, p);
      xp := Mod(xp * i, p);
    }
    assert poly[..|poly|] == poly;
    share := KeyShare(Mod(i, p), Mod(y, p));
  }

  method SplitViewKey(p: nat, kView: int, k: int, n: int, coeffs: seq<int>)
    returns (r: Result<seq<KeyShare>, ThresholdError>)
    requires p > 1
    ensures k < 1 || n < k ==> r == Failure(BadQuorum)
    ensures 1 <= k <= n && |coeffs| != k - 1 ==> r == Failure(CoefficientCount)
    ensures 1 <= k <= n && |coeffs| == k - 1 ==> r == Success(Shares(p, KeyPoly(p, kView, coeffs), n))
  {
    if k < 1 || n < k {
      return Failure(BadQuorum);
    }
    if |coeffs| != k - 1 {
      return Failure(CoefficientCount);
    }
    var poly := KeyPoly(p, kView, coeffs);
    var shares: seq<KeyShare> := [];
    for i := 1 to n + 1
      invariant shares == Shares(p, poly, i - 1)
    {
      var share := EvalShare(p, poly, i);
      shares := shares + [share];
    }
    return Success(shares);
  }

  // ----- combining -----

  function Xs(p: nat, shares: seq<KeyShare>): (xs: seq<int>)
    requires p > 0
    ensures |xs| == |shares|
    ensures forall i :: 0 <= i < |xs| ==> xs[i] == shares[i].x % p
  {
    seq(|shares|, i requires 0 <= i < |shares| => Mod(shares[i].x, p))
  }

  function Ys(shares: seq<KeyShare>): (ys: seq<int>)
    ensures |ys| == |shares| && forall i :: 0 <= i < |ys| ==> ys[i] == shares[i].y
  {
    seq(|shares|, i requires 0 <= i < |shares| => shares[i].y)
  }

  lemma XsAreDistinct(p: nat, shares: seq<KeyShare>)
    requires p > 0 && !HasDuplicate(Xs(p, shares))
    ensures DistinctMod(Xs(p, shares), p)
  {
    var xs := Xs(p, shares);
    forall i | 0 <= i < |xs|
      ensures xs[i] % p == xs[i]
    {
      ResidueOfResidue(shares[i].x, p);
    }
  }

  predicate HasDuplicate(xs: seq<int>) {
    exists i, j :: 0 <= i < j < |xs| && xs[i] == xs[j]
  }

  function LagrangeAtZero(p: nat, shares: seq<KeyShare>): nat
    requires p > 1
  {
    var xs := Xs(p, shares);
    Eval(Interpolant(p, xs, Ys(shares)), 0) % p
  }

  method LagrangeFraction(p: nat, xs: seq<int>, i: nat) returns (num: int, den: int)
    requires p > 1 && i < |xs|
    ensures num % p == Numerator(xs, i, 0) % p
    ensures den % p == Numerator(xs, i, xs[i]) % p
  {
    num, den := 1, 1;
    for j := 0 to |xs|
      invariant num % p == Numerator(xs[..j], i, 0) % p
      invariant den % p == Numerator(xs[..j], i, xs[i]) % p
    {
      assert xs[..j + 1][..j] == xs[..j];
      if j != i {
        MultiplyIn(p, num, Numerator(xs[..j], i, 0), -xs[j]);
        MultiplyIn(p, den, Numerator(xs[..j], i, xs[i]), xs[i] - xs[j]);
        num := Mod(num * Mod(-xs[j], p), p);
        den := Mod(den * Mod(xs[i] - xs[j], p), p);
      }
    }
    assert xs[..|xs|] == xs;
  }

  lemma FractionsAgree(p: nat, num: int, den: int, n: int, d: int)
    requires p > 1 && num % p == n % p && den % p == d % p
    ensures (num * Inverse(den, p)) % p == (Inverse(d, p) * n) % p
  {
    var inv := Inverse(den, p);
    assert inv == Inverse(d, p);
    ProductsAgree(num, n, inv, inv, p);
    assert n * inv == inv * n;
  }

  /** Any basis of the nodes has the value of the Lagrange fraction at 0. */
  lemma FractionIsBasisValue(p: nat, xs: seq<int>, basis: seq<Poly>, i: nat)
    requires Prime(p) && DistinctMod(xs, p) && IsBasis(p, xs, basis) && i < |xs|
    ensures (Inverse(Numerator(xs, i, xs[i]), p) * Numerator(xs, i, 0)) % p == Eval(basis[i], 0) % p
  {
    var own := LagrangeBasis(p, xs);
    LagrangeBasisIsBasis(p, xs);
    BasesAgree(p, xs, own, basis, i, 0);
    BasisValue(p, xs, i, 0);
  }

  /** The i-th Lagrange coefficient at 0. */
  method LagrangeCoefficient(p: nat, xs: seq<int>, ghost basis: seq<Poly>, i: nat) returns (li0: nat)
    requires Prime(p) && DistinctMod(xs, p) && IsBasis(p, xs, basis) && i < |xs|
    ensures li0 == Eval(basis[i], 0) % p
  {
    var num, den := LagrangeFraction(p, xs, i);
    NumeratorIsUnit(p, xs, i, xs[i]);
    var inverse := ModInverse(den, p);
    FractionsAgree(p, num, den, Numerator(xs, i, 0), Numerator(xs, i, xs[i]));
    FractionIsBasisValue(p, xs, basis, i);
    li0 := Mod(num * inverse.value, p);
  }

  lemma MultiplyIn(p: nat, acc: int, value: int, factor: int)
    requires p > 0 && acc % p == value % p
    ensures ((acc * (factor % p)) % p) % p == (value * factor) % p
  {
    ResidueOfResidue(factor, p);
    ProductsAgree(acc, value, factor % p, factor, p);
    ResidueOfResidue(acc * (factor % p), p);
  }

  /** One more term of the Lagrange sum. */
  lemma AddTerm(p: nat, secret: int, sum: int, y: int, b: int)
    requires p > 0 && sum % p == secret % p
    ensures (sum + y * b) % p == ((secret + (y * (b % p)) % p) % p) % p
  {
    ResidueOfResidue(b, p);
    ProductsAgree(y, y, b % p, b, p);
    ResidueOfResidue(y * (b % p), p);
    SumsAgree(secret, sum, (y * (b % p)) % p, y * b, p);
    ResidueOfResidue(secret + (y * (b % p)) % p, p);
  }

  lemma SumOneMore(p: nat, basis: seq<Poly>, ys: seq<int>, m: nat, i: nat, secret: int, li0: int)
    requires p > 0 && i < |basis| == |ys| && forall k :: 0 <= k < |basis| ==> |basis[k]| == m
    requires HasValue(p, Combination(basis, ys, m, i), 0, secret) && li0 == Eval(basis[i], 0) % p
    ensures HasValue(p, Combination(basis, ys, m, i + 1), 0, (secret + (ys[i] * li0) % p) % p)
  {
    AddedTerm(basis, ys, m, i, 0);
    AddTerm(p, secret, Eval(Combination(basis, ys, m, i), 0), ys[i], Eval(basis[i], 0));
  }

  /** What combineShares accepts. */
  ghost predicate Usable(p: nat, shares: seq<KeyShare>)
    requires p > 0
  {
    |shares| > 0 && !HasDuplicate(Xs(p, shares)) && 0 !in Xs(p, shares)
  }

  method AddShare(p: nat, ghost basis: seq<Poly>, ys: seq<int>, ghost m: nat, i: nat, secret: nat, li0: nat)
    returns (next: nat)
    requires p > 0 && i < |ys| == |basis| && forall k :: 0 <= k < |basis| ==> |basis[k]| == m
    requires HasValue(p, Combination(basis, ys, m, i), 0, secret) && li0 == Eval(basis[i], 0) % p
    ensures HasValue(p, Combination(basis, ys, m, i + 1), 0, next) && next < p
  {
    SumOneMore(p, basis, ys, m, i, secret, li0);
    next := Mod(secret + Mod(ys[i] * li0, p), p);
  }

  method LagrangeSum(p: nat, xs: seq<int>, ys: seq<int>, ghost basis: seq<Poly>) returns (secret: nat)
    requires Prime(p) && |xs| == |ys| && DistinctMod(xs, p) && IsBasis(p, xs, basis)
    ensures secret == Eval(Combination(basis, ys, |xs|, |xs|), 0) % p
  {
    secret := 0;
    EvalZeros(|xs|, 0);
    for i := 0 to |xs|
      invariant secret < p && HasValue(p, Combination(basis, ys, |xs|, i), 0, secret)
    {
      var li0 := LagrangeCoefficient(p, xs, basis, i);
      secret := AddShare(p, basis, ys, |xs|, i, secret, li0);
    }
    SmallResidue(secret, p);
  }

  method CombineShares(p: nat, shares: seq<KeyShare>) returns (r: Result<nat, ThresholdError>)
    requires Prime(p)
    ensures |shares| == 0 ==> r == Failure(NoShares)
    ensures |shares| > 0 && HasDuplicate(Xs(p, shares)) ==> r == Failure(DuplicateShare)
    ensures |shares| > 0 && !HasDuplicate(Xs(p, shares)) && 0 in Xs(p, shares) ==> r == Failure(ZeroShare)
    ensures Usable(p, shares) ==> r == Success(LagrangeAtZero(p, shares))
  {
    if |shares| == 0 {
      return Failure(NoShares);
    }
    var xs := Xs(p, shares);
    if HasDuplicate(xs) {
      return Failure(DuplicateShare);
    }
    if 0 in xs {
      return Failure(ZeroShare);
    }
    XsAreDistinct(p, shares);
    LagrangeBasisIsBasis(p, xs);
    var secret := LagrangeSum(p, xs, Ys(shares), LagrangeBasis(p, xs));
    return Success(secret);
  }

  // ----- any quorum reconstructs -----

  /** Lagrange at 0 recovers the constant term of any polynomial with at most as many coefficients as
      there are shares on it. */
  lemma CombineRecovers(p: nat, shares: seq<KeyShare>, c: Poly)
    requires Prime(p) && Usable(p, shares) && |c| <= |shares|
    requires Through(p, c, Xs(p, shares), Ys(shares))
    ensures LagrangeAtZero(p, shares) == Eval(c, 0) % p
  {
    var xs, ys := Xs(p, shares), Ys(shares);
    XsAreDistinct(p, shares);
    InterpolantThrough(p, xs, ys);
    PointsDetermine(p, c, Interpolant(p, xs, ys), xs, ys, 0);
  }

  ghost predicate Picks(picked: seq<nat>, n: nat) {
    && (forall i :: 0 <= i < |picked| ==> picked[i] < n)
    && (forall i, j :: 0 <= i < j < |picked| ==> picked[i] != picked[j])
  }

  function Quorum(p: nat, c: Poly, n: nat, picked: seq<nat>): (s: seq<KeyShare>)
    requires p > 0 && forall i :: 0 <= i < |picked| ==> picked[i] < n
    ensures |s| == |picked| && forall i :: 0 <= i < |s| ==> s[i] == Shares(p, c, n)[picked[i]]
  {
    seq(|picked|, i requires 0 <= i < |picked| => Shares(p, c, n)[picked[i]])
  }

  function Points(picked: seq<nat>): (xs: seq<int>)
    ensures |xs| == |picked| && forall i :: 0 <= i < |xs| ==> xs[i] == picked[i] + 1
  {
    seq(|picked|, i requires 0 <= i < |picked| => picked[i] + 1)
  }

  lemma QuorumXs(p: nat, c: Poly, n: nat, picked: seq<nat>)
    requires Prime(p) && n < p && Picks(picked, n)
    ensures Xs(p, Quorum(p, c, n, picked)) == Points(picked)
  {
    var quorum := Quorum(p, c, n, picked);
    forall i | 0 <= i < |picked|
      ensures Xs(p, quorum)[i] == picked[i] + 1
    {
      SmallResidue(picked[i] + 1, p);
      assert quorum[i].x == (picked[i] + 1) % p;
    }
  }

  lemma QuorumIsUsable(p: nat, c: Poly, n: nat, picked: seq<nat>)
    requires Prime(p) && n < p && Picks(picked, n) && |picked| > 0
    ensures Usable(p, Quorum(p, c, n, picked))
  {
    QuorumXs(p, c, n, picked);
  }

  lemma QuorumIsOnPolynomial(p: nat, c: Poly, n: nat, picked: seq<nat>)
    requires Prime(p) && n < p && Picks(picked, n)
    ensures Through(p, c, Xs(p, Quorum(p, c, n, picked)), Ys(Quorum(p, c, n, picked)))
  {
    var quorum := Quorum(p, c, n, picked);
    QuorumXs(p, c, n, picked);
    forall i | 0 <= i < |picked|
      ensures HasValue(p, c, picked[i] + 1, quorum[i].y)
    {
      ResidueOfResidue(Eval(c, picked[i] + 1), p);
    }
  }

  lemma KeyAtZero(p: nat, kView: int, coeffs: seq<int>)
    requires p > 0
    ensures Eval(KeyPoly(p, kView, coeffs), 0) % p == Mod(kView, p)
  {
    var c := KeyPoly(p, kView, coeffs);
    assert Eval(c, 0) == c[0] + 0 * Eval(c[1..], 0);
    ResidueOfResidue(kView, p);
  }

  /** k-of-n: any m >= k of the n < p shares recover the key, whatever the coefficients. */
  lemma QuorumReconstructs(p: nat, kView: int, coeffs: seq<int>, n: nat, picked: seq<nat>)
    requires Prime(p) && n < p && Picks(picked, n) && |picked| >= |coeffs| + 1
    ensures var quorum := Quorum(p, KeyPoly(p, kView, coeffs), n, picked);
            Usable(p, quorum) && LagrangeAtZero(p, quorum) == Mod(kView, p)
  {
    var c := KeyPoly(p, kView, coeffs);
    QuorumIsUsable(p, c, n, picked);
    QuorumIsOnPolynomial(p, c, n, picked);
    CombineRecovers(p, Quorum(p, c, n, picked), c);
    KeyAtZero(p, kView, coeffs);
  }

  // ----- what fewer shares combine to -----

  /** What any nonempty choice of shares combines to, exactly: the key if and only if the quotient of the dealer's
      polynomial by their points vanishes at 0. */
  lemma CombinesToKeyExactly(p: nat, kView: int, coeffs: seq<int>, n: nat, picked: seq<nat>)
    requires Prime(p) && n < p && Picks(picked, n) && |picked| > 0
    ensures var c := KeyPoly(p, kView, coeffs);
            && Usable(p, Quorum(p, c, n, picked))
            && (LagrangeAtZero(p, Quorum(p, c, n, picked)) == Mod(kView, p) <==>
                Eval(QuotientBy(c, Points(picked)), 0) % p == 0)
  {
    var c := KeyPoly(p, kView, coeffs);
    var shares, xs := Quorum(p, c, n, picked), Points(picked);
    var r := Remainder(c, xs, |xs|);
    QuorumXs(p, c, n, picked);
    QuorumIsUsable(p, c, n, picked);
    QuorumIsOnPolynomial(p, c, n, picked);
    RemainderThrough(p, c, xs, Ys(shares));
    CombineRecovers(p, shares, r);
    KeyAtZero(p, kView, coeffs);
    NodesAreUnits(p, n, picked);
    DivisionByAll(c, xs, |xs|, 0);
    SameUpToUnit(p, Eval(c, 0), Eval(r, 0), Numerator(xs, |xs|, 0), Eval(QuotientBy(c, xs), 0));
  }

  /** A unit times q is all that a and r differ by. */
  lemma SameUpToUnit(p: nat, a: int, r: int, unit: int, q: int)
    requires Prime(p) && unit % p != 0 && a == r + unit * q
    ensures r % p == a % p <==> q % p == 0
  {
    SameResidue(a, r, p);
    EuclidLemma(p, unit, q);
  }

  lemma NodesAreUnits(p: nat, n: nat, picked: seq<nat>)
    requires Prime(p) && n < p && Picks(picked, n)
    ensures Numerator(Points(picked), |picked|, 0) % p != 0
  {
    forall j | 0 <= j < |picked|
      ensures Points(picked)[j] % p != 0 % p
    {
      SmallResidue(picked[j] + 1, p);
      SmallResidue(0, p);
    }
    NumeratorIsUnit(p, Points(picked), |picked|, 0);
  }

  /** One share short of the quorum, they combine to the key exactly when the leading coefficient drawn is a
      multiple of p. */
  lemma OneShortCombinesExactly(p: nat, kView: int, coeffs: seq<int>, n: nat, picked: seq<nat>)
    requires Prime(p) && n < p && Picks(picked, n) && |picked| == |coeffs| > 0
    ensures LagrangeAtZero(p, Quorum(p, KeyPoly(p, kView, coeffs), n, picked)) == Mod(kView, p) <==>
            coeffs[|coeffs| - 1] % p == 0
  {
    var c, m := KeyPoly(p, kView, coeffs), |coeffs|;
    CombinesToKeyExactly(p, kView, coeffs, n, picked);
    LastQuotient(c, Points(picked));
    assert Eval([c[m]], 0) == c[m] + 0 * Eval([], 0);
    assert c[m] == Mod(coeffs[m - 1], p);
    ResidueOfResidue(coeffs[m - 1], p);
  }

  // ----- below quorum nothing is learned -----

  ghost predicate Canonical(c: seq<int>, p: nat) {
    forall i :: 0 <= i < |c| ==> 0 <= c[i] < p
  }

  /** With m coefficients besides the key, they give the picked authorities exactly these share values. */
  ghost predicate Explains(p: nat, kView: int, m: nat, coeffs: seq<int>, n: nat, picked: seq<nat>, ys: seq<int>)
    requires p > 0 && Picks(picked, n) && |ys| == |picked|
  {
    && |coeffs| == m && Canonical(coeffs, p)
    && forall i :: 0 <= i < |picked| ==> Shares(p, KeyPoly(p, kView, coeffs), n)[picked[i]].y == ys[i]
  }

  lemma PointsAreNodes(p: nat, n: nat, picked: seq<nat>)
    requires n < p && Picks(picked, n)
    ensures DistinctMod(Points(picked), p) && NonzeroMod(Points(picked), p)
    ensures DistinctMod([0] + Points(picked), p)
  {
    var xs := Points(picked);
    forall i | 0 <= i < |xs|
      ensures xs[i] % p == picked[i] + 1
    {
      SmallResidue(xs[i], p);
    }
    SmallResidue(0, p);
  }

  function Reduced(c: Poly, p: nat): (r: Poly)
    requires p > 0
    ensures |r| == |c| && forall i :: 0 <= i < |c| ==> r[i] == c[i] % p
  {
    seq(|c|, i requires 0 <= i < |c| => c[i] % p)
  }

  lemma ReducedIsCanonical(c: Poly, p: nat)
    requires p > 0
    ensures Canonical(Reduced(c, p), p)
    ensures forall i :: 0 <= i < |c| ==> Reduced(c, p)[i] % p == c[i] % p
  {
    forall i | 0 <= i < |c|
      ensures 0 <= Reduced(c, p)[i] < p && Reduced(c, p)[i] % p == c[i] % p
    {
      ResidueOfResidue(c[i], p);
    }
  }

  /** Reducing the coefficients changes no value. */
  lemma ReducedKeepsValues(c: Poly, x: int, y: int, p: nat)
    requires p > 0 && HasValue(p, c, x, y)
    ensures HasValue(p, Reduced(c, p), x, y)
  {
    ReducedIsCanonical(c, p);
    EvalAgrees(Reduced(c, p), c, x, x, p);
  }

  lemma CanonicalKeyPoly(p: nat, kView: int, coeffs: seq<int>)
    requires p > 0 && Canonical(coeffs, p)
    ensures KeyPoly(p, kView, coeffs) == [Mod(kView, p)] + coeffs
  {
    forall i | 0 <= i < |coeffs|
      ensures Mod(coeffs[i], p) == coeffs[i]
    {
      SmallResidue(coeffs[i], p);
    }
  }

  /** A canonical polynomial of the right length is the key polynomial of its own tail. */
  lemma TailIsKeyPoly(p: nat, kView: int, c: Poly)
    requires p > 0 && |c| > 0 && Canonical(c, p) && HasValue(p, c, 0, kView)
    ensures Canonical(c[1..], p) && KeyPoly(p, kView, c[1..]) == c
  {
    assert Eval(c, 0) == c[0] + 0 * Eval(c[1..], 0);
    SmallResidue(c[0], p);
    CanonicalKeyPoly(p, kView, c[1..]);
    assert [c[0]] + c[1..] == c;
  }

  /** Interpolate the shares together with any candidate secret at 0. */
  lemma ExplanationExists(p: nat, kView: int, n: nat, picked: seq<nat>, ys: seq<int>) returns (coeffs: seq<int>)
    requires Prime(p) && n < p && Picks(picked, n) && |ys| == |picked| && Canonical(ys, p)
    ensures Explains(p, kView, |picked|, coeffs, n, picked, ys)
  {
    var xs, vs := [0] + Points(picked), [kView] + ys;
    var l := Interpolant(p, xs, vs);
    var c := Reduced(l, p);
    PointsAreNodes(p, n, picked);
    InterpolantThrough(p, xs, vs);
    forall i | 0 <= i < |xs|
      ensures HasValue(p, c, xs[i], vs[i])
    {
      ReducedKeepsValues(l, xs[i], vs[i], p);
    }
    assert HasValue(p, c, xs[0], vs[0]);
    ReducedIsCanonical(l, p);
    TailIsKeyPoly(p, kView, c);
    coeffs := c[1..];
    forall i | 0 <= i < |picked|
      ensures Shares(p, c, n)[picked[i]].y == ys[i]
    {
      assert HasValue(p, c, xs[i + 1], vs[i + 1]);
      SmallResidue(ys[i], p);
    }
  }

  /** One share value fixes the value of the non-constant part. */
  lemma SameShareSameTail(p: nat, kView: int, a: seq<int>, b: seq<int>, x: int)
    requires Prime(p) && Canonical(a, p) && Canonical(b, p) && |a| == |b| && x % p != 0
    requires Eval(KeyPoly(p, kView, a), x) % p == Eval(KeyPoly(p, kView, b), x) % p
    ensures Eval(Plus(a, Scaled(-1, b)), x) % p == 0
  {
    var s := Mod(kView, p);
    CanonicalKeyPoly(p, kView, a);
    CanonicalKeyPoly(p, kView, b);
    assert ([s] + a)[1..] == a && ([s] + b)[1..] == b;
    SameResidue(s + x * Eval(a, x), s + x * Eval(b, x), p);
    assert s + x * Eval(a, x) - (s + x * Eval(b, x)) == x * (Eval(a, x) - Eval(b, x));
    EuclidLemma(p, x, Eval(a, x) - Eval(b, x));
    EvalPlus(a, Scaled(-1, b), x);
    EvalScaled(-1, b, x);
  }

  /** Two explanations differ by a polynomial with too many roots. */
  lemma ExplanationUnique(p: nat, kView: int, a: seq<int>, b: seq<int>, n: nat, picked: seq<nat>, ys: seq<int>)
    requires Prime(p) && n < p && Picks(picked, n) && |ys| == |picked|
    requires Explains(p, kView, |picked|, a, n, picked, ys) && Explains(p, kView, |picked|, b, n, picked, ys)
    ensures a == b
  {
    var xs := Points(picked);
    var diff := Plus(a, Scaled(-1, b));
    PointsAreNodes(p, n, picked);
    forall i | 0 <= i < |xs|
      ensures Eval(diff, xs[i]) % p == 0
    {
      assert Shares(p, KeyPoly(p, kView, a), n)[picked[i]].y == Shares(p, KeyPoly(p, kView, b), n)[picked[i]].y;
      SameShareSameTail(p, kView, a, b, xs[i]);
    }
    TooManyRootsNoCoefficients(p, diff, xs);
    forall i | 0 <= i < |a|
      ensures a[i] == b[i]
    {
      assert diff[i] % p == 0;
      SameResidue(a[i], b[i], p);
      SmallResidue(a[i], p);
      SmallResidue(b[i], p);
    }
  }

  /** For any k - 1 authorities, any values they may hold and any candidate key, exactly one coefficient vector
      is behind it. */
  lemma ExactlyOneExplanation(p: nat, kView: int, n: nat, picked: seq<nat>, ys: seq<int>) returns (coeffs: seq<int>)
    requires Prime(p) && n < p && Picks(picked, n) && |ys| == |picked| && Canonical(ys, p)
    ensures Explains(p, kView, |picked|, coeffs, n, picked, ys)
    ensures forall other :: Explains(p, kView, |picked|, other, n, picked, ys) ==> other == coeffs
  {
    coeffs := ExplanationExists(p, kView, n, picked, ys);
    forall other | Explains(p, kView, |picked|, other, n, picked, ys)
      ensures other == coeffs
    {
      ExplanationUnique(p, kView, other, coeffs, n, picked, ys);
    }
  }

  // ----- counting the explanations -----

  /** All coefficient vectors of length m. */
  ghost function Vectors(p: nat, m: nat): (vs: set<seq<int>>)
    ensures forall v :: v in vs <==> |v| == m && Canonical(v, p)
  {
    if m == 0 then {[]}
    else
      var shorter := Vectors(p, m - 1);
      var vs := set v, x | v in shorter && 0 <= x < p :: v + [x];
      assert forall v :: |v| == m && Canonical(v, p) ==> v[..m - 1] in shorter && v == v[..m - 1] + [v[m - 1]];
      vs
  }

  ghost function Explanations(p: nat, kView: int, m: nat, n: nat, picked: seq<nat>, ys: seq<int>): set<seq<int>>
    requires p > 0 && Picks(picked, n) && |ys| == |picked|
  {
    set coeffs | coeffs in Vectors(p, m) && Explains(p, kView, m, coeffs, n, picked, ys)
  }

  lemma OneMoreShareExplains(
    p: nat, kView: int, m: nat, coeffs: seq<int>, n: nat, picked: seq<nat>, ys: seq<int>, q: nat, y: int)
    requires p > 0 && Picks(picked, n) && |ys| == |picked| && q < n && q !in picked
    ensures Picks(picked + [q], n)
    ensures Explains(p, kView, m, coeffs, n, picked + [q], ys + [y]) <==>
            Explains(p, kView, m, coeffs, n, picked, ys) && Shares(p, KeyPoly(p, kView, coeffs), n)[q].y == y
  {
    var more, values := picked + [q], ys + [y];
    assert forall i :: 0 <= i < |picked| ==> more[i] == picked[i] && values[i] == ys[i];
    assert more[|picked|] == q && values[|picked|] == y;
  }

  /** The explanations in which authority q holds a value below `bound`. */
  ghost function ExplanationsBelow(
    p: nat, kView: int, m: nat, n: nat, picked: seq<nat>, ys: seq<int>, q: nat, bound: nat): set<seq<int>>
    requires p > 0 && Picks(picked, n) && |ys| == |picked| && q < n
  {
    set coeffs | coeffs in Explanations(p, kView, m, n, picked, ys)
                 && Shares(p, KeyPoly(p, kView, coeffs), n)[q].y < bound
  }

  /** One more value of q adds the explanations of the longer view. */
  lemma ExplanationsOfOneMore(
    p: nat, kView: int, m: nat, n: nat, picked: seq<nat>, ys: seq<int>, q: nat, bound: nat)
    requires p > 0 && Picks(picked, n) && |ys| == |picked| && q < n && q !in picked
    ensures Picks(picked + [q], n)
    ensures var below := ExplanationsBelow(p, kView, m, n, picked, ys, q, bound);
            var there := Explanations(p, kView, m, n, picked + [q], ys + [bound]);
            below !! there && ExplanationsBelow(p, kView, m, n, picked, ys, q, bound + 1) == below + there
  {
    forall coeffs
      ensures Picks(picked + [q], n)
      ensures Explains(p, kView, m, coeffs, n, picked + [q], ys + [bound]) <==>
              Explains(p, kView, m, coeffs, n, picked, ys) && Shares(p, KeyPoly(p, kView, coeffs), n)[q].y == bound
    {
      OneMoreShareExplains(p, kView, m, coeffs, n, picked, ys, q, bound);
    }
  }

  lemma NoneBelowZero(p: nat, kView: int, m: nat, n: nat, picked: seq<nat>, ys: seq<int>, q: nat)
    requires p > 0 && Picks(picked, n) && |ys| == |picked| && q < n
    ensures ExplanationsBelow(p, kView, m, n, picked, ys, q, 0) == {}
  {
  }

  lemma DisjointSizes<T>(a: set<T>, b: set<T>, bound: nat, each: nat)
    requires a !! b && |a| == bound * each && |b| == each
    ensures |a + b| == (bound + 1) * each
  {
    assert (bound + 1) * each == bound * each + each;
  }

  lemma {:induction false} CountBelow(
    p: nat, kView: int, m: nat, n: nat, picked: seq<nat>, ys: seq<int>, q: nat, bound: nat, each: nat)
    requires p > 0 && Picks(picked, n) && |ys| == |picked| && q < n && q !in picked && Picks(picked + [q], n)
    requires forall y: nat :: y < bound ==> |Explanations(p, kView, m, n, picked + [q], ys + [y])| == each
    ensures |ExplanationsBelow(p, kView, m, n, picked, ys, q, bound)| == bound * each
    decreases bound
  {
    if bound == 0 {
      NoneBelowZero(p, kView, m, n, picked, ys, q);
    } else {
      var last := bound - 1;
      CountBelow(p, kView, m, n, picked, ys, q, last, each);
      ExplanationsOfOneMore(p, kView, m, n, picked, ys, q, last);
      DisjointSizes(ExplanationsBelow(p, kView, m, n, picked, ys, q, last),
                    Explanations(p, kView, m, n, picked + [q], ys + [last]), last, each);
    }
  }

  /** Fewer than n authorities leave one out. */
  lemma SomeoneIsLeft(n: nat, picked: seq<nat>) returns (q: nat)
    requires Picks(picked, n) && |picked| < n
    ensures q < n && q !in picked
  {
    q := 0;
    if forall i :: 0 <= i < n ==> i in picked {
      AllPicked(n, picked);
    } else {
      q :| 0 <= q < n && q !in picked;
    }
  }

  lemma {:induction false} AllPicked(n: nat, picked: seq<nat>)
    requires forall i :: 0 <= i < n ==> i in picked
    ensures |picked| >= n
  {
    if n > 0 {
      assert n - 1 in picked;
      var at :| 0 <= at < |picked| && picked[at] == n - 1;
      var others := picked[..at] + picked[at + 1..];
      forall i | 0 <= i < n - 1
        ensures i in others
      {
        assert i in picked;
        var k :| 0 <= k < |picked| && picked[k] == i;
        assert others[if k < at then k else k - 1] == i;
      }
      AllPicked(n - 1, others);
    }
  }

  /** Perfect secrecy: whatever fewer than k authorities hold, every candidate key is explained by equally many
      of the coefficient vectors the dealer may have drawn, p for each share they lack. */
  lemma {:induction false} BelowQuorumNothingIsLearned(
    p: nat, kView: int, k: nat, n: nat, picked: seq<nat>, ys: seq<int>)
    requires Prime(p) && 1 <= k <= n < p && Picks(picked, n) && |picked| < k
    requires |ys| == |picked| && Canonical(ys, p)
    ensures |Explanations(p, kView, k - 1, n, picked, ys)| == Pow(p, k - 1 - |picked|)
    decreases k - |picked|
  {
    var m := k - 1;
    if |picked| == m {
      var coeffs := ExactlyOneExplanation(p, kView, n, picked, ys);
      assert Explanations(p, kView, m, n, picked, ys) == {coeffs};
    } else {
      var q := SomeoneIsLeft(n, picked);
      forall y: nat | y < p
        ensures Picks(picked + [q], n)
        ensures |Explanations(p, kView, m, n, picked + [q], ys + [y])| == Pow(p, m - |picked| - 1)
      {
        BelowQuorumNothingIsLearned(p, kView, k, n, picked + [q], ys + [y]);
      }
      CountBelow(p, kView, m, n, picked, ys, q, p, Pow(p, m - |picked| - 1));
      assert ExplanationsBelow(p, kView, m, n, picked, ys, q, p) == Explanations(p, kView, m, n, picked, ys);
    }
  }
}
