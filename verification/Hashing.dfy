/** The Poseidon digest as a parameter. The source uses widths 1, 2 and 5 only. Field elements are
    naturals: on a finite field no width-2 hash is injective, so collision freedom is stated on
    unbounded naturals and exhibited by one instance. */
module Hashing {

  type Fr = nat

  datatype Hash = Hash(one: Fr -> Fr, two: (Fr, Fr) -> Fr, five: (Fr, Fr, Fr, Fr, Fr) -> Fr)

  /** The standing cryptographic hypothesis: each width is injective, and a commitment or node is
      never the empty leaf 0. */
  ghost predicate CollisionFree(h: Hash) {
    && (forall a, b :: h.one(a) == h.one(b) ==> a == b)
    && (forall a, b, c, d :: h.two(a, b) == h.two(c, d) ==> a == c && b == d)
    && (forall a, b, c, d, e, a', b', c', d', e' ::
          h.five(a, b, c, d, e) == h.five(a', b', c', d', e') ==>
            a == a' && b == b' && c == c' && d == d' && e == e')
    && (forall a, b, c, d, e :: h.five(a, b, c, d, e) != 0)
  }

  // A pairing function on naturals shows the hypothesis is satisfiable.

  function Pair(a: nat, b: nat): (r: nat)
    ensures r > 0
  {
    if a == 0 then 2 * b + 1 else 2 * Pair(a - 1, b)
  }

  lemma {:induction false} PairInjective(a: nat, b: nat, c: nat, d: nat)
    requires Pair(a, b) == Pair(c, d)
    ensures a == c && b == d
  {
    if a > 0 && c > 0 {
      PairInjective(a - 1, b, c - 1, d);
    }
  }

  function Pair5(a: nat, b: nat, c: nat, d: nat, e: nat): nat {
    Pair(a, Pair(b, Pair(c, Pair(d, e))))
  }

  const PAIRING := Hash(a => a, (a, b) => Pair(a, b), (a, b, c, d, e) => Pair5(a, b, c, d, e))

  lemma CollisionFreeIsSatisfiable()
    ensures CollisionFree(PAIRING)
  {
    forall a, b, c, d | PAIRING.two(a, b) == PAIRING.two(c, d)
      ensures a == c && b == d
    {
      PairInjective(a, b, c, d);
    }
    forall a, b, c, d, e, a', b', c', d', e' | PAIRING.five(a, b, c, d, e) == PAIRING.five(a', b', c', d', e')
      ensures a == a' && b == b' && c == c' && d == d' && e == e'
    {
      assert Pair5(a, b, c, d, e) == Pair5(a', b', c', d', e');
      PairInjective(a, Pair(b, Pair(c, Pair(d, e))), a', Pair(b', Pair(c', Pair(d', e'))));
      PairInjective(b, Pair(c, Pair(d, e)), b', Pair(c', Pair(d', e')));
      PairInjective(c, Pair(d, e), c', Pair(d', e'));
      PairInjective(d, e, d', e');
    }
  }
}
