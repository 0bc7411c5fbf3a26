/** Notes, their commitments and nullifiers (sdk/src/note.ts). */
module Notes {
  import opened Hashing

  const NOTE_VALUE_BOUND: nat := 0x1_0000_0000_0000_0000

  datatype Note = Note(assetId: Fr, value: nat, ownerPk: Fr, rho: Fr, rNote: Fr)

  function Commitment(h: Hash, n: Note): Fr {
    h.five(n.assetId, n.value, n.ownerPk, n.rho, n.rNote)
  }

  function DeriveOwnerPk(h: Hash, ownerSk: Fr): Fr {
    h.one(ownerSk)
  }

  function DeriveNullifier(h: Hash, rho: Fr, ownerSk: Fr): Fr {
    h.two(rho, ownerSk)
  }

  /** A commitment fixes the note, hence the only key that can own it and the only nullifier that can
      ever be published for it. */
  lemma CommitmentFixesNullifier(h: Hash, a: Note, skA: Fr, b: Note, skB: Fr)
    requires CollisionFree(h)
    requires Commitment(h, a) == Commitment(h, b)
    requires a.ownerPk == DeriveOwnerPk(h, skA) && b.ownerPk == DeriveOwnerPk(h, skB)
    ensures a == b && DeriveNullifier(h, a.rho, skA) == DeriveNullifier(h, b.rho, skB)
    ensures Commitment(h, a) == h.five(a.assetId, a.value, h.one(skA), a.rho, a.rNote)
    ensures DeriveNullifier(h, a.rho, skA) == h.two(a.rho, skA)
  {
    assert h.five(a.assetId, a.value, a.ownerPk, a.rho, a.rNote)
        == h.five(b.assetId, b.value, b.ownerPk, b.rho, b.rNote);
    assert h.one(skA) == h.one(skB);
  }
}
