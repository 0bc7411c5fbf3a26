/** Value conservation per asset, exact for every run: no assumption is made about repeated inputs or
    about the range of fees; both appear in the equation. */
module Conservation {
  import opened Wrappers
  import opened Hashing
  import opened Notes
  import opened ContractTypes
  import opened Circuits
  import opened ContractSpec
  import opened Moves
  import opened Ledger

  // ----- what the ledger holds -----

  ghost predicate IsCommitment(h: Hash, cm: Fr) {
    exists n :: Commitment(h, n) == cm
  }

  ghost function Opening(h: Hash, cm: Fr): (n: Note)
    requires IsCommitment(h, cm)
    ensures Commitment(h, n) == cm
  {
    var n :| Commitment(h, n) == cm;
    n
  }

  /** The worth of a leaf: that of the note it commits to, if it commits to one. */
  ghost function LeafWorth(h: Hash, asset: Fr, cm: Fr): nat {
    if IsCommitment(h, cm) then NoteWorth(asset, Opening(h, cm)) else 0
  }

  lemma LeafWorthIsNoteWorth(h: Hash, asset: Fr, n: Note)
    requires CollisionFree(h)
    ensures LeafWorth(h, asset, Commitment(h, n)) == NoteWorth(asset, n)
  {
    var m := Opening(h, Commitment(h, n));
    assert h.five(m.assetId, m.value, m.ownerPk, m.rho, m.rNote)
        == h.five(n.assetId, n.value, n.ownerPk, n.rho, n.rNote);
  }

  ghost function Unspent(h: Hash, asset: Fr, t: Tree, leaves: seq<Fr>, spent: set<Position>): nat {
    if |leaves| == 0 then 0
    else
      var n := |leaves| - 1;
      Unspent(h, asset, t, leaves[..n], spent)
      + if Position(t, n) in spent then 0 else LeafWorth(h, asset, leaves[n])
  }

  function Deposited(asset: Fr, moves: seq<TokenMove>): nat {
    if |moves| == 0 then 0
    else
      var n := |moves| - 1;
      Deposited(asset, moves[..n])
      + if moves[n].PullDeposit? && moves[n].assetId == asset then moves[n].amount else 0
  }

  function PaidOut(asset: Fr, moves: seq<TokenMove>): nat {
    if |moves| == 0 then 0
    else
      var n := |moves| - 1;
      PaidOut(asset, moves[..n])
      + if moves[n].PayOut? && moves[n].assetId == asset then moves[n].amount else 0
  }

  ghost function UnspentIn(ps: Params, asset: Fr, w: World): nat {
    Unspent(ps.hash, asset, Main, w.main.leaves, w.spent) + Unspent(ps.hash, asset, Escrow, w.escrow.leaves, w.spent)
  }

  /** Unspent notes + payouts + fees = deposits + recovery mints + value of repeated inputs. */
  ghost predicate Balanced(ps: Params, asset: Fr, w: World) {
    UnspentIn(ps, asset, w) + PaidOut(asset, w.state.moves) + w.books.fees
    == Deposited(asset, w.state.moves) + w.books.recovered + w.books.repeats
  }

  // ----- consuming and appending -----

  lemma {:induction false} SpendingElsewhere(
    h: Hash, asset: Fr, t: Tree, leaves: seq<Fr>, spent: set<Position>, pos: Position)
    requires pos.tree != t || pos.index >= |leaves|
    ensures Unspent(h, asset, t, leaves, spent + {pos}) == Unspent(h, asset, t, leaves, spent)
    decreases |leaves|
  {
    if |leaves| > 0 {
      SpendingElsewhere(h, asset, t, leaves[..|leaves| - 1], spent, pos);
    }
  }

  lemma {:induction false} SpendingLeaf(h: Hash, asset: Fr, t: Tree, leaves: seq<Fr>, spent: set<Position>, i: nat)
    requires i < |leaves| && Position(t, i) !in spent
    ensures Unspent(h, asset, t, leaves, spent)
         == Unspent(h, asset, t, leaves, spent + {Position(t, i)}) + LeafWorth(h, asset, leaves[i])
    decreases |leaves|
  {
    var n := |leaves| - 1;
    if i < n {
      SpendingLeaf(h, asset, t, leaves[..n], spent, i);
    } else {
      SpendingElsewhere(h, asset, t, leaves[..n], spent, Position(t, n));
    }
  }

  function SpendTotal(asset: Fr, spends: seq<Spend>): nat {
    if |spends| == 0 then 0
    else SpendTotal(asset, spends[..|spends| - 1]) + NoteWorth(asset, spends[|spends| - 1].note)
  }

  function OutTotal(asset: Fr, outs: seq<Note>): nat {
    if |outs| == 0 then 0
    else OutTotal(asset, outs[..|outs| - 1]) + NoteWorth(asset, outs[|outs| - 1])
  }

  lemma {:induction false} ConsumeBalances(
    h: Hash, asset: Fr, t: Tree, leaves: seq<Fr>, spends: seq<Spend>, spent: set<Position>)
    requires CollisionFree(h)
    requires forall sp :: sp in spends ==> Opens(h, t, leaves, sp)
    ensures var (after, repeats) := Consume(asset, t, spends, spent);
            Unspent(h, asset, t, leaves, after) + SpendTotal(asset, spends)
            == Unspent(h, asset, t, leaves, spent) + repeats
    decreases |spends|
  {
    if |spends| > 0 {
      var n := |spends| - 1;
      var sp := spends[n];
      assert sp in spends && Opens(h, t, leaves, sp);
      ConsumeBalances(h, asset, t, leaves, spends[..n], spent);
      var before := Consume(asset, t, spends[..n], spent).0;
      LeafWorthIsNoteWorth(h, asset, sp.note);
      if PositionOf(t, sp) !in before {
        SpendingLeaf(h, asset, t, leaves, before, PositionOf(t, sp).index);
      }
    }
  }

  lemma {:induction false} ConsumeLeavesOtherTree(
    h: Hash, asset: Fr, t: Tree, other: Tree, leaves: seq<Fr>, spends: seq<Spend>, spent: set<Position>)
    requires t != other
    ensures Unspent(h, asset, other, leaves, Consume(asset, t, spends, spent).0)
         == Unspent(h, asset, other, leaves, spent)
    decreases |spends|
  {
    if |spends| > 0 {
      var n := |spends| - 1;
      ConsumeLeavesOtherTree(h, asset, t, other, leaves, spends[..n], spent);
      SpendingElsewhere(h, asset, other, leaves, Consume(asset, t, spends[..n], spent).0, PositionOf(t, spends[n]));
    }
  }

  lemma AppendingOne(h: Hash, asset: Fr, t: Tree, leaves: seq<Fr>, spent: set<Position>, n: Note)
    requires CollisionFree(h) && UnspentFrom(t, |leaves|, spent)
    ensures Unspent(h, asset, t, leaves + [Commitment(h, n)], spent)
         == Unspent(h, asset, t, leaves, spent) + NoteWorth(asset, n)
  {
    assert (leaves + [Commitment(h, n)])[..|leaves|] == leaves;
    assert Position(t, |leaves|) !in spent;
    LeafWorthIsNoteWorth(h, asset, n);
  }

  lemma CommitmentsSnoc(h: Hash, leaves: seq<Fr>, outs: seq<Note>)
    requires |outs| > 0
    ensures var n := |outs| - 1;
            leaves + Commitments(h, outs) == (leaves + Commitments(h, outs[..n])) + [Commitment(h, outs[n])]
  {
  }

  /** No position of the tree from index n on is spent. */
  ghost predicate UnspentFrom(t: Tree, n: nat, spent: set<Position>) {
    forall pos :: pos in spent && pos.tree == t ==> pos.index < n
  }

  lemma {:induction false} AppendingAddsWorth(
    h: Hash, asset: Fr, t: Tree, leaves: seq<Fr>, spent: set<Position>, outs: seq<Note>)
    requires CollisionFree(h) && UnspentFrom(t, |leaves|, spent)
    ensures Unspent(h, asset, t, leaves + Commitments(h, outs), spent)
         == Unspent(h, asset, t, leaves, spent) + OutTotal(asset, outs)
    decreases |outs|
  {
    if |outs| == 0 {
      assert leaves + Commitments(h, outs) == leaves;
    } else {
      var n := |outs| - 1;
      var before := leaves + Commitments(h, outs[..n]);
      AppendingAddsWorth(h, asset, t, leaves, spent, outs[..n]);
      AppendingOne(h, asset, t, before, spent, outs[n]);
      CommitmentsSnoc(h, leaves, outs);
    }
  }

  // ----- one call balances -----

  function DepositOf(call: Call, asset: Fr): nat {
    if call.DoShield? && call.shield.assetId == asset then call.shield.amount else 0
  }

  function PayoutOf(call: Call, asset: Fr): nat {
    if call.DoUnshield? && call.unshield.assetId == asset then call.unshield.amount else 0
  }

  /** Only a shield pulls tokens, from its depositor, and only an unshield pays them out, to the account
      registered for its recipient; each through the token registered for its asset. */
  lemma TokenLogOf(d: Deployment, s: State, env: Env, call: Call, s': State)
    requires Exec(d, s, env, call) == Success(s')
    ensures match call
            case DoShield(who, _, pi) =>
              && pi.assetId in s.registry.sacs
              && s'.moves == s.moves + [PullDeposit(pi.assetId, s.registry.sacs[pi.assetId], who, pi.amount)]
            case DoUnshield(_, pi) =>
              && pi.assetId in s.registry.sacs && pi.recipient in s.registry.recipients
              && s'.moves == s.moves + [PayOut(pi.assetId, s.registry.sacs[pi.assetId],
                                               s.registry.recipients[pi.recipient], pi.amount)]
            case _ => s'.moves == s.moves
  {
  }

  lemma TokensMoved(d: Deployment, s: State, env: Env, call: Call, s': State, asset: Fr)
    requires Exec(d, s, env, call) == Success(s')
    ensures Deposited(asset, s'.moves) == Deposited(asset, s.moves) + DepositOf(call, asset)
    ensures PaidOut(asset, s'.moves) == PaidOut(asset, s.moves) + PayoutOf(call, asset)
  {
    TokenLogOf(d, s, env, call, s');
    if call.DoShield? || call.DoUnshield? {
      assert s'.moves[..|s'.moves| - 1] == s.moves;
    }
  }

  lemma TotalsOfOneAndTwo(asset: Fr, a: Spend, b: Spend, x: Note, y: Note)
    ensures SpendTotal(asset, []) == 0 && OutTotal(asset, []) == 0
    ensures SpendTotal(asset, [a]) == NoteWorth(asset, a.note)
    ensures SpendTotal(asset, [a, b]) == NoteWorth(asset, a.note) + NoteWorth(asset, b.note)
    ensures OutTotal(asset, [x]) == NoteWorth(asset, x)
    ensures OutTotal(asset, [x, y]) == NoteWorth(asset, x) + NoteWorth(asset, y)
  {
    assert [a, b][..1] == [a] && [a][..0] == [];
    assert [x, y][..1] == [x] && [x][..0] == [];
  }

  /** One asset leg: the field equation is the integer equation with a signed fee. */
  lemma LegConserves(ps: Params, ins: nat, outs: nat, fee: Fr)
    requires ps.modulus >= 8 * NOTE_VALUE_BOUND
    requires ins < 2 * NOTE_VALUE_BOUND && outs < 2 * NOTE_VALUE_BOUND
    requires fee < ps.modulus && SameInField(ps, ins, outs + fee)
    ensures ins == outs + SignedFee(ps, fee)
  {
    FieldConservationIsSigned(ps, ins, outs, fee);
  }

  ghost predicate CallBalances(ps: Params, call: Call, w: Witness, asset: Fr)
    requires MoveOf(call, w).Some?
  {
    var m := MoveOf(call, w).value;
    SpendTotal(asset, m.spends) + DepositOf(call, asset) + Recovered(call, asset)
    == OutTotal(asset, m.outs) + PayoutOf(call, asset) + Fees(ps, call, w, asset)
  }

  lemma TransferBalances(ps: Params, call: Call, w: Witness, asset: Fr)
    requires ps.modulus >= 8 * NOTE_VALUE_BOUND
    requires call.DoTransfer? && Holds(ps, TransferStatement(call.transfer), w)
    ensures MoveOf(call, w).Some? && CallBalances(ps, call, w, asset)
  {
    TotalsOfOneAndTwo(asset, w.in0, w.in1, w.out0, w.out1);
    LegConserves(ps, w.in0.note.value + w.in1.note.value, w.out0.value + w.out1.value, call.transfer.fee);
  }

  /** A leg in one asset balances in that asset and moves nothing in any other. */
  lemma LegBalances(ps: Params, asset: Fr, n: Note, out: Note, fee: Fr)
    requires ps.modulus >= 8 * NOTE_VALUE_BOUND && fee < ps.modulus
    requires n.value < NOTE_VALUE_BOUND && out.value < NOTE_VALUE_BOUND && out.assetId == n.assetId
    requires SameInField(ps, n.value, out.value + fee)
    ensures NoteWorth(asset, n) == NoteWorth(asset, out) + FeeIn(ps, asset, n, fee)
  {
    LegConserves(ps, n.value, out.value, fee);
  }

  lemma DvpBalances(ps: Params, call: Call, w: Witness, asset: Fr, pi: DvpInputs)
    requires ps.modulus >= 8 * NOTE_VALUE_BOUND
    requires (call.DoSettleDvp? && pi == call.dvp) || (call.DoSettleIntent? && pi == call.settle)
    requires Holds(ps, DvpStatement(pi), w)
    ensures MoveOf(call, w).Some? && CallBalances(ps, call, w, asset)
  {
    TotalsOfOneAndTwo(asset, w.legX, w.legY, w.outX, w.outY);
    LegBalances(ps, asset, w.legX.note, w.outX, pi.feeX);
    LegBalances(ps, asset, w.legY.note, w.outY, pi.feeY);
  }

  lemma OneLegBalances(ps: Params, call: Call, w: Witness, asset: Fr)
    requires ps.modulus >= 8 * NOTE_VALUE_BOUND
    requires call.DoUnshield? || call.DoEscrowDeposit? || call.DoEscrowRefund?
    requires StatementOf(call).Some? && Attested(ps, call, w) && MoveOf(call, w).Some?
    ensures CallBalances(ps, call, w, asset)
  {
    if call.DoUnshield? {
      TotalsOfOneAndTwo(asset, w.spent, w.spent, w.change, w.change);
      LegConserves(ps, w.spent.note.value, call.unshield.amount + w.change.value, call.unshield.fee);
    } else {
      var pi := if call.DoEscrowDeposit? then call.deposit else call.refund;
      TotalsOfOneAndTwo(asset, w.escrowed, w.escrowed, w.out, w.out);
      LegBalances(ps, asset, w.escrowed.note, w.out, pi.fee);
    }
  }

  lemma AttestedCallBalances(ps: Params, call: Call, w: Witness, asset: Fr)
    requires ps.modulus >= 8 * NOTE_VALUE_BOUND
    requires StatementOf(call).Some? && Attested(ps, call, w) && MoveOf(call, w).Some?
    ensures CallBalances(ps, call, w, asset)
  {
    if call.DoShield? || call.DoMintRecovery? {
      assert [w.minted][..0] == [];
      assert OutTotal(asset, [w.minted]) == NoteWorth(asset, w.minted);
    } else if call.DoTransfer? {
      TransferBalances(ps, call, w, asset);
    } else if call.DoSettleDvp? || call.DoSettleIntent? {
      DvpBalances(ps, call, w, asset, StatementOf(call).value.dvp);
    } else {
      OneLegBalances(ps, call, w, asset);
    }
  }

  // ----- every run balances -----

  /** The world-level effect of a move: consume in one tree, append to one tree. */
  lemma MoveBalances(ps: Params, asset: Fr, w: World, m: Move, w': World)
    requires CollisionFree(ps.hash) && Consistent(ps, w) && Consistent(ps, w')
    requires WorldMoved(ps, w, w', m)
    requires w'.spent == Consume(asset, m.fromTree, m.spends, w.spent).0
    requires forall sp :: sp in m.spends ==> Opens(ps.hash, m.fromTree, w.GroveOf(m.fromTree).leaves, sp)
    ensures UnspentIn(ps, asset, w') + SpendTotal(asset, m.spends)
         == UnspentIn(ps, asset, w) + OutTotal(asset, m.outs) + Consume(asset, m.fromTree, m.spends, w.spent).1
  {
    var h := ps.hash;
    var from, into := m.fromTree, m.intoTree;
    var other := if from == Main then Escrow else Main;
    ConsumeBalances(h, asset, from, w.GroveOf(from).leaves, m.spends, w.spent);
    ConsumeLeavesOtherTree(h, asset, from, other, w.GroveOf(other).leaves, m.spends, w.spent);
    forall pos | pos in w'.spent && pos.tree == into
      ensures pos.index < |w.GroveOf(into).leaves|
    {
      if pos in w.spent {
        assert SpentRecorded(ps, w, pos);
      }
    }
    AppendingAddsWorth(h, asset, into, w.GroveOf(into).leaves, w'.spent, m.outs);
  }

  lemma AdvanceBooks(ps: Params, d: Deployment, asset: Fr, w: World, step: Step, s': State)
    requires Exec(d, w.state, step.env, step.call) == Success(s') && MoveOf(step.call, step.evidence).Some?
    ensures var m := MoveOf(step.call, step.evidence).value;
            var w' := Advance(ps, d, asset, w, step);
            && w'.spent == Consume(asset, m.fromTree, m.spends, w.spent).0
            && w'.books.recovered == w.books.recovered + Recovered(step.call, asset)
            && w'.books.fees == w.books.fees + Fees(ps, step.call, step.evidence, asset)
            && w'.books.repeats == w.books.repeats + Consume(asset, m.fromTree, m.spends, w.spent).1
  {
  }

  lemma StepBalances(ps: Params, d: Deployment, asset: Fr, w: World, step: Step)
    requires Assumed(ps, d) && Consistent(ps, w) && FaithfulStep(ps, d, step) && Balanced(ps, asset, w)
    ensures Balanced(ps, asset, Advance(ps, d, asset, w, step))
  {
    var w' := Advance(ps, d, asset, w, step);
    if Accepted(d, w, step) {
      var s' := Exec(d, w.state, step.env, step.call).value;
      if StatementOf(step.call).Some? {
        AcceptedIsAttested(ps, d, w.state, step);
        AcceptedIsMove(ps, d, w.state, step.env, step.call, step.evidence, s');
        var m := MoveOf(step.call, step.evidence).value;
        AdvanceOnMove(ps, d, asset, w, step, s');
        AdvanceBooks(ps, d, asset, w, step, s');
        StepKeepsConsistent(ps, d, asset, w, step);
        SpendsOpenLeaves(ps, w, m, s');
        MoveBalances(ps, asset, w, m, w');
        TokensMoved(d, w.state, step.env, step.call, s', asset);
        AttestedCallBalances(ps, step.call, step.evidence, asset);
      } else {
        AdministrativeCallsMoveNothing(d, w.state, step.env, step.call, s');
      }
    }
  }

  /** Conservation: every run of every length balances, for every asset. */
  lemma {:induction false} RunBalances(ps: Params, d: Deployment, asset: Fr, w: World, steps: seq<Step>)
    requires Assumed(ps, d) && Consistent(ps, w) && Faithful(ps, d, steps) && Balanced(ps, asset, w)
    ensures Balanced(ps, asset, Run(ps, d, asset, w, steps))
    decreases |steps|
  {
    if |steps| > 0 {
      var n := |steps| - 1;
      var before := Run(ps, d, asset, w, steps[..n]);
      RunBalances(ps, d, asset, w, steps[..n]);
      RunRefinesTrees(ps, d, asset, w, steps[..n]);
      StepBalances(ps, d, asset, before, steps[n]);
      assert Run(ps, d, asset, w, steps) == Advance(ps, d, asset, before, steps[n]);
    }
  }

  /** From a fresh deployment on: nothing is in the books before the first call. */
  lemma GenesisRunBalances(ps: Params, d: Deployment, asset: Fr, w: World, steps: seq<Step>)
    requires Assumed(ps, d) && Genesis(ps, w) && Faithful(ps, d, steps)
    ensures Balanced(ps, asset, Run(ps, d, asset, w, steps))
  {
    GenesisIsConsistent(ps, w);
    RunBalances(ps, d, asset, w, steps);
  }
}
