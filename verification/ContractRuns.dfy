/** Runs of the contract as the host executes them: a failing call leaves no trace. */
module ContractRuns {
  import opened ContractTypes
  import opened ContractSpec

  datatype Invocation = Invocation(env: Env, call: Call)

  function Next(d: Deployment, s: State, inv: Invocation): State {
    match Exec(d, s, inv.env, inv.call)
    case Success(s') => s'
    case Failure(_) => s
  }

  function After(d: Deployment, s: State, trace: seq<Invocation>): State {
    if |trace| == 0 then s
    else Next(d, After(d, s, trace[..|trace| - 1]), trace[|trace| - 1])
  }

  predicate AcceptedAt(d: Deployment, s: State, trace: seq<Invocation>, i: nat)
    requires i < |trace|
  {
    Exec(d, After(d, s, trace[..i]), trace[i].env, trace[i].call).Success?
  }

  lemma AfterStep(d: Deployment, s: State, trace: seq<Invocation>, i: nat)
    requires i < |trace|
    ensures After(d, s, trace[..i + 1]) == Next(d, After(d, s, trace[..i]), trace[i])
  {
    assert trace[..i + 1][..i] == trace[..i];
  }

  /** A run is the rest of the run from where its first part ends. */
  lemma {:induction false} AfterSplits(d: Deployment, s: State, trace: seq<Invocation>, k: nat)
    requires k <= |trace|
    ensures After(d, s, trace) == After(d, After(d, s, trace[..k]), trace[k..])
    decreases |trace|
  {
    if k == |trace| {
      assert trace[..k] == trace;
    } else {
      var n := |trace| - 1;
      AfterSplits(d, s, trace[..n], k);
      assert trace[..n][..k] == trace[..k];
      assert trace[k..][..n - k] == trace[..n][k..];
    }
  }

  /** The ledger sequence never decreases. */
  ghost predicate ClockRuns(trace: seq<Invocation>) {
    forall i, j :: 0 <= i <= j < |trace| ==> trace[i].env.now <= trace[j].env.now
  }

  function ClockAfter(trace: seq<Invocation>, start: nat): nat {
    if |trace| == 0 then start else trace[|trace| - 1].env.now
  }
}
