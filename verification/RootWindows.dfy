/** The two root windows of the contract: the ring of recent commitment-tree roots
    (contracts/finnes/src/merkle.rs) and the deduplicated compliance window
    (contracts/finnes/src/state.rs). */
module RootWindows {
  import opened Hashing

  const RECENT_ROOTS_CAPACITY: nat := 64
  const COMPLIANCE_WINDOW_CAPACITY: nat := 16

  function LastN(s: seq<Fr>, n: nat): (r: seq<Fr>)
    ensures |r| <= n && |r| <= |s|
  {
    if |s| <= n then s else s[|s| - n..]
  }

  lemma LastNPush(s: seq<Fr>, x: Fr, n: nat)
    requires n > 0
    ensures LastN(LastN(s, n) + [x], n) == LastN(s + [x], n)
  {
    if |s| >= n {
      assert (s[|s| - n..] + [x])[1..] == (s + [x])[|s| - n + 1..];
    }
  }

  // ----- the anchor ring -----

  function PushRecent(w: seq<Fr>, root: Fr): seq<Fr> {
    LastN(w + [root], RECENT_ROOTS_CAPACITY)
  }

  method PushRecentRoot(roots: seq<Fr>, root: Fr) returns (r: seq<Fr>)
    ensures r == PushRecent(roots, root)
  {
    r := roots + [root];
    while |r| > RECENT_ROOTS_CAPACITY
      invariant LastN(r, RECENT_ROOTS_CAPACITY) == PushRecent(roots, root)
    {
      r := r[1..];
    }
  }

  function PushAllRecent(w: seq<Fr>, roots: seq<Fr>): seq<Fr>
    decreases |roots|
  {
    if |roots| == 0 then w
    else PushRecent(PushAllRecent(w, roots[..|roots| - 1]), roots[|roots| - 1])
  }

  /** The ring is always the last 64 roots pushed, repetitions included. */
  lemma {:induction false} RecentRingIsSuffix(seed: Fr, roots: seq<Fr>)
    ensures PushAllRecent([seed], roots) == LastN([seed] + roots, RECENT_ROOTS_CAPACITY)
    decreases |roots|
  {
    if |roots| > 0 {
      var n := |roots| - 1;
      RecentRingIsSuffix(seed, roots[..n]);
      LastNPush([seed] + roots[..n], roots[n], RECENT_ROOTS_CAPACITY);
      assert [seed] + roots == ([seed] + roots[..n]) + [roots[n]];
    }
  }

  /** That is 64 of them, as soon as there are so many. */
  lemma RecentRingHolds64(seed: Fr, roots: seq<Fr>)
    ensures |PushAllRecent([seed], roots)| == if |roots| < 64 then |roots| + 1 else 64
  {
    RecentRingIsSuffix(seed, roots);
  }

  // ----- the compliance window -----

  function PushCompliance(w: seq<Fr>, root: Fr): seq<Fr> {
    if root in w then w else LastN(w + [root], COMPLIANCE_WINDOW_CAPACITY)
  }

  method PushComplianceWindow(w: seq<Fr>, root: Fr) returns (r: seq<Fr>)
    ensures r == PushCompliance(w, root)
  {
    for i := 0 to |w|
      invariant root !in w[..i]
    {
      if w[i] == root {
        return w;
      }
    }
    r := w + [root];
    while |r| > COMPLIANCE_WINDOW_CAPACITY
      invariant LastN(r, COMPLIANCE_WINDOW_CAPACITY) == LastN(w + [root], COMPLIANCE_WINDOW_CAPACITY)
    {
      r := r[1..];
    }
  }

  /** The scan behind both is_recent_root and compliance_window_contains. */
  method WindowContains(w: seq<Fr>, candidate: Fr) returns (found: bool)
    ensures found <==> candidate in w
  {
    for i := 0 to |w|
      invariant candidate !in w[..i]
    {
      if w[i] == candidate {
        return true;
      }
    }
    return false;
  }

  ghost predicate WindowOk(w: seq<Fr>) {
    && |w| <= COMPLIANCE_WINDOW_CAPACITY
    && forall i, j :: 0 <= i < j < |w| ==> w[i] != w[j]
  }

  /** Every update keeps the window duplicate-free and bounded, and admits the new root. */
  lemma PushKeepsWindow(w: seq<Fr>, root: Fr)
    requires WindowOk(w)
    ensures WindowOk(PushCompliance(w, root)) && root in PushCompliance(w, root)
  {
    var r := PushCompliance(w, root);
    if root !in w {
      assert r[|r| - 1] == root;
      assert forall i :: 0 <= i < |w| ==> w[i] in w;
    }
  }

  /** An accepted root is dropped by an update in exactly one situation: the window is full, the root
      is its oldest entry, and the new root is not yet in it. */
  lemma DroppedExactlyWhenOldest(w: seq<Fr>, root: Fr, next: Fr)
    requires WindowOk(w) && root in w
    ensures root !in PushCompliance(w, next) <==>
            next !in w && |w| == COMPLIANCE_WINDOW_CAPACITY && w[0] == root
  {
    var r := PushCompliance(w, next);
    var i :| 0 <= i < |w| && w[i] == root;
    if next !in w {
      if |w| < COMPLIANCE_WINDOW_CAPACITY {
        assert r[i] == root;
      } else if i > 0 {
        assert r[i - 1] == root;
      } else {
        forall j | 0 <= j < |r|
          ensures r[j] != root
        {
          assert r[j] == (w + [next])[j + 1];
        }
      }
    }
  }

  /** The roots actually admitted by a series of updates. */
  function Admitted(roots: seq<Fr>): seq<Fr>
    decreases |roots|
  {
    if |roots| == 0 then []
    else
      var n := |roots| - 1;
      var before := Admitted(roots[..n]);
      if roots[n] in LastN(before, COMPLIANCE_WINDOW_CAPACITY) then before else before + [roots[n]]
  }

  function PushAllCompliance(w: seq<Fr>, roots: seq<Fr>): seq<Fr>
    decreases |roots|
  {
    if |roots| == 0 then w
    else PushCompliance(PushAllCompliance(w, roots[..|roots| - 1]), roots[|roots| - 1])
  }

  lemma {:induction false} PushAllKeepsWindow(roots: seq<Fr>)
    ensures WindowOk(PushAllCompliance([], roots))
    ensures |roots| > 0 ==> roots[|roots| - 1] in PushAllCompliance([], roots)
    decreases |roots|
  {
    if |roots| > 0 {
      PushAllKeepsWindow(roots[..|roots| - 1]);
      PushKeepsWindow(PushAllCompliance([], roots[..|roots| - 1]), roots[|roots| - 1]);
    }
  }

  /** The window is the last 16 admissions, so a root leaves only at the 16th later admission. */
  lemma {:induction false} ComplianceWindowIsSuffix(roots: seq<Fr>)
    ensures PushAllCompliance([], roots) == LastN(Admitted(roots), COMPLIANCE_WINDOW_CAPACITY)
    decreases |roots|
  {
    if |roots| > 0 {
      var n := |roots| - 1;
      var before := Admitted(roots[..n]);
      ComplianceWindowIsSuffix(roots[..n]);
      LastNPush(before, roots[n], COMPLIANCE_WINDOW_CAPACITY);
    }
  }

  ghost predicate Distinct(s: seq<Fr>) {
    forall i, j :: 0 <= i < j < |s| ==> s[i] != s[j]
  }

  /** Up to 16 different roots fill the window in order. */
  lemma {:induction false} DistinctRootsFill(roots: seq<Fr>)
    requires Distinct(roots) && |roots| <= COMPLIANCE_WINDOW_CAPACITY
    ensures PushAllCompliance([], roots) == roots
    decreases |roots|
  {
    if |roots| > 0 {
      var n := |roots| - 1;
      DistinctRootsFill(roots[..n]);
      assert roots == roots[..n] + [roots[n]];
    }
  }

  lemma PushOneMore(roots: seq<Fr>, root: Fr)
    ensures PushAllCompliance([], roots + [root]) == PushCompliance(PushAllCompliance([], roots), root)
  {
    assert (roots + [root])[..|roots|] == roots;
  }

  /** The documented promise is that the root in force before an update survives it. For a series of updates
      that fills the window with different roots and then publishes the first of them again, the next new root
      drops it, although it is the one in force. */
  lemma PriorRootCanBeDropped(filling: seq<Fr>, next: Fr)
    requires Distinct(filling) && |filling| == COMPLIANCE_WINDOW_CAPACITY && next !in filling
    ensures filling[0] in PushAllCompliance([], filling + [filling[0]])
    ensures filling[0] !in PushAllCompliance([], filling + [filling[0]] + [next])
  {
    DistinctRootsFill(filling);
    PushOneMore(filling, filling[0]);
    PushOneMore(filling + [filling[0]], next);
    DroppedExactlyWhenOldest(filling, filling[0], next);
  }

  /** One such series: 1, 2, ..., 16, then 1 again, then 17. */
  lemma PriorRootDropsInSeries()
    ensures var filling := seq(16, i requires i >= 0 => i + 1);
            && 1 in PushAllCompliance([], filling + [1])
            && 1 !in PushAllCompliance([], filling + [1] + [17])
  {
    var filling := seq(16, i requires i >= 0 => i + 1);
    assert filling[0] == 1;
    PriorRootCanBeDropped(filling, 17);
  }

  /** The root in force survives an update exactly unless the window is full, it is the oldest and the new one
      is unknown: the promise over a whole series of updates. */
  lemma PriorRootSurvivesExactly(roots: seq<Fr>, next: Fr)
    requires |roots| > 0
    ensures var prior, w := roots[|roots| - 1], PushAllCompliance([], roots);
            prior in PushAllCompliance([], roots + [next]) <==>
            !(next !in w && |w| == COMPLIANCE_WINDOW_CAPACITY && w[0] == prior)
  {
    PushAllKeepsWindow(roots);
    PushOneMore(roots, next);
    DroppedExactlyWhenOldest(PushAllCompliance([], roots), roots[|roots| - 1], next);
  }
}
