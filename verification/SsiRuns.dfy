/** Serializable snapshot isolation over whole runs, in terms of the reads and writes made. */
module SsiRuns {
  import opened WalRecord
  import opened WaitForGraph
  import opened Ssi

  /** The state after the first `i` steps. */
  function At(steps: seq<Step>, i: nat): State
    requires i <= |steps|
  {
    After(Initial(), steps[..i])
  }

  ghost predicate Run(steps: seq<Step>) {
    forall i: nat | i < |steps| :: Enabled(At(steps, i), steps[i])
  }

  lemma NextAt(steps: seq<Step>, i: nat)
    requires Run(steps) && i < |steps|
    ensures Enabled(At(steps, i), steps[i]) && At(steps, i + 1) == Apply(At(steps, i), steps[i])
  {
    assert Enabled(At(steps, i), steps[i]);
    assert steps[..i + 1][..i] == steps[..i];
  }

  // ---------------------------------------------------------------- what is recorded

  /** No cleanup of `id` after step `a` and before step `n`. */
  ghost predicate NoCleanup(steps: seq<Step>, a: int, n: nat, id: TxnID)
    requires n <= |steps|
  {
    forall k | a < k < n && 0 <= k :: steps[k] != Cleanup(id)
  }

  ghost predicate ReadAt(steps: seq<Step>, n: nat, r: TxnID, key: string, a: nat)
    requires n <= |steps|
  {
    a < n && steps[a] == Read(r, key) && NoCleanup(steps, a, n, r)
  }

  /** Before step `n`, `r` has read `key` and was not cleaned up since. */
  ghost predicate HasRead(steps: seq<Step>, n: nat, r: TxnID, key: string)
    requires n <= |steps|
  {
    exists a: nat :: ReadAt(steps, n, r, key, a)
  }

  lemma HasReadStep(steps: seq<Step>, n: nat, r: TxnID, key: string)
    requires n < |steps|
    ensures HasRead(steps, n + 1, r, key) <==> steps[n] == Read(r, key) || (HasRead(steps, n, r, key) && steps[n] != Cleanup(r))
  {
    if HasRead(steps, n + 1, r, key) {
      var a: nat :| ReadAt(steps, n + 1, r, key, a);
      if a < n {
        assert ReadAt(steps, n, r, key, a);
      }
    }
    if steps[n] == Read(r, key) {
      assert ReadAt(steps, n + 1, r, key, n);
    } else if HasRead(steps, n, r, key) && steps[n] != Cleanup(r) {
      var a: nat :| ReadAt(steps, n, r, key, a);
      assert ReadAt(steps, n + 1, r, key, a);
    }
  }

  /** The readers on record are those that read the key and were not cleaned up. */
  lemma {:induction false} ReadersExactly(steps: seq<Step>, n: nat, r: TxnID, key: string)
    requires Run(steps) && n <= |steps|
    ensures r in Readers(At(steps, n).tracker.siread, key) <==> HasRead(steps, n, r, key)
  {
    if n > 0 {
      ReadersExactly(steps, n - 1, r, key);
      HasReadStep(steps, n - 1, r, key);
      NextAt(steps, n - 1);
    }
  }

  /** `r` read `key` in step `a`; in step `b`, with `r` still active, `w` wrote it; neither has been
      cleaned up since. */
  ghost predicate ConflictAt(steps: seq<Step>, n: nat, r: TxnID, w: TxnID, key: string, a: nat, b: nat)
    requires n <= |steps|
  {
    && a < b < n && steps[a] == Read(r, key) && steps[b] == Write(w, key) && r != w && r in At(steps, b).active
    && NoCleanup(steps, a, n, r) && NoCleanup(steps, b, n, w)
  }

  ghost predicate Conflicting(steps: seq<Step>, n: nat, r: TxnID, w: TxnID)
    requires n <= |steps|
  {
    exists key, a: nat, b: nat :: ConflictAt(steps, n, r, w, key, a, b)
  }

  /** The step is a write of `w` to something the active `r` has read. */
  ghost predicate NewConflict(steps: seq<Step>, n: nat, r: TxnID, w: TxnID)
    requires n < |steps|
  {
    steps[n].Write? && steps[n].id == w && r != w && r in At(steps, n).active && HasRead(steps, n, r, steps[n].key)
  }

  lemma ConflictStep(steps: seq<Step>, n: nat, r: TxnID, w: TxnID)
    requires n < |steps|
    ensures Conflicting(steps, n + 1, r, w) <==>
              NewConflict(steps, n, r, w) || (Conflicting(steps, n, r, w) && steps[n] != Cleanup(r) && steps[n] != Cleanup(w))
  {
    if Conflicting(steps, n + 1, r, w) {
      var key, a: nat, b: nat :| ConflictAt(steps, n + 1, r, w, key, a, b);
      if b < n {
        assert ConflictAt(steps, n, r, w, key, a, b);
      } else {
        assert ReadAt(steps, n, r, key, a);
      }
    }
    if NewConflict(steps, n, r, w) {
      var a: nat :| ReadAt(steps, n, r, steps[n].key, a);
      assert ConflictAt(steps, n + 1, r, w, steps[n].key, a, n);
    } else if Conflicting(steps, n, r, w) && steps[n] != Cleanup(r) && steps[n] != Cleanup(w) {
      var key, a: nat, b: nat :| ConflictAt(steps, n, r, w, key, a, b);
      assert ConflictAt(steps, n + 1, r, w, key, a, b);
    }
  }

  lemma EdgeStep(s: State, step: Step, r: TxnID, w: TxnID)
    requires Enabled(s, step)
    ensures w in Succ(Apply(s, step).tracker.edges, r) <==>
              || (w in Succ(s.tracker.edges, r) && step != Cleanup(r) && step != Cleanup(w))
              || (step.Write? && step.id == w && r != w && r in s.active && r in Readers(s.tracker.siread, step.key))
  {
  }

  /** In every run, the edges on record are exactly the conflicts: `r` read a key and, while `r` was
      active, `w` wrote it, and neither has been cleaned up. */
  lemma {:induction false} EdgesExactly(steps: seq<Step>, n: nat, r: TxnID, w: TxnID)
    requires Run(steps) && n <= |steps|
    ensures w in Succ(At(steps, n).tracker.edges, r) <==> Conflicting(steps, n, r, w)
  {
    if n > 0 {
      EdgesExactly(steps, n - 1, r, w);
      ConflictStep(steps, n - 1, r, w);
      NewEdge(steps, n - 1, r, w);
    }
  }

  lemma NewEdge(steps: seq<Step>, n: nat, r: TxnID, w: TxnID)
    requires Run(steps) && n < |steps|
    ensures w in Succ(At(steps, n + 1).tracker.edges, r) <==>
              || (w in Succ(At(steps, n).tracker.edges, r) && steps[n] != Cleanup(r) && steps[n] != Cleanup(w))
              || NewConflict(steps, n, r, w)
  {
    NextAt(steps, n);
    EdgeStep(At(steps, n), steps[n], r, w);
    if steps[n].Write? {
      ReadersExactly(steps, n, r, steps[n].key);
    }
  }

  /** A commit is refused exactly when the transaction read something another one wrote and wrote
      something another one read. */
  lemma CommitRefusedExactly(steps: seq<Step>, n: nat, id: TxnID)
    requires Run(steps) && n < |steps| && steps[n] == Commit(id)
    ensures id in At(steps, n + 1).aborted <==>
              (exists w :: Conflicting(steps, n, id, w)) && (exists r :: Conflicting(steps, n, r, id))
    ensures id in At(steps, n + 1).committed <==> id !in At(steps, n + 1).aborted
  {
    var s, edges := At(steps, n), At(steps, n).tracker.edges;
    NextAt(steps, n);
    RunInv(steps[..n]);
    if Pivot(edges, id) {
      var w :| w in Succ(edges, id);
      EdgesExactly(steps, n, id, w);
      var r :| r in edges && id in edges[r];
      EdgesExactly(steps, n, r, id);
    }
    if w :| Conflicting(steps, n, id, w) {
      EdgesExactly(steps, n, id, w);
      if r :| Conflicting(steps, n, r, id) {
        EdgesExactly(steps, n, r, id);
      }
    }
  }

  // ---------------------------------------------------------------- cycles of reads and writes

  /** `r` read a key that `w` wrote later, in steps before `n`. */
  ghost predicate ReadThenWritten(steps: seq<Step>, n: nat, r: TxnID, w: TxnID, key: string, a: nat, b: nat)
    requires n <= |steps|
  {
    a < b < n && steps[a] == Read(r, key) && steps[b] == Write(w, key) && r != w
  }

  ghost predicate Overtaken(steps: seq<Step>, n: nat, r: TxnID, w: TxnID)
    requires n <= |steps|
  {
    exists key, a: nat, b: nat :: ReadThenWritten(steps, n, r, w, key, a, b)
  }

  /** Whoever is active now was never cleaned up. */
  lemma {:induction false} NeverCleanedUp(steps: seq<Step>, b: nat, n: nat, id: TxnID)
    requires Run(steps) && b <= n <= |steps| && id in At(steps, n).active
    ensures NoCleanup(steps, b - 1, n, id)
    decreases n - b
  {
    if b < n {
      RunInv(steps[..b]);
      NextAt(steps, b);
      RunInv(steps[..b + 1]);
      NeverCleanedUp(steps, b + 1, n, id);
      if steps[b] == Cleanup(id) {
        FinishedStays(steps, b + 1, n, id);
      }
    }
  }

  lemma {:induction false} FinishedStays(steps: seq<Step>, b: nat, n: nat, id: TxnID)
    requires Run(steps) && b <= n <= |steps| && id in At(steps, b).committed + At(steps, b).aborted
    ensures id in At(steps, n).committed + At(steps, n).aborted && id !in At(steps, n).active
    decreases n - b
  {
    RunInv(steps[..b]);
    if b < n {
      NextAt(steps, b);
      FinishedStays(steps, b + 1, n, id);
    }
  }

  lemma OvertakenConflicts(steps: seq<Step>, n: nat, r: TxnID, w: TxnID)
    requires Run(steps) && n <= |steps| && r in At(steps, n).active && w in At(steps, n).active && Overtaken(steps, n, r, w)
    ensures w in Succ(At(steps, n).tracker.edges, r)
  {
    var key, a: nat, b: nat :| ReadThenWritten(steps, n, r, w, key, a, b);
    NeverCleanedUp(steps, a + 1, n, r);
    NeverCleanedUp(steps, b + 1, n, w);
    StillActive(steps, a, b, n, r);
    assert ConflictAt(steps, n, r, w, key, a, b);
    EdgesExactly(steps, n, r, w);
  }

  /** A reader that is active later was active in between. */
  lemma {:induction false} StillActive(steps: seq<Step>, a: nat, b: nat, n: nat, r: TxnID)
    requires Run(steps) && a < b <= n <= |steps| && steps[a].Read? && steps[a].id == r && r in At(steps, n).active
    ensures r in At(steps, b).active
  {
    NextAt(steps, a);
    Known(steps, a, b, r);
    RunInv(steps[..b]);
    if r !in At(steps, b).active {
      FinishedStays(steps, b, n, r);
    }
  }

  lemma {:induction false} Known(steps: seq<Step>, a: nat, b: nat, id: TxnID)
    requires Run(steps) && a <= b <= |steps| && id in At(steps, a).active
    ensures id in At(steps, b).active + At(steps, b).committed + At(steps, b).aborted
    decreases b - a
  {
    if a < b {
      Known(steps, a, b - 1, id);
      NextAt(steps, b - 1);
    }
  }

  /** In every run: if at some moment all transactions of a cycle are active and each has read a key the
      next one wrote later, then they never all commit, and none commits before one of them has
      aborted. */
  lemma CycleOfReadsDoesNotCommit(steps: seq<Step>, n: nat, m: nat, c: seq<TxnID>)
    requires Run(steps) && n <= m <= |steps| && |c| > 0
    requires forall i | 0 <= i < |c| :: c[i] in At(steps, n).active
    requires forall i: nat | i < |c| :: Overtaken(steps, n, c[i], Next(c, i))
    ensures !(forall i | 0 <= i < |c| :: c[i] in At(steps, m).committed)
    ensures (exists i :: 0 <= i < |c| && c[i] in At(steps, m).committed) ==> SomeAborted(At(steps, m), c)
  {
    forall i: nat | i < |c|
      ensures Next(c, i) in Succ(At(steps, n).tracker.edges, c[i])
    {
      assert Overtaken(steps, n, c[i], Next(c, i)) && Next(c, i) in c;
      OvertakenConflicts(steps, n, c[i], Next(c, i));
    }
    assert Intact(At(steps, n), c);
    CycleDoesNotCommit(steps[..n], steps[n..m], c);
    AfterAfter(steps, n, m);
  }

  lemma {:induction false} AfterAfter(steps: seq<Step>, n: nat, m: nat)
    requires n <= m <= |steps|
    ensures After(At(steps, n), steps[n..m]) == At(steps, m)
    decreases m
  {
    if n < m {
      AfterAfter(steps, n, m - 1);
      assert steps[n..m][..m - n - 1] == steps[n..m - 1] && steps[..m][..m - 1] == steps[..m - 1];
    } else {
      assert steps[n..m] == [];
    }
  }

  // ---------------------------------------------------------------- a write after the commit

  /** 1 reads x, 2 reads y, 1 writes y and commits, 2 writes x and commits. */
  function LateWrite(x: string, y: string): seq<Step> {
    [Begin(1), Begin(2), Read(1, x), Read(2, y), Write(1, y), Commit(1), Write(2, x), Commit(2)]
  }

  ghost predicate RunTo(steps: seq<Step>, n: nat, s: State) {
    n <= |steps| && s == At(steps, n) && forall i: nat | i < n :: Enabled(At(steps, i), steps[i])
  }

  lemma OneMore(steps: seq<Step>, n: nat, s: State) returns (s': State)
    requires n < |steps| && RunTo(steps, n, s) && Enabled(s, steps[n])
    ensures s' == Apply(s, steps[n]) && RunTo(steps, n + 1, s')
  {
    s' := Apply(s, steps[n]);
    assert steps[..n + 1][..n] == steps[..n];
  }

  lemma ReadsNoted(x: string, y: string)
    requires x != y
    ensures var s := State(Tracker(map[], map[]), {1, 2}, {}, {});
            Apply(Apply(s, Read(1, x)), Read(2, y)) == s.(tracker := Tracker(map[x := {1}, y := {2}], map[]))
  {
    var s := State(Tracker(map[], map[]), {1, 2}, {}, {});
    var t := Apply(s, Read(1, x));
    assert Readers(s.tracker.siread, x) + {1} == {1} && t.tracker.siread == map[x := {1}];
    assert Readers(t.tracker.siread, y) + {2} == {2};
  }

  lemma WriteNoted(x: string, y: string)
    requires x != y
    ensures AfterWrite(Tracker(map[x := {1}, y := {2}], map[]), 1, y, {1, 2}) == Tracker(map[x := {1}, y := {2}], map[2 := {1}])
    ensures AfterWrite(Tracker(map[x := {1}, y := {2}], map[2 := {1}]), 2, x, {2}) == Tracker(map[x := {1}, y := {2}], map[2 := {1}])
  {
    var siread := map[x := {1}, y := {2}];
    assert Readers(siread, y) * {1, 2} - {1} == {2} && Readers(siread, x) * {2} - {2} == {};
    var none: Graph := map[];
    var g := Pointed(none, {2}, 1);
    assert g.Keys == {2} && g[2] == {1} && g == map[2 := {1}];
    PointedNone(map[2 := {1}], 2);
  }

  lemma BothRead(steps: seq<Step>, x: string, y: string) returns (s: State)
    requires x != y && |steps| == 8 && steps[0] == Begin(1) && steps[1] == Begin(2)
    requires steps[2] == Read(1, x) && steps[3] == Read(2, y)
    ensures RunTo(steps, 4, s) && s == State(Tracker(map[x := {1}, y := {2}], map[]), {1, 2}, {}, {})
  {
    assert steps[..0] == [];
    s := OneMore(steps, 0, Initial());
    s := OneMore(steps, 1, s);
    assert s.active == {1, 2};
    ReadsNoted(x, y);
    s := OneMore(steps, 2, s);
    s := OneMore(steps, 3, s);
  }

  lemma FirstCommits(steps: seq<Step>, x: string, y: string, s0: State) returns (s: State)
    requires x != y && |steps| == 8 && steps[4] == Write(1, y) && steps[5] == Commit(1)
    requires RunTo(steps, 4, s0) && s0 == State(Tracker(map[x := {1}, y := {2}], map[]), {1, 2}, {}, {})
    ensures RunTo(steps, 6, s) && s == State(Tracker(map[x := {1}, y := {2}], map[2 := {1}]), {2}, {1}, {})
  {
    WriteNoted(x, y);
    s := OneMore(steps, 4, s0);
    assert !Pivot(s.tracker.edges, 1);
    s := OneMore(steps, 5, s);
    assert s.active == {2} && s.committed == {1};
  }

  lemma SecondCommits(steps: seq<Step>, x: string, y: string, s0: State) returns (s: State)
    requires x != y && |steps| == 8 && steps[6] == Write(2, x) && steps[7] == Commit(2)
    requires RunTo(steps, 6, s0) && s0 == State(Tracker(map[x := {1}, y := {2}], map[2 := {1}]), {2}, {1}, {})
    ensures RunTo(steps, 8, s) && s.committed == {1, 2}
  {
    WriteNoted(x, y);
    s := OneMore(steps, 6, s0);
    assert !Pivot(s.tracker.edges, 2);
    s := OneMore(steps, 7, s);
    assert s.committed == {1, 2};
  }

  /** The moment matters: each of the two has read what the other wrote, but the second write comes when
      the first transaction has committed, and both commit. */
  lemma LateWriteSlips(x: string, y: string)
    requires x != y
    ensures var steps := LateWrite(x, y);
            && Run(steps) && Overtaken(steps, 8, 1, 2) && Overtaken(steps, 8, 2, 1)
            && At(steps, 8).committed == {1, 2}
  {
    var steps := LateWrite(x, y);
    var s := BothRead(steps, x, y);
    s := FirstCommits(steps, x, y, s);
    s := SecondCommits(steps, x, y, s);
    assert ReadThenWritten(steps, 8, 1, 2, x, 2, 6) && ReadThenWritten(steps, 8, 2, 1, y, 3, 4);
  }
}
