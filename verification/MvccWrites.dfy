/** Which writes are refused: what concurrent transactions may and may not overwrite. */
module MvccWrites {
  import opened KeyOrder
  import opened Bytes
  import opened WalRecord
  import opened Visibility
  import opened Mvcc
  import opened MvccReads

  /** The creator of a version does not stand in the way of `me`: it is `me`, it aborted, or it
      committed and was not running when `me` began. */
  ghost predicate Harmless(s: State, me: TxnID, x: TxnID)
    requires me in s.begunAt
  {
    x == me || x in s.st.aborted || (x in s.st.committed && x !in s.begunAt[me].active)
  }

  lemma ConflictsExactly(s: State, me: TxnID, v: Version)
    requires Inv(s) && me in s.st.active && v.xmin <= s.st.nextID
    ensures SnapOk(s, me) && (Conflicts(v, me, s.snaps[me], s.st) <==> !Harmless(s, me, v.xmin))
  {
    assert SnapOk(s, me);
    assert v.xmin in s.st.active + s.st.committed + s.st.aborted;
  }

  /** In every reachable state a write is let through exactly when every version in the chain has a
      harmless creator. */
  lemma MayWriteExactly(s: State, me: TxnID, row: Row)
    requires Inv(s) && me in s.st.active
    ensures SnapOk(s, me)
    ensures MayWrite(s, me, row) <==> forall i | 0 <= i < |ChainOf(s, row)| :: Harmless(s, me, ChainOf(s, row)[i].xmin)
  {
    var c := ChainOf(s, row);
    assert SnapOk(s, me) && ChainOk(s, row);
    forall i | 0 <= i < |c|
      ensures Conflicts(c[i], me, s.snaps[me], s.st) <==> !Harmless(s, me, c[i].xmin)
    {
      ConflictsExactly(s, me, c[i]);
    }
  }

  ghost predicate HasVersionBy(c: Chain, u: TxnID) {
    exists i :: 0 <= i < |c| && c[i].xmin == u
  }

  /** Writes by `me` to `row` that go through the conflict test. */
  ghost predicate WriteEnabled(s: State, me: TxnID, row: Row) {
    exists step :: WrittenBy(step, me, row) && Enabled(s, step)
  }

  // ---------------------------------------------------------------- over runs

  lemma StillActive(s: State, step: Step, me: TxnID)
    requires Inv(s) && Enabled(s, step) && me <= s.st.nextID && me in Apply(s, step).st.active
    ensures me in s.st.active
  {
    StatusKept(s, step);
    assert me in s.st.active + s.st.committed + s.st.aborted;
  }

  /** From its begin in step `i` on, a transaction remembers the statuses of that moment. */
  lemma {:induction false} BegunStays(s: State, steps: seq<Step>, i: nat, j: nat, me: TxnID)
    requires Run(s, steps) && i < j <= |steps| && steps[i].Begin? && me == At(s, steps, i).st.nextID + 1
    ensures me <= At(s, steps, j).st.nextID
    ensures me in At(s, steps, j).st.active ==>
              me in At(s, steps, j).begunAt && At(s, steps, j).begunAt[me] == Happen(At(s, steps, i).st, Began)
    decreases j
  {
    var t := At(s, steps, j - 1);
    RunInv(s, steps, j - 1);
    NextAfter(s, steps, j - 1);
    if i < j - 1 {
      BegunStays(s, steps, i, j - 1, me);
      StatusKept(t, steps[j - 1]);
      if me in At(s, steps, j).st.active {
        StillActive(t, steps[j - 1], me);
        SameBegin(t, steps[j - 1], me);
      }
    }
  }

  lemma {:induction false} CommitStays(s: State, steps: seq<Step>, i: nat, j: nat, u: TxnID)
    requires Run(s, steps) && i < j <= |steps| && steps[i] == Commit(u)
    ensures u in At(s, steps, j).st.committed
    decreases j
  {
    NextAfter(s, steps, j - 1);
    RunInv(s, steps, j - 1);
    StatusKept(At(s, steps, j - 1), steps[j - 1]);
    if i < j - 1 {
      CommitStays(s, steps, i, j - 1, u);
    }
  }

  /** What is committed when a transaction begins counts for it as long as it lives: in every run, if
      the newest version of a row is not deleted and its creator committed before the transaction began,
      that version is read. */
  lemma CommittedIsSeen(s: State, steps: seq<Step>, i: nat, j: nat, k: nat, u: TxnID, me: TxnID, row: Row)
    requires Run(s, steps) && i < j < k <= |steps| && steps[i] == Commit(u)
    requires steps[j].Begin? && me == At(s, steps, j).st.nextID + 1 && me in At(s, steps, k).st.active
    requires ChainOf(At(s, steps, k), row) != [] && ChainOf(At(s, steps, k), row)[0].xmin == u
    requires ChainOf(At(s, steps, k), row)[0].xmax == 0
    ensures Open(At(s, steps, k), me)
    ensures ReadVersion(At(s, steps, k), me, row) == Some(ChainOf(At(s, steps, k), row)[0])
  {
    var t := At(s, steps, k);
    CommitStays(s, steps, i, j, u);
    BegunStays(s, steps, j, k, me);
    RunInv(s, steps, k);
    TargetIsFirstSeen(t, me, row);
    FirstIs(ChainOf(t, row), SeenBy(me, t.begunAt[me].committed), 0);
  }

  /** First committer wins: in every run, once a transaction that was running when `me` began has
      committed, `me` can no longer write a row that has a version of it; and while it is active nobody
      else can. */
  lemma FirstCommitterWins(s: State, steps: seq<Step>, i: nat, j: nat, me: TxnID, u: TxnID, row: Row)
    requires Run(s, steps) && i < j <= |steps| && steps[i].Begin? && me == At(s, steps, i).st.nextID + 1
    requires u in At(s, steps, i).st.active && me in At(s, steps, j).st.active
    requires u in At(s, steps, j).st.committed || u in At(s, steps, j).st.active
    requires HasVersionBy(ChainOf(At(s, steps, j), row), u)
    ensures !WriteEnabled(At(s, steps, j), me, row)
  {
    var t := At(s, steps, j);
    RunInv(s, steps, i);
    RunInv(s, steps, j);
    BegunStays(s, steps, i, j, me);
    assert u in At(s, steps, i).st.active + At(s, steps, i).st.committed + At(s, steps, i).st.aborted;
    MayWriteExactly(t, me, row);
    var k :| 0 <= k < |ChainOf(t, row)| && ChainOf(t, row)[k].xmin == u;
    assert !Harmless(t, me, ChainOf(t, row)[k].xmin);
  }

  /** A write that goes through may still put a version over one that committed and that the writer
      does not see: exactly those of transactions that began after it. */
  lemma UnseenCommitted(s: State, me: TxnID, row: Row, i: nat)
    requires Inv(s) && MayWrite(s, me, row) && i < |ChainOf(s, row)| && ChainOf(s, row)[i].xmin in s.st.committed
    ensures SnapOk(s, me)
    ensures !Created(ChainOf(s, row)[i], me, s.begunAt[me].committed) <==> ChainOf(s, row)[i].xmin > s.begunAt[me].nextID
  {
    var x := ChainOf(s, row)[i].xmin;
    MayWriteExactly(s, me, row);
    assert Harmless(s, me, x);
    var b := s.begunAt[me];
    assert x <= b.nextID <==> x in b.active + b.committed + b.aborted;
    assert me <= b.nextID <==> me in b.active + b.committed + b.aborted;
  }

  // ---------------------------------------------------------------- a lost update

  /** 1 begins; 2 begins, updates the row and commits; 1 updates it too. */
  function UpdatedTwice(row: Row, b: Bytes, c: Bytes): seq<Step> {
    [Begin(Snapshot(2, 2, [])), Begin(Snapshot(1, 3, [1])), Update(2, row, b), Commit(2), Update(1, row, c)]
  }

  ghost predicate RunTo(s: State, steps: seq<Step>, n: nat, t: State) {
    n <= |steps| && t == At(s, steps, n) && forall i: nat | i < n :: StepOk(s, steps, i)
  }

  lemma OneMore(s: State, steps: seq<Step>, n: nat, t: State) returns (t': State)
    requires n < |steps| && RunTo(s, steps, n, t) && Enabled(t, steps[n])
    ensures t' == Apply(t, steps[n]) && RunTo(s, steps, n + 1, t')
  {
    t' := Apply(t, steps[n]);
    Unfold(s, steps, n);
  }

  lemma BothBegun(s: State, steps: seq<Step>, row: Row, a: Bytes) returns (t: State)
    requires s == OneRow(row, a) && |steps| > 1 && steps[0] == Begin(Snapshot(2, 2, [])) && steps[1] == Begin(Snapshot(1, 3, [1]))
    ensures RunTo(s, steps, 2, t) && t.st == Status(2, {1, 2}, {0}, {})
    ensures t.snaps == map[1 := Snapshot(2, 2, []), 2 := Snapshot(1, 3, [1])] && t.begunAt.Keys == {1, 2}
    ensures t.chains == s.chains && t.nextRef == 1
  {
    assert At(s, steps, 0) == s;
    t := OneMore(s, steps, 0, s);
    assert t.st == Status(1, {1}, {0}, {});
    t := OneMore(s, steps, 1, t);
  }

  lemma SecondUpdates(s: State, steps: seq<Step>, row: Row, a: Bytes, b: Bytes, t0: State) returns (t: State)
    requires RunTo(s, steps, 2, t0) && |steps| > 3 && steps[2] == Update(2, row, b) && steps[3] == Commit(2)
    requires t0.st == Status(2, {1, 2}, {0}, {}) && t0.begunAt.Keys == {1, 2}
    requires t0.snaps == map[1 := Snapshot(2, 2, []), 2 := Snapshot(1, 3, [1])]
    requires t0.chains == map[row := [Version(0, 0, 0, a)]] && t0.nextRef == 1
    ensures RunTo(s, steps, 4, t) && t.st == Status(2, {1}, {0, 2}, {}) && t.snaps == t0.snaps && t.begunAt == t0.begunAt
    ensures t.chains == map[row := [Version(1, 2, 0, b), Version(0, 0, 2, a)]] && t.nextRef == 2
  {
    FirstIs(ChainOf(t0, row), VisibleTo(2, t0.snaps[2], t0.st), 0);
    assert MayWrite(t0, 2, row);
    t := OneMore(s, steps, 2, t0);
    assert t.chains[row] == [Version(1, 2, 0, b), Version(0, 0, 2, a)];
    t := OneMore(s, steps, 3, t);
  }

  lemma FirstUpdates(t: State, row: Row, a: Bytes, b: Bytes, c: Bytes) returns (t': State)
    requires t.st == Status(2, {1}, {0, 2}, {}) && 1 in t.snaps && t.snaps[1] == Snapshot(2, 2, []) && 1 in t.begunAt
    requires t.chains == map[row := [Version(1, 2, 0, b), Version(0, 0, 2, a)]] && t.nextRef == 2
    ensures Open(t, 1) && ReadVersion(t, 1, row) == Some(Version(0, 0, 0, a))
    ensures Enabled(t, Update(1, row, c)) && t' == Apply(t, Update(1, row, c))
    ensures t'.chains[row] == [Version(2, 1, 0, c), Version(1, 2, 0, b), Version(0, 0, 1, a)]
  {
    FirstIs(ChainOf(t, row), VisibleTo(1, t.snaps[1], t.st), 1);
    assert MayWrite(t, 1, row);
    t' := Apply(t, Update(1, row, c));
  }

  /** 1 reads the old row and updates it, over the update 2 has committed in the meantime. */
  lemma UpdateLost(row: Row, a: Bytes, b: Bytes, c: Bytes) returns (t: State, t': State)
    ensures var s, steps := OneRow(row, a), UpdatedTwice(row, b, c);
            Initial(s) && RunTo(s, steps, 4, t) && RunTo(s, steps, 5, t')
    ensures Open(t, 1) && ReadVersion(t, 1, row) == Some(Version(0, 0, 0, a)) && 2 in t.st.committed
    ensures row in t.chains && t.chains[row] == [Version(1, 2, 0, b), Version(0, 0, 2, a)]
    ensures row in t'.chains && t'.chains[row] == [Version(2, 1, 0, c), Version(1, 2, 0, b), Version(0, 0, 1, a)]
  {
    var s, steps := OneRow(row, a), UpdatedTwice(row, b, c);
    assert s.chains[row] == [Version(0, 0, 0, a)];
    t := BothBegun(s, steps, row, a);
    t := SecondUpdates(s, steps, row, a, b, t);
    t' := FirstUpdates(t, row, a, b, c);
    var _ := OneMore(s, steps, 4, t);
  }
}
