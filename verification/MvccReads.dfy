/** Repeatable reads: when the version a transaction reads can change under it, and when not. */
module MvccReads {
  import opened KeyOrder
  import opened Bytes
  import opened WalRecord
  import opened Visibility
  import opened Mvcc

  /** The version without its deletion mark. */
  function Bare(v: Version): Version {
    v.(xmax := 0)
  }

  function Pick(c: Chain, p: Version -> bool): Option<Version> {
    var i := FirstIndex(c, p);
    if i < |c| then Some(Bare(c[i])) else None
  }

  /** Which version of `row` the transaction reads. */
  function ReadVersion(s: State, id: TxnID, row: Row): Option<Version>
    requires Open(s, id)
  {
    var v := Read(s, id, row);
    if v.Some? then Some(Bare(v.value)) else None
  }

  lemma ReadIsPick(s: State, id: TxnID, row: Row)
    requires Inv(s) && id in s.st.active
    ensures SnapOk(s, id)
    ensures ReadVersion(s, id, row) == Pick(ChainOf(s, row), SeenBy(id, s.begunAt[id].committed))
  {
    TargetIsFirstSeen(s, id, row);
  }

  // ---------------------------------------------------------------- chain edits by others

  lemma PickPrepended(c: Chain, v: Version, me: TxnID, done: set<TxnID>)
    requires !Created(v, me, done)
    ensures Pick([v] + c, SeenBy(me, done)) == Pick(c, SeenBy(me, done))
  {
    var i := FirstIndex(c, SeenBy(me, done));
    assert forall j | 0 < j < |[v] + c| :: ([v] + c)[j] == c[j - 1];
    FirstIs([v] + c, SeenBy(me, done), i + 1);
  }

  lemma {:induction false} PickRemoved(c: Chain, u: TxnID, me: TxnID, done: set<TxnID>)
    requires u != me && u !in done
    ensures Pick(Removed(c, u), SeenBy(me, done)) == Pick(c, SeenBy(me, done))
  {
    if c != [] {
      var rest := Removed(c[1..], u);
      PickRemoved(c[1..], u, me, done);
      assert [c[0]] + c[1..] == c;
      if c[0].xmin == u {
        assert [] + rest == rest;
        PickPrepended(c[1..], c[0], me, done);
      } else if !Seen(c[0], me, done) {
        PickShift(rest, c[0], me, done);
        PickShift(c[1..], c[0], me, done);
      }
    }
  }

  lemma PickShift(c: Chain, v: Version, me: TxnID, done: set<TxnID>)
    requires !Seen(v, me, done)
    ensures Pick([v] + c, SeenBy(me, done)) == Pick(c, SeenBy(me, done))
  {
    assert ([v] + c)[1..] == c;
  }

  lemma PickCleared(c: Chain, u: TxnID, me: TxnID, done: set<TxnID>)
    requires u != me && u !in done
    ensures Pick(Cleared(c, u), SeenBy(me, done)) == Pick(c, SeenBy(me, done))
  {
    FirstIs(Cleared(c, u), SeenBy(me, done), FirstIndex(c, SeenBy(me, done)));
  }

  /** Marking version `i` deleted by another transaction makes it the one read exactly when it is
      newer than the one read so far and its creator counts. */
  lemma FirstSuperseded(c: Chain, i: nat, u: TxnID, me: TxnID, done: set<TxnID>)
    requires i < |c| && u != me && u !in done
    ensures var r := FirstIndex(c, SeenBy(me, done));
            FirstIndex(Superseded(c, i, u), SeenBy(me, done)) == if i < r && Created(c[i], me, done) then i else r
  {
    var r := FirstIndex(c, SeenBy(me, done));
    FirstIs(Superseded(c, i, u), SeenBy(me, done), if i < r && Created(c[i], me, done) then i else r);
  }

  /** Transactions that are active or aborted now had not committed when `me` began. */
  lemma NotDone(s: State, me: TxnID, u: TxnID)
    requires Inv(s) && me in s.st.active && u in s.st.active + s.st.aborted
    ensures SnapOk(s, me) && u !in s.begunAt[me].committed
  {
    assert SnapOk(s, me);
  }

  ghost predicate Overwrites(step: Step, row: Row) {
    (step.Update? || step.Delete?) && step.row == row
  }

  ghost predicate WrittenBy(step: Step, id: TxnID, row: Row) {
    (step.Insert? || step.Update? || step.Delete?) && step.id == id && step.row == row
  }

  lemma SameBegin(s: State, step: Step, me: TxnID)
    requires Inv(s) && Enabled(s, step) && me in s.st.active && me in Apply(s, step).st.active
    ensures SnapOk(s, me) && SnapOk(Apply(s, step), me) && Apply(s, step).begunAt[me] == s.begunAt[me]
  {
    assert SnapOk(s, me) && me in s.st.active + s.st.committed + s.st.aborted;
    SnapsKept(s, step, me);
  }

  /** Begins, commits, aborts, the undo of aborts, and other transactions' inserts never change which
      version is read, deletes in the history or not. */
  lemma OthersKeepRead(s: State, step: Step, me: TxnID, row: Row)
    requires Inv(s) && Enabled(s, step) && me in s.st.active && me in Apply(s, step).st.active
    requires !Overwrites(step, row) && !WrittenBy(step, me, row)
    ensures Open(s, me) && Open(Apply(s, step), me)
    ensures ReadVersion(Apply(s, step), me, row) == ReadVersion(s, me, row)
  {
    var s', c, done := Apply(s, step), ChainOf(s, row), s.begunAt[me].committed;
    InvKept(s, step);
    SameBegin(s, step, me);
    ReadIsPick(s, me, row);
    ReadIsPick(s', me, row);
    match step {
      case Insert(id, r, data) =>
        NotDone(s, me, id);
        if r == row {
          PickPrepended(c, Version(s.nextRef, id, 0, data), me, done);
        }
      case UndoCreate(id, r) =>
        NotDone(s, me, id);
        PickRemoved(c, id, me, done);
      case UndoDelete(id, r) =>
        NotDone(s, me, id);
        PickCleared(c, id, me, done);
      case _ =>
    }
  }

  /** Another transaction's update or delete changes the version read exactly when it hits a version
      newer than that one whose creator counts for the reader. */
  lemma OverwriteMovesRead(s: State, step: Step, me: TxnID, row: Row)
    requires Inv(s) && Enabled(s, step) && me in s.st.active && Overwrites(step, row) && step.id != me
    ensures SnapOk(s, me) && Open(Apply(s, step), me)
    ensures ReadVersion(Apply(s, step), me, row) != ReadVersion(s, me, row)
       <==> Target(s, step.id, row) < Target(s, me, row)
            && Created(ChainOf(s, row)[Target(s, step.id, row)], me, s.begunAt[me].committed)
  {
    var s', c, i := Apply(s, step), ChainOf(s, row), Target(s, step.id, row);
    InvKept(s, step);
    SameBegin(s, step, me);
    ReadIsPick(s, me, row);
    ReadIsPick(s', me, row);
    TargetIsFirstSeen(s, me, row);
    var done := s.begunAt[me].committed;
    NotDone(s, me, step.id);
    FirstSuperseded(c, i, step.id, me, done);
    assert ChainOk(s, row);
    var d := Superseded(c, i, step.id);
    if step.Update? {
      PickPrepended(d, Version(s.nextRef, step.id, 0, step.data), me, done);
    }
    assert ReadVersion(s', me, row) == Pick(d, SeenBy(me, done));
  }

  /** With no delete so far, that never happens. */
  lemma NoDeletesKeepRead(s: State, step: Step, me: TxnID, row: Row)
    requires Inv(s) && NoGaps(s) && Enabled(s, step) && me in s.st.active && me in Apply(s, step).st.active
    requires !WrittenBy(step, me, row)
    ensures Open(s, me) && Open(Apply(s, step), me)
    ensures ReadVersion(Apply(s, step), me, row) == ReadVersion(s, me, row)
  {
    if Overwrites(step, row) {
      ReadsNewestCreated(s, me, row);
      OverwriteMovesRead(s, step, me, row);
      assert Target(s, step.id, row) < Target(s, me, row) ==>
               !CreatedFor(me, s.begunAt[me].committed)(ChainOf(s, row)[Target(s, step.id, row)]);
    } else {
      OthersKeepRead(s, step, me, row);
    }
  }

  /** A transaction reads its own latest insert or update. */
  lemma ReadsOwnWrite(s: State, step: Step)
    requires Inv(s) && Enabled(s, step) && (step.Insert? || step.Update?)
    ensures Open(Apply(s, step), step.id)
    ensures Read(Apply(s, step), step.id, step.row) == Some(Version(s.nextRef, step.id, 0, step.data))
  {
    var s' := Apply(s, step);
    var v := Version(s.nextRef, step.id, 0, step.data);
    assert ChainOf(s', step.row)[0] == v && IsVisible(v, step.id, s'.snaps[step.id], s'.st);
    FirstIs(ChainOf(s', step.row), VisibleTo(step.id, s'.snaps[step.id], s'.st), 0);
  }

  // ---------------------------------------------------------------- runs

  ghost predicate Initial(s: State) {
    && s.st == Origin() && s.snaps == map[] && s.begunAt == map[]
    && forall row | row in s.chains ::
         exists data, ref: nat :: ref < s.nextRef && s.chains[row] == [Version(ref, 0, 0, data)]
  }

  ghost function After(s: State, steps: seq<Step>): State {
    if steps == [] then s
    else
      var before, step := After(s, steps[..|steps| - 1]), steps[|steps| - 1];
      if Enabled(before, step) then Apply(before, step) else before
  }

  ghost function At(s: State, steps: seq<Step>, i: nat): State
    requires i <= |steps|
  {
    After(s, steps[..i])
  }

  ghost predicate StepOk(s: State, steps: seq<Step>, i: nat)
    requires i < |steps|
  {
    Enabled(At(s, steps, i), steps[i])
  }

  ghost predicate Run(s: State, steps: seq<Step>) {
    Initial(s) && forall i: nat | i < |steps| :: StepOk(s, steps, i)
  }

  lemma NextAfter(s: State, steps: seq<Step>, i: nat)
    requires Run(s, steps) && i < |steps|
    ensures Enabled(At(s, steps, i), steps[i])
    ensures At(s, steps, i + 1) == Apply(At(s, steps, i), steps[i])
  {
    assert StepOk(s, steps, i);
    assert steps[..i + 1][..i] == steps[..i];
  }

  lemma InitialInv(s: State)
    requires Initial(s)
    ensures Inv(s) && NoGaps(s)
  {
    forall row
      ensures ChainOk(s, row) && Succession(ChainOf(s, row), s.st)
    {
      if row in s.chains {
        var data, ref: nat :| ref < s.nextRef && s.chains[row] == [Version(ref, 0, 0, data)];
      }
    }
  }

  lemma {:induction false} RunInv(s: State, steps: seq<Step>, i: nat)
    requires Run(s, steps) && i <= |steps|
    ensures Inv(At(s, steps, i))
    ensures (forall j | 0 <= j < i :: !steps[j].Delete?) ==> NoGaps(At(s, steps, i))
  {
    if i == 0 {
      InitialInv(s);
    } else {
      RunInv(s, steps, i - 1);
      NextAfter(s, steps, i - 1);
      InvKept(At(s, steps, i - 1), steps[i - 1]);
      if forall j | 0 <= j < i :: !steps[j].Delete? {
        NoGapsKept(At(s, steps, i - 1), steps[i - 1]);
      }
    }
  }

  ghost predicate Alive(s: State, steps: seq<Step>, k: nat, id: TxnID)
    requires k <= |steps|
  {
    id in At(s, steps, k).st.active
  }

  /** Repeatable reads: in a run of inserts and updates, a transaction reads the same version of a row
      it does not write itself, from any point of its life to any later one; and that version is the
      newest one whose creator is itself or had committed when it began. */
  lemma {:induction false} RepeatableRead(s: State, steps: seq<Step>, i: nat, j: nat, me: TxnID, row: Row)
    requires Run(s, steps) && i <= j <= |steps| && forall k | 0 <= k < |steps| :: !steps[k].Delete?
    requires forall k: nat | i <= k <= j :: Alive(s, steps, k, me)
    requires forall k | i <= k < j :: !WrittenBy(steps[k], me, row)
    ensures Open(At(s, steps, i), me) && Open(At(s, steps, j), me)
    ensures ReadVersion(At(s, steps, j), me, row) == ReadVersion(At(s, steps, i), me, row)
    ensures ReadVersion(At(s, steps, j), me, row)
         == Pick(ChainOf(At(s, steps, j), row), CreatedFor(me, At(s, steps, j).begunAt[me].committed))
    decreases j - i
  {
    var t := At(s, steps, j);
    assert Alive(s, steps, j, me);
    RunInv(s, steps, j);
    ReadsNewestCreated(t, me, row);
    if i < j {
      assert Alive(s, steps, j - 1, me);
      RepeatableRead(s, steps, i, j - 1, me, row);
      RunInv(s, steps, j - 1);
      NextAfter(s, steps, j - 1);
      NoDeletesKeepRead(At(s, steps, j - 1), steps[j - 1], me, row);
    }
  }

  // ---------------------------------------------------------------- with deletes it is false

  function OneRow(row: Row, data: Bytes): State {
    State(Origin(), map[], map[], map[row := [Version(0, 0, 0, data)]], 1)
  }

  /** 1 begins; 2 begins, deletes the row and commits; 3 begins; 1 deletes the row again. */
  function DeletedTwice(row: Row): seq<Step> {
    [Begin(Snapshot(2, 2, [])), Begin(Snapshot(1, 3, [1])), Delete(2, row), Commit(2),
     Begin(Snapshot(1, 4, [1])), Delete(1, row)]
  }

  lemma Unfold(s: State, steps: seq<Step>, i: nat)
    requires i < |steps|
    ensures At(s, steps, i + 1) == if Enabled(At(s, steps, i), steps[i]) then Apply(At(s, steps, i), steps[i]) else At(s, steps, i)
  {
    assert steps[..i + 1][..i] == steps[..i];
  }

  lemma TwoBegun(row: Row, data: Bytes)
    ensures var s, steps := OneRow(row, data), DeletedTwice(row);
            var t := At(s, steps, 2);
            && StepOk(s, steps, 0) && StepOk(s, steps, 1)
            && t.st == Status(2, {1, 2}, {0}, {}) && t.snaps == map[1 := Snapshot(2, 2, []), 2 := Snapshot(1, 3, [1])]
            && t.begunAt.Keys == {1, 2} && t.chains == s.chains && t.nextRef == 1
  {
    var s, steps := OneRow(row, data), DeletedTwice(row);
    assert At(s, steps, 0) == s;
    Unfold(s, steps, 0);
    var t := At(s, steps, 1);
    assert t.st == Status(1, {1}, {0}, {});
    Unfold(s, steps, 1);
  }

  lemma OneDeleted(row: Row, data: Bytes)
    ensures var s, steps := OneRow(row, data), DeletedTwice(row);
            var t := At(s, steps, 4);
            && StepOk(s, steps, 2) && StepOk(s, steps, 3)
            && t.st == Status(2, {1}, {0, 2}, {}) && t.snaps == map[1 := Snapshot(2, 2, []), 2 := Snapshot(1, 3, [1])]
            && t.begunAt.Keys == {1, 2} && t.chains == map[row := [Version(0, 0, 2, data)]]
  {
    var s, steps := OneRow(row, data), DeletedTwice(row);
    TwoBegun(row, data);
    var t := At(s, steps, 2);
    FirstIs(ChainOf(t, row), VisibleTo(2, t.snaps[2], t.st), 0);
    assert MayWrite(t, 2, row);
    Unfold(s, steps, 2);
    var u := At(s, steps, 3);
    assert u.chains[row] == [Version(0, 0, 2, data)];
    Unfold(s, steps, 3);
  }

  lemma ThreeBegun(row: Row, data: Bytes)
    ensures var s, steps := OneRow(row, data), DeletedTwice(row);
            var t := At(s, steps, 5);
            && StepOk(s, steps, 4) && Open(t, 3) && Open(t, 1) && ReadVersion(t, 3, row) == None
            && t.st == Status(3, {1, 3}, {0, 2}, {}) && t.chains == map[row := [Version(0, 0, 2, data)]]
            && t.snaps[1] == Snapshot(2, 2, []) && t.snaps[3] == Snapshot(1, 4, [1])
  {
    var s, steps := OneRow(row, data), DeletedTwice(row);
    OneDeleted(row, data);
    Unfold(s, steps, 4);
    var t := At(s, steps, 5);
    assert t.st == Status(3, {1, 3}, {0, 2}, {}) && t.chains == map[row := [Version(0, 0, 2, data)]];
    FirstIs(ChainOf(t, row), VisibleTo(3, t.snaps[3], t.st), 1);
  }

  lemma DeletedAgain(t: State, row: Row, data: Bytes)
    requires t.st == Status(3, {1, 3}, {0, 2}, {}) && t.chains == map[row := [Version(0, 0, 2, data)]]
    requires Open(t, 1) && Open(t, 3) && t.snaps[1] == Snapshot(2, 2, []) && t.snaps[3] == Snapshot(1, 4, [1])
    ensures Enabled(t, Delete(1, row)) && Open(Apply(t, Delete(1, row)), 3)
    ensures ReadVersion(Apply(t, Delete(1, row)), 3, row) == Some(Version(0, 0, 0, data))
  {
    FirstIs(ChainOf(t, row), VisibleTo(1, t.snaps[1], t.st), 0);
    assert MayWrite(t, 1, row);
    var u := Apply(t, Delete(1, row));
    assert u.chains[row] == [Version(0, 0, 1, data)];
    FirstIs(ChainOf(u, row), VisibleTo(3, u.snaps[3], u.st), 0);
  }

  /** Repeatable reads do not survive deletes: a transaction sees nothing, then the deleted row. */
  lemma UnrepeatableRead(row: Row, data: Bytes)
    ensures var s, steps := OneRow(row, data), DeletedTwice(row);
            && Run(s, steps) && Open(At(s, steps, 5), 3) && Open(At(s, steps, 6), 3) && steps[5].id != 3
            && ReadVersion(At(s, steps, 5), 3, row) == None
            && ReadVersion(At(s, steps, 6), 3, row) == Some(Version(0, 0, 0, data))
  {
    var s, steps := OneRow(row, data), DeletedTwice(row);
    FiveSteps(row, data);
    LastStep(row, data);
    assert Initial(s) by {
      assert s.chains[row] == [Version(0, 0, 0, data)];
    }
    SixSteps(s, steps);
  }

  lemma SixSteps(s: State, steps: seq<Step>)
    requires Initial(s) && |steps| == 6 && StepOk(s, steps, 0) && StepOk(s, steps, 1) && StepOk(s, steps, 2)
    requires StepOk(s, steps, 3) && StepOk(s, steps, 4) && StepOk(s, steps, 5)
    ensures Run(s, steps)
  {
  }

  lemma FiveSteps(row: Row, data: Bytes)
    ensures var s, steps := OneRow(row, data), DeletedTwice(row);
            && StepOk(s, steps, 0) && StepOk(s, steps, 1) && StepOk(s, steps, 2)
            && StepOk(s, steps, 3) && StepOk(s, steps, 4)
  {
    TwoBegun(row, data);
    OneDeleted(row, data);
    ThreeBegun(row, data);
  }

  lemma LastStep(row: Row, data: Bytes)
    ensures var s, steps := OneRow(row, data), DeletedTwice(row);
            && StepOk(s, steps, 5) && Open(At(s, steps, 5), 3) && Open(At(s, steps, 6), 3)
            && ReadVersion(At(s, steps, 5), 3, row) == None
            && ReadVersion(At(s, steps, 6), 3, row) == Some(Version(0, 0, 0, data))
  {
    var s, steps := OneRow(row, data), DeletedTwice(row);
    ThreeBegun(row, data);
    DeletedAgain(At(s, steps, 5), row, data);
    Unfold(s, steps, 5);
  }
}
