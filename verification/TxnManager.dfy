/** The transaction manager's two-phase-locking calls. Every call is proved to do what a function on
    states says, and each of those functions is a sequence of steps of the state machine. */
module TxnManager {
  import opened KeyOrder
  import opened Bytes
  import opened WalRecord
  import opened Recovery
  import opened UndoLog
  import opened TwoPhase
  import opened TwoPhaseRuns

  // ---------------------------------------------------------------- calls as sequences of steps

  ghost predicate StepCan(s: State, steps: seq<Step>, i: nat)
    requires i < |steps|
  {
    Enabled(After(s, steps[..i]), steps[i])
  }

  /** The steps can be taken one after the other from `s` and lead to `s'`. */
  ghost predicate Leads(s: State, steps: seq<Step>, s': State) {
    (forall i: nat | i < |steps| :: StepCan(s, steps, i)) && After(s, steps) == s'
  }

  lemma OneMoreStep(s: State, steps: seq<Step>, s': State, step: Step)
    requires Leads(s, steps, s') && Enabled(s', step)
    ensures Leads(s, steps + [step], Apply(s', step))
  {
    var all := steps + [step];
    forall i: nat | i < |all|
      ensures StepCan(s, all, i)
    {
      if i < |steps| {
        assert StepCan(s, steps, i);
        assert all[..i] == steps[..i];
      } else {
        assert all[..i] == steps;
      }
    }
    assert all[..|all| - 1] == steps;
  }

  /** Steps that do not commit keep the invariant of the runs. */
  lemma {:induction false} LeadsKeepsInv(s: State, steps: seq<Step>, s': State)
    requires Inv(s) && Leads(s, steps, s') && forall i | 0 <= i < |steps| :: !steps[i].Commit?
    ensures Inv(s')
    decreases |steps|
  {
    if steps != [] {
      var n := |steps| - 1;
      assert StepCan(s, steps, n);
      forall i: nat | i < n
        ensures StepCan(s, steps[..n], i)
      {
        assert StepCan(s, steps, i);
        assert steps[..n][..i] == steps[..i];
      }
      LeadsKeepsInv(s, steps[..n], After(s, steps[..n]));
      InvKept(After(s, steps[..n]), steps[n]);
    }
  }

  /** No undo of `id` is in progress. */
  ghost predicate AtRest(s: State, id: TxnID) {
    In(s, id, Active) && s.txns[id].left == |s.txns[id].undo| && s.txns[id].lastCLR == 0
  }

  /** The entries an undo in progress still works through. */
  function Remaining(t: Txn): seq<UndoEntry>
    requires t.left <= |t.undo|
  {
    if Base(t) < t.left then t.undo[Base(t)..t.left] else []
  }

  /** The compensation records of undoing `es` newest first, the first one chained to `chain`. */
  function Compensations(id: TxnID, es: seq<UndoEntry>, chain: LSN, next: LSN): (rs: seq<LogRecord>)
    ensures |rs| == |es|
    decreases |es|
  {
    if es == [] then []
    else
      var n := |es| - 1;
      var prev := if chain == 0 then es[n].lsn else chain;
      [CLRRec(next, id, prev, if n > 0 then es[n - 1].lsn else 0)] + Compensations(id, es[..n], next, next + 1)
  }

  /** Nothing left to undo: `last` is the log's length by then. */
  function Spent(t: Txn, last: LSN): Txn
    requires t.left <= |t.undo|
  {
    var es := Remaining(t);
    t.(left := t.left - |es|,
       lastCLR := if es == [] then t.lastCLR else last,
       rolledBack := t.rolledBack || (t.phase.RollingBack? && es != []))
  }

  ghost predicate InUndo(s: State, id: TxnID) {
    Undoing(s, id) && s.txns[id].left <= |s.txns[id].undo|
  }

  /** The state once an undo in progress is through: before-images restored newest first, one
      compensation logged per entry. */
  function Unwound(s: State, id: TxnID): State
    requires id in s.txns && s.txns[id].left <= |s.txns[id].undo|
  {
    var t, es := s.txns[id], Remaining(s.txns[id]);
    s.(catalog := UndoAll(s.catalog, es),
       log := s.log + Compensations(id, es, t.lastCLR, NextLSN(s)),
       txns := s.txns[id := Spent(t, |s.log| + |es|)])
  }

  lemma Regrouped(log: seq<LogRecord>, rec: LogRecord, more: seq<LogRecord>)
    ensures log + ([rec] + more) == (log + [rec]) + more
  {
  }

  lemma RemainingStep(t: Txn, t': Txn)
    requires Base(t) < t.left <= |t.undo|
    requires t'.undo == t.undo && t'.left == t.left - 1 && t'.phase == t.phase
    ensures var es := Remaining(t);
            && |es| == t.left - Base(t) && es[|es| - 1] == t.undo[t.left - 1]
            && (|es| > 1 ==> es[|es| - 2] == t.undo[t.left - 2])
            && Remaining(t') == es[..|es| - 1]
  {
  }

  lemma UnwoundLog(s: State, id: TxnID)
    requires InUndo(s, id) && Base(s.txns[id]) < s.txns[id].left
    ensures Unwound(AfterUndo(s, id), id).log == Unwound(s, id).log
  {
    var t, es := s.txns[id], Remaining(s.txns[id]);
    RemainingStep(t, AfterUndo(s, id).txns[id]);
    Regrouped(s.log, Compensation(t, id, NextLSN(s)), Compensations(id, es[..|es| - 1], NextLSN(s), NextLSN(s) + 1));
  }

  /** Undoing one entry and then the rest is undoing them all. */
  lemma UnwoundOnce(s: State, id: TxnID)
    requires InUndo(s, id) && Base(s.txns[id]) < s.txns[id].left
    ensures InUndo(AfterUndo(s, id), id) && Unwound(AfterUndo(s, id), id) == Unwound(s, id)
  {
    var t, t' := s.txns[id], AfterUndo(s, id).txns[id];
    RemainingStep(t, t');
    UnwoundLog(s, id);
    assert Spent(t', |s.log| + 1 + |Remaining(t')|) == Spent(t, |s.log| + |Remaining(t)|);
  }

  lemma UnwoundDone(s: State, id: TxnID)
    requires id in s.txns && s.txns[id].left <= |s.txns[id].undo| && s.txns[id].left <= Base(s.txns[id])
    ensures Unwound(s, id) == s
  {
    assert s.log + [] == s.log && s.txns[id := s.txns[id]] == s.txns;
  }

  lemma {:induction false} UndoLeads(s0: State, before: seq<Step>, s: State, id: TxnID) returns (steps: seq<Step>)
    requires Leads(s0, before, s) && InUndo(s, id) && forall i | 0 <= i < |before| :: !before[i].Commit?
    ensures Leads(s0, steps, Unwound(s, id)) && forall i | 0 <= i < |steps| :: !steps[i].Commit?
    decreases s.txns[id].left
  {
    if Base(s.txns[id]) < s.txns[id].left {
      OneMoreStep(s0, before, s, UndoNext(id));
      UnwoundOnce(s, id);
      steps := UndoLeads(s0, before + [UndoNext(id)], AfterUndo(s, id), id);
    } else {
      UnwoundDone(s, id);
      steps := before;
    }
  }

  function Unheld(locks: map<Row, TxnID>, id: TxnID): map<Row, TxnID> {
    map r | r in locks && locks[r] != id :: locks[r]
  }

  lemma {:induction false} ReleaseLeads(s0: State, before: seq<Step>, s: State, id: TxnID) returns (steps: seq<Step>)
    requires Leads(s0, before, s) && (id in s.txns ==> In(s, id, Aborting) && s.txns[id].left == 0)
    ensures Leads(s0, steps, s.(locks := Unheld(s.locks, id))) && before <= steps
    ensures forall i | |before| <= i < |steps| :: steps[i].Unlock?
    decreases |s.locks|
  {
    if row :| row in s.locks && s.locks[row] == id {
      OneMoreStep(s0, before, s, Unlock(id, row));
      var s1 := s.(locks := s.locks - {row});
      assert s1.locks.Keys == s.locks.Keys - {row};
      steps := ReleaseLeads(s0, before + [Unlock(id, row)], s1, id);
      assert Unheld(s1.locks, id) == Unheld(s.locks, id);
    } else {
      assert Unheld(s.locks, id) == s.locks;
      steps := before;
    }
  }

  // ---------------------------------------------------------------- what the calls do

  function AfterCommit(s: State, id: TxnID): State
    requires In(s, id, Active)
  {
    Apply(s, Commit(id)).(locks := Unheld(s.locks, id))
  }

  /** An abort puts back every before-image newest first, logs the compensations and then the abort,
      and frees the locks. */
  function AfterAbort(s: State, id: TxnID): State
    requires id in s.txns
  {
    var t := s.txns[id];
    var last := |s.log| + |t.undo|;
    s.(catalog := UndoAll(s.catalog, t.undo),
       log := s.log + Compensations(id, t.undo, 0, NextLSN(s))
              + [AbortRec(last + 1, id, if t.undo == [] then t.lastLSN else last)],
       locks := Unheld(s.locks, id), txns := s.txns - {id}, aborted := s.aborted + {id})
  }

  /** Rolling back to a position undoes the entries from it on and keeps the rest; a position beyond
      the log's end changes nothing. */
  function AfterRollBack(s: State, id: TxnID, position: nat): State
    requires id in s.txns
  {
    var t := s.txns[id];
    if position >= |t.undo| then s
    else
      var es := t.undo[position..];
      s.(catalog := UndoAll(s.catalog, es),
         log := s.log + Compensations(id, es, 0, NextLSN(s)),
         txns := s.txns[id := t.(undo := t.undo[..position], left := position, rolledBack := true)])
  }

  lemma UnwoundIs(s: State, id: TxnID, es: seq<UndoEntry>)
    requires id in s.txns && s.txns[id].left <= |s.txns[id].undo| && es == Remaining(s.txns[id])
    ensures Unwound(s, id)
         == s.(catalog := UndoAll(s.catalog, es),
               log := s.log + Compensations(id, es, s.txns[id].lastCLR, NextLSN(s)),
               txns := s.txns[id := Spent(s.txns[id], |s.log| + |es|)])
  {
  }

  lemma AbortEnded(s: State, u: State, id: TxnID, c: Store, comp: seq<LogRecord>)
    requires id in s.txns && id in u.txns && |comp| == |s.txns[id].undo|
    requires u == s.(catalog := c, log := s.log + comp, aborted := s.aborted + {id}, txns := s.txns[id := u.txns[id]])
    requires u.txns[id].phase == Aborting && u.txns[id].left == 0 && u.txns[id].lastLSN == s.txns[id].lastLSN
    requires u.txns[id].lastCLR == if comp == [] then 0 else |s.log| + |comp|
    ensures Apply(u.(locks := Unheld(u.locks, id)), EndAbort(id))
         == s.(catalog := c, locks := Unheld(s.locks, id), txns := s.txns - {id}, aborted := s.aborted + {id},
               log := s.log + comp + [AbortRec(|s.log| + |comp| + 1, id, if comp == [] then s.txns[id].lastLSN else |s.log| + |comp|)])
  {
  }

  lemma AbortIs(s: State, id: TxnID)
    requires AtRest(s, id)
    ensures var u := Unwound(Apply(s, StartAbort(id)), id);
            Enabled(u, EndAbort(id)) && Apply(u.(locks := Unheld(u.locks, id)), EndAbort(id)) == AfterAbort(s, id)
  {
    var s1, es := Apply(s, StartAbort(id)), s.txns[id].undo;
    assert Remaining(s1.txns[id]) == es;
    UnwoundIs(s1, id, es);
    AbortEnded(s, Unwound(s1, id), id, UndoAll(s.catalog, es), Compensations(id, es, 0, NextLSN(s)));
  }

  lemma AbortLeads(s: State, id: TxnID) returns (steps: seq<Step>)
    requires AtRest(s, id)
    ensures Leads(s, steps, AfterAbort(s, id)) && forall i | 0 <= i < |steps| :: !steps[i].Commit?
  {
    var s1 := Apply(s, StartAbort(id));
    var s2 := Unwound(s1, id);
    OneMoreStep(s, [], s, StartAbort(id));
    var undos := UndoLeads(s, [] + [StartAbort(id)], s1, id);
    AbortIs(s, id);
    var frees := ReleaseLeads(s, undos, s2, id);
    OneMoreStep(s, frees, s2.(locks := Unheld(s2.locks, id)), EndAbort(id));
    steps := frees + [EndAbort(id)];
  }

  lemma RollBackEnded(s: State, u: State, id: TxnID, position: nat, c: Store, log: seq<LogRecord>)
    requires AtRest(s, id) && position < |s.txns[id].undo| && id in u.txns
    requires u == s.(catalog := c, log := log, txns := s.txns[id := u.txns[id]])
    requires u.txns[id] == s.txns[id].(phase := RollingBack(position), left := position, rolledBack := true, lastCLR := u.txns[id].lastCLR)
    ensures Apply(u, EndRollBack(id))
         == s.(catalog := c, log := log,
               txns := s.txns[id := s.txns[id].(undo := s.txns[id].undo[..position], left := position, rolledBack := true)])
  {
  }

  lemma RollBackIs(s: State, id: TxnID, position: nat)
    requires AtRest(s, id)
    ensures var u := Unwound(Apply(s, StartRollBack(id, position)), id);
            Enabled(u, EndRollBack(id)) && Apply(u, EndRollBack(id)) == AfterRollBack(s, id, position)
  {
    var s1, t := Apply(s, StartRollBack(id, position)), s.txns[id];
    if position < |t.undo| {
      var es := t.undo[position..];
      assert Remaining(s1.txns[id]) == es;
      UnwoundIs(s1, id, es);
      RollBackEnded(s, Unwound(s1, id), id, position, UndoAll(s.catalog, es), s.log + Compensations(id, es, 0, NextLSN(s)));
    } else {
      UnwoundDone(s1, id);
      assert Apply(s1, EndRollBack(id)).txns == s.txns;
    }
  }

  lemma RollBackLeads(s: State, id: TxnID, position: nat) returns (steps: seq<Step>)
    requires AtRest(s, id)
    ensures Leads(s, steps, AfterRollBack(s, id, position)) && forall i | 0 <= i < |steps| :: !steps[i].Commit?
  {
    var s1 := Apply(s, StartRollBack(id, position));
    OneMoreStep(s, [], s, StartRollBack(id, position));
    var undos := UndoLeads(s, [] + [StartRollBack(id, position)], s1, id);
    RollBackIs(s, id, position);
    OneMoreStep(s, undos, Unwound(s1, id), EndRollBack(id));
    steps := undos + [EndRollBack(id)];
  }

  /** An abort after a rollback undoes the rest and ends where an abort without the rollback would
      have. */
  lemma RollBackThenAbort(s: State, id: TxnID, position: nat)
    requires id in s.txns
    ensures AfterAbort(AfterRollBack(s, id, position), id).catalog == AfterAbort(s, id).catalog
  {
    var undo := s.txns[id].undo;
    if position < |undo| {
      assert undo == undo[..position] + undo[position..];
      UndoAppend(s.catalog, undo[..position], undo[position..]);
    }
  }

  /** An abort keeps recovery and the live table in step, and so does a rollback to a savepoint. */
  lemma UndoCallsKeepInv(s: State, id: TxnID, position: nat)
    requires Inv(s) && AtRest(s, id)
    ensures Inv(AfterAbort(s, id)) && Inv(AfterRollBack(s, id, position))
  {
    var a := AbortLeads(s, id);
    LeadsKeepsInv(s, a, AfterAbort(s, id));
    var b := RollBackLeads(s, id, position);
    LeadsKeepsInv(s, b, AfterRollBack(s, id, position));
  }

  /** A commit with its lock release keeps them in step exactly when the rows written still hold
      what was last logged for them. */
  lemma CommitKeepsInv(s: State, id: TxnID)
    requires Inv(s) && AtRest(s, id)
    ensures Inv(AfterCommit(s, id)) <==> WritesLive(s, id)
  {
    assert TxnOk(s, id);
    if Inv(AfterCommit(s, id)) {
      forall r | Wrote(s.log, id, r)
        ensures LastOn(s.log, r).Some? && Image(LastOn(s.log, r).value) == Get(s.catalog, r)
      {
        assert LastIsMine(s, id, r) && RowOk(AfterCommit(s, id), r);
        CommittedRow(s, id, r);
      }
    }
    if WritesLive(s, id) {
      CommitExactly(s, id);
      var s1 := Apply(s, Commit(id));
      assert After(s1, []) == s1;
      var steps := ReleaseLeads(s1, [], s1, id);
      LeadsKeepsInv(s1, steps, AfterCommit(s, id));
    }
  }

  /** The position of the newest savepoint called `name`. */
  function Named(sps: seq<Savepoint>, name: string): Option<nat> {
    if sps == [] then None
    else if sps[|sps| - 1].name == name then Some(sps[|sps| - 1].position)
    else Named(sps[..|sps| - 1], name)
  }

  /** It is the last one of that name; there is none exactly when no savepoint has the name. */
  lemma {:induction false} NamedMeans(sps: seq<Savepoint>, name: string)
    ensures Named(sps, name) == None <==> forall i | 0 <= i < |sps| :: sps[i].name != name
    ensures Named(sps, name).Some? ==> exists i :: LastNamed(sps, name, i) && sps[i].position == Named(sps, name).value
  {
    if sps != [] {
      var n := |sps| - 1;
      if sps[n].name == name {
        assert LastNamed(sps, name, n);
      } else {
        NamedMeans(sps[..n], name);
        if Named(sps, name).Some? {
          var i :| LastNamed(sps[..n], name, i) && sps[..n][i].position == Named(sps, name).value;
          assert LastNamed(sps, name, i);
        }
      }
    }
  }

  ghost predicate LastNamed(sps: seq<Savepoint>, name: string, i: int) {
    0 <= i < |sps| && sps[i].name == name && forall k | i < k < |sps| :: sps[k].name != name
  }

  // ---------------------------------------------------------------- between calls

  /** A lock belongs to an active transaction that wrote the row. */
  ghost predicate LockBacked(s: State, r: Row)
    requires r in s.locks
  {
    s.locks[r] in s.txns && Wrote(s.log, s.locks[r], r)
  }

  /** An active transaction holds every row it wrote, and so every row it would have to undo. */
  ghost predicate HoldsWritten(s: State, id: TxnID)
    requires id in s.txns
  {
    && id <= s.nextID && AtRest(s, id)
    && (forall r | Wrote(s.log, id, r) :: Owns(s, id, r))
    && (forall i | 0 <= i < |s.txns[id].undo| :: Owns(s, id, s.txns[id].undo[i].row))
  }

  ghost predicate IdsUsed(s: State) {
    forall i | 0 <= i < |s.log| :: s.log[i].txn <= s.nextID
  }

  /** What holds between calls. */
  ghost predicate Tidy(s: State) {
    && (forall r | r in s.locks :: LockBacked(s, r))
    && (forall id | id in s.txns :: HoldsWritten(s, id))
    && IdsUsed(s)
  }

  lemma {:induction false} NothingWritten(log: seq<LogRecord>, recs: seq<LogRecord>, id: TxnID, r: Row)
    requires forall i | 0 <= i < |recs| :: !recs[i].WriteRec?
    ensures Wrote(log + recs, id, r) <==> Wrote(log, id, r)
  {
    var all := log + recs;
    if Wrote(all, id, r) {
      var i :| 0 <= i < |all| && all[i].WriteRec? && all[i].txn == id && all[i].row == r;
      assert log[i] == all[i];
    }
    if Wrote(log, id, r) {
      var i :| 0 <= i < |log| && log[i].WriteRec? && log[i].txn == id && log[i].row == r;
      assert all[i] == log[i];
    }
  }

  lemma {:induction false} OnlyCompensations(id: TxnID, es: seq<UndoEntry>, chain: LSN, next: LSN)
    ensures forall i | 0 <= i < |es| ::
              Compensations(id, es, chain, next)[i].CLRRec? && Compensations(id, es, chain, next)[i].txn == id
    decreases |es|
  {
    if es != [] {
      OnlyCompensations(id, es[..|es| - 1], next, next + 1);
    }
  }

  lemma TidyBegin(s: State, timestamp: nat)
    requires Tidy(s)
    ensures Tidy(Apply(s, Begin(timestamp)))
  {
    var s' := Apply(s, Begin(timestamp));
    forall x, r
      ensures Wrote(s'.log, x, r) <==> Wrote(s.log, x, r)
    {
      NothingWritten(s.log, [BeginRec(NextLSN(s), s.nextID + 1, 0, timestamp)], x, r);
    }
    forall r | r in s'.locks
      ensures LockBacked(s', r)
    {
      assert LockBacked(s, r);
    }
    forall id | id in s'.txns
      ensures HoldsWritten(s', id)
    {
      if id in s.txns {
        assert HoldsWritten(s, id);
      }
    }
  }

  lemma TidyWrite(s: State, id: TxnID, row: Row, op: Byte, value: Bytes)
    requires Tidy(s) && id in s.txns && (row in s.locks ==> s.locks[row] == id)
    ensures Tidy(AfterWrite(s.(locks := s.locks[row := id]), id, row, op, value))
  {
    var s' := AfterWrite(s.(locks := s.locks[row := id]), id, row, op, value);
    assert HoldsWritten(s, id);
    forall x, r
      ensures Wrote(s'.log, x, r) <==> Wrote(s.log, x, r) || (x == id && r == row)
    {
      WroteStep(s.log, s'.log[|s.log|], x, r);
    }
    forall r | r in s'.locks
      ensures LockBacked(s', r)
    {
      assert r != row ==> LockBacked(s, r);
    }
    forall x | x in s'.txns
      ensures HoldsWritten(s', x)
    {
      assert HoldsWritten(s, x);
    }
  }

  /** Ending a transaction, with its locks. */
  lemma TidyEnd(s: State, id: TxnID, s': State, recs: seq<LogRecord>)
    requires Tidy(s) && id in s.txns && s'.txns == s.txns - {id} && s'.nextID == s.nextID
    requires s'.log == s.log + recs && (forall i | 0 <= i < |recs| :: !recs[i].WriteRec? && recs[i].txn == id)
    requires forall r, x :: Owns(s', x, r) <==> x != id && Owns(s, x, r)
    ensures Tidy(s')
  {
    assert HoldsWritten(s, id);
    forall x, r
      ensures Wrote(s'.log, x, r) <==> Wrote(s.log, x, r)
    {
      NothingWritten(s.log, recs, x, r);
    }
    forall r | r in s'.locks
      ensures LockBacked(s', r)
    {
      assert Owns(s', s'.locks[r], r) && LockBacked(s, r);
    }
    forall x | x in s'.txns
      ensures HoldsWritten(s', x)
    {
      assert HoldsWritten(s, x);
    }
  }

  /** The locks left are those of the others, as they were. */
  lemma UnheldFrees(s: State, id: TxnID, s': State)
    requires s'.locks == Unheld(s.locks, id)
    ensures forall r, x :: Owns(s', x, r) <==> x != id && Owns(s, x, r)
  {
  }

  lemma TidyCommit(s: State, id: TxnID)
    requires Tidy(s) && In(s, id, Active)
    ensures Tidy(AfterCommit(s, id))
  {
    UnheldFrees(s, id, AfterCommit(s, id));
    TidyEnd(s, id, AfterCommit(s, id), [CommitRec(NextLSN(s), id, s.txns[id].lastLSN)]);
  }

  lemma TidyAbort(s: State, id: TxnID)
    requires Tidy(s) && id in s.txns
    ensures Tidy(AfterAbort(s, id))
  {
    var s', es := AfterAbort(s, id), s.txns[id].undo;
    var comp, last := Compensations(id, es, 0, NextLSN(s)), s'.log[|s'.log| - 1];
    OnlyCompensations(id, es, 0, NextLSN(s));
    UnheldFrees(s, id, s');
    assert s'.log == s.log + (comp + [last]);
    TidyEnd(s, id, s', comp + [last]);
  }

  lemma TidyRollBack(s: State, id: TxnID, position: nat)
    requires Tidy(s) && id in s.txns
    ensures Tidy(AfterRollBack(s, id, position))
  {
    var s', undo := AfterRollBack(s, id, position), s.txns[id].undo;
    if position < |undo| {
      assert HoldsWritten(s, id);
      var comp := Compensations(id, undo[position..], 0, NextLSN(s));
      OnlyCompensations(id, undo[position..], 0, NextLSN(s));
      forall x, r
        ensures Wrote(s'.log, x, r) <==> Wrote(s.log, x, r)
      {
        NothingWritten(s.log, comp, x, r);
      }
      forall r | r in s'.locks
        ensures LockBacked(s', r)
      {
        assert LockBacked(s, r);
      }
      forall x | x in s'.txns
        ensures HoldsWritten(s', x)
      {
        assert HoldsWritten(s, x);
      }
    }
  }

  lemma TidySavepoint(s: State, id: TxnID, name: string)
    requires Tidy(s) && In(s, id, Active)
    ensures Tidy(Apply(s, SetSavepoint(id, name)))
  {
    var s' := Apply(s, SetSavepoint(id, name));
    forall r | r in s'.locks
      ensures LockBacked(s', r)
    {
      assert LockBacked(s, r);
    }
    forall x | x in s'.txns
      ensures HoldsWritten(s', x)
    {
      assert HoldsWritten(s, x);
    }
  }

  /** A transaction that is not active holds nothing. */
  lemma EndedHoldsNothing(s: State, id: TxnID)
    requires Tidy(s) && id !in s.txns
    ensures forall r :: !Owns(s, id, r)
  {
    forall r
      ensures !Owns(s, id, r)
    {
      assert r in s.locks ==> LockBacked(s, r);
    }
  }

  /** Another active transaction wrote the row. */
  ghost predicate WrittenByAnother(s: State, id: TxnID, row: Row) {
    exists x :: x in s.txns && x != id && Wrote(s.log, x, row)
  }

  lemma LockedByWriter(s: State, id: TxnID, row: Row)
    requires Tidy(s)
    ensures row in s.locks && s.locks[row] != id <==> WrittenByAnother(s, id, row)
  {
    if row in s.locks && s.locks[row] != id {
      assert LockBacked(s, row);
    }
    if WrittenByAnother(s, id, row) {
      var x :| x in s.txns && x != id && Wrote(s.log, x, row);
      assert HoldsWritten(s, x);
    }
  }

  // ---------------------------------------------------------------- the manager

  datatype Outcome = Ok | TooManyTransactions | LockTimeout | TxnAborted | TxnCommitted | TxnNotFound | SavepointNotFound

  class Manager {
    ghost const seed: Store
    const maxActive: nat
    var catalog: Store
    var locks: map<Row, TxnID>
    var txns: map<TxnID, Txn>
    var committed: set<TxnID>
    var aborted: set<TxnID>
    var nextID: TxnID
    var log: seq<LogRecord>

    ghost function Now(): State
      reads this
    {
      State(seed, catalog, locks, txns, committed, aborted, nextID, log)
    }

    /** Between calls no undo is in progress, and the locks are those of the active writers. */
    ghost predicate Valid()
      reads this
    {
      Tidy(Now())
    }

    /** `limit` 0 means no limit on active transactions. */
    constructor (rows: Store, limit: nat)
      ensures Valid() && Now() == Initial(rows) && maxActive == limit
    {
      seed := rows;
      maxActive := limit;
      catalog := rows;
      locks := map[];
      txns := map[];
      committed := {};
      aborted := {};
      nextID := 0;
      log := [];
    }

    method AppendRecord(rec: LogRecord)
      modifies this`log
      ensures log == old(log) + [rec]
    {
      log := log + [rec];
    }

    /** The next id, a begin record, and an active transaction. */
    method Start(timestamp: nat) returns (id: TxnID)
      modifies this`nextID, this`log, this`txns
      ensures Now() == Apply(old(Now()), Begin(timestamp)) && id == old(nextID) + 1
    {
      nextID := nextID + 1;
      id := nextID;
      var lsn := |log| + 1;
      AppendRecord(BeginRec(lsn, id, 0, timestamp));
      txns := txns[id := Txn([], 0, lsn, 0, Active, false, [])];
    }

    /** Begin a transaction, unless as many as allowed are active; then not even an id is used up. */
    method BeginTxn(timestamp: nat) returns (res: Outcome, id: TxnID)
      requires Valid()
      modifies this
      ensures Valid()
      ensures res == if maxActive > 0 && |old(txns)| >= maxActive then TooManyTransactions else Ok
      ensures res == Ok ==> Now() == Apply(old(Now()), Begin(timestamp)) && id == old(nextID) + 1
      ensures res == Ok ==> log == old(log) + [BeginRec(|log|, id, 0, timestamp)] && txns.Keys == old(txns).Keys + {id}
      ensures res == TooManyTransactions ==> Now() == old(Now())
    {
      res, id := Ok, 0;
      if maxActive > 0 && |txns| >= maxActive {
        return TooManyTransactions, 0;
      }
      TidyBegin(Now(), timestamp);
      id := Start(timestamp);
    }

    /** Lock the row or give up; then log the write, remember how to undo it, and do it. It gives up
        exactly when another active transaction wrote the row. */
    method TwoPLWrite(id: TxnID, row: Row, op: Byte, value: Bytes) returns (res: Outcome)
      requires Valid() && id in txns && op <= OP_DELETE
      modifies this
      ensures Valid()
      ensures res == if WrittenByAnother(old(Now()), id, row) then LockTimeout else Ok
      ensures res == LockTimeout ==> Now() == old(Now())
      ensures res == Ok ==> Now() == AfterWrite(old(Now()).(locks := old(locks)[row := id]), id, row, op, value)
      ensures res == Ok ==> catalog == (if op == OP_DELETE then old(catalog) - {row} else old(catalog)[row := value])
      ensures res == Ok ==>
                && |log| == |old(log)| + 1 && log[..|old(log)|] == old(log)
                && log[|old(log)|] == WriteRec(|log|, id, old(txns)[id].lastLSN, old(txns)[id].lastLSN, op, row,
                                               if row in old(catalog) then old(catalog)[row] else NO_VALUES,
                                               if op == OP_DELETE then [] else value)
    {
      LockedByWriter(Now(), id, row);
      if row in locks && locks[row] != id {
        return LockTimeout;
      }
      TidyWrite(Now(), id, row, op, value);
      locks := locks[row := id];
      WriteLocked(id, row, op, value);
      res := Ok;
    }

    /** Write a row that is locked already. */
    method WriteLocked(id: TxnID, row: Row, op: Byte, value: Bytes)
      requires id in txns && op <= OP_DELETE
      modifies this`log, this`txns, this`catalog
      ensures Now() == AfterWrite(old(Now()), id, row, op, value)
    {
      var before := Get(catalog, row);
      var t := txns[id];
      var lsn := |log| + 1;
      AppendRecord(WriteRec(lsn, id, t.lastLSN, t.lastLSN, op, row,
                            if before.Some? then before.value else NO_VALUES,
                            if op == OP_DELETE then [] else value));
      txns := txns[id := t.(lastLSN := lsn, undo := t.undo + [UndoEntry(op, row, before, lsn)], left := |t.undo| + 1)];
      if op == OP_DELETE {
        catalog := catalog - {row};
      } else {
        catalog := catalog[row := value];
      }
    }

    /** Release what `id` holds, in any order. */
    method ReleaseAllLocks(id: TxnID)
      modifies this`locks
      ensures locks == Unheld(old(locks), id)
      ensures forall r :: r in locks <==> r in old(locks) && old(locks)[r] != id
      ensures forall r | r in locks :: locks[r] == old(locks)[r]
    {
      var held := set r | r in locks && locks[r] == id;
      while held != {}
        invariant held <= old(locks).Keys && forall r | r in held :: old(locks)[r] == id
        invariant locks == map r | r in old(locks) && (r in held || old(locks)[r] != id) :: old(locks)[r]
        decreases held
      {
        var row :| row in held;
        locks := locks - {row};
        held := held - {row};
      }
    }

    method CommitActive(id: TxnID)
      requires In(Now(), id, Active)
      modifies this`log, this`txns, this`committed, this`locks
      ensures Now() == AfterCommit(old(Now()), id)
    {
      AppendRecord(CommitRec(|log| + 1, id, txns[id].lastLSN));
      txns := txns - {id};
      committed := committed + {id};
      ReleaseAllLocks(id);
    }

    /** Commit an active transaction and release its locks; answer for finished ones from the
        committed and aborted sets. */
    method CommitTxn(id: TxnID) returns (res: Outcome)
      requires Valid()
      modifies this
      ensures Valid()
      ensures id in old(txns) ==> res == Ok && In(old(Now()), id, Active) && Now() == AfterCommit(old(Now()), id)
      ensures forall r, x :: Owns(Now(), x, r) <==> x != id && Owns(old(Now()), x, r)
      ensures id in old(txns) ==>
                && log == old(log) + [CommitRec(|log|, id, old(txns)[id].lastLSN)]
                && txns == old(txns) - {id} && committed == old(committed) + {id} && catalog == old(catalog)
      ensures id !in old(txns) ==>
                && Now() == old(Now())
                && res == (if id in aborted then TxnAborted else if id in committed then Ok else TxnNotFound)
    {
      if id !in txns {
        EndedHoldsNothing(Now(), id);
        if id in aborted {
          return TxnAborted;
        }
        if id in committed {
          return Ok;
        }
        return TxnNotFound;
      }
      assert HoldsWritten(Now(), id);
      TidyCommit(Now(), id);
      UnheldFrees(Now(), id, AfterCommit(Now(), id));
      CommitActive(id);
      res := Ok;
    }

    /** Log the compensation of the newest entry not undone yet, then put its before-image back. */
    method UndoNewest(id: TxnID)
      requires Enabled(Now(), UndoNext(id))
      modifies this`catalog, this`log, this`txns
      ensures Now() == AfterUndo(old(Now()), id)
      ensures var t := old(txns)[id];
              var e := t.undo[t.left - 1];
              && log == old(log) + [CLRRec(|log|, id, if t.lastCLR == 0 then e.lsn else t.lastCLR,
                                           if t.left - 1 > Base(t) then t.undo[t.left - 2].lsn else 0)]
              && catalog == (if e.op == OP_INSERT then old(catalog) - {e.row}
                             else if e.before.Some? then old(catalog)[e.row := e.before.value] else old(catalog))
    {
      var t := txns[id];
      var e := t.undo[t.left - 1];
      var prev := if t.lastCLR == 0 then e.lsn else t.lastCLR;
      var undoNext := if t.left - 1 > Base(t) then t.undo[t.left - 2].lsn else 0;
      var lsn := |log| + 1;
      AppendRecord(CLRRec(lsn, id, prev, undoNext));
      txns := txns[id := t.(left := t.left - 1, lastCLR := lsn, rolledBack := t.rolledBack || t.phase.RollingBack?)];
      if e.op == OP_INSERT {
        catalog := catalog - {e.row};
      } else if e.before.Some? {
        catalog := catalog[e.row := e.before.value];
      }
    }

    /** Undo down to the base of the undo in progress. */
    method ApplyUndoEntries(id: TxnID)
      requires InUndo(Now(), id)
      modifies this`catalog, this`log, this`txns
      ensures Now() == Unwound(old(Now()), id)
    {
      while txns[id].left > Base(txns[id])
        invariant InUndo(Now(), id) && Unwound(Now(), id) == Unwound(old(Now()), id)
        decreases txns[id].left
      {
        UnwoundOnce(Now(), id);
        UndoNewest(id);
      }
      UnwoundDone(Now(), id);
    }

    method MarkAborted(id: TxnID)
      requires In(Now(), id, Active)
      modifies this`txns, this`aborted
      ensures Now() == Apply(old(Now()), StartAbort(id))
    {
      txns := txns[id := txns[id].(phase := Aborting)];
      aborted := aborted + {id};
    }

    method LogAbort(id: TxnID)
      requires Enabled(Now(), EndAbort(id))
      modifies this`txns, this`log
      ensures Now() == Apply(old(Now()), EndAbort(id))
    {
      var prev := if txns[id].lastCLR != 0 then txns[id].lastCLR else txns[id].lastLSN;
      AppendRecord(AbortRec(|log| + 1, id, prev));
      txns := txns - {id};
    }

    /** The order of an abort: marked, undone, unlocked, logged. */
    method AbortActive(id: TxnID)
      requires AtRest(Now(), id)
      modifies this
      ensures Now() == AfterAbort(old(Now()), id)
    {
      AbortIs(Now(), id);
      MarkAborted(id);
      ApplyUndoEntries(id);
      ReleaseAllLocks(id);
      LogAbort(id);
    }

    /** Roll an active transaction back and release its locks. */
    method Abort(id: TxnID) returns (res: Outcome)
      requires Valid()
      modifies this
      ensures Valid()
      ensures id in old(txns) ==> res == Ok && AtRest(old(Now()), id) && Now() == AfterAbort(old(Now()), id)
      ensures forall r, x :: Owns(Now(), x, r) <==> x != id && Owns(old(Now()), x, r)
      ensures id !in old(txns) ==> Now() == old(Now()) && res == if id in committed then TxnCommitted else Ok
    {
      if id !in txns {
        EndedHoldsNothing(Now(), id);
        if id in committed {
          return TxnCommitted;
        }
        return Ok;
      }
      assert HoldsWritten(Now(), id);
      TidyAbort(Now(), id);
      UnheldFrees(Now(), id, AfterAbort(Now(), id));
      AbortActive(id);
      res := Ok;
    }

    method CreateSavepoint(id: TxnID, name: string) returns (res: Outcome)
      requires Valid()
      modifies this`txns
      ensures Valid()
      ensures res == if id in old(txns) then Ok else TxnNotFound
      ensures id in old(txns) ==>
                Enabled(old(Now()), SetSavepoint(id, name)) && Now() == Apply(old(Now()), SetSavepoint(id, name))
      ensures id !in old(txns) ==> Now() == old(Now())
    {
      if id !in txns {
        return TxnNotFound;
      }
      assert HoldsWritten(Now(), id);
      TidySavepoint(Now(), id, name);
      var t := txns[id];
      txns := txns[id := t.(savepoints := t.savepoints + [Savepoint(name, |t.undo|)])];
      res := Ok;
    }

    /** The newest savepoint called `name`. */
    method FindSavepoint(sps: seq<Savepoint>, name: string) returns (position: Option<nat>)
      ensures position == Named(sps, name)
      ensures position == None <==> forall i | 0 <= i < |sps| :: sps[i].name != name
      ensures position.Some? ==> exists i :: LastNamed(sps, name, i) && sps[i].position == position.value
    {
      NamedMeans(sps, name);
      var i := |sps|;
      assert sps[..i] == sps;
      while i > 0 && sps[i - 1].name != name
        invariant 0 <= i <= |sps| && Named(sps[..i], name) == Named(sps, name)
      {
        i := i - 1;
        assert sps[..i + 1][..i] == sps[..i];
      }
      position := if i == 0 then None else Some(sps[i - 1].position);
    }

    method TruncateUndo(id: TxnID)
      requires Enabled(Now(), EndRollBack(id))
      modifies this`txns
      ensures Now() == Apply(old(Now()), EndRollBack(id))
    {
      var t := txns[id];
      var p := t.phase.position;
      var undo := if p < |t.undo| then t.undo[..p] else t.undo;
      txns := txns[id := t.(undo := undo, left := |undo|, lastCLR := 0, phase := Active)];
    }

    method MarkRollingBack(id: TxnID, position: nat)
      requires In(Now(), id, Active)
      modifies this`txns
      ensures Now() == Apply(old(Now()), StartRollBack(id, position))
    {
      txns := txns[id := txns[id].(phase := RollingBack(position))];
    }

    /** Undo the entries from a position on and drop them. */
    method RollBackTo(id: TxnID, position: nat)
      requires AtRest(Now(), id)
      modifies this`txns, this`catalog, this`log
      ensures Now() == AfterRollBack(old(Now()), id, position)
    {
      RollBackIs(Now(), id, position);
      MarkRollingBack(id, position);
      ApplyUndoEntries(id);
      TruncateUndo(id);
    }

    /** Undo back to the newest savepoint of that name. */
    method RollbackToSavepoint(id: TxnID, name: string) returns (res: Outcome)
      requires Valid()
      modifies this`txns, this`catalog, this`log
      ensures Valid()
      ensures id !in old(txns) ==> res == TxnNotFound && Now() == old(Now())
      ensures id in old(txns) && Named(old(txns)[id].savepoints, name) == None ==>
                res == SavepointNotFound && Now() == old(Now())
      ensures id in old(txns) && Named(old(txns)[id].savepoints, name).Some? ==>
                && res == Ok && AtRest(old(Now()), id)
                && Now() == AfterRollBack(old(Now()), id, Named(old(txns)[id].savepoints, name).value)
    {
      if id !in txns {
        return TxnNotFound;
      }
      assert HoldsWritten(Now(), id);
      var found := FindSavepoint(txns[id].savepoints, name);
      if found.None? {
        return SavepointNotFound;
      }
      TidyRollBack(Now(), id, found.value);
      RollBackTo(id, found.value);
      res := Ok;
    }
  }
}
