/** Whole runs of the two-phase-locking transaction manager: the live table and restart recovery
    agree after every step, and after a crash at any byte of the log. */
module TwoPhaseRuns {
  import opened KeyOrder
  import opened Bytes
  import opened WalRecord
  import opened Recovery
  import opened UndoLog
  import opened TwoPhase

  function After(s: State, steps: seq<Step>): State {
    if steps == [] then s
    else
      var before, step := After(s, steps[..|steps| - 1]), steps[|steps| - 1];
      if Enabled(before, step) then Apply(before, step) else before
  }

  /** The state of a run after its first `i` steps. */
  function At(seed: Store, steps: seq<Step>, i: nat): State
    requires i <= |steps|
  {
    After(Initial(seed), steps[..i])
  }

  ghost predicate StepOk(seed: Store, steps: seq<Step>, i: nat)
    requires i < |steps|
  {
    Sound(At(seed, steps, i), steps[i])
  }

  ghost predicate Run(seed: Store, steps: seq<Step>) {
    forall i: nat | i < |steps| :: StepOk(seed, steps, i)
  }

  lemma Unfold(seed: Store, steps: seq<Step>, i: nat)
    requires i < |steps|
    ensures var s := At(seed, steps, i);
            At(seed, steps, i + 1) == if Enabled(s, steps[i]) then Apply(s, steps[i]) else s
  {
    assert steps[..i + 1][..i] == steps[..i];
  }

  lemma NextAt(seed: Store, steps: seq<Step>, i: nat)
    requires Run(seed, steps) && i < |steps|
    ensures Sound(At(seed, steps, i), steps[i])
    ensures At(seed, steps, i + 1) == Apply(At(seed, steps, i), steps[i])
  {
    assert StepOk(seed, steps, i);
    Unfold(seed, steps, i);
  }

  lemma InitialInv(seed: Store)
    ensures Inv(Initial(seed))
  {
    var s := Initial(seed);
    forall r
      ensures RowOk(s, r)
    {
      assert Recovered(s) == seed;
    }
  }

  lemma {:induction false} RunInv(seed: Store, steps: seq<Step>, i: nat)
    requires Run(seed, steps) && i <= |steps|
    ensures Inv(At(seed, steps, i)) && At(seed, steps, i).seed == seed
  {
    if i == 0 {
      InitialInv(seed);
    } else {
      RunInv(seed, steps, i - 1);
      NextAt(seed, steps, i - 1);
      InvKept(At(seed, steps, i - 1), steps[i - 1]);
      LogAfter(At(seed, steps, i - 1), steps[i - 1]);
    }
  }

  // ---------------------------------------------------------------- undoing what is in flight

  ghost predicate Undoable(s: State, ids: seq<TxnID>) {
    forall i | 0 <= i < |ids| :: ids[i] in s.txns && s.txns[ids[i]].left <= |s.txns[ids[i]].undo|
  }

  /** Roll back the given in-flight transactions one after the other. */
  ghost function RollBackAll(s: State, c: Store, ids: seq<TxnID>): Store
    requires Undoable(s, ids)
    decreases |ids|
  {
    if ids == [] then c
    else
      assert ids[0] in s.txns;
      RollBackAll(s, UndoAll(c, Pending(s.txns[ids[0]])), ids[1..])
  }

  /** `ids` lists every in-flight transaction once. */
  ghost predicate Lists(s: State, ids: seq<TxnID>) {
    && (forall i | 0 <= i < |ids| :: ids[i] in s.txns)
    && (forall id | id in s.txns :: id in ids)
    && (forall i, j | 0 <= i < j < |ids| :: ids[i] != ids[j])
  }

  lemma {:induction false} OthersLeaveRow(s: State, c: Store, ids: seq<TxnID>, r: Row)
    requires Inv(s) && Undoable(s, ids) && (HeldInFlight(s, r) ==> s.locks[r] !in ids)
    ensures Get(RollBackAll(s, c, ids), r) == Get(c, r)
    decreases |ids|
  {
    if ids != [] {
      var t := s.txns[ids[0]];
      assert TxnOk(s, ids[0]);
      UndoUntouched(c, Pending(t), r);
      OthersLeaveRow(s, UndoAll(c, Pending(t)), ids[1..], r);
    }
  }

  lemma {:induction false} HolderSettles(s: State, c: Store, ids: seq<TxnID>, r: Row)
    requires Inv(s) && Undoable(s, ids) && HeldInFlight(s, r) && s.locks[r] in ids
    requires forall i, j | 0 <= i < j < |ids| :: ids[i] != ids[j]
    requires Get(c, r) == Get(s.catalog, r)
    ensures Get(RollBackAll(s, c, ids), r) == Get(Recovered(s), r)
    decreases |ids|
  {
    var t, rest := s.txns[ids[0]], ids[1..];
    assert TxnOk(s, ids[0]) && RowOk(s, r);
    if ids[0] == s.locks[r] {
      assert Pending(t)[0..] == Pending(t);
      UndoLocal(c, s.catalog, Pending(t), r);
      OthersLeaveRow(s, UndoAll(c, Pending(t)), rest, r);
    } else {
      UndoUntouched(c, Pending(t), r);
      HolderSettles(s, UndoAll(c, Pending(t)), rest, r);
    }
  }

  /** In every reachable state, rolling back the in-flight transactions in any order gives the table
      that redo of the committed writes gives. */
  lemma RolledBackIsRecovered(s: State, ids: seq<TxnID>)
    requires Inv(s) && Lists(s, ids)
    ensures Undoable(s, ids) && RollBackAll(s, s.catalog, ids) == Recovered(s)
  {
    forall i | 0 <= i < |ids|
      ensures ids[i] in s.txns && s.txns[ids[i]].left <= |s.txns[ids[i]].undo|
    {
      assert TxnOk(s, ids[i]);
    }
    forall r
      ensures Get(RollBackAll(s, s.catalog, ids), r) == Get(Recovered(s), r)
    {
      assert RowOk(s, r);
      if HeldInFlight(s, r) {
        HolderSettles(s, s.catalog, ids, r);
      } else {
        OthersLeaveRow(s, s.catalog, ids, r);
      }
    }
    SameStore(RollBackAll(s, s.catalog, ids), Recovered(s));
  }

  // ---------------------------------------------------------------- what recovery reads

  /** The analysis pass over a reachable log finds exactly the committed transactions. */
  lemma WinnersAreCommitted(s: State)
    requires Inv(s)
    ensures PerTxnOrdered(s.log) && WithStatus(Analyse(s.log), Won) == s.committed
    ensures WithStatus(Analyse(s.log), Live) == s.txns.Keys
    ensures WithStatus(Analyse(s.log), Lost) == s.aborted - s.txns.Keys
  {
    var att := Analyse(s.log);
    forall id
      ensures id in WithStatus(att, Won) <==> id in s.committed
      ensures id in WithStatus(att, Live) <==> id in s.txns
      ensures id in WithStatus(att, Lost) <==> id in s.aborted - s.txns.Keys
    {
      assert Analysed(att, id) == Standing(s, id);
    }
  }

  /** Restart: read the log file, analyse it, redo it into `seed`. */
  method Restart(file: Bytes, dec: Decoder, seed: Store) returns (st: Store)
    ensures PerTxnOrdered(Scan(file, dec)) ==> st == Rebuilt(seed, Scan(file, dec))
  {
    var recs := ReadAllRecordsFrom(file, 0, dec);
    SinceAll(Scan(file, dec), 0);
    var res := RunRecovery(recs);
    st := ApplyRedoOps(res.redoOps, seed);
  }

  function Rebuilt(seed: Store, recs: seq<LogRecord>): Store {
    Replay(seed, recs, WithStatus(Analyse(recs), Won))
  }

  /** Main result: at every step of every run, redoing the log gives the same table as rolling back
      every in-flight transaction in the live catalog, in any order. */
  lemma LiveAgreesWithRecovery(seed: Store, steps: seq<Step>, i: nat, ids: seq<TxnID>)
    requires Run(seed, steps) && i <= |steps| && Lists(At(seed, steps, i), ids)
    ensures PerTxnOrdered(At(seed, steps, i).log) && Undoable(At(seed, steps, i), ids)
    ensures Rebuilt(seed, At(seed, steps, i).log) == RollBackAll(At(seed, steps, i), At(seed, steps, i).catalog, ids)
  {
    RunInv(seed, steps, i);
    WinnersAreCommitted(At(seed, steps, i));
    RolledBackIsRecovered(At(seed, steps, i), ids);
  }

  // ---------------------------------------------------------------- crashes

  lemma LogGrows(seed: Store, steps: seq<Step>, i: nat)
    requires Run(seed, steps) && i < |steps|
    ensures At(seed, steps, i).log <= At(seed, steps, i + 1).log
    ensures |At(seed, steps, i + 1).log| <= |At(seed, steps, i).log| + 1
    ensures At(seed, steps, i).committed <= At(seed, steps, i + 1).committed
  {
    NextAt(seed, steps, i);
    LogAfter(At(seed, steps, i), steps[i]);
  }

  lemma {:induction false} LaterLog(seed: Store, steps: seq<Step>, i: nat, j: nat)
    requires Run(seed, steps) && i <= j <= |steps|
    ensures At(seed, steps, i).log <= At(seed, steps, j).log
    ensures At(seed, steps, i).committed <= At(seed, steps, j).committed
    decreases j - i
  {
    if i < j {
      LaterLog(seed, steps, i, j - 1);
      LogGrows(seed, steps, j - 1);
    }
  }

  /** Every prefix of the log is the log after some step: the last one that logged no more. */
  lemma {:induction false} LogAtStep(seed: Store, steps: seq<Step>, j: nat, n: nat) returns (i: nat)
    requires Run(seed, steps) && j <= |steps| && n <= |At(seed, steps, j).log|
    ensures i <= j && At(seed, steps, i).log == At(seed, steps, j).log[..n]
    ensures forall m: nat | m <= j && |At(seed, steps, m).log| <= n :: m <= i
    decreases j
  {
    var log := At(seed, steps, j).log;
    if n == |log| || j == 0 {
      i := j;
      assert log[..n] == log;
    } else {
      LogGrows(seed, steps, j - 1);
      i := LogAtStep(seed, steps, j - 1, n);
      assert log[..n] == At(seed, steps, j - 1).log[..n];
    }
  }

  lemma {:induction false} LongerPrefix(recs: seq<LogRecord>, enc: Encoder, m: nat, n: nat)
    requires m <= n <= |recs|
    ensures |EncodeAll(recs[..m], enc)| <= |EncodeAll(recs[..n], enc)|
    decreases m
  {
    if m > 0 {
      assert recs[..m][1..] == recs[1..][..m - 1] && recs[..n][1..] == recs[1..][..n - 1];
      LongerPrefix(recs[1..], enc, m - 1, n - 1);
    }
  }

  /** A log file cut at byte `k`. */
  function Torn(log: seq<LogRecord>, crc: Bytes -> U32, k: nat): Bytes
    requires k <= |EncodeAll(log, EncoderOf(crc))|
  {
    EncodeAll(log, EncoderOf(crc))[..k]
  }

  /** Crash anywhere: cut the log file of a run at any byte. The scan finds the log of some step of
      the run, recovery rebuilds that step's table with its in-flight transactions rolled back, and
      every transaction whose commit record was wholly on disk is among the survivors. */
  lemma CrashAnywhere(seed: Store, steps: seq<Step>, crc: Bytes -> U32, k: nat) returns (i: nat)
    requires Run(seed, steps)
    requires forall rec | rec in At(seed, steps, |steps|).log :: Encodable(rec)
    requires k <= |EncodeAll(At(seed, steps, |steps|).log, EncoderOf(crc))|
    ensures i <= |steps|
    ensures Scan(Torn(At(seed, steps, |steps|).log, crc, k), DecoderOf(crc)) == At(seed, steps, i).log
    ensures PerTxnOrdered(At(seed, steps, i).log)
    ensures forall ids | Lists(At(seed, steps, i), ids) ::
              Undoable(At(seed, steps, i), ids) &&
              Rebuilt(seed, At(seed, steps, i).log) == RollBackAll(At(seed, steps, i), At(seed, steps, i).catalog, ids)
    ensures forall m: nat | m <= |steps| && |EncodeAll(At(seed, steps, m).log, EncoderOf(crc))| <= k ::
              At(seed, steps, m).committed <= At(seed, steps, i).committed
  {
    var log, enc := At(seed, steps, |steps|).log, EncoderOf(crc);
    TornTail(log, crc, k);
    var n := Whole(log, enc, k);
    WholeMeans(log, enc, k);
    i := LogAtStep(seed, steps, |steps|, n);
    RunInv(seed, steps, i);
    WinnersAreCommitted(At(seed, steps, i));
    forall ids | Lists(At(seed, steps, i), ids)
      ensures Undoable(At(seed, steps, i), ids)
      ensures Rebuilt(seed, At(seed, steps, i).log) == RollBackAll(At(seed, steps, i), At(seed, steps, i).catalog, ids)
    {
      LiveAgreesWithRecovery(seed, steps, i, ids);
    }
    forall m: nat | m <= |steps| && |EncodeAll(At(seed, steps, m).log, enc)| <= k
      ensures At(seed, steps, m).committed <= At(seed, steps, i).committed
    {
      OnDisk(seed, steps, enc, k, m);
      LaterLog(seed, steps, m, i);
    }
  }

  /** Damage anywhere: from record `n` on the log file holds a record whose checksum is wrong, and
      anything after it. Recovery rebuilds the table of the step that had logged `n` records, with its
      in-flight transactions rolled back. */
  lemma DamageAnywhere(seed: Store, steps: seq<Step>, crc: Bytes -> U32, n: nat, e: Bytes, rest: Bytes) returns (i: nat)
    requires Run(seed, steps) && n <= |At(seed, steps, |steps|).log| && Damaged(e, crc)
    requires forall rec | rec in At(seed, steps, |steps|).log :: Encodable(rec)
    ensures i <= |steps| && |At(seed, steps, i).log| == n && PerTxnOrdered(At(seed, steps, i).log)
    ensures var file := EncodeAll(At(seed, steps, |steps|).log[..n], EncoderOf(crc)) + (e + rest);
            Scan(file, DecoderOf(crc)) == At(seed, steps, i).log
    ensures forall ids | Lists(At(seed, steps, i), ids) ::
              Undoable(At(seed, steps, i), ids) &&
              Rebuilt(seed, At(seed, steps, i).log) == RollBackAll(At(seed, steps, i), At(seed, steps, i).catalog, ids)
  {
    var log := At(seed, steps, |steps|).log;
    i := LogAtStep(seed, steps, |steps|, n);
    DamageStops(log[..n], crc, e, rest);
    RunInv(seed, steps, i);
    WinnersAreCommitted(At(seed, steps, i));
    forall ids | Lists(At(seed, steps, i), ids)
      ensures Undoable(At(seed, steps, i), ids)
      ensures Rebuilt(seed, At(seed, steps, i).log) == RollBackAll(At(seed, steps, i), At(seed, steps, i).catalog, ids)
    {
      LiveAgreesWithRecovery(seed, steps, i, ids);
    }
  }

  lemma OnDisk(seed: Store, steps: seq<Step>, enc: Encoder, k: nat, m: nat)
    requires Run(seed, steps) && m <= |steps|
    requires |EncodeAll(At(seed, steps, m).log, enc)| <= k
    ensures |At(seed, steps, m).log| <= Whole(At(seed, steps, |steps|).log, enc, k)
  {
    var log, some := At(seed, steps, |steps|).log, At(seed, steps, m).log;
    var n := Whole(log, enc, k);
    WholeMeans(log, enc, k);
    LaterLog(seed, steps, m, |steps|);
    if |some| > n {
      assert log[..|some|] == some;
      LongerPrefix(log, enc, n + 1, |some|);
    }
  }

  // ---------------------------------------------------------------- undo positions and savepoints

  ghost predicate HeldThroughout(seed: Store, steps: seq<Step>, i: nat, j: nat, id: TxnID, p: nat, r: Row)
    requires i <= j <= |steps|
  {
    forall k: nat | i <= k <= j :: Holding(At(seed, steps, k), id, p, r)
  }

  /** While a transaction holds a row and does not undo below position `p`, undoing from its log's
      end back to `p` would give the row the same value. */
  lemma {:induction false} UndoToPosition(seed: Store, steps: seq<Step>, i: nat, j: nat, id: TxnID, p: nat, r: Row)
    requires Run(seed, steps) && i <= j <= |steps| && HeldThroughout(seed, steps, i, j, id, p, r)
    ensures Holding(At(seed, steps, i), id, p, r) && Holding(At(seed, steps, j), id, p, r)
    ensures Settled(At(seed, steps, j), id, p, r) == Settled(At(seed, steps, i), id, p, r)
    decreases j - i
  {
    assert Holding(At(seed, steps, i), id, p, r) && Holding(At(seed, steps, j), id, p, r);
    if i < j {
      UndoToPosition(seed, steps, i, j - 1, id, p, r);
      RunInv(seed, steps, j - 1);
      NextAt(seed, steps, j - 1);
      SettledStep(At(seed, steps, j - 1), steps[j - 1], id, p, r);
    }
  }

  lemma SettledAtEnd(s: State, id: TxnID, p: nat, r: Row)
    requires Holding(s, id, p, r) && s.txns[id].left == p
    ensures Settled(s, id, p, r) == Get(s.catalog, r)
  {
    assert Pending(s.txns[id])[p..] == [];
  }

  /** Undoing back to position `p`, as a savepoint rollback or a full abort (`p == 0`) does, gives
      every row held since the log had length `p` the value it had then. */
  lemma UndoRestores(seed: Store, steps: seq<Step>, i: nat, j: nat, id: TxnID, p: nat, r: Row)
    requires Run(seed, steps) && i <= j <= |steps| && HeldThroughout(seed, steps, i, j, id, p, r)
    requires id in At(seed, steps, i).txns && At(seed, steps, i).txns[id].left == p
    requires id in At(seed, steps, j).txns && At(seed, steps, j).txns[id].left == p
    ensures Get(At(seed, steps, j).catalog, r) == Get(At(seed, steps, i).catalog, r)
  {
    UndoToPosition(seed, steps, i, j, id, p, r);
    SettledAtEnd(At(seed, steps, i), id, p, r);
    SettledAtEnd(At(seed, steps, j), id, p, r);
  }

  /** A row locked later is restored to the value it had when it was locked. */
  lemma UndoRestoresLocked(seed: Store, steps: seq<Step>, i: nat, j: nat, id: TxnID, p: nat, r: Row)
    requires Run(seed, steps) && i < j <= |steps| && HeldThroughout(seed, steps, i + 1, j, id, p, r)
    requires r !in At(seed, steps, i).locks
    requires id in At(seed, steps, j).txns && At(seed, steps, j).txns[id].left == p
    ensures Get(At(seed, steps, j).catalog, r) == Get(At(seed, steps, i).catalog, r)
  {
    var s, s' := At(seed, steps, i), At(seed, steps, i + 1);
    NextAt(seed, steps, i);
    RunInv(seed, steps, i);
    assert Holding(s', id, p, r);
    assert steps[i] == Lock(id, r) && TxnOk(s, id);
    assert Untouched(Pending(s.txns[id])[p..], r);
    UndoUntouched(s.catalog, Pending(s.txns[id])[p..], r);
    UndoToPosition(seed, steps, i + 1, j, id, p, r);
    SettledAtEnd(At(seed, steps, j), id, p, r);
  }

  // ---------------------------------------------------------------- commit after a savepoint rollback

  /** Without a savepoint rollback every commit is sound. */
  lemma CommitSound(s: State, id: TxnID)
    requires Inv(s) && In(s, id, Active) && !s.txns[id].rolledBack
    ensures Sound(s, Commit(id))
  {
    assert TxnOk(s, id);
  }

  /** The run that shows why: insert a row, roll back to before the insert, commit. */
  function RolledBackInsert(timestamp: nat, row: Row, value: Bytes): seq<Step> {
    [Begin(timestamp), Lock(1, row), Write(1, row, OP_INSERT, value),
     StartRollBack(1, 0), UndoNext(1), EndRollBack(1)]
  }

  lemma FirstThree(seed: Store, timestamp: nat, row: Row, value: Bytes)
    requires row !in seed
    ensures var steps := RolledBackInsert(timestamp, row, value);
            var s := At(seed, steps, 3);
            && (forall i: nat | i < 3 :: StepOk(seed, steps, i))
            && s.catalog == seed[row := value] && s.txns.Keys == {1}
            && s.txns[1] == Txn([UndoEntry(OP_INSERT, row, None, 2)], 1, 2, 0, Active, false, [])
            && s.log == [BeginRec(1, 1, 0, timestamp), WriteRec(2, 1, 1, 1, OP_INSERT, row, NO_VALUES, value)]
  {
    var steps := RolledBackInsert(timestamp, row, value);
    assert At(seed, steps, 0) == Initial(seed);
    Unfold(seed, steps, 0);
    Unfold(seed, steps, 1);
    var s2 := At(seed, steps, 2);
    assert In(s2, 1, Active) && Owns(s2, 1, row) && s2.catalog == seed;
    Unfold(seed, steps, 2);
    assert StepOk(seed, steps, 0) && StepOk(seed, steps, 1) && StepOk(seed, steps, 2);
  }

  lemma NextThree(seed: Store, timestamp: nat, row: Row, value: Bytes)
    requires row !in seed
    ensures var steps := RolledBackInsert(timestamp, row, value);
            var s := At(seed, steps, 6);
            && Run(seed, steps) && row !in s.catalog && s.txns.Keys == {1} && In(s, 1, Active)
            && s.log == [BeginRec(1, 1, 0, timestamp), WriteRec(2, 1, 1, 1, OP_INSERT, row, NO_VALUES, value),
                         CLRRec(3, 1, 2, 0)]
  {
    var steps := RolledBackInsert(timestamp, row, value);
    FirstThree(seed, timestamp, row, value);
    Unfold(seed, steps, 3);
    Unfold(seed, steps, 4);
    Unfold(seed, steps, 5);
    assert StepOk(seed, steps, 3) && StepOk(seed, steps, 4) && StepOk(seed, steps, 5);
  }

  /** Committing after a savepoint rollback brings the rolled-back insert back at the next restart. */
  lemma RolledBackWriteReturns(seed: Store, timestamp: nat, row: Row, value: Bytes)
    requires row !in seed
    ensures var steps := RolledBackInsert(timestamp, row, value);
            Run(seed, steps) && In(At(seed, steps, 6), 1, Active)
    ensures var s := Apply(At(seed, RolledBackInsert(timestamp, row, value), 6), Commit(1));
            s.txns == map[] && row !in s.catalog && Get(Recovered(s), row) == Some(value)
  {
    var steps := RolledBackInsert(timestamp, row, value);
    NextThree(seed, timestamp, row, value);
    var s := At(seed, steps, 6);
    RunInv(seed, steps, 6);
    assert s.log[1].WriteRec? && s.log[1].txn == 1 && s.log[1].row == row;
    CommittedRow(s, 1, row);
    assert s.log == s.log[..2] + [s.log[2]] && s.log[..2] == s.log[..1] + [s.log[1]];
    LastOnStep(s.log[..2], s.log[2], row);
    LastOnStep(s.log[..1], s.log[1], row);
  }
}
