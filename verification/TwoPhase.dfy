/** Transactions under strict two-phase locking with a write-ahead log: begin, lock, write, commit,
    rollback to a savepoint, abort and lock release, as steps of a state machine that may interleave
    in any order. */
module TwoPhase {
  import opened KeyOrder
  import opened Bytes
  import opened WalRecord
  import opened Recovery
  import opened UndoLog

  /** `RollingBack` is inside a rollback to a savepoint, `Aborting` inside an abort. */
  datatype Phase = Active | RollingBack(position: nat) | Aborting

  datatype Savepoint = Savepoint(name: string, position: nat)

  /** `left` entries of `undo` are not undone yet. `lastLSN` is the last write or begin record,
      `lastCLR` the last compensation record of the undo in progress (0: none). `rolledBack` records
      whether a savepoint rollback ever undid something. */
  datatype Txn = Txn(
    undo: seq<UndoEntry>, left: nat, lastLSN: LSN, lastCLR: LSN,
    phase: Phase, rolledBack: bool, savepoints: seq<Savepoint>)

  /** `txns` holds every transaction whose commit or abort is not finished; `aborted` those marked
      aborted. */
  datatype State = State(
    seed: Store, catalog: Store, locks: map<Row, TxnID>, txns: map<TxnID, Txn>,
    committed: set<TxnID>, aborted: set<TxnID>, nextID: TxnID, log: seq<LogRecord>)

  datatype Step =
    | Begin(timestamp: nat)
    | Lock(id: TxnID, row: Row)
    | Write(id: TxnID, row: Row, op: Byte, value: Bytes)
    | Commit(id: TxnID)
    | SetSavepoint(id: TxnID, name: string)
    | StartRollBack(id: TxnID, position: nat)
    | StartAbort(id: TxnID)
    | UndoNext(id: TxnID)
    | EndRollBack(id: TxnID)
    | EndAbort(id: TxnID)
    | Unlock(id: TxnID, row: Row)

  /** The encoding of an absent row image. */
  const NO_VALUES: Bytes := [0, 0]

  function Initial(seed: Store): State {
    State(seed, seed, map[], map[], {}, {}, 0, [])
  }

  function NextLSN(s: State): LSN {
    |s.log| + 1
  }

  predicate In(s: State, id: TxnID, phase: Phase) {
    id in s.txns && s.txns[id].phase == phase
  }

  predicate Undoing(s: State, id: TxnID) {
    id in s.txns && s.txns[id].phase != Active
  }

  predicate Owns(s: State, id: TxnID, row: Row) {
    row in s.locks && s.locks[row] == id
  }

  /** The undo position an undo in progress works down to. */
  function Base(t: Txn): nat {
    if t.phase.RollingBack? then t.phase.position else 0
  }

  predicate Enabled(s: State, step: Step) {
    match step
    case Begin(_) => true
    case Lock(id, row) => In(s, id, Active) && (row in s.locks ==> s.locks[row] == id)
    case Write(id, row, op, _) => In(s, id, Active) && Owns(s, id, row) && Reversible(s.catalog, op, row)
    case Commit(id) => In(s, id, Active)
    case SetSavepoint(id, _) => In(s, id, Active)
    case StartRollBack(id, _) => In(s, id, Active)
    case StartAbort(id) => In(s, id, Active)
    case UndoNext(id) => Undoing(s, id) && Base(s.txns[id]) < s.txns[id].left <= |s.txns[id].undo|
    case EndRollBack(id) => id in s.txns && s.txns[id].phase.RollingBack? && s.txns[id].left <= Base(s.txns[id])
    case EndAbort(id) => In(s, id, Aborting) && s.txns[id].left == 0
    case Unlock(id, row) => Owns(s, id, row) && (id in s.txns ==> In(s, id, Aborting) && s.txns[id].left == 0)
  }

  /** The log record of a write. */
  function Logged(s: State, id: TxnID, row: Row, op: Byte, value: Bytes): LogRecord
    requires id in s.txns
  {
    var prev, before := s.txns[id].lastLSN, Get(s.catalog, row);
    WriteRec(NextLSN(s), id, prev, prev, op, row,
             if before.Some? then before.value else NO_VALUES,
             if op == OP_DELETE then [] else value)
  }

  function AfterWrite(s: State, id: TxnID, row: Row, op: Byte, value: Bytes): State
    requires id in s.txns
  {
    var t, lsn := s.txns[id], NextLSN(s);
    s.(log := s.log + [Logged(s, id, row, op, value)],
       txns := s.txns[id := t.(undo := t.undo + [EntryFor(s.catalog, op, row, lsn)],
                               left := |t.undo| + 1, lastLSN := lsn)],
       catalog := WriteRow(s.catalog, op, row, value))
  }

  /** The compensation record for the entry undone next: chained to the previous one (or to the
      write it compensates), and pointing at the entry to undo after it. */
  function Compensation(t: Txn, id: TxnID, lsn: LSN): LogRecord
    requires Base(t) < t.left <= |t.undo|
  {
    var prev := if t.lastCLR == 0 then t.undo[t.left - 1].lsn else t.lastCLR;
    var undoNext := if t.left - 1 > Base(t) then t.undo[t.left - 2].lsn else 0;
    CLRRec(lsn, id, prev, undoNext)
  }

  function AfterUndo(s: State, id: TxnID): State
    requires Enabled(s, UndoNext(id))
  {
    var t, lsn := s.txns[id], NextLSN(s);
    s.(log := s.log + [Compensation(t, id, lsn)],
       txns := s.txns[id := t.(left := t.left - 1, lastCLR := lsn, rolledBack := t.rolledBack || t.phase.RollingBack?)],
       catalog := UndoOne(s.catalog, t.undo[t.left - 1]))
  }

  function Truncated(t: Txn): Txn {
    var undo := if Base(t) < |t.undo| then t.undo[..Base(t)] else t.undo;
    t.(undo := undo, left := |undo|, lastCLR := 0, phase := Active)
  }

  function Apply(s: State, step: Step): State
    requires Enabled(s, step)
  {
    match step
    case Begin(timestamp) =>
      var id, lsn := s.nextID + 1, NextLSN(s);
      s.(nextID := id, txns := s.txns[id := Txn([], 0, lsn, 0, Active, false, [])],
         log := s.log + [BeginRec(lsn, id, 0, timestamp)])
    case Lock(id, row) => s.(locks := s.locks[row := id])
    case Write(id, row, op, value) => AfterWrite(s, id, row, op, value)
    case Commit(id) =>
      s.(log := s.log + [CommitRec(NextLSN(s), id, s.txns[id].lastLSN)],
         txns := s.txns - {id}, committed := s.committed + {id})
    case SetSavepoint(id, name) =>
      var t := s.txns[id];
      s.(txns := s.txns[id := t.(savepoints := t.savepoints + [Savepoint(name, |t.undo|)])])
    case StartRollBack(id, position) => s.(txns := s.txns[id := s.txns[id].(phase := RollingBack(position))])
    case StartAbort(id) => s.(txns := s.txns[id := s.txns[id].(phase := Aborting)], aborted := s.aborted + {id})
    case UndoNext(id) => AfterUndo(s, id)
    case EndRollBack(id) => s.(txns := s.txns[id := Truncated(s.txns[id])])
    case EndAbort(id) =>
      var t := s.txns[id];
      s.(log := s.log + [AbortRec(NextLSN(s), id, if t.lastCLR != 0 then t.lastCLR else t.lastLSN)],
         txns := s.txns - {id})
    case Unlock(id, row) => s.(locks := s.locks - {row})
  }

  // ---------------------------------------------------------------- invariant

  /** Entries that still have to be undone if `t` does not commit. */
  function Pending(t: Txn): seq<UndoEntry>
    requires t.left <= |t.undo|
  {
    t.undo[..t.left]
  }

  /** What restart recovery rebuilds from the log as it stands. */
  function Recovered(s: State): Store {
    Replay(s.seed, s.log, s.committed)
  }

  /** What row `r` becomes when `id` undoes its entries from position `p` on. */
  function Settled(s: State, id: TxnID, p: nat, r: Row): Option<Bytes>
    requires id in s.txns && p <= s.txns[id].left <= |s.txns[id].undo|
  {
    Get(UndoAll(s.catalog, Pending(s.txns[id])[p..]), r)
  }

  predicate HeldInFlight(s: State, r: Row) {
    r in s.locks && s.locks[r] in s.txns
  }

  /** Undoing the in-flight holder of a row, if there is one, turns it into the recovered row. */
  ghost predicate RowOk(s: State, r: Row) {
    if HeldInFlight(s, r) then
      s.txns[s.locks[r]].left <= |s.txns[s.locks[r]].undo| && Settled(s, s.locks[r], 0, r) == Get(Recovered(s), r)
    else
      Get(s.catalog, r) == Get(Recovered(s), r)
  }

  ghost predicate Wrote(log: seq<LogRecord>, id: TxnID, r: Row) {
    exists i :: 0 <= i < |log| && log[i].WriteRec? && log[i].txn == id && log[i].row == r
  }

  ghost predicate PhaseOk(t: Txn) {
    && t.left <= |t.undo|
    && (t.phase == Active ==> t.left == |t.undo| && t.lastCLR == 0)
    && (t.phase.RollingBack? ==> t.left >= Base(t) || t.left == |t.undo|)
  }

  /** The rows still to be undone are locked. */
  ghost predicate PendingLocked(s: State, id: TxnID)
    requires id in s.txns && s.txns[id].left <= |s.txns[id].undo|
  {
    forall i | 0 <= i < s.txns[id].left :: Owns(s, id, s.txns[id].undo[i].row)
  }

  ghost predicate PendingLogged(s: State, id: TxnID)
    requires id in s.txns && s.txns[id].left <= |s.txns[id].undo|
  {
    forall i | 0 <= i < s.txns[id].left :: Wrote(s.log, id, s.txns[id].undo[i].row)
  }

  /** The last write to `r` is by `id`, which holds it. */
  ghost predicate LastIsMine(s: State, id: TxnID, r: Row) {
    Owns(s, id, r) && LastOn(s.log, r).Some? && LastOn(s.log, r).value.txn == id
  }

  ghost predicate WritesMine(s: State, id: TxnID) {
    forall r | Wrote(s.log, id, r) :: LastIsMine(s, id, r)
  }

  /** Every row `id` wrote holds what its last write to it says. */
  ghost predicate WritesLive(s: State, id: TxnID) {
    forall r | Wrote(s.log, id, r) :: LastOn(s.log, r).Some? && Image(LastOn(s.log, r).value) == Get(s.catalog, r)
  }

  ghost predicate TxnOk(s: State, id: TxnID)
    requires id in s.txns
  {
    var t := s.txns[id];
    && PhaseOk(t)
    && PendingLocked(s, id)
    && PendingLogged(s, id)
    && (t.phase != Aborting ==> WritesMine(s, id))
    && (t.phase != Aborting && !t.rolledBack ==> WritesLive(s, id))
  }

  /** Records are numbered by position and belong to transactions begun. */
  ghost predicate LogNumbered(s: State) {
    && ValidOps(s.log)
    && (forall i | 0 <= i < |s.log| :: s.log[i].lsn == i + 1 && 0 < s.log[i].txn <= s.nextID)
  }

  ghost predicate IdsOk(s: State) {
    && (forall id | id in s.txns.Keys + s.committed + s.aborted :: 0 < id <= s.nextID)
    && (forall r | r in s.locks :: 0 < s.locks[r] <= s.nextID)
    && s.committed !! s.txns.Keys && s.committed !! s.aborted
    && (forall id | id in s.txns :: id in s.aborted <==> s.txns[id].phase == Aborting)
  }

  /** The analysis pass over the log finds the statuses the manager holds. */
  ghost predicate StatusOk(s: State) {
    forall id :: Analysed(Analyse(s.log), id) == Standing(s, id)
  }

  function Analysed(att: Att, id: TxnID): Option<Status> {
    if id in att then Some(att[id].status) else None
  }

  function Standing(s: State, id: TxnID): Option<Status> {
    if id in s.txns then Some(Live)
    else if id in s.committed then Some(Won)
    else if id in s.aborted then Some(Lost)
    else None
  }

  ghost predicate Inv(s: State) {
    && LogNumbered(s) && IdsOk(s) && StatusOk(s)
    && (forall id | id in s.txns :: TxnOk(s, id))
    && (forall r :: RowOk(s, r))
  }

  // ---------------------------------------------------------------- undo keeps its promise

  /** `id` is in flight, holds `r`, and has not undone below position `p`. */
  ghost predicate Holding(s: State, id: TxnID, p: nat, r: Row) {
    id in s.txns && Owns(s, id, r) && p <= s.txns[id].left <= |s.txns[id].undo|
  }

  lemma UndoLast(c: Store, es: seq<UndoEntry>, e: UndoEntry)
    ensures UndoAll(c, es + [e]) == UndoAll(UndoOne(c, e), es)
  {
    assert (es + [e])[..|es|] == es;
  }

  lemma DropSnoc(es: seq<UndoEntry>, e: UndoEntry, p: nat)
    requires p <= |es|
    ensures (es + [e])[p..] == es[p..] + [e]
  {
  }

  lemma SettledWrite(s: State, x: TxnID, row: Row, op: Byte, value: Bytes, id: TxnID, p: nat, r: Row)
    requires Holding(s, id, p, r) && PhaseOk(s.txns[id])
    requires Enabled(s, Write(x, row, op, value))
    ensures Settled(AfterWrite(s, x, row, op, value), id, p, r) == Settled(s, id, p, r)
  {
    var c, t := WriteRow(s.catalog, op, row, value), s.txns[id];
    if x == id {
      var e := EntryFor(s.catalog, op, row, NextLSN(s));
      assert Pending(t) == t.undo && Pending(AfterWrite(s, x, row, op, value).txns[id]) == t.undo + [e];
      DropSnoc(t.undo, e, p);
      UndoLast(c, t.undo[p..], e);
      UndoneExactly(s.catalog, op, row, value, NextLSN(s));
    } else {
      UndoLocal(c, s.catalog, Pending(t)[p..], r);
    }
  }

  lemma SettledUndo(s: State, x: TxnID, id: TxnID, p: nat, r: Row)
    requires Holding(s, id, p, r) && Enabled(s, UndoNext(x)) && PendingLocked(s, x)
    requires Holding(AfterUndo(s, x), id, p, r)
    ensures Settled(AfterUndo(s, x), id, p, r) == Settled(s, id, p, r)
  {
    var t, u := s.txns[id], s.txns[x];
    var e := u.undo[u.left - 1];
    if x == id {
      var rest := t.undo[..t.left - 1];
      assert Pending(t) == rest + [e];
      DropSnoc(rest, e, p);
      UndoLast(s.catalog, rest[p..], e);
    } else {
      assert Owns(s, x, e.row);
      UndoLocal(UndoOne(s.catalog, e), s.catalog, Pending(t)[p..], r);
    }
  }

  /** Whatever any transaction does, undoing `id`'s entries from `p` on gives the same value for a
      row that `id` holds. */
  lemma SettledStep(s: State, step: Step, id: TxnID, p: nat, r: Row)
    requires Enabled(s, step) && (forall x | x in s.txns :: TxnOk(s, x)) && IdsOk(s)
    requires Holding(s, id, p, r) && Holding(Apply(s, step), id, p, r)
    ensures Settled(Apply(s, step), id, p, r) == Settled(s, id, p, r)
  {
    assert TxnOk(s, id);
    match step {
      case Write(x, row, op, value) => SettledWrite(s, x, row, op, value, id, p, r);
      case UndoNext(x) => assert TxnOk(s, x); SettledUndo(s, x, id, p, r);
      case _ => assert Pending(Apply(s, step).txns[id]) == Pending(s.txns[id]);
    }
  }

  // ---------------------------------------------------------------- every step keeps the invariant

  lemma WroteStep(log: seq<LogRecord>, rec: LogRecord, id: TxnID, r: Row)
    ensures Wrote(log + [rec], id, r) <==> Wrote(log, id, r) || (rec.WriteRec? && rec.txn == id && rec.row == r)
  {
    if Wrote(log, id, r) {
      var i :| 0 <= i < |log| && log[i].WriteRec? && log[i].txn == id && log[i].row == r;
      assert (log + [rec])[i] == log[i];
    }
    if rec.WriteRec? && rec.txn == id && rec.row == r {
      assert (log + [rec])[|log|] == rec;
    }
  }

  /** The record a step appends to the log, if any. */
  function Appends(s: State, step: Step): Option<LogRecord>
    requires Enabled(s, step)
  {
    var lsn := NextLSN(s);
    match step
    case Begin(timestamp) => Some(BeginRec(lsn, s.nextID + 1, 0, timestamp))
    case Write(id, row, op, value) => Some(Logged(s, id, row, op, value))
    case Commit(id) => Some(CommitRec(lsn, id, s.txns[id].lastLSN))
    case UndoNext(id) => Some(Compensation(s.txns[id], id, lsn))
    case EndAbort(id) =>
      Some(AbortRec(lsn, id, if s.txns[id].lastCLR != 0 then s.txns[id].lastCLR else s.txns[id].lastLSN))
    case _ => None
  }

  lemma LogAfter(s: State, step: Step)
    requires Enabled(s, step)
    ensures Apply(s, step).log == s.log + if Appends(s, step).Some? then [Appends(s, step).value] else []
    ensures Apply(s, step).seed == s.seed
  {
  }

  lemma NumbersKept(s: State, step: Step)
    requires Enabled(s, step) && LogNumbered(s) && IdsOk(s)
    ensures LogNumbered(Apply(s, step))
  {
    LogAfter(s, step);
  }

  lemma IdsKept(s: State, step: Step)
    requires Enabled(s, step) && IdsOk(s)
    ensures IdsOk(Apply(s, step))
  {
  }

  lemma StatusKept(s: State, step: Step)
    requires Enabled(s, step) && IdsOk(s) && StatusOk(s)
    ensures StatusOk(Apply(s, step))
  {
    LogAfter(s, step);
    var s', rec := Apply(s, step), Appends(s, step);
    if rec.Some? {
      AnalyseStep(s.log, rec.value);
      forall id
        ensures Analysed(Analyse(s'.log), id) == Standing(s', id)
      {
        assert Analysed(Analyse(s.log), id) == Standing(s, id);
        assert Analysed(Analyse(s.log), rec.value.txn) == Standing(s, rec.value.txn);
      }
    } else {
      assert s.log + [] == s.log;
      forall id
        ensures Standing(s', id) == Standing(s, id)
      {
      }
    }
  }

  /** Another transaction's step leaves alone the rows `id` holds. */
  lemma CatalogKept(s: State, step: Step, id: TxnID, r: Row)
    requires Enabled(s, step) && (forall x | x in s.txns :: TxnOk(s, x)) && Owns(s, id, r)
    requires (step.Write? || step.UndoNext?) ==> step.id != id
    ensures Get(Apply(s, step).catalog, r) == Get(s.catalog, r)
  {
    if step.UndoNext? {
      var t := s.txns[step.id];
      assert TxnOk(s, step.id);
      assert Owns(s, step.id, t.undo[t.left - 1].row);
    }
  }

  lemma WrittenRow(s: State, step: Step, id: TxnID, r: Row)
    requires Enabled(s, step) && IdsOk(s) && LogNumbered(s) && id in Apply(s, step).txns
    requires Wrote(Apply(s, step).log, id, r)
    ensures Wrote(s.log, id, r) || (step.Write? && step.id == id && step.row == r)
    ensures id in s.txns
  {
    LogAfter(s, step);
    var rec := Appends(s, step);
    if rec.Some? {
      WroteStep(s.log, rec.value, id, r);
    } else {
      assert s.log + [] == s.log;
    }
  }

  lemma StillWrote(s: State, step: Step, id: TxnID, r: Row)
    requires Enabled(s, step) && Wrote(s.log, id, r)
    ensures Wrote(Apply(s, step).log, id, r)
  {
    LogAfter(s, step);
    var rec := Appends(s, step);
    if rec.Some? {
      WroteStep(s.log, rec.value, id, r);
    } else {
      assert s.log + [] == s.log;
    }
  }

  lemma MineKept(s: State, step: Step, id: TxnID, r: Row)
    requires Enabled(s, step) && (forall x | x in s.txns :: TxnOk(s, x)) && IdsOk(s) && LogNumbered(s)
    requires id in Apply(s, step).txns && Apply(s, step).txns[id].phase != Aborting
    requires Wrote(Apply(s, step).log, id, r)
    ensures LastIsMine(Apply(s, step), id, r)
  {
    WrittenRow(s, step, id, r);
    assert TxnOk(s, id);
    LogAfter(s, step);
    var rec := Appends(s, step);
    if rec.Some? {
      LastOnStep(s.log, rec.value, r);
    } else {
      assert s.log + [] == s.log;
    }
  }

  lemma LiveKept(s: State, step: Step, id: TxnID, r: Row)
    requires Enabled(s, step) && (forall x | x in s.txns :: TxnOk(s, x)) && IdsOk(s) && LogNumbered(s)
    requires id in Apply(s, step).txns && Apply(s, step).txns[id].phase != Aborting && !Apply(s, step).txns[id].rolledBack
    requires Wrote(Apply(s, step).log, id, r)
    ensures LastOn(Apply(s, step).log, r).Some?
    ensures Image(LastOn(Apply(s, step).log, r).value) == Get(Apply(s, step).catalog, r)
  {
    WrittenRow(s, step, id, r);
    MineKept(s, step, id, r);
    assert TxnOk(s, id);
    LogAfter(s, step);
    var rec := Appends(s, step);
    if rec.Some? {
      LastOnStep(s.log, rec.value, r);
    } else {
      assert s.log + [] == s.log;
    }
    if !(step.Write? && step.id == id) {
      CatalogKept(s, step, id, r);
    }
  }

  lemma PendingKept(s: State, step: Step, id: TxnID)
    requires Enabled(s, step) && (forall x | x in s.txns :: TxnOk(s, x)) && IdsOk(s)
    requires id in Apply(s, step).txns
    ensures PhaseOk(Apply(s, step).txns[id]) && PendingLocked(Apply(s, step), id) && PendingLogged(Apply(s, step), id)
  {
    var s' := Apply(s, step);
    if id in s.txns {
      assert TxnOk(s, id);
      PhaseKept(s, step, id);
      forall i | 0 <= i < s'.txns[id].left
        ensures Owns(s', id, s'.txns[id].undo[i].row) && Wrote(s'.log, id, s'.txns[id].undo[i].row)
      {
        EntryKept(s, step, id, i);
      }
    }
  }

  /** An entry still to be undone was so before, or the step is the write that made it. */
  lemma PhaseKept(s: State, step: Step, id: TxnID)
    requires Enabled(s, step) && id in s.txns && PhaseOk(s.txns[id]) && id in Apply(s, step).txns && IdsOk(s)
    ensures var t, t' := s.txns[id], Apply(s, step).txns[id];
            && PhaseOk(t')
            && (forall i | 0 <= i < t'.left && i < t.left :: t'.undo[i] == t.undo[i])
            && (t'.left <= t.left || (step.Write? && step.id == id && t'.left == t.left + 1 && t'.undo[t.left].row == step.row))
  {
  }

  lemma EntryKept(s: State, step: Step, id: TxnID, i: nat)
    requires Enabled(s, step) && id in s.txns && TxnOk(s, id) && id in Apply(s, step).txns && IdsOk(s)
    requires i < Apply(s, step).txns[id].left <= |Apply(s, step).txns[id].undo|
    ensures var r := Apply(s, step).txns[id].undo[i].row; Owns(Apply(s, step), id, r) && Wrote(Apply(s, step).log, id, r)
  {
    PhaseKept(s, step, id);
    if i < s.txns[id].left {
      var r := s.txns[id].undo[i].row;
      assert Owns(s, id, r) && Wrote(s.log, id, r);
      StillWrote(s, step, id, r);
    } else {
      WroteStep(s.log, Logged(s, id, step.row, step.op, step.value), id, step.row);
    }
  }

  lemma TxnKept(s: State, step: Step, id: TxnID)
    requires Enabled(s, step) && (forall x | x in s.txns :: TxnOk(s, x)) && IdsOk(s) && LogNumbered(s)
    requires id in Apply(s, step).txns
    ensures TxnOk(Apply(s, step), id)
  {
    var s' := Apply(s, step);
    PendingKept(s, step, id);
    if s'.txns[id].phase != Aborting {
      forall r | Wrote(s'.log, id, r)
        ensures LastIsMine(s', id, r)
      {
        MineKept(s, step, id, r);
      }
      if !s'.txns[id].rolledBack {
        forall r | Wrote(s'.log, id, r)
          ensures LastOn(s'.log, r).Some? && Image(LastOn(s'.log, r).value) == Get(s'.catalog, r)
        {
          LiveKept(s, step, id, r);
        }
      }
    }
  }

  /** Only a commit changes what recovery would rebuild. */
  lemma RecoveredKept(s: State, step: Step)
    requires Enabled(s, step) && IdsOk(s) && !step.Commit?
    ensures Recovered(Apply(s, step)) == Recovered(s)
  {
    LogAfter(s, step);
    var rec := Appends(s, step);
    if rec.Some? {
      ReplayStep(s.seed, s.log, rec.value, s.committed);
    } else {
      assert s.log + [] == s.log;
    }
  }

  lemma NothingPending(s: State, id: TxnID, r: Row)
    requires id in s.txns && s.txns[id].left <= |s.txns[id].undo| && Untouched(Pending(s.txns[id]), r)
    ensures Settled(s, id, 0, r) == Get(s.catalog, r)
  {
    assert Pending(s.txns[id])[0..] == Pending(s.txns[id]);
    UndoUntouched(s.catalog, Pending(s.txns[id]), r);
  }

  lemma RowKept(s: State, step: Step, r: Row)
    requires Inv(s) && Enabled(s, step) && !step.Commit?
    ensures RowOk(Apply(s, step), r)
  {
    var s' := Apply(s, step);
    RecoveredKept(s, step);
    IdsKept(s, step);
    assert RowOk(s, r);
    if HeldInFlight(s', r) {
      TxnKept(s, step, s'.locks[r]);
      HeldAfter(s, step, r);
    } else {
      FreeAfter(s, step, r);
    }
  }

  lemma HeldAfter(s: State, step: Step, r: Row)
    requires Inv(s) && Enabled(s, step) && !step.Commit? && HeldInFlight(Apply(s, step), r)
    requires TxnOk(Apply(s, step), Apply(s, step).locks[r])
    ensures Settled(Apply(s, step), Apply(s, step).locks[r], 0, r) == Get(Recovered(s), r)
  {
    var s' := Apply(s, step);
    var h := s'.locks[r];
    assert RowOk(s, r);
    if HeldInFlight(s, r) {
      SettledStep(s, step, h, 0, r);
    } else {
      assert step == Lock(h, r) && TxnOk(s, h);
      NothingPending(s', h, r);
    }
  }

  lemma FreeAfter(s: State, step: Step, r: Row)
    requires Inv(s) && Enabled(s, step) && !step.Commit? && !HeldInFlight(Apply(s, step), r)
    ensures Get(Apply(s, step).catalog, r) == Get(Recovered(s), r)
  {
    assert RowOk(s, r);
    if HeldInFlight(s, r) {
      assert Pending(s.txns[s.locks[r]]) == [];
      NothingPending(s, s.locks[r], r);
    } else if step.UndoNext? {
      var t := s.txns[step.id];
      assert TxnOk(s, step.id);
      assert Owns(s, step.id, t.undo[t.left - 1].row);
    }
  }

  /** After a commit, recovery rebuilds exactly what the transaction last logged for a row it wrote,
      and every other row as before. */
  lemma CommittedRow(s: State, id: TxnID, r: Row)
    requires Inv(s) && In(s, id, Active)
    ensures Wrote(s.log, id, r) ==>
              Get(Recovered(Apply(s, Commit(id))), r) == Image(LastOn(s.log, r).value) && s.locks[r] == id
    ensures !Wrote(s.log, id, r) ==> RowOk(Apply(s, Commit(id)), r)
  {
    var s' := Apply(s, Commit(id));
    var rec := CommitRec(NextLSN(s), id, s.txns[id].lastLSN);
    ReplayStep(s.seed, s.log, rec, s'.committed);
    assert TxnOk(s, id) && RowOk(s, r);
    if Wrote(s.log, id, r) {
      assert LastIsMine(s, id, r);
      ReplayLast(s.seed, s.log, s'.committed, r);
    } else {
      ReplayOther(s.seed, s.log, s.committed, id, r);
      if Owns(s, id, r) {
        NothingPending(s, id, r);
      } else if HeldInFlight(s, r) {
        assert TxnOk(s, s.locks[r]);
      }
    }
  }

  /** A commit keeps recovery and the live table in step exactly when every row the transaction
      wrote still holds what its last log record for it says. */
  lemma CommitExactly(s: State, id: TxnID)
    requires Inv(s) && In(s, id, Active)
    ensures Inv(Apply(s, Commit(id))) <==> WritesLive(s, id)
  {
    var s' := Apply(s, Commit(id));
    NumbersKept(s, Commit(id));
    IdsKept(s, Commit(id));
    StatusKept(s, Commit(id));
    forall x | x in s'.txns
      ensures TxnOk(s', x)
    {
      TxnKept(s, Commit(id), x);
    }
    assert TxnOk(s, id);
    forall r
      ensures Wrote(s.log, id, r) ==> (RowOk(s', r) <==> Image(LastOn(s.log, r).value) == Get(s.catalog, r))
      ensures !Wrote(s.log, id, r) ==> RowOk(s', r)
    {
      CommittedRow(s, id, r);
    }
  }

  /** The steps of the scope: commits only while the rows written hold what was last logged. */
  ghost predicate Sound(s: State, step: Step) {
    Enabled(s, step) && (step.Commit? ==> WritesLive(s, step.id))
  }

  lemma InvKept(s: State, step: Step)
    requires Inv(s) && Sound(s, step)
    ensures Inv(Apply(s, step))
  {
    var s' := Apply(s, step);
    if step.Commit? {
      CommitExactly(s, step.id);
    } else {
      NumbersKept(s, step);
      IdsKept(s, step);
      StatusKept(s, step);
      forall x | x in s'.txns
        ensures TxnOk(s', x)
      {
        TxnKept(s, step, x);
      }
      forall r
        ensures RowOk(s', r)
      {
        RowKept(s, step, r);
      }
    }
  }
}
