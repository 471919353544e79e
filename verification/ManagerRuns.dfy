/** Whole sequences of calls to the transaction manager: who has to wait, and what a rollback to a
    savepoint gives back. */
module ManagerRuns {
  import opened KeyOrder
  import opened Bytes
  import opened WalRecord
  import opened Recovery
  import opened UndoLog
  import opened TwoPhase
  import opened TxnManager

  datatype Call =
    | Starts(timestamp: nat)
    | Writes(id: TxnID, row: Row, op: Byte, value: Bytes)
    | Commits(id: TxnID)
    | Aborts(id: TxnID)
    | Marks(id: TxnID, name: string)
    | Reverts(id: TxnID, name: string)

  /** Only active transactions write. */
  predicate Allowed(s: State, c: Call) {
    c.Writes? ==> c.id in s.txns && c.op <= OP_DELETE
  }

  predicate LockFree(s: State, id: TxnID, row: Row) {
    row in s.locks ==> s.locks[row] == id
  }

  /** What a call does; `limit` is the number of transactions that may be active, 0 for any. */
  function Do(limit: nat, s: State, c: Call): State
    requires Allowed(s, c)
  {
    match c
    case Starts(timestamp) => if limit > 0 && |s.txns| >= limit then s else Apply(s, Begin(timestamp))
    case Writes(id, row, op, value) =>
      if LockFree(s, id, row) then AfterWrite(s.(locks := s.locks[row := id]), id, row, op, value) else s
    case Commits(id) => if In(s, id, Active) then AfterCommit(s, id) else s
    case Aborts(id) => if id in s.txns then AfterAbort(s, id) else s
    case Marks(id, name) => if In(s, id, Active) then Apply(s, SetSavepoint(id, name)) else s
    case Reverts(id, name) =>
      if id in s.txns && Named(s.txns[id].savepoints, name).Some? then
        AfterRollBack(s, id, Named(s.txns[id].savepoints, name).value)
      else s
  }

  /** Make a call. */
  method Perform(m: Manager, c: Call)
    requires m.Valid() && Allowed(m.Now(), c)
    modifies m
    ensures m.Valid() && m.Now() == Do(m.maxActive, old(m.Now()), c)
  {
    assert forall id | id in m.txns :: HoldsWritten(m.Now(), id);
    match c {
      case Starts(timestamp) => var _, _ := m.BeginTxn(timestamp);
      case Writes(id, row, op, value) =>
        LockedByWriter(m.Now(), id, row);
        var _ := m.TwoPLWrite(id, row, op, value);
      case Commits(id) => var _ := m.CommitTxn(id);
      case Aborts(id) => var _ := m.Abort(id);
      case Marks(id, name) => var _ := m.CreateSavepoint(id, name);
      case Reverts(id, name) => var _ := m.RollbackToSavepoint(id, name);
    }
  }

  // ---------------------------------------------------------------- runs

  function After(limit: nat, rows: Store, calls: seq<Call>): State {
    if calls == [] then Initial(rows)
    else
      var before, c := After(limit, rows, calls[..|calls| - 1]), calls[|calls| - 1];
      if Allowed(before, c) then Do(limit, before, c) else before
  }

  /** The state after the first `i` calls. */
  function At(limit: nat, rows: Store, calls: seq<Call>, i: nat): State
    requires i <= |calls|
  {
    After(limit, rows, calls[..i])
  }

  ghost predicate Run(limit: nat, rows: Store, calls: seq<Call>) {
    forall i: nat | i < |calls| :: Allowed(At(limit, rows, calls, i), calls[i])
  }

  lemma NextAt(limit: nat, rows: Store, calls: seq<Call>, i: nat)
    requires Run(limit, rows, calls) && i < |calls|
    ensures Allowed(At(limit, rows, calls, i), calls[i])
    ensures At(limit, rows, calls, i + 1) == Do(limit, At(limit, rows, calls, i), calls[i])
  {
    assert Allowed(At(limit, rows, calls, i), calls[i]);
    assert calls[..i + 1][..i] == calls[..i];
  }

  lemma TidyKept(limit: nat, s: State, c: Call)
    requires Tidy(s) && Allowed(s, c)
    ensures Tidy(Do(limit, s, c))
  {
    match c {
      case Starts(timestamp) => TidyBegin(s, timestamp);
      case Writes(id, row, op, value) =>
        if LockFree(s, id, row) {
          TidyWrite(s, id, row, op, value);
        }
      case Commits(id) =>
        if In(s, id, Active) {
          TidyCommit(s, id);
        }
      case Aborts(id) =>
        if id in s.txns {
          TidyAbort(s, id);
        }
      case Marks(id, name) =>
        if In(s, id, Active) {
          TidySavepoint(s, id, name);
        }
      case Reverts(id, name) =>
        if id in s.txns && Named(s.txns[id].savepoints, name).Some? {
          TidyRollBack(s, id, Named(s.txns[id].savepoints, name).value);
        }
    }
  }

  lemma {:induction false} RunTidy(limit: nat, rows: Store, calls: seq<Call>, i: nat)
    requires Run(limit, rows, calls) && i <= |calls|
    ensures Tidy(At(limit, rows, calls, i))
  {
    if i > 0 {
      RunTidy(limit, rows, calls, i - 1);
      NextAt(limit, rows, calls, i - 1);
      TidyKept(limit, At(limit, rows, calls, i - 1), calls[i - 1]);
    }
  }

  /** In every run a lock is held by an active transaction that wrote the row, so a write is refused
      exactly when another active transaction wrote the row; finished ones never stand in the way. */
  lemma OnlyWritersBlock(limit: nat, rows: Store, calls: seq<Call>, i: nat)
    requires Run(limit, rows, calls) && i < |calls| && calls[i].Writes?
    ensures var s, c := At(limit, rows, calls, i), calls[i];
            !LockFree(s, c.id, c.row) <==> WrittenByAnother(s, c.id, c.row)
    ensures forall r | r in At(limit, rows, calls, i).locks ::
              At(limit, rows, calls, i).locks[r] in At(limit, rows, calls, i).txns
  {
    var s := At(limit, rows, calls, i);
    RunTidy(limit, rows, calls, i);
    LockedByWriter(s, calls[i].id, calls[i].row);
    forall r | r in s.locks
      ensures s.locks[r] in s.txns
    {
      assert LockBacked(s, r);
    }
  }

  // ---------------------------------------------------------------- savepoints

  /** The call leaves the savepoint `name` of `id`, made when its undo log had `p` entries, standing:
      it makes no other of that name and goes back to none below it. */
  ghost predicate Spares(s: State, c: Call, id: TxnID, name: string, p: nat) {
    && c != Marks(id, name)
    && (c.Reverts? && c.id == id && id in s.txns && Named(s.txns[id].savepoints, c.name).Some? ==>
          Named(s.txns[id].savepoints, c.name).value >= p)
  }

  /** The savepoint still stands: what was in the undo log when it was made is still its beginning. */
  ghost predicate Stands(s: State, id: TxnID, name: string, undo: seq<UndoEntry>) {
    id in s.txns && undo <= s.txns[id].undo && Named(s.txns[id].savepoints, name) == Some(|undo|)
  }

  lemma NamedOneMore(sps: seq<Savepoint>, sp: Savepoint, name: string)
    ensures Named(sps + [sp], name) == if sp.name == name then Some(sp.position) else Named(sps, name)
  {
    assert (sps + [sp])[..|sps|] == sps;
  }

  /** A new savepoint stands. */
  lemma StandsAtFirst(s: State, id: TxnID, name: string)
    requires In(s, id, Active)
    ensures Stands(Apply(s, SetSavepoint(id, name)), id, name, s.txns[id].undo)
  {
    NamedOneMore(s.txns[id].savepoints, Savepoint(name, |s.txns[id].undo|), name);
  }

  lemma StandsOn(limit: nat, s: State, c: Call, id: TxnID, name: string, undo: seq<UndoEntry>)
    requires Tidy(s) && Allowed(s, c) && Stands(s, id, name, undo) && Spares(s, c, id, name, |undo|)
    requires id in Do(limit, s, c).txns
    ensures Stands(Do(limit, s, c), id, name, undo)
  {
    assert HoldsWritten(s, id);
    if c.Marks? && c.id == id {
      NamedOneMore(s.txns[id].savepoints, Savepoint(c.name, |s.txns[id].undo|), name);
    }
  }

  /** What row `r` becomes when `id` undoes its entries from position `p` on. */
  function Restored(s: State, id: TxnID, p: nat, r: Row): Option<Bytes>
    requires id in s.txns && p <= |s.txns[id].undo|
  {
    Get(UndoAll(s.catalog, s.txns[id].undo[p..]), r)
  }

  /** `id` makes a write to row `r` that goes through. */
  predicate WritesRow(s: State, c: Call, id: TxnID, r: Row) {
    c.Writes? && c.id == id && c.row == r && LockFree(s, id, r)
  }

  lemma RestoredWrite(s: State, s': State, c: Call, id: TxnID, p: nat, r: Row)
    requires c.Writes? && LockFree(s, c.id, c.row) && Allowed(s, c)
    requires id in s.txns && p <= |s.txns[id].undo| && (Owns(s, id, r) || WritesRow(s, c, id, r))
    requires WritesRow(s, c, id, r) ==> Reversible(s.catalog, c.op, r)
    requires s' == AfterWrite(s.(locks := s.locks[c.row := c.id]), c.id, c.row, c.op, c.value)
    ensures Restored(s', id, p, r) == Restored(s, id, p, r)
  {
    var es := s.txns[id].undo[p..];
    if c.id == id {
      var e := EntryFor(s.catalog, c.op, c.row, NextLSN(s));
      DropSnoc(s.txns[id].undo, e, p);
      UndoLast(s'.catalog, es, e);
      if c.row == r {
        UndoneExactly(s.catalog, c.op, r, c.value, NextLSN(s));
      }
      UndoLocal(UndoOne(s'.catalog, e), s.catalog, es, r);
    } else {
      UndoLocal(s'.catalog, s.catalog, es, r);
    }
  }

  /** Undoing entries of another transaction. */
  lemma RestoredOther(s: State, c: Store, id: TxnID, p: nat, r: Row, x: TxnID, es: seq<UndoEntry>)
    requires Tidy(s) && id in s.txns && p <= |s.txns[id].undo| && Owns(s, id, r)
    requires x in s.txns && x != id && (forall e | e in es :: e in s.txns[x].undo) && c == UndoAll(s.catalog, es)
    ensures Get(UndoAll(c, s.txns[id].undo[p..]), r) == Restored(s, id, p, r)
  {
    assert HoldsWritten(s, x);
    forall i | 0 <= i < |es|
      ensures es[i].row != r
    {
      assert es[i] in s.txns[x].undo;
    }
    UndoUntouched(s.catalog, es, r);
    UndoLocal(c, s.catalog, s.txns[id].undo[p..], r);
  }

  lemma RestoredOwn(s: State, id: TxnID, p: nat, r: Row, q: nat)
    requires id in s.txns && p <= q <= |s.txns[id].undo|
    ensures Get(UndoAll(UndoAll(s.catalog, s.txns[id].undo[q..]), s.txns[id].undo[..q][p..]), r) == Restored(s, id, p, r)
  {
    var undo := s.txns[id].undo;
    assert undo[p..] == undo[..q][p..] + undo[q..];
    UndoAppend(s.catalog, undo[..q][p..], undo[q..]);
  }

  lemma RestoredRevert(s: State, c: Call, id: TxnID, p: nat, r: Row, q: nat)
    requires Tidy(s) && c.Reverts? && c.id in s.txns && id in s.txns && p <= |s.txns[id].undo| && Owns(s, id, r)
    requires c.id == id ==> q >= p
    ensures var s' := AfterRollBack(s, c.id, q);
            id in s'.txns && p <= |s'.txns[id].undo| && Restored(s', id, p, r) == Restored(s, id, p, r)
  {
    var undo := s.txns[c.id].undo;
    if q < |undo| {
      if c.id == id {
        RestoredOwn(s, id, p, r, q);
      } else {
        RestoredOther(s, UndoAll(s.catalog, undo[q..]), id, p, r, c.id, undo[q..]);
      }
    }
  }

  /** A row held stays held until the transaction ends. */
  lemma OwnsOn(limit: nat, s: State, c: Call, id: TxnID, r: Row)
    requires Tidy(s) && Allowed(s, c) && id in s.txns && id in Do(limit, s, c).txns
    requires Owns(s, id, r) || WritesRow(s, c, id, r)
    ensures Owns(Do(limit, s, c), id, r)
  {
    match c {
      case Commits(x) =>
        if In(s, x, Active) {
          UnheldFrees(s, x, AfterCommit(s, x));
        }
      case Aborts(x) =>
        if x in s.txns {
          UnheldFrees(s, x, AfterAbort(s, x));
        }
      case _ =>
    }
  }

  lemma RestoredEnd(s: State, s': State, c: Call, id: TxnID, p: nat, r: Row)
    requires Tidy(s) && id in s.txns && p <= |s.txns[id].undo| && Owns(s, id, r)
    requires (c.Commits? && In(s, c.id, Active) && s' == AfterCommit(s, c.id)) || (c.Aborts? && c.id in s.txns && s' == AfterAbort(s, c.id))
    requires id in s'.txns
    ensures p <= |s'.txns[id].undo| && Restored(s', id, p, r) == Restored(s, id, p, r)
  {
    if c.Aborts? {
      RestoredOther(s, s'.catalog, id, p, r, c.id, s.txns[c.id].undo);
    } else {
      RestoredSame(s, s', id, p, r);
    }
  }

  /** No call changes what undoing to the savepoint would make of a row held. */
  lemma RestoredOn(limit: nat, s: State, c: Call, id: TxnID, name: string, undo: seq<UndoEntry>, r: Row)
    requires Tidy(s) && Allowed(s, c) && Stands(s, id, name, undo) && Spares(s, c, id, name, |undo|)
    requires Owns(s, id, r) || WritesRow(s, c, id, r)
    requires WritesRow(s, c, id, r) ==> Reversible(s.catalog, c.op, r)
    requires Stands(Do(limit, s, c), id, name, undo)
    ensures Restored(Do(limit, s, c), id, |undo|, r) == Restored(s, id, |undo|, r)
  {
    var s', p := Do(limit, s, c), |undo|;
    if s' != s {
      match c {
        case Starts(_) => RestoredSame(s, s', id, p, r);
        case Marks(_, _) => RestoredSame(s, s', id, p, r);
        case Writes(_, _, _, _) => RestoredWrite(s, s', c, id, p, r);
        case Commits(_) => RestoredEnd(s, s', c, id, p, r);
        case Aborts(_) => RestoredEnd(s, s', c, id, p, r);
        case Reverts(x, n) => RestoredRevert(s, c, id, p, r, Named(s.txns[x].savepoints, n).value);
      }
    }
  }

  lemma RestoredSame(s: State, s': State, id: TxnID, p: nat, r: Row)
    requires id in s.txns && id in s'.txns && p <= |s.txns[id].undo|
    requires s'.catalog == s.catalog && s'.txns[id].undo == s.txns[id].undo
    ensures Restored(s', id, p, r) == Restored(s, id, p, r)
  {
  }

  lemma RestoredNext(limit: nat, rows: Store, calls: seq<Call>, k: nat, id: TxnID, name: string, undo: seq<UndoEntry>, r: Row)
    requires Run(limit, rows, calls) && k < |calls| && Stands(At(limit, rows, calls, k), id, name, undo)
    requires StepSpares(limit, rows, calls, k, id, name, |undo|)
    requires Owns(At(limit, rows, calls, k), id, r) || WritesRow(At(limit, rows, calls, k), calls[k], id, r)
    requires GoodWrite(limit, rows, calls, k, id, r)
    ensures Stands(At(limit, rows, calls, k + 1), id, name, undo) && Owns(At(limit, rows, calls, k + 1), id, r)
    ensures Restored(At(limit, rows, calls, k + 1), id, |undo|, r) == Restored(At(limit, rows, calls, k), id, |undo|, r)
  {
    RunTidy(limit, rows, calls, k);
    NextAt(limit, rows, calls, k);
    OwnsOn(limit, At(limit, rows, calls, k), calls[k], id, r);
    StandsOn(limit, At(limit, rows, calls, k), calls[k], id, name, undo);
    RestoredOn(limit, At(limit, rows, calls, k), calls[k], id, name, undo, r);
  }

  lemma StandsNext(limit: nat, rows: Store, calls: seq<Call>, k: nat, id: TxnID, name: string, undo: seq<UndoEntry>)
    requires Run(limit, rows, calls) && k < |calls| && Stands(At(limit, rows, calls, k), id, name, undo)
    requires StepSpares(limit, rows, calls, k, id, name, |undo|)
    ensures Stands(At(limit, rows, calls, k + 1), id, name, undo)
  {
    RunTidy(limit, rows, calls, k);
    NextAt(limit, rows, calls, k);
    StandsOn(limit, At(limit, rows, calls, k), calls[k], id, name, undo);
  }

  ghost predicate StepSpares(limit: nat, rows: Store, calls: seq<Call>, k: nat, id: TxnID, name: string, p: nat)
    requires k < |calls|
  {
    Spares(At(limit, rows, calls, k), calls[k], id, name, p) && id in At(limit, rows, calls, k + 1).txns
  }

  /** From call `i` on, up to call `j`, `id` stays active and its savepoint is left standing. */
  ghost predicate LeftStanding(limit: nat, rows: Store, calls: seq<Call>, i: nat, j: nat, id: TxnID, name: string, p: nat)
    requires i <= j <= |calls|
  {
    forall k: nat | i <= k < j :: StepSpares(limit, rows, calls, k, id, name, p)
  }

  ghost predicate GoodWrite(limit: nat, rows: Store, calls: seq<Call>, k: nat, id: TxnID, r: Row)
    requires k < |calls|
  {
    WritesRow(At(limit, rows, calls, k), calls[k], id, r) ==> Reversible(At(limit, rows, calls, k).catalog, calls[k].op, r)
  }

  /** The writes of `id` to `r` are ones that undo reverses. */
  ghost predicate WellWritten(limit: nat, rows: Store, calls: seq<Call>, i: nat, j: nat, id: TxnID, r: Row)
    requires i <= j <= |calls|
  {
    forall k: nat | i <= k < j :: GoodWrite(limit, rows, calls, k, id, r)
  }

  lemma {:induction false} StandsTo(limit: nat, rows: Store, calls: seq<Call>, i: nat, j: nat, id: TxnID, name: string,
                                    undo: seq<UndoEntry>)
    requires Run(limit, rows, calls) && i <= j <= |calls| && LeftStanding(limit, rows, calls, i, j, id, name, |undo|)
    requires Stands(At(limit, rows, calls, i), id, name, undo)
    ensures Stands(At(limit, rows, calls, j), id, name, undo)
    decreases j - i
  {
    if i < j {
      StandsTo(limit, rows, calls, i, j - 1, id, name, undo);
      assert StepSpares(limit, rows, calls, j - 1, id, name, |undo|);
      StandsNext(limit, rows, calls, j - 1, id, name, undo);
    }
  }

  /** Over any stretch of calls after a row is held. */
  lemma {:induction false} RestoredTo(limit: nat, rows: Store, calls: seq<Call>, i: nat, j: nat, id: TxnID, name: string,
                                      undo: seq<UndoEntry>, r: Row)
    requires Run(limit, rows, calls) && i <= j <= |calls| && LeftStanding(limit, rows, calls, i, j, id, name, |undo|)
    requires Stands(At(limit, rows, calls, i), id, name, undo) && WellWritten(limit, rows, calls, i, j, id, r)
    requires Owns(At(limit, rows, calls, i), id, r)
    ensures Stands(At(limit, rows, calls, j), id, name, undo) && Owns(At(limit, rows, calls, j), id, r)
    ensures Restored(At(limit, rows, calls, j), id, |undo|, r) == Restored(At(limit, rows, calls, i), id, |undo|, r)
    decreases j - i
  {
    if i < j {
      RestoredTo(limit, rows, calls, i, j - 1, id, name, undo, r);
      assert StepSpares(limit, rows, calls, j - 1, id, name, |undo|) && GoodWrite(limit, rows, calls, j - 1, id, r);
      RestoredNext(limit, rows, calls, j - 1, id, name, undo, r);
    }
  }

  lemma RevertGives(limit: nat, s: State, id: TxnID, name: string, undo: seq<UndoEntry>)
    requires Stands(s, id, name, undo)
    ensures var s' := Do(limit, s, Reverts(id, name));
            && id in s'.txns && s'.txns[id].undo == undo
            && forall r :: Get(s'.catalog, r) == Restored(s, id, |undo|, r)
  {
    if |undo| >= |s.txns[id].undo| {
      assert s.txns[id].undo[|undo|..] == [];
    }
  }

  /** Savepoints, in every run: `id` makes one with call `i`; until call `j` it makes no other of that
      name and goes back to none below it. A rollback to the name then gives back the undo log as it
      was, every row `id` held when it made the savepoint with the value it had, and every row it took
      since with the value it had when it was taken. */
  lemma SavepointRestores(limit: nat, rows: Store, calls: seq<Call>, i: nat, j: nat, id: TxnID, name: string)
    requires Run(limit, rows, calls) && i < j <= |calls| && calls[i] == Marks(id, name)
    requires id in At(limit, rows, calls, i).txns
    requires LeftStanding(limit, rows, calls, i + 1, j, id, name, |At(limit, rows, calls, i).txns[id].undo|)
    ensures var s, s' := At(limit, rows, calls, i), Do(limit, At(limit, rows, calls, j), Reverts(id, name));
            && id in s'.txns && s'.txns[id].undo == s.txns[id].undo
            && (forall r | Owns(s, id, r) && WellWritten(limit, rows, calls, i, j, id, r) ::
                  Get(s'.catalog, r) == Get(s.catalog, r))
    ensures forall r, m: nat | i < m < j && Takes(limit, rows, calls, m, j, id, r) ::
              Get(Do(limit, At(limit, rows, calls, j), Reverts(id, name)).catalog, r) == Get(At(limit, rows, calls, m).catalog, r)
  {
    var s, s1 := At(limit, rows, calls, i), At(limit, rows, calls, i + 1);
    var undo, s' := s.txns[id].undo, Do(limit, At(limit, rows, calls, j), Reverts(id, name));
    RunTidy(limit, rows, calls, i);
    assert HoldsWritten(s, id);
    NextAt(limit, rows, calls, i);
    StandsAtFirst(s, id, name);
    StandsTo(limit, rows, calls, i + 1, j, id, name, undo);
    RevertGives(limit, At(limit, rows, calls, j), id, name, undo);
    forall r | Owns(s, id, r) && WellWritten(limit, rows, calls, i, j, id, r)
      ensures Get(s'.catalog, r) == Get(s.catalog, r)
    {
      assert WellWritten(limit, rows, calls, i + 1, j, id, r);
      RestoredTo(limit, rows, calls, i + 1, j, id, name, undo, r);
      assert s1.txns[id].undo[|undo|..] == [];
    }
    forall r, m: nat | i < m < j && Takes(limit, rows, calls, m, j, id, r)
      ensures Get(s'.catalog, r) == Get(At(limit, rows, calls, m).catalog, r)
    {
      TakenRestored(limit, rows, calls, i + 1, m, j, id, name, undo, r);
    }
  }

  /** With call `m`, `id` takes row `r`; its writes to it are ones that undo reverses. */
  ghost predicate Takes(limit: nat, rows: Store, calls: seq<Call>, m: nat, j: nat, id: TxnID, r: Row)
    requires m < j <= |calls|
  {
    && WritesRow(At(limit, rows, calls, m), calls[m], id, r) && !Owns(At(limit, rows, calls, m), id, r)
    && WellWritten(limit, rows, calls, m, j, id, r)
  }

  lemma TakenRestored(limit: nat, rows: Store, calls: seq<Call>, i: nat, m: nat, j: nat, id: TxnID, name: string,
                      undo: seq<UndoEntry>, r: Row)
    requires Run(limit, rows, calls) && i <= m < j <= |calls| && LeftStanding(limit, rows, calls, i, j, id, name, |undo|)
    requires Stands(At(limit, rows, calls, i), id, name, undo) && Takes(limit, rows, calls, m, j, id, r)
    ensures Stands(At(limit, rows, calls, j), id, name, undo)
    ensures Restored(At(limit, rows, calls, j), id, |undo|, r) == Get(At(limit, rows, calls, m).catalog, r)
  {
    var s := At(limit, rows, calls, m);
    assert LeftStanding(limit, rows, calls, i, m, id, name, |undo|);
    StandsTo(limit, rows, calls, i, m, id, name, undo);
    assert StepSpares(limit, rows, calls, m, id, name, |undo|) && GoodWrite(limit, rows, calls, m, id, r);
    RestoredNext(limit, rows, calls, m, id, name, undo, r);
    assert LeftStanding(limit, rows, calls, m + 1, j, id, name, |undo|);
    RestoredTo(limit, rows, calls, m + 1, j, id, name, undo, r);
    RunTidy(limit, rows, calls, m);
    assert HoldsWritten(s, id);
    UndoUntouched(s.catalog, s.txns[id].undo[|undo|..], r);
  }
}
