/** The backward walk the log is laid out for: from a compensation record to the record named in its
    undo-next field, from a write to the transaction's previous record. Restart as written redoes
    the winners only and does not take it. */
module AriesWalk {
  import opened KeyOrder
  import opened Bytes
  import opened WalRecord
  import opened Recovery
  import opened UndoLog
  import opened TwoPhase
  import opened TwoPhaseRuns

  /** The writes met on the walk from `lsn`, newest first. */
  function Walk(log: seq<LogRecord>, lsn: LSN): seq<LSN> {
    if lsn == 0 || lsn > |log| then []
    else
      match log[lsn - 1]
      case WriteRec(_, _, prev, _, _, _, _, _) => [lsn] + if prev < lsn then Walk(log, prev) else []
      case CLRRec(_, _, _, undoNext) => if undoNext < lsn then Walk(log, undoNext) else []
      case _ => []
  }

  /** The log positions of undo entries, newest first. */
  function NewestFirst(es: seq<UndoEntry>): seq<LSN>
    decreases |es|
  {
    if es == [] then [] else [es[|es| - 1].lsn] + NewestFirst(es[..|es| - 1])
  }

  // ---------------------------------------------------------------- the writes of one transaction

  predicate WriteOf(log: seq<LogRecord>, id: TxnID, i: int) {
    0 <= i < |log| && log[i].WriteRec? && log[i].txn == id
  }

  /** All writes of `id` among the first `n` records, newest first. */
  function WritesTo(log: seq<LogRecord>, id: TxnID, n: nat): seq<LSN> {
    if n == 0 then []
    else if WriteOf(log, id, n - 1) then [n] + WritesTo(log, id, n - 1)
    else WritesTo(log, id, n - 1)
  }

  ghost predicate NoWrites(log: seq<LogRecord>, id: TxnID, a: nat, b: nat) {
    forall i: nat | a <= i < b :: !WriteOf(log, id, i)
  }

  /** `prev` is the last write of `id` before position `i`, or its begin record if there is none. */
  ghost predicate Follows(log: seq<LogRecord>, id: TxnID, prev: LSN, i: nat) {
    && 0 < prev <= i <= |log| && NoWrites(log, id, prev, i)
    && (WriteOf(log, id, prev - 1) || (log[prev - 1].BeginRec? && NoWrites(log, id, 0, prev)))
  }

  ghost predicate ChainedAt(log: seq<LogRecord>, id: TxnID, i: nat) {
    WriteOf(log, id, i) ==> Follows(log, id, log[i].prev, i)
  }

  ghost predicate Chained(log: seq<LogRecord>, id: TxnID) {
    forall i: nat | i < |log| :: ChainedAt(log, id, i)
  }

  lemma {:induction false} SkipNone(log: seq<LogRecord>, id: TxnID, a: nat, b: nat)
    requires a <= b && NoWrites(log, id, a, b)
    ensures WritesTo(log, id, b) == WritesTo(log, id, a)
    decreases b
  {
    if a < b {
      SkipNone(log, id, a, b - 1);
    }
  }

  /** Walking from a write meets every write of its transaction up to it. */
  lemma {:induction false} WalkWrites(log: seq<LogRecord>, id: TxnID, lsn: LSN)
    requires Chained(log, id) && lsn > 0 && WriteOf(log, id, lsn - 1)
    ensures Walk(log, lsn) == WritesTo(log, id, lsn)
    decreases lsn
  {
    var prev := log[lsn - 1].prev;
    assert ChainedAt(log, id, lsn - 1);
    SkipNone(log, id, prev, lsn - 1);
    if WriteOf(log, id, prev - 1) {
      WalkWrites(log, id, prev);
    } else {
      SkipNone(log, id, 0, prev);
    }
  }

  // ---------------------------------------------------------------- undo entries among the writes

  ghost predicate EntryOf(log: seq<LogRecord>, id: TxnID, e: UndoEntry) {
    e.lsn > 0 && WriteOf(log, id, e.lsn - 1)
  }

  ghost predicate Entries(log: seq<LogRecord>, id: TxnID, es: seq<UndoEntry>) {
    && (forall k | 0 <= k < |es| :: EntryOf(log, id, es[k]))
    && (forall j, k | 0 <= j < k < |es| :: es[j].lsn < es[k].lsn)
  }

  ghost predicate Has(es: seq<UndoEntry>, lsn: LSN) {
    exists k :: 0 <= k < |es| && es[k].lsn == lsn
  }

  /** Every write of `id` among the first `n` records has an entry. */
  ghost predicate Covers(log: seq<LogRecord>, id: TxnID, es: seq<UndoEntry>, n: nat) {
    forall i: nat | i < n && WriteOf(log, id, i) :: Has(es, i + 1)
  }

  lemma HasFront(es: seq<UndoEntry>, lsn: LSN)
    requires es != [] && lsn != es[|es| - 1].lsn
    ensures Has(es[..|es| - 1], lsn) <==> Has(es, lsn)
  {
    var front := es[..|es| - 1];
    if Has(es, lsn) {
      var k :| 0 <= k < |es| && es[k].lsn == lsn;
      assert front[k].lsn == lsn;
    }
    if Has(front, lsn) {
      var k :| 0 <= k < |front| && front[k].lsn == lsn;
      assert es[k].lsn == lsn;
    }
  }

  lemma CoversFront(log: seq<LogRecord>, id: TxnID, es: seq<UndoEntry>, n: nat)
    requires es != [] && es[|es| - 1].lsn == n + 1
    ensures Covers(log, id, es[..|es| - 1], n) <==> Covers(log, id, es, n + 1)
  {
    forall i: nat | i < n && WriteOf(log, id, i)
      ensures Has(es[..|es| - 1], i + 1) <==> Has(es, i + 1)
    {
      HasFront(es, i + 1);
    }
    assert Has(es, n + 1);
  }

  /** A write without an entry is in one list and not in the other. */
  lemma Uncovered(log: seq<LogRecord>, id: TxnID, es: seq<UndoEntry>, n: nat)
    requires n > 0 && WriteOf(log, id, n - 1) && forall k | 0 <= k < |es| :: es[k].lsn < n
    ensures NewestFirst(es) != WritesTo(log, id, n) && !Covers(log, id, es, n)
  {
    assert !Has(es, n);
    assert WritesTo(log, id, n)[0] == n;
    assert es != [] ==> NewestFirst(es)[0] < n;
  }

  lemma SameTail(n: LSN, a: seq<LSN>, b: seq<LSN>, x: seq<LSN>, y: seq<LSN>)
    requires x == [n] + a && y == [n] + b
    ensures x == y <==> a == b
  {
    assert x[1..] == a && y[1..] == b;
  }

  lemma NothingBelow(log: seq<LogRecord>, id: TxnID, es: seq<UndoEntry>, n: nat)
    requires Entries(log, id, es) && es != [] && es[|es| - 1].lsn <= n && !WriteOf(log, id, n - 1)
    ensures es[|es| - 1].lsn < n
  {
    assert EntryOf(log, id, es[|es| - 1]);
  }

  /** Entries list all writes up to `n`, in order, exactly when every write has one. */
  lemma {:induction false} EntriesAreWrites(log: seq<LogRecord>, id: TxnID, es: seq<UndoEntry>, n: nat)
    requires Entries(log, id, es) && (es != [] ==> es[|es| - 1].lsn <= n)
    ensures NewestFirst(es) == WritesTo(log, id, n) <==> Covers(log, id, es, n)
    decreases n
  {
    if n == 0 {
      if es != [] {
        NothingBelow(log, id, es, n);
      }
    } else if !WriteOf(log, id, n - 1) {
      if es != [] {
        NothingBelow(log, id, es, n);
      }
      EntriesAreWrites(log, id, es, n - 1);
      CoversSkip(log, id, es, n - 1);
    } else if es != [] && es[|es| - 1].lsn == n {
      var front := es[..|es| - 1];
      EntriesAreWrites(log, id, front, n - 1);
      CoversFront(log, id, es, n - 1);
      SameTail(n, NewestFirst(front), WritesTo(log, id, n - 1), NewestFirst(es), WritesTo(log, id, n));
    } else {
      Uncovered(log, id, es, n);
    }
  }

  lemma CoversSkip(log: seq<LogRecord>, id: TxnID, es: seq<UndoEntry>, n: nat)
    requires !WriteOf(log, id, n)
    ensures Covers(log, id, es, n) <==> Covers(log, id, es, n + 1)
    ensures WritesTo(log, id, n + 1) == WritesTo(log, id, n)
  {
  }

  // ---------------------------------------------------------------- the last record of a transaction

  /** The record at `lsn` is a compensation record that names nothing to undo next. */
  predicate EndsChain(log: seq<LogRecord>, lsn: LSN) {
    0 < lsn <= |log| && log[lsn - 1].CLRRec? && log[lsn - 1].undoNext == 0
  }

  /** What the last record `l` of a transaction says about the entries it has left. */
  ghost predicate TipOk(log: seq<LogRecord>, t: Txn, l: LSN) {
    && 0 < l <= |log| && t.left <= |t.undo|
    && match log[l - 1] {
         case BeginRec(_, _, _, _) => t.left == 0
         case WriteRec(_, _, _, _, _, _, _, _) => 0 < t.left == |t.undo| && t.undo[t.left - 1].lsn == l
         case CLRRec(_, _, _, undoNext) =>
           undoNext < l && (undoNext != 0 ==> 0 < t.left && t.undo[t.left - 1].lsn == undoNext)
         case _ => false
       }
  }

  /** Nothing is left to undo; or the last record is not the end of a compensation chain, and no
      write older than the newest one left to undo was rolled back to a savepoint. */
  ghost predicate Unbroken(log: seq<LogRecord>, id: TxnID, t: Txn, l: LSN)
    requires t.left <= |t.undo|
  {
    t.left == 0 || (!EndsChain(log, l) && Covers(log, id, Pending(t), t.undo[t.left - 1].lsn))
  }

  /** The walk from a transaction's last record: nothing at the end of a compensation chain,
      otherwise every write up to the newest one left to undo. */
  lemma WalkFromTip(log: seq<LogRecord>, id: TxnID, t: Txn, l: LSN)
    requires Chained(log, id) && Entries(log, id, t.undo) && TipOk(log, t, l)
    ensures Walk(log, l) == if t.left == 0 || EndsChain(log, l) then [] else WritesTo(log, id, t.undo[t.left - 1].lsn)
  {
    if t.left > 0 && !EndsChain(log, l) {
      assert EntryOf(log, id, t.undo[t.left - 1]);
      WalkWrites(log, id, t.undo[t.left - 1].lsn);
    }
  }

  lemma WalkExactly(log: seq<LogRecord>, id: TxnID, t: Txn, l: LSN)
    requires Chained(log, id) && Entries(log, id, t.undo) && TipOk(log, t, l)
    ensures Walk(log, l) == NewestFirst(Pending(t)) <==> Unbroken(log, id, t, l)
  {
    WalkFromTip(log, id, t, l);
    if t.left > 0 {
      var es := Pending(t);
      assert es[t.left - 1] == t.undo[t.left - 1] && Entries(log, id, es);
      EntriesAreWrites(log, id, es, es[t.left - 1].lsn);
      assert NewestFirst(es) != [];
    }
  }

  // ---------------------------------------------------------------- invariant

  /** Transactions that never undid for a savepoint have an entry for every write and end their
      compensation chain only with the last entry. */
  ghost predicate NeverRolledBack(log: seq<LogRecord>, id: TxnID, t: Txn, l: LSN) {
    !t.rolledBack ==>
      && Covers(log, id, t.undo, |log|) && (EndsChain(log, l) ==> t.left == 0)
      && (t.phase != Aborting ==> t.left == |t.undo|)
  }

  /** The end of a savepoint rollback that undid something also ends the chain. */
  ghost predicate RollBackEnds(log: seq<LogRecord>, t: Txn, l: LSN) {
    t.phase.RollingBack? && t.left == Base(t) < |t.undo| ==> EndsChain(log, l)
  }

  /** Of one transaction, given its last record. */
  ghost predicate Traced(log: seq<LogRecord>, id: TxnID, t: Txn, l: LSN) {
    && PhaseOk(t) && Chained(log, id) && Follows(log, id, t.lastLSN, |log|)
    && Entries(log, id, t.undo) && TipOk(log, t, l)
    && NeverRolledBack(log, id, t, l) && RollBackEnds(log, t, l)
  }

  ghost predicate WalkOk(s: State, id: TxnID)
    requires id in s.txns
  {
    id in Analyse(s.log) && Traced(s.log, id, s.txns[id], Analyse(s.log)[id].last)
  }

  ghost predicate Bookkept(s: State) {
    LogNumbered(s) && IdsOk(s) && StatusOk(s)
  }

  // ---------------------------------------------------------------- a record more

  /** A record that is no write of `id` leaves the writes of `id` as they are. */
  lemma WritesSame(log: seq<LogRecord>, rec: LogRecord, id: TxnID)
    requires !(rec.WriteRec? && rec.txn == id)
    ensures forall i: int :: WriteOf(log + [rec], id, i) <==> WriteOf(log, id, i)
  {
  }

  lemma FollowsGrows(log: seq<LogRecord>, rec: LogRecord, id: TxnID, prev: LSN, i: nat)
    requires Follows(log, id, prev, i)
    ensures Follows(log + [rec], id, prev, i)
  {
    var more := log + [rec];
    assert forall j: int | j < |log| :: WriteOf(more, id, j) <==> WriteOf(log, id, j);
  }

  lemma ChainedGrows(log: seq<LogRecord>, rec: LogRecord, id: TxnID)
    requires Chained(log, id)
    requires rec.WriteRec? && rec.txn == id ==> Follows(log, id, rec.prev, |log|)
    ensures Chained(log + [rec], id)
  {
    var more := log + [rec];
    forall i: nat | i < |more|
      ensures ChainedAt(more, id, i)
    {
      if WriteOf(more, id, i) {
        assert i < |log| ==> ChainedAt(log, id, i);
        FollowsGrows(log, rec, id, more[i].prev, i);
      }
    }
  }

  lemma FollowsOn(log: seq<LogRecord>, rec: LogRecord, id: TxnID, prev: LSN)
    requires Follows(log, id, prev, |log|) && !(rec.WriteRec? && rec.txn == id)
    ensures Follows(log + [rec], id, prev, |log| + 1)
  {
    WritesSame(log, rec, id);
    FollowsGrows(log, rec, id, prev, |log|);
  }

  lemma EntriesGrow(log: seq<LogRecord>, rec: LogRecord, id: TxnID, es: seq<UndoEntry>)
    requires Entries(log, id, es)
    ensures Entries(log + [rec], id, es)
  {
    forall k | 0 <= k < |es|
      ensures EntryOf(log + [rec], id, es[k])
    {
      assert EntryOf(log, id, es[k]);
    }
  }

  lemma CoversGrow(log: seq<LogRecord>, rec: LogRecord, id: TxnID, es: seq<UndoEntry>)
    requires Covers(log, id, es, |log|) && !(rec.WriteRec? && rec.txn == id)
    ensures Covers(log + [rec], id, es, |log| + 1)
  {
    WritesSame(log, rec, id);
  }

  lemma Another(log: seq<LogRecord>, rec: LogRecord, id: TxnID, t: Txn, l: LSN)
    requires Traced(log, id, t, l) && rec.txn != id
    ensures Traced(log + [rec], id, t, l)
  {
    ChainedGrows(log, rec, id);
    FollowsOn(log, rec, id, t.lastLSN);
    EntriesGrow(log, rec, id, t.undo);
    if !t.rolledBack {
      CoversGrow(log, rec, id, t.undo);
    }
  }

  // ---------------------------------------------------------------- every step keeps the trace

  lemma CoversSnoc(log: seq<LogRecord>, rec: LogRecord, id: TxnID, es: seq<UndoEntry>, e: UndoEntry)
    requires Covers(log, id, es, |log|) && e.lsn == |log| + 1
    ensures Covers(log + [rec], id, es + [e], |log| + 1)
  {
    var both := es + [e];
    forall i: nat | i < |log| + 1 && WriteOf(log + [rec], id, i)
      ensures Has(both, i + 1)
    {
      if i < |log| {
        assert WriteOf(log, id, i) && Has(es, i + 1);
        var k :| 0 <= k < |es| && es[k].lsn == i + 1;
        assert both[k].lsn == i + 1;
      } else {
        assert both[|es|].lsn == i + 1;
      }
    }
  }

  lemma WroteOne(log: seq<LogRecord>, rec: LogRecord, id: TxnID, t: Txn, l: LSN, e: UndoEntry, t': Txn)
    requires Traced(log, id, t, l) && t.phase == Active
    requires rec.WriteRec? && rec.txn == id && rec.prev == t.lastLSN && e.lsn == |log| + 1
    requires t' == t.(undo := t.undo + [e], left := |t.undo| + 1, lastLSN := |log| + 1)
    ensures Traced(log + [rec], id, t', |log| + 1)
  {
    ChainedGrows(log, rec, id);
    EntriesSnoc(log, rec, id, t.undo, e);
    if !t.rolledBack {
      CoversSnoc(log, rec, id, t.undo, e);
    }
  }

  lemma EntriesSnoc(log: seq<LogRecord>, rec: LogRecord, id: TxnID, es: seq<UndoEntry>, e: UndoEntry)
    requires Entries(log, id, es) && rec.WriteRec? && rec.txn == id && e.lsn == |log| + 1
    ensures Entries(log + [rec], id, es + [e])
  {
    EntriesGrow(log, rec, id, es);
    forall k | 0 <= k < |es|
      ensures es[k].lsn < e.lsn
    {
      assert EntryOf(log, id, es[k]);
    }
    assert EntryOf(log + [rec], id, e);
  }

  lemma Undid(log: seq<LogRecord>, id: TxnID, t: Txn, l: LSN, t': Txn)
    requires Traced(log, id, t, l) && t.phase != Active && Base(t) < t.left
    requires t' == t.(left := t.left - 1, lastCLR := |log| + 1, rolledBack := t.rolledBack || t.phase.RollingBack?)
    ensures Traced(log + [Compensation(t, id, |log| + 1)], id, t', |log| + 1)
  {
    var rec := Compensation(t, id, |log| + 1);
    ChainedGrows(log, rec, id);
    FollowsOn(log, rec, id, t.lastLSN);
    EntriesGrow(log, rec, id, t.undo);
    if t.left > 1 {
      assert EntryOf(log, id, t.undo[t.left - 2]);
    }
    if !t.rolledBack {
      CoversGrow(log, rec, id, t.undo);
    }
  }

  lemma Ended(log: seq<LogRecord>, id: TxnID, t: Txn, l: LSN)
    requires Traced(log, id, t, l) && t.phase.RollingBack? && t.left <= Base(t)
    ensures Traced(log, id, Truncated(t), l)
    ensures Pending(Truncated(t)) == Pending(t)
  {
    if Base(t) < |t.undo| {
      CutOff(log, id, t, l, Truncated(t));
    } else {
      Resumed(log, id, t, l, Truncated(t));
    }
  }

  lemma Resumed(log: seq<LogRecord>, id: TxnID, t: Txn, l: LSN, t': Txn)
    requires Traced(log, id, t, l) && t.left == |t.undo| && t' == t.(lastCLR := 0, phase := Active)
    ensures Traced(log, id, t', l)
  {
  }

  lemma CutOff(log: seq<LogRecord>, id: TxnID, t: Txn, l: LSN, t': Txn)
    requires Traced(log, id, t, l) && t.phase.RollingBack? && t.left == Base(t) < |t.undo|
    requires t' == t.(undo := t.undo[..t.left], lastCLR := 0, phase := Active)
    ensures Traced(log, id, t', l)
  {
    assert t.rolledBack;
    EntriesCut(log, id, t.undo, t.left);
    assert TipOk(log, t', l);
  }

  lemma EntriesCut(log: seq<LogRecord>, id: TxnID, es: seq<UndoEntry>, n: nat)
    requires Entries(log, id, es) && n <= |es|
    ensures Entries(log, id, es[..n])
  {
  }

  /** Steps that log nothing for `id` and touch at most its phase and savepoints, or end its
      savepoint rollback. */
  lemma Quiet(s: State, step: Step, id: TxnID, l: LSN)
    requires Enabled(s, step) && id in s.txns && id in Apply(s, step).txns && Traced(s.log, id, s.txns[id], l)
    requires !(step.Write? && step.id == id) && !(step.UndoNext? && step.id == id) && IdsOk(s)
    ensures Traced(s.log, id, Apply(s, step).txns[id], l)
    ensures Appends(s, step).Some? ==> Appends(s, step).value.txn != id
  {
    var t, t' := s.txns[id], Apply(s, step).txns[id];
    if step == EndRollBack(id) {
      Ended(s.log, id, t, l);
    } else {
      QuietTxn(s, step, id);
      Unmoved(s.log, id, t, l, t');
    }
  }

  lemma QuietTxn(s: State, step: Step, id: TxnID)
    requires Enabled(s, step) && id in s.txns && id in Apply(s, step).txns && step != EndRollBack(id)
    requires !(step.Write? && step.id == id) && !(step.UndoNext? && step.id == id) && id <= s.nextID
    ensures var t, t' := s.txns[id], Apply(s, step).txns[id];
            && t' == t.(phase := t'.phase, savepoints := t'.savepoints)
            && (t'.phase == t.phase || t.phase == Active)
  {
  }

  lemma Unmoved(log: seq<LogRecord>, id: TxnID, t: Txn, l: LSN, t': Txn)
    requires Traced(log, id, t, l) && t' == t.(phase := t'.phase, savepoints := t'.savepoints)
    requires t'.phase == t.phase || t.phase == Active
    ensures Traced(log, id, t', l)
  {
  }

  lemma WalkQuiet(s: State, step: Step, id: TxnID)
    requires Enabled(s, step) && id in s.txns && id in Apply(s, step).txns && WalkOk(s, id) && IdsOk(s)
    requires !(step.Write? && step.id == id) && !(step.UndoNext? && step.id == id)
    ensures WalkOk(Apply(s, step), id)
  {
    var l := Analyse(s.log)[id].last;
    LogAfter(s, step);
    Quiet(s, step, id, l);
    if Appends(s, step).Some? {
      var rec := Appends(s, step).value;
      AnalyseStep(s.log, rec);
      Another(s.log, rec, id, Apply(s, step).txns[id], l);
    } else {
      assert s.log + [] == s.log;
    }
  }

  lemma NotedNow(log: seq<LogRecord>, rec: LogRecord)
    requires rec.WriteRec? || rec.CLRRec?
    ensures rec.txn in Analyse(log + [rec]) && Analyse(log + [rec])[rec.txn].last == rec.lsn
  {
    AnalyseStep(log, rec);
  }

  lemma WalkWrite(s: State, step: Step)
    requires step.Write? && Enabled(s, step) && WalkOk(s, step.id)
    ensures WalkOk(Apply(s, step), step.id)
  {
    var id, rec := step.id, Logged(s, step.id, step.row, step.op, step.value);
    NotedNow(s.log, rec);
    WroteOne(s.log, rec, id, s.txns[id], Analyse(s.log)[id].last,
           EntryFor(s.catalog, step.op, step.row, NextLSN(s)), Apply(s, step).txns[id]);
  }

  lemma WalkOkIs(s: State, id: TxnID, t: Txn, log: seq<LogRecord>, l: LSN)
    requires id in s.txns && s.txns[id] == t && s.log == log
    requires id in Analyse(log) && Analyse(log)[id].last == l && Traced(log, id, t, l)
    ensures WalkOk(s, id)
  {
  }

  lemma UndoFields(s: State, id: TxnID, t': Txn, rec: LogRecord)
    requires Enabled(s, UndoNext(id)) && rec == Compensation(s.txns[id], id, NextLSN(s))
    requires var t := s.txns[id];
             t' == t.(left := t.left - 1, lastCLR := NextLSN(s), rolledBack := t.rolledBack || t.phase.RollingBack?)
    ensures var s' := AfterUndo(s, id); s'.log == s.log + [rec] && id in s'.txns && s'.txns[id] == t'
  {
  }

  lemma WalkUndo(s: State, id: TxnID)
    requires Enabled(s, UndoNext(id)) && WalkOk(s, id)
    ensures WalkOk(AfterUndo(s, id), id)
  {
    var t := s.txns[id];
    var t' := t.(left := t.left - 1, lastCLR := NextLSN(s), rolledBack := t.rolledBack || t.phase.RollingBack?);
    UndoFields(s, id, t', Compensation(t, id, NextLSN(s)));
    UndidNoted(s.log, id, t, Analyse(s.log)[id].last, t', AfterUndo(s, id));
  }

  lemma UndidNoted(log: seq<LogRecord>, id: TxnID, t: Txn, l: LSN, t': Txn, s': State)
    requires Traced(log, id, t, l) && t.phase != Active && Base(t) < t.left <= |t.undo|
    requires t' == t.(left := t.left - 1, lastCLR := |log| + 1, rolledBack := t.rolledBack || t.phase.RollingBack?)
    requires s'.log == log + [Compensation(t, id, |log| + 1)] && id in s'.txns && s'.txns[id] == t'
    ensures WalkOk(s', id)
  {
    var rec := Compensation(t, id, |log| + 1);
    Undid(log, id, t, l, t');
    NotedNow(log, rec);
    WalkOkIs(s', id, t', log + [rec], |log| + 1);
  }

  lemma WalkBegin(s: State, timestamp: nat)
    requires Bookkept(s)
    ensures WalkOk(Apply(s, Begin(timestamp)), s.nextID + 1)
  {
    var id, s' := s.nextID + 1, Apply(s, Begin(timestamp));
    AnalyseStep(s.log, BeginRec(NextLSN(s), id, 0, timestamp));
    assert Analysed(Analyse(s.log), id) == Standing(s, id);
    assert forall i: int :: !WriteOf(s'.log, id, i);
    assert Traced(s'.log, id, s'.txns[id], NextLSN(s));
  }

  lemma OnlyBegins(s: State, step: Step, id: TxnID)
    requires Enabled(s, step) && id !in s.txns && id in Apply(s, step).txns
    ensures step == Begin(step.timestamp) && id == s.nextID + 1
  {
  }

  lemma WalkKept(s: State, step: Step, id: TxnID)
    requires Bookkept(s) && Enabled(s, step) && id in Apply(s, step).txns
    requires id in s.txns ==> WalkOk(s, id)
    ensures WalkOk(Apply(s, step), id)
  {
    if id !in s.txns {
      OnlyBegins(s, step, id);
      WalkBegin(s, step.timestamp);
    } else if step.Write? && step.id == id {
      WalkWrite(s, step);
    } else if step.UndoNext? && step.id == id {
      WalkUndo(s, id);
    } else {
      WalkQuiet(s, step, id);
    }
  }

  // ---------------------------------------------------------------- whole runs

  /** Any interleaving of enabled steps, commits after a savepoint rollback included. */
  ghost predicate AnyRun(seed: Store, steps: seq<Step>) {
    forall i: nat | i < |steps| :: Enabled(At(seed, steps, i), steps[i])
  }

  lemma {:induction false} RunBookkept(seed: Store, steps: seq<Step>, i: nat)
    requires AnyRun(seed, steps) && i <= |steps|
    ensures Bookkept(At(seed, steps, i))
  {
    if i > 0 {
      var s := At(seed, steps, i - 1);
      RunBookkept(seed, steps, i - 1);
      Unfold(seed, steps, i - 1);
      NumbersKept(s, steps[i - 1]);
      IdsKept(s, steps[i - 1]);
      StatusKept(s, steps[i - 1]);
    }
  }

  lemma {:induction false} RunWalks(seed: Store, steps: seq<Step>, i: nat, id: TxnID)
    requires AnyRun(seed, steps) && i <= |steps| && id in At(seed, steps, i).txns
    ensures WalkOk(At(seed, steps, i), id)
  {
    if i > 0 {
      Unfold(seed, steps, i - 1);
      RunBookkept(seed, steps, i - 1);
      if id in At(seed, steps, i - 1).txns {
        RunWalks(seed, steps, i - 1, id);
      }
      WalkKept(At(seed, steps, i - 1), steps[i - 1], id);
    }
  }

  /** Main result. At every step of every run, for every in-flight transaction, the walk from the
      last record that the analysis pass notes for it meets exactly the writes still to be undone,
      newest first, if and only if the chain is unbroken. */
  lemma WalkFindsPending(seed: Store, steps: seq<Step>, i: nat, id: TxnID)
    requires AnyRun(seed, steps) && i <= |steps| && id in At(seed, steps, i).txns
    ensures id in Analyse(At(seed, steps, i).log)
    ensures At(seed, steps, i).txns[id].left <= |At(seed, steps, i).txns[id].undo|
    ensures var s := At(seed, steps, i);
            var l := Analyse(s.log)[id].last;
            Walk(s.log, l) == NewestFirst(Pending(s.txns[id])) <==> Unbroken(s.log, id, s.txns[id], l)
  {
    var s := At(seed, steps, i);
    RunWalks(seed, steps, i, id);
    WalkExactly(s.log, id, s.txns[id], Analyse(s.log)[id].last);
  }

  /** The write record holds what it takes to undo it: operation, row and before-image. */
  predicate Reverses(e: UndoEntry, rec: LogRecord) {
    && rec.WriteRec? && rec.op == e.op && rec.row == e.row
    && rec.before == if e.before.Some? then e.before.value else NO_VALUES
  }

  ghost predicate Imaged(log: seq<LogRecord>, id: TxnID, e: UndoEntry) {
    0 < e.lsn <= |log| && log[e.lsn - 1].txn == id && Reverses(e, log[e.lsn - 1])
  }

  ghost predicate AllImaged(log: seq<LogRecord>, id: TxnID, es: seq<UndoEntry>) {
    forall k | 0 <= k < |es| :: Imaged(log, id, es[k])
  }

  lemma ImagedOn(log: seq<LogRecord>, more: seq<LogRecord>, id: TxnID, es: seq<UndoEntry>)
    requires AllImaged(log, id, es) && log <= more
    ensures AllImaged(more, id, es)
  {
    forall k | 0 <= k < |es|
      ensures Imaged(more, id, es[k])
    {
      assert Imaged(log, id, es[k]);
    }
  }

  /** A step leaves the undo log, cuts it, or adds the entry of the write it logs. */
  lemma UndoLogAfter(s: State, step: Step, id: TxnID)
    requires Enabled(s, step) && id in s.txns && id in Apply(s, step).txns && id <= s.nextID
    ensures var es, es' := s.txns[id].undo, Apply(s, step).txns[id].undo;
            es' <= es || (step.Write? && step.id == id && es' == es + [EntryFor(s.catalog, step.op, step.row, NextLSN(s))])
  {
  }

  lemma ImagedKept(s: State, step: Step, id: TxnID)
    requires Enabled(s, step) && IdsOk(s) && id in Apply(s, step).txns
    requires id in s.txns ==> AllImaged(s.log, id, s.txns[id].undo)
    ensures AllImaged(Apply(s, step).log, id, Apply(s, step).txns[id].undo)
  {
    LogAfter(s, step);
    var s' := Apply(s, step);
    if id !in s.txns {
      OnlyBegins(s, step, id);
    } else {
      ImagedOn(s.log, s'.log, id, s.txns[id].undo);
      UndoLogAfter(s, step, id);
      if s'.txns[id].undo <= s.txns[id].undo {
      } else {
        assert Imaged(s'.log, id, EntryFor(s.catalog, step.op, step.row, NextLSN(s)));
      }
    }
  }

  lemma {:induction false} RunImaged(seed: Store, steps: seq<Step>, i: nat, id: TxnID)
    requires AnyRun(seed, steps) && i <= |steps| && id in At(seed, steps, i).txns
    ensures AllImaged(At(seed, steps, i).log, id, At(seed, steps, i).txns[id].undo)
  {
    if i > 0 {
      Unfold(seed, steps, i - 1);
      RunBookkept(seed, steps, i - 1);
      if id in At(seed, steps, i - 1).txns {
        RunImaged(seed, steps, i - 1, id);
      }
      ImagedKept(At(seed, steps, i - 1), steps[i - 1], id);
    }
  }

  /** In every run the log holds the before-image of every write an in-flight transaction may have to
      undo. */
  lemma LogHoldsBeforeImages(seed: Store, steps: seq<Step>, i: nat, id: TxnID, k: nat)
    requires AnyRun(seed, steps) && i <= |steps| && id in At(seed, steps, i).txns && k < |At(seed, steps, i).txns[id].undo|
    ensures var s, e := At(seed, steps, i), At(seed, steps, i).txns[id].undo[k];
            0 < e.lsn <= |s.log| && s.log[e.lsn - 1].txn == id && Reverses(e, s.log[e.lsn - 1])
  {
    RunImaged(seed, steps, i, id);
    assert Imaged(At(seed, steps, i).log, id, At(seed, steps, i).txns[id].undo[k]);
  }

  // ---------------------------------------------------------------- the chain of previous records

  ghost predicate InLog(log: seq<LogRecord>, l: LSN, id: TxnID) {
    0 < l <= |log| && log[l - 1].txn == id
  }

  /** The record names an earlier one of its transaction, unless it is a begin record. */
  ghost predicate PrevOk(log: seq<LogRecord>, i: nat)
    requires i < |log|
  {
    if log[i].BeginRec? then log[i].prev == 0 else InLog(log[..i], log[i].prev, log[i].txn)
  }

  /** What the next record of `id` may name is in the log. */
  ghost predicate PointersOk(log: seq<LogRecord>, id: TxnID, t: Txn) {
    InLog(log, t.lastLSN, id) && (t.lastCLR == 0 || InLog(log, t.lastCLR, id)) && AllImaged(log, id, t.undo)
  }

  lemma PrevNext(s: State, step: Step)
    requires Enabled(s, step) && Appends(s, step).Some? && !Appends(s, step).value.BeginRec?
    requires var id := Appends(s, step).value.txn; id in s.txns ==> PointersOk(s.log, id, s.txns[id])
    ensures InLog(s.log, Appends(s, step).value.prev, Appends(s, step).value.txn)
  {
    if step.UndoNext? {
      var t := s.txns[step.id];
      assert Imaged(s.log, step.id, t.undo[t.left - 1]);
    }
  }

  lemma PointersKept(s: State, step: Step, id: TxnID)
    requires Enabled(s, step) && IdsOk(s) && id in Apply(s, step).txns
    requires id in s.txns ==> PointersOk(s.log, id, s.txns[id])
    ensures PointersOk(Apply(s, step).log, id, Apply(s, step).txns[id])
  {
    LogAfter(s, step);
    ImagedKept(s, step, id);
    if id !in s.txns {
      OnlyBegins(s, step, id);
    }
  }

  lemma {:induction false} RunPointers(seed: Store, steps: seq<Step>, i: nat, id: TxnID)
    requires AnyRun(seed, steps) && i <= |steps| && id in At(seed, steps, i).txns
    ensures PointersOk(At(seed, steps, i).log, id, At(seed, steps, i).txns[id])
  {
    if i > 0 {
      Unfold(seed, steps, i - 1);
      RunBookkept(seed, steps, i - 1);
      if id in At(seed, steps, i - 1).txns {
        RunPointers(seed, steps, i - 1, id);
      }
      PointersKept(At(seed, steps, i - 1), steps[i - 1], id);
    }
  }

  lemma {:induction false} RunPrev(seed: Store, steps: seq<Step>, i: nat, k: nat)
    requires AnyRun(seed, steps) && i <= |steps| && k < |At(seed, steps, i).log|
    ensures PrevOk(At(seed, steps, i).log, k)
  {
    assert i > 0;
    var s, step := At(seed, steps, i - 1), steps[i - 1];
    Unfold(seed, steps, i - 1);
    LogAfter(s, step);
    var log := At(seed, steps, i).log;
    if k < |s.log| {
      RunPrev(seed, steps, i - 1, k);
      assert log[..k] == s.log[..k];
    } else {
      var rec := Appends(s, step).value;
      assert log[..k] == s.log;
      if !rec.BeginRec? {
        if rec.txn in s.txns {
          RunPointers(seed, steps, i - 1, rec.txn);
        }
        PrevNext(s, step);
      }
    }
  }

  /** Follow the previous records to the end. */
  function Origin(log: seq<LogRecord>, l: LSN): LSN {
    if 0 < l <= |log| && 0 < log[l - 1].prev < l then Origin(log, log[l - 1].prev) else l
  }

  /** In every run the previous-record chain of every record, compensations included, leads back to the
      begin record of its transaction. */
  lemma {:induction false} PrevLeadsToBegin(seed: Store, steps: seq<Step>, i: nat, l: LSN)
    requires AnyRun(seed, steps) && i <= |steps| && 0 < l <= |At(seed, steps, i).log|
    ensures var log := At(seed, steps, i).log;
            var o := Origin(log, l);
            0 < o <= |log| && log[o - 1].BeginRec? && log[o - 1].txn == log[l - 1].txn
    decreases l
  {
    var log := At(seed, steps, i).log;
    RunPrev(seed, steps, i, l - 1);
    if !log[l - 1].BeginRec? {
      PrevLeadsToBegin(seed, steps, i, log[l - 1].prev);
    }
  }

  lemma CoversPending(log: seq<LogRecord>, id: TxnID, t: Txn)
    requires Entries(log, id, t.undo) && 0 < t.left <= |t.undo| && Covers(log, id, t.undo, |log|)
    ensures Covers(log, id, Pending(t), t.undo[t.left - 1].lsn)
  {
    var n := t.undo[t.left - 1].lsn;
    forall i: nat | i < n && WriteOf(log, id, i)
      ensures Has(Pending(t), i + 1)
    {
      var k :| 0 <= k < |t.undo| && t.undo[k].lsn == i + 1;
      assert k < t.left && Pending(t)[k].lsn == i + 1;
    }
  }

  /** Without a savepoint rollback the chain is never broken: the walk meets exactly the writes not
      yet compensated, during an abort as well, after any number of compensations. */
  lemma AbortKeepsChain(seed: Store, steps: seq<Step>, i: nat, id: TxnID)
    requires AnyRun(seed, steps) && i <= |steps|
    requires id in At(seed, steps, i).txns && !At(seed, steps, i).txns[id].rolledBack
    ensures id in Analyse(At(seed, steps, i).log)
    ensures At(seed, steps, i).txns[id].left <= |At(seed, steps, i).txns[id].undo|
    ensures Walk(At(seed, steps, i).log, Analyse(At(seed, steps, i).log)[id].last)
         == NewestFirst(Pending(At(seed, steps, i).txns[id]))
  {
    var s := At(seed, steps, i);
    RunWalks(seed, steps, i, id);
    WalkFindsPending(seed, steps, i, id);
    if s.txns[id].left > 0 {
      CoversPending(s.log, id, s.txns[id]);
    }
  }

  /** Every savepoint rollback that undoes something and keeps something breaks the chain: once it
      has ended, the walk finds nothing, though the kept writes would have to be undone. */
  lemma PartialRollBackHides(seed: Store, steps: seq<Step>, i: nat, id: TxnID)
    requires AnyRun(seed, steps) && i < |steps| && steps[i] == EndRollBack(id)
    requires var t := At(seed, steps, i).txns[id]; 0 < t.left < |t.undo|
    ensures var s := At(seed, steps, i + 1);
            && In(s, id, Active) && s.txns[id].left == |s.txns[id].undo| == At(seed, steps, i).txns[id].left
            && id in Analyse(s.log) && Walk(s.log, Analyse(s.log)[id].last) == []
  {
    var s := At(seed, steps, i);
    assert Enabled(s, steps[i]);
    Unfold(seed, steps, i);
    RunWalks(seed, steps, i, id);
    RunWalks(seed, steps, i + 1, id);
    WalkFromTip(At(seed, steps, i + 1).log, id, At(seed, steps, i + 1).txns[id], Analyse(s.log)[id].last);
  }

  // ---------------------------------------------------------------- a run that breaks the chain

  /** Insert two rows, roll back to before the second, insert a third. */
  function Broken(a: Row, b: Row, c: Row, value: Bytes): seq<Step> {
    [Begin(0), Lock(1, a), Write(1, a, OP_INSERT, value), Lock(1, b), Write(1, b, OP_INSERT, value),
     StartRollBack(1, 1), UndoNext(1), EndRollBack(1),
     Lock(1, c), Write(1, c, OP_INSERT, value)]
  }

  function Inserted(lsn: LSN, prev: LSN, row: Row, value: Bytes): LogRecord {
    WriteRec(lsn, 1, prev, prev, OP_INSERT, row, NO_VALUES, value)
  }

  ghost predicate AnyRunTo(seed: Store, steps: seq<Step>, n: nat, s: State) {
    && n <= |steps| && s == At(seed, steps, n)
    && (forall i: nat | i < n :: Enabled(At(seed, steps, i), steps[i]))
  }

  lemma OneMoreStep(seed: Store, steps: seq<Step>, n: nat, s: State)
    requires n < |steps| && AnyRunTo(seed, steps, n, s) && Enabled(s, steps[n])
    ensures AnyRunTo(seed, steps, n + 1, Apply(s, steps[n]))
  {
    Unfold(seed, steps, n);
  }

  /** Lock an absent row and insert it. */
  lemma InsertAt(seed: Store, steps: seq<Step>, n: nat, s: State, row: Row, value: Bytes) returns (s': State)
    requires n + 2 <= |steps| && steps[n] == Lock(1, row) && steps[n + 1] == Write(1, row, OP_INSERT, value)
    requires AnyRunTo(seed, steps, n, s) && In(s, 1, Active) && row !in s.locks && row !in s.catalog
    ensures AnyRunTo(seed, steps, n + 2, s')
    ensures s'.locks == s.locks[row := 1] && s'.catalog == s.catalog[row := value]
    ensures s'.log == s.log + [Inserted(NextLSN(s), s.txns[1].lastLSN, row, value)]
    ensures 1 in s'.txns
    ensures s'.txns[1] == s.txns[1].(undo := s.txns[1].undo + [UndoEntry(OP_INSERT, row, None, NextLSN(s))],
                                     left := |s.txns[1].undo| + 1, lastLSN := NextLSN(s))
  {
    OneMoreStep(seed, steps, n, s);
    var locked := Apply(s, Lock(1, row));
    OneMoreStep(seed, steps, n + 1, locked);
    s' := Apply(locked, Write(1, row, OP_INSERT, value));
  }

  /** Roll back to before the last write. */
  lemma RollBackAt(seed: Store, steps: seq<Step>, n: nat, s: State, p: nat) returns (s': State)
    requires n + 3 <= |steps| && steps[n] == StartRollBack(1, p) && steps[n + 1] == UndoNext(1) && steps[n + 2] == EndRollBack(1)
    requires AnyRunTo(seed, steps, n, s) && In(s, 1, Active)
    requires s.txns[1].lastCLR == 0 && s.txns[1].left == |s.txns[1].undo| == p + 1
    ensures AnyRunTo(seed, steps, n + 3, s')
    ensures s'.locks == s.locks && s'.catalog == UndoOne(s.catalog, s.txns[1].undo[p])
    ensures s'.log == s.log + [CLRRec(NextLSN(s), 1, s.txns[1].undo[p].lsn, 0)]
    ensures 1 in s'.txns
    ensures s'.txns[1] == s.txns[1].(undo := s.txns[1].undo[..p], left := p, rolledBack := true)
  {
    var started, undone;
    started, undone, s' := RollBackStates(s, p);
    OneMoreStep(seed, steps, n, s);
    OneMoreStep(seed, steps, n + 1, started);
    OneMoreStep(seed, steps, n + 2, undone);
  }

  lemma RollBackStates(s: State, p: nat) returns (started: State, undone: State, s': State)
    requires In(s, 1, Active) && s.txns[1].lastCLR == 0 && s.txns[1].left == |s.txns[1].undo| == p + 1
    ensures started == Apply(s, StartRollBack(1, p))
    ensures Enabled(started, UndoNext(1)) && undone == Apply(started, UndoNext(1))
    ensures Enabled(undone, EndRollBack(1)) && s' == Apply(undone, EndRollBack(1))
    ensures s'.locks == s.locks && s'.catalog == UndoOne(s.catalog, s.txns[1].undo[p])
    ensures s'.log == s.log + [CLRRec(NextLSN(s), 1, s.txns[1].undo[p].lsn, 0)]
    ensures 1 in s'.txns
    ensures s'.txns[1] == s.txns[1].(undo := s.txns[1].undo[..p], left := p, rolledBack := true)
  {
    started := Apply(s, StartRollBack(1, p));
    undone := Apply(started, UndoNext(1));
    s' := Apply(undone, EndRollBack(1));
  }

  lemma Begins(seed: Store, steps: seq<Step>) returns (s: State)
    requires |steps| > 0 && steps[0] == Begin(0)
    ensures AnyRunTo(seed, steps, 1, s)
    ensures s == State(seed, seed, map[], map[1 := Txn([], 0, 1, 0, Active, false, [])], {}, {}, 1, [BeginRec(1, 1, 0, 0)])
  {
    assert At(seed, steps, 0) == Initial(seed);
    OneMoreStep(seed, steps, 0, Initial(seed));
    s := Apply(Initial(seed), Begin(0));
  }

  lemma TwoInserts(seed: Store, a: Row, b: Row, value: Bytes, steps: seq<Step>) returns (s: State)
    requires a !in seed && b !in seed && a != b && |steps| > 4 && steps[0] == Begin(0)
    requires steps[1] == Lock(1, a) && steps[2] == Write(1, a, OP_INSERT, value)
    requires steps[3] == Lock(1, b) && steps[4] == Write(1, b, OP_INSERT, value)
    ensures AnyRunTo(seed, steps, 5, s)
    ensures s.locks == map[a := 1, b := 1] && s.catalog == seed[a := value][b := value]
    ensures s.log == [BeginRec(1, 1, 0, 0), Inserted(2, 1, a, value), Inserted(3, 2, b, value)]
    ensures 1 in s.txns
    ensures s.txns[1] == Txn([UndoEntry(OP_INSERT, a, None, 2), UndoEntry(OP_INSERT, b, None, 3)], 2, 3, 0, Active, false, [])
  {
    s := Begins(seed, steps);
    s := InsertAt(seed, steps, 1, s, a, value);
    s := InsertAt(seed, steps, 3, s, b, value);
  }

  /** The transaction and the log after the rollback (`s`) and at the end (`s'`). */
  lemma BrokenRun(seed: Store, a: Row, b: Row, c: Row, value: Bytes, steps: seq<Step>) returns (s: State, s': State)
    requires a !in seed && b !in seed && c !in seed && a != b && c != a && c != b && |steps| == 10
    requires steps[0] == Begin(0) && steps[1] == Lock(1, a) && steps[2] == Write(1, a, OP_INSERT, value)
    requires steps[3] == Lock(1, b) && steps[4] == Write(1, b, OP_INSERT, value)
    requires steps[5] == StartRollBack(1, 1) && steps[6] == UndoNext(1) && steps[7] == EndRollBack(1)
    requires steps[8] == Lock(1, c) && steps[9] == Write(1, c, OP_INSERT, value)
    ensures AnyRunTo(seed, steps, 8, s) && AnyRunTo(seed, steps, 10, s')
    ensures In(s, 1, Active) && In(s', 1, Active)
    ensures s.txns[1].undo == [UndoEntry(OP_INSERT, a, None, 2)] && s.txns[1].left == 1
    ensures s'.txns[1].undo == s.txns[1].undo + [UndoEntry(OP_INSERT, c, None, 5)] && s'.txns[1].left == 2
    ensures s.log == [BeginRec(1, 1, 0, 0), Inserted(2, 1, a, value), Inserted(3, 2, b, value)] + [CLRRec(4, 1, 3, 0)]
    ensures s'.log == s.log + [Inserted(5, 3, c, value)]
  {
    s := RolledBackOne(seed, a, b, value, steps);
    s' := InsertAt(seed, steps, 8, s, c, value);
  }

  lemma RolledBackOne(seed: Store, a: Row, b: Row, value: Bytes, steps: seq<Step>) returns (s: State)
    requires a !in seed && b !in seed && a != b && |steps| == 10
    requires steps[0] == Begin(0) && steps[1] == Lock(1, a) && steps[2] == Write(1, a, OP_INSERT, value)
    requires steps[3] == Lock(1, b) && steps[4] == Write(1, b, OP_INSERT, value)
    requires steps[5] == StartRollBack(1, 1) && steps[6] == UndoNext(1) && steps[7] == EndRollBack(1)
    ensures AnyRunTo(seed, steps, 8, s) && In(s, 1, Active)
    ensures s.locks == map[a := 1, b := 1] && s.catalog == UndoOne(seed[a := value][b := value], UndoEntry(OP_INSERT, b, None, 3))
    ensures s.txns[1].undo == [UndoEntry(OP_INSERT, a, None, 2)] && s.txns[1].left == 1 && s.txns[1].lastLSN == 3
    ensures s.log == [BeginRec(1, 1, 0, 0), Inserted(2, 1, a, value), Inserted(3, 2, b, value)] + [CLRRec(4, 1, 3, 0)]
  {
    s := TwoInserts(seed, a, b, value, steps);
    s := RollBackAt(seed, steps, 5, s, 1);
  }

  lemma WalkFive(log: seq<LogRecord>)
    requires |log| == 5 && log[0].BeginRec? && log[1].WriteRec? && log[1].prev == 1
    requires log[2].WriteRec? && log[2].prev == 2 && log[4].WriteRec? && log[4].prev == 3
    ensures Walk(log, 5) == [5, 3, 2]
  {
    assert Walk(log, 2) == [2] + Walk(log, 1);
    assert Walk(log, 3) == [3] + Walk(log, 2);
  }

  lemma NewestOfTwo(e: UndoEntry, f: UndoEntry)
    ensures NewestFirst([e]) == [e.lsn] && NewestFirst([e, f]) == [f.lsn, e.lsn]
  {
    assert [e, f][..1] == [e] && [e][..0] == [];
  }

  lemma BrokenWalks(log: seq<LogRecord>, log': seq<LogRecord>, t: Txn, t': Txn, a: Row, b: Row, c: Row, value: Bytes)
    requires log == [BeginRec(1, 1, 0, 0), Inserted(2, 1, a, value), Inserted(3, 2, b, value)] + [CLRRec(4, 1, 3, 0)]
    requires log' == log + [Inserted(5, 3, c, value)]
    requires t.undo == [UndoEntry(OP_INSERT, a, None, 2)] && t.left == 1
    requires t'.undo == t.undo + [UndoEntry(OP_INSERT, c, None, 5)] && t'.left == 2
    ensures 1 in Analyse(log) && Walk(log, Analyse(log)[1].last) == [] && NewestFirst(Pending(t)) == [2]
    ensures 1 in Analyse(log') && Walk(log', Analyse(log')[1].last) == [5, 3, 2] && NewestFirst(Pending(t')) == [5, 2]
  {
    NotedNow([BeginRec(1, 1, 0, 0), Inserted(2, 1, a, value), Inserted(3, 2, b, value)], CLRRec(4, 1, 3, 0));
    NotedNow(log, Inserted(5, 3, c, value));
    WalkFive(log');
    NewestOfTwo(UndoEntry(OP_INSERT, a, None, 2), UndoEntry(OP_INSERT, c, None, 5));
    assert Pending(t) == t.undo && Pending(t') == t'.undo;
  }

  /** After the rollback the walk misses the kept insert; after one more insert it meets the
      rolled-back one. */
  lemma SavepointBreaksWalk(seed: Store, a: Row, b: Row, c: Row, value: Bytes) returns (s: State, s': State)
    requires a !in seed && b !in seed && c !in seed && a != b && c != a && c != b
    ensures AnyRunTo(seed, Broken(a, b, c, value), 8, s) && AnyRunTo(seed, Broken(a, b, c, value), 10, s')
    ensures In(s, 1, Active) && 1 in Analyse(s.log) && s.txns[1].left == |s.txns[1].undo|
    ensures Walk(s.log, Analyse(s.log)[1].last) == [] && NewestFirst(Pending(s.txns[1])) == [2]
    ensures In(s', 1, Active) && 1 in Analyse(s'.log) && s'.txns[1].left == |s'.txns[1].undo|
    ensures Walk(s'.log, Analyse(s'.log)[1].last) == [5, 3, 2] && NewestFirst(Pending(s'.txns[1])) == [5, 2]
  {
    var steps := Broken(a, b, c, value);
    s, s' := BrokenRun(seed, a, b, c, value, steps);
    BrokenWalks(s.log, s'.log, s.txns[1], s'.txns[1], a, b, c, value);
  }
}
