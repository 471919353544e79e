/** Restart recovery: the analysis pass over the log, the redo list, and what redoing it does to a
    store. */
module Recovery {
  import opened KeyOrder
  import opened Bytes
  import opened WalRecord

  type Store = map<Row, Bytes>

  function Get(st: Store, r: Row): Option<Bytes> {
    if r in st then Some(st[r]) else None
  }

  lemma SameStore(a: Store, b: Store)
    requires forall r :: Get(a, r) == Get(b, r)
    ensures a == b
  {
    forall r
      ensures r in a <==> r in b
      ensures r in a ==> a[r] == b[r]
    {
      assert Get(a, r) == Get(b, r);
    }
  }

  // ---------------------------------------------------------------- redo

  /** Redo one write: inserts and updates set the row, deletes remove it. */
  function RedoOne(st: Store, w: LogRecord): Store
    requires w.WriteRec?
  {
    if w.op == OP_INSERT || w.op == OP_UPDATE then st[w.row := w.after]
    else if w.op == OP_DELETE then st - {w.row}
    else st
  }

  function RedoAll(st: Store, ops: seq<LogRecord>): Store
    requires forall w | w in ops :: w.WriteRec?
  {
    if ops == [] then st else RedoOne(RedoAll(st, ops[..|ops| - 1]), ops[|ops| - 1])
  }

  /** Apply a redo list to a store, in log order. */
  method ApplyRedoOps(ops: seq<LogRecord>, st: Store) returns (out: Store)
    requires forall w | w in ops :: w.WriteRec?
    ensures out == RedoAll(st, ops)
  {
    out := st;
    var i := 0;
    while i < |ops|
      invariant i <= |ops| && out == RedoAll(st, ops[..i])
    {
      var w := ops[i];
      assert ops[..i + 1][..i] == ops[..i];
      if w.op == OP_INSERT {
        out := out[w.row := w.after];
      } else if w.op == OP_UPDATE {
        out := out[w.row := w.after];
      } else if w.op == OP_DELETE {
        out := out - {w.row};
      }
      i := i + 1;
    }
    assert ops[..i] == ops;
  }

  /** The writes of the transactions in `winners`, in log order. */
  function WritesOf(log: seq<LogRecord>, winners: set<TxnID>): (ws: seq<LogRecord>)
    ensures forall w | w in ws :: w.WriteRec?
  {
    if log == [] then []
    else
      var rec := log[|log| - 1];
      WritesOf(log[..|log| - 1], winners) + if rec.WriteRec? && rec.txn in winners then [rec] else []
  }

  /** The store after redoing the writes of `winners`. */
  function Replay(seed: Store, log: seq<LogRecord>, winners: set<TxnID>): Store {
    RedoAll(seed, WritesOf(log, winners))
  }

  lemma ReplayStep(seed: Store, log: seq<LogRecord>, rec: LogRecord, winners: set<TxnID>)
    ensures Replay(seed, log + [rec], winners)
         == if rec.WriteRec? && rec.txn in winners then RedoOne(Replay(seed, log, winners), rec)
            else Replay(seed, log, winners)
  {
    assert (log + [rec])[..|log|] == log;
    var ws := WritesOf(log, winners);
    if rec.WriteRec? && rec.txn in winners {
      assert (ws + [rec])[..|ws|] == ws;
    } else {
      assert ws + [] == ws;
    }
  }

  /** The last write to `r` in the log. */
  function LastOn(log: seq<LogRecord>, r: Row): (w: Option<LogRecord>)
    ensures w.Some? ==> w.value.WriteRec? && w.value.row == r
  {
    if log == [] then None
    else
      var rec := log[|log| - 1];
      if rec.WriteRec? && rec.row == r then Some(rec) else LastOn(log[..|log| - 1], r)
  }

  /** The row value a write leaves behind. */
  function Image(w: LogRecord): Option<Bytes>
    requires w.WriteRec?
  {
    if w.op == OP_DELETE then None else Some(w.after)
  }

  predicate ValidOps(log: seq<LogRecord>) {
    forall i | 0 <= i < |log| && log[i].WriteRec? :: log[i].op <= OP_DELETE
  }

  lemma SplitLast(log: seq<LogRecord>)
    requires log != []
    ensures log == log[..|log| - 1] + [log[|log| - 1]]
  {
  }

  /** When the last writer of `r` is a winner, redo ends with what it wrote. */
  lemma {:induction false} ReplayLast(seed: Store, log: seq<LogRecord>, winners: set<TxnID>, r: Row)
    requires ValidOps(log) && LastOn(log, r).Some? && LastOn(log, r).value.txn in winners
    ensures Get(Replay(seed, log, winners), r) == Image(LastOn(log, r).value)
  {
    var n := |log| - 1;
    SplitLast(log);
    ReplayStep(seed, log[..n], log[n], winners);
    if !(log[n].WriteRec? && log[n].row == r) {
      ReplayLast(seed, log[..n], winners, r);
    }
  }

  /** A new winner that never wrote `r` does not change what redo makes of it. */
  lemma {:induction false} ReplayOther(seed: Store, log: seq<LogRecord>, winners: set<TxnID>, t: TxnID, r: Row)
    requires forall i | 0 <= i < |log| && log[i].WriteRec? && log[i].txn == t :: log[i].row != r
    ensures Get(Replay(seed, log, winners + {t}), r) == Get(Replay(seed, log, winners), r)
  {
    if log != [] {
      var n := |log| - 1;
      SplitLast(log);
      ReplayOther(seed, log[..n], winners, t, r);
      ReplayOtherStep(seed, log[..n], log[n], winners, t, r);
    }
  }

  lemma ReplayOtherStep(seed: Store, log: seq<LogRecord>, rec: LogRecord, winners: set<TxnID>, t: TxnID, r: Row)
    requires rec.WriteRec? && rec.txn == t ==> rec.row != r
    requires Get(Replay(seed, log, winners + {t}), r) == Get(Replay(seed, log, winners), r)
    ensures Get(Replay(seed, log + [rec], winners + {t}), r) == Get(Replay(seed, log + [rec], winners), r)
  {
    ReplayStep(seed, log, rec, winners);
    ReplayStep(seed, log, rec, winners + {t});
    if rec.WriteRec? {
      RedoLocal(Replay(seed, log, winners), Replay(seed, log, winners + {t}), rec, r);
    }
  }

  lemma RedoLocal(a: Store, b: Store, w: LogRecord, r: Row)
    requires w.WriteRec? && Get(a, r) == Get(b, r)
    ensures Get(RedoOne(a, w), r) == Get(RedoOne(b, w), r)
    ensures w.row != r ==> Get(RedoOne(b, w), r) == Get(b, r)
  {
  }

  lemma LastOnStep(log: seq<LogRecord>, rec: LogRecord, r: Row)
    ensures LastOn(log + [rec], r) == if rec.WriteRec? && rec.row == r then Some(rec) else LastOn(log, r)
  {
    assert (log + [rec])[..|log|] == log;
  }

  // ---------------------------------------------------------------- analysis

  datatype Status = Live | Won | Lost

  datatype AttEntry = AttEntry(first: LSN, last: LSN, status: Status)

  type Att = map<TxnID, AttEntry>

  function AnalyseOne(att: Att, rec: LogRecord): Att {
    match rec
    case BeginRec(lsn, t, _, _) => if t in att then att else att[t := AttEntry(lsn, lsn, Live)]
    case WriteRec(lsn, t, _, _, _, _, _, _) =>
      att[t := if t in att then att[t].(last := lsn) else AttEntry(lsn, lsn, Live)]
    case CLRRec(lsn, t, _, _) =>
      att[t := if t in att then att[t].(last := lsn) else AttEntry(lsn, lsn, Live)]
    case CommitRec(lsn, t, _) => if t in att then att[t := att[t].(last := lsn, status := Won)] else att
    case AbortRec(lsn, t, _) => if t in att then att[t := att[t].(last := lsn, status := Lost)] else att
  }

  function Analyse(log: seq<LogRecord>): Att {
    if log == [] then map[] else AnalyseOne(Analyse(log[..|log| - 1]), log[|log| - 1])
  }

  lemma AnalyseStep(log: seq<LogRecord>, rec: LogRecord)
    ensures Analyse(log + [rec]) == AnalyseOne(Analyse(log), rec)
  {
    assert (log + [rec])[..|log|] == log;
  }

  function WithStatus(att: Att, status: Status): set<TxnID> {
    set t | t in att && att[t].status == status
  }

  datatype RecoveryResult = RecoveryResult(
    committed: set<TxnID>, aborted: set<TxnID>, redoOps: seq<LogRecord>, undoTxns: map<TxnID, LSN>)

  /** Each transaction's records carry increasing LSNs from 1 on; records of different transactions
      may be in the file out of LSN order. */
  ghost predicate PerTxnOrdered(log: seq<LogRecord>) {
    && (forall i | 0 <= i < |log| :: log[i].lsn >= 1)
    && (forall i, j | 0 <= i < j < |log| && log[i].txn == log[j].txn :: log[i].lsn < log[j].lsn)
  }

  /** A write of `t` is never before the first LSN noted for `t`. */
  lemma {:induction false} FirstLSN(log: seq<LogRecord>, i: nat)
    requires PerTxnOrdered(log) && i < |log| && log[i].WriteRec?
    ensures log[i].txn in Analyse(log) && 1 <= Analyse(log)[log[i].txn].first <= log[i].lsn
  {
    var n := |log| - 1;
    SplitLast(log);
    AnalyseStep(log[..n], log[n]);
    if i < n {
      FirstLSN(log[..n], i);
    } else {
      FirstIsFirst(log[..n], log[n].txn);
      if log[n].txn in Analyse(log[..n]) {
        var j :| 0 <= j < n && log[j].txn == log[n].txn && log[j].lsn == Analyse(log[..n])[log[n].txn].first;
      }
    }
  }

  lemma {:induction false} FirstIsFirst(log: seq<LogRecord>, t: TxnID)
    ensures t in Analyse(log) ==>
              exists j :: 0 <= j < |log| && log[j].txn == t && log[j].lsn == Analyse(log)[t].first
  {
    if log != [] {
      var n := |log| - 1;
      SplitLast(log);
      AnalyseStep(log[..n], log[n]);
      FirstIsFirst(log[..n], t);
      if t in Analyse(log) {
        if t in Analyse(log[..n]) {
          var j :| 0 <= j < n && log[..n][j].txn == t && log[..n][j].lsn == Analyse(log[..n])[t].first;
          assert log[j] == log[..n][j];
        } else {
          assert log[n].txn == t;
        }
      }
    }
  }

  ghost predicate Numbered(att: Att) {
    forall t | t in att :: att[t].first >= 1
  }

  /** The oldest first-LSN in the table, 0 when it is empty; the table is visited in any order. */
  method RedoStart(att: Att) returns (start: LSN)
    ensures Numbered(att) ==> (start == 0 <==> att == map[]) && forall t | t in att :: start <= att[t].first
  {
    start := 0;
    var todo := att.Keys;
    while todo != {}
      invariant todo <= att.Keys
      invariant Numbered(att) ==> (start == 0 <==> todo == att.Keys)
      invariant Numbered(att) ==> forall t | t in att.Keys - todo :: start <= att[t].first
      decreases todo
    {
      var t :| t in todo;
      if start == 0 || att[t].first < start {
        start := att[t].first;
      }
      todo := todo - {t};
    }
  }

  lemma {:induction false} SinceAll(log: seq<LogRecord>, from: LSN)
    requires forall i | 0 <= i < |log| :: log[i].lsn >= from
    ensures Since(log, from) == log
  {
    if log != [] {
      SplitLast(log);
      SinceAll(log[..|log| - 1], from);
    }
  }

  lemma {:induction false} AllNumbered(log: seq<LogRecord>)
    requires forall i | 0 <= i < |log| :: log[i].lsn >= 1
    ensures Numbered(Analyse(log))
  {
    if log != [] {
      SplitLast(log);
      AnalyseStep(log[..|log| - 1], log[|log| - 1]);
      AllNumbered(log[..|log| - 1]);
    }
  }

  method Analysis(recs: seq<LogRecord>) returns (att: Att)
    ensures att == Analyse(recs)
  {
    att := map[];
    var i := 0;
    while i < |recs|
      invariant i <= |recs| && att == Analyse(recs[..i])
    {
      assert recs[..i + 1] == recs[..i] + [recs[i]];
      AnalyseStep(recs[..i], recs[i]);
      match recs[i] {
        case BeginRec(lsn, t, _, _) =>
          if t !in att {
            att := att[t := AttEntry(lsn, lsn, Live)];
          }
        case WriteRec(lsn, t, _, _, _, _, _, _) =>
          if t in att {
            att := att[t := att[t].(last := lsn)];
          } else {
            att := att[t := AttEntry(lsn, lsn, Live)];
          }
        case CLRRec(lsn, t, _, _) =>
          if t in att {
            att := att[t := att[t].(last := lsn)];
          } else {
            att := att[t := AttEntry(lsn, lsn, Live)];
          }
        case CommitRec(lsn, t, _) =>
          if t in att {
            att := att[t := att[t].(last := lsn, status := Won)];
          }
        case AbortRec(lsn, t, _) =>
          if t in att {
            att := att[t := att[t].(last := lsn, status := Lost)];
          }
      }
      i := i + 1;
    }
    assert recs[..i] == recs;
  }

  /** The redo list, from records at or after `start`. */
  method RedoPass(log: seq<LogRecord>, start: LSN, att: Att) returns (ops: seq<LogRecord>)
    ensures (forall i | 0 <= i < |log| && log[i].WriteRec? :: log[i].lsn >= start) ==>
              ops == WritesOf(log, WithStatus(att, Won))
    ensures forall w | w in ops :: w.WriteRec? && w.txn in WithStatus(att, Won)
  {
    ops := [];
    var i := 0;
    while i < |log|
      invariant i <= |log|
      invariant (forall i | 0 <= i < |log| && log[i].WriteRec? :: log[i].lsn >= start) ==>
                  ops == WritesOf(log[..i], WithStatus(att, Won))
      invariant forall w | w in ops :: w.WriteRec? && w.txn in WithStatus(att, Won)
    {
      var rec := log[i];
      assert log[..i + 1][..i] == log[..i];
      if rec.lsn >= start && rec.WriteRec? && rec.txn in att && att[rec.txn].status == Won {
        ops := ops + [rec];
      }
      i := i + 1;
    }
    assert log[..i] == log;
  }

  /** Redo from the oldest first LSN on; nothing if nobody is in the table. */
  method RedoFrom(log: seq<LogRecord>, att: Att) returns (ops: seq<LogRecord>)
    requires att == Analyse(Since(log, 1))
    ensures PerTxnOrdered(log) ==> ops == WritesOf(log, WithStatus(att, Won))
    ensures forall w | w in ops :: w.WriteRec? && w.txn in WithStatus(att, Won)
  {
    var start := RedoStart(att);
    ops := [];
    if start != 0 {
      ops := RedoPass(log, start, att);
    }
    if PerTxnOrdered(log) {
      RedoComplete(log, att, start);
    }
  }

  /** Recovery over the records of a log file. */
  method RunRecovery(log: seq<LogRecord>) returns (res: RecoveryResult)
    ensures var att := Analyse(Since(log, 1));
            && res.committed == WithStatus(att, Won)
            && res.aborted == WithStatus(att, Lost)
            && res.undoTxns == map t | t in att && att[t].status == Live :: att[t].last
    ensures PerTxnOrdered(log) ==> res.redoOps == WritesOf(log, WithStatus(Analyse(log), Won))
    ensures forall w | w in res.redoOps :: w.WriteRec? && w.txn in res.committed
  {
    var recs := Since(log, 1);
    var att := Analysis(recs);
    var ops := RedoFrom(log, att);
    if PerTxnOrdered(log) {
      SinceAll(log, 1);
    }
    var undo := map t | t in att && att[t].status == Live :: att[t].last;
    res := RecoveryResult(WithStatus(att, Won), WithStatus(att, Lost), ops, undo);
  }

  /** Starting redo at the oldest first-LSN skips no write of a winner. */
  lemma RedoComplete(log: seq<LogRecord>, att: Att, start: LSN)
    requires PerTxnOrdered(log) && att == Analyse(Since(log, 1))
    requires Numbered(att) ==> (start == 0 <==> att == map[]) && forall t | t in att :: start <= att[t].first
    ensures Since(log, 1) == log
    ensures forall i | 0 <= i < |log| && log[i].WriteRec? :: log[i].lsn >= start
    ensures start == 0 ==> WritesOf(log, WithStatus(att, Won)) == []
  {
    SinceAll(log, 1);
    AllNumbered(log);
    StartBelow(log, att, start);
    if start == 0 {
      assert WithStatus(att, Won) == {};
      NoWinners(log);
    }
  }

  lemma StartBelow(log: seq<LogRecord>, att: Att, start: LSN)
    requires PerTxnOrdered(log) && att == Analyse(log) && forall t | t in att :: start <= att[t].first
    ensures forall i | 0 <= i < |log| && log[i].WriteRec? :: log[i].lsn >= start
  {
    forall i | 0 <= i < |log| && log[i].WriteRec?
      ensures log[i].lsn >= start
    {
      FirstLSN(log, i);
    }
  }

  lemma {:induction false} NoWinners(log: seq<LogRecord>)
    ensures WritesOf(log, {}) == []
  {
    if log != [] {
      NoWinners(log[..|log| - 1]);
    }
  }
}
