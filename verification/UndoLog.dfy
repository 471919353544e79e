/** Undo entries, and what applying them backwards does to the catalog. */
module UndoLog {
  import opened KeyOrder
  import opened Bytes
  import opened WalRecord
  import opened Recovery

  datatype UndoEntry = UndoEntry(op: Byte, row: Row, before: Option<Bytes>, lsn: LSN)

  /** What one 2PL write does to the catalog. */
  function WriteRow(c: Store, op: Byte, row: Row, value: Bytes): Store {
    if op == OP_DELETE then c - {row} else c[row := value]
  }

  /** Reverse one entry: an insert is deleted, anything else gets its before-image back if it has
      one. */
  function UndoOne(c: Store, e: UndoEntry): Store {
    if e.op == OP_INSERT then c - {e.row}
    else if e.before.Some? then c[e.row := e.before.value]
    else c
  }

  /** Reverse a list of entries, newest first. */
  function UndoAll(c: Store, es: seq<UndoEntry>): Store
    decreases |es|
  {
    if es == [] then c else UndoAll(UndoOne(c, es[|es| - 1]), es[..|es| - 1])
  }

  function EntryFor(c: Store, op: Byte, row: Row, lsn: LSN): UndoEntry {
    UndoEntry(op, row, Get(c, row), lsn)
  }

  /** The writes that undo can reverse: an insert of an absent row, an update of a present one, and
      any delete. */
  predicate Reversible(c: Store, op: Byte, row: Row) {
    && op <= OP_DELETE
    && (op == OP_INSERT ==> row !in c)
    && (op == OP_UPDATE ==> row in c)
  }

  /** Undoing a write gives the catalog back exactly when the write was reversible. */
  lemma UndoneExactly(c: Store, op: Byte, row: Row, value: Bytes, lsn: LSN)
    requires op <= OP_DELETE
    ensures UndoOne(WriteRow(c, op, row, value), EntryFor(c, op, row, lsn)) == c <==> Reversible(c, op, row)
  {
    var d := UndoOne(WriteRow(c, op, row, value), EntryFor(c, op, row, lsn));
    if Reversible(c, op, row) {
      forall r
        ensures Get(d, r) == Get(c, r)
      {
      }
      SameStore(d, c);
    } else {
      assert Get(d, row) != Get(c, row);
    }
  }

  lemma {:induction false} UndoAppend(c: Store, a: seq<UndoEntry>, b: seq<UndoEntry>)
    ensures UndoAll(c, a + b) == UndoAll(UndoAll(c, b), a)
    decreases |b|
  {
    if b == [] {
      assert a + b == a;
    } else {
      var n := |b| - 1;
      assert (a + b)[..|a + b| - 1] == a + b[..n];
      UndoAppend(UndoOne(c, b[n]), a, b[..n]);
    }
  }

  /** What undo makes of a row depends on that row alone. */
  lemma {:induction false} UndoLocal(c: Store, d: Store, es: seq<UndoEntry>, r: Row)
    requires Get(c, r) == Get(d, r)
    ensures Get(UndoAll(c, es), r) == Get(UndoAll(d, es), r)
    decreases |es|
  {
    if es != [] {
      var e := es[|es| - 1];
      UndoLocal(UndoOne(c, e), UndoOne(d, e), es[..|es| - 1], r);
    }
  }

  ghost predicate Untouched(es: seq<UndoEntry>, r: Row) {
    forall i | 0 <= i < |es| :: es[i].row != r
  }

  lemma {:induction false} UndoUntouched(c: Store, es: seq<UndoEntry>, r: Row)
    requires Untouched(es, r)
    ensures Get(UndoAll(c, es), r) == Get(c, r)
    decreases |es|
  {
    if es != [] {
      UndoUntouched(UndoOne(c, es[|es| - 1]), es[..|es| - 1], r);
    }
  }
}
