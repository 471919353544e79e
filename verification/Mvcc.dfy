/** Multi-version transactions over version chains: begin with a snapshot, insert, update, delete,
    commit, abort and the undo of an abort, interleaved in any order. */
module Mvcc {
  import opened KeyOrder
  import opened Bytes
  import opened WalRecord
  import opened Visibility

  /** Newest version first. */
  type Chain = seq<Version>

  // ---------------------------------------------------------------- searching and editing a chain

  /** The position of the first version with `p`, the chain's length if there is none. */
  function FirstIndex(c: Chain, p: Version -> bool): (i: nat)
    ensures i <= |c| && (i < |c| ==> p(c[i])) && forall j | 0 <= j < i :: !p(c[j])
  {
    if c == [] || p(c[0]) then 0 else 1 + FirstIndex(c[1..], p)
  }

  function VisibleTo(me: TxnID, snap: Snapshot, st: Status): Version -> bool {
    v => IsVisible(v, me, snap, st)
  }

  function SeenBy(me: TxnID, done: set<TxnID>): Version -> bool {
    v => Seen(v, me, done)
  }

  function CreatedFor(me: TxnID, done: set<TxnID>): Version -> bool {
    v => Created(v, me, done)
  }

  lemma FirstIs(c: Chain, p: Version -> bool, i: nat)
    requires i <= |c| && (i < |c| ==> p(c[i])) && forall j | 0 <= j < i :: !p(c[j])
    ensures FirstIndex(c, p) == i
  {
  }

  function Conflicts(v: Version, me: TxnID, snap: Snapshot, st: Status): bool {
    v.xmin != me && (v.xmin in st.active || (v.xmin in snap.active && v.xmin in st.committed))
  }

  predicate WriteConflict(c: Chain, me: TxnID, snap: Snapshot, st: Status) {
    exists i :: 0 <= i < |c| && Conflicts(c[i], me, snap, st)
  }

  function Superseded(c: Chain, i: nat, u: TxnID): Chain
    requires i < |c|
  {
    c[i := c[i].(xmax := u)]
  }

  /** Drop the versions `u` created. */
  function Removed(c: Chain, u: TxnID): Chain {
    if c == [] then [] else (if c[0].xmin == u then [] else [c[0]]) + Removed(c[1..], u)
  }

  function Unmarked(v: Version, u: TxnID): Version {
    if v.xmax == u then v.(xmax := 0) else v
  }

  /** Take back the deletions `u` made. */
  function Cleared(c: Chain, u: TxnID): Chain {
    seq(|c|, i requires 0 <= i < |c| => Unmarked(c[i], u))
  }

  // ---------------------------------------------------------------- the state machine

  /** `begunAt` remembers the statuses when a transaction took its snapshot. */
  datatype State = State(
    st: Status, snaps: map<TxnID, Snapshot>, begunAt: map<TxnID, Status>, chains: map<Row, Chain>, nextRef: nat)

  datatype Step =
    | Begin(snap: Snapshot)
    | Insert(id: TxnID, row: Row, data: Bytes)
    | Update(id: TxnID, row: Row, data: Bytes)
    | Delete(id: TxnID, row: Row)
    | Commit(id: TxnID)
    | Abort(id: TxnID)
    | UndoCreate(id: TxnID, row: Row)
    | UndoDelete(id: TxnID, row: Row)

  function ChainOf(s: State, row: Row): Chain {
    if row in s.chains then s.chains[row] else []
  }

  predicate Open(s: State, id: TxnID) {
    id in s.st.active && id in s.snaps && id in s.begunAt
  }

  /** Where the version is that `id` sees. */
  function Target(s: State, id: TxnID, row: Row): (i: nat)
    requires Open(s, id)
    ensures i <= |ChainOf(s, row)|
  {
    FirstIndex(ChainOf(s, row), VisibleTo(id, s.snaps[id], s.st))
  }

  function Read(s: State, id: TxnID, row: Row): Option<Version>
    requires Open(s, id)
  {
    var i := Target(s, id, row);
    if i < |ChainOf(s, row)| then Some(ChainOf(s, row)[i]) else None
  }

  ghost predicate MayWrite(s: State, id: TxnID, row: Row) {
    Open(s, id) && !WriteConflict(ChainOf(s, row), id, s.snaps[id], s.st)
  }

  ghost predicate Enabled(s: State, step: Step) {
    match step
    case Begin(snap) =>
      var id := s.st.nextID + 1;
      TakenFor(snap, id, Happen(s.st, Began)) && id !in snap.active
    case Insert(id, row, _) => MayWrite(s, id, row)
    case Update(id, row, _) => MayWrite(s, id, row) && Target(s, id, row) < |ChainOf(s, row)|
    case Delete(id, row) => MayWrite(s, id, row) && Target(s, id, row) < |ChainOf(s, row)|
    case Commit(id) => Open(s, id)
    case Abort(id) => Open(s, id)
    case UndoCreate(id, _) => id in s.st.aborted
    case UndoDelete(id, _) => id in s.st.aborted
  }

  function Prepended(s: State, id: TxnID, c: Chain, data: Bytes): Chain {
    [Version(s.nextRef, id, 0, data)] + c
  }

  ghost function Apply(s: State, step: Step): State
    requires Enabled(s, step)
  {
    match step
    case Begin(snap) =>
      var id := s.st.nextID + 1;
      s.(st := Happen(s.st, Began), snaps := s.snaps[id := snap], begunAt := s.begunAt[id := Happen(s.st, Began)])
    case Insert(id, row, data) =>
      s.(chains := s.chains[row := Prepended(s, id, ChainOf(s, row), data)], nextRef := s.nextRef + 1)
    case Update(id, row, data) =>
      var c := Superseded(ChainOf(s, row), Target(s, id, row), id);
      s.(chains := s.chains[row := Prepended(s, id, c, data)], nextRef := s.nextRef + 1)
    case Delete(id, row) => s.(chains := s.chains[row := Superseded(ChainOf(s, row), Target(s, id, row), id)])
    case Commit(id) => s.(st := Happen(s.st, Committed(id)))
    case Abort(id) => s.(st := Happen(s.st, Aborted(id)))
    case UndoCreate(id, row) => s.(chains := s.chains[row := Removed(ChainOf(s, row), id)])
    case UndoDelete(id, row) => s.(chains := s.chains[row := Cleared(ChainOf(s, row), id)])
  }

  // ---------------------------------------------------------------- invariant

  /** The snapshot of `id` was taken when the statuses were `begunAt[id]`. */
  ghost predicate SnapOk(s: State, id: TxnID) {
    && Open(s, id)
    && StatusInv(s.begunAt[id]) && Later(s.begunAt[id], s.st)
    && TakenFor(s.snaps[id], id, s.begunAt[id]) && id in s.begunAt[id].active
  }

  ghost predicate IdsKnown(c: Chain, st: Status) {
    forall i | 0 <= i < |c| :: c[i].xmin <= st.nextID && c[i].xmax <= st.nextID
  }

  /** Uncommitted versions of one row belong to one transaction. */
  ghost predicate OneWriter(c: Chain, st: Status) {
    forall i, j | 0 <= i < |c| && 0 <= j < |c| && c[i].xmin in st.active && c[j].xmin in st.active :: c[i].xmin == c[j].xmin
  }

  /** Newer versions are younger objects. */
  ghost predicate Ordered(c: Chain, nextRef: nat) {
    && (forall i | 0 <= i < |c| :: c[i].ref < nextRef)
    && (forall i, j | 0 <= i < j < |c| :: c[i].ref > c[j].ref)
  }

  ghost predicate ChainFits(c: Chain, st: Status, nextRef: nat) {
    IdsKnown(c, st) && OneWriter(c, st) && Ordered(c, nextRef)
  }

  ghost predicate ChainOk(s: State, row: Row) {
    ChainFits(ChainOf(s, row), s.st, s.nextRef)
  }

  ghost predicate Inv(s: State) {
    && StatusInv(s.st)
    && (forall id | id in s.st.active :: SnapOk(s, id))
    && (forall row :: ChainOk(s, row))
  }

  /** Whoever superseded a version and did not abort has a newer version in the chain. */
  ghost predicate Succeeded(c: Chain, i: nat)
    requires i < |c|
  {
    exists j :: 0 <= j < i && c[j].xmin == c[i].xmax
  }

  ghost predicate Succession(c: Chain, st: Status) {
    forall i: nat | i < |c| && c[i].xmax != 0 && c[i].xmax !in st.aborted :: Succeeded(c, i)
  }

  ghost predicate NoGaps(s: State) {
    forall row :: Succession(ChainOf(s, row), s.st)
  }

  // ---------------------------------------------------------------- the read through the simple test

  lemma TargetIsFirstSeen(s: State, id: TxnID, row: Row)
    requires Inv(s) && id in s.st.active
    ensures SnapOk(s, id)
    ensures Target(s, id, row) == FirstIndex(ChainOf(s, row), SeenBy(id, s.begunAt[id].committed))
  {
    assert SnapOk(s, id) && ChainOk(s, row);
    var c, p := ChainOf(s, row), VisibleTo(id, s.snaps[id], s.st);
    forall i | 0 <= i < |c|
      ensures p(c[i]) == Seen(c[i], id, s.begunAt[id].committed)
    {
      VisibleIsSeen(c[i], id, s.snaps[id], s.begunAt[id], s.st);
    }
    FirstIs(c, SeenBy(id, s.begunAt[id].committed), Target(s, id, row));
  }

  /** Without deletes, a transaction reads the newest version whose creator is itself or had
      committed when its snapshot was taken. */
  lemma ReadsNewestCreated(s: State, id: TxnID, row: Row)
    requires Inv(s) && NoGaps(s) && id in s.st.active
    ensures SnapOk(s, id)
    ensures Target(s, id, row) == FirstIndex(ChainOf(s, row), CreatedFor(id, s.begunAt[id].committed))
  {
    TargetIsFirstSeen(s, id, row);
    var c, done := ChainOf(s, row), s.begunAt[id].committed;
    var i := FirstIndex(c, CreatedFor(id, done));
    assert Succession(c, s.st);
    assert i < |c| ==> !Deleted(c[i], id, done);
    FirstIs(c, SeenBy(id, done), i);
  }

  // ---------------------------------------------------------------- every step keeps the invariant

  lemma {:induction false} RemovedHas(c: Chain, u: TxnID)
    ensures forall i | 0 <= i < |Removed(c, u)| :: Removed(c, u)[i] in c
    ensures forall n: nat | Ordered(c, n) :: Ordered(Removed(c, u), n)
  {
    if c != [] {
      RemovedHas(c[1..], u);
      forall n: nat | Ordered(c, n)
        ensures Ordered(Removed(c, u), n)
      {
        assert Ordered(c[1..], n);
        assert forall v | v in c[1..] :: v.ref < c[0].ref;
      }
    }
  }

  lemma SnapsKept(s: State, step: Step, id: TxnID)
    requires Inv(s) && Enabled(s, step) && id in Apply(s, step).st.active
    ensures SnapOk(Apply(s, step), id)
  {
    assert id in s.st.active ==> SnapOk(s, id);
    match step {
      case Begin(_) => EventKeeps(s.st, Began);
      case Commit(x) => EventKeeps(s.st, Committed(x));
      case Abort(x) => EventKeeps(s.st, Aborted(x));
      case _ =>
    }
  }

  lemma StatusKept(s: State, step: Step)
    requires Inv(s) && Enabled(s, step)
    ensures StatusInv(Apply(s, step).st) && Later(s.st, Apply(s, step).st)
  {
    match step {
      case Begin(_) => EventKeeps(s.st, Began);
      case Commit(x) => EventKeeps(s.st, Committed(x));
      case Abort(x) => EventKeeps(s.st, Aborted(x));
      case _ =>
    }
  }

  lemma ChainAged(c: Chain, a: Status, b: Status, m: nat, n: nat)
    requires ChainFits(c, a, m) && a.nextID <= b.nextID && m <= n
    requires forall id | id in b.active && id <= a.nextID :: id in a.active
    ensures ChainFits(c, b, n)
  {
  }

  lemma ChainWritten(c: Chain, i: nat, id: TxnID, v: Version, st: Status)
    requires IdsKnown(c, st) && Ordered(c, v.ref) && id <= st.nextID && v.xmin == id && v.xmax == 0
    requires forall k | 0 <= k < |c| && c[k].xmin in st.active :: c[k].xmin == id
    ensures ChainFits([v] + c, st, v.ref + 1)
    ensures i < |c| ==> ChainFits(Superseded(c, i, id), st, v.ref) && ChainFits([v] + Superseded(c, i, id), st, v.ref + 1)
  {
    if i < |c| {
      var d := Superseded(c, i, id);
      assert forall k | 0 <= k < |d| :: d[k].xmin == c[k].xmin && d[k].ref == c[k].ref;
      HeadFits(d, v, st);
    }
    HeadFits(c, v, st);
  }

  lemma HeadFits(c: Chain, v: Version, st: Status)
    requires IdsKnown(c, st) && Ordered(c, v.ref) && v.xmin <= st.nextID && v.xmax == 0
    requires forall k | 0 <= k < |c| && c[k].xmin in st.active :: c[k].xmin == v.xmin
    ensures ChainFits([v] + c, st, v.ref + 1)
  {
  }

  lemma ChainUndone(c: Chain, id: TxnID, st: Status, n: nat)
    requires ChainFits(c, st, n)
    ensures ChainFits(Removed(c, id), st, n) && ChainFits(Cleared(c, id), st, n)
  {
    RemovedHas(c, id);
  }

  lemma ChainKept(s: State, step: Step, row: Row)
    requires Inv(s) && Enabled(s, step)
    ensures ChainOk(Apply(s, step), row)
  {
    var c := ChainOf(s, row);
    assert ChainOk(s, row);
    ChainAged(c, s.st, Apply(s, step).st, s.nextRef, Apply(s, step).nextRef);
    match step {
      case Insert(id, r, data) =>
        WriterAlone(s, id, row);
        if r == row {
          ChainWritten(c, 0, id, Version(s.nextRef, id, 0, data), s.st);
        }
      case Update(id, r, data) =>
        WriterAlone(s, id, row);
        if r == row {
          ChainWritten(c, Target(s, id, row), id, Version(s.nextRef, id, 0, data), s.st);
        }
      case Delete(id, r) =>
        WriterAlone(s, id, row);
        if r == row {
          ChainWritten(c, Target(s, id, row), id, Version(s.nextRef, id, 0, []), s.st);
        }
      case UndoCreate(id, _) => ChainUndone(c, id, s.st, s.nextRef);
      case UndoDelete(id, _) => ChainUndone(c, id, s.st, s.nextRef);
      case _ =>
    }
  }

  /** A write that is let through meets no other transaction's uncommitted version. */
  lemma WriterAlone(s: State, id: TxnID, row: Row)
    requires StatusInv(s.st)
    ensures MayWrite(s, id, row) ==> id <= s.st.nextID
    ensures MayWrite(s, id, row) ==>
              forall i | 0 <= i < |ChainOf(s, row)| && ChainOf(s, row)[i].xmin in s.st.active :: ChainOf(s, row)[i].xmin == id
  {
    if MayWrite(s, id, row) {
      assert id in s.st.active + s.st.committed + s.st.aborted;
      forall i | 0 <= i < |ChainOf(s, row)| && ChainOf(s, row)[i].xmin in s.st.active
        ensures ChainOf(s, row)[i].xmin == id
      {
        assert !Conflicts(ChainOf(s, row)[i], id, s.snaps[id], s.st);
      }
    }
  }

  lemma InvKept(s: State, step: Step)
    requires Inv(s) && Enabled(s, step)
    ensures Inv(Apply(s, step))
  {
    var s' := Apply(s, step);
    StatusKept(s, step);
    forall id | id in s'.st.active
      ensures SnapOk(s', id)
    {
      SnapsKept(s, step, id);
    }
    forall row
      ensures ChainOk(s', row)
    {
      ChainKept(s, step, row);
    }
  }

  // ---------------------------------------------------------------- succession without deletes

  lemma SuccessionAged(c: Chain, a: Status, b: Status)
    requires Succession(c, a) && a.aborted <= b.aborted
    ensures Succession(c, b)
  {
  }

  lemma SuccessionPrepend(c: Chain, v: Version, st: Status)
    requires Succession(c, st) && v.xmax == 0
    ensures Succession([v] + c, st)
  {
    var d := [v] + c;
    forall i: nat | i < |d| && d[i].xmax != 0 && d[i].xmax !in st.aborted
      ensures Succeeded(d, i)
    {
      assert Succeeded(c, i - 1);
      var j :| 0 <= j < i - 1 && c[j].xmin == c[i - 1].xmax;
      assert d[j + 1].xmin == d[i].xmax;
    }
  }

  lemma SuccessionUpdate(c: Chain, i: nat, v: Version, st: Status)
    requires Succession(c, st) && i < |c| && v.xmax == 0
    ensures Succession([v] + Superseded(c, i, v.xmin), st)
  {
    var d := [v] + Superseded(c, i, v.xmin);
    forall k: nat | k < |d| && d[k].xmax != 0 && d[k].xmax !in st.aborted
      ensures Succeeded(d, k)
    {
      if k == i + 1 {
        assert d[0].xmin == d[k].xmax;
      } else {
        assert Succeeded(c, k - 1);
        var j :| 0 <= j < k - 1 && c[j].xmin == c[k - 1].xmax;
        assert d[j + 1].xmin == d[k].xmax;
      }
    }
  }

  /** In a filtered chain, the versions before a kept one are the kept ones before it. */
  lemma {:induction false} RemovedBefore(c: Chain, u: TxnID, k: nat) returns (i: nat)
    requires k < |Removed(c, u)|
    ensures i < |c| && Removed(c, u)[k] == c[i]
    ensures forall j | 0 <= j < i && c[j].xmin != u :: exists m :: 0 <= m < k && Removed(c, u)[m] == c[j]
  {
    var rest := Removed(c[1..], u);
    if c[0].xmin == u {
      i := RemovedBefore(c[1..], u, k);
      i := i + 1;
      assert Removed(c, u) == rest;
      forall j | 0 <= j < i && c[j].xmin != u
        ensures exists m :: 0 <= m < k && Removed(c, u)[m] == c[j]
      {
        assert c[1..][j - 1] == c[j];
        var m :| 0 <= m < k && rest[m] == c[1..][j - 1];
      }
    } else if k == 0 {
      i := 0;
    } else {
      i := RemovedBefore(c[1..], u, k - 1);
      i := i + 1;
      forall j | 0 <= j < i && c[j].xmin != u
        ensures exists m :: 0 <= m < k && Removed(c, u)[m] == c[j]
      {
        if j == 0 {
          assert Removed(c, u)[0] == c[0];
        } else {
          assert c[1..][j - 1] == c[j];
          var m :| 0 <= m < k - 1 && rest[m] == c[j];
          assert Removed(c, u)[m + 1] == c[j];
        }
      }
    }
  }

  lemma SuccessionRemoved(c: Chain, u: TxnID, st: Status)
    requires Succession(c, st) && u in st.aborted
    ensures Succession(Removed(c, u), st)
  {
    var d := Removed(c, u);
    forall k: nat | k < |d| && d[k].xmax != 0 && d[k].xmax !in st.aborted
      ensures Succeeded(d, k)
    {
      var i := RemovedBefore(c, u, k);
      assert Succeeded(c, i);
      var j :| 0 <= j < i && c[j].xmin == c[i].xmax;
      assert c[j].xmin != u;
      var m :| 0 <= m < k && d[m] == c[j];
      assert d[m].xmin == d[k].xmax;
    }
  }

  lemma SuccessionCleared(c: Chain, u: TxnID, st: Status)
    requires Succession(c, st)
    ensures Succession(Cleared(c, u), st)
  {
    var d := Cleared(c, u);
    forall k: nat | k < |d| && d[k].xmax != 0 && d[k].xmax !in st.aborted
      ensures Succeeded(d, k)
    {
      assert Succeeded(c, k);
      var j :| 0 <= j < k && c[j].xmin == c[k].xmax;
      assert d[j].xmin == d[k].xmax;
    }
  }

  /** Every step but a delete keeps the succession. */
  lemma NoGapsKept(s: State, step: Step)
    requires Inv(s) && NoGaps(s) && Enabled(s, step) && !step.Delete?
    ensures NoGaps(Apply(s, step))
  {
    var s' := Apply(s, step);
    StatusKept(s, step);
    forall row
      ensures Succession(ChainOf(s', row), s'.st)
    {
      var c := ChainOf(s, row);
      assert Succession(c, s.st);
      SuccessionAged(c, s.st, s'.st);
      if !step.Begin? && !step.Commit? && !step.Abort? && step.row == row {
        match step {
          case Insert(id, _, data) => SuccessionPrepend(c, Version(s.nextRef, id, 0, data), s.st);
          case Update(id, _, data) => SuccessionUpdate(c, Target(s, id, row), Version(s.nextRef, id, 0, data), s.st);
          case UndoCreate(id, _) => SuccessionRemoved(c, id, s.st);
          case UndoDelete(id, _) => SuccessionCleared(c, id, s.st);
        }
      }
    }
  }
}
