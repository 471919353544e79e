/** Snapshots, and which row versions a transaction sees through one. */
module Visibility {
  import opened KeyOrder
  import opened Bytes
  import opened WalRecord

  /** One version of a row. `ref` names the object; `xmax` is 0 while nobody deleted it. */
  datatype Version = Version(ref: nat, xmin: TxnID, xmax: TxnID, data: Bytes)

  /** `active` lists the transactions running when the snapshot was taken, in no particular order. */
  datatype Snapshot = Snapshot(xmin: TxnID, xmax: TxnID, active: seq<TxnID>)

  /** The manager's status maps. */
  datatype Status = Status(nextID: TxnID, active: set<TxnID>, committed: set<TxnID>, aborted: set<TxnID>)

  predicate IsVisible(v: Version, me: TxnID, snap: Snapshot, st: Status) {
    var selfCreated := v.xmin == me;
    var committedBeforeSnapshot := v.xmin < snap.xmin && v.xmin !in st.aborted;
    var committedDuringWindow :=
      snap.xmin <= v.xmin < snap.xmax && v.xmin in st.committed && v.xmin !in snap.active;
    if !(selfCreated || committedBeforeSnapshot || committedDuringWindow) then false
    else if v.xmax == 0 then true
    else if v.xmax == me then false
    else if v.xmax in snap.active then true
    else if v.xmax >= snap.xmax then true
    else v.xmax in st.aborted
  }

  /** The creator is me or had committed when the snapshot was taken. */
  predicate Created(v: Version, me: TxnID, done: set<TxnID>) {
    v.xmin == me || v.xmin in done
  }

  /** The deleter is me or had committed when the snapshot was taken. */
  predicate Deleted(v: Version, me: TxnID, done: set<TxnID>) {
    v.xmax != 0 && (v.xmax == me || v.xmax in done)
  }

  /** The simple test: it looks only at who had committed when the snapshot was taken. */
  predicate Seen(v: Version, me: TxnID, done: set<TxnID>) {
    Created(v, me, done) && !Deleted(v, me, done)
  }

  // ---------------------------------------------------------------- status maps over time

  /** Every id handed out is in exactly one map; id 0 is the seed's and committed. */
  ghost predicate StatusInv(st: Status) {
    && 0 in st.committed
    && st.active !! st.committed && st.active !! st.aborted && st.committed !! st.aborted
    && forall id: TxnID :: id <= st.nextID <==> id in st.active + st.committed + st.aborted
  }

  datatype Event = Began | Committed(id: TxnID) | Aborted(id: TxnID)

  predicate Can(st: Status, e: Event) {
    e.Began? || e.id in st.active
  }

  function Happen(st: Status, e: Event): Status
    requires Can(st, e)
  {
    match e
    case Began => st.(nextID := st.nextID + 1, active := st.active + {st.nextID + 1})
    case Committed(id) => st.(active := st.active - {id}, committed := st.committed + {id})
    case Aborted(id) => st.(active := st.active - {id}, aborted := st.aborted + {id})
  }

  function Origin(): Status {
    Status(0, {}, {0}, {})
  }

  /** The statuses `es` lead to from `st`; impossible events are skipped. */
  function Happened(st: Status, es: seq<Event>): Status {
    if es == [] then st
    else
      var before, e := Happened(st, es[..|es| - 1]), es[|es| - 1];
      if Can(before, e) then Happen(before, e) else before
  }

  /** What has finished stays finished the same way. */
  ghost predicate Later(a: Status, b: Status) {
    a.nextID <= b.nextID && a.committed <= b.committed && a.aborted <= b.aborted
  }

  lemma EventKeeps(st: Status, e: Event)
    requires StatusInv(st) && Can(st, e)
    ensures StatusInv(Happen(st, e)) && Later(st, Happen(st, e))
    ensures e.Began? ==> Happen(st, e).active == st.active + {st.nextID + 1}
    ensures e.Committed? ==> e.id in Happen(st, e).committed && Happen(st, e).aborted == st.aborted
    ensures e.Aborted? ==> e.id in Happen(st, e).aborted && Happen(st, e).committed == st.committed
  {
    var st' := Happen(st, e);
    assert e.Began? ==> st.nextID + 1 !in st.active + st.committed + st.aborted;
    forall id: TxnID
      ensures id <= st'.nextID <==> id in st'.active + st'.committed + st'.aborted
    {
      assert id <= st.nextID <==> id in st.active + st.committed + st.aborted;
    }
  }

  lemma {:induction false} HappenedKeeps(st: Status, es: seq<Event>)
    requires StatusInv(st)
    ensures StatusInv(Happened(st, es)) && Later(st, Happened(st, es))
  {
    if es != [] {
      HappenedKeeps(st, es[..|es| - 1]);
      var before, e := Happened(st, es[..|es| - 1]), es[|es| - 1];
      if Can(before, e) {
        EventKeeps(before, e);
      }
    }
  }

  // ---------------------------------------------------------------- the fast test is the simple test

  /** `snap` was taken for `me` when the statuses were `st`. A begin-time snapshot leaves `me` itself
      out of the active list, a later one does not. */
  ghost predicate TakenFor(snap: Snapshot, me: TxnID, st: Status) {
    && snap.xmax == st.nextID + 1
    && (forall id | id in st.active && id != me :: id in snap.active)
    && (forall id | id in snap.active :: id in st.active && snap.xmin <= id)
    && (snap.xmin in snap.active || snap.xmin == snap.xmax)
  }

  /** Whatever happened since the snapshot was taken, looking at the current status maps gives the
      answer of the simple test. */
  lemma VisibleIsSeen(v: Version, me: TxnID, snap: Snapshot, a: Status, b: Status)
    requires StatusInv(a) && StatusInv(b) && Later(a, b) && TakenFor(snap, me, a) && me in a.active
    requires v.xmin <= b.nextID && v.xmax <= b.nextID
    ensures IsVisible(v, me, snap, b) <==> Seen(v, me, a.committed)
  {
    if v.xmin != me {
      Before(v.xmin, me, snap, a, b);
    }
    if v.xmax != me {
      Before(v.xmax, me, snap, a, b);
    }
  }

  /** An id below the snapshot's bound that was not active then was committed or aborted. */
  lemma Before(id: TxnID, me: TxnID, snap: Snapshot, a: Status, b: Status)
    requires StatusInv(a) && StatusInv(b) && Later(a, b) && TakenFor(snap, me, a) && id != me
    ensures snap.xmin <= snap.xmax && (id < snap.xmin ==> id !in snap.active)
    ensures id < snap.xmax && id !in snap.active ==> id in a.committed + a.aborted
    ensures id in a.committed ==> id < snap.xmax && id !in snap.active && id in b.committed && id !in b.aborted
    ensures id in a.aborted ==> id in b.aborted && id !in b.committed
  {
    assert id <= a.nextID <==> id in a.active + a.committed + a.aborted;
    assert snap.xmin <= a.nextID <==> snap.xmin in a.active + a.committed + a.aborted;
  }

  /** Over any course of begins, commits and aborts. */
  lemma VisibleOverTime(v: Version, me: TxnID, snap: Snapshot, before: seq<Event>, after: seq<Event>)
    requires TakenFor(snap, me, Happened(Origin(), before)) && me in Happened(Origin(), before).active
    requires v.xmin <= Happened(Happened(Origin(), before), after).nextID
    requires v.xmax <= Happened(Happened(Origin(), before), after).nextID
    ensures IsVisible(v, me, snap, Happened(Happened(Origin(), before), after))
       <==> Seen(v, me, Happened(Origin(), before).committed)
  {
    HappenedKeeps(Origin(), before);
    HappenedKeeps(Happened(Origin(), before), after);
    VisibleIsSeen(v, me, snap, Happened(Origin(), before), Happened(Happened(Origin(), before), after));
  }

  // ---------------------------------------------------------------- taking and asking a snapshot

  /** The active list and its smallest id, whatever order the map is walked in. */
  method TakeSnapshot(nextID: TxnID, txns: set<TxnID>) returns (snap: Snapshot)
    ensures snap.xmax == nextID + 1
    ensures forall id :: id in snap.active <==> id in txns
    ensures forall id | id in txns :: snap.xmin <= id
    ensures if txns == {} then snap.xmin == snap.xmax else snap.xmin in txns
  {
    var active: seq<TxnID> := [];
    var xmin: TxnID := 0;
    var first := true;
    var todo := txns;
    while todo != {}
      invariant todo <= txns && (first <==> todo == txns)
      invariant forall id :: id in active <==> id in txns - todo
      invariant !first ==> xmin in txns && forall id | id in txns - todo :: xmin <= id
      decreases todo
    {
      var id :| id in todo;
      active := active + [id];
      if first || id < xmin {
        xmin := id;
        first := false;
      }
      todo := todo - {id};
    }
    snap := Snapshot(if first then nextID + 1 else xmin, nextID + 1, active);
  }

  method Contains(snap: Snapshot, id: TxnID) returns (found: bool)
    ensures found <==> id in snap.active
  {
    for i := 0 to |snap.active|
      invariant id !in snap.active[..i]
    {
      if snap.active[i] == id {
        return true;
      }
    }
    return false;
  }

  /** `Snapshot.IsCommitted`. */
  predicate CountsAsCommitted(snap: Snapshot, id: TxnID) {
    if id >= snap.xmax then false
    else if id < snap.xmin then true
    else id !in snap.active
  }

  /** It answers "had finished", so for another transaction it says "had committed" exactly when that
      transaction had not aborted. */
  lemma CountsAborted(snap: Snapshot, me: TxnID, st: Status, id: TxnID)
    requires StatusInv(st) && TakenFor(snap, me, st) && id != me
    ensures CountsAsCommitted(snap, id) <==> id in st.committed + st.aborted
    ensures (CountsAsCommitted(snap, id) <==> id in st.committed) <==> id !in st.aborted
  {
    Before(id, me, snap, st, st);
    assert id <= st.nextID <==> id in st.active + st.committed + st.aborted;
  }
}
