/** The linked list of one row's versions, newest first, edited in place. */
module VersionChain {
  import opened KeyOrder
  import opened Bytes
  import opened WalRecord
  import opened Visibility
  import opened Mvcc

  class Node {
    const ref: nat
    const xmin: TxnID
    var xmax: TxnID
    const data: Bytes
    var prev: Node?

    constructor (ref: nat, xmin: TxnID, data: Bytes)
      ensures this.ref == ref && this.xmin == xmin && xmax == 0 && this.data == data && prev == null
    {
      this.ref := ref;
      this.xmin := xmin;
      this.xmax := 0;
      this.data := data;
      this.prev := null;
    }

    function Value(): Version
      reads this`xmax
    {
      Version(ref, xmin, xmax, data)
    }
  }

  /** `ns` are the nodes reached from `head` through `prev`. */
  ghost predicate Links(head: Node?, ns: seq<Node>)
    reads ns
  {
    && head == NodeAt(ns, 0)
    && (forall i | 0 <= i < |ns| :: ns[i].prev == NodeAt(ns, i + 1))
    && (forall i, j | 0 <= i < j < |ns| :: ns[i] != ns[j])
  }

  /** The `i`th node, null past the end. */
  ghost function NodeAt(ns: seq<Node>, i: nat): Node? {
    if i < |ns| then ns[i] else null
  }

  ghost function Values(ns: seq<Node>): (c: Chain)
    reads ns`xmax
    ensures |c| == |ns| && forall i | 0 <= i < |ns| :: c[i] == ns[i].Value()
  {
    if ns == [] then [] else Values(ns[..|ns| - 1]) + [ns[|ns| - 1].Value()]
  }

  /** Those of the first `i` nodes that are not `u`'s. */
  ghost function Kept(ns: seq<Node>, i: nat, u: TxnID): (ks: seq<Node>)
    requires i <= |ns|
    ensures forall k | 0 <= k < |ks| :: ks[k] in ns
  {
    if i == 0 then [] else Kept(ns, i - 1, u) + if ns[i - 1].xmin == u then [] else [ns[i - 1]]
  }

  lemma {:induction false} KeptValues(ns: seq<Node>, i: nat, u: TxnID)
    requires i <= |ns|
    ensures Values(Kept(ns, i, u)) == Removed(Values(ns)[..i], u)
  {
    if i > 0 {
      KeptValues(ns, i - 1, u);
      assert Values(ns)[..i] == Values(ns)[..i - 1] + [ns[i - 1].Value()];
      RemovedSnoc(Values(ns)[..i - 1], ns[i - 1].Value(), u);
      var ks := Kept(ns, i - 1, u);
      if ns[i - 1].xmin != u {
        assert Values(ks + [ns[i - 1]]) == Values(ks) + [ns[i - 1].Value()];
      }
    }
  }

  lemma {:induction false} RemovedSnoc(c: Chain, v: Version, u: TxnID)
    ensures Removed(c + [v], u) == Removed(c, u) + if v.xmin == u then [] else [v]
  {
    if c == [] {
      assert [v][1..] == [] && c + [v] == [v];
    } else {
      assert (c + [v])[1..] == c[1..] + [v];
      RemovedSnoc(c[1..], v, u);
    }
  }

  /** What is kept are the other transactions' versions. */
  lemma {:induction false} RemovedMeans(c: Chain, u: TxnID)
    ensures OthersKept(c, Removed(c, u), u)
  {
    RemovedHas(c, u);
    if c != [] {
      RemovedMeans(c[1..], u);
      assert c == [c[0]] + c[1..];
    }
  }

  ghost predicate OthersKept(c: Chain, d: Chain, u: TxnID) {
    && (forall v :: v in d <==> v in c && v.xmin != u)
    && (forall n: nat | Ordered(c, n) :: Ordered(d, n))
  }

  ghost predicate MarksCleared(c: Chain, d: Chain, u: TxnID) {
    |d| == |c| && forall i | 0 <= i < |c| :: d[i] == if c[i].xmax == u then c[i].(xmax := 0) else c[i]
  }

  datatype WriteResult = Written | NotFound | Conflict(txn: TxnID)

  /** What a write without a conflict answers and leaves behind. */
  function Edited(c: Chain, me: TxnID, visible: Version -> bool, op: Byte, data: Bytes, ref: nat): (WriteResult, Chain) {
    var i, v := FirstIndex(c, visible), Version(ref, me, 0, data);
    if op == OP_INSERT then (Written, [v] + c)
    else if i == |c| then (NotFound, c)
    else if op == OP_UPDATE then (Written, [v] + Superseded(c, i, me))
    else (Written, Superseded(c, i, me))
  }

  /** The newest version `me` sees. */
  ghost predicate NewestVisible(c: Chain, i: int, me: TxnID, snap: Snapshot, st: Status) {
    && 0 <= i < |c| && IsVisible(c[i], me, snap, st)
    && forall j | 0 <= j < i :: !IsVisible(c[j], me, snap, st)
  }

  /** A write without a conflict does to the chain what the step of the runs does, and finds nothing
      exactly when the step cannot be taken. */
  lemma WriteIsStep(s: State, me: TxnID, row: Row, data: Bytes)
    requires Open(s, me) && !WriteConflict(ChainOf(s, row), me, s.snaps[me], s.st)
    ensures var e := (op: Byte) => Edited(ChainOf(s, row), me, VisibleTo(me, s.snaps[me], s.st), op, data, s.nextRef);
            && Enabled(s, Insert(me, row, data))
            && e(OP_INSERT) == (Written, ChainOf(Apply(s, Insert(me, row, data)), row))
            && (Enabled(s, Update(me, row, data)) <==> e(OP_UPDATE).0 == Written)
            && (Enabled(s, Update(me, row, data)) ==> e(OP_UPDATE).1 == ChainOf(Apply(s, Update(me, row, data)), row))
            && (Enabled(s, Delete(me, row)) <==> e(OP_DELETE).0 == Written)
            && (Enabled(s, Delete(me, row)) ==> e(OP_DELETE).1 == ChainOf(Apply(s, Delete(me, row)), row))
  {
  }

  /** An insert puts the new version in front; an update and a delete mark the newest version the writer
      sees, and an update puts the new one in front of that. */
  ghost predicate WrittenTo(c: Chain, d: Chain, me: TxnID, snap: Snapshot, st: Status, op: Byte, v: Version) {
    if op == OP_INSERT then d == [v] + c
    else
      exists i :: NewestVisible(c, i, me, snap, st)
                  && d == (if op == OP_UPDATE then [v] else []) + c[i := c[i].(xmax := me)]
  }

  lemma EditedMeans(c: Chain, me: TxnID, snap: Snapshot, st: Status, op: Byte, data: Bytes, ref: nat)
    requires op <= OP_DELETE
    ensures var e := Edited(c, me, VisibleTo(me, snap, st), op, data, ref);
            && !e.0.Conflict?
            && (e.0 == Written ==> WrittenTo(c, e.1, me, snap, st, op, Version(ref, me, 0, data)))
            && (e.0 == NotFound ==> op != OP_INSERT && e.1 == c && forall v | v in c :: !IsVisible(v, me, snap, st))
  {
    var i := FirstIndex(c, VisibleTo(me, snap, st));
    if op != OP_INSERT && i < |c| {
      assert NewestVisible(c, i, me, snap, st);
      assert [] + Superseded(c, i, me) == Superseded(c, i, me);
    }
  }

  class RowChain {
    var head: Node?
    ghost var nodes: seq<Node>

    ghost predicate Valid()
      reads this, nodes
    {
      Links(head, nodes)
    }

    ghost function Contents(): Chain
      reads this, nodes
    {
      Values(nodes)
    }

    constructor ()
      ensures Valid() && Contents() == []
    {
      head := null;
      nodes := [];
    }

    method PrependUnsafe(v: Node)
      requires Valid() && v !in nodes
      modifies this, v`prev
      ensures Valid() && nodes == [v] + old(nodes) && Contents() == [v.Value()] + old(Contents())
    {
      v.prev := head;
      head := v;
      nodes := [v] + nodes;
      assert forall i | 1 <= i < |nodes| :: nodes[i] == old(nodes)[i - 1];
    }

    /** The newest version that passes the test. */
    method FindVisible(isVisible: Version -> bool) returns (v: Node?)
      requires Valid()
      ensures var i := FirstIndex(Contents(), isVisible);
              v == NodeAt(nodes, i)
    {
      v := head;
      ghost var i := 0;
      while v != null
        invariant 0 <= i <= |nodes| && v == NodeAt(nodes, i)
        invariant forall j | 0 <= j < i :: !isVisible(Contents()[j])
        decreases |nodes| - i
      {
        assert v.Value() == Contents()[i];
        if isVisible(v.Value()) {
          FirstIs(Contents(), isVisible, i);
          return;
        }
        v := v.prev;
        i := i + 1;
      }
      FirstIs(Contents(), isVisible, i);
    }

    /** Whether some other transaction's version stands in the way, looking at the whole chain. */
    method CheckWriteConflict(me: TxnID, snap: Snapshot, st: Status) returns (conflicting: Option<TxnID>)
      requires Valid()
      ensures conflicting.Some? <==> WriteConflict(Contents(), me, snap, st)
      ensures conflicting.Some? <==>
                exists i :: 0 <= i < |Contents()| && Contents()[i].xmin != me
                            && (Contents()[i].xmin in st.active
                                || (Contents()[i].xmin in snap.active && Contents()[i].xmin in st.committed))
      ensures conflicting.Some? ==>
                exists i :: 0 <= i < |Contents()| && Conflicts(Contents()[i], me, snap, st)
                            && conflicting.value == Contents()[i].xmin
    {
      var v := head;
      ghost var i := 0;
      while v != null
        invariant 0 <= i <= |nodes| && v == NodeAt(nodes, i)
        invariant forall j | 0 <= j < i :: !Conflicts(Contents()[j], me, snap, st)
        decreases |nodes| - i
      {
        assert v.Value() == Contents()[i];
        if v.xmin != me {
          if v.xmin in st.active {
            return Some(v.xmin);
          }
          if v.xmin in snap.active && v.xmin in st.committed {
            return Some(v.xmin);
          }
        }
        v := v.prev;
        i := i + 1;
      }
      conflicting := None;
    }

    method ClearXMax(u: TxnID)
      requires Valid()
      modifies nodes`xmax
      ensures Valid() && Contents() == Cleared(old(Contents()), u) && nodes == old(nodes)
      ensures MarksCleared(old(Contents()), Contents(), u)
    {
      var v := head;
      ghost var i := 0;
      while v != null
        invariant 0 <= i <= |nodes| && v == NodeAt(nodes, i)
        invariant forall j | 0 <= j < i :: nodes[j].Value() == Unmarked(old(Contents())[j], u)
        invariant forall j | i <= j < |nodes| :: nodes[j].Value() == old(Contents())[j]
        decreases |nodes| - i
      {
        if v.xmax == u {
          v.xmax := 0;
        }
        v := v.prev;
        i := i + 1;
      }
    }

    /** Relink the list without the versions `u` created. */
    method RemoveByXMin(u: TxnID)
      requires Valid()
      modifies this, nodes`prev
      ensures Valid() && Contents() == Removed(old(Contents()), u)
      ensures OthersKept(old(Contents()), Contents(), u)
    {
      RemovedMeans(Contents(), u);
      var h, ks := Rebuild(head, nodes, u);
      Install(h, ks);
    }

    /** Mark one version deleted. */
    method Supersede(v: Node, ghost i: nat, u: TxnID)
      requires Valid() && i < |nodes| && v == nodes[i]
      modifies nodes`xmax
      ensures Valid() && Contents() == Superseded(old(Contents()), i, u)
    {
      v.xmax := u;
    }

    /** Mark the version `me` sees as deleted by it. */
    method SupersedeVisible(me: TxnID, snap: Snapshot, st: Status) returns (found: bool)
      requires Valid()
      modifies nodes`xmax
      ensures Valid() && nodes == old(nodes)
      ensures var c := old(Contents());
              var i := FirstIndex(c, VisibleTo(me, snap, st));
              found == (i < |c|) && Contents() == if found then Superseded(c, i, me) else c
    {
      ghost var i := FirstIndex(Contents(), VisibleTo(me, snap, st));
      var visible := FindVisible(VisibleTo(me, snap, st));
      if visible == null {
        return false;
      }
      Supersede(visible, i, me);
      found := true;
    }

    method AddVersion(me: TxnID, data: Bytes, ref: nat)
      requires Valid()
      modifies this
      ensures Valid() && Contents() == [Version(ref, me, 0, data)] + old(Contents())
    {
      var added := new Node(ref, me, data);
      PrependUnsafe(added);
    }

    /** Insert, update or delete the row as `me` sees it through its snapshot. */
    method Write(me: TxnID, snap: Snapshot, st: Status, op: Byte, data: Bytes, ref: nat) returns (res: WriteResult)
      requires Valid() && op <= OP_DELETE
      modifies this, nodes`xmax
      ensures Valid() && (res.Conflict? <==> WriteConflict(old(Contents()), me, snap, st))
      ensures !res.Conflict? ==> (res, Contents()) == Edited(old(Contents()), me, VisibleTo(me, snap, st), op, data, ref)
      ensures res.Conflict? ==> Contents() == old(Contents())
      ensures res.Conflict? <==>
                exists i :: 0 <= i < |old(Contents())| && old(Contents())[i].xmin != me
                            && (old(Contents())[i].xmin in st.active
                                || (old(Contents())[i].xmin in snap.active && old(Contents())[i].xmin in st.committed))
      ensures res == Written ==> WrittenTo(old(Contents()), Contents(), me, snap, st, op, Version(ref, me, 0, data))
      ensures res == NotFound ==>
                op != OP_INSERT && Contents() == old(Contents()) && forall v | v in Contents() :: !IsVisible(v, me, snap, st)
    {
      ghost var c := Contents();
      var conflicting := CheckWriteConflict(me, snap, st);
      if conflicting.Some? {
        return Conflict(conflicting.value);
      }
      res := Edit(me, snap, st, op, data, ref);
      EditedMeans(c, me, snap, st, op, data, ref);
    }

    /** The write itself. */
    method Edit(me: TxnID, snap: Snapshot, st: Status, op: Byte, data: Bytes, ref: nat) returns (res: WriteResult)
      requires Valid() && op <= OP_DELETE
      modifies this, nodes`xmax
      ensures Valid() && (res, Contents()) == Edited(old(Contents()), me, VisibleTo(me, snap, st), op, data, ref)
    {
      if op == OP_INSERT {
        AddVersion(me, data, ref);
        return Written;
      }
      var found := SupersedeVisible(me, snap, st);
      if !found {
        return NotFound;
      }
      if op == OP_UPDATE {
        AddVersion(me, data, ref);
      }
      res := Written;
    }

    method Install(h: Node?, ghost ks: seq<Node>)
      requires Links(h, ks)
      modifies this
      ensures Valid() && Contents() == Values(ks)
    {
      head, nodes := h, ks;
    }
  }

  lemma KeptContents(ns: seq<Node>, u: TxnID)
    ensures Values(Kept(ns, |ns|, u)) == Removed(Values(ns), u)
  {
    KeptValues(ns, |ns|, u);
    assert Values(ns)[..|ns|] == Values(ns);
  }

  /** The list without `u`'s versions, built behind a dummy node. */
  method Rebuild(first: Node?, ghost ns: seq<Node>, u: TxnID) returns (newHead: Node?, ghost ks: seq<Node>)
    requires Links(first, ns)
    modifies ns`prev
    ensures Links(newHead, ks) && Values(ks) == Removed(old(Values(ns)), u)
  {
    ks := Kept(ns, |ns|, u);
    KeptContents(ns, u);
    var dummy := new Node(0, 0, []);
    Relink(dummy, first, ns, u);
    newHead := dummy.prev;
  }

  /** Walk the nodes from `v` and hang those that are not `u`'s behind `dummy`. */
  method Relink(dummy: Node, first: Node?, ghost ns: seq<Node>, u: TxnID)
    requires Links(first, ns) && dummy !in ns && dummy.prev == null
    modifies dummy`prev, ns`prev
    ensures Links(dummy.prev, Kept(ns, |ns|, u))
  {
    var tail: Node := dummy;
    var v := first;
    ghost var ks: seq<Node> := [];
    ghost var i := 0;
    while v != null
      invariant 0 <= i <= |ns| && v == NodeAt(ns, i)
      invariant ks == Kept(ns, i, u)
      invariant forall j | i <= j < |ns| :: ns[j].prev == NodeAt(ns, j + 1)
      invariant Threaded(dummy, ks, tail) && Apart(ks, ns, i) && (tail == dummy || tail in ns)
      decreases |ns| - i
    {
      tail, ks := Visit(dummy, ks, tail, v, ns, i, u);
      v := v.prev;
      i := i + 1;
    }
    Close(dummy, ks, tail);
  }

  /** Keep node `i` or pass it by. */
  method Visit(ghost dummy: Node, ghost ks: seq<Node>, tail: Node, v: Node, ghost ns: seq<Node>, ghost i: nat, u: TxnID)
    returns (tail': Node, ghost ks': seq<Node>)
    requires i < |ns| && v == ns[i] && dummy !in ns && (forall a, b | 0 <= a < b < |ns| :: ns[a] != ns[b])
    requires ks == Kept(ns, i, u) && Threaded(dummy, ks, tail) && Apart(ks, ns, i)
    modifies tail`prev
    ensures ks' == Kept(ns, i + 1, u) && Threaded(dummy, ks', tail') && Apart(ks', ns, i + 1)
    ensures tail' == dummy || tail' in ns
  {
    tail', ks' := tail, ks;
    if v.xmin != u {
      Hook(dummy, ks, tail, v);
      tail', ks' := v, ks + [v];
    }
  }

  method Close(ghost dummy: Node, ghost ks: seq<Node>, tail: Node)
    requires Threaded(dummy, ks, tail)
    modifies tail`prev
    ensures Links(dummy.prev, ks)
  {
    tail.prev := null;
  }

  /** Hang `v` behind the last node kept so far. */
  method Hook(ghost dummy: Node, ghost ks: seq<Node>, tail: Node, v: Node)
    requires Threaded(dummy, ks, tail) && v !in ks && v != dummy
    modifies tail`prev
    ensures Threaded(dummy, ks + [v], v)
  {
    tail.prev := v;
  }

  ghost predicate Apart(ks: seq<Node>, ns: seq<Node>, i: nat) {
    forall k, j | 0 <= k < |ks| && i <= j < |ns| :: ks[k] != ns[j]
  }

  /** The nodes `ks` hang off `dummy`; `tail` is the last of them and its own link is open. */
  ghost predicate Threaded(dummy: Node, ks: seq<Node>, tail: Node)
    reads dummy, ks
  {
    && tail == (if ks == [] then dummy else ks[|ks| - 1])
    && (ks != [] ==> dummy.prev == ks[0])
    && (ks == [] ==> dummy.prev == null)
    && dummy !in ks
    && (forall k | 0 <= k < |ks| - 1 :: ks[k].prev == ks[k + 1])
    && (forall i, j | 0 <= i < j < |ks| :: ks[i] != ks[j])
  }
}
