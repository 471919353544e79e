/** Which inserts fit their pages, and what a page write that does not fit leaves behind. */
module BTreeFits {
  import opened KeyOrder
  import opened Bytes
  import opened BTreeShape
  import opened BTreeStore
  import opened BTreeInsert
  import opened BTreeCodec

  // ---------------------------------------------------------------- sizes

  function LeafBytes(keys: seq<Key>): nat {
    11 + KeysSize(keys) + 12 * |keys|
  }

  function InnerBytes(keys: seq<Key>): nat {
    11 + KeysSize(keys) + 8 * (|keys| + 1)
  }

  function NodeBytes(n: Node): nat {
    11 + KeysSize(n.keys) + if n.LeafNode? then 12 * |n.values| else 8 * |n.children|
  }

  predicate NodeFits(n: Node) {
    NodeBytes(n) <= MAX_DATA_BYTES
  }

  /** Every page of the file was written, so it fits. */
  ghost predicate AllFit(pages: Pages) {
    forall p | p in pages :: NodeFits(pages[p])
  }

  /** The image's size depends on the keys and the number of values alone. */
  lemma ImageBytes(n: Node)
    ensures |Image(n)| == NodeBytes(n)
  {
    KeysImageSize(n.keys);
  }

  lemma {:induction false} KeysSizeAppend(a: seq<Key>, b: seq<Key>)
    ensures KeysSize(a + b) == KeysSize(a) + KeysSize(b)
  {
    if a == [] {
      assert a + b == b;
    } else {
      assert (a + b)[1..] == a[1..] + b;
      KeysSizeAppend(a[1..], b);
    }
  }

  /** Dropping a key makes a leaf smaller. */
  lemma ShrunkFits(n: Node, i: nat, m: Node)
    requires n.LeafNode? && |n.values| == |n.keys| && i < |n.keys| && NodeFits(n)
    requires m == LeafNode(n.keys[..i] + n.keys[i + 1..], n.values[..i] + n.values[i + 1..], n.right)
    ensures NodeFits(m)
  {
    assert n.keys == n.keys[..i] + n.keys[i..] && n.keys[i..] == [n.keys[i]] + n.keys[i + 1..];
    KeysSizeAppend(n.keys[..i], n.keys[i..]);
    KeysSizeAppend(n.keys[..i], n.keys[i + 1..]);
  }

  // ---------------------------------------------------------------- what an insert writes

  /** The place of `key` in a leaf: the number of smaller keys. */
  function Position(keys: seq<Key>, key: Key): (i: nat)
    ensures i <= |keys|
  {
    if keys == [] || !Less(keys[0], key) then 0 else 1 + Position(keys[1..], key)
  }

  lemma {:induction false} PositionIs(keys: seq<Key>, key: Key, i: nat)
    requires Slot(keys, key, i)
    ensures Position(keys, key) == i
  {
    StrictTotalOrder();
    if keys != [] && i > 0 {
      PositionIs(keys[1..], key, i - 1);
    }
  }

  function Route(keys: seq<Key>, key: Key): (i: nat)
    ensures i <= |keys|
  {
    if keys == [] || Less(key, keys[0]) then 0 else 1 + Route(keys[1..], key)
  }

  lemma {:induction false} RouteIs(keys: seq<Key>, key: Key, i: nat)
    requires Routes(keys, key, i)
    ensures Route(keys, key) == i
  {
    if keys != [] && i > 0 {
      RouteIs(keys[1..], key, i - 1);
    }
  }

  /** Keys in the right half of a split leaf. */
  const UPPER_HALF := BTREE_ORDER + 1 - (BTREE_ORDER + 1) / 2

  /** Whether every node written into a subtree fits its page, and the key a split passes up. */
  datatype Plan = Plan(fits: bool, split: Option<Key>)

  function LeafPlan(keys: seq<Key>): Plan {
    if |keys| <= BTREE_ORDER then Plan(LeafBytes(keys) <= MAX_DATA_BYTES, None)
    else
      var mid := |keys| / 2;
      Plan(LeafBytes(keys[mid..]) <= MAX_DATA_BYTES && LeafBytes(keys[..mid]) <= MAX_DATA_BYTES, Some(keys[mid]))
  }

  function InnerPlan(keys: seq<Key>): Plan {
    if |keys| <= BTREE_ORDER then Plan(InnerBytes(keys) <= MAX_DATA_BYTES, None)
    else
      var mid := |keys| / 2;
      Plan(InnerBytes(keys[mid + 1..]) <= MAX_DATA_BYTES && InnerBytes(keys[..mid]) <= MAX_DATA_BYTES, Some(keys[mid]))
  }

  function KeysWith(keys: seq<Key>, key: Key): seq<Key> {
    if key in keys then keys else PutAt(keys, Position(keys, key), key)
  }

  /** An internal node is written only to take in a split below it. */
  function InnerAfter(keys: seq<Key>, i: nat, below: Plan): Plan
    requires i <= |keys|
  {
    if below.fits && below.split.Some? then InnerPlan(PutAt(keys, i, below.split.value)) else Plan(below.fits, None)
  }

  ghost function InsertPlan(t: Tree, key: Key): Plan
    decreases t
  {
    match t
    case Leaf(_, keys, _) => LeafPlan(KeysWith(keys, key))
    case Inner(_, keys, kids) =>
      var i := Route(keys, key);
      if i < |kids| then InnerAfter(keys, i, InsertPlan(kids[i], key)) else Plan(false, None)
  }

  /** A root that splits gets a new root with one key above it. */
  predicate RootFits(p: Plan) {
    p.fits && (p.split.Some? ==> InnerBytes([p.split.value]) <= MAX_DATA_BYTES)
  }

  /** Every node the insert of `key` writes fits its page. */
  ghost predicate InsertFits(t: Tree, key: Key) {
    RootFits(InsertPlan(t, key))
  }

  /** The leaf the insert of `key` writes, or its two halves, fit. */
  ghost predicate LeafStageFits(t: Tree, key: Key)
    decreases t
  {
    match t
    case Leaf(_, keys, _) => LeafPlan(KeysWith(keys, key)).fits
    case Inner(_, keys, kids) =>
      var i := Route(keys, key);
      i < |kids| && LeafStageFits(kids[i], key)
  }

  // ---------------------------------------------------------------- short keys always fit

  ghost predicate Short(keys: seq<Key>) {
    forall i | 0 <= i < |keys| :: |keys[i]| <= MAX_KEY
  }

  lemma ShortBytes(keys: seq<Key>)
    requires Short(keys) && |keys| <= BTREE_ORDER
    ensures LeafBytes(keys) <= MAX_DATA_BYTES && InnerBytes(keys) <= MAX_DATA_BYTES
  {
    KeysSizeBound(keys, MAX_KEY);
    assert |keys| * 28 <= 2800;
  }

  lemma ShortPlans(keys: seq<Key>)
    requires Short(keys) && |keys| <= BTREE_ORDER + 1
    ensures LeafPlan(keys).fits && (LeafPlan(keys).split.Some? ==> |LeafPlan(keys).split.value| <= MAX_KEY)
    ensures InnerPlan(keys).fits && (InnerPlan(keys).split.Some? ==> |InnerPlan(keys).split.value| <= MAX_KEY)
  {
    if |keys| <= BTREE_ORDER {
      ShortBytes(keys);
    } else {
      var mid := |keys| / 2;
      ShortBytes(keys[..mid]);
      ShortBytes(keys[mid..]);
      ShortBytes(keys[mid + 1..]);
    }
  }

  lemma {:induction false} ShortPlan(t: Tree, at: Place, key: Key)
    requires Fits(t, at) && Small(t) && |key| <= MAX_KEY
    ensures InsertPlan(t, key).fits
    ensures InsertPlan(t, key).split.Some? ==> |InsertPlan(t, key).split.value| <= MAX_KEY
    decreases t
  {
    match t {
      case Leaf(_, keys, _) => ShortPlans(KeysWith(keys, key));
      case Inner(_, keys, kids) =>
        var i := Route(keys, key);
        assert InnerShape(keys, kids, at.h - 1, at.lo, at.hi);
        ShortPlan(kids[i], KidPlace(t, at, i), key);
        var below := InsertPlan(kids[i], key);
        if below.split.Some? {
          ShortPlans(PutAt(keys, i, below.split.value));
        }
    }
  }

  /** With keys of at most 26 bytes every insert fits. */
  lemma ShortKeysInsert(t: Tree, at: Place, key: Key)
    requires Fits(t, at) && Small(t) && |key| <= MAX_KEY
    ensures InsertFits(t, key)
  {
    ShortPlan(t, at, key);
    var p := InsertPlan(t, key);
    if p.split.Some? {
      ShortBytes([p.split.value]);
    }
  }

  // ---------------------------------------------------------------- a write that does not fit

  /** What is left of `t` on disk: the part `l` is stored, on pages of `t` and new ones, and no page
      outside `t` changed. */
  ghost predicate Left(a: Disk, b: Disk, t: Tree, l: Tree) {
    && l.pid == t.pid && Stored(b.pages, l) && AtMostOnce(Pids(l)) && a.next <= b.next
    && (forall p | p in Pids(l) :: p in Pids(t) || a.next <= p < b.next)
    && (forall p | p in a.pages && p !in Pids(t) :: p in b.pages && b.pages[p] == a.pages[p])
    && (forall p | p in b.pages :: p < b.next)
  }

  /** Where the leaves went: after the update at `s` they would be `x + gone + y`; `gone` is out of
      reach. */
  datatype Loss = Loss(s: Site, x: seq<Tree>, gone: seq<Tree>, y: seq<Tree>)

  ghost predicate LossOf(t: Tree, l: Tree, key: Key, loc: RowLocation, z: Loss) {
    && LeavesBefore(z.s) == Leaves(t) && SitePut(z.s, key, loc)
    && LeavesAfter(z.s) == z.x + z.gone + z.y && Leaves(l) == z.x + z.y
  }

  /** The upper half of one split leaf. */
  ghost predicate HalfLeaf(gone: seq<Tree>) {
    |gone| == 1 && |gone[0].keys| == UPPER_HALF
  }

  /** The contract of a failed insert: nothing written, or the upper half of a node below lost. */
  ghost predicate Failed(a: Disk, b: Disk, t: Tree, at: Place, key: Key, loc: RowLocation, l: Tree, z: Loss) {
    if LeafStageFits(t, key) then
      Fits(l, at) && Left(a, b, t, l) && LossOf(t, l, key, loc, z)
    else
      l == t && Untouched(a, b)
  }

  /** No page changed; page numbers may have been used up, and one written that nothing points to. */
  ghost predicate Untouched(a: Disk, b: Disk) {
    && a.next <= b.next
    && (forall p | p in a.pages :: p in b.pages && b.pages[p] == a.pages[p])
    && (forall p | p in b.pages :: p < b.next)
    && (forall p | p in b.pages && p !in a.pages :: a.next <= p)
  }

  ghost predicate Lower(hi: Bound, to: Bound) {
    forall k | Below(k, hi) :: Below(k, to)
  }

  /** A subtree also fits a place with a higher bound. */
  lemma {:induction false} Loosen(t: Tree, h: nat, lo: Bound, hi: Bound, to: Bound, root: bool)
    requires WellFormed(t, h, lo, hi, false) && Lower(hi, to)
    ensures WellFormed(t, h, lo, to, root)
    decreases h
  {
    if t.Inner? {
      assert InnerShape(t.keys, t.kids, h - 1, lo, hi);
      var n := |t.keys|;
      forall i | 0 <= i < |t.kids|
        ensures WellFormed(t.kids[i], h - 1, LowOf(t.keys, lo, i), HighOf(t.keys, to, i), false)
      {
        if i == n {
          Loosen(t.kids[i], h - 1, LowOf(t.keys, lo, i), HighOf(t.keys, hi, i), to, false);
        }
      }
      assert InnerShape(t.keys, t.kids, h - 1, lo, to);
    }
  }

  /** The left half of a split is a subtree in its own right. */
  lemma LeftHalfFits(o: Outcome, at: Place)
    requires o.Split? && OutFits(o, at)
    ensures Fits(o.l, at)
  {
    StrictTotalOrder();
    Loosen(o.l, at.h, at.lo, At(o.key), at.hi, at.root);
  }

  lemma LeftHalfLeft(a: Disk, b: Disk, t: Tree, o: Outcome, added: multiset<PageID>)
    requires Owned(a, t) && o.Split? && Laid(a, b, t, o, added)
    ensures Left(a, b, t, o.l)
  {
    AddFresh(Pids(t), added, a.next, b.next);
    SplitParts(o.l, o.key, o.r);
    var l, all := Pids(o.l), Pids(t) + added;
    assert Stored(b.pages, o.Parts()[0]);
    forall p | p in l
      ensures l[p] == 1 && (p in Pids(t) || a.next <= p < b.next)
    {
      assert all[p] == l[p] + Pids(o.r)[p] && all[p] == 1;
    }
  }

  /** When a split cannot be recorded above, its right half is lost. */
  lemma SplitLost(a: Disk, b: Disk, t: Tree, at: Place, key: Key, loc: RowLocation, o: Outcome, s: Site, added: multiset<PageID>)
    requires Owned(a, t) && o.Split? && Inserted(a, b, t, at, key, loc, o, s, added)
    ensures Fits(o.l, at) && Left(a, b, t, o.l)
    ensures LossOf(t, o.l, key, loc, Loss(s, Leaves(o.l), Leaves(o.r), []))
  {
    LeftHalfFits(o, at);
    LeftHalfLeft(a, b, t, o, added);
    SplitParts(o.l, o.key, o.r);
  }

  /** Pages written that nothing points to change nothing. */
  lemma LeftMore(a: Disk, b: Disk, c: Disk, t: Tree, l: Tree)
    requires Left(a, b, t, l) && Untouched(b, c)
    ensures Left(a, c, t, l)
  {
    StoredFrame(b.pages, c.pages, l);
  }

  // ---------------------------------------------------------------- seen from the parent

  ghost function WidenLoss(z: Loss, before: seq<Tree>, after: seq<Tree>): Loss {
    Loss(Widen(z.s, before, after), LeavesAll(before) + z.x, z.gone, z.y + LeavesAll(after))
  }

  lemma LossWidens(p: seq<Tree>, was: Tree, k: Tree, q: seq<Tree>, key: Key, loc: RowLocation, z: Loss)
    requires LossOf(was, k, key, loc, z) && SiteOk(Widen(z.s, p, q))
    ensures var w := WidenLoss(z, p, q);
            && LeavesBefore(w.s) == LeavesAll(p + [was] + q) && SitePut(w.s, key, loc)
            && LeavesAfter(w.s) == w.x + w.gone + w.y && LeavesAll(p + [k] + q) == w.x + w.y
  {
    WidenBefore(p, was, q, z.s);
    LeavesAround(p, k, q);
    var lp, lq := LeavesAll(p), LeavesAll(q);
    Reassociate(lp, z.s.x, z.s.now, z.s.y, lq);
    Reassociate(lp, z.x, z.gone, z.y, lq);
    Reassociate(lp, z.x, [], z.y, lq);
    assert (lp + z.x) + [] == lp + z.x && z.x + [] == z.x;
  }

  /** The parent's page and the other kids are as they were. */
  lemma KidsLeft(a: Disk, b: Disk, t: Tree, i: nat, k: Tree)
    requires t.Inner? && Owned(a, t) && i < |t.kids| && Left(a, b, t.kids[i], k)
    ensures t.pid in b.pages && b.pages[t.pid] == a.pages[t.pid]
    ensures StoredAll(b.pages, t.kids[..i] + [k] + t.kids[i + 1..])
  {
    var p, q := t.kids[..i], t.kids[i + 1..];
    Around(t.kids, i);
    PidsAround(p, t.kids[i], q);
    OwnParts(t.pid, PidsAll(p), Pids(t.kids[i]), PidsAll(q));
    StoredAllParts(a.pages, t, i);
    StoredAllFrame(a.pages, b.pages, p);
    StoredAllFrame(a.pages, b.pages, q);
    StoredAllConcat(b.pages, p, [k], q);
  }

  /** Swapping one part for another made of its own and new pages. */
  lemma SwapPart(pid: PageID, p: multiset<PageID>, was: multiset<PageID>, k: multiset<PageID>, q: multiset<PageID>,
                 n: PageID, m: PageID)
    requires AtMostOnce(multiset{pid} + (p + was + q)) && Allocated(multiset{pid} + (p + was + q), n)
    requires AtMostOnce(k) && forall x | x in k :: x in was || n <= x < m
    ensures AtMostOnce(multiset{pid} + (p + k + q))
    ensures forall x | x in multiset{pid} + (p + k + q) :: x in multiset{pid} + (p + was + q) || n <= x < m
  {
    var all, now := multiset{pid} + (p + was + q), multiset{pid} + (p + k + q);
    forall x | x in now
      ensures now[x] == 1 && (x in all || n <= x < m)
    {
      assert all[x] == multiset{pid}[x] + p[x] + was[x] + q[x];
      assert now[x] == multiset{pid}[x] + p[x] + k[x] + q[x];
      if x in k && x !in was {
        assert x !in all;
      }
    }
  }

  lemma ParentStored(a: Disk, b: Disk, t: Tree, i: nat, k: Tree, l: Tree)
    requires t.Inner? && Owned(a, t) && i < |t.kids| && Left(a, b, t.kids[i], k)
    requires l == Inner(t.pid, t.keys, t.kids[..i] + [k] + t.kids[i + 1..])
    ensures Stored(b.pages, l)
  {
    KidsLeft(a, b, t, i, k);
    StoredInner(b.pages, l);
  }

  lemma ParentPids(a: Disk, b: Disk, t: Tree, i: nat, k: Tree, l: Tree)
    requires t.Inner? && Owned(a, t) && i < |t.kids| && Left(a, b, t.kids[i], k)
    requires l == Inner(t.pid, t.keys, t.kids[..i] + [k] + t.kids[i + 1..])
    ensures AtMostOnce(Pids(l)) && forall p | p in Pids(l) :: p in Pids(t) || a.next <= p < b.next
    ensures forall p | p in Pids(t.kids[i]) :: p in Pids(t)
  {
    var p, q := t.kids[..i], t.kids[i + 1..];
    Around(t.kids, i);
    PidsAround(p, t.kids[i], q);
    PidsAround(p, k, q);
    SwapPart(t.pid, PidsAll(p), Pids(t.kids[i]), Pids(k), PidsAll(q), a.next, b.next);
  }

  lemma ParentLeft(a: Disk, b: Disk, t: Tree, i: nat, k: Tree, l: Tree)
    requires t.Inner? && Owned(a, t) && i < |t.kids| && Left(a, b, t.kids[i], k)
    requires l == Inner(t.pid, t.keys, t.kids[..i] + [k] + t.kids[i + 1..])
    ensures Left(a, b, t, l)
  {
    ParentStored(a, b, t, i, k, l);
    ParentPids(a, b, t, i, k, l);
  }

  lemma KidFits(t: Tree, at: Place, i: nat, k: Tree, l: Tree)
    requires t.Inner? && at.h > 0 && |t.kids| == |t.keys| + 1 && i <= |t.keys| && Fits(t, at)
    requires Fits(k, KidPlace(t, at, i)) && l == Inner(t.pid, t.keys, t.kids[..i] + [k] + t.kids[i + 1..])
    ensures Fits(l, at)
  {
    assert t.kids[i := k] == l.kids;
    ReplaceKid(t.keys, t.kids, at.h - 1, at.lo, at.hi, i, k);
  }

  /** A loss in a kid is a loss in its parent, whose own page stays as it was. */
  lemma KidLost(a: Disk, b: Disk, t: Tree, at: Place, i: nat, key: Key, loc: RowLocation, k: Tree, z: Loss, l: Tree)
    requires t.Inner? && at.h > 0 && |t.kids| == |t.keys| + 1 && i <= |t.keys| && Fits(t, at) && Owned(a, t)
    requires Fits(k, KidPlace(t, at, i)) && Left(a, b, t.kids[i], k) && LossOf(t.kids[i], k, key, loc, z)
    requires l == Inner(t.pid, t.keys, t.kids[..i] + [k] + t.kids[i + 1..])
    ensures Fits(l, at) && Left(a, b, t, l)
    ensures LossOf(t, l, key, loc, WidenLoss(z, t.kids[..i], t.kids[i + 1..]))
  {
    KidFits(t, at, i, k, l);
    ParentLeft(a, b, t, i, k, l);
    WidenOk(t, at, i, z.s);
    Around(t.kids, i);
    LossWidens(t.kids[..i], t.kids[i], k, t.kids[i + 1..], key, loc, z);
  }

  // ---------------------------------------------------------------- the whole index

  /** The entries of `l` are those after the update, less one stretch. */
  ghost predicate Damaged(t: Tree, l: Tree, key: Key, loc: RowLocation, e1: seq<Entry>, e2: seq<Entry>, e3: seq<Entry>)
    requires Paired(Leaves(t)) && Paired(Leaves(l))
  {
    Put(Entries(Leaves(t)), e1 + e2 + e3, key, loc) && Entries(Leaves(l)) == e1 + e3
  }

  lemma PairedTriple(a: seq<Tree>, b: seq<Tree>, c: seq<Tree>)
    requires Paired(a + b + c)
    ensures Paired(a) && Paired(b) && Paired(c)
    ensures Entries(a + b + c) == Entries(a) + Entries(b) + Entries(c)
  {
    PairedParts(a, b, c);
    forall l | l in b
      ensures l in a + b + c
    {
    }
    EntriesAppend(a + b, c);
    EntriesAppend(a, b);
  }

  lemma LossEntries(t: Tree, l: Tree, key: Key, loc: RowLocation, z: Loss)
    requires LossOf(t, l, key, loc, z)
    ensures Paired(Leaves(t)) && Paired(Leaves(l)) && Paired(z.x) && Paired(z.gone) && Paired(z.y)
    ensures Damaged(t, l, key, loc, Entries(z.x), Entries(z.gone), Entries(z.y))
    ensures HalfLeaf(z.gone) ==> |Entries(z.gone)| == UPPER_HALF
  {
    if HalfLeaf(z.gone) {
      assert z.gone == [z.gone[0]];
      assert z.gone[0] in z.x + z.gone + z.y;
    }
    SiteEntries(z.s);
    PairedTriple(z.x, z.gone, z.y);
    PairedAppend(z.x, z.y);
    EntriesAppend(z.x, z.y);
    PutInContext(Entries(z.s.x), LeafEntries(z.s.was), Entries(z.s.now), Entries(z.s.y), key, loc);
  }
}
