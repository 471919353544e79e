/** What one recursive insert does to a subtree, case by case: update in place, grow or split a
    leaf, grow or split an internal node. */
module BTreeInsert {
  import opened KeyOrder
  import opened BTreeShape
  import opened BTreeStore

  /** The pages of the index file and the next page number to hand out. */
  datatype Disk = Disk(pages: Pages, next: PageID)

  /** Where a subtree hangs: its height, its key range, and whether it is the root. */
  datatype Place = Place(h: nat, lo: Bound, hi: Bound, root: bool)

  ghost predicate Fits(t: Tree, at: Place) {
    WellFormed(t, at.h, at.lo, at.hi, at.root)
  }

  ghost function KidPlace(t: Tree, at: Place, i: nat): Place
    requires t.Inner? && at.h > 0 && i <= |t.keys|
  {
    Place(at.h - 1, LowOf(t.keys, at.lo, i), HighOf(t.keys, at.hi, i), false)
  }

  /** A subtree stored on pages it alone owns. */
  ghost predicate Owned(d: Disk, t: Tree) {
    && 0 < d.next
    && Stored(d.pages, t)
    && AtMostOnce(Pids(t))
    && Allocated(Pids(t), d.next)
    && (forall p | p in d.pages :: p < d.next)
  }

  /** The subtree that comes back, and its new right sibling when the node split. */
  datatype Outcome =
    | Whole(l: Tree)
    | Split(l: Tree, key: Key, r: Tree)
  {
    ghost function Parts(): seq<Tree> {
      if Whole? then [l] else [l, r]
    }
  }

  ghost predicate OutFits(o: Outcome, at: Place) {
    match o
    case Whole(l) => Fits(l, at)
    case Split(l, key, r) =>
      && Fits(l, at.(hi := At(key), root := false))
      && Fits(r, at.(lo := At(key), root := false))
      && In(key, at.lo, at.hi)
      && (at.lo.At? ==> Less(at.lo.key, key))
  }

  /** The outcome is on disk, on the pages of `t` and freshly allocated ones, and no other page
      changed. */
  ghost predicate Laid(a: Disk, b: Disk, t: Tree, o: Outcome, added: multiset<PageID>) {
    && o.l.pid == t.pid
    && StoredAll(b.pages, o.Parts())
    && PidsAll(o.Parts()) == Pids(t) + added
    && a.next <= b.next && Fresh(added, a.next, b.next)
    && (forall p | p in a.pages && p !in Pids(t) :: p in b.pages && b.pages[p] == a.pages[p])
    && (forall p | p in b.pages :: p < b.next)
  }

  /** Seen as a list of leaves, the outcome is `t` with one leaf replaced. */
  ghost predicate Listed(t: Tree, o: Outcome, s: Site) {
    LeavesBefore(s) == Leaves(t) && LeavesAfter(s) == LeavesAll(o.Parts())
  }

  ghost predicate SitePut(s: Site, key: Key, loc: RowLocation) {
    SiteOk(s) && Put(LeafEntries(s.was), Entries(s.now), key, loc)
  }

  /** The contract of one recursive insert. */
  ghost predicate Inserted(a: Disk, b: Disk, t: Tree, at: Place, key: Key, loc: RowLocation,
                           o: Outcome, s: Site, added: multiset<PageID>)
  {
    && OutFits(o, at)
    && Laid(a, b, t, o, added)
    && Listed(t, o, s)
    && SitePut(s, key, loc)
    && Relinked(a.pages, b.pages, s)
  }

  lemma WholeParts(l: Tree)
    ensures PidsAll(Whole(l).Parts()) == Pids(l)
    ensures LeavesAll(Whole(l).Parts()) == Leaves(l)
  {
    PidsOne(l);
    LeavesOne(l);
  }

  lemma SplitParts(l: Tree, key: Key, r: Tree)
    ensures PidsAll(Split(l, key, r).Parts()) == Pids(l) + Pids(r)
    ensures LeavesAll(Split(l, key, r).Parts()) == Leaves(l) + Leaves(r)
  {
    assert [l, r] == [l] + [r];
    PidsOne(l);
    PidsOne(r);
    LeavesOne(l);
    LeavesOne(r);
    PidsAppend([l], [r]);
    LeavesAppend([l], [r]);
  }

  // ---------------------------------------------------------------- leaves

  function PutAt<T>(s: seq<T>, i: nat, x: T): seq<T>
    requires i <= |s|
  {
    s[..i] + [x] + s[i..]
  }

  /** Rewriting a leaf in place. */
  lemma LeafRewritten(a: Disk, t: Tree, at: Place, key: Key, loc: RowLocation, l: Tree, b: Disk)
    requires t.Leaf? && Fits(t, at) && Owned(a, t)
    requires l.Leaf? && l.pid == t.pid && Fits(l, at) && Put(LeafEntries(t), LeafEntries(l), key, loc)
    requires b == a.(pages := a.pages[t.pid := LeafNode(l.keys, l.values, a.pages[t.pid].right)])
    ensures Inserted(a, b, t, at, key, loc, Whole(l), Site([], t, [l], []), multiset{})
  {
    WholeParts(l);
    PidInPids(t);
    assert Entries([l]) == LeafEntries(l) + Entries([]);
    assert Pids(l) == Pids(t) + multiset{};
  }

  lemma LeafUpdated(t: Tree, at: Place, key: Key, loc: RowLocation, i: nat, l: Tree)
    requires t.Leaf? && Fits(t, at) && i < |t.keys| && t.keys[i] == key
    requires l == Leaf(t.pid, t.keys, t.values[i := loc])
    ensures Fits(l, at) && Put(LeafEntries(t), LeafEntries(l), key, loc)
  {
    var e, e' := LeafEntries(t), LeafEntries(l);
    assert e == e[..i] + [Entry(key, t.values[i])] + e[i + 1..];
    assert e' == e[..i] + [Entry(key, loc)] + e[i + 1..];
  }

  /** Where a missing key goes in a leaf. */
  ghost predicate Slot(keys: seq<Key>, key: Key, i: nat) {
    && i <= |keys|
    && (forall j | 0 <= j < i :: Less(keys[j], key))
    && (forall j | i <= j < |keys| :: Less(key, keys[j]))
  }

  lemma LeafGrown(t: Tree, at: Place, key: Key, loc: RowLocation, i: nat, l: Tree)
    requires t.Leaf? && Fits(t, at) && In(key, at.lo, at.hi) && Slot(t.keys, key, i)
    requires l == Leaf(t.pid, PutAt(t.keys, i, key), PutAt(t.values, i, loc))
    ensures Ascending(l.keys) && forall j | 0 <= j < |l.keys| :: In(l.keys[j], at.lo, at.hi)
    ensures Put(LeafEntries(t), LeafEntries(l), key, loc)
    ensures |l.keys| <= BTREE_ORDER ==> Fits(l, at)
  {
    SpliceAscending(t.keys, i, key, at.lo, at.hi);
    var e, e' := LeafEntries(t), LeafEntries(l);
    assert e == e[..i] + e[i..];
    assert e' == e[..i] + [Entry(key, loc)] + e[i..];
  }

  lemma HalvesEntries(full: Tree, l: Tree, r: Tree, mid: nat)
    requires full.Leaf? && |full.keys| == |full.values| && mid <= |full.keys|
    requires l.Leaf? && l.keys == full.keys[..mid] && l.values == full.values[..mid]
    requires r.Leaf? && r.keys == full.keys[mid..] && r.values == full.values[mid..]
    ensures Paired([l, r]) && Entries([l, r]) == LeafEntries(full)
  {
    assert [l, r][1..] == [r];
    assert Entries([r]) == LeafEntries(r) + Entries([]);
    assert Entries([l, r]) == LeafEntries(l) + Entries([r]);
    assert LeafEntries(full) == LeafEntries(l) + LeafEntries(r);
  }

  lemma HalvesFit(full: Tree, at: Place, mid: nat, l: Tree, r: Tree)
    requires full.Leaf? && at.h == 0 && |full.keys| == |full.values| == BTREE_ORDER + 1 && mid == (BTREE_ORDER + 1) / 2
    requires Ascending(full.keys) && forall j | 0 <= j < |full.keys| :: In(full.keys[j], at.lo, at.hi)
    requires l.Leaf? && l.keys == full.keys[..mid] && l.values == full.values[..mid]
    requires r.Leaf? && r.keys == full.keys[mid..] && r.values == full.values[mid..]
    ensures OutFits(Split(l, full.keys[mid], r), at)
  {
    SplitBounds(full.keys, mid, at.lo, at.hi);
  }

  lemma HalvesLaid(a: Disk, t: Tree, l: Tree, key: Key, r: Tree, b: Disk)
    requires t.Leaf? && Owned(a, t) && l.Leaf? && r.Leaf? && l.pid == t.pid && r.pid == a.next
    requires b == Disk(a.pages[r.pid := LeafNode(r.keys, r.values, a.pages[t.pid].right)]
                       [t.pid := LeafNode(l.keys, l.values, r.pid)], a.next + 1)
    ensures Laid(a, b, t, Split(l, key, r), multiset{r.pid})
    ensures Relinked(a.pages, b.pages, Site([], t, [l, r], []))
  {
    PidInPids(t);
    SplitParts(l, key, r);
    assert Pids(l) + Pids(r) == Pids(t) + multiset{r.pid};
  }

  lemma LeafSplit(a: Disk, t: Tree, at: Place, key: Key, loc: RowLocation, i: nat, mid: nat,
                  full: Tree, l: Tree, r: Tree, b: Disk)
    requires t.Leaf? && Fits(t, at) && Owned(a, t) && In(key, at.lo, at.hi) && Slot(t.keys, key, i)
    requires |t.keys| == BTREE_ORDER && mid == (BTREE_ORDER + 1) / 2
    requires full == Leaf(t.pid, PutAt(t.keys, i, key), PutAt(t.values, i, loc))
    requires l == Leaf(t.pid, full.keys[..mid], full.values[..mid])
    requires r == Leaf(a.next, full.keys[mid..], full.values[mid..])
    requires b == Disk(a.pages[r.pid := LeafNode(r.keys, r.values, a.pages[t.pid].right)]
                       [t.pid := LeafNode(l.keys, l.values, r.pid)], a.next + 1)
    ensures Inserted(a, b, t, at, key, loc, Split(l, full.keys[mid], r), Site([], t, [l, r], []), multiset{r.pid})
  {
    LeafGrown(t, at, key, loc, i, full);
    HalvesFit(full, at, mid, l, r);
    HalvesLaid(a, t, l, full.keys[mid], r, b);
    HalvesEntries(full, l, r, mid);
    SplitParts(l, full.keys[mid], r);
    assert Listed(t, Split(l, full.keys[mid], r), Site([], t, [l, r], []));
  }

  // ---------------------------------------------------------------- internal nodes

  ghost function Widen(s: Site, before: seq<Tree>, after: seq<Tree>): Site {
    Site(LeavesAll(before) + s.x, s.was, s.now, s.y + LeavesAll(after))
  }

  ghost function KidsNow(kids: seq<Tree>, i: nat, o: Outcome): seq<Tree>
    requires i < |kids|
  {
    kids[..i] + o.Parts() + kids[i + 1..]
  }

  lemma Around<T>(s: seq<T>, i: nat)
    requires i < |s|
    ensures s[..i] + [s[i]] + s[i + 1..] == s
  {
  }

  lemma Reassociate<T>(a: seq<T>, x: seq<T>, m: seq<T>, y: seq<T>, b: seq<T>)
    ensures (a + x) + m + (y + b) == a + (x + m + y) + b
  {
  }

  lemma LeavesConcat(p: seq<Tree>, m: seq<Tree>, q: seq<Tree>)
    ensures LeavesAll(p + m + q) == LeavesAll(p) + LeavesAll(m) + LeavesAll(q)
  {
    LeavesAppend(p + m, q);
    LeavesAppend(p, m);
  }

  lemma PidsConcat(p: seq<Tree>, m: seq<Tree>, q: seq<Tree>)
    ensures PidsAll(p + m + q) == PidsAll(p) + PidsAll(m) + PidsAll(q)
  {
    PidsAppend(p + m, q);
    PidsAppend(p, m);
  }

  lemma WidenBefore(p: seq<Tree>, k: Tree, q: seq<Tree>, s: Site)
    requires LeavesBefore(s) == Leaves(k)
    ensures LeavesBefore(Widen(s, p, q)) == LeavesAll(p + [k] + q)
  {
    LeavesAround(p, k, q);
    Reassociate(LeavesAll(p), s.x, [s.was], s.y, LeavesAll(q));
  }

  lemma WidenAfter(p: seq<Tree>, m: seq<Tree>, q: seq<Tree>, s: Site)
    requires LeavesAfter(s) == LeavesAll(m)
    ensures LeavesAfter(Widen(s, p, q)) == LeavesAll(p + m + q)
  {
    LeavesConcat(p, m, q);
    Reassociate(LeavesAll(p), s.x, s.now, s.y, LeavesAll(q));
  }

  lemma WidenLeaves(kids: seq<Tree>, i: nat, o: Outcome, s: Site)
    requires i < |kids| && Listed(kids[i], o, s)
    ensures LeavesBefore(Widen(s, kids[..i], kids[i + 1..])) == LeavesAll(kids)
    ensures LeavesAfter(Widen(s, kids[..i], kids[i + 1..])) == LeavesAll(KidsNow(kids, i, o))
  {
    Around(kids, i);
    WidenBefore(kids[..i], kids[i], kids[i + 1..], s);
    WidenAfter(kids[..i], o.Parts(), kids[i + 1..], s);
  }

  lemma MoveOut(a: multiset<PageID>, c: multiset<PageID>, b: multiset<PageID>, f: multiset<PageID>)
    ensures a + (c + f) + b == (a + c + b) + f
  {
  }

  lemma KidsNowPids(kids: seq<Tree>, i: nat, o: Outcome, added: multiset<PageID>)
    requires i < |kids| && PidsAll(o.Parts()) == Pids(kids[i]) + added
    ensures PidsAll(KidsNow(kids, i, o)) == PidsAll(kids) + added
  {
    var p, q := kids[..i], kids[i + 1..];
    Around(kids, i);
    PidsAround(p, kids[i], q);
    PidsConcat(p, o.Parts(), q);
    MoveOut(PidsAll(p), Pids(kids[i]), PidsAll(q), added);
  }

  lemma AddFresh(mine: multiset<PageID>, added: multiset<PageID>, n0: PageID, n1: PageID)
    requires AtMostOnce(mine) && Allocated(mine, n0) && Fresh(added, n0, n1) && 0 < n0 <= n1
    ensures AtMostOnce(mine + added) && Allocated(mine + added, n1)
  {
  }

  lemma OwnParts(pid: PageID, p: multiset<PageID>, c: multiset<PageID>, q: multiset<PageID>)
    requires AtMostOnce(multiset{pid} + (p + c + q))
    ensures pid !in p && pid !in c && pid !in q
    ensures p !! c && c !! q
  {
    forall x
      ensures multiset{pid}[x] + p[x] + c[x] + q[x] <= 1
    {
      assert (multiset{pid} + (p + c + q))[x] == multiset{pid}[x] + p[x] + c[x] + q[x];
    }
  }

  lemma StoredAllParts(pages: Pages, t: Tree, i: nat)
    requires t.Inner? && Stored(pages, t) && i < |t.kids|
    ensures StoredAll(pages, t.kids[..i]) && StoredAll(pages, t.kids[i + 1..])
  {
  }

  lemma StoredAllConcat(pages: Pages, a: seq<Tree>, b: seq<Tree>, c: seq<Tree>)
    requires StoredAll(pages, a) && StoredAll(pages, b) && StoredAll(pages, c)
    ensures StoredAll(pages, a + b + c)
  {
  }

  /** After the recursive call the parent page is as it was, and all kids are in place. */
  lemma KidsLaid(a: Disk, b: Disk, t: Tree, i: nat, o: Outcome, added: multiset<PageID>)
    requires t.Inner? && Owned(a, t) && i < |t.kids| && Laid(a, b, t.kids[i], o, added)
    ensures t.pid in b.pages && b.pages[t.pid] == a.pages[t.pid]
    ensures StoredAll(b.pages, KidsNow(t.kids, i, o))
  {
    var kids := t.kids;
    var p, q := kids[..i], kids[i + 1..];
    Around(kids, i);
    PidsAround(p, kids[i], q);
    OwnParts(t.pid, PidsAll(p), Pids(kids[i]), PidsAll(q));
    StoredAllParts(a.pages, t, i);
    StoredAllFrame(a.pages, b.pages, p);
    StoredAllFrame(a.pages, b.pages, q);
    StoredAllConcat(b.pages, p, o.Parts(), q);
  }

  lemma NotTwice(pid: PageID, rest: multiset<PageID>)
    requires AtMostOnce(multiset{pid} + rest)
    ensures pid !in rest
  {
    assert (multiset{pid} + rest)[pid] == 1 + rest[pid];
  }

  lemma KidsOwned(a: Disk, b: Disk, t: Tree, i: nat, o: Outcome, added: multiset<PageID>, mine: multiset<PageID>)
    requires t.Inner? && Owned(a, t) && i < |t.kids| && Laid(a, b, t.kids[i], o, added)
    requires mine == PidsAll(KidsNow(t.kids, i, o))
    ensures multiset{t.pid} + mine == Pids(t) + added
    ensures t.pid !in mine
    ensures Allocated(mine, b.next)
  {
    KidsNowPids(t.kids, i, o, added);
    Regroup(multiset{t.pid}, PidsAll(t.kids), added);
    AddFresh(Pids(t), added, a.next, b.next);
    NotTwice(t.pid, mine);
    assert mine <= multiset{t.pid} + mine;
  }

  lemma Elsewhere(a: Disk, b: Disk, t: Tree, i: nat, o: Outcome, added: multiset<PageID>)
    requires t.Inner? && i < |t.kids| && Laid(a, b, t.kids[i], o, added)
    ensures forall p | p in a.pages && p !in Pids(t) :: p in b.pages && b.pages[p] == a.pages[p]
  {
    PidsKid(t.kids, i);
  }

  lemma StoredInner(pages: Pages, l: Tree)
    requires l.Inner? && StoredAll(pages, l.kids)
    requires l.pid in pages && pages[l.pid].InnerNode? && pages[l.pid].keys == l.keys
    requires |pages[l.pid].children| == |l.kids|
    requires forall j | 0 <= j < |l.kids| :: pages[l.pid].children[j] == l.kids[j].pid
    ensures Stored(pages, l)
  {
  }

  lemma PairedParts(a: seq<Tree>, b: seq<Tree>, c: seq<Tree>)
    requires Paired(a + b + c)
    ensures Paired(a) && Paired(c)
  {
    forall l | l in a || l in c
      ensures l in a + b + c
    {
    }
  }

  lemma PairedAppend(a: seq<Tree>, b: seq<Tree>)
    requires Paired(a) && Paired(b)
    ensures Paired(a + b)
  {
  }

  lemma SiteEntries(s: Site)
    requires SiteOk(s)
    ensures Paired(LeavesBefore(s)) && Paired(LeavesAfter(s))
    ensures Entries(LeavesBefore(s)) == Entries(s.x) + LeafEntries(s.was) + Entries(s.y)
    ensures Entries(LeavesAfter(s)) == Entries(s.x) + Entries(s.now) + Entries(s.y)
  {
    EntriesAppend(s.x + [s.was], s.y);
    EntriesAppend(s.x, [s.was]);
    EntriesAppend(s.x + s.now, s.y);
    EntriesAppend(s.x, s.now);
    assert Entries([s.was]) == LeafEntries(s.was) + Entries([]);
  }

  lemma WidenOk(t: Tree, at: Place, i: nat, s: Site)
    requires t.Inner? && Fits(t, at) && i < |t.kids| && SiteOk(s)
    ensures SiteOk(Widen(s, t.kids[..i], t.kids[i + 1..]))
  {
    LeavesAscending(t, at.h, at.lo, at.hi, at.root);
    Around(t.kids, i);
    LeavesAround(t.kids[..i], t.kids[i], t.kids[i + 1..]);
    PairedParts(LeavesAll(t.kids[..i]), Leaves(t.kids[i]), LeavesAll(t.kids[i + 1..]));
    PairedAppend(LeavesAll(t.kids[..i]), s.x);
    PairedAppend(s.y, LeavesAll(t.kids[i + 1..]));
  }

  /** A child's insert, seen from its parent. */
  ghost predicate ChildInserted(a: Disk, b: Disk, t: Tree, at: Place, key: Key, loc: RowLocation,
                                i: nat, o: Outcome, s: Site, added: multiset<PageID>)
  {
    && t.Inner? && at.h > 0 && i <= |t.keys| && |t.kids| == |t.keys| + 1
    && Fits(t, at) && Owned(a, t)
    && Inserted(a, b, t.kids[i], KidPlace(t, at, i), key, loc, o, s, added)
  }

  lemma UnchangedLaid(a: Disk, b: Disk, t: Tree, i: nat, o: Outcome, added: multiset<PageID>, l: Tree)
    requires t.Inner? && Owned(a, t) && i < |t.kids| && o.Whole? && Laid(a, b, t.kids[i], o, added)
    requires l == Inner(t.pid, t.keys, KidsNow(t.kids, i, o))
    ensures Laid(a, b, t, Whole(l), added)
  {
    KidsLaid(a, b, t, i, o, added);
    KidsOwned(a, b, t, i, o, added, PidsAll(l.kids));
    Elsewhere(a, b, t, i, o, added);
    StoredInner(b.pages, l);
    WholeParts(l);
  }

  /** No split below: the parent page is not written. */
  lemma InnerUnchanged(a: Disk, b: Disk, t: Tree, at: Place, key: Key, loc: RowLocation,
                       i: nat, o: Outcome, s: Site, added: multiset<PageID>, l: Tree)
    requires ChildInserted(a, b, t, at, key, loc, i, o, s, added) && o.Whole?
    requires l == Inner(t.pid, t.keys, KidsNow(t.kids, i, o))
    ensures Inserted(a, b, t, at, key, loc, Whole(l), Widen(s, t.kids[..i], t.kids[i + 1..]), added)
  {
    assert t.kids[i := o.l] == KidsNow(t.kids, i, o);
    ReplaceKid(t.keys, t.kids, at.h - 1, at.lo, at.hi, i, o.l);
    UnchangedLaid(a, b, t, i, o, added, l);
    WidenLeaves(t.kids, i, o, s);
    WholeParts(l);
    WidenOk(t, at, i, s);
  }

  lemma GrownLaid(a: Disk, b: Disk, t: Tree, i: nat, o: Outcome, added: multiset<PageID>, l: Tree, c: Disk)
    requires t.Inner? && Owned(a, t) && i < |t.kids| && o.Split? && Laid(a, b, t.kids[i], o, added)
    requires l.Inner? && l.pid == t.pid && l.kids == KidsNow(t.kids, i, o)
    requires c == b.(pages := b.pages[t.pid := InnerNode(l.keys, PutAt(a.pages[t.pid].children, i + 1, o.r.pid))])
    ensures Laid(a, c, t, Whole(l), added)
  {
    KidsLaid(a, b, t, i, o, added);
    KidsOwned(a, b, t, i, o, added, PidsAll(l.kids));
    Elsewhere(a, b, t, i, o, added);
    ChildrenNow(a, t, i, o);
    StoredAllFrame(b.pages, c.pages, l.kids);
    StoredInner(c.pages, l);
    WholeParts(l);
    PidInPids(t);
  }

  lemma GrownFits(t: Tree, at: Place, i: nat, o: Outcome, l: Tree)
    requires t.Inner? && at.h > 0 && i <= |t.keys| && |t.kids| == |t.keys| + 1
    requires Fits(t, at) && o.Split? && OutFits(o, KidPlace(t, at, i)) && |t.keys| < BTREE_ORDER
    requires l == Inner(t.pid, PutAt(t.keys, i, o.key), KidsNow(t.kids, i, o))
    ensures Fits(l, at)
  {
    SpliceKids(t.keys, t.kids, at.h - 1, at.lo, at.hi, i, o.key, o.l, o.r);
  }

  /** A split below: the parent takes the new separator and the new child. */
  lemma InnerGrown(a: Disk, b: Disk, t: Tree, at: Place, key: Key, loc: RowLocation,
                   i: nat, o: Outcome, s: Site, added: multiset<PageID>, l: Tree, c: Disk)
    requires ChildInserted(a, b, t, at, key, loc, i, o, s, added) && o.Split? && |t.keys| < BTREE_ORDER
    requires l == Inner(t.pid, PutAt(t.keys, i, o.key), KidsNow(t.kids, i, o))
    requires c == b.(pages := b.pages[t.pid := InnerNode(l.keys, PutAt(a.pages[t.pid].children, i + 1, o.r.pid))])
    ensures Inserted(a, c, t, at, key, loc, Whole(l), Widen(s, t.kids[..i], t.kids[i + 1..]), added)
  {
    GrownFits(t, at, i, o, l);
    GrownLaid(a, b, t, i, o, added, l, c);
    WidenLeaves(t.kids, i, o, s);
    WholeParts(l);
    WidenOk(t, at, i, s);
    KidsLaid(a, b, t, i, o, added);
    RelinkedThroughInner(a.pages, b.pages, c.pages, s, multiset{t.pid});
  }

  /** The two halves of an over-full internal node. */
  ghost predicate Halved(full: Tree, mid: nat, l: Tree, r: Tree, rpid: PageID) {
    && full.Inner? && mid < |full.keys| && |full.kids| == |full.keys| + 1
    && l == Inner(full.pid, full.keys[..mid], full.kids[..mid + 1])
    && r == Inner(rpid, full.keys[mid + 1..], full.kids[mid + 1..])
  }

  lemma HalvedLists(full: Tree, mid: nat, l: Tree, r: Tree, rpid: PageID)
    requires Halved(full, mid, l, r, rpid)
    ensures Pids(l) + Pids(r) == Pids(full) + multiset{rpid}
    ensures Leaves(l) + Leaves(r) == Leaves(full)
  {
    assert full.kids == l.kids + r.kids;
    PidsAppend(l.kids, r.kids);
    LeavesAppend(l.kids, r.kids);
  }

  lemma ChildrenNow(a: Disk, t: Tree, i: nat, o: Outcome)
    requires t.Inner? && i < |t.kids| && Stored(a.pages, t) && o.Split? && o.l.pid == t.kids[i].pid
    ensures var ch := PutAt(a.pages[t.pid].children, i + 1, o.r.pid);
            && |ch| == |KidsNow(t.kids, i, o)|
            && forall j | 0 <= j < |ch| :: ch[j] == KidsNow(t.kids, i, o)[j].pid
  {
  }

  lemma SplitStored(pages: Pages, full: Tree, mid: nat, l: Tree, r: Tree, rpid: PageID, ch: seq<PageID>)
    requires Halved(full, mid, l, r, rpid) && StoredAll(pages, full.kids)
    requires |ch| == |full.kids| && forall j | 0 <= j < |ch| :: ch[j] == full.kids[j].pid
    requires rpid in pages && pages[rpid] == InnerNode(r.keys, ch[mid + 1..])
    requires full.pid in pages && pages[full.pid] == InnerNode(l.keys, ch[..mid + 1])
    ensures Stored(pages, l) && Stored(pages, r)
  {
    assert StoredAll(pages, l.kids) && StoredAll(pages, r.kids);
    StoredInner(pages, l);
    StoredInner(pages, r);
  }

  lemma SplitOnDisk(a: Disk, b: Disk, t: Tree, i: nat, o: Outcome, added: multiset<PageID>,
                    full: Tree, mid: nat, l: Tree, r: Tree, ch: seq<PageID>, c: Disk)
    requires t.Inner? && Owned(a, t) && i < |t.kids| && o.Split? && Laid(a, b, t.kids[i], o, added)
    requires full.Inner? && full.pid == t.pid && full.kids == KidsNow(t.kids, i, o)
    requires Halved(full, mid, l, r, b.next)
    requires ch == PutAt(a.pages[t.pid].children, i + 1, o.r.pid) && |ch| == |full.kids|
    requires c.pages == b.pages[b.next := InnerNode(r.keys, ch[mid + 1..])][t.pid := InnerNode(l.keys, ch[..mid + 1])]
    ensures Stored(c.pages, l) && Stored(c.pages, r)
  {
    KidsLaid(a, b, t, i, o, added);
    KidsOwned(a, b, t, i, o, added, PidsAll(full.kids));
    ChildrenNow(a, t, i, o);
    StoredAllFrame(b.pages, c.pages, full.kids);
    SplitStored(c.pages, full, mid, l, r, b.next, ch);
  }

  lemma SplitPids(a: Disk, b: Disk, t: Tree, i: nat, o: Outcome, added: multiset<PageID>,
                  full: Tree, mid: nat, l: Tree, r: Tree)
    requires t.Inner? && Owned(a, t) && i < |t.kids| && Laid(a, b, t.kids[i], o, added)
    requires full.Inner? && full.pid == t.pid && full.kids == KidsNow(t.kids, i, o)
    requires Halved(full, mid, l, r, b.next)
    ensures Pids(l) + Pids(r) == Pids(t) + (added + multiset{b.next})
  {
    KidsOwned(a, b, t, i, o, added, PidsAll(full.kids));
    HalvedLists(full, mid, l, r, b.next);
    Regroup(Pids(t), added, multiset{b.next});
  }

  lemma SplitLaid(a: Disk, b: Disk, t: Tree, i: nat, o: Outcome, added: multiset<PageID>,
                  full: Tree, mid: nat, l: Tree, r: Tree, ch: seq<PageID>, c: Disk)
    requires t.Inner? && Owned(a, t) && i < |t.kids| && o.Split? && Laid(a, b, t.kids[i], o, added)
    requires full.Inner? && full.pid == t.pid && full.kids == KidsNow(t.kids, i, o)
    requires Halved(full, mid, l, r, b.next)
    requires ch == PutAt(a.pages[t.pid].children, i + 1, o.r.pid) && |ch| == |full.kids|
    requires c == Disk(b.pages[b.next := InnerNode(r.keys, ch[mid + 1..])]
                       [t.pid := InnerNode(l.keys, ch[..mid + 1])], b.next + 1)
    ensures Laid(a, c, t, Split(l, full.keys[mid], r), added + multiset{b.next})
  {
    SplitOnDisk(a, b, t, i, o, added, full, mid, l, r, ch, c);
    SplitPids(a, b, t, i, o, added, full, mid, l, r);
    Elsewhere(a, b, t, i, o, added);
    SplitParts(l, full.keys[mid], r);
    PidInPids(t);
  }

  /** A split below that over-fills the parent: the parent splits too and pushes its middle key up. */
  lemma InnerSplit(a: Disk, b: Disk, t: Tree, at: Place, key: Key, loc: RowLocation,
                   i: nat, o: Outcome, s: Site, added: multiset<PageID>,
                   full: Tree, mid: nat, l: Tree, r: Tree, ch: seq<PageID>, c: Disk)
    requires ChildInserted(a, b, t, at, key, loc, i, o, s, added) && o.Split?
    requires |t.keys| == BTREE_ORDER && mid == (BTREE_ORDER + 1) / 2
    requires full == Inner(t.pid, PutAt(t.keys, i, o.key), KidsNow(t.kids, i, o))
    requires Halved(full, mid, l, r, b.next)
    requires ch == PutAt(a.pages[t.pid].children, i + 1, o.r.pid) && |ch| == |full.kids|
    requires c == Disk(b.pages[b.next := InnerNode(r.keys, ch[mid + 1..])]
                       [t.pid := InnerNode(l.keys, ch[..mid + 1])], b.next + 1)
    ensures Inserted(a, c, t, at, key, loc, Split(l, full.keys[mid], r),
                     Widen(s, t.kids[..i], t.kids[i + 1..]), added + multiset{b.next})
  {
    SplitFits(t, at, i, o, full, mid, l, r, b.next);
    SplitLaid(a, b, t, i, o, added, full, mid, l, r, ch, c);
    SplitListed(t, i, o, s, full, mid, l, r, b.next);
    WidenOk(t, at, i, s);
    SplitRelinked(a, b, t, i, o, s, added, c);
  }

  lemma SplitRelinked(a: Disk, b: Disk, t: Tree, i: nat, o: Outcome, s: Site, added: multiset<PageID>, c: Disk)
    requires t.Inner? && Owned(a, t) && i < |t.kids| && Laid(a, b, t.kids[i], o, added)
    requires |s.now| > 0 && Relinked(a.pages, b.pages, s)
    requires forall p | p in b.pages && p != t.pid && p != b.next :: p in c.pages && c.pages[p] == b.pages[p]
    ensures Relinked(a.pages, c.pages, Widen(s, t.kids[..i], t.kids[i + 1..]))
  {
    KidsLaid(a, b, t, i, o, added);
    RelinkedThroughInner(a.pages, b.pages, c.pages, s, multiset{t.pid, b.next});
  }

  lemma SplitFits(t: Tree, at: Place, i: nat, o: Outcome, full: Tree, mid: nat, l: Tree, r: Tree, rpid: PageID)
    requires t.Inner? && at.h > 0 && i <= |t.keys| && |t.kids| == |t.keys| + 1
    requires Fits(t, at) && o.Split? && OutFits(o, KidPlace(t, at, i))
    requires |t.keys| == BTREE_ORDER && mid == (BTREE_ORDER + 1) / 2
    requires full == Inner(t.pid, PutAt(t.keys, i, o.key), KidsNow(t.kids, i, o))
    requires Halved(full, mid, l, r, rpid)
    ensures OutFits(Split(l, full.keys[mid], r), at)
  {
    SpliceKids(t.keys, t.kids, at.h - 1, at.lo, at.hi, i, o.key, o.l, o.r);
    SplitKids(full.keys, full.kids, at.h - 1, at.lo, at.hi, mid);
  }

  lemma SplitListed(t: Tree, i: nat, o: Outcome, s: Site, full: Tree, mid: nat, l: Tree, r: Tree, rpid: PageID)
    requires t.Inner? && i < |t.kids| && Listed(t.kids[i], o, s)
    requires full.Inner? && full.kids == KidsNow(t.kids, i, o) && Halved(full, mid, l, r, rpid)
    ensures Listed(t, Split(l, full.keys[mid], r), Widen(s, t.kids[..i], t.kids[i + 1..]))
  {
    WidenLeaves(t.kids, i, o, s);
    HalvedLists(full, mid, l, r, rpid);
    SplitParts(l, full.keys[mid], r);
  }
}
