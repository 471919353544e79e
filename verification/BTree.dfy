/** The B+ tree index: recursive insert with splits and root growth, lazy delete, point search and
    range scan over right-sibling links, on pages that are read, rewritten and allocated. */
module BTree {
  import opened KeyOrder
  import opened BTreeShape
  import opened BTreeStore
  import opened BTreeInsert
  import opened BTreeCodec
  import opened BTreeFits
  import Bytes

  // ---------------------------------------------------------------- searching one node

  /** Binary search in a leaf. */
  method LeafSearch(keys: seq<Key>, key: Key) returns (idx: nat, found: bool)
    requires Ascending(keys)
    ensures found ==> idx < |keys| && keys[idx] == key
    ensures !found ==> Slot(keys, key, idx) && key !in keys
  {
    StrictTotalOrder();
    var lo, hi := 0, |keys|;
    while lo < hi
      invariant lo <= hi <= |keys|
      invariant forall j | 0 <= j < lo :: Less(keys[j], key)
      invariant forall j | hi <= j < |keys| :: Less(key, keys[j])
    {
      var mid := (lo + hi) / 2;
      if keys[mid] == key {
        return mid, true;
      } else if Less(keys[mid], key) {
        lo := mid + 1;
      } else {
        hi := mid;
      }
    }
    return lo, false;
  }

  /** The child to follow for `key`: the first whose separator is greater. */
  method ChildIndex(keys: seq<Key>, key: Key) returns (i: nat)
    ensures Routes(keys, key, i)
  {
    i := 0;
    while i < |keys|
      invariant i <= |keys|
      invariant forall j | 0 <= j < i :: !Less(key, keys[j])
    {
      if Less(key, keys[i]) {
        return;
      }
      i := i + 1;
    }
  }

  // ---------------------------------------------------------------- where a key can be

  lemma ConsEntries(k: Tree, rest: seq<Tree>)
    requires Paired(Leaves(k)) && Paired(LeavesAll(rest))
    ensures Paired(LeavesAll([k] + rest))
    ensures Entries(LeavesAll([k] + rest)) == Entries(Leaves(k)) + Entries(LeavesAll(rest))
  {
    LeavesOne(k);
    LeavesAppend([k], rest);
    EntriesAppend(Leaves(k), LeavesAll(rest));
  }

  lemma {:induction false} SuffixWithin(keys: seq<Key>, kids: seq<Tree>, h: nat, lo: Bound, hi: Bound, n: nat)
    requires InnerShape(keys, kids, h, lo, hi) && n <= |keys|
    ensures Paired(LeavesAll(kids[n..]))
    ensures forall e | e in Entries(LeavesAll(kids[n..])) :: AtLeast(LowOf(keys, lo, n), e.key)
    decreases |keys| - n
  {
    LeavesAscending(kids[n], h, LowOf(keys, lo, n), HighOf(keys, hi, n), false);
    if n == |keys| {
      LeavesOne(kids[n]);
      assert kids[n..] == [kids[n]];
    } else {
      SuffixWithin(keys, kids, h, lo, hi, n + 1);
      assert kids[n..] == [kids[n]] + kids[n + 1..];
      ConsEntries(kids[n], kids[n + 1..]);
      SeparatorAbove(keys, lo, hi, n);
    }
  }

  lemma SeparatorAbove(keys: seq<Key>, lo: Bound, hi: Bound, n: nat)
    requires Ascending(keys) && n < |keys| && forall i | 0 <= i < |keys| :: In(keys[i], lo, hi)
    ensures forall k | AtLeast(At(keys[n]), k) :: AtLeast(LowOf(keys, lo, n), k)
  {
    StrictTotalOrder();
    assert In(keys[n], lo, hi);
  }

  /** A key that routes to kid `i` sorts after everything in earlier kids and before everything in
      later ones. */
  lemma RoutedApart(t: Tree, at: Place, key: Key, i: nat)
    requires t.Inner? && |t.kids| == |t.keys| + 1 && Fits(t, at) && Routes(t.keys, key, i)
    ensures Paired(LeavesAll(t.kids[..i])) && Paired(LeavesAll(t.kids[i + 1..]))
    ensures forall e | e in Entries(LeavesAll(t.kids[..i])) :: Less(e.key, key)
    ensures forall e | e in Entries(LeavesAll(t.kids[i + 1..])) :: Less(key, e.key)
  {
    StrictTotalOrder();
    if i > 0 {
      KidsAscending(t.keys, t.kids, at.h - 1, at.lo, at.hi, i);
    } else {
      assert LeavesAll(t.kids[..0]) == [];
    }
    if i < |t.keys| {
      SuffixWithin(t.keys, t.kids, at.h - 1, at.lo, at.hi, i + 1);
    } else {
      assert LeavesAll(t.kids[i + 1..]) == [];
    }
  }

  ghost predicate Holds(t: Tree, k: Key, v: RowLocation)
    requires Paired(Leaves(t))
  {
    Entry(k, v) in Entries(Leaves(t))
  }

  lemma RoutedOnly(t: Tree, at: Place, key: Key, i: nat)
    requires t.Inner? && |t.kids| == |t.keys| + 1 && Fits(t, at) && Routes(t.keys, key, i)
    ensures Paired(Leaves(t)) && Paired(Leaves(t.kids[i]))
    ensures forall v :: Holds(t, key, v) <==> Holds(t.kids[i], key, v)
  {
    LeavesAscending(t, at.h, at.lo, at.hi, at.root);
    assert InnerShape(t.keys, t.kids, at.h - 1, at.lo, at.hi);
    LeavesAscending(t.kids[i], at.h - 1, LowOf(t.keys, at.lo, i), HighOf(t.keys, at.hi, i), false);
    RoutedApart(t, at, key, i);
    var p, c, q := LeavesAll(t.kids[..i]), Leaves(t.kids[i]), LeavesAll(t.kids[i + 1..]);
    Around(t.kids, i);
    LeavesAround(t.kids[..i], t.kids[i], t.kids[i + 1..]);
    EntriesAppend(p + c, q);
    EntriesAppend(p, c);
    Trichotomy(key, key);
  }

  // ---------------------------------------------------------------- deleting

  lemma LeafCut(t: Tree, i: nat, l: Tree)
    requires t.Leaf? && |t.keys| == |t.values| && i < |t.keys|
    requires l == Leaf(t.pid, t.keys[..i] + t.keys[i + 1..], t.values[..i] + t.values[i + 1..])
    ensures Cut(LeafEntries(t), LeafEntries(l), t.keys[i])
  {
    var e, e' := LeafEntries(t), LeafEntries(l);
    assert e == e[..i] + [Entry(t.keys[i], t.values[i])] + e[i + 1..];
    assert e' == e[..i] + e[i + 1..];
  }

  lemma LeafShrunk(a: Disk, t: Tree, at: Place, key: Key, i: nat, l: Tree, b: Disk)
    requires t.Leaf? && Fits(t, at) && Owned(a, t) && i < |t.keys| && t.keys[i] == key
    requires l == Leaf(t.pid, t.keys[..i] + t.keys[i + 1..], t.values[..i] + t.values[i + 1..])
    requires b == a.(pages := a.pages[t.pid := LeafNode(l.keys, l.values, a.pages[t.pid].right)])
    ensures Deleted(a, b, t, at, key, true, l, Site([], t, [l], []))
  {
    LeafCut(t, i, l);
    WholeParts(l);
    PidInPids(t);
    assert Entries([l]) == LeafEntries(l) + Entries([]);
    assert Pids(l) == Pids(t) + multiset{};
  }

  /** The contract of one recursive delete. */
  ghost predicate Deleted(a: Disk, b: Disk, t: Tree, at: Place, key: Key, found: bool, l: Tree, s: Site) {
    if found then
      && Fits(l, at)
      && Laid(a, b, t, Whole(l), multiset{})
      && Listed(t, Whole(l), s)
      && SiteOk(s) && Cut(LeafEntries(s.was), Entries(s.now), key)
      && Relinked(a.pages, b.pages, s)
    else
      b == a && l == t && Paired(Leaves(t)) && forall v :: !Holds(t, key, v)
  }

  lemma LeafMissing(t: Tree, at: Place, key: Key)
    requires t.Leaf? && Fits(t, at) && key !in t.keys
    ensures Paired(Leaves(t)) && forall v :: !Holds(t, key, v)
  {
    assert Entries([t]) == LeafEntries(t) + Entries([]);
  }

  lemma InnerShrunkFits(t: Tree, at: Place, i: nat, k: Tree)
    requires t.Inner? && at.h > 0 && |t.kids| == |t.keys| + 1 && i <= |t.keys| && Fits(t, at)
    requires Fits(k, KidPlace(t, at, i))
    ensures Fits(Inner(t.pid, t.keys, KidsNow(t.kids, i, Whole(k))), at)
  {
    assert t.kids[i := k] == KidsNow(t.kids, i, Whole(k));
    ReplaceKid(t.keys, t.kids, at.h - 1, at.lo, at.hi, i, k);
  }

  lemma InnerShrunk(a: Disk, b: Disk, t: Tree, at: Place, key: Key, i: nat, found: bool, k: Tree, s: Site, l: Tree)
    requires t.Inner? && |t.kids| == |t.keys| + 1 && Fits(t, at) && Owned(a, t) && Routes(t.keys, key, i)
    requires Deleted(a, b, t.kids[i], KidPlace(t, at, i), key, found, k, s)
    requires l == if found then Inner(t.pid, t.keys, KidsNow(t.kids, i, Whole(k))) else t
    ensures Deleted(a, b, t, at, key, found, l, if found then Widen(s, t.kids[..i], t.kids[i + 1..]) else s)
  {
    if found {
      InnerShrunkFits(t, at, i, k);
      UnchangedLaid(a, b, t, i, Whole(k), multiset{}, l);
      WidenLeaves(t.kids, i, Whole(k), s);
      WholeParts(l);
      WidenOk(t, at, i, s);
    } else {
      RoutedOnly(t, at, key, i);
    }
  }

  // ---------------------------------------------------------------- the whole tree

  const EVERYWHERE := Place(0, Unbounded, Unbounded, true)

  /** Everything that holds of the index between two calls. */
  ghost predicate Sound(d: Disk, root: PageID, t: Tree, h: nat) {
    && t.pid == root
    && Fits(t, EVERYWHERE.(h := h))
    && Owned(d, t)
    && Chain(d.pages, Leaves(t))
  }

  ghost function ContentsOf(t: Tree): map<Key, RowLocation>
    requires Paired(Leaves(t))
  {
    MapOf(Entries(Leaves(t)))
  }

  lemma SoundPaired(d: Disk, root: PageID, t: Tree, h: nat)
    requires Sound(d, root, t, h)
    ensures Paired(Leaves(t)) && AscendingEntries(Entries(Leaves(t)))
  {
    LeavesAscending(t, h, Unbounded, Unbounded, true);
  }

  lemma OwnedAfter(a: Disk, b: Disk, t: Tree, l: Tree, added: multiset<PageID>)
    requires Owned(a, t) && Laid(a, b, t, Whole(l), added)
    ensures Owned(b, l)
  {
    WholeParts(l);
    AddFresh(Pids(t), added, a.next, b.next);
    assert Stored(b.pages, Whole(l).Parts()[0]);
  }

  lemma SubsetOnce(a: multiset<PageID>, b: multiset<PageID>)
    requires a <= b && AtMostOnce(b)
    ensures AtMostOnce(a)
  {
    forall p | p in a
      ensures a[p] == 1
    {
      assert a[p] <= b[p];
    }
  }

  lemma SubsetAllocated(a: multiset<PageID>, b: multiset<PageID>, n: PageID)
    requires a <= b && Allocated(b, n)
    ensures Allocated(a, n)
  {
    forall p | p in a
      ensures p in b
    {
      assert a[p] <= b[p];
    }
  }

  lemma ChainKept(a: Disk, b: Disk, t: Tree, s: Site)
    requires Owned(a, t) && Chain(a.pages, Leaves(t)) && LeavesBefore(s) == Leaves(t)
    requires SiteOk(s) && Relinked(a.pages, b.pages, s)
    ensures Chain(b.pages, LeavesAfter(s))
  {
    LeafPids(t);
    SubsetOnce(PidsAll(Leaves(t)), Pids(t));
    ChainAfter(a.pages, b.pages, s);
  }

  lemma PutContents(t: Tree, u: Tree, key: Key, loc: RowLocation, s: Site)
    requires SitePut(s, key, loc) && LeavesBefore(s) == Leaves(t) && LeavesAfter(s) == Leaves(u)
    requires Paired(Leaves(t)) && AscendingEntries(Entries(Leaves(t)))
    requires Paired(Leaves(u)) && AscendingEntries(Entries(Leaves(u)))
    ensures ContentsOf(u) == ContentsOf(t)[key := loc]
  {
    SiteEntries(s);
    PutInContext(Entries(s.x), LeafEntries(s.was), Entries(s.now), Entries(s.y), key, loc);
    PutMeans(Entries(Leaves(t)), Entries(Leaves(u)), key, loc);
  }

  lemma CutContents(t: Tree, u: Tree, key: Key, s: Site)
    requires SiteOk(s) && Cut(LeafEntries(s.was), Entries(s.now), key)
    requires LeavesBefore(s) == Leaves(t) && LeavesAfter(s) == Leaves(u)
    requires Paired(Leaves(t)) && AscendingEntries(Entries(Leaves(t))) && Paired(Leaves(u))
    ensures key in ContentsOf(t) && ContentsOf(u) == ContentsOf(t) - {key}
  {
    SiteEntries(s);
    CutInContext(Entries(s.x), LeafEntries(s.was), Entries(s.now), Entries(s.y), key);
    CutMeans(Entries(Leaves(t)), Entries(Leaves(u)), key);
  }

  lemma HeldBinds(t: Tree, k: Key)
    requires Paired(Leaves(t)) && AscendingEntries(Entries(Leaves(t)))
    ensures forall v :: Holds(t, k, v) <==> Binds(ContentsOf(t), k, v)
    ensures (forall v :: !Holds(t, k, v)) <==> k !in ContentsOf(t)
  {
    MapOfHas(Entries(Leaves(t)));
    if k in ContentsOf(t) {
      assert Binds(ContentsOf(t), k, ContentsOf(t)[k]);
    }
  }

  lemma InsertWhole(a: Disk, b: Disk, t: Tree, h: nat, key: Key, loc: RowLocation, o: Outcome, s: Site,
                    added: multiset<PageID>)
    requires Sound(a, t.pid, t, h) && o.Whole?
    requires Inserted(a, b, t, EVERYWHERE.(h := h), key, loc, o, s, added)
    ensures Sound(b, t.pid, o.l, h)
    ensures Paired(Leaves(t)) && Paired(Leaves(o.l)) && ContentsOf(o.l) == ContentsOf(t)[key := loc]
  {
    WholeParts(o.l);
    OwnedAfter(a, b, t, o.l, added);
    ChainKept(a, b, t, s);
    SoundPaired(a, t.pid, t, h);
    SoundPaired(b, t.pid, o.l, h);
    PutContents(t, o.l, key, loc, s);
  }

  lemma TwoKids(o: Outcome, h: nat)
    requires o.Split? && OutFits(o, EVERYWHERE.(h := h))
    ensures InnerShape([o.key], [o.l, o.r], h, Unbounded, Unbounded)
  {
  }

  lemma RootOwned(a: Disk, b: Disk, t: Tree, o: Outcome, added: multiset<PageID>, root: Tree, c: Disk)
    requires Owned(a, t) && o.Split? && Laid(a, b, t, o, added)
    requires root == Inner(b.next, [o.key], [o.l, o.r])
    requires c == Disk(b.pages[b.next := InnerNode([o.key], [o.l.pid, o.r.pid])], b.next + 1)
    ensures Owned(c, root)
  {
    AddFresh(Pids(t), added, a.next, b.next);
    assert root.kids == o.Parts();
    StoredAllFrame(b.pages, c.pages, root.kids);
    StoredInner(c.pages, root);
  }

  lemma RelinkedRoot(a: Disk, b: Disk, c: Disk, s: Site)
    requires |s.now| > 0 && Relinked(a.pages, b.pages, s)
    requires forall p | p in b.pages :: p in c.pages && c.pages[p] == b.pages[p]
    ensures Relinked(a.pages, c.pages, s)
  {
    RelinkedThroughInner(a.pages, b.pages, c.pages, s, multiset{});
  }

  lemma InsertGrewRoot(a: Disk, b: Disk, t: Tree, h: nat, key: Key, loc: RowLocation, o: Outcome, s: Site,
                       added: multiset<PageID>, root: Tree, c: Disk)
    requires Sound(a, t.pid, t, h) && o.Split?
    requires Inserted(a, b, t, EVERYWHERE.(h := h), key, loc, o, s, added)
    requires root == Inner(b.next, [o.key], [o.l, o.r])
    requires c == Disk(b.pages[b.next := InnerNode([o.key], [o.l.pid, o.r.pid])], b.next + 1)
    ensures Sound(c, root.pid, root, h + 1)
    ensures Paired(Leaves(t)) && Paired(Leaves(root)) && ContentsOf(root) == ContentsOf(t)[key := loc]
  {
    TwoKids(o, h);
    RootOwned(a, b, t, o, added, root, c);
    assert root.kids == o.Parts();
    RelinkedRoot(a, b, c, s);
    ChainKept(a, c, t, s);
    SoundPaired(a, t.pid, t, h);
    SoundPaired(c, root.pid, root, h + 1);
    PutContents(t, root, key, loc, s);
  }

  lemma DeleteKept(a: Disk, b: Disk, t: Tree, h: nat, key: Key, found: bool, l: Tree, s: Site)
    requires Sound(a, t.pid, t, h)
    requires Deleted(a, b, t, EVERYWHERE.(h := h), key, found, l, s)
    ensures Sound(b, t.pid, l, h)
    ensures Paired(Leaves(t)) && Paired(Leaves(l))
    ensures found <==> key in ContentsOf(t)
    ensures ContentsOf(l) == ContentsOf(t) - {key}
  {
    SoundPaired(a, t.pid, t, h);
    if found {
      WholeParts(l);
      OwnedAfter(a, b, t, l, multiset{});
      ChainKept(a, b, t, s);
      SoundPaired(b, t.pid, l, h);
      CutContents(t, l, key, s);
    } else {
      HeldBinds(t, key);
      assert ContentsOf(t) - {key} == ContentsOf(t);
    }
  }

  // ---------------------------------------------------------------- range scans

  predicate InRange(k: Key, from: Key, to: Key) {
    (from == [] || !Less(k, from)) && (to == [] || !Less(to, k))
  }

  ghost function Select(e: seq<Entry>, from: Key, to: Key): seq<Entry> {
    if e == [] then []
    else Select(e[..|e| - 1], from, to) + if InRange(e[|e| - 1].key, from, to) then [e[|e| - 1]] else []
  }

  lemma {:induction false} SelectAppend(a: seq<Entry>, b: seq<Entry>, from: Key, to: Key)
    ensures Select(a + b, from, to) == Select(a, from, to) + Select(b, from, to)
  {
    if b == [] {
      assert a + b == a;
    } else {
      SelectAppend(a, b[..|b| - 1], from, to);
      assert (a + b)[..|a + b| - 1] == a + b[..|b| - 1];
    }
  }

  lemma {:induction false} SelectNone(e: seq<Entry>, from: Key, to: Key)
    requires forall x | x in e :: !InRange(x.key, from, to)
    ensures Select(e, from, to) == []
  {
    if e != [] {
      SelectNone(e[..|e| - 1], from, to);
    }
  }

  /** Selecting keeps order and keeps exactly the entries in range. */
  lemma {:induction false} SelectMeans(e: seq<Entry>, from: Key, to: Key)
    requires AscendingEntries(e)
    ensures AscendingEntries(Select(e, from, to))
    ensures forall x :: x in Select(e, from, to) <==> x in e && InRange(x.key, from, to)
  {
    if e != [] {
      var d, x := e[..|e| - 1], e[|e| - 1];
      SelectMeans(d, from, to);
      assert e == d + [x];
      forall i | 0 <= i < |Select(d, from, to)|
        ensures Less(Select(d, from, to)[i].key, x.key)
      {
        assert Select(d, from, to)[i] in d;
      }
    }
  }

  /** Once a key is past the end of the range, so is everything after it. */
  lemma PastEnd(e: seq<Entry>, i: nat, from: Key, to: Key)
    requires AscendingEntries(e) && i < |e| && to != [] && Less(to, e[i].key)
    ensures Select(e, from, to) == Select(e[..i], from, to)
  {
    forall x | x in e[i..]
      ensures !InRange(x.key, from, to)
    {
      var j :| i <= j < |e| && e[j] == x;
      if j > i {
        Transitivity(to, e[i].key, e[j].key);
      }
    }
    SelectNone(e[i..], from, to);
    assert e == e[..i] + e[i..];
    SelectAppend(e[..i], e[i..], from, to);
  }

  /** Leaves left of the one a scan starts in hold no key in range. */
  lemma DescendLeft(all: seq<Tree>, x: seq<Tree>, t: Tree, y: seq<Tree>, at: Place, from: Key, i: nat)
    requires all == x + Leaves(t) + y && t.Inner? && |t.kids| == |t.keys| + 1 && Fits(t, at)
    requires if from == [] then i == 0 else Routes(t.keys, from, i)
    requires Paired(x) && forall e | e in Entries(x) :: Less(e.key, from)
    ensures var x', y' := x + LeavesAll(t.kids[..i]), LeavesAll(t.kids[i + 1..]) + y;
            && all == x' + Leaves(t.kids[i]) + y'
            && Paired(x') && forall e | e in Entries(x') :: Less(e.key, from)
  {
    Around(t.kids, i);
    LeavesAround(t.kids[..i], t.kids[i], t.kids[i + 1..]);
    Reassociate(x, LeavesAll(t.kids[..i]), Leaves(t.kids[i]), LeavesAll(t.kids[i + 1..]), y);
    if from == [] {
      assert LeavesAll(t.kids[..i]) == [];
    } else {
      RoutedApart(t, at, from, i);
    }
    EntriesAppend(x, LeavesAll(t.kids[..i]));
  }

  lemma NothingBefore(x: seq<Tree>, from: Key, to: Key)
    requires Paired(x) && forall e | e in Entries(x) :: Less(e.key, from)
    ensures Select(Entries(x), from, to) == []
  {
    forall e | e in Entries(x)
      ensures !InRange(e.key, from, to)
    {
      assert Less(e.key, from);
    }
    SelectNone(Entries(x), from, to);
  }

  /** One leaf of a scan: append what is in range, stop at the first key beyond it. */
  method ScanLeaf(n: Node, from: Key, to: Key, acc: seq<Entry>, ghost l: Tree)
    returns (out: seq<Entry>, past: bool, ghost upTo: nat)
    requires n.LeafNode? && l.Leaf? && n.keys == l.keys && n.values == l.values && |l.keys| == |l.values|
    ensures upTo <= |l.keys| && out == acc + Select(LeafEntries(l)[..upTo], from, to)
    ensures if past then upTo < |l.keys| && to != [] && Less(to, l.keys[upTo]) else upTo == |l.keys|
  {
    out, upTo := acc, 0;
    var i := 0;
    while i < |n.keys|
      invariant i == upTo <= |n.keys|
      invariant out == acc + Select(LeafEntries(l)[..i], from, to)
    {
      var k := n.keys[i];
      assert LeafEntries(l)[..i + 1][..i] == LeafEntries(l)[..i];
      assert LeafEntries(l)[..i + 1][i] == Entry(k, n.values[i]);
      if from != [] && Less(k, from) {
      } else if to != [] && Less(to, k) {
        return out, true, upTo;
      } else {
        out := out + [Entry(k, n.values[i])];
      }
      i, upTo := i + 1, upTo + 1;
    }
    past := false;
  }

  lemma EntriesAround(p: seq<Tree>, l: Tree, q: seq<Tree>)
    requires Paired(p + [l] + q)
    ensures l.Leaf? && |l.keys| == |l.values| && Paired(p) && Paired(p + [l]) && Paired(q)
    ensures Entries(p + [l]) == Entries(p) + LeafEntries(l)
    ensures Entries(p + [l] + q) == Entries(p) + LeafEntries(l) + Entries(q)
  {
    PairedTriple(p, [l], q);
    assert l in [l];
    assert Entries([l]) == LeafEntries(l) + Entries([]);
    EntriesAppend(p, [l]);
  }

  lemma TakeOne<T>(s: seq<T>, j: nat)
    requires j < |s|
    ensures s[..j + 1] == s[..j] + [s[j]]
  {
  }

  lemma EntriesAt(ls: seq<Tree>, j: nat)
    requires j < |ls| && Paired(ls)
    ensures Paired(ls[..j]) && Paired(ls[..j + 1]) && Paired(ls[j + 1..])
    ensures Entries(ls[..j + 1]) == Entries(ls[..j]) + LeafEntries(ls[j])
    ensures Entries(ls) == Entries(ls[..j]) + LeafEntries(ls[j]) + Entries(ls[j + 1..])
  {
    Around(ls, j);
    TakeOne(ls, j);
    EntriesAround(ls[..j], ls[j], ls[j + 1..]);
  }

  /** A scan that got through leaf `j`. */
  lemma ScannedLeaf(ls: seq<Tree>, j: nat, from: Key, to: Key)
    requires j < |ls| && Paired(ls)
    ensures Paired(ls[..j]) && Paired(ls[..j + 1])
    ensures Select(Entries(ls[..j + 1]), from, to)
         == Select(Entries(ls[..j]), from, to) + Select(LeafEntries(ls[j]), from, to)
  {
    EntriesAt(ls, j);
    SelectAppend(Entries(ls[..j]), LeafEntries(ls[j]), from, to);
  }

  lemma PastEndWithin(a: seq<Entry>, l: seq<Entry>, q: seq<Entry>, i: nat, from: Key, to: Key)
    requires AscendingEntries(a + l + q) && i < |l| && to != [] && Less(to, l[i].key)
    ensures Select(a + l + q, from, to) == Select(a, from, to) + Select(l[..i], from, to)
  {
    var e := a + l + q;
    assert e[|a| + i] == l[i];
    PastEnd(e, |a| + i, from, to);
    assert e[..|a| + i] == a + l[..i];
    SelectAppend(a, l[..i], from, to);
  }

  /** A scan that stopped inside leaf `j` has everything in range. */
  lemma ScanStopped(ls: seq<Tree>, j: nat, i: nat, from: Key, to: Key)
    requires j < |ls| && Paired(ls) && AscendingEntries(Entries(ls))
    requires i < |ls[j].keys| && to != [] && Less(to, ls[j].keys[i])
    ensures Paired(ls[..j])
    ensures Select(Entries(ls), from, to)
         == Select(Entries(ls[..j]), from, to) + Select(LeafEntries(ls[j])[..i], from, to)
  {
    EntriesAt(ls, j);
    PastEndWithin(Entries(ls[..j]), LeafEntries(ls[j]), Entries(ls[j + 1..]), i, from, to);
  }

  /** The selected entries are the map's bindings in range. */
  lemma SelectedBindings(t: Tree, from: Key, to: Key)
    requires Paired(Leaves(t)) && AscendingEntries(Entries(Leaves(t)))
    ensures AscendingEntries(Select(Entries(Leaves(t)), from, to))
    ensures forall e :: e in Select(Entries(Leaves(t)), from, to)
                     <==> Binds(ContentsOf(t), e.key, e.loc) && InRange(e.key, from, to)
  {
    var es := Entries(Leaves(t));
    SelectMeans(es, from, to);
    MapOfHas(es);
    forall e
      ensures e in Select(es, from, to) <==> Binds(ContentsOf(t), e.key, e.loc) && InRange(e.key, from, to)
    {
      assert e == Entry(e.key, e.loc);
    }
  }

  lemma LeafPidPositive(d: Disk, t: Tree, j: nat)
    requires Owned(d, t) && j < |Leaves(t)|
    ensures Leaves(t)[j].pid > 0 && Stored(d.pages, Leaves(t)[j])
  {
    LeafPids(t);
    PidMember(Leaves(t), j);
    LeavesStored(d.pages, t);
  }

  ghost predicate SmallOutcome(o: Outcome) {
    Small(o.l) && (o.Split? ==> |o.key| <= MAX_KEY && Small(o.r))
  }

  lemma SmallReplace(t: Tree, i: nat, o: Outcome)
    requires t.Inner? && i < |t.kids|
    ensures Small(t) && SmallOutcome(o) ==> Small(Inner(t.pid, t.keys, KidsNow(t.kids, i, o)))
  {
  }

  lemma SmallLeaf(t: Tree, i: nat, key: Key, loc: RowLocation)
    requires t.Leaf? && i <= |t.keys| == |t.values| && Small(t) && |key| <= MAX_KEY && FitsFields(loc)
    ensures i < |t.values| ==> Small(Leaf(t.pid, t.keys, t.values[i := loc]))
    ensures Small(Leaf(t.pid, PutAt(t.keys, i, key), PutAt(t.values, i, loc)))
  {
  }

  lemma SmallSplice(t: Tree, i: nat, o: Outcome)
    requires t.Inner? && i < |t.kids| && i <= |t.keys| && o.Split? && Small(t) && SmallOutcome(o)
    ensures Small(Inner(t.pid, PutAt(t.keys, i, o.key), KidsNow(t.kids, i, o)))
  {
  }

  /** Both halves of a small node are small. */
  lemma SmallHalves(full: Tree, mid: nat, l: Tree, r: Tree)
    requires Small(full) && mid < |full.keys|
    requires if full.Leaf? then
               && |full.values| == |full.keys|
               && l == Leaf(l.pid, full.keys[..mid], full.values[..mid])
               && r == Leaf(r.pid, full.keys[mid..], full.values[mid..])
             else
               && |full.kids| == |full.keys| + 1
               && l == Inner(l.pid, full.keys[..mid], full.kids[..mid + 1])
               && r == Inner(r.pid, full.keys[mid + 1..], full.kids[mid + 1..])
    ensures SmallOutcome(Split(l, full.keys[mid], r))
  {
  }

  lemma SmallLeafHalves(t: Tree, i: nat, key: Key, loc: RowLocation, full: Tree, mid: nat, l: Tree, r: Tree)
    requires t.Leaf? && i <= |t.keys| == |t.values| && mid < |full.keys|
    requires full == Leaf(t.pid, PutAt(t.keys, i, key), PutAt(t.values, i, loc))
    requires l == Leaf(l.pid, full.keys[..mid], full.values[..mid]) && r == Leaf(r.pid, full.keys[mid..], full.values[mid..])
    ensures Small(t) && |key| <= MAX_KEY && FitsFields(loc) ==> SmallOutcome(Split(l, full.keys[mid], r))
  {
    if Small(t) && |key| <= MAX_KEY && FitsFields(loc) {
      SmallLeaf(t, i, key, loc);
      SmallHalves(full, mid, l, r);
    }
  }

  lemma SmallInnerHalves(t: Tree, i: nat, o: Outcome, full: Tree, mid: nat, l: Tree, r: Tree)
    requires t.Inner? && i <= |t.keys| && |t.kids| == |t.keys| + 1 && o.Split? && mid < |full.keys|
    requires full == Inner(t.pid, PutAt(t.keys, i, o.key), KidsNow(t.kids, i, o))
    requires l == Inner(l.pid, full.keys[..mid], full.kids[..mid + 1]) && r == Inner(r.pid, full.keys[mid + 1..], full.kids[mid + 1..])
    ensures Small(t) && SmallOutcome(o) ==> SmallOutcome(Split(l, full.keys[mid], r))
  {
    if Small(t) && SmallOutcome(o) {
      SmallSplice(t, i, o);
      SmallHalves(full, mid, l, r);
    }
  }

  lemma SmallRoot(o: Outcome, root: Tree)
    requires o.Split? && root == Inner(root.pid, [o.key], [o.l, o.r])
    ensures SmallOutcome(o) ==> Small(root)
  {
  }

  // ---------------------------------------------------------------- failed inserts

  ghost predicate Reports(o: Outcome, splitKey: Key, newRight: PageID) {
    (newRight == 0 <==> o.Whole?) && (o.Split? ==> o.r.pid == newRight && o.key == splitKey)
  }

  ghost function SplitOf(o: Outcome): Bytes.Option<Key> {
    if o.Split? then Bytes.Some(o.key) else Bytes.None
  }

  /** If all writes fit, the first one does. */
  lemma {:induction false} PlanStage(t: Tree, key: Key)
    ensures InsertPlan(t, key).fits ==> LeafStageFits(t, key)
    decreases t
  {
    if t.Inner? && Route(t.keys, key) < |t.kids| {
      PlanStage(t.kids[Route(t.keys, key)], key);
    }
  }

  /** A failure in the child the key routes to. */
  lemma KidFailed(a: Disk, b: Disk, t: Tree, at: Place, i: nat, key: Key, loc: RowLocation, k: Tree, kz: Loss)
    returns (l: Tree, z: Loss)
    requires t.Inner? && at.h > 0 && |t.kids| == |t.keys| + 1 && i <= |t.keys| && Fits(t, at) && Owned(a, t)
    requires i == Route(t.keys, key) && Failed(a, b, t.kids[i], KidPlace(t, at, i), key, loc, k, kz)
    ensures Failed(a, b, t, at, key, loc, l, z) && z.gone == kz.gone
  {
    l, z := t, kz;
    if LeafStageFits(t.kids[i], key) {
      l := Inner(t.pid, t.keys, t.kids[..i] + [k] + t.kids[i + 1..]);
      z := WidenLoss(kz, t.kids[..i], t.kids[i + 1..]);
      KidLost(a, b, t, at, i, key, loc, k, kz, l);
    }
  }

  /** The child split, and its parent could not be written. */
  lemma SplitFailed(a: Disk, b: Disk, c: Disk, t: Tree, at: Place, i: nat, key: Key, loc: RowLocation,
                    co: Outcome, cs: Site, cadded: multiset<PageID>) returns (l: Tree, z: Loss)
    requires ChildInserted(a, b, t, at, key, loc, i, co, cs, cadded) && co.Split? && Untouched(b, c)
    requires i == Route(t.keys, key) && InsertPlan(t.kids[i], key).fits
    requires at.h == 1 ==> |co.r.keys| == UPPER_HALF
    ensures Failed(a, c, t, at, key, loc, l, z) && (at.h == 1 ==> HalfLeaf(z.gone))
  {
    OwnedKid(a, t, i);
    SplitLost(a, b, t.kids[i], KidPlace(t, at, i), key, loc, co, cs, cadded);
    LeftMore(a, b, c, t.kids[i], co.l);
    PlanStage(t.kids[i], key);
    if at.h == 1 {
      assert Leaves(co.r) == [co.r];
    }
    l, z := KidFailed(a, c, t, at, i, key, loc, co.l, Loss(cs, Leaves(co.l), Leaves(co.r), []));
  }

  /** The child did not split, so its parent's page stays as it is. */
  lemma AbsorbWhole(a: Disk, b: Disk, t: Tree, at: Place, i: nat, key: Key, loc: RowLocation,
                    co: Outcome, cs: Site, cadded: multiset<PageID>) returns (o: Outcome, s: Site)
    requires ChildInserted(a, b, t, at, key, loc, i, co, cs, cadded) && co.Whole?
    ensures o.Whole? && Inserted(a, b, t, at, key, loc, o, s, cadded)
    ensures Small(t) && SmallOutcome(co) ==> SmallOutcome(o)
  {
    o := Whole(Inner(t.pid, t.keys, KidsNow(t.kids, i, co)));
    s := Widen(cs, t.kids[..i], t.kids[i + 1..]);
    SmallReplace(t, i, co);
    InnerUnchanged(a, b, t, at, key, loc, i, co, cs, cadded, o.l);
  }

  /** Both halves of the parent, and what they hold if they were written. */
  lemma InnerDivided(a: Disk, b: Disk, t: Tree, at: Place, key: Key, loc: RowLocation, i: nat, co: Outcome, cs: Site,
                     cadded: multiset<PageID>, ch: seq<PageID>, c: Disk, written: bool) returns (l: Tree, r: Tree)
    requires ChildInserted(a, b, t, at, key, loc, i, co, cs, cadded) && co.Split? && |t.keys| == BTREE_ORDER
    requires ch == PutAt(a.pages[t.pid].children, i + 1, co.r.pid) && |ch| == |t.kids| + 1
    requires var keys, mid := PutAt(t.keys, i, co.key), (BTREE_ORDER + 1) / 2;
             written ==> c == Disk(b.pages[b.next := InnerNode(keys[mid + 1..], ch[mid + 1..])]
                                   [t.pid := InnerNode(keys[..mid], ch[..mid + 1])], b.next + 1)
    ensures r.pid == b.next
    ensures var splitKey := PutAt(t.keys, i, co.key)[(BTREE_ORDER + 1) / 2];
            && (Small(t) && SmallOutcome(co) ==> SmallOutcome(Split(l, splitKey, r)))
            && (written ==> Inserted(a, c, t, at, key, loc, Split(l, splitKey, r),
                                     Widen(cs, t.kids[..i], t.kids[i + 1..]), cadded + multiset{b.next}))
  {
    var mid := (BTREE_ORDER + 1) / 2;
    var full := Inner(t.pid, PutAt(t.keys, i, co.key), KidsNow(t.kids, i, co));
    l := Inner(t.pid, full.keys[..mid], full.kids[..mid + 1]);
    r := Inner(b.next, full.keys[mid + 1..], full.kids[mid + 1..]);
    SmallInnerHalves(t, i, co, full, mid, l, r);
    if written {
      InnerSplit(a, b, t, at, key, loc, i, co, cs, cadded, full, mid, l, r, ch, c);
    }
  }

  lemma SoundUntouched(a: Disk, b: Disk, t: Tree, h: nat)
    requires Sound(a, t.pid, t, h) && Untouched(a, b)
    ensures Sound(b, t.pid, t, h)
  {
    StoredFrame(a.pages, b.pages, t);
    var ls := Leaves(t);
    forall i: nat | i < |ls|
      ensures Linked(b.pages, ls, i)
    {
      assert Linked(a.pages, ls, i);
    }
  }

  lemma LeftOwned(a: Disk, b: Disk, t: Tree, l: Tree)
    requires Owned(a, t) && Left(a, b, t, l)
    ensures Owned(b, l)
  {
  }

  /** What a failed insert leaves of the whole index. */
  lemma FailedRoot(a: Disk, b: Disk, t: Tree, h: nat, key: Key, loc: RowLocation, l: Tree, z: Loss)
    requires Sound(a, t.pid, t, h) && Failed(a, b, t, EVERYWHERE.(h := h), key, loc, l, z)
    requires h == 1 && LeafStageFits(t, key) ==> HalfLeaf(z.gone)
    ensures !LeafStageFits(t, key) ==> l == t && Sound(b, t.pid, t, h)
    ensures LeafStageFits(t, key) ==>
              && l.pid == t.pid && Fits(l, EVERYWHERE.(h := h)) && Owned(b, l)
              && Paired(Leaves(t)) && Paired(Leaves(l))
              && exists e1, e2, e3 :: Damaged(t, l, key, loc, e1, e2, e3) && (h == 1 ==> |e2| == UPPER_HALF)
  {
    if LeafStageFits(t, key) {
      LeftOwned(a, b, t, l);
      LossEntries(t, l, key, loc, z);
    } else {
      SoundUntouched(a, b, t, h);
    }
  }

  /** The new root could not be written. */
  lemma RootLost(a: Disk, b: Disk, c: Disk, t: Tree, h: nat, key: Key, loc: RowLocation, o: Outcome, s: Site,
                 added: multiset<PageID>)
    requires Sound(a, t.pid, t, h) && o.Split? && Inserted(a, b, t, EVERYWHERE.(h := h), key, loc, o, s, added)
    requires Untouched(b, c)
    ensures o.l.pid == t.pid && Fits(o.l, EVERYWHERE.(h := h)) && Owned(c, o.l)
    ensures Paired(Leaves(t)) && Paired(Leaves(o.l)) && exists e1, e2, e3 :: Damaged(t, o.l, key, loc, e1, e2, e3)
  {
    SplitLost(a, b, t, EVERYWHERE.(h := h), key, loc, o, s, added);
    LeftMore(a, b, c, t, o.l);
    LeftOwned(a, c, t, o.l);
    LossEntries(t, o.l, key, loc, Loss(s, Leaves(o.l), Leaves(o.r), []));
  }

  // ---------------------------------------------------------------- an index the overflow breaks

  function WideKey(b: Byte, n: nat): (k: Key)
    ensures |k| == 1 + n && k[0] == b
  {
    [b] + seq(n, _ => 0)
  }

  /** A hundred keys, the middle one 2401 bytes long and the others a byte each. */
  ghost predicate Crowded(ks: seq<Key>) {
    && |ks| == BTREE_ORDER
    && (forall i | 0 <= i < |ks| :: |ks[i]| == (if i == 50 then 2401 else 1) && ks[i][0] == i)
  }

  lemma CrowdedSizes(ks: seq<Key>, rest: seq<Key>)
    requires Crowded(ks) && rest == ks[51..]
    ensures KeysSize(ks[..50]) == 150 && KeysSize(rest) == 147 && KeysSize([ks[50]] + rest) == 2550
    ensures KeysSize(ks) == 2700
  {
    KeysSizeExact(ks[..50], 1);
    KeysSizeExact(rest, 1);
    assert ks == ks[..50] + ([ks[50]] + rest);
    KeysSizeAppend([ks[50]], rest);
    KeysSizeAppend(ks[..50], [ks[50]] + rest);
  }

  /** The crowded leaf splits, its two halves fit, and the 2401-byte key goes up. */
  lemma CrowdedSplits(ks: seq<Key>)
    requires Crowded(ks)
    ensures LeafPlan(KeysWith(ks, [100])) == Plan(true, Bytes.Some(ks[50]))
  {
    PositionIs(ks, [100], BTREE_ORDER);
    var all, rest := ks + [[100]], ks[51..];
    assert KeysWith(ks, [100]) == all && all[..50] == ks[..50] && all[50..] == ([ks[50]] + rest) + [[100]];
    CrowdedSizes(ks, rest);
    KeysSizeAppend([ks[50]] + rest, [[100]]);
  }

  lemma CrowdedFits(ks: seq<Key>, values: seq<RowLocation>, wide: Key)
    requires Crowded(ks) && |values| == BTREE_ORDER && |wide| > 0 && wide[0] == 200
    ensures Fits(Leaf(1, ks, values), Place(0, Unbounded, At(wide), false))
    ensures Fits(Leaf(2, [], []), Place(0, At(wide), Unbounded, false))
  {
  }

  lemma LeafPair(l: Tree, r: Tree)
    requires l.Leaf? && r.Leaf?
    ensures LeavesAll([l, r]) == [l, r] && PidsAll([l, r]) == multiset{l.pid, r.pid}
  {
    assert [l, r][1..] == [r] && [r][1..] == [];
    assert LeavesAll([r]) == [r] + LeavesAll([]) && PidsAll([r]) == multiset{r.pid} + PidsAll([]);
  }

  lemma TwoLeaves(d: Disk, l: Tree, r: Tree, wide: Key)
    requires l.Leaf? && r.Leaf? && l.pid == 1 && r.pid == 2
    requires d == Disk(map[1 := LeafNode(l.keys, l.values, 2), 2 := LeafNode(r.keys, r.values, 0), 3 := InnerNode([wide], [1, 2])], 4)
    requires Fits(l, Place(0, Unbounded, At(wide), false)) && Fits(r, Place(0, At(wide), Unbounded, false))
    ensures Sound(d, 3, Inner(3, [wide], [l, r]), 1)
  {
    var t := Inner(3, [wide], [l, r]);
    LeafPair(l, r);
    assert Pids(t) == multiset{1, 2, 3};
    assert InnerShape([wide], [l, r], 0, Unbounded, Unbounded);
    assert Linked(d.pages, [l, r], 0) && Linked(d.pages, [l, r], 1);
    assert Stored(d.pages, l) && Stored(d.pages, r) && Stored(d.pages, t);
    assert WellFormed(t, 1, Unbounded, Unbounded, true);
  }

  /** A sound index and a key such that both halves of the leaf the key goes to fit their pages and
      the root, their parent, does not: half of that leaf's rows are lost. */
  lemma OverflowLosesRows() returns (d: Disk, t: Tree, key: Key)
    ensures Sound(d, t.pid, t, 1) && AllFit(d.pages)
    ensures LeafStageFits(t, key) && !InsertPlan(t, key).fits
  {
    var wide := WideKey(200, 2000);
    var ks := seq(BTREE_ORDER, i requires 0 <= i < BTREE_ORDER => WideKey(i, if i == 50 then 2400 else 0));
    forall i | 0 <= i < |ks|
      ensures |ks[i]| == (if i == 50 then 2401 else 1) && ks[i][0] == i
    {
      assert ks[i] == WideKey(i, if i == 50 then 2400 else 0);
    }
    d, t, key := OverflowAt(ks, seq(BTREE_ORDER, _ => RowLocation(0, 0)), wide);
  }

  lemma OverflowAt(ks: seq<Key>, values: seq<RowLocation>, wide: Key) returns (d: Disk, t: Tree, key: Key)
    requires Crowded(ks) && |values| == BTREE_ORDER && |wide| == 2001 && wide[0] == 200
    ensures Sound(d, t.pid, t, 1) && AllFit(d.pages)
    ensures LeafStageFits(t, key) && !InsertPlan(t, key).fits
  {
    var l, r := Leaf(1, ks, values), Leaf(2, [], []);
    d := Disk(map[1 := LeafNode(ks, values, 2), 2 := LeafNode([], [], 0), 3 := InnerNode([wide], [1, 2])], 4);
    t, key := Inner(3, [wide], [l, r]), [100];
    CrowdedFits(ks, values, wide);
    TwoLeaves(d, l, r, wide);
    CrowdedSizes(ks, ks[51..]);
    CrowdedSplits(ks);
    RouteIs([wide], key, 0);
    assert PutAt([wide], 0, ks[50]) == [ks[50]] + [wide];
    KeysSizeAppend([ks[50]], [wide]);
  }

  class Index {
    var pages: Pages
    var rootID: PageID
    var nextPage: PageID
    ghost var tree: Tree
    ghost var height: nat

    ghost function OnDisk(): Disk
      reads this
    {
      Disk(pages, nextPage)
    }

    ghost predicate Valid()
      reads this
    {
      Sound(OnDisk(), rootID, tree, height) && Paired(Leaves(tree)) && AllFit(pages)
    }

    /** The finite map the index stands for. */
    ghost function Contents(): map<Key, RowLocation>
      requires Valid()
      reads this
    {
      ContentsOf(tree)
    }

    /** A new index file: page 1 is an empty leaf. */
    constructor ()
      ensures Valid() && Contents() == map[] && Small(tree)
    {
      pages := map[1 := LeafNode([], [], 0)];
      rootID, nextPage := 1, 2;
      tree, height := Leaf(1, [], []), 0;
      new;
      assert Leaves(tree) == [tree];
      assert Entries([tree]) == LeafEntries(tree) + Entries([]);
    }

    method AllocNode() returns (pid: PageID)
      modifies this`nextPage
      ensures pid == old(nextPage) && nextPage == pid + 1
    {
      pid := nextPage;
      nextPage := nextPage + 1;
    }

    /** Write a page, unless the node does not fit it. */
    method FlushNode(pid: PageID, n: Node) returns (ok: bool)
      modifies this`pages
      ensures ok == NodeFits(n) && (ok <==> |Image(n)| <= 4064)
      ensures pages == if ok then old(pages)[pid := n] else old(pages)
      ensures AllFit(old(pages)) ==> AllFit(pages)
    {
      ImageBytes(n);
      var image := EncodeNode(n);
      if image.None? {
        return false;
      }
      pages := pages[pid := n];
      ok := true;
    }

    /** Write the new right page and then the old one. */
    method FlushPair(newRight: PageID, right: Node, pid: PageID, left: Node) returns (ok: bool)
      modifies this`pages
      ensures ok == (NodeFits(right) && NodeFits(left))
      ensures ok ==> pages == old(pages)[newRight := right][pid := left]
      ensures !ok ==> pages == old(pages) || pages == old(pages)[newRight := right]
      ensures AllFit(old(pages)) ==> AllFit(pages)
    {
      ok := FlushNode(newRight, right);
      if !ok {
        return;
      }
      ok := FlushNode(pid, left);
    }

    method UpdateLeaf(pid: PageID, idx: nat, key: Key, loc: RowLocation, ghost t: Tree, ghost at: Place)
      returns (ok: bool, ghost l: Tree)
      requires t.Leaf? && t.pid == pid && Fits(t, at) && Owned(OnDisk(), t) && In(key, at.lo, at.hi)
      requires idx < |t.keys| && t.keys[idx] == key
      modifies this`pages
      ensures ok == LeafPlan(KeysWith(t.keys, key)).fits && LeafPlan(KeysWith(t.keys, key)).split.None?
      ensures ok ==> Inserted(old(OnDisk()), OnDisk(), t, at, key, loc, Whole(l), Site([], t, [l], []), multiset{})
      ensures l == Leaf(pid, t.keys, t.values[idx := loc])
      ensures !ok ==> OnDisk() == old(OnDisk())
      ensures AllFit(old(pages)) ==> AllFit(pages)
    {
      ghost var a := OnDisk();
      var n := pages[pid];
      n := n.(values := n.values[idx := loc]);
      l := Leaf(pid, n.keys, n.values);
      ok := FlushNode(pid, n);
      if ok {
        LeafUpdated(t, at, key, loc, idx, l);
        LeafRewritten(a, t, at, key, loc, l, OnDisk());
      }
    }

    method GrowLeaf(pid: PageID, idx: nat, key: Key, loc: RowLocation, ghost t: Tree, ghost at: Place)
      returns (ok: bool, ghost l: Tree)
      requires t.Leaf? && t.pid == pid && Fits(t, at) && Owned(OnDisk(), t) && In(key, at.lo, at.hi)
      requires Slot(t.keys, key, idx) && key !in t.keys && |t.keys| < BTREE_ORDER
      modifies this`pages
      ensures ok == LeafPlan(KeysWith(t.keys, key)).fits && LeafPlan(KeysWith(t.keys, key)).split.None?
      ensures ok ==> Inserted(old(OnDisk()), OnDisk(), t, at, key, loc, Whole(l), Site([], t, [l], []), multiset{})
      ensures |t.keys| == |t.values| && l == Leaf(pid, PutAt(t.keys, idx, key), PutAt(t.values, idx, loc))
      ensures !ok ==> OnDisk() == old(OnDisk())
      ensures AllFit(old(pages)) ==> AllFit(pages)
    {
      ghost var a := OnDisk();
      var n := pages[pid];
      n := n.(keys := PutAt(n.keys, idx, key), values := PutAt(n.values, idx, loc));
      l := Leaf(pid, n.keys, n.values);
      PositionIs(t.keys, key, idx);
      ok := FlushNode(pid, n);
      if ok {
        LeafGrown(t, at, key, loc, idx, l);
        LeafRewritten(a, t, at, key, loc, l, OnDisk());
      }
    }

    method SplitLeaf(pid: PageID, idx: nat, key: Key, loc: RowLocation, ghost t: Tree, ghost at: Place)
      returns (ok: bool, splitKey: Key, newRight: PageID, ghost l: Tree, ghost r: Tree)
      requires t.Leaf? && t.pid == pid && Fits(t, at) && Owned(OnDisk(), t) && In(key, at.lo, at.hi)
      requires Slot(t.keys, key, idx) && key !in t.keys && |t.keys| == BTREE_ORDER
      modifies this`pages, this`nextPage
      ensures ok == LeafPlan(KeysWith(t.keys, key)).fits && LeafPlan(KeysWith(t.keys, key)).split == Bytes.Some(splitKey)
      ensures newRight > 0 && r.pid == newRight && |r.keys| == UPPER_HALF
      ensures ok ==> Inserted(old(OnDisk()), OnDisk(), t, at, key, loc, Split(l, splitKey, r), Site([], t, [l, r], []),
                              multiset{newRight})
      ensures Small(t) && |key| <= MAX_KEY && FitsFields(loc) ==> SmallOutcome(Split(l, splitKey, r))
      ensures !ok ==> Untouched(old(OnDisk()), OnDisk())
      ensures AllFit(old(pages)) ==> AllFit(pages)
    {
      ghost var a := OnDisk();
      var n := pages[pid];
      var keys, values := PutAt(n.keys, idx, key), PutAt(n.values, idx, loc);
      ghost var full := Leaf(pid, keys, values);
      var mid := |keys| / 2;
      splitKey := keys[mid];
      newRight := AllocNode();
      var right := LeafNode(keys[mid..], values[mid..], n.right);
      n := LeafNode(keys[..mid], values[..mid], newRight);
      PositionIs(t.keys, key, idx);
      l, r := Leaf(pid, n.keys, n.values), Leaf(newRight, right.keys, right.values);
      SmallLeafHalves(t, idx, key, loc, full, mid, l, r);
      ok := FlushPair(newRight, right, pid, n);
      if ok {
        LeafGrown(t, at, key, loc, idx, full);
        LeafSplit(a, t, at, key, loc, idx, mid, full, l, r, OnDisk());
      }
    }

    method InsertIntoLeaf(pid: PageID, key: Key, loc: RowLocation, ghost t: Tree, ghost at: Place)
      returns (ok: bool, splitKey: Key, newRight: PageID, ghost o: Outcome, ghost s: Site, ghost added: multiset<PageID>)
      requires t.Leaf? && t.pid == pid && Fits(t, at) && Owned(OnDisk(), t) && In(key, at.lo, at.hi)
      modifies this`pages, this`nextPage
      ensures ok == LeafPlan(KeysWith(t.keys, key)).fits
      ensures ok ==> Inserted(old(OnDisk()), OnDisk(), t, at, key, loc, o, s, added) && Reports(o, splitKey, newRight)
      ensures ok ==> LeafPlan(KeysWith(t.keys, key)).split == SplitOf(o) && (o.Split? ==> |o.r.keys| == UPPER_HALF)
      ensures ok && Small(t) && |key| <= MAX_KEY && FitsFields(loc) ==> SmallOutcome(o)
      ensures !ok ==> Untouched(old(OnDisk()), OnDisk())
      ensures AllFit(old(pages)) ==> AllFit(pages)
    {
      var n := pages[pid];
      var idx, found := LeafSearch(n.keys, key);
      splitKey, newRight, added := [], 0, multiset{};
      ghost var l, r;
      if Small(t) && |key| <= MAX_KEY && FitsFields(loc) {
        SmallLeaf(t, idx, key, loc);
      }
      if found {
        ok, l := UpdateLeaf(pid, idx, key, loc, t, at);
        o, s := Whole(l), Site([], t, [l], []);
      } else if |n.keys| < BTREE_ORDER {
        ok, l := GrowLeaf(pid, idx, key, loc, t, at);
        o, s := Whole(l), Site([], t, [l], []);
      } else {
        ok, splitKey, newRight, l, r := SplitLeaf(pid, idx, key, loc, t, at);
        o, s, added := Split(l, splitKey, r), Site([], t, [l, r], []), multiset{newRight};
      }
    }

    /** Record a child's split in its parent, which has room for it. */
    method GrowInner(pid: PageID, childIdx: nat, childKey: Key, childRight: PageID, key: Key, loc: RowLocation,
                     ghost a: Disk, ghost t: Tree, ghost at: Place,
                     ghost co: Outcome, ghost cs: Site, ghost cadded: multiset<PageID>)
      returns (ok: bool, ghost full: Tree)
      requires ChildInserted(a, OnDisk(), t, at, key, loc, childIdx, co, cs, cadded)
      requires t.pid == pid && co.Split? && co.key == childKey && co.r.pid == childRight && |t.keys| < BTREE_ORDER
      modifies this`pages
      ensures ok == InnerPlan(PutAt(t.keys, childIdx, childKey)).fits
      ensures full == Inner(pid, PutAt(t.keys, childIdx, childKey), KidsNow(t.kids, childIdx, co))
      ensures ok ==> Inserted(a, OnDisk(), t, at, key, loc, Whole(full),
                              Widen(cs, t.kids[..childIdx], t.kids[childIdx + 1..]), cadded)
      ensures !ok ==> OnDisk() == old(OnDisk())
      ensures AllFit(old(pages)) ==> AllFit(pages)
    {
      ghost var b := OnDisk();
      KidsLaid(a, b, t, childIdx, co, cadded);
      // The parent is re-read after the recursive call.
      var n := pages[pid];
      n := InnerNode(PutAt(n.keys, childIdx, childKey), PutAt(n.children, childIdx + 1, childRight));
      full := Inner(pid, n.keys, KidsNow(t.kids, childIdx, co));
      ok := FlushNode(pid, n);
      if ok {
        InnerGrown(a, b, t, at, key, loc, childIdx, co, cs, cadded, full, OnDisk());
      }
    }

    /** Write an over-full internal node as two: the middle key goes up. */
    method DivideInner(pid: PageID, keys: seq<Key>, children: seq<PageID>)
      returns (ok: bool, splitKey: Key, newRight: PageID)
      requires |keys| == BTREE_ORDER + 1 && |children| == |keys| + 1
      requires 0 < nextPage && forall p | p in pages :: p < nextPage
      modifies this`pages, this`nextPage
      ensures ok == InnerPlan(keys).fits && InnerPlan(keys).split == Bytes.Some(splitKey)
      ensures newRight == old(nextPage) && splitKey == keys[|keys| / 2]
      ensures var mid := |keys| / 2;
              ok ==> OnDisk() == Disk(old(pages)[newRight := InnerNode(keys[mid + 1..], children[mid + 1..])]
                                      [pid := InnerNode(keys[..mid], children[..mid + 1])], newRight + 1)
      ensures !ok ==> Untouched(old(OnDisk()), OnDisk())
      ensures AllFit(old(pages)) ==> AllFit(pages)
    {
      var mid := |keys| / 2;
      splitKey := keys[mid];
      newRight := AllocNode();
      ok := FlushPair(newRight, InnerNode(keys[mid + 1..], children[mid + 1..]), pid, InnerNode(keys[..mid], children[..mid + 1]));
    }

    /** Record a child's split in its full parent, splitting it as well. */
    method SplitInner(pid: PageID, childIdx: nat, childKey: Key, childRight: PageID, key: Key, loc: RowLocation,
                      ghost a: Disk, ghost t: Tree, ghost at: Place,
                      ghost co: Outcome, ghost cs: Site, ghost cadded: multiset<PageID>)
      returns (ok: bool, splitKey: Key, newRight: PageID, ghost l: Tree, ghost r: Tree)
      requires ChildInserted(a, OnDisk(), t, at, key, loc, childIdx, co, cs, cadded)
      requires t.pid == pid && co.Split? && co.key == childKey && co.r.pid == childRight && |t.keys| == BTREE_ORDER
      modifies this`pages, this`nextPage
      ensures ok == InnerPlan(PutAt(t.keys, childIdx, childKey)).fits
      ensures InnerPlan(PutAt(t.keys, childIdx, childKey)).split == Bytes.Some(splitKey)
      ensures newRight > 0 && r.pid == newRight
      ensures ok ==> Inserted(a, OnDisk(), t, at, key, loc, Split(l, splitKey, r),
                              Widen(cs, t.kids[..childIdx], t.kids[childIdx + 1..]), cadded + multiset{newRight})
      ensures Small(t) && SmallOutcome(co) ==> SmallOutcome(Split(l, splitKey, r))
      ensures !ok ==> Untouched(old(OnDisk()), OnDisk())
      ensures AllFit(old(pages)) ==> AllFit(pages)
    {
      ghost var b := OnDisk();
      KidsLaid(a, b, t, childIdx, co, cadded);
      var n := pages[pid];
      var keys, children := PutAt(n.keys, childIdx, childKey), PutAt(n.children, childIdx + 1, childRight);
      ok, splitKey, newRight := DivideInner(pid, keys, children);
      l, r := InnerDivided(a, b, t, at, key, loc, childIdx, co, cs, cadded, children, OnDisk(), ok);
    }

    method AddSplit(pid: PageID, childIdx: nat, childKey: Key, childRight: PageID, key: Key, loc: RowLocation,
                    ghost a: Disk, ghost t: Tree, ghost at: Place,
                    ghost co: Outcome, ghost cs: Site, ghost cadded: multiset<PageID>)
      returns (ok: bool, splitKey: Key, newRight: PageID, ghost o: Outcome, ghost s: Site, ghost added: multiset<PageID>)
      requires ChildInserted(a, OnDisk(), t, at, key, loc, childIdx, co, cs, cadded)
      requires t.pid == pid && co.Split? && co.key == childKey && co.r.pid == childRight
      modifies this`pages, this`nextPage
      ensures ok == InnerPlan(PutAt(t.keys, childIdx, childKey)).fits
      ensures ok ==> Inserted(a, OnDisk(), t, at, key, loc, o, s, added) && Reports(o, splitKey, newRight)
      ensures ok ==> InnerPlan(PutAt(t.keys, childIdx, childKey)).split == SplitOf(o)
      ensures ok && Small(t) && SmallOutcome(co) ==> SmallOutcome(o)
      ensures !ok ==> Untouched(old(OnDisk()), OnDisk())
      ensures AllFit(old(pages)) ==> AllFit(pages)
    {
      KidsLaid(a, OnDisk(), t, childIdx, co, cadded);
      s := Widen(cs, t.kids[..childIdx], t.kids[childIdx + 1..]);
      ghost var l, r;
      if |pages[pid].keys| < BTREE_ORDER {
        ok, l := GrowInner(pid, childIdx, childKey, childRight, key, loc, a, t, at, co, cs, cadded);
        if Small(t) && SmallOutcome(co) {
          SmallSplice(t, childIdx, co);
        }
        splitKey, newRight, o, added := [], 0, Whole(l), cadded;
      } else {
        ok, splitKey, newRight, l, r :=
          SplitInner(pid, childIdx, childKey, childRight, key, loc, a, t, at, co, cs, cadded);
        o, added := Split(l, splitKey, r), cadded + multiset{newRight};
      }
    }

    /** The child split: record it, or lose its right half. */
    method AbsorbSplit(pid: PageID, childIdx: nat, childKey: Key, childRight: PageID, key: Key, loc: RowLocation,
                       ghost a: Disk, ghost t: Tree, ghost at: Place,
                       ghost co: Outcome, ghost cs: Site, ghost cadded: multiset<PageID>)
      returns (ok: bool, splitKey: Key, newRight: PageID, ghost o: Outcome, ghost s: Site, ghost added: multiset<PageID>,
               ghost l: Tree, ghost z: Loss)
      requires ChildInserted(a, OnDisk(), t, at, key, loc, childIdx, co, cs, cadded) && t.pid == pid
      requires co.Split? && Reports(co, childKey, childRight) && childIdx == Route(t.keys, key)
      requires at.h == 1 ==> |co.r.keys| == UPPER_HALF
      requires InsertPlan(t.kids[childIdx], key).fits
      modifies this`pages, this`nextPage
      ensures ok == InnerPlan(PutAt(t.keys, childIdx, childKey)).fits
      ensures ok ==> Inserted(a, OnDisk(), t, at, key, loc, o, s, added) && Reports(o, splitKey, newRight)
      ensures ok ==> InnerPlan(PutAt(t.keys, childIdx, childKey)).split == SplitOf(o)
      ensures ok && Small(t) && SmallOutcome(co) ==> SmallOutcome(o)
      ensures !ok ==> Failed(a, OnDisk(), t, at, key, loc, l, z) && (at.h == 1 ==> HalfLeaf(z.gone))
      ensures AllFit(old(pages)) ==> AllFit(pages)
    {
      ghost var b := OnDisk();
      ok, splitKey, newRight, o, s, added :=
        AddSplit(pid, childIdx, childKey, childRight, key, loc, a, t, at, co, cs, cadded);
      l, z := t, Loss(cs, [], [], []);
      if !ok {
        l, z := SplitFailed(a, b, OnDisk(), t, at, childIdx, key, loc, co, cs, cadded);
      }
    }

    /** The child is done: take in its split, if it had one. */
    method Absorb(pid: PageID, childIdx: nat, childKey: Key, childRight: PageID, key: Key, loc: RowLocation,
                  ghost a: Disk, ghost t: Tree, ghost at: Place,
                  ghost co: Outcome, ghost cs: Site, ghost cadded: multiset<PageID>, ghost plan: Plan)
      returns (ok: bool, splitKey: Key, newRight: PageID, ghost o: Outcome, ghost s: Site, ghost added: multiset<PageID>,
               ghost l: Tree, ghost z: Loss)
      requires ChildInserted(a, OnDisk(), t, at, key, loc, childIdx, co, cs, cadded) && t.pid == pid
      requires Reports(co, childKey, childRight) && childIdx == Route(t.keys, key)
      requires co.Split? && at.h == 1 ==> |co.r.keys| == UPPER_HALF
      requires InsertPlan(t.kids[childIdx], key).fits && plan == InnerAfter(t.keys, childIdx, Plan(true, SplitOf(co)))
      modifies this`pages, this`nextPage
      ensures ok == plan.fits
      ensures ok ==> Inserted(a, OnDisk(), t, at, key, loc, o, s, added) && Reports(o, splitKey, newRight)
      ensures ok ==> plan.split == SplitOf(o)
      ensures ok && Small(t) && SmallOutcome(co) ==> SmallOutcome(o)
      ensures !ok ==> Failed(a, OnDisk(), t, at, key, loc, l, z) && (at.h == 1 ==> HalfLeaf(z.gone))
      ensures AllFit(old(pages)) ==> AllFit(pages)
    {
      if childRight == 0 {
        o, s := AbsorbWhole(a, OnDisk(), t, at, childIdx, key, loc, co, cs, cadded);
        ok, splitKey, newRight, added := true, [], 0, cadded;
        l, z := t, Loss(cs, [], [], []);
      } else {
        ok, splitKey, newRight, o, s, added, l, z :=
          AbsorbSplit(pid, childIdx, childKey, childRight, key, loc, a, t, at, co, cs, cadded);
      }
    }

    /** The recursive insert. When it fails, `l` is what is left of the subtree. */
    method InsertRec(pid: PageID, key: Key, loc: RowLocation, ghost t: Tree, ghost at: Place)
      returns (ok: bool, splitKey: Key, newRight: PageID, ghost o: Outcome, ghost s: Site, ghost added: multiset<PageID>,
               ghost l: Tree, ghost z: Loss)
      requires t.pid == pid && Fits(t, at) && Owned(OnDisk(), t) && In(key, at.lo, at.hi)
      modifies this`pages, this`nextPage
      ensures ok == InsertPlan(t, key).fits
      ensures ok ==> Inserted(old(OnDisk()), OnDisk(), t, at, key, loc, o, s, added) && Reports(o, splitKey, newRight)
      ensures ok ==> InsertPlan(t, key).split == SplitOf(o) && (o.Split? && at.h == 0 ==> |o.r.keys| == UPPER_HALF)
      ensures ok && Small(t) && |key| <= MAX_KEY && FitsFields(loc) ==> SmallOutcome(o)
      ensures !ok ==> Failed(old(OnDisk()), OnDisk(), t, at, key, loc, l, z)
      ensures !ok && at.h == 1 && LeafStageFits(t, key) ==> HalfLeaf(z.gone)
      ensures AllFit(old(pages)) ==> AllFit(pages)
      decreases at.h
    {
      ghost var a := OnDisk();
      var n := pages[pid];
      if n.LeafNode? {
        ok, splitKey, newRight, o, s, added := InsertIntoLeaf(pid, key, loc, t, at);
        l, z := t, Loss(s, [], [], []);
        return;
      }
      assert InnerShape(t.keys, t.kids, at.h - 1, at.lo, at.hi);
      var childIdx := ChildIndex(n.keys, key);
      RouteIn(t.keys, key, childIdx, at.lo, at.hi);
      RouteIs(t.keys, key, childIdx);
      OwnedKid(a, t, childIdx);
      ok, splitKey, newRight, o, s, added, l, z :=
        InsertRec(n.children[childIdx], key, loc, t.kids[childIdx], KidPlace(t, at, childIdx));
      if ok {
        ok, splitKey, newRight, o, s, added, l, z :=
          Absorb(pid, childIdx, splitKey, newRight, key, loc, a, t, at, o, s, added, InsertPlan(t, key));
      } else {
        l, z := KidFailed(a, OnDisk(), t, at, childIdx, key, loc, l, z);
      }
    }

    /** The root was split: put a new internal root above its two halves. */
    method GrowRoot(newKey: Key, newRight: PageID, key: Key, loc: RowLocation, ghost a: Disk, ghost o: Outcome,
                    ghost s: Site, ghost added: multiset<PageID>) returns (ok: bool)
      requires Sound(a, rootID, tree, height) && o.Split? && o.key == newKey && o.r.pid == newRight
      requires Inserted(a, OnDisk(), tree, EVERYWHERE.(h := height), key, loc, o, s, added) && AllFit(pages)
      modifies this
      ensures ok == (InnerBytes([newKey]) <= MAX_DATA_BYTES)
      ensures ok ==> Valid() && Paired(Leaves(old(tree))) && Contents() == ContentsOf(old(tree))[key := loc]
      ensures ok && SmallOutcome(o) ==> Small(tree)
      ensures !ok ==> Untouched(old(OnDisk()), OnDisk()) && pages == old(pages)
      ensures !ok ==> tree == old(tree) && height == old(height) && rootID == old(rootID)
    {
      ghost var b := OnDisk();
      var newRoot;
      ok, newRoot := AllocRoot(InnerNode([newKey], [rootID, newRight]));
      if !ok {
        return;
      }
      ghost var root := Inner(newRoot, [newKey], [o.l, o.r]);
      InsertGrewRoot(a, b, tree, height, key, loc, o, s, added, root, OnDisk());
      SmallRoot(o, root);
      SetRoot(newRoot, root);
    }

    method AllocRoot(node: Node) returns (ok: bool, pid: PageID)
      requires node.InnerNode? && |node.children| == |node.keys| + 1
      modifies this`pages, this`nextPage
      ensures ok == (InnerBytes(node.keys) <= MAX_DATA_BYTES) && pid == old(nextPage)
      ensures nextPage == old(nextPage) + 1
      ensures pages == if ok then old(pages)[pid := node] else old(pages)
      ensures AllFit(old(pages)) ==> AllFit(pages)
    {
      pid := AllocNode();
      ok := FlushNode(pid, node);
    }

    method SetRoot(pid: PageID, ghost root: Tree)
      requires Sound(OnDisk(), pid, root, height + 1) && Paired(Leaves(root)) && AllFit(pages)
      modifies this`rootID, this`tree, this`height
      ensures Valid() && tree == root
    {
      rootID := pid;
      tree, height := root, height + 1;
    }

    /** The part of the index that can still be reached is well-formed and holds the entries after the
        update, less one stretch that only the sibling links lead to; the upper half of a leaf, if the
        node that did not fit is the leaf's parent and the root. */
    ghost predicate LostHalf(was: Tree, key: Key, loc: RowLocation)
      reads this
    {
      && tree.pid == rootID && Fits(tree, EVERYWHERE.(h := height)) && Owned(OnDisk(), tree) && AllFit(pages)
      && Paired(Leaves(was)) && Paired(Leaves(tree))
      && exists e1, e2, e3 :: Damaged(was, tree, key, loc, e1, e2, e3)
                               && (height == 1 && !InsertPlan(was, key).fits ==> |e2| == UPPER_HALF)
    }

    /** Insert or overwrite one key. It succeeds exactly when every node it writes fits its page. A
        failure at the leaf changes nothing; a failure above it loses the upper half of what was split. */
    method Insert(key: Key, loc: RowLocation) returns (ok: bool)
      requires Valid()
      modifies this
      ensures ok == InsertFits(old(tree), key)
      ensures ok ==> Valid() && Contents() == old(Contents())[key := loc]
      ensures !ok && !LeafStageFits(old(tree), key) ==> Valid() && tree == old(tree)
      ensures !ok && LeafStageFits(old(tree), key) ==> LostHalf(old(tree), key, loc)
      ensures old(Small(tree)) && |key| <= MAX_KEY && FitsFields(loc) ==> ok && Small(tree)
    {
      ghost var a, t, at := OnDisk(), tree, EVERYWHERE.(h := height);
      ghost var o, s, added, l, z;
      var newKey, newRight;
      if Small(t) && |key| <= MAX_KEY {
        ShortKeysInsert(t, at, key);
      }
      ok, newKey, newRight, o, s, added, l, z := InsertRec(rootID, key, loc, tree, at);
      if !ok {
        tree := l;
        FailedRoot(a, OnDisk(), t, height, key, loc, l, z);
        return;
      }
      PlanStage(t, key);
      if newRight == 0 {
        InsertWhole(a, OnDisk(), tree, height, key, loc, o, s, added);
        tree := o.l;
        return;
      }
      ghost var b := OnDisk();
      ok := GrowRoot(newKey, newRight, key, loc, a, o, s, added);
      if !ok {
        tree := o.l;
        RootLost(a, b, OnDisk(), t, height, key, loc, o, s, added);
      }
    }

    method DeleteFromLeaf(pid: PageID, key: Key, ghost t: Tree, ghost at: Place)
      returns (found: bool, ghost l: Tree, ghost s: Site)
      requires t.Leaf? && t.pid == pid && Fits(t, at) && Owned(OnDisk(), t) && AllFit(pages)
      modifies this`pages
      ensures Deleted(old(OnDisk()), OnDisk(), t, at, key, found, l, s)
      ensures (Small(t) ==> Small(l)) && AllFit(pages)
    {
      ghost var a := OnDisk();
      var n := pages[pid];
      var idx;
      idx, found := LeafSearch(n.keys, key);
      l, s := t, Site([], t, [t], []);
      if !found {
        LeafMissing(t, at, key);
        return;
      }
      ghost var full := n;
      n := n.(keys := n.keys[..idx] + n.keys[idx + 1..], values := n.values[..idx] + n.values[idx + 1..]);
      ShrunkFits(full, idx, n);
      var ok := FlushNode(pid, n);
      assert ok;
      l := Leaf(pid, n.keys, n.values);
      s := Site([], t, [l], []);
      LeafShrunk(a, t, at, key, idx, l, OnDisk());
    }

    method DeleteRec(pid: PageID, key: Key, ghost t: Tree, ghost at: Place)
      returns (found: bool, ghost l: Tree, ghost s: Site)
      requires t.pid == pid && Fits(t, at) && Owned(OnDisk(), t) && AllFit(pages)
      modifies this`pages
      ensures Deleted(old(OnDisk()), OnDisk(), t, at, key, found, l, s)
      ensures (Small(t) ==> Small(l)) && AllFit(pages)
      decreases at.h
    {
      ghost var a := OnDisk();
      var n := pages[pid];
      if n.LeafNode? {
        found, l, s := DeleteFromLeaf(pid, key, t, at);
        return;
      }
      assert InnerShape(t.keys, t.kids, at.h - 1, at.lo, at.hi);
      var childIdx := ChildIndex(n.keys, key);
      OwnedKid(a, t, childIdx);
      ghost var k, cs;
      found, k, cs := DeleteRec(n.children[childIdx], key, t.kids[childIdx], KidPlace(t, at, childIdx));
      l := if found then Inner(pid, t.keys, KidsNow(t.kids, childIdx, Whole(k))) else t;
      s := if found then Widen(cs, t.kids[..childIdx], t.kids[childIdx + 1..]) else cs;
      SmallReplace(t, childIdx, Whole(k));
      InnerShrunk(a, OnDisk(), t, at, key, childIdx, found, k, cs, l);
    }

    /** Remove one key; says whether it was there. */
    method Delete(key: Key) returns (found: bool)
      requires Valid()
      modifies this
      ensures Valid()
      ensures found == (key in old(Contents()))
      ensures Contents() == old(Contents()) - {key}
      ensures old(Small(tree)) ==> Small(tree)
    {
      ghost var a := OnDisk();
      ghost var l, s;
      found, l, s := DeleteRec(rootID, key, tree, EVERYWHERE.(h := height));
      DeleteKept(a, OnDisk(), tree, height, key, found, l, s);
      tree := l;
    }

    /** Look one key up. */
    method Search(key: Key) returns (loc: RowLocation, found: bool)
      requires Valid()
      ensures found == (key in Contents())
      ensures found ==> loc == Contents()[key]
    {
      var pid := rootID;
      ghost var t, at := tree, EVERYWHERE.(h := height);
      SoundPaired(OnDisk(), rootID, tree, height);
      HeldBinds(tree, key);
      while true
        invariant t.pid == pid && Fits(t, at) && Stored(pages, t) && Paired(Leaves(t))
        invariant forall v :: Holds(tree, key, v) <==> Holds(t, key, v)
        decreases at.h
      {
        var n := pages[pid];
        if n.LeafNode? {
          var idx;
          idx, found := LeafSearch(n.keys, key);
          if found {
            assert Entries([t]) == LeafEntries(t) + Entries([]);
            assert LeafEntries(t)[idx] == Entry(key, n.values[idx]);
            assert Holds(t, key, n.values[idx]);
            return n.values[idx], true;
          }
          LeafMissing(t, at, key);
          return RowLocation(0, 0), false;
        }
        assert InnerShape(t.keys, t.kids, at.h - 1, at.lo, at.hi);
        var i := ChildIndex(n.keys, key);
        RoutedOnly(t, at, key, i);
        pid := n.children[i];
        t, at := t.kids[i], KidPlace(t, at, i);
      }
    }

    /** The leaf a scan from `from` starts in: every leaf left of it is below the range. */
    method FindLeafPage(from: Key) returns (pid: PageID, ghost j: nat)
      requires Valid()
      ensures j < |Leaves(tree)| && Leaves(tree)[j].pid == pid
      ensures Paired(Leaves(tree)[..j])
      ensures forall e | e in Entries(Leaves(tree)[..j]) :: Less(e.key, from)
    {
      pid := rootID;
      ghost var t, at := tree, EVERYWHERE.(h := height);
      ghost var x: seq<Tree>, y: seq<Tree> := [], [];
      while true
        invariant t.pid == pid && Fits(t, at) && Stored(pages, t)
        invariant Leaves(tree) == x + Leaves(t) + y
        invariant Paired(x) && forall e | e in Entries(x) :: Less(e.key, from)
        decreases at.h
      {
        var n := pages[pid];
        if n.LeafNode? {
          j := |x|;
          assert Leaves(tree)[..j] == x;
          return;
        }
        assert InnerShape(t.keys, t.kids, at.h - 1, at.lo, at.hi);
        var i := 0;
        if from != [] {
          i := ChildIndex(n.keys, from);
        }
        DescendLeft(Leaves(tree), x, t, y, at, from, i);
        pid := n.children[i];
        x, y := x + LeavesAll(t.kids[..i]), LeavesAll(t.kids[i + 1..]) + y;
        t, at := t.kids[i], KidPlace(t, at, i);
      }
    }

    /** Scan one leaf of the chain: what it adds, whether the range ends in it, and the next leaf. */
    method ScanPage(pid: PageID, from: Key, to: Key, soFar: seq<Entry>, ghost j: nat)
      returns (result: seq<Entry>, past: bool, next: PageID)
      requires Valid() && j < |Leaves(tree)| && pid == Leaves(tree)[j].pid
      requires Paired(Leaves(tree)) && Paired(Leaves(tree)[..j]) && AscendingEntries(Entries(Leaves(tree)))
      requires soFar == Select(Entries(Leaves(tree)[..j]), from, to)
      ensures past ==> result == Select(Entries(Leaves(tree)), from, to)
      ensures !past ==> Paired(Leaves(tree)[..j + 1]) && result == Select(Entries(Leaves(tree)[..j + 1]), from, to)
      ensures next == if j + 1 < |Leaves(tree)| then Leaves(tree)[j + 1].pid else 0
    {
      ghost var ls := Leaves(tree);
      LeafPidPositive(OnDisk(), tree, j);
      assert Linked(pages, ls, j);
      var n := pages[pid];
      ghost var upTo: nat;
      result, past, upTo := ScanLeaf(n, from, to, soFar, ls[j]);
      if past {
        ScanStopped(ls, j, upTo, from, to);
      } else {
        assert LeafEntries(ls[j])[..upTo] == LeafEntries(ls[j]);
        ScannedLeaf(ls, j, from, to);
      }
      next := n.right;
    }

    /** All entries with from <= key <= to, in ascending order; an empty bound is open. */
    method RangeAsc(from: Key, to: Key) returns (result: seq<Entry>)
      requires Valid()
      ensures AscendingEntries(result)
      ensures forall e :: e in result <==>
                && e.key in Contents() && Contents()[e.key] == e.loc
                && (from == [] || !Less(e.key, from)) && (to == [] || !Less(to, e.key))
    {
      result := ScanChain(from, to);
      assert forall e: Entry :: Binds(Contents(), e.key, e.loc) <==> e.key in Contents() && Contents()[e.key] == e.loc;
    }

    /** Follow the sibling links from the leaf where the range starts. */
    method ScanChain(from: Key, to: Key) returns (result: seq<Entry>)
      requires Valid()
      ensures AscendingEntries(result)
      ensures forall e :: e in result <==> Binds(Contents(), e.key, e.loc) && InRange(e.key, from, to)
    {
      ghost var ls := Leaves(tree);
      SoundPaired(OnDisk(), rootID, tree, height);
      SelectedBindings(tree, from, to);
      var pid;
      ghost var j: nat;
      pid, j := FindLeafPage(from);
      NothingBefore(ls[..j], from, to);
      result := [];
      while pid != 0
        invariant j <= |ls| && pid == if j < |ls| then ls[j].pid else 0
        invariant Paired(ls[..j]) && result == Select(Entries(ls[..j]), from, to)
        decreases |ls| - j
      {
        var past;
        result, past, pid := ScanPage(pid, from, to, result, j);
        if past {
          return;
        }
        j := j + 1;
      }
      LastLeaf(OnDisk(), tree, j);
      assert ls[..j] == ls;
    }

    /** Every key in ascending order. */
    method AllKeys() returns (keys: seq<Key>)
      requires Valid()
      ensures Ascending(keys) && forall k :: k in keys <==> k in Contents()
    {
      var entries := RangeAsc([], []);
      keys := [];
      var i := 0;
      while i < |entries|
        invariant i == |keys| <= |entries|
        invariant forall j | 0 <= j < i :: keys[j] == entries[j].key
      {
        keys := keys + [entries[i].key];
        i := i + 1;
      }
      forall k
        ensures k in keys <==> k in Contents()
      {
        if k in Contents() {
          assert Binds(Contents(), k, Contents()[k]) && Entry(k, Contents()[k]) in entries;
        }
      }
    }
  }

  lemma LastLeaf(d: Disk, t: Tree, j: nat)
    requires Owned(d, t) && j <= |Leaves(t)| && (j < |Leaves(t)| ==> Leaves(t)[j].pid == 0)
    ensures j == |Leaves(t)|
  {
    if j < |Leaves(t)| {
      LeafPidPositive(d, t, j);
    }
  }

  // ---------------------------------------------------------------- whole runs

  datatype Op = Ins(key: Key, loc: RowLocation) | Del(key: Key)

  function ModelOne(m: map<Key, RowLocation>, op: Op): map<Key, RowLocation> {
    match op
    case Ins(key, loc) => m[key := loc]
    case Del(key) => m - {key}
  }

  /** A plain finite map subjected to the same operations. */
  function Model(ops: seq<Op>): map<Key, RowLocation> {
    if ops == [] then map[] else ModelOne(Model(ops[..|ops| - 1]), ops[|ops| - 1])
  }

  /** A key of at most 26 bytes, a location within its fields. */
  predicate ShortOp(op: Op) {
    op.Ins? ==> |op.key| <= MAX_KEY && FitsFields(op.loc)
  }

  predicate ShortOps(ops: seq<Op>) {
    forall i | 0 <= i < |ops| :: ShortOp(ops[i])
  }

  method Perform(bt: Index, op: Op) returns (ok: bool)
    requires bt.Valid()
    modifies bt
    ensures ok == (op.Ins? ==> InsertFits(old(bt.tree), op.key))
    ensures ok ==> bt.Valid() && bt.Contents() == ModelOne(old(bt.Contents()), op)
    ensures old(Small(bt.tree)) && ShortOp(op) ==> ok && Small(bt.tree)
  {
    match op {
      case Ins(key, loc) => ok := bt.Insert(key, loc);
      case Del(key) =>
        var _ := bt.Delete(key);
        ok := true;
    }
  }

  /** Any sequence of inserts and deletes leaves an index that agrees with the plain map, unless a page
      write fails on the way; with short keys none does, and every page survives its encoding. */
  method Replay(ops: seq<Op>) returns (bt: Index, ok: bool)
    ensures fresh(bt) && (ok ==> bt.Valid() && bt.Contents() == Model(ops))
    ensures ShortOps(ops) ==> ok && Small(bt.tree)
    ensures ShortOps(ops) && bt.nextPage <= Bytes.UINT64_LIMIT ==>
              forall p | p in Pids(bt.tree) :: p in bt.pages && Faithful(bt.pages[p])
  {
    bt := new Index();
    ok := true;
    var i := 0;
    while i < |ops|
      invariant i <= |ops| && fresh(bt) && ok && bt.Valid() && bt.Contents() == Model(ops[..i])
      invariant ShortOps(ops) ==> Small(bt.tree)
    {
      assert ops[..i + 1][..i] == ops[..i];
      ok := Perform(bt, ops[i]);
      if !ok {
        return;
      }
      i := i + 1;
    }
    assert ops[..i] == ops;
    if ShortOps(ops) && bt.nextPage <= Bytes.UINT64_LIMIT {
      IndexFaithful(bt);
    }
  }

  lemma IndexFaithful(bt: Index)
    requires bt.Valid() && Small(bt.tree) && bt.nextPage <= Bytes.UINT64_LIMIT
    ensures forall p | p in Pids(bt.tree) :: p in bt.pages && Faithful(bt.pages[p])
  {
    forall p | p in Pids(bt.tree)
      ensures p in bt.pages && Faithful(bt.pages[p])
    {
      EveryPageFaithful(bt.OnDisk(), bt.rootID, bt.tree, bt.height, p);
    }
  }

  // ---------------------------------------------------------------- on the page

  ghost predicate RightInRange(pages: Pages, l: Tree) {
    l.pid in pages && pages[l.pid].LeafNode? && pages[l.pid].right < Bytes.UINT64_LIMIT
  }

  lemma LeafFaithful(pages: Pages, t: Tree, lo: Bound, hi: Bound, root: bool)
    requires t.Leaf? && WellFormed(t, 0, lo, hi, root) && Stored(pages, t) && Small(t)
    requires pages[t.pid].right < Bytes.UINT64_LIMIT
    ensures Faithful(pages[t.pid])
  {
    FaithfulNode(pages[t.pid]);
  }

  lemma InnerFaithful(pages: Pages, t: Tree, h: nat, lo: Bound, hi: Bound, root: bool)
    requires t.Inner? && WellFormed(t, h, lo, hi, root) && Stored(pages, t) && Small(t)
    requires Allocated(Pids(t), Bytes.UINT64_LIMIT)
    ensures Faithful(pages[t.pid])
  {
    assert InnerShape(t.keys, t.kids, h - 1, lo, hi);
    KidPids(t);
    var n := pages[t.pid];
    forall i | 0 <= i < |n.children|
      ensures n.children[i] < Bytes.UINT64_LIMIT
    {
      assert n.children[i] == t.kids[i].pid;
    }
    FaithfulNode(n);
  }

  lemma {:induction false} PagesFaithful(pages: Pages, t: Tree, h: nat, lo: Bound, hi: Bound, root: bool, p: PageID)
    requires WellFormed(t, h, lo, hi, root) && Stored(pages, t) && Small(t) && p in Pids(t)
    requires Allocated(Pids(t), Bytes.UINT64_LIMIT)
    requires forall l | l in Leaves(t) :: RightInRange(pages, l)
    ensures p in pages && Faithful(pages[p])
    decreases h
  {
    if t.Leaf? {
      assert t in Leaves(t);
      LeafFaithful(pages, t, lo, hi, root);
    } else if p == t.pid {
      InnerFaithful(pages, t, h, lo, hi, root);
    } else {
      assert InnerShape(t.keys, t.kids, h - 1, lo, hi);
      var i := OwnerKid(t.kids, p);
      PidsKid(t.kids, i);
      assert Allocated(Pids(t.kids[i]), Bytes.UINT64_LIMIT) by {
        SubsetAllocated(Pids(t.kids[i]), Pids(t), Bytes.UINT64_LIMIT);
      }
      LeavesOfKid(t, i);
      PagesFaithful(pages, t.kids[i], h - 1, LowOf(t.keys, lo, i), HighOf(t.keys, hi, i), false, p);
    }
  }

  lemma KidPids(t: Tree)
    requires t.Inner?
    ensures forall i | 0 <= i < |t.kids| :: t.kids[i].pid in Pids(t)
  {
    forall i | 0 <= i < |t.kids|
      ensures t.kids[i].pid in Pids(t)
    {
      PidMember(t.kids, i);
    }
  }

  lemma {:induction false} OwnerKid(kids: seq<Tree>, p: PageID) returns (i: nat)
    requires p in PidsAll(kids)
    ensures i < |kids| && p in Pids(kids[i])
  {
    if p in Pids(kids[0]) {
      return 0;
    }
    i := OwnerKid(kids[1..], p);
    i := i + 1;
  }

  lemma LeavesOfKid(t: Tree, i: nat)
    requires t.Inner? && i < |t.kids|
    ensures forall l | l in Leaves(t.kids[i]) :: l in Leaves(t)
  {
    Around(t.kids, i);
    LeavesAround(t.kids[..i], t.kids[i], t.kids[i + 1..]);
  }

  lemma ChainInRange(d: Disk, t: Tree, l: Tree)
    requires Owned(d, t) && Chain(d.pages, Leaves(t)) && d.next <= Bytes.UINT64_LIMIT && l in Leaves(t)
    ensures RightInRange(d.pages, l)
  {
    var ls := Leaves(t);
    var i :| 0 <= i < |ls| && ls[i] == l;
    assert Linked(d.pages, ls, i);
    if i + 1 < |ls| {
      LeafPids(t);
      PidMember(ls, i + 1);
    }
  }

  /** With keys of at most 26 bytes, every page of the index fits its payload area and decodes to
      the node it was encoded from. */
  lemma EveryPageFaithful(d: Disk, root: PageID, t: Tree, h: nat, p: PageID)
    requires Sound(d, root, t, h) && Small(t) && d.next <= Bytes.UINT64_LIMIT && p in Pids(t)
    ensures p in d.pages && Faithful(d.pages[p])
  {
    forall l | l in Leaves(t)
      ensures RightInRange(d.pages, l)
    {
      ChainInRange(d, t, l);
    }
    PagesFaithful(d.pages, t, h, Unbounded, Unbounded, true, p);
  }

  // ---------------------------------------------------------------- size

  function Power(b: nat, n: nat): nat {
    if n == 0 then 1 else b * Power(b, n - 1)
  }

  lemma {:induction false} ManyLeaves(ts: seq<Tree>, n: nat)
    requires forall i | 0 <= i < |ts| :: |Leaves(ts[i])| >= n
    ensures |LeavesAll(ts)| >= |ts| * n
  {
    if ts != [] {
      ManyLeaves(ts[1..], n);
      OneMore(|ts| - 1, n);
    }
  }

  lemma AtLeastTimes(k: nat, m: nat, n: nat)
    requires k >= m
    ensures k * n >= m * n
  {
  }

  lemma {:induction false} SubtreeLeaves(t: Tree, h: nat, lo: Bound, hi: Bound)
    requires WellFormed(t, h, lo, hi, false)
    ensures |Leaves(t)| >= Power(51, h)
    decreases h
  {
    if h > 0 {
      assert InnerShape(t.keys, t.kids, h - 1, lo, hi);
      forall i | 0 <= i < |t.kids|
        ensures |Leaves(t.kids[i])| >= Power(51, h - 1)
      {
        SubtreeLeaves(t.kids[i], h - 1, LowOf(t.keys, lo, i), HighOf(t.keys, hi, i));
      }
      ManyLeaves(t.kids, Power(51, h - 1));
      AtLeastTimes(|t.kids|, 51, Power(51, h - 1));
    }
  }

  /** Deletes never shrink the tree's skeleton: with h >= 1 levels of internal nodes there are at
      least 2 * 51^(h-1) leaf pages. */
  lemma LeafPagesLowerBound(d: Disk, root: PageID, t: Tree, h: nat)
    requires Sound(d, root, t, h) && h > 0
    ensures |Leaves(t)| >= 2 * Power(51, h - 1)
    ensures |d.pages| >= |Leaves(t)|
  {
    assert InnerShape(t.keys, t.kids, h - 1, Unbounded, Unbounded);
    forall i | 0 <= i < |t.kids|
      ensures |Leaves(t.kids[i])| >= Power(51, h - 1)
    {
      SubtreeLeaves(t.kids[i], h - 1, LowOf(t.keys, Unbounded, i), HighOf(t.keys, Unbounded, i));
    }
    ManyLeaves(t.kids, Power(51, h - 1));
    AtLeastTimes(|t.kids|, 2, Power(51, h - 1));
    PagesOfLeaves(d, t);
  }

  lemma {:induction false} CountPids(ts: seq<Tree>)
    requires forall t | t in ts :: t.Leaf?
    ensures |PidsAll(ts)| == |ts|
  {
    if ts != [] {
      CountPids(ts[1..]);
    }
  }

  lemma PagesOfLeaves(d: Disk, t: Tree)
    requires Owned(d, t)
    ensures |d.pages| >= |Leaves(t)|
  {
    var ls := Leaves(t);
    LeafPids(t);
    SubsetOnce(PidsAll(ls), Pids(t));
    CountPids(ls);
    forall p | p in PidsAll(ls)
      ensures p in d.pages
    {
      LeavesStored(d.pages, t);
      PidsAreStored(d.pages, ls, p);
    }
    var keys := d.pages.Keys;
    assert PidsAll(ls) <= multiset(keys);
    Smaller(PidsAll(ls), multiset(keys));
  }

  lemma {:induction false} PidsAreStored(pages: Pages, ls: seq<Tree>, p: PageID)
    requires StoredAll(pages, ls) && (forall l | l in ls :: l.Leaf?) && p in PidsAll(ls)
    ensures p in pages
  {
    if p !in Pids(ls[0]) {
      PidsAreStored(pages, ls[1..], p);
    } else {
      assert Stored(pages, ls[0]);
    }
  }

  lemma Smaller(a: multiset<PageID>, b: multiset<PageID>)
    requires a <= b
    ensures |a| <= |b|
  {
    assert b == a + (b - a);
  }

  lemma OwnedKid(d: Disk, t: Tree, i: nat)
    requires t.Inner? && Owned(d, t) && i < |t.kids|
    ensures Owned(d, t.kids[i])
  {
    PidsKid(t.kids, i);
    SubsetOnce(Pids(t.kids[i]), Pids(t));
  }
}
