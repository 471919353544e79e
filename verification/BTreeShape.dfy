/** The value a B+ tree index stands for: a tree of pages, its in-order leaves, its entries and
    the finite map they hold. */
module BTreeShape {
  import opened KeyOrder

  const BTREE_ORDER := 100

  type PageID = nat

  datatype RowLocation = RowLocation(page: PageID, slot: nat)

  datatype Entry = Entry(key: Key, loc: RowLocation)

  /** One page of the index file, as decoded. */
  datatype Node =
    | LeafNode(keys: seq<Key>, values: seq<RowLocation>, right: PageID)
    | InnerNode(keys: seq<Key>, children: seq<PageID>)

  /** A subtree, with its pages resolved. */
  datatype Tree =
    | Leaf(pid: PageID, keys: seq<Key>, values: seq<RowLocation>)
    | Inner(pid: PageID, keys: seq<Key>, kids: seq<Tree>)

  datatype Bound = Unbounded | At(key: Key)

  // ---------------------------------------------------------------- ordering

  predicate AtLeast(lo: Bound, k: Key) {
    lo.At? ==> !Less(k, lo.key)
  }

  predicate Below(k: Key, hi: Bound) {
    hi.At? ==> Less(k, hi.key)
  }

  predicate In(k: Key, lo: Bound, hi: Bound) {
    AtLeast(lo, k) && Below(k, hi)
  }

  function LowOf(keys: seq<Key>, lo: Bound, i: nat): Bound
    requires i <= |keys|
  {
    if i == 0 then lo else At(keys[i - 1])
  }

  function HighOf(keys: seq<Key>, hi: Bound, i: nat): Bound
    requires i <= |keys|
  {
    if i == |keys| then hi else At(keys[i])
  }

  /** Number of separators a non-root internal node never goes below. */
  function MinKeys(root: bool): nat {
    if root then 1 else BTREE_ORDER / 2
  }

  /** Separators ascend within [lo, hi) and each kid is a subtree of height `h` lying between its
      two separators. */
  ghost predicate InnerShape(keys: seq<Key>, kids: seq<Tree>, h: nat, lo: Bound, hi: Bound)
    decreases h, 1
  {
    && Ascending(keys)
    && (forall i | 0 <= i < |keys| :: In(keys[i], lo, hi))
    && |kids| == |keys| + 1
    && (forall i | 0 <= i < |kids| ::
          WellFormed(kids[i], h, LowOf(keys, lo, i), HighOf(keys, hi, i), false))
  }

  /** `t` has height `h`, all its keys lie in [lo, hi), every separator bounds its two
      neighbouring subtrees, and every node is within its size limits. */
  ghost predicate WellFormed(t: Tree, h: nat, lo: Bound, hi: Bound, root: bool)
    decreases h, 0
  {
    match t
    case Leaf(_, keys, values) =>
      && h == 0
      && |values| == |keys| <= BTREE_ORDER
      && Ascending(keys)
      && (forall i | 0 <= i < |keys| :: In(keys[i], lo, hi))
    case Inner(_, keys, kids) =>
      && h > 0
      && MinKeys(root) <= |keys| <= BTREE_ORDER
      && InnerShape(keys, kids, h - 1, lo, hi)
  }

  // ---------------------------------------------------------------- contents

  ghost function Leaves(t: Tree): (ls: seq<Tree>)
    ensures forall l | l in ls :: l.Leaf?
    decreases t, 1
  {
    match t
    case Leaf(_, _, _) => [t]
    case Inner(_, _, kids) => LeavesAll(kids)
  }

  ghost function LeavesAll(ts: seq<Tree>): (ls: seq<Tree>)
    ensures forall l | l in ls :: l.Leaf?
    decreases ts, 0
  {
    if ts == [] then [] else Leaves(ts[0]) + LeavesAll(ts[1..])
  }

  ghost function LeafEntries(l: Tree): seq<Entry>
    requires l.Leaf? && |l.keys| == |l.values|
  {
    seq(|l.keys|, i requires 0 <= i < |l.keys| => Entry(l.keys[i], l.values[i]))
  }

  ghost predicate Paired(ls: seq<Tree>) {
    forall l | l in ls :: l.Leaf? && |l.keys| == |l.values|
  }

  ghost function Entries(ls: seq<Tree>): seq<Entry>
    requires Paired(ls)
  {
    if ls == [] then [] else LeafEntries(ls[0]) + Entries(ls[1..])
  }

  ghost predicate AscendingEntries(e: seq<Entry>) {
    forall i, j | 0 <= i < j < |e| :: Less(e[i].key, e[j].key)
  }

  /** The map held by a list of entries; later entries win. */
  ghost function MapOf(e: seq<Entry>): map<Key, RowLocation> {
    if e == [] then map[] else MapOf(e[..|e| - 1])[e[|e| - 1].key := e[|e| - 1].loc]
  }

  // ---------------------------------------------------------------- lemmas: concatenation

  lemma {:induction false} LeavesAppend(a: seq<Tree>, b: seq<Tree>)
    ensures LeavesAll(a + b) == LeavesAll(a) + LeavesAll(b)
  {
    if a == [] {
      assert a + b == b;
    } else {
      LeavesAppend(a[1..], b);
      assert (a + b)[1..] == a[1..] + b;
      assert LeavesAll(a + b) == Leaves(a[0]) + (LeavesAll(a[1..]) + LeavesAll(b));
    }
  }

  lemma LeavesOne(t: Tree)
    ensures LeavesAll([t]) == Leaves(t)
  {
    assert LeavesAll([]) == [];
  }

  lemma LeavesAround(a: seq<Tree>, t: Tree, b: seq<Tree>)
    ensures LeavesAll(a + [t] + b) == LeavesAll(a) + Leaves(t) + LeavesAll(b)
  {
    LeavesAppend(a + [t], b);
    LeavesAppend(a, [t]);
    LeavesOne(t);
  }

  lemma {:induction false} EntriesAppend(a: seq<Tree>, b: seq<Tree>)
    requires Paired(a) && Paired(b)
    ensures Paired(a + b)
    ensures Entries(a + b) == Entries(a) + Entries(b)
  {
    if a == [] {
      assert a + b == b;
    } else {
      EntriesAppend(a[1..], b);
      assert (a + b)[1..] == a[1..] + b;
    }
  }

  // ---------------------------------------------------------------- lemmas: order of entries

  ghost predicate Within(e: seq<Entry>, lo: Bound, hi: Bound) {
    forall i | 0 <= i < |e| :: In(e[i].key, lo, hi)
  }

  lemma AppendAscending(a: seq<Entry>, b: seq<Entry>, lo: Bound, mid: Key, hi: Bound)
    requires AscendingEntries(a) && Within(a, lo, At(mid))
    requires AscendingEntries(b) && Within(b, At(mid), hi)
    requires In(mid, lo, hi)
    ensures AscendingEntries(a + b) && Within(a + b, lo, hi)
  {
    StrictTotalOrder();
  }

  /** The first `n` kids, read from left to right, ascend and stay below the next separator. */
  lemma {:induction false} KidsAscending(keys: seq<Key>, kids: seq<Tree>, h: nat, lo: Bound, hi: Bound, n: nat)
    requires InnerShape(keys, kids, h, lo, hi)
    requires 1 <= n <= |kids|
    ensures Paired(LeavesAll(kids[..n]))
    ensures AscendingEntries(Entries(LeavesAll(kids[..n])))
    ensures Within(Entries(LeavesAll(kids[..n])), lo, HighOf(keys, hi, n - 1))
    decreases h, 2, n
  {
    LeavesAscending(kids[n - 1], h, LowOf(keys, lo, n - 1), HighOf(keys, hi, n - 1), false);
    LeavesOne(kids[n - 1]);
    if n == 1 {
      assert kids[..n] == [kids[0]];
    } else {
      KidsAscending(keys, kids, h, lo, hi, n - 1);
      assert kids[..n] == kids[..n - 1] + [kids[n - 1]];
      LeavesAppend(kids[..n - 1], [kids[n - 1]]);
      EntriesAppend(LeavesAll(kids[..n - 1]), Leaves(kids[n - 1]));
      assert In(keys[n - 2], lo, HighOf(keys, hi, n - 1));
      AppendAscending(Entries(LeavesAll(kids[..n - 1])), Entries(Leaves(kids[n - 1])),
                      lo, keys[n - 2], HighOf(keys, hi, n - 1));
    }
  }

  /** Reading the leaves of a well-formed tree from left to right gives strictly ascending keys. */
  lemma {:induction false} LeavesAscending(t: Tree, h: nat, lo: Bound, hi: Bound, root: bool)
    requires WellFormed(t, h, lo, hi, root)
    ensures Paired(Leaves(t))
    ensures AscendingEntries(Entries(Leaves(t)))
    ensures Within(Entries(Leaves(t)), lo, hi)
    decreases h, 1, 0
  {
    if t.Leaf? {
      assert Leaves(t) == [t];
      assert Entries([t]) == LeafEntries(t) + Entries([]);
    } else {
      KidsAscending(t.keys, t.kids, h - 1, lo, hi, |t.kids|);
      assert t.kids[..|t.kids|] == t.kids;
    }
  }

  // ---------------------------------------------------------------- lemmas: the map

  ghost predicate Binds(m: map<Key, RowLocation>, k: Key, v: RowLocation) {
    k in m && m[k] == v
  }

  lemma KeysDiffer(e: seq<Entry>)
    requires AscendingEntries(e)
    ensures forall i, j | 0 <= i < |e| && 0 <= j < |e| && e[i].key == e[j].key :: i == j
  {
    forall i, j | 0 <= i < j < |e|
      ensures e[i].key != e[j].key
    {
      Trichotomy(e[i].key, e[j].key);
    }
  }

  lemma {:induction false} MapOfHas(e: seq<Entry>)
    requires AscendingEntries(e)
    ensures forall k, v :: Binds(MapOf(e), k, v) <==> Entry(k, v) in e
  {
    if e != [] {
      var d, x := e[..|e| - 1], e[|e| - 1];
      MapOfHas(d);
      KeysDiffer(e);
      assert e == d + [x];
      forall k, v
        ensures Binds(MapOf(e), k, v) <==> Entry(k, v) in e
      {
        if k == x.key {
          assert Entry(k, v) !in d;
        }
      }
    }
  }

  /** `after` is `before` with `k` bound to `v`, in place or newly inserted. */
  ghost predicate Put(before: seq<Entry>, after: seq<Entry>, k: Key, v: RowLocation) {
    exists a, b ::
      && after == a + [Entry(k, v)] + b
      && (before == a + b || exists u :: before == a + [Entry(k, u)] + b)
  }

  /** `after` is `before` without its entry for `k`. */
  ghost predicate Cut(before: seq<Entry>, after: seq<Entry>, k: Key) {
    exists a, b, u :: before == a + [Entry(k, u)] + b && after == a + b
  }

  lemma PutInContext(x: seq<Entry>, before: seq<Entry>, after: seq<Entry>, y: seq<Entry>,
                     k: Key, v: RowLocation)
    requires Put(before, after, k, v)
    ensures Put(x + before + y, x + after + y, k, v)
  {
    var a, b :| after == a + [Entry(k, v)] + b
                && (before == a + b || exists u :: before == a + [Entry(k, u)] + b);
    assert x + after + y == (x + a) + [Entry(k, v)] + (b + y);
    if before == a + b {
      assert x + before + y == (x + a) + (b + y);
    } else {
      var u :| before == a + [Entry(k, u)] + b;
      assert x + before + y == (x + a) + [Entry(k, u)] + (b + y);
    }
  }

  lemma CutInContext(x: seq<Entry>, before: seq<Entry>, after: seq<Entry>, y: seq<Entry>, k: Key)
    requires Cut(before, after, k)
    ensures Cut(x + before + y, x + after + y, k)
  {
    var a, b, u :| before == a + [Entry(k, u)] + b && after == a + b;
    assert x + before + y == (x + a) + [Entry(k, u)] + (b + y);
    assert x + after + y == (x + a) + (b + y);
  }

  lemma {:induction false} MapOfAppend(a: seq<Entry>, b: seq<Entry>)
    ensures MapOf(a + b) == MapOf(a) + MapOf(b)
  {
    if b == [] {
      assert a + b == a;
    } else {
      MapOfAppend(a, b[..|b| - 1]);
      assert (a + b)[..|a + b| - 1] == a + b[..|b| - 1];
    }
  }

  lemma {:induction false} MapOfKeys(e: seq<Entry>, k: Key)
    ensures k in MapOf(e) <==> exists i :: 0 <= i < |e| && e[i].key == k
  {
    if e != [] {
      MapOfKeys(e[..|e| - 1], k);
      assert e[|e| - 1].key == k || (k in MapOf(e) <==> k in MapOf(e[..|e| - 1]));
    }
  }

  lemma MapOfAround(a: seq<Entry>, x: Entry, b: seq<Entry>)
    requires AscendingEntries(a + [x] + b)
    ensures x.key !in MapOf(a) && x.key !in MapOf(b)
    ensures MapOf(a + [x] + b) == MapOf(a + b)[x.key := x.loc]
  {
    var e := a + [x] + b;
    KeysDiffer(e);
    assert e[|a|] == x;
    forall i | 0 <= i < |a|
      ensures a[i].key != x.key
    {
      assert e[i] == a[i];
    }
    forall i | 0 <= i < |b|
      ensures b[i].key != x.key
    {
      assert e[|a| + 1 + i] == b[i];
    }
    MapOfKeys(a, x.key);
    MapOfKeys(b, x.key);
    MapOfAppend(a + [x], b);
    MapOfAppend(a, [x]);
    MapOfAppend(a, b);
    assert MapOf([x]) == map[x.key := x.loc];
  }

  lemma PutMeans(before: seq<Entry>, after: seq<Entry>, k: Key, v: RowLocation)
    requires Put(before, after, k, v)
    requires AscendingEntries(before) && AscendingEntries(after)
    ensures MapOf(after) == MapOf(before)[k := v]
  {
    var a, b :| after == a + [Entry(k, v)] + b
                && (before == a + b || exists u :: before == a + [Entry(k, u)] + b);
    MapOfAround(a, Entry(k, v), b);
    if before != a + b {
      var u :| before == a + [Entry(k, u)] + b;
      MapOfAround(a, Entry(k, u), b);
    }
  }

  lemma CutMeans(before: seq<Entry>, after: seq<Entry>, k: Key)
    requires Cut(before, after, k)
    requires AscendingEntries(before)
    ensures k in MapOf(before)
    ensures MapOf(after) == MapOf(before) - {k}
  {
    var a, b, u :| before == a + [Entry(k, u)] + b && after == a + b;
    MapOfAround(a, Entry(k, u), b);
    MapOfAppend(a, b);
    assert MapOf(before) - {k} == MapOf(after);
  }
}
