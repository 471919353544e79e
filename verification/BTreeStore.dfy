/** How a tree is laid out on pages: which pages it owns, the right-sibling chain of its leaves,
    and how inserting into or splitting one page changes both. */
module BTreeStore {
  import opened KeyOrder
  import opened BTreeShape

  type Pages = map<PageID, Node>

  // ---------------------------------------------------------------- ownership

  ghost function Pids(t: Tree): multiset<PageID>
    decreases t, 1
  {
    match t
    case Leaf(pid, _, _) => multiset{pid}
    case Inner(pid, _, kids) => multiset{pid} + PidsAll(kids)
  }

  ghost function PidsAll(ts: seq<Tree>): multiset<PageID>
    decreases ts, 0
  {
    if ts == [] then multiset{} else Pids(ts[0]) + PidsAll(ts[1..])
  }

  ghost predicate AtMostOnce(m: multiset<PageID>) {
    forall p | p in m :: m[p] == 1
  }

  /** Page numbers handed out while the allocator moved from `from` to `to`, each once. */
  ghost predicate Fresh(m: multiset<PageID>, from: PageID, to: PageID) {
    forall p | p in m :: from <= p < to && m[p] == 1
  }

  ghost predicate Allocated(m: multiset<PageID>, next: PageID) {
    forall p | p in m :: 0 < p < next
  }

  ghost predicate Stored(pages: Pages, t: Tree)
    decreases t
  {
    && t.pid in pages
    && match t {
         case Leaf(pid, keys, values) =>
           pages[pid].LeafNode? && pages[pid].keys == keys && pages[pid].values == values
         case Inner(pid, keys, kids) =>
           && pages[pid].InnerNode? && pages[pid].keys == keys
           && |pages[pid].children| == |kids|
           && (forall i | 0 <= i < |kids| :: pages[pid].children[i] == kids[i].pid && Stored(pages, kids[i]))
       }
  }

  ghost predicate StoredAll(pages: Pages, ts: seq<Tree>) {
    forall i | 0 <= i < |ts| :: Stored(pages, ts[i])
  }

  ghost predicate Agree(a: Pages, b: Pages, on: multiset<PageID>) {
    forall p | p in on && p in a :: p in b && b[p] == a[p]
  }

  lemma Regroup(a: multiset<PageID>, b: multiset<PageID>, c: multiset<PageID>)
    ensures (a + b) + c == a + (b + c)
  {
  }

  /** Parts of a duplicate-free whole share no page. */
  lemma PartsDisjoint(a: multiset<PageID>, b: multiset<PageID>, c: multiset<PageID>)
    requires AtMostOnce(a + b + c)
    ensures a !! b && a !! c && b !! c
  {
    forall p
      ensures a[p] + b[p] + c[p] <= 1
    {
      assert (a + b + c)[p] == a[p] + b[p] + c[p];
    }
  }

  lemma {:induction false} PidsAppend(a: seq<Tree>, b: seq<Tree>)
    ensures PidsAll(a + b) == PidsAll(a) + PidsAll(b)
  {
    if a == [] {
      assert a + b == b;
    } else {
      PidsAppend(a[1..], b);
      assert (a + b)[1..] == a[1..] + b;
      Regroup(Pids(a[0]), PidsAll(a[1..]), PidsAll(b));
    }
  }

  lemma PidsOne(t: Tree)
    ensures PidsAll([t]) == Pids(t)
  {
    assert PidsAll([]) == multiset{};
  }

  lemma PidsAround(a: seq<Tree>, t: Tree, b: seq<Tree>)
    ensures PidsAll(a + [t] + b) == PidsAll(a) + Pids(t) + PidsAll(b)
  {
    PidsAppend(a + [t], b);
    PidsAppend(a, [t]);
    PidsOne(t);
  }

  lemma PidsKid(ts: seq<Tree>, i: nat)
    requires i < |ts|
    ensures Pids(ts[i]) <= PidsAll(ts)
  {
    assert ts == ts[..i] + [ts[i]] + ts[i + 1..];
    PidsAround(ts[..i], ts[i], ts[i + 1..]);
  }

  lemma PidInPids(t: Tree)
    ensures t.pid in Pids(t)
  {
  }

  /** A subtree survives any change to pages it does not own. */
  lemma {:induction false} StoredFrame(a: Pages, b: Pages, t: Tree)
    requires Stored(a, t) && Agree(a, b, Pids(t))
    ensures Stored(b, t)
    decreases t
  {
    PidInPids(t);
    if t.Inner? {
      forall i | 0 <= i < |t.kids|
        ensures Stored(b, t.kids[i])
      {
        PidsKid(t.kids, i);
        StoredFrame(a, b, t.kids[i]);
      }
    }
  }

  lemma StoredAllFrame(a: Pages, b: Pages, ts: seq<Tree>)
    requires StoredAll(a, ts) && Agree(a, b, PidsAll(ts))
    ensures StoredAll(b, ts)
  {
    forall i | 0 <= i < |ts|
      ensures Stored(b, ts[i])
    {
      PidsKid(ts, i);
      StoredFrame(a, b, ts[i]);
    }
  }

  lemma {:induction false} LeafPids(t: Tree)
    ensures PidsAll(Leaves(t)) <= Pids(t)
    decreases t, 1
  {
    if t.Leaf? {
      PidsOne(t);
    } else {
      LeafPidsAll(t.kids);
    }
  }

  lemma {:induction false} LeafPidsAll(ts: seq<Tree>)
    ensures PidsAll(LeavesAll(ts)) <= PidsAll(ts)
    decreases ts, 0
  {
    if ts != [] {
      LeafPids(ts[0]);
      LeafPidsAll(ts[1..]);
      PidsAppend(Leaves(ts[0]), LeavesAll(ts[1..]));
    }
  }

  lemma {:induction false} LeavesStored(pages: Pages, t: Tree)
    requires Stored(pages, t)
    ensures StoredAll(pages, Leaves(t))
    decreases t, 1
  {
    if t.Inner? {
      LeavesAllStored(pages, t.kids);
    }
  }

  lemma {:induction false} LeavesAllStored(pages: Pages, ts: seq<Tree>)
    requires StoredAll(pages, ts)
    ensures StoredAll(pages, LeavesAll(ts))
    decreases ts, 0
  {
    if ts != [] {
      LeavesStored(pages, ts[0]);
      LeavesAllStored(pages, ts[1..]);
    }
  }

  // ---------------------------------------------------------------- the sibling chain

  ghost function NextPid(ls: seq<Tree>, i: nat): PageID
    requires i < |ls|
  {
    if i + 1 < |ls| then ls[i + 1].pid else 0
  }

  ghost predicate Linked(pages: Pages, ls: seq<Tree>, i: nat)
    requires i < |ls|
  {
    ls[i].pid in pages && pages[ls[i].pid].LeafNode? && pages[ls[i].pid].right == NextPid(ls, i)
  }

  /** Following right-sibling links visits exactly these leaves, in this order, and then stops. */
  ghost predicate Chain(pages: Pages, ls: seq<Tree>) {
    forall i | 0 <= i < |ls| :: Linked(pages, ls, i)
  }

  /** One leaf of the in-order list replaced by one or two leaves. */
  datatype Site = Site(x: seq<Tree>, was: Tree, now: seq<Tree>, y: seq<Tree>)

  ghost predicate SiteOk(s: Site) {
    && s.was.Leaf?
    && 1 <= |s.now| <= 2
    && (forall i | 0 <= i < |s.now| :: s.now[i].Leaf?)
    && s.now[0].pid == s.was.pid
    && Paired([s.was]) && Paired(s.now) && Paired(s.x) && Paired(s.y)
  }

  ghost function LeavesBefore(s: Site): seq<Tree> {
    s.x + [s.was] + s.y
  }

  ghost function LeavesAfter(s: Site): seq<Tree> {
    s.x + s.now + s.y
  }

  ghost predicate SameLink(a: Pages, b: Pages, p: PageID) {
    p in a && p in b && a[p].LeafNode? && b[p].LeafNode? && a[p].right == b[p].right
  }

  /** The only links that changed are those needed to splice a new right sibling in. */
  ghost predicate Relinked(a: Pages, b: Pages, s: Site)
    requires |s.now| > 0
  {
    && (forall p | p in a && a[p].LeafNode? && p != s.was.pid :: SameLink(a, b, p))
    && s.was.pid in a && a[s.was.pid].LeafNode?
    && s.was.pid in b && b[s.was.pid].LeafNode?
    && if |s.now| == 1 then
         b[s.was.pid].right == a[s.was.pid].right
       else
         && b[s.was.pid].right == s.now[1].pid
         && s.now[1].pid !in a && s.now[1].pid in b && b[s.now[1].pid].LeafNode?
         && b[s.now[1].pid].right == a[s.was.pid].right
  }

  lemma {:induction false} PidMember(ts: seq<Tree>, i: nat)
    requires i < |ts|
    ensures ts[i].pid in PidsAll(ts)
  {
    PidInPids(ts[i]);
    PidsKid(ts, i);
  }

  lemma OtherLeaves(s: Site)
    requires AtMostOnce(PidsAll(LeavesBefore(s)))
    ensures forall i | 0 <= i < |s.x| :: s.x[i].pid != s.was.pid
    ensures forall i | 0 <= i < |s.y| :: s.y[i].pid != s.was.pid
  {
    PidsAround(s.x, s.was, s.y);
    PartsDisjoint(PidsAll(s.x), Pids(s.was), PidsAll(s.y));
    PidInPids(s.was);
    forall i | 0 <= i < |s.x|
      ensures s.x[i].pid != s.was.pid
    {
      PidMember(s.x, i);
    }
    forall i | 0 <= i < |s.y|
      ensures s.y[i].pid != s.was.pid
    {
      PidMember(s.y, i);
    }
  }

  lemma LinkedAfter(a: Pages, b: Pages, s: Site, i: nat)
    requires SiteOk(s) && Relinked(a, b, s) && Chain(a, LeavesBefore(s))
    requires forall i | 0 <= i < |s.x| :: s.x[i].pid != s.was.pid
    requires forall i | 0 <= i < |s.y| :: s.y[i].pid != s.was.pid
    requires i < |LeavesAfter(s)|
    ensures Linked(b, LeavesAfter(s), i)
  {
    var n, m := |s.x|, |s.now|;
    if i < n {
      assert Linked(a, LeavesBefore(s), i);
      assert SameLink(a, b, s.x[i].pid);
    } else if i < n + m {
      assert Linked(a, LeavesBefore(s), n);
    } else {
      assert Linked(a, LeavesBefore(s), i - m + 1);
      assert SameLink(a, b, s.y[i - n - m].pid);
    }
  }

  lemma ChainAfter(a: Pages, b: Pages, s: Site)
    requires SiteOk(s) && Relinked(a, b, s)
    requires Chain(a, LeavesBefore(s)) && AtMostOnce(PidsAll(LeavesBefore(s)))
    ensures Chain(b, LeavesAfter(s))
  {
    OtherLeaves(s);
    forall i | 0 <= i < |LeavesAfter(s)|
      ensures Linked(b, LeavesAfter(s), i)
    {
      LinkedAfter(a, b, s, i);
    }
  }

  /** Links to and from leaves are untouched by writing internal nodes. */
  lemma RelinkedThroughInner(a: Pages, b: Pages, c: Pages, s: Site, inner: multiset<PageID>)
    requires |s.now| > 0 && Relinked(a, b, s)
    requires forall p | p in b && p !in inner :: p in c && c[p] == b[p]
    requires forall p | p in inner && p in b :: b[p].InnerNode?
    ensures Relinked(a, c, s)
  {
    forall p | p in a && a[p].LeafNode? && p != s.was.pid
      ensures SameLink(a, c, p)
    {
      assert SameLink(a, b, p);
    }
  }

  // ---------------------------------------------------------------- one page at a time

  lemma SpliceAscending(keys: seq<Key>, i: nat, k: Key, lo: Bound, hi: Bound)
    requires i <= |keys| && Ascending(keys)
    requires forall j | 0 <= j < |keys| :: In(keys[j], lo, hi)
    requires In(k, lo, hi)
    requires forall j | 0 <= j < i :: Less(keys[j], k)
    requires forall j | i <= j < |keys| :: Less(k, keys[j])
    ensures Ascending(keys[..i] + [k] + keys[i..])
    ensures forall j | 0 <= j <= |keys| :: In((keys[..i] + [k] + keys[i..])[j], lo, hi)
  {
  }

  lemma SplitBounds(keys: seq<Key>, mid: nat, lo: Bound, hi: Bound)
    requires 0 < mid < |keys| && Ascending(keys)
    requires forall j | 0 <= j < |keys| :: In(keys[j], lo, hi)
    ensures Ascending(keys[..mid]) && Ascending(keys[mid..]) && Ascending(keys[mid + 1..])
    ensures forall j | 0 <= j < mid :: In(keys[j], lo, At(keys[mid]))
    ensures forall j | mid <= j < |keys| :: In(keys[j], At(keys[mid]), hi)
    ensures lo.At? ==> Less(lo.key, keys[mid])
  {
    StrictTotalOrder();
    assert In(keys[0], lo, hi);
  }

  /** Keys of kid `i` all sort after separator i-1 and before separator i, so a key that routes to
      kid `i` can only be there. */
  predicate Routes(keys: seq<Key>, k: Key, i: nat) {
    && i <= |keys|
    && (forall j | 0 <= j < i :: !Less(k, keys[j]))
    && (i < |keys| ==> Less(k, keys[i]))
  }

  lemma RouteIn(keys: seq<Key>, k: Key, i: nat, lo: Bound, hi: Bound)
    requires Routes(keys, k, i) && In(k, lo, hi)
    ensures In(k, LowOf(keys, lo, i), HighOf(keys, hi, i))
  {
  }

  /** A split kid: `l` and `r` replace kid `i`, with `sk` between them. */
  lemma SpliceKids(keys: seq<Key>, kids: seq<Tree>, h: nat, lo: Bound, hi: Bound,
                   i: nat, sk: Key, l: Tree, r: Tree)
    requires InnerShape(keys, kids, h, lo, hi) && i <= |keys|
    requires WellFormed(l, h, LowOf(keys, lo, i), At(sk), false)
    requires WellFormed(r, h, At(sk), HighOf(keys, hi, i), false)
    requires In(sk, LowOf(keys, lo, i), HighOf(keys, hi, i))
    requires LowOf(keys, lo, i).At? ==> Less(LowOf(keys, lo, i).key, sk)
    ensures InnerShape(keys[..i] + [sk] + keys[i..], kids[..i] + [l, r] + kids[i + 1..], h, lo, hi)
  {
    var keys', kids' := keys[..i] + [sk] + keys[i..], kids[..i] + [l, r] + kids[i + 1..];
    SpliceBetween(keys, i, sk, lo, hi);
    SpliceAscending(keys, i, sk, lo, hi);
    forall j | 0 <= j < |kids'|
      ensures WellFormed(kids'[j], h, LowOf(keys', lo, j), HighOf(keys', hi, j), false)
    {
      if j < i {
        assert WellFormed(kids[j], h, LowOf(keys, lo, j), HighOf(keys, hi, j), false);
      } else if j > i + 1 {
        assert kids'[j] == kids[j - 1];
        assert WellFormed(kids[j - 1], h, LowOf(keys, lo, j - 1), HighOf(keys, hi, j - 1), false);
      }
    }
  }

  lemma SpliceBetween(keys: seq<Key>, i: nat, sk: Key, lo: Bound, hi: Bound)
    requires Ascending(keys) && i <= |keys|
    requires forall j | 0 <= j < |keys| :: In(keys[j], lo, hi)
    requires In(sk, LowOf(keys, lo, i), HighOf(keys, hi, i))
    requires LowOf(keys, lo, i).At? ==> Less(LowOf(keys, lo, i).key, sk)
    ensures In(sk, lo, hi)
    ensures forall j | 0 <= j < i :: Less(keys[j], sk)
    ensures forall j | i <= j < |keys| :: Less(sk, keys[j])
  {
    StrictTotalOrder();
    if i > 0 {
      assert In(keys[i - 1], lo, hi);
    }
    if i < |keys| {
      assert In(keys[i], lo, hi);
    }
  }

  lemma SplitKids(keys: seq<Key>, kids: seq<Tree>, h: nat, lo: Bound, hi: Bound, mid: nat)
    requires InnerShape(keys, kids, h, lo, hi) && 0 < mid < |keys|
    ensures InnerShape(keys[..mid], kids[..mid + 1], h, lo, At(keys[mid]))
    ensures InnerShape(keys[mid + 1..], kids[mid + 1..], h, At(keys[mid]), hi)
    ensures In(keys[mid], lo, hi)
    ensures lo.At? ==> Less(lo.key, keys[mid])
  {
    SplitBounds(keys, mid, lo, hi);
    var left, right := keys[..mid], keys[mid + 1..];
    forall j | 0 <= j <= mid
      ensures WellFormed(kids[..mid + 1][j], h, LowOf(left, lo, j), HighOf(left, At(keys[mid]), j), false)
    {
      assert WellFormed(kids[j], h, LowOf(keys, lo, j), HighOf(keys, hi, j), false);
    }
    forall j | 0 <= j < |kids[mid + 1..]|
      ensures WellFormed(kids[mid + 1..][j], h, LowOf(right, At(keys[mid]), j), HighOf(right, hi, j), false)
    {
      var n := mid + 1 + j;
      assert WellFormed(kids[n], h, LowOf(keys, lo, n), HighOf(keys, hi, n), false);
    }
  }

  lemma ReplaceKid(keys: seq<Key>, kids: seq<Tree>, h: nat, lo: Bound, hi: Bound, i: nat, l: Tree)
    requires InnerShape(keys, kids, h, lo, hi) && i <= |keys|
    requires WellFormed(l, h, LowOf(keys, lo, i), HighOf(keys, hi, i), false)
    ensures InnerShape(keys, kids[i := l], h, lo, hi)
  {
  }
}
