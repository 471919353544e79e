/** The locks a range scan and an insert take on rows and on the gaps between them. */
module GapLock {
  import opened KeyOrder
  import opened LockMode

  /** Lockable parts of one table; a gap is named by the keys around it. */
  datatype Resource = WholeTable | RowOf(key: Key) | Gap(lo: Key, hi: Key)

  datatype LockCall = LockCall(res: Resource, mode: Mode)

  datatype Locking = Locked(calls: seq<LockCall>) | UnsafeKey(table: LockCall)

  const NO_KEY: Key := []
  const INFINITY: Key := [255, 255, 255, 255]

  predicate AtMost(a: Key, b: Key) {
    !Less(b, a)
  }

  /** Inside the scanned range; an empty bound is open. */
  predicate InRange(k: Key, lo: Key, hi: Key) {
    (lo == NO_KEY || AtMost(lo, k)) && (hi == NO_KEY || AtMost(k, hi))
  }

  predicate GapSafe(k: Key) {
    forall i | 0 <= i < |k| :: 0x20 <= k[i] <= 0x7E
  }

  // ---------------------------------------------------------------- where a key falls

  /** The number of keys below `x`. */
  function Rank(keys: seq<Key>, x: Key): (n: nat)
    ensures n <= |keys| && (forall i | 0 <= i < n :: Less(keys[i], x)) && (n < |keys| ==> !Less(keys[n], x))
  {
    if keys == [] || !Less(keys[0], x) then 0 else 1 + Rank(keys[1..], x)
  }

  /** The position of the first key above `x`. */
  function Above(keys: seq<Key>, x: Key): (n: nat)
    ensures n <= |keys| && (forall i | 0 <= i < n :: AtMost(keys[i], x)) && (n < |keys| ==> Less(x, keys[n]))
  {
    if keys == [] || Less(x, keys[0]) then 0 else 1 + Above(keys[1..], x)
  }

  function Before(keys: seq<Key>, i: nat): Key
    requires i <= |keys|
  {
    if i == 0 then NO_KEY else keys[i - 1]
  }

  function KeyOrInfinity(keys: seq<Key>, i: nat): Key {
    if i < |keys| then keys[i] else INFINITY
  }

  /** The gap an insert of `x` locks. */
  function GapAround(keys: seq<Key>, x: Key): Resource {
    Gap(Before(keys, Rank(keys, x)), KeyOrInfinity(keys, Above(keys, x)))
  }

  /** Keys the scan has passed by the time it reaches its end: those below the range or in it. */
  predicate Passed(k: Key, lo: Key, hi: Key) {
    (lo != NO_KEY && Less(k, lo)) || hi == NO_KEY || AtMost(k, hi)
  }

  function PassedCount(keys: seq<Key>, lo: Key, hi: Key): (n: nat)
    ensures n <= |keys| && (forall i | 0 <= i < n :: Passed(keys[i], lo, hi)) && (n < |keys| ==> !Passed(keys[n], lo, hi))
  {
    if keys == [] || !Passed(keys[0], lo, hi) then 0 else 1 + PassedCount(keys[1..], lo, hi)
  }

  lemma PassedExactly(keys: seq<Key>, lo: Key, hi: Key, i: nat)
    requires Ascending(keys) && i < |keys|
    ensures Passed(keys[i], lo, hi) <==> i < PassedCount(keys, lo, hi)
  {
    StrictTotalOrder();
  }

  /** The gap the scan locks last. */
  function TrailingGap(keys: seq<Key>, lo: Key, hi: Key): Resource {
    Gap(Before(keys, PassedCount(keys, lo, hi)), if hi == NO_KEY then INFINITY else KeyOrInfinity(keys, Above(keys, hi)))
  }

  function GapBelow(keys: seq<Key>, i: nat): Resource
    requires i < |keys|
  {
    Gap(Before(keys, i), keys[i])
  }

  /** What the scan locks S: every row in range, the gap before each, and the trailing gap. */
  ghost predicate Scanned(keys: seq<Key>, lo: Key, hi: Key, res: Resource) {
    || res == TrailingGap(keys, lo, hi)
    || exists i: nat :: i < |keys| && InRange(keys[i], lo, hi) && (res == RowOf(keys[i]) || res == GapBelow(keys, i))
  }

  // ---------------------------------------------------------------- the calls

  /** The rows in range among the first `i` keys are locked, each with the gap below it. */
  ghost predicate Covers(calls: seq<LockCall>, keys: seq<Key>, lo: Key, hi: Key, i: nat)
    requires i <= |keys|
  {
    forall j: nat | j < i && InRange(keys[j], lo, hi) ::
      LockCall(RowOf(keys[j]), S) in calls && LockCall(GapBelow(keys, j), S) in calls
  }

  /** After the table lock come only locks the scan needs. */
  ghost predicate NoMore(calls: seq<LockCall>, keys: seq<Key>, lo: Key, hi: Key) {
    && calls != [] && calls[0] == LockCall(WholeTable, IS)
    && forall i | 1 <= i < |calls| :: calls[i].mode == S && Scanned(keys, lo, hi, calls[i].res)
  }

  lemma OneMoreRow(calls: seq<LockCall>, keys: seq<Key>, lo: Key, hi: Key, i: nat)
    requires i < |keys| && InRange(keys[i], lo, hi) && Covers(calls, keys, lo, hi, i) && NoMore(calls, keys, lo, hi)
    ensures var more := calls + [LockCall(GapBelow(keys, i), S), LockCall(RowOf(keys[i]), S)];
            Covers(more, keys, lo, hi, i + 1) && NoMore(more, keys, lo, hi)
  {
    var more := calls + [LockCall(GapBelow(keys, i), S), LockCall(RowOf(keys[i]), S)];
    assert more[|calls|] in more && more[|calls| + 1] in more;
    assert Scanned(keys, lo, hi, GapBelow(keys, i)) && Scanned(keys, lo, hi, RowOf(keys[i]));
  }

  /** Only rows in range are locked, only gaps without keys in them, and besides the trailing one only
      gaps below a row in range. */
  lemma ScannedMeans(keys: seq<Key>, lo: Key, hi: Key, res: Resource)
    requires Ascending(keys) && Scanned(keys, lo, hi, res)
    ensures res.RowOf? ==> res.key in keys && (lo == [] || !Less(res.key, lo)) && (hi == [] || !Less(hi, res.key))
    ensures res.Gap? ==> forall k | k in keys :: !(Less(res.lo, k) && Less(k, res.hi))
    ensures res.Gap? && res != TrailingGap(keys, lo, hi) ==>
              res.hi in keys && (lo == [] || !Less(res.hi, lo)) && (hi == [] || !Less(hi, res.hi))
  {
    StrictTotalOrder();
  }

  /** Walk the keys in order and lock the table, the rows in range and the gaps. */
  method LockForRangeScan(keys: seq<Key>, lo: Key, hi: Key) returns (calls: seq<LockCall>)
    requires Ascending(keys)
    ensures NoMore(calls, keys, lo, hi)
    ensures forall res | Scanned(keys, lo, hi, res) :: LockCall(res, S) in calls
  {
    calls := [LockCall(WholeTable, IS)];
    var prev := NO_KEY;
    ghost var p := PassedCount(keys, lo, hi);
    var i := 0;
    while i < |keys|
      invariant 0 <= i <= |keys| && prev == Before(keys, if i < p then i else p)
      invariant Covers(calls, keys, lo, hi, i) && NoMore(calls, keys, lo, hi)
    {
      var k := keys[i];
      PassedExactly(keys, lo, hi, i);
      if !InRange(k, lo, hi) {
        if lo != NO_KEY && Less(k, lo) {
          prev := k;
        }
      } else {
        OneMoreRow(calls, keys, lo, hi, i);
        calls := calls + [LockCall(Gap(prev, k), S), LockCall(RowOf(k), S)];
        prev := k;
      }
      i := i + 1;
    }
    var trailing := INFINITY;
    if hi != NO_KEY {
      trailing := FirstAbove(keys, hi);
    }
    TrailingRow(calls, keys, lo, hi);
    calls := calls + [LockCall(Gap(prev, trailing), S)];
  }

  method FirstAbove(keys: seq<Key>, hi: Key) returns (k: Key)
    ensures k == KeyOrInfinity(keys, Above(keys, hi))
  {
    for i := 0 to |keys|
      invariant forall j | 0 <= j < i :: AtMost(keys[j], hi)
    {
      if Less(hi, keys[i]) {
        AboveIs(keys, hi, i);
        return keys[i];
      }
    }
    AboveIs(keys, hi, |keys|);
    return INFINITY;
  }

  lemma TrailingRow(calls: seq<LockCall>, keys: seq<Key>, lo: Key, hi: Key)
    requires Covers(calls, keys, lo, hi, |keys|) && NoMore(calls, keys, lo, hi)
    ensures var all := calls + [LockCall(TrailingGap(keys, lo, hi), S)];
            NoMore(all, keys, lo, hi) && forall res | Scanned(keys, lo, hi, res) :: LockCall(res, S) in all
  {
    var all := calls + [LockCall(TrailingGap(keys, lo, hi), S)];
    assert all[|calls|] in all;
    forall res | Scanned(keys, lo, hi, res)
      ensures LockCall(res, S) in all
    {
      if res != TrailingGap(keys, lo, hi) {
        var i: nat :| i < |keys| && InRange(keys[i], lo, hi) && (res == RowOf(keys[i]) || res == GapBelow(keys, i));
        assert LockCall(RowOf(keys[i]), S) in calls && LockCall(GapBelow(keys, i), S) in calls;
      }
    }
  }

  /** Lock the table, the gap the key falls into, and the row. */
  method LockForInsert(keys: seq<Key>, key: Key) returns (res: Locking)
    requires Ascending(keys)
    ensures res.UnsafeKey? <==> exists i :: 0 <= i < |key| && !(0x20 <= key[i] <= 0x7E)
    ensures res == if GapSafe(key) then Locked([LockCall(WholeTable, IX), LockCall(GapAround(keys, key), X), LockCall(RowOf(key), X)])
                   else UnsafeKey(LockCall(WholeTable, IX))
  {
    var prev, next := NO_KEY, NO_KEY;
    var i := 0;
    while i < |keys| && next == NO_KEY
      invariant 0 <= i <= |keys|
      invariant next == NO_KEY ==> (forall j | 0 <= j < i :: AtMost(keys[j], key)) && prev == Before(keys, RankUpTo(keys, key, i))
      invariant next != NO_KEY ==> prev == Before(keys, Rank(keys, key)) && next == KeyOrInfinity(keys, Above(keys, key))
      decreases |keys| - i
    {
      var k := keys[i];
      StrictTotalOrder();
      if Less(k, key) {
        prev := k;
      } else if Less(key, k) && next == NO_KEY {
        next := k;
      }
      i := i + 1;
    }
    if next == NO_KEY {
      next := INFINITY;
    }
    if !GapSafe(key) {
      return UnsafeKey(LockCall(WholeTable, IX));
    }
    return Locked([LockCall(WholeTable, IX), LockCall(Gap(prev, next), X), LockCall(RowOf(key), X)]);
  }

  /** The number of keys below `x` among the first `i`. */
  ghost function RankUpTo(keys: seq<Key>, x: Key, i: nat): nat
    requires i <= |keys|
  {
    if Rank(keys, x) < i then Rank(keys, x) else i
  }

  // ---------------------------------------------------------------- scans and inserts meet

  /** An absent key in the range falls into a gap the scan locked. */
  lemma GapScanned(keys: seq<Key>, lo: Key, hi: Key, x: Key)
    requires Ascending(keys) && InRange(x, lo, hi) && x !in keys
    ensures Scanned(keys, lo, hi, GapAround(keys, x))
  {
    var n := Rank(keys, x);
    AbsentBetween(keys, x);
    StrictTotalOrder();
    if n < |keys| && InRange(keys[n], lo, hi) {
      assert GapAround(keys, x) == GapBelow(keys, n);
    } else {
      PassedIs(keys, lo, hi, n);
      if hi != NO_KEY {
        AboveIs(keys, hi, n);
      }
    }
  }

  lemma AbsentBetween(keys: seq<Key>, x: Key)
    requires Ascending(keys) && x !in keys
    ensures Above(keys, x) == Rank(keys, x)
    ensures forall i | Rank(keys, x) <= i < |keys| :: Less(x, keys[i])
  {
    var n := Rank(keys, x);
    StrictTotalOrder();
    forall i | n <= i < |keys|
      ensures Less(x, keys[i])
    {
      assert keys[i] in keys && keys[n] in keys;
    }
  }

  lemma PassedIs(keys: seq<Key>, lo: Key, hi: Key, n: nat)
    requires n <= |keys| && (forall i | 0 <= i < n :: Passed(keys[i], lo, hi)) && (n < |keys| ==> !Passed(keys[n], lo, hi))
    ensures PassedCount(keys, lo, hi) == n
  {
  }

  lemma AboveIs(keys: seq<Key>, x: Key, n: nat)
    requires n <= |keys| && (forall i | 0 <= i < n :: AtMost(keys[i], x)) && (n < |keys| ==> Less(x, keys[n]))
    ensures Above(keys, x) == n
  {
  }

  /** Phantom prevention: for any key in the range of a scan over the same keys, one of the two locks
      the insert takes exclusively is one the scan took shared, so they conflict. */
  lemma InsertMeetsScan(keys: seq<Key>, lo: Key, hi: Key, x: Key)
    requires Ascending(keys) && InRange(x, lo, hi)
    ensures Scanned(keys, lo, hi, GapAround(keys, x)) || Scanned(keys, lo, hi, RowOf(x))
    ensures !Compatible(X, S) && !Compatible(S, X)
  {
    if x in keys {
      var i :| 0 <= i < |keys| && keys[i] == x;
    } else {
      GapScanned(keys, lo, hi, x);
    }
  }

  // ---------------------------------------------------------------- when the table changes in between

  /** The gap an insert locks lies around its key. */
  lemma AroundKey(keys: seq<Key>, x: Key)
    requires GapSafe(x)
    ensures var g := GapAround(keys, x);
            (g.lo == NO_KEY || Less(g.lo, x)) && Less(x, g.hi)
  {
  }

  lemma RankIs(keys: seq<Key>, x: Key, n: nat)
    requires n <= |keys| && (forall i | 0 <= i < n :: Less(keys[i], x)) && (n < |keys| ==> !Less(keys[n], x))
    ensures Rank(keys, x) == n
  {
  }

  lemma BelowAll(keys: seq<Key>, x: Key, n: nat)
    requires Ascending(keys) && n <= |keys| && x !in keys && (Before(keys, n) == NO_KEY || Less(Before(keys, n), x))
    ensures forall i | 0 <= i < n :: Less(keys[i], x)
  {
    StrictTotalOrder();
    if n > 0 {
      assert keys[n - 1] in keys;
      assert Less(keys[n - 1], x);
    }
  }

  lemma ThatGap(keys: seq<Key>, x: Key, n: nat)
    requires Ascending(keys) && n <= |keys| && x !in keys && (Before(keys, n) == NO_KEY || Less(Before(keys, n), x))
    requires n < |keys| ==> Less(x, keys[n])
    ensures GapAround(keys, x) == Gap(Before(keys, n), KeyOrInfinity(keys, n))
  {
    StrictTotalOrder();
    BelowAll(keys, x, n);
    RankIs(keys, x, n);
    AboveIs(keys, x, n);
  }

  lemma TrailingAround(keys: seq<Key>, lo: Key, hi: Key, x: Key)
    requires Ascending(keys) && InRange(x, lo, hi) && x !in keys
    requires var a := TrailingGap(keys, lo, hi).lo; a == NO_KEY || Less(a, x)
    ensures TrailingGap(keys, lo, hi) == GapAround(keys, x)
  {
    StrictTotalOrder();
    var p := PassedCount(keys, lo, hi);
    ThatGap(keys, x, p);
    if hi != NO_KEY {
      AboveIs(keys, hi, p);
    }
  }

  /** The only scanned gap around an absent key is the one it falls into. */
  lemma ScannedAround(keys: seq<Key>, lo: Key, hi: Key, x: Key, g: Resource)
    requires Ascending(keys) && InRange(x, lo, hi) && x !in keys && g.Gap? && Scanned(keys, lo, hi, g)
    requires (g.lo == NO_KEY || Less(g.lo, x)) && Less(x, g.hi)
    ensures g == GapAround(keys, x)
  {
    if g == TrailingGap(keys, lo, hi) {
      TrailingAround(keys, lo, hi, x);
    } else {
      var i: nat :| i < |keys| && InRange(keys[i], lo, hi) && g == GapBelow(keys, i);
      ThatGap(keys, x, i);
    }
  }

  /** A scan over the keys `was` and an insert over the keys `now` conflict exactly when the scan
      locked the row itself or the gap the key falls into still has its name. */
  lemma LaterInsertMeetsScan(was: seq<Key>, now: seq<Key>, lo: Key, hi: Key, x: Key)
    requires Ascending(was) && Ascending(now) && InRange(x, lo, hi) && GapSafe(x)
    ensures Scanned(was, lo, hi, GapAround(now, x)) || Scanned(was, lo, hi, RowOf(x))
       <==> x in was || GapAround(now, x) == GapAround(was, x)
  {
    InsertMeetsScan(was, lo, hi, x);
    if x in was {
      var i :| 0 <= i < |was| && was[i] == x;
    } else {
      assert !Scanned(was, lo, hi, RowOf(x));
      AroundKey(now, x);
      if Scanned(was, lo, hi, GapAround(now, x)) {
        ScannedAround(was, lo, hi, x, GapAround(now, x));
      }
    }
  }

  /** Scan from "a" to "c" over "b" and "d", delete "d", insert "c": the insert meets no lock of the
      scan, though it goes into the range. */
  lemma PhantomSlipsIn()
    ensures var was, now, lo, hi: Key := [[0x62], [0x64]], [[0x62]], [0x61], [0x63];
            && Ascending(was) && Ascending(now) && InRange(hi, lo, hi) && GapSafe(hi)
            && !Scanned(was, lo, hi, GapAround(now, hi)) && !Scanned(was, lo, hi, RowOf(hi))
  {
    var was, now, lo, hi: Key := [[0x62], [0x64]], [[0x62]], [0x61], [0x63];
    LaterInsertMeetsScan(was, now, lo, hi, hi);
    ThatGap(was, hi, 1);
    ThatGap(now, hi, 1);
  }
}
