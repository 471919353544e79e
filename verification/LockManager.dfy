/** The lock queue object of one resource and the calls that work on it. */
module LockManager {
  import opened WalRecord
  import opened LockMode
  import opened LockQueue

  /** The lock held is weaker than the one asked for. */
  predicate Weaker(held: map<TxnID, Mode>, t: TxnID, mode: Mode) {
    t in held && Strength(held[t]) < Strength(mode)
  }

  /** `x` holds the lock in a mode that conflicts. */
  ghost predicate InTheWay(granted: seq<Request>, mode: Mode, x: TxnID) {
    exists i :: 0 <= i < |granted| && granted[i].txn == x && !Compatible(mode, granted[i].mode)
  }

  /** Dropping its own grants changes nothing about who else is in the way of `t`. */
  lemma OthersInTheWay(rs: seq<Request>, mode: Mode, t: TxnID, x: TxnID)
    requires x != t
    ensures InTheWay(Without(rs, t), mode, x) <==> InTheWay(rs, mode, x)
  {
    var w := Without(rs, t);
    WithoutMeans(rs, t);
    if InTheWay(w, mode, x) {
      var i :| 0 <= i < |w| && w[i].txn == x && !Compatible(mode, w[i].mode);
      assert w[i] in rs;
    }
    if InTheWay(rs, mode, x) {
      var i :| 0 <= i < |rs| && rs[i].txn == x && !Compatible(mode, rs[i].mode);
      assert rs[i] in w;
    }
  }

  class Queue {
    var granted: seq<Request>
    var waiting: seq<Request>
    var held: map<TxnID, Mode>
    var pending: map<TxnID, Request>
    var nextTicket: nat
    var closed: seq<nat>

    ghost function Now(): State
      reads this
    {
      State(granted, waiting, held, pending, nextTicket, closed)
    }

    constructor ()
      ensures Now() == Initial()
    {
      granted := [];
      waiting := [];
      held := map[];
      pending := map[];
      nextTicket := 0;
      closed := [];
    }

    /** No holder but `except` is in the way of `mode`. */
    method Grantable(mode: Mode, except: TxnID) returns (ok: bool)
      ensures ok == CanGrant(granted, mode, except)
    {
      for i := 0 to |granted|
        invariant forall j | 0 <= j < i && granted[j].txn != except :: Compatible(mode, granted[j].mode)
      {
        if granted[i].txn != except && !Compatible(mode, granted[i].mode) {
          return false;
        }
      }
      return true;
    }

    method RemoveGranted(t: TxnID) returns (found: bool)
      modifies this`granted
      ensures granted == Without(old(granted), t)
      ensures found <==> exists i :: 0 <= i < |old(granted)| && old(granted)[i].txn == t
    {
      var kept: seq<Request> := [];
      found := false;
      var i := 0;
      while i < |granted|
        invariant 0 <= i <= |granted| && granted == old(granted)
        invariant kept == Without(granted[..i], t)
        invariant found <==> exists j :: 0 <= j < i && granted[j].txn == t
      {
        assert granted[..i + 1][..i] == granted[..i];
        if granted[i].txn == t {
          found := true;
        } else {
          kept := kept + [granted[i]];
        }
        i := i + 1;
      }
      assert granted[..i] == granted;
      granted := kept;
    }

    method RemoveWaiting(t: TxnID) returns (found: bool)
      modifies this`waiting
      ensures waiting == WithoutFirst(old(waiting), t)
      ensures found <==> exists i :: 0 <= i < |old(waiting)| && old(waiting)[i].txn == t
    {
      var i := 0;
      while i < |waiting|
        invariant 0 <= i <= |waiting| && waiting == old(waiting)
        invariant forall j | 0 <= j < i :: waiting[j].txn != t
      {
        if waiting[i].txn == t {
          FirstRemoved(waiting, i, t);
          waiting := waiting[..i] + waiting[i + 1..];
          return true;
        }
        i := i + 1;
      }
      NoneRemoved(waiting, t);
      return false;
    }

    /** Grant in arrival order; stop at the first request the dominant mode does not let in. */
    method GrantWaiters()
      modifies this`granted, this`waiting, this`closed
      ensures Lists(granted, waiting, closed) == Grants(old(Lists(granted, waiting, closed)))
    {
      var currentMode := NL;
      var k := 0;
      while k < |granted|
        invariant 0 <= k <= |granted| && currentMode == Dominant(granted[..k])
      {
        assert granted[..k + 1][..k] == granted[..k];
        currentMode := DominantMode(currentMode, granted[k].mode);
        k := k + 1;
      }
      assert granted[..k] == granted;
      var i := 0;
      assert waiting[0..] == waiting;
      while i < |waiting| && Compatible(waiting[i].mode, currentMode)
        invariant 0 <= i <= |waiting| && waiting == old(waiting) && currentMode == Dominant(granted)
        invariant Grants(Lists(granted, waiting[i..], closed)) == Grants(old(Lists(granted, waiting, closed)))
      {
        var req := waiting[i];
        assert waiting[i..][1..] == waiting[i + 1..];
        assert (granted + [req])[..|granted|] == granted;
        granted := granted + [req];
        currentMode := DominantMode(currentMode, req.mode);
        closed := closed + [req.ticket];
        i := i + 1;
      }
      waiting := waiting[i..];
    }

    /** The other holders that `mode` conflicts with, each once. */
    method ConflictingTxns(mode: Mode, requester: TxnID) returns (ids: seq<TxnID>)
      ensures forall id :: id in ids <==> id != requester && InTheWay(granted, mode, id)
      ensures forall i, j | 0 <= i < j < |ids| :: ids[i] != ids[j]
      ensures ids == [] <==> CanGrant(granted, mode, requester)
    {
      ids := [];
      var seen: set<TxnID> := {};
      var k := 0;
      while k < |granted|
        invariant 0 <= k <= |granted| && forall id :: id in seen <==> id in ids
        invariant forall id :: id in ids <==>
                    exists i :: 0 <= i < k && granted[i].txn == id != requester && !Compatible(mode, granted[i].mode)
        invariant forall i, j | 0 <= i < j < |ids| :: ids[i] != ids[j]
      {
        var g := granted[k];
        if g.txn != requester && !Compatible(mode, g.mode) && g.txn !in seen {
          ids := ids + [g.txn];
          seen := seen + {g.txn};
        }
        k := k + 1;
      }
      if ids != [] {
        assert ids[0] in ids;
      }
      if i :| 0 <= i < |granted| && granted[i].txn != requester && !Compatible(mode, granted[i].mode) {
        assert granted[i].txn in ids;
      }
    }

    /** Ask for `mode`: answered at once, or queued behind everyone else. */
    method AcquireLock(t: TxnID, mode: Mode) returns (immediate: bool, conflictors: seq<TxnID>)
      requires Enabled(Now(), Acquire(t, mode))
      modifies this
      ensures Now() == Apply(old(Now()), Acquire(t, mode))
      ensures immediate <==> t !in pending
      ensures immediate ==> conflictors == []
      ensures !immediate ==> conflictors != [] && t !in conflictors
      ensures !immediate ==> forall x :: x in conflictors <==> x != t && InTheWay(old(granted), mode, x)
    {
      conflictors := [];
      if t in held && Strength(held[t]) >= Strength(mode) {
        return true, conflictors;
      }
      if Weaker(held, t, mode) {
        var _ := RemoveGranted(t);
        held := held - {t};
      }
      var ok := Grantable(mode, t);
      var req := Request(t, mode, nextTicket);
      if ok {
        nextTicket := nextTicket + 1;
        granted := granted + [req];
        held := held[t := mode];
        return true, conflictors;
      }
      conflictors := ConflictingTxns(mode, t);
      forall x | x != t
        ensures InTheWay(granted, mode, x) <==> InTheWay(old(granted), mode, x)
      {
        OthersInTheWay(old(granted), mode, t, x);
      }
      nextTicket := nextTicket + 1;
      // Upgrades are to go to the front; but the held mode was dropped above, so none does.
      assert !Weaker(held, t, mode);
      waiting := if Weaker(held, t, mode) then [req] + waiting else waiting + [req];
      pending := pending[t := req];
      immediate := false;
    }

    /** The blocked transaction finds its grant channel closed. */
    method WakeUp(t: TxnID)
      requires Enabled(Now(), Wake(t))
      modifies this
      ensures Now() == Apply(old(Now()), Wake(t))
    {
      held := held[t := pending[t].mode];
      pending := pending - {t};
    }

    /** It is aborted, cancelled or timed out instead, whether the grant came in the meantime or not. */
    method GiveUp(t: TxnID)
      requires Enabled(Now(), Cancel(t))
      modifies this
      ensures Now() == Apply(old(Now()), Cancel(t))
    {
      var _ := RemoveWaiting(t);
      var _ := RemoveGranted(t);
      GrantWaiters();
      pending := pending - {t};
    }

    method ReleaseLock(t: TxnID)
      requires Enabled(Now(), Release(t))
      modifies this
      ensures Now() == Apply(old(Now()), Release(t))
    {
      var _ := RemoveGranted(t);
      GrantWaiters();
      held := held - {t};
      assert Now() == Regranted(old(Now()), Without(old(granted), t), old(waiting)).(held := old(held) - {t});
    }
  }

  lemma {:induction false} FirstRemoved(rs: seq<Request>, i: nat, t: TxnID)
    requires i < |rs| && rs[i].txn == t && forall j | 0 <= j < i :: rs[j].txn != t
    ensures WithoutFirst(rs, t) == rs[..i] + rs[i + 1..]
    decreases i
  {
    if i > 0 {
      FirstRemoved(rs[1..], i - 1, t);
      assert [rs[0]] + rs[1..][..i - 1] == rs[..i];
      assert rs[1..][i..] == rs[i + 1..];
    }
  }

  lemma {:induction false} NoneRemoved(rs: seq<Request>, t: TxnID)
    requires forall j | 0 <= j < |rs| :: rs[j].txn != t
    ensures WithoutFirst(rs, t) == rs
  {
    if rs != [] {
      NoneRemoved(rs[1..], t);
    }
  }
}
