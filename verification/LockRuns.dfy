/** Whole runs of one lock queue: safety, no lost wake-up on row locks, and arrival order. */
module LockRuns {
  import opened WalRecord
  import opened LockMode
  import opened LockQueue

  /** Whoever is first in line has a reason to wait. */
  ghost predicate Blocked(s: State) {
    HeadBlocked(s.granted, s.waiting)
  }

  // ---------------------------------------------------------------- upgrades and lost wake-ups

  lemma ConflictWithout(rs: seq<Request>, t: TxnID, m: Mode)
    ensures Conflicting(Without(rs, t), m) <==>
              exists i :: 0 <= i < |rs| && rs[i].txn != t && !Compatible(m, rs[i].mode)
    ensures CanGrant(Without(rs, t), m, t) <==> !Conflicting(Without(rs, t), m)
  {
    WithoutMeans(rs, t);
    var w := Without(rs, t);
    if Conflicting(w, m) {
      var i :| 0 <= i < |w| && !Compatible(m, w[i].mode);
      assert w[i] in rs && w[i].txn != t;
    }
    if i :| 0 <= i < |rs| && rs[i].txn != t && !Compatible(m, rs[i].mode) {
      assert rs[i] in w;
    }
    forall i | 0 <= i < |w|
      ensures w[i].txn != t
    {
      assert w[i] in w;
    }
  }

  /** The guard of the failing case: an upgrade that takes away the only holder the first in line
      waits for and does not come back in a mode that stops it. */
  ghost predicate UnblocksHead(s: State, t: TxnID, mode: Mode) {
    && s.waiting != [] && Upgrade(s, t, mode)
    && !Conflicting(Without(s.granted, t), s.waiting[0].mode)
    && (CanGrant(Without(s.granted, t), mode, t) ==> Compatible(s.waiting[0].mode, mode))
  }

  lemma ConflictMore(granted: seq<Request>, r: Request, m: Mode)
    ensures Conflicting(granted + [r], m) <==> Conflicting(granted, m) || !Compatible(m, r.mode)
  {
    if Conflicting(granted, m) {
      var i :| 0 <= i < |granted| && !Compatible(m, granted[i].mode);
      assert (granted + [r])[i] == granted[i];
    }
    if !Compatible(m, r.mode) {
      assert (granted + [r])[|granted|] == r;
    }
  }

  lemma RequestBlocks(d: State, t: TxnID, mode: Mode)
    requires forall i | 0 <= i < |d.granted| :: d.granted[i].txn != t
    ensures Blocked(Requested(d, t, mode)) <==>
              || d.waiting == []
              || Conflicting(d.granted, d.waiting[0].mode)
              || (CanGrant(d.granted, mode, t) && !Compatible(d.waiting[0].mode, mode))
  {
    var req := Request(t, mode, d.nextTicket);
    if d.waiting != [] {
      ConflictMore(d.granted, req, d.waiting[0].mode);
    }
  }

  /** An acquire leaves the first in line without a reason to wait exactly in that case. */
  lemma AcquireBlocksExactly(s: State, t: TxnID, mode: Mode)
    requires Inv(s) && Blocked(s) && Enabled(s, Acquire(t, mode))
    ensures Blocked(Apply(s, Acquire(t, mode))) <==> !UnblocksHead(s, t, mode)
  {
    if !Suffices(s, t, mode) {
      DroppedKeeps(s, t, mode);
      var d := Dropped(s, t, mode);
      NoGrant(d, t);
      RequestBlocks(d, t, mode);
      if !Upgrade(s, t, mode) {
        assert d == s;
      }
    }
  }

  // ---------------------------------------------------------------- shared and exclusive locks only

  predicate RowMode(m: Mode) {
    m == S || m == X
  }

  /** Only S and X have been asked for, as on rows and gaps. */
  ghost predicate RowLocks(s: State) {
    && (forall r | r in s.granted + s.waiting :: RowMode(r.mode))
    && (forall t | t in s.held :: RowMode(s.held[t]))
    && (forall t | t in s.pending :: RowMode(s.pending[t].mode))
  }

  ghost predicate RowStep(step: Step) {
    step.Acquire? ==> RowMode(step.mode)
  }

  lemma RowUpgradeBlocks(s: State, t: TxnID)
    requires Inv(s) && Blocked(s) && RowLocks(s) && t !in s.pending
    ensures !UnblocksHead(s, t, X)
  {
    if s.waiting != [] && Upgrade(s, t, X) {
      var head := s.waiting[0];
      assert head in s.granted + s.waiting && RowMode(head.mode);
      ConflictWithout(s.granted, t, head.mode);
      ConflictWithout(s.granted, t, X);
      if !Conflicting(Without(s.granted, t), head.mode) {
        NoOneElse(s, t, head.mode);
      }
    }
  }

  /** If the first in line waits for the upgrading reader alone, nobody else holds the lock. */
  lemma NoOneElse(s: State, t: TxnID, m: Mode)
    requires Inv(s) && RowLocks(s) && RowMode(m) && Conflicting(s.granted, m)
    requires Upgrade(s, t, X) && t !in s.pending && !Conflicting(Without(s.granted, t), m)
    ensures !Conflicting(Without(s.granted, t), X)
  {
    ConflictWithout(s.granted, t, m);
    ConflictWithout(s.granted, t, X);
    var i :| 0 <= i < |s.granted| && !Compatible(m, s.granted[i].mode);
    assert s.granted[i].txn == t && Holds(s, s.granted[i]);
    assert s.granted[i].mode == S && m == X;
    forall j | 0 <= j < |s.granted|
      ensures s.granted[j].txn == t
    {
      assert s.granted[j] in s.granted + s.waiting;
    }
  }

  lemma RowRequest(d: State, t: TxnID, mode: Mode)
    requires RowLocks(d) && RowMode(mode)
    ensures RowLocks(Requested(d, t, mode))
  {
    var s' := Requested(d, t, mode);
    forall r | r in s'.granted + s'.waiting
      ensures RowMode(r.mode)
    {
      assert r in d.granted + d.waiting || r == Request(t, mode, d.nextTicket);
    }
  }

  lemma RowAcquire(s: State, t: TxnID, mode: Mode)
    requires RowLocks(s) && RowMode(mode)
    ensures RowLocks(AfterAcquire(s, t, mode))
  {
    var d := Dropped(s, t, mode);
    WithoutMeans(s.granted, t);
    forall r | r in d.granted + d.waiting
      ensures RowMode(r.mode)
    {
      assert r in s.granted + s.waiting;
    }
    RowRequest(d, t, mode);
  }

  lemma RowLocksKept(s: State, step: Step)
    requires Inv(s) && Enabled(s, step) && RowLocks(s) && RowStep(step)
    ensures RowLocks(Apply(s, step))
  {
    match step {
      case Acquire(t, mode) => RowAcquire(s, t, mode);
      case Wake(t) =>
      case Cancel(t) => RowRegrant(s, t, WithoutFirst(s.waiting, t));
      case Release(t) => RowRegrant(s, t, s.waiting);
    }
  }

  lemma RowRegrant(s: State, t: TxnID, waiting: seq<Request>)
    requires Inv(s) && RowLocks(s) && (waiting == s.waiting || waiting == WithoutFirst(s.waiting, t))
    ensures var s' := Regranted(s, Without(s.granted, t), waiting);
            forall r | r in s'.granted + s'.waiting :: RowMode(r.mode)
  {
    WithoutMeans(s.granted, t);
    WithoutFirstMembers(s.waiting, t);
    ShorterOk(s, t, waiting);
    RegrantKeeps(s, Without(s.granted, t), waiting);
    var s' := Regranted(s, Without(s.granted, t), waiting);
    forall r | r in s'.granted + s'.waiting
      ensures RowMode(r.mode)
    {
      assert r in s.granted + s.waiting;
    }
  }

  /** On rows and gaps no step loses a wake-up. */
  lemma RowStepBlocks(s: State, step: Step)
    requires Inv(s) && Blocked(s) && RowLocks(s) && Enabled(s, step) && RowStep(step)
    ensures Blocked(Apply(s, step))
  {
    match step {
      case Acquire(t, mode) =>
        AcquireBlocksExactly(s, t, mode);
        if Upgrade(s, t, mode) {
          assert mode == X;
          RowUpgradeBlocks(s, t);
        }
      case Wake(t) =>
      case Cancel(t) => CancelKeeps(s, t);
      case Release(t) => ReleaseKeeps(s, t);
    }
  }

  // ---------------------------------------------------------------- runs

  function After(steps: seq<Step>): State {
    if steps == [] then Initial()
    else
      var before, step := After(steps[..|steps| - 1]), steps[|steps| - 1];
      if Enabled(before, step) then Apply(before, step) else before
  }

  ghost predicate StepOk(steps: seq<Step>, i: nat)
    requires i < |steps|
  {
    Enabled(After(steps[..i]), steps[i])
  }

  ghost predicate Run(steps: seq<Step>) {
    forall i: nat | i < |steps| :: StepOk(steps, i)
  }

  lemma RunShorter(steps: seq<Step>)
    requires Run(steps) && steps != []
    ensures Run(steps[..|steps| - 1])
    ensures Enabled(After(steps[..|steps| - 1]), steps[|steps| - 1])
  {
    var front := steps[..|steps| - 1];
    forall i: nat | i < |front|
      ensures StepOk(front, i)
    {
      assert StepOk(steps, i);
      assert front[..i] == steps[..i];
    }
    assert StepOk(steps, |steps| - 1);
  }

  /** Lock safety: in every reachable state holders are different transactions and pairwise
      compatible; grant channels are closed in order of arrival and each at most once. */
  lemma {:induction false} LockSafety(steps: seq<Step>)
    requires Run(steps)
    ensures Inv(After(steps))
    ensures PairwiseCompatible(After(steps).granted) && ClosedInOrder(After(steps).closed, After(steps).waiting)
  {
    if steps != [] {
      RunShorter(steps);
      LockSafety(steps[..|steps| - 1]);
      InvKept(After(steps[..|steps| - 1]), steps[|steps| - 1]);
    }
  }

  /** No lost wake-up: on a queue where only S and X are asked for, whenever somebody waits the first
      in line conflicts with a holder. */
  lemma {:induction false} NoLostWakeup(steps: seq<Step>)
    requires Run(steps) && forall i | 0 <= i < |steps| :: RowStep(steps[i])
    ensures Blocked(After(steps)) && RowLocks(After(steps))
  {
    if steps != [] {
      RunShorter(steps);
      NoLostWakeup(steps[..|steps| - 1]);
      LockSafety(steps[..|steps| - 1]);
      RowStepBlocks(After(steps[..|steps| - 1]), steps[|steps| - 1]);
      RowLocksKept(After(steps[..|steps| - 1]), steps[|steps| - 1]);
    }
  }

  /** 1 holds IX and 2 holds IS; 3 waits for S because of 1. */
  function ReaderWaits(): State {
    State([Request(1, IX, 0), Request(2, IS, 1)], [Request(3, S, 2)],
          map[1 := IX, 2 := IS], map[3 := Request(3, S, 2)], 3, [])
  }

  lemma ReaderWaitsReached()
    ensures Run([Acquire(1, IX), Acquire(2, IS), Acquire(3, S)])
    ensures After([Acquire(1, IX), Acquire(2, IS), Acquire(3, S)]) == ReaderWaits()
  {
    var a, b, c := Acquire(1, IX), Acquire(2, IS), Acquire(3, S);
    var s1 := Apply(Initial(), a);
    assert s1 == State([Request(1, IX, 0)], [], map[1 := IX], map[], 1, []);
    var s2 := Apply(s1, b);
    assert s2 == State([Request(1, IX, 0), Request(2, IS, 1)], [], map[1 := IX, 2 := IS], map[], 2, []);
    assert !CanGrant(s2.granted, S, 3) by {
      assert s2.granted[0].mode == IX;
    }
    ThreeSteps(a, b, c);
  }

  /** With all modes a wake-up can be lost: when 1 now asks for X it gives up its IX, and 3 is left
      waiting for a lock it could share. */
  lemma WakeupLost()
    ensures var s := After([Acquire(1, IX), Acquire(2, IS), Acquire(3, S)]);
            && Run([Acquire(1, IX), Acquire(2, IS), Acquire(3, S)])
            && Blocked(s) && UnblocksHead(s, 1, X) && Enabled(s, Acquire(1, X))
            && !Blocked(Apply(s, Acquire(1, X)))
  {
    ReaderWaitsReached();
    LockSafety([Acquire(1, IX), Acquire(2, IS), Acquire(3, S)]);
    ReaderLeftWaiting();
  }

  /** An upgrade that has to wait is last in line: it is first exactly if nobody was waiting, although
      upgrades are meant to go to the front. */
  lemma UpgradeWaitsLast(s: State, t: TxnID, mode: Mode)
    requires Inv(s) && Enabled(s, Acquire(t, mode)) && Upgrade(s, t, mode)
    ensures var s' := Apply(s, Acquire(t, mode));
            t in s'.pending <==> exists i :: 0 <= i < |s.granted| && s.granted[i].txn != t && !Compatible(mode, s.granted[i].mode)
    ensures var s' := Apply(s, Acquire(t, mode));
            t in s'.pending ==>
              && s'.waiting == s.waiting + [s'.pending[t]] && s'.pending[t].txn == t
              && (s'.waiting[0].txn == t <==> s.waiting == [])
  {
    ConflictWithout(s.granted, t, mode);
    var s' := Apply(s, Acquire(t, mode));
    if t in s'.pending && s.waiting != [] {
      assert Queued(s, s.waiting[0]);
    }
  }

  /** Reached: 3 was waiting, so the upgrade of 1 comes second. */
  lemma UpgradeComesSecond()
    ensures var s := After([Acquire(1, IX), Acquire(2, IS), Acquire(3, S)]);
            && Run([Acquire(1, IX), Acquire(2, IS), Acquire(3, S)])
            && Enabled(s, Acquire(1, X)) && Upgrade(s, 1, X)
            && Apply(s, Acquire(1, X)).waiting == [Request(3, S, 2), Request(1, X, 3)]
  {
    ReaderWaitsReached();
    LockSafety([Acquire(1, IX), Acquire(2, IS), Acquire(3, S)]);
    BehindReader();
  }

  lemma BehindReader()
    requires Inv(ReaderWaits())
    ensures Upgrade(ReaderWaits(), 1, X)
    ensures Apply(ReaderWaits(), Acquire(1, X)).waiting == [Request(3, S, 2), Request(1, X, 3)]
  {
    var s := ReaderWaits();
    assert s.granted[1].txn == 2 && !Compatible(X, s.granted[1].mode);
    UpgradeWaitsLast(s, 1, X);
  }

  // ---------------------------------------------------------------- held modes that fall short

  /** Whoever the lock `h` lets in, `m` would let in too. */
  ghost predicate Covers(h: Mode, m: Mode) {
    forall o :: Compatible(o, h) ==> Compatible(o, m)
  }

  /** Pairs in which the mode counted as stronger does not exclude all that the weaker one does. */
  predicate FallsShort(h: Mode, m: Mode) {
    (m == IX && (h == S || h == U)) || (m == SIX && h == U)
  }

  lemma StrengthCoversExactly(h: Mode, m: Mode)
    requires Strength(h) >= Strength(m)
    ensures Covers(h, m) <==> !FallsShort(h, m)
  {
    if FallsShort(h, m) {
      assert Compatible(S, h) && !Compatible(S, m);
    }
  }

  /** An acquire answered at once leaves a lock that excludes all that the mode asked for excludes,
      except exactly when the transaction held a lock that counts as stronger and is not. */
  lemma AcquireCoversExactly(s: State, t: TxnID, mode: Mode)
    requires Enabled(s, Acquire(t, mode)) && t !in Apply(s, Acquire(t, mode)).pending
    ensures var s' := Apply(s, Acquire(t, mode));
            t in s'.held && (Covers(s'.held[t], mode) <==> !(t in s.held && FallsShort(s.held[t], mode)))
  {
    if Suffices(s, t, mode) {
      StrengthCoversExactly(s.held[t], mode);
    } else {
      assert t in s.held ==> !FallsShort(s.held[t], mode);
    }
  }

  /** Reached: 1 holds S and was told it has IX too, as after a full scan and a write; 2 gets S. */
  lemma IntentionMissed()
    ensures var steps := [Acquire(1, S), Acquire(1, IX), Acquire(2, S)];
            && Run(steps) && After(steps).held == map[1 := S, 2 := S] && After(steps).pending == map[]
            && !Compatible(IX, S)
  {
    var s := FirstShared();
    SharedTwice(s);
    ThreeSteps(Acquire(1, S), Acquire(1, IX), Acquire(2, S));
  }

  lemma FirstShared() returns (s: State)
    ensures s == Apply(Initial(), Acquire(1, S)) == State([Request(1, S, 0)], [], map[1 := S], map[], 1, [])
  {
    s := Apply(Initial(), Acquire(1, S));
  }

  lemma SharedTwice(s: State)
    requires s.granted == [Request(1, S, 0)] && s.waiting == [] && s.held == map[1 := S] && s.pending == map[]
    ensures Enabled(s, Acquire(1, IX)) && Apply(s, Acquire(1, IX)) == s && Enabled(s, Acquire(2, S))
    ensures Apply(s, Acquire(2, S)).held == map[1 := S, 2 := S] && Apply(s, Acquire(2, S)).pending == map[]
  {
    assert Suffices(s, 1, IX) && !Suffices(s, 2, S) && !Upgrade(s, 2, S);
    assert CanGrant(s.granted, S, 2);
  }

  lemma ReaderLeftWaiting()
    requires Inv(ReaderWaits())
    ensures var s := ReaderWaits();
            Blocked(s) && UnblocksHead(s, 1, X) && !Blocked(Apply(s, Acquire(1, X)))
  {
    var s := ReaderWaits();
    assert s.granted[0].mode == IX && s.granted[1].mode == IS && s.granted[1].txn == 2;
    ConflictWithout(s.granted, 1, S);
    ConflictWithout(s.granted, 1, X);
    AcquireBlocksExactly(s, 1, X);
  }

  lemma ThreeSteps(a: Step, b: Step, c: Step)
    requires Enabled(Initial(), a) && Enabled(Apply(Initial(), a), b)
    requires Enabled(Apply(Apply(Initial(), a), b), c)
    ensures Run([a, b, c]) && After([a, b, c]) == Apply(Apply(Apply(Initial(), a), b), c)
  {
    var steps := [a, b, c];
    assert steps[..0] == [] && steps[..1] == [a] && steps[..2] == [a, b] && [a, b, c][..2] == [a, b];
    assert [a][..0] == [] && [a, b][..1] == [a];
    assert After([a]) == Apply(Initial(), a);
    assert After([a, b]) == Apply(After([a]), b);
    assert StepOk(steps, 0) && StepOk(steps, 1) && StepOk(steps, 2);
  }
}
