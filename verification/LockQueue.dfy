/** The lock queue of one resource: acquire, wake-up, cancel and release as atomic steps. */
module LockQueue {
  import opened WalRecord
  import opened LockMode

  /** `ticket` numbers the requests in order of arrival; it stands for the request's grant channel. */
  datatype Request = Request(txn: TxnID, mode: Mode, ticket: nat)

  /** `held` is this resource's entry in each transaction's held set, `pending` the request a blocked
      transaction waits on until it wakes up or gives up. `closed` lists the grant channels closed so
      far, in order. */
  datatype State = State(
    granted: seq<Request>, waiting: seq<Request>, held: map<TxnID, Mode>, pending: map<TxnID, Request>,
    nextTicket: nat, closed: seq<nat>)

  // ---------------------------------------------------------------- queue operations

  predicate CanGrant(granted: seq<Request>, mode: Mode, except: TxnID) {
    forall i | 0 <= i < |granted| && granted[i].txn != except :: Compatible(mode, granted[i].mode)
  }

  /** The requests of other transactions. */
  function Without(rs: seq<Request>, t: TxnID): seq<Request> {
    if rs == [] then []
    else Without(rs[..|rs| - 1], t) + if rs[|rs| - 1].txn == t then [] else [rs[|rs| - 1]]
  }

  /** The list without the first request of `t`. */
  function WithoutFirst(rs: seq<Request>, t: TxnID): seq<Request> {
    if rs == [] then []
    else if rs[0].txn == t then rs[1..]
    else [rs[0]] + WithoutFirst(rs[1..], t)
  }

  function Dominant(granted: seq<Request>): Mode {
    if granted == [] then NL
    else DominantMode(Dominant(granted[..|granted| - 1]), granted[|granted| - 1].mode)
  }

  datatype Lists = Lists(granted: seq<Request>, waiting: seq<Request>, closed: seq<nat>)

  /** Grant from the front of the wait list until someone is incompatible with the dominant mode. */
  function Grants(q: Lists): Lists
    decreases |q.waiting|
  {
    if q.waiting == [] || !Compatible(q.waiting[0].mode, Dominant(q.granted)) then q
    else Grants(Lists(q.granted + [q.waiting[0]], q.waiting[1..], q.closed + [q.waiting[0].ticket]))
  }

  // ---------------------------------------------------------------- steps

  datatype Step =
    | Acquire(txn: TxnID, mode: Mode)
    | Wake(txn: TxnID)
    | Cancel(txn: TxnID)
    | Release(txn: TxnID)

  predicate Awarded(s: State, t: TxnID) {
    t in s.pending && s.pending[t] in s.granted
  }

  /** A blocked transaction makes no other call before it wakes up or gives up. */
  predicate Enabled(s: State, step: Step) {
    match step
    case Acquire(t, _) => t !in s.pending
    case Wake(t) => Awarded(s, t)
    case Cancel(t) => t in s.pending
    case Release(t) => t !in s.pending
  }

  function Regranted(s: State, granted: seq<Request>, waiting: seq<Request>): State {
    var q := Grants(Lists(granted, waiting, s.closed));
    s.(granted := q.granted, waiting := q.waiting, closed := q.closed)
  }

  predicate Upgrade(s: State, t: TxnID, mode: Mode) {
    t in s.held && Strength(s.held[t]) < Strength(mode)
  }

  /** An upgrade gives up the old grant before asking for the new one. */
  function Dropped(s: State, t: TxnID, mode: Mode): State {
    if Upgrade(s, t, mode) then s.(granted := Without(s.granted, t), held := s.held - {t}) else s
  }

  predicate Suffices(s: State, t: TxnID, mode: Mode) {
    t in s.held && Strength(s.held[t]) >= Strength(mode)
  }

  /** Grant the request if no other holder is in the way, else put it at the end of the line. */
  function Requested(s: State, t: TxnID, mode: Mode): State {
    var req := Request(t, mode, s.nextTicket);
    if CanGrant(s.granted, mode, t) then
      s.(granted := s.granted + [req], held := s.held[t := mode], nextTicket := s.nextTicket + 1)
    else
      s.(waiting := s.waiting + [req], pending := s.pending[t := req], nextTicket := s.nextTicket + 1)
  }

  function AfterAcquire(s: State, t: TxnID, mode: Mode): State {
    if Suffices(s, t, mode) then s else Requested(Dropped(s, t, mode), t, mode)
  }

  function Apply(s: State, step: Step): State
    requires Enabled(s, step)
  {
    match step
    case Acquire(t, mode) => AfterAcquire(s, t, mode)
    case Wake(t) => s.(held := s.held[t := s.pending[t].mode], pending := s.pending - {t})
    case Cancel(t) => Regranted(s, Without(s.granted, t), WithoutFirst(s.waiting, t)).(pending := s.pending - {t})
    case Release(t) => Regranted(s, Without(s.granted, t), s.waiting).(held := s.held - {t})
  }

  function Initial(): State {
    State([], [], map[], map[], 0, [])
  }

  // ---------------------------------------------------------------- invariant

  /** Different holders, all compatible with each other. */
  ghost predicate PairwiseCompatible(granted: seq<Request>) {
    forall i, j | 0 <= i < j < |granted| ::
      granted[i].txn != granted[j].txn && Compatible(granted[i].mode, granted[j].mode)
  }

  ghost predicate Holds(s: State, g: Request) {
    if g.txn in s.pending then g == s.pending[g.txn] else g.txn in s.held && s.held[g.txn] == g.mode
  }

  ghost predicate Queued(s: State, w: Request) {
    w.txn in s.pending && s.pending[w.txn] == w
  }

  /** Tickets rise along a list. */
  ghost predicate Rising(rs: seq<Request>, below: nat) {
    && (forall i | 0 <= i < |rs| :: rs[i].ticket < below)
    && (forall i, j | 0 <= i < j < |rs| :: rs[i].ticket < rs[j].ticket)
  }

  /** Channels are closed in order of arrival, each at most once, and before those still waiting. */
  ghost predicate ClosedInOrder(closed: seq<nat>, waiting: seq<Request>) {
    && (forall i, j | 0 <= i < j < |closed| :: closed[i] < closed[j])
    && (forall i, j | 0 <= i < |closed| && 0 <= j < |waiting| :: closed[i] < waiting[j].ticket)
  }

  ghost predicate Apart(granted: seq<Request>, waiting: seq<Request>) {
    forall i, j | 0 <= i < |granted| && 0 <= j < |waiting| :: granted[i].txn != waiting[j].txn
  }

  ghost predicate ListsOk(q: Lists, below: nat) {
    && PairwiseCompatible(q.granted) && Apart(q.granted, q.waiting)
    && DistinctTxns(q.waiting) && Rising(q.waiting, below) && ClosedInOrder(q.closed, q.waiting)
    && (forall i | 0 <= i < |q.closed| :: q.closed[i] < below)
  }

  ghost predicate Inv(s: State) {
    && ListsOk(Lists(s.granted, s.waiting, s.closed), s.nextTicket)
    && (forall i | 0 <= i < |s.granted| :: Holds(s, s.granted[i]))
    && (forall i | 0 <= i < |s.waiting| :: Queued(s, s.waiting[i]))
    && s.held.Keys !! s.pending.Keys
    && (forall t | t in s.pending :: s.pending[t].txn == t)
  }

  // ---------------------------------------------------------------- the lists under each operation

  lemma {:induction false} WithoutMeans(rs: seq<Request>, t: TxnID)
    ensures forall r :: r in Without(rs, t) <==> r in rs && r.txn != t
    ensures PairwiseCompatible(rs) ==> PairwiseCompatible(Without(rs, t))
  {
    if rs != [] {
      var n := |rs| - 1;
      WithoutMeans(rs[..n], t);
      var w, last := Without(rs[..n], t), rs[n];
      assert rs == rs[..n] + [last];
      if PairwiseCompatible(rs) && last.txn != t {
        forall i | 0 <= i < |w|
          ensures w[i].txn != last.txn && Compatible(w[i].mode, last.mode)
        {
          assert w[i] in rs[..n];
        }
      }
    }
  }

  lemma {:induction false} WithoutNone(rs: seq<Request>, t: TxnID)
    requires forall i | 0 <= i < |rs| :: rs[i].txn != t
    ensures Without(rs, t) == rs
  {
    if rs != [] {
      WithoutNone(rs[..|rs| - 1], t);
    }
  }

  ghost predicate DistinctTxns(rs: seq<Request>) {
    forall i, j | 0 <= i < j < |rs| :: rs[i].txn != rs[j].txn
  }

  lemma {:induction false} WithoutFirstMembers(rs: seq<Request>, t: TxnID)
    requires DistinctTxns(rs)
    ensures forall r :: r in WithoutFirst(rs, t) <==> r in rs && r.txn != t
  {
    if rs != [] {
      assert rs == [rs[0]] + rs[1..];
      if rs[0].txn != t {
        WithoutFirstMembers(rs[1..], t);
      }
    }
  }

  lemma {:induction false} WithoutFirstOrder(rs: seq<Request>, t: TxnID, below: nat)
    requires DistinctTxns(rs) && Rising(rs, below)
    ensures DistinctTxns(WithoutFirst(rs, t)) && Rising(WithoutFirst(rs, t), below)
  {
    if rs != [] {
      TailOrder(rs, below);
      if rs[0].txn != t {
        WithoutFirstOrder(rs[1..], t, below);
        WithoutFirstMembers(rs[1..], t);
        HeadFirst(rs, WithoutFirst(rs[1..], t), below);
      }
    }
  }

  lemma TailOrder(rs: seq<Request>, below: nat)
    requires rs != [] && DistinctTxns(rs) && Rising(rs, below)
    ensures DistinctTxns(rs[1..]) && Rising(rs[1..], below)
  {
  }

  lemma HeadFirst(rs: seq<Request>, w: seq<Request>, below: nat)
    requires rs != [] && DistinctTxns(rs) && Rising(rs, below) && DistinctTxns(w) && Rising(w, below)
    requires forall r | r in w :: r in rs[1..]
    ensures DistinctTxns([rs[0]] + w) && Rising([rs[0]] + w, below)
  {
    forall j | 0 <= j < |w|
      ensures rs[0].ticket < w[j].ticket && rs[0].txn != w[j].txn
    {
      assert w[j] in rs[1..];
    }
    ConsOrder(rs[0], w, below);
  }

  lemma ConsOrder(r: Request, w: seq<Request>, below: nat)
    requires DistinctTxns(w) && Rising(w, below) && r.ticket < below
    requires forall j | 0 <= j < |w| :: r.ticket < w[j].ticket && r.txn != w[j].txn
    ensures DistinctTxns([r] + w) && Rising([r] + w, below)
  {
  }

  /** Holders that are compatible with each other are as strong together as the dominant one: testing
      a request against the dominant mode is testing it against every holder. */
  lemma {:induction false} DominantSuffices(granted: seq<Request>, m: Mode)
    requires PairwiseCompatible(granted)
    ensures Compatible(m, Dominant(granted)) <==> forall i | 0 <= i < |granted| :: Compatible(m, granted[i].mode)
    ensures granted != [] ==> Dominant(granted) == NL || exists i :: 0 <= i < |granted| && granted[i].mode == Dominant(granted)
  {
    if granted != [] {
      var n := |granted| - 1;
      var front, last := granted[..n], granted[n];
      DominantSuffices(front, m);
      DominantSuffices(front, last.mode);
      CompatibleSymmetric(Dominant(front), last.mode);
      assert forall i | 0 <= i < n :: front[i] == granted[i];
    }
  }

  lemma {:induction false} GrantsKeepOk(q: Lists, below: nat)
    requires ListsOk(q, below)
    ensures ListsOk(Grants(q), below)
    ensures forall r | r in Grants(q).granted :: r in q.granted || r in q.waiting
    ensures forall r | r in Grants(q).waiting :: r in q.waiting
    decreases |q.waiting|
  {
    if q.waiting != [] && Compatible(q.waiting[0].mode, Dominant(q.granted)) {
      FirstGranted(q, below);
      GrantsKeepOk(Lists(q.granted + [q.waiting[0]], q.waiting[1..], q.closed + [q.waiting[0].ticket]), below);
    }
  }

  lemma FirstGranted(q: Lists, below: nat)
    requires ListsOk(q, below) && q.waiting != [] && Compatible(q.waiting[0].mode, Dominant(q.granted))
    ensures ListsOk(Lists(q.granted + [q.waiting[0]], q.waiting[1..], q.closed + [q.waiting[0].ticket]), below)
  {
    var w, g := q.waiting[0], q.granted;
    DominantSuffices(g, w.mode);
    forall i | 0 <= i < |g|
      ensures g[i].txn != w.txn && Compatible(g[i].mode, w.mode)
    {
      CompatibleSymmetric(g[i].mode, w.mode);
    }
    assert PairwiseCompatible(g + [w]);
  }

  ghost predicate Conflicting(granted: seq<Request>, m: Mode) {
    exists i :: 0 <= i < |granted| && !Compatible(m, granted[i].mode)
  }

  /** Nobody waits unless the first in line conflicts with a holder. */
  ghost predicate HeadBlocked(granted: seq<Request>, waiting: seq<Request>) {
    waiting != [] ==> Conflicting(granted, waiting[0].mode)
  }

  /** After granting, whoever is still first in line has a reason to wait. */
  lemma {:induction false} GrantsStopBlocked(q: Lists, below: nat)
    requires ListsOk(q, below)
    ensures HeadBlocked(Grants(q).granted, Grants(q).waiting)
    decreases |q.waiting|
  {
    if q.waiting != [] {
      if Compatible(q.waiting[0].mode, Dominant(q.granted)) {
        FirstGranted(q, below);
        GrantsStopBlocked(Lists(q.granted + [q.waiting[0]], q.waiting[1..], q.closed + [q.waiting[0].ticket]), below);
      } else {
        DominantSuffices(q.granted, q.waiting[0].mode);
      }
    }
  }

  // ---------------------------------------------------------------- every step keeps the invariant

  lemma RegrantKeeps(s: State, granted: seq<Request>, waiting: seq<Request>)
    requires ListsOk(Lists(granted, waiting, s.closed), s.nextTicket)
    ensures var s' := Regranted(s, granted, waiting);
            && ListsOk(Lists(s'.granted, s'.waiting, s'.closed), s'.nextTicket)
            && HeadBlocked(s'.granted, s'.waiting)
            && (forall r | r in s'.granted :: r in granted || r in waiting)
            && (forall r | r in s'.waiting :: r in waiting)
  {
    var q := Lists(granted, waiting, s.closed);
    GrantsKeepOk(q, s.nextTicket);
    GrantsStopBlocked(q, s.nextTicket);
    assert Lists(Grants(q).granted, Grants(q).waiting, Grants(q).closed) == Grants(q);
  }

  lemma ShorterOk(s: State, t: TxnID, waiting: seq<Request>)
    requires Inv(s) && (waiting == s.waiting || waiting == WithoutFirst(s.waiting, t))
    ensures ListsOk(Lists(Without(s.granted, t), waiting, s.closed), s.nextTicket)
  {
    WithoutMeans(s.granted, t);
    WithoutFirstMembers(s.waiting, t);
    WithoutFirstOrder(s.waiting, t, s.nextTicket);
    var g := Without(s.granted, t);
    forall i, j | 0 <= i < |g| && 0 <= j < |waiting|
      ensures g[i].txn != waiting[j].txn
    {
      assert g[i] in s.granted && waiting[j] in s.waiting;
    }
    forall i, j | 0 <= i < |s.closed| && 0 <= j < |waiting|
      ensures s.closed[i] < waiting[j].ticket
    {
      assert waiting[j] in s.waiting;
    }
  }

  lemma ReleaseKeeps(s: State, t: TxnID)
    requires Inv(s) && Enabled(s, Release(t))
    ensures Inv(Apply(s, Release(t))) && HeadBlocked(Apply(s, Release(t)).granted, Apply(s, Release(t)).waiting)
  {
    ShorterOk(s, t, s.waiting);
    RegrantKeeps(s, Without(s.granted, t), s.waiting);
    WithoutMeans(s.granted, t);
    StillHeld(s, Apply(s, Release(t)), t);
  }

  lemma CancelKeeps(s: State, t: TxnID)
    requires Inv(s) && Enabled(s, Cancel(t))
    ensures Inv(Apply(s, Cancel(t))) && HeadBlocked(Apply(s, Cancel(t)).granted, Apply(s, Cancel(t)).waiting)
  {
    var waiting := WithoutFirst(s.waiting, t);
    ShorterOk(s, t, waiting);
    RegrantKeeps(s, Without(s.granted, t), waiting);
    WithoutMeans(s.granted, t);
    WithoutFirstMembers(s.waiting, t);
    StillHeld(s, Apply(s, Cancel(t)), t);
  }

  /** Requests that stay, or move from waiting to granted, keep their owner's record. */
  lemma StillHeld(s: State, s': State, t: TxnID)
    requires Inv(s) && s'.held == s.held - {t} && s'.pending == s.pending - {t}
    requires forall r | r in s'.granted + s'.waiting :: r.txn != t || t !in s.pending
    requires forall r | r in s'.granted :: (r in s.granted && r.txn != t) || r in s.waiting
    requires forall r | r in s'.waiting :: r in s.waiting
    ensures forall i | 0 <= i < |s'.granted| :: Holds(s', s'.granted[i])
    ensures forall i | 0 <= i < |s'.waiting| :: Queued(s', s'.waiting[i])
  {
    forall i | 0 <= i < |s'.granted|
      ensures Holds(s', s'.granted[i])
    {
      var r := s'.granted[i];
      assert r in s'.granted;
      if r in s.granted && r.txn != t {
        var k :| 0 <= k < |s.granted| && s.granted[k] == r;
        assert Holds(s, s.granted[k]);
      } else {
        var k :| 0 <= k < |s.waiting| && s.waiting[k] == r;
        assert Queued(s, s.waiting[k]);
        assert r in s'.granted + s'.waiting;
      }
    }
    forall i | 0 <= i < |s'.waiting|
      ensures Queued(s', s'.waiting[i])
    {
      var r := s'.waiting[i];
      assert r in s'.waiting && r in s'.granted + s'.waiting;
      var k :| 0 <= k < |s.waiting| && s.waiting[k] == r;
      assert Queued(s, s.waiting[k]);
    }
  }

  lemma WakeKeeps(s: State, t: TxnID)
    requires Inv(s) && Enabled(s, Wake(t))
    ensures Inv(Apply(s, Wake(t)))
  {
    var s', r := Apply(s, Wake(t)), s.pending[t];
    var k :| 0 <= k < |s.granted| && s.granted[k] == r;
    forall i | 0 <= i < |s.waiting|
      ensures Queued(s', s.waiting[i])
    {
      assert Queued(s, s.waiting[i]);
    }
    forall i | 0 <= i < |s.granted|
      ensures Holds(s', s.granted[i])
    {
      assert Holds(s, s.granted[i]);
    }
  }

  /** A transaction with no request pending and nothing held has no grant. */
  lemma NoGrant(s: State, t: TxnID)
    requires Inv(s) && t !in s.pending && t !in s.held
    ensures forall i | 0 <= i < |s.granted| :: s.granted[i].txn != t
    ensures forall i | 0 <= i < |s.waiting| :: s.waiting[i].txn != t
  {
    forall i | 0 <= i < |s.granted|
      ensures s.granted[i].txn != t
    {
      assert Holds(s, s.granted[i]);
    }
    forall i | 0 <= i < |s.waiting|
      ensures s.waiting[i].txn != t
    {
      assert Queued(s, s.waiting[i]);
    }
  }

  lemma DroppedKeeps(s: State, t: TxnID, mode: Mode)
    requires Inv(s) && t !in s.pending && !Suffices(s, t, mode)
    ensures var d := Dropped(s, t, mode);
            Inv(d) && t !in d.pending && t !in d.held && d.granted == Without(s.granted, t)
  {
    if Upgrade(s, t, mode) {
      DropKeeps(s, t);
    } else {
      NoGrant(s, t);
      WithoutNone(s.granted, t);
    }
  }

  lemma DropKeeps(s: State, t: TxnID)
    requires Inv(s) && t !in s.pending
    ensures Inv(s.(granted := Without(s.granted, t), held := s.held - {t}))
  {
    WithoutMeans(s.granted, t);
    ShorterOk(s, t, s.waiting);
    StillHeld(s, s.(granted := Without(s.granted, t), held := s.held - {t}), t);
  }

  lemma RequestKeeps(d: State, t: TxnID, mode: Mode)
    requires Inv(d) && t !in d.pending && t !in d.held
    ensures Inv(Requested(d, t, mode))
  {
    if CanGrant(d.granted, mode, t) {
      GrantedKeeps(d, t, mode);
    } else {
      WaitingKeeps(d, t, mode);
    }
  }

  lemma AcquireKeeps(s: State, t: TxnID, mode: Mode)
    requires Inv(s) && Enabled(s, Acquire(t, mode))
    ensures Inv(Apply(s, Acquire(t, mode)))
  {
    if !Suffices(s, t, mode) {
      DroppedKeeps(s, t, mode);
      RequestKeeps(Dropped(s, t, mode), t, mode);
    }
  }

  lemma GrantedKeeps(d: State, t: TxnID, mode: Mode)
    requires Inv(d) && t !in d.pending && t !in d.held && CanGrant(d.granted, mode, t)
    ensures var req := Request(t, mode, d.nextTicket);
            Inv(d.(granted := d.granted + [req], held := d.held[t := mode], nextTicket := d.nextTicket + 1))
  {
    var req := Request(t, mode, d.nextTicket);
    var s' := d.(granted := d.granted + [req], held := d.held[t := mode], nextTicket := d.nextTicket + 1);
    NoGrant(d, t);
    forall i | 0 <= i < |d.granted|
      ensures Compatible(d.granted[i].mode, mode) && Holds(s', d.granted[i])
    {
      assert Holds(d, d.granted[i]);
      CompatibleSymmetric(d.granted[i].mode, mode);
    }
    forall i | 0 <= i < |d.waiting|
      ensures Queued(s', d.waiting[i])
    {
      assert Queued(d, d.waiting[i]);
    }
  }

  lemma WaitingKeeps(d: State, t: TxnID, mode: Mode)
    requires Inv(d) && t !in d.pending && t !in d.held
    ensures var req := Request(t, mode, d.nextTicket);
            Inv(d.(waiting := d.waiting + [req], pending := d.pending[t := req], nextTicket := d.nextTicket + 1))
  {
    var req := Request(t, mode, d.nextTicket);
    var s' := d.(waiting := d.waiting + [req], pending := d.pending[t := req], nextTicket := d.nextTicket + 1);
    NoGrant(d, t);
    forall i | 0 <= i < |d.granted|
      ensures Holds(s', d.granted[i])
    {
      assert Holds(d, d.granted[i]);
    }
    forall i | 0 <= i < |d.waiting|
      ensures Queued(s', d.waiting[i])
    {
      assert Queued(d, d.waiting[i]);
    }
  }

  lemma InvKept(s: State, step: Step)
    requires Inv(s) && Enabled(s, step)
    ensures Inv(Apply(s, step))
  {
    match step {
      case Acquire(t, mode) => AcquireKeeps(s, t, mode);
      case Wake(t) => WakeKeeps(s, t);
      case Cancel(t) => CancelKeeps(s, t);
      case Release(t) => ReleaseKeeps(s, t);
    }
  }
}
