/** Serializable snapshot isolation: tracking of reads and of read-write conflicts, and the pivot test
    at commit. */
module Ssi {
  import opened WalRecord
  import opened WaitForGraph

  // ---------------------------------------------------------------- the tracker on values

  /** Who has read each key, and the edges from a reader to a later writer of what it read. */
  datatype Tracker = Tracker(siread: map<string, set<TxnID>>, edges: Graph)

  function Readers(siread: map<string, set<TxnID>>, key: string): set<TxnID> {
    if key in siread then siread[key] else {}
  }

  function AfterRead(t: Tracker, reader: TxnID, key: string): Tracker {
    t.(siread := t.siread[key := Readers(t.siread, key) + {reader}])
  }

  /** The edges once every reader in `from` points at `writer`. */
  function Pointed(edges: Graph, from: set<TxnID>, writer: TxnID): Graph {
    map r | r in edges.Keys + from :: Succ(edges, r) + if r in from then {writer} else {}
  }

  lemma PointedNone(edges: Graph, writer: TxnID)
    ensures Pointed(edges, {}, writer) == edges
  {
    assert forall r | r in edges :: Succ(edges, r) + {} == edges[r];
  }

  lemma PointedMore(edges: Graph, from: set<TxnID>, r: TxnID, writer: TxnID)
    ensures var g := Pointed(edges, from, writer);
            Pointed(edges, from + {r}, writer) == g[r := Succ(g, r) + {writer}]
  {
    var g, more := Pointed(edges, from, writer), Pointed(edges, from + {r}, writer);
    assert more.Keys == g.Keys + {r};
    forall x | x in more
      ensures more[x] == g[r := Succ(g, r) + {writer}][x]
    {
    }
  }

  function AfterWrite(t: Tracker, writer: TxnID, key: string, active: set<TxnID>): Tracker {
    t.(edges := Pointed(t.edges, Readers(t.siread, key) * active - {writer}, writer))
  }

  /** The transaction has an edge in each direction. */
  predicate Pivot(edges: Graph, t: TxnID) {
    Succ(edges, t) != {} && exists from :: from in edges && t in edges[from]
  }

  function AfterCleanup(t: Tracker, id: TxnID): Tracker {
    Tracker(map k | k in t.siread :: t.siread[k] - {id}, Removed(t.edges, id))
  }

  // ---------------------------------------------------------------- runs

  datatype State = State(tracker: Tracker, active: set<TxnID>, committed: set<TxnID>, aborted: set<TxnID>)

  /** Finishing a transaction and cleaning up after it are separate steps. */
  datatype Step =
    | Begin(id: TxnID)
    | Read(id: TxnID, key: string)
    | Write(id: TxnID, key: string)
    | Commit(id: TxnID)
    | Abort(id: TxnID)
    | Cleanup(id: TxnID)

  predicate Enabled(s: State, step: Step) {
    match step
    case Begin(id) => id !in s.active + s.committed + s.aborted
    case Read(id, _) => id in s.active
    case Write(id, _) => id in s.active
    case Commit(id) => id in s.active
    case Abort(id) => id in s.active
    case Cleanup(id) => id in s.committed + s.aborted
  }

  /** A commit of a pivot is turned into an abort. */
  function Apply(s: State, step: Step): State
    requires Enabled(s, step)
  {
    match step
    case Begin(id) => s.(active := s.active + {id})
    case Read(id, key) => s.(tracker := AfterRead(s.tracker, id, key))
    case Write(id, key) => s.(tracker := AfterWrite(s.tracker, id, key, s.active))
    case Commit(id) =>
      if Pivot(s.tracker.edges, id) then s.(active := s.active - {id}, aborted := s.aborted + {id})
      else s.(active := s.active - {id}, committed := s.committed + {id})
    case Abort(id) => s.(active := s.active - {id}, aborted := s.aborted + {id})
    case Cleanup(id) => s.(tracker := AfterCleanup(s.tracker, id))
  }

  function Initial(): State {
    State(Tracker(map[], map[]), {}, {}, {})
  }

  function After(s: State, steps: seq<Step>): State {
    if steps == [] then s
    else
      var before, step := After(s, steps[..|steps| - 1]), steps[|steps| - 1];
      if Enabled(before, step) then Apply(before, step) else before
  }

  ghost predicate Inv(s: State) {
    s.active !! s.committed && s.active !! s.aborted && s.committed !! s.aborted
  }

  lemma {:induction false} RunInv(steps: seq<Step>)
    ensures Inv(After(Initial(), steps))
  {
    if steps != [] {
      RunInv(steps[..|steps| - 1]);
    }
  }

  // ---------------------------------------------------------------- a cycle of conflicts

  /** All members are active and all the cycle's edges are recorded. */
  ghost predicate Intact(s: State, c: seq<TxnID>) {
    IsCycle(s.tracker.edges, c) && forall i | 0 <= i < |c| :: c[i] in s.active
  }

  ghost predicate SomeAborted(s: State, c: seq<TxnID>) {
    exists i :: 0 <= i < |c| && c[i] in s.aborted
  }

  /** Every member of a recorded cycle is a pivot. */
  lemma MembersArePivots(edges: Graph, c: seq<TxnID>, i: nat)
    requires IsCycle(edges, c) && i < |c|
    ensures Pivot(edges, c[i])
  {
    var p := if i == 0 then |c| - 1 else i - 1;
    assert Next(c, i) in Succ(edges, c[i]);
    assert Next(c, p) == c[i] && Next(c, p) in Succ(edges, c[p]);
  }

  lemma MoreEdges(a: Graph, b: Graph, c: seq<TxnID>)
    requires IsCycle(a, c) && forall x :: Succ(a, x) <= Succ(b, x)
    ensures IsCycle(b, c)
  {
    forall i: nat | i < |c|
      ensures Next(c, i) in Succ(b, c[i])
    {
      assert Next(c, i) in Succ(a, c[i]) && Succ(a, c[i]) <= Succ(b, c[i]);
    }
  }

  /** No step commits a member of an intact cycle; it stays intact until a member aborts. */
  lemma CycleStep(s: State, step: Step, c: seq<TxnID>)
    requires Inv(s) && Enabled(s, step) && (Intact(s, c) || SomeAborted(s, c))
    ensures Intact(Apply(s, step), c) || SomeAborted(Apply(s, step), c)
  {
    var s' := Apply(s, step);
    if SomeAborted(s, c) {
      var i :| 0 <= i < |c| && c[i] in s.aborted;
      assert c[i] in s'.aborted;
    } else if (step.Commit? || step.Abort?) && step.id in c {
      var i :| 0 <= i < |c| && c[i] == step.id;
      MembersArePivots(s.tracker.edges, c, i);
      assert c[i] in s'.aborted;
    } else if step.Write? {
      MoreEdges(s.tracker.edges, s'.tracker.edges, c);
    } else if step.Cleanup? {
      assert step.id !in c;
      RemovedCycles(s.tracker.edges, step.id, c);
    }
  }

  /** If transactions form a cycle of recorded conflicts while all of them are active, then from there
      on the cycle is intact or one of them has aborted; so they never all commit, and none commits
      before one has aborted. */
  lemma {:induction false} CycleDoesNotCommit(before: seq<Step>, after: seq<Step>, c: seq<TxnID>)
    requires Intact(After(Initial(), before), c)
    ensures var s := After(After(Initial(), before), after);
            && (Intact(s, c) || SomeAborted(s, c))
            && !(forall i | 0 <= i < |c| :: c[i] in s.committed)
            && ((exists i :: 0 <= i < |c| && c[i] in s.committed) ==> SomeAborted(s, c))
  {
    var s := After(After(Initial(), before), after);
    RunInvFrom(before, after);
    if after != [] {
      CycleDoesNotCommit(before, after[..|after| - 1], c);
      RunInvFrom(before, after[..|after| - 1]);
      var r, step := After(After(Initial(), before), after[..|after| - 1]), after[|after| - 1];
      if Enabled(r, step) {
        CycleStep(r, step, c);
      }
    }
    assert c[0] in s.active || SomeAborted(s, c);
  }

  lemma {:induction false} RunInvFrom(before: seq<Step>, after: seq<Step>)
    ensures Inv(After(After(Initial(), before), after))
  {
    RunInv(before);
    if after != [] {
      RunInvFrom(before, after[..|after| - 1]);
    }
  }

  // ---------------------------------------------------------------- the tracker object

  class SsiTracker {
    var siread: map<string, set<TxnID>>
    var edges: Graph

    ghost function Now(): Tracker
      reads this
    {
      Tracker(siread, edges)
    }

    constructor ()
      ensures Now() == Tracker(map[], map[])
    {
      siread, edges := map[], map[];
    }

    method RecordRead(reader: TxnID, key: string)
      modifies this
      ensures Now() == AfterRead(old(Now()), reader, key)
      ensures forall r, k :: r in Readers(siread, k) <==> r in Readers(old(siread), k) || (r == reader && k == key)
      ensures edges == old(edges)
    {
      if key !in siread {
        siread := siread[key := {}];
      }
      siread := siread[key := siread[key] + {reader}];
    }

    /** An edge from every other active reader of the key, visited in any order. */
    method RecordWrite(writer: TxnID, key: string, active: set<TxnID>)
      modifies this
      ensures Now() == AfterWrite(old(Now()), writer, key, active)
      ensures forall r, w :: w in Succ(edges, r) <==>
                || w in Succ(old(edges), r)
                || (w == writer && r != writer && r in active && r in Readers(old(siread), key))
      ensures siread == old(siread)
    {
      var todo := if key in siread then siread[key] else {};
      ghost var readers := todo * active - {writer};
      ghost var done: set<TxnID> := {};
      PointedNone(edges, writer);
      while todo != {}
        invariant siread == old(siread) && done == readers - todo && todo <= Readers(siread, key)
        invariant edges == Pointed(old(edges), done, writer)
        decreases todo
      {
        var reader :| reader in todo;
        todo := todo - {reader};
        if reader != writer && reader in active {
          PointedMore(old(edges), done, reader, writer);
          done := done + {reader};
          if reader !in edges {
            edges := edges[reader := {}];
          }
          edges := edges[reader := edges[reader] + {writer}];
        }
      }
      assert done == readers;
    }

    method CheckCommit(t: TxnID) returns (ok: bool)
      ensures ok <==> !Pivot(edges, t)
      ensures ok <==> (forall w :: w !in Succ(edges, t)) || (forall r :: t !in Succ(edges, r))
    {
      assert Succ(edges, t) != {} ==> exists w :: w in Succ(edges, t);
      if t !in edges || edges[t] == {} {
        return true;
      }
      var todo := edges.Keys;
      while todo != {}
        invariant todo <= edges.Keys && forall from | from in edges.Keys - todo :: t !in edges[from]
        decreases todo
      {
        var from :| from in todo;
        if t in edges[from] {
          assert t in Succ(edges, from);
          return false;
        }
        todo := todo - {from};
      }
      return true;
    }

    method CleanUp(t: TxnID)
      modifies this
      ensures Now() == AfterCleanup(old(Now()), t)
      ensures forall r, k :: r in Readers(siread, k) <==> r in Readers(old(siread), k) && r != t
      ensures forall r, w :: w in Succ(edges, r) <==> w in Succ(old(edges), r) && r != t && w != t
    {
      var keys := siread.Keys;
      while keys != {}
        invariant keys <= siread.Keys == old(siread).Keys && edges == old(edges)
        invariant forall k | k in siread :: siread[k] == if k in keys then old(siread)[k] else old(siread)[k] - {t}
        decreases keys
      {
        var key :| key in keys;
        siread := siread[key := siread[key] - {t}];
        keys := keys - {key};
      }
      edges := edges - {t};
      var todo := edges.Keys;
      while todo != {}
        invariant todo <= edges.Keys == old(edges).Keys - {t}
        invariant siread == map k | k in old(siread) :: old(siread)[k] - {t}
        invariant forall x | x in edges :: edges[x] == if x in todo then old(edges)[x] else old(edges)[x] - {t}
        decreases todo
      {
        var from :| from in todo;
        edges := edges[from := edges[from] - {t}];
        todo := todo - {from};
      }
    }
  }
}
