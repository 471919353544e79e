/** The wait-for graph, the depth-first search for a deadlock in it, and the detector's loop. */
module WaitForGraph {
  import opened WalRecord

  type Graph = map<TxnID, set<TxnID>>

  function Succ(g: Graph, v: TxnID): set<TxnID> {
    if v in g then g[v] else {}
  }

  function Next(c: seq<TxnID>, i: nat): TxnID
    requires i < |c|
  {
    if i + 1 < |c| then c[i + 1] else c[0]
  }

  ghost predicate Distinct(c: seq<TxnID>) {
    forall i, j | 0 <= i < j < |c| :: c[i] != c[j]
  }

  /** Each waits for the next, and the last for the first. */
  ghost predicate IsCycle(g: Graph, c: seq<TxnID>) {
    c != [] && forall i: nat | i < |c| :: Next(c, i) in Succ(g, c[i])
  }

  ghost predicate Deadlocked(g: Graph) {
    exists c :: IsCycle(g, c)
  }

  // ---------------------------------------------------------------- finished nodes have no cycle

  /** Every node of `f` waits only for nodes before it. */
  ghost predicate Settled(g: Graph, f: seq<TxnID>) {
    forall i, w | 0 <= i < |f| && w in Succ(g, f[i]) :: w in f[..i]
  }

  /** No cycle goes through a settled node: it would lead ever further forward in the list. */
  lemma {:induction false} SettledAvoids(g: Graph, f: seq<TxnID>, c: seq<TxnID>, i: nat, k: nat)
    requires Settled(g, f) && IsCycle(g, c) && i < |c| && k <= |f|
    ensures c[i] !in f[..k]
    decreases k
  {
    if c[i] in f[..k] {
      var m :| 0 <= m < k && f[m] == c[i];
      assert Next(c, i) in Succ(g, f[m]);
      SettledAvoids(g, f, c, if i + 1 < |c| then i + 1 else 0, m);
    }
  }

  /** When every node that waits is settled there is no deadlock. */
  lemma AllSettled(g: Graph, f: seq<TxnID>)
    requires Settled(g, f) && forall v | v in g :: v in f
    ensures !Deadlocked(g)
  {
    forall c
      ensures !IsCycle(g, c)
    {
      if IsCycle(g, c) {
        assert Next(c, 0) in Succ(g, c[0]);
        assert f[..|f|] == f;
        SettledAvoids(g, f, c, 0, |f|);
      }
    }
  }

  // ---------------------------------------------------------------- a trail that bites its tail

  /** Consecutive nodes wait for each other, as the parent map records. */
  ghost predicate Trail(g: Graph, parent: map<TxnID, TxnID>, p: seq<TxnID>) {
    && Distinct(p)
    && forall i | 0 < i < |p| :: p[i] in Succ(g, p[i - 1]) && p[i] in parent && parent[p[i]] == p[i - 1]
  }

  /** The part of a trail behind position `k`, then the node at `k`, is a simple cycle if the end of
      the trail waits for that node. */
  lemma LoopIsCycle(g: Graph, parent: map<TxnID, TxnID>, p: seq<TxnID>, k: nat)
    requires Trail(g, parent, p) && k < |p| && p[k] in Succ(g, p[|p| - 1])
    ensures IsCycle(g, p[k + 1..] + [p[k]]) && Distinct(p[k + 1..] + [p[k]])
  {
    var c := p[k + 1..] + [p[k]];
    forall i: nat | i < |c|
      ensures Next(c, i) in Succ(g, c[i])
    {
      if i + 1 < |c| {
        if i + 2 < |c| {
          assert c[i] == p[k + 1 + i] && c[i + 1] == p[k + 2 + i];
        } else {
          assert c[i] == p[|p| - 1];
        }
      }
    }
  }

  // ---------------------------------------------------------------- the search

  datatype Color = White | Gray | Black

  function ColorOf(color: map<TxnID, Color>, v: TxnID): Color {
    if v in color then color[v] else White
  }

  /** All nodes a search can meet. */
  ghost function Universe(g: Graph): set<TxnID> {
    g.Keys + set v, w | v in g && w in g[v] :: w
  }

  /** The grey nodes are the trail being explored, the black ones are settled. */
  ghost predicate Consistent(g: Graph, color: map<TxnID, Color>, parent: map<TxnID, TxnID>,
                             finished: seq<TxnID>, path: seq<TxnID>)
  {
    && Trail(g, parent, path) && Settled(g, finished)
    && color.Keys <= Universe(g) && White !in color.Values
    && (forall v :: ColorOf(color, v) == Gray <==> v in path)
    && (forall v :: ColorOf(color, v) == Black <==> v in finished)
  }

  ghost predicate Continues(g: Graph, parent: map<TxnID, TxnID>, path: seq<TxnID>, v: TxnID) {
    path != [] ==> v in Succ(g, path[|path| - 1]) && v in parent && parent[v] == path[|path| - 1]
  }

  lemma Entered(g: Graph, color: map<TxnID, Color>, parent: map<TxnID, TxnID>, finished: seq<TxnID>, path: seq<TxnID>, v: TxnID)
    requires Consistent(g, color, parent, finished, path) && v in Universe(g)
    requires ColorOf(color, v) == White && Continues(g, parent, path, v)
    ensures Consistent(g, color[v := Gray], parent, finished, path + [v])
  {
    assert v !in path;
  }

  lemma Linked(g: Graph, color: map<TxnID, Color>, parent: map<TxnID, TxnID>, finished: seq<TxnID>, path: seq<TxnID>, w: TxnID, v: TxnID)
    requires Consistent(g, color, parent, finished, path) && ColorOf(color, w) == White
    ensures Consistent(g, color, parent[w := v], finished, path)
  {
    assert w !in path;
  }

  lemma Left(g: Graph, color: map<TxnID, Color>, parent: map<TxnID, TxnID>, finished: seq<TxnID>, path: seq<TxnID>, v: TxnID)
    requires Consistent(g, color, parent, finished, path + [v]) && forall w | w in Succ(g, v) :: w in finished
    ensures Consistent(g, color[v := Black], parent, finished + [v], path)
  {
    var here, f := path + [v], finished + [v];
    forall i | 0 <= i < |path|
      ensures path[i] != v
    {
      assert here[i] != here[|path|];
    }
    assert v in here && ColorOf(color, v) == Gray;
    assert forall i | 0 <= i < |path| :: here[i] == path[i];
    forall x
      ensures x in here <==> x in path || x == v
    {
    }
    forall i, w | 0 <= i < |f| && w in Succ(g, f[i])
      ensures w in f[..i]
    {
      assert f[..|finished|] == finished;
      if i < |finished| {
        assert f[..i] == finished[..i];
      }
    }
  }

  class Search {
    const g: Graph
    var color: map<TxnID, Color>
    var parent: map<TxnID, TxnID>
    var cycleStart: TxnID
    var cycleEnd: TxnID
    ghost var finished: seq<TxnID>

    ghost predicate Valid(path: seq<TxnID>)
      reads this
    {
      Consistent(g, color, parent, finished, path)
    }

    /** The search ended at the last node of `trail`, which waits for an earlier one. */
    ghost predicate Caught(trail: seq<TxnID>, k: nat)
      reads this
    {
      && Trail(g, parent, trail) && k < |trail|
      && cycleStart == trail[k] && cycleEnd == trail[|trail| - 1]
      && cycleStart in Succ(g, cycleEnd)
    }

    constructor (graph: Graph)
      ensures g == graph && Valid([]) && color == map[]
    {
      g := graph;
      color := map[];
      parent := map[];
      cycleStart := 0;
      cycleEnd := 0;
      finished := [];
    }

    /** Explore from the white node `v`, its waits in any order. */
    method Dfs(v: TxnID, ghost path: seq<TxnID>) returns (found: bool, ghost trail: seq<TxnID>, ghost k: nat)
      requires Valid(path) && v in Universe(g) && ColorOf(color, v) == White
      requires Continues(g, parent, path, v)
      modifies this
      ensures found ==> Caught(trail, k)
      ensures !found ==> Valid(path) && v in finished && color.Keys >= old(color.Keys)
      ensures !found ==> forall x | x in old(finished) :: x in finished
      decreases Universe(g) - color.Keys
    {
      trail, k := [], 0;
      Entered(g, color, parent, finished, path, v);
      color := color[v := Gray];
      ghost var here := path + [v];
      var todo := Succ(g, v);
      while todo != {}
        invariant todo <= Succ(g, v) && Valid(here)
        invariant forall w | w in Succ(g, v) - todo :: w in finished
        invariant color.Keys > old(color.Keys)
        invariant forall x | x in old(finished) :: x in finished
        decreases todo
      {
        var w :| w in todo;
        if ColorOf(color, w) == Gray {
          cycleStart, cycleEnd := w, v;
          found, trail := true, here;
          k :| 0 <= k < |here| && here[k] == w;
          return;
        }
        if ColorOf(color, w) == White {
          Linked(g, color, parent, finished, here, w, v);
          parent := parent[w := v];
          found, trail, k := Dfs(w, here);
          if found {
            return;
          }
        }
        todo := todo - {w};
      }
      Left(g, color, parent, finished, path, v);
      color := color[v := Black];
      finished := finished + [v];
      found := false;
    }

    /** Follow the parents back from the end of the cycle to its start. */
    method Rebuild(ghost trail: seq<TxnID>, ghost k: nat) returns (cycle: seq<TxnID>)
      requires Caught(trail, k)
      ensures cycle == trail[k + 1..] + [trail[k]]
    {
      cycle := [cycleStart];
      var cur := cycleEnd;
      ghost var i := |trail| - 1;
      while cur != cycleStart
        invariant k <= i < |trail| && cur == trail[i] && cycle == trail[i + 1..] + [cycleStart]
        decreases i
      {
        cycle := [cur] + cycle;
        cur := parent[cur];
        i := i - 1;
      }
    }
  }

  method SelectVictim(cycle: seq<TxnID>) returns (victim: TxnID)
    ensures forall id | id in cycle :: id <= victim
    ensures cycle != [] ==> victim in cycle
    ensures cycle == [] ==> victim == 0
  {
    victim := 0;
    for i := 0 to |cycle|
      invariant forall j | 0 <= j < i :: cycle[j] <= victim
      invariant if i == 0 then victim == 0 else victim in cycle
    {
      if cycle[i] > victim {
        victim := cycle[i];
      }
    }
  }

  /** A closed list as the search reports it: a simple cycle with its last node written twice. */
  ghost predicate Reported(g: Graph, cycle: seq<TxnID>) {
    && |cycle| >= 2 && cycle[|cycle| - 1] == cycle[|cycle| - 2]
    && IsCycle(g, cycle[..|cycle| - 1]) && Distinct(cycle[..|cycle| - 1])
  }

  /** Rebuild the cycle that was caught, close it, and pick its youngest member. */
  method Report(search: Search, ghost trail: seq<TxnID>, ghost k: nat) returns (victim: TxnID, cycle: seq<TxnID>)
    requires search.Caught(trail, k)
    ensures Deadlocked(search.g) && Reported(search.g, cycle)
    ensures victim in cycle && forall id | id in cycle :: id <= victim
  {
    cycle := search.Rebuild(trail, k);
    LoopIsCycle(search.g, search.parent, trail, k);
    ghost var simple := cycle;
    cycle := cycle + [search.cycleStart];
    assert cycle[..|cycle| - 1] == simple;
    victim := SelectVictim(cycle);
  }

  /** Search from every node in any order. A cycle is reported exactly when there is one. */
  method FindCycle(g: Graph) returns (victim: TxnID, cycle: seq<TxnID>, found: bool)
    ensures found <==> Deadlocked(g)
    ensures found ==> Reported(g, cycle) && victim in cycle && forall id | id in cycle :: id <= victim
    ensures !found ==> cycle == [] && victim == 0
  {
    var search := new Search(g);
    var todo := g.Keys;
    while todo != {}
      invariant search.g == g && search.Valid([]) && todo <= g.Keys
      invariant forall v | v in g.Keys - todo :: v in search.finished
      invariant fresh(search)
      decreases todo
    {
      var node :| node in todo;
      if ColorOf(search.color, node) == White {
        ghost var trail, k;
        found, trail, k := search.Dfs(node, []);
        if found {
          victim, cycle := Report(search, trail, k);
          return;
        }
      }
      todo := todo - {node};
    }
    AllSettled(g, search.finished);
    return 0, [], false;
  }

  // ---------------------------------------------------------------- the graph

  /** The graph without `v` and the edges to and from it. */
  function Removed(g: Graph, v: TxnID): Graph {
    map x | x in g && x != v :: g[x] - {v}
  }

  /** Removing a node removes exactly the deadlocks that go through it. */
  lemma RemovedCycles(g: Graph, v: TxnID, c: seq<TxnID>)
    ensures IsCycle(Removed(g, v), c) <==> IsCycle(g, c) && v !in c
  {
    if IsCycle(Removed(g, v), c) {
      forall i: nat | i < |c|
        ensures Next(c, i) in Succ(g, c[i]) && c[i] != v
      {
        assert Next(c, i) in Succ(Removed(g, v), c[i]);
      }
    }
    if IsCycle(g, c) && v !in c {
      forall i: nat | i < |c|
        ensures Next(c, i) in Succ(Removed(g, v), c[i])
      {
        assert Next(c, i) in Succ(g, c[i]) && Next(c, i) in c && c[i] in c;
      }
    }
  }

  class WaitForGraph {
    var edges: Graph

    constructor ()
      ensures edges == map[]
    {
      edges := map[];
    }

    method AddEdge(from: TxnID, to: TxnID)
      modifies this
      ensures forall x :: Succ(edges, x) == Succ(old(edges), x) + if x == from then {to} else {}
      ensures edges.Keys == old(edges.Keys) + {from, to}
    {
      if from !in edges {
        edges := edges[from := {}];
      }
      edges := edges[from := edges[from] + {to}];
      if to !in edges {
        edges := edges[to := {}];
      }
    }

    method RemoveNode(v: TxnID)
      modifies this
      ensures edges == Removed(old(edges), v)
    {
      edges := edges - {v};
      var todo := edges.Keys;
      while todo != {}
        invariant todo <= edges.Keys && edges.Keys == old(edges).Keys - {v}
        invariant forall x | x in edges :: edges[x] == if x in todo then old(edges)[x] else old(edges)[x] - {v}
        decreases todo
      {
        var from :| from in todo;
        edges := edges[from := edges[from] - {v}];
        todo := todo - {from};
      }
    }

    /** `v` stops waiting; others may still wait for it. */
    method RemoveEdges(v: TxnID)
      modifies this
      ensures edges == old(edges) - {v}
      ensures forall x :: Succ(edges, x) == if x == v then {} else Succ(old(edges), x)
    {
      edges := edges - {v};
    }

    /** The detector's loop, if nothing else happens between its rounds: find a cycle, remove its
        youngest member, until none is left. Every victim was the youngest of a cycle that no earlier
        victim had broken, and there are at most as many rounds as nodes. */
    method Resolve() returns (victims: seq<TxnID>)
      modifies this
      ensures !Deadlocked(edges)
      ensures |victims| <= |old(edges)| - |edges|
      ensures forall c :: IsCycle(edges, c) <==> IsCycle(old(edges), c) && Spares(victims, c)
      ensures forall i | 0 <= i < |victims| :: Justified(old(edges), victims, i)
      ensures !Deadlocked(old(edges)) ==> victims == []
    {
      victims := [];
      var victim, cycle, found := FindCycle(edges);
      while found
        invariant found <==> Deadlocked(edges)
        invariant found ==> Reported(edges, cycle) && IsYoungest(cycle, victim)
        invariant |victims| <= |old(edges)| - |edges|
        invariant CyclesSpared(old(edges), edges, victims) && AllJustified(old(edges), victims)
        decreases |edges|
      {
        VictimWaits(edges, cycle, victim);
        ghost var before := edges;
        RemoveNode(victim);
        assert edges.Keys == before.Keys - {victim};
        OneMoreVictim(old(edges), before, victims, cycle, victim);
        victims := victims + [victim];
        victim, cycle, found := FindCycle(edges);
      }
      assert victims != [] ==> Justified(old(edges), victims, 0);
    }
  }

  lemma VictimWaits(g: Graph, cycle: seq<TxnID>, victim: TxnID)
    requires Reported(g, cycle) && victim in cycle
    ensures victim in g
  {
    var c := cycle[..|cycle| - 1];
    var i :| 0 <= i < |cycle| && cycle[i] == victim;
    var k := if i < |c| then i else |c| - 1;
    assert c[k] == victim && Next(c, k) in Succ(g, c[k]);
  }

  ghost predicate Spares(victims: seq<TxnID>, c: seq<TxnID>) {
    forall i | 0 <= i < |victims| :: victims[i] !in c
  }

  ghost predicate IsYoungest(c: seq<TxnID>, v: TxnID) {
    v in c && forall x | x in c :: x <= v
  }

  /** Victim `i` is the youngest of a cycle that the victims before it left alone. */
  ghost predicate Justified(g: Graph, victims: seq<TxnID>, i: nat)
    requires i < |victims|
  {
    exists c :: IsCycle(g, c) && IsYoungest(c, victims[i]) && Spares(victims[..i], c)
  }

  ghost predicate AllJustified(g: Graph, victims: seq<TxnID>) {
    forall i | 0 <= i < |victims| :: Justified(g, victims, i)
  }

  /** The cycles left are those of `g` that no victim was on. */
  ghost predicate CyclesSpared(g: Graph, now: Graph, victims: seq<TxnID>) {
    forall c :: IsCycle(now, c) <==> IsCycle(g, c) && Spares(victims, c)
  }

  lemma OneMoreVictim(g: Graph, now: Graph, victims: seq<TxnID>, cycle: seq<TxnID>, v: TxnID)
    requires CyclesSpared(g, now, victims) && AllJustified(g, victims)
    requires Reported(now, cycle) && IsYoungest(cycle, v)
    ensures CyclesSpared(g, Removed(now, v), victims + [v]) && AllJustified(g, victims + [v])
  {
    var c := cycle[..|cycle| - 1];
    YoungestOfSimple(cycle, v, c);
    JustifiedMore(g, now, victims, c, v);
    CyclesLeft(g, now, victims, v);
  }

  lemma YoungestOfSimple(cycle: seq<TxnID>, v: TxnID, c: seq<TxnID>)
    requires |cycle| >= 2 && cycle[|cycle| - 1] == cycle[|cycle| - 2] && c == cycle[..|cycle| - 1] && IsYoungest(cycle, v)
    ensures IsYoungest(c, v)
  {
    var k :| 0 <= k < |cycle| && cycle[k] == v;
    assert c[if k < |c| then k else |c| - 1] == v;
    assert forall x | x in c :: x in cycle;
  }

  lemma JustifiedMore(g: Graph, now: Graph, victims: seq<TxnID>, c: seq<TxnID>, v: TxnID)
    requires AllJustified(g, victims) && CyclesSpared(g, now, victims) && IsCycle(now, c) && IsYoungest(c, v)
    ensures AllJustified(g, victims + [v])
  {
    var more := victims + [v];
    forall i | 0 <= i < |more|
      ensures Justified(g, more, i)
    {
      if i < |victims| {
        assert Justified(g, victims, i);
        assert more[..i] == victims[..i];
      } else {
        assert more[..i] == victims && IsCycle(g, c);
      }
    }
  }

  lemma CyclesLeft(g: Graph, now: Graph, victims: seq<TxnID>, v: TxnID)
    requires CyclesSpared(g, now, victims)
    ensures CyclesSpared(g, Removed(now, v), victims + [v])
  {
    forall c
      ensures IsCycle(Removed(now, v), c) <==> IsCycle(g, c) && Spares(victims + [v], c)
    {
      RemovedCycles(now, v, c);
      SparesOneMore(victims, v, c);
    }
  }

  lemma SparesOneMore(victims: seq<TxnID>, v: TxnID, c: seq<TxnID>)
    ensures Spares(victims + [v], c) <==> Spares(victims, c) && v !in c
  {
    var more := victims + [v];
    if Spares(more, c) {
      assert more[|victims|] !in c;
      forall i | 0 <= i < |victims|
        ensures victims[i] !in c
      {
        assert more[i] !in c;
      }
    }
  }
}
