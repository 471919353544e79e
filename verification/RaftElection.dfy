/** A cluster of Raft nodes electing leaders over a network that loses, delays, reorders and
    duplicates messages, with nodes that crash and restart. */
module RaftElection {
  import opened RaftNode

  /** A RequestVote request on its way to `to`. */
  datatype Ask = Ask(to: NodeID, args: VoteArgs)

  /** A reply on its way back to the call that asked `voter` in term `asked`. */
  datatype Answer = Answer(voter: NodeID, candidate: NodeID, asked: nat, reply: VoteReply)

  /** An outstanding RequestVote call of `candidate`; it consumes at most one reply. */
  datatype Call = Call(candidate: NodeID, peer: NodeID, term: nat)

  datatype Ballot = Ballot(voter: NodeID, term: nat)

  /** `ledger` and `won` record every vote ever cast and every election ever won; no step reads
      them. */
  datatype Cluster = Cluster(
    members: set<NodeID>,
    nodes: map<NodeID, State>,
    asks: set<Ask>,
    answers: set<Answer>,
    calls: set<Call>,
    ledger: map<Ballot, NodeID>,
    won: set<(nat, NodeID)>)

  datatype Step =
    | Timeout(n: NodeID)
    | DeliverAsk(ask: Ask)
    | DeliverAnswer(ans: Answer)
    | CallFails(call: Call)
    | LeaderContact(n: NodeID, term: nat)
    | HigherTermSeen(n: NodeID, term: nat)
    | LogChanges(n: NodeID, lastIndex: nat, lastTerm: nat)
    | CrashRestart(n: NodeID)

  function Majority(members: set<NodeID>): nat {
    |members| / 2 + 1
  }

  ghost predicate Init(c: Cluster) {
    && c.members != {} && "" !in c.members
    && c.nodes.Keys == c.members
    && (forall n | n in c.members :: c.nodes[n] == State(n, 0, "", Follower, 0, 0, 0, 0, ""))
    && c.asks == {} && c.answers == {} && c.calls == {} && c.ledger == map[] && c.won == {}
  }

  ghost function Set(c: Cluster, n: NodeID, s: State): Cluster {
    c.(nodes := c.nodes[n := s], won := if s.role == Leader then c.won + {(s.term, n)} else c.won)
  }

  ghost predicate Enabled(c: Cluster, step: Step) {
    match step
    case Timeout(n) => n in c.nodes && c.nodes[n].role != Leader
    case DeliverAsk(ask) => ask in c.asks && ask.to in c.nodes
    case DeliverAnswer(a) => a in c.answers && Call(a.candidate, a.voter, a.asked) in c.calls && a.candidate in c.nodes
    case CallFails(call) => call in c.calls
    case LeaderContact(n, term) => n in c.nodes
    case HigherTermSeen(n, term) => n in c.nodes && term > c.nodes[n].term
    case LogChanges(n, lastIndex, lastTerm) => n in c.nodes
    case CrashRestart(n) => n in c.nodes
  }

  ghost function Apply(c: Cluster, step: Step): Cluster
    requires Enabled(c, step)
  {
    match step
    case Timeout(n) =>
      var s := c.nodes[n];
      var t := Election(s, |c.members|);
      var args := VoteArgs(t.term, n, s.lastIndex, s.lastTerm);
      Set(c, n, t).(
        asks := c.asks + (set p | p in c.members && p != n :: Ask(p, args)),
        calls := c.calls + (set p | p in c.members && p != n :: Call(n, p, t.term)),
        ledger := c.ledger[Ballot(n, t.term) := n])
    case DeliverAsk(ask) =>
      var s := c.nodes[ask.to];
      var t := AfterVoteRequest(s, ask.args);
      var granted := Grants(s, ask.args);
      Set(c, ask.to, t).(
        answers := c.answers + {Answer(ask.to, ask.args.candidate, ask.args.term, VoteReply(t.term, granted))},
        ledger := if granted then c.ledger[Ballot(ask.to, t.term) := ask.args.candidate] else c.ledger)
    case DeliverAnswer(a) =>
      var t := AfterVoteReply(c.nodes[a.candidate], a.asked, a.reply, Majority(c.members));
      Set(c, a.candidate, t).(calls := c.calls - {Call(a.candidate, a.voter, a.asked)})
    case CallFails(call) => c.(calls := c.calls - {call})
    case LeaderContact(n, term) => Set(c, n, AfterLeaderContact(c.nodes[n], term))
    case HigherTermSeen(n, term) => Set(c, n, StepDown(c.nodes[n], term))
    case LogChanges(n, lastIndex, lastTerm) =>
      Set(c, n, c.nodes[n].(lastIndex := lastIndex, lastTerm := lastTerm))
    case CrashRestart(n) =>
      Set(c, n, Restarted(c.nodes[n])).(calls := set call | call in c.calls && call.candidate != n)
  }

  // ---------------------------------------------------------------- the invariant

  /** Nodes whose vote `n` got in `term`, among those it no longer waits for. */
  ghost function Backers(c: Cluster, n: NodeID, term: nat): set<NodeID> {
    set v | v in c.members && Ballot(v, term) in c.ledger && c.ledger[Ballot(v, term)] == n
            && Call(n, v, term) !in c.calls
  }

  /** Nodes that ever voted for `n` in `term`. */
  ghost function Supporters(c: Cluster, n: NodeID, term: nat): set<NodeID> {
    set v | v in c.members && Ballot(v, term) in c.ledger && c.ledger[Ballot(v, term)] == n
  }

  /** What the ledger says about one node: its current vote is the one on record for its term, and
      it has voted in no later term. */
  ghost predicate NodeOk(c: Cluster, n: NodeID)
    requires n in c.nodes
  {
    var s := c.nodes[n];
    && s.id == n && Persisted(s)
    && (s.votedFor != "" ==> Ballot(n, s.term) in c.ledger && c.ledger[Ballot(n, s.term)] == s.votedFor)
    && (forall t: nat | Ballot(n, t) in c.ledger :: t <= s.term && (t == s.term ==> c.ledger[Ballot(n, t)] == s.votedFor))
    && (forall p, t: nat | Call(n, p, t) in c.calls :: t <= s.term && p != n)
    && (s.role == Candidate ==> s.votes <= |Backers(c, n, s.term)|)
    && (s.role == Leader ==> (s.term, n) in c.won)
  }

  /** Requests come from members, and a granting reply is backed by the ledger. */
  ghost predicate MailOk(c: Cluster) {
    && (forall a | a in c.asks :: a.args.candidate in c.members)
    && (forall a | a in c.answers && a.reply.granted ::
          && Ballot(a.voter, a.asked) in c.ledger && c.ledger[Ballot(a.voter, a.asked)] == a.candidate
          && a.voter in c.members && a.reply.term == a.asked)
  }

  ghost predicate Inv(c: Cluster) {
    && c.nodes.Keys == c.members && "" !in c.members
    && (forall b | b in c.ledger :: c.ledger[b] != "")
    && MailOk(c)
    && (forall n | n in c.nodes :: NodeOk(c, n))
    && (forall w | w in c.won :: |Supporters(c, w.1, w.0)| >= Majority(c.members))
  }

  // ---------------------------------------------------------------- steps keep it

  lemma Majorities(members: set<NodeID>, a: set<NodeID>, b: set<NodeID>)
    requires a <= members && b <= members
    requires |a| >= Majority(members) && |b| >= Majority(members)
    ensures a * b != {}
  {
    if a * b == {} {
      assert |a + b| == |a| + |b|;
      SubsetSize(a + b, members);
    }
  }

  lemma SubsetSize(a: set<NodeID>, b: set<NodeID>)
    requires a <= b
    ensures |a| <= |b|
  {
    assert b == a + (b - a);
  }

  /** Nothing a step does takes a recorded vote back or changes it. */
  ghost predicate LedgerGrows(c: Cluster, d: Cluster) {
    forall b | b in c.ledger :: b in d.ledger && d.ledger[b] == c.ledger[b]
  }

  /** Two majorities of one term share a voter, and a voter has one vote per term. */
  lemma OneWinner(c: Cluster, term: nat, a: NodeID, b: NodeID)
    requires Inv(c) && (term, a) in c.won && (term, b) in c.won
    ensures a == b
  {
    var sa, sb := Supporters(c, a, term), Supporters(c, b, term);
    assert |Supporters(c, (term, a).1, (term, a).0)| >= Majority(c.members);
    assert |Supporters(c, (term, b).1, (term, b).0)| >= Majority(c.members);
    Majorities(c.members, sa, sb);
    var v :| v in sa * sb;
  }

  lemma SupportersGrow(c: Cluster, d: Cluster, n: NodeID, term: nat)
    requires LedgerGrows(c, d) && c.members == d.members
    ensures |Supporters(c, n, term)| <= |Supporters(d, n, term)|
  {
    SubsetSize(Supporters(c, n, term), Supporters(d, n, term));
  }

  lemma BackersGrow(c: Cluster, d: Cluster, n: NodeID, term: nat)
    requires LedgerGrows(c, d) && c.members == d.members
    requires forall v | Call(n, v, term) in d.calls :: Call(n, v, term) in c.calls
    ensures |Backers(c, n, term)| <= |Backers(d, n, term)|
  {
    SubsetSize(Backers(c, n, term), Backers(d, n, term));
  }

  /** A node the step does not run on stays in order. */
  lemma OthersKept(c: Cluster, d: Cluster, n: NodeID)
    requires Inv(c) && n in c.nodes && n in d.nodes && d.nodes[n] == c.nodes[n]
    requires LedgerGrows(c, d) && c.members == d.members && c.won <= d.won
    requires forall t: nat | Ballot(n, t) in d.ledger :: Ballot(n, t) in c.ledger
    requires forall p, t: nat | Call(n, p, t) in d.calls :: Call(n, p, t) in c.calls
    ensures NodeOk(d, n)
  {
    assert NodeOk(c, n);
    BackersGrow(c, d, n, c.nodes[n].term);
  }

  ghost predicate OnlyTouches(c: Cluster, d: Cluster, n: NodeID) {
    && n in c.nodes && d.members == c.members && d.nodes.Keys == c.nodes.Keys
    && (forall m | m in c.nodes && m != n :: d.nodes[m] == c.nodes[m])
    && LedgerGrows(c, d)
    && (forall b | b in d.ledger :: b in c.ledger || b.voter == n)
    && (forall call | call in d.calls :: call in c.calls || call.candidate == n)
    && c.won <= d.won
  }

  /** A step that runs on one node keeps the invariant when that node, the mail and any new win are
      in order. */
  lemma Rebuilt(c: Cluster, d: Cluster, n: NodeID)
    requires Inv(c) && OnlyTouches(c, d, n)
    requires NodeOk(d, n) && MailOk(d)
    requires forall b | b in d.ledger && b !in c.ledger :: d.ledger[b] != ""
    requires forall w | w in d.won && w !in c.won :: |Supporters(d, w.1, w.0)| >= Majority(d.members)
    ensures Inv(d)
  {
    forall m | m in d.nodes
      ensures NodeOk(d, m)
    {
      if m != n {
        OthersKept(c, d, m);
      }
    }
    forall w | w in d.won
      ensures |Supporters(d, w.1, w.0)| >= Majority(d.members)
    {
      if w in c.won {
        SupportersGrow(c, d, w.1, w.0);
      }
    }
  }

  lemma TimeoutNode(c: Cluster, n: NodeID, d: Cluster)
    requires Inv(c) && Enabled(c, Timeout(n)) && d == Apply(c, Timeout(n))
    ensures LedgerGrows(c, d) && NodeOk(d, n)
    ensures |Supporters(d, n, d.nodes[n].term)| >= 1
  {
    var t := c.nodes[n].term + 1;
    assert NodeOk(c, n);
    assert n in Backers(d, n, t) && n in Supporters(d, n, t);
    SubsetSize({n}, Backers(d, n, t));
    SubsetSize({n}, Supporters(d, n, t));
  }

  lemma TimeoutMail(c: Cluster, n: NodeID, d: Cluster)
    requires Inv(c) && Enabled(c, Timeout(n)) && d == Apply(c, Timeout(n)) && LedgerGrows(c, d)
    ensures MailOk(d)
  {
  }

  lemma TimeoutTouches(c: Cluster, n: NodeID, d: Cluster)
    requires Inv(c) && Enabled(c, Timeout(n)) && d == Apply(c, Timeout(n)) && LedgerGrows(c, d)
    ensures OnlyTouches(c, d, n)
    ensures forall w | w in d.won && w !in c.won :: w == (d.nodes[n].term, n) && |c.members| == 1
  {
  }

  lemma TimeoutKeeps(c: Cluster, n: NodeID)
    requires Inv(c) && Enabled(c, Timeout(n))
    ensures Inv(Apply(c, Timeout(n)))
  {
    var d := Apply(c, Timeout(n));
    TimeoutNode(c, n, d);
    TimeoutMail(c, n, d);
    TimeoutTouches(c, n, d);
    Rebuilt(c, d, n);
  }

  lemma AskMail(c: Cluster, ask: Ask, d: Cluster)
    requires Inv(c) && Enabled(c, DeliverAsk(ask)) && d == Apply(c, DeliverAsk(ask)) && LedgerGrows(c, d)
    ensures MailOk(d)
  {
  }

  /** A second vote in the same term goes to the same candidate, so no ledger entry changes. */
  lemma AskLedger(c: Cluster, ask: Ask, d: Cluster)
    requires Inv(c) && Enabled(c, DeliverAsk(ask)) && d == Apply(c, DeliverAsk(ask))
    ensures LedgerGrows(c, d)
  {
    assert NodeOk(c, ask.to);
  }

  lemma AskNode(c: Cluster, ask: Ask, d: Cluster)
    requires Inv(c) && Enabled(c, DeliverAsk(ask)) && d == Apply(c, DeliverAsk(ask))
    ensures LedgerGrows(c, d) && NodeOk(d, ask.to) && d.won == c.won
  {
    var n := ask.to;
    assert NodeOk(c, n);
    AskLedger(c, ask, d);
    if d.nodes[n].term == c.nodes[n].term {
      BackersGrow(c, d, n, c.nodes[n].term);
    }
  }

  lemma AskKeeps(c: Cluster, ask: Ask)
    requires Inv(c) && Enabled(c, DeliverAsk(ask))
    ensures Inv(Apply(c, DeliverAsk(ask)))
  {
    var d := Apply(c, DeliverAsk(ask));
    AskNode(c, ask, d);
    AskMail(c, ask, d);
    Rebuilt(c, d, ask.to);
  }

  /** Each consumed reply adds one new backer, so the count never exceeds the votes cast. */
  lemma AnswerBackers(c: Cluster, a: Answer, d: Cluster)
    requires Inv(c) && Enabled(c, DeliverAnswer(a)) && d == Apply(c, DeliverAnswer(a)) && a.reply.granted
    ensures |Backers(d, a.candidate, a.asked)| >= |Backers(c, a.candidate, a.asked)| + 1
  {
    var b, b' := Backers(c, a.candidate, a.asked), Backers(d, a.candidate, a.asked);
    assert a.voter !in b && a.voter in b';
    SubsetSize(b + {a.voter}, b');
  }

  lemma AnswerNode(c: Cluster, a: Answer, d: Cluster)
    requires Inv(c) && Enabled(c, DeliverAnswer(a)) && d == Apply(c, DeliverAnswer(a))
    ensures NodeOk(d, a.candidate)
    ensures forall w | w in d.won && w !in c.won :: |Supporters(d, w.1, w.0)| >= Majority(d.members)
  {
    var n := a.candidate;
    assert NodeOk(c, n);
    BackersGrow(c, d, n, c.nodes[n].term);
    if a.reply.granted {
      AnswerBackers(c, a, d);
      SubsetSize(Backers(d, n, a.asked), Supporters(d, n, a.asked));
    }
  }

  lemma AnswerKeeps(c: Cluster, a: Answer)
    requires Inv(c) && Enabled(c, DeliverAnswer(a))
    ensures Inv(Apply(c, DeliverAnswer(a)))
  {
    var d := Apply(c, DeliverAnswer(a));
    AnswerNode(c, a, d);
    Rebuilt(c, d, a.candidate);
  }

  lemma CallFailsKeeps(c: Cluster, call: Call)
    requires Inv(c) && Enabled(c, CallFails(call))
    ensures Inv(Apply(c, CallFails(call)))
  {
    var d := Apply(c, CallFails(call));
    forall n | n in d.nodes
      ensures NodeOk(d, n)
    {
      OthersKept(c, d, n);
    }
    forall w | w in d.won
      ensures |Supporters(d, w.1, w.0)| >= Majority(d.members)
    {
      SupportersGrow(c, d, w.1, w.0);
    }
  }

  /** A step that only changes one node's state, without voting or winning. */
  lemma LocalKeeps(c: Cluster, n: NodeID, t: State, d: Cluster)
    requires Inv(c) && n in c.nodes && t.id == n && Persisted(t)
    requires d == Set(c, n, t).(calls := d.calls) && forall call | call in d.calls :: call in c.calls
    requires if t.term > c.nodes[n].term then
               t.votedFor == "" && t.role == Follower
             else
               && t.term == c.nodes[n].term && t.votedFor == c.nodes[n].votedFor
               && (t.role == Follower || (t.role == c.nodes[n].role && t.votes == c.nodes[n].votes))
    ensures Inv(d)
  {
    assert NodeOk(c, n);
    BackersGrow(c, d, n, c.nodes[n].term);
    assert NodeOk(d, n);
    Rebuilt(c, d, n);
  }

  lemma StepKeeps(c: Cluster, step: Step)
    requires Inv(c) && Enabled(c, step)
    ensures Inv(Apply(c, step))
  {
    match step
    case Timeout(n) => TimeoutKeeps(c, n);
    case DeliverAsk(ask) => AskKeeps(c, ask);
    case DeliverAnswer(a) => AnswerKeeps(c, a);
    case CallFails(call) => CallFailsKeeps(c, call);
    case LeaderContact(n, term) =>
      assert NodeOk(c, n);
      LocalKeeps(c, n, AfterLeaderContact(c.nodes[n], term), Apply(c, step));
    case HigherTermSeen(n, term) =>
      assert NodeOk(c, n);
      LocalKeeps(c, n, StepDown(c.nodes[n], term), Apply(c, step));
    case LogChanges(n, lastIndex, lastTerm) =>
      assert NodeOk(c, n);
      LocalKeeps(c, n, c.nodes[n].(lastIndex := lastIndex, lastTerm := lastTerm), Apply(c, step));
    case CrashRestart(n) =>
      assert NodeOk(c, n);
      LocalKeeps(c, n, Restarted(c.nodes[n]), Apply(c, step));
  }

  // ---------------------------------------------------------------- runs

  ghost predicate Next(c: Cluster, d: Cluster) {
    exists step :: Enabled(c, step) && d == Apply(c, step)
  }

  ghost predicate StepAt(r: seq<Cluster>, i: nat)
    requires i + 1 < |r|
  {
    Next(r[i], r[i + 1])
  }

  /** The states of one execution. */
  ghost predicate Run(r: seq<Cluster>) {
    |r| > 0 && Init(r[0]) && forall i | 0 <= i < |r| - 1 :: StepAt(r, i)
  }

  lemma StepWins(c: Cluster, step: Step)
    requires Enabled(c, step)
    ensures c.won <= Apply(c, step).won
  {
  }

  lemma NextKeeps(c: Cluster, d: Cluster)
    requires Inv(c) && Next(c, d)
    ensures Inv(d) && c.won <= d.won
  {
    var step :| Enabled(c, step) && d == Apply(c, step);
    StepKeeps(c, step);
    StepWins(c, step);
  }

  lemma InitInv(c: Cluster)
    requires Init(c)
    ensures Inv(c)
  {
    forall n | n in c.nodes
      ensures NodeOk(c, n)
    {
    }
  }

  lemma {:induction false} RunInv(r: seq<Cluster>, i: nat)
    requires Run(r) && i < |r|
    ensures Inv(r[i])
  {
    if i == 0 {
      InitInv(r[0]);
    } else {
      RunInv(r, i - 1);
      assert StepAt(r, i - 1);
      NextKeeps(r[i - 1], r[i]);
    }
  }

  lemma {:induction false} WinsStay(r: seq<Cluster>, i: nat, j: nat)
    requires Run(r) && i <= j < |r|
    ensures r[i].won <= r[j].won
  {
    if i < j {
      WinsStay(r, i, j - 1);
      RunInv(r, j - 1);
      assert StepAt(r, j - 1);
      NextKeeps(r[j - 1], r[j]);
    }
  }

  /** Election safety: over a whole run, at most one node is ever leader in a given term. */
  lemma ElectionSafety(r: seq<Cluster>, i: nat, j: nat, a: NodeID, b: NodeID)
    requires Run(r) && i <= j < |r|
    requires a in r[i].nodes && r[i].nodes[a].role == Leader
    requires b in r[j].nodes && r[j].nodes[b].role == Leader
    requires r[i].nodes[a].term == r[j].nodes[b].term
    ensures a == b
  {
    RunInv(r, i);
    RunInv(r, j);
    assert NodeOk(r[i], a) && NodeOk(r[j], b);
    WinsStay(r, i, j);
    OneWinner(r[j], r[j].nodes[b].term, a, b);
  }
}
