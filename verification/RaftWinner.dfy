/** What a won election says about logs, and when an election is won. */
module RaftWinner {
  import opened RaftNode
  import opened RaftElection

  // ---------------------------------------------------------------- terms

  /** Terms never fall, and nodes neither come nor go. */
  ghost predicate Stays(c: Cluster, d: Cluster) {
    d.members == c.members && d.nodes.Keys == c.nodes.Keys && forall n | n in c.nodes :: c.nodes[n].term <= d.nodes[n].term
  }

  lemma StepTerm(c: Cluster, step: Step, n: NodeID)
    requires Inv(c) && Enabled(c, step) && n in c.nodes
    ensures n in Apply(c, step).nodes && c.nodes[n].term <= Apply(c, step).nodes[n].term
  {
    assert NodeOk(c, n);
  }

  lemma StepMembers(c: Cluster, step: Step)
    requires Inv(c) && Enabled(c, step)
    ensures Apply(c, step).members == c.members && Apply(c, step).nodes.Keys == c.nodes.Keys
  {
    StepKeeps(c, step);
  }

  lemma TermsRise(c: Cluster, d: Cluster)
    requires Inv(c) && Next(c, d)
    ensures Stays(c, d)
  {
    var step :| Enabled(c, step) && d == Apply(c, step);
    StepMembers(c, step);
    forall n | n in c.nodes
      ensures c.nodes[n].term <= d.nodes[n].term
    {
      StepTerm(c, step, n);
    }
  }

  lemma {:induction false} TermsRiseTo(r: seq<Cluster>, i: nat, j: nat)
    requires Run(r) && i <= j < |r|
    ensures Stays(r[i], r[j])
  {
    if i < j {
      TermsRiseTo(r, i, j - 1);
      RunInv(r, j - 1);
      assert StepAt(r, j - 1);
      TermsRise(r[j - 1], r[j]);
    }
  }

  // ---------------------------------------------------------------- requests

  /** In step `h`, `w` stands for election in `term`. */
  ghost predicate Stands(r: seq<Cluster>, h: nat, w: NodeID, term: nat) {
    h + 1 < |r| && StandsIn(r[h], r[h + 1], w, term)
  }

  ghost predicate StandsIn(c: Cluster, d: Cluster, w: NodeID, term: nat) {
    w in c.nodes && w in d.nodes && c.nodes[w].term + 1 == term == d.nodes[w].term && d.nodes[w].votedFor == w
  }

  /** A request carries the log pair its sender has when it stands. */
  predicate Carries(args: VoteArgs, s: State) {
    args.lastLogTerm == s.lastTerm && args.lastLogIndex == s.lastIndex
  }

  lemma NewAsk(c: Cluster, d: Cluster, ask: Ask)
    requires Inv(c) && Next(c, d) && ask in d.asks && ask !in c.asks
    ensures ask.to != ask.args.candidate && StandsIn(c, d, ask.args.candidate, ask.args.term)
    ensures Carries(ask.args, c.nodes[ask.args.candidate])
  {
    var step :| Enabled(c, step) && d == Apply(c, step);
    assert step.Timeout? && NodeOk(c, step.n);
  }

  lemma {:induction false} AskWasSent(r: seq<Cluster>, j: nat, ask: Ask) returns (h: nat)
    requires Run(r) && j < |r| && ask in r[j].asks
    ensures h < j && Stands(r, h, ask.args.candidate, ask.args.term) && Carries(ask.args, r[h].nodes[ask.args.candidate])
    ensures ask.to != ask.args.candidate
  {
    assert r[0].asks == {} && j > 0;
    var c := r[j - 1];
    if ask in c.asks {
      h := AskWasSent(r, j - 1, ask);
    } else {
      RunInv(r, j - 1);
      assert StepAt(r, j - 1);
      NewAsk(c, r[j], ask);
      h := j - 1;
    }
  }

  /** A node stands at most once in a term. */
  lemma StandsOnce(r: seq<Cluster>, h: nat, i: nat, w: NodeID, term: nat)
    requires Run(r) && Stands(r, h, w, term) && Stands(r, i, w, term)
    ensures h == i
  {
    if h < i {
      TermsRiseTo(r, h + 1, i);
    } else if i < h {
      TermsRiseTo(r, i + 1, h);
    }
  }

  // ---------------------------------------------------------------- votes

  /** Log pairs are compared by term, then by index. */
  predicate NotAbove(s: State, lastTerm: nat, lastIndex: nat) {
    s.lastTerm < lastTerm || (s.lastTerm == lastTerm && s.lastIndex <= lastIndex)
  }

  /** In step `i`, `v` votes for the sender of `args`, whose log pair is not below its own. */
  ghost predicate Votes(r: seq<Cluster>, i: nat, v: NodeID, args: VoteArgs) {
    && CastIn(r, i, v, args.term, args.candidate)
    && v in r[i].nodes && Ask(v, args) in r[i].asks && NotAbove(r[i].nodes[v], args.lastLogTerm, args.lastLogIndex)
  }

  /** The vote of `v` in `term` goes on record in step `i`, for `w`. */
  ghost predicate CastIn(r: seq<Cluster>, i: nat, v: NodeID, term: nat, w: NodeID) {
    && i + 1 < |r| && Ballot(v, term) !in r[i].ledger
    && Ballot(v, term) in r[i + 1].ledger && r[i + 1].ledger[Ballot(v, term)] == w
  }

  ghost predicate NobodyAsksThemselves(c: Cluster) {
    forall ask | ask in c.asks :: ask.to != ask.args.candidate
  }

  lemma NewBallot(c: Cluster, d: Cluster, v: NodeID, term: nat, w: NodeID) returns (args: VoteArgs)
    requires Inv(c) && Next(c, d) && NobodyAsksThemselves(c)
    requires Ballot(v, term) in d.ledger && Ballot(v, term) !in c.ledger && d.ledger[Ballot(v, term)] == w
    ensures v == w ==> StandsIn(c, d, v, term)
    ensures v != w ==>
              && args.candidate == w && args.term == term
              && v in c.nodes && Ask(v, args) in c.asks && NotAbove(c.nodes[v], args.lastLogTerm, args.lastLogIndex)
  {
    var step :| Enabled(c, step) && d == Apply(c, step);
    args := if step.DeliverAsk? then step.ask.args else VoteArgs(0, "", 0, 0);
    assert NodeOk(c, if step.DeliverAsk? then step.ask.to else step.n);
  }

  lemma LedgerKept(c: Cluster, d: Cluster)
    requires Inv(c) && Next(c, d)
    ensures LedgerGrows(c, d)
  {
    var step :| Enabled(c, step) && d == Apply(c, step);
    if step.Timeout? {
      TimeoutNode(c, step.n, d);
    } else if step.DeliverAsk? {
      AskLedger(c, step.ask, d);
    }
  }

  /** Every vote on record was cast for oneself when standing, or for a candidate whose request carried
      a log pair not below the voter's. */
  lemma {:induction false} VoteWasCast(r: seq<Cluster>, j: nat, v: NodeID, term: nat, w: NodeID)
    returns (i: nat, args: VoteArgs)
    requires Run(r) && j < |r| && Ballot(v, term) in r[j].ledger && r[j].ledger[Ballot(v, term)] == w
    ensures i < j && (v == w ==> Stands(r, i, v, term))
    ensures v != w ==> Votes(r, i, v, args) && args.candidate == w && args.term == term
  {
    assert r[0].ledger == map[] && j > 0;
    var c := r[j - 1];
    RunInv(r, j - 1);
    assert StepAt(r, j - 1);
    LedgerKept(c, r[j]);
    if Ballot(v, term) in c.ledger {
      i, args := VoteWasCast(r, j - 1, v, term, w);
    } else {
      NoSelfAsks(r, j - 1);
      args := NewBallot(c, r[j], v, term, w);
      i := j - 1;
    }
  }

  lemma NoSelfAsks(r: seq<Cluster>, j: nat)
    requires Run(r) && j < |r|
    ensures NobodyAsksThemselves(r[j])
  {
    forall ask | ask in r[j].asks
      ensures ask.to != ask.args.candidate
    {
      var _ := AskWasSent(r, j, ask);
    }
  }

  /** A vote for `w` in `term` by `v`, cast after `w` stood in step `h`, with a log pair not above the one
      `w` had then. */
  ghost predicate Backs(r: seq<Cluster>, h: nat, i: nat, v: NodeID, term: nat, w: NodeID) {
    && h < i && CastIn(r, i, v, term, w) && w in r[h].nodes && v in r[i].nodes
    && NotAbove(r[i].nodes[v], r[h].nodes[w].lastTerm, r[h].nodes[w].lastIndex)
  }

  /** In every run, whoever is ever leader in a term stood in it, once, and was voted for by a majority
      whose other members each had, when they voted, a log pair not above the leader's when it stood. */
  lemma WinnerUpToDate(r: seq<Cluster>, j: nat, w: NodeID) returns (h: nat)
    requires Run(r) && j < |r| && w in r[j].nodes && r[j].nodes[w].role == Leader
    ensures Stands(r, h, w, r[j].nodes[w].term) && h < j
    ensures |Supporters(r[j], w, r[j].nodes[w].term)| >= Majority(r[j].members)
    ensures forall v | v in Supporters(r[j], w, r[j].nodes[w].term) && v != w ::
              exists i :: Backs(r, h, i, v, r[j].nodes[w].term, w)
  {
    var term := r[j].nodes[w].term;
    RunInv(r, j);
    assert NodeOk(r[j], w) && (term, w) in r[j].won;
    assert |Supporters(r[j], (term, w).1, (term, w).0)| >= Majority(r[j].members);
    var some :| some in Supporters(r[j], w, term);
    h := StoodFor(r, j, some, term, w);
    forall v | v in Supporters(r[j], w, term) && v != w
      ensures exists i :: Backs(r, h, i, v, term, w)
    {
      var i := BackerOf(r, h, j, v, term, w);
    }
  }

  lemma StoodFor(r: seq<Cluster>, j: nat, v: NodeID, term: nat, w: NodeID) returns (h: nat)
    requires Run(r) && j < |r| && Ballot(v, term) in r[j].ledger && r[j].ledger[Ballot(v, term)] == w
    ensures h < j && Stands(r, h, w, term)
  {
    var i, args := VoteWasCast(r, j, v, term, w);
    h := i;
    if v != w {
      h := AskWasSent(r, i, Ask(v, args));
    }
  }

  lemma BackerOf(r: seq<Cluster>, h: nat, j: nat, v: NodeID, term: nat, w: NodeID) returns (i: nat)
    requires Run(r) && j < |r| && Ballot(v, term) in r[j].ledger && r[j].ledger[Ballot(v, term)] == w
    requires Stands(r, h, w, term) && v != w
    ensures Backs(r, h, i, v, term, w)
  {
    var args;
    i, args := VoteWasCast(r, j, v, term, w);
    var sent := AskWasSent(r, i, Ask(v, args));
    StandsOnce(r, h, sent, w, term);
  }

  // ---------------------------------------------------------------- an election that is won

  /** The node can still vote for a candidate with this log pair in `term`. */
  predicate CanVote(s: State, term: nat, lastTerm: nat, lastIndex: nat) {
    s.term < term && NotAbove(s, lastTerm, lastIndex)
  }

  /** `w` stands in `term`, has `have` votes or won, and its requests to `voters` are on their way. */
  ghost predicate Running(c: Cluster, w: NodeID, args: VoteArgs, have: nat, voters: set<NodeID>) {
    && w in c.nodes && c.nodes[w].term == args.term && args.candidate == w && w !in voters
    && (c.nodes[w].role == Leader || (c.nodes[w].role == Candidate && have <= c.nodes[w].votes < Majority(c.members)))
    && (forall v | v in voters :: Waiting(c, v, w, args))
  }

  ghost predicate Waiting(c: Cluster, v: NodeID, w: NodeID, args: VoteArgs) {
    && v in c.nodes && CanVote(c.nodes[v], args.term, args.lastLogTerm, args.lastLogIndex)
    && Ask(v, args) in c.asks && Call(w, v, args.term) in c.calls
  }

  /** The steps can be taken one after the other. */
  ghost predicate Path(r: seq<Cluster>) {
    |r| > 0 && forall i | 0 <= i < |r| - 1 :: StepAt(r, i)
  }

  ghost function Last(r: seq<Cluster>): Cluster
    requires |r| > 0
  {
    r[|r| - 1]
  }

  lemma PathOn(r: seq<Cluster>, step: Step) returns (r': seq<Cluster>)
    requires Path(r) && Inv(Last(r)) && Enabled(Last(r), step)
    ensures r' == r + [Apply(Last(r), step)] && Path(r') && Inv(Last(r'))
  {
    r' := r + [Apply(Last(r), step)];
    StepKeeps(Last(r), step);
    forall i | 0 <= i < |r'| - 1
      ensures StepAt(r', i)
    {
      if i < |r| - 1 {
        assert StepAt(r, i);
      }
    }
  }

  /** Only node `v` differs, and neither requests nor members do. */
  ghost predicate OnlyNode(c: Cluster, d: Cluster, v: NodeID) {
    && d.members == c.members && d.asks == c.asks && d.nodes.Keys == c.nodes.Keys
    && forall n | n in c.nodes && n != v :: d.nodes[n] == c.nodes[n]
  }

  lemma Granted(r: seq<Cluster>, w: NodeID, args: VoteArgs, v: NodeID) returns (r': seq<Cluster>)
    requires Path(r) && Inv(Last(r)) && Waiting(Last(r), v, w, args) && args.candidate == w && v != w
    ensures Path(r') && r <= r' && Inv(Last(r')) && OnlyNode(Last(r), Last(r'), v) && Last(r').calls == Last(r).calls
    ensures Answer(v, w, args.term, VoteReply(args.term, true)) in Last(r').answers
  {
    r' := PathOn(r, DeliverAsk(Ask(v, args)));
  }

  /** The vote makes `w` leader exactly if it completes a majority. */
  ghost predicate OneVoteMore(s: State, t: State, majority: nat) {
    && t.term == s.term && (s.role == Leader ==> t.role == Leader)
    && (s.role == Candidate ==> if s.votes + 1 >= majority then t.role == Leader else t.role == Candidate && t.votes == s.votes + 1)
  }

  lemma Counted(r: seq<Cluster>, w: NodeID, term: nat, v: NodeID) returns (r': seq<Cluster>)
    requires Path(r) && Inv(Last(r)) && w in Last(r).nodes && Last(r).nodes[w].term == term
    requires Call(w, v, term) in Last(r).calls && Answer(v, w, term, VoteReply(term, true)) in Last(r).answers
    ensures Path(r') && r <= r' && Inv(Last(r')) && OnlyNode(Last(r), Last(r'), w)
    ensures Last(r').calls == Last(r).calls - {Call(w, v, term)}
    ensures OneVoteMore(Last(r).nodes[w], Last(r').nodes[w], Majority(Last(r).members))
  {
    r' := PathOn(r, DeliverAnswer(Answer(v, w, term, VoteReply(term, true))));
  }

  /** One more vote: the request reaches `v`, which grants it, and the reply reaches `w`. */
  lemma OneMoreVote(r: seq<Cluster>, w: NodeID, args: VoteArgs, have: nat, voters: set<NodeID>, v: NodeID)
    returns (r': seq<Cluster>)
    requires Path(r) && Inv(Last(r)) && Running(Last(r), w, args, have, voters) && v in voters
    ensures Path(r') && r <= r' && Inv(Last(r')) && Running(Last(r'), w, args, have + 1, voters - {v})
    ensures Last(r').members == Last(r).members
  {
    assert Waiting(Last(r), v, w, args);
    var granted := Granted(r, w, args, v);
    r' := Counted(granted, w, args.term, v);
    RunsOn(Last(r), Last(granted), Last(r'), w, args, have, voters, v);
  }

  lemma RunsOn(c: Cluster, d: Cluster, e: Cluster, w: NodeID, args: VoteArgs, have: nat, voters: set<NodeID>, v: NodeID)
    requires Running(c, w, args, have, voters) && v in voters && v != w && w in d.nodes && w in e.nodes
    requires OnlyNode(c, d, v) && d.calls == c.calls && OnlyNode(d, e, w) && e.calls == d.calls - {Call(w, v, args.term)}
    requires OneVoteMore(d.nodes[w], e.nodes[w], Majority(d.members))
    ensures Running(e, w, args, have + 1, voters - {v})
  {
    forall u | u in voters - {v}
      ensures Waiting(e, u, w, args)
    {
      assert Waiting(c, u, w, args);
    }
  }

  lemma {:induction false} VotesComeIn(r: seq<Cluster>, w: NodeID, args: VoteArgs, have: nat, voters: set<NodeID>)
    returns (r': seq<Cluster>)
    requires Path(r) && Inv(Last(r)) && Running(Last(r), w, args, have, voters)
    ensures Path(r') && r <= r' && Running(Last(r'), w, args, have + |voters|, {})
    ensures Last(r').members == Last(r).members
    decreases voters
  {
    if voters == {} {
      r' := r;
    } else {
      var v :| v in voters;
      r' := OneMoreVote(r, w, args, have, voters, v);
      r' := VotesComeIn(r', w, args, have + 1, voters - {v});
    }
  }

  /** `v` is not ahead of `w`, in terms or in log pairs. */
  predicate Behind(v: State, w: State) {
    v.term <= w.term && NotAbove(v, w.lastTerm, w.lastIndex)
  }

  /** A node that is no leader can win the next term with any majority of nodes that are not ahead of
      it. */
  lemma ElectionIsWon(c: Cluster, w: NodeID, voters: set<NodeID>) returns (r: seq<Cluster>)
    requires Inv(c) && w in c.nodes && c.nodes[w].role != Leader
    requires voters <= c.members - {w} && |voters| + 1 >= Majority(c.members)
    requires forall v | v in voters :: Behind(c.nodes[v], c.nodes[w])
    ensures Path(r) && r[0] == c && w in Last(r).nodes
    ensures Last(r).nodes[w].role == Leader && Last(r).nodes[w].term == c.nodes[w].term + 1
  {
    var args := VoteArgs(c.nodes[w].term + 1, w, c.nodes[w].lastIndex, c.nodes[w].lastTerm);
    r := Stood(c, w, args, voters);
    r := VotesComeIn(r, w, args, 1, voters);
  }

  lemma Stood(c: Cluster, w: NodeID, args: VoteArgs, voters: set<NodeID>) returns (r: seq<Cluster>)
    requires Inv(c) && w in c.nodes && c.nodes[w].role != Leader && voters <= c.members - {w}
    requires args == VoteArgs(c.nodes[w].term + 1, w, c.nodes[w].lastIndex, c.nodes[w].lastTerm)
    requires forall v | v in voters :: Behind(c.nodes[v], c.nodes[w])
    ensures Path(r) && r[0] == c && Inv(Last(r)) && Running(Last(r), w, args, 1, voters) && Last(r).members == c.members
  {
    r := PathOn([c], Timeout(w));
    Ran(c, w, args, Last(r));
    forall v | v in voters
      ensures Waiting(Last(r), v, w, args)
    {
      assert Behind(c.nodes[v], c.nodes[w]);
    }
  }

  lemma Ran(c: Cluster, w: NodeID, args: VoteArgs, d: Cluster)
    requires Inv(c) && Enabled(c, Timeout(w)) && d == Apply(c, Timeout(w))
    requires args == VoteArgs(c.nodes[w].term + 1, w, c.nodes[w].lastIndex, c.nodes[w].lastTerm)
    ensures d.members == c.members && w in d.nodes && d.nodes[w].term == args.term
    ensures if |c.members| == 1 then d.nodes[w].role == Leader else d.nodes[w].role == Candidate && d.nodes[w].votes == 1
    ensures Majority(c.members) == 1 ==> |c.members| == 1
    ensures forall v | v in c.members && v != w ::
              v in d.nodes && d.nodes[v] == c.nodes[v] && Ask(v, args) in d.asks && Call(w, v, args.term) in d.calls
  {
    SubsetSize({w}, c.members);
  }
}
