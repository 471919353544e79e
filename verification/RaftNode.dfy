/** The election part of one Raft node: term, vote and role, and the handlers that change them. */
module RaftNode {

  /** "" is no node at all: it stands for "has not voted". */
  type NodeID = string

  datatype Role = Follower | Candidate | Leader

  datatype State = State(
    id: NodeID,
    term: nat,
    votedFor: NodeID,
    role: Role,
    votes: nat,
    lastIndex: nat,
    lastTerm: nat,
    diskTerm: nat,
    diskVote: NodeID)

  datatype VoteArgs = VoteArgs(term: nat, candidate: NodeID, lastLogIndex: nat, lastLogTerm: nat)

  datatype VoteReply = VoteReply(term: nat, granted: bool)

  predicate Persisted(s: State) {
    s.diskTerm == s.term && s.diskVote == s.votedFor
  }

  function Persist(s: State): (r: State)
    ensures Persisted(r)
  {
    s.(diskTerm := s.term, diskVote := s.votedFor)
  }

  /** Stand for election: a new term, and a vote for oneself. */
  function Candidacy(s: State): State {
    Persist(s.(role := Candidate, term := s.term + 1, votedFor := s.id, votes := 1))
  }

  function Crowned(s: State): State {
    s.(role := Leader, lastIndex := s.lastIndex + 1, lastTerm := s.term)
  }

  function Election(s: State, clusterSize: nat): State {
    var c := Candidacy(s);
    if clusterSize == 1 then Crowned(c) else c
  }

  function StepDown(s: State, term: nat): State {
    Persist(s.(role := Follower, term := term, votedFor := ""))
  }

  function CatchUp(s: State, term: nat): State {
    if term > s.term then StepDown(s, term) else s
  }

  predicate UpToDate(args: VoteArgs, s: State) {
    args.lastLogTerm > s.lastTerm || (args.lastLogTerm == s.lastTerm && args.lastLogIndex >= s.lastIndex)
  }

  predicate Grants(s: State, args: VoteArgs) {
    var u := CatchUp(s, args.term);
    args.term >= s.term && (u.votedFor == "" || u.votedFor == args.candidate) && UpToDate(args, u)
  }

  function AfterVoteRequest(s: State, args: VoteArgs): State {
    if args.term < s.term then s
    else
      var u := CatchUp(s, args.term);
      if Grants(s, args) then Persist(u.(votedFor := args.candidate)) else u
  }

  function AfterVoteReply(s: State, asked: nat, reply: VoteReply, majority: nat): State {
    if reply.term > s.term then StepDown(s, reply.term)
    else if s.role != Candidate || s.term != asked || !reply.granted then s
    else
      var t := s.(votes := s.votes + 1);
      if t.votes >= majority then Crowned(t) else t
  }

  /** AppendEntries and InstallSnapshot, as far as they touch term, vote and role. */
  function AfterLeaderContact(s: State, term: nat): State {
    if term < s.term then s
    else
      var u := CatchUp(s, term);
      if u.role == Candidate then u.(role := Follower) else u
  }

  /** A crash loses everything that is not on disk. */
  function Restarted(s: State): State {
    s.(term := s.diskTerm, votedFor := s.diskVote, role := Follower, votes := 0)
  }

  class Node {
    const id: NodeID
    const peers: set<NodeID>
    var term: nat
    var votedFor: NodeID
    var role: Role
    var votesReceived: nat
    var lastIndex: nat
    var lastTerm: nat
    var diskTerm: nat
    var diskVote: NodeID

    function Now(): State
      reads this
    {
      State(id, term, votedFor, role, votesReceived, lastIndex, lastTerm, diskTerm, diskVote)
    }

    function Majority(): nat {
      (1 + |peers|) / 2 + 1
    }

    constructor (id: NodeID, peers: set<NodeID>)
      ensures this.id == id && this.peers == peers
      ensures Now() == State(id, 0, "", Follower, 0, 0, 0, 0, "")
    {
      this.id, this.peers := id, peers;
      term, votedFor, role, votesReceived := 0, "", Follower, 0;
      lastIndex, lastTerm, diskTerm, diskVote := 0, 0, 0, "";
    }

    method PersistState()
      modifies this`diskTerm, this`diskVote
      ensures Now() == Persist(old(Now()))
    {
      diskTerm, diskVote := term, votedFor;
    }

    method LoadState()
      modifies this
      ensures Now() == Restarted(old(Now()))
      ensures term == old(diskTerm) && votedFor == old(diskVote) && role == Follower && votesReceived == 0
    {
      role, votesReceived := Follower, 0;
      term := diskTerm;
      votedFor := diskVote;
    }

    method BecomeLeader()
      modifies this
      ensures Now() == Crowned(old(Now()))
      ensures role == Leader && term == old(term) && lastIndex == old(lastIndex) + 1 && lastTerm == term
    {
      role := Leader;
      lastIndex, lastTerm := lastIndex + 1, term;
    }

    method BecomeFollower(newTerm: nat)
      modifies this
      ensures Now() == StepDown(old(Now()), newTerm)
      ensures role == Follower && term == diskTerm == newTerm && votedFor == diskVote == ""
    {
      role := Follower;
      term := newTerm;
      votedFor := "";
      PersistState();
    }

    /** The election timer fired on a node that is not the leader. */
    method BecomeCandidate() returns (args: VoteArgs)
      modifies this
      ensures Now() == Election(old(Now()), 1 + |peers|)
      ensures term == diskTerm == old(term) + 1 && votedFor == diskVote == id && votesReceived == 1
      ensures role == if peers == {} then Leader else Candidate
      ensures args == VoteArgs(term, id, old(lastIndex), old(lastTerm))
    {
      role := Candidate;
      term := term + 1;
      votedFor := id;
      votesReceived := 1;
      PersistState();
      args := VoteArgs(term, id, lastIndex, lastTerm);
      if |peers| == 0 && votesReceived >= Majority() {
        BecomeLeader();
      }
    }

    method HandleVoteReply(asked: nat, reply: VoteReply)
      modifies this
      ensures Now() == AfterVoteReply(old(Now()), asked, reply, Majority())
      ensures reply.term > old(term) ==> role == Follower && term == reply.term && votedFor == ""
      ensures reply.term <= old(term) ==> term == old(term) && votedFor == old(votedFor)
      ensures reply.term <= old(term) && old(role) != Leader ==>
                (role == Leader <==> old(role) == Candidate && asked == old(term) && reply.granted
                                     && 2 * (old(votesReceived) + 1) > 1 + |peers|)
    {
      if reply.term > term {
        BecomeFollower(reply.term);
        return;
      }
      if role != Candidate || term != asked {
        return;
      }
      if reply.granted {
        votesReceived := votesReceived + 1;
        if votesReceived >= Majority() {
          BecomeLeader();
        }
      }
    }

    method HandleRequestVote(args: VoteArgs) returns (reply: VoteReply)
      modifies this
      ensures Now() == AfterVoteRequest(old(Now()), args)
      ensures reply == VoteReply(term, Grants(old(Now()), args))
      ensures reply.granted <==>
                && old(term) <= args.term
                && (old(term) < args.term || old(votedFor) == "" || old(votedFor) == args.candidate)
                && (old(lastTerm) < args.lastLogTerm || (old(lastTerm) == args.lastLogTerm && old(lastIndex) <= args.lastLogIndex))
      ensures term == (if old(term) < args.term then args.term else old(term)) && lastTerm == old(lastTerm) && lastIndex == old(lastIndex)
      ensures votedFor == if reply.granted then args.candidate else if old(term) < args.term then "" else old(votedFor)
      ensures old(Persisted(Now())) ==> Persisted(Now())
    {
      reply := VoteReply(term, false);
      if args.term < term {
        return;
      }
      if args.term > term {
        BecomeFollower(args.term);
        reply := reply.(term := term);
      }
      var canVote := votedFor == "" || votedFor == args.candidate;
      var logOK := args.lastLogTerm > lastTerm || (args.lastLogTerm == lastTerm && args.lastLogIndex >= lastIndex);
      if canVote && logOK {
        votedFor := args.candidate;
        PersistState();
        reply := reply.(granted := true);
      }
    }

    method HandleAppendEntries(leaderTerm: nat)
      modifies this
      ensures Now() == AfterLeaderContact(old(Now()), leaderTerm)
      ensures leaderTerm < old(term) ==> Now() == old(Now())
      ensures leaderTerm >= old(term) ==> term == leaderTerm && role != Candidate
      ensures leaderTerm == old(term) ==> votedFor == old(votedFor) && (old(role) != Candidate ==> role == old(role))
    {
      if leaderTerm < term {
        return;
      }
      if leaderTerm > term {
        BecomeFollower(leaderTerm);
      }
      if role == Candidate {
        role := Follower;
      }
    }
  }
}
