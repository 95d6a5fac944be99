/** Election safety over every run of a group of nodes exchanging messages that the network may
    lose, repeat, delay and reorder. */
module RaftElection {
  import opened RaftTypes
  import opened RaftLogs
  import opened RaftNode

  // ----- What a step does to votes --------------------------------------------------

  /** A granted vote. */
  predicate Grant(x: Message) {
    x.kind == VoteResp && !x.reject
  }

  /** The outbox holds the node's own messages, no granted vote among them. */
  ghost predicate NoGrants(n: Node) {
    forall i :: 0 <= i < |n.msgs| ==> n.msgs[i].from == n.id && !Grant(n.msgs[i])
  }

  /** Same term, votes and role. */
  ghost predicate SameBallot(n: Node, n': Node) {
    && n'.id == n.id && n'.peers == n.peers && n'.role == n.role
    && n'.term == n.term && n'.votedFor == n.votedFor && n'.votes == n.votes
  }

  /** `n'` is a candidate whose votes are those of `n` with the answer `m`, or a fresh candidate. */
  ghost predicate Candidacy(n: Node, m: Message, n': Node) {
    || (n.role == Candidate && n'.term == n.term &&
        (n'.votes == n.votes || (m.kind == VoteResp && m.term <= n.term && n'.votes == n.votes[m.from := !m.reject])))
    || (n.term < n'.term && n'.votes == map[n.id := true] && n'.votedFor == n.id)
  }

  /** How one step on message `m` may move term, vote, role and granted votes. */
  ghost predicate BallotStep(n: Node, m: Message, n': Node) {
    && n'.id == n.id && n'.peers == n.peers && n.term <= n'.term
    && (forall i :: 0 <= i < |n'.msgs| ==> n'.msgs[i].from == n.id)
    && (forall i :: 0 <= i < |n'.msgs| && Grant(n'.msgs[i]) ==>
          && m.kind == Vote && m.term == n'.term && n'.votedFor == m.from
          && n'.msgs[i].to == m.from && n'.msgs[i].term == m.term)
    && (|| n'.votedFor == NONE
        || (n'.term == n.term && n'.votedFor == n.votedFor)
        || (m.kind == Vote && m.term == n'.term && n'.votedFor == m.from &&
            (n.term < n'.term || n.votedFor == NONE || n.votedFor == m.from))
        || (n.term < n'.term && n'.votedFor == n.id))
    && (n'.role == Candidate ==> Candidacy(n, m, n'))
    && (n'.role == Leader && !(n.role == Leader && n'.term == n.term) ==>
          Candidacy(n, m, n') && n'.Tally() >= n'.Quorum())
  }

  lemma {:induction false} SendAppendBallot(n: Node, to: nat)
    ensures SameBallot(n, SendAppend(n, to)) && (NoGrants(n) ==> NoGrants(SendAppend(n, to)))
  {
    hide Granted;
    hide Log.Entries;
    hide Log.Term;
    hide Log.LastIndex;
  }

  lemma {:induction false} BcastAppendBallot(n: Node, k: nat)
    requires k <= |n.peers|
    ensures SameBallot(n, BcastAppend(n, k)) && (NoGrants(n) ==> NoGrants(BcastAppend(n, k)))
  {
    hide SendAppend;
    if k > 0 {
      BcastAppendBallot(n, k - 1);
      SendAppendBallot(BcastAppend(n, k - 1), n.peers[k - 1]);
    }
  }

  lemma {:induction false} BcastVoteBallot(n: Node, k: nat, pre: bool)
    requires k <= |n.peers|
    ensures SameBallot(n, BcastVote(n, k, pre)) && (NoGrants(n) ==> NoGrants(BcastVote(n, k, pre)))
  {
    hide Log.LastIndex;
    hide Log.LastTerm;
    if k > 0 {
      BcastVoteBallot(n, k - 1, pre);
    }
  }

  lemma {:induction false} BcastHeartbeatBallot(n: Node, k: nat)
    requires k <= |n.peers|
    ensures SameBallot(n, BcastHeartbeat(n, k)) && (NoGrants(n) ==> NoGrants(BcastHeartbeat(n, k)))
  {
    if k > 0 {
      BcastHeartbeatBallot(n, k - 1);
    }
  }

  lemma {:induction false} BecomeLeaderBallot(n: Node)
    ensures SameBallot(n.(role := Leader), BecomeLeader(n)) && (NoGrants(n) ==> NoGrants(BecomeLeader(n)))
  {
    hide CommitScan;
    hide Log.LastIndex;
    hide Log.Append;
    hide BcastAppend;
    BcastAppendBallot(MaybeAdvanceCommit(Led(n)), |n.peers|);
  }

  /** A campaign ends in a pre-election at the same term, or at the next term with the node's own
      vote, won only if that vote is a quorum. */
  lemma {:induction false} CampaignBallot(n: Node, pre: bool, timeout: nat)
    requires NoGrants(n)
    ensures var c := Campaign(n, pre, timeout);
            && c.id == n.id && c.peers == n.peers && NoGrants(c)
            && (|| (c.role == PreCandidate && c.term == n.term && c.votedFor == n.votedFor)
                || (c.term == n.term + 1 && c.votedFor == n.id && c.votes == map[n.id := true] &&
                    (c.role == Candidate || (c.role == Leader && c.Tally() >= c.Quorum()))))
    decreases pre
  {
    hide Granted;
    hide BecomeLeader;
    hide BcastVote;
    var c := if pre then BecomePreCandidate(n, timeout) else BecomeCandidate(n, timeout);
    if c.Tally() >= c.Quorum() {
      if pre {
        CampaignBallot(c, false, timeout);
      } else {
        BecomeLeaderBallot(c);
      }
    } else {
      BcastVoteBallot(c, |c.peers|, pre);
    }
  }

  /** A step that keeps the ballot and grants nothing. */
  lemma {:induction false} QuietBallot(n: Node, m: Message, n': Node)
    requires SameBallot(n, n') && NoGrants(n')
    ensures BallotStep(n, m, n')
  {
  }

  lemma {:induction false} VoteBallot(n: Node, m: Message)
    requires n.msgs == [] && m.term <= n.term && m.kind == Vote
    ensures BallotStep(n, m, OnVote(n, m))
  {
    hide BallotStep;
    hide Log.IsUpToDate;
    if m.term >= n.term && n.CanVote(m) && n.log.IsUpToDate(m.index, m.logTerm) {
      VotedBallot(n, m, OnVote(n, m));
    } else {
      hide Node.Send;
      SendQuiet(n, Note(VoteResp, m.from, n.id, n.term).(reject := true));
      QuietBallot(n, m, OnVote(n, m));
    }
  }

  lemma {:induction false} VotedBallot(n: Node, m: Message, n': Node)
    requires m.kind == Vote && m.term == n.term && (n.votedFor == NONE || n.votedFor == m.from)
    requires SameBallot(n.(votedFor := m.from), n') && n'.msgs == [Note(VoteResp, m.from, n.id, m.term)]
    ensures BallotStep(n, m, n')
  {
    hide Granted;
  }

  lemma {:induction false} PreVoteBallot(n: Node, m: Message)
    requires NoGrants(n) && m.kind == PreVote
    ensures BallotStep(n, m, OnVote(n, m))
  {
    hide NoGrants;
    hide BallotStep;
    hide Node.Send;
    hide Log.IsUpToDate;
    SendQuiet(n, Note(PreVoteResp, m.from, n.id, m.term));
    SendQuiet(n, Note(PreVoteResp, m.from, n.id, n.term).(reject := true));
    QuietBallot(n, m, OnVote(n, m));
  }

  lemma {:induction false} VoteRespBallot(n: Node, m: Message)
    requires n.msgs == [] && m.term <= n.term && m.kind == VoteResp
    ensures BallotStep(n, m, OnVoteResp(n, m))
  {
    hide Granted;
    hide BecomeLeader;
    BecomeLeaderBallot(n.(votes := n.votes[m.from := !m.reject]));
  }

  lemma {:induction false} PreVoteRespBallot(n: Node, m: Message, timeout: nat)
    requires n.msgs == []
    ensures BallotStep(n, m, OnPreVoteResp(n, m, timeout))
  {
    hide Granted;
    hide Campaign;
    CampaignBallot(n.(votes := n.votes[m.from := !m.reject]), false, timeout);
  }

  lemma {:induction false} PropBallot(n: Node, m: Message)
    requires n.msgs == []
    ensures SameBallot(n, OnProp(n, m)) && NoGrants(OnProp(n, m))
  {
    hide BcastAppend;
    hide CommitScan;
    hide Log.LastIndex;
    hide Log.Append;
    var log := n.log.Append(Numbered(m.entries, n.term, n.log.LastIndex()));
    BcastAppendBallot(n.(log := log, matchIndex := n.matchIndex[n.id := log.LastIndex()]), |n.peers|);
  }

  lemma {:induction false} SendQuiet(n: Node, x: Message)
    requires NoGrants(n) && x.from == n.id && !Grant(x)
    ensures NoGrants(n.Send(x)) && SameBallot(n, n.Send(x))
  {
  }

  /** A step that ends in a follower without a vote and grants nothing. */
  lemma {:induction false} FollowBallot(n: Node, m: Message, n': Node)
    requires n'.id == n.id && n'.peers == n.peers && n.term <= n'.term && NoGrants(n')
    requires n'.role == Follower && n'.votedFor == NONE
    ensures BallotStep(n, m, n')
  {
  }

  lemma {:induction false} AppBallot(n: Node, m: Message, timeout: nat)
    requires NoGrants(n)
    ensures BallotStep(n, m, OnApp(n, m, timeout))
  {
    hide NoGrants;
    hide BallotStep;
    hide Node.Send;
    hide Log.LastIndex;
    hide Log.Append;
    hide Log.Term;
    SameOutbox(n, BecomeFollower(n, m.term, m.from, timeout));
    var f := if m.term < n.term then n else BecomeFollower(n, m.term, m.from, timeout);
    SendQuiet(f, Note(AppResp, m.from, f.id, f.term).(reject := true, hint := f.log.LastIndex()));
    if m.term < n.term {
      QuietBallot(n, m, OnApp(n, m, timeout));
    } else {
      var log := f.log.Append(m.entries);
      var log' := if m.commit > log.committed then log.CommitTo(Min(m.commit, log.LastIndex())) else log;
      SameOutbox(f, f.(log := log'));
      SendQuiet(f.(log := log'), Note(AppResp, m.from, f.id, f.term).(index := log'.LastIndex()));
      FollowBallot(n, m, OnApp(n, m, timeout));
    }
  }

  lemma {:induction false} SameOutbox(n: Node, n': Node)
    requires n'.msgs == n.msgs && n'.id == n.id
    ensures NoGrants(n) <==> NoGrants(n')
  {
  }

  lemma {:induction false} SnapBallot(n: Node, m: Message, timeout: nat)
    requires NoGrants(n)
    ensures BallotStep(n, m, OnSnap(n, m, timeout))
  {
    hide NoGrants;
    hide BallotStep;
    hide Node.Send;
    hide Log.LastIndex;
    hide Log.Restore;
    if m.term < n.term {
      SendQuiet(n, Note(AppResp, m.from, n.id, n.term).(reject := true, hint := n.log.LastIndex()));
      QuietBallot(n, m, OnSnap(n, m, timeout));
    } else {
      var f := BecomeFollower(n, m.term, m.from, timeout);
      var r := f.(log := f.log.Restore(m.snap));
      SameOutbox(n, r);
      SendQuiet(r, Note(AppResp, m.from, r.id, r.term)
                .(index := if m.snap.index > f.log.committed then r.log.LastIndex() else r.log.committed));
      FollowBallot(n, m, OnSnap(n, m, timeout));
    }
  }

  lemma {:induction false} RespBallot(n: Node, m: Message)
    requires NoGrants(n)
    ensures SameBallot(n, OnAppResp(n, m)) && NoGrants(OnAppResp(n, m))
    ensures SameBallot(n, OnHeartbeatResp(n, m)) && NoGrants(OnHeartbeatResp(n, m))
  {
    hide NoGrants;
    hide SendAppend;
    hide CommitScan;
    hide Log.LastIndex;
    var a := n.(recentActive := n.recentActive + {m.from});
    var next := At(a.nextIndex, m.from);
    var backed := if m.hint < next then m.hint + 1 else if next > 1 then next - 1 else next;
    var b := a.(nextIndex := a.nextIndex[m.from := backed]);
    SameOutbox(n, a);
    SameOutbox(n, b);
    SendAppendBallot(b, m.from);
    SendAppendBallot(a, m.from);
    if n.role == Leader && !m.reject {
      SameOutbox(n, OnAppResp(n, m));
    }
  }

  lemma {:induction false} HeartbeatBallot(n: Node, m: Message)
    requires NoGrants(n)
    ensures SameBallot(n, OnHeartbeat(n, m)) && NoGrants(OnHeartbeat(n, m))
  {
    hide NoGrants;
    hide Node.Send;
    hide Log.LastIndex;
    var h :=
      if m.term >= n.term then
        n.(electionElapsed := 0, leadID := m.from, log := n.log.CommitTo(Min(m.commit, n.log.LastIndex())))
      else n;
    SameOutbox(n, h);
    SendQuiet(h, Note(HeartbeatResp, m.from, h.id, h.term));
  }

  lemma {:induction false} HupBallot(n: Node, m: Message, timeout: nat)
    requires n.msgs == []
    ensures BallotStep(n, m, Campaign(n, n.preVote, timeout))
  {
    hide Campaign;
    CampaignBallot(n, n.preVote, timeout);
  }

  lemma {:induction false} HandleBallot(n: Node, m: Message, timeout: nat)
    requires n.msgs == [] && (Speculative(m) || m.term <= n.term)
    ensures BallotStep(n, m, Handle(n, m, timeout))
  {
    hide *;
    QuietHere(n, m);
    HandleCases(n, m, timeout);
    match m.kind
    case Hup => HupBallot(n, m, timeout);
    case Beat => BcastHeartbeatBallot(n, |n.peers|); QuietBallot(n, m, BcastHeartbeat(n, |n.peers|));
    case Vote => VoteBallot(n, m);
    case PreVote => PreVoteBallot(n, m);
    case VoteResp => VoteRespBallot(n, m);
    case PreVoteResp => PreVoteRespBallot(n, m, timeout);
    case Prop => PropBallot(n, m); QuietBallot(n, m, OnProp(n, m));
    case App => AppBallot(n, m, timeout);
    case AppResp => RespBallot(n, m); QuietBallot(n, m, OnAppResp(n, m));
    case Heartbeat => HeartbeatBallot(n, m); QuietBallot(n, m, OnHeartbeat(n, m));
    case HeartbeatResp => RespBallot(n, m); QuietBallot(n, m, OnHeartbeatResp(n, m));
    case Snap => SnapBallot(n, m, timeout);
  }

  lemma {:induction false} QuietHere(n: Node, m: Message)
    requires n.msgs == [] && (Speculative(m) || m.term <= n.term)
    ensures NoGrants(n) && BallotStep(n, m, n)
    ensures m.kind != PreVote && m.kind != PreVoteResp ==> m.term <= n.term
  {
  }

  lemma {:induction false} HandleCases(n: Node, m: Message, timeout: nat)
    ensures var n' := Handle(n, m, timeout);
            match m.kind
            case Hup => n' == if n.role == Leader then n else Campaign(n, n.preVote, timeout)
            case Beat => n' == if n.role == Leader then BcastHeartbeat(n, |n.peers|) else n
            case Vote => n' == OnVote(n, m)
            case PreVote => n' == OnVote(n, m)
            case VoteResp => n' == OnVoteResp(n, m)
            case PreVoteResp => n' == OnPreVoteResp(n, m, timeout)
            case Prop => n' == OnProp(n, m)
            case App => n' == OnApp(n, m, timeout)
            case AppResp => n' == OnAppResp(n, m)
            case Heartbeat => n' == OnHeartbeat(n, m)
            case HeartbeatResp => n' == OnHeartbeatResp(n, m)
            case Snap => n' == OnSnap(n, m, timeout)
  {
  }

  /** Every message step is a ballot step. */
  lemma {:induction false} StepBallot(n: Node, m: Message, timeout: nat)
    requires n.msgs == []
    ensures BallotStep(n, m, Step(n, m, timeout))
  {
    hide Granted;
    hide Handle;
    if m.term > n.term && LeaseHolds(n, m) {
      QuietBallot(n, m, n);
    } else {
      HandleBallot(AdoptTerm(n, m, timeout), m, timeout);
    }
  }

  /** So is every tick. */
  lemma {:induction false} TickBallot(n: Node, timeout: nat)
    requires n.msgs == []
    ensures BallotStep(n, Note(Hup, n.id, n.id, 0), Tick(n, timeout))
  {
    hide Granted;
    hide Step;
    var hup := Note(Hup, n.id, n.id, 0);
    if n.role == Leader {
      TickLeaderBallot(n, timeout);
    } else if n.electionElapsed + 1 >= n.electionTimeout {
      StepBallot(n.(electionElapsed := 0), hup, timeout);
    } else {
      QuietBallot(n, hup, n.(electionElapsed := n.electionElapsed + 1));
    }
  }

  lemma {:induction false} TickLeaderBallot(n: Node, timeout: nat)
    requires n.msgs == [] && n.role == Leader
    ensures BallotStep(n, Note(Hup, n.id, n.id, 0), TickLeader(n, timeout))
  {
    hide Step;
    hide BallotStep;
    hide Sweep;
    var hup := Note(Hup, n.id, n.id, 0);
    var e := Sweep(n, timeout);
    SweepBallot(n, timeout);
    if e.role != Leader {
      FollowBallot(n, hup, e);
    } else if e.heartbeatElapsed + 1 >= HEARTBEAT_TIMEOUT {
      var b := e.(heartbeatElapsed := 0);
      StepBallot(b, Note(Beat, e.id, e.id, 0), timeout);
      OtherNote(n, b, Note(Beat, e.id, e.id, 0), hup, TickLeader(n, timeout));
    } else {
      QuietBallot(n, hup, e.(heartbeatElapsed := e.heartbeatElapsed + 1));
    }
  }

  lemma {:induction false} SweepBallot(n: Node, timeout: nat)
    requires n.role == Leader
    ensures var e := Sweep(n, timeout);
            && e.msgs == n.msgs && e.id == n.id && e.peers == n.peers && e.term == n.term
            && (SameBallot(n, e) || (e.role == Follower && e.votedFor == NONE))
  {
    hide Node.Active;
  }

  lemma {:induction false} OtherNote(n: Node, b: Node, m: Message, m': Message, n': Node)
    requires SameBallot(n, b) && m.kind in {Beat, Hup} && m'.kind in {Beat, Hup} && BallotStep(b, m, n')
    ensures BallotStep(n, m', n')
  {
    hide Granted;
  }

  // ----- The group ------------------------------------------------------------------

  /** The nodes, every message ever sent, every vote ever cast by (voter, term), and every
      (leader, term) ever elected. */
  datatype System = System(nodes: map<nat, Node>, sent: set<Message>, cast: map<(nat, nat), nat>,
                           leaders: set<(nat, nat)>)

  datatype Event =
    | Deliver(m: Message, timeout: nat)
    | TickAt(id: nat, timeout: nat)
    | ProposeAt(id: nat, entry: Entry, timeout: nat)
    | Restart(id: nat, log: Log, timeout: nat)

  function Target(e: Event): nat {
    if e.Deliver? then e.m.to else e.id
  }

  /** A node reopened from its persisted term and vote. */
  function Restarted(n: Node, log: Log, timeout: nat): Node {
    Node(n.id, Follower, n.term, n.votedFor, map[], NONE, n.peers, map[], map[], {}, true, true, log, 0, 0, timeout, [])
  }

  function Moved(n: Node, e: Event): Node {
    match e
    case Deliver(m, timeout) => Step(n, m, timeout)
    case TickAt(_, timeout) => Tick(n, timeout)
    case ProposeAt(_, entry, timeout) => Propose(n, entry, timeout)
    case Restart(_, log, timeout) => Restarted(n, log, timeout)
  }

  /** The target takes the step with an empty outbox, and what it sends joins the network. */
  function Next(s: System, e: Event): System
    requires Target(e) in s.nodes
  {
    var i := Target(e);
    var n := Moved(s.nodes[i].(msgs := []), e);
    System(s.nodes[i := n], s.sent + (set x | x in n.msgs),
           if n.votedFor != NONE then s.cast[(i, n.term) := n.votedFor] else s.cast,
           if n.role == Leader then s.leaders + {(i, n.term)} else s.leaders)
  }

  /** The node cast a vote for another candidate at its term and no longer remembers. */
  predicate Forgot(s: System, i: nat, candidate: nat)
    requires i in s.nodes
  {
    var n := s.nodes[i];
    n.votedFor == NONE && (i, n.term) in s.cast && s.cast[(i, n.term)] != candidate
  }

  /** Only sent messages are delivered; no granted vote in a later term than it was cast for, and
      no vote request at a term whose vote the node has forgotten. */
  predicate Fair(s: System, e: Event) {
    && Target(e) in s.nodes
    && (e.Deliver? ==>
          && e.m in s.sent
          && (Grant(e.m) ==> e.m.term >= s.nodes[e.m.to].term)
          && (e.m.kind == Vote && e.m.term == s.nodes[e.m.to].term ==> !Forgot(s, e.m.to, e.m.from)))
  }

  // ----- The invariant --------------------------------------------------------------

  ghost predicate Members(s: System, peers: seq<nat>) {
    forall i :: i in s.nodes ==> i in peers && i != NONE && s.nodes[i].id == i && s.nodes[i].peers == peers
  }

  /** Votes remembered are votes cast, at terms reached. */
  ghost predicate VotesCast(s: System) {
    && (forall i :: i in s.nodes && s.nodes[i].votedFor != NONE ==>
          (i, s.nodes[i].term) in s.cast && s.cast[(i, s.nodes[i].term)] == s.nodes[i].votedFor)
    && (forall v: (nat, nat) :: v in s.cast ==> v.0 in s.nodes && v.1 <= s.nodes[v.0].term)
  }

  ghost predicate GrantsCast(s: System) {
    && (forall x :: x in s.sent ==> x.from in s.nodes)
    && forall x :: x in s.sent && Grant(x) ==> (x.from, x.term) in s.cast && s.cast[(x.from, x.term)] == x.to
  }

  /** A candidate's votes were cast for it. */
  ghost predicate TalliesCast(s: System) {
    forall i, v :: i in s.nodes && s.nodes[i].role == Candidate && v in s.nodes[i].votes && s.nodes[i].votes[v] ==>
      (v, s.nodes[i].term) in s.cast && s.cast[(v, s.nodes[i].term)] == i
  }

  ghost function Backers(s: System, c: nat, t: nat): set<nat> {
    set v | v in s.nodes && (v, t) in s.cast && s.cast[(v, t)] == c
  }

  ghost predicate LeadersBacked(s: System, peers: seq<nat>) {
    && (forall l: (nat, nat) :: l in s.leaders ==> |Backers(s, l.0, l.1)| >= |peers| / 2 + 1)
    && (forall i :: i in s.nodes && s.nodes[i].role == Leader ==> (i, s.nodes[i].term) in s.leaders)
  }

  ghost predicate Inv(s: System, peers: seq<nat>) {
    Members(s, peers) && VotesCast(s) && GrantsCast(s) && TalliesCast(s) && LeadersBacked(s, peers)
  }

  /** The first state: followers that have not voted, an empty network. */
  ghost predicate Init(s: System, peers: seq<nat>) {
    && Members(s, peers) && s.sent == {} && s.cast == map[] && s.leaders == {}
    && forall i :: i in s.nodes ==> s.nodes[i].role == Follower && s.nodes[i].votedFor == NONE
  }

  function MessageOf(s: System, e: Event): Message
    requires Target(e) in s.nodes
  {
    match e
    case Deliver(m, _) => m
    case ProposeAt(i, entry, _) => Note(Prop, s.nodes[i].id, s.nodes[i].id, 0).(entries := [entry])
    case _ => Note(Hup, s.nodes[Target(e)].id, s.nodes[Target(e)].id, 0)
  }

  lemma {:induction false} MovedBallot(s: System, e: Event)
    requires Target(e) in s.nodes
    ensures BallotStep(s.nodes[Target(e)], MessageOf(s, e), Next(s, e).nodes[Target(e)])
  {
    hide Step;
    hide Tick;
    hide BallotStep;
    var n := s.nodes[Target(e)].(msgs := []);
    match e
    case Deliver(m, timeout) => StepBallot(n, m, timeout); WithoutOutbox(n, s.nodes[Target(e)], m, Step(n, m, timeout));
    case TickAt(i, timeout) =>
      TickBallot(n, timeout);
      WithoutOutbox(n, s.nodes[i], Note(Hup, n.id, n.id, 0), Tick(n, timeout));
    case ProposeAt(i, entry, timeout) =>
      StepBallot(n, MessageOf(s, e), timeout);
      WithoutOutbox(n, s.nodes[i], MessageOf(s, e), Propose(n, entry, timeout));
    case Restart(i, log, timeout) => RestartBallot(s.nodes[i], MessageOf(s, e), log, timeout);
  }

  lemma {:induction false} WithoutOutbox(n: Node, o: Node, m: Message, n': Node)
    requires n == o.(msgs := []) && BallotStep(n, m, n')
    ensures BallotStep(o, m, n')
  {
  }

  lemma {:induction false} RestartBallot(n: Node, m: Message, log: Log, timeout: nat)
    ensures BallotStep(n, m, Restarted(n.(msgs := []), log, timeout))
    ensures Restarted(n, log, timeout).term == n.term && Restarted(n, log, timeout).votedFor == n.votedFor
  {
  }

  /** No vote once cast is ever recast: the heart of election safety. */
  lemma {:induction false} CastKept(s: System, e: Event, peers: seq<nat>)
    requires Inv(s, peers) && Fair(s, e)
    ensures forall v: (nat, nat) :: v in s.cast ==> v in Next(s, e).cast && Next(s, e).cast[v] == s.cast[v]
  {
    hide Next;
    hide BallotStep;
    hide GrantsCast;
    hide TalliesCast;
    hide LeadersBacked;
    hide Candidacy;
    MovedBallot(s, e);
    NextFacts(s, e);
    var i := Target(e);
    var n, n' := s.nodes[i], Next(s, e).nodes[i];
    BallotFacts(n, MessageOf(s, e), n');
    if n'.votedFor != NONE && (i, n'.term) in s.cast {
      assert (i, n'.term).1 <= n.term;
      assert s.cast[(i, n'.term)] == n'.votedFor;
    }
  }

  lemma {:induction false} GrantsKept(s: System, e: Event, peers: seq<nat>)
    requires Inv(s, peers) && Fair(s, e)
    ensures GrantsCast(Next(s, e))
  {
    hide Moved;
    hide TalliesCast;
    hide LeadersBacked;
    hide Candidacy;
    MovedBallot(s, e);
    CastKept(s, e, peers);
    var i := Target(e);
    var n' := Next(s, e).nodes[i];
    forall x | x in Next(s, e).sent && Grant(x)
      ensures (x.from, x.term) in Next(s, e).cast && Next(s, e).cast[(x.from, x.term)] == x.to
    {
      if x !in s.sent {
        SentBy(s, e, x);
      }
    }
    forall x | x in Next(s, e).sent ensures x.from in Next(s, e).nodes {
      if x !in s.sent {
        var j :| 0 <= j < |n'.msgs| && n'.msgs[j] == x;
      }
    }
  }

  /** A grant sent in this step is the target's vote at its new term, for a known candidate. */
  lemma {:induction false} SentBy(s: System, e: Event, x: Message)
    requires Target(e) in s.nodes && Grant(x) && x in Next(s, e).nodes[Target(e)].msgs
    requires s.nodes[Target(e)].id == Target(e)
    ensures var n' := Next(s, e).nodes[Target(e)];
            x.from == Target(e) && x.term == n'.term && x.to == n'.votedFor && e.Deliver? && x.to == e.m.from
  {
    hide Moved;
    MovedBallot(s, e);
  }

  /** A step changes its target, adds the votes it casts and the leader it makes. */
  lemma {:induction false} NextFacts(s: System, e: Event)
    requires Target(e) in s.nodes
    ensures var i := Target(e);
            var s' := Next(s, e);
            && i in s'.nodes && s'.nodes == s.nodes[i := s'.nodes[i]]
            && s'.cast == (if s'.nodes[i].votedFor != NONE then s.cast[(i, s'.nodes[i].term) := s'.nodes[i].votedFor]
                           else s.cast)
            && s'.leaders == (if s'.nodes[i].role == Leader then s.leaders + {(i, s'.nodes[i].term)} else s.leaders)
  {
    hide Moved;
  }

  lemma {:induction false} BallotFacts(n: Node, m: Message, n': Node)
    requires BallotStep(n, m, n')
    ensures n'.id == n.id && n'.peers == n.peers && n.term <= n'.term
    ensures n'.term == n.term && n'.votedFor != NONE && n'.votedFor != n.votedFor ==>
              m.kind == Vote && m.term == n.term && n'.votedFor == m.from && n.votedFor == NONE
    ensures n'.role == Candidate ==> Candidacy(n, m, n')
    ensures n'.role == Leader && !(n.role == Leader && n'.term == n.term) ==>
              Candidacy(n, m, n') && n'.Tally() >= n'.Quorum()
  {
    hide Candidacy;
    hide Granted;
  }

  lemma {:induction false} MembersKept(s: System, e: Event, peers: seq<nat>)
    requires Inv(s, peers) && Fair(s, e)
    ensures Members(Next(s, e), peers)
  {
    hide Next;
    hide BallotStep;
    hide VotesCast;
    hide GrantsCast;
    hide TalliesCast;
    hide LeadersBacked;
    hide Candidacy;
    MovedBallot(s, e);
    NextFacts(s, e);
    BallotFacts(s.nodes[Target(e)], MessageOf(s, e), Next(s, e).nodes[Target(e)]);
  }

  lemma {:induction false} VotesKept(s: System, e: Event, peers: seq<nat>)
    requires Inv(s, peers) && Fair(s, e)
    ensures VotesCast(Next(s, e))
  {
    hide Next;
    hide BallotStep;
    hide Members;
    hide GrantsCast;
    hide TalliesCast;
    hide LeadersBacked;
    hide Candidacy;
    MovedBallot(s, e);
    NextFacts(s, e);
    CastKept(s, e, peers);
    var s' := Next(s, e);
    var i := Target(e);
    BallotFacts(s.nodes[i], MessageOf(s, e), s'.nodes[i]);
    forall j | j in s'.nodes && s'.nodes[j].votedFor != NONE
      ensures (j, s'.nodes[j].term) in s'.cast && s'.cast[(j, s'.nodes[j].term)] == s'.nodes[j].votedFor
    {
      if j != i {
        assert (j, s.nodes[j].term) in s.cast;
      }
    }
    forall v: (nat, nat) | v in s'.cast ensures v.0 in s'.nodes && v.1 <= s'.nodes[v.0].term {
      if v in s.cast {
        assert v.0 in s.nodes && v.1 <= s.nodes[v.0].term;
      }
    }
  }

  lemma {:induction false} TalliesKept(s: System, e: Event, peers: seq<nat>)
    requires Inv(s, peers) && Fair(s, e)
    ensures TalliesCast(Next(s, e))
    ensures var i := Target(e);
            var n' := Next(s, e).nodes[i];
            Candidacy(s.nodes[i], MessageOf(s, e), n') ==>
              forall v :: v in n'.votes && n'.votes[v] ==>
                (v, n'.term) in Next(s, e).cast && Next(s, e).cast[(v, n'.term)] == i
  {
    hide Next;
    hide BallotStep;
    hide LeadersBacked;
    hide VotesCast;
    MovedBallot(s, e);
    NextFacts(s, e);
    CastKept(s, e, peers);
    var i := Target(e);
    var n, n', m := s.nodes[i], Next(s, e).nodes[i], MessageOf(s, e);
    BallotFacts(n, m, n');
    if Candidacy(n, m, n') {
      forall v | v in n'.votes && n'.votes[v]
        ensures (v, n'.term) in Next(s, e).cast && Next(s, e).cast[(v, n'.term)] == i
      {
        if n.role == Candidate && n'.term == n.term && v in n.votes && n.votes[v] {
          assert (v, n.term) in s.cast;
        }
      }
    }
  }

  /** A tally that reaches the quorum is a quorum of backers. */
  lemma {:induction false} TallyBacks(s: System, peers: seq<nat>, c: nat, n: Node)
    requires VotesCast(s) && n.Tally() >= |peers| / 2 + 1
    requires forall v :: v in n.votes && n.votes[v] ==> (v, n.term) in s.cast && s.cast[(v, n.term)] == c
    ensures |Backers(s, c, n.term)| >= |peers| / 2 + 1
  {
    var granted := GrantedBy(n.votes);
    assert granted <= Backers(s, c, n.term) by {
      forall v | v in granted ensures v in Backers(s, c, n.term) {
        assert (v, n.term).0 in s.nodes;
      }
    }
    SubsetSize(granted, Backers(s, c, n.term));
  }

  lemma {:induction false} SubsetSize(a: set<nat>, b: set<nat>)
    requires a <= b
    ensures |a| <= |b|
  {
    assert b == a + (b - a);
  }

  lemma {:induction false} LeadersKept(s: System, e: Event, peers: seq<nat>)
    requires Inv(s, peers) && Fair(s, e)
    ensures LeadersBacked(Next(s, e), peers)
  {
    hide Next;
    hide BallotStep;
    hide VotesCast;
    hide GrantsCast;
    hide TalliesCast;
    hide Candidacy;
    hide Backers;
    hide Granted;
    MovedBallot(s, e);
    NextFacts(s, e);
    CastKept(s, e, peers);
    VotesKept(s, e, peers);
    TalliesKept(s, e, peers);
    var s' := Next(s, e);
    var i := Target(e);
    var n, n' := s.nodes[i], s'.nodes[i];
    BallotFacts(n, MessageOf(s, e), n');
    forall l: (nat, nat) | l in s'.leaders ensures |Backers(s', l.0, l.1)| >= |peers| / 2 + 1 {
      if l in s.leaders {
        BackersKept(s, s', l.0, l.1);
      } else {
        TallyBacks(s', peers, i, n');
      }
    }
  }

  lemma {:induction false} BackersKept(s: System, s': System, c: nat, t: nat)
    requires s.nodes.Keys <= s'.nodes.Keys
    requires forall v: (nat, nat) :: v in s.cast ==> v in s'.cast && s'.cast[v] == s.cast[v]
    ensures |Backers(s, c, t)| <= |Backers(s', c, t)|
  {
    SubsetSize(Backers(s, c, t), Backers(s', c, t));
  }

  /** Every fair step keeps the invariant. */
  lemma {:induction false} StepKeepsInv(s: System, e: Event, peers: seq<nat>)
    requires Inv(s, peers) && Fair(s, e)
    ensures Inv(Next(s, e), peers)
  {
    hide Next;
    hide Members;
    hide VotesCast;
    hide GrantsCast;
    hide TalliesCast;
    hide LeadersBacked;
    MembersKept(s, e, peers);
    VotesKept(s, e, peers);
    GrantsKept(s, e, peers);
    TalliesKept(s, e, peers);
    LeadersKept(s, e, peers);
  }

  /** Two quorums of a group share a member, so a term has one leader. */
  lemma {:induction false} OneLeader(s: System, peers: seq<nat>, c: nat, c': nat, t: nat)
    requires Inv(s, peers) && (c, t) in s.leaders && (c', t) in s.leaders
    ensures c == c'
  {
    var a, b := Backers(s, c, t), Backers(s, c', t);
    assert |a| >= |peers| / 2 + 1 by {
      assert (c, t).0 == c;
    }
    assert |b| >= |peers| / 2 + 1 by {
      assert (c', t).0 == c';
    }
    if a !! b {
      assert a + b <= s.nodes.Keys;
      SubsetSize(a + b, MembersOf(peers));
      PeersSize(peers);
      assert false;
    }
  }

  lemma {:induction false} PeersSize(peers: seq<nat>)
    ensures |MembersOf(peers)| <= |peers|
  {
    if peers != [] {
      var init := peers[..|peers| - 1];
      var last := peers[|peers| - 1];
      PeersSize(init);
      assert peers == init + [last];
      assert MembersOf(peers) == MembersOf(init) + {last};
    }
  }

  // ----- Runs -----------------------------------------------------------------------

  ghost predicate Run(s: System, events: seq<Event>, s': System)
    decreases |events|
  {
    if events == [] then s' == s
    else Fair(s, events[0]) && Run(Next(s, events[0]), events[1..], s')
  }

  lemma {:induction false} RunKeepsInv(s: System, events: seq<Event>, s': System, peers: seq<nat>)
    requires Inv(s, peers) && Run(s, events, s')
    ensures Inv(s', peers)
    decreases |events|
  {
    hide Inv;
    hide Next;
    if events != [] {
      StepKeepsInv(s, events[0], peers);
      RunKeepsInv(Next(s, events[0]), events[1..], s', peers);
    }
  }

  predicate Leads(s: System, i: nat, t: nat) {
    i in s.nodes && s.nodes[i].role == Leader && s.nodes[i].term == t
  }

  /** In every fair run of any group no term ever has two leaders, and no two nodes lead at the
      same term at once. */
  lemma {:induction false} ElectionSafety(s: System, events: seq<Event>, s': System, peers: seq<nat>)
    requires Init(s, peers) && Run(s, events, s')
    ensures forall l: (nat, nat), l': (nat, nat) :: l in s'.leaders && l' in s'.leaders && l.1 == l'.1 ==> l == l'
    ensures forall i, j, t :: Leads(s', i, t) && Leads(s', j, t) ==> i == j
  {
    hide Run;
    hide Members;
    hide VotesCast;
    hide GrantsCast;
    hide TalliesCast;
    hide Backers;
    InitInv(s, peers);
    RunKeepsInv(s, events, s', peers);
    forall l: (nat, nat), l': (nat, nat) | l in s'.leaders && l' in s'.leaders && l.1 == l'.1 ensures l == l' {
      OneLeader(s', peers, l.0, l'.0, l.1);
    }
    forall i, j, t | Leads(s', i, t) && Leads(s', j, t) ensures i == j {
      OneLeader(s', peers, i, j, t);
    }
  }

  lemma {:induction false} InitInv(s: System, peers: seq<nat>)
    requires Init(s, peers)
    ensures Inv(s, peers)
  {
  }

  // ----- What the provisos rule out -------------------------------------------------

  /** A node that voted at this term grants a second candidate exactly when it has forgotten the
      vote, knows no leader, and finds the candidate's log up to date. */
  lemma {:induction false} SecondGrant(s: System, m: Message, timeout: nat, peers: seq<nat>)
    requires Inv(s, peers) && m.to in s.nodes && m.kind == Vote && m.term == s.nodes[m.to].term
    requires m.from != NONE && (m.to, m.term) in s.cast && s.cast[(m.to, m.term)] != m.from
    ensures var n := s.nodes[m.to];
            Next(s, Deliver(m, timeout)).cast[(m.to, m.term)] == m.from <==>
            && Forgot(s, m.to, m.from) && n.leadID == NONE
            && (m.logTerm > n.log.LastTerm() || (m.logTerm == n.log.LastTerm() && m.index >= n.log.LastIndex()))
  {
    hide Log.LastIndex;
    hide Log.LastTerm;
    hide GrantsCast;
    hide TalliesCast;
    hide LeadersBacked;
  }

  /** A candidate counts a granted vote of any earlier term as one of its own. */
  lemma {:induction false} StaleGrantCounts(n: Node, m: Message, timeout: nat)
    requires n.role == Candidate && Grant(m) && m.term <= n.term && n.msgs == []
    ensures Step(n, m, timeout) == Step(n, m.(term := n.term), timeout)
    ensures Step(n, m, timeout).votes == n.votes[m.from := true]
    ensures Step(n, m, timeout).role == Leader <==> Granted(n.votes[m.from := true]) >= n.Quorum()
  {
    hide BecomeLeader;
    hide Granted;
    BecomeLeaderBallot(n.(votes := n.votes[m.from := true]));
  }

  /** A message makes a node forget its vote exactly when it is an append or a snapshot of the
      node's own term. */
  lemma {:induction false} VoteForgotten(n: Node, m: Message, timeout: nat)
    requires n.votedFor != NONE && n.msgs == [] && n.id != NONE && m.from != NONE
    ensures var n' := Step(n, m, timeout);
            n'.votedFor == NONE && n'.term == n.term <==> m.term == n.term && (m.kind == App || m.kind == Snap)
  {
    hide *;
    SameTermCases(n, m, timeout);
    if (Step(n, m, timeout).term == n.term && Step(n, m, timeout) != n) || m.term == n.term {
      QuietHere(n, m);
      HandleCases(n, m, timeout);
      Remembered(n, n);
      match m.kind
      case Hup => CampaignBallot(n, n.preVote, timeout);
      case Beat => BcastHeartbeatBallot(n, |n.peers|); Remembered(n, BcastHeartbeat(n, |n.peers|));
      case Vote => VoteRemembered(n, m);
      case PreVote => VoteRemembered(n, m);
      case VoteResp => VoteRespRemembered(n, m);
      case PreVoteResp => PreVoteRespRemembered(n, m, timeout);
      case Prop => PropBallot(n, m); Remembered(n, OnProp(n, m));
      case App => AppForgets(n, m, timeout);
      case AppResp => RespBallot(n, m); Remembered(n, OnAppResp(n, m));
      case Heartbeat => HeartbeatBallot(n, m); Remembered(n, OnHeartbeat(n, m));
      case HeartbeatResp => RespBallot(n, m); Remembered(n, OnHeartbeatResp(n, m));
      case Snap => AppForgets(n, m, timeout);
    }
  }

  lemma {:induction false} Remembered(n: Node, n': Node)
    requires SameBallot(n, n') || n == n'
    ensures n'.votedFor == n.votedFor
  {
  }

  lemma {:induction false} VoteRemembered(n: Node, m: Message)
    requires n.votedFor != NONE && m.from != NONE
    ensures OnVote(n, m).votedFor != NONE
  {
    hide Log.IsUpToDate;
  }

  lemma {:induction false} VoteRespRemembered(n: Node, m: Message)
    ensures OnVoteResp(n, m).votedFor == n.votedFor
  {
    hide BecomeLeader;
    hide Granted;
    BecomeLeaderBallot(n.(votes := n.votes[m.from := !m.reject]));
  }

  lemma {:induction false} PreVoteRespRemembered(n: Node, m: Message, timeout: nat)
    requires n.votedFor != NONE && n.id != NONE && NoGrants(n)
    ensures OnPreVoteResp(n, m, timeout).votedFor != NONE
  {
    hide Campaign;
    hide Granted;
    CampaignBallot(n.(votes := n.votes[m.from := !m.reject]), false, timeout);
  }

  lemma {:induction false} AppForgets(n: Node, m: Message, timeout: nat)
    requires m.term <= n.term
    ensures OnApp(n, m, timeout).term == n.term && OnSnap(n, m, timeout).term == n.term
    ensures OnApp(n, m, timeout).votedFor == if m.term == n.term then NONE else n.votedFor
    ensures OnSnap(n, m, timeout).votedFor == if m.term == n.term then NONE else n.votedFor
  {
    hide Log.LastIndex;
    hide Log.Append;
    hide Log.Term;
    hide Log.Restore;
  }

  /** A step that stays in its term adopts none. */
  lemma {:induction false} SameTermCases(n: Node, m: Message, timeout: nat)
    requires n.msgs == []
    ensures var n' := Step(n, m, timeout);
            n'.term == n.term ==> n' == n || ((Speculative(m) || m.term <= n.term) && n' == Handle(n, m, timeout))
    ensures m.term == n.term ==> Step(n, m, timeout) == Handle(n, m, timeout)
  {
    hide Handle;
    hide BallotStep;
    if m.term > n.term && !LeaseHolds(n, m) && !Speculative(m) {
      var a := AdoptTerm(n, m, timeout);
      HandleBallot(a, m, timeout);
      TermRises(a, m, Handle(a, m, timeout));
    }
  }

  lemma {:induction false} TermRises(n: Node, m: Message, n': Node)
    requires BallotStep(n, m, n')
    ensures n.term <= n'.term
  {
  }
}
