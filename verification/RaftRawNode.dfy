/** The Raft state machine object: each method carries out the transition of a node value, with the
    guarantees that election safety and in-order delivery rest on. */
module RaftRawNode {
  import opened Records
  import opened RaftTypes
  import opened RaftLogs
  import opened RaftNode
  import E = RaftElection
  import Y = RaftReady
  import P = RaftProgress
  import M = RaftMessages

  /** From a settled log to one with new entries or a pending snapshot. */
  ghost predicate LogStep(n: Node, n': Node) {
    Y.Settled(n.log) ==> Y.Stepped(n.log, n'.log)
  }

  /** Appends sent carry consecutive entries. */
  ghost predicate OutboxStep(n: Node, n': Node) {
    Y.Settled(n.log) && Y.ProperOutbox(n) ==> Y.ProperOutbox(n')
  }

  class RawNode {
    const id: nat
    const peers: seq<nat>
    const preVote: bool
    const checkQuorum: bool
    const log: RaftLog
    var role: Role
    var term: nat
    var votedFor: nat
    var votes: map<nat, bool>
    var leadID: nat
    var nextIndex: map<nat, nat>
    var matchIndex: map<nat, nat>
    var recentActive: set<nat>
    var electionElapsed: nat
    var heartbeatElapsed: nat
    var electionTimeout: nat
    var msgs: seq<Message>

    function Value(): Node
      reads this, log
    {
      Node(id, role, term, votedFor, votes, leadID, peers, nextIndex, matchIndex, recentActive, preVote, checkQuorum,
           log.Value(), electionElapsed, heartbeatElapsed, electionTimeout, msgs)
    }

    constructor (n: Node)
      ensures Value() == n && fresh(log)
    {
      id, peers, preVote, checkQuorum := n.id, n.peers, n.preVote, n.checkQuorum;
      role, term, votedFor, votes, leadID := n.role, n.term, n.votedFor, n.votes, n.leadID;
      nextIndex, matchIndex, recentActive := n.nextIndex, n.matchIndex, n.recentActive;
      electionElapsed, heartbeatElapsed, electionTimeout := n.electionElapsed, n.heartbeatElapsed, n.electionTimeout;
      msgs := n.msgs;
      log := new RaftLog(n.log);
    }

    function Quorum(): nat {
      |peers| / 2 + 1
    }

    // ----- Counting -----------------------------------------------------------------

    method TallyVotes() returns (granted: nat)
      ensures granted == Value().Tally()
    {
      granted := 0;
      var left := votes.Keys;
      assert (set i | i in votes && votes[i] && i !in left) == {};
      while left != {}
        invariant left <= votes.Keys && granted == |set i | i in votes && votes[i] && i !in left|
      {
        var i :| i in left;
        ghost var seen := set j | j in votes && votes[j] && j !in left;
        left := left - {i};
        if votes[i] {
          assert (set j | j in votes && votes[j] && j !in left) == seen + {i};
          granted := granted + 1;
        } else {
          assert (set j | j in votes && votes[j] && j !in left) == seen;
        }
      }
      assert (set i | i in votes && votes[i] && i !in left) == GrantedBy(votes);
    }

    method CountMatching(n: nat) returns (count: nat)
      ensures count == Value().Matching(n)
    {
      count := 0;
      var left := matchIndex.Keys;
      assert (set p | p in matchIndex && matchIndex[p] >= n && p !in left) == {};
      while left != {}
        invariant left <= matchIndex.Keys
        invariant count == |set p | p in matchIndex && matchIndex[p] >= n && p !in left|
      {
        var i :| i in left;
        ghost var seen := set p | p in matchIndex && matchIndex[p] >= n && p !in left;
        left := left - {i};
        if matchIndex[i] >= n {
          assert (set p | p in matchIndex && matchIndex[p] >= n && p !in left) == seen + {i};
          count := count + 1;
        } else {
          assert (set p | p in matchIndex && matchIndex[p] >= n && p !in left) == seen;
        }
      }
      assert (set p | p in matchIndex && matchIndex[p] >= n && p !in left) == set p | p in matchIndex && matchIndex[p] >= n;
    }

    // ----- Sending ------------------------------------------------------------------

    method Send(m: Message)
      modifies `msgs
      ensures Value() == old(Value()).Send(m)
    {
      msgs := msgs + [m];
    }

    method BcastVoteRequests(pre: bool)
      modifies `msgs
      ensures Value() == BcastVote(old(Value()), |peers|, pre)
    {
      hide Node.Send;
      var k := 0;
      ghost var n0 := Value();
      while k < |peers|
        invariant 0 <= k <= |peers| && Value() == BcastVote(n0, k, pre)
        invariant Value().(msgs := n0.msgs) == n0
      {
        if peers[k] != id {
          Send(Note(if pre then PreVote else Vote, peers[k], id, if pre then term + 1 else term)
               .(index := log.Value().LastIndex(), logTerm := log.Value().LastTerm()));
        }
        k := k + 1;
      }
    }

    method BcastBeats()
      modifies `msgs
      ensures Value() == BcastHeartbeat(old(Value()), |peers|)
    {
      var k := 0;
      ghost var n0 := Value();
      while k < |peers|
        invariant 0 <= k <= |peers| && Value() == BcastHeartbeat(n0, k)
        invariant Value().(msgs := n0.msgs) == n0
      {
        if peers[k] != id {
          var commit := log.committed;
          var m := At(matchIndex, peers[k]);
          if m < commit {
            commit := m;
          }
          Send(Note(Heartbeat, peers[k], id, term).(commit := commit));
        }
        k := k + 1;
      }
    }

    method AppendTo(to: nat)
      modifies `msgs, `nextIndex
      ensures Value() == SendAppend(old(Value()), to)
      ensures E.SameBallot(old(Value()), Value()) && OutboxStep(old(Value()), Value())
      ensures M.SendRule(old(Value()), to, Value())
    {
      hide M.SendRule;
      AppendMeans(Value(), to);
      hide Log.LastIndex;
      hide Log.Term;
      hide Log.Entries;
      var next := At(nextIndex, to);
      var firstIdx := log.storage.FirstIndex();
      var lastIdx := log.Value().LastIndex();
      var compacted := next < firstIdx;
      var farBehind := lastIdx > At(matchIndex, to) + SNAPSHOT_CATCHUP_GAP;
      if compacted || farBehind {
        var snap := log.storage.snap;
        if !snap.IsEmpty() && (compacted || snap.index > At(matchIndex, to)) {
          Send(Note(Snap, to, id, term).(snap := snap));
          nextIndex := nextIndex[to := snap.index + 1];
          return;
        }
        if compacted {
          return;
        }
      }
      var prevTerm := log.Value().Term(next - 1);
      Send(Message(App, to, id, term, if prevTerm.Some? then prevTerm.value else 0, next - 1,
                   log.Value().Entries(next, lastIdx + 1), log.committed, false, 0, NO_SNAPSHOT));
    }

    method BcastAppends()
      modifies `msgs, `nextIndex
      ensures Value() == BcastAppend(old(Value()), |peers|)
    {
      hide SendAppend;
      var k := 0;
      ghost var n0 := Value();
      while k < |peers|
        invariant 0 <= k <= |peers| && Value() == BcastAppend(n0, k)
      {
        if peers[k] != id {
          AppendTo(peers[k]);
        }
        k := k + 1;
      }
    }

    // ----- Transitions --------------------------------------------------------------

    method ResetTimer(timeout: nat)
      modifies `electionElapsed, `electionTimeout
      ensures Value() == old(Value()).(electionElapsed := 0, electionTimeout := timeout)
    {
      electionElapsed, electionTimeout := 0, timeout;
    }

    method ClearTracking()
      modifies `votes, `nextIndex, `matchIndex, `recentActive
      ensures Value() == old(Value()).(votes := map[], nextIndex := map[], matchIndex := map[], recentActive := {})
    {
      votes, nextIndex, matchIndex, recentActive := map[], map[], map[], {};
    }

    method ToFollower(newTerm: nat, lead: nat, timeout: nat)
      modifies this
      ensures Value() == BecomeFollower(old(Value()), newTerm, lead, timeout)
    {
      role, term, leadID, votedFor := Follower, newTerm, lead, NONE;
      ClearTracking();
      ResetTimer(timeout);
    }

    method ToPreCandidate(timeout: nat)
      modifies this
      ensures Value() == BecomePreCandidate(old(Value()), timeout)
    {
      role, leadID, votes := PreCandidate, NONE, map[id := true];
      ResetTimer(timeout);
    }

    method ToCandidate(timeout: nat)
      modifies this
      ensures Value() == BecomeCandidate(old(Value()), timeout)
    {
      role, term, votedFor, leadID := Candidate, term + 1, id, NONE;
      votes := map[id := true];
      ResetTimer(timeout);
    }

    /** Scans down from the last index for the first one a quorum holds. */
    method AdvanceCommit()
      modifies log
      ensures Value() == MaybeAdvanceCommit(old(Value()))
      ensures P.OrderedTerms(old(Value())) ==>
                && (log.committed == old(log.committed) || P.Committable(old(Value()), log.committed))
                && forall k: nat :: P.Committable(old(Value()), k) ==> k <= log.committed
    {
      if P.OrderedTerms(Value()) {
        P.CommitsGreatest(Value());
      }
      hide P.OrderedTerms;
      hide P.Committable;
      hide Node.Matching;
      hide Log.Term;
      hide Log.LastIndex;
      var n := log.Value().LastIndex();
      ghost var n0 := Value();
      while n > log.committed
        invariant 0 <= n && Value() == n0 && CommitScan(n0, n) == CommitScan(n0, n0.log.LastIndex())
      {
        var t := log.Value().Term(n);
        if t.None? {
          break;
        }
        if t.value != term {
          break;
        }
        var count := CountMatching(n);
        if count >= Quorum() {
          log.CommitTo(n);
          return;
        }
        n := n - 1;
      }
    }

    method StartTracking(lastIdx: nat)
      modifies `nextIndex, `matchIndex, `recentActive
      ensures Value() == old(Value()).(recentActive := {id}, nextIndex := Tracked(peers, lastIdx + 1),
                                       matchIndex := Tracked(peers, 0)[id := lastIdx])
    {
      recentActive := {id};
      nextIndex := Tracked(peers, lastIdx + 1);
      matchIndex := Tracked(peers, 0)[id := lastIdx];
    }

    method TakeLead()
      modifies this, log
      ensures Value() == Led(old(Value()))
    {
      hide Tracked;
      hide Log.LastIndex;
      hide Log.Append;
      var lastIdx := log.Value().LastIndex();
      role, leadID, heartbeatElapsed, electionElapsed := Leader, id, 0, 0;
      StartTracking(lastIdx);
      log.Append([Entry(term, lastIdx + 1, None)]);
      matchIndex := matchIndex[id := lastIdx + 1];
    }

    method ToLeader()
      modifies this, log
      ensures Value() == BecomeLeader(old(Value()))
      ensures E.SameBallot(old(Value()).(role := Leader), Value())
      ensures LogStep(old(Value()), Value()) && OutboxStep(old(Value()), Value())
      ensures M.LeadRule(old(Value()), Value())
    {
      hide M.LeadRule;
      LeaderMeans(Value());
      hide MaybeAdvanceCommit;
      hide BcastAppend;
      hide Led;
      TakeLead();
      AdvanceCommit();
      BcastAppends();
    }

    method StartCampaign(pre: bool, timeout: nat)
      modifies this, log
      ensures Value() == Campaign(old(Value()), pre, timeout)
      ensures E.NoGrants(old(Value())) ==> E.NoGrants(Value())
      ensures E.NoGrants(old(Value())) ==>
                || (role == PreCandidate && term == old(term) && votedFor == old(votedFor))
                || (term == old(term) + 1 && votedFor == id && votes == map[id := true] &&
                    (role == Candidate || (role == Leader && Granted(votes) >= Quorum())))
      ensures LogStep(old(Value()), Value()) && OutboxStep(old(Value()), Value())
      ensures M.CampaignRule(old(Value()), pre, timeout, Value())
      decreases pre
    {
      hide M.CampaignRule;
      CampaignMeans(Value(), pre, timeout);
      hide LogStep;
      hide OutboxStep;
      hide E.NoGrants;
      hide BecomeLeader;
      hide BcastVote;
      hide Node.Tally;
      if pre {
        ToPreCandidate(timeout);
      } else {
        ToCandidate(timeout);
      }
      var granted := TallyVotes();
      if granted >= Quorum() {
        if pre {
          StartCampaign(false, timeout);
        } else {
          ToLeader();
        }
        return;
      }
      BcastVoteRequests(pre);
    }

    method StepDownOnQuorumLoss(timeout: nat)
      modifies this
      ensures Value() == CheckContacts(old(Value()), timeout)
    {
      var active := 0;
      var k := 0;
      ghost var n0 := Value();
      while k < |peers|
        invariant 0 <= k <= |peers| && Value() == n0 && active == n0.Active(k)
      {
        if peers[k] == id || peers[k] in recentActive {
          active := active + 1;
        }
        k := k + 1;
      }
      recentActive := {id};
      if active < Quorum() {
        ToFollower(term, NONE, timeout);
      }
    }

    // ----- Messages -----------------------------------------------------------------

    method HandleVote(m: Message)
      modifies this
      ensures Value() == OnVote(old(Value()), m)
    {
      hide Log.IsUpToDate;
      var canGrant := m.term >= term && Value().CanVote(m) && log.Value().IsUpToDate(m.index, m.logTerm);
      var resp := if m.kind == PreVote then PreVoteResp else VoteResp;
      if canGrant {
        Send(Note(resp, m.from, id, m.term));
        if m.kind == Vote {
          votedFor := m.from;
          electionElapsed := 0;
        }
      } else {
        Send(Note(resp, m.from, id, term).(reject := true));
      }
    }

    method HandleVoteResp(m: Message)
      modifies this, log
      ensures Value() == OnVoteResp(old(Value()), m)
    {
      hide BecomeLeader;
      hide Node.Tally;
      if role != Candidate {
        return;
      }
      votes := votes[m.from := !m.reject];
      var granted := TallyVotes();
      if granted >= Quorum() {
        ToLeader();
      }
    }

    method HandlePreVoteResp(m: Message, timeout: nat)
      modifies this, log
      ensures Value() == OnPreVoteResp(old(Value()), m, timeout)
    {
      hide Campaign;
      hide Node.Tally;
      if role != PreCandidate {
        return;
      }
      votes := votes[m.from := !m.reject];
      var granted := TallyVotes();
      if granted >= Quorum() {
        StartCampaign(false, timeout);
      }
    }

    method HandleProp(m: Message)
      modifies this, log
      ensures Value() == OnProp(old(Value()), m)
    {
      hide BcastAppend;
      hide MaybeAdvanceCommit;
      hide Log.LastIndex;
      hide Log.Append;
      if role != Leader {
        return;
      }
      var lastIdx := log.Value().LastIndex();
      var entries: seq<Entry> := [];
      while |entries| < |m.entries|
        invariant |entries| <= |m.entries| && entries == Numbered(m.entries[..|entries|], term, lastIdx)
      {
        ghost var before := entries;
        entries := entries + [Entry(term, lastIdx + |entries| + 1, m.entries[|entries|].data)];
        assert entries == Numbered(m.entries[..|entries|], term, lastIdx);
      }
      assert m.entries[..|entries|] == m.entries;
      log.Append(entries);
      matchIndex := matchIndex[id := log.Value().LastIndex()];
      BcastAppends();
      AdvanceCommit();
    }

    method Reject(m: Message)
      modifies `msgs
      ensures Value() == Rejection(old(Value()), m)
    {
      Send(Note(AppResp, m.from, id, term).(reject := true, hint := log.Value().LastIndex()));
    }

    method HandleApp(m: Message, timeout: nat)
      modifies this, log
      ensures Value() == OnApp(old(Value()), m, timeout)
    {
      hide Log.LastIndex;
      hide Log.Append;
      hide Log.Term;
      if m.term < term {
        Reject(m);
        return;
      }
      ToFollower(m.term, m.from, timeout);
      if m.index > 0 {
        var t := log.Value().Term(m.index);
        if t.None? || t.value != m.logTerm {
          Reject(m);
          return;
        }
      }
      if |m.entries| > 0 {
        log.Append(m.entries);
      } else {
        AppendNothing(log.Value());
      }
      if m.commit > log.committed {
        log.CommitTo(Min(m.commit, log.Value().LastIndex()));
      }
      Send(Note(AppResp, m.from, id, term).(index := log.Value().LastIndex()));
    }

    method HandleAppResp(m: Message)
      modifies this, log
      ensures Value() == OnAppResp(old(Value()), m)
    {
      hide SendAppend;
      hide MaybeAdvanceCommit;
      hide P.OrderedTerms;
      hide P.Committable;
      hide M.SendRule;
      hide OutboxStep;
      if role != Leader {
        return;
      }
      recentActive := recentActive + {m.from};
      if m.reject {
        var next := At(nextIndex, m.from);
        if m.hint < next {
          nextIndex := nextIndex[m.from := m.hint + 1];
        } else if next > 1 {
          nextIndex := nextIndex[m.from := next - 1];
        } else {
          nextIndex := nextIndex[m.from := next];
        }
        AppendTo(m.from);
      } else {
        hide At;
        if m.index > At(matchIndex, m.from) {
          matchIndex := matchIndex[m.from := m.index];
          nextIndex := nextIndex[m.from := m.index + 1];
        }
        AdvanceCommit();
      }
    }

    method HandleHeartbeat(m: Message)
      modifies this, log
      ensures Value() == OnHeartbeat(old(Value()), m)
    {
      hide Log.LastIndex;
      if m.term >= term {
        electionElapsed := 0;
        leadID := m.from;
        log.CommitTo(Min(m.commit, log.Value().LastIndex()));
      }
      Send(Note(HeartbeatResp, m.from, id, term));
    }

    method HandleHeartbeatResp(m: Message)
      modifies this
      ensures Value() == OnHeartbeatResp(old(Value()), m)
    {
      hide SendAppend;
      hide Log.LastIndex;
      if role == Leader {
        recentActive := recentActive + {m.from};
        if At(matchIndex, m.from) < log.Value().LastIndex() {
          AppendTo(m.from);
        }
      }
    }

    method HandleSnap(m: Message, timeout: nat)
      modifies this, log
      ensures Value() == OnSnap(old(Value()), m, timeout)
    {
      hide Log.LastIndex;
      hide Log.Restore;
      if m.term < term {
        Reject(m);
        return;
      }
      ToFollower(m.term, m.from, timeout);
      var restored := log.Restore(m.snap);
      if restored {
        Send(Note(AppResp, m.from, id, term).(index := log.Value().LastIndex()));
      } else {
        Send(Note(AppResp, m.from, id, term).(index := log.committed));
      }
    }

    method Dispatch(m: Message, timeout: nat)
      modifies this, log
      ensures Value() == Handle(old(Value()), m, timeout)
    {
      hide Campaign;
      hide BcastHeartbeat;
      hide OnVote;
      hide OnVoteResp;
      hide OnPreVoteResp;
      hide OnProp;
      hide OnApp;
      hide OnAppResp;
      hide OnHeartbeat;
      hide OnHeartbeatResp;
      hide OnSnap;
      match m.kind
      case Hup =>
        if role != Leader {
          StartCampaign(preVote, timeout);
        }
      case Beat =>
        if role == Leader {
          BcastBeats();
        }
      case Vote => HandleVote(m);
      case PreVote => HandleVote(m);
      case VoteResp => HandleVoteResp(m);
      case PreVoteResp => HandlePreVoteResp(m, timeout);
      case Prop => HandleProp(m);
      case App => HandleApp(m, timeout);
      case AppResp => HandleAppResp(m);
      case Heartbeat => HandleHeartbeat(m);
      case HeartbeatResp => HandleHeartbeatResp(m);
      case Snap => HandleSnap(m, timeout);
    }

    method Step(m: Message, timeout: nat)
      modifies this, log
      ensures Value() == RaftNode.Step(old(Value()), m, timeout)
      ensures old(msgs) == [] ==> E.BallotStep(old(Value()), m, Value())
      ensures Y.Proper(m) ==> LogStep(old(Value()), Value())
      ensures old(msgs) == [] ==> OutboxStep(old(Value()), Value()) && M.Obeys(old(Value()), m, timeout, Value())
    {
      hide Handle;
      hide M.Obeys;
      StepMeans(Value(), m, timeout);
      hide LogStep;
      hide OutboxStep;
      hide E.BallotStep;
      if m.term > term {
        if (m.kind == Vote || m.kind == PreVote) && checkQuorum && leadID != NONE && electionElapsed < electionTimeout {
          return;
        }
        if m.kind != PreVote && (m.kind != PreVoteResp || m.reject) {
          ToFollower(m.term, if m.kind == Vote then NONE else m.from, timeout);
        }
      }
      Dispatch(m, timeout);
    }

    /** Contact sweeps of a leader, timed by its election timer. */
    method SweepContacts(timeout: nat)
      modifies this
      ensures Value() == Sweep(old(Value()), timeout)
    {
      hide CheckContacts;
      if checkQuorum {
        electionElapsed := electionElapsed + 1;
        if electionElapsed >= electionTimeout {
          electionElapsed := 0;
          StepDownOnQuorumLoss(timeout);
        }
      }
    }

    method LeaderTick(timeout: nat)
      modifies this, log
      ensures Value() == TickLeader(old(Value()), timeout)
    {
      hide Sweep;
      hide RaftNode.Step;
      hide M.Obeys;
      hide LogStep;
      hide OutboxStep;
      hide E.BallotStep;
      SweepContacts(timeout);
      if role != Leader {
        return;
      }
      heartbeatElapsed := heartbeatElapsed + 1;
      if heartbeatElapsed >= HEARTBEAT_TIMEOUT {
        heartbeatElapsed := 0;
        Step(Note(Beat, id, id, 0), timeout);
      }
    }

    method OtherTick(timeout: nat)
      modifies this, log
      ensures Value() == TickOther(old(Value()), timeout)
    {
      hide RaftNode.Step;
      hide M.Obeys;
      hide LogStep;
      hide OutboxStep;
      hide E.BallotStep;
      electionElapsed := electionElapsed + 1;
      if electionElapsed >= electionTimeout {
        electionElapsed := 0;
        Step(Note(Hup, id, id, 0), timeout);
      }
    }

    method Tick(timeout: nat)
      modifies this, log
      ensures Value() == RaftNode.Tick(old(Value()), timeout)
      ensures old(msgs) == [] ==> E.BallotStep(old(Value()), Note(Hup, id, id, 0), Value()) && M.TickRule(old(Value()), timeout, Value())
      ensures LogStep(old(Value()), Value()) && (old(msgs) == [] ==> OutboxStep(old(Value()), Value()))
    {
      hide LogStep;
      hide OutboxStep;
      hide E.BallotStep;
      hide RaftNode.Step;
      hide TickLeader;
      hide M.TickRule;
      TickMeans(Value(), timeout);
      hide TickOther;
      match role
      case Follower | Candidate | PreCandidate => OtherTick(timeout);
      case Leader => LeaderTick(timeout);
    }

    /** The highest index it is safe to truncate to: a leader spares what some peer still lacks. */
    method CompactableIndex(snapIndex: nat) returns (safe: nat)
      ensures safe <= snapIndex
      ensures role != Leader ==> safe == snapIndex
      ensures role == Leader ==> forall p :: p in peers && p != id ==> safe <= At(matchIndex, p)
      ensures role == Leader ==> safe == snapIndex || exists p :: p in peers && p != id && safe == At(matchIndex, p)
    {
      if role != Leader {
        return snapIndex;
      }
      safe := snapIndex;
      var k := 0;
      while k < |peers|
        invariant 0 <= k <= |peers| && safe <= snapIndex
        invariant forall j :: 0 <= j < k && peers[j] != id ==> safe <= At(matchIndex, peers[j])
        invariant safe == snapIndex || exists p :: p in peers && p != id && safe == At(matchIndex, p)
      {
        if peers[k] != id {
          var m := At(matchIndex, peers[k]);
          if m < safe {
            safe := m;
          }
        }
        k := k + 1;
      }
    }
  }

  lemma {:induction false} AppendMeans(n: Node, to: nat)
    ensures E.SameBallot(n, SendAppend(n, to)) && OutboxStep(n, SendAppend(n, to)) && M.SendRule(n, to, SendAppend(n, to))
  {
    hide M.SendRule;
    M.SendExactly(n, to);
    hide SendAppend;
    hide Y.Settled;
    hide Y.ProperOutbox;
    E.SendAppendBallot(n, to);
    if Y.Settled(n.log) && Y.ProperOutbox(n) {
      Y.Unmoved(n.log);
      Y.SettledFacts(n.log);
      Y.SendAppendProper(n.log, n, to);
    }
  }

  lemma {:induction false} LeaderMeans(n: Node)
    ensures E.SameBallot(n.(role := Leader), BecomeLeader(n))
    ensures LogStep(n, BecomeLeader(n)) && OutboxStep(n, BecomeLeader(n)) && M.LeadRule(n, BecomeLeader(n))
  {
    hide M.LeadRule;
    M.LeadExactly(n);
    hide BecomeLeader;
    hide Y.Settled;
    hide Y.Stepped;
    hide Y.ProperOutbox;
    E.BecomeLeaderBallot(n);
    if Y.Settled(n.log) {
      Y.LeaderStepped(n);
      if Y.ProperOutbox(n) {
        Y.LeaderProper(n);
      }
    }
  }

  lemma {:induction false} CampaignMeans(n: Node, pre: bool, timeout: nat)
    ensures var c := Campaign(n, pre, timeout);
            && LogStep(n, c) && OutboxStep(n, c) && M.CampaignRule(n, pre, timeout, c)
            && (E.NoGrants(n) ==>
                  && E.NoGrants(c)
                  && (|| (c.role == PreCandidate && c.term == n.term && c.votedFor == n.votedFor)
                      || (c.term == n.term + 1 && c.votedFor == n.id && c.votes == map[n.id := true] &&
                          (c.role == Candidate || (c.role == Leader && Granted(c.votes) >= n.Quorum())))))
  {
    hide Campaign;
    hide M.CampaignRule;
    M.CampaignExactly(n, pre, timeout);
    hide Granted;
    hide Y.Settled;
    hide Y.Stepped;
    hide Y.ProperOutbox;
    hide E.NoGrants;
    if E.NoGrants(n) {
      E.CampaignBallot(n, pre, timeout);
    }
    if Y.Settled(n.log) {
      Y.CampaignStepped(n, pre, timeout);
      if Y.ProperOutbox(n) {
        Y.CampaignProper(n, pre, timeout);
      }
    }
  }

  lemma {:induction false} StepMeans(n: Node, m: Message, timeout: nat)
    ensures n.msgs == [] ==>
              && E.BallotStep(n, m, Step(n, m, timeout)) && OutboxStep(n, Step(n, m, timeout))
              && M.Obeys(n, m, timeout, Step(n, m, timeout))
    ensures Y.Proper(m) ==> LogStep(n, Step(n, m, timeout))
  {
    hide Step;
    hide Y.Settled;
    hide Y.Stepped;
    hide Y.Proper;
    hide E.BallotStep;
    hide Y.ProperOutbox;
    hide M.Obeys;
    if n.msgs == [] {
      E.StepBallot(n, m, timeout);
      M.StepObeys(n, m, timeout);
      if Y.Settled(n.log) {
        Y.StepProper(n, m, timeout);
      }
    }
    if Y.Settled(n.log) && Y.Proper(m) {
      Y.StepStepped(n, m, timeout);
    }
  }

  lemma {:induction false} TickMeans(n: Node, timeout: nat)
    ensures n.msgs == [] ==>
              E.BallotStep(n, Note(Hup, n.id, n.id, 0), Tick(n, timeout)) && M.TickRule(n, timeout, Tick(n, timeout))
    ensures LogStep(n, Tick(n, timeout)) && (n.msgs == [] ==> OutboxStep(n, Tick(n, timeout)))
  {
    hide Tick;
    hide Y.Settled;
    hide Y.Stepped;
    hide E.BallotStep;
    hide Y.ProperOutbox;
    hide M.TickRule;
    if n.msgs == [] {
      E.TickBallot(n, timeout);
      M.TickExactly(n, timeout);
      if Y.Settled(n.log) {
        Y.TickProper(n, timeout);
      }
    }
    if Y.Settled(n.log) {
      Y.TickStepped(n, timeout);
    }
  }

  lemma {:induction false} AppendNothing(l: Log)
    ensures l.Append([]) == l
  {
  }
}
