/** What each message does to a node, said in terms of terms, indices and answers. */
module RaftMessages {
  import opened Records
  import opened RaftTypes
  import opened RaftLogs
  import opened RaftNode
  import P = RaftProgress

  function MaxOf(a: nat, b: nat): nat {
    if a < b then b else a
  }

  /** Where a message is handled. */
  lemma {:induction false} Dispatch(n: Node, m: Message, timeout: nat)
    ensures Step(n, m, timeout) ==
            if m.term > n.term && LeaseHolds(n, m) then n
            else
              var a := AdoptTerm(n, m, timeout);
              match m.kind
              case Vote => OnVote(a, m)
              case PreVote => OnVote(a, m)
              case App => OnApp(a, m, timeout)
              case AppResp => OnAppResp(a, m)
              case Heartbeat => OnHeartbeat(a, m)
              case HeartbeatResp => OnHeartbeatResp(a, m)
              case Prop => OnProp(a, m)
              case Snap => OnSnap(a, m, timeout)
              case VoteResp => OnVoteResp(a, m)
              case PreVoteResp => OnPreVoteResp(a, m, timeout)
              case _ => Handle(a, m, timeout)
  {
    hide AdoptTerm;
    hide LeaseHolds;
    hide OnVote;
    hide OnApp;
    hide OnAppResp;
    hide OnHeartbeat;
    hide OnHeartbeatResp;
    hide OnProp;
    hide OnSnap;
    hide OnVoteResp;
    hide OnPreVoteResp;
    hide Campaign;
    hide BcastHeartbeat;
  }

  /** A node that hears of a later term follows whoever told it, with a fresh timeout and no vote. */
  ghost predicate StepsAside(n: Node, m: Message, timeout: nat, n': Node) {
    && n'.role == Follower && n'.term == m.term && n'.leadID == m.from && n'.votedFor == NONE
    && n'.electionElapsed == 0 && n'.electionTimeout == timeout && n'.log == n.log && n'.msgs == []
    && n'.id == n.id && n'.peers == n.peers
  }

  // ----- Which log is more up to date -----------------------------------------------

  /** A log ending in (term, index) is at least as up to date as one ending in (term', index'): the
      later last term wins, then the longer log. */
  predicate AtLeast(term: nat, index: nat, term': nat, index': nat) {
    term > term' || (term == term' && index >= index')
  }

  /** The order is total and transitive. */
  lemma {:induction false} FreshnessOrder(t1: nat, i1: nat, t2: nat, i2: nat, t3: nat, i3: nat)
    ensures AtLeast(t1, i1, t2, i2) || AtLeast(t2, i2, t1, i1)
    ensures AtLeast(t1, i1, t2, i2) && AtLeast(t2, i2, t3, i3) ==> AtLeast(t1, i1, t3, i3)
    ensures AtLeast(t1, i1, t2, i2) && AtLeast(t2, i2, t1, i1) ==> t1 == t2 && i1 == i2
  {
  }

  // ----- Votes ----------------------------------------------------------------------

  /** The node still hears from a leader, and the request is of a later term. */
  predicate Shielded(n: Node, m: Message) {
    m.term > n.term && n.checkQuorum && n.leadID != NONE && n.electionElapsed < n.electionTimeout
  }

  /** No earlier vote and no known leader of the term stands in the way. */
  predicate Free(n: Node, m: Message) {
    m.term > n.term || n.votedFor == m.from || (n.votedFor == NONE && n.leadID == NONE)
  }

  /** The conditions of a vote, all of them. */
  predicate Deserves(n: Node, m: Message) {
    m.term >= n.term && Free(n, m) && AtLeast(m.logTerm, m.index, n.log.LastTerm(), n.log.LastIndex())
  }

  /** A vote or pre-vote request is ignored behind the shield and answered once otherwise: granted
      exactly when it deserves it. */
  ghost predicate VoteRule(n: Node, m: Message, timeout: nat, n': Node) {
    if Shielded(n, m) then n' == n
    else
      && |n'.msgs| == 1 && n'.log == n.log
      && var r := n'.msgs[0];
         && r.kind == (if m.kind == Vote then VoteResp else PreVoteResp) && r.to == m.from && r.from == n.id
         && (!r.reject <==> Deserves(n, m)) && r.term == (if r.reject then n'.term else m.term)
         && (m.kind == PreVote ==> n'.(msgs := []) == n)
         && (m.kind == Vote ==>
               && n'.term == MaxOf(n.term, m.term) && n'.role == (if m.term > n.term then Follower else n.role)
               && (m.term > n.term ==> n'.leadID == NONE && n'.electionTimeout == timeout)
               && n'.votedFor == (if !r.reject then m.from else if m.term > n.term then NONE else n.votedFor)
               && (!r.reject ==> n'.electionElapsed == 0) && (m.term <= n.term ==> n'.matchIndex == n.matchIndex))
  }

  lemma {:induction false} VoteExactly(n: Node, m: Message, timeout: nat)
    requires (m.kind == Vote || m.kind == PreVote) && n.msgs == []
    ensures VoteRule(n, m, timeout, Step(n, m, timeout))
  {
    hide Step;
    hide OnVote;
    hide Deserves;
    hide VoteRule;
    hide AtLeast;
    hide Log.LastIndex;
    hide Log.LastTerm;
    Dispatch(n, m, timeout);
    if Shielded(n, m) {
      Unanswered(n, m, timeout);
    } else {
      Voted(AdoptTerm(n, m, timeout), m);
      DeservesStill(n, m, timeout);
      Answered(n, m, timeout);
    }
  }

  lemma {:induction false} Unanswered(n: Node, m: Message, timeout: nat)
    requires Shielded(n, m)
    ensures VoteRule(n, m, timeout, n)
  {
  }

  lemma {:induction false} Answered(n: Node, m: Message, timeout: nat)
    requires (m.kind == Vote || m.kind == PreVote) && n.msgs == [] && !Shielded(n, m)
    ensures var a := AdoptTerm(n, m, timeout);
            var ok := Deserves(n, m);
            var r := Note(if m.kind == Vote then VoteResp else PreVoteResp, m.from, a.id, if ok then m.term else a.term)
                     .(reject := !ok);
            VoteRule(n, m, timeout, (if ok && m.kind == Vote then a.(votedFor := m.from, electionElapsed := 0) else a).(msgs := [r]))
  {
    hide AtLeast;
    hide Free;
    hide Log.LastIndex;
    hide Log.LastTerm;
    if Deserves(n, m) {
      assert m.term >= n.term;
    }
  }

  /** Adopting the term of a request changes nothing about whether it deserves a vote. */
  lemma {:induction false} DeservesStill(n: Node, m: Message, timeout: nat)
    requires m.kind == Vote || m.kind == PreVote
    ensures var a := AdoptTerm(n, m, timeout);
            Deserves(n, m) <==>
            m.term >= a.term && a.CanVote(m) && AtLeast(m.logTerm, m.index, a.log.LastTerm(), a.log.LastIndex())
  {
    hide AtLeast;
    hide Log.LastIndex;
    hide Log.LastTerm;
  }

  lemma {:induction false} Voted(a: Node, m: Message)
    requires (m.kind == Vote || m.kind == PreVote) && a.msgs == []
    ensures var a' := OnVote(a, m);
            var ok := m.term >= a.term && a.CanVote(m) && AtLeast(m.logTerm, m.index, a.log.LastTerm(), a.log.LastIndex());
            var r := Note(if m.kind == Vote then VoteResp else PreVoteResp, m.from, a.id, if ok then m.term else a.term)
                     .(reject := !ok);
            a' == (if ok && m.kind == Vote then a.(votedFor := m.from, electionElapsed := 0) else a).(msgs := [r])
  {
    hide Log.LastIndex;
    hide Log.LastTerm;
    hide Node.CanVote;
  }

  // ----- Appends and heartbeats -----------------------------------------------------

  /** The follower's log has the entry before the ones sent, and the sender is not outdated. */
  predicate Joins(n: Node, m: Message) {
    m.term >= n.term && (m.index == 0 || n.log.Term(m.index) == Some(m.logTerm))
  }

  /** The node follows the sender at its term. */
  ghost predicate FollowsSender(n: Node, m: Message, timeout: nat, n': Node) {
    && n'.role == Follower && n'.term == m.term && n'.leadID == m.from && n'.votedFor == NONE
    && n'.electionElapsed == 0 && n'.electionTimeout == timeout && n'.id == n.id && n'.peers == n.peers
  }

  /** Everything the sent entries say, nothing below them changed. */
  ghost predicate Takes(l: Log, entries: seq<Entry>, l': Log) {
    && l'.storage == l.storage && l'.applied == l.applied && l'.pending == l.pending
    && (entries == [] ==> l'.unstable == l.unstable)
    && |entries| <= |l'.unstable| && l'.unstable[|l'.unstable| - |entries|..] == entries
    && (l.Tidy() && Follow(l, entries) ==>
          && l'.Tidy() && l'.LastIndex() == entries[|entries| - 1].index
          && (forall i: nat :: i < entries[0].index ==> l'.Term(i) == l.Term(i))
          && (forall j :: 0 <= j < |entries| ==> l'.Term(entries[j].index) == Some(entries[j].term)))
  }

  /** An append is answered once: accepted exactly when it joins the log, and then everything sent
      is in the log and the commit index moves up as far as the log reaches; otherwise the log
      stays and the answer hints at its end. */
  ghost predicate AppendRule(n: Node, m: Message, timeout: nat, n': Node) {
    && |n'.msgs| == 1
    && (if m.term < n.term then n'.(msgs := []) == n else FollowsSender(n, m, timeout, n'))
    && var r := n'.msgs[0];
       && r.kind == AppResp && r.to == m.from && r.from == n.id && r.term == n'.term
       && (!r.reject <==> Joins(n, m))
       && (if r.reject then n'.log == n.log && r.hint == n.log.LastIndex()
           else
             && Takes(n.log, m.entries, n'.log) && r.index == n'.log.LastIndex()
             && n'.log.committed == MaxOf(n.log.committed, Min(m.commit, n'.log.LastIndex())))
  }

  lemma {:induction false} AppendExactly(n: Node, m: Message, timeout: nat)
    requires m.kind == App && n.msgs == []
    ensures AppendRule(n, m, timeout, Step(n, m, timeout))
  {
    hide Step;
    hide OnApp;
    hide Log.LastIndex;
    hide Log.Term;
    hide Takes;
    Dispatch(n, m, timeout);
    Appended(AdoptTerm(n, m, timeout), m, timeout);
  }

  lemma {:induction false} Appended(a: Node, m: Message, timeout: nat)
    requires m.kind == App && a.msgs == []
    ensures AppendRule(a, m, timeout, OnApp(a, m, timeout))
  {
    hide Log.LastIndex;
    hide Log.Term;
    hide Log.Append;
    hide Takes;
    if Joins(a, m) {
      var l := a.log.Append(m.entries);
      var c := MaxOf(a.log.committed, Min(m.commit, l.LastIndex()));
      CommitAside(l);
      TakesAll(a.log, m.entries, c);
      assert OnApp(a, m, timeout) == BecomeFollower(a, m.term, m.from, timeout).(log := l.(committed := c))
                                     .Send(Note(AppResp, m.from, a.id, m.term).(index := l.LastIndex()));
    }
  }

  /** The commit index plays no part in what a log answers. */
  lemma {:induction false} CommitAside(l: Log)
    ensures forall c: nat :: l.(committed := c).LastIndex() == l.LastIndex()
    ensures l.Append([]) == l
  {
  }

  lemma {:induction false} TakesAll(l: Log, entries: seq<Entry>, c: nat)
    ensures Takes(l, entries, l.Append(entries).(committed := c)) && l.Append(entries).committed == l.committed
  {
    hide Log.LastIndex;
    hide Log.Term;
    hide Log.Tidy;
    hide Follow;
    if l.Tidy() && Follow(l, entries) {
      TakesTerms(l, entries);
      TermsAside(l.Append(entries), c);
    }
    Suffix(l, entries);
  }

  lemma {:induction false} TakesTerms(l: Log, entries: seq<Entry>)
    requires l.Tidy() && Follow(l, entries)
    ensures var l' := l.Append(entries);
            && entries != [] && l'.Tidy() && l'.LastIndex() == entries[|entries| - 1].index
            && (forall i: nat :: i < entries[0].index ==> l'.Term(i) == l.Term(i))
            && (forall j :: 0 <= j < |entries| ==> l'.Term(entries[j].index) == Some(entries[j].term))
  {
    hide Log.LastIndex;
    hide Log.Term;
    hide Log.Append;
    AppendAnswers(l, entries);
    forall j | 0 <= j < |entries| ensures l.Append(entries).Term(entries[j].index) == Some(entries[j].term) {
      assert entries[j].index == entries[0].index + j;
    }
  }

  lemma {:induction false} TermsAside(l: Log, c: nat)
    ensures forall i: nat :: l.(committed := c).Term(i) == l.Term(i)
    ensures l.(committed := c).Tidy() == l.Tidy() && l.(committed := c).LastIndex() == l.LastIndex()
  {
  }

  /** A heartbeat of no earlier term resets the timer, names the leader and commits what it says, as
      far as the log reaches; it is always answered. */
  ghost predicate HeartbeatRule(n: Node, m: Message, timeout: nat, n': Node) {
    && |n'.msgs| == 1
    && var r := n'.msgs[0];
       && r.kind == HeartbeatResp && r.to == m.from && r.from == n.id && r.term == n'.term
       && (if m.term < n.term then n'.(msgs := []) == n
           else
             && n'.term == m.term && n'.leadID == m.from && n'.electionElapsed == 0
             && n'.role == (if m.term > n.term then Follower else n.role)
             && (m.term == n.term ==> n'.matchIndex == n.matchIndex)
             && n'.log == n.log.(committed := MaxOf(n.log.committed, Min(m.commit, n.log.LastIndex()))))
  }

  lemma {:induction false} HeartbeatExactly(n: Node, m: Message, timeout: nat)
    requires m.kind == Heartbeat && n.msgs == []
    ensures HeartbeatRule(n, m, timeout, Step(n, m, timeout))
  {
    hide Step;
    hide OnHeartbeat;
    hide Log.LastIndex;
    Dispatch(n, m, timeout);
    Heard(AdoptTerm(n, m, timeout), m);
  }

  lemma {:induction false} Heard(a: Node, m: Message)
    requires m.kind == Heartbeat && a.msgs == []
    ensures var l := a.log.(committed := MaxOf(a.log.committed, Min(m.commit, a.log.LastIndex())));
            var h := if m.term < a.term then a else a.(electionElapsed := 0, leadID := m.from, log := l);
            OnHeartbeat(a, m) == h.(msgs := [Note(HeartbeatResp, m.from, a.id, a.term)])
  {
    hide Log.LastIndex;
  }

  // ----- What a leader sends --------------------------------------------------------

  /** What goes to `to`: the entries from its next index on with the term before them and the commit
      index; or the stored snapshot, when those entries are gone, or when the peer is more than
      8 entries behind and the snapshot helps; or nothing, when the entries are
      gone and there is no snapshot. */
  ghost predicate SendRule(n: Node, to: nat, n': Node) {
    var next := At(n.nextIndex, to);
    var gone := next < n.log.storage.FirstIndex();
    var behind := n.log.LastIndex() > At(n.matchIndex, to) + 8;
    var snap := n.log.storage.snap;
    if snap.index > 0 && (gone || (behind && snap.index > At(n.matchIndex, to))) then
      n' == n.(nextIndex := n.nextIndex[to := snap.index + 1],
               msgs := n.msgs + [Note(Snap, to, n.id, n.term).(snap := snap)])
    else if gone then n' == n
    else
      && |n'.msgs| == |n.msgs| + 1 && n'.(msgs := n.msgs) == n && n.msgs <= n'.msgs
      && var x := n'.msgs[|n.msgs|];
         && x.kind == App && x.to == to && x.from == n.id && x.term == n.term && x.index == next - 1
         && (n.log.Term(next - 1).Some? ==> n.log.Term(next - 1) == Some(x.logTerm))
         && x.entries == n.log.Entries(next, n.log.LastIndex() + 1) && x.commit == n.log.committed
  }

  lemma {:induction false} SendExactly(n: Node, to: nat)
    ensures SendRule(n, to, SendAppend(n, to))
  {
    hide Log.LastIndex;
    hide Log.Term;
    hide Log.Entries;
    hide At;
  }

  // ----- What a leader learns -------------------------------------------------------

  /** A commit index that rises is of the leader's own term and held by a quorum of those it tracks. */
  ghost predicate CommitRule(n: Node, n': Node) {
    && n'.log == n.log.(committed := n'.log.committed) && n.log.committed <= n'.log.committed
    && (n.log.committed < n'.log.committed ==>
          && n.log.Term(n'.log.committed) == Some(n.term) && n'.log.committed <= n.log.LastIndex()
          && |set p | p in n'.matchIndex && n'.matchIndex[p] >= n'.log.committed| >= |n.peers| / 2 + 1)
  }

  lemma {:induction false} ScanCommits(n: Node, k: nat)
    requires k <= n.log.LastIndex()
    ensures var c := CommitScan(n, k);
            n.log.committed <= c &&
            (n.log.committed < c ==> c <= k && n.log.Term(c) == Some(n.term) && n.Matching(c) >= n.Quorum())
  {
    hide Log.Term;
    hide Log.LastIndex;
    hide Node.Matching;
    if k > n.log.committed && n.log.Term(k) == Some(n.term) && n.Matching(k) < n.Quorum() {
      ScanCommits(n, k - 1);
    }
  }

  lemma {:induction false} AdvanceCommits(n: Node)
    ensures var n' := MaybeAdvanceCommit(n); CommitRule(n, n') && n' == n.(log := n'.log)
  {
    hide Log.Term;
    hide Log.LastIndex;
    hide CommitScan;
    ScanCommits(n, n.log.LastIndex());
  }

  /** The index to try next after a rejection: right after the hint, or one back. */
  function Backed(next: nat, hint: nat): nat {
    if hint < next then hint + 1 else if next > 1 then next - 1 else next
  }

  /** What a leader takes its peer to hold is the most the peer ever acknowledged, and moves for
      nobody else; what it sends next follows.  A rejection takes nothing back and is answered from
      the hint on. */
  ghost predicate AckRule(n: Node, m: Message, timeout: nat, n': Node) {
    if m.term > n.term then StepsAside(n, m, timeout, n')
    else if n.role != Leader then n' == n
    else
      && n'.role == Leader && n'.term == n.term && n'.recentActive == n.recentActive + {m.from}
      && (if m.reject then
            var b := n.(recentActive := n.recentActive + {m.from},
                        nextIndex := n.nextIndex[m.from := Backed(At(n.nextIndex, m.from), m.hint)]);
            n'.matchIndex == n.matchIndex && n'.log == n.log && SendRule(b, m.from, n')
          else
            && n'.msgs == [] && CommitRule(n, n')
            && (forall p :: At(n'.matchIndex, p) ==
                            if p == m.from then MaxOf(At(n.matchIndex, p), m.index) else At(n.matchIndex, p))
            && (forall p :: At(n'.nextIndex, p) ==
                            if p == m.from && m.index > At(n.matchIndex, p) then m.index + 1 else At(n.nextIndex, p)))
  }

  lemma {:induction false} AckExactly(n: Node, m: Message, timeout: nat)
    requires m.kind == AppResp && n.msgs == []
    ensures AckRule(n, m, timeout, Step(n, m, timeout))
  {
    hide Step;
    hide OnAppResp;
    hide CommitRule;
    hide SendRule;
    Dispatch(n, m, timeout);
    Acked(AdoptTerm(n, m, timeout), m, timeout);
  }

  lemma {:induction false} Acked(n: Node, m: Message, timeout: nat)
    requires m.kind == AppResp && n.msgs == [] && m.term <= n.term
    ensures AckRule(n, m, timeout, OnAppResp(n, m))
  {
    hide MaybeAdvanceCommit;
    hide SendAppend;
    if n.role == Leader {
      var a := n.(recentActive := n.recentActive + {m.from});
      if m.reject {
        hide CommitRule;
        hide SendRule;
        var b := a.(nextIndex := a.nextIndex[m.from := Backed(At(a.nextIndex, m.from), m.hint)]);
        SendExactly(b, m.from);
        SendKeeps(b, m.from);
      } else {
        hide SendRule;
        AdvanceCommits(a);
        AdvanceCommits(a.(matchIndex := a.matchIndex[m.from := m.index], nextIndex := a.nextIndex[m.from := m.index + 1]));
      }
    }
  }

  lemma {:induction false} SendKeeps(n: Node, to: nat)
    ensures var n' := SendAppend(n, to); n'.(msgs := n.msgs, nextIndex := n.nextIndex) == n
  {
    hide SendAppend;
    hide Log.LastIndex;
    hide Log.Term;
    hide Log.Entries;
    hide At;
    SendExactly(n, to);
    var n' := SendAppend(n, to);
    assert n'.(msgs := n.msgs).(nextIndex := n.nextIndex) == n;
  }

  /** A heartbeat answer marks its sender active, and is answered with an append exactly when the
      sender is not known to hold the whole log. */
  ghost predicate PulseRule(n: Node, m: Message, timeout: nat, n': Node) {
    if m.term > n.term then StepsAside(n, m, timeout, n')
    else if n.role != Leader then n' == n
    else
      var a := n.(recentActive := n.recentActive + {m.from});
      if At(n.matchIndex, m.from) < n.log.LastIndex() then SendRule(a, m.from, n') else n' == a
  }

  lemma {:induction false} PulseExactly(n: Node, m: Message, timeout: nat)
    requires m.kind == HeartbeatResp && n.msgs == []
    ensures PulseRule(n, m, timeout, Step(n, m, timeout))
  {
    hide Step;
    hide SendRule;
    hide SendAppend;
    hide Log.LastIndex;
    Dispatch(n, m, timeout);
    SendExactly(n.(recentActive := n.recentActive + {m.from}), m.from);
  }

  // ----- Becoming leader ------------------------------------------------------------

  /** A new leader adds one empty entry of its term, takes nobody else to hold anything, and will
      send everybody else that entry first. */
  ghost predicate LeadRule(n: Node, n': Node) {
    var last := n.log.LastIndex();
    && n'.role == Leader && n'.leadID == n.id && n'.term == n.term && n'.recentActive == {n.id}
    && n'.electionElapsed == 0 && n'.heartbeatElapsed == 0
    && n'.log.(committed := n.log.committed) == n.log.Append([Entry(n.term, last + 1, None)])
    && (forall p :: p in n.peers || p == n.id ==> p in n'.matchIndex)
    && (forall p :: p in n'.matchIndex ==> n'.matchIndex[p] == if p == n.id then last + 1 else 0)
    && (forall p :: p in n.peers ==>
          At(n'.nextIndex, p) == last + 1 || At(n'.nextIndex, p) == n.log.storage.snap.index + 1)
    && (forall p :: p in n.peers && p != n.id ==> Sent(n'.msgs, p))
  }

  lemma {:induction false} LeadExactly(n: Node)
    ensures LeadRule(n, BecomeLeader(n))
  {
    hide MaybeAdvanceCommit;
    hide Log.LastIndex;
    hide Log.Append;
    hide BcastAppend;
    var l := Led(n);
    AdvanceCommits(l);
    BcastKeeps(MaybeAdvanceCommit(l), |n.peers|);
    BcastReachesAll(MaybeAdvanceCommit(l));
    CommitKept(n.log, [Entry(n.term, n.log.LastIndex() + 1, None)]);
    assert forall p :: p in n.peers <==> p in MembersOf(n.peers);
  }

  lemma {:induction false} CommitKept(l: Log, entries: seq<Entry>)
    ensures l.Append(entries) == l.(unstable := l.Append(entries).unstable)
  {
  }

  lemma {:induction false} BcastKeeps(n: Node, k: nat)
    requires k <= |n.peers|
    ensures var n' := BcastAppend(n, k);
            && n'.(msgs := n.msgs, nextIndex := n.nextIndex) == n
            && forall p :: At(n'.nextIndex, p) == At(n.nextIndex, p) || At(n'.nextIndex, p) == n.log.storage.snap.index + 1
  {
    hide SendAppend;
    if k > 0 {
      BcastKeeps(n, k - 1);
      var b := BcastAppend(n, k - 1);
      SendKeeps(b, n.peers[k - 1]);
      NextKept(b, n.peers[k - 1]);
    }
  }

  lemma {:induction false} NextKept(n: Node, to: nat)
    ensures var n' := SendAppend(n, to);
            n'.nextIndex == n.nextIndex || n'.nextIndex == n.nextIndex[to := n.log.storage.snap.index + 1]
  {
    hide Log.LastIndex;
    hide Log.Term;
    hide Log.Entries;
    hide At;
  }

  /** A candidate counts each answer once and leads exactly when a quorum has granted. */
  ghost predicate TallyRule(n: Node, m: Message, timeout: nat, n': Node) {
    if m.term > n.term then StepsAside(n, m, timeout, n')
    else if n.role != Candidate then n' == n
    else
      var votes := n.votes[m.from := !m.reject];
      if |set p | p in votes && votes[p]| >= |n.peers| / 2 + 1 then LeadRule(n, n') && n'.votes == votes
      else n' == n.(votes := votes)
  }

  lemma {:induction false} TallyExactly(n: Node, m: Message, timeout: nat)
    requires m.kind == VoteResp && n.msgs == []
    ensures TallyRule(n, m, timeout, Step(n, m, timeout))
  {
    hide Step;
    hide BecomeLeader;
    hide LeadRule;
    Dispatch(n, m, timeout);
    var c := n.(votes := n.votes[m.from := !m.reject]);
    LeadCounts(n, c.votes);
  }

  lemma {:induction false} LeadCounts(n: Node, votes: map<nat, bool>)
    ensures var n' := BecomeLeader(n.(votes := votes)); LeadRule(n, n') && n'.votes == votes
  {
    hide BcastAppend;
    hide MaybeAdvanceCommit;
    hide Log.LastIndex;
    hide Log.Append;
    var c := n.(votes := votes);
    LeadExactly(c);
    AdvanceCommits(Led(c));
    BcastKeeps(MaybeAdvanceCommit(Led(c)), |n.peers|);
  }

  /** A broadcast reaches every other peer whose next index is known. */
  ghost predicate Reaches(n: Node, n': Node) {
    forall p :: p in n.peers && p != n.id && At(n.nextIndex, p) > 0 ==> Sent(n'.msgs, p)
  }

  ghost predicate Sent(msgs: seq<Message>, p: nat) {
    exists x :: x in msgs && x.to == p && (x.kind == App || x.kind == Snap)
  }

  lemma {:induction false} SentStays(a: seq<Message>, b: seq<Message>, p: nat)
    requires Sent(a, p) && a <= b
    ensures Sent(b, p)
  {
    var x :| x in a && x.to == p && (x.kind == App || x.kind == Snap);
    assert x in b;
  }

  /** Something goes to a peer whose next index is known, behind what was there. */
  lemma {:induction false} SendReaches(n: Node, to: nat)
    ensures var n' := SendAppend(n, to);
            && n.msgs <= n'.msgs
            && (At(n.nextIndex, to) > 0 ==>
                  && |n'.msgs| == |n.msgs| + 1 && n'.msgs[|n.msgs|].to == to
                  && (n'.msgs[|n.msgs|].kind == App || n'.msgs[|n.msgs|].kind == Snap))
  {
    hide SendAppend;
    hide At;
    hide Log.LastIndex;
    hide Log.Term;
    hide Log.Entries;
    SendExactly(n, to);
  }

  lemma {:induction false} BcastReaches(n: Node, k: nat, p: nat)
    requires k <= |n.peers| && p in n.peers[..k] && p != n.id && At(n.nextIndex, p) > 0
    ensures Sent(BcastAppend(n, k).msgs, p)
  {
    hide SendAppend;
    hide Sent;
    hide At;
    var b, to := BcastAppend(n, k - 1), n.peers[k - 1];
    BcastKeeps(n, k - 1);
    SendReaches(b, to);
    if to == p {
      SentLast(SendAppend(b, to).msgs, |b.msgs|, p);
    } else {
      assert n.peers[..k] == n.peers[..k - 1] + [to];
      BcastReaches(n, k - 1, p);
      SentStays(b.msgs, SendAppend(b, to).msgs, p);
    }
  }

  lemma {:induction false} SentLast(msgs: seq<Message>, i: nat, p: nat)
    requires i < |msgs| && msgs[i].to == p && (msgs[i].kind == App || msgs[i].kind == Snap)
    ensures Sent(msgs, p)
  {
    assert msgs[i] in msgs;
  }

  lemma {:induction false} BcastReachesAll(n: Node)
    ensures Reaches(n, BcastAppend(n, |n.peers|))
  {
    hide BcastAppend;
    hide Sent;
    forall p | p in n.peers && p != n.id && At(n.nextIndex, p) > 0
      ensures Sent(BcastAppend(n, |n.peers|).msgs, p)
    {
      assert n.peers[..|n.peers|] == n.peers;
      BcastReaches(n, |n.peers|, p);
    }
  }

  // ----- Proposals and snapshots ----------------------------------------------------

  /** Only a leader takes a proposal: its data is appended in order at its term and counted as held
      by itself. */
  ghost predicate ProposeRule(n: Node, m: Message, timeout: nat, n': Node) {
    if m.term > n.term then StepsAside(n, m, timeout, n')
    else if n.role != Leader then n' == n
    else
      var last := n.log.LastIndex();
      var es := n'.log.unstable;
      && Takes(n.log, es[|es| - Min(|es|, |m.entries|)..], n'.log.(committed := n.log.committed)) && |m.entries| <= |es|
      && (forall j :: 0 <= j < |m.entries| ==>
            es[|es| - |m.entries| + j] == Entry(n.term, last + 1 + j, m.entries[j].data))
      && At(n'.matchIndex, n.id) == n'.log.LastIndex()
      && (forall p :: p != n.id ==> At(n'.matchIndex, p) == At(n.matchIndex, p))
      && n.log.committed <= n'.log.committed && n'.role == Leader && n'.term == n.term && Reaches(n, n')
  }

  lemma {:induction false} ProposeExactly(n: Node, m: Message, timeout: nat)
    requires m.kind == Prop && n.msgs == []
    ensures ProposeRule(n, m, timeout, Step(n, m, timeout))
  {
    hide Step;
    hide OnProp;
    hide ProposeRule;
    hide StepsAside;
    Dispatch(n, m, timeout);
    if n.role == Leader && m.term <= n.term {
      Proposed(n, m, timeout);
    } else {
      NotProposed(n, m, timeout);
    }
  }

  lemma {:induction false} NotProposed(n: Node, m: Message, timeout: nat)
    requires m.kind == Prop && n.msgs == [] && (n.role != Leader || m.term > n.term)
    ensures ProposeRule(n, m, timeout, OnProp(AdoptTerm(n, m, timeout), m))
  {
    hide BcastAppend;
    hide MaybeAdvanceCommit;
    hide Takes;
  }

  lemma {:induction false} Proposed(n: Node, m: Message, timeout: nat)
    requires n.role == Leader && n.msgs == [] && m.term <= n.term
    ensures ProposeRule(n, m, timeout, OnProp(n, m))
  {
    hide BcastAppend;
    hide MaybeAdvanceCommit;
    hide Log.LastIndex;
    hide Log.Append;
    hide Log.Term;
    hide Takes;
    hide Reaches;
    var es := Numbered(m.entries, n.term, n.log.LastIndex());
    var log := n.log.Append(es);
    var added := n.(log := log, matchIndex := n.matchIndex[n.id := log.LastIndex()]);
    BcastKeeps(added, |added.peers|);
    BcastReachesAll(added);
    ReachesSame(n, added, BcastAppend(added, |added.peers|), OnProp(n, m));
    AdvanceCommits(BcastAppend(added, |added.peers|));
    TakesAll(n.log, es, n.log.committed);
    CommitAside(log);
    Suffix(n.log, es);
  }

  lemma {:induction false} ReachesSame(n: Node, a: Node, b: Node, n': Node)
    requires Reaches(a, b) && a.peers == n.peers && a.id == n.id && a.nextIndex == n.nextIndex
    ensures b.msgs == n'.msgs ==> Reaches(n, n')
  {
  }

  lemma {:induction false} Suffix(l: Log, entries: seq<Entry>)
    ensures var u := l.Append(entries).unstable; |entries| <= |u| && u[|u| - |entries|..] == entries
  {
    if entries == [] {
      assert l.unstable[|l.unstable|..] == [];
    }
  }

  /** A snapshot of no earlier term beyond the commit index becomes pending and moves the commit and
      applied indices to its own; any other leaves the log.  The answer names what is held now. */
  ghost predicate SnapshotRule(n: Node, m: Message, timeout: nat, n': Node) {
    && |n'.msgs| == 1
    && var r := n'.msgs[0];
       && r.kind == AppResp && r.to == m.from && r.from == n.id && r.term == n'.term && (r.reject <==> m.term < n.term)
       && (if m.term < n.term then n'.(msgs := []) == n && r.hint == n.log.LastIndex()
           else
             && FollowsSender(n, m, timeout, n')
             && (if m.snap.index <= n.log.committed then n'.log == n.log && r.index == n.log.committed
                 else
                   && n'.log.pending == m.snap && n'.log.committed == m.snap.index && r.index == n'.log.LastIndex()
                   && n'.log.applied == MaxOf(n.log.applied, m.snap.index) && n'.log.storage == n.log.storage
                   && (n.log.Tidy() ==>
                         n'.log.LastIndex() >= m.snap.index && n'.log.Term(m.snap.index) == Some(m.snap.term))
                   && (n.log.Tidy() ==>
                         forall e :: e in n'.log.unstable <==> e in n.log.unstable && e.index > m.snap.index)))
  }

  lemma {:induction false} SnapshotExactly(n: Node, m: Message, timeout: nat)
    requires m.kind == Snap && n.msgs == []
    ensures SnapshotRule(n, m, timeout, Step(n, m, timeout))
  {
    hide Step;
    hide OnSnap;
    hide Log.LastIndex;
    hide Log.Tidy;
    Dispatch(n, m, timeout);
    Installed(AdoptTerm(n, m, timeout), m, timeout);
  }

  lemma {:induction false} Installed(a: Node, m: Message, timeout: nat)
    requires m.kind == Snap && a.msgs == []
    ensures SnapshotRule(a, m, timeout, OnSnap(a, m, timeout))
  {
    hide Log.LastIndex;
    hide DropCovered;
    hide Log.Term;
    hide Log.Tidy;
    if a.log.Tidy() && m.snap.index > a.log.committed {
      Restored(a.log, m.snap);
    }
  }

  /** A restored snapshot answers at its own index, and the log ends no earlier. */
  lemma {:induction false} Restored(l: Log, snap: Snapshot)
    requires l.Tidy() && snap.index > l.committed
    ensures var l' := l.Restore(snap);
            && l'.LastIndex() >= snap.index && l'.Term(snap.index) == Some(snap.term)
            && forall e :: e in l'.unstable <==> e in l.unstable && e.index > snap.index
  {
    hide Storage.LastIndex;
    hide Storage.Term;
    hide DropCovered;
    DropsExactly(l.unstable, snap.index);
    var u := l.Restore(snap).unstable;
    if u != [] {
      assert u[0] in u && u[|u| - 1] in u;
    }
  }

  /** Of consecutive entries exactly those above the index stay. */
  lemma {:induction false} DropsExactly(es: seq<Entry>, i: nat)
    requires es != [] ==> Contiguous(es, es[0].index)
    ensures forall e :: e in DropCovered(es, i) <==> e in es && e.index > i
  {
    if es != [] && es[0].index <= i {
      assert es[1..] != [] ==> Contiguous(es[1..], es[1..][0].index);
      DropsExactly(es[1..], i);
      assert es == [es[0]] + es[1..];
    }
  }

  // ----- Campaigns and ticks --------------------------------------------------------

  /** A vote or pre-vote request for a term, with where the log ends. */
  function Request(kind: Kind, id: nat, log: Log, to: nat, term: nat): Message {
    Note(kind, to, id, term).(index := log.LastIndex(), logTerm := log.LastTerm())
  }

  lemma {:induction false} Asked(n: Node, k: nat, pre: bool, j: nat)
    requires j < k <= |n.peers| && n.peers[j] != n.id
    ensures Request(if pre then PreVote else Vote, n.id, n.log, n.peers[j], if pre then n.term + 1 else n.term) in
            BcastVote(n, k, pre).msgs
  {
    hide Log.LastIndex;
    hide Log.LastTerm;
    if j < k - 1 {
      Asked(n, k - 1, pre, j);
    }
  }

  /** A campaign asks every peer: a pre-election at the same term, or an election at the next with the
      node's own vote. */
  ghost predicate CampaignRule(n: Node, pre: bool, timeout: nat, n': Node) {
    && n'.id == n.id && n'.peers == n.peers
    && (|n.peers| >= 2 ==>
          && n'.role == (if pre then PreCandidate else Candidate) && n'.term == (if pre then n.term else n.term + 1)
          && n'.votedFor == (if pre then n.votedFor else n.id) && n'.leadID == NONE && n'.votes == map[n.id := true]
          && n'.electionElapsed == 0 && n'.electionTimeout == timeout && n'.log == n.log
          && forall j :: 0 <= j < |n.peers| && n.peers[j] != n.id ==>
               Request(if pre then PreVote else Vote, n.id, n.log, n.peers[j], n.term + 1) in n'.msgs)
    && (|n.peers| < 2 ==>
          && n'.role == Leader && n'.term == n.term + 1 && n'.votedFor == n.id
          && forall p :: p != n.id ==> At(n'.matchIndex, p) == 0)
  }

  lemma {:induction false} CampaignExactly(n: Node, pre: bool, timeout: nat)
    ensures CampaignRule(n, pre, timeout, Campaign(n, pre, timeout))
    decreases pre
  {
    hide BcastVote;
    hide BecomeLeader;
    hide LeadRule;
    hide Request;
    var c := if pre then BecomePreCandidate(n, timeout) else BecomeCandidate(n, timeout);
    assert GrantedBy(c.votes) == {n.id};
    if |n.peers| < 2 {
      if pre {
        CampaignExactly(c, false, timeout);
      } else {
        LeaderBallot(c);
      }
    } else {
      P.AloneAsks(c, |c.peers|, pre);
      forall j | 0 <= j < |n.peers| && n.peers[j] != n.id
        ensures Request(if pre then PreVote else Vote, n.id, n.log, n.peers[j], n.term + 1) in
                Campaign(n, pre, timeout).msgs
      {
        Asked(c, |c.peers|, pre, j);
      }
    }
  }

  lemma {:induction false} LeaderBallot(n: Node)
    ensures var n' := BecomeLeader(n);
            && n'.role == Leader && n'.term == n.term && n'.votedFor == n.votedFor && n'.id == n.id && n'.peers == n.peers
            && forall p :: p != n.id ==> At(n'.matchIndex, p) == 0
  {
    hide BcastAppend;
    hide MaybeAdvanceCommit;
    hide Log.LastIndex;
    hide Log.Append;
    AdvanceCommits(Led(n));
    BcastKeeps(MaybeAdvanceCommit(Led(n)), |n.peers|);
  }

  /** A pre-candidate counts each answer once and runs exactly when a quorum has granted. */
  ghost predicate PollRule(n: Node, m: Message, timeout: nat, n': Node) {
    if m.term > n.term && m.reject then StepsAside(n, m, timeout, n')
    else if n.role != PreCandidate then n' == n
    else
      var votes := n.votes[m.from := !m.reject];
      if |set p | p in votes && votes[p]| >= |n.peers| / 2 + 1 then CampaignRule(n, false, timeout, n')
      else n' == n.(votes := votes)
  }

  lemma {:induction false} PollExactly(n: Node, m: Message, timeout: nat)
    requires m.kind == PreVoteResp && n.msgs == []
    ensures PollRule(n, m, timeout, Step(n, m, timeout))
  {
    hide Step;
    hide Campaign;
    hide CampaignRule;
    Dispatch(n, m, timeout);
    var c := n.(votes := n.votes[m.from := !m.reject]);
    CampaignExactly(c, false, timeout);
    CampaignAside(n, c, timeout, Campaign(c, false, timeout));
  }

  lemma {:induction false} CampaignAside(n: Node, c: Node, timeout: nat, n': Node)
    requires CampaignRule(c, false, timeout, n') && c == n.(votes := c.votes)
    ensures CampaignRule(n, false, timeout, n')
  {
  }

  /** A tick campaigns exactly when the election timer runs out.  A leader's runs out on a sweep of its
      contacts, and it gives up exactly when fewer than a quorum were active; while it leads, it sends
      heartbeats on every third tick and nothing on the others. */
  ghost predicate TickRule(n: Node, timeout: nat, n': Node) {
    var due := n.electionElapsed + 1 >= n.electionTimeout;
    if n.role != Leader then
      if due then CampaignRule(n, n.preVote, timeout, n') else n' == n.(electionElapsed := n.electionElapsed + 1)
    else
      && (P.Distinct(n.peers) ==> (n'.role != Leader <==> n.checkQuorum && due && InContact(n) < |n.peers| / 2 + 1))
      && n'.term == n.term && n'.log == n.log
      && (n'.role != Leader ==>
            && n'.role == Follower && n'.leadID == NONE && n'.votedFor == NONE && n'.msgs == []
            && n'.electionElapsed == 0 && n'.electionTimeout == timeout)
      && (n'.role == Leader ==>
            && n'.matchIndex == n.matchIndex
            && n'.electionElapsed == (if !n.checkQuorum then n.electionElapsed else if due then 0 else n.electionElapsed + 1)
            && n'.recentActive == (if n.checkQuorum && due then {n.id} else n.recentActive)
            && n'.heartbeatElapsed == (if n.heartbeatElapsed + 1 >= 3 then 0 else n.heartbeatElapsed + 1)
            && (n.heartbeatElapsed + 1 < 3 ==> n'.msgs == [])
            && (n.heartbeatElapsed + 1 >= 3 ==>
                  forall p :: p in n.peers && p != n.id ==> exists x :: x in n'.msgs && x.kind == Heartbeat && x.to == p))
  }

  /** The members among `peers` a leader counts as active: itself and its recent contacts. */
  ghost function Contacts(peers: seq<nat>, id: nat, active: set<nat>): set<nat> {
    set p | p in peers && (p == id || p in active)
  }

  /** How many members the leader was in contact with, itself included. */
  ghost function InContact(n: Node): nat {
    |Contacts(n.peers, n.id, n.recentActive)|
  }

  lemma {:induction false} ContactsSnoc(peers: seq<nat>, p: nat, id: nat, active: set<nat>)
    requires p !in peers
    ensures |Contacts(peers + [p], id, active)| ==
            |Contacts(peers, id, active)| + (if p == id || p in active then 1 else 0)
  {
    var s, s' := Contacts(peers, id, active), Contacts(peers + [p], id, active);
    assert forall q :: q in peers + [p] <==> q in peers || q == p;
    assert s' == if p == id || p in active then s + {p} else s;
  }

  lemma {:induction false} ActiveCounts(n: Node, k: nat)
    requires k <= |n.peers| && P.Distinct(n.peers)
    ensures n.Active(k) == |Contacts(n.peers[..k], n.id, n.recentActive)|
  {
    hide Contacts;
    if k == 0 {
      NoContacts(n.peers[..0], n.id, n.recentActive);
    } else {
      ActiveCounts(n, k - 1);
      assert n.peers[..k] == n.peers[..k - 1] + [n.peers[k - 1]];
      ContactsSnoc(n.peers[..k - 1], n.peers[k - 1], n.id, n.recentActive);
    }
  }

  lemma {:induction false} NoContacts(peers: seq<nat>, id: nat, active: set<nat>)
    requires peers == []
    ensures Contacts(peers, id, active) == {}
  {
  }

  lemma {:induction false} TickExactly(n: Node, timeout: nat)
    requires n.msgs == []
    ensures TickRule(n, timeout, Tick(n, timeout))
  {
    hide Campaign;
    hide CampaignRule;
    hide Step;
    hide TickLeader;
    if n.role != Leader {
      var e := n.(electionElapsed := 0);
      HupStep(e, timeout);
      CampaignExactly(e, n.preVote, timeout);
      TimerAside(n, timeout, Campaign(e, n.preVote, timeout));
    } else {
      LeaderTicks(n, timeout);
    }
  }

  lemma {:induction false} LeaderTicks(n: Node, timeout: nat)
    requires n.msgs == [] && n.role == Leader
    ensures TickRule(n, timeout, TickLeader(n, timeout))
  {
    hide BcastHeartbeat;
    hide Step;
    hide Sweep;
    hide CampaignRule;
    hide InContact;
    hide P.Distinct;
    var e := Sweep(n, timeout);
    Swept(n, timeout);
    if e.role == Leader {
      var b := e.(heartbeatElapsed := 0);
      P.BeatStep(b, timeout);
      Beats(b);
    }
  }

  lemma {:induction false} Swept(n: Node, timeout: nat)
    requires n.role == Leader
    ensures var due := n.checkQuorum && n.electionElapsed + 1 >= n.electionTimeout;
            var e := Sweep(n, timeout);
            && (P.Distinct(n.peers) ==> (e.role != Leader <==> due && InContact(n) < |n.peers| / 2 + 1))
            && e == (if e.role != Leader then BecomeFollower(n, n.term, NONE, timeout)
                     else n.(electionElapsed := if !n.checkQuorum then n.electionElapsed else if due then 0
                                                else n.electionElapsed + 1,
                             recentActive := if due then {n.id} else n.recentActive))
  {
    hide Node.Active;
    hide InContact;
    hide P.Distinct;
    ActiveAside(n, |n.peers|);
    if P.Distinct(n.peers) {
      ActiveAll(n);
    }
  }

  lemma {:induction false} ActiveAll(n: Node)
    requires P.Distinct(n.peers)
    ensures n.Active(|n.peers|) == InContact(n)
  {
    ActiveCounts(n, |n.peers|);
    assert n.peers[..|n.peers|] == n.peers;
  }

  lemma {:induction false} HupStep(n: Node, timeout: nat)
    requires n.role != Leader
    ensures Step(n, Note(Hup, n.id, n.id, 0), timeout) == Campaign(n, n.preVote, timeout)
  {
    hide Campaign;
  }

  lemma {:induction false} TimerAside(n: Node, timeout: nat, n': Node)
    requires CampaignRule(n.(electionElapsed := 0), n.preVote, timeout, n')
    ensures CampaignRule(n, n.preVote, timeout, n')
  {
  }

  lemma {:induction false} ActiveAside(n: Node, k: nat)
    requires k <= |n.peers|
    ensures n.(electionElapsed := 0).Active(k) == n.Active(k)
  {
    if k > 0 {
      ActiveAside(n, k - 1);
    }
  }

  lemma {:induction false} Beats(n: Node)
    requires n.msgs == []
    ensures var n' := BcastHeartbeat(n, |n.peers|);
            && n'.(msgs := []) == n
            && forall p :: p in n.peers && p != n.id ==> exists x :: x in n'.msgs && x.kind == Heartbeat && x.to == p
  {
    hide BcastHeartbeat;
    P.AloneBeats(n, |n.peers|);
    var n' := BcastHeartbeat(n, |n.peers|);
    forall p | p in n.peers && p != n.id ensures exists x :: x in n'.msgs && x.kind == Heartbeat && x.to == p {
      P.HeartbeatsClamped(n, |n.peers|, p);
      assert n.peers[..|n.peers|] == n.peers;
      var i :| 0 <= i < |n'.msgs| && n'.msgs[i].to == p;
      assert n'.msgs[i] in n'.msgs;
    }
  }

  // ----- All messages ---------------------------------------------------------------

  /** What a node may do on `m`, by the kind of message. */
  ghost predicate Obeys(n: Node, m: Message, timeout: nat, n': Node) {
    match m.kind
    case Vote => VoteRule(n, m, timeout, n')
    case PreVote => VoteRule(n, m, timeout, n')
    case VoteResp => TallyRule(n, m, timeout, n')
    case PreVoteResp => PollRule(n, m, timeout, n')
    case App => AppendRule(n, m, timeout, n')
    case AppResp => AckRule(n, m, timeout, n')
    case Heartbeat => HeartbeatRule(n, m, timeout, n')
    case HeartbeatResp => PulseRule(n, m, timeout, n')
    case Prop => ProposeRule(n, m, timeout, n')
    case Snap => SnapshotRule(n, m, timeout, n')
    case _ => true
  }

  /** Every message is obeyed. */
  lemma {:induction false} StepObeys(n: Node, m: Message, timeout: nat)
    requires n.msgs == []
    ensures Obeys(n, m, timeout, Step(n, m, timeout))
  {
    hide Step;
    hide VoteRule;
    hide TallyRule;
    hide PollRule;
    hide AppendRule;
    hide AckRule;
    hide HeartbeatRule;
    hide PulseRule;
    hide ProposeRule;
    hide SnapshotRule;
    match m.kind
    case Vote => VoteExactly(n, m, timeout);
    case PreVote => VoteExactly(n, m, timeout);
    case VoteResp => TallyExactly(n, m, timeout);
    case PreVoteResp => PollExactly(n, m, timeout);
    case App => AppendExactly(n, m, timeout);
    case AppResp => AckExactly(n, m, timeout);
    case Heartbeat => HeartbeatExactly(n, m, timeout);
    case HeartbeatResp => PulseExactly(n, m, timeout);
    case Prop => ProposeExactly(n, m, timeout);
    case Snap => SnapshotExactly(n, m, timeout);
    case _ =>
  }
}
