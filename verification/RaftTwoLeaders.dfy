/** Two runs of three fresh nodes, all settings at their defaults and every delivered message
    really sent, in which one term gets two leaders.  Each keeps one of the two delivery provisos
    of election safety and breaks only the other: in the first a node forgets its vote, in the
    second a vote granted for an earlier term is counted. */
module RaftTwoLeaders {
  import opened Records
  import opened RaftTypes
  import opened RaftLogs
  import opened RaftNode
  import opened RaftElection
  import P = RaftProgress
  import M = RaftMessages

  datatype Proviso = NoStaleGrants | NoForgottenVotes

  /** Messages delivered were sent, timeouts are drawn in range, and one proviso is kept. */
  predicate Possible(s: System, e: Event, p: Proviso) {
    && Target(e) in s.nodes && !e.Restart? && IsTimeout(e.timeout)
    && (e.Deliver? ==>
          && e.m in s.sent
          && (p.NoStaleGrants? && Grant(e.m) ==> e.m.term >= s.nodes[e.m.to].term)
          && (p.NoForgottenVotes? && e.m.kind == Vote && e.m.term == s.nodes[e.m.to].term ==>
                !Forgot(s, e.m.to, e.m.from)))
  }

  ghost predicate Trace(p: Proviso, s: System, events: seq<Event>, s': System)
    decreases |events|
  {
    if events == [] then s' == s
    else
      var e := events[|events| - 1];
      exists mid :: Trace(p, s, events[..|events| - 1], mid) && Possible(mid, e, p) && s' == Next(mid, e)
  }

  lemma {:induction false} Extend(p: Proviso, s: System, events: seq<Event>, mid: System, e: Event)
    requires Trace(p, s, events, mid) && Possible(mid, e, p)
    ensures Trace(p, s, events + [e], Next(mid, e))
  {
    hide Next;
    hide Possible;
    var all := events + [e];
    assert all[..|all| - 1] == events && all[|all| - 1] == e;
    assert Trace(p, s, all[..|all| - 1], mid);
  }

  // ----- What single nodes do -------------------------------------------------------

  const PEERS: seq<nat> := [1, 2, 3]
  const SHORT: Log := Log(Storage(map[], NO_SNAPSHOT), [], 0, 0, NO_SNAPSHOT)
  const LONG: Log := SHORT.(unstable := [Entry(1, 1, None)])

  /** A node of the group that does not lead, with default settings and election timeout 10. */
  function Peer(id: nat, role: Role, term: nat, votedFor: nat, leadID: nat, log: Log, elapsed: nat): Node {
    Node(id, role, term, votedFor, if role == Follower then map[] else map[id := true], leadID, PEERS, map[], map[], {},
         true, true, log, elapsed, 0, 10, [])
  }

  /** The same node, outbox and heartbeat counter aside. */
  ghost predicate Is(n: Node, x: Node) {
    n.(msgs := [], heartbeatElapsed := 0) == x
  }

  /** The request is among these messages for every peer but the sender. */
  ghost predicate Asks(sent: set<Message>, kind: Kind, id: nat, log: Log, term: nat) {
    && (id == 1 || M.Request(kind, id, log, 1, term) in sent)
    && (id == 2 || M.Request(kind, id, log, 2, term) in sent)
    && (id == 3 || M.Request(kind, id, log, 3, term) in sent)
  }

  function Outbox(n: Node): set<Message> {
    set x | x in n.msgs
  }

  lemma {:induction false} LogFacts()
    ensures SHORT.LastIndex() == 0 && SHORT.LastTerm() == 0 && SHORT.Term(1) == None
    ensures LONG.LastIndex() == 1 && LONG.LastTerm() == 1 && LONG.Term(1) == Some(1)
    ensures SHORT.IsUpToDate(0, 0) && SHORT.IsUpToDate(1, 1)
  {
    assert SHORT.storage.IsLast(0);
  }

  lemma {:induction false} OneVote(id: nat)
    ensures Granted(map[id := true]) == 1
  {
    assert GrantedBy(map[id := true]) == {id};
  }

  lemma {:induction false} TwoVotes(id: nat, other: nat)
    requires id != other
    ensures Granted(map[id := true][other := true]) == 2
  {
    assert GrantedBy(map[id := true][other := true]) == {id, other};
  }

  lemma {:induction false} AsksAll(n: Node, pre: bool)
    requires n.peers == PEERS
    ensures BcastVote(n, 3, pre).(msgs := n.msgs) == n
    ensures Asks(Outbox(BcastVote(n, 3, pre)), if pre then PreVote else Vote, n.id, n.log,
                 if pre then n.term + 1 else n.term)
  {
    hide BcastVote;
    hide M.Request;
    P.AloneAsks(n, 3, pre);
    if n.id != 1 {
      M.Asked(n, 3, pre, 0);
    }
    if n.id != 2 {
      M.Asked(n, 3, pre, 1);
    }
    if n.id != 3 {
      M.Asked(n, 3, pre, 2);
    }
  }

  /** The election timer runs out. */
  lemma {:induction false} Probes(n: Node)
    requires n.peers == PEERS && n.preVote && n.role != Leader && n.electionElapsed + 1 >= n.electionTimeout
    ensures var r := Tick(n, 10);
            && r.(msgs := n.msgs) == BecomePreCandidate(n, 10)
            && Asks(Outbox(r), PreVote, n.id, n.log, n.term + 1)
  {
    hide BcastVote;
    hide Granted;
    hide Asks;
    OneVote(n.id);
    AsksAll(BecomePreCandidate(n, 10), true);
  }

  lemma {:induction false} AnswersProbe(n: Node, m: Message)
    requires m.kind == PreVote && m.term > n.term && n.leadID == NONE && n.log.IsUpToDate(m.index, m.logTerm)
    ensures var r := Step(n, m, 10); r.(msgs := n.msgs) == n && Note(PreVoteResp, m.from, n.id, m.term) in r.msgs
  {
    hide Log.IsUpToDate;
    hide Campaign;
  }

  lemma {:induction false} Campaigns(n: Node, from: nat)
    requires n.peers == PEERS && n.role == PreCandidate && n.votes == map[n.id := true] && from != n.id
    ensures var r := Step(n, Note(PreVoteResp, n.id, from, n.term + 1), 10);
            && r.(msgs := n.msgs) == BecomeCandidate(n, 10)
            && Asks(Outbox(r), Vote, n.id, n.log, n.term + 1)
  {
    hide BcastVote;
    hide Granted;
    hide Asks;
    OneVote(n.id);
    TwoVotes(n.id, from);
    AsksAll(BecomeCandidate(n, 10), false);
  }

  /** A vote for the first request of a term heard of, or of a term without vote and leader. */
  lemma {:induction false} Votes(n: Node, m: Message)
    requires m.kind == Vote && n.leadID == NONE && n.log.IsUpToDate(m.index, m.logTerm)
    requires m.term > n.term || (m.term == n.term && n.votedFor == NONE)
    ensures var r := Step(n, m, 10);
            var a := if m.term > n.term then BecomeFollower(n, m.term, NONE, 10) else n;
            && r.(msgs := n.msgs) == a.(votedFor := m.from, electionElapsed := 0)
            && Note(VoteResp, m.from, n.id, m.term) in r.msgs
  {
    hide Log.IsUpToDate;
    hide Campaign;
  }

  /** Two votes of three, of whatever terms. */
  lemma {:induction false} Wins(n: Node, from: nat, term: nat)
    requires n.peers == PEERS && n.role == Candidate && n.votes == map[n.id := true] && from != n.id && term <= n.term
    ensures var r := Step(n, Note(VoteResp, n.id, from, term), 10);
            r == BecomeLeader(n.(votes := n.votes[from := true])) && r.role == Leader && r.term == n.term
  {
    hide BecomeLeader;
    hide Granted;
    TwoVotes(n.id, from);
    BecomeLeaderBallot(n.(votes := n.votes[from := true]));
  }

  // ----- Steps of the group ---------------------------------------------------------

  /** Three nodes that have never run. */
  const START: System :=
    System(map i | i in {1, 2, 3} :: Peer(i, Follower, 0, NONE, NONE, SHORT, 0), {}, map[], {})

  /** A run from the start, with the proviso it keeps and where it ends. */
  datatype Story = Story(keeps: Proviso, events: seq<Event>, end: System)
  {
    ghost predicate Valid() {
      Trace(keeps, START, events, end) && end.nodes.Keys == {1, 2, 3}
    }
  }

  /** The story goes on, only node `i` having moved. */
  ghost predicate Goes(r: Story, r': Story, i: nat) {
    && r'.Valid() && r'.keeps == r.keeps && i in r'.end.nodes
    && r'.end.nodes == r.end.nodes[i := r'.end.nodes[i]]
    && r.end.sent <= r'.end.sent && r.end.leaders <= r'.end.leaders
  }

  lemma {:induction false} Advance(r: Story, e: Event) returns (r': Story)
    requires r.Valid() && Possible(r.end, e, r.keeps)
    ensures var i := Target(e);
            && Goes(r, r', i)
            && r'.end.nodes[i] == Moved(r.end.nodes[i].(msgs := []), e)
            && Outbox(r'.end.nodes[i]) <= r'.end.sent
            && (r'.end.nodes[i].role == Leader ==> (i, r'.end.nodes[i].term) in r'.end.leaders)
  {
    hide Moved;
    hide Trace;
    hide Possible;
    assert Target(e) in r.end.nodes by {
      PossibleTarget(r.end, e, r.keeps);
    }
    Extend(r.keeps, START, r.events, r.end, e);
    r' := r.(events := r.events + [e], end := Next(r.end, e));
  }

  lemma {:induction false} PossibleTarget(s: System, e: Event, p: Proviso)
    requires Possible(s, e, p)
    ensures Target(e) in s.nodes
  {
  }

  /** A node that hears nothing starts a pre-election. */
  lemma {:induction false} TimesOut(r: Story, i: nat, role: Role, term: nat, vote: nat, lead: nat, log: Log, elapsed: nat)
      returns (r': Story)
    requires r.Valid() && i in {1, 2, 3} && role != Leader && elapsed < 10
    requires Is(r.end.nodes[i], Peer(i, role, term, vote, lead, log, elapsed))
    ensures Goes(r, r', i) && Is(r'.end.nodes[i], Peer(i, PreCandidate, term, vote, NONE, log, 0))
    ensures Asks(r'.end.sent, PreVote, i, log, term + 1)
    decreases 10 - elapsed
  {
    hide Step;
    hide Trace;
    hide M.Request;
    var n := r.end.nodes[i].(msgs := []);
    if elapsed == 9 {
      hide Tick;
      Probes(n);
      r' := Advance(r, TickAt(i, 10));
    } else {
      var r1 := Advance(r, TickAt(i, 10));
      r' := TimesOut(r1, i, role, term, vote, lead, log, elapsed + 1);
    }
  }

  /** A pre-candidate becomes a candidate through one peer that knows no leader. */
  lemma {:induction false} Nominated(r: Story, i: nat, j: nat, term: nat, vote: nat, log: Log,
                                     role: Role, term': nat, vote': nat, log': Log, elapsed: nat)
      returns (r': Story)
    requires r.Valid() && {i, j} <= {1, 2, 3} && i != j && term' <= term
    requires Is(r.end.nodes[i], Peer(i, PreCandidate, term, vote, NONE, log, 0))
    requires Is(r.end.nodes[j], Peer(j, role, term', vote', NONE, log', elapsed))
    requires log'.IsUpToDate(log.LastIndex(), log.LastTerm())
    requires M.Request(PreVote, i, log, j, term + 1) in r.end.sent
    ensures r'.Valid() && r'.keeps == r.keeps && r.end.sent <= r'.end.sent && r.end.leaders <= r'.end.leaders
    ensures forall k :: k in {1, 2, 3} - {i, j} ==> r'.end.nodes[k] == r.end.nodes[k]
    ensures Is(r'.end.nodes[i], Peer(i, Candidate, term + 1, i, NONE, log, 0))
    ensures Is(r'.end.nodes[j], Peer(j, role, term', vote', NONE, log', elapsed))
    ensures Asks(r'.end.sent, Vote, i, log, term + 1)
  {
    hide Step;
    hide Trace;
    hide Log.IsUpToDate;
    hide Log.LastIndex;
    hide Log.LastTerm;
    var m := M.Request(PreVote, i, log, j, term + 1);
    AnswersProbe(r.end.nodes[j].(msgs := []), m);
    var r1 := Advance(r, Deliver(m, 10));
    var a := Note(PreVoteResp, i, j, term + 1);
    Campaigns(r1.end.nodes[i].(msgs := []), j);
    r' := Advance(r1, Deliver(a, 10));
  }

  /** A vote, at a term the voter had not reached or at one without vote and leader. */
  lemma {:induction false} Voted(r: Story, i: nat, j: nat, log: Log, term: nat,
                                 role: Role, term': nat, vote: nat, log': Log, elapsed: nat)
      returns (r': Story)
    requires r.Valid() && {i, j} <= {1, 2, 3} && i != j
    requires term' < term || (term' == term && vote == NONE && r.keeps.NoStaleGrants?)
    requires Is(r.end.nodes[j], Peer(j, role, term', vote, NONE, log', elapsed))
    requires log'.IsUpToDate(log.LastIndex(), log.LastTerm())
    requires M.Request(Vote, i, log, j, term) in r.end.sent
    ensures Goes(r, r', j) && Note(VoteResp, i, j, term) in r'.end.sent
    ensures Is(r'.end.nodes[j], Peer(j, if term' < term then Follower else role, term, i, NONE, log', 0))
  {
    hide Step;
    hide Trace;
    hide Log.IsUpToDate;
    hide Log.LastIndex;
    hide Log.LastTerm;
    var m := M.Request(Vote, i, log, j, term);
    Votes(r.end.nodes[j].(msgs := []), m);
    r' := Advance(r, Deliver(m, 10));
  }

  /** A candidate counts a granted vote. */
  lemma {:induction false} Elected(r: Story, i: nat, j: nat, term: nat, granted: nat, log: Log) returns (r': Story)
    requires r.Valid() && {i, j} <= {1, 2, 3} && i != j
    requires granted == term || (granted < term && r.keeps.NoForgottenVotes?)
    requires Is(r.end.nodes[i], Peer(i, Candidate, term, i, NONE, log, 0))
    requires Note(VoteResp, i, j, granted) in r.end.sent
    ensures Goes(r, r', i) && (i, term) in r'.end.leaders
    ensures r'.end.nodes[i] ==
            BecomeLeader(r.end.nodes[i].(msgs := [], votes := map[i := true][j := true]))
    ensures Outbox(r'.end.nodes[i]) <= r'.end.sent
  {
    hide Step;
    hide Trace;
    hide BecomeLeader;
    Wins(r.end.nodes[i].(msgs := []), j, granted);
    r' := Advance(r, Deliver(Note(VoteResp, i, j, granted), 10));
  }

  lemma {:induction false} Begin(p: Proviso) returns (r: Story)
    ensures r.Valid() && r.keeps == p && r.end == START
  {
    r := Story(p, [], START);
    assert START.nodes.Keys == {1, 2, 3};
  }

  // ----- A grant of an earlier term -------------------------------------------------

  /** Node 1 campaigns at term 1 and gets two votes, of which it hears nothing yet. */
  lemma {:induction false} FirstCampaign() returns (r: Story)
    ensures r.Valid() && r.keeps == NoForgottenVotes && Note(VoteResp, 1, 2, 1) in r.end.sent
    ensures Is(r.end.nodes[1], Peer(1, Candidate, 1, 1, NONE, SHORT, 0))
    ensures Is(r.end.nodes[2], Peer(2, Follower, 1, 1, NONE, SHORT, 0))
    ensures Is(r.end.nodes[3], Peer(3, Follower, 1, 1, NONE, SHORT, 0))
  {
    hide Trace;
    hide M.Request;
    hide Log.IsUpToDate;
    LogFacts();
    r := Begin(NoForgottenVotes);
    r := TimesOut(r, 1, Follower, 0, NONE, NONE, SHORT, 0);
    r := Nominated(r, 1, 2, 0, NONE, SHORT, Follower, 0, NONE, SHORT, 0);
    r := Voted(r, 1, 2, SHORT, 1, Follower, 0, NONE, SHORT, 0);
    r := Voted(r, 1, 3, SHORT, 1, Follower, 0, NONE, SHORT, 0);
  }

  /** Although no node ever votes again at a term whose vote it forgot, two nodes lead term 2:
      node 3 with node 2's vote, node 1 with the vote node 2 gave it for term 1. */
  lemma {:induction false} TwoLeadersByStaleGrant() returns (events: seq<Event>, s: System)
    ensures Init(START, PEERS) && Trace(NoForgottenVotes, START, events, s)
    ensures (1, 2) in s.leaders && (3, 2) in s.leaders
  {
    hide Trace;
    hide M.Request;
    hide BecomeLeader;
    hide Log.IsUpToDate;
    LogFacts();
    var r := FirstCampaign();
    r := TimesOut(r, 1, Candidate, 1, 1, NONE, SHORT, 0);
    r := TimesOut(r, 3, Follower, 1, 1, NONE, SHORT, 0);
    r := Nominated(r, 1, 2, 1, 1, SHORT, Follower, 1, 1, SHORT, 0);
    r := Nominated(r, 3, 2, 1, 1, SHORT, Follower, 1, 1, SHORT, 0);
    r := Voted(r, 3, 2, SHORT, 2, Follower, 1, 1, SHORT, 0);
    r := Elected(r, 3, 2, 2, 2, SHORT);
    r := Elected(r, 1, 2, 2, 1, SHORT);
    events, s := r.events, r.end;
    StartIsInitial();
  }

  // ----- A forgotten vote -----------------------------------------------------------

  const LONGER: Log := LONG.(unstable := LONG.unstable + [Entry(2, 2, None)])

  /** A leader of term `t` that has heard from nobody. */
  ghost predicate Rules(n: Node, id: nat, term: nat, log: Log, elapsed: nat) {
    && n.id == id && n.role == Leader && n.term == term && n.log == log && n.electionElapsed == elapsed
    && n.peers == PEERS && n.preVote && n.checkQuorum && n.electionTimeout == 10 && n.recentActive == {id}
  }

  /** The first append of a new leader whose log ended with entry (last, lastTerm). */
  function FirstAppend(to: nat, term: nat, last: nat, lastTerm: nat): Message {
    Note(App, to, 1, term).(index := last, logTerm := lastTerm, entries := [Entry(term, last + 1, None)])
  }

  lemma {:induction false} LedShort(n: Node)
    requires n.log == SHORT && n.peers == PEERS && n.id == 1 && n.term == 1 && n.checkQuorum
    ensures MaybeAdvanceCommit(Led(n)) == Led(n) && Led(n).log == LONG
  {
    hide Node.Matching;
    LogFacts();
    var l := Led(n);
    OnlySelf(l, 1);
    assert l.log == LONG;
    assert CommitScan(l, 0) == 0;
    assert CommitScan(l, 1) == 0;
  }

  lemma {:induction false} LedLong(n: Node)
    requires n.log == LONG && n.peers == PEERS && n.id == 1 && n.term == 2 && n.checkQuorum
    ensures MaybeAdvanceCommit(Led(n)) == Led(n) && Led(n).log == LONGER
  {
    hide Node.Matching;
    LogFacts();
    var l := Led(n);
    OnlySelf(l, 2);
    assert l.log == LONGER && LONGER.LastIndex() == 2 && LONGER.Term(1) == Some(1);
    assert CommitScan(l, 1) == 0;
    assert CommitScan(l, 2) == 0;
  }

  /** Only the new leader itself is known to hold its first entry. */
  lemma {:induction false} OnlySelf(n: Node, i: nat)
    requires i > 0 && n.matchIndex == Tracked(n.peers, 0)[n.id := i]
    ensures n.Matching(i) == 1
  {
    assert (set p | p in n.matchIndex && n.matchIndex[p] >= i) == {n.id};
  }

  /** A leader with nothing but its own entries tells everybody about them. */
  lemma {:induction false} Announces(n: Node, last: nat, lastTerm: nat, entries: seq<Entry>)
    requires n.peers == PEERS && n.id == 1 && n.nextIndex == Tracked(PEERS, last + 1) && n.log.LastIndex() == last + 1 <= 8
    requires n.log.storage == SHORT.storage && n.log.Term(last) == Some(lastTerm) && n.log.committed == 0 && n.msgs == []
    requires n.log.Entries(last + 1, last + 2) == entries
    ensures var r := BcastAppend(n, 3);
            && r.(msgs := []) == n
            && forall to :: to in {2, 3} ==>
                 Note(App, to, 1, n.term).(index := last, logTerm := lastTerm, entries := entries) in Outbox(r)
  {
    hide Log.LastIndex;
    hide Log.Term;
    hide Log.Entries;
    var r2, r3 := BcastAppend(n, 2), BcastAppend(n, 3);
    assert BcastAppend(n, 1) == n;
    assert r2 == SendAppend(n, 2) && r3 == SendAppend(r2, 3);
    assert r2.(msgs := []) == n;
  }

  lemma {:induction false} FirstEntries()
    ensures LONG.LastIndex() == 1 && LONG.Term(0) == Some(0) && LONG.Entries(1, 2) == [Entry(1, 1, None)]
    ensures LONGER.LastIndex() == 2 && LONGER.Term(1) == Some(1) && LONGER.Entries(2, 3) == [Entry(2, 2, None)]
  {
    assert SHORT.storage.IsLast(0);
    assert LONG.unstable[0..1] == [Entry(1, 1, None)] && LONGER.unstable[1..2] == [Entry(2, 2, None)];
  }

  lemma {:induction false} LeadsShort(n: Node)
    requires n.log == SHORT && n.peers == PEERS && n.id == 1 && n.term == 1 && n.msgs == []
    requires n.preVote && n.checkQuorum && n.electionTimeout == 10
    ensures Rules(BecomeLeader(n), 1, 1, LONG, 0) && FirstAppend(3, 1, 0, 0) in Outbox(BecomeLeader(n))
  {
    hide BcastAppend;
    hide MaybeAdvanceCommit;
    hide Log.LastIndex;
    hide Log.Term;
    hide Log.Entries;
    hide Log.Append;
    LogFacts();
    FirstEntries();
    LedShort(n);
    Announces(Led(n), 0, 0, [Entry(1, 1, None)]);
  }

  lemma {:induction false} LeadsLong(n: Node)
    requires n.log == LONG && n.peers == PEERS && n.id == 1 && n.term == 2 && n.msgs == [] && n.checkQuorum
    ensures FirstAppend(2, 2, 1, 1) in Outbox(BecomeLeader(n))
  {
    hide BcastAppend;
    hide MaybeAdvanceCommit;
    hide Log.LastIndex;
    hide Log.Term;
    hide Log.Entries;
    hide Log.Append;
    LogFacts();
    FirstEntries();
    LedLong(n);
    Announces(Led(n), 1, 1, [Entry(2, 2, None)]);
  }

  lemma {:induction false} Follows(n: Node)
    requires n.log == SHORT && n.term == 1
    ensures Step(n, FirstAppend(3, 1, 0, 0), 10).(msgs := n.msgs) == BecomeFollower(n, 1, 1, 10).(log := LONG)
  {
    LogFacts();
    assert SHORT.Append([Entry(1, 1, None)]) == LONG;
  }

  /** An append that does not fit is refused, and the vote of the term is gone all the same. */
  lemma {:induction false} Forgets(n: Node)
    requires n.log == SHORT && n.term == 2
    ensures Step(n, FirstAppend(2, 2, 1, 1), 10).(msgs := n.msgs) == BecomeFollower(n, 2, 1, 10)
  {
    LogFacts();
  }

  /** A leader that hears from nobody gives up at its next sweep. */
  lemma {:induction false} StepsDown(r: Story, elapsed: nat) returns (r': Story)
    requires r.Valid() && elapsed < 10 && Rules(r.end.nodes[1], 1, 1, LONG, elapsed)
    ensures Goes(r, r', 1) && Is(r'.end.nodes[1], Peer(1, Follower, 1, NONE, NONE, LONG, 0))
    decreases 10 - elapsed
  {
    hide Tick;
    hide Trace;
    var n := r.end.nodes[1].(msgs := []);
    P.TickLeading(n, 10);
    P.ActiveAlone(n.(electionElapsed := 0), 3);
    assert |n.peers| == 3;
    r' := Advance(r, TickAt(1, 10));
    if elapsed < 9 {
      r' := StepsDown(r', elapsed + 1);
    }
  }

  /** Node 1 leads term 1, replicates its first entry to node 3 only, and gives up. */
  lemma {:induction false} FirstReign() returns (r: Story)
    ensures r.Valid() && r.keeps == NoStaleGrants
    ensures Is(r.end.nodes[1], Peer(1, Follower, 1, NONE, NONE, LONG, 0))
    ensures Is(r.end.nodes[2], Peer(2, Follower, 0, NONE, NONE, SHORT, 0))
    ensures Is(r.end.nodes[3], Peer(3, Follower, 1, NONE, 1, LONG, 0))
  {
    hide Trace;
    hide Step;
    hide BecomeLeader;
    hide Log.IsUpToDate;
    LogFacts();
    r := Begin(NoStaleGrants);
    r := TimesOut(r, 1, Follower, 0, NONE, NONE, SHORT, 0);
    r := Nominated(r, 1, 3, 0, NONE, SHORT, Follower, 0, NONE, SHORT, 0);
    r := Voted(r, 1, 3, SHORT, 1, Follower, 0, NONE, SHORT, 0);
    LeadsShort(r.end.nodes[1].(msgs := [], votes := map[1 := true][3 := true]));
    r := Elected(r, 1, 3, 1, 1, SHORT);
    Follows(r.end.nodes[3].(msgs := []));
    r := Advance(r, Deliver(FirstAppend(3, 1, 0, 0), 10));
    r := StepsDown(r, 0);
  }

  /** Nodes 1 and 3 both run for term 2. */
  lemma {:induction false} BothRun() returns (r: Story)
    ensures r.Valid() && r.keeps == NoStaleGrants
    ensures Is(r.end.nodes[1], Peer(1, Candidate, 2, 1, NONE, LONG, 0))
    ensures Is(r.end.nodes[2], Peer(2, Follower, 0, NONE, NONE, SHORT, 0))
    ensures Is(r.end.nodes[3], Peer(3, Candidate, 2, 3, NONE, LONG, 0))
    ensures Asks(r.end.sent, Vote, 1, LONG, 2) && Asks(r.end.sent, Vote, 3, LONG, 2)
  {
    hide Trace;
    hide M.Request;
    hide Log.IsUpToDate;
    LogFacts();
    r := FirstReign();
    r := TimesOut(r, 1, Follower, 1, NONE, NONE, LONG, 0);
    r := TimesOut(r, 3, Follower, 1, NONE, 1, LONG, 0);
    r := Nominated(r, 1, 2, 1, NONE, LONG, Follower, 0, NONE, SHORT, 0);
    r := Nominated(r, 3, 2, 1, NONE, LONG, Follower, 0, NONE, SHORT, 0);
  }

  /** Node 1 wins with node 2's vote, which its first append makes node 2 forget. */
  lemma {:induction false} SecondReign() returns (r: Story)
    ensures r.Valid() && r.keeps == NoStaleGrants && (1, 2) in r.end.leaders
    ensures Is(r.end.nodes[2], Peer(2, Follower, 2, NONE, 1, SHORT, 0))
    ensures Is(r.end.nodes[3], Peer(3, Candidate, 2, 3, NONE, LONG, 0))
    ensures Asks(r.end.sent, Vote, 3, LONG, 2)
  {
    hide Trace;
    hide Step;
    hide BecomeLeader;
    hide Log.IsUpToDate;
    LogFacts();
    r := BothRun();
    r := Voted(r, 1, 2, LONG, 2, Follower, 0, NONE, SHORT, 0);
    LeadsLong(r.end.nodes[1].(msgs := [], votes := map[1 := true][2 := true]));
    r := Elected(r, 1, 2, 2, 2, LONG);
    Forgets(r.end.nodes[2].(msgs := []));
    r := Advance(r, Deliver(FirstAppend(2, 2, 1, 1), 10));
  }

  /** Although no vote of an earlier term is ever delivered, two nodes lead term 2: node 2 votes
      for node 1, forgets, and votes for node 3. */
  lemma {:induction false} TwoLeadersByForgottenVote() returns (events: seq<Event>, s: System)
    ensures Init(START, PEERS) && Trace(NoStaleGrants, START, events, s)
    ensures (1, 2) in s.leaders && (3, 2) in s.leaders
  {
    hide Trace;
    hide BecomeLeader;
    hide Log.IsUpToDate;
    LogFacts();
    var r := SecondReign();
    r := TimesOut(r, 2, Follower, 2, NONE, 1, SHORT, 0);
    r := Voted(r, 3, 2, LONG, 2, PreCandidate, 2, NONE, SHORT, 0);
    r := Elected(r, 3, 2, 2, 2, LONG);
    events, s := r.events, r.end;
    StartIsInitial();
  }

  lemma {:induction false} StartIsInitial()
    ensures Init(START, PEERS)
  {
    assert PEERS[0] == 1 && PEERS[1] == 2 && PEERS[2] == 3;
  }
}
