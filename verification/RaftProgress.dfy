/** Local guarantees of a node: which index a leader commits and lets others commit, what a probe
    may change, and what a node cut off from all others does. */
module RaftProgress {
  import opened Records
  import opened RaftLogs
  import opened RaftNode

  // ----- The commit rule ------------------------------------------------------------

  /** An index a leader may commit: of its own term and held by a quorum. */
  predicate Committable(n: Node, k: nat) {
    n.log.committed < k <= n.log.LastIndex() && n.log.Term(k) == Some(n.term) && n.Matching(k) >= n.Quorum()
  }

  /** Terms along the log can be read, never fall, and stay within the node's own. */
  ghost predicate OrderedTerms(n: Node) {
    && (forall k :: n.log.committed < k <= n.log.LastIndex() ==> n.log.Term(k).Some? && n.log.Term(k).value <= n.term)
    && (forall j, k :: n.log.committed < j <= k <= n.log.LastIndex() ==> n.log.Term(j).value <= n.log.Term(k).value)
  }

  /** The downward scan commits the greatest committable index, and nothing when there is none. */
  lemma {:induction false} CommitsGreatest(n: Node)
    requires OrderedTerms(n)
    ensures var c := MaybeAdvanceCommit(n).log.committed;
            && (c == n.log.committed || Committable(n, c))
            && forall k: nat :: Committable(n, k) ==> k <= c
    ensures MaybeAdvanceCommit(n) == n.(log := n.log.(committed := MaybeAdvanceCommit(n).log.committed))
  {
    hide Log.Term;
    hide Log.LastIndex;
    hide Node.Matching;
    ScanFrom(n, n.log.LastIndex());
  }

  lemma {:induction false} ScanFrom(n: Node, k: nat)
    requires OrderedTerms(n) && k <= n.log.LastIndex()
    ensures var c := CommitScan(n, k);
            && n.log.committed <= c && (c == n.log.committed || Committable(n, c))
            && forall j: nat :: j <= k && Committable(n, j) ==> j <= c
  {
    hide Log.Term;
    hide Log.LastIndex;
    hide Node.Matching;
    if k > n.log.committed && n.log.Term(k) == Some(n.term) && n.Matching(k) < n.Quorum() {
      ScanFrom(n, k - 1);
    }
  }

  /** A heartbeat never lets a peer commit beyond what the leader knows it holds, and holds back
      nothing below that. */
  lemma {:induction false} HeartbeatsClamped(n: Node, k: nat, p: nat)
    requires k <= |n.peers| && n.msgs == []
    ensures forall i :: 0 <= i < |BcastHeartbeat(n, k).msgs| ==>
              var x := BcastHeartbeat(n, k).msgs[i];
              && x.kind == Heartbeat && x.term == n.term && x.from == n.id
              && x.commit <= n.log.committed && x.commit <= At(n.matchIndex, x.to)
              && (x.commit == n.log.committed || x.commit == At(n.matchIndex, x.to))
    ensures p in n.peers[..k] && p != n.id ==>
              exists i :: 0 <= i < |BcastHeartbeat(n, k).msgs| && BcastHeartbeat(n, k).msgs[i].to == p
  {
    if k > 0 {
      HeartbeatsClamped(n, k - 1, p);
      var before, after := BcastHeartbeat(n, k - 1), BcastHeartbeat(n, k);
      assert n.peers[..k] == n.peers[..k - 1] + [n.peers[k - 1]];
      assert before.msgs <= after.msgs;
      if p in n.peers[..k - 1] && p != n.id {
        var i :| 0 <= i < |before.msgs| && before.msgs[i].to == p;
        assert after.msgs[i] == before.msgs[i];
      } else if p == n.peers[k - 1] && p != n.id {
        assert after.msgs[|before.msgs|].to == p;
      }
    }
  }

  /** A pre-vote probe changes nothing at its receiver but the outbox. */
  lemma {:induction false} ProbeBindsNothing(n: Node, m: Message, timeout: nat)
    requires m.kind == PreVote
    ensures Step(n, m, timeout).(msgs := n.msgs) == n
  {
    hide OnVote;
    assert AdoptTerm(n, m, timeout) == n;
    AnswerOnly(n, m);
  }

  lemma {:induction false} AnswerOnly(n: Node, m: Message)
    requires m.kind == PreVote
    ensures OnVote(n, m).(msgs := n.msgs) == n
  {
    hide Log.IsUpToDate;
    hide Node.CanVote;
    var r := OnVote(n, m);
    assert r == n.(msgs := r.msgs);
  }

  // ----- A node on its own ----------------------------------------------------------

  /** Ticks with nothing delivered in between. */
  function Ticks(n: Node, timeouts: seq<nat>): Node
    decreases |timeouts|
  {
    if timeouts == [] then n else Ticks(Tick(n, timeouts[0]), timeouts[1..])
  }

  predicate Aspires(n: Node) {
    n.role == Candidate || n.role == Leader
  }

  lemma {:induction false} AloneAsks(n: Node, k: nat, pre: bool)
    requires k <= |n.peers|
    ensures BcastVote(n, k, pre).(msgs := n.msgs) == n
  {
    hide Log.LastIndex;
    hide Log.LastTerm;
    if k > 0 {
      AloneAsks(n, k - 1, pre);
    }
  }

  lemma {:induction false} AloneBeats(n: Node, k: nat)
    requires k <= |n.peers|
    ensures BcastHeartbeat(n, k).(msgs := n.msgs) == n
  {
    hide Min;
    hide At;
    if k > 0 {
      AloneBeats(n, k - 1);
    }
  }

  /** One tick of a node other than the leader. */
  lemma {:induction false} TickAlone(n: Node, timeout: nat)
    requires n.preVote && |n.peers| >= 2 && n.role != Leader
    ensures var n' := Tick(n, timeout);
            && n'.(msgs := n.msgs) ==
               (if n.electionElapsed + 1 >= n.electionTimeout then BecomePreCandidate(n, timeout)
                else n.(electionElapsed := n.electionElapsed + 1))
  {
    hide BcastVote;
    if n.electionElapsed + 1 >= n.electionTimeout {
      var c := BecomePreCandidate(n.(electionElapsed := 0), timeout);
      assert GrantedBy(c.votes) == {n.id};
      AloneAsks(c, |c.peers|, true);
    }
  }

  /** With timeouts as drawn, a node whose timer was just reset sits out nine silent ticks. */
  lemma {:induction false} Patient(n: Node, timeouts: seq<nat>)
    requires n.role != Leader && IsTimeout(n.electionTimeout) && n.electionElapsed + |timeouts| <= 9
    ensures Ticks(n, timeouts) == n.(electionElapsed := n.electionElapsed + |timeouts|)
    decreases |timeouts|
  {
    hide Step;
    if timeouts != [] {
      Patient(n.(electionElapsed := n.electionElapsed + 1), timeouts[1..]);
    }
  }

  lemma {:induction false} SweepSilent(n: Node, timeout: nat)
    ensures Sweep(n, timeout).msgs == n.msgs
  {
    hide Node.Active;
  }

  /** One tick of a leader. */
  lemma {:induction false} TickLeading(n: Node, timeout: nat)
    requires n.role == Leader
    ensures var n' := Tick(n, timeout);
            var e := Sweep(n, timeout);
            n'.(msgs := n.msgs, heartbeatElapsed := e.heartbeatElapsed) == e
  {
    hide BcastHeartbeat;
    hide Sweep;
    hide Step;
    SweepSilent(n, timeout);
    var e := Sweep(n, timeout);
    if e.role == Leader {
      var b := e.(heartbeatElapsed := 0);
      BeatStep(b, timeout);
      AloneBeats(b, |e.peers|);
    }
  }

  lemma {:induction false} BeatStep(n: Node, timeout: nat)
    requires n.role == Leader
    ensures Step(n, Note(Beat, n.id, n.id, 0), timeout) == BcastHeartbeat(n, |n.peers|)
  {
    hide BcastHeartbeat;
  }

  lemma {:induction false} TickKeeps(n: Node, timeout: nat)
    requires n.preVote && |n.peers| >= 2
    ensures var n' := Tick(n, timeout);
            && n'.term == n.term && n'.log == n.log && n'.peers == n.peers && n'.preVote && n'.id == n.id
            && n'.checkQuorum == n.checkQuorum && (Aspires(n') ==> n'.role == n.role)
  {
    hide Tick;
    hide Node.Active;
    if n.role == Leader {
      TickLeading(n, timeout);
    } else {
      TickAlone(n, timeout);
    }
  }

  /** A node that hears nobody keeps its term and log however long it ticks, and takes up neither
      candidacy nor leadership. */
  lemma {:induction false} IsolatedNode(n: Node, timeouts: seq<nat>)
    requires n.preVote && |n.peers| >= 2
    ensures var n' := Ticks(n, timeouts);
            && n'.term == n.term && n'.log == n.log && n'.peers == n.peers && n'.preVote
            && (Aspires(n') ==> n'.role == n.role)
    decreases |timeouts|
  {
    hide Tick;
    if timeouts != [] {
      TickKeeps(n, timeouts[0]);
      IsolatedNode(Tick(n, timeouts[0]), timeouts[1..]);
    }
  }

  ghost predicate Distinct(peers: seq<nat>) {
    forall i, j :: 0 <= i < j < |peers| ==> peers[i] != peers[j]
  }

  /** With no contacts only the node itself counts as active. */
  lemma {:induction false} ActiveAlone(n: Node, k: nat)
    requires k <= |n.peers| && Distinct(n.peers) && n.recentActive <= {n.id}
    ensures n.Active(k) <= 1
    ensures (forall i :: 0 <= i < k ==> n.peers[i] != n.id) ==> n.Active(k) == 0
  {
    if k > 0 {
      ActiveAlone(n, k - 1);
    }
  }

  /** Ticks left until a leader that hears nobody gives up: one sweep if its last contacts are
      already cleared, two otherwise. */
  function Patience(n: Node): nat {
    var toSweep := if n.electionElapsed + 1 >= n.electionTimeout then 1 else n.electionTimeout - n.electionElapsed;
    if n.recentActive <= {n.id} then toSweep else toSweep + Max1(n.electionTimeout)
  }

  function Max1(t: nat): nat {
    if t == 0 then 1 else t
  }

  lemma {:induction false} LeaderTicks(n: Node, timeout: nat)
    requires n.role == Leader && n.checkQuorum && |n.peers| >= 2 && Distinct(n.peers)
    ensures var n' := Tick(n, timeout);
            n'.role == Leader ==> n'.electionTimeout == n.electionTimeout && Patience(n') < Patience(n)
  {
    hide Tick;
    hide Node.Active;
    TickLeading(n, timeout);
    if n.recentActive <= {n.id} {
      var m := n.(electionElapsed := 0);
      ActiveAlone(m, |m.peers|);
    }
  }

  /** A leader that hears nobody steps down within two election timeouts. */
  lemma {:induction false} IsolatedLeader(n: Node, timeouts: seq<nat>)
    requires n.role == Leader && n.preVote && n.checkQuorum && |n.peers| >= 2 && Distinct(n.peers)
    requires |timeouts| >= Patience(n)
    ensures !Aspires(Ticks(n, timeouts))
    decreases |timeouts|
  {
    hide Tick;
    hide Patience;
    PatiencePositive(n);
    var n' := Tick(n, timeouts[0]);
    TickKeeps(n, timeouts[0]);
    LeaderTicks(n, timeouts[0]);
    if n'.role == Leader {
      IsolatedLeader(n', timeouts[1..]);
    } else {
      IsolatedNode(n', timeouts[1..]);
    }
  }

  lemma {:induction false} PatiencePositive(n: Node)
    ensures Patience(n) >= 1
  {
  }

  /** With timeouts as drawn, 38 ticks are enough. */
  lemma {:induction false} WithinThirtyEightTicks(n: Node, timeouts: seq<nat>)
    requires n.role == Leader && n.preVote && n.checkQuorum && |n.peers| >= 2 && Distinct(n.peers)
    requires IsTimeout(n.electionTimeout) && |timeouts| == 38
    ensures !Aspires(Ticks(n, timeouts)) && Ticks(n, timeouts).term == n.term && Ticks(n, timeouts).log == n.log
  {
    hide Ticks;
    assert Patience(n) <= 38;
    IsolatedLeader(n, timeouts);
    IsolatedNode(n, timeouts);
  }
}
