/** Over every run of a group, whatever is lost, repeated, delayed or reordered: a leader counts for
    a peer only what that peer acknowledged to it, so it commits only what a quorum acknowledged. */
module RaftAcks {
  import opened Records
  import opened RaftTypes
  import opened RaftLogs
  import opened RaftNode
  import opened RaftMessages
  import E = RaftElection
  import P = RaftProgress

  /** `p` told `leader` that its log reaches `i`. */
  ghost predicate Acknowledged(sent: set<Message>, p: nat, leader: nat, i: nat) {
    exists x :: x in sent && x.kind == AppResp && !x.reject && x.from == p && x.to == leader && x.index == i
  }

  /** What one step may do to the indices a leader has for its peers: keep them, start over at zero,
      or take one from an acknowledgement. */
  ghost predicate MatchStep(n: Node, m: Message, n': Node) {
    && n'.id == n.id && (forall i :: 0 <= i < |n'.msgs| ==> n'.msgs[i].from == n.id)
    && (n'.role == Leader ==>
          forall p :: p != n.id ==>
            || At(n'.matchIndex, p) == 0
            || (n.role == Leader && At(n'.matchIndex, p) == At(n.matchIndex, p))
            || (m.kind == AppResp && !m.reject && m.from == p && At(n'.matchIndex, p) == m.index))
  }

  lemma {:induction false} StepMatches(n: Node, m: Message, timeout: nat)
    requires n.msgs == []
    ensures MatchStep(n, m, Step(n, m, timeout))
  {
    hide Step;
    hide Log.LastIndex;
    hide Log.Term;
    hide Log.LastTerm;
    hide Log.Entries;
    hide Takes;
    hide Campaign;
    hide BcastHeartbeat;
    StepObeys(n, m, timeout);
    E.StepBallot(n, m, timeout);
    if m.kind == Hup || m.kind == Beat {
      Local(n, m, timeout);
    }
  }

  lemma {:induction false} Local(n: Node, m: Message, timeout: nat)
    requires n.msgs == [] && (m.kind == Hup || m.kind == Beat)
    ensures MatchStep(n, m, Step(n, m, timeout))
  {
    hide Campaign;
    hide BcastHeartbeat;
    var a := AdoptTerm(n, m, timeout);
    E.StepBallot(n, m, timeout);
    CampaignExactly(a, a.preVote, timeout);
    P.AloneBeats(a, |a.peers|);
  }

  lemma {:induction false} TickMatches(n: Node, timeout: nat)
    requires n.msgs == []
    ensures MatchStep(n, Note(Hup, n.id, n.id, 0), Tick(n, timeout))
  {
    hide Tick;
    hide Node.Active;
    hide Request;
    TickExactly(n, timeout);
    E.TickBallot(n, timeout);
  }

  // ----- Runs -----------------------------------------------------------------------

  /** Only what was sent is delivered. */
  ghost predicate Honest(s: E.System, e: E.Event) {
    E.Target(e) in s.nodes && (e.Deliver? ==> e.m in s.sent)
  }

  ghost predicate Run(s: E.System, events: seq<E.Event>, s': E.System)
    decreases |events|
  {
    if events == [] then s' == s
    else Honest(s, events[0]) && Run(E.Next(s, events[0]), events[1..], s')
  }

  /** Every index a leader has for a peer was acknowledged to it by that peer. */
  ghost predicate MatchesAcknowledged(s: E.System) {
    && (forall i :: i in s.nodes ==> s.nodes[i].id == i) && (forall x :: x in s.sent ==> x.from in s.nodes)
    && forall i, p :: i in s.nodes && s.nodes[i].role == Leader && p != i && At(s.nodes[i].matchIndex, p) > 0 ==>
                        Acknowledged(s.sent, p, i, At(s.nodes[i].matchIndex, p))
  }

  lemma {:induction false} MovedMatches(n: Node, e: E.Event)
    requires n.msgs == [] && n.id == E.Target(e)
    ensures var m := if e.Deliver? then e.m else Note(Hup, n.id, n.id, 0);
            MatchStep(n, m, E.Moved(n, e))
  {
    hide Step;
    hide Tick;
    match e
    case Deliver(m, timeout) => StepMatches(n, m, timeout);
    case TickAt(_, timeout) => TickMatches(n, timeout);
    case ProposeAt(_, entry, timeout) => StepMatches(n, Note(Prop, n.id, n.id, 0).(entries := [entry]), timeout);
    case Restart(_, _, _) =>
  }

  lemma {:induction false} StepAcknowledged(s: E.System, e: E.Event)
    requires MatchesAcknowledged(s) && Honest(s, e)
    ensures MatchesAcknowledged(E.Next(s, e))
  {
    hide E.Moved;
    var i := E.Target(e);
    var n := s.nodes[i].(msgs := []);
    var s' := E.Next(s, e);
    MovedMatches(n, e);
    forall l, p | l in s'.nodes && s'.nodes[l].role == Leader && p != l && At(s'.nodes[l].matchIndex, p) > 0
      ensures Acknowledged(s'.sent, p, l, At(s'.nodes[l].matchIndex, p))
    {
      if l == i && !(n.role == Leader && At(s'.nodes[l].matchIndex, p) == At(n.matchIndex, p)) {
        assert e.Deliver? && e.m in s'.sent && e.m.to == l;
      } else {
        AckKept(s.sent, s'.sent, p, l, At(s.nodes[l].matchIndex, p));
      }
    }
  }

  lemma {:induction false} AckKept(sent: set<Message>, sent': set<Message>, p: nat, l: nat, i: nat)
    requires Acknowledged(sent, p, l, i) && sent <= sent'
    ensures Acknowledged(sent', p, l, i)
  {
    var x :| x in sent && x.kind == AppResp && !x.reject && x.from == p && x.to == l && x.index == i;
    assert x in sent';
  }

  /** The members of the group that acknowledged at least `c` to the leader, and the leader itself. */
  ghost predicate Backed(s: E.System, l: nat, q: set<nat>, c: nat) {
    forall p :: p in q && p != l ==> exists i :: i >= c && Acknowledged(s.sent, p, l, i)
  }

  /** Over every run, with any losses, repetitions, delays and reorderings and nodes restarting: when
      a step raises the commit index of a leader, a quorum of nodes, itself included or not, has
      acknowledged to it a log at least that long, and the entry there is of its term. */
  lemma {:induction false} CommitsAcknowledged(s: E.System, events: seq<E.Event>, s': E.System, peers: seq<nat>, m: Message,
                                               timeout: nat)
    returns (q: set<nat>)
    requires E.Init(s, peers) && Run(s, events, s')
    requires m in s'.sent && m.kind == AppResp && m.to in s'.nodes
    requires var n := s'.nodes[m.to];
             n.role == Leader && n.log.committed < E.Next(s', E.Deliver(m, timeout)).nodes[m.to].log.committed &&
             m.term <= n.term
    ensures var n, c := s'.nodes[m.to], E.Next(s', E.Deliver(m, timeout)).nodes[m.to].log.committed;
            && q <= s'.nodes.Keys && |q| >= |n.peers| / 2 + 1 && n.log.Term(c) == Some(n.term) && c <= n.log.LastIndex()
            && Backed(E.Next(s', E.Deliver(m, timeout)), m.to, q, c)
  {
    hide E.Moved;
    hide Run;
    var e := E.Deliver(m, timeout);
    InitAcknowledged(s, peers);
    RunAcknowledged(s, events, s');
    StepAcknowledged(s', e);
    var t := E.Next(s', e);
    var n := s'.nodes[m.to].(msgs := []);
    AckCommits(n, m, timeout, e);
    var n', c := t.nodes[m.to], t.nodes[m.to].log.committed;
    q := set p | p in n'.matchIndex && n'.matchIndex[p] >= c;
    assert q == set p | p in n'.matchIndex && n'.matchIndex[p] >= n'.log.committed;
    forall p | p in q && p != m.to
      ensures p in s'.nodes && exists i :: i >= c && Acknowledged(t.sent, p, m.to, i)
    {
      assert At(n'.matchIndex, p) >= c > 0;
      assert Acknowledged(t.sent, p, m.to, At(n'.matchIndex, p));
    }
  }

  lemma {:induction false} AckCommits(n: Node, m: Message, timeout: nat, e: E.Event)
    requires n.msgs == [] && m.kind == AppResp && n.role == Leader && m.term <= n.term && e == E.Deliver(m, timeout)
    requires n.log.committed < E.Moved(n, e).log.committed
    ensures CommitRule(n, E.Moved(n, e)) && E.Moved(n, e).role == Leader
  {
    hide Step;
    hide CommitRule;
    hide SendRule;
    AckExactly(n, m, timeout);
  }

  lemma {:induction false} InitAcknowledged(s: E.System, peers: seq<nat>)
    requires E.Init(s, peers)
    ensures MatchesAcknowledged(s)
  {
  }

  lemma {:induction false} RunAcknowledged(s: E.System, events: seq<E.Event>, s': E.System)
    requires MatchesAcknowledged(s) && Run(s, events, s')
    ensures MatchesAcknowledged(s')
    decreases |events|
  {
    hide MatchesAcknowledged;
    hide E.Next;
    if events != [] {
      StepAcknowledged(s, events[0]);
      RunAcknowledged(E.Next(s, events[0]), events[1..], s');
    }
  }
}
