/** One Raft node as a value: what every message and tick does to it. The random election timeout
    a step draws last is a parameter. */
module RaftNode {
  import opened Records
  import opened RaftTypes
  import opened RaftLogs

  const ELECTION_TIMEOUT_MIN: nat := 10
  const ELECTION_TIMEOUT_MAX: nat := 20
  const HEARTBEAT_TIMEOUT: nat := 3
  const SNAPSHOT_CATCHUP_GAP: nat := 8
  const NONE: nat := 0

  predicate IsTimeout(t: nat) {
    ELECTION_TIMEOUT_MIN <= t < ELECTION_TIMEOUT_MAX
  }

  datatype Role = Follower | Candidate | PreCandidate | Leader

  datatype Kind =
    | Hup | Beat | Vote | VoteResp | App | AppResp | Heartbeat | HeartbeatResp | Prop | Snap | PreVote | PreVoteResp

  datatype Message = Message(kind: Kind, to: nat, from: nat, term: nat, logTerm: nat, index: nat,
                             entries: seq<Entry>, commit: nat, reject: bool, hint: nat, snap: Snapshot)

  /** A message with the given header and nothing else. */
  function Note(kind: Kind, to: nat, from: nat, term: nat): Message {
    Message(kind, to, from, term, 0, 0, [], 0, false, 0, NO_SNAPSHOT)
  }

  datatype Node = Node(id: nat, role: Role, term: nat, votedFor: nat, votes: map<nat, bool>, leadID: nat,
                       peers: seq<nat>, nextIndex: map<nat, nat>, matchIndex: map<nat, nat>, recentActive: set<nat>,
                       preVote: bool, checkQuorum: bool, log: Log, electionElapsed: nat, heartbeatElapsed: nat,
                       electionTimeout: nat, msgs: seq<Message>)
  {
    function Quorum(): nat {
      |peers| / 2 + 1
    }

    function Send(m: Message): Node {
      this.(msgs := msgs + [m])
    }

    function Tally(): nat {
      Granted(votes)
    }

    /** Whether a vote for the sender of `m` is not ruled out by an earlier vote or a known leader. */
    predicate CanVote(m: Message) {
      || votedFor == m.from
      || (votedFor == NONE && leadID == NONE)
      || (m.kind == PreVote && m.term > term)
    }

    /** How many nodes are known to hold index `i`. */
    function Matching(i: nat): nat {
      |set p | p in matchIndex && matchIndex[p] >= i|
    }

    /** Positions of `peers` up to `k` that count as active: the node itself and recent contacts. */
    function Active(k: nat): nat
      requires k <= |peers|
    {
      if k == 0 then 0
      else Active(k - 1) + (if peers[k - 1] == id || peers[k - 1] in recentActive then 1 else 0)
    }
  }

  function GrantedBy(votes: map<nat, bool>): set<nat> {
    set i | i in votes && votes[i]
  }

  function Granted(votes: map<nat, bool>): nat {
    |GrantedBy(votes)|
  }

  function At(m: map<nat, nat>, i: nat): nat {
    if i in m then m[i] else 0
  }

  function Min(a: nat, b: nat): nat {
    if a < b then a else b
  }

  // ----- Transitions ----------------------------------------------------------------

  function BecomeFollower(n: Node, term: nat, lead: nat, timeout: nat): Node {
    n.(role := Follower, term := term, leadID := lead, votedFor := NONE, votes := map[], nextIndex := map[],
       matchIndex := map[], recentActive := {}, electionElapsed := 0, electionTimeout := timeout)
  }

  function BecomePreCandidate(n: Node, timeout: nat): Node {
    n.(role := PreCandidate, leadID := NONE, votes := map[n.id := true], electionElapsed := 0,
       electionTimeout := timeout)
  }

  function BecomeCandidate(n: Node, timeout: nat): Node {
    n.(role := Candidate, term := n.term + 1, votedFor := n.id, leadID := NONE, votes := map[n.id := true],
       electionElapsed := 0, electionTimeout := timeout)
  }

  /** The commit index reached by scanning down from `k`: the scan stops at an entry of another
      term, or one it cannot read. */
  function CommitScan(n: Node, k: nat): nat {
    if k <= n.log.committed || n.log.Term(k) != Some(n.term) then n.log.committed
    else if n.Matching(k) >= n.Quorum() then k
    else CommitScan(n, k - 1)
  }

  function MaybeAdvanceCommit(n: Node): Node {
    n.(log := n.log.CommitTo(CommitScan(n, n.log.LastIndex())))
  }

  /** Entries from the peer's next index, or the snapshot when entries will not do. */
  function SendAppend(n: Node, to: nat): Node {
    var next := At(n.nextIndex, to);
    var compacted := next < n.log.storage.FirstIndex();
    var farBehind := n.log.LastIndex() > At(n.matchIndex, to) + SNAPSHOT_CATCHUP_GAP;
    var snap := n.log.storage.snap;
    if (compacted || farBehind) && !snap.IsEmpty() && (compacted || snap.index > At(n.matchIndex, to)) then
      n.Send(Note(Snap, to, n.id, n.term).(snap := snap)).(nextIndex := n.nextIndex[to := snap.index + 1])
    else if compacted then n
    else
      var prev := n.log.Term(next - 1);
      n.Send(Message(App, to, n.id, n.term, if prev.Some? then prev.value else 0, next - 1,
                     n.log.Entries(next, n.log.LastIndex() + 1), n.log.committed, false, 0, NO_SNAPSHOT))
  }

  /** `SendAppend` to the first `k` peers other than the node itself. */
  function BcastAppend(n: Node, k: nat): Node
    requires k <= |n.peers|
    ensures BcastAppend(n, k).peers == n.peers && BcastAppend(n, k).id == n.id
  {
    if k == 0 then n
    else
      var before := BcastAppend(n, k - 1);
      if n.peers[k - 1] == n.id then before else SendAppend(before, n.peers[k - 1])
  }

  function BcastVote(n: Node, k: nat, pre: bool): Node
    requires k <= |n.peers|
  {
    if k == 0 then n
    else
      var before := BcastVote(n, k - 1, pre);
      if n.peers[k - 1] == n.id then before
      else
        before.Send(Note(if pre then PreVote else Vote, n.peers[k - 1], n.id, if pre then n.term + 1 else n.term)
                    .(index := n.log.LastIndex(), logTerm := n.log.LastTerm()))
  }

  function BcastHeartbeat(n: Node, k: nat): Node
    requires k <= |n.peers|
  {
    if k == 0 then n
    else
      var before := BcastHeartbeat(n, k - 1);
      var to := n.peers[k - 1];
      if to == n.id then before
      else before.Send(Note(Heartbeat, to, n.id, n.term).(commit := Min(At(n.matchIndex, to), n.log.committed)))
  }

  function MembersOf(peers: seq<nat>): set<nat> {
    set p | p in peers
  }

  /** Every peer with the same index. */
  function Tracked(peers: seq<nat>, i: nat): map<nat, nat> {
    map p | p in MembersOf(peers) :: i
  }

  /** Leadership starts with fresh tracking and an empty entry of the new term. */
  function Led(n: Node): Node {
    var last := n.log.LastIndex();
    n.(role := Leader, leadID := n.id, heartbeatElapsed := 0, electionElapsed := 0, recentActive := {n.id},
       nextIndex := Tracked(n.peers, last + 1), matchIndex := Tracked(n.peers, 0)[n.id := last + 1],
       log := n.log.Append([Entry(n.term, last + 1, None)]))
  }

  function BecomeLeader(n: Node): Node {
    BcastAppend(MaybeAdvanceCommit(Led(n)), |n.peers|)
  }

  function Campaign(n: Node, pre: bool, timeout: nat): Node
    decreases pre
  {
    var c := if pre then BecomePreCandidate(n, timeout) else BecomeCandidate(n, timeout);
    if c.Tally() >= c.Quorum() then (if pre then Campaign(c, false, timeout) else BecomeLeader(c))
    else BcastVote(c, |c.peers|, pre)
  }

  // ----- Messages -------------------------------------------------------------------

  /** A challenger is ignored while the node still hears from a leader. */
  predicate LeaseHolds(n: Node, m: Message) {
    (m.kind == Vote || m.kind == PreVote) && n.checkQuorum && n.leadID != NONE && n.electionElapsed < n.electionTimeout
  }

  /** Messages of a higher term that do not move the node's own. */
  predicate Speculative(m: Message) {
    m.kind == PreVote || (m.kind == PreVoteResp && !m.reject)
  }

  function AdoptTerm(n: Node, m: Message, timeout: nat): Node {
    if m.term > n.term && !Speculative(m) then
      BecomeFollower(n, m.term, if m.kind == Vote then NONE else m.from, timeout)
    else n
  }

  function OnVote(n: Node, m: Message): Node {
    var resp := if m.kind == PreVote then PreVoteResp else VoteResp;
    if m.term >= n.term && n.CanVote(m) && n.log.IsUpToDate(m.index, m.logTerm) then
      var sent := n.Send(Note(resp, m.from, n.id, m.term));
      if m.kind == Vote then sent.(votedFor := m.from, electionElapsed := 0) else sent
    else n.Send(Note(resp, m.from, n.id, n.term).(reject := true))
  }

  function OnVoteResp(n: Node, m: Message): Node {
    if n.role != Candidate then n
    else
      var counted := n.(votes := n.votes[m.from := !m.reject]);
      if counted.Tally() >= counted.Quorum() then BecomeLeader(counted) else counted
  }

  function OnPreVoteResp(n: Node, m: Message, timeout: nat): Node {
    if n.role != PreCandidate then n
    else
      var counted := n.(votes := n.votes[m.from := !m.reject]);
      if counted.Tally() >= counted.Quorum() then Campaign(counted, false, timeout) else counted
  }

  /** Proposed data as entries of the current term after index `last`. */
  function Numbered(entries: seq<Entry>, term: nat, last: nat): seq<Entry> {
    seq(|entries|, i requires 0 <= i < |entries| => Entry(term, last + i + 1, entries[i].data))
  }

  function OnProp(n: Node, m: Message): Node {
    if n.role != Leader then n
    else
      var log := n.log.Append(Numbered(m.entries, n.term, n.log.LastIndex()));
      var added := n.(log := log, matchIndex := n.matchIndex[n.id := log.LastIndex()]);
      MaybeAdvanceCommit(BcastAppend(added, |added.peers|))
  }

  function Rejection(n: Node, m: Message): Node {
    n.Send(Note(AppResp, m.from, n.id, n.term).(reject := true, hint := n.log.LastIndex()))
  }

  function OnApp(n: Node, m: Message, timeout: nat): Node {
    if m.term < n.term then Rejection(n, m)
    else
      var f := BecomeFollower(n, m.term, m.from, timeout);
      if m.index > 0 && f.log.Term(m.index) != Some(m.logTerm) then Rejection(f, m)
      else
        var log := f.log.Append(m.entries);
        var log' := if m.commit > log.committed then log.CommitTo(Min(m.commit, log.LastIndex())) else log;
        f.(log := log').Send(Note(AppResp, m.from, f.id, f.term).(index := log'.LastIndex()))
  }

  function OnAppResp(n: Node, m: Message): Node {
    if n.role != Leader then n
    else
      var a := n.(recentActive := n.recentActive + {m.from});
      var next := At(a.nextIndex, m.from);
      if m.reject then
        var backed := if m.hint < next then m.hint + 1 else if next > 1 then next - 1 else next;
        SendAppend(a.(nextIndex := a.nextIndex[m.from := backed]), m.from)
      else if m.index > At(a.matchIndex, m.from) then
        MaybeAdvanceCommit(a.(matchIndex := a.matchIndex[m.from := m.index],
                              nextIndex := a.nextIndex[m.from := m.index + 1]))
      else MaybeAdvanceCommit(a)
  }

  function OnHeartbeat(n: Node, m: Message): Node {
    var h :=
      if m.term >= n.term then
        n.(electionElapsed := 0, leadID := m.from, log := n.log.CommitTo(Min(m.commit, n.log.LastIndex())))
      else n;
    h.Send(Note(HeartbeatResp, m.from, h.id, h.term))
  }

  function OnHeartbeatResp(n: Node, m: Message): Node {
    if n.role != Leader then n
    else
      var a := n.(recentActive := n.recentActive + {m.from});
      if At(a.matchIndex, m.from) < a.log.LastIndex() then SendAppend(a, m.from) else a
  }

  function OnSnap(n: Node, m: Message, timeout: nat): Node {
    if m.term < n.term then Rejection(n, m)
    else
      var f := BecomeFollower(n, m.term, m.from, timeout);
      var r := f.(log := f.log.Restore(m.snap));
      r.Send(Note(AppResp, m.from, r.id, r.term)
             .(index := if m.snap.index > f.log.committed then r.log.LastIndex() else r.log.committed))
  }

  /** What the node does with `m` once terms are settled. */
  function Handle(n: Node, m: Message, timeout: nat): Node {
    match m.kind
    case Hup => if n.role == Leader then n else Campaign(n, n.preVote, timeout)
    case Beat => if n.role == Leader then BcastHeartbeat(n, |n.peers|) else n
    case Vote => OnVote(n, m)
    case PreVote => OnVote(n, m)
    case VoteResp => OnVoteResp(n, m)
    case PreVoteResp => OnPreVoteResp(n, m, timeout)
    case Prop => OnProp(n, m)
    case App => OnApp(n, m, timeout)
    case AppResp => OnAppResp(n, m)
    case Heartbeat => OnHeartbeat(n, m)
    case HeartbeatResp => OnHeartbeatResp(n, m)
    case Snap => OnSnap(n, m, timeout)
  }

  function Step(n: Node, m: Message, timeout: nat): Node {
    if m.term > n.term && LeaseHolds(n, m) then n else Handle(AdoptTerm(n, m, timeout), m, timeout)
  }

  /** The leader gives up when fewer than a quorum were in contact since the last sweep. */
  function CheckContacts(n: Node, timeout: nat): Node {
    var swept := n.(recentActive := {n.id});
    if n.Active(|n.peers|) < n.Quorum() then BecomeFollower(swept, n.term, NONE, timeout) else swept
  }

  /** A leader's election timer times the sweeps. */
  function Sweep(n: Node, timeout: nat): Node {
    if !n.checkQuorum then n
    else if n.electionElapsed + 1 >= n.electionTimeout then CheckContacts(n.(electionElapsed := 0), timeout)
    else n.(electionElapsed := n.electionElapsed + 1)
  }

  function TickLeader(n: Node, timeout: nat): Node {
    var e := Sweep(n, timeout);
    if e.role != Leader then e
    else if e.heartbeatElapsed + 1 >= HEARTBEAT_TIMEOUT then
      Step(e.(heartbeatElapsed := 0), Note(Beat, e.id, e.id, 0), timeout)
    else e.(heartbeatElapsed := e.heartbeatElapsed + 1)
  }

  function TickOther(n: Node, timeout: nat): Node {
    if n.electionElapsed + 1 >= n.electionTimeout then
      Step(n.(electionElapsed := 0), Note(Hup, n.id, n.id, 0), timeout)
    else n.(electionElapsed := n.electionElapsed + 1)
  }

  function Tick(n: Node, timeout: nat): Node {
    if n.role == Leader then TickLeader(n, timeout) else TickOther(n, timeout)
  }

  function Propose(n: Node, entry: Entry, timeout: nat): Node {
    Step(n, Note(Prop, n.id, n.id, 0).(entries := [entry]), timeout)
  }
}
