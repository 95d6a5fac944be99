/** The Ready cycle: after every step the pending snapshot is installed, new entries are persisted
    and committed entries are handed to the state machine, in order and each once. */
module RaftReady {
  import opened Bytes
  import opened Records
  import opened RaftTypes
  import opened RaftLogs
  import opened RaftNode

  // ----- Sound logs -----------------------------------------------------------------

  /** Persisted entries sit under their indices, without holes above the snapshot. */
  ghost predicate SoundStorage(s: Storage) {
    && (forall i :: i in s.log ==> s.log[i].index == i)
    && (forall i :: s.snap.index < i <= s.LastIndex() ==> i in s.log)
  }

  /** Between cycles: nothing unstable or pending, everything committed is applied. */
  ghost predicate Settled(l: Log) {
    && SoundStorage(l.storage) && l.unstable == [] && l.pending.IsEmpty()
    && l.storage.snap.index <= l.applied && l.applied == l.committed && l.committed <= l.storage.LastIndex()
  }

  /** After one step from a settled log: new entries continue or overlap the persisted ones, or a
      snapshot is pending and nothing else is. */
  ghost predicate Stepped(l: Log, l': Log) {
    && l'.storage == l.storage && l.committed <= l'.committed && l.applied <= l'.applied <= l'.committed
    && if l'.pending.IsEmpty() then
         && l'.applied == l.applied
         && (l'.unstable == [] ==> l'.committed <= l.storage.LastIndex())
         && (l'.unstable != [] ==>
               && 1 <= l'.unstable[0].index <= l.storage.LastIndex() + 1 && Contiguous(l'.unstable, l'.unstable[0].index)
               && l'.committed <= MaxOf(l.storage.LastIndex(), l'.unstable[|l'.unstable| - 1].index))
       else
         l'.unstable == [] && l'.applied == l'.committed == l'.pending.index && l'.pending.index > l.committed
  }

  function MaxOf(a: nat, b: nat): nat {
    if a < b then b else a
  }

  /** Appends carry consecutive entries after the index they name. */
  ghost predicate Proper(m: Message) {
    m.kind == App ==> Contiguous(m.entries, m.index + 1)
  }

  // ----- One step -------------------------------------------------------------------

  lemma {:induction false} Unmoved(l: Log)
    requires Settled(l)
    ensures Stepped(l, l)
  {
    hide SoundStorage;
  }

  /** Raising the commit index to at most the last index. */
  lemma {:induction false} CommitStepped(l: Log, l': Log, i: nat)
    requires Stepped(l, l') && l'.pending.IsEmpty() && i <= l'.LastIndex()
    ensures Stepped(l, l'.CommitTo(i))
  {
  }

  /** Appending consecutive entries that start at most one past the end. */
  lemma {:induction false} AppendStepped(l: Log, entries: seq<Entry>, first: nat)
    requires Settled(l) && Contiguous(entries, first) && 1 <= first <= l.storage.LastIndex() + 1
    ensures Stepped(l, l.Append(entries)) && l.Append(entries).pending.IsEmpty()
  {
    hide SoundStorage;
    if entries == [] {
      Unmoved(l);
    } else {
      assert l.Append(entries).unstable == entries;
      assert entries[0].index == first;
    }
  }

  lemma {:induction false} RestoreStepped(l: Log, snap: Snapshot)
    requires Settled(l)
    ensures Stepped(l, l.Restore(snap))
  {
    hide SoundStorage;
  }

  lemma {:induction false} ScanWithin(n: Node, k: nat)
    requires n.log.committed <= MaxOf(k, n.log.committed)
    ensures n.log.committed <= CommitScan(n, k) <= MaxOf(k, n.log.committed)
  {
    if k > n.log.committed && n.log.Term(k) == Some(n.term) && n.Matching(k) < n.Quorum() {
      ScanWithin(n, k - 1);
    }
  }

  lemma {:induction false} AdvanceStepped(l: Log, n: Node)
    requires Stepped(l, n.log) && n.log.pending.IsEmpty()
    ensures Stepped(l, MaybeAdvanceCommit(n).log)
  {
    hide Stepped;
    hide CommitScan;
    hide Log.LastIndex;
    ScanWithin(n, n.log.LastIndex());
    var c := CommitScan(n, n.log.LastIndex());
    if c <= n.log.LastIndex() {
      CommitStepped(l, n.log, c);
    }
  }

  lemma {:induction false} SendAppendLog(n: Node, to: nat)
    ensures SendAppend(n, to).log == n.log
  {
    hide Log.LastIndex;
    hide Log.Term;
    hide Log.Entries;
    hide Storage.FirstIndex;
  }

  lemma {:induction false} BcastAppendLog(n: Node, k: nat)
    requires k <= |n.peers|
    ensures BcastAppend(n, k).log == n.log
  {
    hide SendAppend;
    if k > 0 {
      BcastAppendLog(n, k - 1);
      SendAppendLog(BcastAppend(n, k - 1), n.peers[k - 1]);
    }
  }

  lemma {:induction false} BcastVoteLog(n: Node, k: nat, pre: bool)
    requires k <= |n.peers|
    ensures BcastVote(n, k, pre).log == n.log
  {
    if k > 0 {
      BcastVoteLog(n, k - 1, pre);
    }
  }

  lemma {:induction false} BcastHeartbeatLog(n: Node, k: nat)
    requires k <= |n.peers|
    ensures BcastHeartbeat(n, k).log == n.log
  {
    if k > 0 {
      BcastHeartbeatLog(n, k - 1);
    }
  }

  lemma {:induction false} LeaderStepped(n: Node)
    requires Settled(n.log)
    ensures Stepped(n.log, BecomeLeader(n).log)
  {
    hide Stepped;
    hide Settled;
    hide BcastAppend;
    hide CommitScan;
    hide Log.Append;
    SettledFacts(n.log);
    var last := n.log.LastIndex();
    var noop := [Entry(n.term, last + 1, None)];
    AppendStepped(n.log, noop, last + 1);
    AdvanceStepped(n.log, Led(n));
    BcastAppendLog(MaybeAdvanceCommit(Led(n)), |n.peers|);
  }

  lemma {:induction false} SettledFacts(l: Log)
    requires Settled(l)
    ensures l.LastIndex() == l.storage.LastIndex() && l.unstable == [] && l.pending.IsEmpty()
  {
    hide SoundStorage;
  }

  lemma {:induction false} CampaignStepped(n: Node, pre: bool, timeout: nat)
    requires Settled(n.log)
    ensures Stepped(n.log, Campaign(n, pre, timeout).log)
    decreases pre
  {
    hide Stepped;
    hide Settled;
    hide BecomeLeader;
    hide BcastVote;
    hide Granted;
    Unmoved(n.log);
    var c := if pre then BecomePreCandidate(n, timeout) else BecomeCandidate(n, timeout);
    if c.Tally() >= c.Quorum() {
      if pre {
        CampaignStepped(c, false, timeout);
      } else {
        LeaderStepped(c);
      }
    } else {
      BcastVoteLog(c, |c.peers|, pre);
    }
  }

  lemma {:induction false} NumberedContiguous(entries: seq<Entry>, term: nat, last: nat)
    ensures Contiguous(Numbered(entries, term, last), last + 1)
  {
  }

  lemma {:induction false} PropStepped(n: Node, m: Message)
    requires Settled(n.log)
    ensures Stepped(n.log, OnProp(n, m).log)
  {
    hide Stepped;
    hide Settled;
    hide BcastAppend;
    hide MaybeAdvanceCommit;
    hide Log.Append;
    hide Numbered;
    Unmoved(n.log);
    SettledFacts(n.log);
    var last := n.log.LastIndex();
    NumberedContiguous(m.entries, n.term, last);
    AppendStepped(n.log, Numbered(m.entries, n.term, last), last + 1);
    var log := n.log.Append(Numbered(m.entries, n.term, last));
    var added := n.(log := log, matchIndex := n.matchIndex[n.id := log.LastIndex()]);
    BcastAppendLog(added, |added.peers|);
    AdvanceStepped(n.log, BcastAppend(added, |added.peers|));
  }

  lemma {:induction false} AppStepped(n: Node, m: Message, timeout: nat)
    requires Settled(n.log) && Contiguous(m.entries, m.index + 1)
    ensures Stepped(n.log, OnApp(n, m, timeout).log)
  {
    hide Stepped;
    hide Settled;
    hide Log.Append;
    hide Log.Term;
    hide Log.LastIndex;
    Unmoved(n.log);
    if m.term >= n.term && !(m.index > 0 && n.log.Term(m.index) != Some(m.logTerm)) {
      NamedIndex(n.log, m.index);
      AppendStepped(n.log, m.entries, m.index + 1);
      var log := n.log.Append(m.entries);
      CommitStepped(n.log, log, Min(m.commit, log.LastIndex()));
    }
  }

  /** An index whose term a settled log knows is within storage. */
  lemma {:induction false} NamedIndex(l: Log, i: nat)
    requires Settled(l) && (i == 0 || l.Term(i).Some?)
    ensures i <= l.storage.LastIndex()
  {
  }

  lemma {:induction false} RespStepped(n: Node, m: Message)
    requires Settled(n.log)
    ensures Stepped(n.log, OnAppResp(n, m).log) && Stepped(n.log, OnHeartbeatResp(n, m).log)
    ensures Stepped(n.log, OnHeartbeat(n, m).log)
  {
    hide Stepped;
    hide Settled;
    hide SendAppend;
    hide MaybeAdvanceCommit;
    hide Log.LastIndex;
    Unmoved(n.log);
    SettledFacts(n.log);
    CommitStepped(n.log, n.log, Min(m.commit, n.log.LastIndex()));
    var a := n.(recentActive := n.recentActive + {m.from});
    var next := At(a.nextIndex, m.from);
    var backed := if m.hint < next then m.hint + 1 else if next > 1 then next - 1 else next;
    SendAppendLog(a.(nextIndex := a.nextIndex[m.from := backed]), m.from);
    SendAppendLog(a, m.from);
    AdvanceStepped(n.log, a);
    AdvanceStepped(n.log, a.(matchIndex := a.matchIndex[m.from := m.index],
                             nextIndex := a.nextIndex[m.from := m.index + 1]));
  }

  lemma {:induction false} HandleStepped(n: Node, m: Message, timeout: nat)
    requires Settled(n.log) && Proper(m)
    ensures Stepped(n.log, Handle(n, m, timeout).log)
  {
    hide Stepped;
    hide Settled;
    hide Campaign;
    hide BecomeLeader;
    hide BcastHeartbeat;
    hide OnProp;
    hide OnApp;
    hide OnAppResp;
    hide OnHeartbeat;
    hide OnHeartbeatResp;
    hide Log.Restore;
    hide Log.LastIndex;
    hide Log.IsUpToDate;
    hide Granted;
    Unmoved(n.log);
    match m.kind
    case Hup => CampaignStepped(n, n.preVote, timeout);
    case Beat => BcastHeartbeatLog(n, |n.peers|);
    case VoteResp => LeaderStepped(n.(votes := n.votes[m.from := !m.reject]));
    case PreVoteResp => CampaignStepped(n.(votes := n.votes[m.from := !m.reject]), false, timeout);
    case Prop => PropStepped(n, m);
    case App => AppStepped(n, m, timeout);
    case AppResp => RespStepped(n, m);
    case Heartbeat => RespStepped(n, m);
    case HeartbeatResp => RespStepped(n, m);
    case Snap => RestoreStepped(n.log, m.snap);
    case _ =>
  }

  lemma {:induction false} StepStepped(n: Node, m: Message, timeout: nat)
    requires Settled(n.log) && Proper(m)
    ensures Stepped(n.log, Step(n, m, timeout).log)
  {
    hide Stepped;
    hide Settled;
    hide Handle;
    Unmoved(n.log);
    HandleStepped(AdoptTerm(n, m, timeout), m, timeout);
  }

  lemma {:induction false} TickStepped(n: Node, timeout: nat)
    requires Settled(n.log)
    ensures Stepped(n.log, Tick(n, timeout).log)
  {
    hide Stepped;
    hide Settled;
    hide Step;
    hide Node.Active;
    Unmoved(n.log);
    StepStepped(n.(electionElapsed := 0), Note(Hup, n.id, n.id, 0), timeout);
    var e := Sweep(n, timeout);
    assert e.log == n.log;
    StepStepped(e.(heartbeatElapsed := 0), Note(Beat, e.id, e.id, 0), timeout);
  }

  // ----- The cycle ------------------------------------------------------------------

  /** The work a node hands out. */
  datatype Ready = Ready(snapshot: Snapshot, entries: seq<Entry>, messages: seq<Message>, committedEntries: seq<Entry>)

  function ReadyOf(n: Node): Ready {
    Ready(n.log.pending, n.log.unstable, n.msgs, n.log.NextEntries())
  }

  /** What the driver writes: the snapshot first, then the new entries. */
  function Persisted(s: Storage, rd: Ready): Storage {
    (if rd.snapshot.IsEmpty() then s else s.(snap := rd.snapshot).Compact(rd.snapshot.index)).Append(rd.entries)
  }

  function Last(entries: seq<Entry>): Entry
    requires entries != []
  {
    entries[|entries| - 1]
  }

  /** What the node forgets once its work is done. */
  function Advanced(l: Log, rd: Ready): Log
    requires rd.committedEntries != [] ==> Last(rd.committedEntries).index <= l.committed
  {
    var a := if rd.snapshot.IsEmpty() then l else l.(pending := NO_SNAPSHOT);
    var b := if rd.entries == [] then a else a.StableTo(Last(rd.entries).index, Last(rd.entries).term);
    if rd.committedEntries == [] then b else b.AppliedTo(Last(rd.committedEntries).index)
  }

  /** What is handed to the state machine. */
  datatype Output = Install(snap: Snapshot) | Apply(entry: Entry)
  {
    function Index(): nat {
      if Install? then snap.index else entry.index
    }
  }

  function Applies(entries: seq<Entry>): seq<Output> {
    seq(|entries|, i requires 0 <= i < |entries| => Apply(entries[i]))
  }

  function Outputs(rd: Ready): seq<Output> {
    (if rd.snapshot.IsEmpty() then [] else [Install(rd.snapshot)]) + Applies(rd.committedEntries)
  }

  // ----- Committed entries are consecutive ------------------------------------------

  lemma {:induction false} StoredEntries(s: Storage, lo: nat, hi: nat)
    requires SoundStorage(s) && s.snap.index < lo && hi <= s.LastIndex() + 1
    ensures s.Entries(lo, hi).Some? && Contiguous(s.Entries(lo, hi).value, lo)
    ensures |s.Entries(lo, hi).value| == if lo < hi then hi - lo else 0
    decreases hi - lo
  {
    if lo < hi {
      StoredEntries(s, lo + 1, hi);
    }
  }

  lemma {:induction false} UnstableEntries(l: Log, lo: nat, hi: nat)
    requires l.unstable != [] && Contiguous(l.unstable, l.unstable[0].index)
    requires l.unstable[0].index <= lo < hi <= l.unstable[|l.unstable| - 1].index + 1
    ensures Contiguous(l.UnstableBetween(lo, hi), lo) && |l.UnstableBetween(lo, hi)| == hi - lo
  {
    var first := l.unstable[0].index;
    assert l.unstable[|l.unstable| - 1].index == first + |l.unstable| - 1;
    assert l.UnstableBetween(lo, hi) == l.unstable[lo - first..hi - first];
  }

  /** After a step the committed entries are exactly those from the applied index to the committed
      one. */
  lemma {:induction false} NextConsecutive(l: Log, l': Log)
    requires Settled(l) && Stepped(l, l')
    ensures Contiguous(l'.NextEntries(), l'.applied + 1) && |l'.NextEntries()| == l'.committed - l'.applied
    ensures !l'.pending.IsEmpty() ==> l'.NextEntries() == []
  {
    hide Storage.Entries;
    hide Log.UnstableBetween;
    if l'.committed > l'.applied {
      var s := l.storage;
      var last := s.LastIndex();
      var lo, hi := l'.applied + 1, l'.committed + 1;
      assert lo <= last + 1;
      if lo <= last {
        var mid := if hi > last + 1 then last + 1 else hi;
        StoredEntries(s, lo, mid);
        if hi > last + 1 {
          UnstableEntries(l', last + 1, hi);
        } else {
          NothingUnstable(l', last + 1, hi);
        }
      } else {
        UnstableEntries(l', lo, hi);
      }
    }
  }

  /** The entry a committed index is handed out with: the persisted one as far as storage reaches. */
  ghost predicate HandedOut(l: Log, e: Entry) {
    if e.index <= l.storage.LastIndex() then e.index in l.storage.log && e == l.storage.log[e.index]
    else e in l.unstable
  }

  lemma {:induction false} NextAre(l: Log, l': Log, j: nat)
    requires Settled(l) && Stepped(l, l') && j < |l'.NextEntries()|
    ensures HandedOut(l', l'.NextEntries()[j])
  {
    hide Storage.Entries;
    NextConsecutive(l, l');
    var s := l.storage;
    var last := s.LastIndex();
    var lo, hi := l'.applied + 1, l'.committed + 1;
    if lo <= last {
      var mid := if hi > last + 1 then last + 1 else hi;
      StoredEntries(s, lo, mid);
      if lo + j <= last {
        StoredAt(s, lo, mid, j);
      }
    }
  }

  lemma {:induction false} StoredAt(s: Storage, lo: nat, hi: nat, j: nat)
    requires s.Entries(lo, hi).Some? && j < |s.Entries(lo, hi).value|
    ensures lo + j in s.log && s.Entries(lo, hi).value[j] == s.log[lo + j]
    decreases hi - lo
  {
    if j > 0 {
      StoredAt(s, lo + 1, hi, j - 1);
    }
  }

  /** The entry the log holds at an index once the new entries are persisted. */
  ghost predicate Holds(l: Log, rd: Ready, e: Entry) {
    var log := Persisted(l.storage, rd).log;
    e.index in log && log[e.index] == e
  }

  /** The new entry at index `i`, if there is one, is the persisted one. */
  ghost predicate Unreplaced(l: Log, i: nat) {
    l.Unstable(i) && i <= l.storage.LastIndex() && i - l.unstable[0].index < |l.unstable| ==>
      i in l.storage.log && l.storage.log[i] == l.unstable[i - l.unstable[0].index]
  }

  /** One entry is held afterwards exactly when no new entry replaces it. */
  lemma {:induction false} HeldIff(l: Log, l': Log, rd: Ready, j: nat)
    requires Settled(l) && Stepped(l, l') && l'.pending.IsEmpty()
    requires rd.snapshot == l'.pending && rd.entries == l'.unstable && rd.committedEntries == l'.NextEntries()
    requires j < |rd.committedEntries|
    ensures rd.committedEntries[j].index == l'.applied + 1 + j
    ensures Holds(l', rd, rd.committedEntries[j]) <==> Unreplaced(l', l'.applied + 1 + j)
  {
    hide Log.NextEntries;
    hide AppendAll;
    hide SoundStorage;
    hide Storage.LastIndex;
    NextConsecutive(l, l');
    NextAre(l, l', j);
    var first := if l'.unstable == [] then 0 else l'.unstable[0].index;
    AppendAllAt(l'.storage.log, l'.unstable, first);
    var i := l'.applied + 1 + j;
    if l'.unstable != [] {
      assert l'.unstable[|l'.unstable| - 1].index == first + |l'.unstable| - 1;
    }
    if l'.Unstable(i) {
      assert l'.unstable[i - first] in l'.unstable;
    }
  }

  /** What a cycle hands out is what the log holds afterwards exactly when no entry being committed
      is replaced in the same cycle: the committed entries are read from storage before the new ones
      are written to it. */
  lemma {:induction false} HandsOutLogExactly(l: Log, l': Log, rd: Ready)
    requires Settled(l) && Stepped(l, l') && l'.pending.IsEmpty()
    requires rd.snapshot == l'.pending && rd.entries == l'.unstable && rd.committedEntries == l'.NextEntries()
    ensures (forall j :: 0 <= j < |rd.committedEntries| ==> Holds(l', rd, rd.committedEntries[j])) <==>
            (forall i :: l'.applied < i <= l'.committed ==> Unreplaced(l', i))
  {
    hide Log.NextEntries;
    hide Holds;
    hide Unreplaced;
    hide Settled;
    hide Stepped;
    NextConsecutive(l, l');
    forall j | 0 <= j < |rd.committedEntries|
      ensures Holds(l', rd, rd.committedEntries[j]) <==> Unreplaced(l', l'.applied + 1 + j)
    {
      HeldIff(l, l', rd, j);
    }
    if forall j :: 0 <= j < |rd.committedEntries| ==> Holds(l', rd, rd.committedEntries[j]) {
      forall i | l'.applied < i <= l'.committed ensures Unreplaced(l', i) {
        var j := i - l'.applied - 1;
        assert Holds(l', rd, rd.committedEntries[j]);
      }
    }
  }

  lemma {:induction false} NothingUnstable(l: Log, lo: nat, hi: nat)
    requires lo >= hi
    ensures l.UnstableBetween(lo, hi) == []
  {
  }

  // ----- Persisting keeps storage sound ---------------------------------------------

  lemma {:induction false} LastIs(s: Storage, n: nat)
    requires s.IsLast(n)
    ensures s.LastIndex() == n
  {
  }

  lemma {:induction false} AppendSound(s: Storage, entries: seq<Entry>, first: nat)
    requires SoundStorage(s) && entries != [] && Contiguous(entries, first) && first <= s.LastIndex() + 1
    ensures SoundStorage(s.Append(entries))
    ensures s.Append(entries).LastIndex() == MaxOf(s.LastIndex(), first + |entries| - 1)
  {
    hide AppendAll;
    AppendAllAt(s.log, entries, first);
    LastIs(s.Append(entries), MaxOf(s.LastIndex(), first + |entries| - 1));
  }

  lemma {:induction false} InstallSound(s: Storage, snap: Snapshot)
    requires SoundStorage(s) && snap.index > s.snap.index
    ensures SoundStorage(s.(snap := snap).Compact(snap.index))
    ensures s.(snap := snap).Compact(snap.index).LastIndex() == MaxOf(s.LastIndex(), snap.index)
  {
    LastIs(s.(snap := snap).Compact(snap.index), MaxOf(s.LastIndex(), snap.index));
  }

  /** The log after a full cycle. */
  function Cycled(l: Log, rd: Ready): Log
    requires rd.committedEntries != [] ==> Last(rd.committedEntries).index <= l.committed
  {
    Advanced(l.(storage := Persisted(l.storage, rd)), rd)
  }

  lemma {:induction false} StableAll(l: Log)
    requires l.unstable != [] && Contiguous(l.unstable, l.unstable[0].index)
    ensures l.StableTo(Last(l.unstable).index, Last(l.unstable).term) == l.(unstable := [])
  {
    var first := l.unstable[0].index;
    assert Last(l.unstable).index - first == |l.unstable| - 1;
  }

  /** A cycle after one step settles the log again: everything committed has been handed out. */
  lemma {:induction false} CycleSettles(l: Log, l': Log, rd: Ready)
    requires Settled(l) && Stepped(l, l')
    requires rd.snapshot == l'.pending && rd.entries == l'.unstable && rd.committedEntries == l'.NextEntries()
    ensures rd.committedEntries != [] ==> Last(rd.committedEntries).index <= l'.committed
    ensures Settled(Cycled(l', rd)) && Cycled(l', rd).committed == l'.committed
    ensures !rd.snapshot.IsEmpty() ==>
              Cycled(l', rd).storage.snap == rd.snapshot && forall k :: k in Cycled(l', rd).storage.log ==> k > rd.snapshot.index
  {
    hide Log.NextEntries;
    hide Log.StableTo;
    hide AppendAll;
    hide SoundStorage;
    AppendNothing(l'.storage.(snap := rd.snapshot).Compact(rd.snapshot.index));
    NextConsecutive(l, l');
    var s' := Persisted(l.storage, rd);
    PersistSound(l, l', rd);
    if rd.entries != [] {
      StableAll(l'.(storage := s'));
    }
  }

  lemma {:induction false} PersistSound(l: Log, l': Log, rd: Ready)
    requires Settled(l) && Stepped(l, l') && rd.snapshot == l'.pending && rd.entries == l'.unstable
    ensures var s' := Persisted(l.storage, rd);
            && SoundStorage(s') && l'.committed <= s'.LastIndex() && s'.snap.index <= l'.committed
            && (rd.snapshot.IsEmpty() ==> s'.snap == l.storage.snap)
            && (!rd.snapshot.IsEmpty() ==> s'.snap.index == l'.applied)
  {
    hide Storage.LastIndex;
    if !rd.snapshot.IsEmpty() {
      InstallSound(l.storage, rd.snapshot);
      AppendNothing(l.storage.(snap := rd.snapshot).Compact(rd.snapshot.index));
    } else if rd.entries != [] {
      AppendSound(l.storage, rd.entries, rd.entries[0].index);
      assert Last(rd.entries).index == rd.entries[0].index + |rd.entries| - 1;
    } else {
      AppendNothing(l.storage);
    }
  }

  lemma {:induction false} AppendNothing(s: Storage)
    ensures s.Append([]) == s
  {
  }

  // ----- Order of the outputs -------------------------------------------------------

  /** Each output comes right after the position reached: the next index, or a snapshot beyond. */
  ghost predicate InOrder(outputs: seq<Output>, pos: nat) {
    if outputs == [] then true
    else
      && (outputs[0].Apply? ==> outputs[0].Index() == pos + 1) && (outputs[0].Install? ==> outputs[0].Index() > pos)
      && InOrder(outputs[1..], outputs[0].Index())
  }

  ghost function Reached(outputs: seq<Output>, pos: nat): nat {
    if outputs == [] then pos else outputs[|outputs| - 1].Index()
  }

  lemma {:induction false} InOrderConcat(a: seq<Output>, b: seq<Output>, pos: nat)
    requires InOrder(a, pos) && InOrder(b, Reached(a, pos))
    ensures InOrder(a + b, pos) && Reached(a + b, pos) == Reached(b, Reached(a, pos))
  {
    if a == [] {
      assert a + b == b;
    } else {
      assert (a + b)[1..] == a[1..] + b;
      InOrderConcat(a[1..], b, a[0].Index());
    }
  }

  lemma {:induction false} AppliesInOrder(entries: seq<Entry>, pos: nat)
    requires Contiguous(entries, pos + 1)
    ensures InOrder(Applies(entries), pos) && Reached(Applies(entries), pos) == pos + |entries|
  {
    if entries != [] {
      var rest := entries[1..];
      assert Contiguous(rest, pos + 2);
      AppliesInOrder(rest, pos + 1);
      assert Applies(entries)[1..] == Applies(rest);
      assert Applies(entries)[0] == Apply(entries[0]);
    }
  }

  /** Every output of a run has an index above all earlier ones. */
  lemma {:induction false} NeverRepeated(outputs: seq<Output>, pos: nat, i: nat, j: nat)
    requires InOrder(outputs, pos) && i < j < |outputs|
    ensures pos < outputs[i].Index() < outputs[j].Index()
  {
    AbovePosition(outputs, pos, i);
    if i == 0 {
      AbovePosition(outputs[1..], outputs[0].Index(), j - 1);
    } else {
      NeverRepeated(outputs[1..], outputs[0].Index(), i - 1, j - 1);
    }
  }

  lemma {:induction false} AbovePosition(outputs: seq<Output>, pos: nat, i: nat)
    requires InOrder(outputs, pos) && i < |outputs|
    ensures pos < outputs[i].Index()
  {
    if i > 0 {
      AbovePosition(outputs[1..], outputs[0].Index(), i - 1);
    }
  }

  /** One cycle hands out the indices from the applied to the committed one, or one snapshot and
      nothing else. */
  lemma {:induction false} CycleOutputs(l: Log, l': Log, rd: Ready)
    requires Settled(l) && Stepped(l, l')
    requires rd.snapshot == l'.pending && rd.committedEntries == l'.NextEntries()
    ensures InOrder(Outputs(rd), l.applied) && Reached(Outputs(rd), l.applied) == l'.committed
    ensures rd.snapshot.IsEmpty() || rd.committedEntries == []
  {
    hide Log.NextEntries;
    hide SoundStorage;
    NextConsecutive(l, l');
    if rd.snapshot.IsEmpty() {
      AppliesInOrder(rd.committedEntries, l.applied);
      assert Outputs(rd) == Applies(rd.committedEntries);
    } else {
      assert Outputs(rd) == [Install(rd.snapshot)];
      assert InOrder(Outputs(rd)[1..], rd.snapshot.index);
    }
  }

  /** A follower holding an uncommitted entry of term 1 at index 1. */
  function Follower1(id: nat, peers: seq<nat>, data: Option<Bytes>): Node {
    var log := Log(Storage(map[1 := Entry(1, 1, data)], NO_SNAPSHOT), [], 0, 0, NO_SNAPSHOT);
    Node(id, Follower, 1, NONE, map[], NONE, peers, map[], map[], {}, true, true, log, 0, 0, 10, [])
  }

  /** The next leader's first append replaces the entry and commits the replacement: the follower
      persists the new entry and applies the old one. */
  lemma {:induction false} ReplacedEntryApplied(id: nat, peers: seq<nat>, leader: nat, old': Option<Bytes>,
                                                new': Option<Bytes>)
    ensures var n := Follower1(id, peers, old');
            var m := Note(App, id, leader, 2).(entries := [Entry(2, 1, new')], commit := 1);
            var n' := Step(n, m, 10);
            var rd := ReadyOf(n');
            && Settled(n.log) && Proper(m)
            && Outputs(rd) == [Apply(Entry(1, 1, old'))] && Persisted(n'.log.storage, rd).log == map[1 := Entry(2, 1, new')]
  {
    hide Step;
    hide Log.NextEntries;
    hide Log.Append;
    hide Log.LastIndex;
    hide AppendAll;
    var n := Follower1(id, peers, old');
    var m := Note(App, id, leader, 2).(entries := [Entry(2, 1, new')], commit := 1);
    ReplacedLog(n.log, old', new');
    AppStep(n, m, n.log.(unstable := m.entries, committed := 1));
    LastIs(n.log.storage, 1);
    assert Applies([Entry(1, 1, old')]) == [Apply(Entry(1, 1, old'))];
  }

  lemma {:induction false} ReplacedLog(l: Log, old': Option<Bytes>, new': Option<Bytes>)
    requires l == Log(Storage(map[1 := Entry(1, 1, old')], NO_SNAPSHOT), [], 0, 0, NO_SNAPSHOT)
    ensures var e := Entry(2, 1, new');
            var l' := l.(unstable := [e], committed := 1);
            && l.Append([e]) == l.(unstable := [e]) && l.Append([e]).LastIndex() == 1
            && l'.NextEntries() == [Entry(1, 1, old')] && AppendAll(l.storage.log, [e]) == map[1 := e]
  {
    hide Log.NextEntries;
    var e := Entry(2, 1, new');
    var l' := l.(unstable := [e], committed := 1);
    LastIs(l.storage, 1);
    NextConsecutive(l, l');
    NextAre(l, l', 0);
    assert l'.NextEntries() == [Entry(1, 1, old')];
    assert [e][..0] == [];
    assert AppendAll(l.storage.log, []) == l.storage.log;
  }

  lemma {:induction false} AppStep(n: Node, m: Message, l': Log)
    requires m.kind == App && m.index == 0 && m.term > n.term && m.commit == 1 && n.log.committed == 0
    requires l' == n.log.Append(m.entries).(committed := 1) && n.log.Append(m.entries).LastIndex() == 1
    ensures Step(n, m, 10).log == l'
  {
    hide Log.LastIndex;
    hide Log.Append;
    assert n.log.Append(m.entries).committed == 0 by {
      CommittedKept(n.log, m.entries);
    }
  }

  lemma {:induction false} CommittedKept(l: Log, entries: seq<Entry>)
    ensures l.Append(entries).committed == l.committed
  {
  }

  // ----- Runs of the loop -----------------------------------------------------------

  datatype Input =
    | Receive(m: Message, timeout: nat)
    | Elapse(timeout: nat)
    | Submit(entry: Entry, timeout: nat)
    | Trim(snapshot: bool, data: Bytes, c: nat)

  function Reacted(n: Node, i: Input): Node
    requires !i.Trim?
  {
    match i
    case Receive(m, timeout) => Step(n, m, timeout)
    case Elapse(timeout) => Tick(n, timeout)
    case Submit(entry, timeout) => Propose(n, entry, timeout)
  }

  /** The driver's own snapshot at the applied index, and truncation no further than the
      snapshot. */
  function Trimmed(l: Log, snapshot: bool, data: Bytes, c: nat): Log {
    var t := l.Term(l.applied);
    var s := if snapshot && l.applied > 0 && t.Some? then l.storage.(snap := Snapshot(l.applied, t.value, data))
             else l.storage;
    l.(storage := if 0 < c <= s.snap.index then s.Compact(c) else s)
  }

  /** Taking a snapshot and truncating changes the term of no index from the snapshot on, and leaves
      no entry at or below the point truncated to. */
  lemma {:induction false} TrimKeepsAnswers(l: Log, snapshot: bool, data: Bytes, c: nat, i: nat)
    requires Settled(l)
    ensures var l' := Trimmed(l, snapshot, data, c);
            && (l'.storage.snap.index <= i ==> l'.Term(i) == l.Term(i))
            && (0 < c <= l'.storage.snap.index ==> forall k :: k in l'.storage.log ==> k > c)
            && (snapshot && l.applied > 0 && l.Term(l.applied).Some? ==> l'.storage.snap.index == l.applied)
  {
    hide SoundStorage;
    hide Storage.LastIndex;
  }

  ghost predicate Admissible(i: Input) {
    i.Receive? ==> Proper(i.m)
  }

  lemma {:induction false} ReactedStepped(n: Node, i: Input)
    requires Settled(n.log) && !i.Trim? && Admissible(i)
    ensures Stepped(n.log, Reacted(n, i).log)
  {
    hide Stepped;
    hide Settled;
    hide Step;
    hide Tick;
    match i
    case Receive(m, timeout) => StepStepped(n, m, timeout);
    case Elapse(timeout) => TickStepped(n, timeout);
    case Submit(entry, timeout) => StepStepped(n, Note(Prop, n.id, n.id, 0).(entries := [entry]), timeout);
  }

  lemma {:induction false} TrimSettled(l: Log, snapshot: bool, data: Bytes, c: nat)
    requires Settled(l)
    ensures Settled(Trimmed(l, snapshot, data, c)) && Trimmed(l, snapshot, data, c).committed == l.committed
  {
    var t := l.Term(l.applied);
    if snapshot && l.applied > 0 && t.Some? {
      var s := l.storage.(snap := Snapshot(l.applied, t.value, data));
      LastIs(s, l.storage.LastIndex());
      if 0 < c <= s.snap.index {
        LastIs(s.Compact(c), l.storage.LastIndex());
      }
    } else if 0 < c <= l.storage.snap.index {
      LastIs(l.storage.Compact(c), l.storage.LastIndex());
    }
  }

  // ----- Messages sent are proper ---------------------------------------------------

  ghost predicate ProperOutbox(n: Node) {
    forall i :: 0 <= i < |n.msgs| ==> Proper(n.msgs[i])
  }

  /** The entries from an index above the snapshot to the end are consecutive. */
  lemma {:induction false} TailConsecutive(l: Log, l': Log, lo: nat)
    requires Settled(l) && Stepped(l, l') && l'.pending.IsEmpty() && l.storage.snap.index < lo
    ensures Contiguous(l'.Entries(lo, l'.LastIndex() + 1), lo)
  {
    hide Storage.Entries;
    hide Log.UnstableBetween;
    var s := l.storage;
    var last, hi := s.LastIndex(), l'.LastIndex() + 1;
    if lo < hi {
      if lo <= last {
        StoredEntries(s, lo, if hi > last + 1 then last + 1 else hi);
        if hi > last + 1 {
          UnstableEntries(l', last + 1, hi);
        } else {
          NothingUnstable(l', last + 1, hi);
        }
      } else {
        UnstableEntries(l', lo, hi);
      }
    }
  }

  lemma {:induction false} SendAppendProper(l: Log, n: Node, to: nat)
    requires Settled(l) && Stepped(l, n.log) && n.log.pending.IsEmpty() && ProperOutbox(n)
    ensures ProperOutbox(SendAppend(n, to))
  {
    hide Settled;
    hide SoundStorage;
    hide Log.LastIndex;
    hide Log.Term;
    hide Log.Entries;
    var next := At(n.nextIndex, to);
    if next >= n.log.storage.FirstIndex() {
      TailConsecutive(l, n.log, next);
    }
  }

  lemma {:induction false} BcastAppendProper(l: Log, n: Node, k: nat)
    requires Settled(l) && Stepped(l, n.log) && n.log.pending.IsEmpty() && ProperOutbox(n) && k <= |n.peers|
    ensures ProperOutbox(BcastAppend(n, k))
  {
    hide Settled;
    hide Stepped;
    hide SendAppend;
    if k > 0 {
      BcastAppendProper(l, n, k - 1);
      BcastAppendLog(n, k - 1);
      SendAppendProper(l, BcastAppend(n, k - 1), n.peers[k - 1]);
    }
  }

  lemma {:induction false} BcastOthersProper(n: Node, k: nat, pre: bool)
    requires ProperOutbox(n) && k <= |n.peers|
    ensures ProperOutbox(BcastVote(n, k, pre)) && ProperOutbox(BcastHeartbeat(n, k))
  {
    hide Log.LastIndex;
    hide Log.LastTerm;
    if k > 0 {
      BcastOthersProper(n, k - 1, pre);
    }
  }

  lemma {:induction false} LeaderProper(n: Node)
    requires Settled(n.log) && ProperOutbox(n)
    ensures ProperOutbox(BecomeLeader(n))
  {
    hide Stepped;
    hide Settled;
    hide BcastAppend;
    hide CommitScan;
    hide Log.Append;
    SettledFacts(n.log);
    var last := n.log.LastIndex();
    AppendStepped(n.log, [Entry(n.term, last + 1, None)], last + 1);
    AdvanceStepped(n.log, Led(n));
    BcastAppendProper(n.log, MaybeAdvanceCommit(Led(n)), |n.peers|);
  }

  lemma {:induction false} CampaignProper(n: Node, pre: bool, timeout: nat)
    requires Settled(n.log) && ProperOutbox(n)
    ensures ProperOutbox(Campaign(n, pre, timeout))
    decreases pre
  {
    hide Settled;
    hide BecomeLeader;
    hide BcastVote;
    hide Granted;
    var c := if pre then BecomePreCandidate(n, timeout) else BecomeCandidate(n, timeout);
    if c.Tally() >= c.Quorum() {
      if pre {
        CampaignProper(c, false, timeout);
      } else {
        LeaderProper(c);
      }
    } else {
      BcastOthersProper(c, |c.peers|, pre);
    }
  }

  lemma {:induction false} PropProper(n: Node, m: Message)
    requires Settled(n.log) && ProperOutbox(n)
    ensures ProperOutbox(OnProp(n, m))
  {
    hide Stepped;
    hide Settled;
    hide BcastAppend;
    hide CommitScan;
    hide Log.Append;
    hide Numbered;
    SettledFacts(n.log);
    var last := n.log.LastIndex();
    NumberedContiguous(m.entries, n.term, last);
    AppendStepped(n.log, Numbered(m.entries, n.term, last), last + 1);
    var log := n.log.Append(Numbered(m.entries, n.term, last));
    var added := n.(log := log, matchIndex := n.matchIndex[n.id := log.LastIndex()]);
    BcastAppendProper(n.log, added, |added.peers|);
  }

  lemma {:induction false} SendProper(n: Node, x: Message)
    requires ProperOutbox(n) && x.kind != App
    ensures ProperOutbox(n.Send(x))
  {
  }

  lemma {:induction false} RespProper(n: Node, m: Message)
    requires Settled(n.log) && ProperOutbox(n)
    ensures ProperOutbox(OnAppResp(n, m)) && ProperOutbox(OnHeartbeatResp(n, m))
  {
    hide Stepped;
    hide Settled;
    hide SendAppend;
    hide CommitScan;
    hide Log.LastIndex;
    Unmoved(n.log);
    SettledFacts(n.log);
    var a := n.(recentActive := n.recentActive + {m.from});
    var next := At(a.nextIndex, m.from);
    var backed := if m.hint < next then m.hint + 1 else if next > 1 then next - 1 else next;
    SendAppendProper(n.log, a.(nextIndex := a.nextIndex[m.from := backed]), m.from);
    SendAppendProper(n.log, a, m.from);
  }

  lemma {:induction false} VoteProper(n: Node, m: Message)
    requires ProperOutbox(n)
    ensures ProperOutbox(OnVote(n, m))
  {
    hide ProperOutbox;
    hide Node.Send;
    hide Log.IsUpToDate;
    var resp := if m.kind == PreVote then PreVoteResp else VoteResp;
    var sent := n.Send(Note(resp, m.from, n.id, m.term));
    SendProper(n, Note(resp, m.from, n.id, m.term));
    SendProper(n, Note(resp, m.from, n.id, n.term).(reject := true));
    SameOutbox(sent, sent.(votedFor := m.from, electionElapsed := 0));
  }

  lemma {:induction false} HeartbeatProper(n: Node, m: Message)
    requires ProperOutbox(n)
    ensures ProperOutbox(OnHeartbeat(n, m))
  {
    hide ProperOutbox;
    hide Node.Send;
    hide Log.LastIndex;
    var h :=
      if m.term >= n.term then
        n.(electionElapsed := 0, leadID := m.from, log := n.log.CommitTo(Min(m.commit, n.log.LastIndex())))
      else n;
    SameOutbox(n, h);
    SendProper(h, Note(HeartbeatResp, m.from, h.id, h.term));
  }

  lemma {:induction false} AppProper(n: Node, m: Message, timeout: nat)
    requires ProperOutbox(n)
    ensures ProperOutbox(OnApp(n, m, timeout))
  {
    hide ProperOutbox;
    hide Node.Send;
    hide Log.LastIndex;
    hide Log.Append;
    hide Log.Term;
    var f := if m.term < n.term then n else BecomeFollower(n, m.term, m.from, timeout);
    SameOutbox(n, f);
    SendProper(f, Note(AppResp, m.from, f.id, f.term).(reject := true, hint := f.log.LastIndex()));
    var log := f.log.Append(m.entries);
    var log' := if m.commit > log.committed then log.CommitTo(Min(m.commit, log.LastIndex())) else log;
    SameOutbox(f, f.(log := log'));
    SendProper(f.(log := log'), Note(AppResp, m.from, f.id, f.term).(index := log'.LastIndex()));
  }

  lemma {:induction false} SnapProper(n: Node, m: Message, timeout: nat)
    requires ProperOutbox(n)
    ensures ProperOutbox(OnSnap(n, m, timeout))
  {
    hide ProperOutbox;
    hide Node.Send;
    hide Log.LastIndex;
    hide Log.Restore;
    SendProper(n, Note(AppResp, m.from, n.id, n.term).(reject := true, hint := n.log.LastIndex()));
    var f := BecomeFollower(n, m.term, m.from, timeout);
    var r := f.(log := f.log.Restore(m.snap));
    SameOutbox(n, r);
    SendProper(r, Note(AppResp, m.from, r.id, r.term)
               .(index := if m.snap.index > f.log.committed then r.log.LastIndex() else r.log.committed));
  }

  lemma {:induction false} HandleProper(n: Node, m: Message, timeout: nat)
    requires Settled(n.log) && ProperOutbox(n)
    ensures ProperOutbox(Handle(n, m, timeout))
  {
    hide Settled;
    hide ProperOutbox;
    hide Campaign;
    hide BecomeLeader;
    hide BcastHeartbeat;
    hide OnVote;
    hide OnProp;
    hide OnApp;
    hide OnSnap;
    hide OnAppResp;
    hide OnHeartbeat;
    hide OnHeartbeatResp;
    hide Granted;
    match m.kind
    case Hup => CampaignProper(n, n.preVote, timeout);
    case Beat => BcastOthersProper(n, |n.peers|, true);
    case VoteResp =>
      SameOutbox(n, n.(votes := n.votes[m.from := !m.reject]));
      LeaderProper(n.(votes := n.votes[m.from := !m.reject]));
    case PreVoteResp =>
      SameOutbox(n, n.(votes := n.votes[m.from := !m.reject]));
      CampaignProper(n.(votes := n.votes[m.from := !m.reject]), false, timeout);
    case Prop => PropProper(n, m);
    case AppResp => RespProper(n, m);
    case HeartbeatResp => RespProper(n, m);
    case App => AppProper(n, m, timeout);
    case Snap => SnapProper(n, m, timeout);
    case Heartbeat => HeartbeatProper(n, m);
    case Vote => VoteProper(n, m);
    case PreVote => VoteProper(n, m);
  }

  lemma {:induction false} SameOutbox(n: Node, n': Node)
    requires n'.msgs == n.msgs && ProperOutbox(n)
    ensures ProperOutbox(n')
  {
  }

  /** Every append a node sends carries consecutive entries after the index it names. */
  lemma {:induction false} ReactedProper(n: Node, i: Input)
    requires Settled(n.log) && n.msgs == [] && !i.Trim?
    ensures ProperOutbox(Reacted(n, i))
  {
    hide Settled;
    hide Step;
    hide Tick;
    match i
    case Receive(m, timeout) => StepProper(n, m, timeout);
    case Elapse(timeout) => TickProper(n, timeout);
    case Submit(entry, timeout) => StepProper(n, Note(Prop, n.id, n.id, 0).(entries := [entry]), timeout);
  }

  lemma {:induction false} StepProper(n: Node, m: Message, timeout: nat)
    requires Settled(n.log) && n.msgs == []
    ensures ProperOutbox(Step(n, m, timeout))
  {
    hide Settled;
    hide Handle;
    HandleProper(AdoptTerm(n, m, timeout), m, timeout);
  }

  lemma {:induction false} TickProper(n: Node, timeout: nat)
    requires Settled(n.log) && n.msgs == []
    ensures ProperOutbox(Tick(n, timeout))
  {
    hide Settled;
    hide Step;
    hide Node.Active;
    StepProper(n.(electionElapsed := 0), Note(Hup, n.id, n.id, 0), timeout);
    var e := Sweep(n, timeout);
    assert e.log == n.log && e.msgs == [];
    StepProper(e.(heartbeatElapsed := 0), Note(Beat, e.id, e.id, 0), timeout);
  }

  // ----- The group ------------------------------------------------------------------

  /** Nodes between cycles, every message ever sent, and what each node has handed out. */
  datatype Cluster = Cluster(nodes: map<nat, Node>, sent: set<Message>, outputs: map<nat, seq<Output>>)

  ghost predicate Running(c: Cluster) {
    && c.outputs.Keys == c.nodes.Keys
    && (forall i :: i in c.nodes ==> Settled(c.nodes[i].log) && c.nodes[i].msgs == [])
    && (forall m :: m in c.sent ==> Proper(m))
  }

  /** Node `id` takes in a sent message, a tick, a proposal or a truncation, and runs its cycle. */
  ghost predicate CanTake(c: Cluster, id: nat, i: Input) {
    id in c.nodes && (i.Receive? ==> i.m in c.sent)
  }

  ghost function Took(c: Cluster, id: nat, i: Input): Cluster
    requires Running(c) && CanTake(c, id, i)
  {
    var n := c.nodes[id];
    if i.Trim? then c.(nodes := c.nodes[id := n.(log := Trimmed(n.log, i.snapshot, i.data, i.c))])
    else
      ReactedStepped(n, i);
      var n' := Reacted(n, i);
      var rd := ReadyOf(n');
      CycleSettles(n.log, n'.log, rd);
      Cluster(c.nodes[id := n'.(log := Cycled(n'.log, rd), msgs := [])], c.sent + (set m | m in rd.messages),
              c.outputs[id := c.outputs[id] + Outputs(rd)])
  }

  /** Whatever a node takes in, it settles, its commit and apply positions do not fall, and its
      outputs continue in order up to the committed index. */
  lemma {:induction false} TookInOrder(c: Cluster, id: nat, i: Input)
    requires Running(c) && CanTake(c, id, i)
    ensures Running(Took(c, id, i))
    ensures var n, n' := c.nodes[id], Took(c, id, i).nodes[id];
            && n.log.committed <= n'.log.committed && n.log.applied <= n'.log.applied
    ensures forall pos: nat :: InOrder(c.outputs[id], pos) && Reached(c.outputs[id], pos) == c.nodes[id].log.applied ==>
              InOrder(Took(c, id, i).outputs[id], pos) &&
              Reached(Took(c, id, i).outputs[id], pos) == Took(c, id, i).nodes[id].log.applied
  {
    hide Settled;
    hide Stepped;
    hide Reacted;
    hide Log.NextEntries;
    hide Cycled;
    hide InOrder;
    hide Outputs;
    var n := c.nodes[id];
    if i.Trim? {
      TrimSettled(n.log, i.snapshot, i.data, i.c);
      Positions(n.log, n.log);
    } else {
      ReactedStepped(n, i);
      ReactedProper(n, i);
      var n' := Reacted(n, i);
      var rd := ReadyOf(n');
      CycleSettles(n.log, n'.log, rd);
      CycleOutputs(n.log, n'.log, rd);
      Positions(n.log, n'.log);
      SettledApplied(Cycled(n'.log, rd));
      SettledApplied(n.log);
      forall pos: nat | InOrder(c.outputs[id], pos) && Reached(c.outputs[id], pos) == n.log.applied
        ensures InOrder(c.outputs[id] + Outputs(rd), pos) &&
                Reached(c.outputs[id] + Outputs(rd), pos) == n'.log.committed
      {
        InOrderConcat(c.outputs[id], Outputs(rd), pos);
      }
    }
  }

  lemma {:induction false} Positions(l: Log, l': Log)
    requires Stepped(l, l') || l == l'
    ensures l.committed <= l'.committed
  {
  }

  lemma {:induction false} SettledApplied(l: Log)
    requires Settled(l)
    ensures l.applied == l.committed
  {
  }

  datatype Turn = Turn(id: nat, input: Input)

  ghost predicate Plays(c: Cluster, turns: seq<Turn>, c': Cluster)
    requires Running(c)
    decreases |turns|
  {
    if turns == [] then c' == c
    else
      && CanTake(c, turns[0].id, turns[0].input)
      && (TookInOrder(c, turns[0].id, turns[0].input);
          Plays(Took(c, turns[0].id, turns[0].input), turns[1..], c'))
  }

  /** Over every run of a group in which messages are lost, repeated and reordered at will, each
      node hands out indices in order, none twice, skipping only what a snapshot covers, and has
      handed out everything it knows to be committed. */
  lemma {:induction false} DeliveryInOrder(c: Cluster, turns: seq<Turn>, c': Cluster, id: nat, pos: nat)
    requires Running(c) && Plays(c, turns, c') && id in c.nodes
    requires InOrder(c.outputs[id], pos) && Reached(c.outputs[id], pos) == c.nodes[id].log.applied
    ensures Running(c') && id in c'.nodes
    ensures InOrder(c'.outputs[id], pos)
    ensures Reached(c'.outputs[id], pos) == c'.nodes[id].log.applied == c'.nodes[id].log.committed
    ensures c.nodes[id].log.committed <= c'.nodes[id].log.committed
    decreases |turns|
  {
    hide InOrder;
    hide Took;
    if turns == [] {
      SettledApplied(c.nodes[id].log);
    } else {
      var t := turns[0];
      TookInOrder(c, t.id, t.input);
      OthersWait(c, t.id, t.input, id);
      DeliveryInOrder(Took(c, t.id, t.input), turns[1..], c', id, pos);
    }
  }

  lemma {:induction false} OthersWait(c: Cluster, id: nat, i: Input, other: nat)
    requires Running(c) && CanTake(c, id, i) && other in c.nodes
    ensures other in Took(c, id, i).nodes
    ensures other != id ==> Took(c, id, i).nodes[other] == c.nodes[other] && Took(c, id, i).outputs[other] == c.outputs[other]
  {
    hide Settled;
    hide Stepped;
    hide Reacted;
    hide Log.NextEntries;
    hide Cycled;
    hide Outputs;
    if !i.Trim? {
      var n := c.nodes[id];
      ReactedStepped(n, i);
      CycleSettles(n.log, Reacted(n, i).log, ReadyOf(Reacted(n, i)));
    }
  }
}
