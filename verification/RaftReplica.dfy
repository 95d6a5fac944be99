/** The driver of one node: after each step it persists, sends and applies what the node has
    ready, in that order. */
module RaftReplica {
  import opened RaftTypes
  import opened RaftLogs
  import opened RaftNode
  import opened RaftReady
  import opened RaftRawNode

  class Replica {
    const rn: RawNode
    var sent: seq<Message>
    var outputs: seq<Output>

    constructor (rn: RawNode)
      ensures this.rn == rn && sent == [] && outputs == []
    {
      this.rn := rn;
      sent := [];
      outputs := [];
    }

    method Ready() returns (rd: Ready)
      ensures rd == ReadyOf(rn.Value())
    {
      hide Log.NextEntries;
      rd := RaftReady.Ready(rn.log.pendingSnapshot, rn.log.unstable, rn.msgs, rn.log.Value().NextEntries());
    }

    /** The snapshot becomes the stored one and the entries it covers go. */
    method InstallSnapshot(snap: Snapshot)
      modifies this, rn.log
      ensures rn.Value() == old(rn.Value()).(log := old(rn.Value()).log.(storage :=
                              old(rn.log.storage).(snap := snap).Compact(snap.index)))
      ensures outputs == old(outputs) + [Install(snap)] && sent == old(sent)
    {
      outputs := outputs + [Install(snap)];
      rn.log.storage := rn.log.storage.(snap := snap);
      rn.log.storage := rn.log.storage.Compact(snap.index);
    }

    method ApplyEntries(entries: seq<Entry>)
      modifies `outputs
      ensures outputs == old(outputs) + Applies(entries)
    {
      var i := 0;
      while i < |entries|
        invariant 0 <= i <= |entries| && outputs == old(outputs) + Applies(entries[..i])
      {
        assert Applies(entries[..i + 1]) == Applies(entries[..i]) + [Apply(entries[i])];
        outputs := outputs + [Apply(entries[i])];
        i := i + 1;
      }
      assert entries[..i] == entries;
    }

    method AdvanceNode(rd: Ready)
      requires rd.committedEntries != [] ==> Last(rd.committedEntries).index <= rn.log.committed
      modifies rn, rn.log
      ensures rn.Value() == old(rn.Value()).(log := Advanced(old(rn.Value()).log, rd), msgs := [])
    {
      hide Log.StableTo;
      ghost var n := rn.Value();
      if !rd.snapshot.IsEmpty() {
        rn.log.pendingSnapshot := NO_SNAPSHOT;
      }
      if |rd.entries| > 0 {
        KeepsCommitted(rn.log.Value(), Last(rd.entries).index, Last(rd.entries).term);
        rn.log.StableTo(Last(rd.entries).index, Last(rd.entries).term);
      }
      if |rd.committedEntries| > 0 {
        rn.log.AppliedTo(Last(rd.committedEntries).index);
      }
      rn.msgs := [];
    }

    method Persist(rd: Ready)
      modifies this, rn.log
      ensures rn.Value() == old(rn.Value()).(log := old(rn.Value()).log.(storage := Persisted(old(rn.log.storage), rd)))
      ensures outputs == old(outputs) + (if rd.snapshot.IsEmpty() then [] else [Install(rd.snapshot)])
      ensures sent == old(sent)
    {
      hide AppendAll;
      if !rd.snapshot.IsEmpty() {
        InstallSnapshot(rd.snapshot);
      }
      if |rd.entries| > 0 {
        rn.log.storage := rn.log.storage.Append(rd.entries);
      } else {
        RaftReady.AppendNothing(rn.log.storage);
      }
    }

    /** Between cycles: nothing is waiting, and what was handed out since index `origin` is in order
        and reaches everything applied. */
    ghost predicate UpToDate(origin: nat)
      reads this, rn, rn.log
    {
      && Settled(rn.Value().log) && rn.msgs == []
      && InOrder(outputs, origin) && Reached(outputs, origin) == rn.log.applied
    }

    /** One cycle, on a node whose committed entries end at most at its commit index.  After one
        step from an up-to-date node it is up to date again: everything committed is handed out, in
        order. */
    method HandleReady(ghost before: Log, ghost origin: nat)
      requires var next := rn.Value().log.NextEntries();
               next != [] ==> Last(next).index <= rn.Value().log.committed
      modifies this, rn, rn.log
      ensures var n := old(rn.Value());
              var rd := ReadyOf(n);
              && rn.Value() == n.(log := Cycled(n.log, rd), msgs := [])
              && outputs == old(outputs) + Outputs(rd) && sent == old(sent) + n.msgs
      ensures Settled(before) && Stepped(before, old(rn.Value()).log) &&
              InOrder(old(outputs), origin) && Reached(old(outputs), origin) == before.applied ==>
                UpToDate(origin) && rn.log.committed == old(rn.log.committed)
    {
      hide Log.NextEntries;
      hide Applies;
      hide Persisted;
      hide Advanced;
      hide Settled;
      hide Stepped;
      hide InOrder;
      hide Reached;
      CycleMeans(before, rn.Value(), outputs, origin);
      var rd := Ready();
      Persist(rd);
      sent := sent + rd.messages;
      ApplyEntries(rd.committedEntries);
      AdvanceNode(rd);
    }

    /** The loop takes a message and runs a cycle. */
    method Receive(m: Message, timeout: nat, ghost origin: nat)
      requires UpToDate(origin) && Proper(m)
      modifies this, rn, rn.log
      ensures UpToDate(origin) && old(outputs) <= outputs && old(rn.log.committed) <= rn.log.committed
    {
      hide RaftNode.Step;
      hide Settled;
      hide Cycled;
      hide Outputs;
      hide InOrder;
      hide Reached;
      hide Log.NextEntries;
      ghost var before := rn.Value().log;
      rn.Step(m, timeout);
      CycleReady(before, rn.Value());
      HandleReady(before, origin);
    }

    /** The loop takes a tick and runs a cycle. */
    method Elapse(timeout: nat, ghost origin: nat)
      requires UpToDate(origin)
      modifies this, rn, rn.log
      ensures UpToDate(origin) && old(outputs) <= outputs && old(rn.log.committed) <= rn.log.committed
    {
      hide RaftNode.Tick;
      hide Settled;
      hide Cycled;
      hide Outputs;
      hide InOrder;
      hide Reached;
      hide Log.NextEntries;
      ghost var before := rn.Value().log;
      rn.Tick(timeout);
      CycleReady(before, rn.Value());
      HandleReady(before, origin);
    }
  }

  lemma {:induction false} CycleReady(before: Log, n: Node)
    requires Settled(before) && Stepped(before, n.log)
    ensures var next := n.log.NextEntries(); next != [] ==> Last(next).index <= n.log.committed
    ensures before.committed <= n.log.committed && before.applied == before.committed
  {
    hide Log.NextEntries;
    hide SoundStorage;
    CycleSettles(before, n.log, ReadyOf(n));
  }

  lemma {:induction false} CycleMeans(before: Log, n: Node, outputs: seq<Output>, origin: nat)
    requires var next := n.log.NextEntries(); next != [] ==> Last(next).index <= n.log.committed
    ensures Settled(before) && Stepped(before, n.log) &&
            InOrder(outputs, origin) && Reached(outputs, origin) == before.applied ==>
              && Settled(Cycled(n.log, ReadyOf(n))) && Cycled(n.log, ReadyOf(n)).committed == n.log.committed
              && Cycled(n.log, ReadyOf(n)).applied == n.log.committed
              && InOrder(outputs + Outputs(ReadyOf(n)), origin)
              && Reached(outputs + Outputs(ReadyOf(n)), origin) == n.log.committed
  {
    hide Log.NextEntries;
    hide SoundStorage;
    hide Cycled;
    hide Outputs;
    hide InOrder;
    hide Reached;
    if Settled(before) && Stepped(before, n.log) && InOrder(outputs, origin) && Reached(outputs, origin) == before.applied {
      CycleSettles(before, n.log, ReadyOf(n));
      CycleOutputs(before, n.log, ReadyOf(n));
      InOrderConcat(outputs, Outputs(ReadyOf(n)), origin);
    }
  }

  lemma {:induction false} KeepsCommitted(l: Log, index: nat, term: nat)
    ensures l.StableTo(index, term).committed == l.committed
  {
  }
}
