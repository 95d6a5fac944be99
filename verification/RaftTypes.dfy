/** Entries, snapshots and messages of the Raft layer. Terms, indices and node ids are unbounded. */
module RaftTypes {
  import opened Bytes
  import opened Records

  datatype Entry = Entry(term: nat, index: nat, data: Option<Bytes>)

  datatype Snapshot = Snapshot(index: nat, term: nat, data: Bytes)
  {
    predicate IsEmpty() {
      index == 0
    }
  }

  const NO_SNAPSHOT: Snapshot := Snapshot(0, 0, [])

  /** What stable storage answers: the persisted entries by index, and the last snapshot. */
  datatype Storage = Storage(log: map<nat, Entry>, snap: Snapshot)
  {
    function FirstIndex(): nat {
      if snap.index > 0 then snap.index + 1 else 1
    }

    /** `n` is the highest index the log or the snapshot reaches, zero without either. */
    predicate IsLast(n: nat) {
      && (forall i :: i in log ==> i <= n) && snap.index <= n
      && (n == snap.index || n in log)
    }

    lemma {:induction false} LastExists(s: set<nat>) returns (n: nat)
      ensures n == snap.index || n in s
      ensures snap.index <= n && forall i :: i in s ==> i <= n
      decreases s
    {
      if s == {} {
        n := snap.index;
      } else {
        var x :| x in s;
        var r := LastExists(s - {x});
        n := if x > r then x else r;
        assert forall i :: i in s ==> i == x || i in s - {x};
      }
    }

    function LastIndex(): (n: nat)
      ensures IsLast(n)
    {
      assert exists n :: n in log.Keys + {snap.index} && IsLast(n) by {
        var n := LastExists(log.Keys);
        assert n in log.Keys + {snap.index} && IsLast(n);
      }
      var n :| n in log.Keys + {snap.index} && IsLast(n);
      n
    }

    /** The term at an index; the snapshot answers for its anchor and nothing below. */
    function Term(i: nat): Option<nat> {
      if snap.index > 0 && i == snap.index then Some(snap.term)
      else if snap.index > 0 && i < snap.index then None
      else if i in log then Some(log[i].term)
      else None
    }

    function Append(entries: seq<Entry>): Storage {
      this.(log := AppendAll(log, entries))
    }

    /** Without the entries at or below `c`. */
    function Compact(c: nat): Storage {
      this.(log := map i | i in log && i > c :: log[i])
    }

    /** The entries in [lo, hi), or None when one is missing. */
    function Entries(lo: nat, hi: nat): Option<seq<Entry>>
      decreases hi - lo
    {
      if lo >= hi then Some([])
      else if lo !in log then None
      else
        var rest := Entries(lo + 1, hi);
        if rest.None? then None else Some([log[lo]] + rest.value)
    }
  }

  /** Entries land under their indices, replacing what was there. */
  function AppendAll(log: map<nat, Entry>, entries: seq<Entry>): map<nat, Entry> {
    if entries == [] then log
    else AppendAll(log, entries[..|entries| - 1])[entries[|entries| - 1].index := entries[|entries| - 1]]
  }
}
