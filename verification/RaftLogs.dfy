/** The Raft log: persisted entries, entries waiting to be persisted, a pending snapshot, and the
    commit and apply positions. */
module RaftLogs {
  import opened Records
  import opened RaftTypes

  /** Entries with consecutive indices from `first` on. */
  ghost predicate Contiguous(entries: seq<Entry>, first: nat) {
    forall j :: 0 <= j < |entries| ==> entries[j].index == first + j
  }

  datatype Log = Log(storage: Storage, unstable: seq<Entry>, committed: nat, applied: nat, pending: Snapshot)
  {
    function LastIndex(): nat {
      if |unstable| > 0 then unstable[|unstable| - 1].index
      else if pending.index > storage.LastIndex() then pending.index
      else storage.LastIndex()
    }

    /** The term at an index: unstable entries first, then the pending snapshot, then storage. */
    function Term(i: nat): Option<nat> {
      if i == 0 then Some(0)
      else if |unstable| > 0 && unstable[0].index <= i <= unstable[|unstable| - 1].index &&
              i - unstable[0].index < |unstable| then
        Some(unstable[i - unstable[0].index].term)
      else if !pending.IsEmpty() && i == pending.index then Some(pending.term)
      else storage.Term(i)
    }

    /** An index among the unstable entries. */
    predicate Unstable(i: nat) {
      unstable != [] && unstable[0].index <= i <= unstable[|unstable| - 1].index
    }

    function LastTerm(): nat {
      var t := Term(LastIndex());
      if t.Some? then t.value else 0
    }

    /** Whether a log ending at (index, term) is at least as up to date as this one. */
    predicate IsUpToDate(index: nat, term: nat) {
      if term != LastTerm() then term > LastTerm() else index >= LastIndex()
    }

    /** The entries in [lo, hi): persisted ones as far as storage reaches, then unstable ones. */
    function Entries(lo: nat, hi: nat): seq<Entry> {
      if lo >= hi then []
      else
        var last := storage.LastIndex();
        if lo > last then UnstableBetween(lo, hi)
        else
          var stable := storage.Entries(lo, if hi > last + 1 then last + 1 else hi);
          if stable.None? then [] else stable.value + UnstableBetween(last + 1, hi)
    }

    function UnstableBetween(lo: nat, hi: nat): seq<Entry> {
      if lo >= hi || unstable == [] || lo > unstable[|unstable| - 1].index || hi <= unstable[0].index then []
      else
        var from := if lo < unstable[0].index then 0 else lo - unstable[0].index;
        var to := if hi - unstable[0].index > |unstable| then |unstable| else hi - unstable[0].index;
        if from <= to then unstable[from..to] else []
    }

    /** Committed entries not yet applied. */
    function NextEntries(): seq<Entry> {
      if committed >= applied + 1 then Entries(applied + 1, committed + 1) else []
    }

    /** The unstable entries are consecutive, from an index above zero on. */
    ghost predicate Tidy() {
      unstable == [] || (unstable[0].index > 0 && Contiguous(unstable, unstable[0].index))
    }

    // ----- Updates ------------------------------------------------------------------

    /** Unstable entries from the first new index on give way to the new ones. */
    function Append(entries: seq<Entry>): Log {
      if entries == [] then this
      else
        var first := entries[0].index;
        var kept :=
          if unstable == [] || first > unstable[|unstable| - 1].index then unstable
          else if first < unstable[0].index then []
          else if first - unstable[0].index <= |unstable| then unstable[..first - unstable[0].index]
          else unstable;
        this.(unstable := kept + entries)
    }

    function CommitTo(i: nat): Log {
      if i > committed then this.(committed := i) else this
    }

    function AppliedTo(i: nat): Log
      requires i <= committed
    {
      if i > applied then this.(applied := i) else this
    }

    /** A snapshot beyond what is committed replaces everything it covers. */
    function Restore(snap: Snapshot): Log {
      if snap.index <= committed then this
      else this.(pending := snap, committed := snap.index,
                 applied := if applied < snap.index then snap.index else applied,
                 unstable := DropCovered(unstable, snap.index))
    }

    function StableTo(index: nat, term: nat): Log {
      if unstable == [] || index < unstable[0].index || index - unstable[0].index >= |unstable| ||
         unstable[index - unstable[0].index].term != term then this
      else this.(unstable := unstable[index - unstable[0].index + 1..])
    }
  }

  /** Without the leading entries at or below `index`. */
  function DropCovered(entries: seq<Entry>, index: nat): seq<Entry> {
    if entries != [] && entries[0].index <= index then DropCovered(entries[1..], index) else entries
  }

  /** Appended entries answer from their first index on, and everything below it answers as
      before. */
  lemma {:induction false} AppendAnswers(l: Log, entries: seq<Entry>)
    requires l.Tidy() && Follow(l, entries)
    ensures var l' := l.Append(entries);
            && l'.Tidy() && l'.LastIndex() == entries[0].index + |entries| - 1
            && (forall i: nat :: i < entries[0].index ==> l'.Term(i) == l.Term(i))
            && (forall j :: 0 <= j < |entries| ==> l'.Term(entries[0].index + j) == Some(entries[j].term))
  {
    hide Log.Term;
    hide Log.LastIndex;
    hide Log.Append;
    AppendEnds(l, entries);
    forall i: nat | i < entries[0].index ensures l.Append(entries).Term(i) == l.Term(i) {
      TermBelow(l, entries, i);
    }
    forall j | 0 <= j < |entries| ensures l.Append(entries).Term(entries[0].index + j) == Some(entries[j].term) {
      TermAppended(l, entries, j);
    }
  }

  /** How many unstable entries stay in front of the appended ones. */
  lemma {:induction false} Appended(l: Log, entries: seq<Entry>) returns (keep: nat)
    requires l.Tidy() && Follow(l, entries)
    ensures keep <= |l.unstable| && l.Append(entries) == l.(unstable := l.unstable[..keep] + entries)
    ensures keep > 0 ==> l.unstable[0].index + keep == entries[0].index
    ensures keep == 0 && l.unstable != [] ==> entries[0].index <= l.unstable[0].index
  {
    var first := entries[0].index;
    if l.unstable == [] || first < l.unstable[0].index {
      keep := 0;
      assert l.unstable[..0] + entries == entries;
    } else {
      keep := first - l.unstable[0].index;
      assert l.unstable[|l.unstable| - 1].index == l.unstable[0].index + |l.unstable| - 1;
      assert keep == |l.unstable| ==> l.unstable[..keep] == l.unstable;
    }
  }

  lemma {:induction false} AppendEnds(l: Log, entries: seq<Entry>)
    requires l.Tidy() && Follow(l, entries)
    ensures l.Append(entries).Tidy() && l.Append(entries).LastIndex() == entries[0].index + |entries| - 1
  {
    hide Log.Append;
    hide Storage.LastIndex;
    var keep := Appended(l, entries);
    var u := l.unstable[..keep] + entries;
    assert forall j :: 0 <= j < |u| ==> u[j] == if j < keep then l.unstable[j] else entries[j - keep];
  }

  lemma {:induction false} TermBelow(l: Log, entries: seq<Entry>, i: nat)
    requires l.Tidy() && Follow(l, entries) && i < entries[0].index
    ensures l.Append(entries).Term(i) == l.Term(i)
  {
    hide Log.Append;
    hide Storage.Term;
    AppendEnds(l, entries);
    var keep := Appended(l, entries);
    var u := l.unstable[..keep] + entries;
    if keep > 0 {
      assert u[0] == l.unstable[0] && l.unstable[|l.unstable| - 1].index == l.unstable[0].index + |l.unstable| - 1;
      assert l.unstable[0].index <= i ==> u[i - u[0].index] == l.unstable[i - l.unstable[0].index];
    } else {
      assert u == entries;
    }
  }

  lemma {:induction false} TermAppended(l: Log, entries: seq<Entry>, j: nat)
    requires l.Tidy() && Follow(l, entries) && j < |entries|
    ensures l.Append(entries).Term(entries[0].index + j) == Some(entries[j].term)
  {
    hide Log.Append;
    hide Storage.Term;
    AppendEnds(l, entries);
    var keep := Appended(l, entries);
    var u := l.unstable[..keep] + entries;
    assert u[keep + j] == entries[j] && u[|u| - 1] == entries[|entries| - 1];
    assert u[0].index + keep == entries[0].index;
  }

  /** Consecutive entries that start no later than right after the unstable ones. */
  ghost predicate Follow(l: Log, entries: seq<Entry>) {
    && entries != [] && entries[0].index > 0 && Contiguous(entries, entries[0].index)
    && (l.unstable != [] ==> entries[0].index <= l.unstable[|l.unstable| - 1].index + 1)
  }

  /** Persisting the unstable entries and marking them stable changes no answer. */
  lemma {:induction false} PersistKeepsTerms(l: Log, i: nat)
    requires l.Tidy() && l.unstable != [] && l.pending.IsEmpty() && l.storage.snap.index < l.unstable[0].index
    ensures var last := l.unstable[|l.unstable| - 1];
            var l' := l.(storage := l.storage.Append(l.unstable)).StableTo(last.index, last.term);
            l'.unstable == [] && l'.Term(i) == l.Term(i)
  {
    hide AppendAll;
    hide Storage.LastIndex;
    var first := l.unstable[0].index;
    AppendAllAt(l.storage.log, l.unstable, first);
    assert l.unstable[|l.unstable| - 1].index == first + |l.unstable| - 1;
  }

  /** Installing a pending snapshot in storage changes no answer from its index on. */
  lemma {:induction false} InstallKeepsAnswers(l: Log, i: nat)
    requires l.unstable == [] && !l.pending.IsEmpty() && l.storage.snap.index < l.pending.index <= i
    ensures var l' := l.(storage := l.storage.(snap := l.pending).Compact(l.pending.index), pending := NO_SNAPSHOT);
            l'.Term(i) == l.Term(i) && l'.LastIndex() == l.LastIndex()
  {
    var s' := l.storage.(snap := l.pending).Compact(l.pending.index);
    assert s'.IsLast(l.LastIndex());
    assert s'.LastIndex() == l.LastIndex();
  }

  lemma {:induction false} AppendAllAt(log: map<nat, Entry>, entries: seq<Entry>, first: nat)
    requires Contiguous(entries, first)
    ensures forall i: nat :: i in AppendAll(log, entries) <==> i in log || first <= i < first + |entries|
    ensures forall i: nat :: i in AppendAll(log, entries) ==>
              AppendAll(log, entries)[i] == if first <= i < first + |entries| then entries[i - first] else log[i]
  {
    if entries != [] {
      AppendAllAt(log, entries[..|entries| - 1], first);
    }
  }

  // ----- The log object -------------------------------------------------------------

  class RaftLog {
    var storage: Storage
    var unstable: seq<Entry>
    var committed: nat
    var applied: nat
    var pendingSnapshot: Snapshot

    function Value(): Log
      reads this
    {
      Log(storage, unstable, committed, applied, pendingSnapshot)
    }

    constructor (l: Log)
      ensures Value() == l
    {
      storage, unstable, committed, applied, pendingSnapshot := l.storage, l.unstable, l.committed, l.applied, l.pending;
    }

    method Restore(snap: Snapshot) returns (restored: bool)
      modifies this
      ensures Value() == old(Value()).Restore(snap) && restored == (snap.index > old(committed))
    {
      if snap.index <= committed {
        return false;
      }
      pendingSnapshot := snap;
      committed := snap.index;
      if applied < snap.index {
        applied := snap.index;
      }
      var i := 0;
      while i < |unstable| && unstable[i].index <= snap.index
        invariant 0 <= i <= |unstable| && DropCovered(unstable[i..], snap.index) == DropCovered(unstable, snap.index)
      {
        assert unstable[i..][1..] == unstable[i + 1..];
        i := i + 1;
      }
      unstable := unstable[i..];
      return true;
    }

    method Append(entries: seq<Entry>)
      modifies this
      ensures Value() == old(Value()).Append(entries)
      ensures old(Value()).Tidy() && Follow(old(Value()), entries) ==>
                && Value().Tidy() && Value().LastIndex() == entries[0].index + |entries| - 1
                && (forall i: nat :: i < entries[0].index ==> Value().Term(i) == old(Value()).Term(i))
                && (forall j :: 0 <= j < |entries| ==> Value().Term(entries[0].index + j) == Some(entries[j].term))
    {
      hide Log.Term;
      hide Log.LastIndex;
      ghost var l := Value();
      if l.Tidy() && Follow(l, entries) {
        AppendAnswers(l, entries);
      }
      if |entries| == 0 {
        return;
      }
      var first := entries[0].index;
      if |unstable| > 0 && first <= unstable[|unstable| - 1].index {
        var cutAt := first - unstable[0].index;
        if cutAt < 0 {
          cutAt := 0;
        }
        if cutAt <= |unstable| {
          unstable := unstable[..cutAt];
        }
      }
      unstable := unstable + entries;
    }

    method CommitTo(index: nat)
      modifies this
      ensures Value() == old(Value()).(committed := committed)
      ensures old(committed) <= committed && index <= committed && committed in {old(committed), index}
    {
      if index > committed {
        committed := index;
      }
    }

    method AppliedTo(index: nat)
      requires index <= committed
      modifies this
      ensures Value() == old(Value()).(applied := applied)
      ensures old(applied) <= applied && index <= applied && applied in {old(applied), index}
      ensures old(applied) <= committed ==> applied <= committed
    {
      if index > applied {
        applied := index;
      }
    }

    method StableTo(index: nat, term: nat)
      modifies this
      ensures Value() == old(Value()).StableTo(index, term)
      ensures old(Value()).Tidy() && old(Value()).Term(index) == Some(term) && old(Value()).Unstable(index) ==>
                forall e :: e in unstable <==> e in old(unstable) && e.index > index
    {
      hide Storage.LastIndex;
      if |unstable| == 0 {
        return;
      }
      var first := unstable[0].index;
      if index < first || index - first >= |unstable| {
        return;
      }
      if unstable[index - first].term != term {
        return;
      }
      unstable := unstable[index - first + 1..];
    }
  }
}
