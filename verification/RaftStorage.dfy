/** Raft's stable storage in a sorted engine, with a cached last index. */
module RaftStorage {
  import opened Bytes
  import opened Records
  import opened Engine
  import opened RaftTypes

  // "\x00raft/log/", "\x00raft/snapshot/meta", "\x00raft/snapshot/data"
  const LOG_PREFIX: Bytes := [0, 114, 97, 102, 116, 47, 108, 111, 103, 47]
  const SNAPSHOT_META: Bytes :=
    [0, 114, 97, 102, 116, 47, 115, 110, 97, 112, 115, 104, 111, 116, 47, 109, 101, 116, 97]
  const SNAPSHOT_DATA: Bytes :=
    [0, 114, 97, 102, 116, 47, 115, 110, 97, 112, 115, 104, 111, 116, 47, 100, 97, 116, 97]

  /** Decoded engine values; other keys of the engine hold blobs. */
  datatype Stored = EntryVal(e: Entry) | MetaVal(index: nat, term: nat) | Blob(bytes: Bytes)

  type Eng = map<Bytes, Stored>

  function LogKey(i: nat): Bytes {
    LOG_PREFIX + BigEndian(i, 8)
  }

  predicate IsLogKey(k: Bytes) {
    |k| >= |LOG_PREFIX| + 8 && k[..|LOG_PREFIX|] == LOG_PREFIX
  }

  /** The index in a log key. */
  function IndexOf(k: Bytes): nat
    requires IsLogKey(k)
  {
    FromBigEndian(k[|LOG_PREFIX|..|LOG_PREFIX| + 8])
  }

  /** Under the log prefix the engine holds nothing but log entries. */
  ghost predicate LogKeysOnly(eng: Eng) {
    forall k :: k in eng && LOG_PREFIX <= k ==> |k| == |LOG_PREFIX| + 8 && eng[k].EntryVal?
  }

  function SnapshotIndex(eng: Eng): nat {
    if SNAPSHOT_META in eng && eng[SNAPSHOT_META].MetaVal? then eng[SNAPSHOT_META].index else 0
  }

  function SnapshotTerm(eng: Eng): nat {
    if SNAPSHOT_META in eng && eng[SNAPSHOT_META].MetaVal? then eng[SNAPSHOT_META].term else 0
  }

  function SnapshotData(eng: Eng): Bytes {
    if SNAPSHOT_DATA in eng && eng[SNAPSHOT_DATA].Blob? then eng[SNAPSHOT_DATA].bytes else []
  }

  ghost function LogOf(eng: Eng): map<nat, Entry> {
    map i: nat | i in Indices(eng) && eng[LogKey(i)].EntryVal? :: eng[LogKey(i)].e
  }

  ghost function Indices(eng: Eng): (s: set<nat>)
    ensures forall i: nat :: i in s <==> i < TWO64 && LogKey(i) in eng
  {
    IndicesFinite(eng);
    set k | k in eng && IsLogKey(k) && |k| == |LOG_PREFIX| + 8 :: IndexOf(k)
  }

  lemma {:induction false} LogOfIff(eng: Eng)
    ensures forall i: nat :: i in LogOf(eng) <==> i < TWO64 && LogKey(i) in eng && eng[LogKey(i)].EntryVal?
    ensures forall i: nat :: i in LogOf(eng) ==> LogOf(eng)[i] == eng[LogKey(i)].e
  {
    hide LogKey;
    hide Indices;
  }

  ghost function View(eng: Eng): Storage {
    Storage(LogOf(eng), Snapshot(SnapshotIndex(eng), SnapshotTerm(eng), SnapshotData(eng)))
  }

  lemma {:induction false} IndicesFinite(eng: Eng)
    ensures var s := set k | k in eng && IsLogKey(k) && |k| == |LOG_PREFIX| + 8 :: IndexOf(k);
            forall i: nat :: i in s <==> i < TWO64 && LogKey(i) in eng
  {
    hide BigEndian;
    hide FromBigEndian;
    var s := set k | k in eng && IsLogKey(k) && |k| == |LOG_PREFIX| + 8 :: IndexOf(k);
    forall i: nat | i < TWO64 && LogKey(i) in eng ensures i in s {
      LogKeyIndex(i);
    }
    forall i | i in s ensures i < TWO64 && LogKey(i) in eng {
      var k :| k in eng && IsLogKey(k) && |k| == |LOG_PREFIX| + 8 && IndexOf(k) == i;
      KeyOfIndex(k);
    }
  }

  /** Log keys and indices determine each other. */
  lemma {:induction false} LogKeyIndex(i: nat)
    requires i < TWO64
    ensures IsLogKey(LogKey(i)) && |LogKey(i)| == |LOG_PREFIX| + 8 && IndexOf(LogKey(i)) == i
  {
    hide BigEndian;
    hide FromBigEndian;
    Pow256Values();
    BigEndianRoundTrip(i, 8);
    assert LogKey(i)[|LOG_PREFIX|..|LOG_PREFIX| + 8] == BigEndian(i, 8);
  }

  lemma {:induction false} KeyOfIndex(k: Bytes)
    requires IsLogKey(k) && |k| == |LOG_PREFIX| + 8
    ensures IndexOf(k) < TWO64 && k == LogKey(IndexOf(k))
  {
    hide BigEndian;
    hide FromBigEndian;
    Pow256Values();
    var w := k[|LOG_PREFIX|..|LOG_PREFIX| + 8];
    FromBigEndianRoundTrip(w);
    assert k == k[..|LOG_PREFIX|] + w;
  }

  /** The key of a log entry by example: the prefix, then the index in big-endian order. */
  lemma {:induction false} LogKeyBytes()
    ensures LogKey(5) == [0, 114, 97, 102, 116, 47, 108, 111, 103, 47] + [0, 0, 0, 0, 0, 0, 0, 5]
  {
    BigEndianSmall(5);
  }

  /** Key order is index order. */
  lemma {:induction false} LogKeyOrder(i: nat, j: nat)
    requires i < TWO64 && j < TWO64
    ensures Less(LogKey(i), LogKey(j)) <==> i < j
    ensures LogKey(i) == LogKey(j) <==> i == j
  {
    hide BigEndian;
    hide Less;
    Pow256Values();
    hide IndexOf;
    LessCommonPrefix(LOG_PREFIX, BigEndian(i, 8), BigEndian(j, 8));
    BigEndianOrder(i, j, 8);
    LogKeyIndex(i);
    LogKeyIndex(j);
  }

  lemma {:induction false} NotLogKeys()
    ensures !(LOG_PREFIX <= SNAPSHOT_META) && !(LOG_PREFIX <= SNAPSHOT_DATA)
    ensures SNAPSHOT_META != SNAPSHOT_DATA
  {
    assert LOG_PREFIX[6] != SNAPSHOT_META[6] && LOG_PREFIX[6] != SNAPSHOT_DATA[6];
    assert SNAPSHOT_META[15] != SNAPSHOT_DATA[15];
  }

  /** Everything from the prefix to a log key has the prefix. */
  lemma {:induction false} BetweenLogKeys(i: nat, x: Bytes)
    requires !Less(x, LOG_PREFIX) && !Less(LogKey(i), x)
    ensures LOG_PREFIX <= x
  {
    hide BigEndian;
    hide Less;
    assert LOG_PREFIX + [] == LOG_PREFIX;
    Sandwich(LOG_PREFIX, [], BigEndian(i, 8), x);
  }

  // ----- Cursor over the log keys ---------------------------------------------------

  lemma {:induction false} UnderPrefix(eng: Eng, k: Bytes)
    requires LogKeysOnly(eng) && k in eng && LOG_PREFIX <= k
    ensures IsLogKey(k)
  {
    assert k[..|LOG_PREFIX|] == LOG_PREFIX;
  }

  /** A cursor at `b` that is not on a log key has passed all of them. */
  lemma {:induction false} PastTheLog(eng: Eng, b: Bytes, i: nat)
    requires LogKeysOnly(eng) && !Less(b, LOG_PREFIX) && LogKey(i) in eng && i < TWO64
    requires var c := Ceiling(eng, b); c.Some? ==> !IsLogKey(c.value)
    ensures Less(LogKey(i), b)
  {
    hide Less;
    hide Ceiling;
    hide BigEndian;
    if !Less(LogKey(i), b) {
      var c := Ceiling(eng, b).value;
      AboveStart(b, c, LOG_PREFIX);
      BetweenLogKeys(i, c);
      UnderPrefix(eng, c);
      assert false;
    }
  }

  /** A cursor on a log key stands on the smallest index not yet passed. */
  lemma {:induction false} OnTheLog(eng: Eng, b: Bytes, c: Bytes)
    requires LogKeysOnly(eng) && IsCeiling(eng, b, c) && IsLogKey(c)
    ensures IndexOf(c) < TWO64 && c == LogKey(IndexOf(c)) && eng[c].EntryVal?
    ensures forall i: nat :: i < TWO64 && LogKey(i) in eng && !Less(LogKey(i), b) ==> IndexOf(c) <= i
    ensures forall i: nat :: i < TWO64 && LogKey(i) in eng ==>
              (Less(LogKey(i), c + [0]) <==> Less(LogKey(i), b) || i == IndexOf(c))
  {
    hide Less;
    hide LogKey;
    assert LOG_PREFIX == c[..|LOG_PREFIX|] <= c;
    KeyOfIndex(c);
    forall i: nat | i < TWO64 && LogKey(i) in eng
      ensures !Less(LogKey(i), b) ==> IndexOf(c) <= i
      ensures Less(LogKey(i), c + [0]) <==> Less(LogKey(i), b) || i == IndexOf(c)
    {
      LogKeyOrder(i, IndexOf(c));
      AfterCeiling(eng, b, c, LogKey(i));
    }
  }

  /** `last` is the highest index before `b`, zero without any. */
  ghost predicate LastBefore(eng: Eng, last: nat, b: Bytes) {
    && (forall i: nat :: i < TWO64 && LogKey(i) in eng && Less(LogKey(i), b) ==> i <= last)
    && (last == 0 || (last < TWO64 && LogKey(last) in eng))
  }

  /** The indices before `b` are those of `keys`, all at most `c`. */
  ghost predicate ListedBefore(eng: Eng, keys: set<Bytes>, c: nat, b: Bytes) {
    && (forall i: nat :: i < TWO64 && LogKey(i) in eng ==> (Less(LogKey(i), b) <==> LogKey(i) in keys))
    && (forall k :: k in keys ==> k in eng && IsLogKey(k) && |k| == |LOG_PREFIX| + 8 && IndexOf(k) <= c)
  }

  lemma {:induction false} NothingBefore(eng: Eng, c: nat)
    ensures LastBefore(eng, 0, LOG_PREFIX) && ListedBefore(eng, {}, c, LOG_PREFIX) && !Less(LOG_PREFIX, LOG_PREFIX)
  {
    hide Less;
    hide BigEndian;
    LessIrreflexive(LOG_PREFIX);
    forall i: nat ensures !Less(LogKey(i), LOG_PREFIX) {
      LessCommonPrefix(LOG_PREFIX, BigEndian(i, 8), []);
      assert LOG_PREFIX + [] == LOG_PREFIX;
      NothingBelowEmpty(BigEndian(i, 8));
    }
  }

  lemma {:induction false} NothingBelowEmpty(s: Bytes)
    ensures !Less(s, [])
  {
  }

  lemma {:induction false} LastIs(eng: Eng, last: nat, b: Bytes)
    requires LogKeysOnly(eng) && LastBefore(eng, last, b) && !Less(b, LOG_PREFIX)
    requires var c := Ceiling(eng, b); c.Some? ==> !IsLogKey(c.value)
    ensures View(eng).IsLast(if SnapshotIndex(eng) > last then SnapshotIndex(eng) else last)
  {
    hide Less;
    hide Ceiling;
    hide LogKey;
    hide Indices;
    forall i: nat | i < TWO64 && LogKey(i) in eng ensures i <= last {
      PastTheLog(eng, b, i);
    }
    if last != 0 {
      LogKeyIndex(last);
      PrefixOfLogKey(last);
    }
  }

  lemma {:induction false} PrefixOfLogKey(i: nat)
    ensures LOG_PREFIX <= LogKey(i)
  {
  }

  /** `eng` without the log entries at or below `c`. */
  ghost function Compacted(eng: Eng, c: nat): Eng {
    map k | k in eng && !(IsLogKey(k) && IndexOf(k) <= c) :: eng[k]
  }

  lemma {:induction false} ListedAll(eng: Eng, keys: set<Bytes>, c: nat, b: Bytes)
    requires LogKeysOnly(eng) && ListedBefore(eng, keys, c, b) && !Less(b, LOG_PREFIX)
    requires var n := Ceiling(eng, b); n.Some? ==> !IsLogKey(n.value) || IndexOf(n.value) > c
    ensures eng - keys == Compacted(eng, c)
  {
    hide Less;
    hide Ceiling;
    hide LogKey;
    forall k | k in eng ensures k in keys <==> IsLogKey(k) && IndexOf(k) <= c {
      if IsLogKey(k) {
        assert LOG_PREFIX == k[..|LOG_PREFIX|] <= k;
        KeyOfIndex(k);
        var n := Ceiling(eng, b);
        if n.Some? && IsLogKey(n.value) {
          OnTheLog(eng, b, n.value);
        } else {
          PastTheLog(eng, b, IndexOf(k));
        }
      }
    }
    assert (eng - keys).Keys == Compacted(eng, c).Keys;
  }

  /** What remains after compaction: the entries above `c`, and the same snapshot. */
  lemma {:induction false} CompactedView(eng: Eng, c: nat)
    requires LogKeysOnly(eng)
    ensures LogKeysOnly(Compacted(eng, c))
    ensures View(Compacted(eng, c)) == View(eng).Compact(c)
  {
    hide LogKey;
    hide Indices;
    hide IndexOf;
    var eng' := Compacted(eng, c);
    NotLogKeys();
    forall i: nat | i < TWO64 ensures LogKey(i) in eng' <==> LogKey(i) in eng && i > c {
      LogKeyIndex(i);
    }
    assert SNAPSHOT_META in eng' <==> SNAPSHOT_META in eng;
    assert SNAPSHOT_DATA in eng' <==> SNAPSHOT_DATA in eng;
    assert LogOf(eng').Keys == View(eng).Compact(c).log.Keys;
  }

  // ----- Updates --------------------------------------------------------------------

  lemma {:induction false} PutEntry(eng: Eng, e: Entry)
    requires LogKeysOnly(eng) && e.index < TWO64
    ensures var eng' := eng[LogKey(e.index) := EntryVal(e)];
            LogKeysOnly(eng') && View(eng') == View(eng).(log := View(eng).log[e.index := e])
  {
    hide LogKey;
    hide LogOf;
    hide IndexOf;
    hide IsLogKey;
    var eng' := eng[LogKey(e.index) := EntryVal(e)];
    NotLogKeys();
    LogOfIff(eng);
    LogOfIff(eng');
    LogKeyIndex(e.index);
    PrefixOfLogKey(e.index);
    forall i: nat | i < TWO64 ensures LogKey(i) == LogKey(e.index) <==> i == e.index {
      LogKeyOrder(i, e.index);
    }
    assert LogOf(eng').Keys == LogOf(eng)[e.index := e].Keys;
  }

  lemma {:induction false} PutSnapshot(eng: Eng, snap: Snapshot)
    requires LogKeysOnly(eng)
    ensures var eng' := eng[SNAPSHOT_DATA := Blob(snap.data)][SNAPSHOT_META := MetaVal(snap.index, snap.term)];
            LogKeysOnly(eng') && View(eng') == View(eng).(snap := snap)
  {
    hide LogKey;
    hide Indices;
    NotLogKeys();
    var eng' := eng[SNAPSHOT_DATA := Blob(snap.data)][SNAPSHOT_META := MetaVal(snap.index, snap.term)];
    forall i: nat ensures LogKey(i) != SNAPSHOT_META && LogKey(i) != SNAPSHOT_DATA {
      PrefixOfLogKey(i);
    }
    assert LogOf(eng').Keys == LogOf(eng).Keys;
  }

  // ----- The storage object ---------------------------------------------------------

  class LSMLogStorage {
    var eng: Eng
    var lastIdx: nat
    var lastIdxValid: bool

    /** A valid cache is the true last index. */
    ghost predicate Valid()
      reads this
    {
      LogKeysOnly(eng) && (lastIdxValid ==> View(eng).IsLast(lastIdx))
    }

    constructor (eng: Eng)
      requires LogKeysOnly(eng)
      ensures Valid() && this.eng == eng && !lastIdxValid
    {
      this.eng := eng;
      lastIdx := 0;
      lastIdxValid := false;
    }

    method ScanLastIndex() returns (last: nat)
      requires LogKeysOnly(eng)
      ensures View(eng).IsLast(last)
    {
      hide *;
      last := 0;
      var cur := Ceiling(eng, LOG_PREFIX);
      ghost var b := LOG_PREFIX;
      NothingBefore(eng, 0);
      while cur.Some? && IsLogKey(cur.value)
        invariant cur == Ceiling(eng, b) && !Less(b, LOG_PREFIX) && LastBefore(eng, last, b)
        decreases Remaining(eng, b)
      {
        var k := cur.value;
        CurrentKey(eng, b, k);
        LastStep(eng, last, b, k);
        AboveStart(b, k, LOG_PREFIX);
        Shrinks(eng, b, k);
        var idx := IndexOf(k);
        if idx > last {
          last := idx;
        }
        cur := Ceiling(eng, k + [0]);
        b := k + [0];
      }
      LastIs(eng, last, b);
      if SnapshotIndex(eng) > last {
        last := SnapshotIndex(eng);
      }
    }

    method LastIndex() returns (last: nat)
      requires Valid()
      modifies `lastIdx, `lastIdxValid
      ensures Valid() && View(eng).IsLast(last) && lastIdxValid && lastIdx == last
    {
      if lastIdxValid {
        return lastIdx;
      }
      last := ScanLastIndex();
      lastIdx, lastIdxValid := last, true;
    }

    /** Entries land under their indices, replacing what was there and removing nothing. */
    method AppendEntries(entries: seq<Entry>)
      requires Valid() && forall i :: 0 <= i < |entries| ==> entries[i].index < TWO64
      modifies this
      ensures Valid() && lastIdxValid == old(lastIdxValid)
      ensures View(eng) == old(View(eng)).Append(entries)
    {
      hide LogKeysOnly;
      hide View;
      hide LogKey;
      var i := 0;
      ghost var log0 := View(eng).log;
      while i < |entries|
        invariant 0 <= i <= |entries| && Valid() && lastIdxValid == old(lastIdxValid)
        invariant View(eng) == old(View(eng)).(log := AppendAll(log0, entries[..i]))
      {
        var e := entries[i];
        PutEntry(eng, e);
        assert entries[..i + 1][..i] == entries[..i];
        eng := eng[LogKey(e.index) := EntryVal(e)];
        if lastIdxValid && e.index > lastIdx {
          lastIdx := e.index;
        }
        i := i + 1;
      }
      assert entries[..i] == entries;
    }

    /** The snapshot's anchor becomes the one the log answers for; an empty snapshot is refused. */
    method SaveSnapshot(snap: Snapshot) returns (ok: bool)
      requires Valid()
      modifies this
      ensures Valid() && ok == !snap.IsEmpty()
      ensures !ok ==> eng == old(eng)
      ensures ok ==> View(eng) == old(View(eng)).(snap := snap)
    {
      if snap.IsEmpty() {
        return false;
      }
      PutSnapshot(eng, snap);
      eng := eng[SNAPSHOT_DATA := Blob(snap.data)];
      eng := eng[SNAPSHOT_META := MetaVal(snap.index, snap.term)];
      lastIdxValid := false;
      return true;
    }

    /** Removes exactly the entries at or below `c`. */
    method Compact(c: nat)
      requires Valid()
      modifies this
      ensures Valid()
      ensures eng == if c == 0 then old(eng) else Compacted(old(eng), c)
      ensures c > 0 ==> View(eng) == old(View(eng)).Compact(c)
    {
      hide *;
      if c == 0 {
        return;
      }
      ghost var eng0 := eng;
      ValidLog();
      lastIdxValid := false;
      var toDelete: seq<Bytes> := [];
      ghost var keys: set<Bytes> := {};
      var cur := Ceiling(eng, LOG_PREFIX);
      ghost var b := LOG_PREFIX;
      NothingBefore(eng, c);
      while cur.Some? && IsLogKey(cur.value) && IndexOf(cur.value) <= c
        invariant eng == eng0 && !lastIdxValid && LogKeysOnly(eng)
        invariant cur == Ceiling(eng, b) && !Less(b, LOG_PREFIX) && ListedBefore(eng, keys, c, b)
        invariant keys == set x | x in toDelete
        decreases Remaining(eng, b)
      {
        var k := cur.value;
        CurrentKey(eng, b, k);
        ListStep(eng, keys, c, b, k);
        AboveStart(b, k, LOG_PREFIX);
        Shrinks(eng, b, k);
        toDelete := toDelete + [k];
        keys := keys + {k};
        cur := Ceiling(eng, k + [0]);
        b := k + [0];
      }
      ListedAll(eng, keys, c, b);
      CompactedView(eng, c);
      var i := 0;
      while i < |toDelete|
        invariant 0 <= i <= |toDelete| && !lastIdxValid
        invariant eng == eng0 - set x | x in toDelete[..i]
      {
        assert toDelete[..i + 1] == toDelete[..i] + [toDelete[i]];
        eng := eng - {toDelete[i]};
        i := i + 1;
      }
      assert toDelete[..i] == toDelete;
      CompactKeeps();
    }

    lemma {:induction false} ValidLog()
      requires Valid()
      ensures LogKeysOnly(eng)
    {
    }

    lemma {:induction false} CompactKeeps()
      requires LogKeysOnly(eng) && !lastIdxValid
      ensures Valid()
    {
    }
  }

  lemma {:induction false} CurrentKey(eng: Eng, b: Bytes, k: Bytes)
    requires Ceiling(eng, b) == Some(k)
    ensures IsCeiling(eng, b, k) && k in eng && !Less(k, b)
  {
    hide Less;
  }

  lemma {:induction false} LastStep(eng: Eng, last: nat, b: Bytes, k: Bytes)
    requires LogKeysOnly(eng) && LastBefore(eng, last, b) && IsCeiling(eng, b, k) && IsLogKey(k)
    ensures LastBefore(eng, if IndexOf(k) > last then IndexOf(k) else last, k + [0])
  {
    hide Less;
    hide LogKey;
    hide IndexOf;
    OnTheLog(eng, b, k);
  }

  lemma {:induction false} ListStep(eng: Eng, keys: set<Bytes>, c: nat, b: Bytes, k: Bytes)
    requires LogKeysOnly(eng) && ListedBefore(eng, keys, c, b) && IsCeiling(eng, b, k) && IsLogKey(k) && IndexOf(k) <= c
    ensures ListedBefore(eng, keys + {k}, c, k + [0])
  {
    hide Less;
    hide LogKey;
    hide IndexOf;
    OnTheLog(eng, b, k);
    LogKeyIndex(IndexOf(k));
    forall i: nat | i < TWO64 && LogKey(i) in eng ensures LogKey(i) == k <==> i == IndexOf(k) {
      LogKeyOrder(i, IndexOf(k));
    }
  }
}
