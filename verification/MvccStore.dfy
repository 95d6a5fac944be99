/** The multi-version operations as updates of an engine. */
module MvccStore {
  import opened Bytes
  import opened Records
  import opened Hlc
  import opened MvccKey
  import opened Engine
  import opened Mvcc
  import opened MvccScan
  import opened Histories
  import opened MvccWrite
  import opened MvccGc

  datatype TxnStatus = Committed | Aborted

  /** The store is well formed and `h` is the history of `key` in it. */
  ghost predicate Holds(m: Store, keys: set<Bytes>, key: Bytes, h: History) {
    WellFormed(m, keys) && key in keys && Represents(m, key, h)
  }

  /** The result carries out an accepted write, or reports a refused one and changes nothing. */
  ghost predicate Follows(m: Store, keys: set<Bytes>, key: Bytes, w: Outcome, r: WriteResult) {
    match w
    case Accepted(h') => Refines(m, keys, key, h', r)
    case Refused(e) => r == WriteResult(m, Some(e))
  }

  lemma {:induction false} PutMeans(m: Store, keys: set<Bytes>, k: Bytes, h: History, ts: Timestamp,
                                    live: Option<Bytes>, txn: Option<TxnID>)
    ensures Holds(m, keys, k, h) && IsStamp(ts) && (h.HeldBy(txn) ==> ts == h.intent.value.ts) ==>
              Follows(m, keys, k, Write(h, k, ts, live, txn), WriteVersion(m, k, ts, live, txn))
    ensures Holds(m, keys, k, h) && live.Some? ==> Refines(m, keys, k, h, WriteInline(m, k, live.value))
    ensures Holds(m, keys, k, h) && IsStamp(ts) && (h.intent.Some? ==> ts == h.intent.value.ts) &&
            WriteVersion(m, k, ts, live, txn).error.None? ==>
              ReadsBack(WriteVersion(m, k, ts, live, txn).store, k, ts, live, txn)
  {
    hide Get;
    hide Answer;
    hide Holds;
    hide Follows;
    hide Refines;
    hide Write;
    hide WriteVersion;
    hide WriteInline;
    if Holds(m, keys, k, h) {
      HoldsParts(m, keys, k, h);
      if IsStamp(ts) && (h.HeldBy(txn) ==> ts == h.intent.value.ts) {
        WriteRefines(m, keys, k, h, ts, live, txn);
        FollowsIs(m, keys, k, Write(h, k, ts, live, txn), WriteVersion(m, k, ts, live, txn));
      }
      if live.Some? {
        InlineRefines(m, keys, k, h, live.value);
      }
      if IsStamp(ts) && (h.intent.Some? ==> ts == h.intent.value.ts) &&
         WriteVersion(m, k, ts, live, txn).error.None? {
        WriterReads(m, keys, k, h, ts, live, txn);
      }
    }
  }

  /** The writer reads back what it wrote at `t`, from there on. */
  ghost predicate ReadsBack(m: Store, k: Bytes, t: Timestamp, live: Option<Bytes>, txn: Option<TxnID>) {
    forall ts :: IsStamp(ts) && t.LessEq(ts) ==>
      Get(m, k, ts, ReadOptions(txn, ZERO_TS)) == if live.Some? then Value(live.value) else Failed(NotFound)
  }

  /** The metadata records the sizes of the key and of the value last written. */
  ghost predicate Sized(m: Store, key: Bytes, size: nat) {
    && EncodeMeta(key) in m && m[EncodeMeta(key)].MetaVal?
    && m[EncodeMeta(key)].meta.keyBytes == |key| && m[EncodeMeta(key)].meta.valBytes == size
  }

  lemma {:induction false} WriterReads(m: Store, keys: set<Bytes>, k: Bytes, h: History, t: Timestamp,
                                       live: Option<Bytes>, txn: Option<TxnID>)
    requires WellFormed(m, keys) && k in keys && Represents(m, k, h) && IsStamp(t)
    requires h.intent.Some? ==> h.intent.value.ts == t
    requires WriteVersion(m, k, t, live, txn).error.None?
    ensures ReadsBack(WriteVersion(m, k, t, live, txn).store, k, t, live, txn)
  {
    hide Get;
    hide WriteVersion;
    hide WellFormed;
    hide Represents;
    forall ts | IsStamp(ts) && t.LessEq(ts)
      ensures Get(WriteVersion(m, k, t, live, txn).store, k, ts, ReadOptions(txn, ZERO_TS)) ==
              if live.Some? then Value(live.value) else Failed(NotFound)
    {
      WriteReadBack(m, keys, k, h, t, live, txn, ts);
    }
  }

  lemma {:induction false} HoldsParts(m: Store, keys: set<Bytes>, k: Bytes, h: History)
    requires Holds(m, keys, k, h)
    ensures WellFormed(m, keys) && k in keys && Represents(m, k, h)
  {
    hide WellFormed;
    hide Represents;
  }

  lemma {:induction false} FollowsIs(m: Store, keys: set<Bytes>, k: Bytes, w: Outcome, r: WriteResult)
    requires match w
             case Accepted(h') => Refines(m, keys, k, h', r)
             case Refused(e) => r == WriteResult(m, Some(e))
    ensures Follows(m, keys, k, w, r)
  {
    hide Refines;
  }

  lemma {:induction false} PushMeans(m: Store, keys: set<Bytes>, k: Bytes, h: History, txn: TxnID, ts: Timestamp)
    ensures Holds(m, keys, k, h) && IsStamp(ts) ==>
              Refines(m, keys, k, Push(h, txn, ts), PushIntent(m, k, txn, ts))
  {
    hide *;
    if Holds(m, keys, k, h) && IsStamp(ts) {
      HoldsParts(m, keys, k, h);
      PushRefines(m, keys, k, h, txn, ts);
    }
  }

  lemma {:induction false} CommitMeans(m: Store, keys: set<Bytes>, k: Bytes, h: History, txn: TxnID, ts: Timestamp)
    ensures Holds(m, keys, k, h) && IsStamp(ts) ==>
              (Refines(m, keys, k, Commit(h, txn, ts), CommitIntent(m, k, txn, ts)) <==>
               (h.HeldBy(Some(txn)) ==> forall u :: u in h.committed ==> u.LessEq(ts)))
  {
    hide *;
    if Holds(m, keys, k, h) && IsStamp(ts) {
      HoldsParts(m, keys, k, h);
      CommitRefines(m, keys, k, h, txn, ts);
    }
  }

  lemma {:induction false} AbortMeans(m: Store, keys: set<Bytes>, k: Bytes, h: History, txn: TxnID)
    ensures Holds(m, keys, k, h) ==> Refines(m, keys, k, Abort(h, txn), AbortIntent(m, k, txn))
  {
    hide *;
    if Holds(m, keys, k, h) {
      HoldsParts(m, keys, k, h);
      AbortRefines(m, keys, k, h, txn);
    }
  }

  /** A sorted engine holding metadata and versions. */
  class MVCC {
    var m: Store

    /** A versioned put carries out the write of whatever history the store represents, or refuses
        it for the same reason; at timestamp zero it leaves the history alone. */
    method Put(key: Bytes, ts: Timestamp, value: Bytes, txn: Option<TxnID>, ghost keys: set<Bytes>, ghost h: History)
      returns (e: Option<WriteError>)
      modifies this
      ensures WriteResult(m, e) ==
              if ts.IsEmpty() then WriteInline(old(m), key, value)
              else WriteVersion(old(m), key, ts, Some(value), txn)
      ensures Holds(old(m), keys, key, h) && ts.IsEmpty() ==> Refines(old(m), keys, key, h, WriteResult(m, e))
      ensures Holds(old(m), keys, key, h) && IsStamp(ts) && (h.HeldBy(txn) ==> ts == h.intent.value.ts) ==>
                Follows(old(m), keys, key, Write(h, key, ts, Some(value), txn), WriteResult(m, e))
      ensures Holds(old(m), keys, key, h) && IsStamp(ts) && (h.intent.Some? ==> ts == h.intent.value.ts) && e.None? ==>
                ReadsBack(m, key, ts, Some(value), txn)
      ensures e.None? ==> Sized(m, key, |value|)
    {
      hide ReadsBack;
      hide Encode;
      hide EncodeMeta;
      hide Holds;
      hide Refines;
      hide Follows;
      PutMeans(m, keys, key, h, ts, Some(value), txn);
      var metaKey := EncodeMeta(key);
      var meta := NO_META;
      if metaKey in m {
        if m[metaKey].Raw? {
          return Some(BadMetadata);
        }
        meta := m[metaKey].meta;
      }
      if ts.IsEmpty() {
        meta := meta.(inline := Some(value), keyBytes := |key|, valBytes := |value|);
        m := m[metaKey := EncodeMetadata(meta)];
        return None;
      }
      if meta.HasIntent() {
        if !OwnIntent(meta, txn) {
          return Some(IntentHeld(key, meta.txn.value, meta.txnTs));
        }
      } else if !meta.ts.IsEmpty() && ts.LessEq(meta.ts) {
        return Some(TooOld(key, ts, meta.ts));
      }
      m := m[Encode(key, ts) := Raw(LiveBytes(value))];
      meta := meta.(ts := ts, deleted := false, inline := None, keyBytes := |key|, valBytes := |value|);
      if txn.Some? {
        meta := meta.(txn := txn, txnTs := ts);
      } else {
        meta := meta.(txn := None, txnTs := ZERO_TS);
      }
      m := m[metaKey := EncodeMetadata(meta)];
      return None;
    }

    /** A deletion carries out the write of a tombstone, or refuses it for the same reason. */
    method Delete(key: Bytes, ts: Timestamp, txn: Option<TxnID>, ghost keys: set<Bytes>, ghost h: History)
      returns (e: Option<WriteError>)
      modifies this
      ensures WriteResult(m, e) == WriteVersion(old(m), key, ts, None, txn)
      ensures Holds(old(m), keys, key, h) && IsStamp(ts) && (h.HeldBy(txn) ==> ts == h.intent.value.ts) ==>
                Follows(old(m), keys, key, Write(h, key, ts, None, txn), WriteResult(m, e))
      ensures Holds(old(m), keys, key, h) && IsStamp(ts) && (h.intent.Some? ==> ts == h.intent.value.ts) && e.None? ==>
                ReadsBack(m, key, ts, None, txn)
      ensures e.None? ==> Sized(m, key, 0)
    {
      hide ReadsBack;
      hide Encode;
      hide EncodeMeta;
      hide Holds;
      hide Refines;
      hide Follows;
      PutMeans(m, keys, key, h, ts, None, txn);
      var metaKey := EncodeMeta(key);
      var meta := NO_META;
      if metaKey in m {
        if m[metaKey].Raw? {
          return Some(BadMetadata);
        }
        meta := m[metaKey].meta;
      }
      if meta.HasIntent() {
        if !OwnIntent(meta, txn) {
          return Some(IntentHeld(key, meta.txn.value, meta.txnTs));
        }
      } else if !meta.ts.IsEmpty() && ts.LessEq(meta.ts) {
        return Some(TooOld(key, ts, meta.ts));
      }
      m := m[Encode(key, ts) := Raw(TOMBSTONE_BYTES)];
      meta := meta.(ts := ts, deleted := true, keyBytes := |key|, valBytes := 0);
      if txn.Some? {
        meta := meta.(txn := txn, txnTs := ts);
      } else {
        meta := meta.(txn := None, txnTs := ZERO_TS);
      }
      m := m[metaKey := EncodeMetadata(meta)];
      return None;
    }

    /** A push moves the holder's intent forward and nothing else. */
    method Push(key: Bytes, txn: TxnID, ts: Timestamp, ghost keys: set<Bytes>, ghost h: History)
      returns (e: Option<WriteError>)
      modifies this
      ensures WriteResult(m, e) == PushIntent(old(m), key, txn, ts)
      ensures Holds(old(m), keys, key, h) && IsStamp(ts) ==>
                Refines(old(m), keys, key, Histories.Push(h, txn, ts), WriteResult(m, e))
    {
      hide Encode;
      hide EncodeMeta;
      hide Holds;
      hide Refines;
      hide Follows;
      PushMeans(m, keys, key, h, txn, ts);
      var metaKey := EncodeMeta(key);
      if metaKey !in m {
        return None;
      }
      if m[metaKey].Raw? {
        return Some(BadMetadata);
      }
      var meta := m[metaKey].meta;
      if !meta.HasIntent() || meta.txn != Some(txn) {
        return None;
      }
      if ts.LessEq(meta.txnTs) {
        return None;
      }
      var oldKey := Encode(key, meta.txnTs);
      if oldKey !in m {
        return Some(MissingIntent);
      }
      m := m[Encode(key, ts) := m[oldKey]];
      m := m - {oldKey};
      meta := meta.(ts := ts, txnTs := ts);
      m := m[metaKey := EncodeMetadata(meta)];
      return None;
    }

    /** Resolving carries out the commit, at a timestamp not below any committed version, or the
        abort. */
    method Resolve(key: Bytes, txn: TxnID, status: TxnStatus, commitTs: Timestamp,
                   ghost keys: set<Bytes>, ghost h: History)
      returns (e: Option<WriteError>)
      modifies this
      ensures WriteResult(m, e) ==
              if status == Committed then CommitIntent(old(m), key, txn, commitTs) else AbortIntent(old(m), key, txn)
      ensures Holds(old(m), keys, key, h) && status == Committed && IsStamp(commitTs) ==>
                (Refines(old(m), keys, key, Commit(h, txn, commitTs), WriteResult(m, e)) <==>
                 (h.HeldBy(Some(txn)) ==> forall u :: u in h.committed ==> u.LessEq(commitTs)))
      ensures Holds(old(m), keys, key, h) && status == Aborted ==>
                Refines(old(m), keys, key, Abort(h, txn), WriteResult(m, e))
    {
      hide Encode;
      hide EncodeMeta;
      hide Holds;
      hide Refines;
      hide Follows;
      CommitMeans(m, keys, key, h, txn, commitTs);
      AbortMeans(m, keys, key, h, txn);
      hide FindPrevious;
      var metaKey := EncodeMeta(key);
      if metaKey !in m {
        return None;
      }
      if m[metaKey].Raw? {
        return Some(BadMetadata);
      }
      var meta := m[metaKey].meta;
      if !meta.HasIntent() || meta.txn != Some(txn) {
        return None;
      }
      match status
      case Committed => e := ResolveCommit(key, meta, commitTs, keys, h);
      case Aborted => e := ResolveAbort(key, meta.txnTs, keys, h);
    }

    /** The intent becomes a committed version at the commit timestamp. */
    method ResolveCommit(key: Bytes, meta: Meta, commitTs: Timestamp, ghost keys: set<Bytes>, ghost h: History)
      returns (e: Option<WriteError>)
      requires EncodeMeta(key) in m && m[EncodeMeta(key)] == MetaVal(meta) && meta.HasIntent()
      modifies this
      ensures WriteResult(m, e) == CommitIntent(old(m), key, meta.txn.value, commitTs)
      ensures Holds(old(m), keys, key, h) && IsStamp(commitTs) ==>
                (Refines(old(m), keys, key, Commit(h, meta.txn.value, commitTs), WriteResult(m, e)) <==>
                 (h.HeldBy(meta.txn) ==> forall u :: u in h.committed ==> u.LessEq(commitTs)))
    {
      hide Encode;
      hide EncodeMeta;
      hide Holds;
      hide Refines;
      hide Follows;
      CommitMeans(m, keys, key, h, meta.txn.value, commitTs);
      if meta.txnTs != commitTs {
        var oldKey := Encode(key, meta.txnTs);
        if oldKey !in m {
          return Some(MissingIntent);
        }
        m := m[Encode(key, commitTs) := m[oldKey]];
        m := m - {oldKey};
      }
      var cleared := meta.(txn := None, txnTs := ZERO_TS, ts := commitTs);
      m := m[EncodeMeta(key) := EncodeMetadata(cleared)];
      return None;
    }

    /** The intent goes and the newest committed version is named again. */
    method ResolveAbort(key: Bytes, intentTs: Timestamp, ghost keys: set<Bytes>, ghost h: History)
      returns (e: Option<WriteError>)
      requires EncodeMeta(key) in m && m[EncodeMeta(key)].MetaVal? && m[EncodeMeta(key)].meta.HasIntent()
      requires m[EncodeMeta(key)].meta.txnTs == intentTs
      modifies this
      ensures WriteResult(m, e) == AbortIntent(old(m), key, old(m[EncodeMeta(key)].meta.txn.value))
      ensures Holds(old(m), keys, key, h) ==>
                Refines(old(m), keys, key, Abort(h, old(m[EncodeMeta(key)].meta.txn.value)), WriteResult(m, e))
    {
      hide Encode;
      hide EncodeMeta;
      hide Holds;
      hide Refines;
      hide Follows;
      AbortMeans(m, keys, key, h, m[EncodeMeta(key)].meta.txn.value);
      hide FindPrevious;
      var prev := FindPrevious(m, key, intentTs);
      if prev.Undecoded? {
        return Some(BadMetadata);
      }
      m := m - {Encode(key, intentTs)};
      if prev.NoPrevious? {
        m := m - {EncodeMeta(key)};
        return None;
      }
      var meta := RevertedMeta(key, prev.ts, prev.tombstone);
      m := m[EncodeMeta(key) := EncodeMetadata(meta)];
      return None;
    }

    /** Collects one key, unless its metadata key reads as a version of a shorter key. */
    method CollectKey(key: Bytes, g: Timestamp, ghost keys: set<Bytes>)
      requires WellFormed(m, keys) && key in keys
      modifies this
      ensures m == if EncodeMeta(key) in old(m) && !Unambiguous(key) then old(m) else Collected(old(m), key, g)
    {
      hide *;
      var versions := CollectVersions(m, key, keys);
      ghost var m0 := m;
      ghost var known := EncodeMeta(key) !in m || Unambiguous(key);
      if |versions| == 0 {
        if known {
          NothingCollected(m, key, versions, g);
        }
        return;
      }
      NewestFirst(m, key, versions, g);
      VictimsAreDropped(m, key, versions, g);
      NoVictims(key);
      if versions[0].tombstone && versions[0].ts.LessEq(g) {
        var i := 0;
        while i < |versions|
          invariant 0 <= i <= |versions| && m == m0 - Victims(key, versions[..i], None)
        {
          VictimsSnoc(key, versions, i, None);
          m := m - {Encode(key, versions[i].ts)};
          i := i + 1;
        }
        assert versions[..i] == versions;
        m := m - {EncodeMeta(key)};
        return;
      }
      var i := 1;
      ghost var older := versions[1..];
      while i < |versions|
        invariant 1 <= i <= |versions| && m == m0 - Victims(key, older[..i - 1], Some(g))
      {
        VictimsSnoc(key, older, i - 1, Some(g));
        if versions[i].ts.LessEq(g) {
          m := m - {Encode(key, versions[i].ts)};
        }
        i := i + 1;
      }
      assert older[..i - 1] == older;
    }

    /** Collects every key whose metadata key decodes as metadata. */
    method GarbageCollect(g: Timestamp, ghost keys: set<Bytes>)
      requires WellFormed(m, keys)
      modifies this
      ensures m == CollectedAll(old(m), g) && WellFormed(m, keys)
    {
      hide *;
      var snapshot := m;
      var cur := Ceiling(snapshot, []);
      ghost var b: Bytes := [];
      PassStart(m, g);
      while cur.Some?
        invariant cur == Ceiling(snapshot, b) && PassUpTo(snapshot, m, g, b)
        decreases Remaining(snapshot, b)
      {
        var c := cur.value;
        CurrentEntry(snapshot, b, c);
        Shrinks(snapshot, b, c);
        if !Decode(c).MetaKey? {
          PassSkip(snapshot, m, g, b, c);
          cur := Ceiling(snapshot, c + [0]);
        } else {
          var rawKey := Decode(c).key;
          MetaKeyIsMeta(c);
          CollectableNow(snapshot, m, keys, g, b, c, rawKey);
          PassStep(snapshot, m, keys, g, b, c, rawKey);
          CollectKey(rawKey, g, keys);
          NextPrefix(rawKey, c);
          cur := Ceiling(snapshot, EncodeMeta(NextKeyPrefix(rawKey)));
        }
        b := c + [0];
      }
      NoneLeft(snapshot, b);
      PassEnd(snapshot, m, g, b);
      PassWellFormed(snapshot, m, keys, g, b);
    }
  }

  lemma {:induction false} NoVictims(key: Bytes)
    ensures forall g :: Victims(key, [], g) == {}
  {
  }

  lemma {:induction false} NothingCollected(m: Store, key: Bytes, vs: seq<VersionInfo>, g: Timestamp)
    requires vs == [] && ListsAll(m, key, vs)
    ensures m == Collected(m, key, g)
  {
    hide Versions;
    assert forall t :: !Listed(vs, t);
    assert Versions(m, key) == map[];
  }

  lemma {:induction false} CurrentEntry(m: Store, b: Bytes, c: Bytes)
    requires Ceiling(m, b) == Some(c)
    ensures IsCeiling(m, b, c) && c in m
  {
    hide Less;
  }

  lemma {:induction false} NoneLeft(m: Store, b: Bytes)
    requires Ceiling(m, b).None?
    ensures forall x :: x in m ==> Less(x, b)
  {
    hide Less;
    hide Ceiling;
  }

  lemma {:induction false} NextPrefix(k: Bytes, c: Bytes)
    requires c == EncodeMeta(k)
    ensures EncodeMeta(NextKeyPrefix(k)) == c + [0]
  {
  }

  lemma {:induction false} CollectableNow(m: Store, m': Store, keys: set<Bytes>, g: Timestamp, b: Bytes, c: Bytes, k: Bytes)
    requires WellFormed(m, keys) && PassUpTo(m, m', g, b) && c in m && Decode(c) == MetaKey(k) && c == EncodeMeta(k)
    ensures Collectable(m, k) && k in keys && Unambiguous(k) && WellFormed(m', keys)
  {
    hide Decode;
    hide WellFormed;
    DecodeMetaExactly(k);
    CollectableKeys(m, keys, k);
    PassWellFormed(m, m', keys, g, b);
  }
}
