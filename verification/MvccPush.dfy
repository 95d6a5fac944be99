/** A push makes three engine writes: it copies the version, deletes the old one, and moves the
    metadata.  What a crash between them leaves, and which operation on it cleans up.  A commit at
    a later timestamp makes the same first two writes, so a crash inside it leaves the same. */
module MvccPush {
  import opened Bytes
  import opened Records
  import opened Hlc
  import opened MvccKey
  import opened Engine
  import opened Mvcc
  import opened Histories
  import opened MvccWrite

  /** After the first write: the version stands at both timestamps and the metadata still names
      the earlier one.  After the second (`Move`) it stands at the later only. */
  function HalfPushed(m: Store, key: Bytes, from: Timestamp, to: Timestamp): Store
    requires Encode(key, from) in m
  {
    m[Encode(key, to) := m[Encode(key, from)]]
  }

  /** A represented intent about to be pushed from its timestamp to `t`. */
  ghost predicate Pushing(m: Store, keys: set<Bytes>, k: Bytes, h: History, t: Timestamp) {
    && WellFormed(m, keys) && k in keys && Represents(m, k, h) && h.intent.Some?
    && IsStamp(t) && h.intent.value.ts.Less(t)
  }

  /** The two stores a crash may leave. */
  lemma {:induction false} Cuts(m: Store, keys: set<Bytes>, k: Bytes, h: History, t: Timestamp)
    requires Pushing(m, keys, k, h, t)
    ensures Encode(k, h.intent.value.ts) in m
    ensures var i := h.intent.value;
            var half, moved := HalfPushed(m, k, i.ts, t), Move(m, k, i.ts, t);
            && WellFormed(half, keys) && Versions(half, k) == RawAll(h)[t := Stored(i.live)]
            && WellFormed(moved, keys) && Versions(moved, k) == RawAll(Abort(h, i.txn))[t := Stored(i.live)]
            && Encode(k, i.ts) in half && half[Encode(k, i.ts)] == Stored(i.live) && Encode(k, i.ts) !in moved
            && half - {Encode(k, i.ts)} == moved
            && EncodeMeta(k) in half && EncodeMeta(k) in moved
            && half[EncodeMeta(k)] == moved[EncodeMeta(k)] && half[EncodeMeta(k)].MetaVal?
            && Intends(half[EncodeMeta(k)].meta, h)
  {
    hide Stored;
    hide Encode;
    hide EncodeMeta;
    hide Versions;
    hide WellFormed;
    var i := h.intent.value;
    IntentEntry(m, k, h);
    var half := HalfPushed(m, k, i.ts, t);
    PutVersionWellFormed(m, keys, k, t, i.live);
    PutVersion(m, k, t, Stored(i.live));
    VersionNotMeta(k, t);
    VersionNotMeta(k, i.ts);
    EncodeInjective(k, i.ts, k, t);
    UnderMeta(k, i.ts);
    DeleteWellFormed(half, keys, k, Encode(k, i.ts));
    DeleteVersion(half, k, i.ts);
    assert RawAll(h)[t := Stored(i.live)] - {i.ts} == RawAll(Abort(h, i.txn))[t := Stored(i.live)];
    MetaOfHistory(m, k, h, m[EncodeMeta(k)].meta);
  }

  /** The metadata names the intent of `h` at its timestamp. */
  ghost predicate Intends(meta: Meta, h: History) {
    && h.intent.Some? && meta.HasIntent() && meta.txn == Some(h.intent.value.txn)
    && meta.txnTs == meta.ts == h.intent.value.ts
  }

  lemma {:induction false} UnderMeta(k: Bytes, t: Timestamp)
    requires IsStamp(t)
    ensures EncodeMeta(k) <= Encode(k, t)
  {
    hide Encode;
    EncodeUnder(k, t);
  }

  // ----- Commits and pushes ---------------------------------------------------------

  /** After the first write a commit cleans up exactly when it commits at the timestamp of the
      push, and the push can be repeated. */
  lemma {:induction false} CommitHalfPushed(m: Store, keys: set<Bytes>, k: Bytes, h: History, t: Timestamp,
                                            commitTs: Timestamp)
    requires Pushing(m, keys, k, h, t) && IsStamp(commitTs)
    ensures Encode(k, h.intent.value.ts) in m
    ensures var i := h.intent.value;
            var half := HalfPushed(m, k, i.ts, t);
            && CommitIntent(half, k, i.txn, commitTs).error.None?
            && (Represents(CommitIntent(half, k, i.txn, commitTs).store, k, Commit(h, i.txn, commitTs)) <==>
                commitTs == t)
            && PushIntent(half, k, i.txn, t) == PushIntent(m, k, i.txn, t)
  {
    hide Encode;
    hide EncodeMeta;
    hide Versions;
    hide WellFormed;
    Cuts(m, keys, k, h, t);
    var i := h.intent.value;
    var half := HalfPushed(m, k, i.ts, t);
    CommitTwice(half, keys, k, h, t, commitTs);
    assert half[Encode(k, t) := half[Encode(k, i.ts)]] == half;
    IntentEntry(m, k, h);
    VersionNotMeta(k, t);
    MetaOfHistory(m, k, h, m[EncodeMeta(k)].meta);
  }

  /** What a half-pushed intent looks like. */
  ghost predicate Doubled(half: Store, keys: set<Bytes>, k: Bytes, h: History, t: Timestamp) {
    && WellFormed(half, keys) && k in keys && h.Valid() && IsStamp(t)
    && EncodeMeta(k) in half && half[EncodeMeta(k)].MetaVal? && Intends(half[EncodeMeta(k)].meta, h)
    && h.intent.value.ts.Less(t) && Versions(half, k) == RawAll(h)[t := Stored(h.intent.value.live)]
    && Encode(k, h.intent.value.ts) in half && half[Encode(k, h.intent.value.ts)] == Stored(h.intent.value.live)
    && (half[EncodeMeta(k)].meta.deleted <==> h.intent.value.live.None?) && half[EncodeMeta(k)].meta.keyBytes == |k|
  }

  lemma {:induction false} CommitTwice(half: Store, keys: set<Bytes>, k: Bytes, h: History, t: Timestamp,
                                       commitTs: Timestamp)
    requires Doubled(half, keys, k, h, t) && IsStamp(commitTs)
    ensures h.intent.Some?
    ensures var r := CommitIntent(half, k, h.intent.value.txn, commitTs);
            r.error.None? && (Represents(r.store, k, Commit(h, h.intent.value.txn, commitTs)) <==> commitTs == t)
  {
    hide Encode;
    hide EncodeMeta;
    hide Versions;
    hide WellFormed;
    hide Represents;
    hide RawAll;
    hide Stored;
    if commitTs == t {
      CommitThere(half, keys, k, h, t);
    } else {
      CommitElsewhere(half, keys, k, h, t, commitTs);
    }
  }

  lemma {:induction false} CommitThere(half: Store, keys: set<Bytes>, k: Bytes, h: History, t: Timestamp)
    requires Doubled(half, keys, k, h, t)
    ensures Represents(CommitIntent(half, k, h.intent.value.txn, t).store, k, Commit(h, h.intent.value.txn, t))
  {
    hide Encode;
    hide EncodeMeta;
    hide Versions;
    hide WellFormed;
    hide Stored;
    var i := h.intent.value;
    var meta' := half[EncodeMeta(k)].meta.(txn := None, txnTs := ZERO_TS, ts := t);
    var h' := Commit(h, i.txn, t);
    MoveVersions(half, keys, k, i.ts, t, i.live, meta');
    assert RawAll(h)[t := Stored(i.live)][t := Stored(i.live)] - {i.ts} == RawAll(h');
    assert h'.All()[t] == i.live && IsMax(h'.All().Keys, t);
  }

  lemma {:induction false} CommitElsewhere(half: Store, keys: set<Bytes>, k: Bytes, h: History, t: Timestamp,
                                           commitTs: Timestamp)
    requires Doubled(half, keys, k, h, t) && IsStamp(commitTs) && commitTs != t
    ensures !Represents(CommitIntent(half, k, h.intent.value.txn, commitTs).store, k, Commit(h, h.intent.value.txn, commitTs))
  {
    hide Encode;
    hide EncodeMeta;
    hide Versions;
    hide WellFormed;
    hide MetaNames;
    hide Stored;
    var i := h.intent.value;
    var meta' := half[EncodeMeta(k)].meta.(txn := None, txnTs := ZERO_TS, ts := commitTs);
    var m' := CommitIntent(half, k, i.txn, commitTs).store;
    if commitTs == i.ts {
      MetaKeepsVersions(half, k, EncodeMetadata(meta'));
    } else {
      MoveVersions(half, keys, k, i.ts, commitTs, i.live, meta');
    }
    assert t in Versions(m', k) && t !in RawAll(Commit(h, i.txn, commitTs));
  }

  /** After the second write no commit and no push cleans up: each is refused, except a commit at
      the old timestamp, which names a version that is gone. */
  lemma {:induction false} CommitMoved(m: Store, keys: set<Bytes>, k: Bytes, h: History, t: Timestamp,
                                       commitTs: Timestamp)
    requires Pushing(m, keys, k, h, t) && IsStamp(commitTs)
    ensures Encode(k, h.intent.value.ts) in m
    ensures var i := h.intent.value;
            var moved := Move(m, k, i.ts, t);
            && (commitTs != i.ts ==> CommitIntent(moved, k, i.txn, commitTs) == WriteResult(moved, Some(MissingIntent)))
            && (i.ts.Less(commitTs) ==> PushIntent(moved, k, i.txn, commitTs) == WriteResult(moved, Some(MissingIntent)))
            && (commitTs == i.ts ==> CommitIntent(moved, k, i.txn, commitTs).error.None?)
            && !Represents(CommitIntent(moved, k, i.txn, commitTs).store, k, Commit(h, i.txn, commitTs))
  {
    hide Encode;
    hide EncodeMeta;
    hide Versions;
    hide WellFormed;
    Cuts(m, keys, k, h, t);
    var i := h.intent.value;
    var moved := Move(m, k, i.ts, t);
    var meta' := moved[EncodeMeta(k)].meta.(txn := None, txnTs := ZERO_TS, ts := commitTs);
    MetaKeepsVersions(moved, k, EncodeMetadata(meta'));
    if commitTs == i.ts {
      assert t in Versions(moved, k) && t !in RawAll(Commit(h, i.txn, commitTs));
    }
  }

  // ----- Aborts ---------------------------------------------------------------------

  /** With no entry at `ts` the search for the previous version starts one too late: it skips the
      newest version below. */
  lemma {:induction false} SkipsNewest(m: Store, keys: set<Bytes>, k: Bytes, ts: Timestamp)
    requires WellFormed(m, keys) && k in keys && IsStamp(ts) && ts !in Versions(m, k)
    ensures match FindPrevious(m, k, ts)
            case Undecoded => false
            case NoPrevious =>
              forall u, w :: u in Versions(m, k) && w in Versions(m, k) && u.Less(ts) && w.Less(ts) ==> u == w
            case Found(p, tombstone) =>
              && p in Versions(m, k) && Versions(m, k)[p].Raw?
              && (tombstone <==> IsTombstone(Versions(m, k)[p].bytes))
              && exists w :: IsSecond(Versions(m, k).Keys, ts, w, p)
  {
    hide Less;
    hide Ceiling;
    hide Encode;
    hide Decode;
    hide IsVersionKey;
    hide Versions;
    hide WellFormed;
    hide SeparatedKeys;
    VersionsIff(m, k);
    SameKeys(m, keys, k);
    var v := SeekFindsNewest(m, keys, k, ts);
    if v.Some? {
      var s := Encode(k, v.value);
      LessIrreflexive(s);
      CeilingIs(m, s, s);
      FindsPrevious(m, keys, k, v.value);
      var p := FindPrevious(m, k, ts);
      assert p.Found? ==> IsSecond(Versions(m, k).Keys, ts, v.value, p.ts);
    } else {
      NothingBelow(m, keys, k, ts);
    }
  }

  /** `w` is the greatest below `ts` and `p` the greatest below `w`. */
  ghost predicate IsSecond(s: set<Timestamp>, ts: Timestamp, w: Timestamp, p: Timestamp) {
    && w in s && w.Less(ts) && (forall u :: u in s && u.Less(ts) ==> u.LessEq(w))
    && p in s && p.Less(w) && (forall u :: u in s && u.Less(w) ==> u.LessEq(p))
  }

  lemma {:induction false} NothingBelow(m: Store, keys: set<Bytes>, k: Bytes, ts: Timestamp)
    requires WellFormed(m, keys) && k in keys && IsStamp(ts) && NoVersion(m, k, ts)
    ensures FindPrevious(m, k, ts) == NoPrevious
  {
    hide Less;
    hide Ceiling;
    hide Encode;
    hide Decode;
    hide IsVersionKey;
    hide WellFormed;
    hide SeparatedKeys;
    var s := Encode(k, ts);
    var c := Ceiling(m, s);
    if c.Some? {
      var n := Ceiling(m, c.value + [0]);
      if n.Some? {
        EntryDecodes(m, keys, n.value);
        if Decode(n.value).Versioned? && Decode(n.value).key == k {
          DecodedUnder(n.value, k);
          SameKeys(m, keys, k);
          EntryUnder(m, keys, k, n.value);
          MetaLength(k);
          VersionKeyIs(n.value, k);
          AfterCeiling(m, s, c.value, n.value);
          VersionOrder(k, VersionOf(n.value, k), ts);
          assert false;
        }
      }
    }
  }

  /** The version an abort should name again: the newest committed one. */
  ghost predicate NamesAgain(r: WriteResult, k: Bytes, committed: map<Timestamp, Option<Bytes>>, p: Timestamp) {
    && p in committed && EncodeMeta(k) in r.store
    && r.store[EncodeMeta(k)] == EncodeMetadata(RevertedMeta(k, p, committed[p].None?))
  }

  /** The store keeps the pushed copy: whoever reads at or above its timestamp reads the aborted
      write, if the key has metadata at all. */
  ghost predicate Leaks(r: WriteResult, k: Bytes, h: History, t: Timestamp, ts: Timestamp, opts: ReadOptions)
    requires h.intent.Some?
  {
    && r.error.None? && Versions(r.store, k) == RawAll(h.(intent := None))[t := Stored(h.intent.value.live)]
    && Get(r.store, k, ts, opts) ==
       if EncodeMeta(k) in r.store then Answer(h.intent.value.live) else Failed(NotFound)
  }

  /** No abort cleans up: the copy stays and is read as if committed.  After the first write the
      metadata names the newest committed version; after the second, the one before it. */
  lemma {:induction false} AbortAfterCrash(m: Store, keys: set<Bytes>, k: Bytes, h: History, t: Timestamp,
                                           ts: Timestamp, opts: ReadOptions)
    requires Pushing(m, keys, k, h, t) && t.LessEq(ts) && IsStamp(ts) && opts.maxTs.IsEmpty()
    ensures Encode(k, h.intent.value.ts) in m
    ensures var i := h.intent.value;
            var r := AbortIntent(HalfPushed(m, k, i.ts, t), k, i.txn);
            && Leaks(r, k, h, t, ts, opts) && !Represents(r.store, k, Abort(h, i.txn))
            && (if h.committed == map[] then EncodeMeta(k) !in r.store
                else exists p :: NamesAgain(r, k, h.committed, p) && IsMax(h.committed.Keys, p))
    ensures var i := h.intent.value;
            var r := AbortIntent(Move(m, k, i.ts, t), k, i.txn);
            && Leaks(r, k, h, t, ts, opts) && !Represents(r.store, k, Abort(h, i.txn))
            && (if forall u, w :: u in h.committed && w in h.committed ==> u == w then EncodeMeta(k) !in r.store
                else exists p, w :: NamesAgain(r, k, h.committed, p) && IsSecond(h.committed.Keys, i.ts, w, p))
  {
    hide *;
    AbortHalfPushed(m, keys, k, h, t, ts, opts);
    AbortMoved(m, keys, k, h, t, ts, opts);
  }

  lemma {:induction false} AbortHalfPushed(m: Store, keys: set<Bytes>, k: Bytes, h: History, t: Timestamp,
                                           ts: Timestamp, opts: ReadOptions)
    requires Pushing(m, keys, k, h, t) && t.LessEq(ts) && IsStamp(ts) && opts.maxTs.IsEmpty()
    ensures h.intent.Some? && Encode(k, h.intent.value.ts) in m
    ensures var i := h.intent.value;
            var r := AbortIntent(HalfPushed(m, k, i.ts, t), k, i.txn);
            && Leaks(r, k, h, t, ts, opts) && !Represents(r.store, k, Abort(h, i.txn))
            && (if h.committed == map[] then EncodeMeta(k) !in r.store
                else exists p :: NamesAgain(r, k, h.committed, p) && IsMax(h.committed.Keys, p))
  {
    hide Stored;
    hide Encode;
    hide EncodeMeta;
    hide Versions;
    hide WellFormed;
    hide FindPrevious;
    hide Get;
    hide RevertedMeta;
    Cuts(m, keys, k, h, t);
    var i := h.intent.value;
    var half := HalfPushed(m, k, i.ts, t);
    FindsPrevious(half, keys, k, i.ts);
    var prev := FindPrevious(half, k, i.ts);
    Reverted(Move(m, k, i.ts, t), keys, k, h, t, prev, ts, opts);
    if prev.Found? {
      assert prev.ts in h.committed && RawAll(h)[prev.ts] == Stored(h.committed[prev.ts]);
      assert NamesAgain(AbortIntent(half, k, i.txn), k, h.committed, prev.ts);
    } else {
      forall u ensures u !in h.committed {
        assert u in h.committed ==> u in Versions(half, k) && u.Less(i.ts);
      }
      assert h.committed.Keys == {};
    }
  }

  lemma {:induction false} AbortMoved(m: Store, keys: set<Bytes>, k: Bytes, h: History, t: Timestamp,
                                      ts: Timestamp, opts: ReadOptions)
    requires Pushing(m, keys, k, h, t) && t.LessEq(ts) && IsStamp(ts) && opts.maxTs.IsEmpty()
    ensures h.intent.Some? && Encode(k, h.intent.value.ts) in m
    ensures var i := h.intent.value;
            var r := AbortIntent(Move(m, k, i.ts, t), k, i.txn);
            && Leaks(r, k, h, t, ts, opts) && !Represents(r.store, k, Abort(h, i.txn))
            && (if forall u, w :: u in h.committed && w in h.committed ==> u == w then EncodeMeta(k) !in r.store
                else exists p, w :: NamesAgain(r, k, h.committed, p) && IsSecond(h.committed.Keys, i.ts, w, p))
  {
    hide Stored;
    hide Encode;
    hide EncodeMeta;
    hide Versions;
    hide WellFormed;
    hide FindPrevious;
    hide Get;
    hide RevertedMeta;
    Cuts(m, keys, k, h, t);
    var i := h.intent.value;
    var moved := Move(m, k, i.ts, t);
    assert moved - {Encode(k, i.ts)} == moved;
    SkipsNewest(moved, keys, k, i.ts);
    var prev := FindPrevious(moved, k, i.ts);
    Reverted(moved, keys, k, h, t, prev, ts, opts);
    var vs := Versions(moved, k);
    if prev.Found? {
      var w :| IsSecond(vs.Keys, i.ts, w, prev.ts);
      assert prev.ts in h.committed && vs[prev.ts] == Stored(h.committed[prev.ts]);
      assert NamesAgain(AbortIntent(moved, k, i.txn), k, h.committed, prev.ts);
      assert IsSecond(h.committed.Keys, i.ts, w, prev.ts);
      assert w in h.committed && w != prev.ts;
    } else {
      forall u, w | u in h.committed && w in h.committed ensures u == w {
        assert u in vs && w in vs;
      }
    }
  }

  /** What reverting the metadata over the pushed copy leaves. */
  lemma {:induction false} Reverted(moved: Store, keys: set<Bytes>, k: Bytes, h: History, t: Timestamp, prev: Previous,
                                    ts: Timestamp, opts: ReadOptions)
    requires WellFormed(moved, keys) && k in keys && h.Valid() && h.intent.Some? && IsStamp(t)
    requires h.intent.value.ts.Less(t) && !prev.Undecoded?
    requires Versions(moved, k) == RawAll(h.(intent := None))[t := Stored(h.intent.value.live)]
    requires t.LessEq(ts) && IsStamp(ts) && opts.maxTs.IsEmpty()
    ensures var r := WriteResult(if prev.NoPrevious? then moved - {EncodeMeta(k)}
                                 else moved[EncodeMeta(k) := EncodeMetadata(RevertedMeta(k, prev.ts, prev.tombstone))],
                                 None);
            Leaks(r, k, h, t, ts, opts) && !Represents(r.store, k, h.(intent := None))
  {
    hide Stored;
    hide Encode;
    hide EncodeMeta;
    hide Versions;
    hide WellFormed;
    hide Get;
    var i := h.intent.value;
    MetaKeepsVersions(moved, k, EncodeMetadata(NO_META));
    assert t in Versions(moved, k) && t !in RawAll(h.(intent := None));
    if prev.NoPrevious? {
      NoMetaNoRead(moved - {EncodeMeta(k)}, k, ts, opts);
    } else {
      var meta := RevertedMeta(k, prev.ts, prev.tombstone);
      MetaKeepsVersions(moved, k, EncodeMetadata(meta));
      PutMetaWellFormed(moved, keys, k, meta);
      ReadsNewest(moved[EncodeMeta(k) := EncodeMetadata(meta)], keys, k, t, i.live, ts, opts);
    }
  }

  lemma {:induction false} NoMetaNoRead(m: Store, k: Bytes, ts: Timestamp, opts: ReadOptions)
    requires EncodeMeta(k) !in m
    ensures Get(m, k, ts, opts) == Failed(NotFound)
  {
  }

  /** Without an intent the newest version is read from its timestamp on. */
  lemma {:induction false} ReadsNewest(m: Store, keys: set<Bytes>, k: Bytes, t: Timestamp, live: Option<Bytes>, ts: Timestamp,
                                       opts: ReadOptions)
    requires WellFormed(m, keys) && k in keys && IsStamp(ts) && t.LessEq(ts) && opts.maxTs.IsEmpty()
    requires EncodeMeta(k) in m && m[EncodeMeta(k)].MetaVal? && !m[EncodeMeta(k)].meta.HasIntent()
    requires t in Versions(m, k) && Versions(m, k)[t] == Stored(live) && forall u :: u in Versions(m, k) ==> u.LessEq(t)
    ensures Get(m, k, ts, opts) == Answer(live)
  {
    hide Encode;
    hide EncodeMeta;
    hide Versions;
    hide WellFormed;
    hide SeparatedKeys;
    hide Get;
    hide ReadVersion;
    SameKeys(m, keys, k);
    VersionsIff(m, k);
    var v := GetReadsNewest(m, keys, k, ts, opts);
  }
}
