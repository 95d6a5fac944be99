/** Versioned writes and write intents over a sorted engine, refining per-key histories. */
module MvccWrite {
  import opened Bytes
  import opened Records
  import opened Hlc
  import opened MvccKey
  import opened Engine
  import opened Mvcc
  import opened Histories

  datatype WriteResult = WriteResult(store: Store, error: Option<WriteError>)

  // ----- The operations on engine contents ------------------------------------------

  /** The metadata of `key`, blank when it was never written; None when it does not decode. */
  function ReadMeta(m: Store, key: Bytes): Option<Meta> {
    if EncodeMeta(key) !in m then Some(NO_META)
    else if m[EncodeMeta(key)].Raw? then None
    else Some(m[EncodeMeta(key)].meta)
  }

  /** Metadata after a versioned write; a deletion leaves an inline value in place. */
  function WrittenMeta(meta: Meta, key: Bytes, ts: Timestamp, live: Option<Bytes>, txn: Option<TxnID>): Meta {
    Meta(ts, live.None?, txn, if txn.Some? then ts else ZERO_TS, |key|,
         if live.Some? then |live.value| else 0, if live.Some? then None else meta.inline)
  }

  function WriteVersion(m: Store, key: Bytes, ts: Timestamp, live: Option<Bytes>, txn: Option<TxnID>): WriteResult {
    var read := ReadMeta(m, key);
    if read.None? then WriteResult(m, Some(BadMetadata))
    else
      var meta := read.value;
      if meta.HasIntent() && !OwnIntent(meta, txn) then
        WriteResult(m, Some(IntentHeld(key, meta.txn.value, meta.txnTs)))
      else if !meta.HasIntent() && !meta.ts.IsEmpty() && ts.LessEq(meta.ts) then
        WriteResult(m, Some(TooOld(key, ts, meta.ts)))
      else
        var written := m[Encode(key, ts) := Stored(live)];
        WriteResult(written[EncodeMeta(key) := EncodeMetadata(WrittenMeta(meta, key, ts, live, txn))], None)
  }

  /** Timestamp zero stores the value in the metadata and leaves the versions alone. */
  function WriteInline(m: Store, key: Bytes, value: Bytes): WriteResult {
    var read := ReadMeta(m, key);
    if read.None? then WriteResult(m, Some(BadMetadata))
    else
      var meta := read.value.(inline := Some(value), keyBytes := |key|, valBytes := |value|);
      WriteResult(m[EncodeMeta(key) := EncodeMetadata(meta)], None)
  }

  /** Moving the version at `from` to `to`. */
  function Move(m: Store, key: Bytes, from: Timestamp, to: Timestamp): Store
    requires Encode(key, from) in m
  {
    m[Encode(key, to) := m[Encode(key, from)]] - {Encode(key, from)}
  }

  predicate IntentOf(m: Store, key: Bytes, txn: TxnID) {
    && EncodeMeta(key) in m && m[EncodeMeta(key)].MetaVal?
    && m[EncodeMeta(key)].meta.HasIntent() && m[EncodeMeta(key)].meta.txn == Some(txn)
  }

  predicate Undecodable(m: Store, key: Bytes) {
    EncodeMeta(key) in m && m[EncodeMeta(key)].Raw?
  }

  function PushIntent(m: Store, key: Bytes, txn: TxnID, ts: Timestamp): WriteResult {
    if Undecodable(m, key) then WriteResult(m, Some(BadMetadata))
    else if !IntentOf(m, key, txn) then WriteResult(m, None)
    else
      var meta := m[EncodeMeta(key)].meta;
      if ts.LessEq(meta.txnTs) then WriteResult(m, None)
      else if Encode(key, meta.txnTs) !in m then WriteResult(m, Some(MissingIntent))
      else
        WriteResult(Move(m, key, meta.txnTs, ts)[EncodeMeta(key) := EncodeMetadata(meta.(ts := ts, txnTs := ts))],
                    None)
  }

  function CommitIntent(m: Store, key: Bytes, txn: TxnID, ts: Timestamp): WriteResult {
    if Undecodable(m, key) then WriteResult(m, Some(BadMetadata))
    else if !IntentOf(m, key, txn) then WriteResult(m, None)
    else
      var meta := m[EncodeMeta(key)].meta;
      if meta.txnTs != ts && Encode(key, meta.txnTs) !in m then WriteResult(m, Some(MissingIntent))
      else
        var moved := if meta.txnTs != ts then Move(m, key, meta.txnTs, ts) else m;
        WriteResult(moved[EncodeMeta(key) := EncodeMetadata(meta.(txn := None, txnTs := ZERO_TS, ts := ts))], None)
  }

  datatype Previous = NoPrevious | Found(ts: Timestamp, tombstone: bool) | Undecoded

  /** The version after the one at `ts`, in key order. */
  function FindPrevious(m: Store, key: Bytes, ts: Timestamp): Previous {
    var c := Ceiling(m, Encode(key, ts));
    if c.None? then NoPrevious
    else
      var next := Ceiling(m, c.value + [0]);
      if next.None? then NoPrevious
      else
        match Decode(next.value)
        case Malformed => Undecoded
        case MetaKey(_) => NoPrevious
        case Versioned(k, t) =>
          if k != key then NoPrevious
          else Found(t, m[next.value].Raw? && IsTombstone(m[next.value].bytes))
  }

  function RevertedMeta(key: Bytes, ts: Timestamp, tombstone: bool): Meta {
    Meta(ts, tombstone, None, ZERO_TS, |key|, 0, None)
  }

  function AbortIntent(m: Store, key: Bytes, txn: TxnID): WriteResult {
    if Undecodable(m, key) then WriteResult(m, Some(BadMetadata))
    else if !IntentOf(m, key, txn) then WriteResult(m, None)
    else
      var ts := m[EncodeMeta(key)].meta.txnTs;
      var cleared := m - {Encode(key, ts)};
      match FindPrevious(m, key, ts)
      case Undecoded => WriteResult(m, Some(BadMetadata))
      case NoPrevious => WriteResult(cleared - {EncodeMeta(key)}, None)
      case Found(t, tombstone) =>
        WriteResult(cleared[EncodeMeta(key) := EncodeMetadata(RevertedMeta(key, t, tombstone))], None)
  }

  /** Pushing an intent to a timestamp and committing it there is committing it there, errors
      included. */
  lemma {:induction false} PushThenCommit(m: Store, key: Bytes, txn: TxnID, ts: Timestamp)
    ensures var pushed := PushIntent(m, key, txn, ts);
            && (pushed.error.None? ==> CommitIntent(pushed.store, key, txn, ts) == CommitIntent(m, key, txn, ts))
            && (pushed.error.Some? ==> pushed == CommitIntent(m, key, txn, ts))
  {
    hide Encode;
    if !Undecodable(m, key) && IntentOf(m, key, txn) {
      var meta := m[EncodeMeta(key)].meta;
      if !ts.LessEq(meta.txnTs) && Encode(key, meta.txnTs) in m {
        var moved := Move(m, key, meta.txnTs, ts);
        var clear := EncodeMetadata(meta.(txn := None, txnTs := ZERO_TS, ts := ts));
        var pushed := EncodeMetadata(meta.(ts := ts, txnTs := ts));
        assert moved[EncodeMeta(key) := pushed][EncodeMeta(key) := clear] == moved[EncodeMeta(key) := clear];
      }
    }
  }

  // ----- Inline values --------------------------------------------------------------

  /** A value stored at timestamp zero is read back there exactly when it is not empty. */
  lemma {:induction false} InlineRoundTrip(m: Store, k: Bytes, value: Bytes, opts: ReadOptions)
    requires !Undecodable(m, k)
    ensures WriteInline(m, k, value).error.None?
    ensures Get(WriteInline(m, k, value).store, k, ZERO_TS, opts) == Value(value) <==> value != []
  {
    hide EncodeMeta;
  }

  /** Where a put and a deletion are both accepted, they leave the same value at timestamp zero
      exactly when there was no value in place: the put clears it, the deletion does not. */
  lemma {:induction false} DeletionIsPutExactly(m: Store, k: Bytes, t: Timestamp, value: Bytes, txn: Option<TxnID>,
                                                opts: ReadOptions)
    requires IsStamp(t) && WriteVersion(m, k, t, None, txn).error.None?
    ensures var deleted, put := WriteVersion(m, k, t, None, txn), WriteVersion(m, k, t, Some(value), txn);
            var inline := ReadMeta(m, k).value.inline;
            && put.error.None? && Get(put.store, k, ZERO_TS, opts) == Failed(NotFound)
            && (Get(deleted.store, k, ZERO_TS, opts) == Get(put.store, k, ZERO_TS, opts) <==>
                inline.None? || inline.value == [])
  {
    hide Encode;
    hide EncodeMeta;
  }

  // ----- The versions of a key in a store -------------------------------------------

  ghost function Stamps(m: Store, k: Bytes): set<Timestamp> {
    set e | e in m && IsVersionKey(e, k) :: VersionOf(e, k)
  }

  ghost function Versions(m: Store, k: Bytes): map<Timestamp, Val> {
    map t | t in Stamps(m, k) && Encode(k, t) in m :: m[Encode(k, t)]
  }

  lemma {:induction false} VersionIff(m: Store, k: Bytes, t: Timestamp)
    ensures t in Versions(m, k) <==> IsStamp(t) && Encode(k, t) in m
    ensures t in Versions(m, k) ==> Versions(m, k)[t] == m[Encode(k, t)]
  {
    hide Encode;
    hide IsVersionKey;
    if t in Stamps(m, k) {
      var e :| e in m && IsVersionKey(e, k) && VersionOf(e, k) == t;
      VersionKeyIs(e, k);
    }
    if IsStamp(t) && Encode(k, t) in m {
      EncodeIsVersionKey(k, t);
    }
  }

  lemma {:induction false} VersionsIff(m: Store, k: Bytes)
    ensures forall t :: t in Versions(m, k) <==> IsStamp(t) && Encode(k, t) in m
    ensures forall t :: t in Versions(m, k) ==> Versions(m, k)[t] == m[Encode(k, t)]
  {
    hide Encode;
    hide Versions;
    forall t ensures (t in Versions(m, k) <==> IsStamp(t) && Encode(k, t) in m) &&
                     (t in Versions(m, k) ==> Versions(m, k)[t] == m[Encode(k, t)])
    {
      VersionIff(m, k, t);
    }
  }

  lemma {:induction false} VersionNotMeta(k: Bytes, t: Timestamp)
    requires IsStamp(t)
    ensures Encode(k, t) != EncodeMeta(k)
  {
    hide EncodeTimestampDesc;
  }

  lemma {:induction false} PutVersion(m: Store, k: Bytes, t: Timestamp, v: Val)
    requires IsStamp(t)
    ensures Versions(m[Encode(k, t) := v], k) == Versions(m, k)[t := v]
  {
    hide Encode;
    hide Versions;
    var m' := m[Encode(k, t) := v];
    VersionsIff(m, k);
    VersionsIff(m', k);
    forall u | IsStamp(u) ensures Encode(k, u) == Encode(k, t) <==> u == t {
      EncodeInjective(k, u, k, t);
    }
    assert Versions(m', k).Keys == Versions(m, k)[t := v].Keys;
  }

  lemma {:induction false} DeleteVersion(m: Store, k: Bytes, t: Timestamp)
    requires IsStamp(t)
    ensures Versions(m - {Encode(k, t)}, k) == Versions(m, k) - {t}
  {
    hide Encode;
    hide Versions;
    var m' := m - {Encode(k, t)};
    VersionsIff(m, k);
    VersionsIff(m', k);
    forall u | IsStamp(u) ensures Encode(k, u) == Encode(k, t) <==> u == t {
      EncodeInjective(k, u, k, t);
    }
    assert Versions(m', k).Keys == (Versions(m, k) - {t}).Keys;
  }

  lemma {:induction false} MetaKeepsVersions(m: Store, k: Bytes, v: Val)
    ensures Versions(m[EncodeMeta(k) := v], k) == Versions(m, k)
    ensures Versions(m - {EncodeMeta(k)}, k) == Versions(m, k)
  {
    hide Encode;
    hide EncodeMeta;
    hide Versions;
    VersionsIff(m, k);
    VersionsIff(m[EncodeMeta(k) := v], k);
    VersionsIff(m - {EncodeMeta(k)}, k);
    forall t | IsStamp(t) ensures Encode(k, t) != EncodeMeta(k) {
      VersionNotMeta(k, t);
    }
    assert Versions(m[EncodeMeta(k) := v], k).Keys == Versions(m, k).Keys;
    assert Versions(m - {EncodeMeta(k)}, k).Keys == Versions(m, k).Keys;
  }

  // ----- Representation -------------------------------------------------------------

  ghost function RawAll(h: History): map<Timestamp, Val> {
    map t | t in h.All() :: Stored(h.All()[t])
  }

  /** The metadata names the newest version, its tombstone status and the intent. */
  ghost predicate MetaNames(meta: Meta, h: History) {
    && (meta.HasIntent() <==> h.intent.Some?)
    && (h.intent.Some? ==> meta.txn == Some(h.intent.value.txn) && meta.txnTs == meta.ts)
    && (if h.All() == map[] then meta.ts.IsEmpty()
        else IsMax(h.All().Keys, meta.ts) && (meta.deleted <==> h.All()[meta.ts].None?))
  }

  /** The entries of `k` are the metadata and versions of `h`. */
  ghost predicate Represents(m: Store, k: Bytes, h: History) {
    && h.Valid() && Versions(m, k) == RawAll(h)
    && if EncodeMeta(k) in m then
         m[EncodeMeta(k)].MetaVal? && MetaNames(m[EncodeMeta(k)].meta, h) && m[EncodeMeta(k)].meta.keyBytes == |k|
       else h == NO_HISTORY
  }

  /** Changes confined to what lies under `k + 0x00`. */
  ghost predicate SameOutside(m: Store, m': Store, k: Bytes) {
    forall e :: !(EncodeMeta(k) <= e) ==> (e in m <==> e in m') && (e in m ==> m[e] == m'[e])
  }

  /** Other keys keep their histories. */
  lemma {:induction false} OtherKeysKept(m: Store, m': Store, k: Bytes, k': Bytes, h: History)
    requires SameOutside(m, m', k) && k != k' && SeparatedKeys({k, k'}) && Represents(m, k', h)
    ensures Represents(m', k', h)
  {
    hide Encode;
    hide Versions;
    hide MetaNames;
    hide RawAll;
    VersionsIff(m, k');
    VersionsIff(m', k');
    NotUnder(k, k', EncodeMeta(k'));
    forall t | IsStamp(t) ensures !(EncodeMeta(k) <= Encode(k', t)) {
      EncodeUnder(k', t);
      NotUnder(k, k', Encode(k', t));
    }
    assert Versions(m, k').Keys == Versions(m', k').Keys;
  }

  lemma {:induction false} NotUnder(k: Bytes, k': Bytes, e: Bytes)
    requires k != k' && SeparatedKeys({k, k'}) && EncodeMeta(k') <= e
    ensures !(EncodeMeta(k) <= e)
  {
    if EncodeMeta(k) <= e {
      PrefixOverlap(k, k', e);
    }
  }

  lemma {:induction false} EncodeUnder(k: Bytes, t: Timestamp)
    ensures EncodeMeta(k) <= Encode(k, t)
  {
  }

  // ----- Well-formedness ------------------------------------------------------------

  lemma {:induction false} PutVersionWellFormed(m: Store, keys: set<Bytes>, k: Bytes, t: Timestamp, live: Option<Bytes>)
    requires WellFormed(m, keys) && k in keys && IsStamp(t)
    ensures WellFormed(m[Encode(k, t) := Stored(live)], keys)
    ensures SameOutside(m, m[Encode(k, t) := Stored(live)], k)
  {
    hide Encode;
    hide IsVersionKey;
    var m' := m[Encode(k, t) := Stored(live)];
    EncodeIsVersionKey(k, t);
    EncodeUnder(k, t);
    forall e | e in m' ensures Entry(m', keys, e) {
      if e != Encode(k, t) {
        assert Entry(m, keys, e);
      }
    }
  }

  lemma {:induction false} PutMetaWellFormed(m: Store, keys: set<Bytes>, k: Bytes, meta: Meta)
    requires WellFormed(m, keys) && k in keys
    ensures WellFormed(m[EncodeMeta(k) := EncodeMetadata(meta)], keys)
    ensures SameOutside(m, m[EncodeMeta(k) := EncodeMetadata(meta)], k)
  {
    hide Encode;
    hide IsVersionKey;
    var m' := m[EncodeMeta(k) := EncodeMetadata(meta)];
    forall e | e in m' ensures Entry(m', keys, e) {
      if e != EncodeMeta(k) {
        assert Entry(m, keys, e);
      }
    }
  }

  lemma {:induction false} DeleteWellFormed(m: Store, keys: set<Bytes>, k: Bytes, x: Bytes)
    requires WellFormed(m, keys) && EncodeMeta(k) <= x
    ensures WellFormed(m - {x}, keys) && SameOutside(m, m - {x}, k)
  {
    hide IsVersionKey;
    forall e | e in m - {x} ensures Entry(m - {x}, keys, e) {
      assert Entry(m, keys, e);
    }
  }

  // ----- Refinement: reads ----------------------------------------------------------

  /** A point read of the store is a read of the history it represents. */
  lemma {:induction false} GetRefines(m: Store, keys: set<Bytes>, k: Bytes, h: History, ts: Timestamp, opts: ReadOptions)
    requires WellFormed(m, keys) && k in keys && Represents(m, k, h) && IsStamp(ts)
    ensures Mvcc.Get(m, k, ts, opts) == Read(h, k, ts, opts)
  {
    hide Stored;
    hide Encode;
    hide Versions;
    hide Get;
    hide WellFormed;
    hide SeparatedKeys;
    hide ReadVersion;
    hide Conflict;
    hide MetaNames;
    assert SeparatedKeys(keys + {k}) by {
      SameKeys(m, keys, k);
    }
    var v := GetReadsNewest(m, keys, k, ts, opts);
    NewestRead(m, k, h, ts, v);
    if EncodeMeta(k) in m {
      ConflictAgrees(k, m[EncodeMeta(k)].meta, h, ts, opts);
    } else {
      assert UpTo(h.All().Keys, ts) == {};
    }
  }

  /** The metadata reports the conflicts of the history. */
  lemma {:induction false} ConflictAgrees(k: Bytes, meta: Meta, h: History, ts: Timestamp, opts: ReadOptions)
    requires h.Valid() && MetaNames(meta, h) && IsStamp(ts)
    ensures Read(h, k, ts, opts) ==
            if Conflict(k, meta, ts, opts).Some? then Failed(Conflict(k, meta, ts, opts).value)
            else
              var v := Max(UpTo(h.All().Keys, ts));
              if v.None? then Failed(NotFound) else Answer(h.All()[v.value])
  {
    hide Answer;
    if h.All() != map[] {
      MaxIs(h.All().Keys, meta.ts);
    }
    if h.intent.Some? {
      MaxIs(h.All().Keys, h.intent.value.ts);
    }
  }

  /** The version a read finds is the newest of the history at or below its timestamp. */
  lemma {:induction false} NewestRead(m: Store, k: Bytes, h: History, ts: Timestamp, v: Option<Timestamp>)
    requires Represents(m, k, h) && IsStamp(ts)
    requires v.Some? ==> IsNewest(m, k, ts, v.value)
    requires v.None? ==> NoVersion(m, k, ts)
    ensures Max(UpTo(h.All().Keys, ts)) == v
    ensures v.Some? ==> v.value in h.All() && ReadVersion(m[Encode(k, v.value)]) == Answer(h.All()[v.value])
  {
    hide Stored;
    hide Encode;
    hide Versions;
    hide ReadVersion;
    hide Answer;
    hide MetaNames;
    VersionsIff(m, k);
    var s := UpTo(h.All().Keys, ts);
    assert forall t :: t in h.All() <==> t in Versions(m, k);
    if v.Some? {
      assert v.value in Versions(m, k);
      MaxIs(s, v.value);
    } else {
      assert s == {};
    }
  }

  lemma {:induction false} SameKeys(m: Store, keys: set<Bytes>, k: Bytes)
    requires WellFormed(m, keys) && k in keys
    ensures SeparatedKeys(keys + {k})
  {
    hide IsVersionKey;
    assert keys + {k} == keys;
  }

  // ----- Refinement: writes ---------------------------------------------------------

  /** `r` takes the history `h` of `k` to `h'` and touches no other key. */
  ghost predicate Refines(m: Store, keys: set<Bytes>, k: Bytes, h': History, r: WriteResult) {
    r.error.None? && WellFormed(r.store, keys) && SameOutside(m, r.store, k) && Represents(r.store, k, h')
  }

  /** Raw bytes of all versions after an update. */
  lemma {:induction false} RawAllUpdate(h: History, h': History, t: Timestamp, live: Option<Bytes>)
    requires h'.All() == h.All()[t := live]
    ensures RawAll(h') == RawAll(h)[t := Stored(live)]
  {
  }

  lemma {:induction false} TwoWrites(m: Store, keys: set<Bytes>, k: Bytes, t: Timestamp, live: Option<Bytes>, meta: Meta)
    requires WellFormed(m, keys) && k in keys && IsStamp(t)
    ensures var m' := m[Encode(k, t) := Stored(live)][EncodeMeta(k) := EncodeMetadata(meta)];
            WellFormed(m', keys) && SameOutside(m, m', k) && Versions(m', k) == Versions(m, k)[t := Stored(live)]
  {
    hide Encode;
    hide Versions;
    hide WellFormed;
    var m1 := m[Encode(k, t) := Stored(live)];
    PutVersionWellFormed(m, keys, k, t, live);
    PutMetaWellFormed(m1, keys, k, meta);
    PutVersion(m, k, t, Stored(live));
    MetaKeepsVersions(m1, k, EncodeMetadata(meta));
  }

  lemma {:induction false} WrittenRepresents(m: Store, keys: set<Bytes>, k: Bytes, h: History, h': History,
                                             t: Timestamp, live: Option<Bytes>, meta: Meta)
    requires WellFormed(m, keys) && k in keys && Represents(m, k, h) && IsStamp(t)
    requires h'.Valid() && h'.All() == h.All()[t := live] && MetaNames(EncodeMetadata(meta).meta, h') && meta.keyBytes == |k|
    ensures Refines(m, keys, k, h',
                    WriteResult(m[Encode(k, t) := Stored(live)][EncodeMeta(k) := EncodeMetadata(meta)], None))
  {
    hide Encode;
    hide Versions;
    hide WellFormed;
    hide SameOutside;
    hide RawAll;
    hide MetaNames;
    TwoWrites(m, keys, k, t, live, meta);
    RawAllUpdate(h, h', t, live);
  }

  /** A versioned write is the write of the history, as long as the holder of an intent rewrites
      it at its timestamp. */
  lemma {:induction false} WriteRefines(m: Store, keys: set<Bytes>, k: Bytes, h: History, t: Timestamp,
                                        live: Option<Bytes>, txn: Option<TxnID>)
    requires WellFormed(m, keys) && k in keys && Represents(m, k, h) && IsStamp(t)
    requires h.HeldBy(txn) ==> t == h.intent.value.ts
    ensures var r := WriteVersion(m, k, t, live, txn);
            match Write(h, k, t, live, txn)
            case Accepted(h') => Refines(m, keys, k, h', r)
            case Refused(e) => r == WriteResult(m, Some(e))
  {
    hide Stored;
    hide Encode;
    hide Versions;
    hide WellFormed;
    hide SameOutside;
    hide RawAll;
    hide Refines;
    var w := Write(h, k, t, live, txn);
    var read := ReadMeta(m, k);
    assert read.Some?;
    MetaOfHistory(m, k, h, read.value);
    if w.Accepted? {
      assert w.h.All() == h.All()[t := live];
      assert IsMax(w.h.All().Keys, t);
      WrittenRepresents(m, keys, k, h, w.h, t, live, WrittenMeta(read.value, k, t, live, txn));
    }
  }

  /** A versioned put or deletion is read back by its writer from its timestamp on, and changes no
      read below it. */
  lemma {:induction false} WriteReadBack(m: Store, keys: set<Bytes>, k: Bytes, h: History, t: Timestamp,
                                         live: Option<Bytes>, txn: Option<TxnID>, ts: Timestamp)
    requires WellFormed(m, keys) && k in keys && Represents(m, k, h) && IsStamp(t) && IsStamp(ts)
    requires h.intent.Some? ==> h.intent.value.ts == t
    requires WriteVersion(m, k, t, live, txn).error.None?
    ensures var m' := WriteVersion(m, k, t, live, txn).store;
            var own := ReadOptions(txn, ZERO_TS);
            && (t.LessEq(ts) && live.Some? ==> Mvcc.Get(m', k, ts, own) == Value(live.value))
            && (t.LessEq(ts) && live.None? ==> Mvcc.Get(m', k, ts, own) == Failed(NotFound))
            && (ts.Less(t) ==> Mvcc.Get(m', k, ts, own) == Mvcc.Get(m, k, ts, own))
  {
    hide Mvcc.Get;
    hide WriteVersion;
    hide Read;
    hide Write;
    hide WellFormed;
    hide Represents;
    hide SameOutside;
    var own := ReadOptions(txn, ZERO_TS);
    WriteRefines(m, keys, k, h, t, live, txn);
    var w := Write(h, k, t, live, txn);
    RepresentsValid(m, k, h);
    WriteIsRead(h, k, t, live, txn, ts, own);
    GetRefines(m, keys, k, h, ts, own);
    GetRefines(WriteVersion(m, k, t, live, txn).store, keys, k, w.h, ts, own);
  }

  lemma {:induction false} RepresentsValid(m: Store, k: Bytes, h: History)
    requires Represents(m, k, h)
    ensures h.Valid()
  {
    hide Versions;
  }

  /** What the metadata tells a write. */
  lemma {:induction false} MetaOfHistory(m: Store, k: Bytes, h: History, meta: Meta)
    requires Represents(m, k, h) && ReadMeta(m, k) == Some(meta)
    ensures MetaNames(meta, h)
    ensures h.intent.Some? ==> meta.ts == h.intent.value.ts
    ensures h.intent.None? ==>
              (if meta.ts.IsEmpty() then Max(h.committed.Keys).None? else Max(h.committed.Keys) == Some(meta.ts))
  {
    hide Encode;
    hide Versions;
    if h.intent.Some? {
      assert IsMax(h.All().Keys, h.intent.value.ts);
      assert h.intent.value.ts in h.All();
    } else if h.committed != map[] {
      MaxIs(h.committed.Keys, meta.ts);
    }
  }

  /** A rewrite at another timestamp leaves the earlier version behind: the store then represents
      the rewritten history exactly when the timestamp is the intent's. */
  lemma {:induction false} RewriteExactly(m: Store, keys: set<Bytes>, k: Bytes, h: History, t: Timestamp,
                                          live: Option<Bytes>, txn: Option<TxnID>)
    requires WellFormed(m, keys) && k in keys && Represents(m, k, h) && IsStamp(t) && h.HeldBy(txn)
    ensures Represents(WriteVersion(m, k, t, live, txn).store, k,
                       h.(intent := Some(Intent(txn.value, t, live)))) <==>
            t == h.intent.value.ts
  {
    hide Encode;
    hide Versions;
    hide WellFormed;
    hide SameOutside;
    var i := h.intent.value.ts;
    var h' := h.(intent := Some(Intent(txn.value, t, live)));
    if t == i {
      WriteRefines(m, keys, k, h, t, live, txn);
    } else {
      var meta := ReadMeta(m, k).value;
      MetaOfHistory(m, k, h, meta);
      TwoWrites(m, keys, k, t, live, WrittenMeta(meta, k, t, live, txn));
      assert i in RawAll(h) && i !in RawAll(h');
    }
  }

  /** Moving a version to another timestamp. */
  lemma {:induction false} MoveVersions(m: Store, keys: set<Bytes>, k: Bytes, from: Timestamp, to: Timestamp,
                                        live: Option<Bytes>, meta: Meta)
    requires WellFormed(m, keys) && k in keys && IsStamp(from) && IsStamp(to)
    requires Encode(k, from) in m && m[Encode(k, from)] == Stored(live)
    ensures var m' := Move(m, k, from, to)[EncodeMeta(k) := EncodeMetadata(meta)];
            WellFormed(m', keys) && SameOutside(m, m', k) && Versions(m', k) == Versions(m, k)[to := Stored(live)] - {from}
  {
    hide Encode;
    hide Versions;
    hide WellFormed;
    var m1 := m[Encode(k, to) := Stored(live)];
    var m2 := m1 - {Encode(k, from)};
    PutVersionWellFormed(m, keys, k, to, live);
    PutVersion(m, k, to, Stored(live));
    EncodeUnder(k, from);
    DeleteWellFormed(m1, keys, k, Encode(k, from));
    DeleteVersion(m1, k, from);
    PutMetaWellFormed(m2, keys, k, meta);
    MetaKeepsVersions(m2, k, EncodeMetadata(meta));
  }

  lemma {:induction false} IntentEntry(m: Store, k: Bytes, h: History)
    requires Represents(m, k, h) && h.intent.Some?
    ensures Encode(k, h.intent.value.ts) in m && m[Encode(k, h.intent.value.ts)] == Stored(h.intent.value.live)
  {
    hide Encode;
    hide Versions;
    VersionIff(m, k, h.intent.value.ts);
    assert h.intent.value.ts in RawAll(h);
  }

  /** Pushing refines pushing, whatever the timestamp. */
  lemma {:induction false} PushRefines(m: Store, keys: set<Bytes>, k: Bytes, h: History, txn: TxnID, t: Timestamp)
    requires WellFormed(m, keys) && k in keys && Represents(m, k, h) && IsStamp(t)
    ensures Refines(m, keys, k, Push(h, txn, t), PushIntent(m, k, txn, t))
  {
    hide Stored;
    hide Encode;
    hide Versions;
    hide WellFormed;
    hide SameOutside;
    hide RawAll;
    SameOutsideItself(m, k);
    if h.HeldBy(Some(txn)) {
      var meta := m[EncodeMeta(k)].meta;
      var i := h.intent.value;
      MetaOfHistory(m, k, h, meta);
      IntentEntry(m, k, h);
      if i.ts.Less(t) {
        var h' := Push(h, txn, t);
        MoveVersions(m, keys, k, i.ts, t, i.live, meta.(ts := t, txnTs := t));
        RawAllMove(h, h', i.ts, t, i.live);
        assert IsMax(h'.All().Keys, t);
      }
    }
  }

  lemma {:induction false} SameOutsideItself(m: Store, k: Bytes)
    ensures SameOutside(m, m, k)
  {
  }

  lemma {:induction false} RawAllMove(h: History, h': History, from: Timestamp, to: Timestamp, live: Option<Bytes>)
    requires h'.All() == h.All()[to := live] - {from}
    ensures RawAll(h') == RawAll(h)[to := Stored(live)] - {from}
  {
  }

  /** A commit refines the commit of the history exactly when no committed version lies above the
      commit timestamp. */
  lemma {:induction false} CommitRefines(m: Store, keys: set<Bytes>, k: Bytes, h: History, txn: TxnID, t: Timestamp)
    requires WellFormed(m, keys) && k in keys && Represents(m, k, h) && IsStamp(t)
    ensures Refines(m, keys, k, Commit(h, txn, t), CommitIntent(m, k, txn, t)) <==>
            (h.HeldBy(Some(txn)) ==> forall u :: u in h.committed ==> u.LessEq(t))
  {
    hide Encode;
    hide Versions;
    hide WellFormed;
    hide SameOutside;
    hide RawAll;
    hide Refines;
    SameOutsideItself(m, k);
    if h.HeldBy(Some(txn)) {
      CommitHeld(m, keys, k, h, t);
    } else {
      RefinesItself(m, keys, k, h);
    }
  }

  lemma {:induction false} RefinesItself(m: Store, keys: set<Bytes>, k: Bytes, h: History)
    requires WellFormed(m, keys) && Represents(m, k, h)
    ensures Refines(m, keys, k, h, WriteResult(m, None))
  {
    hide WellFormed;
    hide Represents;
    SameOutsideItself(m, k);
  }

  lemma {:induction false} CommitHeld(m: Store, keys: set<Bytes>, k: Bytes, h: History, t: Timestamp)
    requires WellFormed(m, keys) && k in keys && Represents(m, k, h) && IsStamp(t) && h.intent.Some?
    ensures var id := h.intent.value.txn;
            Refines(m, keys, k, Commit(h, id, t), CommitIntent(m, k, id, t)) <==>
            (forall u :: u in h.committed ==> u.LessEq(t))
  {
    hide Encode;
    hide Versions;
    hide WellFormed;
    hide SameOutside;
    hide RawAll;
    hide Stored;
    var meta := m[EncodeMeta(k)].meta;
    var i := h.intent.value;
    var h' := Commit(h, i.txn, t);
    MetaOfHistory(m, k, h, meta);
    IntentEntry(m, k, h);
    var meta' := meta.(txn := None, txnTs := ZERO_TS, ts := t);
    if t == i.ts {
      PutMetaWellFormed(m, keys, k, meta');
      MetaKeepsVersions(m, k, EncodeMetadata(meta'));
      assert h'.All() == h.All();
      SameRawAll(h, h');
    } else {
      MoveVersions(m, keys, k, i.ts, t, i.live, meta');
      assert h'.All() == h.All()[t := i.live] - {i.ts};
      RawAllMove(h, h', i.ts, t, i.live);
    }
    CommitNames(h, t, meta, meta');
  }

  /** The metadata of a commit names the newest version exactly when none lies above. */
  lemma {:induction false} CommitNames(h: History, t: Timestamp, meta: Meta, meta': Meta)
    requires h.Valid() && h.intent.Some? && MetaNames(meta, h) && IsStamp(t) && meta.ts == h.intent.value.ts
    requires meta' == meta.(txn := None, txnTs := ZERO_TS, ts := t)
    ensures MetaNames(EncodeMetadata(meta').meta, Commit(h, h.intent.value.txn, t)) <==>
            (forall u :: u in h.committed ==> u.LessEq(t))
    ensures Commit(h, h.intent.value.txn, t).Valid()
  {
    assert t in Commit(h, h.intent.value.txn, t).All();
  }

  lemma {:induction false} SameRawAll(h: History, h': History)
    requires h'.All() == h.All()
    ensures RawAll(h') == RawAll(h)
  {
  }

  /** On a store whose entry at `ts` is present, the previous version is the newest one below. */
  lemma {:induction false} FindsPrevious(m: Store, keys: set<Bytes>, k: Bytes, ts: Timestamp)
    requires WellFormed(m, keys) && k in keys && IsStamp(ts) && ts in Versions(m, k)
    ensures match FindPrevious(m, k, ts)
            case Undecoded => false
            case NoPrevious => forall u :: u in Versions(m, k) ==> ts.LessEq(u)
            case Found(t, tombstone) =>
              && t in Versions(m, k) && t.Less(ts) && Versions(m, k)[t].Raw?
              && (tombstone <==> IsTombstone(Versions(m, k)[t].bytes))
              && forall u :: u in Versions(m, k) && u.Less(ts) ==> u.LessEq(t)
  {
    hide Less;
    hide Ceiling;
    hide Encode;
    hide Decode;
    hide IsVersionKey;
    hide Versions;
    hide WellFormed;
    hide SeparatedKeys;
    VersionsIff(m, k);
    var s := Encode(k, ts);
    LessIrreflexive(s);
    CeilingIs(m, s, s);
    var c := Ceiling(m, s + [0]);
    if c.Some? {
      EntryDecodes(m, keys, c.value);
    }
    if c.Some? && IsVersionKey(c.value, k) {
      NextVersion(m, keys, k, ts, c.value);
      var w := VersionOf(c.value, k);
      VersionKeyIs(c.value, k);
      DecodeVersioned(k, w);
    } else {
      forall u | u in Versions(m, k) && u.Less(ts) ensures false {
        NextIsVersion(m, keys, k, ts, u);
      }
      if c.Some? && Decode(c.value).Versioned? && Decode(c.value).key == k {
        DecodedUnder(c.value, k);
        SameKeys(m, keys, k);
        EntryUnder(m, keys, k, c.value);
        MetaLength(k);
      }
    }
  }

  lemma {:induction false} MetaLength(k: Bytes)
    ensures |EncodeMeta(k)| == |k| + 1
  {
  }

  /** With an older version present, the entry after the one at `ts` is a version of `k`. */
  lemma {:induction false} NextIsVersion(m: Store, keys: set<Bytes>, k: Bytes, ts: Timestamp, u: Timestamp)
    requires WellFormed(m, keys) && k in keys && IsStamp(ts) && IsStamp(u) && u.Less(ts)
    requires Encode(k, ts) in m && Encode(k, u) in m
    ensures var c := Ceiling(m, Encode(k, ts) + [0]);
            c.Some? && IsVersionKey(c.value, k) && !Less(Encode(k, u), c.value)
  {
    hide Less;
    hide Ceiling;
    hide Encode;
    hide IsVersionKey;
    hide WellFormed;
    hide SeparatedKeys;
    var s := Encode(k, ts);
    var c := Ceiling(m, s + [0]);
    LessIrreflexive(s);
    VersionOrder(k, ts, u);
    VersionOrder(k, u, ts);
    AfterCeiling(m, s, s, Encode(k, u));
    AfterCeiling(m, s, s, c.value);
    BetweenVersions(k, ts, u, c.value);
    SameKeys(m, keys, k);
    EntryUnder(m, keys, k, c.value);
    if c.value == EncodeMeta(k) {
      assert false;
    }
  }

  /** The version entry following `ts` is the newest below it. */
  lemma {:induction false} NextVersion(m: Store, keys: set<Bytes>, k: Bytes, ts: Timestamp, c: Bytes)
    requires WellFormed(m, keys) && k in keys && IsStamp(ts) && Encode(k, ts) in m
    requires Ceiling(m, Encode(k, ts) + [0]) == Some(c) && IsVersionKey(c, k)
    ensures var w := VersionOf(c, k);
            && c == Encode(k, w) && w.Less(ts) && m[c].Raw?
            && forall u :: IsStamp(u) && Encode(k, u) in m && u.Less(ts) ==> u.LessEq(w)
  {
    hide Less;
    hide Ceiling;
    hide Encode;
    hide IsVersionKey;
    hide WellFormed;
    hide SeparatedKeys;
    var s := Encode(k, ts);
    var w := VersionOf(c, k);
    LessIrreflexive(s);
    VersionKeyIs(c, k);
    AfterCeiling(m, s, s, c);
    VersionOrder(k, w, ts);
    EncodeInjective(k, w, k, ts);
    EncodeUnder(k, w);
    SameKeys(m, keys, k);
    EntryUnder(m, keys, k, c);
    NotVersionKey(k);
    forall u | IsStamp(u) && Encode(k, u) in m && u.Less(ts) ensures u.LessEq(w) {
      NextIsVersion(m, keys, k, ts, u);
      VersionOrder(k, u, w);
    }
  }

  /** Aborting refines aborting: the metadata goes back to the newest committed version, or away. */
  lemma {:induction false} AbortRefines(m: Store, keys: set<Bytes>, k: Bytes, h: History, txn: TxnID)
    requires WellFormed(m, keys) && k in keys && Represents(m, k, h)
    ensures Refines(m, keys, k, Abort(h, txn), AbortIntent(m, k, txn))
  {
    hide Stored;
    hide Encode;
    hide Versions;
    hide WellFormed;
    hide SameOutside;
    hide RawAll;
    hide FindPrevious;
    hide Refines;
    if h.HeldBy(Some(txn)) {
      var meta := m[EncodeMeta(k)].meta;
      var i := h.intent.value;
      MetaOfHistory(m, k, h, meta);
      IntentEntry(m, k, h);
      VersionsIff(m, k);
      FindsPrevious(m, keys, k, i.ts);
      AbortedVersions(m, keys, k, h);
      match FindPrevious(m, k, i.ts)
      case Undecoded =>
      case NoPrevious =>
        assert h.committed == map[];
        AbortedAway(m, keys, k, h);
      case Found(t, tombstone) =>
        assert t in h.committed && IsMax(h.committed.Keys, t);
        AbortedBack(m, keys, k, h, t);
    } else {
      RefinesItself(m, keys, k, h);
    }
  }

  /** Nothing is left of a key whose first write is aborted. */
  lemma {:induction false} AbortedAway(m: Store, keys: set<Bytes>, k: Bytes, h: History)
    requires WellFormed(m, keys) && k in keys && Represents(m, k, h) && h.intent.Some? && h.committed == map[]
    ensures Refines(m, keys, k, h.(intent := None),
                    WriteResult(m - {Encode(k, h.intent.value.ts)} - {EncodeMeta(k)}, None))
  {
    hide Stored;
    hide Encode;
    hide Versions;
    hide WellFormed;
    hide SameOutside;
    hide RawAll;
    AbortedVersions(m, keys, k, h);
    var cleared := m - {Encode(k, h.intent.value.ts)};
    DeleteWellFormed(cleared, keys, k, EncodeMeta(k));
    SameOutsideTwice(m, cleared, cleared - {EncodeMeta(k)}, k);
    MetaKeepsVersions(cleared, k, EncodeMetadata(NO_META));
  }

  /** The metadata goes back to the newest committed version. */
  lemma {:induction false} AbortedBack(m: Store, keys: set<Bytes>, k: Bytes, h: History, t: Timestamp)
    requires WellFormed(m, keys) && k in keys && Represents(m, k, h) && h.intent.Some?
    requires t in h.committed && IsMax(h.committed.Keys, t)
    ensures Refines(m, keys, k, h.(intent := None),
                    WriteResult((m - {Encode(k, h.intent.value.ts)})
                                [EncodeMeta(k) := EncodeMetadata(RevertedMeta(k, t, h.committed[t].None?))], None))
  {
    hide Stored;
    hide Encode;
    hide Versions;
    hide WellFormed;
    hide SameOutside;
    hide RawAll;
    AbortedVersions(m, keys, k, h);
    var cleared := m - {Encode(k, h.intent.value.ts)};
    var meta' := RevertedMeta(k, t, h.committed[t].None?);
    PutMetaWellFormed(cleared, keys, k, meta');
    SameOutsideTwice(m, cleared, cleared[EncodeMeta(k) := EncodeMetadata(meta')], k);
    MetaKeepsVersions(cleared, k, EncodeMetadata(meta'));
  }

  lemma {:induction false} SameOutsideTwice(m: Store, m': Store, m'': Store, k: Bytes)
    requires SameOutside(m, m', k) && SameOutside(m', m'', k)
    ensures SameOutside(m, m'', k)
  {
  }

  /** Deleting the intent's version leaves the committed ones. */
  lemma {:induction false} AbortedVersions(m: Store, keys: set<Bytes>, k: Bytes, h: History)
    requires WellFormed(m, keys) && k in keys && Represents(m, k, h) && h.intent.Some?
    ensures var cleared := m - {Encode(k, h.intent.value.ts)};
            && WellFormed(cleared, keys) && SameOutside(m, cleared, k)
            && Versions(cleared, k) == RawAll(h.(intent := None))
    ensures forall t :: t in Versions(m, k) <==> t in h.committed || t == h.intent.value.ts
    ensures forall t :: t in h.committed ==> Versions(m, k)[t] == Stored(h.committed[t])
  {
    hide Stored;
    hide Encode;
    hide Versions;
    hide WellFormed;
    hide SameOutside;
    var ts := h.intent.value.ts;
    EncodeUnder(k, ts);
    DeleteWellFormed(m, keys, k, Encode(k, ts));
    DeleteVersion(m, k, ts);
    assert RawAll(h) - {ts} == RawAll(h.(intent := None));
  }

  /** Inline writes leave histories alone. */
  lemma {:induction false} InlineRefines(m: Store, keys: set<Bytes>, k: Bytes, h: History, value: Bytes)
    requires WellFormed(m, keys) && k in keys && Represents(m, k, h)
    ensures Refines(m, keys, k, h, WriteInline(m, k, value))
  {
    hide Encode;
    hide Versions;
    hide WellFormed;
    hide SameOutside;
    hide RawAll;
    var meta := ReadMeta(m, k).value.(inline := Some(value), keyBytes := |k|, valBytes := |value|);
    PutMetaWellFormed(m, keys, k, meta);
    MetaKeepsVersions(m, k, EncodeMetadata(meta));
  }
}
