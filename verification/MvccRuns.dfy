/** Every run of multi-version operations refines a run of per-key histories. */
module MvccRuns {
  import opened Bytes
  import opened Records
  import opened Hlc
  import opened MvccKey
  import opened Mvcc
  import opened Histories
  import opened MvccWrite
  import opened MvccGc

  datatype Op =
    | PutOp(key: Bytes, ts: Timestamp, live: Option<Bytes>, txn: Option<TxnID>)
    | InlineOp(key: Bytes, value: Bytes)
    | PushOp(key: Bytes, id: TxnID, ts: Timestamp)
    | CommitOp(key: Bytes, id: TxnID, ts: Timestamp)
    | AbortOp(key: Bytes, id: TxnID)
    | CollectOp(g: Timestamp)

  ghost function StepStore(m: Store, op: Op): Store {
    match op
    case PutOp(k, ts, live, txn) => WriteVersion(m, k, ts, live, txn).store
    case InlineOp(k, value) => WriteInline(m, k, value).store
    case PushOp(k, id, ts) => PushIntent(m, k, id, ts).store
    case CommitOp(k, id, ts) => CommitIntent(m, k, id, ts).store
    case AbortOp(k, id) => AbortIntent(m, k, id).store
    case CollectOp(g) => CollectedAll(m, g)
  }

  type KeyHistories = map<Bytes, History>

  ghost function StepKey(h: History, op: Op): History
    requires !op.CollectOp?
  {
    match op
    case PutOp(k, ts, live, txn) =>
      var w := Write(h, k, ts, live, txn);
      if w.Accepted? then w.h else h
    case InlineOp(_, _) => h
    case PushOp(_, id, ts) => Push(h, id, ts)
    case CommitOp(_, id, ts) => Commit(h, id, ts)
    case AbortOp(_, id) => Abort(h, id)
  }

  ghost function StepHistories(hs: KeyHistories, op: Op): KeyHistories
    requires Admissible(hs, op)
  {
    if op.CollectOp? then map k | k in hs :: if Unambiguous(k) then Collect(hs[k], op.g) else hs[k]
    else hs[op.key := StepKey(hs[op.key], op)]
  }

  /** Versions carry proper timestamps, an intent is rewritten only at its own timestamp, and a
      commit does not go below what is committed. */
  ghost predicate Admissible(hs: KeyHistories, op: Op) {
    && (!op.CollectOp? ==> op.key in hs)
    && match op
       case PutOp(k, ts, live, txn) => IsStamp(ts) && (hs[k].HeldBy(txn) ==> ts == hs[k].intent.value.ts)
       case PushOp(_, _, ts) => IsStamp(ts)
       case CommitOp(k, id, ts) =>
         IsStamp(ts) && (hs[k].HeldBy(Some(id)) ==> forall u :: u in hs[k].committed ==> u.LessEq(ts))
       case _ => true
  }

  ghost predicate RepresentsAll(m: Store, hs: KeyHistories) {
    WellFormed(m, hs.Keys) && forall k :: k in hs ==> Represents(m, k, hs[k])
  }

  /** Every operation on a key refines its step. */
  lemma {:induction false} KeyStepRefines(m: Store, hs: KeyHistories, op: Op)
    requires RepresentsAll(m, hs) && Admissible(hs, op) && !op.CollectOp?
    ensures WellFormed(StepStore(m, op), hs.Keys) && SameOutside(m, StepStore(m, op), op.key)
    ensures Represents(StepStore(m, op), op.key, StepKey(hs[op.key], op))
  {
    hide WellFormed;
    hide SameOutside;
    hide Represents;
    hide WriteVersion;
    hide WriteInline;
    hide PushIntent;
    hide CommitIntent;
    hide AbortIntent;
    hide Write;
    hide Push;
    hide Commit;
    hide Abort;
    var k := op.key;
    var h := hs[k];
    SameOutsideItself(m, k);
    match op
    case PutOp(_, ts, live, txn) => WriteRefines(m, hs.Keys, k, h, ts, live, txn);
    case InlineOp(_, value) => InlineRefines(m, hs.Keys, k, h, value);
    case PushOp(_, id, ts) => PushRefines(m, hs.Keys, k, h, id, ts);
    case CommitOp(_, id, ts) => CommitRefines(m, hs.Keys, k, h, id, ts);
    case AbortOp(_, id) => AbortRefines(m, hs.Keys, k, h, id);
  }

  /** One step of a run. */
  lemma {:induction false} StepRefines(m: Store, hs: KeyHistories, op: Op)
    requires RepresentsAll(m, hs) && Admissible(hs, op)
    ensures RepresentsAll(StepStore(m, op), StepHistories(hs, op))
  {
    hide WellFormed;
    hide SameOutside;
    hide Represents;
    hide StepKey;
    hide Collect;
    hide Unambiguous;
    var m' := StepStore(m, op);
    var hs' := StepHistories(hs, op);
    assert hs'.Keys == hs.Keys;
    if op.CollectOp? {
      forall k | k in hs ensures Represents(m', k, hs'[k]) {
        PassRefines(m, hs.Keys, op.g, k, hs[k]);
      }
      CollectedAllWellFormed(m, hs.Keys, op.g);
    } else {
      KeyStepRefines(m, hs, op);
      forall k | k in hs && k != op.key ensures Represents(m', k, hs'[k]) {
        SeparatedPair(m, hs.Keys, op.key, k);
        OtherKeysKept(m, m', op.key, k, hs[k]);
      }
    }
  }

  lemma {:induction false} CollectedAllWellFormed(m: Store, keys: set<Bytes>, g: Timestamp)
    requires WellFormed(m, keys)
    ensures WellFormed(CollectedAll(m, g), keys)
  {
    hide IsVersionKey;
    hide DroppedByPass;
    forall e | e in CollectedAll(m, g) ensures Entry(CollectedAll(m, g), keys, e) {
      assert Entry(m, keys, e);
    }
  }

  ghost function RunStore(ops: seq<Op>): Store {
    if ops == [] then map[] else StepStore(RunStore(ops[..|ops| - 1]), ops[|ops| - 1])
  }

  /** The histories after a run over `keys`, None when some operation was not admissible. */
  ghost function RunHistories(keys: set<Bytes>, ops: seq<Op>): Option<KeyHistories> {
    if ops == [] then Some(map k | k in keys :: NO_HISTORY)
    else
      var before := RunHistories(keys, ops[..|ops| - 1]);
      var op := ops[|ops| - 1];
      if before.Some? && Admissible(before.value, op) then Some(StepHistories(before.value, op)) else None
  }

  /** After every admissible run the store represents the histories. */
  lemma {:induction false} RunRefines(keys: set<Bytes>, ops: seq<Op>)
    requires SeparatedKeys(keys) && RunHistories(keys, ops).Some?
    ensures RepresentsAll(RunStore(ops), RunHistories(keys, ops).value)
    ensures RunHistories(keys, ops).value.Keys == keys
  {
    hide Represents;
    hide Admissible;
    hide StepHistories;
    hide StepStore;
    if ops == [] {
      hide IsVersionKey;
      forall k | k in keys ensures Represents(map[], k, NO_HISTORY) {
        EmptyStore(k);
      }
      assert (map k | k in keys :: NO_HISTORY).Keys == keys;
    } else {
      RunRefines(keys, ops[..|ops| - 1]);
      var before := RunHistories(keys, ops[..|ops| - 1]).value;
      var op := ops[|ops| - 1];
      StepRefines(RunStore(ops[..|ops| - 1]), before, op);
      SameDomain(before, op);
    }
  }

  lemma {:induction false} SameDomain(hs: KeyHistories, op: Op)
    requires Admissible(hs, op)
    ensures StepHistories(hs, op).Keys == hs.Keys
  {
    hide StepKey;
    hide Collect;
  }

  lemma {:induction false} EmptyStore(k: Bytes)
    ensures Represents(map[], k, NO_HISTORY)
  {
    hide IsVersionKey;
    assert Versions(map[], k) == map[];
    assert RawAll(NO_HISTORY) == map[];
  }

  /** After every admissible run, a point read is the read of the key's history; a reader not
      holding the intent reads the newest committed version at or below its timestamp. */
  lemma {:induction false} RunReads(keys: set<Bytes>, ops: seq<Op>, k: Bytes, ts: Timestamp, opts: ReadOptions)
    requires SeparatedKeys(keys) && RunHistories(keys, ops).Some? && k in keys && IsStamp(ts)
    ensures k in RunHistories(keys, ops).value
    ensures var h := RunHistories(keys, ops).value[k];
            var r := Get(RunStore(ops), k, ts, opts);
            && r == Read(h, k, ts, opts)
            && (!h.HeldBy(opts.txn) && r.Value? ==>
                  var v := Max(UpTo(h.committed.Keys, ts));
                  v.Some? && h.committed[v.value] == Some(r.value))
            && (r.Value? ==> WasWritten(ops, k, Some(r.value)))
  {
    hide *;
    RunRefines(keys, ops);
    var hs := RunHistories(keys, ops).value;
    AllOf(RunStore(ops), hs, k);
    GetRefines(RunStore(ops), hs.Keys, k, hs[k], ts, opts);
    var h := hs[k];
    if !h.HeldBy(opts.txn) {
      ReadsOnlyCommitted(h, k, ts, opts);
    }
    if Read(h, k, ts, opts).Value? {
      var t := ReadsVersion(h, k, ts, opts);
      HistoriesWereWritten(keys, ops, k, t);
    }
  }

  /** A value read is that of a version or of the intent. */
  lemma {:induction false} ReadsVersion(h: History, k: Bytes, ts: Timestamp, opts: ReadOptions) returns (t: Timestamp)
    requires Read(h, k, ts, opts).Value?
    ensures var live := Some(Read(h, k, ts, opts).value);
            if h.intent.Some? && h.intent.value.ts == t then h.intent.value.live == live
            else t in h.committed && h.committed[t] == live
  {
    t := Max(UpTo(h.All().Keys, ts)).value;
  }

  /** `live` was put to `k`, or deleted there, by one of the operations. */
  ghost predicate WasWritten(ops: seq<Op>, k: Bytes, live: Option<Bytes>) {
    exists i :: 0 <= i < |ops| && ops[i].PutOp? && ops[i].key == k && ops[i].live == live
  }

  /** Every version and intent of a run's histories was written by one of its operations. */
  lemma {:induction false} HistoriesWereWritten(keys: set<Bytes>, ops: seq<Op>, k: Bytes, t: Timestamp)
    requires RunHistories(keys, ops).Some? && k in RunHistories(keys, ops).value
    requires var h := RunHistories(keys, ops).value[k]; t in h.committed || (h.intent.Some? && h.intent.value.ts == t)
    ensures var h := RunHistories(keys, ops).value[k];
            && (t in h.committed ==> WasWritten(ops, k, h.committed[t]))
            && (h.intent.Some? && h.intent.value.ts == t ==> WasWritten(ops, k, h.intent.value.live))
    decreases |ops|
  {
    hide Max;
    hide Unambiguous;
    if ops != [] {
      var init, op := ops[..|ops| - 1], ops[|ops| - 1];
      var before := RunHistories(keys, init).value;
      var h, h' := before[k], RunHistories(keys, ops).value[k];
      WrittenSnoc(init, op, k);
      assert ops == init + [op];
      if t in h.committed || (h.intent.Some? && h.intent.value.ts == t) {
        HistoriesWereWritten(keys, init, k, t);
      }
      if h.intent.Some? {
        HistoriesWereWritten(keys, init, k, h.intent.value.ts);
      }
    }
  }

  lemma {:induction false} WrittenSnoc(ops: seq<Op>, op: Op, k: Bytes)
    ensures forall live :: WasWritten(ops, k, live) ==> WasWritten(ops + [op], k, live)
    ensures op.PutOp? && op.key == k ==> WasWritten(ops + [op], k, op.live)
  {
    forall live | WasWritten(ops, k, live) ensures WasWritten(ops + [op], k, live) {
      var i :| 0 <= i < |ops| && ops[i].PutOp? && ops[i].key == k && ops[i].live == live;
      assert (ops + [op])[i] == ops[i];
    }
    assert (ops + [op])[|ops|] == op;
  }

  lemma {:induction false} AllOf(m: Store, hs: KeyHistories, k: Bytes)
    requires RepresentsAll(m, hs) && k in hs
    ensures WellFormed(m, hs.Keys) && Represents(m, k, hs[k]) && hs[k].Valid()
  {
    hide WellFormed;
  }

  /** Writing a first intent and aborting it restores every versioned read of the key; the inline
      read is restored exactly when there was no inline value. */
  lemma {:induction false} AbortRestores(m: Store, keys: set<Bytes>, k: Bytes, h: History, t: Timestamp,
                                         live: Option<Bytes>, id: TxnID, ts: Timestamp, opts: ReadOptions)
    requires WellFormed(m, keys) && k in keys && Represents(m, k, h) && h.intent.None? && id != 0 && IsStamp(t)
    requires WriteVersion(m, k, t, live, Some(id)).error.None?
    ensures var written := WriteVersion(m, k, t, live, Some(id)).store;
            var m' := AbortIntent(written, k, id).store;
            && Represents(m', k, h)
            && (IsStamp(ts) ==> Get(m', k, ts, opts) == Get(m, k, ts, opts))
            && (Get(m', k, ZERO_TS, opts) == Get(m, k, ZERO_TS, opts) <==>
                !(EncodeMeta(k) in m && m[EncodeMeta(k)].meta.IsInline()))
  {
    hide Encode;
    hide EncodeMeta;
    hide Versions;
    hide WellFormed;
    hide FindPrevious;
    hide Read;
    hide SameOutside;
    hide Max;
    WriteRefines(m, keys, k, h, t, live, Some(id));
    var w := Write(h, k, t, live, Some(id));
    var written := WriteVersion(m, k, t, live, Some(id)).store;
    AbortRefines(written, keys, k, w.h, id);
    AbortUndoesWrite(h, k, t, live, id);
    var m' := AbortIntent(written, k, id).store;
    if IsStamp(ts) {
      GetRefines(m, keys, k, h, ts, opts);
      GetRefines(m', keys, k, h, ts, opts);
    }
    assert EncodeMeta(k) in m' ==> m'[EncodeMeta(k)].MetaVal? && !m'[EncodeMeta(k)].meta.IsInline();
  }

  /** Rewriting an intent at a later timestamp makes the first version a committed one: strangers
      read it while the transaction is pending, and it outlives an abort. */
  lemma {:induction false} MovedRewriteCommits(m: Store, keys: set<Bytes>, k: Bytes, h: History, t: Timestamp,
                                               live: Option<Bytes>, txn: Option<TxnID>, ts: Timestamp)
    requires WellFormed(m, keys) && k in keys && Represents(m, k, h) && IsStamp(t) && IsStamp(ts)
    requires h.HeldBy(txn) && h.intent.value.ts.LessEq(ts) && ts.Less(t)
    ensures var stranger := ReadOptions(None, ZERO_TS);
            var m' := WriteVersion(m, k, t, live, txn).store;
            && Get(m, k, ts, stranger) == Failed(WriteIntent(k, txn.value, h.intent.value.ts))
            && Get(m', k, ts, stranger) == Answer(h.intent.value.live)
            && Get(AbortIntent(m', k, txn.value).store, k, ts, stranger) == Answer(h.intent.value.live)
  {
    hide Encode;
    hide Versions;
    hide WellFormed;
    hide SameOutside;
    hide RawAll;
    hide Get;
    hide AbortIntent;
    var i := h.intent.value;
    var stranger := ReadOptions(None, ZERO_TS);
    var meta := m[EncodeMeta(k)].meta;
    MetaOfHistory(m, k, h, meta);
    var h' := History(h.committed[i.ts := i.live], Some(Intent(i.txn, t, live)));
    assert IsMax(h'.All().Keys, t);
    WrittenRepresents(m, keys, k, h, h', t, live, WrittenMeta(meta, k, t, live, txn));
    var m' := WriteVersion(m, k, t, live, txn).store;
    AbortRefines(m', keys, k, h', i.txn);
    GetRefines(m, keys, k, h, ts, stranger);
    GetRefines(m', keys, k, h', ts, stranger);
    GetRefines(AbortIntent(m', k, i.txn).store, keys, k, Abort(h', i.txn), ts, stranger);
    MaxIs(UpTo(h'.All().Keys, ts), i.ts);
    MaxIs(UpTo(h'.committed.Keys, ts), i.ts);
  }
}
