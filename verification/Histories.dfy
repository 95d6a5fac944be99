/** What multi-version storage means: per key, the committed versions and at most one write
    intent. */
module Histories {
  import opened Bytes
  import opened Records
  import opened Hlc
  import opened MvccKey
  import opened Mvcc

  /** The timestamps a version can have. */
  predicate IsStamp(t: Timestamp) {
    NonNegative(t) && !t.IsEmpty()
  }

  datatype Intent = Intent(txn: TxnID, ts: Timestamp, live: Option<Bytes>)

  datatype History = History(committed: map<Timestamp, Option<Bytes>>, intent: Option<Intent>)
  {
    /** Committed versions, and the intent's in its place. */
    ghost function All(): map<Timestamp, Option<Bytes>> {
      if intent.Some? then committed[intent.value.ts := intent.value.live] else committed
    }

    /** An intent is newer than everything committed. */
    ghost predicate Valid() {
      && (forall t :: t in committed ==> IsStamp(t))
      && (intent.Some? ==>
            && IsStamp(intent.value.ts) && intent.value.txn != 0
            && forall t :: t in committed ==> t.Less(intent.value.ts))
    }

    predicate HeldBy(txn: Option<TxnID>) {
      intent.Some? && txn == Some(intent.value.txn)
    }
  }

  const NO_HISTORY: History := History(map[], None)

  // ----- The newest version ---------------------------------------------------------

  ghost predicate IsMax(s: set<Timestamp>, t: Timestamp) {
    t in s && forall u :: u in s ==> u.LessEq(t)
  }

  lemma {:induction false} MaxExists(s: set<Timestamp>) returns (t: Timestamp)
    requires s != {}
    ensures IsMax(s, t)
    decreases s
  {
    var x :| x in s;
    t := x;
    if s - {x} != {} {
      var u := MaxExists(s - {x});
      t := if x.Less(u) then u else x;
    }
    assert forall u :: u in s ==> u == x || u in s - {x};
  }

  ghost function Max(s: set<Timestamp>): (t: Option<Timestamp>)
    ensures t.Some? ==> IsMax(s, t.value)
    ensures t.None? ==> s == {}
  {
    if s == {} then None
    else
      assert exists t :: IsMax(s, t) by {
        var t := MaxExists(s);
      }
      var t :| IsMax(s, t);
      Some(t)
  }

  lemma {:induction false} MaxIs(s: set<Timestamp>, t: Timestamp)
    requires IsMax(s, t)
    ensures Max(s) == Some(t)
  {
  }

  ghost function UpTo(s: set<Timestamp>, ts: Timestamp): set<Timestamp> {
    set t | t in s && t.LessEq(ts)
  }

  // ----- Reading --------------------------------------------------------------------

  /** A read at `ts`: the newest version at or below it, unless a foreign intent is visible or the
      newest version is in the reader's uncertainty window. */
  ghost function Read(h: History, key: Bytes, ts: Timestamp, opts: ReadOptions): ReadResult {
    var newest := Max(h.All().Keys);
    if h.intent.Some? && h.intent.value.ts.LessEq(ts) && !h.HeldBy(opts.txn) then
      Failed(WriteIntent(key, h.intent.value.txn, h.intent.value.ts))
    else if newest.Some? && !opts.maxTs.IsEmpty() && ts.Less(newest.value) && newest.value.LessEq(opts.maxTs) &&
            !h.HeldBy(opts.txn) then
      Failed(Uncertainty(key, ts, opts.maxTs, newest.value))
    else
      var v := Max(UpTo(h.All().Keys, ts));
      if v.None? then Failed(NotFound) else Answer(h.All()[v.value])
  }

  /** A reader that does not hold the intent sees only what is committed, and all of it: with no
      uncertainty window, the newest committed version at or below its timestamp. */
  lemma {:induction false} ReadsOnlyCommitted(h: History, key: Bytes, ts: Timestamp, opts: ReadOptions)
    requires h.Valid() && !h.HeldBy(opts.txn)
    ensures Read(h, key, ts, opts).Value? ==>
              var v := Max(UpTo(h.committed.Keys, ts));
              v.Some? && h.committed[v.value] == Some(Read(h, key, ts, opts).value)
    ensures opts.maxTs.IsEmpty() && !(h.intent.Some? && h.intent.value.ts.LessEq(ts)) ==>
              Read(h, key, ts, opts) == Read(h.(intent := None), key, ts, opts)
  {
    if !(h.intent.Some? && h.intent.value.ts.LessEq(ts)) {
      assert UpTo(h.All().Keys, ts) == UpTo(h.committed.Keys, ts);
    }
  }

  // ----- Writing --------------------------------------------------------------------

  datatype WriteError =
    | IntentHeld(key: Bytes, txn: TxnID, ts: Timestamp)
    | TooOld(key: Bytes, ts: Timestamp, existing: Timestamp)
    | MissingIntent
    | BadMetadata

  datatype Outcome = Accepted(h: History) | Refused(error: WriteError)

  predicate Transactional(txn: Option<TxnID>) {
    txn.Some? && txn.value != 0
  }

  ghost function Write(h: History, key: Bytes, t: Timestamp, live: Option<Bytes>, txn: Option<TxnID>): Outcome {
    var newest := Max(h.committed.Keys);
    if h.intent.Some? && !h.HeldBy(txn) then
      Refused(IntentHeld(key, h.intent.value.txn, h.intent.value.ts))
    else if h.intent.None? && newest.Some? && t.LessEq(newest.value) then
      Refused(TooOld(key, t, newest.value))
    else if Transactional(txn) then
      Accepted(h.(intent := Some(Intent(txn.value, t, live))))
    else
      Accepted(History(h.committed[t := live], None))
  }

  ghost function Push(h: History, txn: TxnID, t: Timestamp): History {
    if h.HeldBy(Some(txn)) && h.intent.value.ts.Less(t) then h.(intent := Some(h.intent.value.(ts := t))) else h
  }

  ghost function Commit(h: History, txn: TxnID, t: Timestamp): History {
    if h.HeldBy(Some(txn)) then History(h.committed[t := h.intent.value.live], None) else h
  }

  ghost function Abort(h: History, txn: TxnID): History {
    if h.HeldBy(Some(txn)) then h.(intent := None) else h
  }

  /** Garbage collection at `g`: the newest version, pending or not, and everything above `g`
      stay; a newest version that is a tombstone at or below `g` takes the whole key with it. */
  ghost function Collect(h: History, g: Timestamp): History {
    var newest := Max(h.All().Keys);
    if newest.Some? && newest.value.LessEq(g) && h.All()[newest.value].None? then NO_HISTORY
    else h.(committed := map t | t in h.committed && (Some(t) == newest || g.Less(t)) :: h.committed[t])
  }

  /** An accepted write is read by its writer from its timestamp on, and changes no read below. */
  lemma {:induction false} WriteIsRead(h: History, key: Bytes, t: Timestamp, live: Option<Bytes>, txn: Option<TxnID>,
                                       ts: Timestamp, opts: ReadOptions)
    requires h.Valid() && IsStamp(t) && (h.intent.Some? ==> h.intent.value.ts == t)
    requires Write(h, key, t, live, txn).Accepted? && opts.maxTs.IsEmpty()
    ensures t.LessEq(ts) && opts.txn == txn ==>
              Read(Write(h, key, t, live, txn).h, key, ts, opts) == Answer(live)
    ensures ts.Less(t) ==> Read(Write(h, key, t, live, txn).h, key, ts, opts) == Read(h, key, ts, opts)
  {
    var h' := Write(h, key, t, live, txn).h;
    if t.LessEq(ts) {
      MaxIs(UpTo(h'.All().Keys, ts), t);
    } else {
      assert UpTo(h'.All().Keys, ts) == UpTo(h.All().Keys, ts);
    }
  }

  /** Aborting the intent of a first write gives the history back. */
  lemma {:induction false} AbortUndoesWrite(h: History, key: Bytes, t: Timestamp, live: Option<Bytes>, txn: TxnID)
    requires h.intent.None? && txn != 0 && Write(h, key, t, live, Some(txn)).Accepted?
    ensures Abort(Write(h, key, t, live, Some(txn)).h, txn) == h
  {
  }

  /** Collection at `g` changes a read exactly when the version read is live, at or below `g`, and
      not the newest or below a collected tombstone. */
  lemma {:induction false} CollectReads(h: History, key: Bytes, g: Timestamp, ts: Timestamp, opts: ReadOptions)
    requires h.Valid() && h.intent.None? && opts.maxTs.IsEmpty()
    ensures var v := Max(UpTo(h.committed.Keys, ts));
            Read(Collect(h, g), key, ts, opts) != Read(h, key, ts, opts) <==>
            && v.Some? && h.committed[v.value].Some?
            && v.value.LessEq(g) && v != Max(h.committed.Keys)
  {
    var s := UpTo(h.committed.Keys, ts);
    var v := Max(s);
    var newest := Max(h.committed.Keys);
    var h' := Collect(h, g);
    var s' := UpTo(h'.committed.Keys, ts);
    assert h.All() == h.committed && h'.All() == h'.committed;
    assert s' <= s;
    if v.Some? && v.value in h'.committed {
      MaxIs(s', v.value);
    } else {
      assert s' == {};
    }
  }

  /** Reads at or above the newest version survive collection at any threshold. */
  lemma {:induction false} CollectSparesLatest(h: History, key: Bytes, g: Timestamp, ts: Timestamp, opts: ReadOptions)
    requires h.Valid() && h.intent.None? && opts.maxTs.IsEmpty()
    requires forall t :: t in h.committed ==> t.LessEq(ts)
    ensures Read(Collect(h, g), key, ts, opts) == Read(h, key, ts, opts)
  {
    assert UpTo(h.committed.Keys, ts) == h.committed.Keys;
    CollectReads(h, key, g, ts, opts);
  }

  /** Under a pending intent the newest committed version has no such protection: after collection
      and an abort, a read is lost exactly when the version it sees is live and at or below `g`. */
  lemma {:induction false} CollectThenAbort(h: History, key: Bytes, g: Timestamp, ts: Timestamp, opts: ReadOptions)
    requires h.Valid() && h.intent.Some? && opts.maxTs.IsEmpty()
    ensures var v := Max(UpTo(h.committed.Keys, ts));
            var id := h.intent.value.txn;
            Read(Abort(Collect(h, g), id), key, ts, opts) != Read(Abort(h, id), key, ts, opts) <==>
            v.Some? && h.committed[v.value].Some? && v.value.LessEq(g)
  {
    var id := h.intent.value.txn;
    var v := Max(UpTo(h.committed.Keys, ts));
    var h' := Abort(Collect(h, g), id);
    MaxIs(h.All().Keys, h.intent.value.ts);
    assert h'.intent.None? && h'.committed.Keys <= h.committed.Keys;
    assert forall t :: t in h.committed ==> (t in h'.committed <==> g.Less(t));
    var s' := UpTo(h'.committed.Keys, ts);
    if v.Some? && v.value in h'.committed {
      MaxIs(s', v.value);
    } else {
      assert s' <= UpTo(h.committed.Keys, ts);
      assert forall t :: t in s' ==> g.Less(t);
      assert s' == {};
    }
  }

  /** A key holding a live version at 1 and another at 3: collecting at 2 loses the read at 2. */
  lemma {:induction false} CollectLosesReads(key: Bytes, v: Bytes)
    ensures var t1, t2, t3 := Timestamp(1, 0), Timestamp(2, 0), Timestamp(3, 0);
            var h := History(map[t1 := Some(v), t3 := Some(v)], None);
            var opts := ReadOptions(None, ZERO_TS);
            && h.Valid() && Read(h, key, t2, opts) == Value(v)
            && Read(Collect(h, t2), key, t2, opts) == Failed(NotFound)
  {
    var t1, t2, t3 := Timestamp(1, 0), Timestamp(2, 0), Timestamp(3, 0);
    var h := History(map[t1 := Some(v), t3 := Some(v)], None);
    MaxIs(UpTo(h.committed.Keys, t2), t1);
    MaxIs(h.committed.Keys, t3);
    assert UpTo(Collect(h, t2).committed.Keys, t2) == {};
  }
}
