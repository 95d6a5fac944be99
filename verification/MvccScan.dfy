/** Range scans: exactly the point reads of the keys in range, in order. */
module MvccScan {
  import opened Bytes
  import opened Records
  import opened Hlc
  import opened MvccKey
  import opened Engine
  import opened Mvcc

  /** A key and what its point read returned. */
  datatype KeyValue = KeyValue(key: Bytes, value: ReadResult)

  datatype ScanResult = Rows(rows: seq<KeyValue>) | ScanFailed(error: ReadError)

  /** The keys a scan of [start, end) visits: those in range whose metadata key decodes as
      metadata. */
  ghost predicate Visited(m: Store, k: Bytes, start: Bytes, end: Option<Bytes>) {
    && EncodeMeta(k) in m && Unambiguous(k)
    && !Less(k, start) && (end.Some? ==> Less(k, end.value))
  }

  /** `rows` has what a point read of `k` returns. */
  ghost predicate Reported(m: Store, k: Bytes, ts: Timestamp, opts: ReadOptions, rows: seq<KeyValue>) {
    var g := Get(m, k, ts, opts);
    if g.Failed? then g.error == NotFound else KeyValue(k, g) in rows
  }

  ghost predicate RowsSorted(rows: seq<KeyValue>) {
    forall i, j :: 0 <= i < j < |rows| ==> Less(rows[i].key, rows[j].key)
  }

  /** Every row is a visited key before `b` with its point read. */
  ghost predicate RowsSound(m: Store, start: Bytes, end: Option<Bytes>, ts: Timestamp, opts: ReadOptions,
                            rows: seq<KeyValue>, b: Bytes) {
    forall i :: 0 <= i < |rows| ==>
      && Visited(m, rows[i].key, start, end) && Less(EncodeMeta(rows[i].key), b)
      && Get(m, rows[i].key, ts, opts) == rows[i].value && !rows[i].value.Failed?
  }

  /** Every visited key before `b` is reported. */
  ghost predicate RowsComplete(m: Store, start: Bytes, end: Option<Bytes>, ts: Timestamp, opts: ReadOptions,
                               rows: seq<KeyValue>, b: Bytes) {
    forall k :: Visited(m, k, start, end) && Less(EncodeMeta(k), b) ==> Reported(m, k, ts, opts, rows)
  }

  /** `k` is the first visited key whose point read fails. */
  ghost predicate FailsFirst(m: Store, k: Bytes, start: Bytes, end: Option<Bytes>, ts: Timestamp, opts: ReadOptions,
                             error: ReadError) {
    && Visited(m, k, start, end) && error != NotFound && Get(m, k, ts, opts) == Failed(error)
    && forall k' :: Visited(m, k', start, end) && Less(k', k) ==>
                      !Get(m, k', ts, opts).Failed? || Get(m, k', ts, opts).error == NotFound
  }

  /** `key + 0x00`: the least string above `key`. */
  function NextKeyPrefix(key: Bytes): Bytes {
    key + [0]
  }

  method Scan(m: Store, start: Bytes, end: Option<Bytes>, ts: Timestamp, opts: ReadOptions)
    returns (r: ScanResult)
    ensures r.Rows? ==>
              && RowsSorted(r.rows)
              && (forall i :: 0 <= i < |r.rows| ==>
                    && Visited(m, r.rows[i].key, start, end)
                    && Get(m, r.rows[i].key, ts, opts) == r.rows[i].value && !r.rows[i].value.Failed?)
              && (forall k :: Visited(m, k, start, end) ==> Reported(m, k, ts, opts, r.rows))
    ensures r.ScanFailed? ==>
              || (exists k :: FailsFirst(m, k, start, end, ts, opts, r.error))
              || (r.error == Corrupt && exists e :: e in m && Decode(e).Malformed?)
  {
    hide Less;
    hide Get;
    hide Ceiling;
    hide Decode;
    hide Unambiguous;
    hide Remaining;
    hide RowsSound;
    hide RowsComplete;
    hide RowsSorted;
    var rows: seq<KeyValue> := [];
    var cur := Ceiling(m, EncodeMeta(start));
    ghost var b := EncodeMeta(start);
    StartOfScan(m, start, end, ts, opts);
    while cur.Some?
      invariant cur == Ceiling(m, b)
      invariant RowsSorted(rows) && RowsSound(m, start, end, ts, opts, rows, b)
      invariant RowsComplete(m, start, end, ts, opts, rows, b)
      invariant !Less(b, EncodeMeta(start))
      decreases Remaining(m, b)
    {
      var c := cur.value;
      if Decode(c).Malformed? {
        return ScanFailed(Corrupt);
      }
      Shrinks(m, b, c);
      AboveStart(b, c, EncodeMeta(start));
      if Decode(c).Versioned? {
        SkipVersion(m, start, end, ts, opts, rows, b, c);
        cur := Ceiling(m, c + [0]);
        b := c + [0];
        continue;
      }
      var rawKey := Decode(c).key;
      MetaKeyIsMeta(c);
      if end.Some? && !Less(rawKey, end.value) {
        BeyondEnd(m, start, end, ts, opts, rows, b, c, rawKey);
        FinishedRows(m, start, end, ts, opts, rows, b);
        return Rows(rows);
      }
      VisitedNow(m, start, end, b, c, rawKey);
      var g := Get(m, rawKey, ts, opts);
      if g.Failed? && g.error != NotFound {
        FirstFailure(m, start, end, ts, opts, rows, b, c, rawKey);
        return ScanFailed(g.error);
      }
      ReportKey(m, start, end, ts, opts, rows, b, c, rawKey);
      if !g.Failed? {
        rows := rows + [KeyValue(rawKey, g)];
      }
      assert EncodeMeta(NextKeyPrefix(rawKey)) == c + [0];
      cur := Ceiling(m, EncodeMeta(NextKeyPrefix(rawKey)));
      b := c + [0];
    }
    EndOfStore(m, start, end, ts, opts, rows, b);
    FinishedRows(m, start, end, ts, opts, rows, b);
    return Rows(rows);
  }

  lemma {:induction false} StartOfScan(m: Store, start: Bytes, end: Option<Bytes>, ts: Timestamp, opts: ReadOptions)
    ensures RowsSorted([]) && RowsSound(m, start, end, ts, opts, [], EncodeMeta(start))
    ensures RowsComplete(m, start, end, ts, opts, [], EncodeMeta(start))
    ensures !Less(EncodeMeta(start), EncodeMeta(start))
  {
    hide Less;
    hide Get;
    LessIrreflexive(EncodeMeta(start));
    forall k | Visited(m, k, start, end) ensures !Less(EncodeMeta(k), EncodeMeta(start)) {
      MetaOrder(k, start);
    }
  }

  lemma {:induction false} SkipVersion(m: Store, start: Bytes, end: Option<Bytes>, ts: Timestamp, opts: ReadOptions,
                                       rows: seq<KeyValue>, b: Bytes, c: Bytes)
    requires IsCeiling(m, b, c) && Decode(c).Versioned?
    requires RowsSound(m, start, end, ts, opts, rows, b) && RowsComplete(m, start, end, ts, opts, rows, b)
    ensures RowsSound(m, start, end, ts, opts, rows, c + [0]) && RowsComplete(m, start, end, ts, opts, rows, c + [0])
  {
    hide Less;
    hide Get;
    hide Decode;
    hide Unambiguous;
    forall i | 0 <= i < |rows| ensures Less(EncodeMeta(rows[i].key), c + [0]) {
      AfterCeiling(m, b, c, EncodeMeta(rows[i].key));
    }
    forall k | Visited(m, k, start, end) && Less(EncodeMeta(k), c + [0]) ensures Less(EncodeMeta(k), b) {
      AfterCeiling(m, b, c, EncodeMeta(k));
      DecodeMetaExactly(k);
    }
  }

  /** A metadata key in range is visited. */
  lemma {:induction false} VisitedNow(m: Store, start: Bytes, end: Option<Bytes>, b: Bytes, c: Bytes, k: Bytes)
    requires IsCeiling(m, b, c) && !Less(c, EncodeMeta(start))
    requires Decode(c) == MetaKey(k) && c == EncodeMeta(k) && (end.Some? ==> Less(k, end.value))
    ensures Visited(m, k, start, end)
  {
    hide Less;
    hide Decode;
    DecodeMetaExactly(k);
    MetaOrder(k, start);
  }

  /** Visiting `k` extends soundness and completeness past its metadata key. */
  lemma {:induction false} ReportKey(m: Store, start: Bytes, end: Option<Bytes>, ts: Timestamp, opts: ReadOptions,
                                     rows: seq<KeyValue>, b: Bytes, c: Bytes, k: Bytes)
    requires IsCeiling(m, b, c) && c == EncodeMeta(k) && Visited(m, k, start, end)
    requires RowsSorted(rows) && RowsSound(m, start, end, ts, opts, rows, b)
    requires RowsComplete(m, start, end, ts, opts, rows, b)
    requires Get(m, k, ts, opts).Failed? ==> Get(m, k, ts, opts).error == NotFound
    ensures var rows' := if Get(m, k, ts, opts).Failed? then rows else rows + [KeyValue(k, Get(m, k, ts, opts))];
            && RowsSorted(rows') && RowsSound(m, start, end, ts, opts, rows', c + [0])
            && RowsComplete(m, start, end, ts, opts, rows', c + [0])
  {
    hide Less;
    hide Get;
    hide Unambiguous;
    var g := Get(m, k, ts, opts);
    var rows' := if g.Failed? then rows else rows + [KeyValue(k, g)];
    LessIrreflexive(c);
    SuccessorIsNext(c, c);
    forall i | 0 <= i < |rows| ensures Less(EncodeMeta(rows[i].key), c + [0]) && Less(rows[i].key, k) {
      AfterCeiling(m, b, c, EncodeMeta(rows[i].key));
      BelowCeiling(m, b, c, EncodeMeta(rows[i].key));
      MetaOrder(rows[i].key, k);
    }
    forall x | Visited(m, x, start, end) && Less(EncodeMeta(x), c + [0])
      ensures Reported(m, x, ts, opts, rows')
    {
      AfterCeiling(m, b, c, EncodeMeta(x));
      EncodeMetaInjective(x, k);
      assert !g.Failed? ==> rows'[|rows|] == KeyValue(k, g);
    }
  }

  lemma {:induction false} FirstFailure(m: Store, start: Bytes, end: Option<Bytes>, ts: Timestamp, opts: ReadOptions,
                                        rows: seq<KeyValue>, b: Bytes, c: Bytes, k: Bytes)
    requires IsCeiling(m, b, c) && c == EncodeMeta(k) && RowsComplete(m, start, end, ts, opts, rows, b)
    requires Visited(m, k, start, end) && Get(m, k, ts, opts).Failed? && Get(m, k, ts, opts).error != NotFound
    ensures FailsFirst(m, k, start, end, ts, opts, Get(m, k, ts, opts).error)
  {
    hide Less;
    hide Get;
    hide Unambiguous;
    forall k' | Visited(m, k', start, end) && Less(k', k)
      ensures !Get(m, k', ts, opts).Failed? || Get(m, k', ts, opts).error == NotFound
    {
      MetaOrder(k', k);
      LessTrichotomy(EncodeMeta(k'), c);
      assert Reported(m, k', ts, opts, rows);
    }
  }

  lemma {:induction false} BeyondEnd(m: Store, start: Bytes, end: Option<Bytes>, ts: Timestamp, opts: ReadOptions,
                                     rows: seq<KeyValue>, b: Bytes, c: Bytes, k: Bytes)
    requires IsCeiling(m, b, c) && c == EncodeMeta(k) && end.Some? && !Less(k, end.value)
    requires RowsComplete(m, start, end, ts, opts, rows, b)
    ensures forall x :: Visited(m, x, start, end) ==> Reported(m, x, ts, opts, rows)
  {
    hide Less;
    hide Get;
    hide Unambiguous;
    forall x | Visited(m, x, start, end) ensures Less(EncodeMeta(x), b) {
      LessTrichotomy(k, end.value);
      if k != end.value {
        LessTransitive(x, end.value, k);
      }
      MetaOrder(x, k);
      LessTrichotomy(EncodeMeta(x), c);
    }
  }

  lemma {:induction false} EndOfStore(m: Store, start: Bytes, end: Option<Bytes>, ts: Timestamp, opts: ReadOptions,
                                      rows: seq<KeyValue>, b: Bytes)
    requires Ceiling(m, b).None? && RowsComplete(m, start, end, ts, opts, rows, b)
    ensures forall x :: Visited(m, x, start, end) ==> Reported(m, x, ts, opts, rows)
  {
    hide Less;
    hide Get;
    hide Unambiguous;
    hide Ceiling;
  }

  lemma {:induction false} FinishedRows(m: Store, start: Bytes, end: Option<Bytes>, ts: Timestamp, opts: ReadOptions,
                                        rows: seq<KeyValue>, b: Bytes)
    requires RowsSound(m, start, end, ts, opts, rows, b)
    ensures forall i :: 0 <= i < |rows| ==>
              && Visited(m, rows[i].key, start, end)
              && Get(m, rows[i].key, ts, opts) == rows[i].value && !rows[i].value.Failed?
  {
  }
}
