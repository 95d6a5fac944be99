/** Multi-version storage over a sorted engine: metadata, versions and write intents as engine
    entries, point reads and writes. */
module Mvcc {
  import opened Bytes
  import opened Records
  import opened Hlc
  import opened MvccKey
  import opened Engine

  // ----- Values ---------------------------------------------------------------------

  /** A transaction id; zero is the id no transaction has. */
  type TxnID = nat

  datatype Meta = Meta(ts: Timestamp, deleted: bool, txn: Option<TxnID>, txnTs: Timestamp,
                       keyBytes: nat, valBytes: nat, inline: Option<Bytes>)
  {
    predicate HasIntent() {
      txn.Some? && txn.value != 0
    }

    predicate IsInline() {
      inline.Some?
    }
  }

  const ZERO_TS: Timestamp := Timestamp(0, 0)
  const NO_META: Meta := Meta(ZERO_TS, false, None, ZERO_TS, 0, 0, None)

  /** An engine value: a serialized metadata record or the bytes of one version. */
  datatype Val = MetaVal(meta: Meta) | Raw(bytes: Bytes)

  type Store = map<Bytes, Val>

  /** Serialization drops an inline value that is empty. */
  function EncodeMetadata(meta: Meta): Val {
    MetaVal(if meta.inline == Some([]) then meta.(inline := None) else meta)
  }

  /** Version bytes: a tag, then the user value. */
  function LiveBytes(value: Bytes): Bytes {
    [1] + value
  }

  const TOMBSTONE_BYTES: Bytes := [0]

  predicate IsTombstone(raw: Bytes) {
    raw == [] || raw[0] == 0
  }

  // ----- Reading --------------------------------------------------------------------

  datatype ReadOptions = ReadOptions(txn: Option<TxnID>, maxTs: Timestamp)

  datatype ReadError =
    | NotFound
    | WriteIntent(key: Bytes, txn: TxnID, ts: Timestamp)
    | Uncertainty(key: Bytes, readTs: Timestamp, maxTs: Timestamp, existing: Timestamp)
    | Corrupt

  /** A value, the serialized metadata of some key taken for one, or an error. */
  datatype ReadResult = Value(value: Bytes) | Garbled(meta: Meta) | Failed(error: ReadError)

  predicate OwnIntent(meta: Meta, txn: Option<TxnID>) {
    txn.Some? && meta.txn == txn
  }

  /** The bytes after the tag; serialized metadata begins like a live version. */
  function ReadVersion(v: Val): ReadResult {
    match v
    case MetaVal(meta) => Garbled(meta)
    case Raw(bytes) => if IsTombstone(bytes) then Failed(NotFound) else Value(bytes[1..])
  }

  /** What a reader gets for a value, or for a deletion. */
  function Answer(live: Option<Bytes>): ReadResult {
    if live.Some? then Value(live.value) else Failed(NotFound)
  }

  /** The version bytes of a value, or of a deletion. */
  function VersionBytes(live: Option<Bytes>): Bytes {
    if live.Some? then LiveBytes(live.value) else TOMBSTONE_BYTES
  }

  /** A stored version reads back as what was written. */
  function Stored(live: Option<Bytes>): (v: Val)
    ensures v.Raw? && ReadVersion(v) == Answer(live) && (IsTombstone(v.bytes) <==> live.None?)
    ensures v.bytes != [] && v.bytes[0] == if live.Some? then 1 else 0
  {
    Raw(VersionBytes(live))
  }

  /** What the metadata alone decides about a versioned read. */
  function Conflict(key: Bytes, meta: Meta, ts: Timestamp, opts: ReadOptions): Option<ReadError> {
    if meta.HasIntent() && meta.txnTs.LessEq(ts) && !OwnIntent(meta, opts.txn) then
      Some(WriteIntent(key, meta.txn.value, meta.txnTs))
    else if !opts.maxTs.IsEmpty() && ts.Less(meta.ts) && meta.ts.LessEq(opts.maxTs) &&
            !(meta.HasIntent() && OwnIntent(meta, opts.txn)) then
      Some(Uncertainty(key, ts, opts.maxTs, meta.ts))
    else None
  }

  function Get(m: Store, key: Bytes, ts: Timestamp, opts: ReadOptions): ReadResult {
    if EncodeMeta(key) !in m then Failed(NotFound)
    else if m[EncodeMeta(key)].Raw? then Failed(Corrupt)
    else
      var meta := m[EncodeMeta(key)].meta;
      if ts.IsEmpty() then (if meta.IsInline() then Value(meta.inline.value) else Failed(NotFound))
      else if Conflict(key, meta, ts, opts).Some? then Failed(Conflict(key, meta, ts, opts).value)
      else
        var c := Ceiling(m, Encode(key, ts));
        if c.None? then Failed(NotFound)
        else
          match Decode(c.value)
          case Malformed => Failed(Corrupt)
          case MetaKey(_) => Failed(NotFound)
          case Versioned(k, _) => if k == key then ReadVersion(m[c.value]) else Failed(NotFound)
  }

  // ----- Well-formed stores ---------------------------------------------------------

  /** No key extends another by a 0x00 byte: then no metadata key is a version key of another
      raw key, and the entries of one key are contiguous. */
  ghost predicate SeparatedKeys(keys: set<Bytes>) {
    forall a, b :: a in keys && b in keys && a != b ==> !(a + [0] <= b)
  }

  /** `e` is the engine key of some version of `k`. */
  predicate IsVersionKey(e: Bytes, k: Bytes) {
    && |e| == |k| + 1 + TS_SIZE && e[..|k| + 1] == k + [0]
    && NonNegative(DecodeTimestampDesc(e[|k| + 1..])) && !DecodeTimestampDesc(e[|k| + 1..]).IsEmpty()
  }

  function VersionOf(e: Bytes, k: Bytes): (t: Timestamp)
    requires IsVersionKey(e, k)
    ensures NonNegative(t) && !t.IsEmpty()
  {
    DecodeTimestampDesc(e[|k| + 1..])
  }

  lemma {:induction false} VersionKeyIs(e: Bytes, k: Bytes)
    requires IsVersionKey(e, k)
    ensures e == Encode(k, VersionOf(e, k))
  {
    hide EncodeTimestampDesc;
    hide DecodeTimestampDesc;
    TimestampBytesRoundTrip(e[|k| + 1..]);
    assert e == e[..|k| + 1] + e[|k| + 1..];
  }

  lemma {:induction false} EncodeIsVersionKey(k: Bytes, t: Timestamp)
    requires NonNegative(t) && !t.IsEmpty()
    ensures IsVersionKey(Encode(k, t), k) && VersionOf(Encode(k, t), k) == t
  {
    hide EncodeTimestampDesc;
    hide DecodeTimestampDesc;
    var e := Encode(k, t);
    assert e[|k| + 1..] == EncodeTimestampDesc(t);
    assert e[..|k| + 1] == k + [0];
    TimestampRoundTrip(t);
  }

  /** Every entry is the metadata or a version of a key in `keys`. */
  ghost predicate Entry(m: Store, keys: set<Bytes>, e: Bytes)
    requires e in m
  {
    exists k :: k in keys && ((e == EncodeMeta(k) && m[e].MetaVal?) || (IsVersionKey(e, k) && m[e].Raw?))
  }

  ghost predicate WellFormed(m: Store, keys: set<Bytes>) {
    SeparatedKeys(keys) && forall e :: e in m ==> Entry(m, keys, e)
  }

  /** `v` is the newest version of `key` at or below `ts`. */
  ghost predicate IsNewest(m: Store, key: Bytes, ts: Timestamp, v: Timestamp) {
    && NonNegative(v) && !v.IsEmpty() && v.LessEq(ts) && Encode(key, v) in m
    && forall u :: NonNegative(u) && !u.IsEmpty() && u.LessEq(ts) && Encode(key, u) in m ==> u.LessEq(v)
  }

  ghost predicate NoVersion(m: Store, key: Bytes, ts: Timestamp) {
    forall u :: NonNegative(u) && !u.IsEmpty() && u.LessEq(ts) ==> Encode(key, u) !in m
  }

  /** In a well-formed store an entry lying under `key + 0x00` belongs to `key`. */
  lemma {:induction false} EntryUnder(m: Store, keys: set<Bytes>, key: Bytes, e: Bytes)
    requires WellFormed(m, keys) && SeparatedKeys(keys + {key})
    requires e in m && EncodeMeta(key) <= e
    ensures (e == EncodeMeta(key) && m[e].MetaVal?) || (IsVersionKey(e, key) && m[e].Raw?)
  {
    hide DecodeTimestampDesc;
    assert Entry(m, keys, e);
    var k :| k in keys && ((e == EncodeMeta(k) && m[e].MetaVal?) || (IsVersionKey(e, k) && m[e].Raw?));
    if k != key {
      PrefixOverlap(k, key, e);
    }
  }

  /** Two keys both prefixing `e` up to their separators: one extends the other by 0x00. */
  lemma {:induction false} PrefixOverlap(k: Bytes, key: Bytes, e: Bytes)
    requires k + [0] <= e && key + [0] <= e && k != key
    ensures k + [0] <= key || key + [0] <= k
  {
    assert e[..|k|] == (k + [0])[..|k|] == k;
    assert e[..|key|] == (key + [0])[..|key|] == key;
    if |k| < |key| {
      assert forall i :: 0 <= i < |k| ==> (k + [0])[i] == e[i] == (key + [0])[i];
      assert (k + [0])[|k|] == e[|k|] == (key + [0])[|k|];
      assert k + [0] == key[..|k| + 1];
    } else if |key| < |k| {
      assert forall i :: 0 <= i < |key| ==> (k + [0])[i] == e[i] == (key + [0])[i];
      assert (key + [0])[|key|] == e[|key|] == (k + [0])[|key|];
      assert key + [0] == k[..|key| + 1];
    }
  }

  /** Entries decode to what they are. */
  lemma {:induction false} EntryDecodes(m: Store, keys: set<Bytes>, e: Bytes)
    requires WellFormed(m, keys) && e in m
    ensures !Decode(e).Malformed?
    ensures Decode(e).MetaKey? ==> Decode(e).key in keys && m[e].MetaVal?
    ensures m[e].Raw? ==> exists k :: k in keys && IsVersionKey(e, k) && Decode(e) == Versioned(k, VersionOf(e, k))
  {
    hide DecodeTimestampDesc;
    hide Decode;
    assert Entry(m, keys, e);
    var k :| k in keys && ((e == EncodeMeta(k) && m[e].MetaVal?) || (IsVersionKey(e, k) && m[e].Raw?));
    if m[e].MetaVal? {
      DecodeMetaExactly(k);
    } else {
      VersionKeyIs(e, k);
      DecodeVersioned(k, VersionOf(e, k));
    }
  }

  /** A key that decodes as a version of `key` lies under it. */
  lemma {:induction false} DecodedUnder(e: Bytes, key: Bytes)
    requires Decode(e).Versioned? && Decode(e).key == key
    ensures EncodeMeta(key) <= e && |e| == |key| + 1 + TS_SIZE
  {
    hide DecodeTimestampDesc;
    assert e[..|key| + 1] == key + [0];
  }

  /** Seeking to `Encode(key, ts)` finds the newest version at or below `ts`, or nothing of this
      key. */
  lemma {:induction false} SeekFindsNewest(m: Store, keys: set<Bytes>, key: Bytes, ts: Timestamp)
    returns (v: Option<Timestamp>)
    requires WellFormed(m, keys) && SeparatedKeys(keys + {key})
    requires NonNegative(ts) && !ts.IsEmpty()
    ensures v.Some? ==> IsNewest(m, key, ts, v.value) && Ceiling(m, Encode(key, ts)) == Some(Encode(key, v.value))
    ensures v.None? ==> NoVersion(m, key, ts)
    ensures v.None? ==> var c := Ceiling(m, Encode(key, ts)); c.Some? ==> !IsVersionKey(c.value, key)
  {
    hide Less;
    hide Ceiling;
    hide IsVersionKey;
    hide Encode;
    hide DecodeTimestampDesc;
    hide WellFormed;
    var s := Encode(key, ts);
    var c := Ceiling(m, s);
    if c.Some? && IsVersionKey(c.value, key) {
      var w := VersionOf(c.value, key);
      VersionKeyIs(c.value, key);
      VersionOrder(key, w, ts);
      forall u | NonNegative(u) && !u.IsEmpty() && u.LessEq(ts) && Encode(key, u) in m ensures u.LessEq(w) {
        VersionOrder(key, u, ts);
        VersionOrder(key, u, w);
      }
      v := Some(w);
    } else {
      v := None;
      forall u | NonNegative(u) && !u.IsEmpty() && u.LessEq(ts) ensures Encode(key, u) !in m {
        if Encode(key, u) in m {
          VersionOrder(key, u, ts);
          assert !Less(Encode(key, u), s);
          BetweenVersions(key, ts, u, c.value);
          EntryUnder(m, keys, key, c.value);
          VersionOrder(key, ts, ts);
          assert false;
        }
      }
    }
  }

  lemma {:induction false} BetweenVersions(key: Bytes, t: Timestamp, u: Timestamp, x: Bytes)
    requires !t.IsEmpty() && !u.IsEmpty() && !Less(x, Encode(key, t)) && !Less(Encode(key, u), x)
    ensures EncodeMeta(key) <= x
  {
    hide EncodeTimestampDesc;
    hide Less;
    Sandwich(key + [0], EncodeTimestampDesc(t), EncodeTimestampDesc(u), x);
  }

  /** A read at `ts` returns the newest version at or below `ts`, unless the metadata reports a
      conflict first. */
  lemma {:induction false} GetReadsNewest(m: Store, keys: set<Bytes>, key: Bytes, ts: Timestamp, opts: ReadOptions)
    returns (v: Option<Timestamp>)
    requires WellFormed(m, keys) && SeparatedKeys(keys + {key})
    requires NonNegative(ts) && !ts.IsEmpty()
    ensures v.Some? ==> IsNewest(m, key, ts, v.value)
    ensures v.None? ==> NoVersion(m, key, ts)
    ensures EncodeMeta(key) in m ==> m[EncodeMeta(key)].MetaVal?
    ensures Get(m, key, ts, opts) ==
              if EncodeMeta(key) !in m then Failed(NotFound)
              else if Conflict(key, m[EncodeMeta(key)].meta, ts, opts).Some?
                   then Failed(Conflict(key, m[EncodeMeta(key)].meta, ts, opts).value)
              else if v.Some? then ReadVersion(m[Encode(key, v.value)])
              else Failed(NotFound)
  {
    hide Less;
    hide Ceiling;
    hide IsVersionKey;
    hide Encode;
    hide DecodeTimestampDesc;
    hide WellFormed;
    hide Decode;
    hide Conflict;
    hide SeparatedKeys;
    v := SeekFindsNewest(m, keys, key, ts);
    if EncodeMeta(key) in m {
      EntryUnder(m, keys, key, EncodeMeta(key));
      NotVersionKey(key);
    }
    var c := Ceiling(m, Encode(key, ts));
    if v.Some? {
      DecodeVersioned(key, v.value);
    } else if c.Some? {
      EntryDecodes(m, keys, c.value);
      if Decode(c.value).Versioned? && Decode(c.value).key == key {
        DecodedUnder(c.value, key);
        EntryUnder(m, keys, key, c.value);
      }
    }
  }

  lemma {:induction false} NotVersionKey(key: Bytes)
    ensures !IsVersionKey(EncodeMeta(key), key)
  {
  }

  // ----- Keys inside one another ----------------------------------------------------

  /** Every entry is one of some key in `keys`, whether or not one key extends another. */
  ghost predicate AllEntries(m: Store, keys: set<Bytes>) {
    forall e :: e in m ==> Entry(m, keys, e)
  }

  /** `v` is the newest version of `key` at or below `ts` that a write left. */
  ghost predicate NewestWritten(m: Store, key: Bytes, ts: Timestamp, v: Timestamp) {
    && NonNegative(v) && !v.IsEmpty() && v.LessEq(ts) && Encode(key, v) in m && m[Encode(key, v)].Raw?
    && forall u :: NonNegative(u) && !u.IsEmpty() && u.LessEq(ts) && Encode(key, u) in m && m[Encode(key, u)].Raw? ==>
                     u.LessEq(v)
  }

  ghost predicate NoneWritten(m: Store, key: Bytes, ts: Timestamp) {
    forall u :: NonNegative(u) && !u.IsEmpty() && u.LessEq(ts) && Encode(key, u) in m ==> m[Encode(key, u)].MetaVal?
  }

  /** An entry met by a seek to `ts` before version `v`. */
  ghost predicate InBetween(m: Store, key: Bytes, ts: Timestamp, v: Timestamp, e: Bytes) {
    e in m && !Less(e, Encode(key, ts)) && Less(e, Encode(key, v))
  }

  /** `k` is `key`, a 0x00 byte and eleven more: its metadata key has the layout of a version key
      of `key`. */
  predicate Mimics(k: Bytes, key: Bytes) {
    |k| == |key| + TS_SIZE && key + [0] <= k
  }

  /** An entry is the metadata of a key mimicking `key`. */
  ghost predicate MimicAt(m: Store, keys: set<Bytes>, key: Bytes, e: Bytes) {
    e in m && m[e].MetaVal? && exists k :: k in keys && Mimics(k, key) && e == EncodeMeta(k)
  }

  /** A metadata key is a version key of another exactly when its raw key spells all of it but a
      last byte of zero, which timestamps have whose logical counter ends in 0xff. */
  lemma {:induction false} MetaIsVersionKey(k: Bytes, key: Bytes, t: Timestamp)
    requires !t.IsEmpty()
    ensures EncodeMeta(k) == Encode(key, t) <==>
            Mimics(k, key) && k[|key| + 1..] == EncodeTimestampDesc(t)[..TS_SIZE - 1] && U32(t.logical) % 256 == 255
  {
    var e := EncodeTimestampDesc(t);
    LastByte(t);
    if EncodeMeta(k) == Encode(key, t) {
      assert k == EncodeMeta(k)[..|k|] == key + [0] + e[..TS_SIZE - 1];
      assert EncodeMeta(k)[|k|] == e[TS_SIZE - 1];
    }
    if Mimics(k, key) && k[|key| + 1..] == e[..TS_SIZE - 1] && e[TS_SIZE - 1] == 0 {
      assert k == k[..|key| + 1] + k[|key| + 1..];
      assert e == e[..TS_SIZE - 1] + [0];
    }
  }

  /** Whatever the keys of a store, a read finds its version if and only if no entry lies between
      the place it seeks to and the version.  Such an entry is of a key that extends this one by
      0x00 or that this one extends.  The read then returns the metadata of another key for a
      value if the first such entry is that of a mimicking key, and finds nothing otherwise. */
  lemma {:induction false} ReadExactly(m: Store, keys: set<Bytes>, key: Bytes, ts: Timestamp, v: Timestamp,
                                       opts: ReadOptions)
    requires AllEntries(m, keys) && NonNegative(ts) && NewestWritten(m, key, ts, v)
    requires EncodeMeta(key) in m && m[EncodeMeta(key)].MetaVal?
    requires Conflict(key, m[EncodeMeta(key)].meta, ts, opts).None?
    ensures var c := Ceiling(m, Encode(key, ts));
            && c.Some?
            && ((exists e :: InBetween(m, key, ts, v, e)) <==> InBetween(m, key, ts, v, c.value))
            && Get(m, key, ts, opts) ==
               if !InBetween(m, key, ts, v, c.value) then ReadVersion(m[Encode(key, v)])
               else if MimicAt(m, keys, key, c.value) then Garbled(m[c.value].meta)
               else Failed(NotFound)
    ensures forall e :: InBetween(m, key, ts, v, e) ==>
              exists k :: k in keys && (key + [0] <= k || k + [0] <= key) && EncodeMeta(k) <= e
  {
    hide Less;
    hide Ceiling;
    hide IsVersionKey;
    hide Encode;
    hide DecodeTimestampDesc;
    hide Decode;
    hide Conflict;
    hide AllEntries;
    hide MimicAt;
    var s, w := Encode(key, ts), Encode(key, v);
    VersionOrder(key, v, ts);
    VersionOrder(key, ts, v);
    var c := Ceiling(m, s);
    assert c.Some?;
    if Less(c.value, w) {
      var k := Foreign(m, keys, key, ts, v, c.value);
      Misread(m, keys, key, k, c.value);
    } else {
      LessTrichotomy(c.value, w);
      assert c.value == w;
      DecodeVersioned(key, v);
    }
    forall e | InBetween(m, key, ts, v, e)
      ensures InBetween(m, key, ts, v, c.value)
      ensures exists k :: k in keys && (key + [0] <= k || k + [0] <= key) && EncodeMeta(k) <= e
    {
      var k := Foreign(m, keys, key, ts, v, e);
      LessTrichotomy(e, w);
    }
  }

  /** Without a version at or below its timestamp a read finds nothing, unless the first entry it
      meets is the metadata of a mimicking key. */
  lemma {:induction false} ReadNothing(m: Store, keys: set<Bytes>, key: Bytes, ts: Timestamp, opts: ReadOptions)
    requires AllEntries(m, keys) && NonNegative(ts) && !ts.IsEmpty() && NoneWritten(m, key, ts)
    requires EncodeMeta(key) in m && m[EncodeMeta(key)].MetaVal?
    requires Conflict(key, m[EncodeMeta(key)].meta, ts, opts).None?
    ensures var c := Ceiling(m, Encode(key, ts));
            Get(m, key, ts, opts) ==
            if c.Some? && MimicAt(m, keys, key, c.value) then Garbled(m[c.value].meta) else Failed(NotFound)
  {
    hide Less;
    hide Ceiling;
    hide IsVersionKey;
    hide Encode;
    hide DecodeTimestampDesc;
    hide Decode;
    hide Conflict;
    hide MimicAt;
    var c := Ceiling(m, Encode(key, ts));
    if c.Some? {
      var e := c.value;
      assert Entry(m, keys, e);
      var k :| k in keys && ((e == EncodeMeta(k) && m[e].MetaVal?) || (IsVersionKey(e, k) && m[e].Raw?));
      VersionOrder(key, ts, ts);
      if IsVersionKey(e, key) && m[e].Raw? {
        VersionKeyIs(e, key);
        VersionOrder(key, VersionOf(e, key), ts);
        assert false;
      }
      Misread(m, keys, key, k, e);
    }
  }

  /** An entry in between is not a version of the key, and belongs to a key inside or around it. */
  lemma {:induction false} Foreign(m: Store, keys: set<Bytes>, key: Bytes, ts: Timestamp, v: Timestamp, e: Bytes)
    returns (k: Bytes)
    requires AllEntries(m, keys) && NonNegative(ts) && NewestWritten(m, key, ts, v) && InBetween(m, key, ts, v, e)
    ensures k in keys && k != key && (key + [0] <= k || k + [0] <= key) && EncodeMeta(k) <= e
    ensures (e == EncodeMeta(k) && m[e].MetaVal?) || (IsVersionKey(e, k) && m[e].Raw?)
  {
    hide Less;
    hide DecodeTimestampDesc;
    hide Encode;
    assert Entry(m, keys, e);
    k :| k in keys && ((e == EncodeMeta(k) && m[e].MetaVal?) || (IsVersionKey(e, k) && m[e].Raw?));
    LessTrichotomy(e, Encode(key, v));
    assert !ts.IsEmpty();
    if k == key {
      if e == EncodeMeta(k) {
        VersionOrder(key, ts, ts);
      } else {
        VersionKeyIs(e, k);
        VersionOrder(key, VersionOf(e, k), ts);
        VersionOrder(key, VersionOf(e, k), v);
      }
      assert false;
    }
    BetweenVersions(key, ts, v, e);
    PrefixOverlap(k, key, e);
  }

  /** An entry of another key reads as a version of `key` exactly when that key mimics it. */
  lemma {:induction false} Misread(m: Store, keys: set<Bytes>, key: Bytes, k: Bytes, e: Bytes)
    requires e in m && k in keys && k != key
    requires (e == EncodeMeta(k) && m[e].MetaVal?) || (IsVersionKey(e, k) && m[e].Raw?)
    ensures !Decode(e).Malformed?
    ensures Decode(e).Versioned? && Decode(e).key == key <==> MimicAt(m, keys, key, e)
    ensures MimicAt(m, keys, key, e) ==> m[e].MetaVal?
  {
    hide DecodeTimestampDesc;
    hide Encode;
    hide Decode;
    hide IsVersionKey;
    if m[e].MetaVal? {
      DecodeMetaExactly(k);
      MimicDecodes(k, key);
      forall k' | e == EncodeMeta(k') ensures k' == k {
        EncodeMetaInjective(k', k);
      }
    } else {
      VersionKeyIs(e, k);
      DecodeVersioned(k, VersionOf(e, k));
    }
  }

  lemma {:induction false} MimicDecodes(k: Bytes, key: Bytes)
    ensures Decode(EncodeMeta(k)).Versioned? && Decode(EncodeMeta(k)).key == key <==> Mimics(k, key)
  {
    hide DecodeTimestampDesc;
    var e := EncodeMeta(k);
    if Mimics(k, key) {
      assert e[|key|] == k[|key|] == (key + [0])[|key|];
      assert e[..|key|] == k[..|key|] == (key + [0])[..|key|] == key;
    }
    if Decode(e).Versioned? && Decode(e).key == key {
      assert e[..|key| + 1] == key + [0];
      assert k[..|key| + 1] == e[..|key| + 1];
    }
  }

  /** A key that spells an engine key of another hides all its versions from reads at that
      timestamp as soon as it is written. */
  lemma {:induction false} NestedKeyHides(key: Bytes, ts: Timestamp, v: Timestamp, raw: Bytes, meta: Meta, meta': Meta,
                                          opts: ReadOptions)
    requires NonNegative(ts) && NonNegative(v) && !v.IsEmpty() && v.Less(ts)
    requires Conflict(key, meta, ts, opts).None?
    ensures var nested := Encode(key, ts);
            var m: Store := map[EncodeMeta(key) := MetaVal(meta), Encode(key, v) := Raw(raw)];
            && Get(m, key, ts, opts) == ReadVersion(Raw(raw))
            && Get(m[EncodeMeta(nested) := MetaVal(meta')], key, ts, opts) == Failed(NotFound)
  {
    hide Less;
    hide Ceiling;
    hide EncodeTimestampDesc;
    hide DecodeTimestampDesc;
    hide Conflict;
    var s, w := Encode(key, ts), Encode(key, v);
    var e := EncodeMeta(s);
    var m: Store := map[EncodeMeta(key) := MetaVal(meta), w := Raw(raw)];
    var m' := m[e := MetaVal(meta')];
    VersionOrder(key, v, ts);
    VersionOrder(key, ts, v);
    SuccessorIsNext(s, s);
    SuccessorIsNext(s, w);
    LessIrreflexive(s);
    LessIrreflexive(w);
    LessIrreflexive(e);
    LessTrichotomy(e, w);
    assert IsCeiling(m, s, w);
    CeilingUnique(m, s, w, Ceiling(m, s).value);
    DecodeVersioned(key, v);
    LessTrichotomy(s, e);
    assert IsCeiling(m', s, e);
    CeilingUnique(m', s, e, Ceiling(m', s).value);
    NestedDecodes(key, ts);
  }

  /** A read at a timestamp whose logical counter ends in 0xff returns the metadata of the key
      spelling it, whatever versions lie below. */
  lemma {:induction false} MimicGarbles(m: Store, k: Bytes, key: Bytes, ts: Timestamp, opts: ReadOptions)
    requires !ts.IsEmpty() && EncodeMeta(k) == Encode(key, ts) && EncodeMeta(k) in m && m[EncodeMeta(k)].MetaVal?
    requires EncodeMeta(key) in m && m[EncodeMeta(key)].MetaVal?
    requires Conflict(key, m[EncodeMeta(key)].meta, ts, opts).None?
    ensures Get(m, key, ts, opts) == Garbled(m[EncodeMeta(k)].meta)
  {
    hide Less;
    hide Ceiling;
    hide Encode;
    hide Decode;
    hide Conflict;
    var s := Encode(key, ts);
    LessIrreflexive(s);
    CeilingUnique(m, s, s, Ceiling(m, s).value);
    DecodeVersioned(key, ts);
  }

  lemma {:induction false} NestedDecodes(key: Bytes, ts: Timestamp)
    requires !ts.IsEmpty()
    ensures var d := Decode(EncodeMeta(Encode(key, ts))); d.MetaKey? || (d.Versioned? && d.key != key)
  {
    hide DecodeTimestampDesc;
    hide EncodeTimestampDesc;
    DecodeMetaExactly(Encode(key, ts));
  }
}
