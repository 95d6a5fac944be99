/** Garbage collection of versions: which entries go, and what it means for histories. */
module MvccGc {
  import opened Bytes
  import opened Records
  import opened Hlc
  import opened MvccKey
  import opened Engine
  import opened Mvcc
  import opened Histories
  import opened MvccWrite

  datatype VersionInfo = VersionInfo(ts: Timestamp, tombstone: bool)

  // ----- Listing the versions of a key ----------------------------------------------

  /** Newest first. */
  ghost predicate Descending(vs: seq<VersionInfo>) {
    forall i, j :: 0 <= i < j < |vs| ==> vs[j].ts.Less(vs[i].ts)
  }

  /** `vs` lists versions of `key` with their tombstone status. */
  ghost predicate ListsOnly(m: Store, key: Bytes, vs: seq<VersionInfo>) {
    forall i :: 0 <= i < |vs| ==>
      && vs[i].ts in Versions(m, key) && Versions(m, key)[vs[i].ts].Raw?
      && (vs[i].tombstone <==> IsTombstone(Versions(m, key)[vs[i].ts].bytes))
  }

  ghost predicate Listed(vs: seq<VersionInfo>, t: Timestamp) {
    exists i :: 0 <= i < |vs| && vs[i].ts == t
  }

  /** The versions before `b` are exactly those listed. */
  ghost predicate ListsUpTo(m: Store, key: Bytes, vs: seq<VersionInfo>, b: Bytes) {
    forall t :: t in Versions(m, key) ==> (Listed(vs, t) <==> Less(Encode(key, t), b))
  }

  ghost predicate ListsAll(m: Store, key: Bytes, vs: seq<VersionInfo>) {
    forall t :: t in Versions(m, key) ==> Listed(vs, t)
  }

  method CollectVersions(m: Store, key: Bytes, ghost keys: set<Bytes>) returns (vs: seq<VersionInfo>)
    requires WellFormed(m, keys) && key in keys
    ensures Descending(vs) && ListsOnly(m, key, vs)
    ensures EncodeMeta(key) in m && !Unambiguous(key) ==> vs == []
    ensures EncodeMeta(key) !in m || Unambiguous(key) ==> ListsAll(m, key, vs)
  {
    hide Less;
    hide Ceiling;
    hide Encode;
    hide EncodeMeta;
    hide Decode;
    hide IsVersionKey;
    hide Versions;
    hide WellFormed;
    hide Unambiguous;
    hide Remaining;
    hide Descending;
    hide ListsOnly;
    hide ListsUpTo;
    hide ListsAll;
    vs := [];
    var cur := Ceiling(m, EncodeMeta(key));
    Unlisted(m, key);
    LessIrreflexive(EncodeMeta(key));
    DecodeMetaExactly(key);
    NotVersionKey(key);
    if EncodeMeta(key) in m {
      CeilingIs(m, EncodeMeta(key), EncodeMeta(key));
    }
    if cur.None? {
      NoMoreVersions(m, keys, key, EncodeMeta(key), vs);
      return;
    }
    DecodesAsVersion(m, keys, key, cur.value);
    ghost var b := EncodeMeta(key);
    if !Decode(cur.value).Versioned? {
      FirstAfter(m, keys, key, cur.value);
      b := cur.value + [0];
      cur := Ceiling(m, cur.value + [0]);
    } else if Decode(cur.value).key != key {
      if EncodeMeta(key) !in m {
        NoMoreVersions(m, keys, key, b, vs);
      }
      return;
    }
    while cur.Some?
      invariant cur == Ceiling(m, b) && !Less(b, EncodeMeta(key)) && (cur.Some? ==> cur.value != EncodeMeta(key))
      invariant Descending(vs) && ListsOnly(m, key, vs) && ListsUpTo(m, key, vs, b)
      decreases Remaining(m, b)
    {
      var c := cur.value;
      DecodesAsVersion(m, keys, key, c);
      if !Decode(c).Versioned? || Decode(c).key != key {
        break;
      }
      var tombstone := m[c].Raw? && IsTombstone(m[c].bytes);
      ListNext(m, keys, key, b, c, vs);
      Shrinks(m, b, c);
      AboveStart(b, c, EncodeMeta(key));
      vs := vs + [VersionInfo(Decode(c).t, tombstone)];
      AfterIsNotMeta(m, key, c);
      cur := Ceiling(m, c + [0]);
      b := c + [0];
    }
    if cur.Some? {
      DecodesAsVersion(m, keys, key, cur.value);
    }
    NoMoreVersions(m, keys, key, b, vs);
  }

  lemma {:induction false} Unlisted(m: Store, key: Bytes)
    ensures Descending([]) && ListsOnly(m, key, []) && ListsUpTo(m, key, [], EncodeMeta(key))
  {
    hide Less;
    hide Encode;
    hide EncodeMeta;
    hide Versions;
    VersionsIff(m, key);
    forall t | t in Versions(m, key) ensures !Less(Encode(key, t), EncodeMeta(key)) {
      VersionOrder(key, t, t);
      LessTrichotomy(Encode(key, t), EncodeMeta(key));
    }
  }

  /** Decoding recognizes exactly the versions of `key`. */
  lemma {:induction false} DecodesAsVersion(m: Store, keys: set<Bytes>, key: Bytes, c: Bytes)
    requires WellFormed(m, keys) && key in keys && c in m
    ensures Decode(c).Versioned? && Decode(c).key == key <==> IsVersionKey(c, key)
    ensures IsVersionKey(c, key) ==> m[c].Raw? && Decode(c).t == VersionOf(c, key)
  {
    hide Decode;
    hide Encode;
    hide IsVersionKey;
    hide WellFormed;
    hide SeparatedKeys;
    SameKeys(m, keys, key);
    NotVersionKey(key);
    if IsVersionKey(c, key) {
      VersionKeyIs(c, key);
      DecodeVersioned(key, VersionOf(c, key));
      EncodeUnder(key, VersionOf(c, key));
      EntryUnder(m, keys, key, c);
    }
    if Decode(c).Versioned? && Decode(c).key == key {
      DecodedUnder(c, key);
      EntryUnder(m, keys, key, c);
      MetaLength(key);
    }
  }

  /** When the entry at or after `b` is no version of `key`, all its versions are before `b`. */
  lemma {:induction false} NoMoreVersions(m: Store, keys: set<Bytes>, key: Bytes, b: Bytes, vs: seq<VersionInfo>)
    requires WellFormed(m, keys) && key in keys && !Less(b, EncodeMeta(key)) && ListsUpTo(m, key, vs, b)
    requires var c := Ceiling(m, b); c.Some? ==> !IsVersionKey(c.value, key) && c.value != EncodeMeta(key)
    ensures ListsAll(m, key, vs)
  {
    hide Less;
    hide Ceiling;
    hide Encode;
    hide IsVersionKey;
    hide Versions;
    hide WellFormed;
    hide SeparatedKeys;
    SameKeys(m, keys, key);
    VersionsIff(m, key);
    var c := Ceiling(m, b);
    forall t | t in Versions(m, key) ensures Less(Encode(key, t), b) {
      if !Less(Encode(key, t), b) {
        AboveStart(b, c.value, EncodeMeta(key));
        MetaToVersion(key, t, c.value);
        EntryUnder(m, keys, key, c.value);
        assert false;
      }
    }
  }

  lemma {:induction false} MetaToVersion(key: Bytes, t: Timestamp, x: Bytes)
    requires !t.IsEmpty() && !Less(x, EncodeMeta(key)) && !Less(Encode(key, t), x)
    ensures EncodeMeta(key) <= x
  {
    hide EncodeTimestampDesc;
    hide Less;
    assert key + [0] + [] == EncodeMeta(key);
    Sandwich(key + [0], [], EncodeTimestampDesc(t), x);
  }

  /** Nothing of `key` is passed over by skipping an entry that is no version of it. */
  lemma {:induction false} FirstAfter(m: Store, keys: set<Bytes>, key: Bytes, c: Bytes)
    requires WellFormed(m, keys) && key in keys && IsCeiling(m, EncodeMeta(key), c) && !IsVersionKey(c, key)
    requires ListsUpTo(m, key, [], EncodeMeta(key))
    ensures ListsUpTo(m, key, [], c + [0]) && !Less(c + [0], EncodeMeta(key))
    ensures var n := Ceiling(m, c + [0]); n.Some? ==> n.value != EncodeMeta(key)
  {
    hide Less;
    hide Ceiling;
    hide Encode;
    hide EncodeMeta;
    hide IsVersionKey;
    hide Versions;
    hide WellFormed;
    VersionsIff(m, key);
    LessIrreflexive(EncodeMeta(key));
    AboveStart(EncodeMeta(key), c, EncodeMeta(key));
    forall t | t in Versions(m, key) ensures !Less(Encode(key, t), c + [0]) {
      EncodeIsVersionKey(key, t);
      AfterCeiling(m, EncodeMeta(key), c, Encode(key, t));
    }
    var n := Ceiling(m, c + [0]);
    if n.Some? && n.value == EncodeMeta(key) {
      AfterCeiling(m, EncodeMeta(key), c, n.value);
      LessTrichotomy(c, EncodeMeta(key));
      assert false;
    }
  }

  lemma {:induction false} AfterIsNotMeta(m: Store, key: Bytes, c: Bytes)
    requires !Less(c, EncodeMeta(key))
    ensures var n := Ceiling(m, c + [0]); n.Some? ==> n.value != EncodeMeta(key)
  {
    hide Less;
    hide Ceiling;
    hide EncodeMeta;
    SuccessorIsNext(c, c);
    LessIrreflexive(c);
    var n := Ceiling(m, c + [0]);
    if n.Some? && n.value == EncodeMeta(key) {
      LessTrichotomy(c, n.value);
      LessTrichotomy(n.value, c + [0]);
      if c != n.value {
        LessTransitive(n.value, c, c + [0]);
      }
      assert false;
    }
  }

  /** Appending the next version. */
  lemma {:induction false} ListNext(m: Store, keys: set<Bytes>, key: Bytes, b: Bytes, c: Bytes, vs: seq<VersionInfo>)
    requires WellFormed(m, keys) && key in keys && IsCeiling(m, b, c) && IsVersionKey(c, key) && m[c].Raw?
    requires Descending(vs) && ListsOnly(m, key, vs) && ListsUpTo(m, key, vs, b)
    ensures var vs' := vs + [VersionInfo(VersionOf(c, key), IsTombstone(m[c].bytes))];
            Descending(vs') && ListsOnly(m, key, vs') && ListsUpTo(m, key, vs', c + [0])
  {
    hide Less;
    hide Encode;
    hide IsVersionKey;
    hide Versions;
    hide WellFormed;
    VersionsIff(m, key);
    VersionKeyIs(c, key);
    var w := VersionOf(c, key);
    var vs' := vs + [VersionInfo(w, IsTombstone(m[c].bytes))];
    assert w in Versions(m, key) && vs'[|vs|].ts == w;
    forall i | 0 <= i < |vs| ensures w.Less(vs[i].ts) {
      assert Listed(vs, vs[i].ts);
      BelowCeiling(m, b, c, Encode(key, vs[i].ts));
      VersionOrder(key, vs[i].ts, w);
    }
    forall t | t in Versions(m, key) ensures Listed(vs', t) <==> Less(Encode(key, t), c + [0]) {
      AfterCeiling(m, b, c, Encode(key, t));
      EncodeInjective(key, t, key, w);
      ListedSnoc(vs, vs'[|vs|], t);
    }
  }

  lemma {:induction false} ListedSnoc(vs: seq<VersionInfo>, v: VersionInfo, t: Timestamp)
    ensures Listed(vs + [v], t) <==> Listed(vs, t) || v.ts == t
  {
    if Listed(vs, t) {
      var i :| 0 <= i < |vs| && vs[i].ts == t;
      assert (vs + [v])[i].ts == t;
    }
    assert (vs + [v])[|vs|] == v;
  }

  // ----- What is dropped ------------------------------------------------------------

  ghost predicate DeadAt(m: Store, key: Bytes, g: Timestamp) {
    var newest := Max(Versions(m, key).Keys);
    && newest.Some? && newest.value.LessEq(g)
    && Versions(m, key)[newest.value].Raw? && IsTombstone(Versions(m, key)[newest.value].bytes)
  }

  /** The timestamps collection drops: all of a dead key's, else those at or below `g` except the
      newest. */
  ghost predicate Drops(m: Store, key: Bytes, g: Timestamp, t: Timestamp) {
    t in Versions(m, key) && (DeadAt(m, key, g) || (t.LessEq(g) && Some(t) != Max(Versions(m, key).Keys)))
  }

  /** The entries of `m` that collecting `key` drops. */
  ghost predicate DropsEntry(m: Store, key: Bytes, g: Timestamp, e: Bytes) {
    || (DeadAt(m, key, g) && e == EncodeMeta(key))
    || (IsVersionKey(e, key) && Drops(m, key, g, VersionOf(e, key)))
  }

  ghost function Collected(m: Store, key: Bytes, g: Timestamp): Store {
    map e | e in m && !DropsEntry(m, key, g, e) :: m[e]
  }

  lemma {:induction false} CollectedWellFormed(m: Store, keys: set<Bytes>, k: Bytes, g: Timestamp)
    requires WellFormed(m, keys)
    ensures WellFormed(Collected(m, k, g), keys) && SameOutside(m, Collected(m, k, g), k)
  {
    hide Encode;
    hide IsVersionKey;
    hide DeadAt;
    hide Drops;
    var m' := Collected(m, k, g);
    forall e | e in m' ensures Entry(m', keys, e) {
      assert Entry(m, keys, e);
    }
    forall e | !(EncodeMeta(k) <= e) ensures !DropsEntry(m, k, g, e) {
      if IsVersionKey(e, k) {
        VersionKeyIs(e, k);
        EncodeUnder(k, VersionOf(e, k));
      }
    }
  }

  lemma {:induction false} CollectedVersions(m: Store, k: Bytes, g: Timestamp)
    ensures var m' := Collected(m, k, g);
            && Versions(m', k) == (map t | t in Versions(m, k) && !Drops(m, k, g, t) :: Versions(m, k)[t])
            && (EncodeMeta(k) in m' <==> EncodeMeta(k) in m && !DeadAt(m, k, g))
  {
    hide Encode;
    hide EncodeMeta;
    hide IsVersionKey;
    hide Versions;
    hide DeadAt;
    hide Drops;
    var m' := Collected(m, k, g);
    VersionsIff(m, k);
    VersionsIff(m', k);
    NotVersionKey(k);
    forall t | IsStamp(t) ensures DropsEntry(m, k, g, Encode(k, t)) <==> Drops(m, k, g, t) {
      VersionNotMeta(k, t);
      EncodeIsVersionKey(k, t);
    }
    var kept := map t | t in Versions(m, k) && !Drops(m, k, g, t) :: Versions(m, k)[t];
    assert Versions(m', k).Keys == kept.Keys;
  }

  /** Dropped timestamps are those the collected history lacks. */
  lemma {:induction false} DropsIff(m: Store, k: Bytes, h: History, g: Timestamp)
    requires h.Valid() && Versions(m, k) == RawAll(h)
    ensures forall t :: t in h.All() ==> (Drops(m, k, g, t) <==> t !in Collect(h, g).All())
    ensures DeadAt(m, k, g) ==> Collect(h, g) == NO_HISTORY
    ensures !DeadAt(m, k, g) ==> Collect(h, g).intent == h.intent && Max(Collect(h, g).All().Keys) == Max(h.All().Keys)
    ensures forall t :: t in Collect(h, g).All() ==> t in h.All() && Collect(h, g).All()[t] == h.All()[t]
  {
    hide Versions;
    assert RawAll(h).Keys == h.All().Keys;
    var newest := Max(h.All().Keys);
    if h.intent.Some? {
      MaxIs(h.All().Keys, h.intent.value.ts);
    }
    if !DeadAt(m, k, g) {
      var h' := Collect(h, g);
      if newest.Some? {
        MaxIs(h'.All().Keys, newest.value);
      }
    }
  }

  /** Collecting a key refines collecting its history, pending intents included. */
  lemma {:induction false} CollectRefines(m: Store, keys: set<Bytes>, k: Bytes, h: History, g: Timestamp)
    requires WellFormed(m, keys) && k in keys && Represents(m, k, h)
    ensures Refines(m, keys, k, Collect(h, g), WriteResult(Collected(m, k, g), None))
  {
    hide Encode;
    hide EncodeMeta;
    hide IsVersionKey;
    hide Versions;
    hide WellFormed;
    hide SameOutside;
    hide Drops;
    hide DeadAt;
    hide Collect;
    hide DropsEntry;
    var m' := Collected(m, k, g);
    var h' := Collect(h, g);
    CollectedWellFormed(m, keys, k, g);
    CollectedVersions(m, k, g);
    DropsIff(m, k, h, g);
    CollectKeepsValid(h, g);
    assert Versions(m', k).Keys == RawAll(h').Keys;
    if EncodeMeta(k) in m' {
      KeptMeta(m[EncodeMeta(k)].meta, h, h');
    }
  }

  lemma {:induction false} CollectKeepsValid(h: History, g: Timestamp)
    requires h.Valid()
    ensures Collect(h, g).Valid() && (h == NO_HISTORY ==> Collect(h, g) == NO_HISTORY)
  {
  }

  lemma {:induction false} KeptMeta(meta: Meta, h: History, h': History)
    requires MetaNames(meta, h) && h'.intent == h.intent && Max(h'.All().Keys) == Max(h.All().Keys)
    requires forall t :: t in h'.All() ==> t in h.All() && h'.All()[t] == h.All()[t]
    ensures MetaNames(meta, h')
  {
    if h.All() != map[] {
      MaxIs(h.All().Keys, meta.ts);
    }
  }

  // ----- Dropping listed versions ---------------------------------------------------

  /** The keys of the listed versions at or below `g`, or of all of them. */
  ghost function Victims(key: Bytes, vs: seq<VersionInfo>, g: Option<Timestamp>): set<Bytes> {
    if vs == [] then {}
    else
      var v := vs[|vs| - 1];
      Victims(key, vs[..|vs| - 1], g) + (if g.None? || v.ts.LessEq(g.value) then {Encode(key, v.ts)} else {})
  }

  lemma {:induction false} VictimsIff(key: Bytes, vs: seq<VersionInfo>, g: Option<Timestamp>, e: Bytes)
    ensures e in Victims(key, vs, g) <==>
            exists j :: 0 <= j < |vs| && e == Encode(key, vs[j].ts) && (g.None? || vs[j].ts.LessEq(g.value))
  {
    hide Encode;
    if vs != [] {
      VictimsIff(key, vs[..|vs| - 1], g, e);
    }
  }

  lemma {:induction false} VictimsSnoc(key: Bytes, vs: seq<VersionInfo>, n: nat, g: Option<Timestamp>)
    requires n < |vs|
    ensures Victims(key, vs[..n + 1], g) ==
            Victims(key, vs[..n], g) + (if g.None? || vs[n].ts.LessEq(g.value) then {Encode(key, vs[n].ts)} else {})
  {
    hide Encode;
    assert vs[..n + 1][..n] == vs[..n];
  }

  /** The full list begins with the newest version and decides whether the key is dead. */
  lemma {:induction false} NewestFirst(m: Store, key: Bytes, vs: seq<VersionInfo>, g: Timestamp)
    requires Descending(vs) && ListsOnly(m, key, vs) && ListsAll(m, key, vs)
    ensures vs == [] ==> Versions(m, key) == map[]
    ensures vs != [] ==> Max(Versions(m, key).Keys) == Some(vs[0].ts)
    ensures DeadAt(m, key, g) <==> vs != [] && vs[0].tombstone && vs[0].ts.LessEq(g)
  {
    hide Versions;
    if vs == [] {
      assert forall t :: !Listed(vs, t);
      assert Versions(m, key) == map[];
    } else {
      MaxIs(Versions(m, key).Keys, vs[0].ts);
    }
  }

  /** Deleting the listed victims is collecting the key. */
  lemma {:induction false} VictimsAreDropped(m: Store, key: Bytes, vs: seq<VersionInfo>, g: Timestamp)
    requires Descending(vs) && ListsOnly(m, key, vs) && ListsAll(m, key, vs) && vs != []
    ensures DeadAt(m, key, g) ==> m - Victims(key, vs, None) - {EncodeMeta(key)} == Collected(m, key, g)
    ensures !DeadAt(m, key, g) ==> m - Victims(key, vs[1..], Some(g)) == Collected(m, key, g)
  {
    hide Encode;
    hide EncodeMeta;
    hide IsVersionKey;
    hide Versions;
    hide DeadAt;
    hide Victims;
    hide ListsAll;
    hide ListsOnly;
    NewestFirst(m, key, vs, g);
    forall e ensures (e in Victims(key, vs, None) <==> IsVersionKey(e, key) && VersionOf(e, key) in Versions(m, key)) &&
                     (e in Victims(key, vs[1..], Some(g)) <==>
                      IsVersionKey(e, key) && VersionOf(e, key) in Versions(m, key) &&
                      VersionOf(e, key).LessEq(g) && VersionOf(e, key) != vs[0].ts)
    {
      VictimIff(m, key, vs, g, e);
    }
    assert DeadAt(m, key, g) ==> m - Victims(key, vs, None) - {EncodeMeta(key)} == Collected(m, key, g);
    assert !DeadAt(m, key, g) ==> m - Victims(key, vs[1..], Some(g)) == Collected(m, key, g);
  }

  lemma {:induction false} VictimIff(m: Store, key: Bytes, vs: seq<VersionInfo>, g: Timestamp, e: Bytes)
    requires Descending(vs) && ListsOnly(m, key, vs) && ListsAll(m, key, vs) && vs != []
    ensures e in Victims(key, vs, None) <==> IsVersionKey(e, key) && VersionOf(e, key) in Versions(m, key)
    ensures e in Victims(key, vs[1..], Some(g)) <==>
            IsVersionKey(e, key) && VersionOf(e, key) in Versions(m, key) &&
            VersionOf(e, key).LessEq(g) && VersionOf(e, key) != vs[0].ts
  {
    hide Encode;
    hide IsVersionKey;
    hide Versions;
    hide Victims;
    VictimsIff(key, vs, None, e);
    VictimsIff(key, vs[1..], Some(g), e);
    VersionsIff(m, key);
    forall j | 0 <= j < |vs| ensures IsVersionKey(Encode(key, vs[j].ts), key) &&
                                     VersionOf(Encode(key, vs[j].ts), key) == vs[j].ts {
      EncodeIsVersionKey(key, vs[j].ts);
    }
    if IsVersionKey(e, key) && VersionOf(e, key) in Versions(m, key) {
      VersionKeyIs(e, key);
      assert Listed(vs, VersionOf(e, key));
      var j :| 0 <= j < |vs| && vs[j].ts == VersionOf(e, key);
      assert e == Encode(key, vs[j].ts);
      if VersionOf(e, key) != vs[0].ts {
        assert vs[1..][j - 1] == vs[j];
      }
    }
  }

  // ----- Collecting every key -------------------------------------------------------

  /** The keys a pass visits. */
  ghost predicate Collectable(m: Store, k: Bytes) {
    EncodeMeta(k) in m && Unambiguous(k)
  }

  ghost predicate DroppedBefore(m: Store, g: Timestamp, b: Bytes, e: Bytes) {
    exists k :: Collectable(m, k) && Less(EncodeMeta(k), b) && DropsEntry(m, k, g, e)
  }

  /** `m'` is `m` with the visited keys before `b` collected. */
  ghost predicate PassUpTo(m: Store, m': Store, g: Timestamp, b: Bytes) {
    && (forall e :: e in m' <==> e in m && !DroppedBefore(m, g, b, e))
    && (forall e :: e in m' ==> m'[e] == m[e])
  }

  ghost predicate DroppedByPass(m: Store, g: Timestamp, e: Bytes) {
    exists k :: Collectable(m, k) && DropsEntry(m, k, g, e)
  }

  /** `m` with every visited key collected. */
  ghost function CollectedAll(m: Store, g: Timestamp): Store {
    map e | e in m && !DroppedByPass(m, g, e) :: m[e]
  }

  lemma {:induction false} DropsUnder(m: Store, k: Bytes, g: Timestamp, e: Bytes)
    requires DropsEntry(m, k, g, e)
    ensures EncodeMeta(k) <= e
  {
    hide Encode;
    hide IsVersionKey;
    hide DeadAt;
    hide Drops;
    if IsVersionKey(e, k) {
      VersionKeyIs(e, k);
      EncodeUnder(k, VersionOf(e, k));
    }
  }

  lemma {:induction false} CollectableKeys(m: Store, keys: set<Bytes>, k: Bytes)
    requires WellFormed(m, keys) && Collectable(m, k)
    ensures k in keys
  {
    hide Decode;
    hide WellFormed;
    hide Unambiguous;
    DecodeMetaExactly(k);
    EntryDecodes(m, keys, EncodeMeta(k));
  }

  lemma {:induction false} SeparatedPair(m: Store, keys: set<Bytes>, k: Bytes, k': Bytes)
    requires WellFormed(m, keys) && k in keys && k' in keys
    ensures SeparatedKeys({k, k'})
  {
    hide IsVersionKey;
  }

  /** Visited keys before `b` leave the entries of a later key alone. */
  lemma {:induction false} UntouchedSoFar(m: Store, m': Store, keys: set<Bytes>, g: Timestamp, b: Bytes, k: Bytes, e: Bytes)
    requires WellFormed(m, keys) && PassUpTo(m, m', g, b) && k in keys && !Less(EncodeMeta(k), b)
    requires EncodeMeta(k) <= e
    ensures e in m <==> e in m'
    ensures e in m ==> m'[e] == m[e]
  {
    hide Less;
    hide EncodeMeta;
    hide DropsEntry;
    hide WellFormed;
    hide SeparatedKeys;
    hide Unambiguous;
    if DroppedBefore(m, g, b, e) {
      var k2 :| Collectable(m, k2) && Less(EncodeMeta(k2), b) && DropsEntry(m, k2, g, e);
      DropsUnder(m, k2, g, e);
      CollectableKeys(m, keys, k2);
      SeparatedPair(m, keys, k2, k);
      NotUnder(k2, k, e);
      assert false;
    }
  }

  /** Collecting `k` in the current store is collecting it in the original one. */
  lemma {:induction false} SameDrops(m: Store, m': Store, k: Bytes, g: Timestamp, e: Bytes)
    requires forall x :: EncodeMeta(k) <= x ==> (x in m <==> x in m') && (x in m ==> m'[x] == m[x])
    ensures DropsEntry(m', k, g, e) <==> DropsEntry(m, k, g, e)
    ensures Versions(m', k) == Versions(m, k)
  {
    hide Encode;
    hide IsVersionKey;
    hide Versions;
    VersionsIff(m, k);
    VersionsIff(m', k);
    forall t ensures Encode(k, t) in m <==> Encode(k, t) in m' {
      EncodeUnder(k, t);
    }
    forall t | Encode(k, t) in m ensures m'[Encode(k, t)] == m[Encode(k, t)] {
      EncodeUnder(k, t);
    }
    assert Versions(m', k).Keys == Versions(m, k).Keys;
    assert Versions(m', k) == Versions(m, k);
  }

  lemma {:induction false} PassWellFormed(m: Store, m': Store, keys: set<Bytes>, g: Timestamp, b: Bytes)
    requires WellFormed(m, keys) && PassUpTo(m, m', g, b)
    ensures WellFormed(m', keys)
  {
    hide IsVersionKey;
    hide DroppedBefore;
    forall e | e in m' ensures Entry(m', keys, e) {
      assert Entry(m, keys, e);
    }
  }

  /** One visited key. */
  lemma {:induction false} PassStep(m: Store, m': Store, keys: set<Bytes>, g: Timestamp, b: Bytes, c: Bytes, k: Bytes)
    requires WellFormed(m, keys) && PassUpTo(m, m', g, b) && IsCeiling(m, b, c) && c == EncodeMeta(k) && Collectable(m, k)
    ensures PassUpTo(m, Collected(m', k, g), g, c + [0])
  {
    hide Less;
    hide EncodeMeta;
    hide IsVersionKey;
    hide DropsEntry;
    hide WellFormed;
    hide Unambiguous;
    CollectableKeys(m, keys, k);
    forall x | EncodeMeta(k) <= x ensures (x in m <==> x in m') && (x in m ==> m'[x] == m[x]) {
      UntouchedSoFar(m, m', keys, g, b, k, x);
    }
    forall e ensures DropsEntry(m', k, g, e) <==> DropsEntry(m, k, g, e) {
      SameDrops(m, m', k, g, e);
    }
    forall e ensures DroppedBefore(m, g, c + [0], e) <==> DroppedBefore(m, g, b, e) || DropsEntry(m, k, g, e) {
      DroppedNext(m, g, b, c, k, e);
    }
  }

  lemma {:induction false} DroppedNext(m: Store, g: Timestamp, b: Bytes, c: Bytes, k: Bytes, e: Bytes)
    requires IsCeiling(m, b, c) && c == EncodeMeta(k) && Collectable(m, k)
    ensures DroppedBefore(m, g, c + [0], e) <==> DroppedBefore(m, g, b, e) || DropsEntry(m, k, g, e)
  {
    hide Less;
    hide EncodeMeta;
    hide DropsEntry;
    hide Unambiguous;
    forall k' | Collectable(m, k') ensures Less(EncodeMeta(k'), c + [0]) <==> Less(EncodeMeta(k'), b) || k' == k {
      AfterCeiling(m, b, c, EncodeMeta(k'));
      EncodeMetaInjective(k', k);
    }
  }

  /** One skipped version entry. */
  lemma {:induction false} PassSkip(m: Store, m': Store, g: Timestamp, b: Bytes, c: Bytes)
    requires PassUpTo(m, m', g, b) && IsCeiling(m, b, c) && !Decode(c).MetaKey?
    ensures PassUpTo(m, m', g, c + [0])
  {
    hide DroppedBefore;
    forall e ensures DroppedBefore(m, g, c + [0], e) <==> DroppedBefore(m, g, b, e) {
      DroppedSkip(m, g, b, c, e);
    }
  }

  lemma {:induction false} DroppedSkip(m: Store, g: Timestamp, b: Bytes, c: Bytes, e: Bytes)
    requires IsCeiling(m, b, c) && !Decode(c).MetaKey?
    ensures DroppedBefore(m, g, c + [0], e) <==> DroppedBefore(m, g, b, e)
  {
    hide Less;
    hide Decode;
    hide EncodeMeta;
    hide DropsEntry;
    hide Unambiguous;
    forall k | Collectable(m, k) ensures Less(EncodeMeta(k), c + [0]) <==> Less(EncodeMeta(k), b) {
      AfterCeiling(m, b, c, EncodeMeta(k));
      DecodeMetaExactly(k);
    }
  }

  lemma {:induction false} PassStart(m: Store, g: Timestamp)
    ensures PassUpTo(m, m, g, [])
  {
    hide DropsEntry;
    hide Unambiguous;
  }

  lemma {:induction false} PassEnd(m: Store, m': Store, g: Timestamp, b: Bytes)
    requires PassUpTo(m, m', g, b) && forall x :: x in m ==> Less(x, b)
    ensures m' == CollectedAll(m, g)
  {
    hide Less;
    hide DroppedBefore;
    hide DroppedByPass;
    forall e ensures DroppedBefore(m, g, b, e) <==> DroppedByPass(m, g, e) {
      AllBefore(m, g, b, e);
    }
    assert m'.Keys == CollectedAll(m, g).Keys;
  }

  lemma {:induction false} AllBefore(m: Store, g: Timestamp, b: Bytes, e: Bytes)
    requires forall x :: x in m ==> Less(x, b)
    ensures DroppedBefore(m, g, b, e) <==> DroppedByPass(m, g, e)
  {
    hide Less;
    hide EncodeMeta;
    hide DropsEntry;
    hide Unambiguous;
  }

  /** A pass refines collecting the history of every unambiguous key and no other. */
  lemma {:induction false} PassRefines(m: Store, keys: set<Bytes>, g: Timestamp, k: Bytes, h: History)
    requires WellFormed(m, keys) && k in keys && Represents(m, k, h)
    ensures Represents(CollectedAll(m, g), k, if Unambiguous(k) then Collect(h, g) else h)
  {
    var m' := CollectedAll(m, g);
    hide IsVersionKey;
    hide DropsEntry;
    hide DroppedByPass;
    hide WellFormed;
    hide Unambiguous;
    hide Represents;
    hide Collect;
    var target := if Collectable(m, k) then Collected(m, k, g) else m;
    forall e | EncodeMeta(k) <= e ensures (e in target <==> e in m') && (e in target ==> m'[e] == target[e]) {
      PassUnder(m, keys, g, k, e);
    }
    CollectRefines(m, keys, k, h, g);
    if EncodeMeta(k) !in m {
      assert h == NO_HISTORY by {
        NoMetadata(m, k, h);
      }
      CollectKeepsValid(h, g);
    }
    RepresentsUnder(target, m', k, if Collectable(m, k) then Collect(h, g) else h);
  }

  lemma {:induction false} NoMetadata(m: Store, k: Bytes, h: History)
    requires Represents(m, k, h) && EncodeMeta(k) !in m
    ensures h == NO_HISTORY && h.Valid()
  {
  }

  lemma {:induction false} PassUnder(m: Store, keys: set<Bytes>, g: Timestamp, k: Bytes, e: Bytes)
    requires WellFormed(m, keys) && k in keys && EncodeMeta(k) <= e
    ensures e in CollectedAll(m, g) <==> e in m && !(Collectable(m, k) && DropsEntry(m, k, g, e))
  {
    hide EncodeMeta;
    hide DropsEntry;
    hide WellFormed;
    hide SeparatedKeys;
    hide Unambiguous;
    forall k2 | Collectable(m, k2) && DropsEntry(m, k2, g, e) ensures k2 == k {
      DropsUnder(m, k2, g, e);
      CollectableKeys(m, keys, k2);
      if k2 != k {
        SeparatedPair(m, keys, k2, k);
        NotUnder(k2, k, e);
        assert false;
      }
    }
  }

  lemma {:induction false} RepresentsUnder(m: Store, m': Store, k: Bytes, h: History)
    requires forall e :: EncodeMeta(k) <= e ==> (e in m <==> e in m') && (e in m ==> m'[e] == m[e])
    requires Represents(m, k, h)
    ensures Represents(m', k, h)
  {
    hide Versions;
    hide MetaNames;
    hide RawAll;
    SameDrops(m, m', k, ZERO_TS, []);
  }
}
