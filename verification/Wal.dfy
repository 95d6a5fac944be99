/** The write-ahead log at byte level: entry layout with checksum, replay, and what a torn
    tail does to it.  All results hold for every checksum table. */
module Wal {
  import opened Bytes

  type uint32 = x: int | 0 <= x < 0x1_0000_0000

  /** One table-driven checksum step. */
  type Crc = (uint32, byte) -> uint32

  function Fold(crc: Crc, c: uint32, p: Bytes): uint32 {
    if p == [] then c else crc(Fold(crc, c, p[..|p| - 1]), p[|p| - 1])
  }

  function Not(c: uint32): uint32 {
    TWO32 - 1 - c
  }

  /** `crc32.Update`: complement, fold, complement. */
  function Update(crc: Crc, c: uint32, p: Bytes): uint32 {
    Not(Fold(crc, Not(c), p))
  }

  lemma {:induction false} FoldConcat(crc: Crc, c: uint32, a: Bytes, b: Bytes)
    ensures Fold(crc, c, a + b) == Fold(crc, Fold(crc, c, a), b)
  {
    if b == [] {
      assert a + b == a;
    } else {
      assert (a + b)[..|a + b| - 1] == a + b[..|b| - 1];
      FoldConcat(crc, c, a, b[..|b| - 1]);
    }
  }

  /** Updating piece by piece is the checksum of the whole. */
  lemma {:induction false} UpdateConcat(crc: Crc, a: Bytes, b: Bytes)
    ensures Update(crc, Update(crc, 0, a), b) == Update(crc, 0, a + b)
  {
    FoldConcat(crc, Not(0), a, b);
  }

  // ----- Entries --------------------------------------------------------------------

  const OP_PUT: byte := 0
  const OP_DELETE: byte := 1
  const HEADER_SIZE: nat := 13

  datatype Entry = Entry(key: Bytes, value: Bytes, op: byte)

  /** Everything the checksum covers. */
  function Body(e: Entry): (b: Bytes)
    ensures |b| == 9 + |e.key| + |e.value|
  {
    LittleEndian(|e.key|, 4) + LittleEndian(|e.value|, 4) + [e.op] + e.key + e.value
  }

  function Encode(crc: Crc, e: Entry): (b: Bytes)
    ensures |b| == HEADER_SIZE + |e.key| + |e.value|
  {
    LittleEndian(Update(crc, 0, Body(e)), 4) + Body(e)
  }

  /** The layout by example: little-endian lengths, operation code, key, value. */
  lemma {:induction false} EntryBytes(crc: Crc)
    ensures Encode(crc, Entry([7], [], OP_DELETE))[4..] == [1, 0, 0, 0] + [0, 0, 0, 0] + [1] + [7]
    ensures Encode(crc, Entry([7], [8, 9], OP_PUT))[4..] == [1, 0, 0, 0] + [2, 0, 0, 0] + [0] + [7] + [8, 9]
  {
    hide Update;
    LittleEndianSmall(0);
    LittleEndianSmall(1);
    LittleEndianSmall(2);
  }

  datatype Decoded =
    | Ok(entry: Entry, rest: Bytes)
    | UnexpectedEof
    | ChecksumMismatch
    | Panic                           // a slice bound beyond the payload

  function Decode(crc: Crc, r: Bytes): (d: Decoded)
    ensures d.Ok? ==> |d.rest| < |r|
  {
    if |r| < HEADER_SIZE then UnexpectedEof else
      var keyLen, valueLen := FromLittleEndian(r[4..8]), FromLittleEndian(r[8..12]);
      var size := (keyLen + valueLen) % TWO32;
      if |r| < HEADER_SIZE + size then UnexpectedEof else
        var payload := r[HEADER_SIZE..HEADER_SIZE + size];
        if Update(crc, Update(crc, 0, r[4..HEADER_SIZE]), payload) != FromLittleEndian(r[..4]) then ChecksumMismatch
        else if keyLen > size then Panic
        else Ok(Entry(payload[..keyLen], payload[keyLen..], r[12]), r[HEADER_SIZE + size..])
  }

  /** The header of an encoded entry, whatever follows it. */
  lemma {:induction false} HeaderFields(crc: Crc, e: Entry, r: Bytes)
    requires HEADER_SIZE <= |r| && r[..HEADER_SIZE] == Encode(crc, e)[..HEADER_SIZE]
    ensures r[..4] == LittleEndian(Update(crc, 0, Body(e)), 4)
    ensures r[4..8] == LittleEndian(|e.key|, 4)
    ensures r[8..12] == LittleEndian(|e.value|, 4)
    ensures r[12] == e.op
    ensures r[4..HEADER_SIZE] == Body(e)[..9]
  {
    hide LittleEndian;
    hide Update;
    var x := Encode(crc, e);
    assert r[12] == r[..HEADER_SIZE][12] == x[12] == Body(e)[8];
    assert r[..4] == r[..HEADER_SIZE][..4] == x[..4];
    assert r[4..8] == r[..HEADER_SIZE][4..8] == x[4..8] == Body(e)[..4];
    assert r[8..12] == r[..HEADER_SIZE][8..12] == x[8..12] == Body(e)[4..8];
    assert r[4..HEADER_SIZE] == r[..HEADER_SIZE][4..] == x[4..HEADER_SIZE] == Body(e)[..9];
  }

  predicate Fits(e: Entry) {
    |e.key| + |e.value| < TWO32
  }

  /** Decoding inverts encoding exactly for entries whose lengths fit the 32-bit sum. */
  lemma {:induction false} RoundTrip(crc: Crc, e: Entry, rest: Bytes)
    ensures Decode(crc, Encode(crc, e) + rest) == Ok(e, rest) <==> Fits(e)
  {
    hide LittleEndian;
    hide FromLittleEndian;
    hide Update;
    var r := Encode(crc, e) + rest;
    assert r[..HEADER_SIZE] == Encode(crc, e)[..HEADER_SIZE];
    HeaderFields(crc, e, r);
    Pow256Values();
    LittleEndianRoundTrip(|e.key|, 4);
    LittleEndianRoundTrip(|e.value|, 4);
    if Fits(e) {
      var size := |e.key| + |e.value|;
      var payload := r[HEADER_SIZE..HEADER_SIZE + size];
      assert payload == Body(e)[9..];
      assert Body(e)[..9] + Body(e)[9..] == Body(e);
      UpdateConcat(crc, Body(e)[..9], payload);
      LittleEndianRoundTrip(Update(crc, 0, Body(e)), 4);
      assert payload[..|e.key|] == e.key && payload[|e.key|..] == e.value;
      assert r[HEADER_SIZE + size..] == rest;
    } else if |e.key| < TWO32 && |e.value| < TWO32 {
      assert (|e.key| + |e.value|) % TWO32 == |e.key| + |e.value| - TWO32;
    }
  }

  /** An entry is decoded exactly from the bytes of its own encoding, checksum included. */
  lemma {:induction false} DecodeExactly(crc: Crc, r: Bytes, e: Entry, rest: Bytes)
    ensures Decode(crc, r) == Ok(e, rest) <==> Fits(e) && r == Encode(crc, e) + rest
  {
    hide Decode;
    if Fits(e) && r == Encode(crc, e) + rest {
      RoundTrip(crc, e, rest);
    }
    if Decode(crc, r) == Ok(e, rest) {
      DecodedBytes(crc, r);
    }
  }

  lemma {:induction false} DecodedBytes(crc: Crc, r: Bytes)
    requires Decode(crc, r).Ok?
    ensures var d := Decode(crc, r); Fits(d.entry) && r == Encode(crc, d.entry) + d.rest
  {
    hide LittleEndian;
    hide FromLittleEndian;
    hide Update;
    hide Body;
    Pow256Values();
    FromLittleEndianRoundTrip(r[..4]);
    FromLittleEndianRoundTrip(r[4..8]);
    FromLittleEndianRoundTrip(r[8..12]);
    var keyLen, valueLen := FromLittleEndian(r[4..8]), FromLittleEndian(r[8..12]);
    var size := (keyLen + valueLen) % TWO32;
    NoWrap(keyLen, valueLen);
    var payload := r[HEADER_SIZE..HEADER_SIZE + size];
    var e := Decode(crc, r).entry;
    assert |e.key| == keyLen && |e.value| == valueLen && e.op == r[12];
    assert payload == e.key + e.value;
    UpdateConcat(crc, r[4..HEADER_SIZE], payload);
    BodyIs(e, r, payload);
    assert r == r[..4] + r[4..HEADER_SIZE + size] + r[HEADER_SIZE + size..];
    assert r[4..HEADER_SIZE + size] == r[4..HEADER_SIZE] + payload;
  }

  /** The checksummed part of an entry, put together from what was read. */
  lemma {:induction false} BodyIs(e: Entry, r: Bytes, payload: Bytes)
    requires |r| >= HEADER_SIZE && payload == e.key + e.value && e.op == r[12]
    requires r[4..8] == LittleEndian(|e.key|, 4) && r[8..12] == LittleEndian(|e.value|, 4)
    ensures Body(e) == r[4..HEADER_SIZE] + payload
  {
    hide LittleEndian;
    assert r[4..HEADER_SIZE] == r[4..8] + r[8..12] + [r[12]];
  }

  /** A key within the 32-bit sum of the lengths means that the sum did not wrap. */
  lemma {:induction false} NoWrap(keyLen: nat, valueLen: nat)
    requires keyLen < TWO32 && valueLen < TWO32
    ensures keyLen <= (keyLen + valueLen) % TWO32 <==> keyLen + valueLen < TWO32
    ensures (keyLen + valueLen) % TWO32 == if keyLen + valueLen < TWO32 then keyLen + valueLen
                                           else keyLen + valueLen - TWO32
  {
  }

  /** Decoding goes out of bounds exactly when the two lengths overflow 32 bits and the bytes they
      still announce carry their checksum. */
  lemma {:induction false} PanicsExactly(crc: Crc, r: Bytes)
    requires |r| >= HEADER_SIZE
    ensures var sum := FromLittleEndian(r[4..8]) + FromLittleEndian(r[8..12]);
            Decode(crc, r).Panic? <==>
            && TWO32 <= sum && HEADER_SIZE + (sum - TWO32) <= |r|
            && Update(crc, 0, r[4..HEADER_SIZE + (sum - TWO32)]) == FromLittleEndian(r[..4])
  {
    hide LittleEndian;
    hide FromLittleEndian;
    hide Fold;
    Pow256Values();
    FromLittleEndianRoundTrip(r[4..8]);
    FromLittleEndianRoundTrip(r[8..12]);
    var keyLen, valueLen := FromLittleEndian(r[4..8]), FromLittleEndian(r[8..12]);
    var size := (keyLen + valueLen) % TWO32;
    NoWrap(keyLen, valueLen);
    if |r| >= HEADER_SIZE + size {
      var payload := r[HEADER_SIZE..HEADER_SIZE + size];
      UpdateConcat(crc, r[4..HEADER_SIZE], payload);
      assert r[4..HEADER_SIZE] + payload == r[4..HEADER_SIZE + size];
    }
  }

  // ----- Replay ---------------------------------------------------------------------

  datatype Replayed = Entries(entries: seq<Entry>) | Panicked

  /** Intact entries up to the first one that does not decode. */
  function Replay(crc: Crc, file: Bytes): Replayed
    decreases |file|
  {
    var d := Decode(crc, file);
    if d.Panic? then Panicked
    else if !d.Ok? then Entries([])
    else
      var tail := Replay(crc, d.rest);
      if tail.Panicked? then Panicked else Entries([d.entry] + tail.entries)
  }

  function EncodeAll(crc: Crc, es: seq<Entry>): Bytes {
    if es == [] then [] else Encode(crc, es[0]) + EncodeAll(crc, es[1..])
  }

  /** The bytes end, or fail their checksum. */
  predicate Stops(crc: Crc, r: Bytes) {
    Decode(crc, r).UnexpectedEof? || Decode(crc, r).ChecksumMismatch?
  }

  /** The file begins with the encodings of these entries, and then with bytes that do not decode. */
  predicate InLog(crc: Crc, file: Bytes, es: seq<Entry>) {
    && (forall i :: 0 <= i < |es| ==> Fits(es[i])) && EncodeAll(crc, es) <= file
    && Stops(crc, file[|EncodeAll(crc, es)|..])
  }

  method ReadAll(crc: Crc, file: Bytes) returns (r: Replayed)
    ensures r == Replay(crc, file)
    ensures r.Entries? ==> InLog(crc, file, r.entries)
  {
    hide Decode;
    hide InLog;
    ReplayInLog(crc, file);
    var entries: seq<Entry> := [];
    var rest := file;
    while true
      invariant var t := Replay(crc, rest);
                Replay(crc, file) == if t.Panicked? then Panicked else Entries(entries + t.entries)
      decreases |rest|
    {
      var d := Decode(crc, rest);
      if d.Panic? {
        return Panicked;
      }
      if !d.Ok? {
        assert entries + [] == entries;
        return Entries(entries);
      }
      ghost var t := Replay(crc, d.rest);
      assert t.Entries? ==> entries + ([d.entry] + t.entries) == (entries + [d.entry]) + t.entries;
      entries := entries + [d.entry];
      rest := d.rest;
    }
  }

  /** A strict prefix of an entry never decodes. */
  lemma {:induction false} PrefixIsEof(crc: Crc, e: Entry, n: nat)
    requires Fits(e) && n < |Encode(crc, e)|
    ensures Decode(crc, Encode(crc, e)[..n]) == UnexpectedEof
  {
    hide LittleEndian;
    hide FromLittleEndian;
    hide Update;
    var r := Encode(crc, e)[..n];
    if n >= HEADER_SIZE {
      assert r[..HEADER_SIZE] == Encode(crc, e)[..HEADER_SIZE];
      HeaderFields(crc, e, r);
      Pow256Values();
      LittleEndianRoundTrip(|e.key|, 4);
      LittleEndianRoundTrip(|e.value|, 4);
    }
  }

  /** Replay reads the complete entries in front of whatever does not decode. */
  lemma {:induction false} ReplayUpTo(crc: Crc, es: seq<Entry>, tail: Bytes)
    requires forall i :: 0 <= i < |es| ==> Fits(es[i])
    requires Decode(crc, tail).UnexpectedEof? || Decode(crc, tail).ChecksumMismatch?
    ensures Replay(crc, EncodeAll(crc, es) + tail) == Entries(es)
  {
    hide Decode;
    hide Encode;
    if es == [] {
      assert EncodeAll(crc, es) + tail == tail;
    } else {
      var rest := EncodeAll(crc, es[1..]) + tail;
      assert EncodeAll(crc, es) + tail == Encode(crc, es[0]) + rest;
      RoundTrip(crc, es[0], rest);
      ReplayUpTo(crc, es[1..], tail);
      assert es == [es[0]] + es[1..];
    }
  }

  /** Replay yields exactly the entries whose encodings the file begins with, up to bytes that do
      not decode: nothing is replayed that is not in the log. */
  lemma {:induction false} ReplayExactly(crc: Crc, file: Bytes, es: seq<Entry>)
    ensures Replay(crc, file) == Entries(es) <==> InLog(crc, file, es)
  {
    hide Decode;
    hide Encode;
    hide Replay;
    if InLog(crc, file, es) {
      ReplayUpTo(crc, es, file[|EncodeAll(crc, es)|..]);
      assert file == EncodeAll(crc, es) + file[|EncodeAll(crc, es)|..];
    }
    if Replay(crc, file) == Entries(es) {
      ReplayedBytes(crc, file, es);
    }
  }

  lemma {:induction false} ReplayInLog(crc: Crc, file: Bytes)
    ensures var r := Replay(crc, file); r.Entries? ==> InLog(crc, file, r.entries)
  {
    hide Replay;
    hide InLog;
    var r := Replay(crc, file);
    if r.Entries? {
      ReplayExactly(crc, file, r.entries);
    }
  }

  lemma {:induction false} ReplayedBytes(crc: Crc, file: Bytes, es: seq<Entry>)
    requires Replay(crc, file) == Entries(es)
    ensures forall i :: 0 <= i < |es| ==> Fits(es[i])
    ensures EncodeAll(crc, es) <= file && Stops(crc, file[|EncodeAll(crc, es)|..])
    decreases |file|
  {
    hide Decode;
    hide Encode;
    var d := Decode(crc, file);
    if d.Ok? {
      DecodedBytes(crc, file);
      ReplayedBytes(crc, d.rest, es[1..]);
      var bytes := EncodeAll(crc, es);
      assert bytes == Encode(crc, es[0]) + EncodeAll(crc, es[1..]);
      assert file[|bytes|..] == d.rest[|EncodeAll(crc, es[1..])|..];
    } else {
      assert file[0..] == file;
    }
  }

  /** A log cut anywhere inside its last append replays to exactly the earlier entries. */
  lemma {:induction false} TornTail(crc: Crc, es: seq<Entry>, e: Entry, n: nat)
    requires forall i :: 0 <= i < |es| ==> Fits(es[i])
    requires Fits(e) && n < |Encode(crc, e)|
    ensures Replay(crc, EncodeAll(crc, es) + Encode(crc, e)[..n]) == Entries(es)
  {
    PrefixIsEof(crc, e, n);
    ReplayUpTo(crc, es, Encode(crc, e)[..n]);
  }

  /** Entries appended behind a tear are lost: while the file is still shorter than the torn entry
      would have been, replay takes them for the payload its header announces and stops. */
  lemma {:induction false} TearSwallowsLaterEntries(crc: Crc, es: seq<Entry>, torn: Entry, n: nat, later: Bytes)
    requires forall i :: 0 <= i < |es| ==> Fits(es[i])
    requires Fits(torn) && HEADER_SIZE <= n && n + |later| < |Encode(crc, torn)|
    ensures Decode(crc, Encode(crc, torn)[..n] + later) == UnexpectedEof
    ensures Replay(crc, EncodeAll(crc, es) + (Encode(crc, torn)[..n] + later)) == Entries(es)
  {
    hide LittleEndian;
    hide FromLittleEndian;
    hide Update;
    var r := Encode(crc, torn)[..n] + later;
    assert r[..HEADER_SIZE] == Encode(crc, torn)[..HEADER_SIZE];
    HeaderFields(crc, torn, r);
    Pow256Values();
    LittleEndianRoundTrip(|torn.key|, 4);
    LittleEndianRoundTrip(|torn.value|, 4);
    ReplayUpTo(crc, es, r);
  }
}
