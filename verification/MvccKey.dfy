/** The MVCC key codec: raw key, separator, bit-complemented big-endian timestamp. */
module MvccKey {
  import opened Bytes
  import opened Hlc

  const TS_SIZE: nat := 12

  // ----- Timestamps as bytes --------------------------------------------------------

  /** Reinterpret a signed integer as unsigned, and back. */
  function U64(x: int64): (u: nat)
    ensures u < TWO64
  {
    if x < 0 then x + TWO64 else x
  }

  function S64(u: nat): int64
    requires u < TWO64
  {
    if u > MAX_INT64 then u - TWO64 else u
  }

  function U32(x: int32): (u: nat)
    ensures u < TWO32
  {
    if x < 0 then x + TWO32 else x
  }

  function S32(u: nat): int32
    requires u < TWO32
  {
    if u > MAX_INT32 then u - TWO32 else u
  }

  /** Bitwise complement of every byte. */
  function Complement(s: Bytes): (c: Bytes)
    ensures |c| == |s|
  {
    if s == [] then [] else [255 - s[0]] + Complement(s[1..])
  }

  lemma {:induction false} ComplementInvolutive(s: Bytes)
    ensures Complement(Complement(s)) == s
  {
    if s != [] {
      ComplementInvolutive(s[1..]);
      assert Complement(s)[1..] == Complement(s[1..]);
    }
  }

  /** Complementing reverses the order of equally long strings. */
  lemma {:induction false} ComplementReverses(a: Bytes, b: Bytes)
    requires |a| == |b|
    ensures Less(Complement(a), Complement(b)) <==> Less(b, a)
    ensures Complement(a) == Complement(b) <==> a == b
  {
    if a != [] {
      assert Complement(a)[1..] == Complement(a[1..]) && Complement(b)[1..] == Complement(b[1..]);
      ComplementReverses(a[1..], b[1..]);
      ComplementInvolutive(a);
      ComplementInvolutive(b);
    }
  }

  function EncodeTimestampDesc(t: Timestamp): (b: Bytes)
    ensures |b| == TS_SIZE
  {
    Complement(BigEndian(U64(t.wall), 8)) + Complement(BigEndian(U32(t.logical), 4))
  }

  lemma {:induction false} ComplementLast(s: Bytes)
    requires s != []
    ensures Complement(s)[|s| - 1] == 255 - s[|s| - 1]
  {
    if |s| > 1 {
      ComplementLast(s[1..]);
    }
  }

  /** The last byte of an encoded timestamp is zero exactly when the counter ends in 0xff. */
  lemma {:induction false} LastByte(t: Timestamp)
    ensures EncodeTimestampDesc(t)[TS_SIZE - 1] == 0 <==> U32(t.logical) % 256 == 255
  {
    ComplementLast(BigEndian(U32(t.logical), 4));
  }

  function DecodeTimestampDesc(b: Bytes): Timestamp
    requires |b| == TS_SIZE
  {
    FromBigEndianBound(Complement(b[..8]), Complement(b[8..]));
    Timestamp(S64(FromBigEndian(Complement(b[..8]))), S32(FromBigEndian(Complement(b[8..]))))
  }

  lemma {:induction false} FromBigEndianBound(w: Bytes, l: Bytes)
    requires |w| == 8 && |l| == 4
    ensures FromBigEndian(w) < TWO64 && FromBigEndian(l) < TWO32
  {
    Pow256Values();
    FromBigEndianRoundTrip(w);
    FromBigEndianRoundTrip(l);
  }

  /** Decoding inverts encoding on every timestamp, negative fields included. */
  lemma {:induction false} TimestampRoundTrip(t: Timestamp)
    ensures DecodeTimestampDesc(EncodeTimestampDesc(t)) == t
  {
    hide BigEndian;
    hide FromBigEndian;
    hide Complement;
    var w, l := BigEndian(U64(t.wall), 8), BigEndian(U32(t.logical), 4);
    var b := EncodeTimestampDesc(t);
    assert b[..8] == Complement(w) && b[8..] == Complement(l);
    ComplementInvolutive(w);
    ComplementInvolutive(l);
    Pow256Values();
    BigEndianRoundTrip(U64(t.wall), 8);
    BigEndianRoundTrip(U32(t.logical), 4);
  }

  /** ... and encoding inverts decoding: every 12-byte string is some timestamp. */
  lemma {:induction false} TimestampBytesRoundTrip(b: Bytes)
    requires |b| == TS_SIZE
    ensures EncodeTimestampDesc(DecodeTimestampDesc(b)) == b
  {
    hide BigEndian;
    hide FromBigEndian;
    hide Complement;
    var w, l := Complement(b[..8]), Complement(b[8..]);
    FromBigEndianBound(w, l);
    FromBigEndianRoundTrip(w);
    FromBigEndianRoundTrip(l);
    ComplementInvolutive(b[..8]);
    ComplementInvolutive(b[8..]);
    assert b == b[..8] + b[8..];
  }

  lemma {:induction false} LessConcat(a: Bytes, s: Bytes, b: Bytes, t: Bytes)
    requires |a| == |b|
    ensures Less(a + s, b + t) <==> Less(a, b) || (a == b && Less(s, t))
  {
    if a == [] {
      assert a + s == s && b + t == t;
    } else {
      assert (a + s)[1..] == a[1..] + s && (b + t)[1..] == b[1..] + t;
      LessConcat(a[1..], s, b[1..], t);
      LessIrreflexive(a);
      if a[0] == b[0] && a[1..] == b[1..] {
        assert a == [a[0]] + a[1..] == b;
      }
    }
  }

  predicate NonNegative(t: Timestamp) {
    t.wall >= 0 && t.logical >= 0
  }

  /** Byte order is the reverse of the order of the unsigned fields: of the timestamp order when
      no field is negative. */
  lemma {:induction false} TimestampOrder(t: Timestamp, u: Timestamp)
    ensures Less(EncodeTimestampDesc(t), EncodeTimestampDesc(u)) <==>
              U64(u.wall) < U64(t.wall) || (u.wall == t.wall && U32(u.logical) < U32(t.logical))
    ensures NonNegative(t) && NonNegative(u) ==>
              (Less(EncodeTimestampDesc(t), EncodeTimestampDesc(u)) <==> u.Less(t))
  {
    hide BigEndian;
    hide Complement;
    hide Less;
    var tw, tl := BigEndian(U64(t.wall), 8), BigEndian(U32(t.logical), 4);
    var uw, ul := BigEndian(U64(u.wall), 8), BigEndian(U32(u.logical), 4);
    LessConcat(Complement(tw), Complement(tl), Complement(uw), Complement(ul));
    ComplementReverses(tw, uw);
    ComplementReverses(tl, ul);
    Pow256Values();
    BigEndianOrder(U64(u.wall), U64(t.wall), 8);
    BigEndianOrder(U32(u.logical), U32(t.logical), 4);
  }

  // ----- Keys -----------------------------------------------------------------------

  function EncodeMeta(key: Bytes): Bytes {
    key + [0]
  }

  function Encode(key: Bytes, t: Timestamp): Bytes {
    if t.IsEmpty() then EncodeMeta(key) else key + [0] + EncodeTimestampDesc(t)
  }

  datatype DecodedKey = Versioned(key: Bytes, t: Timestamp) | MetaKey(key: Bytes) | Malformed

  function Decode(e: Bytes): DecodedKey {
    if e == [] then Malformed
    else if |e| > TS_SIZE && e[|e| - TS_SIZE - 1] == 0 then
      Versioned(e[..|e| - TS_SIZE - 1], DecodeTimestampDesc(e[|e| - TS_SIZE..]))
    else if e[|e| - 1] == 0 then MetaKey(e[..|e| - 1])
    else Malformed
  }

  /** Decode inverts Encode on every non-empty timestamp. */
  lemma {:induction false} DecodeVersioned(key: Bytes, t: Timestamp)
    requires !t.IsEmpty()
    ensures Decode(Encode(key, t)) == Versioned(key, t)
  {
    hide EncodeTimestampDesc;
    hide DecodeTimestampDesc;
    var e := Encode(key, t);
    assert e[..|e| - TS_SIZE - 1] == key;
    assert e[|e| - TS_SIZE..] == EncodeTimestampDesc(t);
    TimestampRoundTrip(t);
  }

  /** The twelfth byte from the end of a raw key decides whether its metadata key is taken for a
      version of a shorter key. */
  predicate Unambiguous(key: Bytes) {
    |key| < TS_SIZE || key[|key| - TS_SIZE] != 0
  }

  /** Decode inverts EncodeMeta exactly on unambiguous keys. */
  lemma {:induction false} DecodeMetaExactly(key: Bytes)
    ensures Decode(EncodeMeta(key)) == MetaKey(key) <==> Unambiguous(key)
    ensures !Unambiguous(key) ==> Decode(EncodeMeta(key)).Versioned?
  {
    hide DecodeTimestampDesc;
    assert EncodeMeta(key)[..|key|] == key;
  }

  /** A key that decodes as metadata is the metadata key of what it decodes to. */
  lemma {:induction false} MetaKeyIsMeta(e: Bytes)
    requires Decode(e).MetaKey?
    ensures e == EncodeMeta(Decode(e).key)
  {
  }

  /** Within a key newer versions come first, and metadata before all of them. */
  lemma {:induction false} VersionOrder(key: Bytes, t: Timestamp, u: Timestamp)
    requires NonNegative(t) && NonNegative(u)
    ensures !t.IsEmpty() && !u.IsEmpty() ==> (Less(Encode(key, t), Encode(key, u)) <==> u.Less(t))
    ensures !t.IsEmpty() ==> Less(EncodeMeta(key), Encode(key, t))
  {
    hide EncodeTimestampDesc;
    hide Less;
    LessCommonPrefix(key + [0], EncodeTimestampDesc(t), EncodeTimestampDesc(u));
    TimestampOrder(t, u);
    if !t.IsEmpty() {
      LessCommonPrefix(key + [0], [], EncodeTimestampDesc(t));
      assert key + [0] + [] == key + [0];
      LessEmpty(EncodeTimestampDesc(t));
    }
  }

  lemma {:induction false} LessEmpty(s: Bytes)
    ensures Less([], s) <==> s != []
  {
  }

  /** Version keys determine raw key and timestamp. */
  lemma {:induction false} EncodeInjective(k: Bytes, t: Timestamp, k': Bytes, t': Timestamp)
    requires !t.IsEmpty() && !t'.IsEmpty()
    ensures Encode(k, t) == Encode(k', t') <==> k == k' && t == t'
  {
    hide Decode;
    DecodeVersioned(k, t);
    DecodeVersioned(k', t');
  }

  lemma {:induction false} EncodeMetaInjective(k: Bytes, k': Bytes)
    ensures EncodeMeta(k) == EncodeMeta(k') <==> k == k'
  {
    assert EncodeMeta(k)[..|k|] == k;
    assert EncodeMeta(k')[..|k'|] == k';
  }

  /** Metadata keys are ordered like the raw keys. */
  lemma {:induction false} MetaOrder(a: Bytes, b: Bytes)
    ensures Less(EncodeMeta(a), EncodeMeta(b)) <==> Less(a, b)
  {
    if a != [] && b != [] {
      assert EncodeMeta(a)[1..] == EncodeMeta(a[1..]) && EncodeMeta(b)[1..] == EncodeMeta(b[1..]);
      MetaOrder(a[1..], b[1..]);
    } else if a == [] && b != [] {
      assert EncodeMeta(a) == [0];
      assert EncodeMeta(b)[0] == b[0] && EncodeMeta(b)[1..] != [];
    } else if b == [] {
      assert EncodeMeta(b) == [0];
      assert !Less(EncodeMeta(a)[1..], []);
    }
  }

  /** The layout by example: key, separator, complemented wall time and counter. */
  lemma {:induction false} KeyBytes()
    ensures EncodeMeta([7]) == [7, 0]
    ensures Encode([7], Timestamp(1, 2)) ==
            [7, 0] + [255, 255, 255, 255, 255, 255, 255, 254] + [255, 255, 255, 253]
  {
    hide BigEndian;
    hide Complement;
    assert U64(1) == 1 && U32(2) == 2;
    BigEndianSmall(1);
    BigEndianSmall(2);
    ComplementFour(0, 0, 0, 2);
    assert BigEndian(1, 8) == [0, 0, 0, 0] + [0, 0, 0, 1];
    ComplementConcat([0, 0, 0, 0], [0, 0, 0, 1]);
    ComplementFour(0, 0, 0, 0);
    ComplementFour(0, 0, 0, 1);
  }

  lemma {:induction false} ComplementConcat(a: Bytes, b: Bytes)
    ensures Complement(a + b) == Complement(a) + Complement(b)
  {
    if a == [] {
      assert a + b == b;
    } else {
      assert (a + b)[1..] == a[1..] + b;
      ComplementConcat(a[1..], b);
    }
  }

  lemma {:induction false} ComplementFour(a: byte, b: byte, c: byte, d: byte)
    ensures Complement([a, b, c, d]) == [255 - a, 255 - b, 255 - c, 255 - d]
  {
    assert Complement([d]) == [255 - d];
    assert [c, d][1..] == [d] && [b, c, d][1..] == [c, d] && [a, b, c, d][1..] == [b, c, d];
    assert Complement([c, d]) == [255 - c, 255 - d];
    assert Complement([b, c, d]) == [255 - b, 255 - c, 255 - d];
  }
}
