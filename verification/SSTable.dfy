/** SSTable files at byte level: the writer's layout, opening a file, reading records back at
    their offsets, and point lookup through the Bloom filter and binary search. */
module SSTable {
  import opened Bytes
  import opened Records
  import Bloom

  const RECORD_HEADER_SIZE: nat := 9
  const FOOTER_SIZE: nat := 32

  // ----- Records --------------------------------------------------------------------

  function ValueOf(r: Record): Bytes {
    if r.cell.Live? then r.cell.value else []
  }

  function EncodeRecord(r: Record): (b: Bytes)
    ensures |b| == RECORD_HEADER_SIZE + |r.key| + |ValueOf(r)|
  {
    LittleEndian(|r.key|, 4) + LittleEndian(|ValueOf(r)|, 4) + [if r.cell.Tombstone? then 1 else 0] + r.key + ValueOf(r)
  }

  /** The record stored at a byte offset; reading past the end fails. */
  function ReadRecordAt(file: Bytes, off: nat): Option<Record> {
    if off + RECORD_HEADER_SIZE > |file| then None else
      var klen, vlen := FromLittleEndian(file[off..off + 4]), FromLittleEndian(file[off + 4..off + 8]);
      if off + RECORD_HEADER_SIZE + klen + vlen > |file| then None else
        var key := file[off + RECORD_HEADER_SIZE..off + RECORD_HEADER_SIZE + klen];
        var value := file[off + RECORD_HEADER_SIZE + klen..off + RECORD_HEADER_SIZE + klen + vlen];
        Some(Record(key, if file[off + 8] == 1 then Tombstone else Live(value)))
  }

  predicate Fits(r: Record) {
    |r.key| < TWO32 && |ValueOf(r)| < TWO32
  }

  /** A record is read back from wherever it was written, exactly when its lengths fit. */
  lemma {:induction false} RecordRoundTrip(pre: Bytes, r: Record, post: Bytes)
    ensures ReadRecordAt(pre + EncodeRecord(r) + post, |pre|) == Some(r) <==> Fits(r)
  {
    hide LittleEndian;
    hide FromLittleEndian;
    var file, off := pre + EncodeRecord(r) + post, |pre|;
    assert file[off..off + 4] == EncodeRecord(r)[..4] == LittleEndian(|r.key|, 4);
    assert file[off + 4..off + 8] == EncodeRecord(r)[4..8] == LittleEndian(|ValueOf(r)|, 4);
    assert file[off + 8] == EncodeRecord(r)[8];
    Pow256Values();
    LittleEndianRoundTrip(|r.key|, 4);
    LittleEndianRoundTrip(|ValueOf(r)|, 4);
    if Fits(r) {
      var k := off + RECORD_HEADER_SIZE;
      assert file[k..k + |r.key|] == r.key;
      assert file[k + |r.key|..k + |r.key| + |ValueOf(r)|] == ValueOf(r);
    }
  }

  /** The layout by example: little-endian lengths, deletion flag, key, value. */
  lemma {:induction false} RecordBytes()
    ensures EncodeRecord(Record([7], Live([8, 9]))) == [1, 0, 0, 0] + [2, 0, 0, 0] + [0] + [7] + [8, 9]
    ensures EncodeRecord(Record([7], Tombstone)) == [1, 0, 0, 0] + [0, 0, 0, 0] + [1] + [7]
  {
    LittleEndianSmall(0);
    LittleEndianSmall(1);
    LittleEndianSmall(2);
  }

  // ----- Layout ---------------------------------------------------------------------

  /** The data section. */
  function Data(rs: seq<Record>): Bytes {
    if rs == [] then [] else Data(rs[..|rs| - 1]) + EncodeRecord(rs[|rs| - 1])
  }

  lemma {:induction false} DataConcat(a: seq<Record>, b: seq<Record>)
    ensures Data(a + b) == Data(a) + Data(b)
  {
    hide EncodeRecord;
    if b == [] {
      assert a + b == a;
    } else {
      var init, last := b[..|b| - 1], EncodeRecord(b[|b| - 1]);
      assert (a + b)[..|a + b| - 1] == a + init;
      DataConcat(a, init);
      assert (Data(a) + Data(init)) + last == Data(a) + (Data(init) + last);
    }
  }

  lemma {:induction false} DataOne(r: Record)
    ensures Data([r]) == EncodeRecord(r)
  {
    hide EncodeRecord;
    assert [r][..0] == [];
  }

  /** Where each record starts. */
  function OffsetsOf(rs: seq<Record>): (os: seq<nat>)
    ensures |os| == |rs|
  {
    if rs == [] then [] else OffsetsOf(rs[..|rs| - 1]) + [|Data(rs[..|rs| - 1])|]
  }

  lemma {:induction false} OffsetAt(rs: seq<Record>, i: nat)
    requires i < |rs|
    ensures OffsetsOf(rs)[i] == |Data(rs[..i])|
    ensures |Data(rs[..i])| <= |Data(rs)|
  {
    if i < |rs| - 1 {
      OffsetAt(rs[..|rs| - 1], i);
      assert rs[..|rs| - 1][..i] == rs[..i];
    }
  }

  /** The offset index. */
  function Index(os: seq<nat>): (b: Bytes)
    ensures |b| == 8 * |os|
  {
    if os == [] then [] else Index(os[..|os| - 1]) + LittleEndian(os[|os| - 1], 8)
  }

  function Footer(count: nat, indexOffset: nat, bloomOffset: nat, bloomSize: nat): (b: Bytes)
    ensures |b| == FOOTER_SIZE
  {
    LittleEndian(count, 8) + LittleEndian(indexOffset, 8) + LittleEndian(bloomOffset, 8) + LittleEndian(bloomSize, 8)
  }

  /** The whole file: data, index, filter, footer. */
  function Layout(rs: seq<Record>, filter: Bytes): Bytes {
    var d, x := Data(rs), Index(OffsetsOf(rs));
    d + x + filter + Footer(|rs|, |d|, |d| + |x|, |filter|)
  }

  // ----- Writing --------------------------------------------------------------------

  class SSTableWriter {
    var file: Bytes
    var offsets: seq<nat>
    var keys: seq<Bytes>
    var count: nat
    ghost var added: seq<Record>

    constructor ()
      ensures Valid() && added == []
    {
      file, offsets, keys, count, added := [], [], [], 0, [];
    }

    ghost predicate Valid()
      reads this
    {
      && file == Data(added) && offsets == OffsetsOf(added) && count == |added| == |keys|
      && forall i :: 0 <= i < |added| ==> keys[i] == added[i].key
    }

    method Add(r: Record)
      requires Valid()
      modifies this
      ensures Valid() && added == old(added) + [r]
    {
      hide EncodeRecord;
      var offset := |file|;
      file := file + EncodeRecord(r);
      offsets := offsets + [offset];
      keys := keys + [r.key];
      count := count + 1;
      assert (added + [r])[..|added + [r]| - 1] == added;
      added := added + [r];
    }

    method WriteIndex()
      modifies this`file
      ensures file == old(file) + Index(offsets)
    {
      hide LittleEndian;
      ghost var data := file;
      var os := offsets;
      for i := 0 to |os|
        invariant file == data + Index(os[..i])
      {
        assert os[..i + 1][..i] == os[..i];
        file := file + LittleEndian(os[i], 8);
      }
      assert os[..|os|] == os;
    }

    /** Append index, filter and footer.  The filter passes every added key. */
    method Finish(hash: Bloom.Hash, numBits: nat, numHashes: nat) returns (ghost bits: Bytes)
      requires Valid()
      requires 0 < numBits < TWO32 && numBits % 8 == 0 && numHashes < TWO32
      modifies this`file
      ensures file == Layout(added, Bloom.Encode(bits, numBits, numHashes)) && numBits == 8 * |bits|
      ensures forall i :: 0 <= i < |added| ==> Bloom.Contains(bits, numBits, numHashes, hash, added[i].key)
    {
      hide EncodeRecord;
      hide LittleEndian;
      hide Bloom.Contains;
      hide Bloom.Encode;
      hide Data;
      hide Index;
      hide Footer;
      hide OffsetsOf;
      var indexOffset := |file|;
      WriteIndex();
      var bloomOffset := |file|;
      var bf := new Bloom.BloomFilter(numBits, numHashes);
      bf.AddAll(hash, keys);
      bits := bf.bits[..];
      var bloomData := Bloom.Encode(bf.bits[..], bf.numBits, bf.numHashes);
      file := file + bloomData;
      file := file + Footer(count, indexOffset, bloomOffset, |bloomData|);
      forall i | 0 <= i < |added| ensures Bloom.Contains(bits, numBits, numHashes, hash, added[i].key) {
        assert keys[i] in keys;
      }
    }
  }

  // ----- Opening --------------------------------------------------------------------

  /** What `OpenSSTable` extracts: record offsets and the serialized filter. */
  datatype Opened = Opened(offsets: seq<nat>, filter: Option<Bytes>)

  function Word(file: Bytes, off: nat): nat
    requires off + 8 <= |file|
  {
    FromLittleEndian(file[off..off + 8])
  }

  function ReadOffsets(file: Bytes, off: nat, count: nat): (os: Option<seq<nat>>) {
    if count == 0 then Some([])
    else if off + 8 * count > |file| then None
    else
      var init := ReadOffsets(file, off, count - 1);
      if init.None? then None else Some(init.value + [Word(file, off + 8 * (count - 1))])
  }

  function Open(file: Bytes): Option<Opened> {
    if |file| < FOOTER_SIZE then None else
      var f := |file| - FOOTER_SIZE;
      var count, indexOffset, bloomOffset, bloomSize := Word(file, f), Word(file, f + 8), Word(file, f + 16), Word(file, f + 24);
      var offsets := ReadOffsets(file, indexOffset, count);
      if offsets.None? then None
      else if bloomSize == 0 then Some(Opened(offsets.value, None))
      else if bloomOffset + bloomSize > |file| then None
      else Some(Opened(offsets.value, Some(file[bloomOffset..bloomOffset + bloomSize])))
  }

  lemma {:induction false} IndexSnoc(os: seq<nat>, n: nat)
    requires |os| == n + 1
    ensures Index(os) == Index(os[..n]) + LittleEndian(os[n], 8)
  {
  }

  lemma {:induction false} ReadOffsetsSnoc(file: Bytes, off: nat, os: seq<nat>, n: nat)
    requires |os| == n + 1 && off + 8 * |os| <= |file| && ReadOffsets(file, off, n) == Some(os[..n])
    requires Word(file, off + 8 * n) == os[n]
    ensures ReadOffsets(file, off, |os|) == Some(os)
  {
    hide Word;
    assert os == os[..n] + [os[n]];
  }

  lemma {:induction false} ReadOffsetsOf(file: Bytes, off: nat, os: seq<nat>)
    requires off + 8 * |os| <= |file| && file[off..off + 8 * |os|] == Index(os)
    requires forall i :: 0 <= i < |os| ==> os[i] < TWO64
    ensures ReadOffsets(file, off, |os|) == Some(os)
  {
    hide LittleEndian;
    hide FromLittleEndian;
    hide Index;
    if os != [] {
      hide ReadOffsets;
      var n := |os| - 1;
      var block := file[off..off + 8 * |os|];
      IndexSnoc(os, n);
      assert block[..8 * n] == Index(os[..n]) && block[8 * n..] == LittleEndian(os[n], 8);
      assert file[off..off + 8 * n] == block[..8 * n];
      assert file[off + 8 * n..off + 8 * n + 8] == block[8 * n..];
      ReadOffsetsOf(file, off, os[..n]);
      Pow256Values();
      LittleEndianRoundTrip(os[n], 8);
      ReadOffsetsSnoc(file, off, os, n);
    }
  }

  lemma {:induction false} FooterFields(file: Bytes, count: nat, indexOffset: nat, bloomOffset: nat, bloomSize: nat)
    requires |file| >= FOOTER_SIZE
    requires file[|file| - FOOTER_SIZE..] == Footer(count, indexOffset, bloomOffset, bloomSize)
    requires count < TWO64 && indexOffset < TWO64 && bloomOffset < TWO64 && bloomSize < TWO64
    ensures var f := |file| - FOOTER_SIZE;
            && Word(file, f) == count && Word(file, f + 8) == indexOffset
            && Word(file, f + 16) == bloomOffset && Word(file, f + 24) == bloomSize
  {
    hide LittleEndian;
    hide FromLittleEndian;
    var f, footer := |file| - FOOTER_SIZE, file[|file| - FOOTER_SIZE..];
    assert file[f..f + 8] == footer[..8] == LittleEndian(count, 8);
    assert file[f + 8..f + 16] == footer[8..16] == LittleEndian(indexOffset, 8);
    assert file[f + 16..f + 24] == footer[16..24] == LittleEndian(bloomOffset, 8);
    assert file[f + 24..f + 32] == footer[24..32] == LittleEndian(bloomSize, 8);
    Pow256Values();
    LittleEndianRoundTrip(count, 8);
    LittleEndianRoundTrip(indexOffset, 8);
    LittleEndianRoundTrip(bloomOffset, 8);
    LittleEndianRoundTrip(bloomSize, 8);
  }

  /** Opening a written file finds every offset and the filter, and every offset reads back
      its record. */
  lemma {:induction false} OpenWritten(rs: seq<Record>, filter: Bytes)
    requires forall i :: 0 <= i < |rs| ==> Fits(rs[i])
    requires filter != [] && |Layout(rs, filter)| < TWO64
    ensures Open(Layout(rs, filter)) == Some(Opened(OffsetsOf(rs), Some(filter)))
    ensures forall i :: 0 <= i < |rs| ==> ReadRecordAt(Layout(rs, filter), OffsetsOf(rs)[i]) == Some(rs[i])
  {
    hide EncodeRecord;
    hide LittleEndian;
    hide FromLittleEndian;
    hide ReadRecordAt;
    hide Data;
    hide Index;
    hide OffsetsOf;
    hide Footer;
    hide Word;
    hide ReadOffsets;
    var d, os := Data(rs), OffsetsOf(rs);
    var x := Index(os);
    var foot := Footer(|rs|, |d|, |d| + |x|, |filter|);
    var file := d + x + filter + foot;
    assert file == Layout(rs, filter);
    assert file[|file| - FOOTER_SIZE..] == foot;
    FooterFields(file, |rs|, |d|, |d| + |x|, |filter|);
    assert file[|d|..|d| + 8 * |os|] == x;
    forall i | 0 <= i < |os| ensures os[i] < TWO64 {
      OffsetAt(rs, i);
    }
    ReadOffsetsOf(file, |d|, os);
    assert file[|d| + |x|..|d| + |x| + |filter|] == filter;
    forall i | 0 <= i < |rs| ensures ReadRecordAt(file, os[i]) == Some(rs[i]) {
      OffsetAt(rs, i);
      RecordInData(rs, i, x + filter + foot);
      assert d + (x + filter + foot) == file;
    }
  }

  function ReadAt(file: Bytes, os: seq<nat>): Option<seq<Record>> {
    if os == [] then Some([])
    else
      var init, last := ReadAt(file, os[..|os| - 1]), ReadRecordAt(file, os[|os| - 1]);
      if init.None? || last.None? then None else Some(init.value + [last.value])
  }

  /** The table a file stands for, if it opens and all its records read. */
  function TableOf(file: Bytes): Option<seq<Record>> {
    var o := Open(file);
    if o.None? then None else ReadAt(file, o.value.offsets)
  }

  /** A written file stands for exactly the records written. */
  lemma {:induction false} TableOfWritten(rs: seq<Record>, filter: Bytes)
    requires forall i :: 0 <= i < |rs| ==> Fits(rs[i])
    requires filter != [] && |Layout(rs, filter)| < TWO64
    ensures TableOf(Layout(rs, filter)) == Some(rs)
  {
    hide Layout;
    hide Open;
    hide ReadRecordAt;
    hide OffsetsOf;
    OpenWritten(rs, filter);
    ReadAtOffsets(Layout(rs, filter), OffsetsOf(rs), rs);
  }

  lemma {:induction false} ReadAtOffsets(file: Bytes, os: seq<nat>, rs: seq<Record>)
    requires |os| == |rs| && forall i :: 0 <= i < |rs| ==> ReadRecordAt(file, os[i]) == Some(rs[i])
    ensures ReadAt(file, os) == Some(rs)
  {
    hide ReadRecordAt;
    if rs != [] {
      var n := |rs| - 1;
      ReadAtOffsets(file, os[..n], rs[..n]);
      assert rs == rs[..n] + [rs[n]];
    }
  }

  lemma {:induction false} RecordInData(rs: seq<Record>, i: nat, post: Bytes)
    requires i < |rs| && Fits(rs[i])
    ensures ReadRecordAt(Data(rs) + post, |Data(rs[..i])|) == Some(rs[i])
  {
    hide EncodeRecord;
    hide ReadRecordAt;
    hide Data;
    var a, b := rs[..i], rs[i + 1..];
    assert rs == a + [rs[i]] + b;
    DataConcat(a + [rs[i]], b);
    DataConcat(a, [rs[i]]);
    DataOne(rs[i]);
    RecordRoundTrip(Data(a), rs[i], Data(b) + post);
    assert Data(rs) + post == Data(a) + EncodeRecord(rs[i]) + (Data(b) + post);
  }

  // ----- Reading --------------------------------------------------------------------

  class SSTableReader {
    const file: Bytes
    const offsets: seq<nat>
    const bloom: Bloom.BloomFilter?

    constructor (file: Bytes, o: Opened)
      requires o.filter.Some? ==> |o.filter.value| >= Bloom.HEADER_SIZE
      ensures this.file == file && this.offsets == o.offsets
      ensures o.filter.None? ==> bloom == null
      ensures o.filter.Some? ==>
                && bloom != null && fresh(bloom) && fresh(bloom.bits)
                && (bloom.bits[..], bloom.numBits, bloom.numHashes) == Bloom.Decode(o.filter.value)
    {
      this.file, this.offsets := file, o.offsets;
      if o.filter.Some? {
        var bf := new Bloom.BloomFilter.FromData(o.filter.value);
        this.bloom := bf;
      } else {
        this.bloom := null;
      }
    }

    /** The reader serves the run `rs`: each offset yields its record and the filter, if any,
        passes every key of the run. */
    ghost predicate Serves(hash: Bloom.Hash, rs: seq<Record>)
      reads if bloom == null then {} else {bloom.bits}
    {
      && Sorted(rs) && |offsets| == |rs|
      && (forall i :: 0 <= i < |rs| ==> ReadRecordAt(file, offsets[i]) == Some(rs[i]))
      && (bloom != null ==>
            && bloom.Valid()
            && forall i :: 0 <= i < |rs| ==>
                 Bloom.Contains(bloom.bits[..], bloom.numBits, bloom.numHashes, hash, rs[i].key))
    }

    /** Filter, then binary search: the same answer as looking through the whole run. */
    method Get(hash: Bloom.Hash, key: Bytes, ghost rs: seq<Record>) returns (r: Option<Cell>)
      requires Serves(hash, rs)
      ensures r == Lookup(rs, key)
    {
      hide Less;
      hide ToMap;
      hide ReadRecordAt;
      hide Bloom.Contains;
      if bloom != null {
        var may := bloom.MayContain(hash, key);
        if !may {
          return None;
        }
      }
      var left, right := 0, |offsets| - 1;
      while left <= right
        invariant 0 <= left <= right + 1 <= |rs|
        invariant left > 0 ==> Less(rs[left - 1].key, key)
        invariant right + 1 < |rs| ==> !Less(rs[right + 1].key, key) && rs[right + 1].key != key
      {
        var mid := left + (right - left) / 2;
        var record := ReadRecordAt(file, offsets[mid]).value;
        LessTrichotomy(record.key, key);
        if record.key == key {
          return Some(record.cell);
        }
        if Less(record.key, key) {
          left := mid + 1;
        } else {
          right := mid - 1;
        }
      }
      SearchPosition(rs, left, key);
      return None;
    }
  }

  /** Write a sorted run, open the file, and look a key up: the answer is the run's. */
  method WriteOpenGet(hash: Bloom.Hash, numBits: nat, numHashes: nat, rs: seq<Record>, key: Bytes)
    returns (r: Option<Cell>)
    requires Sorted(rs) && forall i :: 0 <= i < |rs| ==> Fits(rs[i])
    requires 0 < numBits < TWO32 && numBits % 8 == 0 && numHashes < TWO32
    requires |Data(rs)| + 8 * |rs| + Bloom.HEADER_SIZE + numBits / 8 + FOOTER_SIZE < TWO64
    ensures r == Lookup(rs, key)
  {
    hide *;
    var w := new SSTableWriter();
    for i := 0 to |rs|
      invariant w.Valid() && w.added == rs[..i] && fresh(w)
    {
      w.Add(rs[i]);
      assert rs[..i + 1] == rs[..i] + [rs[i]];
    }
    assert rs[..|rs|] == rs;
    ghost var bits := w.Finish(hash, numBits, numHashes);
    ghost var filter := Bloom.Encode(bits, numBits, numHashes);
    LayoutSize(rs, filter);
    OpenWritten(rs, filter);
    var reader := new SSTableReader(w.file, Open(w.file).value);
    Bloom.RoundTrip(bits, numBits, numHashes);
    assert reader.Serves(hash, rs) by {
      ServesWritten(reader, hash, rs, bits, numBits, numHashes);
    }
    r := reader.Get(hash, key, rs);
  }

  lemma {:induction false} LayoutSize(rs: seq<Record>, filter: Bytes)
    ensures |Layout(rs, filter)| == |Data(rs)| + 8 * |rs| + |filter| + FOOTER_SIZE
  {
  }

  lemma {:induction false} ServesWritten(reader: SSTableReader, hash: Bloom.Hash, rs: seq<Record>, bits: Bytes, numBits: nat, numHashes: nat)
    requires Sorted(rs) && reader.bloom != null
    requires 0 < numBits == 8 * |bits| && numBits < TWO32 && numHashes < TWO32
    requires (reader.bloom.bits[..], reader.bloom.numBits, reader.bloom.numHashes) == (bits, numBits, numHashes)
    requires reader.offsets == OffsetsOf(rs)
    requires forall i :: 0 <= i < |rs| ==> ReadRecordAt(reader.file, OffsetsOf(rs)[i]) == Some(rs[i])
    requires forall i :: 0 <= i < |rs| ==> Bloom.Contains(bits, numBits, numHashes, hash, rs[i].key)
    ensures reader.Serves(hash, rs)
  {
    hide Sorted;
    hide ReadRecordAt;
    hide Bloom.Contains;
    hide OffsetsOf;
    hide Data;
    assert reader.bloom.Valid();
  }
}
