/** The write-ahead log file as the engine uses it: bytes on disk, and the records a reopened
    engine reads from them. */
module LsmLog {
  import opened Bytes
  import opened Records
  import W = Wal

  function EntryOf(r: Record): W.Entry {
    match r.cell
    case Live(v) => W.Entry(r.key, v, W.OP_PUT)
    case Tombstone => W.Entry(r.key, [], W.OP_DELETE)
  }

  function EntriesOf(rs: seq<Record>): (es: seq<W.Entry>)
    ensures |es| == |rs| && forall i :: 0 <= i < |rs| ==> es[i] == EntryOf(rs[i])
  {
    seq(|rs|, i requires 0 <= i < |rs| => EntryOf(rs[i]))
  }

  /** What replay applies: puts and deletions, nothing for other operation codes. */
  function RecordsOf(es: seq<W.Entry>): seq<Record> {
    if es == [] then []
    else
      var e := es[|es| - 1];
      var init := RecordsOf(es[..|es| - 1]);
      if e.op == W.OP_PUT then init + [Record(e.key, Live(e.value))]
      else if e.op == W.OP_DELETE then init + [Record(e.key, Tombstone)]
      else init
  }

  function EncodeRecord(crc: W.Crc, r: Record): Bytes {
    W.Encode(crc, EntryOf(r))
  }

  function EncodeLog(crc: W.Crc, rs: seq<Record>): Bytes {
    W.EncodeAll(crc, EntriesOf(rs))
  }

  predicate Fits(r: Record) {
    W.Fits(EntryOf(r))
  }

  predicate AllFit(rs: seq<Record>) {
    forall i :: 0 <= i < |rs| ==> Fits(rs[i])
  }

  /** Replay of a log whose bytes lie about their lengths goes out of bounds. */
  predicate Panics(crc: W.Crc, log: Bytes) {
    W.Replay(crc, log).Panicked?
  }

  /** The records a reopened engine reads. */
  function ReadLog(crc: W.Crc, log: Bytes): seq<Record> {
    var r := W.Replay(crc, log);
    if r.Panicked? then [] else RecordsOf(r.entries)
  }

  lemma {:induction false} RecordsOfEntries(rs: seq<Record>)
    ensures RecordsOf(EntriesOf(rs)) == rs
  {
    if rs != [] {
      var init := rs[..|rs| - 1];
      RecordsOfEntries(init);
      assert EntriesOf(rs)[..|rs| - 1] == EntriesOf(init);
      assert rs == init + [rs[|rs| - 1]];
    }
  }

  lemma {:induction false} EncodeAllSnoc(crc: W.Crc, es: seq<W.Entry>, e: W.Entry)
    ensures W.EncodeAll(crc, es + [e]) == W.EncodeAll(crc, es) + W.Encode(crc, e)
  {
    hide W.Encode;
    if es == [] {
      assert es + [e] == [e] && [e][1..] == [];
      assert W.EncodeAll(crc, [e]) == W.Encode(crc, e) + W.EncodeAll(crc, []);
    } else {
      assert (es + [e])[1..] == es[1..] + [e];
      EncodeAllSnoc(crc, es[1..], e);
    }
  }

  /** Appending a record appends its encoding. */
  lemma {:induction false} EncodeLogSnoc(crc: W.Crc, rs: seq<Record>, r: Record)
    ensures EncodeLog(crc, rs + [r]) == EncodeLog(crc, rs) + EncodeRecord(crc, r)
  {
    assert EntriesOf(rs + [r]) == EntriesOf(rs) + [EntryOf(r)];
    EncodeAllSnoc(crc, EntriesOf(rs), EntryOf(r));
  }

  /** Complete records are read back up to bytes that do not decode. */
  lemma {:induction false} ReadUpTo(crc: W.Crc, rs: seq<Record>, tail: Bytes)
    requires AllFit(rs) && (W.Decode(crc, tail).UnexpectedEof? || W.Decode(crc, tail).ChecksumMismatch?)
    ensures !Panics(crc, EncodeLog(crc, rs) + tail) && ReadLog(crc, EncodeLog(crc, rs) + tail) == rs
  {
    hide W.Decode;
    hide W.EncodeAll;
    W.ReplayUpTo(crc, EntriesOf(rs), tail);
    RecordsOfEntries(rs);
  }

  /** A whole log, and one cut inside its last record, read back to the complete records. */
  lemma {:induction false} ReadCut(crc: W.Crc, rs: seq<Record>, torn: Record, n: nat)
    requires AllFit(rs) && Fits(torn) && n < |EncodeRecord(crc, torn)|
    ensures var log := EncodeLog(crc, rs) + EncodeRecord(crc, torn)[..n];
            !Panics(crc, log) && ReadLog(crc, log) == rs
  {
    hide W.Decode;
    W.PrefixIsEof(crc, EntryOf(torn), n);
    ReadUpTo(crc, rs, EncodeRecord(crc, torn)[..n]);
  }

  lemma {:induction false} ReadWhole(crc: W.Crc, rs: seq<Record>)
    requires AllFit(rs)
    ensures !Panics(crc, EncodeLog(crc, rs)) && ReadLog(crc, EncodeLog(crc, rs)) == rs
  {
    ReadUpTo(crc, rs, []);
    assert EncodeLog(crc, rs) + [] == EncodeLog(crc, rs);
  }
}
