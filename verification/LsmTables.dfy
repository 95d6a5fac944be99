/** The crash model takes a table file for the records written to it.  As long as every record put
    or deleted fits its 32-bit lengths, that is what the bytes of every table stand for. */
module LsmTables {
  import opened Bytes
  import opened Records
  import opened LsmLog
  import opened LsmDisk
  import opened LsmCrash
  import S = SSTable
  import W = Wal

  ghost predicate MapFits(m: map<Bytes, Cell>) {
    forall k :: k in m ==> S.Fits(Record(k, m[k]))
  }

  ghost predicate RunFits(rs: seq<Record>) {
    forall i :: 0 <= i < |rs| ==> S.Fits(rs[i])
  }

  ghost predicate FilesFit(files: map<nat, File>) {
    forall id :: id in files && files[id].Table? ==> RunFits(files[id].rs)
  }

  ghost predicate Small(s: State) {
    FilesFit(s.disk.files) && MapFits(s.mem) && (s.inflight.Some? ==> S.Fits(s.inflight.value))
  }

  /** The record appended, if any, fits. */
  predicate Brief(a: Action) {
    a.Append? || a.AppendTorn? ==> S.Fits(a.r)
  }

  /** A sorted run has the records of the map it denotes. */
  lemma {:induction false} RunOfMap(rs: seq<Record>)
    requires Sorted(rs) && MapFits(ToMap(rs))
    ensures RunFits(rs)
  {
    hide Less;
    hide ToMap;
    hide S.Fits;
    SortedDistinct(rs);
    forall i | 0 <= i < |rs| ensures S.Fits(rs[i]) {
      assert rs[i].key in ToMap(rs);
      assert rs[i] == Record(rs[i].key, rs[i].cell);
    }
  }

  lemma {:induction false} MapOfRun(rs: seq<Record>)
    requires Sorted(rs) && RunFits(rs)
    ensures MapFits(ToMap(rs))
  {
    hide Less;
    hide ToMap;
    hide S.Fits;
    forall k | k in ToMap(rs) ensures S.Fits(Record(k, ToMap(rs)[k])) {
      var i :| 0 <= i < |rs| && rs[i].key == k;
      assert rs[i] == Record(k, ToMap(rs)[k]);
    }
  }

  lemma {:induction false} MapOfFits(files: map<nat, File>, ids: seq<nat>)
    requires FilesFit(files)
    ensures MapFits(MapOf(files, ids))
  {
    hide Sorted;
    hide ToMap;
    hide S.Fits;
    if ids != [] {
      MapOfFits(files, ids[1..]);
      if Readable(files, ids[0]) {
        MapOfRun(files[ids[0]].rs);
      }
    }
  }

  /** Whatever the bytes of a log, entries read from it have 32-bit lengths. */
  lemma {:induction false} ReplayFits(crc: W.Crc, log: Bytes)
    ensures var r := W.Replay(crc, log); r.Entries? ==> forall i :: 0 <= i < |r.entries| ==> W.Fits(r.entries[i])
    decreases |log|
  {
    hide W.Update;
    hide FromLittleEndian;
    var d := W.Decode(crc, log);
    if d.Ok? {
      ReplayFits(crc, d.rest);
    }
  }

  lemma {:induction false} RecordsFit(es: seq<W.Entry>)
    requires forall i :: 0 <= i < |es| ==> W.Fits(es[i])
    ensures RunFits(RecordsOf(es))
  {
    if es != [] {
      RecordsFit(es[..|es| - 1]);
    }
  }

  lemma {:induction false} ReplayedFits(wal: seq<Record>)
    requires RunFits(wal)
    ensures MapFits(Replay(wal))
  {
    hide S.Fits;
    if wal != [] {
      var r := wal[|wal| - 1];
      ReplayedFits(wal[..|wal| - 1]);
      assert r == Record(r.key, r.cell);
    }
  }

  lemma {:induction false} StepSmall(crc: W.Crc, s: State, a: Action)
    requires Small(s) && Enabled(crc, s, a) && Brief(a)
    ensures Small(Step(crc, s, a))
  {
    hide Sorted;
    hide ToMap;
    hide Load;
    hide MapOf;
    hide Recover;
    hide ReadLog;
    hide Replay;
    hide S.Fits;
    match a
    case FlushWrite(rs) => RunOfMap(rs);
    case CompactWrite(level, rs) =>
      MapOfFits(s.disk.files, Inputs(Load(s.disk), level));
      RunOfMap(rs);
    case Insert =>
      if s.inflight.Some? {
        assert s.inflight.value == Record(s.inflight.value.key, s.inflight.value.cell);
      }
    case Reopen(next) =>
      LogFits(crc, s.disk.log);
      ReplayedFits(ReadLog(crc, s.disk.log));
    case _ =>
  }

  lemma {:induction false} LogFits(crc: W.Crc, log: Bytes)
    ensures RunFits(ReadLog(crc, log))
  {
    hide W.Replay;
    ReplayFits(crc, log);
    var r := W.Replay(crc, log);
    if r.Entries? {
      RecordsFit(r.entries);
    }
  }

  lemma {:induction false} RunSmall(crc: W.Crc, s: State, run: seq<Action>)
    requires Small(s) && From(crc, s, run).Some? && forall i :: 0 <= i < |run| ==> Brief(run[i])
    ensures Small(From(crc, s, run).value)
    decreases |run|
  {
    hide Small;
    hide Step;
    hide Enabled;
    hide Brief;
    if run != [] {
      var init := run[..|run| - 1];
      RunSmall(crc, s, init);
      StepSmall(crc, From(crc, s, init).value, run[|run| - 1]);
    }
  }

  /** In every run of writes that fit, crashes and reopens included, the bytes written for each
      table stand for the records the model takes it for. */
  lemma {:induction false} TablesReadBack(crc: W.Crc, run: seq<Action>, id: nat, filter: Bytes)
    requires From(crc, START, run).Some? && forall i :: 0 <= i < |run| ==> Brief(run[i])
    requires var files := From(crc, START, run).value.disk.files;
             id in files && files[id].Table? && filter != [] && |S.Layout(files[id].rs, filter)| < TWO64
    ensures var rs := From(crc, START, run).value.disk.files[id].rs; S.TableOf(S.Layout(rs, filter)) == Some(rs)
  {
    hide From;
    hide S.Layout;
    hide S.TableOf;
    hide S.Fits;
    RunSmall(crc, START, run);
    S.TableOfWritten(From(crc, START, run).value.disk.files[id].rs, filter);
  }
}
