/** The engine as a state machine over single disk steps, with a crash possible at every one
    of them.  Every run recovers to exactly the acknowledged writes, plus possibly the one
    write in flight, unless it appended to a log with a torn tail. */
module LsmCrash {
  import opened Bytes
  import opened Records
  import opened LsmLog
  import opened LsmDisk
  import W = Wal

  /** Where the engine is inside one call. */
  datatype Phase =
    | Idle
    | Logged                                      // log append done, memtable not yet updated
    | Buffered                                    // memtable updated, flush still undecided
    | FlushWritten(id: nat)                       // new table on disk, not in the metadata
    | FlushSaved                                  // metadata names it, log not yet truncated
    | Compacting                                  // log truncated, memtable replaced
    | CompactWritten(level: nat, id: nat)         // merged table on disk, not in the metadata
    | CompactSaved(victims: set<nat>)             // metadata switched, inputs being deleted
    | Down                                        // crashed

  /** What the log file has been through since it was last truncated: complete appends only, one
      cut append at the end, or more bytes behind a cut or oversized one. */
  datatype Tail = Whole | Cut(torn: Record, n: nat) | Behind

  /** `appended` are the records appended to the log since it was last truncated or read, `acked`
      is the map the engine answers from between calls, and `inflight` the write being served.
      The last three are history: `tail` of the log, `promised` the acknowledged writes since the
      very first start, and `gambled` whether a log was ever reopened with bytes behind a cut. */
  datatype State = State(disk: Disk, mem: map<Bytes, Cell>, nextId: nat, phase: Phase,
                         appended: seq<Record>, acked: map<Bytes, Bytes>, inflight: Option<Record>,
                         tail: Tail, promised: map<Bytes, Bytes>, gambled: bool)

  datatype Action =
    | Append(r: Record)              // Put or Delete: the log append completes
    | AppendTorn(r: Record, n: nat)  // crash inside the log append, n bytes written
    | Insert                         // memtable insert
    | Ack                            // below the threshold: the call returns
    | FlushWrite(rs: seq<Record>)    // the frozen memtable is written as an SSTable
    | FlushWriteTorn                 // crash inside that write
    | FlushSave
    | FlushSaveTorn
    | Truncate                       // fresh memtable, log truncated
    | CompactWrite(level: nat, rs: seq<Record>)
    | CompactWriteTorn
    | CompactSave
    | CompactSaveTorn
    | Remove(id: nat)                // one input file deleted
    | CompactDone                    // the remaining deletions failed or are done
    | FlushDone                      // no level over its threshold: the call returns
    | Crash
    | Reopen(nextId: nat)            // the directory scan picks the next table id

  ghost predicate Enabled(crc: W.Crc, s: State, a: Action) {
    match a
    case Append(r) => s.phase == Idle
    case AppendTorn(r, n) => s.phase == Idle && n < |EncodeRecord(crc, r)|
    case Insert => s.phase == Logged
    case Ack => s.phase == Buffered
    case FlushWrite(rs) => s.phase in {Idle, Buffered} && Sorted(rs) && ToMap(rs) == s.mem
    case FlushWriteTorn => s.phase in {Idle, Buffered}
    case FlushSave => s.phase.FlushWritten?
    case FlushSaveTorn => s.phase.FlushWritten?
    case Truncate => s.phase == FlushSaved
    case CompactWrite(level, rs) => s.phase == Compacting && CompactionOutput(s.disk.files, Load(s.disk), level, rs)
    case CompactWriteTorn => s.phase == Compacting
    case CompactSave => s.phase.CompactWritten?
    case CompactSaveTorn => s.phase.CompactWritten?
    case Remove(id) => s.phase.CompactSaved? && id in s.phase.victims
    case CompactDone => s.phase.CompactSaved?
    case FlushDone => s.phase == Compacting
    case Crash => s.phase != Down
    case Reopen(next) =>
      && s.phase == Down && !Panics(crc, s.disk.log)
      && Fresh(s.disk.files, next) && (next > 0 ==> next - 1 in s.disk.files)
  }

  /** `m` with the write in flight. */
  ghost function Served(m: map<Bytes, Bytes>, inflight: Option<Record>): map<Bytes, Bytes> {
    if inflight.Some? then ApplyVisible(m, inflight.value) else m
  }

  ghost function Returned(s: State): State {
    s.(phase := Idle, acked := Served(s.acked, s.inflight), promised := Served(s.promised, s.inflight), inflight := None)
  }

  ghost function WithFile(s: State, f: File): State {
    s.(disk := s.disk.(files := s.disk.files[s.nextId := f]), nextId := s.nextId + 1)
  }

  ghost function WithLog(s: State, bytes: Bytes): State {
    s.(disk := s.disk.(log := s.disk.log + bytes))
  }

  ghost function Step(crc: W.Crc, s: State, a: Action): State
    requires Enabled(crc, s, a)
  {
    match a
    case Append(r) =>
      WithLog(s, EncodeRecord(crc, r))
      .(appended := s.appended + [r], phase := Logged, inflight := Some(r),
        tail := if s.tail.Whole? && Fits(r) then Whole else Behind)
    case AppendTorn(r, n) =>
      WithLog(s, EncodeRecord(crc, r)[..n])
      .(phase := Down, inflight := Some(r), tail := if s.tail.Whole? && Fits(r) then Cut(r, n) else Behind)
    case Insert =>
      s.(mem := if s.inflight.Some? then Apply(s.mem, s.inflight.value) else s.mem, phase := Buffered)
    case Ack => Returned(s)
    case FlushWrite(rs) => WithFile(s, Table(rs)).(phase := FlushWritten(s.nextId))
    case FlushWriteTorn => WithFile(s, Partial).(phase := Down)
    case FlushSave => s.(disk := Save(s.disk, Flushed(Load(s.disk), s.phase.id)), phase := FlushSaved)
    case FlushSaveTorn => s.(disk := SaveTorn(s.disk), phase := Down)
    case Truncate => s.(disk := s.disk.(log := []), appended := [], tail := Whole, mem := map[], phase := Compacting)
    case CompactWrite(level, rs) => WithFile(s, Table(rs)).(phase := CompactWritten(level, s.nextId))
    case CompactWriteTorn => WithFile(s, Partial).(phase := Down)
    case CompactSave =>
      s.(disk := Save(s.disk, Compacted(Load(s.disk), s.phase.level, s.phase.id)),
         phase := CompactSaved(Ids(Inputs(Load(s.disk), s.phase.level))))
    case CompactSaveTorn => s.(disk := SaveTorn(s.disk), phase := Down)
    case Remove(id) =>
      s.(disk := s.disk.(files := s.disk.files - {id}), phase := CompactSaved(s.phase.victims - {id}))
    case CompactDone => s.(phase := Compacting)
    case FlushDone => Returned(s)
    case Crash => s.(phase := Down)
    case Reopen(next) =>
      var wal := ReadLog(crc, s.disk.log);
      s.(mem := Replay(wal), appended := wal, nextId := next, phase := Idle, acked := Recover(crc, s.disk),
         promised := if Recover(crc, s.disk) == Served(s.promised, s.inflight) then Recover(crc, s.disk) else s.promised,
         inflight := None, gambled := s.gambled || s.tail.Behind?)
  }

  // ----- The invariant --------------------------------------------------------------

  /** What the disk must recover to once the log append has happened. */
  ghost function Target(s: State): map<Bytes, Bytes> {
    Served(s.acked, s.inflight)
  }

  /** What the tables and everything appended to the log amount to. */
  ghost function FullView(s: State): map<Bytes, Bytes> {
    Visible(TableMap(s.disk) + Replay(s.appended))
  }

  /** The bytes of the log, as far as its history tells. */
  ghost predicate LogBytes(crc: W.Crc, log: Bytes, appended: seq<Record>, tail: Tail) {
    match tail
    case Whole => AllFit(appended) && log == EncodeLog(crc, appended)
    case Cut(torn, n) =>
      && AllFit(appended) && Fits(torn) && n < |EncodeRecord(crc, torn)|
      && log == EncodeLog(crc, appended) + EncodeRecord(crc, torn)[..n]
    case Behind => true
  }

  ghost predicate Inv(crc: W.Crc, s: State) {
    && DiskOk(s.disk) && Fresh(s.disk.files, s.nextId)
    && LogBytes(crc, s.disk.log, s.appended, s.tail) && (!s.gambled ==> s.promised == s.acked)
    && (s.phase.Down? ==> FullView(s) in {s.acked, Target(s)})
    && (!s.phase.Down? ==> FullView(s) == Target(s))
    && match s.phase
       case Idle => s.mem == Replay(s.appended) && s.inflight.None?
       case Logged => s.inflight.Some? && Apply(s.mem, s.inflight.value) == Replay(s.appended)
       case Buffered => s.mem == Replay(s.appended)
       case FlushWritten(id) =>
         && s.mem == Replay(s.appended)
         && id !in Flat(Load(s.disk)) && Readable(s.disk.files, id) && FileMap(s.disk.files, id) == s.mem
       case FlushSaved => Visible(TableMap(s.disk)) == Target(s)
       case Compacting => s.appended == [] && s.mem == map[]
       case CompactWritten(level, id) =>
         && s.appended == [] && s.mem == map[]
         && id !in Flat(Load(s.disk)) && Readable(s.disk.files, id)
         && CompactionOutput(s.disk.files - {id}, Load(s.disk), level, s.disk.files[id].rs)
       case CompactSaved(victims) =>
         && s.appended == [] && s.mem == map[]
         && forall id :: id in victims ==> id !in Flat(Load(s.disk))
       case Down => true
  }

  /** Unless something was appended behind a cut, a reopened engine reads exactly the records
      appended. */
  lemma {:induction false} ReadsAppended(crc: W.Crc, s: State)
    requires LogBytes(crc, s.disk.log, s.appended, s.tail) && !s.tail.Behind?
    ensures !Panics(crc, s.disk.log) && ReadLog(crc, s.disk.log) == s.appended
    ensures Recover(crc, s.disk) == FullView(s)
  {
    hide Visible;
    hide TableMap;
    hide ReadLog;
    hide Panics;
    hide EncodeLog;
    hide EncodeRecord;
    match s.tail
    case Whole => ReadWhole(crc, s.appended);
    case Cut(torn, n) => ReadCut(crc, s.appended, torn, n);
  }

  // ----- Single steps ---------------------------------------------------------------

  lemma {:induction false} NewFile(crc: W.Crc, s: State, f: File)
    requires Inv(crc, s)
    ensures var t := WithFile(s, f);
            && DiskOk(t.disk) && Fresh(t.disk.files, t.nextId)
            && TableMap(t.disk) == TableMap(s.disk) && FullView(t) == FullView(s)
            && s.nextId !in s.disk.files && s.nextId !in Flat(Load(s.disk))
  {
    hide Flat;
    hide MapOf;
    hide Visible;
    AddFile(s.disk, s.nextId, f);
  }

  lemma {:induction false} AppendStep(crc: W.Crc, s: State, r: Record)
    requires Inv(crc, s) && Enabled(crc, s, Append(r))
    ensures Inv(crc, Step(crc, s, Append(r)))
  {
    hide Flat;
    hide MapOf;
    hide Visible;
    hide ApplyVisible;
    hide Apply;
    hide Replay;
    hide EncodeLog;
    hide EncodeRecord;
    hide Fits;
    var s' := Step(crc, s, Append(r));
    LogAside(s.disk, s'.disk.log);
    EncodeLogSnoc(crc, s.appended, r);
    ReplayAppend(s.appended, r);
    OverlayApply(TableMap(s.disk), Replay(s.appended), r);
    VisibleApply(TableMap(s.disk) + Replay(s.appended), r);
  }

  lemma {:induction false} AppendTornStep(crc: W.Crc, s: State, r: Record, n: nat)
    requires Inv(crc, s) && Enabled(crc, s, AppendTorn(r, n))
    ensures Inv(crc, Step(crc, s, AppendTorn(r, n)))
  {
    hide Flat;
    hide MapOf;
    hide Visible;
    hide ApplyVisible;
    hide Replay;
    hide EncodeLog;
    hide EncodeRecord;
    hide Fits;
    LogAside(s.disk, Step(crc, s, AppendTorn(r, n)).disk.log);
  }

  lemma {:induction false} FlushSaveStep(crc: W.Crc, s: State)
    requires Inv(crc, s) && Enabled(crc, s, FlushSave)
    ensures Inv(crc, Step(crc, s, FlushSave))
  {
    hide LogBytes;
    hide Served;
    hide Flat;
    hide MapOf;
    hide ToMap;
    hide Visible;
    FlushSwitch(s.disk, s.phase.id);
    var t, w := TableMap(s.disk), Replay(s.appended);
    assert (t + w) + w == t + w;
  }

  lemma {:induction false} TruncateStep(crc: W.Crc, s: State)
    requires Inv(crc, s) && Enabled(crc, s, Truncate)
    ensures Inv(crc, Step(crc, s, Truncate))
  {
    hide Served;
    hide Flat;
    hide MapOf;
    hide Visible;
    LogAside(s.disk, []);
    var t := TableMap(s.disk);
    assert t + map[] == t;
  }

  lemma {:induction false} CompactWriteStep(crc: W.Crc, s: State, level: nat, rs: seq<Record>)
    requires Inv(crc, s) && Enabled(crc, s, CompactWrite(level, rs))
    ensures Inv(crc, Step(crc, s, CompactWrite(level, rs)))
  {
    hide LogBytes;
    hide Served;
    hide Flat;
    hide MapOf;
    hide ToMap;
    hide Visible;
    hide CompactionOutput;
    NewFile(crc, s, Table(rs));
    assert Sorted(rs) by {
      OutputSorted(s.disk.files, Load(s.disk), level, rs);
    }
    assert s.disk.files[s.nextId := Table(rs)] - {s.nextId} == s.disk.files;
  }

  lemma {:induction false} OutputSorted(files: map<nat, File>, levels: seq<seq<nat>>, n: nat, rs: seq<Record>)
    requires CompactionOutput(files, levels, n, rs)
    ensures Sorted(rs)
  {
  }

  lemma {:induction false} CompactSaveStep(crc: W.Crc, s: State)
    requires Inv(crc, s) && Enabled(crc, s, CompactSave)
    ensures Inv(crc, Step(crc, s, CompactSave))
  {
    hide LogBytes;
    hide Served;
    hide Flat;
    hide MapOf;
    hide ToMap;
    hide Visible;
    hide CompactionOutput;
    hide Compacted;
    CompactionSwitch(s.disk, s.phase.level, s.phase.id);
    var d' := Step(crc, s, CompactSave).disk;
    assert TableMap(s.disk) + map[] == TableMap(s.disk);
    assert TableMap(d') + map[] == TableMap(d');
  }

  lemma {:induction false} FlushWriteStep(crc: W.Crc, s: State, rs: seq<Record>)
    requires Inv(crc, s) && Enabled(crc, s, FlushWrite(rs))
    ensures Inv(crc, Step(crc, s, FlushWrite(rs)))
  {
    hide LogBytes;
    hide Served;
    hide Flat;
    hide MapOf;
    hide ToMap;
    hide Visible;
    NewFile(crc, s, Table(rs));
  }

  lemma {:induction false} RemoveStep(crc: W.Crc, s: State, id: nat)
    requires Inv(crc, s) && Enabled(crc, s, Remove(id))
    ensures Inv(crc, Step(crc, s, Remove(id)))
  {
    hide LogBytes;
    hide Served;
    hide Flat;
    hide MapOf;
    hide ToMap;
    hide Visible;
    NamedFilesRemain(s.disk, id);
    UnnamedFiles(s.disk, s.disk.files - {id});
  }

  lemma {:induction false} ReopenStep(crc: W.Crc, s: State, next: nat)
    requires Inv(crc, s) && Enabled(crc, s, Reopen(next))
    ensures Inv(crc, Step(crc, s, Reopen(next)))
  {
    hide Flat;
    hide MapOf;
    hide ToMap;
    hide Visible;
    hide ReadLog;
    hide EncodeLog;
    hide EncodeRecord;
    hide ApplyVisible;
    if !s.tail.Behind? {
      ReadsAppended(crc, s);
    }
  }

  lemma {:induction false} ReturnStep(crc: W.Crc, s: State, a: Action)
    requires Inv(crc, s) && Enabled(crc, s, a) && (a.Ack? || a.FlushDone?)
    ensures Inv(crc, Step(crc, s, a))
  {
    hide LogBytes;
    hide Flat;
    hide MapOf;
    hide ToMap;
    hide Visible;
    hide Apply;
    hide ApplyVisible;
    hide TableMap;
    hide DiskOk;
  }

  /** Steps that leave the disk alone. */
  lemma {:induction false} OtherStep(crc: W.Crc, s: State, a: Action)
    requires Inv(crc, s) && Enabled(crc, s, a)
    requires a.Insert? || a.CompactDone? || a.Crash?
    ensures Inv(crc, Step(crc, s, a))
  {
    hide LogBytes;
    hide Flat;
    hide MapOf;
    hide ToMap;
    hide Visible;
    hide Apply;
    hide ApplyVisible;
    var t := Step(crc, s, a);
    assert TableMap(t.disk) == TableMap(s.disk) && t.appended == s.appended;
  }

  lemma {:induction false} CrashedStep(crc: W.Crc, s: State, a: Action)
    requires Inv(crc, s) && Enabled(crc, s, a)
    requires a.FlushWriteTorn? || a.FlushSaveTorn? || a.CompactWriteTorn? || a.CompactSaveTorn?
    ensures Inv(crc, Step(crc, s, a))
  {
    hide LogBytes;
    hide Served;
    hide Flat;
    hide MapOf;
    hide ToMap;
    hide Visible;
    hide Apply;
    hide ApplyVisible;
    if a.FlushWriteTorn? || a.CompactWriteTorn? {
      NewFile(crc, s, Partial);
    } else {
      TornSave(s.disk);
    }
  }

  lemma {:induction false} StepKeepsInv(crc: W.Crc, s: State, a: Action)
    requires Inv(crc, s) && Enabled(crc, s, a)
    ensures Inv(crc, Step(crc, s, a))
  {
    hide *;
    match a
    case Append(r) => AppendStep(crc, s, r);
    case FlushWrite(rs) => FlushWriteStep(crc, s, rs);
    case FlushSave => FlushSaveStep(crc, s);
    case Truncate => TruncateStep(crc, s);
    case CompactWrite(level, rs) => CompactWriteStep(crc, s, level, rs);
    case CompactSave => CompactSaveStep(crc, s);
    case Remove(id) => RemoveStep(crc, s, id);
    case FlushWriteTorn => CrashedStep(crc, s, a);
    case FlushSaveTorn => CrashedStep(crc, s, a);
    case CompactWriteTorn => CrashedStep(crc, s, a);
    case CompactSaveTorn => CrashedStep(crc, s, a);
    case AppendTorn(r, n) => AppendTornStep(crc, s, r, n);
    case Insert => OtherStep(crc, s, a);
    case Ack => ReturnStep(crc, s, a);
    case CompactDone => OtherStep(crc, s, a);
    case FlushDone => ReturnStep(crc, s, a);
    case Crash => OtherStep(crc, s, a);
    case Reopen(next) => ReopenStep(crc, s, next);
  }

  // ----- Whole runs -----------------------------------------------------------------

  ghost function From(crc: W.Crc, s: State, run: seq<Action>): Option<State> {
    if run == [] then Some(s) else
      var before := From(crc, s, run[..|run| - 1]);
      if before.Some? && Enabled(crc, before.value, run[|run| - 1])
      then Some(Step(crc, before.value, run[|run| - 1]))
      else None
  }

  /** A new directory. */
  const START: State := State(FRESH, map[], 0, Idle, [], map[], None, Whole, map[], false)

  lemma {:induction false} StartInv(crc: W.Crc)
    ensures Inv(crc, START)
  {
    assert Flat(Load(FRESH)) == [];
    assert TableMap(FRESH) + Replay([]) == map[];
    assert EncodeLog(crc, []) == [];
  }

  lemma {:induction false} RunKeepsInv(crc: W.Crc, s: State, run: seq<Action>)
    requires Inv(crc, s) && From(crc, s, run).Some?
    ensures Inv(crc, From(crc, s, run).value)
  {
    hide Inv;
    hide Enabled;
    hide Step;
    if run != [] {
      RunKeepsInv(crc, s, run[..|run| - 1]);
      StepKeepsInv(crc, From(crc, s, run[..|run| - 1]).value, run[|run| - 1]);
    }
  }

  /** Crash safety.  After any run of writes, flushes, compactions, crashes at any disk step
      and reopenings, every file the metadata names can be opened, the running engine reads
      exactly the acknowledged writes between calls, and reopening reads exactly the
      acknowledged writes, or these and the one write in flight -- provided no log was ever
      reopened, or would be now, with bytes behind a cut append. */
  lemma {:induction false} CrashSafety(crc: W.Crc, run: seq<Action>)
    requires From(crc, START, run).Some?
    ensures var s := From(crc, START, run).value;
            && AllReadable(s.disk.files, Flat(Load(s.disk)))
            && (s.phase == Idle ==> Visible(TableMap(s.disk) + s.mem) == s.acked)
            && (!s.gambled ==> s.promised == s.acked)
            && (!s.tail.Behind? ==>
                  !Panics(crc, s.disk.log) && Recover(crc, s.disk) in {s.acked, Served(s.acked, s.inflight)})
  {
    hide Flat;
    hide MapOf;
    hide ToMap;
    hide Visible;
    hide ReadLog;
    hide EncodeLog;
    hide EncodeRecord;
    hide ApplyVisible;
    hide From;
    StartInv(crc);
    RunKeepsInv(crc, START, run);
    var s := From(crc, START, run).value;
    if !s.tail.Behind? {
      ReadsAppended(crc, s);
    }
  }

  // ----- Appending behind a cut -----------------------------------------------------

  /** The bytes at the end of the log that belong to no complete record. */
  function Debris(crc: W.Crc, tail: Tail): Bytes
    requires tail.Cut? ==> tail.n < |EncodeRecord(crc, tail.torn)|
  {
    if tail.Cut? then EncodeRecord(crc, tail.torn)[..tail.n] else []
  }

  /** A write served between calls and followed by a crash survives exactly when the log was whole
      and the record fits its 32-bit lengths, or when it changed nothing -- as long as the bytes
      behind the cut do not happen to pass for an entry. */
  lemma {:induction false} WriteSurvivesExactly(crc: W.Crc, s: State, r: Record)
    requires Inv(crc, s) && s.phase == Idle && !s.tail.Behind?
    requires !(s.tail.Whole? && Fits(r)) ==>
               var d := W.Decode(crc, Debris(crc, s.tail) + EncodeRecord(crc, r));
               d.UnexpectedEof? || d.ChecksumMismatch?
    ensures var s' := From(crc, s, [Append(r), Insert, Ack, Crash]);
            && s'.Some? && s'.value.acked == ApplyVisible(s.acked, r) && !Panics(crc, s'.value.disk.log)
            && (Recover(crc, s'.value.disk) == s'.value.acked <==>
                (s.tail.Whole? && Fits(r)) || ApplyVisible(s.acked, r) == s.acked)
  {
    hide Flat;
    hide MapOf;
    hide ToMap;
    hide Visible;
    hide ReadLog;
    hide Panics;
    hide EncodeLog;
    hide EncodeRecord;
    hide ApplyVisible;
    hide Inv;
    hide From;
    hide Fits;
    IdleFacts(crc, s);
    var s' := Written(crc, s, r);
    if s.tail.Whole? && Fits(r) {
      ReadsAppended(crc, s');
    } else {
      var debris := Debris(crc, s.tail) + EncodeRecord(crc, r);
      assert s'.disk.log == EncodeLog(crc, s.appended) + debris;
      ReadUpTo(crc, s.appended, debris);
      LogAside(s.disk, s'.disk.log);
    }
  }

  lemma {:induction false} IdleFacts(crc: W.Crc, s: State)
    requires Inv(crc, s) && s.phase == Idle && !s.tail.Behind?
    ensures AllFit(s.appended) && FullView(s) == s.acked
    ensures s.tail.Cut? ==> s.tail.n < |EncodeRecord(crc, s.tail.torn)|
    ensures s.disk.log == EncodeLog(crc, s.appended) + Debris(crc, s.tail)
  {
    hide EncodeLog;
    hide EncodeRecord;
    hide Visible;
    hide DiskOk;
    hide TableMap;
    hide Fresh;
  }

  /** A write below the flush threshold, then a crash. */
  lemma {:induction false} Written(crc: W.Crc, s: State, r: Record) returns (s': State)
    requires Inv(crc, s) && s.phase == Idle
    ensures From(crc, s, [Append(r), Insert, Ack, Crash]) == Some(s') && Inv(crc, s')
    ensures s'.phase == Down && s'.acked == ApplyVisible(s.acked, r) && s'.inflight == None
    ensures s'.promised == ApplyVisible(s.promised, r)
    ensures s'.disk == s.disk.(log := s.disk.log + EncodeRecord(crc, r)) && s'.appended == s.appended + [r]
    ensures s'.tail == if s.tail.Whole? && Fits(r) then Whole else Behind
    ensures FullView(s') == s'.acked && LogBytes(crc, s'.disk.log, s'.appended, s'.tail)
  {
    hide From;
    hide Inv;
    hide ApplyVisible;
    hide EncodeRecord;
    hide Apply;
    hide Fits;
    var a0, a1, a2 := [Append(r)], [Append(r), Insert], [Append(r), Insert, Ack];
    FromNothing(crc, s);
    FromStep(crc, s, [], s, Append(r), a0);
    var s1 := Step(crc, s, Append(r));
    StepKeepsInv(crc, s, Append(r));
    FromStep(crc, s, a0, s1, Insert, a1);
    var s2 := Step(crc, s1, Insert);
    StepKeepsInv(crc, s1, Insert);
    FromStep(crc, s, a1, s2, Ack, a2);
    var s3 := Step(crc, s2, Ack);
    StepKeepsInv(crc, s2, Ack);
    s' := Step(crc, s3, Crash);
    FromStep(crc, s, a2, s3, Crash, [Append(r), Insert, Ack, Crash]);
    StepKeepsInv(crc, s3, Crash);
    DownFacts(crc, s');
  }

  lemma {:induction false} DownFacts(crc: W.Crc, s: State)
    requires Inv(crc, s) && s.phase == Down && s.inflight == None
    ensures FullView(s) == s.acked && LogBytes(crc, s.disk.log, s.appended, s.tail)
  {
    hide LogBytes;
    hide Visible;
    hide DiskOk;
    hide TableMap;
    hide Fresh;
  }

  lemma {:induction false} FromNothing(crc: W.Crc, s: State)
    ensures From(crc, s, []) == Some(s)
  {
  }

  lemma {:induction false} FromStep(crc: W.Crc, s: State, run: seq<Action>, t: State, a: Action, run': seq<Action>)
    requires From(crc, s, run) == Some(t) && Enabled(crc, t, a) && run' == run + [a]
    ensures From(crc, s, run') == Some(Step(crc, t, a))
  {
    hide Enabled;
    hide Step;
    assert run'[..|run'| - 1] == run;
  }

  /** The proviso is needed: a crash inside the append of a long value leaves its header, the
      reopened engine appends a short write behind it and acknowledges, and a second crash loses
      that write: whatever the checksum, replay takes its bytes for the announced value. */
  lemma {:induction false} TornTailLosesWrites(crc: W.Crc, k: Bytes, long: Bytes, v: Bytes)
    requires |v| + W.HEADER_SIZE < |long| && Fits(Record(k, Live(long)))
    ensures var torn := Record(k, Live(long));
            var run := [AppendTorn(torn, W.HEADER_SIZE), Reopen(0), Append(Record(k, Live(v))), Insert, Ack, Crash];
            && From(crc, START, run).Some?
            && var s := From(crc, START, run).value;
               && s.promised == map[k := v]
               && s.disk.log == EncodeRecord(crc, torn)[..W.HEADER_SIZE] + EncodeRecord(crc, Record(k, Live(v)))
               && W.Replay(crc, s.disk.log) == W.Entries([]) && Recover(crc, s.disk) == map[]
  {
    hide From;
    hide Inv;
    hide EncodeRecord;
    var torn, r := Record(k, Live(long)), Record(k, Live(v));
    EncodedSize(crc, torn);
    EncodedSize(crc, r);
    var s2 := Torn(crc, torn, W.HEADER_SIZE);
    var s3 := Written(crc, s2, r);
    var a, b := [AppendTorn(torn, W.HEADER_SIZE), Reopen(0)], [Append(r), Insert, Ack, Crash];
    Chained(crc, START, a, s2, b, s3);
    assert a + b == [AppendTorn(torn, W.HEADER_SIZE), Reopen(0), Append(r), Insert, Ack, Crash];
    Swallowed(crc, torn, r, s3.disk.log);
    NoTables(s3.disk);
  }

  lemma {:induction false} EncodedSize(crc: W.Crc, r: Record)
    ensures |EncodeRecord(crc, r)| ==
            W.HEADER_SIZE + |r.key| + match r.cell case Live(v) => |v| case Tombstone => 0
  {
    hide W.Encode;
  }

  /** The short record lies inside what the torn header announces. */
  lemma {:induction false} Swallowed(crc: W.Crc, torn: Record, r: Record, log: Bytes)
    requires Fits(torn) && W.HEADER_SIZE + |EncodeRecord(crc, r)| < |EncodeRecord(crc, torn)|
    requires log == EncodeRecord(crc, torn)[..W.HEADER_SIZE] + EncodeRecord(crc, r)
    ensures W.Replay(crc, log) == W.Entries([]) && ReadLog(crc, log) == []
  {
    hide W.Encode;
    hide W.Decode;
    hide W.Replay;
    W.TearSwallowsLaterEntries(crc, [], EntryOf(torn), W.HEADER_SIZE, EncodeRecord(crc, r));
    assert W.EncodeAll(crc, []) + log == log;
  }

  lemma {:induction false} NoTables(d: Disk)
    requires d.slot0.Unreadable? && d.slot1.Unreadable?
    ensures TableMap(d) == map[] && Visible(TableMap(d) + Replay([])) == map[]
  {
    assert Flat(Load(d)) == [];
    MapOfNone(d.files);
    assert TableMap(d) + Replay([]) == map[];
  }

  /** A crash inside the very first append, and a reopening. */
  lemma {:induction false} Torn(crc: W.Crc, torn: Record, n: nat) returns (s: State)
    requires Fits(torn) && n < |EncodeRecord(crc, torn)|
    ensures From(crc, START, [AppendTorn(torn, n), Reopen(0)]) == Some(s) && Inv(crc, s)
    ensures s.phase == Idle && s.promised == map[] && s.acked == map[]
    ensures s.disk == FRESH.(log := EncodeRecord(crc, torn)[..n]) && s.tail == Cut(torn, n)
  {
    hide From;
    hide Inv;
    hide EncodeRecord;
    hide Panics;
    hide ReadLog;
    hide Fits;
    StartInv(crc);
    FromNothing(crc, START);
    FromStep(crc, START, [], START, AppendTorn(torn, n), [AppendTorn(torn, n)]);
    var s1 := Step(crc, START, AppendTorn(torn, n));
    StepKeepsInv(crc, START, AppendTorn(torn, n));
    assert LogBytes(crc, s1.disk.log, s1.appended, s1.tail) by {
      LogOf(crc, s1);
    }
    ReadsAppended(crc, s1);
    FromStep(crc, START, [AppendTorn(torn, n)], s1, Reopen(0), [AppendTorn(torn, n), Reopen(0)]);
    s := Step(crc, s1, Reopen(0));
    StepKeepsInv(crc, s1, Reopen(0));
    NoTables(s1.disk);
  }

  lemma {:induction false} LogOf(crc: W.Crc, s: State)
    requires Inv(crc, s)
    ensures LogBytes(crc, s.disk.log, s.appended, s.tail)
  {
    hide LogBytes;
  }

  lemma {:induction false} Chained(crc: W.Crc, s: State, a: seq<Action>, t: State, b: seq<Action>, u: State)
    requires From(crc, s, a) == Some(t) && From(crc, t, b) == Some(u)
    ensures From(crc, s, a + b) == Some(u)
  {
    hide Step;
    hide Enabled;
    if b == [] {
      assert a + b == a;
    } else {
      var init := b[..|b| - 1];
      Chained(crc, s, a, t, init, From(crc, t, init).value);
      assert (a + b)[..|a + b| - 1] == a + init && (a + b)[|a + b| - 1] == b[|b| - 1];
    }
  }
}
