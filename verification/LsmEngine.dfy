/** The running engine: skip-list memtable, write-ahead log, SSTables in levels, flush and
    compaction.  It refines one finite map, and every write to disk is a step of the crash model,
    so crash safety holds at each of them. */
module LsmEngine {
  import opened Bytes
  import opened Records
  import opened LsmLog
  import opened LsmDisk
  import opened LsmCrash
  import opened Compaction
  import opened Engine
  import M = MergeIterator
  import T = MemTable
  import W = Wal

  /** Point lookup in one table: binary search over its records. */
  method TableGet(rs: seq<Record>, key: Bytes) returns (r: Option<Cell>)
    requires Sorted(rs)
    ensures r == Lookup(rs, key)
  {
    hide Less;
    hide ToMap;
    var left, right := 0, |rs| - 1;
    while left <= right
      invariant 0 <= left <= right + 1 <= |rs|
      invariant left > 0 ==> Less(rs[left - 1].key, key)
      invariant right + 1 < |rs| ==> !Less(rs[right + 1].key, key) && rs[right + 1].key != key
    {
      var mid := left + (right - left) / 2;
      LessTrichotomy(rs[mid].key, key);
      if rs[mid].key == key {
        return Some(rs[mid].cell);
      }
      if Less(rs[mid].key, key) {
        left := mid + 1;
      } else {
        right := mid - 1;
      }
    }
    SearchPosition(rs, left, key);
    return None;
  }

  /** The readers of a list of files. */
  function OpenAll(files: map<nat, File>, ids: seq<nat>): (runs: seq<seq<Record>>)
    requires forall i :: 0 <= i < |ids| ==> ids[i] in files && files[ids[i]].Table?
    ensures |runs| == |ids|
    ensures forall i {:trigger runs[i]} :: 0 <= i < |ids| ==> runs[i] == files[ids[i]].rs
  {
    if ids == [] then [] else [files[ids[0]].rs] + OpenAll(files, ids[1..])
  }

  /** Reading through files and merging their runs is the same map. */
  lemma {:induction false} MapOfIsMergeMap(files: map<nat, File>, ids: seq<nat>)
    requires AllReadable(files, ids)
    ensures M.AllSorted(OpenAll(files, ids))
    ensures M.MergeMap(OpenAll(files, ids)) == MapOf(files, ids)
  {
    hide Sorted;
    hide ToMap;
    if ids != [] {
      assert Readable(files, ids[0]);
      assert forall i :: 0 <= i < |ids[1..]| ==> ids[1..][i] == ids[i + 1];
      MapOfIsMergeMap(files, ids[1..]);
      var runs := OpenAll(files, ids);
      assert runs[0] == files[ids[0]].rs;
      assert runs[1..] == OpenAll(files, ids[1..]);
      forall i | 0 <= i < |runs| ensures Sorted(runs[i]) {
        assert Readable(files, ids[i]);
      }
    }
  }

  lemma {:induction false} InputsReadable(d: Disk, n: nat)
    requires DiskOk(d)
    ensures AllReadable(d.files, Inputs(Load(d), n))
  {
    hide Flat;
    hide Grow;
    hide Sorted;
    var upper, deeper := CompactionSplits(Load(d), n, 0);
    var inputs := Inputs(Load(d), n);
    forall i | 0 <= i < |inputs| ensures Readable(d.files, inputs[i]) {
      assert Flat(Load(d))[|upper| + i] == inputs[i];
    }
  }

  // ----- The shape of the levels ----------------------------------------------------

  predicate Mild(a: Action) {
    a.CompactWrite? ==> a.level == 0
  }

  /** Compactions are of level 0 only. */
  ghost predicate Shallow(run: seq<Action>) {
    forall i :: 0 <= i < |run| ==> Mild(run[i])
  }

  lemma {:induction false} ShallowSnoc(run: seq<Action>, a: Action)
    ensures Shallow(run) && Mild(a) ==> Shallow(run + [a])
  {
  }

  ghost predicate Shaped(s: State) {
    Shape(Load(s.disk)) && (s.phase.CompactWritten? ==> s.phase.level == 0)
  }

  lemma {:induction false} StepShaped(crc: W.Crc, s: State, a: Action)
    requires Inv(crc, s) && Shaped(s) && Enabled(crc, s, a) && Mild(a)
    ensures Shaped(Step(crc, s, a))
  {
    hide Inv;
    hide CompactionOutput;
    hide ToMap;
    hide Recover;
    InvFacts(crc, s);
    match a
    case FlushSave =>
      SavedLevels(crc, s, Flushed(Load(s.disk), s.phase.id));
      FlushedShape(Load(s.disk), s.phase.id);
    case CompactSave =>
      SavedLevels(crc, s, Compacted(Load(s.disk), 0, s.phase.id));
      CompactedShape(Load(s.disk), s.phase.id);
    case FlushSaveTorn => TornSave(s.disk);
    case CompactSaveTorn => TornSave(s.disk);
    case _ =>
  }

  /** Every state of such a run has levels of the shape an engine opens. */
  lemma {:induction false} StaysShaped(crc: W.Crc, s: State, run: seq<Action>)
    requires Inv(crc, s) && Shaped(s) && Shallow(run) && From(crc, s, run).Some?
    ensures var t := From(crc, s, run).value; Inv(crc, t) && Shaped(t)
    decreases |run|
  {
    hide Inv;
    hide Shaped;
    hide Step;
    hide Enabled;
    if run != [] {
      var init := run[..|run| - 1];
      StaysShaped(crc, s, init);
      var t := From(crc, s, init).value;
      StepShaped(crc, t, run[|run| - 1]);
      StepKeepsInv(crc, t, run[|run| - 1]);
    }
  }

  class LSMEngine {
    const memTableThreshold: int
    const opts: Options
    const crc: W.Crc
    var disk: Disk
    var nextID: nat
    var mem: T.MemTable
    var readers: seq<seq<Record>>     // every open table, level by level, newest first
    ghost const start: State
    ghost var st: State
    ghost var trace: seq<Action>

    /** The disk has come about from `start` by the steps in `trace`. */
    ghost predicate Tracked()
      reads this`disk, this`nextID, this`st, this`trace
    {
      Inv(crc, st) && From(crc, start, trace) == Some(st) && st.disk == disk && st.nextId == nextID
    }

    /** Ready for a flush: between calls, or with a write in the memtable. */
    ghost predicate Open()
      reads this, mem, mem.spine
    {
      && opts.l0 > 0 && opts.growth > 0.0 && Threshold(opts, 1) >= 2
      && Tracked() && st.phase in {Idle, Buffered} && Shape(Load(disk))
      && Inv(crc, start) && start.phase == Down && Shape(Load(start.disk)) && Shallow(trace)
      && mem.Valid() && !mem.frozen && mem.Contents() == st.mem
      && AllOpen(disk) && readers == OpenAll(disk.files, Flat(Load(disk)))
    }

    ghost predicate Valid()
      reads this, mem, mem.spine
    {
      Open() && st.phase == Idle
    }

    ghost predicate AllOpen(d: Disk) {
      forall i :: 0 <= i < |Flat(Load(d))| ==> Flat(Load(d))[i] in d.files && d.files[Flat(Load(d))[i]].Table?
    }

    /** The map the engine stands for: the acknowledged writes. */
    ghost function Contents(): map<Bytes, Bytes>
      reads this`st
    {
      st.acked
    }

    /** Open on any directory a crash may have left, whatever the end of its log. */
    constructor (memTableThreshold: int, opts: Options, crc: W.Crc, disk: Disk, nextID: nat, ghost down: State)
      requires Inv(crc, down) && down.disk == disk && Enabled(crc, down, Reopen(nextID))
      requires Shape(Load(disk)) && Threshold(Effective(opts), 1) >= 2
      ensures Valid() && fresh(mem) && fresh(mem.spine) && this.disk == disk && this.crc == crc
      ensures start == down && trace == [Reopen(nextID)] && Contents() == Recover(crc, disk)
      ensures this.opts == Effective(opts)
      ensures this.memTableThreshold == if memTableThreshold <= 0 then 4194304 else memTableThreshold
    {
      hide Flat;
      hide MapOf;
      hide ToMap;
      hide ReadLog;
      hide Recover;
      hide Inv;
      hide From;
      hide Step;
      hide Enabled;
      hide Load;
      hide T.MemTable.Valid;
      hide DiskOk;
      hide OpenAll;
      this.memTableThreshold := if memTableThreshold <= 0 then 4194304 else memTableThreshold;
      this.opts := Effective(opts);
      this.crc := crc;
      this.disk, this.nextID := disk, nextID;
      Reopened(crc, down, nextID);
      this.readers := [];
      this.start := down;
      this.trace := [Reopen(nextID)];
      this.st := Step(crc, down, Reopen(nextID));
      var m := ReplayWAL(ReadLog(crc, disk.log));
      this.mem := m;
      new;
      ReloadLevels();
    }

    /** One more step of the crash model. */
    ghost method Take(a: Action)
      requires Inv(crc, st) && From(crc, start, trace) == Some(st) && Enabled(crc, st, a)
      modifies this`st, this`trace
      ensures Inv(crc, st) && From(crc, start, trace) == Some(st)
      ensures st == Step(crc, old(st), a) && trace == old(trace) + [a]
      ensures old(Shallow(trace)) && Mild(a) ==> Shallow(trace)
    {
      hide *;
      ShallowSnoc(trace, a);
      StepKeepsInv(crc, st, a);
      FromStep(crc, start, trace, st, a, trace + [a]);
      st, trace := Step(crc, st, a), trace + [a];
    }

    /** What is served is what tables and memtable amount to. */
    lemma {:induction false} Serving()
      requires Valid()
      ensures DiskOk(disk) && Contents() == Visible(TableMap(disk) + mem.Contents())
    {
      hide Visible;
      hide TableMap;
      hide DiskOk;
      hide LogBytes;
      hide T.MemTable.Valid;
    }

    static method ReplayWAL(wal: seq<Record>) returns (m: T.MemTable)
      ensures m.Valid() && !m.frozen && m.Contents() == Replay(wal) && fresh(m) && fresh(m.spine)
    {
      hide ToMap;
      hide T.MemTable.Valid;
      m := new T.MemTable();
      for i := 0 to |wal|
        invariant m.Valid() && !m.frozen && fresh(m) && fresh(m.spine)
        invariant m.Contents() == Replay(wal[..i])
      {
        assert wal[..i + 1][..i] == wal[..i];
        match wal[i].cell
        case Live(v) => m.Put(wal[i].key, v);
        case Tombstone => m.Delete(wal[i].key);
      }
      assert wal[..|wal|] == wal;
    }

    /** A crash between calls loses nothing, as long as nothing was appended behind a cut. */
    lemma {:induction false} CrashNow()
      requires Valid() && !st.tail.Behind?
      ensures !Panics(crc, disk.log) && Recover(crc, disk) == Contents()
    {
      hide Visible;
      hide TableMap;
      hide DiskOk;
      hide LogBytes;
      hide ReadLog;
      hide T.MemTable.Valid;
      ReadsAppended(crc, st);
    }

    /** A crash at any disk step of any call, torn or complete, leaves a directory that an engine
        opens. */
    lemma {:induction false} ReopensAnywhere(n: nat, rest: seq<Action>)
      requires Valid() && n <= |trace| && Shallow(rest) && From(crc, start, trace[..n] + rest).Some?
      ensures var s := From(crc, start, trace[..n] + rest).value; Inv(crc, s) && Shape(Load(s.disk))
    {
      hide Inv;
      hide From;
      hide T.MemTable.Valid;
      hide AllOpen;
      var run := trace[..n] + rest;
      assert Shallow(run);
      StaysShaped(crc, start, run);
    }

    method Get(key: Bytes) returns (r: Option<Bytes>)
      requires Valid()
      ensures r == if key in Contents() then Some(Contents()[key]) else None
    {
      hide Less;
      hide ToMap;
      hide MapOf;
      hide Flat;
      hide Inv;
      hide From;
      Serving();
      ghost var t := TableMap(disk);
      MapOfIsMergeMap(disk.files, Flat(Load(disk)));
      var value, found, tombstone := mem.Get(key);
      if found {
        return if tombstone then None else Some(value);
      }
      for i := 0 to |readers|
        invariant forall j :: 0 <= j < i ==> key !in ToMap(readers[j])
      {
        var c := TableGet(readers[i], key);
        if c.Some? {
          M.MergeMapAt(readers, i, key);
          return if c.value.Tombstone? then None else Some(c.value.value);
        }
      }
      if key in t {
        var w := M.MergeMapHas(readers, key);
      }
      return None;
    }

    /** Merge level `fromLevel` into the next one. */
    method CompactLevelLocked(fromLevel: nat)
      requires Tracked() && st.phase == Compacting && fromLevel < |Load(disk)|
      modifies this`disk, this`nextID, this`st, this`trace
      ensures Tracked() && st.phase == Compacting && old(trace) <= trace
      ensures st.acked == old(st.acked) && st.inflight == old(st.inflight) && st.mem == old(st.mem)
      ensures disk.log == old(disk.log)
      ensures Load(disk) == if old(Load(disk))[fromLevel] == [] then old(Load(disk))
                            else Compacted(old(Load(disk)), fromLevel, old(nextID))
      ensures old(Shallow(trace)) && fromLevel == 0 ==> Shallow(trace)
    {
      hide Shallow;
      hide Flat;
      hide MapOf;
      hide ToMap;
      hide Visible;
      hide Sorted;
      hide Inv;
      hide From;
      hide Compacted;
      hide Load;
      hide CompactionOutput;
      var levels := Grow(Load(disk), fromLevel + 1);
      if levels[fromLevel] == [] {
        return;
      }
      var allFiles := levels[fromLevel] + levels[fromLevel + 1];
      InvFacts(crc, st);
      InputsReadable(disk, fromLevel);
      InputsDistinct(disk, fromLevel);
      var out := MergeFiles(allFiles, IsBottomLevel(levels, fromLevel + 1));
      Merged(disk.files, Load(disk), fromLevel, out);
      var id := WriteMerged(fromLevel, out);
      SwitchLevels(fromLevel, id);
      RemoveFiles(allFiles);
      Take(CompactDone);
    }

    method WriteMerged(level: nat, out: seq<Record>) returns (id: nat)
      requires Tracked() && st.phase == Compacting && CompactionOutput(disk.files, Load(disk), level, out)
      modifies this`disk, this`nextID, this`st, this`trace
      ensures Tracked() && id == old(nextID) && trace == old(trace) + [CompactWrite(level, out)]
      ensures st == old(st).(disk := disk, nextId := nextID, phase := CompactWritten(level, id))
      ensures Load(disk) == old(Load(disk)) && disk.log == old(disk.log)
      ensures old(Shallow(trace)) && level == 0 ==> Shallow(trace)
    {
      hide Shallow;
      hide CompactionOutput;
      hide Inv;
      hide From;
      id := nextID;
      nextID := nextID + 1;
      disk := disk.(files := disk.files[id := Table(out)]);
      Take(CompactWrite(level, out));
    }

    method SwitchLevels(level: nat, id: nat)
      requires Tracked() && st.phase == CompactWritten(level, id)
      modifies this`disk, this`st, this`trace
      ensures Tracked() && trace == old(trace) + [CompactSave]
      ensures st == old(st).(disk := disk, phase := CompactSaved(Ids(Inputs(old(Load(disk)), level))))
      ensures Load(disk) == Compacted(old(Load(disk)), level, id) && disk.log == old(disk.log)
      ensures old(Shallow(trace)) ==> Shallow(trace)
    {
      hide Shallow;
      hide Compacted;
      hide Inv;
      hide From;
      var saved := Compacted(Load(disk), level, id);
      SavedLevels(crc, st, saved);
      disk := Save(disk, saved);
      Take(CompactSave);
    }

    /** Merge a list of complete tables, newest first, optionally without deletion markers. */
    method MergeFiles(ids: seq<nat>, bottom: bool) returns (out: seq<Record>)
      requires AllReadable(disk.files, ids)
      ensures Sorted(out)
      ensures ToMap(out) == if bottom then LiveOnly(MapOf(disk.files, ids)) else MapOf(disk.files, ids)
    {
      hide MapOf;
      hide ToMap;
      hide Sorted;
      hide M.MergeMap;
      MapOfIsMergeMap(disk.files, ids);
      ghost var runs := OpenAll(disk.files, ids);
      var iters: seq<M.Cursor> := [];
      for i := 0 to |ids|
        invariant |iters| == i && fresh(iters)
        invariant forall j {:trigger iters[j]} :: 0 <= j < i ==> iters[j].rs == runs[j]
        invariant forall j, k :: 0 <= j < k < i ==> iters[j] != iters[k]
      {
        assert Readable(disk.files, ids[i]);
        var c := new M.Cursor(disk.files[ids[i]].rs);
        iters := iters + [c];
      }
      var merged := new M.MergeIterator(iters);
      assert merged.Sources() == runs;
      ghost var m := M.MergeMap(runs);
      M.FromStart(m);
      M.FromStart(LiveOnly(m));
      if bottom {
        var filter := new M.DeletedFilterIterator(merged);
        out := filter.Drain([]);
      } else {
        out := merged.Drain([]);
      }
    }

    /** Best-effort clean-up of files that are no longer named. */
    method RemoveFiles(ids: seq<nat>)
      requires Tracked() && st.phase == CompactSaved(Ids(ids)) && Distinct(ids)
      modifies this`disk, this`st, this`trace
      ensures Tracked() && st.phase == CompactSaved({}) && old(trace) <= trace
      ensures disk == old(disk).(files := disk.files) && Load(disk) == old(Load(disk))
      ensures st == old(st).(disk := disk, phase := CompactSaved({}))
      ensures old(Shallow(trace)) ==> Shallow(trace)
    {
      hide Shallow;
      hide Inv;
      hide From;
      for i := 0 to |ids|
        invariant Tracked() && st.phase == CompactSaved(Ids(ids[i..])) && old(trace) <= trace
        invariant disk == old(disk).(files := disk.files) && Load(disk) == old(Load(disk))
        invariant st == old(st).(disk := disk, phase := CompactSaved(Ids(ids[i..])))
        invariant old(Shallow(trace)) ==> Shallow(trace)
      {
        IdsTail(ids, i);
        disk := disk.(files := disk.files - {ids[i]});
        Take(Remove(ids[i]));
      }
    }

    /** Compact until no level is over its threshold. */
    method MaybeTriggerCompaction()
      requires Tracked() && st.phase == Compacting && opts.l0 > 0 && Stops(opts, Load(disk))
      modifies this`disk, this`nextID, this`st, this`trace
      ensures Tracked() && st.phase == Compacting && old(trace) <= trace && Settled(opts, Load(disk))
      ensures st.acked == old(st.acked) && st.inflight == old(st.inflight) && st.mem == old(st.mem)
      ensures disk.log == old(disk.log)
      ensures old(Shape(Load(disk))) && Threshold(opts, 1) >= 2 ==>
                Shape(Load(disk)) && (old(Shallow(trace)) ==> Shallow(trace))
    {
      hide Shallow;
      hide Flat;
      hide Inv;
      hide From;
      hide Load;
      while true
        invariant Tracked() && st.phase == Compacting && old(trace) <= trace && Stops(opts, Load(disk))
        invariant st.acked == old(st.acked) && st.inflight == old(st.inflight) && st.mem == old(st.mem)
        invariant disk.log == old(disk.log)
        invariant old(Shape(Load(disk))) && Threshold(opts, 1) >= 2 ==>
                    Shape(Load(disk)) && (old(Shallow(trace)) ==> Shallow(trace))
        decreases |Flat(Load(disk))|, if Load(disk) == [] then 0 else |Load(disk)[0]|
      {
        var level := FirstOverThreshold(opts, Load(disk));
        if level < 0 {
          return;
        }
        RoundProgress(opts, Load(disk), level, nextID);
        if Shape(Load(disk)) && Threshold(opts, 1) >= 2 {
          OnlyLevelZero(opts, Load(disk), level);
          CompactedShape(Load(disk), nextID);
        }
        CompactLevelLocked(level);
      }
    }

    /** Write the memtable as the newest level-0 table and name it. */
    method FlushMemTable()
      requires Tracked() && st.phase in {Idle, Buffered} && mem.Valid() && mem.Contents() == st.mem
      modifies this`disk, this`nextID, this`st, this`trace
      ensures Tracked() && st.phase == FlushSaved && old(trace) <= trace
      ensures st.acked == old(st.acked) && st.inflight == old(st.inflight)
      ensures Load(disk) == Flushed(old(Load(disk)), old(nextID)) && (old(Shallow(trace)) ==> Shallow(trace))
    {
      hide Shallow;
      hide Flat;
      hide MapOf;
      hide ToMap;
      hide Sorted;
      hide T.MemTable.Valid;
      hide Inv;
      hide From;
      hide Flushed;
      var id := nextID;
      nextID := nextID + 1;
      var rs := mem.Snapshot();
      disk := disk.(files := disk.files[id := Table(rs)]);
      Take(FlushWrite(rs));
      var saved := Flushed(Load(disk), id);
      SavedLevels(crc, st, saved);
      disk := Save(disk, saved);
      Take(FlushSave);
    }

    /** Freeze and flush the memtable, start a fresh one, truncate the log, compact.  The write in
        flight is acknowledged, the log is empty and the table count is back within its bound. */
    method FlushActiveMemTableLocked()
      requires Open()
      modifies this, mem
      ensures Open() && old(trace) <= trace
      ensures old(mem.length) == 0 ==> st == old(st) && mem == old(mem) && mem.spine == old(mem.spine)
      ensures old(mem.length) > 0 ==>
                && Valid() && fresh(mem) && fresh(mem.spine)
                && Contents() == Served(old(st.acked), old(st.inflight))
                && disk.log == [] && |Flat(Load(disk))| <= opts.l0
    {
      hide Shallow;
      hide Flat;
      hide ToMap;
      hide T.MemTable.Valid;
      hide Load;
      hide Threshold;
      hide OpenAll;
      hide Inv;
      hide From;
      if mem.length == 0 {
        return;
      }
      mem.Freeze();
      FlushedShape(Load(disk), nextID);
      FlushMemTable();
      StartOver();
      MaybeTriggerCompaction();
      SettledBound(opts, Load(disk));
      Finish();
    }

    /** A fresh memtable over an empty log. */
    method StartOver()
      requires Tracked() && st.phase == FlushSaved
      modifies this`disk, this`mem, this`st, this`trace
      ensures Tracked() && st.phase == Compacting && old(trace) <= trace && st.mem == map[]
      ensures st.acked == old(st.acked) && st.inflight == old(st.inflight)
      ensures fresh(mem) && fresh(mem.spine) && mem.Valid() && !mem.frozen && mem.Contents() == map[]
      ensures disk.log == [] && Load(disk) == old(Load(disk)) && (old(Shallow(trace)) ==> Shallow(trace))
    {
      hide Shallow;
      hide ToMap;
      hide T.MemTable.Valid;
      hide Inv;
      hide From;
      mem := new T.MemTable();
      disk := disk.(log := []);
      Take(Truncate);
    }

    /** The call returns: the write in flight is acknowledged and the readers follow the levels. */
    method Finish()
      requires Tracked() && st.phase == Compacting
      modifies this`readers, this`st, this`trace
      ensures Tracked() && st.phase == Idle && old(trace) <= trace && st.mem == old(st.mem)
      ensures st.acked == Served(old(st.acked), old(st.inflight))
      ensures AllOpen(disk) && readers == OpenAll(disk.files, Flat(Load(disk)))
      ensures old(Shallow(trace)) ==> Shallow(trace)
    {
      hide Shallow;
      hide Flat;
      hide Load;
      hide Inv;
      hide From;
      Take(FlushDone);
      InvFacts(crc, st);
      ReloadLevels();
    }

    method ReloadLevels()
      requires DiskOk(disk)
      modifies this`readers
      ensures AllOpen(disk) && readers == OpenAll(disk.files, Flat(Load(disk)))
    {
      readers := OpenAll(disk.files, Flat(Load(disk)));
    }

    method MaybeFlushLocked()
      requires Open() && st.phase == Buffered
      modifies this, mem
      ensures Valid() && old(trace) <= trace && Contents() == Served(old(st.acked), old(st.inflight))
      ensures mem == old(mem) || (fresh(mem) && fresh(mem.spine))
      ensures mem == old(mem) ==> mem.spine == old(mem.spine)
      ensures old(mem.size) < memTableThreshold ==> disk == old(disk) && mem == old(mem) && trace == old(trace) + [Ack]
      ensures old(mem.size) >= memTableThreshold && old(mem.length) > 0 ==>
                fresh(mem) && disk.log == [] && |Flat(Load(disk))| <= opts.l0
    {
      hide Shallow;
      hide Flat;
      hide ToMap;
      hide T.MemTable.Valid;
      hide Load;
      hide Threshold;
      hide OpenAll;
      hide Inv;
      hide From;
      if mem.size >= memTableThreshold {
        FlushActiveMemTableLocked();
      }
      if st.phase == Buffered {
        Take(Ack);
      }
    }

    /** Log first, then the memtable. */
    method WalAppend(r: Record)
      requires Tracked() && st.phase == Idle
      modifies this`disk, this`st, this`trace
      ensures Tracked() && st == Step(crc, old(st), Append(r)) && trace == old(trace) + [Append(r)]
      ensures disk == old(disk).(log := old(disk).log + EncodeRecord(crc, r))
      ensures old(Shallow(trace)) ==> Shallow(trace)
    {
      hide Shallow;
      hide Inv;
      hide From;
      disk := disk.(log := disk.log + EncodeRecord(crc, r));
      Take(Append(r));
    }

    /** Log and memtable gain the write, which is then in flight. */
    method BufferPut(key: Bytes, value: Bytes)
      requires Valid()
      modifies this`disk, this`st, this`trace, mem, mem.spine
      ensures Open() && st.phase == Buffered && old(trace) <= trace
      ensures fresh((set x | x in mem.spine) - old(set x | x in mem.spine))
      ensures st.acked == old(st.acked) && st.inflight == Some(Record(key, Live(value)))
    {
      hide Flat;
      hide ToMap;
      hide T.MemTable.Valid;
      hide Load;
      hide Threshold;
      hide OpenAll;
      hide Inv;
      hide From;
      hide Shallow;
      hide EncodeRecord;
      hide Step;
      hide Enabled;
      LogAside(disk, disk.log + EncodeRecord(crc, Record(key, Live(value))));
      InFlight(crc, st, Record(key, Live(value)));
      WalAppend(Record(key, Live(value)));
      mem.Put(key, value);
      Take(Insert);
    }

    method Put(key: Bytes, value: Bytes)
      requires Valid()
      modifies this, mem, mem.spine
      ensures Valid() && old(trace) <= trace
      ensures fresh((set x | x in mem.spine) - old(set x | x in mem.spine)) && (mem == old(mem) || fresh(mem))
      ensures Contents() == old(Contents())[key := value]
    {
      hide Flat;
      hide ToMap;
      hide T.MemTable.Valid;
      hide Load;
      hide Threshold;
      hide OpenAll;
      hide Inv;
      hide From;
      hide Shallow;
      hide AllOpen;
      BufferPut(key, value);
      MaybeFlushLocked();
    }

    /** Log and memtable gain the write, which is then in flight. */
    method BufferDelete(key: Bytes)
      requires Valid()
      modifies this`disk, this`st, this`trace, mem, mem.spine
      ensures Open() && st.phase == Buffered && old(trace) <= trace
      ensures fresh((set x | x in mem.spine) - old(set x | x in mem.spine))
      ensures st.acked == old(st.acked) && st.inflight == Some(Record(key, Tombstone))
    {
      hide Flat;
      hide ToMap;
      hide T.MemTable.Valid;
      hide Load;
      hide Threshold;
      hide OpenAll;
      hide Inv;
      hide From;
      hide Shallow;
      hide EncodeRecord;
      hide Step;
      hide Enabled;
      LogAside(disk, disk.log + EncodeRecord(crc, Record(key, Tombstone)));
      InFlight(crc, st, Record(key, Tombstone));
      WalAppend(Record(key, Tombstone));
      mem.Delete(key);
      Take(Insert);
    }

    method Delete(key: Bytes)
      requires Valid()
      modifies this, mem, mem.spine
      ensures Valid() && old(trace) <= trace
      ensures fresh((set x | x in mem.spine) - old(set x | x in mem.spine)) && (mem == old(mem) || fresh(mem))
      ensures Contents() == old(Contents()) - {key}
    {
      hide Flat;
      hide ToMap;
      hide T.MemTable.Valid;
      hide Load;
      hide Threshold;
      hide OpenAll;
      hide Inv;
      hide From;
      hide Shallow;
      hide AllOpen;
      BufferDelete(key);
      MaybeFlushLocked();
    }

    /** The engine's iterator from `start` on: a memtable snapshot and every table, merged,
        deletions hidden.  It lists exactly the bindings `Get` would return, in key order. */
    method Scan(start: Bytes) returns (out: seq<Record>)
      requires Valid()
      ensures Sorted(out)
      ensures ToMap(out) == map k | k in Contents() && !Less(k, start) :: Live(Contents()[k])
    {
      hide Flat;
      hide MapOf;
      hide ToMap;
      hide M.MergeMap;
      hide Sorted;
      hide T.MemTable.Valid;
      hide Inv;
      hide From;
      Serving();
      MapOfIsMergeMap(disk.files, Flat(Load(disk)));
      var snap := mem.Snapshot();
      ghost var runs := [snap] + readers;
      var first := new M.Cursor(snap);
      var iters: seq<M.Cursor> := [first];
      for i := 0 to |readers|
        invariant |iters| == i + 1 && fresh(iters)
        invariant forall j {:trigger iters[j]} :: 0 <= j <= i ==> iters[j].rs == runs[j]
        invariant forall j, k :: 0 <= j < k <= i ==> iters[j] != iters[k]
      {
        var c := new M.Cursor(readers[i]);
        iters := iters + [c];
      }
      var merged := new M.MergeIterator(iters);
      assert merged.Sources() == runs;
      var filter := new M.DeletedFilterIterator(merged);
      out := filter.Drain(start);
      MergeFirst(snap, readers);
      LiveVisible(TableMap(disk) + mem.Contents(), start);
    }
  }

  lemma {:induction false} InvFacts(crc: W.Crc, s: State)
    requires Inv(crc, s)
    ensures DiskOk(s.disk) && Fresh(s.disk.files, s.nextId)
  {
    hide DiskOk;
    hide Fresh;
    hide LogBytes;
    hide Visible;
    hide TableMap;
  }

  lemma {:induction false} Reopened(crc: W.Crc, down: State, next: nat)
    requires Inv(crc, down) && Enabled(crc, down, Reopen(next))
    ensures var s := Step(crc, down, Reopen(next));
            && Inv(crc, s) && From(crc, down, [Reopen(next)]) == Some(s)
            && s.disk == down.disk && s.nextId == next && s.phase == Idle
            && s.mem == Replay(ReadLog(crc, s.disk.log)) && s.acked == Recover(crc, s.disk)
    ensures DiskOk(down.disk) && down.phase == Down
  {
    hide Inv;
    hide From;
    hide Recover;
    InvFacts(crc, down);
    FromNothing(crc, down);
    FromStep(crc, down, [], down, Reopen(next), [Reopen(next)]);
    StepKeepsInv(crc, down, Reopen(next));
  }

  /** Appending and inserting a record leaves it in flight. */
  lemma {:induction false} InFlight(crc: W.Crc, s: State, r: Record)
    requires s.phase == Idle
    ensures Enabled(crc, s, Append(r))
    ensures var s1 := Step(crc, s, Append(r));
            && Enabled(crc, s1, Insert)
            && var s2 := Step(crc, s1, Insert);
               && s2.disk == s1.disk == s.disk.(log := s.disk.log + EncodeRecord(crc, r)) && s2.nextId == s.nextId
               && s2.mem == Apply(s.mem, r) && s2.acked == s.acked && s2.inflight == Some(r) && s2.phase == Buffered
  {
  }

  /** A saved list of levels is the one loaded. */
  lemma {:induction false} SavedLevels(crc: W.Crc, s: State, levels: seq<seq<nat>>)
    requires Inv(crc, s)
    ensures Load(Save(s.disk, levels)) == levels
  {
    hide Inv;
    InvFacts(crc, s);
    CompleteSave(s.disk, levels);
  }

  lemma {:induction false} Merged(files: map<nat, File>, levels: seq<seq<nat>>, n: nat, rs: seq<Record>)
    requires Sorted(rs)
    requires var m := MapOf(files, Inputs(levels, n));
             ToMap(rs) == if IsBottomLevel(Grow(levels, n + 1), n + 1) then LiveOnly(m) else m
    ensures CompactionOutput(files, levels, n, rs)
  {
  }

  lemma {:induction false} InputsDistinct(d: Disk, n: nat)
    requires DiskOk(d)
    ensures Distinct(Inputs(Load(d), n))
  {
    hide Flat;
    hide Grow;
    hide Sorted;
    var upper, deeper := CompactionSplits(Load(d), n, 0);
    var inputs := Inputs(Load(d), n);
    forall i, j | 0 <= i < j < |inputs| ensures inputs[i] != inputs[j] {
      assert Flat(Load(d))[|upper| + i] == inputs[i] && Flat(Load(d))[|upper| + j] == inputs[j];
    }
  }

  lemma {:induction false} IdsTail(ids: seq<nat>, i: nat)
    requires Distinct(ids) && i < |ids|
    ensures ids[i] in Ids(ids[i..]) && Ids(ids[i..]) - {ids[i]} == Ids(ids[i + 1..])
  {
    assert ids[i..] == [ids[i]] + ids[i + 1..];
    assert ids[i] !in ids[i + 1..];
  }

  lemma {:induction false} MergeFirst(first: seq<Record>, rest: seq<seq<Record>>)
    requires Sorted(first) && M.AllSorted(rest)
    ensures M.AllSorted([first] + rest)
    ensures M.MergeMap([first] + rest) == M.MergeMap(rest) + ToMap(first)
  {
    assert ([first] + rest)[1..] == rest;
  }

  lemma {:induction false} LiveVisible(m: map<Bytes, Cell>, start: Bytes)
    ensures M.From(LiveOnly(m), start) == map k | k in Visible(m) && !Less(k, start) :: Live(Visible(m)[k])
  {
    hide Less;
  }

  /** A scan from `start` begins where seeking `start` in the contents lands. */
  lemma {:induction false} ScanBeginsAtCeiling(m: map<Bytes, Bytes>, start: Bytes, out: seq<Record>)
    requires Sorted(out) && ToMap(out) == map k | k in m && !Less(k, start) :: Live(m[k])
    ensures Ceiling(m, start) == if out == [] then None else Some(out[0].key)
  {
    hide Less;
    hide Ceiling;
    if out == [] {
      assert forall k :: k in m && !Less(k, start) ==> k in ToMap(out);
    } else {
      assert out[0].key in ToMap(out);
      forall x | x in m && !Less(x, start) ensures !Less(x, out[0].key) {
        assert x in ToMap(out);
        FirstIsLeast(out, x);
        LessTrichotomy(out[0].key, x);
      }
      CeilingIs(m, start, out[0].key);
    }
  }
}
