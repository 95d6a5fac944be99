/** What the storage engine keeps on disk, the map a reopened engine reads from it, and the
    effect of each single disk step: the write-ahead log, the SSTable files and the two-slot
    metadata store.  A compaction is shown to preserve what is read. */
module LsmDisk {
  import opened Bytes
  import opened Records
  import opened LsmLog
  import W = Wal

  /** A metadata slot file: readable with a version, or missing, torn or failing its checksum. */
  datatype Slot = Unreadable | Meta(version: nat, levels: seq<seq<nat>>)

  /** An SSTable file: complete, or cut short by a crash while it was written. */
  datatype File = Partial | Table(rs: seq<Record>)

  /** The bytes of the write-ahead log, the two metadata slots and the table files. */
  datatype Disk = Disk(log: Bytes, slot0: Slot, slot1: Slot, files: map<nat, File>)

  const FRESH: Disk := Disk([], Unreadable, Unreadable, map[])

  // ----- The two-slot metadata store ------------------------------------------------

  function Version(s: Slot): nat {
    if s.Meta? then s.version else 0
  }

  function Load(d: Disk): seq<seq<nat>> {
    if d.slot0.Unreadable? && d.slot1.Unreadable? then []
    else if d.slot0.Unreadable? then d.slot1.levels
    else if d.slot1.Unreadable? then d.slot0.levels
    else if d.slot1.version > d.slot0.version then d.slot1.levels
    else d.slot0.levels
  }

  /** Save overwrites the slot with the lower version. */
  predicate SavesToSlot1(d: Disk) {
    Version(d.slot1) < Version(d.slot0)
  }

  function Save(d: Disk, levels: seq<seq<nat>>): Disk {
    var meta := Meta((if Version(d.slot0) < Version(d.slot1) then Version(d.slot1) else Version(d.slot0)) + 1, levels);
    if SavesToSlot1(d) then d.(slot1 := meta) else d.(slot0 := meta)
  }

  /** A crash in the middle of `Save`. */
  function SaveTorn(d: Disk): Disk {
    if SavesToSlot1(d) then d.(slot1 := Unreadable) else d.(slot0 := Unreadable)
  }

  /** Readable slots carry positive and different versions. */
  predicate SlotsOk(d: Disk) {
    && (d.slot0.Meta? ==> d.slot0.version > 0)
    && (d.slot1.Meta? ==> d.slot1.version > 0)
    && (d.slot0.Meta? && d.slot1.Meta? ==> d.slot0.version != d.slot1.version)
  }

  datatype MetaStep = Saved(levels: seq<seq<nat>>) | Torn

  function MetaRun(d: Disk, steps: seq<MetaStep>): Disk {
    if steps == [] then d else
      var before := MetaRun(d, steps[..|steps| - 1]);
      match steps[|steps| - 1]
      case Saved(levels) => Save(before, levels)
      case Torn => SaveTorn(before)
  }

  function LastSaved(initial: seq<seq<nat>>, steps: seq<MetaStep>): seq<seq<nat>> {
    if steps == [] then initial
    else if steps[|steps| - 1].Saved? then steps[|steps| - 1].levels
    else LastSaved(initial, steps[..|steps| - 1])
  }

  /** Over every history of saves, completed or torn, what is loaded is the last completed
      save. */
  lemma {:induction false} LoadIsLastSaved(d: Disk, steps: seq<MetaStep>)
    requires SlotsOk(d)
    ensures SlotsOk(MetaRun(d, steps))
    ensures Load(MetaRun(d, steps)) == LastSaved(Load(d), steps)
    ensures MetaRun(d, steps).files == d.files && MetaRun(d, steps).log == d.log
  {
    if steps != [] {
      LoadIsLastSaved(d, steps[..|steps| - 1]);
    }
  }

  // ----- Maps denoted by files ------------------------------------------------------

  ghost predicate Readable(files: map<nat, File>, id: nat) {
    id in files && files[id].Table? && Sorted(files[id].rs)
  }

  ghost function FileMap(files: map<nat, File>, id: nat): map<Bytes, Cell> {
    if Readable(files, id) then ToMap(files[id].rs) else map[]
  }

  /** The merged map of a list of files; the first file wins. */
  ghost function MapOf(files: map<nat, File>, ids: seq<nat>): map<Bytes, Cell> {
    if ids == [] then map[] else MapOf(files, ids[1..]) + FileMap(files, ids[0])
  }

  lemma {:induction false} OverlayAssociative(l: map<Bytes, Cell>, m: map<Bytes, Cell>, n: map<Bytes, Cell>)
    ensures (l + m) + n == l + (m + n)
  {
  }

  lemma {:induction false} MapOfConcat(files: map<nat, File>, a: seq<nat>, b: seq<nat>)
    ensures MapOf(files, a + b) == MapOf(files, b) + MapOf(files, a)
  {
    hide FileMap;
    if a == [] {
      assert a + b == b;
    } else {
      assert (a + b)[1..] == a[1..] + b;
      MapOfConcat(files, a[1..], b);
      OverlayAssociative(MapOf(files, b), MapOf(files, a[1..]), FileMap(files, a[0]));
    }
  }

  /** Only the listed files matter. */
  lemma {:induction false} MapOfFrame(files: map<nat, File>, files': map<nat, File>, ids: seq<nat>)
    requires forall i :: 0 <= i < |ids| ==> ids[i] in files && ids[i] in files' && files[ids[i]] == files'[ids[i]]
    ensures MapOf(files, ids) == MapOf(files', ids)
  {
    if ids != [] {
      MapOfFrame(files, files', ids[1..]);
    }
  }

  // ----- Levels ---------------------------------------------------------------------

  /** All files of a level stack, highest priority first. */
  function Flat(levels: seq<seq<nat>>): seq<nat> {
    if levels == [] then [] else levels[0] + Flat(levels[1..])
  }

  lemma {:induction false} FlatConcat(a: seq<seq<nat>>, b: seq<seq<nat>>)
    ensures Flat(a + b) == Flat(a) + Flat(b)
  {
    if a == [] {
      assert a + b == b;
    } else {
      assert (a + b)[1..] == a[1..] + b;
      FlatConcat(a[1..], b);
    }
  }

  lemma {:induction false} FlatEmpty(levels: seq<seq<nat>>)
    requires forall i :: 0 <= i < |levels| ==> levels[i] == []
    ensures Flat(levels) == []
  {
    if levels != [] {
      FlatEmpty(levels[1..]);
    }
  }

  /** Grow the stack until level `n` exists. */
  function Grow(levels: seq<seq<nat>>, n: nat): (ls: seq<seq<nat>>)
    ensures |ls| == if |levels| > n then |levels| else n + 1
    ensures levels <= ls
    ensures forall i :: |levels| <= i < |ls| ==> ls[i] == []
    decreases n + 1 - |levels|
  {
    if |levels| > n then levels else Grow(levels + [[]], n)
  }

  /** Drop empty levels from the end, keeping at least one. */
  function Trim(levels: seq<seq<nat>>): (ls: seq<seq<nat>>)
    ensures ls <= levels && (levels != [] ==> ls != [])
    ensures forall i :: |ls| <= i < |levels| ==> levels[i] == []
    ensures |ls| > 1 ==> ls[|ls| - 1] != []
  {
    if |levels| > 1 && levels[|levels| - 1] == [] then Trim(levels[..|levels| - 1]) else levels
  }

  predicate IsBottomLevel(levels: seq<seq<nat>>, toLevel: nat) {
    forall i :: toLevel < i < |levels| ==> levels[i] == []
  }

  lemma {:induction false} FlatPrefix(levels: seq<seq<nat>>, ls: seq<seq<nat>>)
    requires ls <= levels && forall i :: |ls| <= i < |levels| ==> levels[i] == []
    ensures Flat(ls) == Flat(levels)
  {
    var rest := levels[|ls|..];
    assert levels == ls + rest;
    FlatConcat(ls, rest);
    FlatEmpty(rest);
  }

  /** Put a freshly flushed table in front of level 0. */
  function Flushed(levels: seq<seq<nat>>, id: nat): (ls: seq<seq<nat>>)
    ensures Flat(ls) == [id] + Flat(levels)
  {
    if levels == [] then
      assert Flat([[id]]) == [id] + Flat([[id]][1..]);
      [[id]]
    else
      assert levels[0 := [id] + levels[0]][1..] == levels[1..];
      levels[0 := [id] + levels[0]]
  }

  /** Replace levels `n` and `n + 1` by one table on level `n + 1`. */
  function Compacted(levels: seq<seq<nat>>, n: nat, id: nat): seq<seq<nat>> {
    Trim(Grow(levels, n + 1)[n := []][n + 1 := [id]])
  }

  /** The files a compaction of level `n` merges, newest first. */
  function Inputs(levels: seq<seq<nat>>, n: nat): seq<nat> {
    Grow(levels, n + 1)[n] + Grow(levels, n + 1)[n + 1]
  }

  /** How a compaction of level `n` rearranges the priority list. */
  lemma {:induction false} CompactionSplits(levels: seq<seq<nat>>, n: nat, id: nat)
    returns (upper: seq<nat>, deeper: seq<nat>)
    ensures Flat(levels) == upper + Inputs(levels, n) + deeper
    ensures Flat(Compacted(levels, n, id)) == upper + [id] + deeper
    ensures IsBottomLevel(Grow(levels, n + 1), n + 1) ==> deeper == []
  {
    hide Flat;
    hide Grow;
    hide Trim;
    var g := Grow(levels, n + 1);
    var a, b := g[..n], g[n + 2..];
    var g' := g[n := []][n + 1 := [id]];
    upper, deeper := Flat(a), Flat(b);
    FlatPrefix(g, levels);
    FlatPrefix(g', Trim(g'));
    assert g == a + [g[n], g[n + 1]] + b;
    assert g' == a + [[], [id]] + b;
    FlatMiddle(a, g[n], g[n + 1], b);
    FlatMiddle(a, [], [id], b);
    if IsBottomLevel(g, n + 1) {
      FlatEmpty(b);
    }
  }

  lemma {:induction false} FlatMiddle(a: seq<seq<nat>>, x: seq<nat>, y: seq<nat>, b: seq<seq<nat>>)
    ensures Flat(a + [x, y] + b) == Flat(a) + (x + y) + Flat(b)
  {
    FlatConcat(a + [x, y], b);
    FlatConcat(a, [x, y]);
    assert [x, y][1..] == [y] && [y][1..] == [];
    assert Flat([y]) == y + Flat([]) == y;
  }

  // ----- Recovery -------------------------------------------------------------------

  /** Replaying the log into an empty memtable. */
  ghost function Replay(wal: seq<Record>): map<Bytes, Cell> {
    if wal == [] then map[] else Apply(Replay(wal[..|wal| - 1]), wal[|wal| - 1])
  }

  ghost function TableMap(d: Disk): map<Bytes, Cell> {
    MapOf(d.files, Flat(Load(d)))
  }

  /** What a user reads after the engine is reopened on `d`. */
  ghost function Recover(crc: W.Crc, d: Disk): map<Bytes, Bytes> {
    Visible(TableMap(d) + Replay(ReadLog(crc, d.log)))
  }

  /** Every file the metadata names is complete, and named once. */
  ghost predicate DiskOk(d: Disk) {
    && SlotsOk(d)
    && (forall i :: 0 <= i < |Flat(Load(d))| ==> Readable(d.files, Flat(Load(d))[i]))
    && Distinct(Flat(Load(d)))
  }

  ghost predicate Distinct(ids: seq<nat>) {
    forall i, j :: 0 <= i < j < |ids| ==> ids[i] != ids[j]
  }

  ghost predicate AllReadable(files: map<nat, File>, ids: seq<nat>) {
    forall i :: 0 <= i < |ids| ==> Readable(files, ids[i])
  }

  /** What a compaction of level `n` must write: the merge of its inputs, without deletion
      markers when nothing deeper could be shadowed. */
  ghost predicate CompactionOutput(files: map<nat, File>, levels: seq<seq<nat>>, n: nat, rs: seq<Record>) {
    && Sorted(rs)
    && ToMap(rs) ==
         (var m := MapOf(files, Inputs(levels, n));
          if IsBottomLevel(Grow(levels, n + 1), n + 1) then LiveOnly(m) else m)
  }

  /** Merging into the deepest level that holds anything leaves no deletion markers behind. */
  lemma {:induction false} BottomKeepsNoTombstones(files: map<nat, File>, levels: seq<seq<nat>>, n: nat, rs: seq<Record>)
    requires CompactionOutput(files, levels, n, rs) && forall i :: n + 1 < i < |levels| ==> levels[i] == []
    ensures forall i :: 0 <= i < |rs| ==> rs[i].cell.Live?
  {
    hide ToMap;
    hide MapOf;
    hide Sorted;
    assert IsBottomLevel(Grow(levels, n + 1), n + 1);
    forall i | 0 <= i < |rs| ensures rs[i].cell.Live? {
      assert rs[i].key in ToMap(rs);
    }
  }

  /** A compaction preserves the result of every read over the whole level stack, and every
      cell when it keeps its deletion markers. */
  lemma {:induction false} CompactionPreservesReads(files: map<nat, File>, levels: seq<seq<nat>>, n: nat, id: nat, rs: seq<Record>)
    requires AllReadable(files, Flat(levels)) && id !in files
    requires CompactionOutput(files, levels, n, rs)
    ensures var after := MapOf(files[id := Table(rs)], Flat(Compacted(levels, n, id)));
            && Visible(after) == Visible(MapOf(files, Flat(levels)))
            && (!IsBottomLevel(Grow(levels, n + 1), n + 1) ==> after == MapOf(files, Flat(levels)))
  {
    hide Flat;
    hide Grow;
    hide Trim;
    hide ToMap;
    hide MapOf;
    var upper, deeper := CompactionSplits(levels, n, id);
    var files' := files[id := Table(rs)];
    var inputs := Inputs(levels, n);
    SplitMap(files, upper, inputs, deeper);
    SplitMap(files', upper, [id], deeper);
    assert forall i :: 0 <= i < |upper| ==> Flat(levels)[i] == upper[i];
    assert forall i :: 0 <= i < |deeper| ==> Flat(levels)[|upper| + |inputs| + i] == deeper[i];
    MapOfFrame(files, files', upper);
    MapOfFrame(files, files', deeper);
    MapOfOne(files', id);
    var m, u := MapOf(files, inputs), MapOf(files, upper);
    if IsBottomLevel(Grow(levels, n + 1), n + 1) {
      assert MapOf(files, deeper) == map[] by {
        MapOfNone(files);
      }
      assert map[] + LiveOnly(m) == LiveOnly(m) && map[] + m == m;
      assert Visible(LiveOnly(m)) == Visible(m);
      VisibleOverlay(LiveOnly(m), m, u);
    }
  }

  lemma {:induction false} SplitMap(files: map<nat, File>, upper: seq<nat>, mid: seq<nat>, deeper: seq<nat>)
    ensures MapOf(files, upper + mid + deeper) == (MapOf(files, deeper) + MapOf(files, mid)) + MapOf(files, upper)
  {
    hide MapOf;
    MapOfConcat(files, upper + mid, deeper);
    MapOfConcat(files, upper, mid);
    OverlayAssociative(MapOf(files, deeper), MapOf(files, mid), MapOf(files, upper));
  }

  lemma {:induction false} MapOfNone(files: map<nat, File>)
    ensures MapOf(files, []) == map[]
  {
  }

  lemma {:induction false} MapOfOne(files: map<nat, File>, id: nat)
    ensures MapOf(files, [id]) == FileMap(files, id)
  {
    hide FileMap;
    assert [id][1..] == [];
    assert map[] + FileMap(files, id) == FileMap(files, id);
  }

  // ----- Disk steps -----------------------------------------------------------------

  /** Ids grow past every file present, orphans included. */
  ghost predicate Fresh(files: map<nat, File>, id: nat) {
    forall f :: f in files ==> f < id
  }

  /** Files the metadata does not name do not matter. */
  lemma {:induction false} UnnamedFiles(d: Disk, files': map<nat, File>)
    requires DiskOk(d)
    requires forall id :: id in Flat(Load(d)) ==> id in files' && files'[id] == d.files[id]
    ensures DiskOk(d.(files := files'))
    ensures TableMap(d.(files := files')) == TableMap(d)
  {
    hide Flat;
    hide ToMap;
    hide MapOf;
    var ids := Flat(Load(d));
    assert forall i :: 0 <= i < |ids| ==> ids[i] in ids && Readable(d.files, ids[i]);
    MapOfFrame(d.files, files', ids);
  }

  lemma {:induction false} NamedFilesRemain(d: Disk, id: nat)
    requires DiskOk(d) && id !in Flat(Load(d))
    ensures forall f :: f in Flat(Load(d)) ==> f in d.files - {id} && (d.files - {id})[f] == d.files[f]
    ensures AllReadable(d.files - {id}, Flat(Load(d)))
  {
    hide Flat;
    hide Sorted;
    var ids := Flat(Load(d));
    forall f | f in ids ensures f in d.files && f != id {
      var i :| 0 <= i < |ids| && ids[i] == f;
      assert Readable(d.files, ids[i]);
    }
    forall i | 0 <= i < |ids| ensures Readable(d.files - {id}, ids[i]) {
      assert ids[i] in ids && Readable(d.files, ids[i]);
    }
  }

  /** A fresh file, complete or not, changes nothing that is named. */
  lemma {:induction false} AddFile(d: Disk, id: nat, f: File)
    requires DiskOk(d) && id !in d.files
    ensures DiskOk(d.(files := d.files[id := f])) && TableMap(d.(files := d.files[id := f])) == TableMap(d)
    ensures id !in Flat(Load(d))
  {
    hide Flat;
    hide Sorted;
    hide MapOf;
    var ids := Flat(Load(d));
    forall f | f in ids ensures f in d.files {
      var i :| 0 <= i < |ids| && ids[i] == f;
      assert Readable(d.files, ids[i]);
    }
    UnnamedFiles(d, d.files[id := f]);
  }

  lemma {:induction false} TornSave(d: Disk)
    requires DiskOk(d)
    ensures DiskOk(SaveTorn(d)) && TableMap(SaveTorn(d)) == TableMap(d)
    ensures SaveTorn(d).files == d.files && SaveTorn(d).log == d.log
  {
    hide Flat;
    hide MapOf;
  }

  lemma {:induction false} CompleteSave(d: Disk, levels: seq<seq<nat>>)
    requires SlotsOk(d)
    ensures SlotsOk(Save(d, levels)) && Load(Save(d, levels)) == levels
    ensures Save(d, levels).files == d.files && Save(d, levels).log == d.log
  {
  }

  /** Naming a flushed table lays its map over the rest. */
  lemma {:induction false} FlushSwitch(d: Disk, id: nat)
    requires DiskOk(d) && id !in Flat(Load(d)) && Readable(d.files, id)
    ensures var d' := Save(d, Flushed(Load(d), id));
            && DiskOk(d') && Load(d') == Flushed(Load(d), id)
            && TableMap(d') == TableMap(d) + FileMap(d.files, id)
            && d'.files == d.files && d'.log == d.log
  {
    hide Flat;
    hide MapOf;
    hide ToMap;
    hide FileMap;
    hide Sorted;
    var ls, was := Flushed(Load(d), id), Flat(Load(d));
    CompleteSave(d, ls);
    MapOfConcat(d.files, [id], was);
    MapOfOne(d.files, id);
    forall i | 0 <= i < |Flat(ls)| ensures Readable(d.files, Flat(ls)[i]) {
      assert i > 0 ==> Flat(ls)[i] == was[i - 1];
    }
    forall i, j | 0 <= i < j < |Flat(ls)| ensures Flat(ls)[i] != Flat(ls)[j] {
      assert Flat(ls)[j] == was[j - 1];
      assert i > 0 ==> Flat(ls)[i] == was[i - 1];
    }
  }

  /** Switching the metadata to a compacted stack preserves every read. */
  lemma {:induction false} CompactionSwitch(d: Disk, n: nat, id: nat)
    requires DiskOk(d) && id !in Flat(Load(d)) && Readable(d.files, id)
    requires CompactionOutput(d.files - {id}, Load(d), n, d.files[id].rs)
    ensures var d' := Save(d, Compacted(Load(d), n, id));
            && DiskOk(d') && Load(d') == Compacted(Load(d), n, id)
            && Visible(TableMap(d')) == Visible(TableMap(d))
            && d'.files == d.files && d'.log == d.log
            && forall v :: v in Ids(Inputs(Load(d), n)) ==> v !in Flat(Load(d'))
  {
    hide Flat;
    hide MapOf;
    hide ToMap;
    hide Visible;
    hide Grow;
    hide Trim;
    hide CompactionOutput;
    CompleteSave(d, Compacted(Load(d), n, id));
    NamedFilesRemain(d, id);
    UnnamedFiles(d, d.files - {id});
    CompactionPreservesReads(d.files - {id}, Load(d), n, id, d.files[id].rs);
    assert (d.files - {id})[id := Table(d.files[id].rs)] == d.files;
    CompactedIds(d, n, id);
  }

  ghost function Ids(ids: seq<nat>): set<nat> {
    set i | 0 <= i < |ids| :: ids[i]
  }

  /** After a compaction the named files are readable and distinct, and no input is named. */
  lemma {:induction false} CompactedIds(d: Disk, n: nat, id: nat)
    requires DiskOk(d) && id !in Flat(Load(d)) && Readable(d.files, id)
    ensures var ids := Flat(Compacted(Load(d), n, id));
            && AllReadable(d.files, ids) && Distinct(ids)
            && forall v :: v in Ids(Inputs(Load(d), n)) ==> v !in ids
  {
    hide Flat;
    hide Grow;
    hide Trim;
    hide Sorted;
    var was, inputs := Flat(Load(d)), Inputs(Load(d), n);
    var upper, deeper := CompactionSplits(Load(d), n, id);
    var ids := upper + [id] + deeper;
    var u, k := |upper|, |inputs|;
    forall i | 0 <= i < |ids| && i != u ensures ids[i] == was[if i < u then i else i - 1 + k] {
    }
    forall i | 0 <= i < |ids| ensures Readable(d.files, ids[i]) {
    }
    forall i, j | 0 <= i < j < |ids| ensures ids[i] != ids[j] {
      assert i != u ==> ids[i] in was;
      assert j != u ==> ids[j] in was;
    }
    forall v | v in Ids(inputs) ensures v !in ids {
      var p :| 0 <= p < k && inputs[p] == v;
      assert was[u + p] == v;
    }
  }

  // ----- Log and overlay ------------------------------------------------------------

  /** The log does not take part in what the metadata names. */
  lemma {:induction false} LogAside(d: Disk, log: Bytes)
    ensures var d' := d.(log := log);
            && Load(d') == Load(d) && TableMap(d') == TableMap(d) && (DiskOk(d) ==> DiskOk(d'))
  {
    hide Flat;
    hide MapOf;
    hide Sorted;
  }

  lemma {:induction false} ReplayAppend(wal: seq<Record>, r: Record)
    ensures Replay(wal + [r]) == Apply(Replay(wal), r)
  {
    assert (wal + [r])[..|wal + [r]| - 1] == wal;
  }

  lemma {:induction false} OverlayApply(t: map<Bytes, Cell>, m: map<Bytes, Cell>, r: Record)
    ensures t + Apply(m, r) == Apply(t + m, r)
  {
  }
}
