/** Key/cell records and strictly sorted runs of them: what a memtable, an SSTable and a
    merge stream all contain.  A run denotes a finite map. */
module Records {
  import opened Bytes

  datatype Option<+T> = None | Some(value: T)

  /** What a storage layer knows about a key it mentions. */
  datatype Cell = Live(value: Bytes) | Tombstone

  datatype Record = Record(key: Bytes, cell: Cell)

  /** Strictly increasing keys. */
  ghost predicate Sorted(rs: seq<Record>) {
    forall i, j :: 0 <= i < j < |rs| ==> Less(rs[i].key, rs[j].key)
  }

  ghost predicate HasKey(rs: seq<Record>, k: Bytes) {
    exists i :: 0 <= i < |rs| && rs[i].key == k
  }

  /** Keys of a run are pairwise distinct. */
  lemma {:induction false} SortedDistinct(rs: seq<Record>)
    requires Sorted(rs)
    ensures forall i, j :: 0 <= i < |rs| && 0 <= j < |rs| && rs[i].key == rs[j].key ==> i == j
  {
    hide Less;
    forall i, j | 0 <= i < |rs| && 0 <= j < |rs| && rs[i].key == rs[j].key ensures i == j {
      LessIrreflexive(rs[i].key);
    }
  }

  /** The finite map a run denotes. */
  ghost function ToMap(rs: seq<Record>): (m: map<Bytes, Cell>)
    requires Sorted(rs)
    ensures forall i :: 0 <= i < |rs| ==> rs[i].key in m && m[rs[i].key] == rs[i].cell
    ensures forall k :: k in m <==> HasKey(rs, k)
  {
    hide Less;
    SortedDistinct(rs);
    var keys := set i | 0 <= i < |rs| :: rs[i].key;
    map k | k in keys :: var i :| 0 <= i < |rs| && rs[i].key == k; rs[i].cell
  }

  /** The user-visible part of a map of cells: tombstones disappear. */
  ghost function Visible(m: map<Bytes, Cell>): (v: map<Bytes, Bytes>) {
    map k | k in m && m[k].Live? :: m[k].value
  }

  /** The bindings that are not deletion markers. */
  ghost function LiveOnly(m: map<Bytes, Cell>): map<Bytes, Cell> {
    map k | k in m && m[k].Live? :: m[k]
  }

  /** The effect of one write on a map of cells and on what a user sees. */
  ghost function Apply(m: map<Bytes, Cell>, r: Record): map<Bytes, Cell> {
    m[r.key := r.cell]
  }

  ghost function ApplyVisible(v: map<Bytes, Bytes>, r: Record): map<Bytes, Bytes> {
    if r.cell.Live? then v[r.key := r.cell.value] else v - {r.key}
  }

  lemma {:induction false} VisibleApply(m: map<Bytes, Cell>, r: Record)
    ensures Visible(Apply(m, r)) == ApplyVisible(Visible(m), r)
  {
  }

  /** Dropping deletion markers at the bottom is invisible under any overlay. */
  lemma {:induction false} VisibleOverlay(m: map<Bytes, Cell>, m': map<Bytes, Cell>, upper: map<Bytes, Cell>)
    requires Visible(m) == Visible(m')
    ensures Visible(m + upper) == Visible(m' + upper)
  {
    forall k ensures k in Visible(m + upper) <==> k in Visible(m' + upper) {
      assert k in Visible(m) <==> k in Visible(m');
    }
    forall k | k in Visible(m + upper) ensures Visible(m + upper)[k] == Visible(m' + upper)[k] {
      assert k !in upper ==> Visible(m)[k] == Visible(m')[k];
    }
  }

  /** The cell a run holds for `k`, if any. */
  ghost function Lookup(rs: seq<Record>, k: Bytes): Option<Cell>
    requires Sorted(rs)
  {
    if k in ToMap(rs) then Some(ToMap(rs)[k]) else None
  }

  /** The first record carries the least key of the run. */
  lemma {:induction false} FirstIsLeast(rs: seq<Record>, k: Bytes)
    requires Sorted(rs) && rs != [] && k in ToMap(rs)
    ensures LessEq(rs[0].key, k)
  {
    hide Less;
    var i :| 0 <= i < |rs| && rs[i].key == k;
    if i > 0 {
      assert Less(rs[0].key, rs[i].key);
    }
  }

  /** A map binding exactly the records of a run is the map the run denotes. */
  lemma {:induction false} DenotesExactly(rs: seq<Record>, m: map<Bytes, Cell>)
    requires Sorted(rs)
    requires forall i :: 0 <= i < |rs| ==> rs[i].key in m && m[rs[i].key] == rs[i].cell
    requires forall k :: k in m ==> HasKey(rs, k)
    ensures ToMap(rs) == m
  {
    hide Less;
    hide ToMap;
    forall k | k in ToMap(rs) ensures k in m && m[k] == ToMap(rs)[k] {
      var i :| 0 <= i < |rs| && rs[i].key == k;
    }
  }

  /** Inserting a record at its sorted position keeps the run sorted. */
  lemma {:induction false} InsertSorted(rs: seq<Record>, q: nat, r: Record)
    requires Sorted(rs) && q <= |rs|
    requires forall i :: 0 <= i < q ==> Less(rs[i].key, r.key)
    requires forall i :: q <= i < |rs| ==> Less(r.key, rs[i].key)
    ensures Sorted(rs[..q] + [r] + rs[q..])
  {
    hide Less;
  }

  /** ... and adds exactly that binding. */
  lemma {:induction false} InsertDenotes(rs: seq<Record>, q: nat, r: Record)
    requires Sorted(rs) && q <= |rs|
    requires forall i :: 0 <= i < q ==> Less(rs[i].key, r.key)
    requires forall i :: q <= i < |rs| ==> Less(r.key, rs[i].key)
    ensures Sorted(rs[..q] + [r] + rs[q..])
    ensures ToMap(rs[..q] + [r] + rs[q..]) == ToMap(rs)[r.key := r.cell]
  {
    hide Less;
    hide ToMap;
    InsertSorted(rs, q, r);
    var t := rs[..q] + [r] + rs[q..];
    SortedDistinct(t);
    assert t[q] == r;
    var m := ToMap(rs)[r.key := r.cell];
    forall i | 0 <= i < |t| ensures t[i].key in m && m[t[i].key] == t[i].cell {
      assert i == q || t[i] == rs[if i < q then i else i - 1];
    }
    forall k | k in m ensures HasKey(t, k) {
      if k != r.key {
        var i :| 0 <= i < |rs| && rs[i].key == k;
        assert t[if i < q then i else i + 1] == rs[i];
      }
    }
    DenotesExactly(t, m);
  }

  /** Replacing the cell at a position rebinds exactly that key. */
  lemma {:induction false} UpdateDenotes(rs: seq<Record>, q: nat, c: Cell)
    requires Sorted(rs) && q < |rs|
    ensures Sorted(rs[q := Record(rs[q].key, c)])
    ensures ToMap(rs[q := Record(rs[q].key, c)]) == ToMap(rs)[rs[q].key := c]
  {
    hide Less;
    hide ToMap;
    var t := rs[q := Record(rs[q].key, c)];
    assert forall i :: 0 <= i < |rs| ==> t[i].key == rs[i].key;
    SortedDistinct(rs);
    var m := ToMap(rs)[rs[q].key := c];
    forall k | k in m ensures HasKey(t, k) {
      var i :| 0 <= i < |rs| && rs[i].key == k;
      assert t[i].key == k;
    }
    DenotesExactly(t, m);
  }

  /** Where a search for `k` ends up decides membership. */
  lemma {:induction false} SearchPosition(rs: seq<Record>, q: nat, k: Bytes)
    requires Sorted(rs) && q <= |rs|
    requires q > 0 ==> Less(rs[q - 1].key, k)
    requires q < |rs| ==> !Less(rs[q].key, k)
    ensures forall i :: 0 <= i < q ==> Less(rs[i].key, k)
    ensures forall i :: q <= i < |rs| ==> !Less(rs[i].key, k)
    ensures forall i :: q < i < |rs| ==> Less(k, rs[i].key)
    ensures k in ToMap(rs) <==> q < |rs| && rs[q].key == k
  {
    hide Less;
    hide ToMap;
    forall i | 0 <= i < q ensures Less(rs[i].key, k) && rs[i].key != k {
      if i < q - 1 {
        LessTransitive(rs[i].key, rs[q - 1].key, k);
      }
      LessIrreflexive(k);
    }
    forall i | q < i < |rs| ensures Less(k, rs[i].key) && !Less(rs[i].key, k) && rs[i].key != k {
      LessTrichotomy(rs[q].key, k);
      if rs[q].key != k {
        LessTransitive(k, rs[q].key, rs[i].key);
      }
      LessTrichotomy(k, rs[i].key);
    }
  }
}
