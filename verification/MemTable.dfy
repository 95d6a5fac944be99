/** The memtable: a skip list of heap nodes, relinked in place.

    `spine` is the level-0 list with the sentinel at index 0.  Every forward pointer of
    every level is determined by the spine: at level `l` a node points to the next node
    whose tower is taller than `l`. */
module MemTable {
  import opened Bytes
  import opened Records

  const MAX_LEVEL: nat := 16

  class MemNode {
    const key: Bytes
    var value: Bytes
    var tombstone: bool
    var backward: MemNode?
    var levels: seq<MemNode?>
    ghost const height: nat

    constructor (level: nat, key: Bytes, value: Bytes, tombstone: bool)
      ensures this.key == key && this.value == value && this.tombstone == tombstone
      ensures height == level && levels == seq(level, _ => null) && backward == null
    {
      this.key, this.value, this.tombstone := key, value, tombstone;
      this.levels := seq(level, _ => null);
      this.backward := null;
      this.height := level;
    }

    ghost function Cell(): Cell
      reads this`value, this`tombstone
    {
      if tombstone then Tombstone else Live(value)
    }

    /** The node holds the record; deleted nodes drop their value. */
    ghost predicate Holds(r: Record)
      reads this`value, this`tombstone
    {
      r == Record(key, Cell()) && (tombstone ==> value == [])
    }
  }

  /** The bytes of keys and values a run holds. */
  ghost function Footprint(rs: seq<Record>): nat {
    if rs == [] then 0 else
      Footprint(rs[..|rs| - 1]) + |rs[|rs| - 1].key| +
      (if rs[|rs| - 1].cell.Live? then |rs[|rs| - 1].cell.value| else 0)
  }

  lemma {:induction false} FootprintConcat(a: seq<Record>, b: seq<Record>)
    ensures Footprint(a + b) == Footprint(a) + Footprint(b)
  {
    if b == [] {
      assert a + b == a;
    } else {
      var init := b[..|b| - 1];
      assert (a + b)[..|a + b| - 1] == a + init;
      FootprintConcat(a, init);
    }
  }

  lemma {:induction false} FootprintAround(a: seq<Record>, r: Record, b: seq<Record>)
    ensures Footprint(a + [r] + b) ==
              Footprint(a + b) + |r.key| + (if r.cell.Live? then |r.cell.value| else 0)
  {
    FootprintConcat(a + [r], b);
    FootprintConcat(a, [r]);
    FootprintConcat(a, b);
    assert [r][..0] == [];
  }

  lemma {:induction false} FootprintUpdate(rs: seq<Record>, q: nat, c: Cell)
    requires q < |rs|
    ensures Footprint(rs[q := Record(rs[q].key, c)]) - (if c.Live? then |c.value| else 0) ==
              Footprint(rs) - (if rs[q].cell.Live? then |rs[q].cell.value| else 0)
  {
    var a, b := rs[..q], rs[q + 1..];
    assert rs == a + [rs[q]] + b;
    assert rs[q := Record(rs[q].key, c)] == a + [Record(rs[q].key, c)] + b;
    FootprintAround(a, rs[q], b);
    FootprintAround(a, Record(rs[q].key, c), b);
  }

  // ----- Towers over a spine --------------------------------------------------------

  /** The first position at or after `from` whose tower is taller than `l`. */
  ghost function NextTall(s: seq<MemNode>, from: nat, l: nat): (j: nat)
    requires from <= |s|
    ensures from <= j <= |s|
    ensures j < |s| ==> s[j].height > l
    decreases |s| - from
  {
    if from == |s| || s[from].height > l then from else NextTall(s, from + 1, l)
  }

  /** Everything skipped is too short. */
  lemma {:induction false} NextTallSkips(s: seq<MemNode>, from: nat, l: nat)
    requires from <= |s|
    ensures forall k :: from <= k < NextTall(s, from, l) ==> s[k].height <= l
    decreases |s| - from
  {
    if from < |s| && s[from].height <= l {
      NextTallSkips(s, from + 1, l);
    }
  }

  lemma {:induction false} NextTallLeast(s: seq<MemNode>, from: nat, l: nat, k: nat)
    requires from <= k < |s| && s[k].height > l
    ensures NextTall(s, from, l) <= k
  {
    hide NextTall;
    NextTallSkips(s, from, l);
  }

  lemma {:induction false} NextTallUnique(s: seq<MemNode>, from: nat, l: nat, j: nat)
    requires from <= j <= |s|
    requires j < |s| ==> s[j].height > l
    requires forall k :: from <= k < j ==> s[k].height <= l
    ensures NextTall(s, from, l) == j
  {
    hide NextTall;
    NextTallSkips(s, from, l);
  }

  ghost function At(s: seq<MemNode>, j: nat): MemNode?
    requires j <= |s|
  {
    if j < |s| then s[j] else null
  }

  ghost function Inserted(s: seq<MemNode>, q: nat, node: MemNode): (t: seq<MemNode>)
    requires q <= |s|
    ensures |t| == |s| + 1
    ensures forall i {:trigger t[i]} :: 0 <= i < |t| ==>
              t[i] == if i < q then s[i] else if i == q then node else s[i - 1]
  {
    s[..q] + [node] + s[q..]
  }

  /** How one more tower at position `q` changes the successor at level `l`, seen from a
      position before it ... */
  lemma {:induction false} SuccessorInserted(s: seq<MemNode>, q: nat, node: MemNode, from: nat, l: nat)
    requires from <= q <= |s|
    ensures var t, j := Inserted(s, q, node), NextTall(s, from, l);
            At(t, NextTall(t, from, l)) == if j < q || node.height <= l then At(s, j) else node
  {
    hide NextTall;
    hide Inserted;
    var t, j := Inserted(s, q, node), NextTall(s, from, l);
    NextTallSkips(s, from, l);
    NextTallUnique(t, from, l, if j < q then j else if node.height > l then q else j + 1);
  }

  /** ... or from a position behind it. */
  lemma {:induction false} SuccessorShifted(s: seq<MemNode>, q: nat, node: MemNode, from: nat, l: nat)
    requires q <= from <= |s|
    ensures var t := Inserted(s, q, node);
            At(t, NextTall(t, from + 1, l)) == At(s, NextTall(s, from, l))
  {
    hide NextTall;
    hide Inserted;
    NextTallSkips(s, from, l);
    NextTallUnique(Inserted(s, q, node), from + 1, l, NextTall(s, from, l) + 1);
  }

  // ----- Search paths ---------------------------------------------------------------

  /** `u` is where the search for `key` leaves level `l`: the last tower taller than `l`
      that still lies before `key`. */
  ghost predicate Leaves(s: seq<MemNode>, key: Bytes, l: nat, u: nat) {
    && u < |s| && s[u].height > l
    && (u > 0 ==> Less(s[u].key, key))
    && (var j := NextTall(s, u + 1, l); j < |s| ==> !Less(s[j].key, key))
  }

  ghost predicate KeysSorted(s: seq<MemNode>) {
    forall i, j :: 1 <= i < j < |s| ==> Less(s[i].key, s[j].key)
  }

  /** Nothing taller than `l` stands between the departure point at level `l` and the
      departure point at level 0. */
  lemma {:induction false} LeavesNested(s: seq<MemNode>, key: Bytes, l: nat, u: nat, u0: nat)
    requires KeysSorted(s) && Leaves(s, key, l, u) && Leaves(s, key, 0, u0)
    ensures u <= u0 < NextTall(s, u + 1, l)
  {
    hide Less;
    var j := NextTall(s, u + 1, l);
    if j < |s| && j <= u0 {
      if j < u0 {
        LessTransitive(s[j].key, s[u0].key, key);
      }
      assert false;
    }
    if u0 < u {
      var j0 := NextTall(s, u0 + 1, 0);
      NextTallLeast(s, u0 + 1, 0, u);
      if j0 < u {
        LessTransitive(s[j0].key, s[u].key, key);
      }
      assert false;
    }
  }

  /** Below the new tower, only the departure points are redirected. */
  lemma {:induction false} LinkBefore(s: seq<MemNode>, q: nat, node: MemNode, i: nat, l: nat, u: nat)
    requires KeysSorted(s) && i < q <= |s| && s[i].height > l
    requires Leaves(s, node.key, 0, q - 1)
    requires l < node.height ==> u < |s| && s[u].height > l && Leaves(s, node.key, l, u)
    ensures At(Inserted(s, q, node), NextTall(Inserted(s, q, node), i + 1, l)) ==
              if l < node.height && u == i then node else At(s, NextTall(s, i + 1, l))
  {
    hide Less;
    hide NextTall;
    hide Leaves;
    hide KeysSorted;
    hide Inserted;
    hide At;
    SuccessorInserted(s, q, node, i + 1, l);
    if l < node.height {
      LeavesNested(s, node.key, l, u, q - 1);
      if i < u {
        NextTallLeast(s, i + 1, l, u);
      } else if u < i {
        NextTallLeast(s, u + 1, l, i);
      }
    }
  }

  /** The new tower takes over the successors of its departure points. */
  lemma {:induction false} LinkAt(s: seq<MemNode>, q: nat, node: MemNode, l: nat, u: nat)
    requires KeysSorted(s) && 0 < q <= |s|
    requires Leaves(s, node.key, 0, q - 1) && Leaves(s, node.key, l, u)
    ensures At(Inserted(s, q, node), NextTall(Inserted(s, q, node), q + 1, l)) ==
              At(s, NextTall(s, u + 1, l))
  {
    hide Less;
    hide NextTall;
    hide KeysSorted;
    hide Inserted;
    hide At;
    SuccessorShifted(s, q, node, q, l);
    LeavesNested(s, node.key, l, u, q - 1);
    NextTallSkips(s, u + 1, l);
    NextTallUnique(s, q, l, NextTall(s, u + 1, l));
  }

  /** Towers behind the new one keep their successors. */
  lemma {:induction false} LinkAfter(s: seq<MemNode>, q: nat, node: MemNode, i: nat, l: nat, u: nat)
    requires KeysSorted(s) && 0 < q <= i < |s|
    requires Leaves(s, node.key, 0, q - 1)
    requires l < node.height ==> Leaves(s, node.key, l, u)
    ensures At(Inserted(s, q, node), NextTall(Inserted(s, q, node), i + 2, l)) ==
              At(s, NextTall(s, i + 1, l))
    ensures l < node.height ==> u != i
  {
    hide NextTall;
    hide Leaves;
    hide KeysSorted;
    hide Inserted;
    hide At;
    SuccessorShifted(s, q, node, i + 1, l);
    if l < node.height {
      LeavesNested(s, node.key, l, u, q - 1);
    }
  }

  /** All forward pointers of a spine, as a value. */
  ghost function Rows(s: seq<MemNode>): (rows: seq<seq<MemNode?>>)
    reads (set x | x in s)`levels
    ensures |rows| == |s|
    ensures forall i {:trigger rows[i]} :: 0 <= i < |s| ==> rows[i] == s[i].levels
  {
    if s == [] then [] else Rows(s[..|s| - 1]) + [s[|s| - 1].levels]
  }

  ghost predicate RowsFit(s: seq<MemNode>, rows: seq<seq<MemNode?>>) {
    && |rows| == |s|
    && (forall i {:trigger rows[i]} :: 0 <= i < |s| ==> |rows[i]| == s[i].height)
    && forall i, l {:trigger rows[i][l]} :: 0 <= i < |s| && 0 <= l < |rows[i]| ==>
         rows[i][l] == At(s, NextTall(s, i + 1, l))
  }

  /** The relinking loop turns rows that fit the spine into rows that fit the spine with the
      new tower in it. */
  lemma {:induction false} SplicedRows(s: seq<MemNode>, vs: seq<nat>, node: MemNode,
                    was: seq<seq<MemNode?>>, now: seq<seq<MemNode?>>, own: seq<MemNode?>)
    requires KeysSorted(s) && RowsFit(s, was) && |now| == |s|
    requires 1 <= |own| == node.height <= |vs|
    requires forall l :: 0 <= l < |vs| ==> vs[l] < |s| && s[vs[l]].height > l && Leaves(s, node.key, l, vs[l])
    requires forall i {:trigger now[i]} :: 0 <= i < |s| ==> |now[i]| == s[i].height
    requires forall l :: 0 <= l < node.height ==> own[l] == was[vs[l]][l]
    requires forall i, l {:trigger now[i][l]} :: 0 <= i < |s| && 0 <= l < |now[i]| ==>
               now[i][l] == if l < node.height && vs[l] == i then node else was[i][l]
    ensures var q := vs[0] + 1;
            RowsFit(Inserted(s, q, node), now[..q] + [own] + now[q..])
  {
    hide Less;
    hide NextTall;
    hide KeysSorted;
    hide Leaves;
    hide Inserted;
    var q := vs[0] + 1;
    var t, rows := Inserted(s, q, node), now[..q] + [own] + now[q..];
    forall i, l | 0 <= i < |t| && 0 <= l < |rows[i]| ensures rows[i][l] == At(t, NextTall(t, i + 1, l)) {
      if i < q {
        assert rows[i] == now[i] && was[i][l] == At(s, NextTall(s, i + 1, l));
        LinkBefore(s, q, node, i, l, if l < node.height then vs[l] else 0);
      } else if i == q {
        assert was[vs[l]][l] == At(s, NextTall(s, vs[l] + 1, l));
        LinkAt(s, q, node, l, vs[l]);
      } else {
        assert rows[i] == now[i - 1] && was[i - 1][l] == At(s, NextTall(s, i, l));
        LinkAfter(s, q, node, i - 1, l, if l < node.height then vs[l] else 0);
      }
    }
  }

  /** The new key belongs at position `q` of the sorted spine. */
  lemma {:induction false} InsertedSorted(s: seq<MemNode>, q: nat, node: MemNode)
    requires KeysSorted(s) && 0 < q <= |s| && Leaves(s, node.key, 0, q - 1)
    requires forall i :: 0 <= i < |s| ==> s[i].height > 0
    requires q < |s| ==> s[q].key != node.key
    ensures forall i :: 1 <= i < q ==> Less(s[i].key, node.key)
    ensures forall i :: q <= i < |s| ==> Less(node.key, s[i].key)
    ensures KeysSorted(Inserted(s, q, node))
  {
    hide Less;
    forall i | 1 <= i < q ensures Less(s[i].key, node.key) {
      if i < q - 1 {
        LessTransitive(s[i].key, s[q - 1].key, node.key);
      }
    }
    forall i | q <= i < |s| ensures Less(node.key, s[i].key) {
      assert NextTall(s, q, 0) == q;
      LessTrichotomy(s[q].key, node.key);
      if q < i {
        LessTransitive(node.key, s[q].key, s[i].key);
      }
    }
  }

  /** Every pointer of every level leads to the next tower tall enough. */
  ghost predicate LinkedOver(s: seq<MemNode>)
    reads (set x | x in s)`levels
  {
    RowsFit(s, Rows(s))
  }

  lemma {:induction false} Follow(s: seq<MemNode>, i: nat, l: nat)
    requires LinkedOver(s) && i < |s| && l < s[i].height
    ensures |s[i].levels| == s[i].height
    ensures s[i].levels[l] == At(s, NextTall(s, i + 1, l))
  {
    hide NextTall;
    assert Rows(s)[i] == s[i].levels;
    assert Rows(s)[i][l] == At(s, NextTall(s, i + 1, l));
  }

  lemma {:induction false} RowLengths(s: seq<MemNode>)
    requires LinkedOver(s)
    ensures forall i :: 0 <= i < |s| ==> |s[i].levels| == s[i].height
  {
    hide Rows;
    hide NextTall;
    forall i | 0 <= i < |s| ensures |s[i].levels| == s[i].height {
      assert Rows(s)[i] == s[i].levels;
    }
  }

  lemma {:induction false} RowsInserted(s: seq<MemNode>, q: nat, node: MemNode, t: seq<MemNode>, rows: seq<seq<MemNode?>>)
    requires q <= |s| && t == Inserted(s, q, node)
    requires rows == Rows(s)[..q] + [node.levels] + Rows(s)[q..]
    ensures Rows(t) == rows
  {
    hide Rows;
    hide Inserted;
    forall i | 0 <= i < |t| ensures Rows(t)[i] == rows[i] {
      if i < q {
        assert t[i] == s[i] && rows[i] == Rows(s)[i];
      } else if i > q {
        assert t[i] == s[i - 1] && rows[i] == Rows(s)[i - 1];
      }
    }
  }

  /** Backward pointers invert the level-0 list; its first node has none. */
  ghost predicate BackwardOver(s: seq<MemNode>)
    reads (set x | x in s)`backward
  {
    forall i {:trigger s[i].backward} :: 1 <= i < |s| ==>
      s[i].backward == if i == 1 then null else s[i - 1]
  }

  /** The records the nodes behind the sentinel hold, in order. */
  ghost predicate HoldsOver(s: seq<MemNode>, entries: seq<Record>)
    reads (set x | x in s)`value, (set x | x in s)`tombstone
  {
    |entries| + 1 == |s| && forall i {:trigger entries[i]} :: 0 <= i < |entries| ==> s[i + 1].Holds(entries[i])
  }

  lemma {:induction false} HoldsInserted(s: seq<MemNode>, entries: seq<Record>, q: nat, node: MemNode,
                      t: seq<MemNode>, es: seq<Record>)
    requires HoldsOver(s, entries) && 0 < q <= |s|
    requires node.tombstone ==> node.value == []
    requires t == Inserted(s, q, node)
    requires es == entries[..q - 1] + [Record(node.key, node.Cell())] + entries[q - 1..]
    ensures HoldsOver(t, es)
  {
    hide Inserted;
    forall i | 0 <= i < |es| ensures t[i + 1].Holds(es[i]) {
      if i + 1 < q {
        assert es[i] == entries[i] && t[i + 1] == s[i + 1];
      } else if i + 1 == q {
        assert es[i] == Record(node.key, node.Cell()) && t[i + 1] == node;
      } else {
        assert es[i] == entries[i - 1] && t[i + 1] == s[i];
      }
    }
  }

  // ----- The memtable ---------------------------------------------------------------

  class MemTable {
    var head: MemNode
    var tail: MemNode?
    var level: nat
    var length: nat
    var size: int
    var frozen: bool
    ghost var spine: seq<MemNode>
    ghost var entries: seq<Record>

    /** Keys and tower heights, which never change once a node is built. */
    ghost predicate Ordered()
      reads this`head, this`level, this`spine
    {
      && |spine| > 0 && spine[0] == head
      && head.height == MAX_LEVEL && 1 <= level <= MAX_LEVEL
      && (forall i :: 1 <= i < |spine| ==> spine[i] != head && 1 <= spine[i].height <= level)
      && KeysSorted(spine)
    }

    /** Backward pointers invert level 0; tail and length are exact. */
    ghost predicate Backlinked()
      reads this`tail, this`length, this`spine, (set x | x in spine)`backward
    {
      && BackwardOver(spine)
      && tail == (if |spine| <= 1 then null else spine[|spine| - 1])
      && length == |spine| - 1
    }

    ghost predicate Valid()
      reads this`head, this`tail, this`level, this`length, this`spine, this`entries, spine
    {
      Ordered() && LinkedOver(spine) && Backlinked() && HoldsOver(spine, entries)
    }

    /** The finite map of latest writes, deletions included. */
    ghost function Contents(): map<Bytes, Cell>
      requires Valid()
      reads this`head, this`tail, this`level, this`length, this`spine, this`entries, spine
    {
      EntriesSorted();
      ToMap(entries)
    }

    lemma {:induction false} EntriesSorted()
      requires Valid()
      ensures Sorted(entries)
    {
      hide Less;
      forall i, j | 0 <= i < j < |entries| ensures Less(entries[i].key, entries[j].key) {
        assert entries[i].key == spine[i + 1].key && entries[j].key == spine[j + 1].key;
      }
    }

    constructor ()
      ensures Valid() && fresh(spine) && Contents() == map[] && !frozen
    {
      var h := new MemNode(MAX_LEVEL, [], [], false);
      head := h;
      tail := null;
      level, length, size, frozen := 1, 0, 0, false;
      spine, entries := [h], [];
    }

    method FindPath(key: Bytes) returns (update: seq<MemNode?>, found: MemNode?, ghost us: seq<nat>)
      requires Valid()
      ensures |update| == MAX_LEVEL && |us| == level > 0
      ensures forall l :: 0 <= l < level ==> Leaves(spine, key, l, us[l]) && update[l] == spine[us[l]]
      ensures found == if us[0] + 1 < |spine| && spine[us[0] + 1].key == key then spine[us[0] + 1] else null
    {
      hide Less;
      hide KeysSorted;
      hide Backlinked;
      hide HoldsOver;
      hide LinkedOver;
      hide NextTall;
      update := seq(MAX_LEVEL, _ => null);
      us := seq(level, _ => 0);
      var x: MemNode := head;
      ghost var p: nat := 0;
      var l := level;
      while l > 0
        invariant 0 <= l <= level && |update| == MAX_LEVEL && |us| == level
        invariant p < |spine| && x == spine[p] && x.height >= l && (p > 0 ==> Less(x.key, key))
        invariant l == 0 ==> Leaves(spine, key, 0, p)
        invariant forall k :: l <= k < level ==> Leaves(spine, key, k, us[k]) && update[k] == spine[us[k]]
        invariant l < level ==> p == us[l]
      {
        l := l - 1;
        Follow(spine, p, l);
        while x.levels[l] != null && Less(x.levels[l].key, key)
          invariant p < |spine| && x == spine[p] && x.height > l && (p > 0 ==> Less(x.key, key))
          invariant |x.levels| == x.height && x.levels[l] == At(spine, NextTall(spine, p + 1, l))
          decreases |spine| - p
        {
          p := NextTall(spine, p + 1, l);
          x := x.levels[l];
          Follow(spine, p, l);
        }
        update := update[l := x];
        us := us[l := p];
      }
      Follow(spine, p, 0);
      NextTallUnique(spine, p + 1, 0, p + 1);
      var next := x.levels[0];
      found := if next != null && next.key == key then next else null;
    }

    lemma {:induction false} SpineDistinct()
      requires Ordered()
      ensures forall i, j :: 0 <= i < |spine| && 0 <= j < |spine| && spine[i] == spine[j] ==> i == j
    {
      hide Less;
      forall i, j | 0 <= i < |spine| && 0 <= j < |spine| && spine[i] == spine[j] ensures i == j {
        LessIrreflexive(spine[i].key);
      }
    }

    /** The relinking loop: level by level, splice the new tower in behind its predecessor. */
    method WireForward(node: MemNode, update: seq<MemNode?>, ghost us: seq<nat>)
      requires node !in spine && node.height <= |us| <= |update| && |node.levels| == node.height
      requires forall i :: 0 <= i < |spine| ==> |spine[i].levels| == spine[i].height
      requires forall i, j :: 0 <= i < |spine| && 0 <= j < |spine| && spine[i] == spine[j] ==> i == j
      requires forall l :: 0 <= l < node.height ==>
                 us[l] < |spine| && update[l] == spine[us[l]] && spine[us[l]].height > l
      modifies node`levels, (set x | x in spine)`levels
      ensures |node.levels| == node.height
      ensures forall l :: 0 <= l < node.height ==> node.levels[l] == old(spine[us[l]].levels[l])
      ensures forall i :: 0 <= i < |spine| ==> |spine[i].levels| == spine[i].height
      ensures forall i, l {:trigger spine[i].levels[l]} :: 0 <= i < |spine| && 0 <= l < spine[i].height ==>
                spine[i].levels[l] ==
                  if l < node.height && us[l] == i then node else old(spine[i].levels[l])
    {
      var l := 0;
      while l < |node.levels|
        invariant 0 <= l <= |node.levels| == node.height
        invariant forall k :: 0 <= k < l ==> node.levels[k] == old(spine[us[k]].levels[k])
        invariant forall i :: 0 <= i < |spine| ==> |spine[i].levels| == spine[i].height
        invariant forall i, k {:trigger spine[i].levels[k]} :: 0 <= i < |spine| && 0 <= k < spine[i].height ==>
                    spine[i].levels[k] ==
                      if k < l && us[k] == i then node else old(spine[i].levels[k])
      {
        var pred: MemNode := update[l];
        node.levels := node.levels[l := pred.levels[l]];
        pred.levels := pred.levels[l := node];
        l := l + 1;
      }
    }

    /** Raise the active height to the new tower's, with the sentinel as the missing
        predecessor. */
    method RaiseLevel(node: MemNode, update: seq<MemNode?>, ghost us: seq<nat>)
      returns (preds: seq<MemNode?>, ghost vs: seq<nat>)
      requires Ordered() && |update| == MAX_LEVEL && |us| == level
      requires 1 <= |node.levels| == node.height <= MAX_LEVEL
      requires forall l :: 0 <= l < level ==> Leaves(spine, node.key, l, us[l]) && update[l] == spine[us[l]]
      modifies this`level
      ensures Ordered() && node.height <= level && us[0] < |spine|
      ensures |preds| == MAX_LEVEL && |vs| == level && vs[0] == us[0]
      ensures forall l :: 0 <= l < level ==> Leaves(spine, node.key, l, vs[l]) && preds[l] == spine[vs[l]]
    {
      hide Less;
      preds, vs := update, us;
      if |node.levels| > level {
        var l := level;
        while l < |node.levels|
          invariant level <= l <= |node.levels| && |preds| == MAX_LEVEL && |vs| == l && vs[0] == us[0]
          invariant forall k :: 0 <= k < l ==> Leaves(spine, node.key, k, vs[k]) && preds[k] == spine[vs[k]]
        {
          assert NextTall(spine, 1, l) == |spine|;
          preds := preds[l := head];
          vs := vs + [0];
          l := l + 1;
        }
        level := |node.levels|;
      }
    }

    /** After the relinking loop the pointers fit the spine with the new tower in it. */
    method Splice(node: MemNode, preds: seq<MemNode?>, ghost vs: seq<nat>, ghost t: seq<MemNode>)
      requires Ordered() && LinkedOver(spine) && node !in spine
      requires 1 <= |node.levels| == node.height <= |vs| <= |preds|
      requires forall l :: 0 <= l < |vs| ==> Leaves(spine, node.key, l, vs[l]) && preds[l] == spine[vs[l]]
      requires vs[0] < |spine| && t == Inserted(spine, vs[0] + 1, node)
      modifies node`levels, (set x | x in spine)`levels
      ensures |node.levels| == node.height
      ensures node.levels[0] == At(spine, vs[0] + 1)
      ensures LinkedOver(t)
    {
      hide Less;
      hide NextTall;
      hide KeysSorted;
      hide Inserted;
      hide Rows;
      hide RowsFit;
      ghost var s, q := spine, vs[0] + 1;
      SpineDistinct();
      NextTallUnique(s, q, 0, q);
      ghost var was := Rows(s);
      RowLengths(s);
      Follow(s, vs[0], 0);
      WireForward(node, preds, vs);
      ghost var now := Rows(s);
      forall i | 0 <= i < |s| ensures |now[i]| == s[i].height {
        assert now[i] == s[i].levels;
      }
      forall l | 0 <= l < node.height ensures node.levels[l] == was[vs[l]][l] {
        assert was[vs[l]] == old(s[vs[l]].levels);
      }
      forall i, l | 0 <= i < |s| && 0 <= l < |now[i]|
        ensures now[i][l] == if l < node.height && vs[l] == i then node else was[i][l]
      {
        assert now[i] == s[i].levels && was[i] == old(s[i].levels);
      }
      SplicedRows(s, vs, node, was, now, node.levels);
      RowsInserted(s, q, node, t, now[..q] + [node.levels] + now[q..]);
    }

    /** Hook the new node into the backward list, the tail and the length. */
    method LinkBackward(node: MemNode, pred: MemNode, ghost q: nat, ghost t: seq<MemNode>)
      requires Ordered() && Backlinked() && node !in spine && |node.levels| > 0
      requires 1 <= q <= |spine| && t == Inserted(spine, q, node)
      requires pred == spine[q - 1] && node.levels[0] == At(spine, q)
      modifies node`backward, (set x | x in spine)`backward, this`tail, this`length
      ensures BackwardOver(t)
      ensures tail == t[|t| - 1] && length == |t| - 1
    {
      hide Less;
      hide KeysSorted;
      hide Inserted;
      SpineDistinct();
      if pred == head {
        node.backward := null;
      } else {
        node.backward := pred;
      }
      if node.levels[0] != null {
        node.levels[0].backward := node;
      } else {
        tail := node;
      }
      tail := if tail == null then node else tail;
      length := length + 1;
    }

    /** Splice the node into both directions of the list; `t` and `es` are the new spine and
        the records it holds. */
    method Attach(node: MemNode, preds: seq<MemNode?>, ghost vs: seq<nat>,
                  ghost t: seq<MemNode>, ghost es: seq<Record>)
      requires Ordered() && LinkedOver(spine) && Backlinked() && node !in spine
      requires 1 <= |node.levels| == node.height <= level == |vs| && |preds| == MAX_LEVEL
      requires forall l :: 0 <= l < level ==> Leaves(spine, node.key, l, vs[l]) && preds[l] == spine[vs[l]]
      requires vs[0] < |spine| && t == Inserted(spine, vs[0] + 1, node)
      requires KeysSorted(t) && HoldsOver(t, es)
      modifies this`spine, this`entries, this`tail, this`length, node`levels, node`backward
      modifies (set x | x in spine)`levels, (set x | x in spine)`backward
      ensures Valid() && spine == t && entries == es
    {
      hide Less;
      hide NextTall;
      hide Inserted;
      hide Leaves;
      hide KeysSorted;
      hide LinkedOver;
      hide BackwardOver;
      hide HoldsOver;
      Splice(node, preds, vs, t);
      LinkBackward(node, preds[0], vs[0] + 1, t);
      spine, entries := t, es;
    }

    method InsertNode(node: MemNode, update: seq<MemNode?>, ghost us: seq<nat>)
      requires Valid() && node !in spine
      requires 1 <= node.height <= MAX_LEVEL && |node.levels| == node.height
      requires node.tombstone ==> node.value == []
      requires |update| == MAX_LEVEL && |us| == level
      requires forall l :: 0 <= l < level ==> Leaves(spine, node.key, l, us[l]) && update[l] == spine[us[l]]
      requires us[0] < |spine|
      requires us[0] + 1 < |spine| ==> spine[us[0] + 1].key != node.key
      modifies this, spine, node
      ensures Valid()
      ensures spine == Inserted(old(spine), us[0] + 1, node)
      ensures entries == old(entries[..us[0]] + [Record(node.key, node.Cell())] + entries[us[0]..])
      ensures size == old(size) && frozen == old(frozen) && head == old(head)
    {
      hide *;
      Parts();
      ghost var t := Inserted(spine, us[0] + 1, node);
      ghost var es := entries[..us[0]] + [Record(node.key, node.Cell())] + entries[us[0]..];
      Prepared(node, us[0], t, es);
      var preds, vs := RaiseLevel(node, update, us);
      Attach(node, preds, vs, t, es);
    }

    lemma {:induction false} Parts()
      requires Valid()
      ensures Ordered() && LinkedOver(spine) && Backlinked() && HoldsOver(spine, entries)
      ensures |entries| + 1 == |spine| && level >= 1
    {
      hide LinkedOver;
      hide Backlinked;
    }

    /** The spine with the new node in its place is sorted and holds the new run. */
    lemma {:induction false} Prepared(node: MemNode, u: nat, t: seq<MemNode>, es: seq<Record>)
      requires Valid() && u + 1 <= |spine| && Leaves(spine, node.key, 0, u)
      requires u + 1 < |spine| ==> spine[u + 1].key != node.key
      requires node.tombstone ==> node.value == []
      requires u <= |entries| && t == Inserted(spine, u + 1, node)
      requires es == entries[..u] + [Record(node.key, node.Cell())] + entries[u..]
      ensures KeysSorted(t) && HoldsOver(t, es)
    {
      hide Less;
      hide NextTall;
      hide Inserted;
      hide Leaves;
      hide KeysSorted;
      hide LinkedOver;
      hide BackwardOver;
      hide HoldsOver;
      InsertedSorted(spine, u + 1, node);
      HoldsInserted(spine, entries, u + 1, node, t, es);
    }

    static method RandomLevel() returns (level: nat)
      ensures 1 <= level <= MAX_LEVEL
    {
      level := 1;
      while level < MAX_LEVEL
        invariant 1 <= level <= MAX_LEVEL
      {
        var coin: bool := *;
        if !coin {
          break;
        }
        level := level + 1;
      }
    }

    /** Where a search path ends decides membership in the map. */
    lemma {:induction false} Located(key: Bytes, u: nat)
      requires Valid() && Leaves(spine, key, 0, u)
      ensures u <= |entries|
      ensures forall i :: 0 <= i < u ==> Less(entries[i].key, key)
      ensures forall i :: u <= i < |entries| ==> !Less(entries[i].key, key)
      ensures key in Contents() <==> u < |entries| && entries[u].key == key
      ensures key in Contents() ==> Contents()[key] == entries[u].cell
      ensures u < |entries| ==> entries[u].key == spine[u + 1].key
    {
      hide Less;
      hide ToMap;
      EntriesSorted();
      assert u > 0 ==> entries[u - 1].key == spine[u].key;
      assert u < |entries| ==> entries[u].key == spine[u + 1].key && NextTall(spine, u + 1, 0) == u + 1;
      SearchPosition(entries, u, key);
    }

    lemma {:induction false} NotFoundGap(key: Bytes, u: nat)
      requires Valid() && Leaves(spine, key, 0, u)
      requires u + 1 < |spine| ==> spine[u + 1].key != key
      ensures u <= |entries|
      ensures forall i :: 0 <= i < u ==> Less(entries[i].key, key)
      ensures forall i :: u <= i < |entries| ==> Less(key, entries[i].key)
    {
      hide Less;
      Located(key, u);
      EntriesSorted();
      if u < |entries| {
        SearchPosition(entries, u, key);
        LessTrichotomy(entries[u].key, key);
      }
    }

    /** What the node a search returns says about the map. */
    lemma {:induction false} PathEnd(key: Bytes, u: nat, found: MemNode?)
      requires Valid() && Leaves(spine, key, 0, u)
      requires found == if u + 1 < |spine| && spine[u + 1].key == key then spine[u + 1] else null
      ensures u < |spine| && |spine| == |entries| + 1
      ensures found == null ==> key !in Contents() && (u + 1 < |spine| ==> spine[u + 1].key != key)
      ensures found != null ==>
                && u < |entries| && found == spine[u + 1] && found.key == key && entries[u].key == key
                && key in Contents() && Contents()[key] == entries[u].cell
                && (if found.tombstone then entries[u].cell == Tombstone && found.value == []
                                       else entries[u].cell == Live(found.value))
    {
      hide Less;
      hide ToMap;
      Located(key, u);
    }

    method SetCell(found: MemNode, ghost q: nat, value: Bytes, tombstone: bool)
      requires HoldsOver(spine, entries) && q < |entries| && found == spine[q + 1]
      requires forall i, j :: 0 <= i < |spine| && 0 <= j < |spine| && spine[i] == spine[j] ==> i == j
      requires tombstone ==> value == []
      modifies found`value, found`tombstone, this`entries
      ensures HoldsOver(spine, entries)
      ensures entries == old(entries)[q := Record(found.key, if tombstone then Tombstone else Live(value))]
    {
      found.value := value;
      found.tombstone := tombstone;
      entries := entries[q := Record(found.key, if tombstone then Tombstone else Live(value))];
      forall i {:trigger entries[i]} | 0 <= i < |entries| ensures spine[i + 1].Holds(entries[i]) {
        assert old(spine[i + 1].Holds(entries[i]));
        assert i != q ==> spine[i + 1] != found;
      }
    }

    /** Rewrite the node a search found. */
    method Overwrite(found: MemNode, ghost q: nat, value: Bytes, tombstone: bool)
      requires Valid() && q < |entries| && found == spine[q + 1] && found.key == entries[q].key
      requires tombstone ==> value == []
      modifies found`value, found`tombstone, this`entries
      ensures Valid()
      ensures entries == old(entries)[q := Record(found.key, if tombstone then Tombstone else Live(value))]
      ensures Contents() == old(Contents())[found.key := if tombstone then Tombstone else Live(value)]
    {
      hide Less;
      hide NextTall;
      hide KeysSorted;
      hide LinkedOver;
      hide BackwardOver;
      hide HoldsOver;
      hide ToMap;
      SpineDistinct();
      EntriesSorted();
      UpdateDenotes(entries, q, if tombstone then Tombstone else Live(value));
      SetCell(found, q, value, tombstone);
    }

    /** Insert a node for a key the search did not find. */
    method InsertNew(key: Bytes, value: Bytes, tombstone: bool, update: seq<MemNode?>, ghost us: seq<nat>)
      requires Valid() && (tombstone ==> value == [])
      requires |update| == MAX_LEVEL && |us| == level
      requires forall l :: 0 <= l < level ==> Leaves(spine, key, l, us[l]) && update[l] == spine[us[l]]
      requires us[0] < |spine|
      requires us[0] + 1 < |spine| ==> spine[us[0] + 1].key != key
      modifies this, spine
      ensures Valid() && fresh((set x | x in spine) - old(set x | x in spine))
      ensures us[0] <= |old(entries)|
      ensures entries == old(entries)[..us[0]] + [Record(key, if tombstone then Tombstone else Live(value))] + old(entries)[us[0]..]
      ensures Contents() == old(Contents())[key := if tombstone then Tombstone else Live(value)]
      ensures size == old(size) && frozen == old(frozen)
    {
      hide Less;
      hide NextTall;
      hide Leaves;
      hide Valid;
      hide Contents;
      hide ToMap;
      ghost var r := Record(key, if tombstone then Tombstone else Live(value));
      Parts();
      Gap(r, us[0]);
      var h := RandomLevel();
      var node := new MemNode(h, key, value, tombstone);
      InsertNode(node, update, us);
      ContentsOf();
    }

    lemma {:induction false} ContentsOf()
      requires Valid()
      ensures Sorted(entries) && Contents() == ToMap(entries)
    {
      EntriesSorted();
    }

    /** A record in the gap where its key was not found extends the map. */
    lemma {:induction false} Gap(r: Record, u: nat)
      requires Valid() && Leaves(spine, r.key, 0, u)
      requires u + 1 < |spine| ==> spine[u + 1].key != r.key
      ensures u <= |entries| && Sorted(entries[..u] + [r] + entries[u..])
      ensures ToMap(entries[..u] + [r] + entries[u..]) == Contents()[r.key := r.cell]
    {
      hide Less;
      hide ToMap;
      hide Leaves;
      EntriesSorted();
      NotFoundGap(r.key, u);
      InsertDenotes(entries, u, r);
    }

    /** Bind `key` to `value`, whatever the map said before.  The size counter grows with the
        bytes held, except that reviving a deleted key counts the key once more. */
    method Put(key: Bytes, value: Bytes)
      requires Valid() && !frozen
      modifies this, spine
      ensures Valid() && !frozen && fresh((set x | x in spine) - old(set x | x in spine))
      ensures Contents() == old(Contents())[key := Live(value)]
      ensures size - Footprint(entries) == old(size - Footprint(entries)) +
                (if key in old(Contents()) && old(Contents())[key].Tombstone? then |key| else 0)
    {
      hide *;
      var update, found, us := FindPath(key);
      PathEnd(key, us[0], found);
      if found != null {
        var oldValueLen := |found.value|;
        var wasTombstone := found.tombstone;
        FootprintUpdate(entries, us[0], Live(value));
        Overwrite(found, us[0], value, false);
        size := size + |value| - oldValueLen;
        if wasTombstone {
          size := size + |key|;
        }
        return;
      }
      FootprintAround(entries[..us[0]], Record(key, Live(value)), entries[us[0]..]);
      assert entries[..us[0]] + entries[us[0]..] == entries;
      InsertNew(key, value, false, update, us);
      size := size + |key| + |value|;
    }

    /** Bind `key` to a deletion marker, also when it was never written. */
    method Delete(key: Bytes)
      requires Valid() && !frozen
      modifies this, spine
      ensures Valid() && !frozen && fresh((set x | x in spine) - old(set x | x in spine))
      ensures Contents() == old(Contents())[key := Tombstone]
      ensures size - Footprint(entries) == old(size - Footprint(entries))
    {
      hide *;
      var update, found, us := FindPath(key);
      PathEnd(key, us[0], found);
      if found != null {
        if found.tombstone {
          assert Contents()[key := Tombstone] == Contents();
          return;
        }
        size := size - |found.value|;
        FootprintUpdate(entries, us[0], Tombstone);
        Overwrite(found, us[0], [], true);
        return;
      }
      FootprintAround(entries[..us[0]], Record(key, Tombstone), entries[us[0]..]);
      assert entries[..us[0]] + entries[us[0]..] == entries;
      InsertNew(key, [], true, update, us);
      size := size + |key|;
    }

    /** Latest write to `key`: a value, a deletion, or nothing. */
    method Get(key: Bytes) returns (value: Bytes, found: bool, tombstone: bool)
      requires Valid()
      ensures found <==> key in Contents()
      ensures found && tombstone ==> Contents()[key] == Tombstone && value == []
      ensures found && !tombstone ==> Contents()[key] == Live(value)
      ensures !found ==> !tombstone && value == []
    {
      hide *;
      var _, node, us := FindPath(key);
      PathEnd(key, us[0], node);
      if node == null {
        return [], false, false;
      }
      if node.tombstone {
        return [], true, true;
      }
      return node.value, true, false;
    }

    /** The node of the first entry at or above `key`; `q` is its position. */
    method SeekNode(key: Bytes) returns (node: MemNode?, ghost q: nat)
      requires Valid()
      ensures q <= |entries| && |spine| == |entries| + 1
      ensures node == At(spine, q + 1)
      ensures forall i :: 0 <= i < q ==> Less(entries[i].key, key)
      ensures forall i :: q <= i < |entries| ==> !Less(entries[i].key, key)
    {
      hide Less;
      hide KeysSorted;
      hide Backlinked;
      hide ToMap;
      var x: MemNode := head;
      ghost var p: nat := 0;
      var l := level;
      while l > 0
        invariant 0 <= l <= level
        invariant p < |spine| && x == spine[p] && x.height >= l && (p > 0 ==> Less(x.key, key))
        invariant l == 0 ==> Leaves(spine, key, 0, p)
      {
        l := l - 1;
        Follow(spine, p, l);
        while x.levels[l] != null && Less(x.levels[l].key, key)
          invariant p < |spine| && x == spine[p] && x.height > l && (p > 0 ==> Less(x.key, key))
          invariant |x.levels| == x.height && x.levels[l] == At(spine, NextTall(spine, p + 1, l))
          decreases |spine| - p
        {
          p := NextTall(spine, p + 1, l);
          x := x.levels[l];
          Follow(spine, p, l);
        }
      }
      Located(key, p);
      Follow(spine, p, 0);
      NextTallUnique(spine, p + 1, 0, p + 1);
      node, q := x.levels[0], p;
    }

    /** The contents in key order. */
    method Snapshot() returns (rs: seq<Record>)
      requires Valid()
      ensures rs == entries && Sorted(rs) && ToMap(rs) == Contents() && |rs| == length
    {
      hide Less;
      hide NextTall;
      hide KeysSorted;
      hide BackwardOver;
      hide ToMap;
      EntriesSorted();
      Follow(spine, 0, 0);
      NextTallUnique(spine, 1, 0, 1);
      rs := [];
      var x := head.levels[0];
      while x != null
        invariant |rs| <= |entries| && x == At(spine, |rs| + 1)
        invariant rs == entries[..|rs|]
        decreases |entries| - |rs|
      {
        assert entries[|rs|].key == x.key;
        Follow(spine, |rs| + 1, 0);
        NextTallUnique(spine, |rs| + 2, 0, |rs| + 2);
        rs := rs + [Record(x.key, if x.tombstone then Tombstone else Live(x.value))];
        x := x.levels[0];
      }
    }

    method Freeze()
      modifies this`frozen
      ensures frozen
    {
      frozen := true;
    }
  }
}
