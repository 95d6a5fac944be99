/** Cursors over sorted runs, the k-way merge of any number of them, and the filter that
    hides deletion markers. */
module MergeIterator {
  import opened Bytes
  import opened Records

  // ----- Positions in one run -------------------------------------------------------

  /** How many leading records lie below `k`: where `Seek(k)` must stop. */
  ghost function LowerBound(rs: seq<Record>, k: Bytes): (n: nat)
    ensures n <= |rs|
  {
    if rs == [] || !Less(rs[0].key, k) then 0 else 1 + LowerBound(rs[1..], k)
  }

  lemma {:induction false} LowerBoundUnique(rs: seq<Record>, k: Bytes, n: nat)
    requires n <= |rs|
    requires forall i :: 0 <= i < n ==> Less(rs[i].key, k)
    requires n < |rs| ==> !Less(rs[n].key, k)
    ensures LowerBound(rs, k) == n
  {
    hide Less;
    if n > 0 {
      assert Less(rs[0].key, k);
      forall i | 0 <= i < n - 1 ensures Less(rs[1..][i].key, k) {
        assert rs[1..][i] == rs[i + 1];
      }
      LowerBoundUnique(rs[1..], k, n - 1);
    }
  }

  lemma {:induction false} LowerBoundSplits(rs: seq<Record>, k: Bytes)
    requires Sorted(rs)
    ensures forall i :: 0 <= i < LowerBound(rs, k) ==> Less(rs[i].key, k)
    ensures forall i :: LowerBound(rs, k) <= i < |rs| ==> !Less(rs[i].key, k)
  {
    hide Less;
    if rs != [] && Less(rs[0].key, k) {
      LowerBoundSplits(rs[1..], k);
      forall i | 0 <= i < LowerBound(rs, k) ensures Less(rs[i].key, k) {
        assert i > 0 ==> rs[i] == rs[1..][i - 1];
      }
      forall i | LowerBound(rs, k) <= i < |rs| ensures !Less(rs[i].key, k) {
        assert rs[i] == rs[1..][i - 1];
      }
    } else if rs != [] {
      forall i | 0 <= i < |rs| ensures !Less(rs[i].key, k) {
        if i > 0 && Less(rs[i].key, k) {
          LessTransitive(rs[0].key, rs[i].key, k);
        }
      }
    }
  }

  /** Stepping over `c` moves a cursor positioned at `b <= c` to the successor of `c`: by one
      when it stands on `c`, not at all when it already stands beyond. */
  lemma {:induction false} StepOver(rs: seq<Record>, b: Bytes, c: Bytes)
    requires Sorted(rs) && LessEq(b, c)
    requires var n := LowerBound(rs, b); n < |rs| ==> !Less(rs[n].key, c)
    ensures var n := LowerBound(rs, b);
            LowerBound(rs, c + [0]) == if n < |rs| && rs[n].key == c then n + 1 else n
  {
    hide Less;
    hide LowerBound;
    LowerBoundSplits(rs, b);
    var n := LowerBound(rs, b);
    forall i | 0 <= i < n ensures Less(rs[i].key, c + [0]) {
      if b != c {
        LessTransitive(rs[i].key, b, c);
      }
      SuccessorIsNext(c, rs[i].key);
      LessTrichotomy(rs[i].key, c);
    }
    if n < |rs| && rs[n].key == c {
      SuccessorIsNext(c, c);
      LessIrreflexive(c);
      if n + 1 < |rs| {
        SuccessorIsNext(c, rs[n + 1].key);
      }
      LowerBoundUnique(rs, c + [0], n + 1);
    } else {
      if n < |rs| {
        LessTrichotomy(rs[n].key, c);
        SuccessorIsNext(c, rs[n].key);
      }
      LowerBoundUnique(rs, c + [0], n);
    }
  }

  // ----- The union of runs ----------------------------------------------------------

  ghost predicate AllSorted(sources: seq<seq<Record>>) {
    forall i :: 0 <= i < |sources| ==> Sorted(sources[i])
  }

  /** The union of the runs' maps; on a shared key the lowest index wins. */
  ghost function MergeMap(sources: seq<seq<Record>>): map<Bytes, Cell>
    requires AllSorted(sources)
  {
    if sources == [] then map[] else MergeMap(sources[1..]) + ToMap(sources[0])
  }

  /** `MergeMap` binds `k` to what the first source holding `k` says. */
  lemma {:induction false} MergeMapAt(sources: seq<seq<Record>>, w: nat, k: Bytes)
    requires AllSorted(sources) && w < |sources|
    requires k in ToMap(sources[w])
    requires forall i :: 0 <= i < w ==> k !in ToMap(sources[i])
    ensures k in MergeMap(sources) && MergeMap(sources)[k] == ToMap(sources[w])[k]
  {
    hide Less;
    hide ToMap;
    if w > 0 {
      assert k !in ToMap(sources[0]);
      forall i | 0 <= i < w - 1 ensures k !in ToMap(sources[1..][i]) {
        assert sources[1..][i] == sources[i + 1];
      }
      assert sources[1..][w - 1] == sources[w];
      MergeMapAt(sources[1..], w - 1, k);
    }
  }

  lemma {:induction false} MergeMapHas(sources: seq<seq<Record>>, k: Bytes) returns (w: nat)
    requires AllSorted(sources) && k in MergeMap(sources)
    ensures w < |sources| && k in ToMap(sources[w])
    ensures forall i :: 0 <= i < w ==> k !in ToMap(sources[i])
    ensures MergeMap(sources)[k] == ToMap(sources[w])[k]
  {
    hide Less;
    hide ToMap;
    if k in ToMap(sources[0]) {
      w := 0;
    } else {
      var v := MergeMapHas(sources[1..], k);
      w := v + 1;
      assert sources[1..][v] == sources[w];
      forall i | 0 <= i < w ensures k !in ToMap(sources[i]) {
        assert i > 0 ==> sources[1..][i - 1] == sources[i];
      }
    }
  }

  /** The part of a map at or above `b`. */
  ghost function From(m: map<Bytes, Cell>, b: Bytes): map<Bytes, Cell> {
    map k | k in m && !Less(k, b) :: m[k]
  }

  // ----- One cursor -----------------------------------------------------------------

  /** A cursor over one immutable sorted run (an SSTable or a memtable snapshot). */
  class Cursor {
    const rs: seq<Record>
    var idx: int

    constructor (rs: seq<Record>)
      ensures this.rs == rs && idx == -1
    {
      this.rs, this.idx := rs, -1;
    }

    predicate Valid()
      reads this
    {
      0 <= idx < |rs|
    }

    method Seek(key: Bytes)
      requires Sorted(rs)
      modifies this
      ensures idx == LowerBound(rs, key)
    {
      hide Less;
      hide LowerBound;
      var left, right := 0, |rs|;
      while left < right
        invariant 0 <= left <= right <= |rs|
        invariant forall i :: 0 <= i < left ==> Less(rs[i].key, key)
        invariant right < |rs| ==> !Less(rs[right].key, key)
      {
        var mid := left + (right - left) / 2;
        if Less(rs[mid].key, key) {
          forall i | 0 <= i < mid + 1 ensures Less(rs[i].key, key) {
            if i < mid {
              LessTransitive(rs[i].key, rs[mid].key, key);
            }
          }
          left := mid + 1;
        } else {
          right := mid;
        }
      }
      LowerBoundUnique(rs, key, left);
      idx := left;
    }

    method Next()
      modifies this
      ensures idx == if old(idx) < |rs| then old(idx) + 1 else old(idx)
    {
      if idx < |rs| {
        idx := idx + 1;
      }
    }
  }

  // ----- The merge ------------------------------------------------------------------

  class MergeIterator {
    const iters: seq<Cursor>
    var winner: int

    constructor (iters: seq<Cursor>)
      requires forall i :: 0 <= i < |iters| ==> Sorted(iters[i].rs)
      requires forall i, j :: 0 <= i < j < |iters| ==> iters[i] != iters[j]
      ensures this.iters == iters && Wired()
    {
      this.iters, this.winner := iters, -1;
      new;
      PickWinner();
    }

    ghost predicate Wired() {
      && (forall i :: 0 <= i < |iters| ==> Sorted(iters[i].rs))
      && forall i, j :: 0 <= i < j < |iters| ==> iters[i] != iters[j]
    }

    ghost function Sources(): (ss: seq<seq<Record>>)
      ensures |ss| == |iters|
      ensures forall i {:trigger ss[i]} :: 0 <= i < |iters| ==> ss[i] == iters[i].rs
      ensures Wired() ==> AllSorted(ss)
    {
      seq(|iters|, i requires 0 <= i < |iters| => iters[i].rs)
    }

    /** Every cursor stands at its first record at or above `b`. */
    ghost predicate At(b: Bytes)
      reads iters
    {
      forall i :: 0 <= i < |iters| ==> iters[i].idx == LowerBound(iters[i].rs, b)
    }

    /** `w` is the least current key among the first `n` cursors, earliest cursor first. */
    ghost predicate Least(w: int, n: nat)
      requires n <= |iters|
      reads iters
    {
      && -1 <= w < n
      && (w == -1 ==> forall i :: 0 <= i < n ==> !iters[i].Valid())
      && (w >= 0 ==>
            && iters[w].Valid()
            && (forall i :: 0 <= i < n && iters[i].Valid() ==>
                  && !Less(iters[i].rs[iters[i].idx].key, iters[w].rs[iters[w].idx].key)
                  && (iters[i].rs[iters[i].idx].key == iters[w].rs[iters[w].idx].key ==> w <= i)))
    }

    predicate Valid()
      reads this
    {
      winner >= 0
    }

    function Current(): Record
      requires 0 <= winner < |iters| && iters[winner].Valid()
      reads this, iters
    {
      iters[winner].rs[iters[winner].idx]
    }

    method PickWinner()
      modifies this
      ensures Least(winner, |iters|)
    {
      hide Less;
      var w := -1;
      for idx := 0 to |iters|
        invariant Least(w, idx)
      {
        if !iters[idx].Valid() {
          continue;
        }
        if w == -1 {
          LessIrreflexive(iters[idx].rs[iters[idx].idx].key);
          w := idx;
          continue;
        }
        var mine, best := iters[idx].rs[iters[idx].idx].key, iters[w].rs[iters[w].idx].key;
        LessIrreflexive(mine);
        if Less(mine, best) || (mine == best && idx < w) {
          forall i | 0 <= i < idx && iters[i].Valid()
            ensures !Less(iters[i].rs[iters[i].idx].key, mine) && iters[i].rs[iters[i].idx].key != mine
          {
            if Less(iters[i].rs[iters[i].idx].key, mine) {
              LessTransitive(iters[i].rs[iters[i].idx].key, mine, best);
            }
          }
          w := idx;
        }
      }
      winner := w;
    }

    method Seek(key: Bytes)
      requires Wired()
      modifies this, iters
      ensures At(key) && Least(winner, |iters|)
    {
      hide Less;
      hide LowerBound;
      for i := 0 to |iters|
        invariant forall j :: 0 <= j < i ==> iters[j].idx == LowerBound(iters[j].rs, key)
      {
        iters[i].Seek(key);
      }
      PickWinner();
    }

    /** Step over the current key in every source that stands on it. */
    method Next(ghost b: Bytes) returns (ok: bool)
      requires Wired() && At(b) && Least(winner, |iters|)
      modifies this, iters
      ensures Least(winner, |iters|) && ok == (winner >= 0)
      ensures if old(winner) < 0 then winner < 0 && At(b) else At(old(Current().key) + [0])
    {
      hide Less;
      hide LowerBound;
      if winner < 0 {
        return false;
      }
      var current := Current().key;
      CurrentAbove(b);
      for i := 0 to |iters|
        invariant forall j :: 0 <= j < i ==> iters[j].idx == LowerBound(iters[j].rs, current + [0])
        invariant forall j :: i <= j < |iters| ==> iters[j].idx == LowerBound(iters[j].rs, b)
        invariant forall j :: i <= j < |iters| && iters[j].Valid() ==>
                    !Less(iters[j].rs[iters[j].idx].key, current)
      {
        StepOver(iters[i].rs, b, current);
        if iters[i].Valid() && iters[i].rs[iters[i].idx].key == current {
          iters[i].Next();
        }
      }
      PickWinner();
      return winner >= 0;
    }

    lemma {:induction false} CurrentAbove(b: Bytes)
      requires Wired() && At(b) && Least(winner, |iters|) && winner >= 0
      ensures LessEq(b, Current().key)
    {
      hide Less;
      hide LowerBound;
      LowerBoundSplits(iters[winner].rs, b);
      LessTrichotomy(b, Current().key);
    }

    /** A key at or above `b` that some source holds is not below that source's cursor. */
    lemma {:induction false} CursorBelow(b: Bytes, i: nat, k: Bytes)
      requires Wired() && At(b) && i < |iters| && k in ToMap(iters[i].rs) && !Less(k, b)
      ensures iters[i].Valid() && LessEq(iters[i].rs[iters[i].idx].key, k)
    {
      hide Less;
      hide LowerBound;
      hide ToMap;
      LowerBoundSplits(iters[i].rs, b);
      var j :| 0 <= j < |iters[i].rs| && iters[i].rs[j].key == k;
    }

    /** The winner is the least merged binding at or above `b`; without a winner there is
        none. */
    lemma {:induction false} WinnerIsNext(b: Bytes)
      requires Wired() && At(b) && Least(winner, |iters|)
      ensures winner >= 0 ==>
                && Current().key in From(MergeMap(Sources()), b)
                && MergeMap(Sources())[Current().key] == Current().cell
                && forall k :: k in From(MergeMap(Sources()), b) ==> !Less(k, Current().key)
      ensures winner < 0 ==> From(MergeMap(Sources()), b) == map[]
    {
      hide Less;
      hide LowerBound;
      hide ToMap;
      hide MergeMap;
      forall k | k in From(MergeMap(Sources()), b)
        ensures winner >= 0 && !Less(k, Current().key)
      {
        var i := MergeMapHas(Sources(), k);
        CursorBelow(b, i, k);
        if Less(k, Current().key) && iters[i].rs[iters[i].idx].key != k {
          LessTransitive(iters[i].rs[iters[i].idx].key, k, Current().key);
        }
      }
      if winner >= 0 {
        var c := Current().key;
        CurrentAbove(b);
        LessTrichotomy(b, c);
        forall i | 0 <= i < winner ensures c !in ToMap(Sources()[i]) {
          if c in ToMap(iters[i].rs) {
            CursorBelow(b, i, c);
          }
        }
        MergeMapAt(Sources(), winner, c);
      }
    }

    /** Seek, then step until exhausted: the merged map from `start` on, in order. */
    method Drain(start: Bytes) returns (out: seq<Record>)
      requires Wired()
      modifies this, iters
      ensures Sorted(out) && ToMap(out) == From(MergeMap(Sources()), start)
    {
      hide Less;
      hide LowerBound;
      hide ToMap;
      hide MergeMap;
      hide From;
      hide Sorted;
      hide Below;
      hide At;
      out := [];
      Seek(start);
      ghost var m, b := MergeMap(Sources()), start;
      EmptyPart(m, start);
      while Valid()
        invariant At(b) && Least(winner, |iters|)
        invariant Sorted(out) && Below(out, b) && ToMap(out) + From(m, b) == From(m, start)
        decreases From(m, b).Keys
      {
        WinnerIsNext(b);
        ghost var r := Current();
        Advance(m, start, b, out, r);
        out := out + [Current()];
        var ok := Next(b);
        b := r.key + [0];
      }
      WinnerIsNext(b);
    }
  }

  // ----- Lists collected in key order -----------------------------------------------

  ghost predicate Below(rs: seq<Record>, b: Bytes) {
    forall i :: 0 <= i < |rs| ==> Less(rs[i].key, b)
  }

  lemma {:induction false} EmptyPart(m: map<Bytes, Cell>, b: Bytes)
    ensures Sorted([]) && Below([], b) && ToMap([]) + From(m, b) == From(m, b)
  {
    assert ToMap([]) == map[];
  }

  /** Taking the least remaining binding moves it from the rest to the collected list. */
  lemma {:induction false} Advance(m: map<Bytes, Cell>, start: Bytes, b: Bytes, out: seq<Record>, r: Record)
    requires Sorted(out) && Below(out, b) && ToMap(out) + From(m, b) == From(m, start)
    requires r.key in From(m, b) && m[r.key] == r.cell
    requires forall k :: k in From(m, b) ==> !Less(k, r.key)
    ensures Sorted(out + [r]) && Below(out + [r], r.key + [0])
    ensures ToMap(out + [r]) + From(m, r.key + [0]) == From(m, start)
    ensures From(m, r.key + [0]).Keys == From(m, b).Keys - {r.key}
  {
    hide Less;
    hide ToMap;
    FromNext(m, b, r.key);
    hide From;
    assert !Less(r.key, b) by {
      FromAbove(m, b, r.key);
    }
    LessTrichotomy(r.key, b);
    forall i | 0 <= i < |out| ensures Less(out[i].key, r.key) && Less(out[i].key, r.key + [0]) {
      if r.key != b {
        LessTransitive(out[i].key, b, r.key);
      }
      SuccessorIsNext(r.key, out[i].key);
      LessTrichotomy(out[i].key, r.key);
    }
    SuccessorIsNext(r.key, r.key);
    LessIrreflexive(r.key);
    InsertDenotes(out, |out|, r);
    assert out[..|out|] + [r] + out[|out|..] == out + [r];
    assert From(m, b)[r.key] == m[r.key] by {
      FromAbove(m, b, r.key);
    }
  }

  lemma {:induction false} FromAbove(m: map<Bytes, Cell>, b: Bytes, k: Bytes)
    requires k in From(m, b)
    ensures !Less(k, b) && k in m && From(m, b)[k] == m[k]
  {
  }

  /** The empty key is below every other: seeking it starts at the beginning. */
  lemma {:induction false} FromStart(m: map<Bytes, Cell>)
    ensures From(m, []) == m
  {
  }

  /** Behind the least remaining key begins its successor's part. */
  lemma {:induction false} FromNext(m: map<Bytes, Cell>, b: Bytes, c: Bytes)
    requires c in From(m, b)
    requires forall k :: k in From(m, b) ==> !Less(k, c)
    ensures From(m, c + [0]) == From(m, b) - {c}
  {
    hide Less;
    forall k ensures k in From(m, c + [0]) <==> k in From(m, b) && k != c {
      SuccessorIsNext(c, k);
      LessTrichotomy(k, c);
      if Less(c, k) && Less(k, b) {
        LessTransitive(c, k, b);
      }
    }
  }

  // ----- The filter -----------------------------------------------------------------

  /** Stepping over a deletion marker loses no live binding. */
  lemma {:induction false} SkipMarker(m: map<Bytes, Cell>, b: Bytes, c: Bytes)
    requires c in From(m, b) && m[c] == Tombstone
    requires forall k :: k in From(m, b) ==> !Less(k, c)
    ensures From(LiveOnly(m), c + [0]) == From(LiveOnly(m), b)
  {
    hide Less;
    FromNext(m, b, c);
    forall k ensures k in From(LiveOnly(m), c + [0]) <==> k in From(LiveOnly(m), b) {
      assert k in From(LiveOnly(m), c + [0]) <==> k in From(m, c + [0]) && m[k].Live?;
      assert k in From(LiveOnly(m), b) <==> k in From(m, b) && m[k].Live?;
    }
  }

  class DeletedFilterIterator {
    const inner: MergeIterator

    constructor (inner: MergeIterator)
      ensures this.inner == inner
    {
      this.inner := inner;
    }

    /** The inner iterator stands at `b`, on a live binding or at the end. */
    ghost predicate At(b: Bytes)
      reads inner, inner.iters
    {
      && inner.Wired() && inner.At(b) && inner.Least(inner.winner, |inner.iters|)
      && (inner.winner >= 0 ==> inner.Current().cell.Live?)
    }

    ghost function LiveMap(): map<Bytes, Cell>
      requires inner.Wired()
    {
      LiveOnly(MergeMap(inner.Sources()))
    }

    method SkipDeleted(ghost b: Bytes) returns (ghost b': Bytes)
      requires inner.Wired() && inner.At(b) && inner.Least(inner.winner, |inner.iters|)
      modifies inner, inner.iters
      ensures At(b') && From(LiveMap(), b') == From(LiveMap(), b)
    {
      hide Less;
      hide LowerBound;
      hide ToMap;
      hide MergeMap;
      hide From;
      b' := b;
      ghost var m := MergeMap(inner.Sources());
      while inner.Valid() && inner.Current().cell.Tombstone?
        invariant inner.At(b') && inner.Least(inner.winner, |inner.iters|)
        invariant From(LiveMap(), b') == From(LiveMap(), b)
        decreases From(m, b').Keys
      {
        inner.WinnerIsNext(b');
        ghost var c := inner.Current().key;
        SkipMarker(m, b', c);
        FromNext(m, b', c);
        var ok := inner.Next(b');
        b' := c + [0];
      }
    }

    method Seek(key: Bytes) returns (ghost b: Bytes)
      requires inner.Wired()
      modifies inner, inner.iters
      ensures At(b) && From(LiveMap(), b) == From(LiveMap(), key)
    {
      inner.Seek(key);
      b := SkipDeleted(key);
    }

    method Next(ghost b: Bytes) returns (ok: bool, ghost b': Bytes)
      requires At(b)
      modifies inner, inner.iters
      ensures At(b') && ok == (inner.winner >= 0)
      ensures if old(inner.winner) < 0 then !ok && b' == b
              else From(LiveMap(), b') == From(LiveMap(), old(inner.Current().key) + [0])
    {
      ghost var c := if inner.winner < 0 then b else inner.Current().key + [0];
      ok := inner.Next(b);
      b' := c;
      if ok {
        b' := SkipDeleted(c);
        ok := inner.winner >= 0;
      }
    }

    /** The current record is the least live binding at or above `b`. */
    lemma {:induction false} CurrentIsNextLive(b: Bytes)
      requires At(b)
      ensures inner.winner >= 0 ==>
                && inner.Current().key in From(LiveMap(), b)
                && LiveMap()[inner.Current().key] == inner.Current().cell
                && forall k :: k in From(LiveMap(), b) ==> !Less(k, inner.Current().key)
      ensures inner.winner < 0 ==> From(LiveMap(), b) == map[]
    {
      hide Less;
      hide LowerBound;
      hide ToMap;
      hide MergeMap;
      inner.WinnerIsNext(b);
      var m := MergeMap(inner.Sources());
      assert forall k :: k in From(LiveMap(), b) ==> k in From(m, b);
    }

    /** Seek, then step until exhausted: exactly the live bindings from `start` on. */
    method Drain(start: Bytes) returns (out: seq<Record>)
      requires inner.Wired()
      modifies inner, inner.iters
      ensures Sorted(out) && ToMap(out) == From(LiveMap(), start)
    {
      hide Less;
      hide LowerBound;
      hide ToMap;
      hide MergeMap;
      hide From;
      hide Sorted;
      hide Below;
      hide LiveOnly;
      out := [];
      ghost var b := Seek(start);
      ghost var m := LiveMap();
      EmptyPart(m, start);
      ghost var c := start;
      while inner.Valid()
        invariant At(b) && From(m, b) == From(m, c)
        invariant Sorted(out) && Below(out, c) && ToMap(out) + From(m, c) == From(m, start)
        decreases From(m, c).Keys
      {
        CurrentIsNextLive(b);
        ghost var r := inner.Current();
        Advance(m, start, c, out, r);
        out := out + [inner.Current()];
        var ok;
        ok, b := Next(b);
        c := r.key + [0];
      }
      CurrentIsNextLive(b);
    }
  }
}
