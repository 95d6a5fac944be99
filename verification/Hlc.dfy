/** Hybrid logical clocks: the timestamp order, one clock with its exact behaviour on 64- and
    32-bit integers, and every run of clocks exchanging timestamps. */
module Hlc {

  const MAX_INT32: int := 0x7fff_ffff
  const MIN_INT32: int := -0x8000_0000
  const MAX_INT64: int := 0x7fff_ffff_ffff_ffff
  const MIN_INT64: int := -0x8000_0000_0000_0000

  type int32 = x: int | MIN_INT32 <= x <= MAX_INT32
  type int64 = x: int | MIN_INT64 <= x <= MAX_INT64

  /** Two's-complement increment. */
  function Inc32(x: int32): int32 {
    if x == MAX_INT32 then MIN_INT32 else x + 1
  }

  function Inc64(x: int64): int64 {
    if x == MAX_INT64 then MIN_INT64 else x + 1
  }

  function Dec32(x: int32): int32 {
    if x == MIN_INT32 then MAX_INT32 else x - 1
  }

  function Dec64(x: int64): int64 {
    if x == MIN_INT64 then MAX_INT64 else x - 1
  }

  datatype Timestamp = Timestamp(wall: int64, logical: int32) {

    predicate IsEmpty() {
      wall == 0 && logical == 0
    }

    predicate Less(other: Timestamp) {
      if wall != other.wall then wall < other.wall else logical < other.logical
    }

    predicate LessEq(other: Timestamp) {
      this == other || Less(other)
    }

    function Next(): Timestamp {
      if logical == MAX_INT32 then Timestamp(Inc64(wall), 0) else Timestamp(wall, Inc32(logical))
    }

    function Prev(): Timestamp {
      if logical == 0 then Timestamp(Dec64(wall), MAX_INT32) else Timestamp(wall, Dec32(logical))
    }

    /** Counters never run below zero in timestamps that clocks hand out. */
    predicate Regular() {
      logical >= 0
    }
  }

  /** `Next` is the least regular timestamp above a regular one, as long as a wall time above
      exists. */
  lemma {:induction false} NextIsSuccessor(t: Timestamp, u: Timestamp)
    requires t.Regular() && u.Regular() && !(t.wall == MAX_INT64 && t.logical == MAX_INT32)
    ensures t.Less(t.Next()) && t.Next().Regular()
    ensures t.Less(u) <==> t.Next().LessEq(u)
  {
  }

  /** `Prev` undoes `Next` and the other way round, away from the ends of the range. */
  lemma {:induction false} PrevInvertsNext(t: Timestamp)
    requires t.Regular()
    ensures !(t.wall == MAX_INT64 && t.logical == MAX_INT32) ==> t.Next().Prev() == t
    ensures !(t.wall == MIN_INT64 && t.logical == 0) ==> t.Prev().Next() == t
  {
  }

  // ----- One clock ------------------------------------------------------------------

  /** The state after `Now` with physical reading `p`. */
  function NowState(s: Timestamp, p: int64): Timestamp {
    if p > s.wall then Timestamp(p, 0) else Timestamp(s.wall, Inc32(s.logical))
  }

  /** The state after `Update(r)` with physical reading `p`: past the largest of the three. */
  function UpdateState(s: Timestamp, p: int64, r: Timestamp): Timestamp {
    var next :=
      if p > s.wall && p > r.wall then Timestamp(p, 0)
      else if s.wall > r.wall && s.wall > p then Timestamp(s.wall, Inc32(s.logical))
      else if r.wall > s.wall && r.wall > p then Timestamp(r.wall, Inc32(r.logical))
      else Timestamp(MaxWall(s, p, r), Inc32(MaxLogical(s, r, MaxWall(s, p, r))));
    if !s.Less(next) then s.Next() else next
  }

  function MaxWall(s: Timestamp, p: int64, r: Timestamp): int64 {
    var m := if s.wall > p then s.wall else p;
    if r.wall > m then r.wall else m
  }

  function MaxLogical(s: Timestamp, r: Timestamp, wall: int64): int32 {
    var m: int32 := if s.wall == wall && s.logical > 0 then s.logical else 0;
    if r.wall == wall && r.logical > m then r.logical else m
  }

  /** The wall clock stands still or moves back while the counter is at its maximum. */
  predicate NowWraps(s: Timestamp, p: int64) {
    p <= s.wall && s.logical == MAX_INT32
  }

  /** A counter at the leading wall time is at its maximum. */
  predicate UpdateWraps(s: Timestamp, p: int64, r: Timestamp) {
    var w := MaxWall(s, p, r);
    (s.wall == w && s.logical == MAX_INT32) || (r.wall == w && r.logical == MAX_INT32)
  }

  class Clock {
    var state: Timestamp

    constructor ()
      ensures state == Timestamp(0, 0)
    {
      state := Timestamp(0, 0);
    }

    method Now(physical: int64) returns (t: Timestamp)
      modifies this
      ensures t == state == NowState(old(state), physical)
      ensures physical <= t.wall && old(state).wall <= t.wall
      ensures old(state).Less(t) <==> !NowWraps(old(state), physical)
      ensures old(state).Regular() && !NowWraps(old(state), physical) ==>
                forall u: Timestamp :: u.Regular() && old(state).Less(u) && physical <= u.wall ==> t.LessEq(u)
    {
      if physical > state.wall {
        state := Timestamp(physical, 0);
      } else {
        state := Timestamp(state.wall, Inc32(state.logical));
      }
      t := state;
    }

    method Update(remote: Timestamp, physical: int64) returns (t: Timestamp)
      modifies this
      ensures t == state == UpdateState(old(state), physical, remote)
      ensures old(state).Regular() ==>
                (old(state).Less(t) <==> !(old(state).wall == MAX_INT64 && old(state).logical == MAX_INT32))
      ensures old(state).Regular() && remote.Regular() && !UpdateWraps(old(state), physical, remote) ==>
                && physical <= t.wall && old(state).Less(t) && remote.Less(t) && t.Regular()
                && forall u: Timestamp :: u.Regular() && old(state).Less(u) && remote.Less(u) && physical <= u.wall ==>
                                            t.LessEq(u)
    {
      var next: Timestamp;
      if physical > state.wall && physical > remote.wall {
        next := Timestamp(physical, 0);
      } else if state.wall > remote.wall && state.wall > physical {
        next := Timestamp(state.wall, Inc32(state.logical));
      } else if remote.wall > state.wall && remote.wall > physical {
        next := Timestamp(remote.wall, Inc32(remote.logical));
      } else {
        var maxWall := physical;
        if state.wall > maxWall {
          maxWall := state.wall;
        }
        if remote.wall > maxWall {
          maxWall := remote.wall;
        }
        var maxLogical: int32 := 0;
        if state.wall == maxWall && state.logical > maxLogical {
          maxLogical := state.logical;
        }
        if remote.wall == maxWall && remote.logical > maxLogical {
          maxLogical := remote.logical;
        }
        next := Timestamp(maxWall, Inc32(maxLogical));
      }
      if !state.Less(next) {
        next := state.Next();
      }
      state := next;
      t := state;
    }
  }

  /** `Now` moves the clock strictly forward, exactly unless the wall clock stands still or
      moves back while the counter is at its maximum. */
  lemma {:induction false} NowStrictlyForward(s: Timestamp, p: int64)
    ensures s.Less(NowState(s, p)) <==> !NowWraps(s, p)
  {
  }

  /** `Update` moves the clock strictly forward, exactly unless the very last timestamp has been
      reached: the safety net absorbs counter overflow. */
  lemma {:induction false} UpdateStrictlyForward(s: Timestamp, p: int64, r: Timestamp)
    requires s.Regular()
    ensures s.Less(UpdateState(s, p, r)) <==>
              !(s.wall == MAX_INT64 && s.logical == MAX_INT32)
  {
  }

  /** `Update` moves past the remote timestamp, exactly unless the remote counter is exhausted
      at the leading wall time and the local state has not itself reached that timestamp. */
  lemma {:induction false} UpdatePastRemote(s: Timestamp, p: int64, r: Timestamp)
    requires s.Regular() && r.Regular() && !(s.wall == MAX_INT64 && s.logical == MAX_INT32)
    ensures r.Less(UpdateState(s, p, r)) <==>
              !(r.logical == MAX_INT32 && r.wall >= p && r.wall >= s.wall && s != r)
  {
  }

  /** Unless a counter wraps, `Now` is the least timestamp past the clock's state that is not behind
      the reading, and `Update` the least also past the remote one. */
  lemma {:induction false} ClockIsLeast(s: Timestamp, p: int64, r: Timestamp, u: Timestamp)
    requires s.Regular() && r.Regular() && u.Regular() && p <= u.wall
    ensures !NowWraps(s, p) && s.Less(u) ==> NowState(s, p).LessEq(u)
    ensures !UpdateWraps(s, p, r) && s.Less(u) && r.Less(u) ==> UpdateState(s, p, r).LessEq(u)
  {
  }

  // ----- Runs of many clocks --------------------------------------------------------

  /** One clock operation somewhere: `Now` when `from` is -1, else `Update` with the timestamp
      handed out by event `from`. */
  datatype Event = Event(node: nat, physical: int64, from: int)

  predicate IsRun(run: seq<Event>) {
    forall i :: 0 <= i < |run| ==> -1 <= run[i].from < i
  }

  /** The last event of a node, or -1. */
  function Latest(run: seq<Event>, node: nat): (i: int)
    ensures -1 <= i < |run|
    ensures i >= 0 ==> run[i].node == node
    ensures forall k :: i < k < |run| ==> run[k].node != node
  {
    if run == [] then -1
    else if run[|run| - 1].node == node then |run| - 1
    else Latest(run[..|run| - 1], node)
  }

  /** The timestamp of each event. */
  function Stamps(run: seq<Event>): (ts: seq<Timestamp>)
    requires IsRun(run)
    ensures |ts| == |run|
  {
    if run == [] then [] else
      var n := |run| - 1;
      var earlier := Stamps(run[..n]);
      earlier + [Stamp(run[..n], earlier, run[n])]
  }

  function StateOf(run: seq<Event>, stamps: seq<Timestamp>, node: nat): Timestamp
    requires |stamps| == |run|
  {
    var i := Latest(run, node);
    if i < 0 then Timestamp(0, 0) else stamps[i]
  }

  function Stamp(run: seq<Event>, stamps: seq<Timestamp>, e: Event): Timestamp
    requires |stamps| == |run| && -1 <= e.from < |run|
  {
    var s := StateOf(run, stamps, e.node);
    if e.from < 0 then NowState(s, e.physical) else UpdateState(s, e.physical, stamps[e.from])
  }

  lemma {:induction false} StampsPrefix(run: seq<Event>, n: nat)
    requires IsRun(run) && n <= |run|
    ensures IsRun(run[..n]) && Stamps(run[..n]) == Stamps(run)[..n]
  {
    if n < |run| {
      var m := |run| - 1;
      StampsPrefix(run[..m], n);
      assert run[..m][..n] == run[..n];
    } else {
      assert run[..n] == run;
    }
  }

  /** The timestamp of event `i` follows from the events before it. */
  lemma {:induction false} StampAt(run: seq<Event>, i: nat)
    requires IsRun(run) && i < |run|
    ensures Stamps(run)[i] == Stamp(run[..i], Stamps(run)[..i], run[i])
  {
    StampsPrefix(run, i);
    StampsPrefix(run, i + 1);
    assert run[..i + 1][..i] == run[..i];
  }

  /** Event `i` would count past the maximum of a logical counter. */
  predicate Wraps(run: seq<Event>, i: nat)
    requires IsRun(run) && i < |run|
  {
    var s := StateOf(run[..i], Stamps(run)[..i], run[i].node);
    if run[i].from < 0 then NowWraps(s, run[i].physical)
    else UpdateWraps(s, run[i].physical, Stamps(run)[run[i].from])
  }

  predicate NoOverflow(run: seq<Event>)
    requires IsRun(run)
  {
    forall i :: 0 <= i < |run| ==> !Wraps(run, i)
  }

  lemma {:induction false} StampsRegular(run: seq<Event>, i: nat)
    requires IsRun(run) && NoOverflow(run) && i < |run|
    ensures Stamps(run)[i].Regular()
  {
    hide Stamps;
    StampAt(run, i);
    assert !Wraps(run, i);
    var k := Latest(run[..i], run[i].node);
    if k >= 0 {
      StampsRegular(run, k);
    }
    if run[i].from >= 0 {
      StampsRegular(run, run[i].from);
    }
  }

  /** Event `i` directly precedes event `j`: earlier on the same node, or the message `j`
      received. */
  predicate Precedes(run: seq<Event>, i: nat, j: nat)
    requires i < |run| && j < |run|
  {
    (i < j && run[i].node == run[j].node) || run[j].from == i
  }

  /** Happens-before: a chain of direct precedences. */
  ghost predicate HappensBefore(run: seq<Event>, chain: seq<nat>) {
    && |chain| >= 2
    && (forall k :: 0 <= k < |chain| ==> chain[k] < |run|)
    && forall k {:trigger chain[k]} :: 0 <= k < |chain| - 1 ==> Precedes(run, chain[k], chain[k + 1])
  }

  /** A node's clock state before an event is at least every timestamp it handed out. */
  lemma {:induction false} StateCoversNode(run: seq<Event>, n: nat, i: nat)
    requires IsRun(run) && NoOverflow(run) && i < n <= |run|
    ensures Stamps(run)[i].LessEq(StateOf(run[..n], Stamps(run)[..n], run[i].node))
    decreases n
  {
    hide Stamps;
    var k := Latest(run[..n], run[i].node);
    assert k >= i;
    if k > i {
      StampAt(run, k);
      StateCoversNode(run, k, i);
      assert !Wraps(run, k);
      var s := StateOf(run[..k], Stamps(run)[..k], run[k].node);
      StateRegular(run, k, run[k].node);
      NowStrictlyForward(s, run[k].physical);
      if run[k].from >= 0 {
        UpdateStrictlyForward(s, run[k].physical, Stamps(run)[run[k].from]);
      }
      assert s.Less(Stamps(run)[k]);
    }
  }

  lemma {:induction false} StateRegular(run: seq<Event>, n: nat, node: nat)
    requires IsRun(run) && NoOverflow(run) && n <= |run|
    ensures StateOf(run[..n], Stamps(run)[..n], node).Regular()
  {
    hide Stamps;
    var k := Latest(run[..n], node);
    if k >= 0 {
      StampsRegular(run, k);
    }
  }

  lemma {:induction false} PrecedesIsLess(run: seq<Event>, i: nat, j: nat)
    requires IsRun(run) && NoOverflow(run) && i < |run| && j < |run| && Precedes(run, i, j)
    ensures Stamps(run)[i].Less(Stamps(run)[j])
  {
    hide Stamps;
    StampAt(run, j);
    assert !Wraps(run, j);
    var s := StateOf(run[..j], Stamps(run)[..j], run[j].node);
    StateRegular(run, j, run[j].node);
    StampsRegular(run, i);
    NowStrictlyForward(s, run[j].physical);
    if run[j].from >= 0 {
      var r := Stamps(run)[run[j].from];
      UpdateStrictlyForward(s, run[j].physical, r);
      if run[j].from == i {
        UpdatePastRemote(s, run[j].physical, r);
      }
    }
    if i < j && run[i].node == run[j].node {
      StateCoversNode(run, j, i);
    }
  }

  /** In every run of clocks exchanging timestamps, whatever their physical readings, an event
      that happens before another has the strictly smaller timestamp. */
  lemma {:induction false} CausalOrder(run: seq<Event>, chain: seq<nat>)
    requires IsRun(run) && NoOverflow(run) && HappensBefore(run, chain)
    ensures Stamps(run)[chain[0]].Less(Stamps(run)[chain[|chain| - 1]])
  {
    hide Stamps;
    var n := |chain| - 1;
    PrecedesIsLess(run, chain[n - 1], chain[n]);
    if n > 1 {
      var init := chain[..n];
      assert forall k :: 0 <= k < n ==> init[k] == chain[k];
      CausalOrder(run, init);
    }
  }

  /** Every wall time in circulation was read from some physical clock (or is the initial 0),
      so no clock runs ahead of the largest reading taken so far. */
  lemma {:induction false} WallTimesAreReadings(run: seq<Event>, i: nat)
    requires IsRun(run) && NoOverflow(run) && i < |run|
    ensures Stamps(run)[i].wall == 0 || exists k :: 0 <= k <= i && run[k].physical == Stamps(run)[i].wall
  {
    hide Stamps;
    StampAt(run, i);
    assert !Wraps(run, i);
    var j := Latest(run[..i], run[i].node);
    if j >= 0 {
      WallTimesAreReadings(run, j);
    }
    StateRegular(run, i, run[i].node);
    if run[i].from >= 0 {
      WallTimesAreReadings(run, run[i].from);
      StampsRegular(run, run[i].from);
    }
  }

  /** Counters grow by at most one per event: runs shorter than 2^31 events cannot overflow. */
  lemma {:induction false} ShortRunsDoNotOverflow(run: seq<Event>)
    requires IsRun(run) && |run| < MAX_INT32
    ensures NoOverflow(run)
    ensures forall i :: 0 <= i < |run| ==> 0 <= Stamps(run)[i].logical <= i + 1
  {
    if run != [] {
      var n := |run| - 1;
      ShortRunsDoNotOverflow(run[..n]);
      StampsPrefix(run, n);
      StampAt(run, n);
      hide Stamps;
      var s := StateOf(run[..n], Stamps(run)[..n], run[n].node);
      assert 0 <= s.logical <= n;
      forall i | 0 <= i < |run| ensures 0 <= Stamps(run)[i].logical <= i + 1 {
        if i < n {
          assert Stamps(run)[i] == Stamps(run[..n])[i];
        } else if run[n].from >= 0 {
          var r := Stamps(run)[run[n].from];
          assert r == Stamps(run[..n])[run[n].from];
          assert 0 <= r.logical <= n;
        }
      }
    }
  }
}
