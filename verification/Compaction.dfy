/** When levels are compacted: thresholds, the compaction loop as a sequence of rounds, the
    shape of the level stacks it can reach, and exactly when it stops. */
module Compaction {
  import opened LsmDisk

  /** `l0` files trigger a compaction of level 0; `growth` scales the threshold per level. */
  datatype Options = Options(l0: int, growth: real)

  const DEFAULT_L0_THRESHOLD: int := 4
  const DEFAULT_GROWTH_FACTOR: real := 10.0

  /** Options at or below zero fall back to the defaults. */
  function Effective(o: Options): (e: Options)
    ensures e.l0 > 0 && e.growth > 0.0
    ensures o.l0 > 0 ==> e.l0 == o.l0
    ensures o.growth > 0.0 ==> e.growth == o.growth
    ensures o.l0 <= 0 && o.growth <= 0.0 ==> e.l0 == 4 && e.growth == 10.0
  {
    Options(if o.l0 <= 0 then DEFAULT_L0_THRESHOLD else o.l0,
            if o.growth <= 0.0 then DEFAULT_GROWTH_FACTOR else o.growth)
  }

  function Threshold(o: Options, level: nat): int {
    if level == 0 then o.l0 else (Threshold(o, level - 1) as real * o.growth).Floor
  }

  /** The threshold is computed by repeated scaling. */
  method LevelThreshold(o: Options, level: nat) returns (t: int)
    ensures t == Threshold(o, level)
  {
    t := o.l0;
    var i := 0;
    while i < level
      invariant 0 <= i <= level && t == Threshold(o, i)
    {
      t := (t as real * o.growth).Floor;
      i := i + 1;
    }
  }

  function Pow(g: nat, n: nat): nat {
    if n == 0 then 1 else g * Pow(g, n - 1)
  }

  /** With a whole growth factor nothing is truncated: the threshold of a level is that of level 0
      times a power of the factor. */
  lemma {:induction false} WholeGrowth(o: Options, g: nat, n: nat)
    requires o.growth == g as real
    ensures Threshold(o, n) == o.l0 * Pow(g, n)
  {
    if n > 0 {
      WholeGrowth(o, g, n - 1);
      Scaled(Threshold(o, n - 1), g);
      assert o.l0 * Pow(g, n - 1) * g == o.l0 * (g * Pow(g, n - 1));
    }
  }

  lemma {:induction false} Scaled(t: int, g: nat)
    ensures (t as real * g as real).Floor == t * g
  {
    assert t as real * g as real == (t * g) as real;
  }

  predicate Over(o: Options, levels: seq<seq<nat>>, l: nat) {
    l < |levels| && |levels[l]| >= Threshold(o, l)
  }

  predicate Settled(o: Options, levels: seq<seq<nat>>) {
    forall l :: 0 <= l < |levels| ==> !Over(o, levels, l)
  }

  /** The first level at or over its threshold, or -1. */
  method FirstOverThreshold(o: Options, levels: seq<seq<nat>>) returns (level: int)
    ensures level == FirstOver(o, levels, 0)
  {
    for l := 0 to |levels|
      invariant FirstOver(o, levels, 0) == FirstOver(o, levels, l)
    {
      var t := LevelThreshold(o, l);
      if |levels[l]| >= t {
        return l;
      }
    }
    return -1;
  }

  function FirstOver(o: Options, levels: seq<seq<nat>>, from: nat): (l: int)
    requires from <= |levels|
    ensures l == -1 || from <= l < |levels|
    ensures l >= 0 ==> Over(o, levels, l) && forall k :: from <= k < l ==> !Over(o, levels, k)
    ensures l < 0 ==> forall k :: from <= k < |levels| ==> !Over(o, levels, k)
    decreases |levels| - from
  {
    if from == |levels| then -1
    else if Over(o, levels, from) then from
    else FirstOver(o, levels, from + 1)
  }

  // ----- The loop -------------------------------------------------------------------

  /** One round of the loop; an empty level is left as it is. */
  function Round(o: Options, levels: seq<seq<nat>>, id: nat): seq<seq<nat>> {
    var l := FirstOver(o, levels, 0);
    if l < 0 || levels[l] == [] then levels else Compacted(levels, l, id)
  }

  function Rounds(o: Options, levels: seq<seq<nat>>, id: nat, n: nat): seq<seq<nat>> {
    if n == 0 then levels else Round(o, Rounds(o, levels, id, n - 1), id + n - 1)
  }

  /** The stacks flushes and compactions build from an empty directory: level 0 and at most
      one table below it. */
  predicate Shape(levels: seq<seq<nat>>) {
    |levels| <= 2 && (|levels| == 2 ==> |levels[1]| == 1)
  }

  lemma {:induction false} FlushedShape(levels: seq<seq<nat>>, id: nat)
    requires Shape(levels)
    ensures Shape(Flushed(levels, id))
    ensures |Flat(Flushed(levels, id))| == |Flat(levels)| + 1
  {
    assert Flat(Flushed(levels, id)) == [id] + Flat(levels);
  }

  /** Compacting level 0 of such a stack leaves one table, on level 1. */
  lemma {:induction false} CompactedShape(levels: seq<seq<nat>>, id: nat)
    requires Shape(levels)
    ensures Compacted(levels, 0, id) == [[], [id]]
  {
    var g := Grow(levels, 1);
    assert |g| == 2;
    assert g[0 := []][1 := [id]] == [[], [id]];
  }

  /** A settled stack of that shape holds at most `l0` tables. */
  lemma {:induction false} SettledBound(o: Options, levels: seq<seq<nat>>)
    requires o.l0 > 0 && Shape(levels) && Settled(o, levels)
    ensures |Flat(levels)| <= o.l0
  {
    if |levels| == 1 {
      assert !Over(o, levels, 0);
      assert Flat(levels[1..]) == [];
    } else if |levels| == 2 {
      assert !Over(o, levels, 0);
      assert Flat(levels[1..]) == levels[1] + Flat(levels[1..][1..]);
    }
  }

  // ----- Why the loop makes progress ------------------------------------------------

  /** The loop is bound to stop: every deeper level tolerates a single table, or the stack is
      one that flushes build and level 1 does. */
  ghost predicate Stops(o: Options, levels: seq<seq<nat>>) {
    || (forall l: nat :: l >= 1 ==> Threshold(o, l) >= 2)
    || (Shape(levels) && Threshold(o, 1) >= 2)
  }

  /** Each round lowers the number of tables, or keeps it and empties level 0. */
  lemma {:induction false} RoundProgress(o: Options, levels: seq<seq<nat>>, n: nat, id: nat)
    requires o.l0 > 0 && Stops(o, levels) && Over(o, levels, n)
    ensures levels[n] != [] && Stops(o, Compacted(levels, n, id))
    ensures |Compacted(levels, n, id)| > 0
    ensures var ls := Compacted(levels, n, id);
            || |Flat(ls)| < |Flat(levels)|
            || (|Flat(ls)| == |Flat(levels)| && |ls[0]| < |levels[0]|)
  {
    hide Flat;
    hide Threshold;
    assert Threshold(o, 0) == o.l0 by {
      ThresholdZero(o);
    }
    if n == 0 && Shape(levels) {
      CompactedShape(levels, id);
    }
    var upper, deeper := CompactionSplits(levels, n, id);
    var g := Grow(levels, n + 1);
    assert Inputs(levels, n) == levels[n] + g[n + 1];
    if n == 0 {
      var g' := g[0 := []][1 := [id]];
      assert g'[1] == [id];
      assert Trim(g') <= g' && |Trim(g')| > 1;
    }
  }

  lemma {:induction false} OnlyLevelZero(o: Options, levels: seq<seq<nat>>, n: nat)
    requires Shape(levels) && Threshold(o, 1) >= 2 && Over(o, levels, n)
    ensures n == 0
  {
  }

  lemma {:induction false} ThresholdZero(o: Options)
    ensures Threshold(o, 0) == o.l0
  {
  }

  // ----- Exactly when the loop stops ------------------------------------------------

  /** Once the threshold of level 1 is below two, no deeper threshold recovers. */
  lemma {:induction false} ThresholdsStayLow(o: Options, l: nat)
    requires o.l0 > 0 && o.growth > 0.0 && Threshold(o, 1) <= 1 && l >= 1
    ensures Threshold(o, l) <= 1
  {
    if l > 1 {
      ThresholdsStayLow(o, l - 1);
      assert (o.l0 as real * o.growth).Floor == Threshold(o, 1);
      assert o.l0 as real * o.growth >= o.growth;
      assert o.growth < 2.0;
      var t := Threshold(o, l - 1);
      if t <= 0 {
        assert t as real * o.growth <= 0.0;
      } else {
        assert t == 1;
        assert t as real * o.growth == o.growth;
      }
    }
  }

  /** Some level below level 0 holds exactly one table. */
  ghost predicate Stuck(levels: seq<seq<nat>>) {
    exists l :: 1 <= l < |levels| && |levels[l]| == 1
  }

  /** With low thresholds a table below level 0 is pushed down forever. */
  lemma {:induction false} StuckRound(o: Options, levels: seq<seq<nat>>, id: nat)
    requires o.l0 > 0 && o.growth > 0.0 && Threshold(o, 1) <= 1 && Stuck(levels)
    ensures FirstOver(o, levels, 0) >= 0 && Stuck(Round(o, levels, id))
  {
    var s :| 1 <= s < |levels| && |levels[s]| == 1;
    ThresholdsStayLow(o, s);
    assert Over(o, levels, s);
    var l := FirstOver(o, levels, 0);
    if levels[l] != [] {
      var g := Grow(levels, l + 1)[l := []][l + 1 := [id]];
      var t := Trim(g);
      assert g[l + 1] == [id];
      assert l + 1 < |t|;
      assert |t[l + 1]| == 1;
    }
  }

  lemma {:induction false} StuckRounds(o: Options, levels: seq<seq<nat>>, id: nat, n: nat)
    requires o.l0 > 0 && o.growth > 0.0 && Threshold(o, 1) <= 1 && Stuck(levels)
    ensures Stuck(Rounds(o, levels, id, n))
    ensures FirstOver(o, Rounds(o, levels, id, n), 0) >= 0
  {
    hide Round;
    hide Stuck;
    hide FirstOver;
    hide Threshold;
    if n > 0 {
      StuckRounds(o, levels, id, n - 1);
      StuckRound(o, Rounds(o, levels, id, n - 1), id + n - 1);
    }
    StuckRound(o, Rounds(o, levels, id, n), id);
  }

  lemma {:induction false} RoundsFromNext(o: Options, levels: seq<seq<nat>>, id: nat, n: nat)
    requires n > 0
    ensures Rounds(o, levels, id, n) == Rounds(o, Round(o, levels, id), id + 1, n - 1)
  {
    hide Round;
    if n > 1 {
      RoundsFromNext(o, levels, id, n - 1);
    } else {
      assert Rounds(o, levels, id, 0) == levels;
    }
  }

  /** The loop started on a full level 0 stops if and only if the level-1 threshold, that is
      floor(l0 * growth), is at least two; it then stops after one round. */
  lemma {:induction false} LoopStopsExactlyWhen(o: Options, levels: seq<seq<nat>>, id: nat)
    requires o.l0 > 0 && o.growth > 0.0 && Shape(levels) && Over(o, levels, 0)
    ensures (exists n: nat :: FirstOver(o, Rounds(o, levels, id, n), 0) < 0) <==> Threshold(o, 1) >= 2
    ensures Threshold(o, 1) >= 2 ==> Settled(o, Rounds(o, levels, id, 1))
  {
    hide Grow;
    hide Trim;
    hide FirstOver;
    var one := [[], [id]];
    CompactedShape(levels, id);
    assert Rounds(o, levels, id, 0) == levels;
    assert Rounds(o, levels, id, 1) == Round(o, levels, id) == one;
    if Threshold(o, 1) >= 2 {
      assert !Over(o, one, 0) && !Over(o, one, 1);
      assert FirstOver(o, Rounds(o, levels, id, 1), 0) < 0;
    } else {
      forall n: nat ensures FirstOver(o, Rounds(o, levels, id, n), 0) >= 0 {
        if n > 0 {
          RoundsFromNext(o, levels, id, n);
          assert |one[1]| == 1;
          assert Stuck(one);
          StuckRounds(o, one, id + 1, n - 1);
        }
      }
    }
  }
}
