/** The contract of a sorted key-value engine as the layers above use it: a finite map, and
    iterators that seek to the first key at or above a given one in a point-in-time view. */
module Engine {
  import opened Bytes
  import opened Records

  /** `c` is the first key at or above `k`. */
  predicate IsCeiling<V>(m: map<Bytes, V>, k: Bytes, c: Bytes) {
    c in m && !Less(c, k) && forall x :: x in m && !Less(x, k) ==> !Less(x, c)
  }

  lemma {:induction false} CeilingUnique<V>(m: map<Bytes, V>, k: Bytes, c: Bytes, c': Bytes)
    requires IsCeiling(m, k, c) && IsCeiling(m, k, c')
    ensures c == c'
  {
    hide Less;
    LessTrichotomy(c, c');
  }

  lemma {:induction false} LeastExists(s: set<Bytes>) returns (c: Bytes)
    requires s != {}
    ensures c in s && forall x :: x in s ==> !Less(x, c)
  {
    hide Less;
    c :| c in s;
    var rest := s - {c};
    LessIrreflexive(c);
    if rest == {} {
      forall x | x in s ensures x == c {
        assert x == c || x in rest;
      }
    } else {
      var d := LeastExists(rest);
      LessTrichotomy(c, d);
      if Less(d, c) {
        assert forall x :: x in s ==> x == c || x in rest;
        c := d;
      } else {
        forall x | x in s ensures !Less(x, c) {
          if x != c && Less(x, c) {
            assert x in rest;
            LessTransitive(x, c, d);
          }
        }
      }
    }
  }

  lemma {:induction false} CeilingExists<V>(m: map<Bytes, V>, k: Bytes)
    requires exists x :: x in m && !Less(x, k)
    ensures exists c :: IsCeiling(m, k, c)
  {
    hide Less;
    var above := set x | x in m && !Less(x, k);
    var w :| w in m && !Less(w, k);
    assert w in above;
    var c := LeastExists(above);
    assert IsCeiling(m, k, c);
  }

  /** Where `Seek(k)` lands. */
  function Ceiling<V>(m: map<Bytes, V>, k: Bytes): (c: Option<Bytes>)
    ensures c.Some? ==> IsCeiling(m, k, c.value)
    ensures c.None? ==> forall x :: x in m ==> Less(x, k)
  {
    if exists x :: x in m && !Less(x, k) then
      CeilingExists(m, k);
      assert forall c, c' :: IsCeiling(m, k, c) && IsCeiling(m, k, c') ==> c == c' by {
        forall c, c' | IsCeiling(m, k, c) && IsCeiling(m, k, c') ensures c == c' {
          CeilingUnique(m, k, c, c');
        }
      }
      var c :| c in m.Keys && IsCeiling(m, k, c);
      Some(c)
    else None
  }

  lemma {:induction false} CeilingIs<V>(m: map<Bytes, V>, k: Bytes, c: Bytes)
    requires IsCeiling(m, k, c)
    ensures Ceiling(m, k) == Some(c)
  {
    hide Less;
    var r := Ceiling(m, k);
    if r.Some? {
      CeilingUnique(m, k, c, r.value);
    }
  }

  /** Stepping past the ceiling leaves exactly the rest of the keys above. */
  lemma {:induction false} AfterCeiling<V>(m: map<Bytes, V>, k: Bytes, c: Bytes, x: Bytes)
    requires IsCeiling(m, k, c) && x in m
    ensures !Less(x, c + [0]) <==> !Less(x, k) && x != c
  {
    hide Less;
    SuccessorIsNext(c, x);
    LessTrichotomy(x, c);
    if Less(c, x) && Less(x, k) {
      LessTransitive(c, x, k);
    }
  }

  /** The keys a cursor at `b` has still to visit. */
  ghost function Remaining<V>(m: map<Bytes, V>, b: Bytes): set<Bytes> {
    set x | x in m && !Less(x, b)
  }

  lemma {:induction false} Shrinks<V>(m: map<Bytes, V>, b: Bytes, c: Bytes)
    requires IsCeiling(m, b, c)
    ensures Remaining(m, c + [0]) < Remaining(m, b)
  {
    hide Less;
    forall x | x in m ensures !Less(x, c + [0]) <==> !Less(x, b) && x != c {
      AfterCeiling(m, b, c, x);
    }
    assert c in Remaining(m, b) && c !in Remaining(m, c + [0]);
  }

  lemma {:induction false} BelowCeiling<V>(m: map<Bytes, V>, b: Bytes, c: Bytes, x: Bytes)
    requires IsCeiling(m, b, c) && Less(x, b)
    ensures Less(x, c)
  {
    hide Less;
    LessTrichotomy(c, b);
    if c != b {
      LessTransitive(x, b, c);
    }
  }

  lemma {:induction false} AboveStart(b: Bytes, c: Bytes, s: Bytes)
    requires !Less(b, s) && !Less(c, b)
    ensures !Less(c, s) && !Less(c + [0], s)
  {
    hide Less;
    LessTrichotomy(b, s);
    LessTrichotomy(c, b);
    if Less(c, s) {
      LessTransitive(c, s, b);
    }
    if Less(c + [0], s) {
      SuccessorIsNext(c, c);
      LessIrreflexive(c);
      LessTransitive(c, c + [0], s);
    }
  }
}
