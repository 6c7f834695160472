/** Cubes: conjunctions of literals kept as sequences sorted by literal id,
    the subsumption tests between them and the order of a `CubeSet`.

    `subsumes_le`, `subsumes_l` and `expr_vector_less` are used by the frame
    code but defined elsewhere; here `subsumes_le(a, b)` is inclusion of the
    literal sets, `subsumes_l(a, b)` proper inclusion, and
    `expr_vector_less` the lexicographic order over literal ids. */
module Cubes {
  import opened Literals

  type Cube = seq<Lit>

  /** A cube has strictly increasing literal ids. */
  predicate IsCube(c: Cube) {
    Sorted(c)
  }

  /** `subsumes_le(a, b)`: every literal of `a` occurs in `b`. As clauses,
      `!a` implies `!b`: `a` blocks at least the states `b` blocks. */
  predicate SubsumesLe(a: Cube, b: Cube) {
    forall i :: 0 <= i < |a| ==> a[i] in b
  }

  /** `subsumes_l(a, b)`: the literals of `a` are a proper subset of those
      of `b`. */
  predicate SubsumesL(a: Cube, b: Cube) {
    SubsumesLe(a, b) && !SubsumesLe(b, a)
  }

  function LitSet(c: Cube): set<Lit> {
    set i | 0 <= i < |c| :: c[i]
  }

  /** The subsumption tests are the set relations they are named after. */
  lemma SubsumesAsSets(a: Cube, b: Cube)
    ensures SubsumesLe(a, b) <==> LitSet(a) <= LitSet(b)
    ensures SubsumesL(a, b) <==> LitSet(a) < LitSet(b)
  {
    if SubsumesLe(a, b) {
      forall x | x in LitSet(a) ensures x in LitSet(b) {
        var i :| 0 <= i < |a| && a[i] == x;
        var j :| 0 <= j < |b| && b[j] == x;
      }
    }
    if LitSet(a) <= LitSet(b) {
      forall i | 0 <= i < |a| ensures a[i] in b {
        assert a[i] in LitSet(a);
      }
    }
    if SubsumesLe(b, a) {
      forall x | x in LitSet(b) ensures x in LitSet(a) {
        var i :| 0 <= i < |b| && b[i] == x;
        var j :| 0 <= j < |a| && a[j] == x;
      }
    }
    if LitSet(b) <= LitSet(a) {
      forall i | 0 <= i < |b| ensures b[i] in a {
        assert b[i] in LitSet(b);
      }
    }
  }

  lemma SubsumesLeReflexive(c: Cube)
    ensures SubsumesLe(c, c) && !SubsumesL(c, c)
  {
  }

  /** Two cubes with the same literals are the same sorted sequence. */
  lemma {:induction false} CubeExtensional(a: Cube, b: Cube)
    requires IsCube(a) && IsCube(b) && SubsumesLe(a, b) && SubsumesLe(b, a)
    ensures a == b
    decreases |a|
  {
    if |a| > 0 {
      assert a[0] in b;
    }
    if |b| > 0 {
      assert b[0] in a;
    }
    if |a| > 0 {
      assert a[0] == b[0] by {
        var j :| 0 <= j < |b| && b[j] == a[0];
        var i :| 0 <= i < |a| && a[i] == b[0];
        if a[0] != b[0] {
          assert i > 0 && j > 0;
          LessAsymmetric(a[0], a[i]);
        }
      }
      forall i | 0 <= i < |a| - 1 ensures a[1..][i] in b[1..] {
        var j :| 0 <= j < |b| && b[j] == a[i + 1];
        if j == 0 {
          LessIrreflexive(a[0]);
        }
      }
      forall i | 0 <= i < |b| - 1 ensures b[1..][i] in a[1..] {
        var j :| 0 <= j < |a| && a[j] == b[i + 1];
        if j == 0 {
          LessIrreflexive(b[0]);
        }
      }
      CubeExtensional(a[1..], b[1..]);
      assert a == [a[0]] + a[1..] && b == [b[0]] + b[1..];
    }
  }

  // The order of a `CubeSet`

  /** `expr_vector_less`: lexicographic over literal ids; a proper prefix is
      smaller. */
  predicate CubeLess(a: Cube, b: Cube)
    decreases |a|
  {
    if |a| == 0 then |b| > 0
    else if |b| == 0 then false
    else if a[0] != b[0] then Less(a[0], b[0])
    else CubeLess(a[1..], b[1..])
  }

  lemma {:induction false} CubeLessIrreflexive(a: Cube)
    ensures !CubeLess(a, a)
    decreases |a|
  {
    if |a| > 0 {
      CubeLessIrreflexive(a[1..]);
    }
  }

  lemma {:induction false} CubeLessTransitive(a: Cube, b: Cube, c: Cube)
    requires CubeLess(a, b) && CubeLess(b, c)
    ensures CubeLess(a, c)
    decreases |a|
  {
    if |a| > 0 && |b| > 0 && |c| > 0 {
      if a[0] == b[0] && b[0] == c[0] {
        CubeLessTransitive(a[1..], b[1..], c[1..]);
      } else if a[0] != b[0] && b[0] != c[0] {
        LessTransitive(a[0], b[0], c[0]);
        if a[0] == c[0] {
          LessIrreflexive(a[0]);
        }
      }
    }
  }

  lemma {:induction false} CubeLessTotal(a: Cube, b: Cube)
    ensures a == b || CubeLess(a, b) || CubeLess(b, a)
    decreases |a|
  {
    if |a| > 0 && |b| > 0 {
      if a[0] == b[0] {
        CubeLessTotal(a[1..], b[1..]);
        assert a == [a[0]] + a[1..] && b == [b[0]] + b[1..];
      } else {
        LessTotal(a[0], b[0]);
      }
    }
  }

  lemma CubeLessAsymmetric(a: Cube, b: Cube)
    requires CubeLess(a, b)
    ensures !CubeLess(b, a)
  {
    if CubeLess(b, a) {
      CubeLessTransitive(a, b, a);
      CubeLessIrreflexive(a);
    }
  }

  /** `expr_vector_less` is a strict total order, so a `CubeSet` is a set
      kept in one well-defined order. */
  lemma CubeLessStrictTotal()
    ensures forall a: Cube :: !CubeLess(a, a)
    ensures forall a: Cube, b: Cube, c: Cube :: CubeLess(a, b) && CubeLess(b, c) ==> CubeLess(a, c)
    ensures forall a: Cube, b: Cube :: a == b || CubeLess(a, b) || CubeLess(b, a)
  {
    forall a: Cube { CubeLessIrreflexive(a); }
    forall a: Cube, b: Cube, c: Cube | CubeLess(a, b) && CubeLess(b, c) { CubeLessTransitive(a, b, c); }
    forall a: Cube, b: Cube { CubeLessTotal(a, b); }
  }

  /** A `CubeSet` in iteration order: strictly increasing. */
  predicate CubesSorted(cs: seq<Cube>) {
    forall i, j :: 0 <= i < j < |cs| ==> CubeLess(cs[i], cs[j])
  }

  /** Two strictly increasing sequences with the same elements are equal: the
      iteration order of a `CubeSet` is determined by its contents. */
  lemma {:induction false} SortedUnique(xs: seq<Cube>, ys: seq<Cube>)
    requires CubesSorted(xs) && CubesSorted(ys)
    requires forall x :: x in xs <==> x in ys
    ensures xs == ys
    decreases |xs|
  {
    if |xs| > 0 {
      assert xs[0] in ys;
    }
    if |ys| > 0 {
      assert ys[0] in xs;
    }
    if |xs| > 0 {
      assert xs[0] == ys[0] by {
        assert xs[0] in ys && ys[0] in xs;
        var j :| 0 <= j < |ys| && ys[j] == xs[0];
        var i :| 0 <= i < |xs| && xs[i] == ys[0];
        if xs[0] != ys[0] {
          assert i > 0 && j > 0;
          CubeLessAsymmetric(xs[0], xs[i]);
        }
      }
      forall x
        ensures x in xs[1..] <==> x in ys[1..]
      {
        if x in xs[1..] {
          var i :| 1 <= i < |xs| && xs[i] == x;
          if x == ys[0] {
            CubeLessIrreflexive(xs[0]);
          }
          assert x in ys;
          var j :| 0 <= j < |ys| && ys[j] == x;
          assert j > 0;
          assert ys[1..][j - 1] == x;
        }
        if x in ys[1..] {
          var j :| 1 <= j < |ys| && ys[j] == x;
          if x == xs[0] {
            CubeLessIrreflexive(ys[0]);
          }
          assert x in xs;
          var i :| 0 <= i < |xs| && xs[i] == x;
          assert i > 0;
          assert xs[1..][i - 1] == x;
        }
      }
      SortedUnique(xs[1..], ys[1..]);
      assert xs == [xs[0]] + xs[1..] && ys == [ys[0]] + ys[1..];
    }
  }
}
