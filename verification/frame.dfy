/** One frame of blocked cubes (`pdr::Frame`, src/algo/frame.cpp): a level
    fixed at construction and a `CubeSet`, modelled as the strictly
    increasing sequence in which the set iterates. Every operation returns
    the new frame; queries take the frame by value, so they cannot change
    it. */
module Frame {
  import opened Literals
  import opened Cubes

  datatype Frame = Frame(level: nat, cubes: seq<Cube>)

  /** The `CubeSet` invariant: iteration order is strictly increasing. */
  predicate Valid(f: Frame) {
    CubesSorted(f.cubes)
  }

  function Content(f: Frame): set<Cube> {
    set x | x in f.cubes
  }

  /** `Frame(i)`: an empty frame at level `i`. */
  function NewFrame(i: nat): (r: Frame)
    ensures Valid(r) && r.level == i && Content(r) == {}
  {
    Frame(i, [])
  }

  // blocked / is_subsumed

  function BlockedFrom(cs: seq<Cube>, c: Cube, i: nat): (r: bool)
    requires i <= |cs|
    ensures r <==> exists j :: i <= j < |cs| && SubsumesL(cs[j], c)
    decreases |cs| - i
  {
    if i == |cs| then false
    else if SubsumesL(cs[i], c) then true
    else BlockedFrom(cs, c, i + 1)
  }

  /** `Frame::blocked` (declared as `is_subsumed`): some stored cube is a
      strict subset of `c`. The test is strict: `c` itself being stored
      does not count. */
  function Blocked(f: Frame, c: Cube): (r: bool)
    ensures r <==> exists b :: b in Content(f) && SubsumesL(b, c)
  {
    var r := BlockedFrom(f.cubes, c, 0);
    assert r ==> exists b :: b in Content(f) && SubsumesL(b, c) by {
      if r {
        var j :| 0 <= j < |f.cubes| && SubsumesL(f.cubes[j], c);
        assert f.cubes[j] in Content(f);
      }
    }
    r
  }

  // Sorted-sequence facts shared by the set operations below

  /** The tail of a `CubeSet` is one, and its head is below every later cube. */
  lemma HeadLess(cs: seq<Cube>)
    requires CubesSorted(cs) && |cs| > 0
    ensures CubesSorted(cs[1..])
    ensures forall x :: x in cs[1..] ==> CubeLess(cs[0], x)
  {
  }

  /** A cube below the head of a `CubeSet` is below all of it, so absent. */
  lemma BelowHead(c: Cube, cs: seq<Cube>)
    requires CubesSorted(cs) && |cs| > 0 && CubeLess(c, cs[0])
    ensures forall x :: x in cs ==> CubeLess(c, x)
    ensures c !in cs
  {
    forall x | x in cs ensures CubeLess(c, x) {
      if x != cs[0] {
        var j :| 0 < j < |cs| && cs[j] == x;
        CubeLessTransitive(c, cs[0], x);
      }
    }
    CubeLessIrreflexive(c);
  }

  lemma ConsSorted(c: Cube, rest: seq<Cube>)
    requires CubesSorted(rest)
    requires forall x :: x in rest ==> CubeLess(c, x)
    ensures CubesSorted([c] + rest)
  {
    var s := [c] + rest;
    forall i, j | 0 <= i < j < |s| ensures CubeLess(s[i], s[j]) {
      assert s[j] == rest[j - 1];
      if i > 0 {
        assert s[i] == rest[i - 1];
      }
    }
  }

  // remove_subsumed

  /** The deletion test of `remove_subsumed`: `subsumes_le` when equal
      cubes are to be removed as well, `subsumes_l` otherwise. */
  predicate Subsumes(removeEqual: bool, c: Cube, r: Cube) {
    if removeEqual then SubsumesLe(c, r) else SubsumesL(c, r)
  }

  function KeepUnsubsumed(cs: seq<Cube>, c: Cube, removeEqual: bool): (r: seq<Cube>)
    ensures forall x :: x in r <==> x in cs && !Subsumes(removeEqual, c, x)
    ensures CubesSorted(cs) ==> CubesSorted(r)
    ensures |r| <= |cs|
    decreases |cs|
  {
    if |cs| == 0 then []
    else
      var rest := KeepUnsubsumed(cs[1..], c, removeEqual);
      assert forall x :: x in cs <==> x == cs[0] || x in cs[1..];
      assert CubesSorted(cs) ==> CubesSorted(cs[1..]) && CubesSorted([cs[0]] + rest) by {
        if CubesSorted(cs) {
          HeadLess(cs);
          ConsSorted(cs[0], rest);
        }
      }
      if Subsumes(removeEqual, c, cs[0]) then rest else [cs[0]] + rest
  }

  /** The number of distinct cubes of a `CubeSet` is its length. */
  lemma {:induction false} SortedCard(cs: seq<Cube>)
    requires CubesSorted(cs)
    ensures |set x | x in cs| == |cs|
    decreases |cs|
  {
    if |cs| > 0 {
      SortedCard(cs[1..]);
      assert (set x | x in cs) == {cs[0]} + (set x | x in cs[1..]);
      if cs[0] in cs[1..] {
        var j :| 1 <= j < |cs| && cs[j] == cs[0];
        CubeLessIrreflexive(cs[0]);
      }
    }
  }

  /** `Frame::remove_subsumed` (both overloads): deletes exactly the stored
      cubes `r` with `subsumes(c, r)` and returns how many it deleted. */
  function RemoveSubsumed(f: Frame, c: Cube, removeEqual: bool): (r: (Frame, nat))
    requires Valid(f)
    ensures Valid(r.0) && r.0.level == f.level
    ensures Content(r.0) == set x | x in Content(f) && !Subsumes(removeEqual, c, x)
    ensures r.1 == |set x | x in Content(f) && Subsumes(removeEqual, c, x)|
  {
    var kept := KeepUnsubsumed(f.cubes, c, removeEqual);
    var g := Frame(f.level, kept);
    var removed := set x | x in Content(f) && Subsumes(removeEqual, c, x);
    assert Content(g) == Content(f) - removed;
    SortedCard(f.cubes);
    SortedCard(kept);
    (g, |f.cubes| - |kept|)
  }

  /** Deleted cubes are weaker than `c`: `c`'s literals are among theirs. */
  lemma RemoveSubsumedOnlyWeaker(f: Frame, c: Cube, removeEqual: bool, x: Cube)
    requires Valid(f) && x in Content(f) && x !in Content(RemoveSubsumed(f, c, removeEqual).0)
    ensures SubsumesLe(c, x)
  {
  }

  /** With `remove_equal` a stored copy of `c` is deleted; without it the
      copy survives. */
  lemma RemoveEqualChoice(f: Frame, c: Cube)
    requires Valid(f) && c in Content(f)
    ensures c !in Content(RemoveSubsumed(f, c, true).0)
    ensures c in Content(RemoveSubsumed(f, c, false).0)
  {
    SubsumesLeReflexive(c);
  }

  // block

  /** `std::set::insert` on the sorted sequence: the new sequence and
      whether `c` was absent. */
  function Insert(cs: seq<Cube>, c: Cube): (r: (seq<Cube>, bool))
    requires CubesSorted(cs)
    ensures CubesSorted(r.0)
    ensures forall x :: x in r.0 <==> x in cs || x == c
    ensures r.1 <==> c !in cs
    decreases |cs|
  {
    if |cs| == 0 then ([c], true)
    else if c == cs[0] then (cs, false)
    else if CubeLess(c, cs[0]) then
      BelowHead(c, cs);
      ConsSorted(c, cs);
      ([c] + cs, true)
    else
      CubeLessTotal(c, cs[0]);
      HeadLess(cs);
      var rest := Insert(cs[1..], c);
      assert forall x :: x in cs <==> x == cs[0] || x in cs[1..];
      ConsSorted(cs[0], rest.0);
      ([cs[0]] + rest.0, rest.1)
  }

  /** `Frame::block`: plain insertion into the set, without any subsumption
      check; the result is whether `c` was not stored before. */
  function Block(f: Frame, c: Cube): (r: (Frame, bool))
    requires Valid(f)
    ensures Valid(r.0) && r.0.level == f.level
    ensures Content(r.0) == Content(f) + {c}
    ensures r.1 <==> c !in Content(f)
  {
    var ins := Insert(f.cubes, c);
    (Frame(f.level, ins.0), ins.1)
  }

  /** Blocking the same cube twice: the second call reports no insertion
      and leaves the frame as it was. */
  lemma BlockIdempotent(f: Frame, c: Cube)
    requires Valid(f)
    ensures !Block(Block(f, c).0, c).1
    ensures Block(Block(f, c).0, c).0 == Block(f, c).0
  {
    var g := Block(f, c).0;
    var h := Block(g, c).0;
    SortedUnique(h.cubes, g.cubes);
  }

  // equals

  /** The inner loop of `equals`: literal ids compared pairwise. */
  function LitsEqualFrom(a: Cube, b: Cube, j: nat): (r: bool)
    ensures r <==> forall k :: j <= k < |a| && k < |b| ==> a[k] == b[k]
    decreases |a| - j
  {
    if j >= |a| || j >= |b| then true
    else if a[j] != b[j] then false
    else LitsEqualFrom(a, b, j + 1)
  }

  /** The outer loop of `equals`, run after the sizes were found equal. */
  function CubesEqualFrom(l: seq<Cube>, rs: seq<Cube>, i: nat): (r: bool)
    requires |l| == |rs| && i <= |l|
    ensures r <==> l[i..] == rs[i..]
    decreases |l| - i
  {
    if i == |l| then true
    else if |l[i]| != |rs[i]| then false
    else if !LitsEqualFrom(l[i], rs[i], 0) then false
    else
      var r := CubesEqualFrom(l, rs, i + 1);
      assert l[i] == rs[i];
      assert l[i..] == [l[i]] + l[i + 1..] && rs[i..] == [rs[i]] + rs[i + 1..];
      r
  }

  /** `Frame::equals`: false when the sizes differ, otherwise a cube-by-cube,
      literal-by-literal comparison in set order. */
  function Equals(f: Frame, g: Frame): (r: bool)
    ensures r <==> f.cubes == g.cubes
  {
    if |f.cubes| != |g.cubes| then false
    else
      var r := CubesEqualFrom(f.cubes, g.cubes, 0);
      assert f.cubes[0..] == f.cubes && g.cubes[0..] == g.cubes;
      r
  }

  /** On valid frames the linear pass decides set equality. */
  lemma EqualsIsSetEquality(f: Frame, g: Frame)
    requires Valid(f) && Valid(g)
    ensures Equals(f, g) <==> Content(f) == Content(g)
  {
    if Content(f) == Content(g) {
      forall x ensures x in f.cubes <==> x in g.cubes {
        assert x in f.cubes <==> x in Content(f);
        assert x in g.cubes <==> x in Content(g);
      }
      SortedUnique(f.cubes, g.cubes);
    }
  }

  // diff

  /** `std::set_difference` over two sorted ranges. */
  function SetDifference(a: seq<Cube>, b: seq<Cube>): (r: seq<Cube>)
    requires CubesSorted(a) && CubesSorted(b)
    ensures CubesSorted(r)
    ensures forall x :: x in r <==> x in a && x !in b
    decreases |a| + |b|
  {
    if |a| == 0 then []
    else if |b| == 0 then a
    else
      assert forall x :: x in a <==> x == a[0] || x in a[1..];
      assert forall x :: x in b <==> x == b[0] || x in b[1..];
      HeadLess(a);
      HeadLess(b);
      if CubeLess(a[0], b[0]) then
        var rest := SetDifference(a[1..], b);
        BelowHead(a[0], b);
        ConsSorted(a[0], rest);
        [a[0]] + rest
      else if CubeLess(b[0], a[0]) then
        var rest := SetDifference(a, b[1..]);
        BelowHead(b[0], a);
        rest
      else
        CubeLessTotal(a[0], b[0]);
        CubeLessIrreflexive(a[0]);
        var rest := SetDifference(a[1..], b[1..]);
        rest
  }

  /** `Frame::diff`: the cubes of `f` not in `g`, in set order. */
  function Diff(f: Frame, g: Frame): (r: seq<Cube>)
    requires Valid(f) && Valid(g)
    ensures CubesSorted(r)
    ensures (set x | x in r) == Content(f) - Content(g)
  {
    SetDifference(f.cubes, g.cubes)
  }

  /** `Frame::empty` */
  function Empty(f: Frame): (r: bool)
    ensures r <==> Content(f) == {}
  {
    if |f.cubes| == 0 then true
    else
      assert f.cubes[0] in Content(f);
      false
  }
}
