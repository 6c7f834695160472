/** The sequence of frames F_0 .. F_{k+1} (`pdr::Frames`, src/algo/frames.cpp):
    level bookkeeping, the activation literals of delta mode and the two
    storage strategies behind `remove_state`.

    In delta mode a cube is stored once, at the highest level it is blocked
    at, and every level above 0 shares one solver in which the cubes of level
    `i` are guarded by the activation literal `act[i]`. In fat mode every
    frame has its own solver and a cube blocked at `L` is stored at every
    level `1 .. L`. */
module FrameSequence {
  import opened Literals
  import opened Cubes
  import opened Frame

  /** `IModel::Diff_t`: how the last change of the constraint moved the
      transition relation. */
  datatype ModelDiff = NoChange | Constrained | Relaxed

  /** The frames, the vocabulary used to rename cubes, and the activation
      literals; `act[i]` stands for `__act{i}__` (`__actI__` for `i = 0`). */
  datatype Frames = Frames(delta: bool, vars: VarVec, frames: seq<Frame>, act: seq<nat>, diff: ModelDiff)

  /** What every public operation keeps: at least F_0 and F_1, frame `i` at
      level `i`, F_0 holding no cubes, and in delta mode one activation
      literal per frame (none in fat mode). */
  predicate Invariant(F: Frames) {
    && |F.frames| >= 2
    && (forall i :: 0 <= i < |F.frames| ==> F.frames[i].level == i && Valid(F.frames[i]))
    && Content(F.frames[0]) == {}
    && (if F.delta then |F.act| == |F.frames| && (forall i :: 0 <= i < |F.act| ==> F.act[i] == i)
        else F.act == [])
  }

  /** `Frames::frontier`: the index of the second to last frame. */
  function Frontier(F: Frames): (r: nat)
    requires |F.frames| >= 2
    ensures r + 2 == |F.frames|
  {
    |F.frames| - 2
  }

  /** `Frames::extend`: one empty frame on top, plus its activation literal
      in delta mode. */
  function Extend(F: Frames): (r: Frames)
    requires |F.frames| > 0
    ensures r.delta == F.delta && r.vars == F.vars && r.diff == F.diff
    ensures |r.frames| == |F.frames| + 1 && r.frames[..|F.frames|] == F.frames
    ensures Content(r.frames[|F.frames|]) == {}
    ensures Invariant(F) ==> Invariant(r) && Frontier(r) == Frontier(F) + 1
  {
    var n := |F.frames|;
    F.(frames := F.frames + [NewFrame(n)], act := if F.delta then F.act + [n] else F.act)
  }

  /** `Frames::init_frame_I`: F_0, with the unused activation literal
      `__actI__` in delta mode. */
  function InitFrameI(F: Frames): (r: Frames)
    requires |F.frames| == 0 && F.act == []
    ensures |r.frames| == 1 && r.frames[0] == NewFrame(0)
    ensures r.act == if F.delta then [0] else []
  {
    F.(frames := [NewFrame(0)], act := if F.delta then [0] else [])
  }

  /** `Frames::reset`: all frames dropped, then F_0 and an empty F_1. */
  function Reset(F: Frames): (r: Frames)
    ensures Invariant(r) && Frontier(r) == 0
    ensures r.delta == F.delta && r.vars == F.vars && r.diff == F.diff
    ensures forall i :: 0 <= i < |r.frames| ==> Content(r.frames[i]) == {}
  {
    Extend(InitFrameI(F.(frames := [], act := [])))
  }

  /** `act.pop_back()` with `frames.pop_back()`. */
  function Pop(F: Frames): (r: Frames)
    requires Invariant(F) && |F.frames| > 2
    ensures Invariant(r) && r.frames == F.frames[..|F.frames| - 1]
    ensures r.delta == F.delta && r.vars == F.vars && r.diff == F.diff
  {
    F.(frames := F.frames[..|F.frames| - 1], act := if F.delta then F.act[..|F.act| - 1] else F.act)
  }

  /** `Frames::clear_until(j)`: pops frames until the frontier is at most
      `j`; the surviving frames are untouched. */
  function ClearUntil(F: Frames, j: nat): (r: Frames)
    requires Invariant(F)
    ensures Invariant(r)
    ensures Frontier(r) == if Frontier(F) <= j then Frontier(F) else j
    ensures r.frames == F.frames[..|r.frames|]
    ensures r.delta == F.delta && r.vars == F.vars && r.diff == F.diff
    decreases |F.frames|
  {
    if Frontier(F) <= j then F else ClearUntil(Pop(F), j)
  }

  // remove_state

  /** The `remove_subsumed(cube, i < L)` calls of `remove_state` at levels
      `i .. L`; what they erase is stated by PruneContent. */
  function Prune(fs: seq<Frame>, c: Cube, i: nat, L: nat): (r: seq<Frame>)
    requires 1 <= i <= L + 1 && L < |fs|
    requires forall j :: 0 <= j < |fs| ==> Valid(fs[j])
    ensures |r| == |fs|
    ensures forall j :: 0 <= j < |fs| ==> Valid(r[j]) && r[j].level == fs[j].level
    ensures forall j :: 0 <= j < |fs| && (j < i || j > L) ==> r[j] == fs[j]
    decreases L + 1 - i
  {
    if i > L then fs
    else Prune(fs[i := RemoveSubsumed(fs[i], c, i < L).0], c, i + 1, L)
  }

  /** Below `L` equal and weaker cubes go, at `L` only strictly weaker ones. */
  lemma {:induction false} PruneContent(fs: seq<Frame>, c: Cube, i: nat, L: nat)
    requires 1 <= i <= L + 1 && L < |fs|
    requires forall j :: 0 <= j < |fs| ==> Valid(fs[j])
    ensures forall j :: i <= j <= L ==>
              Content(Prune(fs, c, i, L)[j]) == set x | x in Content(fs[j]) && !Subsumes(j < L, c, x)
    decreases L + 1 - i
  {
    if i <= L {
      var gs := fs[i := RemoveSubsumed(fs[i], c, i < L).0];
      PruneContent(gs, c, i + 1, L);
      assert Prune(fs, c, i, L) == Prune(gs, c, i + 1, L);
    }
  }

  /** `Frames::delta_remove_state`: prunes levels `1 .. L`, then stores `c`
      at `L` alone; the result is whether `c` was new at `L`. */
  function DeltaRemoveState(F: Frames, c: Cube, L: nat): (r: (Frames, bool))
    requires Invariant(F) && 0 < L < |F.frames|
    ensures Invariant(r.0) && |r.0.frames| == |F.frames|
    ensures r.0.delta == F.delta && r.0.vars == F.vars && r.0.act == F.act && r.0.diff == F.diff
    ensures forall j :: 0 <= j < |F.frames| && (j == 0 || j > L) ==> r.0.frames[j] == F.frames[j]
    ensures c in Content(r.0.frames[L])
    ensures r.1 <==> c !in Content(F.frames[L])
  {
    var fs := Prune(F.frames, c, 1, L);
    PruneContent(F.frames, c, 1, L);
    SubsumesLeReflexive(c);
    var b := Block(fs[L], c);
    (F.(frames := fs[L := b.0]), b.1)
  }

  /** What a delta `remove_state(c, L)` leaves: levels below `L` lose every
      superset of `c`, `L` loses the strict supersets and gains `c`. */
  lemma DeltaRemoveStateContent(F: Frames, c: Cube, L: nat)
    requires Invariant(F) && 0 < L < |F.frames|
    ensures var G := DeltaRemoveState(F, c, L).0;
            forall j :: 1 <= j < L ==>
              Content(G.frames[j]) == set x | x in Content(F.frames[j]) && !SubsumesLe(c, x)
    ensures Content(DeltaRemoveState(F, c, L).0.frames[L])
            == (set x | x in Content(F.frames[L]) && !SubsumesL(c, x)) + {c}
  {
    PruneContent(F.frames, c, 1, L);
  }

  /** The loop of `Frames::fat_remove_state`: at each level `i .. L` prune,
      then store `c`; stop with false as soon as `c` was already there. */
  function FatLoop(fs: seq<Frame>, c: Cube, i: nat, L: nat): (r: (seq<Frame>, bool))
    requires 1 <= i <= L + 1 && L < |fs|
    requires forall j :: 0 <= j < |fs| ==> Valid(fs[j])
    ensures |r.0| == |fs|
    ensures forall j :: 0 <= j < |fs| ==> Valid(r.0[j]) && r.0[j].level == fs[j].level
    ensures forall j :: 0 <= j < |fs| && (j < i || j > L) ==> r.0[j] == fs[j]
    ensures forall j :: i <= j <= L ==> c in Content(r.0[j])
    ensures r.1 <==> i > L || c !in Content(fs[L])
    decreases L + 1 - i
  {
    if i > L then (fs, true)
    else
      var pruned := RemoveSubsumed(fs[i], c, i < L).0;
      SubsumesLeReflexive(c);
      var b := Block(pruned, c);
      if b.1 then FatLoop(fs[i := b.0], c, i + 1, L) else (fs[i := b.0], false)
  }

  /** One level of the fat loop: after the prune and the store, `x` is at
      the level exactly when it is `c` or was there and is no superset of
      `c` (no strict one at `L`). */
  lemma FatStepHas(f: Frame, c: Cube, i: nat, L: nat, x: Cube)
    requires Valid(f) && i <= L
    ensures x in Content(Block(RemoveSubsumed(f, c, i < L).0, c).0)
            <==> x == c || (x in Content(f) && !Subsumes(i < L, c, x))
  {
  }

  /** Below `L` the prune has deleted `c` itself, so storing it is new. */
  lemma FatStepNew(f: Frame, c: Cube, i: nat, L: nat)
    requires Valid(f) && i < L
    ensures Block(RemoveSubsumed(f, c, i < L).0, c).1
  {
    SubsumesLeReflexive(c);
  }

  /** Level `j` of the fat loop started at `i` holds `x` exactly when `x`
      is `c`, or was there and is no superset of `c` (no strict one at
      `L`). */
  lemma {:induction false} FatLoopHas(fs: seq<Frame>, c: Cube, i: nat, L: nat, j: nat, x: Cube)
    requires 1 <= i <= j <= L < |fs|
    requires forall k :: 0 <= k < |fs| ==> Valid(fs[k])
    ensures x in Content(FatLoop(fs, c, i, L).0[j]) <==> x == c || (x in Content(fs[j]) && !Subsumes(j < L, c, x))
    decreases L + 1 - i
  {
    var b := Block(RemoveSubsumed(fs[i], c, i < L).0, c);
    FatLoopUnfold(fs, c, i, L);
    if j == i {
      FatStepHas(fs[i], c, i, L, x);
    } else {
      FatStepNew(fs[i], c, i, L);
      var gs := fs[i := b.0];
      FatLoopHas(gs, c, i + 1, L, j, x);
      assert gs[j] == fs[j];
    }
  }

  /** One unfolding of the fat loop at level `i`. */
  lemma FatLoopUnfold(fs: seq<Frame>, c: Cube, i: nat, L: nat)
    requires 1 <= i <= L < |fs|
    requires forall k :: 0 <= k < |fs| ==> Valid(fs[k])
    ensures var b := Block(RemoveSubsumed(fs[i], c, i < L).0, c);
            && FatLoop(fs, c, i, L).0[i] == b.0
            && (b.1 ==> FatLoop(fs, c, i, L) == FatLoop(fs[i := b.0], c, i + 1, L))
  {
  }

  /** `Frames::fat_remove_state`: `c` ends up at every level `1 .. L`; the
      result is false only when `c` was already stored at `L`, because
      below `L` an equal copy is deleted before it is re-inserted. */
  function FatRemoveState(F: Frames, c: Cube, L: nat): (r: (Frames, bool))
    requires Invariant(F) && 0 < L < |F.frames|
    ensures Invariant(r.0) && |r.0.frames| == |F.frames|
    ensures r.0.delta == F.delta && r.0.vars == F.vars && r.0.act == F.act && r.0.diff == F.diff
    ensures forall j :: 0 <= j < |F.frames| && (j == 0 || j > L) ==> r.0.frames[j] == F.frames[j]
    ensures forall j :: 1 <= j <= L ==> c in Content(r.0.frames[j])
    ensures r.1 <==> c !in Content(F.frames[L])
  {
    var l := FatLoop(F.frames, c, 1, L);
    (F.(frames := l.0), l.1)
  }

  /** What a fat `remove_state(c, L)` leaves: every level `1 .. L` loses the
      supersets of `c` (only the strict ones at `L`) and holds `c`. */
  lemma FatRemoveStateContent(F: Frames, c: Cube, L: nat)
    requires Invariant(F) && 0 < L < |F.frames|
    ensures var G := FatRemoveState(F, c, L).0;
            forall j :: 1 <= j < L ==>
              Content(G.frames[j]) == (set x | x in Content(F.frames[j]) && !SubsumesLe(c, x)) + {c}
    ensures Content(FatRemoveState(F, c, L).0.frames[L])
            == (set x | x in Content(F.frames[L]) && !SubsumesL(c, x)) + {c}
  {
    var G := FatRemoveState(F, c, L).0;
    forall j, x | 1 <= j <= L
      ensures x in Content(G.frames[j]) <==> x == c || (x in Content(F.frames[j]) && !Subsumes(j < L, c, x))
    {
      FatLoopHas(F.frames, c, 1, L, j, x);
    }
  }

  /** `Frames::remove_state`: dispatch on the storage strategy. */
  function RemoveState(F: Frames, c: Cube, L: nat): (r: (Frames, bool))
    requires Invariant(F) && 0 < L < |F.frames|
    ensures Invariant(r.0) && |r.0.frames| == |F.frames|
    ensures r.0.delta == F.delta && r.0.vars == F.vars && r.0.act == F.act && r.0.diff == F.diff
    ensures c in Content(r.0.frames[L])
    ensures forall j :: 0 <= j < |F.frames| && (j == 0 || j > L) ==> r.0.frames[j] == F.frames[j]
    ensures r.1 <==> c !in Content(F.frames[L])
  {
    if F.delta then DeltaRemoveState(F, c, L) else FatRemoveState(F, c, L)
  }

  /** Some cube of `f` is a subset of `x`: `x` is blocked at least as
      strongly by `f`. */
  ghost predicate HasSubset(f: Frame, x: Cube) {
    exists y :: y in Content(f) && SubsumesLe(y, x)
  }

  /** Fat storage keeps the frames monotone: every cube at a level above 1
      has a subset one level down. */
  ghost predicate Monotone(fs: seq<Frame>) {
    forall i, x :: 2 <= i < |fs| && x in Content(fs[i]) ==> HasSubset(fs[i - 1], x)
  }

  lemma SubsumesLeTransitive(a: Cube, b: Cube, c: Cube)
    requires SubsumesLe(a, b) && SubsumesLe(b, c)
    ensures SubsumesLe(a, c)
  {
    forall i | 0 <= i < |a| ensures a[i] in c {
      var j :| 0 <= j < |b| && b[j] == a[i];
    }
  }

  /** The monotonicity step at one level `i` and one cube `x` after a fat
      `remove_state(c, L)`. */
  lemma FatRemoveStateMonotoneAt(F: Frames, c: Cube, L: nat, i: nat, x: Cube)
    requires Invariant(F) && 0 < L < |F.frames| && Monotone(F.frames)
    requires 2 <= i < |F.frames| && x in Content(FatRemoveState(F, c, L).0.frames[i])
    ensures HasSubset(FatRemoveState(F, c, L).0.frames[i - 1], x)
  {
    var G := FatRemoveState(F, c, L).0;
    FatRemoveStateContent(F, c, L);
    SubsumesLeReflexive(c);
    if i <= L {
      // both levels were rewritten
      if x == c {
        assert c in Content(G.frames[i - 1]);
      } else {
        assert x in Content(F.frames[i]);
        assert HasSubset(F.frames[i - 1], x);
        var y :| y in Content(F.frames[i - 1]) && SubsumesLe(y, x);
        if SubsumesLe(c, y) {
          SubsumesLeTransitive(c, y, x);
          assert c in Content(G.frames[i - 1]);
        } else {
          assert y in Content(G.frames[i - 1]);
        }
      }
    } else if i == L + 1 {
      // level L + 1 is untouched
      assert x in Content(F.frames[i]);
      assert HasSubset(F.frames[i - 1], x);
      var y :| y in Content(F.frames[i - 1]) && SubsumesLe(y, x);
      if SubsumesL(c, y) {
        SubsumesLeTransitive(c, y, x);
        assert c in Content(G.frames[i - 1]);
      } else {
        assert y in Content(G.frames[i - 1]);
      }
    } else {
      assert G.frames[i] == F.frames[i] && G.frames[i - 1] == F.frames[i - 1];
      assert HasSubset(F.frames[i - 1], x);
    }
  }

  /** A fat `remove_state` keeps the frames monotone. */
  lemma FatRemoveStateMonotone(F: Frames, c: Cube, L: nat)
    requires Invariant(F) && 0 < L < |F.frames| && Monotone(F.frames)
    ensures Monotone(FatRemoveState(F, c, L).0.frames)
  {
    var G := FatRemoveState(F, c, L).0;
    forall i, x | 2 <= i < |G.frames| && x in Content(G.frames[i])
      ensures HasSubset(G.frames[i - 1], x)
    {
      FatRemoveStateMonotoneAt(F, c, L, i, x);
    }
  }

  // What a frame excludes

  /** F_i excludes every state of `x`: some cube F_i holds is a subset of
      `x`. In delta mode F_i holds the cubes stored at levels `i ..`, in fat
      mode those stored at `i`. */
  ghost predicate Covers(F: Frames, x: Cube, i: nat) {
    match F.delta
    case true => exists j :: i <= j < |F.frames| && HasSubset(F.frames[j], x)
    case false => i < |F.frames| && HasSubset(F.frames[i], x)
  }

  /** A stored cube survives `remove_state(c, L)`, or was a superset of `c`
      at a level `c` now holds. */
  lemma RemoveStateKeeps(F: Frames, c: Cube, L: nat, j: nat, y: Cube)
    requires Invariant(F) && 0 < L < |F.frames| && 1 <= j < |F.frames| && y in Content(F.frames[j])
    ensures var G := RemoveState(F, c, L).0;
            y in Content(G.frames[j])
            || (SubsumesLe(c, y) && j <= L && c in Content(G.frames[L]) && (F.delta || c in Content(G.frames[j])))
  {
    if F.delta {
      DeltaRemoveStateContent(F, c, L);
    } else {
      FatRemoveStateContent(F, c, L);
    }
  }

  /** `remove_state` only strengthens: whatever F_i excluded before, it
      still excludes, for every level `i >= 1`. */
  lemma RemoveStateStrengthens(F: Frames, c: Cube, L: nat, x: Cube, i: nat)
    requires Invariant(F) && 0 < L < |F.frames| && 1 <= i && Covers(F, x, i)
    ensures Covers(RemoveState(F, c, L).0, x, i)
  {
    var G := RemoveState(F, c, L).0;
    var j :| i <= j < |F.frames| && HasSubset(F.frames[j], x) && (F.delta || j == i);
    var y :| y in Content(F.frames[j]) && SubsumesLe(y, x);
    RemoveStateKeeps(F, c, L, j, y);
    if y in Content(G.frames[j]) {
      assert HasSubset(G.frames[j], x);
    } else {
      SubsumesLeTransitive(c, y, x);
      if F.delta {
        assert HasSubset(G.frames[L], x);
      } else {
        assert HasSubset(G.frames[j], x);
      }
    }
  }

  /** After `remove_state(c, L)` every F_i with `1 <= i <= L` excludes `c`. */
  lemma RemoveStateCovers(F: Frames, c: Cube, L: nat, i: nat)
    requires Invariant(F) && 0 < L < |F.frames| && 1 <= i <= L
    ensures Covers(RemoveState(F, c, L).0, c, i)
  {
    var G := RemoveState(F, c, L).0;
    SubsumesLeReflexive(c);
    if F.delta {
      assert HasSubset(G.frames[L], c);
    } else {
      assert c in Content(G.frames[i]);
      assert HasSubset(G.frames[i], c);
    }
  }

  /** Every F_i with `i >= 1` of `G` excludes at least what it did in `F`. */
  ghost predicate Stronger(F: Frames, G: Frames) {
    forall x, i :: 1 <= i && Covers(F, x, i) ==> Covers(G, x, i)
  }

  lemma StrongerTransitive(F: Frames, G: Frames, H: Frames)
    ensures Stronger(F, G) && Stronger(G, H) ==> Stronger(F, H)
  {
  }

  lemma RemoveStateStronger(F: Frames, c: Cube, L: nat)
    requires Invariant(F) && 0 < L < |F.frames|
    ensures Stronger(F, RemoveState(F, c, L).0)
  {
    forall x, i | 1 <= i && Covers(F, x, i) ensures Covers(RemoveState(F, c, L).0, x, i) {
      RemoveStateStrengthens(F, c, L, x, i);
    }
  }

  /** `remove_state(c, L)` as its callers see it: the frames keep their
      shape and everything outside levels `1 .. L`, get only stronger, and
      afterwards every F_i with `1 <= i <= L` excludes `c`. */
  method BlockCube(F: Frames, c: Cube, L: nat) returns (G: Frames)
    requires Invariant(F) && 0 < L < |F.frames|
    ensures Invariant(G) && |G.frames| == |F.frames|
    ensures G.delta == F.delta && G.vars == F.vars && G.act == F.act && G.diff == F.diff
    ensures forall j :: 0 <= j < |F.frames| && (j == 0 || j > L) ==> G.frames[j] == F.frames[j]
    ensures c in Content(G.frames[L])
    ensures Stronger(F, G)
    ensures forall i :: 1 <= i <= L ==> Covers(G, c, i)
    ensures G == RemoveState(F, c, L).0
  {
    G := RemoveState(F, c, L).0;
    RemoveStateStronger(F, c, L);
    forall i | 1 <= i <= L ensures Covers(G, c, i) {
      RemoveStateCovers(F, c, L, i);
    }
  }

  /** In delta mode an empty F_i holds the same cubes as F_{i+1}: this is
      why `propagate` reports an empty level as an invariant. */
  lemma EmptyLevelIsFixpoint(F: Frames, x: Cube, i: nat)
    requires Invariant(F) && F.delta && i + 1 < |F.frames| && Content(F.frames[i]) == {}
    ensures Covers(F, x, i) <==> Covers(F, x, i + 1)
  {
    assert !HasSubset(F.frames[i], x);
    if Covers(F, x, i) {
      var j :| i <= j < |F.frames| && HasSubset(F.frames[j], x);
      assert i + 1 <= j;
    }
  }

  // get_blocked

  /** Inserting a sequence of cubes into a `CubeSet`. */
  function InsertAll(acc: seq<Cube>, cs: seq<Cube>): (r: seq<Cube>)
    requires CubesSorted(acc)
    ensures CubesSorted(r)
    ensures forall x :: x in r <==> x in acc || x in cs
    decreases |cs|
  {
    if |cs| == 0 then acc
    else
      assert forall x :: x in cs <==> x == cs[0] || x in cs[1..];
      InsertAll(Insert(acc, cs[0]).0, cs[1..])
  }

  /** The delta loop of `get_blocked`: the union of frames `i ..`. */
  function UnionFrom(fs: seq<Frame>, i: nat, acc: seq<Cube>): (r: seq<Cube>)
    requires i <= |fs| && CubesSorted(acc)
    ensures CubesSorted(r)
    ensures forall x :: x in r <==> x in acc || exists j :: i <= j < |fs| && x in Content(fs[j])
    decreases |fs| - i
  {
    if i == |fs| then acc
    else
      var r := UnionFrom(fs, i + 1, InsertAll(acc, fs[i].cubes));
      assert forall x :: (exists j :: i <= j < |fs| && x in Content(fs[j])) <==>
                         x in fs[i].cubes || exists j :: i + 1 <= j < |fs| && x in Content(fs[j]);
      r
  }

  /** `Frames::get_blocked(i)`: in delta mode every cube stored at level
      `i` or above (all of them hold at F_i); in fat mode F_1, whatever `i`
      is. */
  function GetBlocked(F: Frames, i: nat): (r: seq<Cube>)
    requires Invariant(F) && i < |F.frames|
    ensures CubesSorted(r)
    ensures F.delta ==> forall x :: x in r <==> exists j :: i <= j < |F.frames| && x in Content(F.frames[j])
    ensures !F.delta ==> forall x :: x in r <==> x in Content(F.frames[1])
  {
    if F.delta then UnionFrom(F.frames, i, []) else F.frames[1].cubes
  }
}
