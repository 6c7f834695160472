/** Propagation and the IPDR reuse resets of the frame sequence
    (src/algo/frames.cpp): pushing cubes that have no predecessor one level
    up, detecting the fixpoint, and carrying blocked cubes over a change of
    the constraint. */
module Propagation {
  import opened Wrappers
  import opened Literals
  import opened Cubes
  import opened Frame
  import opened FrameSequence
  import opened FrameQueries

  /** What pushing keeps: the shape of the frames, every frame but
      F_1 .. F_{level+1}, and everything blocked before. */
  ghost predicate PushKeeps(F: Frames, G: Frames, level: nat) {
    && Invariant(G) && |G.frames| == |F.frames|
    && G.delta == F.delta && G.vars == F.vars && G.act == F.act && G.diff == F.diff
    && (forall j :: 0 <= j < |F.frames| && (j == 0 || j > level + 1) ==> G.frames[j] == F.frames[j])
    && Stronger(F, G)
  }

  /** One try of the push loop: the cube, the frames its query was asked
      of, and whether it was pushed. */
  datatype Try = Try(c: Cube, asked: Frames, pushed: bool)

  /** `next` is what try `t` leaves: the frames it was asked of with its
      cube blocked at `level + 1` (`remove_state`) when it was pushed, and
      unchanged otherwise. */
  ghost predicate Follows(t: Try, level: nat, next: Frames) {
    && Invariant(t.asked) && level + 1 < |t.asked.frames|
    && next == if t.pushed then RemoveState(t.asked, t.c, level + 1).0 else t.asked
  }

  /** `tries` is a push loop over `cubes` at `level`: one try per cube, in
      order; a cube is pushed exactly when it has no transition source at
      F_level of the frames as they were when it was tried, and each try
      is asked of the frames the previous one left. */
  ghost predicate Tried(o: Oracle, level: nat, cubes: seq<Cube>, tries: seq<Try>) {
    && |tries| == |cubes|
    && (forall k :: 0 <= k < |tries| ==>
          && tries[k].c == cubes[k]
          && Invariant(tries[k].asked) && level + 1 < |tries[k].asked.frames|
          && (tries[k].pushed <==> !TransSource(tries[k].asked, o, level, cubes[k], false)))
    && (forall k :: 0 <= k < |tries| - 1 ==> Follows(tries[k], level, tries[k + 1].asked))
  }

  /** The loop starts from `F` and ends in `G`: the first try is asked of
      `F`, and `G` is what the last try leaves. */
  ghost predicate EndsAt(F: Frames, tries: seq<Try>, level: nat, G: Frames) {
    && (|tries| == 0 ==> G == F)
    && (|tries| > 0 ==> tries[0].asked == F && Follows(tries[|tries| - 1], level, G))
  }

  /** Every pushed cube is excluded by F_{level+1} of `G`. */
  ghost predicate PushedCovered(G: Frames, tries: seq<Try>, level: nat) {
    forall k :: 0 <= k < |tries| && tries[k].pushed ==> Covers(G, tries[k].c, level + 1)
  }

  lemma PushedCoveredStronger(G: Frames, G': Frames, tries: seq<Try>, level: nat)
    requires Stronger(G, G') && PushedCovered(G, tries, level)
    ensures PushedCovered(G', tries, level)
  {
    forall k | 0 <= k < |tries| && tries[k].pushed ensures Covers(G', tries[k].c, level + 1) {
      assert Covers(G, tries[k].c, level + 1);
    }
  }

  /** One cube of the push loop: blocked at `level + 1` when it has no
      transition source at F_level. */
  method PushOne(F: Frames, G: Frames, o: Oracle, level: nat, c: Cube, tries: seq<Try>)
    returns (G': Frames, pushed: bool)
    requires Invariant(F) && 1 <= level && level + 1 < |F.frames|
    requires PushKeeps(F, G, level) && PushedCovered(G, tries, level)
    ensures PushKeeps(F, G', level)
    ensures pushed <==> !TransSource(G, o, level, c, false)
    ensures pushed ==> G' == RemoveState(G, c, level + 1).0
    ensures !pushed ==> G' == G
    ensures PushedCovered(G', tries, level)
    ensures pushed ==> Covers(G', c, level + 1)
  {
    pushed := !TransSource(G, o, level, c, false);
    G' := G;
    if pushed {
      G' := BlockCube(G, c, level + 1);
      StrongerTransitive(F, G, G');
      PushedCoveredStronger(G, G', tries, level);
    }
  }

  /** One more try keeps the record of the loop. */
  lemma TriedSnoc(o: Oracle, level: nat, cubes: seq<Cube>, tries: seq<Try>, F: Frames, G: Frames, t: Try)
    requires Tried(o, level, cubes, tries) && EndsAt(F, tries, level, G)
    requires t.asked == G && Invariant(G) && level + 1 < |G.frames|
    requires t.pushed <==> !TransSource(G, o, level, t.c, false)
    ensures Tried(o, level, cubes + [t.c], tries + [t])
    ensures |tries| == 0 ==> (tries + [t])[0].asked == F
  {
    var ts, cs := tries + [t], cubes + [t.c];
    forall k | 0 <= k < |ts| - 1 ensures Follows(ts[k], level, ts[k + 1].asked) {
      if k + 1 < |tries| {
        assert ts[k] == tries[k] && ts[k + 1] == tries[k + 1];
      } else {
        assert ts[k] == tries[|tries| - 1];
      }
    }
    forall k | 0 <= k < |ts|
      ensures ts[k].c == cs[k] && Invariant(ts[k].asked) && level + 1 < |ts[k].asked.frames|
      ensures ts[k].pushed <==> !TransSource(ts[k].asked, o, level, cs[k], false)
    {
      if k < |tries| {
        assert ts[k] == tries[k] && cs[k] == cubes[k];
      }
    }
  }

  /** The loop body shared by `push_forward_delta` and `push_forward_fat`:
      every cube of `cubes` is tried in order, and is blocked at
      `level + 1` exactly when it has no transition source at F_level
      (asked of the frames as they are at that moment). */
  method PushCubes(F: Frames, o: Oracle, level: nat, cubes: seq<Cube>) returns (G: Frames, tries: seq<Try>)
    requires Invariant(F) && 1 <= level && level + 1 < |F.frames|
    ensures Invariant(G) && |G.frames| == |F.frames|
    ensures G.delta == F.delta && G.vars == F.vars && G.act == F.act && G.diff == F.diff
    ensures forall j :: 0 <= j < |F.frames| && (j == 0 || j > level + 1) ==> G.frames[j] == F.frames[j]
    ensures Stronger(F, G)
    ensures Tried(o, level, cubes, tries) && EndsAt(F, tries, level, G)
    ensures PushedCovered(G, tries, level)
  {
    G, tries := F, [];
    var k := 0;
    assert cubes[..0] == [];
    while k < |cubes|
      invariant 0 <= k <= |cubes|
      invariant PushLoop(F, o, level, cubes[..k], G, tries)
    {
      G, tries := PushStep(F, o, level, cubes[..k], cubes[k], G, tries);
      assert cubes[..k + 1] == cubes[..k] + [cubes[k]];
      k := k + 1;
    }
    assert cubes[..k] == cubes;
  }

  /** What holds after the push loop has tried `done`. */
  ghost predicate PushLoop(F: Frames, o: Oracle, level: nat, done: seq<Cube>, G: Frames, tries: seq<Try>) {
    && PushKeeps(F, G, level)
    && Tried(o, level, done, tries) && EndsAt(F, tries, level, G)
    && PushedCovered(G, tries, level)
  }

  /** One iteration of the push loop: try `c` and record the try. */
  method PushStep(F: Frames, o: Oracle, level: nat, done: seq<Cube>, c: Cube, G: Frames, tries: seq<Try>)
    returns (G': Frames, tries': seq<Try>)
    requires Invariant(F) && 1 <= level && level + 1 < |F.frames|
    requires PushLoop(F, o, level, done, G, tries)
    ensures PushLoop(F, o, level, done + [c], G', tries')
  {
    var pushed;
    G', pushed := PushOne(F, G, o, level, c, tries);
    var t := Try(c, G, pushed);
    TriedSnoc(o, level, done, tries, F, G, t);
    tries' := tries + [t];
    assert Follows(t, level, G');
    PushedCoveredSnoc(G', tries, t, level);
  }

  lemma PushedCoveredSnoc(G: Frames, tries: seq<Try>, t: Try, level: nat)
    requires PushedCovered(G, tries, level) && (t.pushed ==> Covers(G, t.c, level + 1))
    ensures PushedCovered(G, tries + [t], level)
  {
    var ts := tries + [t];
    forall k | 0 <= k < |ts| && ts[k].pushed ensures Covers(G, ts[k].c, level + 1) {
      if k < |tries| {
        assert ts[k] == tries[k];
      }
    }
  }

  /** `Frames::push_forward_delta`: tries every cube stored at `level`. */
  method PushForwardDelta(F: Frames, o: Oracle, level: nat) returns (G: Frames, tries: seq<Try>)
    requires Invariant(F) && 1 <= level && level + 1 < |F.frames|
    ensures Invariant(G) && |G.frames| == |F.frames|
    ensures G.delta == F.delta && G.vars == F.vars && G.act == F.act && G.diff == F.diff
    ensures Stronger(F, G)
    ensures Tried(o, level, F.frames[level].cubes, tries) && EndsAt(F, tries, level, G)
    ensures PushedCovered(G, tries, level)
  {
    G, tries := PushCubes(F, o, level, F.frames[level].cubes);
  }

  /** `push_forward_fat`'s answer: F_level held no cube missing from
      F_{level+1} before the push (`start`), or the two frames are equal
      after it (`end`). */
  ghost predicate ReportsFixpoint(start: Frames, end: Frames, level: nat) {
    && level + 1 < |start.frames| && level + 1 < |end.frames|
    && (|| Content(start.frames[level]) <= Content(start.frames[level + 1])
        || end.frames[level].cubes == end.frames[level + 1].cubes)
  }

  /** `Frames::push_forward_fat`: tries the cubes of F_level missing from
      F_{level+1}; reports `level` when there were none, or when the two
      frames are equal afterwards. */
  method PushForwardFat(F: Frames, o: Oracle, level: nat) returns (G: Frames, rv: Option<nat>, tries: seq<Try>)
    requires Invariant(F) && 1 <= level && level + 1 < |F.frames|
    ensures Invariant(G) && |G.frames| == |F.frames|
    ensures G.delta == F.delta && G.vars == F.vars && G.act == F.act && G.diff == F.diff
    ensures Stronger(F, G)
    ensures Tried(o, level, Diff(F.frames[level], F.frames[level + 1]), tries) && EndsAt(F, tries, level, G)
    ensures PushedCovered(G, tries, level)
    ensures rv.Some? <==> Content(F.frames[level]) <= Content(F.frames[level + 1])
                          || G.frames[level].cubes == G.frames[level + 1].cubes
    ensures rv.Some? ==> rv.value == level && Content(G.frames[level]) <= Content(G.frames[level + 1])
  {
    var diff := Diff(F.frames[level], F.frames[level + 1]);
    G, tries := PushCubes(F, o, level, diff);
    if |diff| == 0 || Equals(G.frames[level], G.frames[level + 1]) {
      rv := Some(level);
    } else {
      rv := None;
    }
    assert |diff| == 0 <==> Content(F.frames[level]) <= Content(F.frames[level + 1]) by {
      var f, g := Content(F.frames[level]), Content(F.frames[level + 1]);
      if |diff| > 0 {
        assert diff[0] in f - g;
      } else {
        assert f - g == {} by {
          assert (set x | x in diff) == {};
        }
        forall x | x in f ensures x in g {
          assert x !in f - g;
        }
      }
    }
  }

  /** The pushes of one level: the frames before and after, the cubes
      tried, the tries, and whether the level reported a fixpoint. */
  datatype LevelPush = LevelPush(start: Frames, cubes: seq<Cube>, tries: seq<Try>, end: Frames, fixpoint: bool)

  /** `log[n]` pushed level `n + 1`: in delta mode every cube stored there,
      in fat mode those missing from the next frame. Each level starts
      where the one below ended, the last ends in `G`, and every cube
      pushed at any level is excluded one level up in `G`. */
  ghost predicate Pushed(F: Frames, o: Oracle, log: seq<LevelPush>, G: Frames) {
    PushedLevels(F, o, log, G) && Chained(F, log, G)
  }

  ghost predicate PushedLevels(F: Frames, o: Oracle, log: seq<LevelPush>, G: Frames) {
    forall n :: 0 <= n < |log| ==> PushedLevel(F, o, log[n], n + 1, G)
  }

  ghost predicate Chained(F: Frames, log: seq<LevelPush>, G: Frames) {
    && (forall n :: 0 <= n < |log| - 1 ==> log[n].end == log[n + 1].start)
    && (|log| == 0 ==> G == F)
    && (|log| > 0 ==> log[0].start == F && log[|log| - 1].end == G)
  }

  /** One level of the record: the right cubes tried from `start` to `end`,
      and a fixpoint reported exactly as `push_forward_fat` reports one
      (never in delta mode). */
  ghost predicate PushedLevel(F: Frames, o: Oracle, p: LevelPush, i: nat, G: Frames) {
    && Invariant(p.start) && i + 1 < |p.start.frames| && p.start.delta == F.delta
    && p.cubes == (if F.delta then p.start.frames[i].cubes else Diff(p.start.frames[i], p.start.frames[i + 1]))
    && Tried(o, i, p.cubes, p.tries) && EndsAt(p.start, p.tries, i, p.end)
    && (p.fixpoint <==> !F.delta && ReportsFixpoint(p.start, p.end, i))
    && PushedCovered(G, p.tries, i)
  }

  /** Strengthening the frames keeps the record of the levels pushed. */
  lemma PushedStronger(F: Frames, o: Oracle, log: seq<LevelPush>, G: Frames, G': Frames)
    requires PushedLevels(F, o, log, G) && Stronger(G, G')
    ensures PushedLevels(F, o, log, G')
  {
    forall n | 0 <= n < |log| ensures PushedLevel(F, o, log[n], n + 1, G') {
      PushedCoveredStronger(G, G', log[n].tries, n + 1);
    }
  }

  /** No level of the record reported a fixpoint. */
  ghost predicate NoFixpoint(log: seq<LevelPush>) {
    forall n :: 0 <= n < |log| ==> !log[n].fixpoint
  }

  /** What holds of the frames between the levels of `propagate`. */
  ghost predicate PropagateKeeps(F: Frames, o: Oracle, G: Frames, log: seq<LevelPush>) {
    && Invariant(G) && |G.frames| == |F.frames|
    && G.delta == F.delta && G.vars == F.vars && G.act == F.act && G.diff == F.diff
    && Stronger(F, G) && Pushed(F, o, log, G)
  }

  /** F_i holds no cube that F_{i+1} lacks: the fixpoint `push_forward_fat` reports. */
  ghost predicate FixpointAt(G: Frames, i: nat) {
    i + 1 < |G.frames| && Content(G.frames[i]) <= Content(G.frames[i + 1])
  }

  /** Before any level is pushed, the record is empty and the frames unchanged. */
  lemma KeepsAtStart(F: Frames, o: Oracle)
    requires Invariant(F)
    ensures PropagateKeeps(F, o, F, [])
  {
    assert Stronger(F, F);
  }

  /** One level of `propagate`: `push_forward_delta`, or `push_forward_fat`
      with its fixpoint answer. */
  method PushLevel(F: Frames, o: Oracle, G: Frames, log: seq<LevelPush>, i: nat)
    returns (G': Frames, log': seq<LevelPush>, rv: Option<nat>)
    requires Invariant(F) && PropagateKeeps(F, o, G, log)
    requires i == |log| + 1 && i + 1 < |F.frames|
    ensures PropagateKeeps(F, o, G', log') && |log'| == i && log'[..|log|] == log
    ensures log'[|log|].fixpoint <==> rv.Some?
    ensures F.delta ==> rv.None?
    ensures rv.Some? ==> rv.value == i && FixpointAt(G', i)
  {
    var tries: seq<Try>;
    var p: LevelPush;
    if G.delta {
      G', tries := PushForwardDelta(G, o, i);
      p := LevelPush(G, G.frames[i].cubes, tries, G', false);
      rv := None;
    } else {
      G', rv, tries := PushForwardFat(G, o, i);
      p := LevelPush(G, Diff(G.frames[i], G.frames[i + 1]), tries, G', rv.Some?);
    }
    LogSnoc(F, o, log, G, G', p);
    StrongerTransitive(F, G, G');
    log' := log + [p];
    assert log'[..|log|] == log;
  }

  /** `Frames::propagate(k)`: pushes levels `1 .. k` in order. In delta
      mode the answer is the lowest empty level among `1 .. k`; in fat mode
      the first level whose push reported a fixpoint. `log` records the
      pushes: every level from 1 up to the answer (or to `k`) was pushed. */
  method Propagate(F: Frames, o: Oracle, k: nat) returns (G: Frames, r: Option<nat>, log: seq<LevelPush>)
    requires Invariant(F) && k <= Frontier(F)
    ensures Invariant(G) && |G.frames| == |F.frames|
    ensures G.delta == F.delta && G.vars == F.vars && G.act == F.act && G.diff == F.diff
    ensures Stronger(F, G)
    ensures r.Some? ==> 1 <= r.value <= k
    ensures F.delta && r.Some? ==>
              Content(G.frames[r.value]) == {} && forall j :: 1 <= j < r.value ==> Content(G.frames[j]) != {}
    ensures F.delta && r.None? ==> forall j :: 1 <= j <= k ==> Content(G.frames[j]) != {}
    ensures !F.delta && r.Some? ==> Content(G.frames[r.value]) <= Content(G.frames[r.value + 1])
    ensures |log| == if !F.delta && r.Some? then r.value else k
    ensures Pushed(F, o, log, G)
    ensures forall n :: 0 <= n < |log| - 1 ==> !log[n].fixpoint
    ensures !F.delta ==> (r.Some? <==> |log| > 0 && log[|log| - 1].fixpoint)
    ensures !F.delta && r.None? ==> forall n :: 0 <= n < |log| ==> !log[n].fixpoint
  {
    G, r, log := PushLevels(F, o, k);
    if r.None? && G.delta {
      r := LowestEmpty(G, k);
    }
  }

  /** The loop of `propagate`: levels `1 .. k` in order, stopping early in
      fat mode at the first level whose push reported a fixpoint. */
  method PushLevels(F: Frames, o: Oracle, k: nat) returns (G: Frames, r: Option<nat>, log: seq<LevelPush>)
    requires Invariant(F) && k <= Frontier(F)
    ensures PropagateKeeps(F, o, G, log)
    ensures r.Some? ==> !F.delta && 1 <= r.value <= k && |log| == r.value
    ensures r.Some? ==> FixpointAt(G, r.value)
    ensures r.None? ==> |log| == k && NoFixpoint(log)
    ensures forall n :: 0 <= n < |log| - 1 ==> !log[n].fixpoint
    ensures r.Some? <==> |log| > 0 && log[|log| - 1].fixpoint
  {
    KeepsAtStart(F, o);
    G, log := F, [];
    var i := 1;
    while i <= k
      invariant 1 <= i <= k + 1 && |log| == i - 1
      invariant PropagateKeeps(F, o, G, log) && NoFixpoint(log)
    {
      var rv, log';
      G, log', rv := PushLevel(F, o, G, log, i);
      if rv.Some? {
        NoFixpointBelowLast(log, log');
        r, log := rv, log';
        return;
      }
      NoFixpointSnoc(log, log');
      log := log';
      i := i + 1;
    }
    r := None;
  }

  /** A record extended by one level has no fixpoint below that level. */
  lemma NoFixpointBelowLast(log: seq<LevelPush>, log': seq<LevelPush>)
    requires NoFixpoint(log) && |log'| == |log| + 1 && log'[..|log|] == log
    ensures forall n :: 0 <= n < |log'| - 1 ==> !log'[n].fixpoint
  {
    forall n | 0 <= n < |log'| - 1 ensures !log'[n].fixpoint {
      assert log'[n] == log'[..|log|][n];
    }
  }

  /** A record extended by a level that reported no fixpoint still has none. */
  lemma NoFixpointSnoc(log: seq<LevelPush>, log': seq<LevelPush>)
    requires NoFixpoint(log) && |log'| == |log| + 1 && log'[..|log|] == log && !log'[|log|].fixpoint
    ensures NoFixpoint(log')
  {
    forall n | 0 <= n < |log'| ensures !log'[n].fixpoint {
      if n < |log| {
        assert log'[n] == log'[..|log|][n];
      }
    }
  }

  /** The check for an empty level that ends delta `propagate`: the lowest
      empty level among `1 .. k`, if any. */
  method LowestEmpty(G: Frames, k: nat) returns (r: Option<nat>)
    requires k < |G.frames|
    ensures r.Some? ==> 1 <= r.value <= k && Content(G.frames[r.value]) == {}
    ensures r.Some? ==> forall j :: 1 <= j < r.value ==> Content(G.frames[j]) != {}
    ensures r.None? ==> forall j :: 1 <= j <= k ==> Content(G.frames[j]) != {}
  {
    var j := 1;
    while j <= k
      invariant 1 <= j <= k + 1
      invariant forall l :: 1 <= l < j ==> Content(G.frames[l]) != {}
    {
      if Empty(G.frames[j]) {
        return Some(j);
      }
      j := j + 1;
    }
    return None;
  }

  /** Pushing one more level extends the record. */
  lemma LogSnoc(F: Frames, o: Oracle, log: seq<LevelPush>, G: Frames, G': Frames, p: LevelPush)
    requires Pushed(F, o, log, G) && Stronger(G, G')
    requires p.start == G && p.end == G' && PushedLevel(F, o, p, |log| + 1, G')
    ensures Pushed(F, o, log + [p], G')
  {
    PushedStronger(F, o, log, G, G');
    LevelsSnoc(F, o, log, G', p);
    ChainSnoc(F, log, G, G', p);
  }

  lemma LevelsSnoc(F: Frames, o: Oracle, log: seq<LevelPush>, G': Frames, p: LevelPush)
    requires PushedLevels(F, o, log, G') && PushedLevel(F, o, p, |log| + 1, G')
    ensures PushedLevels(F, o, log + [p], G')
  {
    var L := log + [p];
    forall n | 0 <= n < |L| ensures PushedLevel(F, o, L[n], n + 1, G') {
      if n < |log| {
        assert L[n] == log[n];
      }
    }
  }

  lemma ChainSnoc(F: Frames, log: seq<LevelPush>, G: Frames, G': Frames, p: LevelPush)
    requires Chained(F, log, G) && p.start == G && p.end == G'
    ensures Chained(F, log + [p], G')
  {
    var L := log + [p];
    forall n | 0 <= n < |L| - 1 ensures L[n].end == L[n + 1].start {
      if n + 1 < |log| {
        assert L[n] == log[n] && L[n + 1] == log[n + 1];
      } else {
        assert L[n] == log[|log| - 1];
      }
    }
    if |log| > 0 {
      assert L[0] == log[0];
    }
  }

  /** `Frames::reuse`: after the constraint was tightened (fewer
      transitions) the last propagation is redone. The delta solver it
      reconstrains exists in delta mode only, and `frontier() - 1` needs a
      frontier of at least 1. */
  method Reuse(F: Frames, o: Oracle) returns (G: Frames, r: Option<nat>, log: seq<LevelPush>)
    requires Invariant(F) && F.delta && F.diff == Constrained && Frontier(F) >= 1
    ensures Invariant(G) && |G.frames| == |F.frames| && G.diff == NoChange
    ensures Stronger(F, G)
    ensures r.Some? ==> 1 <= r.value < Frontier(F) && Content(G.frames[r.value]) == {}
    ensures r.None? ==> forall j :: 1 <= j < Frontier(F) ==> Content(G.frames[j]) != {}
    ensures |log| == Frontier(F) - 1 && Pushed(F.(diff := NoChange), o, log, G)
  {
    var F' := F.(diff := NoChange);
    assert Stronger(F, F');
    G, r, log := Propagate(F', o, Frontier(F) - 1);
  }

  // reset_to_F1

  /** `SAT(0, cube)` fails: the cube does not meet the initial states. F_0
      never holds cubes, so the answer does not depend on the frames. */
  predicate Kept(o: Oracle, c: Cube) {
    !o.sat(FrameSolver(0, {}), LitAssumptions(c))
  }

  /** The loop of `reset_to_F1`: each carried cube with `!SAT(0, cube)` is
      blocked at level 1. */
  function Carry(G: Frames, o: Oracle, carried: seq<Cube>): (r: Frames)
    requires Invariant(G)
    ensures Invariant(r) && |r.frames| == |G.frames|
    ensures r.delta == G.delta && r.vars == G.vars && r.act == G.act && r.diff == G.diff
    ensures forall j :: 2 <= j < |G.frames| ==> r.frames[j] == G.frames[j]
    ensures Content(r.frames[1]) <= Content(G.frames[1]) + set c | c in carried && Kept(o, c)
    ensures Stronger(G, r)
    ensures forall c :: c in carried && Kept(o, c) ==> Covers(r, c, 1)
    decreases |carried|
  {
    if |carried| == 0 then G
    else
      var c := carried[0];
      assert Sat(G, o, 0, LitAssumptions(c)) == !Kept(o, c);
      var G' := if Kept(o, c) then RemoveState(G, c, 1).0 else G;
      assert Kept(o, c) ==> Covers(G', c, 1) by {
        if Kept(o, c) {
          RemoveStateCovers(G, c, 1, 1);
        }
      }
      assert Stronger(G, G') by {
        if Kept(o, c) {
          RemoveStateStronger(G, c, 1);
        }
      }
      assert forall x :: x in carried <==> x == c || x in carried[1..];
      var r := Carry(G', o, carried[1..]);
      StrongerTransitive(G, G', r);
      r
  }

  /** `Frames::reset_to_F1` as written: `clear_until(0)` keeps F_0 and
      F_1, so the following `extend` makes a new, empty F_2, and the cubes
      already at level 1 stay there whether or not they meet the initial
      states. */
  function ResetToF1AsWritten(F: Frames, o: Oracle): (r: Frames)
    requires Invariant(F) && F.delta && F.diff == Relaxed
    ensures Invariant(r) && r.diff == NoChange && Frontier(r) == 1 && Content(r.frames[2]) == {}
    ensures forall c :: c in Content(r.frames[1]) ==>
              c in Content(F.frames[1]) || (Kept(o, c) && exists j :: 1 <= j < |F.frames| && c in Content(F.frames[j]))
  {
    var carried := GetBlocked(F, 1);
    var G := Extend(ClearUntil(F, 0));
    assert G.frames[1] == F.frames[1];
    Carry(G, o, carried).(diff := NoChange)
  }

  /** `reset_to_F1` as its comments describe it: the sequence goes back to
      F_0 alone, level 1 is re-created empty, and only the old cubes with
      `!SAT(0, cube)` are blocked in it. */
  function ResetToF1(F: Frames, o: Oracle): (r: Frames)
    requires Invariant(F) && F.delta && F.diff == Relaxed
    ensures Invariant(r) && r.diff == NoChange && Frontier(r) == 0
    ensures forall c :: c in Content(r.frames[1]) ==>
              Kept(o, c) && exists j :: 1 <= j < |F.frames| && c in Content(F.frames[j])
    ensures forall j, c :: 1 <= j < |F.frames| && c in Content(F.frames[j]) && Kept(o, c) ==>
              HasSubset(r.frames[1], c)
  {
    var carried := GetBlocked(F, 1);
    var G := Extend(F.(frames := F.frames[..1], act := F.act[..1]));
    var C := Carry(G, o, carried);
    forall j, c | 1 <= j < |F.frames| && c in Content(F.frames[j]) && Kept(o, c)
      ensures HasSubset(C.frames[1], c)
    {
      assert c in carried;
      TopCovers(C, c);
    }
    C.(diff := NoChange)
  }

  /** With F_0 and F_1 only, F_1 excludes what it holds a subset of. */
  lemma TopCovers(F: Frames, x: Cube)
    requires |F.frames| == 2 && Covers(F, x, 1)
    ensures HasSubset(F.frames[1], x)
  {
    if F.delta {
      var j :| 1 <= j < |F.frames| && HasSubset(F.frames[j], x);
      assert j == 1;
    }
  }

  /** A delta sequence whose F_1 holds a cube meeting the initial states. */
  function StaleFrames(c: Cube): (r: Frames)
    ensures Invariant(r) && r.delta && r.diff == Relaxed
  {
    Frames(true, VarVec({}), [NewFrame(0), Frame(1, [c])], [0, 1], Relaxed)
  }

  function AlwaysSat(): Oracle {
    Oracle((s: Solver, q: seq<Assumption>) => true, (s: Solver, q: seq<Assumption>) => [],
           (s: Solver, q: seq<Assumption>) => q)
  }

  /** As written, a cube that meets the initial states survives in F_1 and
      the frontier ends at 1; the corrected reset drops it and ends at 0. */
  lemma ResetToF1KeepsStaleCube(c: Cube)
    ensures !Kept(AlwaysSat(), c)
    ensures c in Content(ResetToF1AsWritten(StaleFrames(c), AlwaysSat()).frames[1])
    ensures Content(ResetToF1(StaleFrames(c), AlwaysSat()).frames[1]) == {}
  {
    var F := StaleFrames(c);
    var o := AlwaysSat();
    var carried := GetBlocked(F, 1);
    var G := Extend(ClearUntil(F, 0));
    assert G.frames[1] == F.frames[1];
    assert forall x :: x in carried <==> x in [c] by {
      assert Content(F.frames[1]) == {c};
    }
    SortedUnique(carried, [c]);
    assert Carry(G, o, carried) == Carry(G, o, []);
    var r := ResetToF1(F, o);
    assert forall x :: !Kept(o, x);
    assert forall x :: x !in Content(r.frames[1]);
  }
}
