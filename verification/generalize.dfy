/** Generalisation of blocked cubes (src/algo/generalize.cpp): the search
    for the highest frame a cube's negation is inductive relative to, the
    unsat-core reduction that search offers, and MIC's literal dropping with
    `down`. Every solver call goes through the frames' oracle. */
module Generalization {
  import opened Wrappers
  import opened Literals
  import opened Cubes
  import opened Frame
  import opened FrameSequence
  import opened FrameQueries

  /** `init_solver.check(cube)`: the cube meets the initial states. */
  predicate MeetsInit(o: Oracle, c: Cube) {
    o.sat(InitSolver, LitAssumptions(c))
  }

  /** The unsat core of the inductiveness query of `c` at level `i`
      (`get_solver(i).unsat_core()` right after `inductive(c, i)`). */
  function Core(F: Frames, o: Oracle, c: Cube, i: nat): seq<Assumption>
    requires Invariant(F) && i < |F.frames|
  {
    o.core(SolverAt(F, i), Assumptions(F, i, InductiveQuery(F.vars, c)))
  }

  /** The result of `hif_`: a level, -1 when the cube is not even inductive
      relative to the initial states, and the core of the last level that
      succeeded. */
  datatype HifResult = HifResult(level: int, core: Option<seq<Assumption>>)

  /** The first level `hif_` tries: `max(1, min)`. */
  function First(min: int): (r: nat)
    ensures r >= 1 && r >= min
  {
    if min < 1 then 1 else min
  }

  /** The loop of `hif_` from level `i` on, `core` holding the core of the
      previous (successful) level once one succeeded. */
  function HifScan(F: Frames, o: Oracle, c: Cube, start: nat, i: nat, core: Option<seq<Assumption>>): (r: HifResult)
    requires Invariant(F) && 1 <= start <= i && (i <= Frontier(F) + 1 || i == start)
    requires forall j :: start <= j < i ==> Inductive(F, o, c, j)
    requires core == if i == start then None else Some(Core(F, o, c, i - 1))
    ensures start - 1 <= r.level <= Frontier(F) || (r.level == Frontier(F) && start > Frontier(F))
    ensures forall j :: start <= j <= r.level ==> Inductive(F, o, c, j)
    ensures r.level < Frontier(F) ==> !Inductive(F, o, c, r.level + 1)
    ensures r.core == if r.level >= start then Some(Core(F, o, c, r.level)) else None
    decreases Frontier(F) + 1 - i
  {
    if i > Frontier(F) then HifResult(Frontier(F), core)
    else if !Inductive(F, o, c, i) then HifResult(i - 1, core)
    else HifScan(F, o, c, start, i + 1, Some(Core(F, o, c, i)))
  }

  /** `PDR::hif_(cube, min)`: -1 exactly when `min <= 0` and `!cube` is not
      inductive relative to F_0; otherwise the level below the first of
      `max(1, min) .. frontier` where inductiveness fails, or the frontier.
      The core is that of the returned level, and there is none when no
      level was tried successfully. */
  function Hif(F: Frames, o: Oracle, c: Cube, min: int): (r: HifResult)
    requires Invariant(F)
    ensures r.level >= -1
    ensures r.level == -1 <==> min <= 0 && !Inductive(F, o, c, 0)
    ensures r.level >= 0 ==> r.level <= Frontier(F)
    ensures r.level >= 0 ==> r.level >= First(min) - 1 || r.level == Frontier(F)
    ensures forall j :: First(min) <= j <= r.level ==> Inductive(F, o, c, j)
    ensures 0 <= r.level < Frontier(F) ==> !Inductive(F, o, c, r.level + 1)
    ensures r.core.Some? <==> r.level >= First(min)
    ensures r.core.Some? ==> r.core.value == Core(F, o, c, r.level)
  {
    if min <= 0 && !Inductive(F, o, c, 0) then HifResult(-1, None)
    else HifScan(F, o, c, First(min), First(min), None)
  }

  /** The next-state literals of a core found by `lit_is_p`, renamed to the
      current state. */
  function ReduceCore(vv: VarVec, core: seq<Assumption>): (r: Cube)
    ensures forall l :: l in r <==> exists a :: a in core && a.ALit? && LitIsP(vv, a.l) && l == Lit(a.l.v, false, a.l.pos)
    ensures |r| <= |core|
  {
    if |core| == 0 then []
    else
      var rest := ReduceCore(vv, core[1..]);
      assert forall a :: a in core <==> a == core[0] || a in core[1..];
      if core[0].ALit? && LitIsP(vv, core[0].l) then [Lit(core[0].l.v, false, core[0].l.pos)] + rest
      else rest
  }

  /** The result of `highest_inductive_frame`: the level of `hif_` and the
      cube to generalise. */
  datatype Hif2 = Hif2(level: int, cube: Cube)

  /** `PDR::highest_inductive_frame(cube, min)`: the core is used only when
      the level is at least `min`, a core exists, and the reduced cube does
      not meet the initial states; otherwise the cube comes back as it was. */
  function HighestInductiveFrame(F: Frames, o: Oracle, c: Cube, min: int): (r: Hif2)
    requires Invariant(F)
    ensures r.level == Hif(F, o, c, min).level
    ensures r.cube != c ==> r.level >= 0 && r.level >= min && !MeetsInit(o, r.cube)
    ensures r.cube != c ==> Hif(F, o, c, min).core.Some? && r.cube == ReduceCore(F.vars, Hif(F, o, c, min).core.value)
  {
    var h := Hif(F, o, c, min);
    if h.level >= 0 && h.level >= min && h.core.Some? then
      var reduced := ReduceCore(F.vars, h.core.value);
      if MeetsInit(o, reduced) then Hif2(h.level, c) else Hif2(h.level, reduced)
    else Hif2(h.level, c)
  }

  /** The solver's core is drawn from the assumptions it was given. */
  ghost predicate CoreWithin(o: Oracle) {
    forall s, q, a :: a in o.core(s, q) ==> a in q
  }

  /** With a core drawn from the query, the reduced cube only keeps literals
      of the original current-state cube: the activation literals and the
      clause are dropped, and the renamed next-state literals are `c`'s. */
  lemma HighestInductiveFrameWithin(F: Frames, o: Oracle, c: Cube, min: int)
    requires Invariant(F) && CoreWithin(o) && InCurrent(F.vars, c)
    ensures SubsumesLe(HighestInductiveFrame(F, o, c, min).cube, c)
  {
    var r := HighestInductiveFrame(F, o, c, min);
    var h := Hif(F, o, c, min);
    if r.cube != c {
      var q := Assumptions(F, h.level, InductiveQuery(F.vars, c));
      assert 0 <= h.level < |F.frames|;
      assert h.core.value == o.core(SolverAt(F, h.level), q);
      ReducedWithin(F, c, h.level, h.core.value);
    } else {
      SubsumesLeReflexive(c);
    }
  }

  /** A core drawn from the query of `c` at `level` reduces to a subset of `c`. */
  lemma ReducedWithin(F: Frames, c: Cube, level: nat, core: seq<Assumption>)
    requires Invariant(F) && InCurrent(F.vars, c) && level < |F.frames|
    requires forall a :: a in core ==> a in Assumptions(F, level, InductiveQuery(F.vars, c))
    ensures SubsumesLe(ReduceCore(F.vars, core), c)
  {
    var q := Assumptions(F, level, InductiveQuery(F.vars, c));
    var p := PrimeAll(F.vars, c);
    var rc := ReduceCore(F.vars, core);
    forall i | 0 <= i < |rc| ensures rc[i] in c {
      assert rc[i] in rc;
      var a :| a in core && a.ALit? && LitIsP(F.vars, a.l) && rc[i] == Lit(a.l.v, false, a.l.pos);
      assert a in q;
      var k :| 0 <= k < |q| && q[k] == a;
      assert k < |c|;
      assert q[k] == ALit(p[k]);
      assert rc[i] == c[k];
    }
  }

  // down

  /** `witness_current_intersect(state)`: the literals of `state` that the
      witness shares, in `state`'s order. */
  function Intersect(state: Cube, w: Cube): (r: Cube)
    ensures |r| <= |state|
    ensures forall l :: l in r <==> l in state && l in w
  {
    if |state| == 0 then []
    else
      var rest := Intersect(state[1..], w);
      assert forall l :: l in state <==> l == state[0] || l in state[1..];
      if state[0] in w then [state[0]] + rest else rest
  }

  /** The intersection keeps the candidate's order, and it only has the
      candidate's length when it is the candidate. */
  lemma IntersectShape(state: Cube, w: Cube)
    ensures Sorted(state) ==> Sorted(Intersect(state, w))
    ensures |Intersect(state, w)| == |state| ==> Intersect(state, w) == state
  {
    IntersectSorted(state, w);
    IntersectFull(state, w);
  }

  lemma {:induction false} IntersectSorted(state: Cube, w: Cube)
    ensures Sorted(state) ==> Sorted(Intersect(state, w))
    decreases |state|
  {
    if |state| > 0 {
      var rest := Intersect(state[1..], w);
      IntersectSorted(state[1..], w);
      if state[0] in w && Sorted(state) {
        forall k | 0 <= k < |rest| ensures Less(state[0], rest[k]) {
          assert rest[k] in rest;
          var j :| 0 <= j < |state[1..]| && state[1..][j] == rest[k];
          assert state[j + 1] == rest[k];
        }
      }
    }
  }

  lemma {:induction false} IntersectFull(state: Cube, w: Cube)
    ensures |Intersect(state, w)| == |state| ==> Intersect(state, w) == state
    decreases |state|
  {
    if |state| > 0 {
      IntersectFull(state[1..], w);
      if |Intersect(state, w)| == |state| {
        assert state[0] in w;
        assert state == [state[0]] + state[1..];
      }
    }
  }

  /** How `down` ends: the candidate survived (and is returned, possibly
      smaller), the candidate met the initial states, or the loop repeats
      the same query forever because the witness did not shrink it. */
  datatype DownResult = Survived(cube: Cube) | MetInit | Stuck

  /** `PDR::down(state, level)`: returns false as soon as the candidate meets
      I and true once it is inductive; otherwise the candidate becomes its
      intersection with the witness of the failed query. */
  function Down(F: Frames, o: Oracle, state: Cube, level: nat): (r: DownResult)
    requires Invariant(F) && level < |F.frames|
    ensures r.Survived? ==> SubsumesLe(r.cube, state) && |r.cube| <= |state|
    ensures r.Survived? ==> Inductive(F, o, r.cube, level) && !MeetsInit(o, r.cube)
    ensures r.Survived? && Sorted(state) ==> Sorted(r.cube)
    ensures !MeetsInit(o, state) && Inductive(F, o, state, level) ==> r == Survived(state)
    ensures MeetsInit(o, state) ==> r == MetInit
    decreases |state|
  {
    if MeetsInit(o, state) then MetInit
    else if Inductive(F, o, state, level) then Survived(state)
    else
      var next := Intersect(state, Witness(F, o, level, InductiveQuery(F.vars, state)));
      IntersectShape(state, Witness(F, o, level, InductiveQuery(F.vars, state)));
      if |next| == |state| then Stuck
      else
        var r := Down(F, o, next, level);
        assert r.Survived? ==> SubsumesLe(r.cube, state) by {
          if r.Survived? {
            assert SubsumesLe(next, state);
            SubsumesLeTransitive(r.cube, next, state);
          }
        }
        r
  }

  /** The witness of a failed inductiveness query at `level` lies outside
      the queried cube (the query asserted its negation). */
  ghost predicate WitnessLeaves(F: Frames, o: Oracle, level: nat)
    requires Invariant(F) && level < |F.frames|
  {
    forall c: Cube :: !Inductive(F, o, c, level) ==>
      exists i :: 0 <= i < |c| && c[i] !in Witness(F, o, level, InductiveQuery(F.vars, c))
  }

  /** With a witness that really lies outside the cube, every round of
      `down` shrinks the candidate, so `down` returns. */
  lemma {:induction false} DownTerminates(F: Frames, o: Oracle, state: Cube, level: nat)
    requires Invariant(F) && level < |F.frames| && WitnessLeaves(F, o, level)
    ensures !Down(F, o, state, level).Stuck?
    decreases |state|
  {
    if !MeetsInit(o, state) && !Inductive(F, o, state, level) {
      var w := Witness(F, o, level, InductiveQuery(F.vars, state));
      var next := Intersect(state, w);
      var i :| 0 <= i < |state| && state[i] !in w;
      IntersectShape(state, w);
      assert |next| < |state| by {
        assert state[i] in state && state[i] !in next;
      }
      DownTerminates(F, o, next, level);
    }
  }

  /** `s[..i] + s[i+1..]`: the candidate without its `i`-th literal. */
  function DropAt(s: Cube, i: nat): (r: Cube)
    requires i < |s|
    ensures |r| == |s| - 1 && SubsumesLe(r, s)
    ensures Sorted(s) ==> Sorted(r)
  {
    var r := s[..i] + s[i + 1..];
    assert forall k :: 0 <= k < |r| ==> r[k] == if k < i then s[k] else s[k + 1];
    r
  }

  /** What MIC keeps of its candidate `cur` for the input `cube`: a sorted
      sub-cube, which once it differs from the input is inductive relative
      to F_level and outside I. */
  predicate Reduced(F: Frames, o: Oracle, cube: Cube, cur: Cube, level: nat)
    requires Invariant(F) && level < |F.frames|
  {
    Sorted(cur) && SubsumesLe(cur, cube) && (cur != cube ==> Inductive(F, o, cur, level) && !MeetsInit(o, cur))
  }

  /** A sub-cube `down` lets survive keeps MIC's candidate reduced. */
  lemma SurvivedIsReduced(F: Frames, o: Oracle, cube: Cube, cur: Cube, i: nat, level: nat)
    requires Invariant(F) && level < |F.frames| && i < |cur| && Reduced(F, o, cube, cur, level)
    requires Down(F, o, DropAt(cur, i), level).Survived?
    ensures Reduced(F, o, cube, Down(F, o, DropAt(cur, i), level).cube, level)
    ensures |Down(F, o, DropAt(cur, i), level).cube| < |cur|
  {
    var d := Down(F, o, DropAt(cur, i), level).cube;
    SubsumesLeTransitive(d, DropAt(cur, i), cur);
    SubsumesLeTransitive(d, cur, cube);
  }

  /** `PDR::MIC(cube, level)`: each round tries the cube without its `i`-th
      literal; if `down` keeps a (possibly smaller) sub-cube it replaces the
      cube and `i` stays, otherwise `i` advances, so every round lowers
      `|cube| - i` and there are at most `|cube|` rounds. It stops after `retries`
      rounds (at least one). `None` stands for a `down` that does not
      return. */
  method MIC(F: Frames, o: Oracle, cube: Cube, level: nat, retries: nat) returns (r: Option<Cube>, rounds: nat)
    requires Invariant(F) && level <= Frontier(F) && Sorted(cube)
    ensures r.Some? ==> SubsumesLe(r.value, cube) && Sorted(r.value)
    ensures r.Some? && r.value != cube ==> Inductive(F, o, r.value, level) && !MeetsInit(o, r.value)
    ensures rounds <= |cube| && (rounds <= retries || rounds == 1)
  {
    var cur := cube;
    var i := 0;
    rounds := 0;
    SubsumesLeReflexive(cube);
    while i < |cur|
      invariant Reduced(F, o, cube, cur, level) && |cur| <= |cube|
      invariant rounds <= |cube| - |cur| + i && (i <= |cur| || rounds <= |cube|)
      invariant rounds == 0 || rounds < retries
      decreases |cur| - i
    {
      var d := Down(F, o, DropAt(cur, i), level);
      if d.Stuck? {
        return None, rounds + 1;
      }
      if d.Survived? {
        SurvivedIsReduced(F, o, cube, cur, i, level);
        cur := d.cube;
      } else {
        i := i + 1;
      }
      rounds := rounds + 1;
      if rounds >= retries {
        break;
      }
    }
    r := Some(cur);
  }

  /** `PDR::generalize(state, level)`: MIC with the context's retry
      limit. */
  method Generalize(F: Frames, o: Oracle, cube: Cube, level: nat, retries: nat) returns (r: Option<Cube>)
    requires Invariant(F) && level <= Frontier(F) && Sorted(cube)
    ensures r.Some? ==> SubsumesLe(r.value, cube) && Sorted(r.value)
    ensures r.Some? && r.value != cube ==> Inductive(F, o, r.value, level) && !MeetsInit(o, r.value)
  {
    var rounds;
    r, rounds := MIC(F, o, cube, level, retries);
  }
}
