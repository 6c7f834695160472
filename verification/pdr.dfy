/** The PDR engine (src/algo/pdr.cpp): initiation, the iteration over
    counterexamples to induction (CTIs), and the obligation queue of
    `block`. The unbounded loops take a step budget; running out of it, or a
    `down` that never returns, ends a call as `Unfinished`. */
module Pdr {
  import opened Wrappers
  import opened Literals
  import opened Cubes
  import opened Frame
  import opened FrameSequence
  import opened FrameQueries
  import opened Propagation
  import opened Generalization

  /** `pdr::Tactic` */
  datatype Tactic = Undef | Basic | Constrain | Relax | Decrement | IncJumpTest | IncOneTest

  /** How a call ends: a value, an exception or failed assertion, or not at
      all within the step budget. */
  datatype Outcome<+T> = Returned(value: T) | Raised(error: Error) | Unfinished

  /** `PdrResult`: an invariant (with the level it was found at, none for
      `empty_true`), or a trace of states ending in a CTI. */
  datatype PdrResult = Holds(invariantLevel: Option<nat>) | Trace(states: seq<Cube>)

  // states and their predecessor links

  /** `PdrState`: a cube and the state it steps into, as an index into the
      arena of all states created so far. */
  datatype PdrState = PdrState(cube: Cube, next: Option<nat>)

  /** A state only links to one created before it. */
  predicate WellLinked(arena: seq<PdrState>) {
    forall i :: 0 <= i < |arena| && arena[i].next.Some? ==> arena[i].next.value < i
  }

  /** The trace `found_trace(state)` reports: the state's cube, then the
      cubes along its links. */
  function Chain(arena: seq<PdrState>, i: nat): (r: seq<Cube>)
    requires WellLinked(arena) && i < |arena|
    ensures 1 <= |r| <= i + 1 && r[0] == arena[i].cube
    ensures arena[i].next.Some? ==> |r| >= 2 && r[1..] == Chain(arena, arena[i].next.value)
    decreases i
  {
    if arena[i].next.Some? then [arena[i].cube] + Chain(arena, arena[i].next.value)
    else [arena[i].cube]
  }

  /** Creating a state leaves the traces of the older ones as they were. */
  lemma {:induction false} ChainGrows(arena: seq<PdrState>, s: PdrState, i: nat)
    requires WellLinked(arena) && WellLinked(arena + [s]) && i < |arena|
    ensures Chain(arena + [s], i) == Chain(arena, i)
    decreases i
  {
    assert (arena + [s])[i] == arena[i];
    if arena[i].next.Some? {
      ChainGrows(arena, s, arena[i].next.value);
    }
  }

  // the obligation queue

  /** `Obligation(level, state, depth)` */
  datatype Obligation = Obligation(level: nat, state: nat, depth: nat)

  /** `Obligation::operator<`: by level first, then depth, then state. */
  predicate ObLess(a: Obligation, b: Obligation) {
    a.level < b.level
    || (a.level == b.level && (a.depth < b.depth || (a.depth == b.depth && a.state < b.state)))
  }

  /** The `std::set` of obligations in iteration order. */
  predicate QueueSorted(q: seq<Obligation>) {
    forall i, j :: 0 <= i < j < |q| ==> ObLess(q[i], q[j])
  }

  /** `obligations.emplace(ob)`: inserted in order, unless already there. */
  function Enqueue(q: seq<Obligation>, ob: Obligation): (r: seq<Obligation>)
    requires QueueSorted(q)
    ensures QueueSorted(r)
    ensures forall x :: x in r <==> x in q || x == ob
    decreases |q|
  {
    if |q| == 0 then [ob]
    else if q[0] == ob then q
    else if ObLess(ob, q[0]) then [ob] + q
    else
      var rest := Enqueue(q[1..], ob);
      assert forall x :: x in q <==> x == q[0] || x in q[1..];
      assert forall x :: x in rest ==> ObLess(q[0], x);
      [q[0]] + rest
  }

  /** `*obligations.begin()` is an obligation of the lowest level, and
      `erase(begin())` removes exactly it. */
  lemma TopIsLowest(q: seq<Obligation>)
    requires QueueSorted(q) && |q| > 0
    ensures forall ob :: ob in q ==> q[0].level <= ob.level
    ensures forall ob :: ob in q[1..] <==> ob in q && ob != q[0]
  {
    forall ob | ob in q[1..] ensures ob != q[0] {
      var j :| 0 <= j < |q[1..]| && q[1..][j] == ob;
      assert ObLess(q[0], q[j + 1]);
    }
  }

  /** The engine's state: the frames, every state created so far, and the
      obligation queue. */
  datatype Engine = Engine(F: Frames, arena: seq<PdrState>, queue: seq<Obligation>)

  /** Every queued obligation has a level in `1 .. frontier` and refers to
      an existing state. */
  predicate EngineOk(E: Engine) {
    && Invariant(E.F)
    && WellLinked(E.arena)
    && QueueSorted(E.queue)
    && forall ob :: ob in E.queue ==> 1 <= ob.level <= Frontier(E.F) && ob.state < |E.arena|
  }

  /** Two frame sequences of the same shape: only the stored cubes differ. */
  predicate SameShape(F: Frames, G: Frames) {
    |G.frames| == |F.frames| && G.delta == F.delta && G.vars == F.vars && G.act == F.act && G.diff == F.diff
  }

  // generalise and block

  /** `generalize(cube, level)`, whose MIC asserts that the cube is sorted
      by literal id. */
  method GeneralizeChecked(F: Frames, o: Oracle, cube: Cube, level: nat, retries: nat) returns (r: Outcome<Cube>)
    requires Invariant(F) && level <= Frontier(F)
    ensures r.Raised? <==> !Sorted(cube)
    ensures r.Raised? ==> r.error == AssertionFailed
    ensures r.Returned? ==> SubsumesLe(r.value, cube) && Sorted(r.value)
    ensures r.Returned? && r.value != cube ==> Inductive(F, o, r.value, level) && !MeetsInit(o, r.value)
  {
    if !Sorted(cube) {
      return Raised(AssertionFailed);
    }
    var g := Generalize(F, o, cube, level, retries);
    if g.None? {
      return Unfinished;
    }
    r := Returned(g.value);
  }

  /** A frame holding a subset of `x` excludes `x`. */
  lemma CoversAt(F: Frames, x: Cube, i: nat, y: Cube)
    requires i < |F.frames| && y in Content(F.frames[i]) && SubsumesLe(y, x)
    ensures Covers(F, x, i)
  {
    assert HasSubset(F.frames[i], x);
  }

  /** `remove_state(generalize(cube, m), m + 1)`: afterwards F_{m+1}
      excludes every state of `cube`. */
  method BlockGeneralized(F: Frames, o: Oracle, cube: Cube, m: nat, retries: nat) returns (G: Frames, r: Outcome<Cube>)
    requires Invariant(F) && m <= Frontier(F)
    ensures Invariant(G) && SameShape(F, G) && Stronger(F, G)
    ensures forall j :: 0 <= j < |F.frames| && (j == 0 || j > m + 1) ==> G.frames[j] == F.frames[j]
    ensures r.Returned? ==> SubsumesLe(r.value, cube) && r.value in Content(G.frames[m + 1])
    ensures r.Returned? ==> Covers(G, cube, m + 1)
    ensures r.Raised? <==> !Sorted(cube)
    ensures !r.Returned? ==> G == F
  {
    r := GeneralizeChecked(F, o, cube, m, retries);
    G := F;
    if r.Returned? {
      var g := r.value;
      G := BlockCube(F, g, m + 1);
      CoversAt(G, cube, m + 1, g);
    }
  }

  /** The common tail of both branches of `block`: block the
      generalisation of `cube` at `m + 1` and queue `ob` (an obligation at
      `m + 1`) when `m + 1` is within the frontier. */
  method BlockAndQueue(E: Engine, o: Oracle, cube: Cube, m: nat, ob: Obligation, retries: nat)
    returns (E': Engine, r: Outcome<Option<PdrResult>>)
    requires EngineOk(E) && m <= Frontier(E.F) && ob.level == m + 1 && ob.state < |E.arena|
    ensures EngineOk(E') && SameShape(E.F, E'.F) && Stronger(E.F, E'.F) && E'.arena == E.arena
    ensures forall x :: x in E'.queue <==> x in E.queue || (m + 1 <= Frontier(E.F) && x == ob)
    ensures r.Returned? ==> r.value.None? && Covers(E'.F, cube, m + 1)
    ensures r.Raised? <==> !Sorted(cube)
  {
    var G, g := BlockGeneralized(E.F, o, cube, m, retries);
    var q := E.queue;
    if m + 1 <= Frontier(E.F) {
      q := Enqueue(q, ob);
    }
    E' := Engine(G, E.arena, q);
    r := if g.Returned? then Returned(None) else if g.Raised? then Raised(g.error) else Unfinished;
  }

  /** The predecessor branch of `block`: the top obligation's state has a
      predecessor `pred` in F_n, and `h` is what HIF of `pred` from `n - 1`
      returned, with `m = h.level`. The top stays queued, `pred` becomes a
      new state linked to it, `h.cube` is blocked at `m + 1`, and `pred` is
      queued at `m + 1` with one more step of depth when `m + 1` is within
      the frontier. `m < 0` (pred is a step away from I) ends `block` with
      the trace from `pred`. */
  method PredecessorStep(E: Engine, o: Oracle, pred: Cube, h: Hif2, retries: nat)
    returns (E': Engine, r: Outcome<Option<PdrResult>>)
    requires EngineOk(E) && |E.queue| > 0 && h.level <= Frontier(E.F)
    ensures EngineOk(E') && SameShape(E.F, E'.F) && Stronger(E.F, E'.F)
    ensures E'.arena == E.arena + [PdrState(pred, Some(E.queue[0].state))]
    ensures forall ob :: ob in E'.queue ==> ob in E.queue || ob.state == |E.arena|
    ensures h.level < 0 <==> r.Returned? && r.value.Some?
    ensures h.level < 0 ==> E'.F == E.F && r == Returned(Some(Trace(Chain(E'.arena, |E.arena|))))
    ensures r == Returned(None) ==> 0 <= h.level && Covers(E'.F, h.cube, h.level + 1)
    ensures r == Returned(None) ==>
              forall ob :: ob in E'.queue <==>
                ob in E.queue || (h.level + 1 <= Frontier(E.F) && ob == Obligation(h.level + 1, |E.arena|, E.queue[0].depth + 1))
  {
    var top := E.queue[0];
    var arena := E.arena + [PdrState(pred, Some(top.state))];
    var p := |E.arena|;
    if h.level < 0 {
      E' := Engine(E.F, arena, E.queue);
      r := Returned(Some(Trace(Chain(arena, p))));
      return;
    }
    E', r := BlockAndQueue(E.(arena := arena), o, h.cube, h.level, Obligation(h.level + 1, p, top.depth + 1), retries);
  }

  /** HIF from `n + 1` of a state not reachable in one step from F_n finds
      a level of at least `n`: the source's `assert(m + 1 > n)` holds, so
      the `m < 0` trace of the finish branch is never taken. */
  lemma FinishLevel(F: Frames, o: Oracle, c: Cube, n: nat)
    requires Invariant(F) && 1 <= n <= Frontier(F)
    ensures var h := HighestInductiveFrame(F, o, c, n + 1);
            n <= h.level <= Frontier(F)
  {
  }

  /** The finish branch of `block`: the top obligation's state has no
      predecessor in F_n, and `h` is what HIF of its cube from `n + 1`
      returned, with `n <= m = h.level` (see `FinishLevel`). `h.cube` is
      blocked at `m + 1`, the top is dropped and the state is queued again
      at `m + 1` with the same depth when that is within the frontier. */
  method FinishStep(E: Engine, o: Oracle, h: Hif2, retries: nat) returns (E': Engine, r: Outcome<Option<PdrResult>>)
    requires EngineOk(E) && |E.queue| > 0 && E.queue[0].level <= h.level <= Frontier(E.F)
    ensures EngineOk(E') && SameShape(E.F, E'.F) && Stronger(E.F, E'.F)
    ensures E'.arena == E.arena
    ensures forall ob :: ob in E'.queue ==> ob in E.queue || ob.state == E.queue[0].state
    ensures r.Returned? ==> r.value.None? && Covers(E'.F, h.cube, h.level + 1)
    ensures r.Returned? ==>
              forall ob :: ob in E'.queue <==>
                (ob in E.queue && ob != E.queue[0]) ||
                (h.level + 1 <= Frontier(E.F) && ob == Obligation(h.level + 1, E.queue[0].state, E.queue[0].depth))
  {
    var top := E.queue[0];
    TopIsLowest(E.queue);
    var E0 := Engine(E.F, E.arena, E.queue[1..]);
    var ob := Obligation(h.level + 1, top.state, top.depth);
    E', r := BlockAndQueue(E0, o, h.cube, h.level, ob, retries);
    forall x ensures x in E'.queue <==> (x in E.queue && x != top) || (h.level + 1 <= Frontier(E.F) && x == ob) {
      assert x in E0.queue <==> x in E.queue && x != top;
    }
  }

  /** What `block` keeps while working off the queue that started from
      engine `E0`: the frames only get stronger, states are only added,
      and unless the tactic is relax only the new states are queued. */
  ghost predicate BlockKeeps(E0: Engine, E: Engine, tactic: Tactic) {
    && EngineOk(E) && SameShape(E0.F, E.F) && Stronger(E0.F, E.F)
    && |E.arena| >= |E0.arena| && E.arena[..|E0.arena|] == E0.arena
    && (tactic != Relax ==> forall ob :: ob in E.queue ==> ob.state >= |E0.arena|)
  }

  /** One turn of `block`'s loop on the top obligation: the predecessor
      step when its state has a predecessor in the frame below, the
      finish step otherwise. A trace found comes from I in one step. */
  method BlockTurn(E0: Engine, E: Engine, o: Oracle, tactic: Tactic, retries: nat)
    returns (E': Engine, step: Outcome<Option<PdrResult>>)
    requires BlockKeeps(E0, E, tactic) && |E.queue| > 0
    ensures BlockKeeps(E0, E', tactic)
    ensures step.Returned? && step.value.Some? ==>
              step.value.value.Trace? && |step.value.value.states| >= 2 &&
              !Inductive(E'.F, o, step.value.value.states[0], 0)
  {
    var top := E.queue[0];
    var pred := CounterToInductiveness(E.F, o, E.arena[top.state].cube, top.level);
    if pred.Some? {
      var h := HighestInductiveFrame(E.F, o, pred.value, top.level - 1);
      E', step := PredecessorStep(E, o, pred.value, h, retries);
      if step.Returned? && step.value.Some? {
        ChainGrows(E.arena, PdrState(pred.value, Some(top.state)), top.state);
      }
    } else {
      var h := HighestInductiveFrame(E.F, o, E.arena[top.state].cube, top.level + 1);
      FinishLevel(E.F, o, E.arena[top.state].cube, top.level);
      E', step := FinishStep(E, o, h, retries);
    }
    StrongerTransitive(E0.F, E.F, E'.F);
    assert E'.arena[..|E0.arena|] == E0.arena by {
      assert E'.arena[..|E.arena|] == E.arena;
    }
  }

  /** `PDR::block(cti, n)`: drops the queued obligations unless the tactic
      is relax, queues the CTI at `n + 1` if that is within the frontier,
      and works off the queue lowest level first. An empty queue is
      success; a trace comes only from a predecessor step. */
  method Block(E: Engine, o: Oracle, tactic: Tactic, cti: Cube, n: nat, retries: nat, fuel: nat) returns (E': Engine, r: Outcome<PdrResult>)
    requires EngineOk(E)
    ensures EngineOk(E') && SameShape(E.F, E'.F) && Stronger(E.F, E'.F)
    ensures |E'.arena| >= |E.arena| && E'.arena[..|E.arena|] == E.arena
    ensures tactic != Relax ==> forall ob :: ob in E'.queue ==> ob.state >= |E.arena|
    ensures r.Returned? && r.value.Holds? ==> E'.queue == [] && r.value.invariantLevel.None?
    ensures r.Returned? && r.value.Trace? ==> |r.value.states| >= 2 && !Inductive(E'.F, o, r.value.states[0], 0)
  {
    var k := Frontier(E.F);
    var q := if tactic != Relax then [] else E.queue;
    var arena := E.arena;
    if n + 1 <= k {
      arena := arena + [PdrState(cti, None)];
      q := Enqueue(q, Obligation(n + 1, |E.arena|, 0));
    }
    E' := Engine(E.F, arena, q);
    assert BlockKeeps(E, E', tactic);
    var budget := fuel;
    while |E'.queue| > 0
      invariant BlockKeeps(E, E', tactic)
      decreases budget
    {
      if budget == 0 {
        return E', Unfinished;
      }
      budget := budget - 1;
      var E2, step := BlockTurn(E, E', o, tactic, retries);
      E' := E2;
      if !step.Returned? {
        r := if step.Raised? then Raised(step.error) else Unfinished;
        return;
      }
      if step.value.Some? {
        return E', Returned(step.value.value);
      }
    }
    r := Returned(Holds(None));
  }

  // init, iterate, run

  /** `PDR::init`: with the frontier at 0, a bad initial state gives the
      trace of the initial cube, a step from I into a bad state gives the
      trace of that step's source, and otherwise one frame is added. */
  function Init(F: Frames, o: Oracle, bad: Cube, initial: Cube): (r: (Frames, PdrResult))
    requires Invariant(F) && Frontier(F) == 0
    ensures r.1.Trace? <==> MeetsInit(o, bad) || Sat(F, o, 0, LitAssumptions(PrimeAll(F.vars, bad)))
    ensures r.1.Trace? ==> r.0 == F && |r.1.states| == 1
    ensures MeetsInit(o, bad) ==> r.1 == Trace([initial])
    ensures r.1.Holds? ==> Invariant(r.0) && Frontier(r.0) == 1 && r.0.frames[..2] == F.frames
  {
    if MeetsInit(o, bad) then (F, Trace([initial]))
    else if Sat(F, o, 0, LitAssumptions(PrimeAll(F.vars, bad))) then
      (F, Trace([Witness(F, o, 0, LitAssumptions(PrimeAll(F.vars, bad)))]))
    else (Extend(F), Holds(None))
  }

  /** What `iterate` does with a CTI found at iteration `k`: block it at
      `n + 1` with HIF's level `n`, or, when the CTI is a step away from the
      initial states, report it. */
  datatype CtiPlan = FromInit | BlockAt(level: nat, cube: Cube)

  /** `iterate` as written: HIF is asked from `k - 1` and its level is used
      unchecked; for `n = -1` the following `generalize(core, -1)` and
      `remove_state(sub_cube, 0)` break the `level > 0` assertion of
      `remove_state` (and query frame -1 on the way). */
  function CtiPlanAsWritten(F: Frames, o: Oracle, cti: Cube, k: nat): (r: Result<CtiPlan>)
    requires Invariant(F) && k <= Frontier(F)
    ensures r.Failure? <==> k <= 1 && !Inductive(F, o, cti, 0)
    ensures r.Success? ==> r.value.BlockAt? && r.value.level <= Frontier(F)
  {
    var h := HighestInductiveFrame(F, o, cti, k - 1);
    if h.level < 0 then Failure(AssertionFailed) else Success(BlockAt(h.level, h.cube))
  }

  /** `iterate` with the check `block` makes for its predecessors: a CTI
      whose negation is not inductive relative to I (only possible at
      `k = 1`) is reported, everything else is blocked at a level within
      the frontier. */
  function CtiPlanChecked(F: Frames, o: Oracle, cti: Cube, k: nat): (r: CtiPlan)
    requires Invariant(F) && k <= Frontier(F)
    ensures r.FromInit? <==> k <= 1 && !Inductive(F, o, cti, 0)
    ensures r.BlockAt? ==> r.level <= Frontier(F) && r.level + 1 < |F.frames|
    ensures r.BlockAt? ==> k <= r.level + 2 || r.level == Frontier(F)
    ensures r.BlockAt? && r.cube != cti ==> !MeetsInit(o, r.cube)
  {
    var h := HighestInductiveFrame(F, o, cti, k - 1);
    if h.level < 0 then FromInit else BlockAt(h.level, h.cube)
  }

  /** Frames at frontier 1 and an oracle for which every query is
      satisfiable: every CTI at `k = 1` is a step away from I. */
  function FrontierOne(): (r: Frames)
    ensures Invariant(r) && Frontier(r) == 1
  {
    Extend(Reset(Frames(true, VarVec({}), [], [], NoChange)))
  }

  /** The as-written iteration fails on such a CTI, the checked one reports
      it as reachable from I. */
  lemma IterateMissesInitialStep(cti: Cube)
    ensures CtiPlanAsWritten(FrontierOne(), AlwaysSat(), cti, 1) == Failure(AssertionFailed)
    ensures CtiPlanChecked(FrontierOne(), AlwaysSat(), cti, 1) == FromInit
  {
    assert !Inductive(FrontierOne(), AlwaysSat(), cti, 0);
  }

  /** Lengthening the frames keeps the queue within the frontier. */
  lemma ExtendKeepsEngine(E: Engine)
    requires EngineOk(E)
    ensures EngineOk(E.(F := Extend(E.F)))
  {
  }

  /** `PDR::iterate`: at each `k` from the current frontier on, block every
      CTI that reaches a bad state from F_k, then propagate; an invariant
      level ends the run, otherwise one frame is added. Unless the tactic
      is constrain, the frontier must be 1 on entry. */
  method Iterate(E: Engine, o: Oracle, tactic: Tactic, bad: Cube, retries: nat, fuel: nat) returns (E': Engine, r: Outcome<PdrResult>)
    requires EngineOk(E)
    ensures EngineOk(E') && Frontier(E'.F) >= Frontier(E.F)
    ensures tactic != Constrain && Frontier(E.F) != 1 ==> r == Raised(AssertionFailed) && E' == E
    ensures r.Returned? && r.value.Holds? ==>
              && r.value.invariantLevel.Some?
              && 1 <= r.value.invariantLevel.value <= Frontier(E'.F)
              && (E.F.delta ==> Content(E'.F.frames[r.value.invariantLevel.value]) == {})
              && (!E.F.delta ==> Content(E'.F.frames[r.value.invariantLevel.value])
                                   <= Content(E'.F.frames[r.value.invariantLevel.value + 1]))
    ensures r.Returned? && r.value.Trace? ==> |r.value.states| >= 1
  {
    E' := E;
    if tactic != Constrain && Frontier(E.F) != 1 {
      return E', Raised(AssertionFailed);
    }
    var budget := fuel;
    while true
      invariant EngineOk(E') && Frontier(E'.F) >= Frontier(E.F) && E'.F.delta == E.F.delta
      decreases budget
    {
      if budget == 0 {
        return E', Unfinished;
      }
      budget := budget - 1;
      var k := Frontier(E'.F);
      var dest := PrimeAll(E'.F.vars, bad);
      var cti := GetTransSourceAsWritten(E'.F, o, k, dest, true);
      if cti.Some? {
        var plan := CtiPlanChecked(E'.F, o, cti.value, k);
        if plan.FromInit? {
          return E', Returned(Trace([cti.value]));
        }
        var G, g := BlockGeneralized(E'.F, o, plan.cube, plan.level, retries);
        if !g.Returned? {
          E' := E'.(F := G);
          r := if g.Raised? then Raised(g.error) else Unfinished;
          return;
        }
        var res;
        E', res := Block(E'.(F := G), o, tactic, cti.value, plan.level, retries, budget);
        if !res.Returned? || res.value.Trace? {
          return E', res;
        }
      } else {
        var inv;
        E', inv := PropagateOrExtend(E', o);
        if inv.Some? {
          return E', Returned(Holds(inv));
        }
      }
    }
  }

  /** The branch of `iterate` without a CTI: `propagate(k)` at the frontier,
      and a new frame on top when it found no invariant. */
  method PropagateOrExtend(E: Engine, o: Oracle) returns (E': Engine, inv: Option<nat>)
    requires EngineOk(E)
    ensures EngineOk(E') && E'.F.delta == E.F.delta
    ensures inv.Some? ==> Frontier(E'.F) == Frontier(E.F)
    ensures inv.None? ==> Frontier(E'.F) == Frontier(E.F) + 1
    ensures inv.Some? ==>
              && 1 <= inv.value <= Frontier(E'.F)
              && (E.F.delta ==> Content(E'.F.frames[inv.value]) == {})
              && (!E.F.delta ==> Content(E'.F.frames[inv.value]) <= Content(E'.F.frames[inv.value + 1]))
  {
    var G, r, _ := Propagate(E.F, o, Frontier(E.F));
    E', inv := E.(F := G), r;
    if inv.None? {
      ExtendKeepsEngine(E');
      E' := E'.(F := Extend(E'.F));
    }
  }

  /** `PDR::run`: initiation when the frontier is 0, whose trace is returned
      as it is, then the iteration. */
  method Run(E: Engine, o: Oracle, tactic: Tactic, bad: Cube, initial: Cube, retries: nat, fuel: nat) returns (E': Engine, r: Outcome<PdrResult>)
    requires EngineOk(E)
    ensures EngineOk(E')
    ensures Frontier(E.F) == 0 && Init(E.F, o, bad, initial).1.Trace? ==> r == Returned(Init(E.F, o, bad, initial).1) && E' == E
    ensures r.Returned? && r.value.Holds? ==> r.value.invariantLevel.Some? && 1 <= r.value.invariantLevel.value <= Frontier(E'.F)
  {
    E' := E;
    if Frontier(E.F) == 0 {
      var init := Init(E.F, o, bad, initial);
      if init.1.Trace? {
        return E', Returned(init.1);
      }
      E' := E.(F := init.0);
    }
    E', r := Iterate(E', o, tactic, bad, retries, fuel);
  }
}
