/** The SAT interface of the frame sequence (src/algo/frames.cpp): which
    solver answers a query at a level, the assumptions it is given, and the
    queries built from them. The solver itself is an oracle: a datatype of
    functions that the caller supplies. */
module FrameQueries {
  import opened Wrappers
  import opened Literals
  import opened Formulas
  import opened Cubes
  import opened Frame
  import opened FrameSequence

  /** One assumption of a query: a literal, the clause `mk_or(negate(c))`
      of a cube, or the activation literal `act[i]`. */
  datatype Assumption = ALit(l: Lit) | AClause(c: Cube) | AAct(i: nat)

  /** What a solver holds besides the transition relation and the
      constraint. `InitSolver` is `init_solver` (I alone). `FrameSolver(0, _)`
      is F_0's solver (I and T); `FrameSolver(i, b)` for `i > 0` is a fat
      frame's solver (P and T) with the blocked cubes `b` as clauses.
      `DeltaSolver(g)` is the shared delta solver (P and T) holding each
      cube `c` of level `i` as a clause guarded by `act[i]`, `(c, i) in g`. */
  datatype Solver =
    | InitSolver
    | FrameSolver(level: nat, blocked: set<Cube>)
    | DeltaSolver(guarded: set<(Cube, nat)>)

  /** The solver calls: satisfiability under assumptions, the current-state
      part of the model (`witness_current`) and the unsat core. */
  datatype Oracle = Oracle(
    sat: (Solver, seq<Assumption>) -> bool,
    model: (Solver, seq<Assumption>) -> Cube,
    core: (Solver, seq<Assumption>) -> seq<Assumption>)

  /** The activation literal `act[i]` as an atom of its own. */
  function ActLit(i: nat): Lit {
    Lit(Var("__act__", i, 0), false, true)
  }

  /** The boolean meaning of an assumption. */
  function AssumptionFormula(a: Assumption): Formula {
    match a
    case ALit(l) => FLit(l)
    case AClause(c) => ClauseFormula(Negate(c))
    case AAct(i) => FLit(ActLit(i))
  }

  predicate AllHold(val: Valuation, q: seq<Assumption>) {
    forall i :: 0 <= i < |q| ==> Eval(val, AssumptionFormula(q[i]))
  }

  /** A cube's literals as assumptions. */
  function LitAssumptions(c: seq<Lit>): (r: seq<Assumption>)
    ensures |r| == |c| && forall i :: 0 <= i < |c| ==> r[i] == ALit(c[i])
  {
    seq(|c|, i requires 0 <= i < |c| => ALit(c[i]))
  }

  predicate NoActs(q: seq<Assumption>) {
    forall i :: 0 <= i < |q| ==> !q[i].AAct?
  }

  /** The cubes of levels `1 ..`, each guarded by its level. */
  function Guarded(F: Frames): set<(Cube, nat)> {
    set i, c | 1 <= i < |F.frames| && c in F.frames[i].cubes :: (c, i)
  }

  /** `Frames::get_solver(level)`: the delta solver above level 0 in delta
      mode, otherwise the frame's own solver. */
  function SolverAt(F: Frames, level: nat): (r: Solver)
    requires Invariant(F) && level < |F.frames|
    ensures r.DeltaSolver? <==> F.delta && level > 0
  {
    if F.delta && level > 0 then DeltaSolver(Guarded(F))
    else FrameSolver(level, Content(F.frames[level]))
  }

  /** `act[f], .., act[|act| - 1]` as assumptions. */
  function ActsFrom(act: seq<nat>, f: nat): (r: seq<Assumption>)
    requires f <= |act|
    ensures |r| == |act| - f && forall k :: 0 <= k < |r| ==> r[k] == AAct(act[f + k])
  {
    seq(|act| - f, k requires 0 <= k < |act| - f => AAct(act[f + k]))
  }

  /** The assumptions `SAT(level, A)` passes to the solver: in delta mode
      above level 0, `A` followed by the activation literals of levels
      `level ..`. */
  function Assumptions(F: Frames, level: nat, A: seq<Assumption>): (r: seq<Assumption>)
    requires Invariant(F) && level < |F.frames|
    ensures |r| >= |A| && r[..|A|] == A
  {
    if F.delta && level > 0 then A + ActsFrom(F.act, level) else A
  }

  /** `Frames::SAT(level, assumptions)` */
  function Sat(F: Frames, o: Oracle, level: nat, A: seq<Assumption>): bool
    requires Invariant(F) && level < |F.frames|
  {
    o.sat(SolverAt(F, level), Assumptions(F, level, A))
  }

  /** The model of the last query at `level`, restricted to the current
      state (`get_solver(level).witness_current()`). */
  function Witness(F: Frames, o: Oracle, level: nat, A: seq<Assumption>): Cube
    requires Invariant(F) && level < |F.frames|
  {
    o.model(SolverAt(F, level), Assumptions(F, level, A))
  }

  /** The cubes whose clauses take part in a query: in the delta solver
      those whose activation literal is assumed, in a frame solver all of
      its cubes. */
  ghost predicate Participates(s: Solver, q: seq<Assumption>, c: Cube) {
    match s
    case InitSolver => false
    case FrameSolver(_, b) => c in b
    case DeltaSolver(g) => exists i :: (c, i) in g && AAct(i) in q
  }

  /** In delta mode a query at level `f > 0` sees exactly the cubes stored
      at levels `f` and above: the clauses of F_f are those of all higher
      frames. */
  lemma DeltaParticipation(F: Frames, f: nat, A: seq<Assumption>, c: Cube)
    requires Invariant(F) && F.delta && 0 < f < |F.frames| && NoActs(A)
    ensures Participates(SolverAt(F, f), Assumptions(F, f, A), c)
        <==> exists j :: f <= j < |F.frames| && c in Content(F.frames[j])
  {
    if Participates(SolverAt(F, f), Assumptions(F, f, A), c) {
      ParticipantStored(F, f, A, c);
    }
    if exists j :: f <= j < |F.frames| && c in Content(F.frames[j]) {
      var j :| f <= j < |F.frames| && c in Content(F.frames[j]);
      StoredParticipates(F, f, A, c, j);
    }
  }

  lemma ParticipantStored(F: Frames, f: nat, A: seq<Assumption>, c: Cube)
    requires Invariant(F) && F.delta && 0 < f < |F.frames| && NoActs(A)
    requires Participates(SolverAt(F, f), Assumptions(F, f, A), c)
    ensures exists j :: f <= j < |F.frames| && c in Content(F.frames[j])
  {
    var i :| (c, i) in Guarded(F) && AAct(i) in Assumptions(F, f, A);
    ActIn(F, f, A, i);
    assert c in Content(F.frames[i]);
  }

  /** The activation literals a delta query at `f` assumes are those of
      levels `f` and above. */
  lemma ActIn(F: Frames, f: nat, A: seq<Assumption>, i: nat)
    requires Invariant(F) && F.delta && 0 < f < |F.frames| && NoActs(A)
    requires AAct(i) in Assumptions(F, f, A)
    ensures f <= i < |F.frames|
  {
    var q := Assumptions(F, f, A);
    var acts := ActsFrom(F.act, f);
    assert q == A + acts;
    var k :| 0 <= k < |q| && q[k] == AAct(i);
    assert k >= |A|;
    assert acts[k - |A|] == AAct(F.act[f + k - |A|]);
  }

  lemma StoredParticipates(F: Frames, f: nat, A: seq<Assumption>, c: Cube, j: nat)
    requires Invariant(F) && F.delta && 0 < f <= j < |F.frames| && NoActs(A)
    requires c in Content(F.frames[j])
    ensures Participates(SolverAt(F, f), Assumptions(F, f, A), c)
  {
    var q := Assumptions(F, f, A);
    var acts := ActsFrom(F.act, f);
    assert q == A + acts;
    assert (c, j) in Guarded(F);
    assert q[|A| + j - f] == AAct(j);
  }

  /** At level 0, and in fat mode at every level, exactly the cubes of the
      frame itself take part; F_0 holds none. */
  lemma FrameParticipation(F: Frames, f: nat, A: seq<Assumption>, c: Cube)
    requires Invariant(F) && f < |F.frames| && (f == 0 || !F.delta)
    ensures Participates(SolverAt(F, f), Assumptions(F, f, A), c) <==> c in Content(F.frames[f])
    ensures f == 0 ==> !Participates(SolverAt(F, f), Assumptions(F, f, A), c)
  {
  }

  // queries

  /** The query of `inductive(cube, f)`: the cube in the next state, then
      the clause "not the cube" in the current state. */
  function InductiveQuery(vv: VarVec, c: Cube): (r: seq<Assumption>)
    ensures |r| == |c| + 1 && NoActs(r)
  {
    LitAssumptions(PrimeAll(vv, c)) + [AClause(c)]
  }

  /** The query of `inductive` asks for a step from a state outside `c` into
      `c`: it holds exactly when the current state falsifies `c` and the
      next state satisfies it. */
  lemma InductiveQueryMeaning(val: Valuation, vv: VarVec, c: Cube)
    requires InCurrent(vv, c)
    ensures AllHold(val, InductiveQuery(vv, c)) <==> !CubeHolds(val, c) && CubeHolds(Shift(vv, val), c)
  {
    var q := InductiveQuery(vv, c);
    EvalNegatedCube(val, c);
    assert q[|c|] == AClause(c);
    forall i | 0 <= i < |c|
      ensures Eval(val, AssumptionFormula(q[i])) <==> Holds(Shift(vv, val), c[i])
    {
      assert q[i] == ALit(PrimeAll(vv, c)[i]);
    }
    if CubeHolds(Shift(vv, val), c) && !CubeHolds(val, c) {
      forall i | 0 <= i < |q| ensures Eval(val, AssumptionFormula(q[i])) {
        if i < |c| {
          assert Holds(Shift(vv, val), c[i]);
        }
      }
    }
  }

  /** `Frames::inductive(cube, f)`: `!cube` is inductive relative to F_f
      when no step leads from F_f and outside `cube` into `cube`. */
  function Inductive(F: Frames, o: Oracle, c: Cube, level: nat): (r: bool)
    requires Invariant(F) && level < |F.frames|
    ensures r <==> !o.sat(SolverAt(F, level), Assumptions(F, level, InductiveQuery(F.vars, c)))
  {
    !Sat(F, o, level, InductiveQuery(F.vars, c))
  }

  /** `Frames::counter_to_inductiveness`: the witness of the failed
      inductiveness query, or none when `cube` is inductive. */
  function CounterToInductiveness(F: Frames, o: Oracle, c: Cube, level: nat): (r: Option<Cube>)
    requires Invariant(F) && level < |F.frames|
    ensures r.Some? <==> !Inductive(F, o, c, level)
    ensures r.Some? ==> r.value == Witness(F, o, level, InductiveQuery(F.vars, c))
  {
    if !Inductive(F, o, c, level) then Some(Witness(F, o, level, InductiveQuery(F.vars, c))) else None
  }

  /** `Frames::trans_source`: is there a step from F_level into `dest`?
      A current-state `dest` is renamed to the next state first. */
  function TransSource(F: Frames, o: Oracle, level: nat, dest: Cube, primed: bool): (r: bool)
    requires Invariant(F) && level < |F.frames|
    ensures r <==> Sat(F, o, level, LitAssumptions(if primed then dest else PrimeAll(F.vars, dest)))
  {
    if !primed then Sat(F, o, level, LitAssumptions(PrimeAll(F.vars, dest)))
    else Sat(F, o, level, LitAssumptions(dest))
  }

  /** `Frames::get_trans_source` as written: for a current-state `dest` it
      asks the renamed query and then, again, the query on `dest` itself, and
      takes the witness of the second. */
  function GetTransSourceAsWritten(F: Frames, o: Oracle, level: nat, dest: Cube, primed: bool): (r: Option<Cube>)
    requires Invariant(F) && level < |F.frames|
    ensures r.Some? <==> (primed || Sat(F, o, level, LitAssumptions(PrimeAll(F.vars, dest))))
                         && Sat(F, o, level, LitAssumptions(dest))
    ensures r.Some? ==> r.value == Witness(F, o, level, LitAssumptions(dest))
  {
    if !primed && !Sat(F, o, level, LitAssumptions(PrimeAll(F.vars, dest))) then None
    else if !Sat(F, o, level, LitAssumptions(dest)) then None
    else Some(Witness(F, o, level, LitAssumptions(dest)))
  }

  /** What as written returns is always backed by a step into `dest`. */
  lemma GetTransSourceAsWrittenSound(F: Frames, o: Oracle, level: nat, dest: Cube, primed: bool)
    requires Invariant(F) && level < |F.frames|
    ensures GetTransSourceAsWritten(F, o, level, dest, primed).Some? ==> TransSource(F, o, level, dest, primed)
  {
  }

  /** A one-variable vocabulary, a state that is a step target from F_0 but
      not itself in F_0, and an oracle that says so: the query on the
      renamed cube is satisfiable, the one on the cube itself is not. */
  function SampleVar(): Var {
    Var("x", 0, 0)
  }

  function SampleFrames(): (r: Frames)
    ensures Invariant(r)
  {
    Reset(Frames(false, VarVec({SampleVar()}), [], [], NoChange))
  }

  function NextOnlyOracle(): Oracle {
    Oracle(
      (s: Solver, q: seq<Assumption>) => |q| > 0 && q[0].ALit? && q[0].l.next,
      (s: Solver, q: seq<Assumption>) => [],
      (s: Solver, q: seq<Assumption>) => q)
  }

  /** The second query of `get_trans_source` loses a transition: `trans_source`
      finds a step into the current-state cube `[x]`, `get_trans_source`
      with `primed = false` returns none for it. */
  lemma GetTransSourceLosesStep()
    ensures TransSource(SampleFrames(), NextOnlyOracle(), 0, [Lit(SampleVar(), false, true)], false)
    ensures GetTransSourceAsWritten(SampleFrames(), NextOnlyOracle(), 0, [Lit(SampleVar(), false, true)], false).None?
  {
    var F := SampleFrames();
    var dest := [Lit(SampleVar(), false, true)];
    assert PrimeAll(F.vars, dest) == [Lit(SampleVar(), true, true)];
    assert LitAssumptions(PrimeAll(F.vars, dest))[0] == ALit(Lit(SampleVar(), true, true));
    assert LitAssumptions(dest)[0] == ALit(Lit(SampleVar(), false, true));
  }

  /** `get_trans_source` with the renamed query asked once and its witness
      returned, as the comment at its head describes. */
  function GetTransSource(F: Frames, o: Oracle, level: nat, dest: Cube, primed: bool): (r: Option<Cube>)
    requires Invariant(F) && level < |F.frames|
    ensures r.Some? ==> r.value == Witness(F, o, level, LitAssumptions(if primed then dest else PrimeAll(F.vars, dest)))
  {
    var q := LitAssumptions(if primed then dest else PrimeAll(F.vars, dest));
    if Sat(F, o, level, q) then Some(Witness(F, o, level, q)) else None
  }

  /** The corrected query finds a source exactly when `trans_source` finds
      a step. */
  lemma GetTransSourceAgrees(F: Frames, o: Oracle, level: nat, dest: Cube, primed: bool)
    requires Invariant(F) && level < |F.frames|
    ensures GetTransSource(F, o, level, dest, primed).Some? <==> TransSource(F, o, level, dest, primed)
  {
  }
}
