# IPDR in Dafny

A model of the core of IPDR, an incremental IC3/PDR model checker. The model
covers:

- the frame store (`Frame`);
- the frame sequence (`Frames`) with its delta and fat storage strategies and
  its propagation;
- the SAT queries the frames answer;
- generalisation (highest inductive frame, MIC, `down`);
- the PDR engine (`init`, `iterate`, `block`);
- the incremental driver that sweeps the switch bound of the Peterson model
  (`IPDR::relax`);
- the Peterson and pebbling transition systems;
- the DAG the pebbling game is played on;
- the bit-vector encodings of `mysat::primed`;
- the table parsing of the plotting script `tools/make_graph.py`.

The SAT solver is modelled by its logical content. A query is a function from
assumptions to a verdict, a witness and a core; a small set of oracle axioms
ties these to the frames. Every operation is a pure function, or a method over
immutable values, and its contract states what the C++ (or Python) promises.

Modules, in dependency order:

| file | module | models |
|---|---|---|
| wrappers.dfy | Wrappers | `Option`, `Result`, the exceptions the source raises |
| strings.dfy | Strings | string order, decimal printing and parsing |
| literals.dfy | Literals | literals, `z3ext::minus/negate/convert`, `VarVec` renaming |
| formulas.dfy | Formulas | the boolean formulas built with z3 and their evaluation |
| bits.dfy | Bits | bits of naturals, binary digit sequences |
| bitvec.dfy | BitVecs | `Lit`, `ExpVec`, `BitVec` of src/model/expr.cpp |
| cubes.dfy | Cubes | cubes, `subsumes_le/l`, `expr_vector_less` |
| frame.dfy | Frame | `pdr::Frame` (src/algo/frame.cpp) |
| frames.dfy | FrameSequence | `pdr::Frames`: levels, `remove_state`, `get_blocked` |
| queries.dfy | FrameQueries | `SAT`, `inductive`, `trans_source`, `get_trans_source` |
| propagate.dfy | Propagation | `propagate`, `push_forward_*`, `reuse`, `reset_to_F1` |
| generalize.dfy | Generalization | `highest_inductive_frame`, `MIC`, `down`, `generalize` |
| pdr.dfy | Pdr | `PDR::init`, `iterate`, `block`, `run` |
| constraints.dfy | BoundChange | classifying a change of an optional bound |
| peterson.dfy | Peterson | the Peterson model: state, encoding, transition, constraint |
| ipdr.dfy | Ipdr | `IPDR` for Peterson: relax sweep, resets, tactic dispatch |
| dag.dfy | Dag | `dag::Graph` |
| pebbling.dfy | Pebbling | `PebblingModel` |
| report_text.dfy | ReportText | text helpers of make_graph.py |
| report_data.dfy | ReportData | table parsing and bar data of make_graph.py |

## Model

| member | source | states |
|---|---|---|
| Literals.ExprLessStrictTotal | inc/auxiliary/z3-ext.h:16-19 | The literal order standing for `expr_less` (a fixed lexicographic order, see Left out) is irreflexive, transitive and total on literals. |
| Literals.MinusInvolution | inc/auxiliary/z3-ext.h:21 | `minus` undoes itself, never returns its argument, and flips the literal's truth under every valuation. |
| Literals.Negate | inc/auxiliary/z3-ext.h:23-29 | `negate` keeps length and order, and under every valuation each position holds exactly where the input literal there does not. |
| Literals.NegateInvolution | inc/auxiliary/z3-ext.h:23-29 | Negating a literal vector twice gives back the vector. |
| Literals.NegateVector | inc/auxiliary/z3-ext.h:31-37 | The `vector<expr>` overload needs a non-empty input (it reads `lits[0]`), yields the literals of the `expr_vector` overload, and negating its result again gives back the input. |
| Literals.ConvertRoundTrip | inc/auxiliary/z3-ext.h:39-53 | Converting a non-empty `vector<expr>` to an `expr_vector` and back, or the other way round, returns the original. |
| Literals.Prime | src/model/expr.cpp:125-134 | `p(e)` succeeds exactly on current-vocabulary literals of the variable set and otherwise fails as `at` throws (`IndexError`); a renamed literal keeps variable and polarity and `operator()` renames it back. |
| Literals.PrimeUnprimeInverse | src/model/expr.cpp:115-134 | The two renamings undo each other wherever they succeed, and both commute with `minus`. |
| Literals.PrimeAll | src/model/expr.cpp:136-149 | Renaming a cube to the next state changes each literal of the vocabulary to its next copy and leaves the rest, keeping positions; a current-state cube becomes all next-state and renaming back restores it. |
| Literals.PrimeAllRoundTrip | src/model/expr.cpp:136-149 | A current-state cube renamed to the next state and back is unchanged, and renaming keeps a cube sorted in the model's literal order. |
| Literals.VocabularyTests | src/model/expr.cpp:151-159 | `lit_is_p` / `lit_is_current` hold exactly for positive literals the renamings accept, so negative literals are never recognised, and no literal passes both. |
| Formulas.EvalMkAnd | src/model/expr.cpp:265 | `mk_and` holds iff every conjunct holds, so an empty conjunction is true. |
| Formulas.EvalMkOr | src/model/expr.cpp:332 | `mk_or` holds iff some disjunct holds, so an empty disjunction is false. |
| Formulas.EvalNegatedCube | src/algo/frames.cpp:365-366 | The clause `mk_or(negate(cube))` holds exactly where the cube does not (De Morgan). |
| Formulas.EvalPrimeFormula | src/model/expr.cpp:180 | Substituting next for current atoms means evaluating the formula in the next state. |
| Bits.SetBit | src/model/expr.cpp:258 | `bitset::set(i, b)` makes bit `i` equal to `b` and leaves every other bit. |
| BitVecs.LitUnchangedMeaning | src/model/expr.cpp:36 | `Lit::unchanged` holds iff the atom has the same value in both states. |
| BitVecs.LitValue | src/model/expr.cpp:40-79 | `Lit::extract_value` fails on `value()` when the atom is absent, fails the assert when two matches disagree, and otherwise returns the polarity of the matches. |
| BitVecs.NewExpVec | src/model/expr.cpp:164-167 | A new `ExpVec` is empty and not finished. |
| BitVecs.Add | src/model/expr.cpp:175-184 | `add` needs an unfinished vector, appends `e`, and appends a next-state entry that evaluates as `e` does in the next state. |
| BitVecs.Uint | src/model/expr.cpp:278-298 | `uint(n)` has `size` literals; position `k` is atom `size-1-k` in the requested vocabulary, positive iff that bit of `n` is 1. |
| BitVecs.UintLowBits | src/model/expr.cpp:278-298 | Only the low `size` bits of `n` matter: `uint(n) == uint(n mod 2^size)`. |
| BitVecs.ExtractValueBits | src/model/expr.cpp:225-263 | Bit `t` of `extract_value` is set iff the last literal of the cube naming bit `t` of this vector in the requested vocabulary is positive. |
| BitVecs.ExtractUint | src/model/expr.cpp:219-263 | Round trip: `extract_value(uint(n)) == n mod 2^size`, in both vocabularies. |
| BitVecs.UintHolds | src/model/expr.cpp:219-223 | The cube `uint(n)` holds iff the vector's stored number agrees with `n` on the low `size` bits. |
| BitVecs.EqualsValueMeaning | src/model/expr.cpp:265-266 | `equals(n)` holds iff the vector stores `n mod 2^size`. |
| BitVecs.UnchangedMeaning | src/model/expr.cpp:268-275 | `unchanged()` holds iff every bit keeps its value, iff the stored number is the same in both states. |
| BitVecs.EvalLessDisjuncts | src/model/expr.cpp:318-332 | The disjunction built by the `less_4b` loops holds iff the window of the first number is below that of the second. |
| BitVecs.Less4bMeaning | src/model/expr.cpp:300-333 | `less_4b(n, msb)` holds iff bits `msb-3 .. msb` of the vector, with bits at or above `size` read as 0, form a number below the same bits of `n`. |
| BitVecs.Less4bVecMeaning | src/model/expr.cpp:335-359 | `less_4b(other, msb)` holds iff that window of this vector is below the same window of `other`. |
| BitVecs.EqValueMeaning | src/model/expr.cpp:361-380 | `eq(n, msb, nbits)` holds iff the `nbits` bits ending at `msb` equal the same bits of `n`. |
| BitVecs.EqVecMeaning | src/model/expr.cpp:382-398 | `eq(other, msb, nbits)` holds iff the two vectors agree on the `nbits` bits ending at `msb`. |
| Cubes.SubsumesAsSets | src/algo/frame.cpp:40-43 | `subsumes_le` is inclusion and `subsumes_l` proper inclusion of the literal sets. |
| Cubes.CubeExtensional | src/algo/frame.cpp:77 | Two cubes sorted in the model's literal order with the same literals are the same vector. |
| Cubes.CubeLessStrictTotal | src/algo/frame.cpp:113-115 | `expr_vector_less`, built on the model's literal order, is a strict total order, so a `CubeSet` iterates in one well-defined order. |
| Cubes.SortedUnique | inc/algo/frame.h:25 | A `CubeSet` is determined by its elements: two strictly increasing sequences with the same members are equal. |
| Frame.NewFrame | src/algo/frame.cpp:21 | A new frame has the given level and no cubes. |
| Frame.Blocked | src/algo/frame.cpp:23-33 | `blocked(c)` holds iff some stored cube is a strict subset of `c`. |
| Frame.KeepUnsubsumed | src/algo/frame.cpp:45-51 | The erase loop keeps exactly the cubes the test does not mark, in order. |
| Frame.RemoveSubsumed | src/algo/frame.cpp:35-73 | `remove_subsumed` leaves exactly the cubes that `c` does not subsume (`subsumes_le` with `remove_equal`, else `subsumes_l`) and returns how many it erased. |
| Frame.RemoveSubsumedOnlyWeaker | src/algo/frame.cpp:35-53 | Every erased cube contains all literals of `c`. |
| Frame.RemoveEqualChoice | src/algo/frame.cpp:40-43 | A stored copy of `c` is erased with `remove_equal` and kept without it. |
| Frame.Insert | src/algo/frame.cpp:82 | `set::insert` adds `c`, keeps the order, and reports whether `c` was new. |
| Frame.Block | src/algo/frame.cpp:80-83 | `block(c)` adds `c` without any subsumption check and returns whether it was absent. |
| Frame.BlockIdempotent | src/algo/frame.cpp:80-83 | Blocking the same cube again reports false and changes nothing. |
| Frame.Equals | src/algo/frame.cpp:86-108 | `equals` is true iff both frames hold the same cube sequence. |
| Frame.EqualsIsSetEquality | src/algo/frame.cpp:85-108 | On sorted frames the pairwise comparison decides equality of the cube sets. |
| Frame.SetDifference | src/algo/frame.cpp:113-115 | `set_difference` of sorted ranges is sorted and holds exactly the cubes of the first range absent from the second. |
| Frame.Diff | src/algo/frame.cpp:110-117 | `diff(g)` is the set of cubes of this frame not in `g`, in set order. |
| Frame.Empty | src/algo/frame.cpp:120 | `empty` holds iff no cube is stored. |
| FrameSequence.Extend | src/algo/frames.cpp:145-164 | `extend` adds one empty frame on top, plus an activation literal in delta mode, keeps the frames below, and raises the frontier by one. |
| FrameSequence.InitFrameI | src/algo/frames.cpp:107-126 | `init_frame_I` creates F_0 alone, with the unused `__actI__` literal in delta mode. |
| FrameSequence.Reset | src/algo/frames.cpp:36-55 | `reset` leaves F_0 and an empty F_1, frontier 0, and no stored cubes. |
| FrameSequence.ClearUntil | src/algo/frames.cpp:131-143 | `clear_until(j)` pops frames until the frontier is at most `j`; the remaining frames are a prefix of the old ones. |
| FrameSequence.Prune | src/algo/frames.cpp:223-228 | The `remove_subsumed` calls of `remove_state` keep every frame valid at its level and touch no level outside `i .. L`. |
| FrameSequence.PruneContent | src/algo/frames.cpp:223-228 | The `remove_subsumed(c, i < L)` calls erase equal and weaker cubes below `L` and only strictly weaker cubes at `L`. |
| FrameSequence.DeltaRemoveState | src/algo/frames.cpp:221-241 | Delta `remove_state` stores `c` at `L`, touches no level outside `1 .. L`, and answers whether `c` was new at `L`. |
| FrameSequence.DeltaRemoveStateContent | src/algo/frames.cpp:221-241 | After delta `remove_state(c, L)` a level below `L` holds exactly its old cubes that are not supersets of `c`, and level `L` its old cubes that are not strict supersets of `c`, plus `c`. |
| FrameSequence.FatLoop | src/algo/frames.cpp:246-261 | The fat loop stores `c` at every level it visits, touches no other level, and answers false exactly when `c` was already stored at `L`. |
| FrameSequence.FatLoopHas | src/algo/frames.cpp:246-261 | After the fat loop a level `j` holds `x` exactly when `x` is `c`, or `x` was there and is not a superset of `c` (not a strict one at `L`). |
| FrameSequence.FatRemoveState | src/algo/frames.cpp:243-262 | Fat `remove_state` stores `c` at every level `1 .. L` and touches no other level; it is false only when `c` was already stored at `L`. |
| FrameSequence.FatRemoveStateContent | src/algo/frames.cpp:243-262 | After fat `remove_state(c, L)` a level below `L` holds exactly its old cubes that are not supersets of `c`, plus `c`, and level `L` its old cubes that are not strict supersets of `c`, plus `c`. |
| FrameSequence.RemoveState | src/algo/frames.cpp:204-219 | `remove_state(c, L)` needs `0 < L` below the frame count, stores `c` at `L`, changes no level outside `1 .. L`, and reports whether `c` was new at `L`. |
| FrameSequence.FatRemoveStateMonotone | src/algo/frames.cpp:243-262 | Fat storage keeps the frames monotone: each cube above level 1 has a subset one level down. |
| FrameSequence.RemoveStateStrengthens | src/algo/frames.cpp:204-262 | After `remove_state`, every F_i with `i >= 1` still excludes everything it excluded before. |
| FrameSequence.RemoveStateCovers | src/algo/frames.cpp:204-262 | After `remove_state(c, L)`, every F_i with `1 <= i <= L` excludes `c`. |
| FrameSequence.BlockCube | src/algo/frames.cpp:204-262 | `remove_state(c, L)` as its callers use it: the result is exactly the frames `remove_state` leaves; they keep the shape and the levels outside `1 .. L`, only strengthen, and F_1 .. F_L exclude `c`. |
| FrameSequence.EmptyLevelIsFixpoint | src/algo/frames.cpp:280-286 | In delta mode an empty level `i` means F_i and F_{i+1} exclude the same cubes, which is why `propagate` reports it. |
| FrameSequence.UnionFrom | src/algo/frames.cpp:191-196 | The delta loop of `get_blocked` collects the union of the levels from `i` up, sorted. |
| FrameSequence.GetBlocked | src/algo/frames.cpp:182-202 | `get_blocked(i)` is every cube stored at level `i` or above in delta mode, and F_1 whatever `i` is in fat mode. |
| FrameQueries.SolverAt | src/algo/frames.cpp:492-498 | `get_solver(level)` is the shared delta solver exactly in delta mode above level 0, and the frame's own solver otherwise. |
| FrameQueries.Assumptions | src/algo/frames.cpp:439-453 | `SAT` passes the caller's assumptions unchanged, followed by activation literals in delta mode above level 0. |
| FrameQueries.DeltaParticipation | src/algo/frames.cpp:221-233 | In delta mode a query at level `f > 0` sees exactly the cubes stored at levels `f` and above. |
| FrameQueries.FrameParticipation | src/algo/frames.cpp:492-498 | At level 0, and at every level in fat mode, a query sees exactly the frame's own cubes; F_0 holds none. |
| FrameQueries.InductiveQuery | src/algo/frames.cpp:365-368 | The query of `inductive` is the cube renamed to the next state, then the clause `!cube`, with no activation literal. |
| FrameQueries.InductiveQueryMeaning | src/algo/frames.cpp:358-397 | The inductiveness query of `inductive` and `counter_to_inductiveness` holds exactly on a step from a state outside the cube into the cube. |
| FrameQueries.GetTransSourceAsWritten | src/algo/frames.cpp:411-425 | As written, `get_trans_source` for a current-state cube also asks the query on the unrenamed cube and answers by that second query. |
| FrameQueries.GetTransSourceAsWrittenSound | src/algo/frames.cpp:411-425 | Whatever the as-written `get_trans_source` returns is backed by a step into the destination. |
| FrameQueries.GetTransSourceLosesStep | src/algo/frames.cpp:411-425 | On a one-variable system the as-written `get_trans_source` returns nothing for a cube that `trans_source` reaches in one step. |
| FrameQueries.GetTransSource | src/algo/frames.cpp:399-425 | The corrected `get_trans_source` returns the witness of the one renamed query. |
| FrameQueries.GetTransSourceAgrees | src/algo/frames.cpp:399-425 | The corrected query finds a source exactly when `trans_source` finds a step. |
| Propagation.PushOne | src/algo/frames.cpp:303-308 | One cube of a push: it is pushed iff it has no transition source at F_level; a pushed cube leaves exactly the frames of `remove_state(c, level + 1)`, after which F_{level+1} excludes it; an unpushed cube changes nothing. |
| Propagation.PushCubes | src/algo/frames.cpp:301-309 | The push loop tries every input cube once, in order, each try asked of the frames the previous try left; a cube is pushed exactly when it has no transition source at F_level of those frames; a pushed try leaves exactly `remove_state(c, level + 1)` of them, an unpushed one leaves them unchanged, and the result is what the last try leaves; every pushed cube is excluded at `level + 1`. F_0 and the frames above `level + 1` are unchanged, and F_1 .. F_{level+1} change only by strengthening. |
| Propagation.PushForwardDelta | src/algo/frames.cpp:294-315 | `push_forward_delta` runs the push loop over the cubes stored at F_level: each try is asked of the frames the previous one left, a cube is pushed exactly when it has no transition source, each push is exactly `remove_state(c, level + 1)`, and every pushed cube is excluded at `level + 1`; it keeps the frame shape and only strengthens. |
| Propagation.PushForwardFat | src/algo/frames.cpp:317-347 | `push_forward_fat` runs the push loop over the cubes of F_level missing from F_{level+1}, with the same exact tries and pushes as `push_forward_delta`; it reports `level` iff there was no such cube, and then F_level is contained in F_{level+1}. |
| Propagation.Propagate | src/algo/frames.cpp:265-292 | `propagate(k)` needs `k <= frontier()`; it pushes levels 1 .. k in order, each from the frames the previous level left, with the exact tries of the push loop; it only strengthens. In delta mode it answers the lowest empty level in `1 .. k`, or none when no level is empty. In fat mode the log marks each level whose `push_forward_fat` reported a fixpoint; the answer is the first marked level, where propagation stops, and none means no level was marked. |
| Propagation.Reuse | src/algo/frames.cpp:57-69 | `reuse` needs delta mode, a tightened constraint and frontier at least 1; it clears the change flag, pushes every level below the frontier with the exact tries of `propagate`, only strengthens, and answers an empty level below the frontier or none. |
| Propagation.Carry | src/algo/frames.cpp:83-97 | The carry loop blocks at level 1 exactly the old cubes that miss the initial states, keeps the other levels, and only strengthens. |
| Propagation.ResetToF1AsWritten | src/algo/frames.cpp:71-105 | As written, `clear_until(0)` keeps F_1, so `extend` adds an empty F_2 and the frontier ends at 1; F_1 holds its own old cubes plus carried cubes that miss the initial states. |
| Propagation.ResetToF1 | src/algo/frames.cpp:71-105 | The corrected reset leaves F_0 and F_1 at frontier 0; F_1 holds only old cubes that miss the initial states, and every such old cube has a subset in F_1. |
| Propagation.ResetToF1KeepsStaleCube | src/algo/frames.cpp:79-81 | On a sequence whose F_1 holds a cube meeting the initial states, as written keeps that cube in F_1 while the corrected reset drops it. |
| Generalization.First | src/algo/generalize.cpp:36 | The first level `hif_` tries is at least 1 and at least `min`. |
| Generalization.HifScan | src/algo/generalize.cpp:35-45 | The `hif_` loop stops one below the first level where the cube is not inductive, or at the frontier; every level it passed is inductive, and it keeps the core of the last level that succeeded. |
| Generalization.Hif | src/algo/generalize.cpp:22-50 | `hif_` is -1 exactly when `min <= 0` and the cube is not inductive relative to F_0; otherwise it is a level up to the frontier below which every tried level is inductive and above which the next is not; a core exists iff some level succeeded. |
| Generalization.ReduceCore | src/algo/generalize.cpp:60-62 | The reduced cube holds exactly the core's literals that `lit_is_p` accepts, renamed to the current state. |
| Generalization.HighestInductiveFrame | src/algo/generalize.cpp:52-84 | `highest_inductive_frame` returns `hif_`'s level; it replaces the cube only at a level of at least `min` with a core, and only by a reduced core that misses the initial states. |
| Generalization.HighestInductiveFrameWithin | src/algo/generalize.cpp:52-84 | When the core is drawn from the query, the cube returned is a subset of the input cube. |
| Generalization.ReducedWithin | src/algo/generalize.cpp:60-62 | A core drawn from the inductiveness query of `c` reduces to literals of `c`. |
| Generalization.Intersect | src/algo/generalize.cpp:183 | `witness_current_intersect` keeps exactly the literals of the state the witness shares, and never lengthens it. |
| Generalization.IntersectShape | src/algo/generalize.cpp:171-183 | The intersection keeps the state sorted, and has its full length only when it is the state itself. |
| Generalization.Down | src/algo/generalize.cpp:166-192 | `down` is false when the candidate meets the initial states and true once it is inductive; what survives is a sorted subset of the input, inductive and outside the initial states. |
| Generalization.DownTerminates | src/algo/generalize.cpp:169-190 | When witnesses lie outside the queried cube, each round of `down` shrinks the candidate, so `down` returns. |
| Generalization.DropAt | src/algo/generalize.cpp:129-131 | The candidate without literal `i` is one shorter, a subset, and still sorted. |
| Generalization.SurvivedIsReduced | src/algo/generalize.cpp:137-143 | A sub-cube that `down` lets survive is shorter than MIC's candidate, and keeps it a sorted inductive subset outside the initial states. |
| Generalization.MIC | src/algo/generalize.cpp:114-163 | MIC needs `level` at most the frontier; it returns a sorted subset of the cube, inductive and outside the initial states whenever it changed; it runs at most `|cube|` rounds and stops at the retry limit. |
| Generalization.Generalize | src/algo/generalize.cpp:86-109 | `generalize` keeps MIC's guarantees: a sorted subset, inductive and outside the initial states when changed. |
| Pdr.Chain | src/algo/pdr.cpp:217-226 | The trace of a state starts with its own cube, has at most one entry per older state, and continues with the trace of the state it steps into. |
| Pdr.ChainGrows | src/algo/pdr.cpp:217-218 | Creating a new state does not change the trace of any state created before it. |
| Pdr.Enqueue | inc/algo/pdr.h:44 | `obligations.emplace` keeps the set ordered by `Obligation::operator<` and adds exactly the new obligation. |
| Pdr.TopIsLowest | src/algo/pdr.cpp:209 | The first obligation of the ordered set has the lowest level, and erasing it leaves exactly the others. |
| Pdr.GeneralizeChecked | src/algo/generalize.cpp:86-163 | `generalize` raises the MIC assertion exactly when the cube is unsorted; otherwise it returns a sorted subset that is inductive and outside the initial states whenever it changed. |
| Pdr.BlockGeneralized | src/algo/pdr.cpp:228-229 | Generalising and blocking at `m + 1` changes only F_1 .. F_{m+1}, only strengthens, and leaves a subset of the cube in F_{m+1}. |
| Pdr.BlockAndQueue | src/algo/pdr.cpp:228-235 | After generalising and blocking, the obligation is queued exactly when `m + 1` is at most the frontier; the cube is covered at `m + 1`. |
| Pdr.PredecessorStep | src/algo/pdr.cpp:214-239 | The predecessor branch adds one state linked to the top obligation's state; it reports a trace exactly when HIF answers -1, and otherwise blocks the generalised predecessor at `m + 1` and queues it one deeper. |
| Pdr.FinishStep | src/algo/pdr.cpp:240-266 | The finish branch erases the top obligation, blocks its generalised cube at `m + 1`, and requeues the same state at `m + 1` exactly when that is at most the frontier. |
| Pdr.BlockTurn | src/algo/pdr.cpp:209-266 | One turn of `block` keeps the engine well formed, only strengthens, only adds states, and a trace it reports has at least two states and starts in a state with a step from F_0. |
| Pdr.Block | src/algo/pdr.cpp:181-286 | `block` only strengthens and only adds states; outside `relax` it starts from an empty queue; it returns `empty_true` only with an empty queue, and a trace only of two or more states starting next to I. |
| Pdr.Init | src/algo/pdr.cpp:112-134 | `init` reports a trace exactly when I meets the bad states or steps into them, the initial state when I meets them, and otherwise extends to frontier 1 keeping F_0 and F_1. |
| Pdr.CtiPlanAsWritten | src/algo/pdr.cpp:151-156 | As written, `iterate` fails an assertion exactly when at `k = 1` the CTI has a step from F_0; otherwise it blocks at a level up to the frontier. |
| Pdr.CtiPlanChecked | src/algo/pdr.cpp:151-156 | With the -1 answer checked, a trace is reported exactly in that case; otherwise the level lies in the sequence, is at least `k - 2` unless at the frontier, and the cube is outside I whenever it changed. |
| Pdr.IterateMissesInitialStep | src/algo/pdr.cpp:151-156 | With a solver that always answers sat, the as-written plan fails at frontier 1 while the checked plan reports a trace from I. |
| Pdr.PropagateOrExtend | src/algo/pdr.cpp:166-178 | Without a CTI, `iterate` propagates at the frontier; an invariant level it reports lies in `1 .. frontier` and is empty (delta) or contained in the next frame (fat), and otherwise the loop step extends the frontier by one. |
| Pdr.Iterate | src/algo/pdr.cpp:136-179 | `iterate` asserts frontier 1 outside `constrain`; an invariant it reports lies at a level up to the frontier where the frame is empty (delta) or contained in the next (fat). |
| Pdr.Run | src/algo/pdr.cpp:51-81 | `run` calls `init` at frontier 0 and returns its trace unchanged; an invariant it reports lies at a level in `1 .. frontier`. |
| BoundChange.Classify | src/model/pebbling/pebbling-model.cpp:184-197 | The change is `none` exactly when the old and new bound are equal. |
| BoundChange.ClassifyMeaning | src/model/pebbling/pebbling-model.cpp:184-197 | A change is `relaxed` exactly when the new bound allows strictly more counts, and `constrained` exactly when it allows strictly fewer. |
| Peterson.VecLessIrreflexive | src/model/peterson/peterson.cpp:81-98 | The `std::vector` order the state comparison uses is irreflexive. |
| Peterson.VecLessTransitive | src/model/peterson/peterson.cpp:81-98 | The vector order is transitive. |
| Peterson.VecLessTotal | src/model/peterson/peterson.cpp:81-98 | Any two vectors are equal or ordered one way. |
| Peterson.VecLessAsymmetric | src/model/peterson/peterson.cpp:81-98 | A smaller vector is not also larger, and differs. |
| Peterson.VecTie | src/model/peterson/peterson.cpp:81-98 | Neither of two vectors is smaller exactly when they are equal. |
| Peterson.StateEqIsEquality | src/model/peterson/peterson.cpp:122-148 | `PetersonState::operator==` is equality of the states, switch fields included. |
| Peterson.StateTrichotomy | src/model/peterson/peterson.cpp:79-148 | Of `a < b`, `a == b` and `b < a` exactly one holds. |
| Peterson.StateLessByVectors | src/model/peterson/peterson.cpp:79-98 | The first of pc, level and last on which two states differ decides their order. |
| Peterson.StateLessTransitive | src/model/peterson/peterson.cpp:79-120 | `PetersonState::operator<` is transitive, so it is a strict order for `std::set`. |
| Peterson.Holding | src/model/expr.cpp:200-203 | `BitVec::holding(max)` is wide enough for every value up to `max`. |
| Peterson.Segments | src/model/peterson/peterson.cpp:39-72 | `cube` assigns one bit vector per pc, level and last entry, plus proc_last and switch_count exactly when the state has them. |
| Peterson.ExtractState | src/model/peterson/peterson.cpp:940-1006 | `extract_state` yields a state sized to the model whose switch fields are present exactly when switches are bounded. |
| Peterson.ExtractCube | src/model/peterson/peterson.cpp:39-77 | Round trip: `extract_state(cube(s)) == s` and `extract_state_p(cube_p(s)) == s` for every state of the model whose values fit their bit vectors. |
| Peterson.InRangeFits | src/model/peterson/peterson.cpp:227-301 | Values in the ranges the protocol uses fit the widths `mk_vars` gives the bit vectors. |
| Peterson.Move | src/model/peterson/peterson.cpp:535-712 | The move of one process keeps the state well formed and does not touch the switch fields. |
| Peterson.Successor | src/model/peterson/peterson.cpp:413-498 | The successor when a process fires is a well-formed state. |
| Peterson.ProcStepIsMove | src/model/peterson/peterson.cpp:535-712 | The disjunction `T_start .. T_release` of one process holds exactly for the move computed directly. |
| Peterson.StepIsSuccessor | src/model/peterson/peterson.cpp:1018-1043 | A constrained step leads exactly to the successors of the state, as `successors` enumerates them. |
| Peterson.IdleProcessesStay | src/model/peterson/peterson.cpp:413-438 | Only the first `p` processes move, and a bounded step records one of them as last to fire. |
| Peterson.InitialLevels | src/model/peterson/peterson.cpp:386-411 | In the initial states pc and level agree. |
| Peterson.TransKeepsLevels | src/model/peterson/peterson.cpp:535-712 | Every transition keeps pc and level in agreement: idle at 0, acquiring at 1 .. N, critical at N. |
| Peterson.Incremented | src/model/peterson/peterson.cpp:480-481 | `incremented()` of the switch counter, held in 5 bits since SWITCH_COUNT_MAX is 31 (peterson.cpp:324): one more below 32, and 31 wraps to 0. |
| Peterson.RunCountsSwitches | src/model/peterson/peterson.cpp:447-497 | Along a run under a bound that `constrain_switches` accepts, the switch counter equals the number of changes of the firing process, never exceeds the bound, and so never wraps. |
| Peterson.ConstrainSwitchesAsWritten | src/model/peterson/peterson.cpp:440-498 | As written, `constrain_switches` throws exactly for a bound with `m + 1 >= 31` and otherwise installs the bound. |
| Peterson.ConstrainSwitches | src/model/peterson/peterson.cpp:440-498 | The corrected classification: `relaxed` exactly when the new bound allows strictly more switch counts, `constrained` exactly when strictly fewer, `none` when equal. |
| Peterson.ConstrainSwitchesAgreeOnBounds | src/model/peterson/peterson.cpp:455-461 | Between two present bounds the as-written and corrected classifications agree. |
| Peterson.ConstrainSwitchesAsWrittenMisclassifies | src/model/peterson/peterson.cpp:455-461 | Dropping a bound of 3 is classified `constrained` although it allows strictly more. |
| Peterson.SameBoundednessSameSystem | src/model/peterson/peterson.cpp:463-471 | Initial states and transitions depend on the bound only through its presence, which is when they are rebuilt. |
| Peterson.NewModel | src/model/peterson/peterson.cpp:303-348 | The constructor fails for more firing processes than slots or a bound with `m + 1 >= 31`; a bounded model starts out `relaxed`. |
| Peterson.Critical | src/model/peterson/peterson.cpp:262-267 | The count of processes at pc 4 is zero exactly when no process is critical, and at most the number of processes. |
| Peterson.CriticalAtMostOne | src/model/peterson/peterson.cpp:269 | The `atmost(conj, 1)` of `property` is mutual exclusion: no two distinct processes are both at pc 4. |
| Peterson.PropertyNegatesBad | src/model/peterson/peterson.cpp:262-270 | `n_property` (`atleast(conj, 2)`) holds exactly where `property` fails, i.e. where two distinct processes are both critical. |
| Ipdr.NewIpdr | src/algo/ipdr-peter.cpp:10-16 | The constructor succeeds exactly for the relax tactic. |
| Ipdr.BasicResetTo | src/algo/ipdr-peter.cpp:89-99 | `basic_reset` fails when no bound is set (`.value()`) or the bound cannot be counted, and otherwise sets the bound and the basic tactic. |
| Ipdr.RelaxResetTo | src/algo/ipdr-peter.cpp:101-115 | `relax_reset` fails without an old bound, for a bound not above the old one, or one that cannot be counted; otherwise it sets the bound, the relax tactic and a `relaxed` change. |
| Ipdr.SweepStep | src/algo/ipdr-peter.cpp:63-75 | After a run that held, the reset to the next bound fails exactly when the counter cannot hold it, and otherwise the next run is recorded. |
| Ipdr.Relax | src/algo/ipdr-peter.cpp:50-85 | `relax` records runs at bounds 0, 1, .. in order; every run but the last held, and it stops at the first trace or after `max_bound`; it fails without a bound or when all 30 countable bounds held. |
| Ipdr.RelaxJumpTest | src/algo/ipdr-peter.cpp:117-140 | `relax_jump_test` always ends in an error: the missing bound, an uncountable start, or the failed `newp > old` assertion of `relax_reset`. |
| Ipdr.Run | src/algo/ipdr-peter.cpp:34-48 | `IPDR::run` runs `relax` with the stored control setting and fails for every other tactic, with the message the source throws. |
| Ipdr.ControlRun | src/algo/ipdr-peter.cpp:18-32 | `control_run` runs `relax` with every step reset from scratch and fails for every other tactic. |
| Dag.EdgeLessLexicographic | inc/model/dag.h:26-36 | `Edge::operator<` is the lexicographic order on (from, to). |
| Dag.EdgeLessIrreflexive | inc/model/dag.h:26-36 | No edge is below itself. |
| Dag.EdgeLessTransitive | inc/model/dag.h:26-36 | The edge order is transitive. |
| Dag.EdgeLessTotal | inc/model/dag.h:26-36 | Two edges are equal or ordered one way, so `std::set<Edge>` identifies edges by value. |
| Dag.NewGraph | inc/model/dag.h:65 | A new graph has the given name, an empty prefix and is well built. |
| Dag.NodeInjective | inc/model/dag.h:63 | Distinct names stay distinct once prefixed. |
| Dag.AddInput | inc/model/dag.h:71 | `add_input` adds the prefixed name to the inputs and changes nothing else. |
| Dag.AddNode | inc/model/dag.h:73 | `add_node` adds the prefixed name to the nodes and changes nothing else. |
| Dag.AddOutput | inc/model/dag.h:75-79 | `add_output` adds the prefixed name to both nodes and outputs, after which it is an output. |
| Dag.SourcesOf | inc/model/dag.h:92-104 | The sources kept are exactly the prefixed names of `from` that are (or are not) inputs, in order. |
| Dag.EdgesTo | inc/model/dag.h:97-102 | The edges added are exactly those from a kept source to the target. |
| Dag.AddSources | inc/model/dag.h:92-104 | The loop fails its assertion exactly when some source is neither an input nor a node; otherwise inputs give input edges and the rest give edges and children. |
| Dag.AddEdgesTo | inc/model/dag.h:81-107 | `add_edges_to` does nothing for no sources, asserts the target is a node and every source an input or node, and adds exactly the edges, input edges and (if new) children list of the sources. |
| Dag.AddEdgesToKeepsOk | inc/model/dag.h:81-107 | `add_edges_to` keeps a graph well built: edges join nodes, children are nodes linked by an edge. |
| Dag.SecondAddKeepsChildren | inc/model/dag.h:106 | `children.emplace` never replaces: a second `add_edges_to` into a node adds edges but keeps its first children list. |
| Dag.GetChildren | inc/model/dag.h:158-166 | `get_children` is empty for a node without entry, and in a well-built graph lists only nodes with an edge into the key. |
| Dag.ChildrenAfterAdd | inc/model/dag.h:81-107 | A node without children gets exactly the non-input sources, in order. |
| Pebbling.NewPebblingModel | src/model/pebbling/pebbling-model.cpp:16-32 | The constructor keeps the graph, sets no bound, and the empty configuration is initial. |
| Pebbling.FinalPebbles | src/model/pebbling/pebbling-model.cpp:31 | The final configuration holds as many pebbles as the graph has outputs, at most its number of nodes. |
| Pebbling.FinalPebblesIsBadSize | src/model/pebbling/pebbling-model.cpp:16-32 | On a well-built graph the bad state pebbles exactly `final_pebbles` nodes, so no bound below `final_pebbles` admits it. |
| Pebbling.EncodingsAgree | src/model/pebbling/pebbling-model.cpp:57-152 | The clause encoding, `raw1` and `raw2` all denote the move rule: a node flips only with every child pebbled now and next. |
| Pebbling.NoFlipWithChild | src/model/pebbling/pebbling-model.cpp:57-76 | No node flips in the same step as one of its children. |
| Pebbling.ChildlessFlipsFreely | src/model/pebbling/pebbling-model.cpp:57-76 | A node without children may be pebbled or unpebbled at any time. |
| Pebbling.PropertyNegatesBad | src/model/pebbling/pebbling-model.cpp:154-177 | The property clause holds exactly outside the bad cube. |
| Pebbling.BadIsOutputs | src/model/pebbling/pebbling-model.cpp:16-32 | On a well-built graph the bad state is exactly the outputs pebbled, and the initial one nothing pebbled. |
| Pebbling.Constrain | src/model/pebbling/pebbling-model.cpp:179-208 | `constrain` fails its size assertion without a bound; otherwise it installs the bound and classifies it: `relaxed` exactly when more counts are allowed, `constrained` exactly when fewer. |
| Pebbling.ConstrainKeepsSteps | src/model/pebbling/pebbling-model.cpp:179-208 | A relaxing change keeps every step of the old system; a constraining one adds none. |
| Pebbling.ConstraintStr | src/model/pebbling/pebbling-model.cpp:217-226 | The description is "no constraint" exactly when there is no bound. |
| Pebbling.ConstraintStrReadsBack | src/model/pebbling/pebbling-model.cpp:217-226 | With a bound the description is "cardinality " followed by the digits of the bound. |
| Pebbling.ConstraintStrInjective | src/model/pebbling/pebbling-model.cpp:217-226 | Models with the same description have the same bound. |
| Strings.LessIrreflexive | inc/model/dag.h:28-35 | The `std::string` order the edge order is built from is irreflexive. |
| Strings.LessTransitive | inc/model/dag.h:28-35 | The string order is transitive. |
| Strings.LessTotal | inc/model/dag.h:28-35 | Two strings are equal or ordered one way. |
| Strings.NatToString | src/model/pebbling/pebbling-model.cpp:222 | Printing a number gives a non-empty string of decimal digits. |
| Strings.ParseNatToString | src/model/pebbling/pebbling-model.cpp:222 | Reading the printed digits back gives the number. |
| ReportText.Split | tools/make_graph.py:141 | `str.split` yields at least one piece. |
| ReportText.SplitJoin | tools/make_graph.py:141 | Joining the pieces of `split` with the separator gives the string back. |
| ReportText.SplitPiecesFree | tools/make_graph.py:156 | Splitting on one character leaves no piece containing it. |
| ReportText.NonEmpty | tools/make_graph.py:141 | The filter keeps exactly the non-empty pieces. |
| ReportText.NonEmptyKeepsText | tools/make_graph.py:141 | Dropping empty pieces keeps the text they spell out. |
| ReportText.SplitRows | tools/make_graph.py:140-142 | `split_rows` keeps exactly the non-empty pieces between `\\` separators, in order. |
| ReportText.Strip | tools/make_graph.py:159-160 | `strip` returns a substring with only whitespace around it and no whitespace at either end. |
| ReportText.StripIdempotent | tools/make_graph.py:159-160 | Stripping twice is stripping once. |
| ReportText.ReplaceChar | tools/make_graph.py:192 | Substituting a character removes it when the replacement lacks it and keeps every other character. |
| ReportText.EscapePassesPerChar | tools/make_graph.py:190-192 | The two substitutions of `escape` escape each character on its own: `^{}` produced by the second pass is not touched by the first. |
| ReportText.Escape | tools/make_graph.py:190-192 | `escape` is per-character escaping, so an underscore in the result is always escaped. |
| ReportText.UnescapeEscape | tools/make_graph.py:190-192 | Escaping loses nothing: the escaped name reads back to the original. |
| ReportText.EscapeInjective | tools/make_graph.py:190-192 | Distinct names stay distinct when escaped. |
| ReportText.IndexStart | tools/make_graph.py:197 | The start of a trailing `_<digits>` is found exactly when there is one. |
| ReportText.AddCTag | tools/make_graph.py:195-197 | `add_C_tag` changes a name exactly when it ends in `_<digits>` (before an optional final newline), and then inserts `_C` before it. |
| ReportText.AddCTagKeepsIndex | tools/make_graph.py:195-197 | The tag goes right before the index, which stays the trailing one, and removing the tag gives the name back. |
| ReportText.MatchIsDecimal | tools/make_graph.py:202 | What the pattern `([0-9]+\.[0-9]+) s` captures is digits, a point and digits. |
| ReportText.SearchFrom | tools/make_graph.py:202 | `regex.search` finds the leftmost position where the pattern matches, or none. |
| ReportText.GetTimeVal | tools/make_graph.py:200-205 | `get_time_val` is `???` exactly when the pattern matches nowhere, and otherwise a decimal. |
| ReportText.GetTimeValOfCell | tools/make_graph.py:200-205 | For a table cell `7.010 s` behind text without digits, `get_time_val` returns the number. |
| ReportText.Tabbed | tools/make_graph.py:185-187 | `tabbed` puts four spaces in front of every line and changes nothing else. |
| ReportText.Indented | tools/make_graph.py:187 | Every line gains the four-space indent. |
| ReportData.Lookup | tools/make_graph.py:160 | A key is absent from the dictionary exactly when it is not among its keys. |
| ReportData.LookupEntry | tools/make_graph.py:160 | With distinct keys every entry is found under its key. |
| ReportData.Put | tools/make_graph.py:160 | `d[k] = v` maps `k` to `v`, keeps every other key, and appends `k` only when new. |
| ReportData.PutKeepsDistinct | tools/make_graph.py:160 | Assignment keeps the keys distinct. |
| ReportData.LastOfMeaning | tools/make_graph.py:155-160 | A later row with the same name overrides an earlier one. |
| ReportData.SingleRow | tools/make_graph.py:156-160 | One row of `parse_rows_single` fails its assertion exactly without two cells, and otherwise maps its name to its second cell. |
| ReportData.SingleRows | tools/make_graph.py:155-160 | The loop fails exactly when some row lacks two cells; otherwise each name maps to the value of its last row. |
| ReportData.ParseRowsSingle | tools/make_graph.py:148-162 | `parse_rows_single` gives None for no tables, fails when a body row of the first table lacks two cells, and otherwise maps `type` to that table's names and values. |
| ReportData.CombinedRow | tools/make_graph.py:173-178 | One row of `parse_rows_combined` fails without four cells, and otherwise sets the name under `type` and under `control`. |
| ReportData.InitCombined | tools/make_graph.py:170 | The start dictionary has keys `type` and `control`, merged when `type` is `control`. |
| ReportData.CombinedRows | tools/make_graph.py:172-178 | The loop fails exactly when some row lacks four cells; otherwise `type` gets each name's second cell and `control` its third, from its last row. |
| ReportData.ParseRowsCombined | tools/make_graph.py:165-180 | `parse_rows_combined` gives None for no tables, raises `IndexError` for one table, and otherwise reads the second table as above. |
| ReportData.EscapeKeysDistinct | tools/make_graph.py:257 | Escaping the model names merges no entries. |
| ReportData.FileTimes | tools/make_graph.py:267 | `output[type][model] = times` sets that entry and keeps every other. |
| ReportData.AddTypes | tools/make_graph.py:264-267 | The inner loop raises `KeyError` exactly when a run type lacks a time row, and otherwise files each run type's times under the model. |
| ReportData.Collect | tools/make_graph.py:261-267 | The first loop raises `KeyError` exactly when some model with data lacks a time row, and otherwise files exactly the times of every model with data. |
| ReportData.LateModelsDropped | tools/make_graph.py:271 | `zip` with the 26 letters drops every model past the 26th. |
| ReportData.BarData | tools/make_graph.py:256-279 | `bar_data` raises `KeyError` exactly when some model with data lacks a time row, and otherwise starts with the header. |
| ReportData.BarDataFilesTimes | tools/make_graph.py:256-267 | Every model's run-type times are filed under its escaped name. |

## Left out

- The z3 solvers are not part of this model: every query is modelled by its meaning (an oracle giving verdict, witness and core), and a few oracle properties relate these to the frames; Tseytin conversion, `atmost` and solver bookkeeping (`repopulate_solvers`, activation literals as solver state) are modelled by the relations they encode.
- `lit_is_p` and `lit_is_current` look up the map of positive atoms, so a negative next-state literal of a core is dropped; the model keeps this behaviour as written rather than proving it harmless.
- `PDR::iterate_short` and `block_short`, which `run` calls, are not part of this model; `Pdr.Run` uses `iterate`.
- The order in which `std::set` lists obligations is modelled by `Obligation::operator<` on level, depth and a state index; the pointer comparison of `PdrState` is replaced by the index of the state in creation order.
- Pdr.Block and Pdr.Iterate: their loops are unbounded in the source; the model gives them a step budget and answers `Unfinished` when it runs out, so nothing is claimed about runs longer than the budget.
- Generalization.Down: with a solver that returns the same witness forever the source loops; the model reports `Stuck` instead.
- Pdr.PredecessorStep and Pdr.FinishStep take the result of `highest_inductive_frame` as a parameter, constrained to be that result by their callers.
- Pdr.Iterate: a trace it reports is only said to be non-empty; the traces themselves are described by Pdr.Block and Pdr.Init.
- Peterson.Holding: `std::log2(max) + 1` is modelled as the bit length of `max` (0 for 0, where the source's value is undefined); the contract states only that every value up to `max` fits.
- Peterson.Move: `T_await` encodes the next level either directly (`raw`) or with an adder, chosen by formula size (src/model/peterson/peterson.cpp:652-667); the model uses `level + 1`. The three agree on states whose pc and level are consistent (`1 <= level < N` while awaiting), which are all reachable states by Peterson.InitialLevels and Peterson.TransKeepsLevels; on other states `raw` leaves the next level unconstrained and the adder wraps at the vector width, and the model does not follow them there.
- Peterson: `property` and `n_property` are modelled (Peterson.Property, Peterson.Bad), but that every reachable state satisfies `property` is not proved; the model proves the structure of the transition relation, the switch counting and the level consistency.
- Peterson: the initial value of `proc_last` is left free, as the commented-out lines of `reset_initial` leave it.
- Peterson: `to_string`, `n_lits`, `constraint_str`, the `test_*` functions and the fixed-point encodings are printing or testing aids.
- Ipdr.Relax: `PDR::run` is a parameter of the sweep (a function from bound and reset kind to a result); `copy_to_Fk_keep`, the frame copy of `relax_reset`, is not part of this model beyond the tactic and bound it sets.
- Ipdr.RelaxJumpTest: its second run is unreachable (the assertions before and inside `relax_reset` contradict each other), so only the failure is modelled.
- `IPDR` for pebbling (`increment`, `decrement`, `inc_jump_test`) and `dynamic.cpp` are not part of this model.
- `MICctg` and `ctgdown` are not called by the modelled `generalize` and are left out.
- Logging, statistics, timers and `NDEBUG` builds are left out. Assertions on the caller's arguments are modelled as preconditions, not as failures: `frames.size() > 0` of `extend` (src/algo/frames.cpp:147), `level < frames.size()` and `level > 0` of `remove_state` (src/algo/frames.cpp:206, 230, 245), `frames.size() > 1` of `frontier` (src/algo/frames.cpp:488), the size and `diff` assertions of `reuse` (src/algo/frames.cpp:59-60), the `diff == relaxed` of `reset_to_F1` (src/algo/frames.cpp:75), `k <= frontier()` of `propagate` (src/algo/frames.cpp:267), `frontier() == 0` of `init` (src/algo/pdr.cpp:115), `level <= frontier` and `lits_ordered(cube)` of MIC (src/algo/generalize.cpp:122, 128), the `(msb + 1) % 4 == 0` of `less_4b`/`eq` (src/model/expr.cpp:303, 339, 363, 385), `size == cube.size` of the vector forms of `less_4b` and `eq` (src/model/expr.cpp:337, 384), `(msb + 1) >= nbits` of `eq` (src/model/expr.cpp:364, 386) and the `has_value` agreements of the Peterson state comparison (src/model/peterson/peterson.cpp:99-101, 130-132).
- Propagation.Reuse: `propagate(frontier() - 1)` (src/algo/frames.cpp:68) would wrap around as a `size_t` at frontier 0; the model requires frontier at least 1 instead of modelling the wrapped value.
- Generalization.Down: the `lits_ordered(state)` assertion at the head of each round (src/algo/generalize.cpp:171) is not checked; the model runs `down` on any cube, and its contract holds for every cube.
- BitVecs.Less4b and BitVecs.Less4bVec: the `msb < INT_MAX` assertion of `less_4b` (src/model/expr.cpp:302, 338) is not modelled, since positions are unbounded.
- BitVecs.Uint and BitVecs.ExtractValueBits: the `std::bitset<MAX_BITS>` of `unint_to_lits` and `extract_value` (src/model/expr.cpp:228, 256-262, 281-282) is not modelled; numbers are unbounded, so the `size <= bits.size()` assertion and the exceptions `std::bitset` raises for bit positions or values beyond `MAX_BITS` bits are not failures of the model.
- BitVecs.Less4bMeaning: `less_4b(n, msb)` reads `n` through a `std::bitset<MAX_BITS>` (src/model/expr.cpp:306-307) and its bits with `bits.test(i)` (src/model/expr.cpp:311, 316); the model takes `n` and `msb` unbounded, so the truncation of `n` to `MAX_BITS` bits, the `size <= bits.size()` assertion and the `std::out_of_range` that `test` throws for `msb >= MAX_BITS` are not modelled, and the contract is stated for the unbounded value.
- BitVecs.EqValueMeaning: likewise `eq(n, msb, nbits)` reads `n` through a `std::bitset<MAX_BITS>` and `bits.test(i)` (src/model/expr.cpp:366, 369-376); truncation and the `std::out_of_range` for `msb >= MAX_BITS` are not modelled, and the contract is stated for the unbounded value.
- Dag: the graphviz image, `summary`, `dot` and printing are left out; `prefix` is a field that no modelled operation changes.
- Pebbling: the Tseytin transition encoding is modelled by the relation it encodes; the default of `diff` in the constructor is taken as `none`.
- Pebbling.Constrain: `constrain(none)` leaves the constraint empty and fails the `size() == 2` assertion; the model reports that failure.
- ReportText: the regular expressions of make_graph.py are modelled as scans for their fixed patterns; whitespace is the set of Unicode whitespace characters `str.isspace` accepts, as listed by `Spaces`.
- ReportText.Split: its contract only bounds the number of pieces; the pieces themselves are described by ReportText.SplitJoin and ReportText.SplitPiecesFree.
- ReportData: Python dictionaries are modelled as association lists in insertion order; rows are passed already split into stripped cells.
- ReportData.BarData: its contract states the failure cases and the header; what is filed is stated by ReportData.BarDataFilesTimes and ReportData.Collect; `???` for a missing model is written without a newline, as in the source.
- make_graph.py: `split_tables`, `name_list`, `add_plot`, `write_plot`, `get_data` and `main` read files or produce LaTeX text and are left out.
- Propagation.ResetToF1AsWritten: the contract states which cubes F_1 holds only up to subsumption, because the carry loop may drop a cube of F_1 that a carried cube subsumes.
- Propagation.ResetToF1AsWritten: the solver contents are not modelled. As written, `get_blocked` resets the delta solver (src/algo/frames.cpp:189) and the old F_1 cubes that `clear_until(0)` keeps are not added to it again (src/algo/frames.cpp:231-233, src/algo/frame.cpp:80-83); FrameQueries.SolverAt instead takes the delta solver to hold exactly the cubes of the frames, so the model's queries after the as-written reset also see the kept F_1 cubes.
- Pdr.Iterate: it uses the corrected CTI plan Pdr.CtiPlanChecked of the second finding, not Pdr.CtiPlanAsWritten; where the source fails the `level > 0` assertion of `remove_state` at frontier 1, the model reports the one-state trace of the CTI.
- Pdr.Run: it calls Pdr.Iterate and so inherits its corrected CTI plan.
- Literals.Less: z3 orders expressions by ids given in creation order, which depend on the run; the model fixes a lexicographic order on (base, proc, bit, next, pos) in its place, so "sorted" in every contract means sorted in that order.
- Literals.PrimeAllRoundTrip: that renaming keeps a cube sorted is proved for the model's literal order only; under z3's creation-order ids it depends on the order in which `VarVec::add` created the atoms.

## Findings

| source | as written | input that shows it | evidently intended | confidence | as-written member | corrected member |
|---|---|---|---|---|---|---|
| src/algo/frames.cpp:411-425 | For a current-state cube (`primed` false) `get_trans_source` first asks the renamed query, then asks again with the unrenamed cube and answers by that second query | One variable `x`, the cube `x`, and a solver at F_0 that is satisfiable with `x'` but not with `x`: `trans_source` finds the step, `get_trans_source` returns nothing | Ask only the renamed query and return its witness | medium, not executed | FrameQueries.GetTransSourceAsWritten (FrameQueries.GetTransSourceLosesStep) | FrameQueries.GetTransSource (FrameQueries.GetTransSourceAgrees) |
| src/algo/pdr.cpp:151-158 | `iterate` uses the level `n` of `highest_inductive_frame(cti, k - 1)` unchecked | At frontier 1, a CTI with a step from F_0 gives `n = -1`, and `remove_state(sub_cube, 0)` fails its `level > 0` assertion | Report a trace when `n < 0`, as `block` does for its predecessors | high, not executed | Pdr.CtiPlanAsWritten (Pdr.IterateMissesInitialStep) | Pdr.CtiPlanChecked |
| src/algo/frames.cpp:71-105 | `clear_until(0)` keeps F_0 and F_1 (the frontier is `size - 2`), so `reset_to_F1` keeps every old cube of F_1, also those it then finds reachable from I, and ends at frontier 1 | A frame sequence whose F_1 holds a cube that meets `SAT(0, cube)`: it stays in F_1 | Reset to F_0 with an empty F_1 and carry only the cubes not reachable from I | medium, not executed | Propagation.ResetToF1AsWritten (Propagation.ResetToF1KeepsStaleCube) | Propagation.ResetToF1 |
| src/model/peterson/peterson.cpp:455-461 | The change of bound is classified by the sign of `old.value_or(0) - new.value_or(0)` | Dropping a bound of 3 (`Some(3)` to none) gives `d = 3 > 0`, classified `constrained`, against the comment "constrained -> unconstrained" is relaxed | Losing a bound relaxes, gaining one constrains | high, not executed | Peterson.ConstrainSwitchesAsWritten (Peterson.ConstrainSwitchesAsWrittenMisclassifies) | Peterson.ConstrainSwitches |
