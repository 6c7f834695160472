/** The reversible pebbling game on a DAG as a transition system: a state
    is the set of pebbled nodes, a node may gain or lose a pebble only while
    all its children hold pebbles before and after the move, and the goal
    to refute is "exactly the outputs are pebbled". An optional bound caps
    the pebbles in use. The relation the solver terms denote is modelled,
    not the terms. */
module Pebbling {
  import opened Wrappers
  import opened Dag
  import opened BoundChange
  import FrameSequence
  import Strings

  /** The model: its graph, the pebble bound (`pebble_constraint`) and how
      the last change of bound relates to the one before. */
  datatype PebblingModel = PebblingModel(graph: Graph, maxPebbles: Option<nat>, diff: FrameSequence.ModelDiff)

  /** The constructor: no bound yet, nothing changed. */
  function NewPebblingModel(g: Graph): (m: PebblingModel)
    ensures m.graph == g && m.maxPebbles.None?
    ensures Initial(m, {}) && m.diff == FrameSequence.NoChange
  {
    PebblingModel(g, None, FrameSequence.NoChange)
  }

  /** `get_f_pebbles`: the pebbles the final configuration holds. */
  function FinalPebbles(m: PebblingModel): (k: nat)
    ensures k == |m.graph.output|
    ensures GraphOk(m.graph) ==> k <= |m.graph.nodes|
  {
    SubsetSize(m.graph.output, m.graph.nodes);
    |m.graph.output|
  }

  /** The final configuration is the bad state: every bad state holds
      exactly `get_f_pebbles()` pebbles, so a bound below it admits no bad
      state at all. */
  lemma FinalPebblesIsBadSize(m: PebblingModel, s: Pebbles)
    requires GraphOk(m.graph) && Valid(m, s) && Bad(m, s)
    ensures |s| == FinalPebbles(m)
    ensures forall p: nat :: p < FinalPebbles(m) ==> !Admits(Some(p), |s|)
  {
    BadIsOutputs(m, s);
  }

  lemma SubsetSize<T>(a: set<T>, b: set<T>)
    ensures a <= b ==> |a| <= |b|
  {
    if a <= b {
      assert b == a + (b - a);
    }
  }

  /** A state: one boolean per node, true for a pebbled node. */
  type Pebbles = set<string>

  /** The initial condition: every node unpebbled. */
  ghost predicate Initial(m: PebblingModel, s: Pebbles) {
    forall v :: v in m.graph.nodes ==> v !in s
  }

  /** Node `v` gains or loses its pebble between `s` and `t`. */
  predicate Flips(v: string, s: Pebbles, t: Pebbles) {
    (v in s) != (v in t)
  }

  ghost predicate ChildrenPebbled(g: Graph, v: string, s: Pebbles) {
    forall c :: c in GetChildren(g, v) ==> c in s
  }

  /** The move rule: every node that flips has all its children pebbled in
      both the current and the next state. */
  ghost predicate MoveAllowed(g: Graph, s: Pebbles, t: Pebbles) {
    forall v :: v in g.nodes && Flips(v, s, t) ==> ChildrenPebbled(g, v, s) && ChildrenPebbled(g, v, t)
  }

  /** The four clauses `load_pebble_transition` adds for a node with
      current value `v`, next value `vp`, and one child with values `c`, `cp`. */
  predicate Clauses(v: bool, vp: bool, c: bool, cp: bool) {
    (v || !vp || c) && (!v || vp || c) && (v || !vp || cp) && (!v || vp || cp)
  }

  /** `load_pebble_transition`: the clauses for every node and child. */
  ghost predicate TransitionClauses(g: Graph, s: Pebbles, t: Pebbles) {
    forall v, c :: v in g.nodes && c in GetChildren(g, v) ==> Clauses(v in s, v in t, c in s, c in t)
  }

  /** `load_pebble_transition_raw1`: one implication per node and child. */
  ghost predicate TransitionRaw1(g: Graph, s: Pebbles, t: Pebbles) {
    forall v, c :: v in g.nodes && c in GetChildren(g, v) ==> (Flips(v, s, t) ==> c in s && c in t)
  }

  /** `mk_and` of the current and next values of the children: true for
      no children. */
  function AllPebbled(cs: seq<string>, s: Pebbles, t: Pebbles): bool {
    if |cs| == 0 then true else cs[0] in s && cs[0] in t && AllPebbled(cs[1..], s, t)
  }

  /** `load_pebble_transition_raw2`: one implication per node into the
      conjunction over its children. */
  ghost predicate TransitionRaw2(g: Graph, s: Pebbles, t: Pebbles) {
    forall v :: v in g.nodes ==> (Flips(v, s, t) ==> AllPebbled(GetChildren(g, v), s, t))
  }

  lemma {:induction false} AllPebbledMeans(cs: seq<string>, s: Pebbles, t: Pebbles)
    ensures AllPebbled(cs, s, t) <==> forall c :: c in cs ==> c in s && c in t
    decreases |cs|
  {
    if |cs| > 0 {
      AllPebbledMeans(cs[1..], s, t);
      assert cs == [cs[0]] + cs[1..];
    }
  }

  /** The three encodings of the transition denote the same relation, the
      move rule. */
  lemma EncodingsAgree(g: Graph, s: Pebbles, t: Pebbles)
    ensures TransitionClauses(g, s, t) <==> MoveAllowed(g, s, t)
    ensures TransitionRaw1(g, s, t) <==> MoveAllowed(g, s, t)
    ensures TransitionRaw2(g, s, t) <==> MoveAllowed(g, s, t)
  {
    forall v | v in g.nodes
      ensures AllPebbled(GetChildren(g, v), s, t) <==> ChildrenPebbled(g, v, s) && ChildrenPebbled(g, v, t)
    {
      AllPebbledMeans(GetChildren(g, v), s, t);
    }
  }

  /** No node flips together with one of its children. */
  lemma NoFlipWithChild(g: Graph, s: Pebbles, t: Pebbles, v: string, c: string)
    requires MoveAllowed(g, s, t)
    requires v in g.nodes && c in GetChildren(g, v) && Flips(v, s, t)
    ensures !Flips(c, s, t)
  {
    assert ChildrenPebbled(g, v, s) && ChildrenPebbled(g, v, t);
  }

  /** A node without children may flip on its own at any time. */
  lemma ChildlessFlipsFreely(g: Graph, s: Pebbles, v: string)
    requires v in g.nodes && GetChildren(g, v) == []
    ensures var t := if v in s then s - {v} else s + {v};
            MoveAllowed(g, s, t) && Flips(v, s, t)
  {
    var t := if v in s then s - {v} else s + {v};
    forall w | w in g.nodes && Flips(w, s, t)
      ensures ChildrenPebbled(g, w, s) && ChildrenPebbled(g, w, t)
    {
      assert w == v;
    }
  }

  /** A state over the model's variables. */
  ghost predicate Valid(m: PebblingModel, s: Pebbles) {
    s <= m.graph.nodes
  }

  /** The transition relation with the constraint: `at most p` pebbles in
      the current and in the next state when bounded. */
  ghost predicate Step(m: PebblingModel, s: Pebbles, t: Pebbles) {
    Valid(m, s) && Valid(m, t) && MoveAllowed(m.graph, s, t) &&
    Admits(m.maxPebbles, |s|) && Admits(m.maxPebbles, |t|)
  }

  /** `n_property`, the cube of bad states: exactly the outputs pebbled. */
  ghost predicate Bad(m: PebblingModel, s: Pebbles) {
    forall v :: v in m.graph.nodes ==> (v in s <==> IsOutput(m.graph, v))
  }

  /** `property`, one clause: some output unpebbled or some other node
      pebbled. */
  ghost predicate Property(m: PebblingModel, s: Pebbles) {
    exists v :: v in m.graph.nodes && (if IsOutput(m.graph, v) then v !in s else v in s)
  }

  /** The property clause is the negation of the bad cube. */
  lemma PropertyNegatesBad(m: PebblingModel, s: Pebbles)
    ensures Property(m, s) <==> !Bad(m, s)
  {
    if !Bad(m, s) {
      var v :| v in m.graph.nodes && !(v in s <==> IsOutput(m.graph, v));
      assert if IsOutput(m.graph, v) then v !in s else v in s;
    }
  }

  /** For a well-built graph the bad states are the single state whose
      pebbles are exactly the outputs, and the initial states the single
      empty one. */
  lemma BadIsOutputs(m: PebblingModel, s: Pebbles)
    requires GraphOk(m.graph) && Valid(m, s)
    ensures Bad(m, s) <==> s == m.graph.output
    ensures Initial(m, s) <==> s == {}
  {
    if Bad(m, s) {
      assert forall v :: v in s <==> v in m.graph.output;
    }
  }

  /** `constrain(new_p)`: the bound changes and the change is classified.
      The assert that two cardinality constraints were added fails for no
      bound. */
  function Constrain(m: PebblingModel, newP: Option<nat>): (r: Result<PebblingModel>)
    ensures r.Failure? <==> newP.None?
    ensures r.Failure? ==> r.error == AssertionFailed
    ensures r.Success? ==> r.value.graph == m.graph && r.value.maxPebbles == newP
    ensures r.Success? ==>
              (r.value.diff == FrameSequence.NoChange <==> m.maxPebbles == newP) &&
              (r.value.diff == FrameSequence.Relaxed <==>
                 Within(m.maxPebbles, newP) && !Within(newP, m.maxPebbles)) &&
              (r.value.diff == FrameSequence.Constrained <==>
                 Within(newP, m.maxPebbles) && !Within(m.maxPebbles, newP))
  {
    if newP.None? then Failure(AssertionFailed)
    else
      ClassifyMeaning(m.maxPebbles, newP);
      Success(m.(maxPebbles := newP, diff := Classify(m.maxPebbles, newP)))
  }

  /** A relaxing change keeps every step; a constraining one keeps only
      steps that were steps before. */
  lemma ConstrainKeepsSteps(m: PebblingModel, newP: Option<nat>, s: Pebbles, t: Pebbles)
    requires Constrain(m, newP).Success?
    ensures Constrain(m, newP).value.diff == FrameSequence.Relaxed && Step(m, s, t) ==>
              Step(Constrain(m, newP).value, s, t)
    ensures Constrain(m, newP).value.diff == FrameSequence.Constrained && Step(Constrain(m, newP).value, s, t) ==>
              Step(m, s, t)
  {
    var m' := Constrain(m, newP).value;
    if m'.diff == FrameSequence.Relaxed && Step(m, s, t) {
      assert Admits(m'.maxPebbles, |s|) && Admits(m'.maxPebbles, |t|);
    }
    if m'.diff == FrameSequence.Constrained && Step(m', s, t) {
      assert Admits(m.maxPebbles, |s|) && Admits(m.maxPebbles, |t|);
    }
  }

  const Cardinality: string := "cardinality "
  const NoConstraint: string := "no constraint"

  /** `constraint_str`. */
  function ConstraintStr(m: PebblingModel): (r: string)
    ensures m.maxPebbles.None? <==> r == NoConstraint
  {
    match m.maxPebbles
    case Some(p) =>
      assert (Cardinality + Strings.NatToString(p))[0] != NoConstraint[0];
      Cardinality + Strings.NatToString(p)
    case None => NoConstraint
  }

  /** The description names the bound: it can be read back. */
  lemma {:induction false} ConstraintStrReadsBack(m: PebblingModel)
    requires m.maxPebbles.Some?
    ensures var r := ConstraintStr(m);
            |r| > |Cardinality| && r[..|Cardinality|] == Cardinality &&
            var digits := r[|Cardinality|..];
            (forall i :: 0 <= i < |digits| ==> '0' <= digits[i] <= '9') &&
            Strings.ParseNat(digits) == m.maxPebbles.value
  {
    var r := ConstraintStr(m);
    assert r[|Cardinality|..] == Strings.NatToString(m.maxPebbles.value);
    Strings.ParseNatToString(m.maxPebbles.value);
  }

  /** Models with the same description have the same bound. */
  lemma ConstraintStrInjective(m1: PebblingModel, m2: PebblingModel)
    requires ConstraintStr(m1) == ConstraintStr(m2)
    ensures m1.maxPebbles == m2.maxPebbles
  {
    if m1.maxPebbles.Some? {
      ConstraintStrReadsBack(m1);
      ConstraintStrReadsBack(m2);
    }
  }
}
