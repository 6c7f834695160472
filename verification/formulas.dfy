/** The boolean meaning of the z3 terms the models build: a small formula
    language over literals with its evaluation under a valuation. */
module Formulas {
  import opened Literals

  datatype Formula =
    | FConst(value: bool)
    | FLit(l: Lit)
    | FNot(f: Formula)
    | FAnd(a: Formula, b: Formula)
    | FOr(a: Formula, b: Formula)
    | FXor(a: Formula, b: Formula)
    | FImplies(a: Formula, b: Formula)
    | FIte(c: Formula, t: Formula, e: Formula)

  predicate Eval(val: Valuation, f: Formula) {
    match f
    case FConst(b) => b
    case FLit(l) => Holds(val, l)
    case FNot(g) => !Eval(val, g)
    case FAnd(a, b) => Eval(val, a) && Eval(val, b)
    case FOr(a, b) => Eval(val, a) || Eval(val, b)
    case FXor(a, b) => Eval(val, a) != Eval(val, b)
    case FImplies(a, b) => Eval(val, a) ==> Eval(val, b)
    case FIte(c, t, e) => if Eval(val, c) then Eval(val, t) else Eval(val, e)
  }

  /** `a == b` on boolean terms. */
  function FIff(a: Formula, b: Formula): Formula {
    FNot(FXor(a, b))
  }

  lemma EvalIff(val: Valuation, a: Formula, b: Formula)
    ensures Eval(val, FIff(a, b)) <==> (Eval(val, a) <==> Eval(val, b))
  {
  }

  /** `z3::mk_and`: the conjunction of a vector, `true` when empty. */
  function MkAnd(fs: seq<Formula>): Formula
    decreases |fs|
  {
    if |fs| == 0 then FConst(true) else FAnd(fs[0], MkAnd(fs[1..]))
  }

  /** `z3::mk_or`: the disjunction of a vector, `false` when empty. */
  function MkOr(fs: seq<Formula>): Formula
    decreases |fs|
  {
    if |fs| == 0 then FConst(false) else FOr(fs[0], MkOr(fs[1..]))
  }

  lemma {:induction false} EvalMkAnd(val: Valuation, fs: seq<Formula>)
    ensures Eval(val, MkAnd(fs)) <==> forall i :: 0 <= i < |fs| ==> Eval(val, fs[i])
    decreases |fs|
  {
    if |fs| > 0 {
      EvalMkAnd(val, fs[1..]);
      assert forall i :: 1 <= i < |fs| ==> fs[i] == fs[1..][i - 1];
    }
  }

  lemma {:induction false} EvalMkOr(val: Valuation, fs: seq<Formula>)
    ensures Eval(val, MkOr(fs)) <==> exists i :: 0 <= i < |fs| && Eval(val, fs[i])
    decreases |fs|
  {
    if |fs| > 0 {
      EvalMkOr(val, fs[1..]);
      assert forall i :: 1 <= i < |fs| ==> fs[i] == fs[1..][i - 1];
      if exists i :: 0 <= i < |fs| && Eval(val, fs[i]) {
        var i :| 0 <= i < |fs| && Eval(val, fs[i]);
        if i > 0 {
          assert Eval(val, fs[1..][i - 1]);
        }
      }
    }
  }

  function Lits(c: seq<Lit>): (r: seq<Formula>)
    ensures |r| == |c|
    ensures forall i :: 0 <= i < |c| ==> r[i] == FLit(c[i])
  {
    seq(|c|, i requires 0 <= i < |c| => FLit(c[i]))
  }

  /** A cube as a formula: the conjunction of its literals. */
  function CubeFormula(c: seq<Lit>): Formula {
    MkAnd(Lits(c))
  }

  /** A clause as a formula: the disjunction of its literals. */
  function ClauseFormula(c: seq<Lit>): Formula {
    MkOr(Lits(c))
  }

  predicate CubeHolds(val: Valuation, c: seq<Lit>) {
    forall i :: 0 <= i < |c| ==> Holds(val, c[i])
  }

  lemma EvalCube(val: Valuation, c: seq<Lit>)
    ensures Eval(val, CubeFormula(c)) <==> CubeHolds(val, c)
  {
    EvalMkAnd(val, Lits(c));
  }

  /** The clause `mk_or(negate(c))` is the negation of the cube `c`. */
  lemma EvalNegatedCube(val: Valuation, c: seq<Lit>)
    ensures Eval(val, ClauseFormula(Negate(c))) <==> !CubeHolds(val, c)
  {
    EvalMkOr(val, Lits(Negate(c)));
    if !CubeHolds(val, c) {
      var i :| 0 <= i < |c| && !Holds(val, c[i]);
      MinusInvolution(c[i], val);
      assert Eval(val, Lits(Negate(c))[i]);
    }
    forall i | 0 <= i < |c| {
      MinusInvolution(c[i], val);
    }
  }

  /** `e.substitute(vars(), vars.p())`: every current vocabulary atom is
      replaced by its next-state copy. */
  function PrimeFormula(vv: VarVec, f: Formula): Formula {
    match f
    case FConst(b) => f
    case FLit(l) => FLit(if l.v in vv.vars then Lit(l.v, true, l.pos) else l)
    case FNot(g) => FNot(PrimeFormula(vv, g))
    case FAnd(a, b) => FAnd(PrimeFormula(vv, a), PrimeFormula(vv, b))
    case FOr(a, b) => FOr(PrimeFormula(vv, a), PrimeFormula(vv, b))
    case FXor(a, b) => FXor(PrimeFormula(vv, a), PrimeFormula(vv, b))
    case FImplies(a, b) => FImplies(PrimeFormula(vv, a), PrimeFormula(vv, b))
    case FIte(c, t, e) => FIte(PrimeFormula(vv, c), PrimeFormula(vv, t), PrimeFormula(vv, e))
  }

  /** The valuation that reads every vocabulary variable in the next state. */
  function Shift(vv: VarVec, val: Valuation): Valuation {
    (x: Var, nx: bool) => if x in vv.vars then val(x, true) else val(x, nx)
  }

  /** Substituting next for current means evaluating the original formula
      in the next state. */
  lemma {:induction false} EvalPrimeFormula(vv: VarVec, val: Valuation, f: Formula)
    ensures Eval(val, PrimeFormula(vv, f)) == Eval(Shift(vv, val), f)
  {
    match f
    case FConst(b) =>
    case FLit(l) =>
    case FNot(g) => EvalPrimeFormula(vv, val, g);
    case FAnd(a, b) => EvalPrimeFormula(vv, val, a); EvalPrimeFormula(vv, val, b);
    case FOr(a, b) => EvalPrimeFormula(vv, val, a); EvalPrimeFormula(vv, val, b);
    case FXor(a, b) => EvalPrimeFormula(vv, val, a); EvalPrimeFormula(vv, val, b);
    case FImplies(a, b) => EvalPrimeFormula(vv, val, a); EvalPrimeFormula(vv, val, b);
    case FIte(c, t, e) =>
      EvalPrimeFormula(vv, val, c); EvalPrimeFormula(vv, val, t); EvalPrimeFormula(vv, val, e);
  }
}
