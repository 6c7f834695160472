/** Literals over the current/next vocabulary (the `z3ext` helpers and the
    `VarVec` renaming).

    A z3 boolean constant is named `base`, `base<proc>` or `base<proc>[bit]`;
    the model keeps the three parts apart as a `Var`. A literal is a variable
    in the current or the next ("primed") vocabulary, positive or negated.
    z3 orders expressions by a per-expression id; the model fixes one
    concrete id order: lexicographic on (base, proc, bit, next, pos). */
module Literals {
  import Strings
  import opened Wrappers

  datatype Var = Var(base: string, proc: nat, bit: nat)

  datatype Lit = Lit(v: Var, next: bool, pos: bool)

  predicate VarLess(a: Var, b: Var) {
    || Strings.Less(a.base, b.base)
    || (a.base == b.base && a.proc < b.proc)
    || (a.base == b.base && a.proc == b.proc && a.bit < b.bit)
  }

  /** `z3ext::expr_less`: the order of expression ids. */
  predicate Less(a: Lit, b: Lit) {
    || VarLess(a.v, b.v)
    || (a.v == b.v && !a.next && b.next)
    || (a.v == b.v && a.next == b.next && !a.pos && b.pos)
  }

  lemma LessIrreflexive(a: Lit)
    ensures !Less(a, a)
  {
    Strings.LessIrreflexive(a.v.base);
  }

  lemma LessTransitive(a: Lit, b: Lit, c: Lit)
    requires Less(a, b) && Less(b, c)
    ensures Less(a, c)
  {
    if Strings.Less(a.v.base, b.v.base) && Strings.Less(b.v.base, c.v.base) {
      Strings.LessTransitive(a.v.base, b.v.base, c.v.base);
    }
  }

  lemma LessAsymmetric(a: Lit, b: Lit)
    requires Less(a, b)
    ensures !Less(b, a)
  {
    if Less(b, a) {
      LessTransitive(a, b, a);
      LessIrreflexive(a);
    }
  }

  lemma LessTotal(a: Lit, b: Lit)
    ensures a == b || Less(a, b) || Less(b, a)
  {
    Strings.LessTotal(a.v.base, b.v.base);
  }

  /** `expr_less` is a strict total order on literals: irreflexive,
      transitive and total on distinct literals. */
  lemma ExprLessStrictTotal()
    ensures forall a: Lit :: !Less(a, a)
    ensures forall a: Lit, b: Lit, c: Lit :: Less(a, b) && Less(b, c) ==> Less(a, c)
    ensures forall a: Lit, b: Lit :: a == b || Less(a, b) || Less(b, a)
  {
    forall a: Lit { LessIrreflexive(a); }
    forall a: Lit, b: Lit, c: Lit | Less(a, b) && Less(b, c) { LessTransitive(a, b, c); }
    forall a: Lit, b: Lit { LessTotal(a, b); }
  }

  /** Strictly increasing by id: the shape of every cube. */
  predicate Sorted(c: seq<Lit>) {
    forall i, j :: 0 <= i < j < |c| ==> Less(c[i], c[j])
  }

  // Polarity

  /** `z3ext::minus`: strip a negation or add one. */
  function Minus(l: Lit): Lit {
    Lit(l.v, l.next, !l.pos)
  }

  /** An assignment to every variable in both vocabularies. */
  type Valuation = (Var, bool) -> bool

  predicate Holds(val: Valuation, l: Lit) {
    val(l.v, l.next) == l.pos
  }

  /** `minus` is an involution that flips the truth of a literal and never
      returns its argument. */
  lemma MinusInvolution(l: Lit, val: Valuation)
    ensures Minus(Minus(l)) == l
    ensures Minus(l) != l
    ensures Holds(val, Minus(l)) == !Holds(val, l)
  {
  }

  /** `z3ext::negate(expr_vector)`: literal-wise `minus`, same length and order. */
  function Negate(lits: seq<Lit>): (r: seq<Lit>)
    ensures |r| == |lits|
    ensures forall i :: 0 <= i < |lits| ==> r[i] == Minus(lits[i])
    ensures forall val: Valuation, i :: 0 <= i < |lits| ==> Holds(val, r[i]) == !Holds(val, lits[i])
  {
    seq(|lits|, i requires 0 <= i < |lits| => Minus(lits[i]))
  }

  lemma NegateInvolution(lits: seq<Lit>)
    ensures Negate(Negate(lits)) == lits
  {
  }

  /** A `z3::expr_vector`, which carries its context. */
  datatype ExprVector = ExprVector(items: seq<Lit>)

  /** `z3ext::negate(const vector<expr>&)`: reads `lits[0]` for the context,
      so the input must be non-empty. */
  function NegateVector(lits: seq<Lit>): (r: ExprVector)
    requires |lits| > 0
    ensures r.items == Negate(lits)
    ensures |r.items| == |lits| && Negate(r.items) == lits
  {
    NegateInvolution(lits);
    ExprVector(Negate(lits))
  }

  /** `z3ext::convert(vector<expr>)`: reads `vec[0]` for the context. */
  function ToExprVector(vec: seq<Lit>): (r: ExprVector)
    requires |vec| > 0
    ensures |r.items| == |vec|
    ensures forall i :: 0 <= i < |vec| ==> r.items[i] == vec[i]
  {
    ExprVector(vec)
  }

  /** `z3ext::convert(const expr_vector&)` */
  function FromExprVector(ev: ExprVector): (r: seq<Lit>)
    ensures |r| == |ev.items|
    ensures forall i :: 0 <= i < |r| ==> r[i] == ev.items[i]
  {
    ev.items
  }

  /** Converting there and back keeps every element in its place. */
  lemma ConvertRoundTrip(vec: seq<Lit>, ev: ExprVector)
    requires |vec| > 0 && |ev.items| > 0
    ensures FromExprVector(ToExprVector(vec)) == vec
    ensures ToExprVector(FromExprVector(ev)) == ev
  {
  }

  // VarVec: the vocabulary and the renaming between current and next

  /** A `VarVec`: the set of state variables. Its maps `to_next` and
      `to_current` are keyed by the positive atoms only. */
  datatype VarVec = VarVec(vars: set<Var>)

  /** `VarVec::p(const expr&)`: `to_next.at` throws for a literal outside
      the current vocabulary. */
  function Prime(vv: VarVec, l: Lit): (r: Result<Lit>)
    ensures r.Success? <==> l.v in vv.vars && !l.next
    ensures r.Failure? ==> r.error == IndexError
    ensures r.Success? ==> r.value.v == l.v && r.value.next && r.value.pos == l.pos
    ensures r.Success? ==> Unprime(vv, r.value) == Success(l)
  {
    if l.v in vv.vars && !l.next then Success(Lit(l.v, true, l.pos)) else Failure(IndexError)
  }

  /** `VarVec::operator()(const expr&)`: the inverse renaming. */
  function Unprime(vv: VarVec, l: Lit): (r: Result<Lit>)
    ensures r.Success? <==> l.v in vv.vars && l.next
    ensures r.Success? ==> r.value.v == l.v && !r.value.next && r.value.pos == l.pos
  {
    if l.v in vv.vars && l.next then Success(Lit(l.v, false, l.pos)) else Failure(IndexError)
  }

  /** `p` and `operator()` are mutually inverse on the vocabulary and
      commute with negation. */
  lemma PrimeUnprimeInverse(vv: VarVec, l: Lit)
    ensures Prime(vv, l).Success? ==> Unprime(vv, Prime(vv, l).value) == Success(l)
    ensures Unprime(vv, l).Success? ==> Prime(vv, Unprime(vv, l).value) == Success(l)
    ensures Prime(vv, l).Success? ==> Prime(vv, Minus(l)) == Success(Minus(Prime(vv, l).value))
    ensures Unprime(vv, l).Success? ==> Unprime(vv, Minus(l)) == Success(Minus(Unprime(vv, l).value))
  {
  }

  /** `VarVec::p(const expr_vector&)`: substitutes next for current on
      every vocabulary variable and leaves everything else as it is. */
  function PrimeAll(vv: VarVec, c: seq<Lit>): (r: seq<Lit>)
    ensures |r| == |c|
    ensures forall i :: 0 <= i < |c| ==>
              r[i] == if c[i].v in vv.vars then Lit(c[i].v, true, c[i].pos) else c[i]
    ensures InCurrent(vv, c) ==> (forall i :: 0 <= i < |r| ==> r[i].next) && UnprimeAll(vv, r) == c
  {
    seq(|c|, i requires 0 <= i < |c| =>
      if c[i].v in vv.vars then Lit(c[i].v, true, c[i].pos) else c[i])
  }

  /** `VarVec::operator()(const expr_vector&)`: next to current. */
  function UnprimeAll(vv: VarVec, c: seq<Lit>): (r: seq<Lit>)
    ensures |r| == |c|
    ensures forall i :: 0 <= i < |c| ==>
              r[i] == if c[i].v in vv.vars then Lit(c[i].v, false, c[i].pos) else c[i]
  {
    seq(|c|, i requires 0 <= i < |c| =>
      if c[i].v in vv.vars then Lit(c[i].v, false, c[i].pos) else c[i])
  }

  /** A cube over the current vocabulary. */
  predicate InCurrent(vv: VarVec, c: seq<Lit>) {
    forall i :: 0 <= i < |c| ==> c[i].v in vv.vars && !c[i].next
  }

  /** Renaming a current-state cube to the next state and back is the
      identity, and the renaming keeps a sorted cube sorted. */
  lemma PrimeAllRoundTrip(vv: VarVec, c: seq<Lit>)
    requires InCurrent(vv, c)
    ensures UnprimeAll(vv, PrimeAll(vv, c)) == c
    ensures Sorted(c) ==> Sorted(PrimeAll(vv, c))
  {
  }

  /** `lit_is_current`: `to_next.find(e)`, a lookup of a positive current atom. */
  predicate LitIsCurrent(vv: VarVec, l: Lit) {
    l.pos && !l.next && l.v in vv.vars
  }

  /** `lit_is_p`: `to_current.find(e)`, a lookup of a positive next atom;
      a negated next-state literal is not found. */
  predicate LitIsP(vv: VarVec, l: Lit) {
    l.pos && l.next && l.v in vv.vars
  }

  /** The membership tests agree with the renamings: exactly the positive
      atoms found by `lit_is_p` are renamed by `operator()`, and those found by
      `lit_is_current` by `p`. */
  lemma VocabularyTests(vv: VarVec, l: Lit)
    ensures LitIsP(vv, l) <==> Unprime(vv, l).Success? && l.pos
    ensures LitIsCurrent(vv, l) <==> Prime(vv, l).Success? && l.pos
    ensures !(LitIsP(vv, l) && LitIsCurrent(vv, l))
  {
  }
}
