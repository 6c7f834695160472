/** The primed variables of `mysat::primed` (src/model/expr.cpp): single
    booleans (`Lit`), expression vectors kept in both vocabularies (`ExpVec`)
    and unsigned numbers stored as vectors of boolean atoms (`BitVec`), with
    the formulas built over them and their boolean meaning. */
module BitVecs {
  import opened Wrappers
  import opened Bits
  import opened Literals
  import opened Formulas

  // Lit: one primed boolean

  /** The atom `x` positive, in the current or the next vocabulary. */
  function Atom(x: Var, primed: bool): Lit {
    Lit(x, primed, true)
  }

  /** `Lit::unchanged`: `x == x'`. */
  function LitUnchanged(x: Var): Formula {
    FIff(FLit(Atom(x, false)), FLit(Atom(x, true)))
  }

  /** `x == x'` holds iff the atom keeps its value across the step. */
  lemma LitUnchangedMeaning(val: Valuation, x: Var)
    ensures Eval(val, LitUnchanged(x)) <==> val(x, false) == val(x, true)
  {
    EvalIff(val, FLit(Atom(x, false)), FLit(Atom(x, true)));
  }

  /** The literals `Lit::extract_value` picks up: the atom in the requested
      vocabulary, in either polarity. */
  predicate LitMatches(x: Var, l: Lit, primed: bool) {
    l.v == x && l.next == primed
  }

  predicate Mentioned(x: Var, cube: seq<Lit>, primed: bool) {
    exists i :: 0 <= i < |cube| && LitMatches(x, cube[i], primed)
  }

  /** Every matching literal of `cube` has polarity `b`. */
  predicate AllAgree(x: Var, cube: seq<Lit>, primed: bool, b: bool) {
    forall i :: 0 <= i < |cube| && LitMatches(x, cube[i], primed) ==> cube[i].pos == b
  }

  /** The loop of `Lit::extract_value` from position `i` on, with `v` the
      polarity seen so far. */
  function LitScan(x: Var, cube: seq<Lit>, primed: bool, i: nat, v: Option<bool>): Result<Option<bool>>
    requires i <= |cube|
    decreases |cube| - i
  {
    if i == |cube| then Success(v)
    else if LitMatches(x, cube[i], primed) then
      if v.Some? && v.value != cube[i].pos then Failure(AssertionFailed)
      else LitScan(x, cube, primed, i + 1, Some(cube[i].pos))
    else LitScan(x, cube, primed, i + 1, v)
  }

  lemma {:induction false} LitScanMeaning(x: Var, cube: seq<Lit>, primed: bool, i: nat, v: Option<bool>)
    requires i <= |cube|
    requires v.None? ==> !Mentioned(x, cube[..i], primed)
    requires v.Some? ==> Mentioned(x, cube[..i], primed) && AllAgree(x, cube[..i], primed, v.value)
    ensures LitScan(x, cube, primed, i, v) ==
              if !Mentioned(x, cube, primed) then Success(None)
              else if AllAgree(x, cube, primed, true) then Success(Some(true))
              else if AllAgree(x, cube, primed, false) then Success(Some(false))
              else Failure(AssertionFailed)
    decreases |cube| - i
  {
    if i == |cube| {
      assert cube[..i] == cube;
    } else {
      assert cube[..i + 1] == cube[..i] + [cube[i]];
      if LitMatches(x, cube[i], primed) {
        if v.Some? && v.value != cube[i].pos {
          var k :| 0 <= k < i && LitMatches(x, cube[..i][k], primed);
          assert cube[k].pos == v.value;
          assert !AllAgree(x, cube, primed, true) && !AllAgree(x, cube, primed, false);
        } else {
          LitScanMeaning(x, cube, primed, i + 1, Some(cube[i].pos));
        }
      } else {
        LitScanMeaning(x, cube, primed, i + 1, v);
      }
    }
  }

  /** `Lit::extract_value`: the polarity of the atom in `cube`. The loop
      asserts that all matches agree, and `value()` throws when nothing
      matched. */
  function LitValue(x: Var, cube: seq<Lit>, primed: bool): (r: Result<bool>)
    ensures r == if !Mentioned(x, cube, primed) then Failure(BadOptionalAccess)
                 else if AllAgree(x, cube, primed, true) then Success(true)
                 else if AllAgree(x, cube, primed, false) then Success(false)
                 else Failure(AssertionFailed)
  {
    LitScanMeaning(x, cube, primed, 0, None);
    var v :- LitScan(x, cube, primed, 0, None);
    if v.None? then Failure(BadOptionalAccess) else Success(v.value)
  }

  // ExpVec: expressions kept in both vocabularies

  /** An `ExpVec`: `current` as added, `next` the same expressions with
      every vocabulary atom primed. */
  datatype ExpVec = ExpVec(vars: VarVec, current: seq<Formula>, next: seq<Formula>, finished: bool)

  predicate ExpVecValid(ev: ExpVec) {
    && |ev.current| == |ev.next|
    && forall i :: 0 <= i < |ev.current| ==> ev.next[i] == PrimeFormula(ev.vars, ev.current[i])
  }

  function NewExpVec(vv: VarVec): (r: ExpVec)
    ensures ExpVecValid(r) && r.vars == vv && |r.current| == 0 && !r.finished
  {
    ExpVec(vv, [], [], false)
  }

  /** `ExpVec::add`: asserts the vector is not finished. The new next-state
      entry means the new expression evaluated in the next state. */
  function Add(ev: ExpVec, e: Formula): (r: ExpVec)
    requires !ev.finished
    ensures ExpVecValid(ev) ==> ExpVecValid(r)
    ensures r.vars == ev.vars && !r.finished
    ensures r.current == ev.current + [e]
    ensures |r.next| == |ev.next| + 1 && r.next[..|ev.next|] == ev.next
    ensures forall val: Valuation :: Eval(val, r.next[|ev.next|]) == Eval(Shift(ev.vars, val), e)
  {
    forall val: Valuation {
      EvalPrimeFormula(ev.vars, val, e);
    }
    ev.(current := ev.current + [e], next := ev.next + [PrimeFormula(ev.vars, e)])
  }

  /** `ExpVec::finish`: no further `add` is allowed; the contents stay. */
  function Finish(ev: ExpVec): (r: ExpVec)
    ensures r.finished
    ensures r.vars == ev.vars && r.current == ev.current && r.next == ev.next
  {
    ev.(finished := true)
  }

  // BitVec: an unsigned number as boolean atoms

  /** A `BitVec` of `size` bits; bit `i` is the atom `base<proc>[i]`. */
  datatype BitVec = BitVec(base: string, proc: nat, size: nat)

  function BitVar(bv: BitVec, i: nat): Var {
    Var(bv.base, bv.proc, i)
  }

  /** The number a valuation stores in the bit vector, in the current or the
      next vocabulary. */
  function ValueOf(val: Valuation, bv: BitVec, primed: bool): nat {
    ValueFrom(val, bv, primed, 0)
  }

  function ValueFrom(val: Valuation, bv: BitVec, primed: bool, i: nat): nat
    decreases bv.size - i
  {
    if i >= bv.size then 0
    else (if val(BitVar(bv, i), primed) then 1 else 0) + 2 * ValueFrom(val, bv, primed, i + 1)
  }

  lemma {:induction false} BitOfValueFrom(val: Valuation, bv: BitVec, primed: bool, i: nat, t: nat)
    ensures Bit(ValueFrom(val, bv, primed, i), t) == (i + t < bv.size && val(BitVar(bv, i + t), primed))
    decreases bv.size - i
  {
    if i >= bv.size {
      BitOfZero(t);
    } else {
      var r := ValueFrom(val, bv, primed, i);
      assert r / 2 == ValueFrom(val, bv, primed, i + 1);
      if t > 0 {
        BitOfValueFrom(val, bv, primed, i + 1, t - 1);
      }
    }
  }

  /** Bit `t` of the stored number is the atom `bv[t]`; bits at or above
      `size` are 0. */
  lemma BitOfValue(val: Valuation, bv: BitVec, primed: bool, t: nat)
    ensures Bit(ValueOf(val, bv, primed), t) == (t < bv.size && val(BitVar(bv, t), primed))
  {
    BitOfValueFrom(val, bv, primed, 0, t);
  }

  function Reverse<T>(s: seq<T>): (r: seq<T>)
    ensures |r| == |s|
    ensures forall k :: 0 <= k < |s| ==> r[k] == s[|s| - 1 - k]
    decreases |s|
  {
    if |s| == 0 then [] else Reverse(s[1..]) + [s[0]]
  }

  /** The first loop of `unint_to_lits` from bit `i` on, `n` already shifted
      right by `i`: least significant bit first. */
  function LsbFirst(bv: BitVec, n: nat, primed: bool, i: nat): (r: seq<Lit>)
    ensures |r| == if i <= bv.size then bv.size - i else 0
    ensures forall j :: 0 <= j < |r| ==> r[j] == Lit(BitVar(bv, i + j), primed, Bit(n, j))
    decreases bv.size - i
  {
    if i >= bv.size then []
    else
      var rest := LsbFirst(bv, n / 2, primed, i + 1);
      assert forall j :: 1 <= j <= |rest| ==> Bit(n, j) == Bit(n / 2, j - 1);
      [Lit(BitVar(bv, i), primed, n % 2 == 1)] + rest
  }

  /** `uint(n)` (`primed` false) and `uint_p(n)` (`primed` true): `size`
      literals, most significant first; position `k` is bit `size-1-k` of `n`,
      positive iff that bit is set. */
  function Uint(bv: BitVec, n: nat, primed: bool): (r: seq<Lit>)
    ensures |r| == bv.size
    ensures forall k :: 0 <= k < bv.size ==>
              r[k] == Lit(BitVar(bv, bv.size - 1 - k), primed, Bit(n, bv.size - 1 - k))
  {
    Reverse(LsbFirst(bv, n, primed, 0))
  }

  /** `c` lists the literals of `n`'s low `size` bits, most significant
      first: what `uint(n)` produces. */
  ghost predicate MsbFirstOf(bv: BitVec, n: nat, primed: bool, c: seq<Lit>) {
    |c| == bv.size &&
    forall k :: 0 <= k < bv.size ==> c[k] == Lit(BitVar(bv, bv.size - 1 - k), primed, Bit(n, bv.size - 1 - k))
  }

  /** Only the low `size` bits of `n` matter to the encoding. */
  lemma UintLowBits(bv: BitVec, n: nat, primed: bool)
    ensures Uint(bv, n, primed) == Uint(bv, n % Pow2(bv.size), primed)
  {
    MsbFirstLowBits(bv, n, primed, Uint(bv, n, primed), Uint(bv, n % Pow2(bv.size), primed));
  }

  lemma MsbFirstLowBits(bv: BitVec, n: nat, primed: bool, a: seq<Lit>, b: seq<Lit>)
    requires MsbFirstOf(bv, n, primed, a) && MsbFirstOf(bv, n % Pow2(bv.size), primed, b)
    ensures a == b
  {
    LowIsMod(n, bv.size);
    forall k | 0 <= k < bv.size
      ensures a[k] == b[k]
    {
      BitLow(n, bv.size, bv.size - 1 - k);
    }
  }

  /** The literals `BitVec::extract_value` uses for bit `t`: an atom of this
      vector at index `t` in the requested vocabulary. */
  predicate SetsBit(bv: BitVec, l: Lit, primed: bool, t: nat) {
    l.v.base == bv.base && l.v.proc == bv.proc && l.next == primed && l.v.bit == t
  }

  /** `BitVec::extract_value`: starting from all zeros, each matching
      literal sets its bit to its polarity, in cube order. */
  function ExtractValue(bv: BitVec, cube: seq<Lit>, primed: bool): nat
    decreases |cube|
  {
    if |cube| == 0 then 0
    else
      var v := ExtractValue(bv, cube[..|cube| - 1], primed);
      var l := cube[|cube| - 1];
      if SetsBit(bv, l, primed, l.v.bit) then SetBit(v, l.v.bit, l.pos) else v
  }

  /** `cube[i]` is the last literal of the cube that sets bit `t`, and it
      is positive. */
  predicate LastSetter(bv: BitVec, cube: seq<Lit>, primed: bool, t: nat, i: int) {
    0 <= i < |cube| && SetsBit(bv, cube[i], primed, t) && cube[i].pos &&
    forall j :: i < j < |cube| ==> !SetsBit(bv, cube[j], primed, t)
  }

  /** Bit `t` of the extracted value is set iff the last literal for bit `t`
      is positive; a bit no literal mentions is 0. */
  lemma {:induction false} ExtractValueBits(bv: BitVec, cube: seq<Lit>, primed: bool, t: nat)
    ensures Bit(ExtractValue(bv, cube, primed), t) <==> exists i :: LastSetter(bv, cube, primed, t, i)
    decreases |cube|
  {
    var n := |cube|;
    if n == 0 {
      BitOfZero(t);
    } else {
      var p := cube[..n - 1];
      ExtractValueBits(bv, p, primed, t);
      if SetsBit(bv, cube[n - 1], primed, t) {
        assert Bit(ExtractValue(bv, cube, primed), t) == cube[n - 1].pos;
        LastSetterAtEnd(bv, cube, primed, t);
      } else {
        assert Bit(ExtractValue(bv, cube, primed), t) == Bit(ExtractValue(bv, p, primed), t);
        LastSetterSkip(bv, cube, p, primed, t);
      }
    }
  }

  /** When the final literal sets bit `t`, it decides the bit. */
  lemma LastSetterAtEnd(bv: BitVec, cube: seq<Lit>, primed: bool, t: nat)
    requires |cube| > 0 && SetsBit(bv, cube[|cube| - 1], primed, t)
    ensures (exists i :: LastSetter(bv, cube, primed, t, i)) <==> cube[|cube| - 1].pos
  {
    if cube[|cube| - 1].pos {
      assert LastSetter(bv, cube, primed, t, |cube| - 1);
    }
  }

  /** A final literal that does not set bit `t` leaves its last setter
      unchanged. */
  lemma LastSetterSkip(bv: BitVec, cube: seq<Lit>, p: seq<Lit>, primed: bool, t: nat)
    requires |cube| > 0 && p == cube[..|cube| - 1] && !SetsBit(bv, cube[|cube| - 1], primed, t)
    ensures (exists i :: LastSetter(bv, cube, primed, t, i)) <==> (exists i :: LastSetter(bv, p, primed, t, i))
  {
    if i :| LastSetter(bv, p, primed, t, i) {
      assert LastSetter(bv, cube, primed, t, i);
    }
    if i :| LastSetter(bv, cube, primed, t, i) {
      assert LastSetter(bv, p, primed, t, i);
    }
  }

  /** Round trip: decoding the encoding of `n` gives `n mod 2^size`. */
  lemma ExtractUint(bv: BitVec, n: nat, primed: bool)
    ensures ExtractValue(bv, Uint(bv, n, primed), primed) == n % Pow2(bv.size)
  {
    ExtractMsbFirst(bv, n, primed, Uint(bv, n, primed));
  }

  lemma ExtractMsbFirst(bv: BitVec, n: nat, primed: bool, c: seq<Lit>)
    requires MsbFirstOf(bv, n, primed, c)
    ensures ExtractValue(bv, c, primed) == n % Pow2(bv.size)
  {
    var r := ExtractValue(bv, c, primed);
    forall t: nat
      ensures Bit(r, t) == Bit(Low(n, bv.size), t)
    {
      ExtractValueBits(bv, c, primed, t);
      BitLow(n, bv.size, t);
      if t < bv.size {
        var i := bv.size - 1 - t;
        assert SetsBit(bv, c[i], primed, t);
        assert forall j :: i < j < |c| ==> !SetsBit(bv, c[j], primed, t);
        assert forall j :: 0 <= j < |c| && SetsBit(bv, c[j], primed, t) ==> j == i;
        assert Bit(Low(n, bv.size), t) ==> LastSetter(bv, c, primed, t, i);
      } else {
        assert forall j :: 0 <= j < |c| ==> !SetsBit(bv, c[j], primed, t);
      }
    }
    BitsDetermine(r, Low(n, bv.size));
    LowIsMod(n, bv.size);
  }

  /** The stored number has no bits at or above `size`. */
  lemma ValueOfLow(val: Valuation, bv: BitVec, primed: bool)
    ensures Low(ValueOf(val, bv, primed), bv.size) == ValueOf(val, bv, primed)
  {
    var x := ValueOf(val, bv, primed);
    forall t: nat
      ensures Bit(Low(x, bv.size), t) == Bit(x, t)
    {
      BitLow(x, bv.size, t);
      BitOfValue(val, bv, primed, t);
    }
    BitsDetermine(Low(x, bv.size), x);
  }

  /** Bit `k` of a window is bit `lsb + k` of the number, inside the window. */
  lemma WindowBit(xv: nat, lsb: nat, w: nat, k: nat)
    ensures Bit(Window(xv, lsb, w), k) == (k < w && Bit(xv, lsb + k))
  {
    BitLow(ShiftRight(xv, lsb), w, k);
    BitShiftRight(xv, lsb, k);
  }

  /** The numbers `xv` and `yv` agree on bits `lo .. hi-1`. */
  ghost predicate AgreeOn(xv: nat, yv: nat, lo: nat, hi: nat) {
    forall t: nat :: lo <= t < hi ==> Bit(xv, t) == Bit(yv, t)
  }

  /** Two windows agree as numbers iff they agree bit by bit. */
  lemma WindowEqual(xv: nat, yv: nat, lsb: nat, w: nat)
    ensures Window(xv, lsb, w) == Window(yv, lsb, w) <==> AgreeOn(xv, yv, lsb, lsb + w)
  {
    var a, b := Window(xv, lsb, w), Window(yv, lsb, w);
    if AgreeOn(xv, yv, lsb, lsb + w) {
      forall k: nat
        ensures Bit(a, k) == Bit(b, k)
      {
        WindowBit(xv, lsb, w, k);
        WindowBit(yv, lsb, w, k);
      }
      BitsDetermine(a, b);
    }
    if a == b {
      forall t: nat | lsb <= t < lsb + w
        ensures Bit(xv, t) == Bit(yv, t)
      {
        WindowBit(xv, lsb, w, t - lsb);
        WindowBit(yv, lsb, w, t - lsb);
      }
    }
  }

  /** The whole vector as a window starting at bit 0. */
  lemma ValueAsWindow(val: Valuation, bv: BitVec, primed: bool, n: nat)
    ensures Window(ValueOf(val, bv, primed), 0, bv.size) == ValueOf(val, bv, primed)
    ensures Window(n, 0, bv.size) == n % Pow2(bv.size)
  {
    ValueOfLow(val, bv, primed);
    LowIsMod(n, bv.size);
  }

  /** `equals(n)` / `p_equals(n)`: the conjunction of `uint(n)` / `uint_p(n)`. */
  function EqualsValue(bv: BitVec, n: nat, primed: bool): Formula {
    CubeFormula(Uint(bv, n, primed))
  }

  /** The cube `uint(n)` holds iff the vector agrees with `n` on its bits. */
  lemma UintHolds(val: Valuation, bv: BitVec, n: nat, primed: bool)
    ensures CubeHolds(val, Uint(bv, n, primed)) <==> AgreeOn(ValueOf(val, bv, primed), n, 0, bv.size)
  {
    if CubeHolds(val, Uint(bv, n, primed)) {
      UintHoldsAgree(val, bv, n, primed);
    }
    if AgreeOn(ValueOf(val, bv, primed), n, 0, bv.size) {
      AgreeUintHolds(val, bv, n, primed);
    }
  }

  lemma UintHoldsAgree(val: Valuation, bv: BitVec, n: nat, primed: bool)
    requires CubeHolds(val, Uint(bv, n, primed))
    ensures AgreeOn(ValueOf(val, bv, primed), n, 0, bv.size)
  {
    var c := Uint(bv, n, primed);
    var x := ValueOf(val, bv, primed);
    forall t: nat | t < bv.size
      ensures Bit(x, t) == Bit(n, t)
    {
      BitOfValue(val, bv, primed, t);
      assert Holds(val, c[bv.size - 1 - t]);
    }
  }

  lemma AgreeUintHolds(val: Valuation, bv: BitVec, n: nat, primed: bool)
    requires AgreeOn(ValueOf(val, bv, primed), n, 0, bv.size)
    ensures CubeHolds(val, Uint(bv, n, primed))
  {
    var c := Uint(bv, n, primed);
    var x := ValueOf(val, bv, primed);
    forall k | 0 <= k < |c|
      ensures Holds(val, c[k])
    {
      var t := bv.size - 1 - k;
      BitOfValue(val, bv, primed, t);
      assert Bit(x, t) == Bit(n, t);
    }
  }

  /** `equals(n)` holds exactly when the vector stores `n mod 2^size`. */
  lemma EqualsValueMeaning(val: Valuation, bv: BitVec, n: nat, primed: bool)
    ensures Eval(val, EqualsValue(bv, n, primed)) <==> ValueOf(val, bv, primed) == n % Pow2(bv.size)
  {
    EvalCube(val, Uint(bv, n, primed));
    UintHolds(val, bv, n, primed);
    ValueAsWindow(val, bv, primed, n);
    WindowEqual(ValueOf(val, bv, primed), n, 0, bv.size);
  }

  /** `BitVec::unchanged`: bit-wise `current[i] == next[i]`. */
  function Unchanged(bv: BitVec): Formula {
    MkAnd(UnchangedBits(bv))
  }

  function UnchangedBits(bv: BitVec): (r: seq<Formula>)
    ensures |r| == bv.size
    ensures forall i :: 0 <= i < bv.size ==> r[i] == FIff(FLit(Atom(BitVar(bv, i), false)), FLit(Atom(BitVar(bv, i), true)))
  {
    seq(bv.size, i requires 0 <= i < bv.size =>
      FIff(FLit(Atom(BitVar(bv, i), false)), FLit(Atom(BitVar(bv, i), true))))
  }

  /** `unchanged()` holds iff every bit keeps its value, i.e. the stored
      number is the same in both vocabularies. */
  lemma UnchangedMeaning(val: Valuation, bv: BitVec)
    ensures Eval(val, Unchanged(bv)) <==> forall i :: 0 <= i < bv.size ==> val(BitVar(bv, i), false) == val(BitVar(bv, i), true)
    ensures Eval(val, Unchanged(bv)) <==> ValueOf(val, bv, false) == ValueOf(val, bv, true)
  {
    var fs := UnchangedBits(bv);
    EvalMkAnd(val, fs);
    forall i | 0 <= i < bv.size {
      EvalIff(val, FLit(Atom(BitVar(bv, i), false)), FLit(Atom(BitVar(bv, i), true)));
    }
    var x, y := ValueOf(val, bv, false), ValueOf(val, bv, true);
    if forall i :: 0 <= i < bv.size ==> val(BitVar(bv, i), false) == val(BitVar(bv, i), true) {
      forall t: nat
        ensures Bit(x, t) == Bit(y, t)
      {
        BitOfValue(val, bv, false, t);
        BitOfValue(val, bv, true, t);
      }
      BitsDetermine(x, y);
    }
    if x == y {
      forall i | 0 <= i < bv.size
        ensures val(BitVar(bv, i), false) == val(BitVar(bv, i), true)
      {
        BitOfValue(val, bv, false, i);
        BitOfValue(val, bv, true, i);
      }
    }
  }

  // Windowed comparisons

  /** Bit `i` of the vector as a formula, the constant false at or above
      `size`. */
  function CurrentBits(bv: BitVec): nat -> Formula {
    (i: nat) => if i < bv.size then FLit(Atom(BitVar(bv, i), false)) else FConst(false)
  }

  /** Bit `i` of the constant `n`: `ctx.bool_val(bits.test(i))`. */
  function ConstBits(n: nat): nat -> Formula {
    (i: nat) => FConst(Bit(n, i))
  }

  /** Under `val`, the bit formulas `x` read as the bits of the number `xv`. */
  ghost predicate Represents(val: Valuation, x: nat -> Formula, xv: nat) {
    forall t: nat :: Eval(val, x(t)) == Bit(xv, t)
  }

  lemma CurrentBitsRepresent(val: Valuation, bv: BitVec)
    ensures Represents(val, CurrentBits(bv), ValueOf(val, bv, false))
  {
    forall t: nat
      ensures Eval(val, CurrentBits(bv)(t)) == Bit(ValueOf(val, bv, false), t)
    {
      BitOfValue(val, bv, false, t);
    }
  }

  /** The inner loop of `less_4b`: `e` conjoined with `x[j] == y[j]` for
      `j` from `j` up to `msb`, each new conjunct outermost. */
  function EqualAbove(x: nat -> Formula, y: nat -> Formula, e: Formula, j: nat, msb: nat): Formula
    decreases msb + 1 - j
  {
    if j > msb then e else EqualAbove(x, y, FAnd(FIff(x(j), y(j)), e), j + 1, msb)
  }

  lemma {:induction false} EvalEqualAbove(val: Valuation, x: nat -> Formula, y: nat -> Formula, xv: nat, yv: nat,
                                          e: Formula, j: nat, msb: nat)
    requires Represents(val, x, xv) && Represents(val, y, yv)
    ensures Eval(val, EqualAbove(x, y, e, j, msb)) <==> Eval(val, e) && AgreeOn(xv, yv, j, msb + 1)
    decreases msb + 1 - j
  {
    if j <= msb {
      EvalIff(val, x(j), y(j));
      EvalEqualAbove(val, x, y, xv, yv, FAnd(FIff(x(j), y(j)), e), j + 1, msb);
      assert AgreeOn(xv, yv, j, msb + 1) <==> Bit(xv, j) == Bit(yv, j) && AgreeOn(xv, yv, j + 1, msb + 1);
    }
  }

  /** The disjunct of `less_4b` for bit `i`: `x[i]` is 0, `y[i]` is 1 and
      every bit above `i` up to `msb` agrees. */
  function LessAt(x: nat -> Formula, y: nat -> Formula, i: nat, msb: nat): Formula {
    EqualAbove(x, y, FAnd(FNot(x(i)), y(i)), i + 1, msb)
  }

  /** The disjuncts of `less_4b`, for `i` from `msb` down to `lsb`. */
  function LessDisjuncts(x: nat -> Formula, y: nat -> Formula, lsb: nat, msb: nat): (r: seq<Formula>)
    requires lsb <= msb + 1
    ensures |r| == msb + 1 - lsb
    ensures forall d :: 0 <= d < |r| ==> r[d] == LessAt(x, y, msb - d, msb)
  {
    seq(msb + 1 - lsb, d requires 0 <= d < msb + 1 - lsb => LessAt(x, y, msb - d, msb))
  }

  /** The bits `lsb..msb` of `xv`, most significant first. */
  function WindowBits(xv: nat, lsb: nat, msb: nat): (r: seq<bool>)
    requires lsb <= msb + 1
    ensures |r| == msb + 1 - lsb
    ensures forall d :: 0 <= d < |r| ==> r[d] == Bit(xv, msb - d)
    ensures ToNat(r) == Window(xv, lsb, msb + 1 - lsb)
  {
    var w := msb + 1 - lsb;
    var r := BitsMsbFirst(ShiftRight(xv, lsb), w);
    forall d | 0 <= d < w
      ensures r[d] == Bit(xv, msb - d)
    {
      BitShiftRight(xv, lsb, w - 1 - d);
    }
    ToNatBitsMsbFirst(ShiftRight(xv, lsb), w);
    r
  }

  /** The disjunction over bits `lsb..msb` compares the two windows as
      unsigned numbers. */
  lemma EvalLessDisjuncts(val: Valuation, x: nat -> Formula, y: nat -> Formula, xv: nat, yv: nat, lsb: nat, msb: nat)
    requires lsb <= msb + 1
    requires Represents(val, x, xv) && Represents(val, y, yv)
    ensures Eval(val, MkOr(LessDisjuncts(x, y, lsb, msb))) <==>
              Window(xv, lsb, msb + 1 - lsb) < Window(yv, lsb, msb + 1 - lsb)
  {
    var ds := LessDisjuncts(x, y, lsb, msb);
    var xs, ys := WindowBits(xv, lsb, msb), WindowBits(yv, lsb, msb);
    forall d | 0 <= d < |ds|
      ensures Eval(val, ds[d]) <==> !xs[d] && ys[d] && forall j :: 0 <= j < d ==> xs[j] == ys[j]
    {
      EvalEqualAbove(val, x, y, xv, yv, FAnd(FNot(x(msb - d)), y(msb - d)), msb - d + 1, msb);
      if AgreeOn(xv, yv, msb - d + 1, msb + 1) {
        forall j | 0 <= j < d
          ensures xs[j] == ys[j]
        {
          assert Bit(xv, msb - j) == Bit(yv, msb - j);
        }
      }
      if forall j :: 0 <= j < d ==> xs[j] == ys[j] {
        forall t: nat | msb - d + 1 <= t <= msb
          ensures Bit(xv, t) == Bit(yv, t)
        {
          assert xs[msb - t] == ys[msb - t];
        }
      }
    }
    EvalMkOr(val, ds);
    LexLessIsLess(xs, ys);
  }

  /** `less_4b(n, msb)`: asserts `(msb + 1) % 4 == 0`; the constant false
      when bits `msb-3..msb` of `n` are all 0. */
  function Less4b(bv: BitVec, n: nat, msb: nat): Formula
    requires (msb + 1) % 4 == 0
  {
    var lsb := msb - 3;
    if forall i :: lsb <= i <= msb ==> !Bit(n, i) then FConst(false)
    else MkOr(LessDisjuncts(CurrentBits(bv), ConstBits(n), lsb, msb))
  }

  lemma {:induction false} ShiftZero(k: nat)
    ensures ShiftRight(0, k) == 0
    decreases k
  {
    if k > 0 {
      ShiftZero(k - 1);
    }
  }

  /** `less_4b(n, msb)` means: bits `msb-3..msb` of the vector, read as an
      unsigned number with bits at or above `size` as 0, are less than the
      same window of `n`. */
  lemma Less4bMeaning(val: Valuation, bv: BitVec, n: nat, msb: nat)
    requires (msb + 1) % 4 == 0
    ensures Eval(val, Less4b(bv, n, msb)) <==> Window(ValueOf(val, bv, false), msb - 3, 4) < Window(n, msb - 3, 4)
  {
    var lsb := msb - 3;
    if forall i :: lsb <= i <= msb ==> !Bit(n, i) {
      forall t: nat | lsb <= t < lsb + 4
        ensures Bit(n, t) == Bit(0, t)
      {
        BitOfZero(t);
      }
      WindowEqual(n, 0, lsb, 4);
      ShiftZero(lsb);
      LowIsMod(0, 4);
      assert Window(n, lsb, 4) == 0;
    } else {
      CurrentBitsRepresent(val, bv);
      assert Represents(val, ConstBits(n), n);
      EvalLessDisjuncts(val, CurrentBits(bv), ConstBits(n), ValueOf(val, bv, false), n, lsb, msb);
    }
  }

  /** `less_4b(other, msb)`: asserts equal sizes; compares the windows of the
      two vectors' current values. */
  function Less4bVec(bv: BitVec, other: BitVec, msb: nat): Formula
    requires bv.size == other.size && (msb + 1) % 4 == 0
  {
    MkOr(LessDisjuncts(CurrentBits(bv), CurrentBits(other), msb - 3, msb))
  }

  lemma Less4bVecMeaning(val: Valuation, bv: BitVec, other: BitVec, msb: nat)
    requires bv.size == other.size && (msb + 1) % 4 == 0
    ensures Eval(val, Less4bVec(bv, other, msb)) <==>
              Window(ValueOf(val, bv, false), msb - 3, 4) < Window(ValueOf(val, other, false), msb - 3, 4)
  {
    CurrentBitsRepresent(val, bv);
    CurrentBitsRepresent(val, other);
    EvalLessDisjuncts(val, CurrentBits(bv), CurrentBits(other),
                      ValueOf(val, bv, false), ValueOf(val, other, false), msb - 3, msb);
  }

  /** The conjuncts of `eq(n, msb, nbits)`: bit `lsb + k` is required to be
      the bit of `n`. */
  function EqValueBits(bv: BitVec, n: nat, lsb: nat, nbits: nat): (r: seq<Formula>)
    ensures |r| == nbits
    ensures forall k :: 0 <= k < nbits ==>
              r[k] == if Bit(n, lsb + k) then CurrentBits(bv)(lsb + k) else FNot(CurrentBits(bv)(lsb + k))
  {
    seq(nbits, k requires 0 <= k < nbits =>
      if Bit(n, lsb + k) then CurrentBits(bv)(lsb + k) else FNot(CurrentBits(bv)(lsb + k)))
  }

  /** `eq(n, msb, nbits)`: asserts `(msb + 1) % 4 == 0` and `msb + 1 >= nbits`. */
  function EqValue(bv: BitVec, n: nat, msb: nat, nbits: nat): Formula
    requires (msb + 1) % 4 == 0 && msb + 1 >= nbits
  {
    MkAnd(EqValueBits(bv, n, msb + 1 - nbits, nbits))
  }

  /** `eq(n, msb, nbits)` holds iff bits `msb-nbits+1..msb` of the vector
      (0 at or above `size`) equal the same bits of `n`. */
  lemma EqValueMeaning(val: Valuation, bv: BitVec, n: nat, msb: nat, nbits: nat)
    requires (msb + 1) % 4 == 0 && msb + 1 >= nbits
    ensures Eval(val, EqValue(bv, n, msb, nbits)) <==>
              Window(ValueOf(val, bv, false), msb + 1 - nbits, nbits) == Window(n, msb + 1 - nbits, nbits)
  {
    var lsb := msb + 1 - nbits;
    var x := ValueOf(val, bv, false);
    var fs := EqValueBits(bv, n, lsb, nbits);
    CurrentBitsRepresent(val, bv);
    forall k | 0 <= k < |fs|
      ensures Eval(val, fs[k]) <==> Bit(x, lsb + k) == Bit(n, lsb + k)
    {
      assert Eval(val, CurrentBits(bv)(lsb + k)) == Bit(x, lsb + k);
    }
    AllBitsAgree(val, fs, x, n, lsb);
  }

  /** A conjunction of one formula per bit, each true iff the two numbers
      agree on that bit, holds iff their windows are equal. */
  lemma AllBitsAgree(val: Valuation, fs: seq<Formula>, x: nat, y: nat, lsb: nat)
    requires forall k :: 0 <= k < |fs| ==> (Eval(val, fs[k]) <==> Bit(x, lsb + k) == Bit(y, lsb + k))
    ensures Eval(val, MkAnd(fs)) <==> Window(x, lsb, |fs|) == Window(y, lsb, |fs|)
  {
    EvalMkAnd(val, fs);
    WindowEqual(x, y, lsb, |fs|);
    if Eval(val, MkAnd(fs)) {
      forall t: nat | lsb <= t < lsb + |fs|
        ensures Bit(x, t) == Bit(y, t)
      {
        assert Eval(val, fs[t - lsb]);
      }
    }
    if AgreeOn(x, y, lsb, lsb + |fs|) {
      forall k | 0 <= k < |fs|
        ensures Eval(val, fs[k])
      {
        assert Bit(x, lsb + k) == Bit(y, lsb + k);
      }
    }
  }

  /** The conjuncts of `eq(other, msb, nbits)`: `other[i] == bv[i]`. */
  function EqVecBits(bv: BitVec, other: BitVec, lsb: nat, nbits: nat): (r: seq<Formula>)
    ensures |r| == nbits
    ensures forall k :: 0 <= k < nbits ==> r[k] == FIff(CurrentBits(other)(lsb + k), CurrentBits(bv)(lsb + k))
  {
    seq(nbits, k requires 0 <= k < nbits => FIff(CurrentBits(other)(lsb + k), CurrentBits(bv)(lsb + k)))
  }

  /** `eq(other, msb, nbits)`: asserts equal sizes as well. */
  function EqVec(bv: BitVec, other: BitVec, msb: nat, nbits: nat): Formula
    requires bv.size == other.size && (msb + 1) % 4 == 0 && msb + 1 >= nbits
  {
    MkAnd(EqVecBits(bv, other, msb + 1 - nbits, nbits))
  }

  lemma EqVecMeaning(val: Valuation, bv: BitVec, other: BitVec, msb: nat, nbits: nat)
    requires bv.size == other.size && (msb + 1) % 4 == 0 && msb + 1 >= nbits
    ensures Eval(val, EqVec(bv, other, msb, nbits)) <==>
              Window(ValueOf(val, bv, false), msb + 1 - nbits, nbits) == Window(ValueOf(val, other, false), msb + 1 - nbits, nbits)
  {
    var lsb := msb + 1 - nbits;
    var x, y := ValueOf(val, bv, false), ValueOf(val, other, false);
    var fs := EqVecBits(bv, other, lsb, nbits);
    CurrentBitsRepresent(val, bv);
    CurrentBitsRepresent(val, other);
    forall k | 0 <= k < |fs|
      ensures Eval(val, fs[k]) <==> Bit(x, lsb + k) == Bit(y, lsb + k)
    {
      EvalIff(val, CurrentBits(other)(lsb + k), CurrentBits(bv)(lsb + k));
      assert Eval(val, CurrentBits(bv)(lsb + k)) == Bit(x, lsb + k);
      assert Eval(val, CurrentBits(other)(lsb + k)) == Bit(y, lsb + k);
    }
    AllBitsAgree(val, fs, x, y, lsb);
  }
}
