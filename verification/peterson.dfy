/** The Peterson filter lock for `p` of at most `N` processes, as the
    semantic transition system the z3 terms of `PetersonModel` denote: the
    state record and its order, the encoding of a state as a cube of
    bit-vector literals and its decoding, the initial states, the five
    per-process steps, and the optional bound on context switches. */
module Peterson {
  import opened Wrappers
  import opened Bits
  import opened Literals
  import opened BitVecs
  import opened BoundChange
  import FrameSequence
  import Strings

  /** The switch counter has 5 bits, so at most 30 switches can be allowed. */
  const SwitchCountMax: nat := 31
  /** Program counter values 0..4. */
  const PcNum: nat := 5

  /** `PetersonModel`: `N` slots, the first `p` of which may fire, an
      optional bound on context switches and the last classified change. */
  datatype PetersonModel = PetersonModel(n: nat, p: nat, maxSwitches: Option<nat>, diff: FrameSequence.ModelDiff)

  /** `PetersonState`: per-process program counter and level, `last[x]` the
      last process to enter level `x` (entry 0 is unused), and the last
      process to fire and the switch count, present only when switches are
      bounded. */
  datatype PetersonState = PetersonState(
    pc: seq<nat>, level: seq<nat>, last: seq<nat>, procLast: Option<nat>, switchCount: Option<nat>)

  // The order of `PetersonState`

  /** `std::vector::operator<`: lexicographic, a proper prefix is smaller. */
  predicate VecLess(a: seq<nat>, b: seq<nat>)
    decreases |a|
  {
    if |a| == 0 then |b| > 0
    else if |b| == 0 then false
    else if a[0] != b[0] then a[0] < b[0]
    else VecLess(a[1..], b[1..])
  }

  lemma {:induction false} VecLessIrreflexive(a: seq<nat>)
    ensures !VecLess(a, a)
    decreases |a|
  {
    if |a| > 0 {
      VecLessIrreflexive(a[1..]);
    }
  }

  lemma {:induction false} VecLessTransitive(a: seq<nat>, b: seq<nat>, c: seq<nat>)
    requires VecLess(a, b) && VecLess(b, c)
    ensures VecLess(a, c)
    decreases |a|
  {
    if |a| > 0 && |b| > 0 && |c| > 0 && a[0] == b[0] && b[0] == c[0] {
      VecLessTransitive(a[1..], b[1..], c[1..]);
    }
  }

  lemma {:induction false} VecLessTotal(a: seq<nat>, b: seq<nat>)
    ensures a == b || VecLess(a, b) || VecLess(b, a)
    decreases |a|
  {
    if |a| > 0 && |b| > 0 && a[0] == b[0] {
      VecLessTotal(a[1..], b[1..]);
      if a[1..] == b[1..] {
        assert a == [a[0]] + a[1..] && b == [b[0]] + b[1..];
      }
    }
  }

  lemma VecLessAsymmetric(a: seq<nat>, b: seq<nat>)
    requires VecLess(a, b)
    ensures !VecLess(b, a) && a != b
  {
    VecLessIrreflexive(a);
    if VecLess(b, a) {
      VecLessTransitive(a, b, a);
    }
  }

  /** Neither of two vectors is smaller exactly when they are equal. */
  lemma VecTie(a: seq<nat>, b: seq<nat>)
    ensures !VecLess(a, b) && !VecLess(b, a) <==> a == b
  {
    VecLessTotal(a, b);
    VecLessIrreflexive(a);
  }

  /** The switch fields are both present or both absent. */
  predicate SwitchFieldsPaired(s: PetersonState) {
    s.procLast.Some? == s.switchCount.Some?
  }

  predicate VectorsTie(a: PetersonState, b: PetersonState) {
    a.pc == b.pc && a.level == b.level && a.last == b.last
  }

  /** What the assertions of `operator<` and `operator==` demand once the
      three vectors tie: both states pair their switch fields, and both
      have them or neither does. */
  predicate Comparable(a: PetersonState, b: PetersonState) {
    VectorsTie(a, b) ==>
      SwitchFieldsPaired(a) && SwitchFieldsPaired(b) && a.procLast.Some? == b.procLast.Some?
  }

  /** `PetersonState::operator<`: lexicographic on pc, level, last, then the
      switch fields when present. */
  predicate StateLess(a: PetersonState, b: PetersonState)
    requires Comparable(a, b)
  {
    if VecLess(a.pc, b.pc) then true
    else if VecLess(b.pc, a.pc) then false
    else if VecLess(a.level, b.level) then true
    else if VecLess(b.level, a.level) then false
    else if VecLess(a.last, b.last) then true
    else if VecLess(b.last, a.last) then false
    else
      VecTie(a.pc, b.pc); VecTie(a.level, b.level); VecTie(a.last, b.last);
      if a.procLast.Some? && a.procLast.value < b.procLast.value then true
      else if a.procLast.Some? && b.procLast.value < a.procLast.value then false
      else if a.switchCount.Some? && a.switchCount.value < b.switchCount.value then true
      else false
  }

  /** `PetersonState::operator==` (and `!=` is its negation). */
  predicate StateEq(a: PetersonState, b: PetersonState)
    requires Comparable(a, b)
  {
    a.pc == b.pc && a.level == b.level && a.last == b.last &&
    (a.procLast.Some? ==> a.procLast.value == b.procLast.value) &&
    (a.switchCount.Some? ==> a.switchCount.value == b.switchCount.value)
  }

  /** Equality of states is structural equality. */
  lemma StateEqIsEquality(a: PetersonState, b: PetersonState)
    requires Comparable(a, b)
    ensures StateEq(a, b) <==> a == b
  {
  }

  /** Exactly one of `a < b`, `a == b`, `b < a`: the order is total and
      agrees with equality, as a `std::set` key needs. */
  lemma StateTrichotomy(a: PetersonState, b: PetersonState)
    requires Comparable(a, b)
    ensures StateLess(a, b) || StateEq(a, b) || StateLess(b, a)
    ensures !(StateLess(a, b) && StateEq(a, b))
    ensures !(StateLess(a, b) && StateLess(b, a))
    ensures !(StateLess(b, a) && StateEq(a, b))
  {
    VecTie(a.pc, b.pc);
    VecTie(a.level, b.level);
    VecTie(a.last, b.last);
    if VecLess(a.pc, b.pc) {
      VecLessAsymmetric(a.pc, b.pc);
    } else if VecLess(b.pc, a.pc) {
      VecLessAsymmetric(b.pc, a.pc);
    } else if VecLess(a.level, b.level) {
      VecLessAsymmetric(a.level, b.level);
    } else if VecLess(b.level, a.level) {
      VecLessAsymmetric(b.level, a.level);
    } else if VecLess(a.last, b.last) {
      VecLessAsymmetric(a.last, b.last);
    } else if VecLess(b.last, a.last) {
      VecLessAsymmetric(b.last, a.last);
    }
  }

  /** The first vector on which two states differ decides their order. */
  lemma StateLessByVectors(a: PetersonState, b: PetersonState)
    requires Comparable(a, b)
    ensures a.pc != b.pc ==> (StateLess(a, b) <==> VecLess(a.pc, b.pc))
    ensures a.pc == b.pc && a.level != b.level ==> (StateLess(a, b) <==> VecLess(a.level, b.level))
    ensures a.pc == b.pc && a.level == b.level && a.last != b.last ==> (StateLess(a, b) <==> VecLess(a.last, b.last))
  {
    VecTie(a.pc, b.pc);
    VecTie(a.level, b.level);
    VecTie(a.last, b.last);
    if VecLess(a.pc, b.pc) {
      VecLessAsymmetric(a.pc, b.pc);
    }
    if VecLess(a.level, b.level) {
      VecLessAsymmetric(a.level, b.level);
    }
    if VecLess(a.last, b.last) {
      VecLessAsymmetric(a.last, b.last);
    }
  }

  lemma StateLessTransitive(a: PetersonState, b: PetersonState, c: PetersonState)
    requires Comparable(a, b) && Comparable(b, c) && Comparable(a, c)
    requires StateLess(a, b) && StateLess(b, c)
    ensures StateLess(a, c)
  {
    StateLessByVectors(a, b);
    StateLessByVectors(b, c);
    StateLessByVectors(a, c);
    if a.pc != b.pc || b.pc != c.pc {
      PickTransitive(a.pc, b.pc, c.pc);
    } else if a.level != b.level || b.level != c.level {
      PickTransitive(a.level, b.level, c.level);
    } else if a.last != b.last || b.last != c.last {
      PickTransitive(a.last, b.last, c.last);
    }
  }

  /** Transitivity through "less or equal" on one vector, strict somewhere. */
  lemma PickTransitive(a: seq<nat>, b: seq<nat>, c: seq<nat>)
    requires a == b || VecLess(a, b)
    requires b == c || VecLess(b, c)
    requires a != b || b != c
    ensures VecLess(a, c) && a != c
  {
    if VecLess(a, b) && VecLess(b, c) {
      VecLessTransitive(a, b, c);
    }
    VecLessIrreflexive(a);
  }

  // The cube of a state

  /** `BitVec::holding(max)`: `log2(max) + 1` bits, the bit length of
      `max`; every value up to `max` fits. */
  function Holding(maxVal: nat): (w: nat)
    ensures maxVal < Pow2(w)
  {
    if maxVal == 0 then 0 else 1 + Holding(maxVal / 2)
  }

  /** A bit vector and the value a state assigns to it. */
  datatype Segment = Segment(bv: BitVec, value: nat)

  function PcVec(i: nat): BitVec {
    BitVec("pc", i, Holding(PcNum))
  }

  function LevelVec(m: PetersonModel, i: nat): BitVec {
    BitVec("level", i, Holding(m.n))
  }

  /** `last[0]` is an empty bit vector: level 0 has no last process. */
  function LastVec(m: PetersonModel, i: nat): BitVec {
    BitVec("last", i, if i == 0 then 0 else Holding(m.n))
  }

  function ProcLastVec(m: PetersonModel): BitVec {
    BitVec("proc_last", 0, Holding(m.p))
  }

  function SwitchCountVec(): BitVec {
    BitVec("switch_count", 0, Holding(SwitchCountMax))
  }

  /** The state holds `n` entries in each vector. */
  predicate Len(n: nat, s: PetersonState) {
    |s.pc| == n && |s.level| == n && |s.last| == n
  }

  /** The state holds one value per bit vector of the model. */
  predicate Sized(m: PetersonModel, s: PetersonState) {
    Len(m.n, s)
  }

  /** The bit vectors `cube` assigns, in order: all pc, all level, all
      last, then proc_last and switch_count when the state has them. */
  function Segments(m: PetersonModel, s: PetersonState): (r: seq<Segment>)
    requires Sized(m, s) && SwitchFieldsPaired(s)
    ensures |r| == 3 * m.n + (if s.procLast.Some? then 2 else 0)
  {
    seq(m.n, i requires 0 <= i < m.n => Segment(PcVec(i), s.pc[i]))
    + seq(m.n, i requires 0 <= i < m.n => Segment(LevelVec(m, i), s.level[i]))
    + seq(m.n, i requires 0 <= i < m.n => Segment(LastVec(m, i), s.last[i]))
    + (if s.procLast.Some?
       then [Segment(ProcLastVec(m), s.procLast.value), Segment(SwitchCountVec(), s.switchCount.value)]
       else [])
  }

  /** The `uint` literals of every segment, concatenated in order. */
  function Encode(segs: seq<Segment>, primed: bool): (r: seq<Lit>)
    decreases |segs|
  {
    if |segs| == 0 then []
    else Encode(segs[..|segs| - 1], primed) + Uint(segs[|segs| - 1].bv, segs[|segs| - 1].value, primed)
  }

  /** `PetersonState::cube` (`primed` false) and `cube_p` (`primed` true). */
  function Cube(m: PetersonModel, s: PetersonState, primed: bool): seq<Lit>
    requires Sized(m, s) && SwitchFieldsPaired(s)
  {
    Encode(Segments(m, s), primed)
  }

  /** `extract_state`: read every bit vector back; `last[0]` stays 0 and the
      switch fields are read exactly when switches are bounded. */
  function ExtractState(m: PetersonModel, cube: seq<Lit>, primed: bool): (s: PetersonState)
    ensures Sized(m, s) && SwitchFieldsPaired(s)
    ensures s.procLast.Some? <==> m.maxSwitches.Some?
  {
    PetersonState(
      seq(m.n, i requires 0 <= i < m.n => ExtractValue(PcVec(i), cube, primed)),
      seq(m.n, i requires 0 <= i < m.n => ExtractValue(LevelVec(m, i), cube, primed)),
      seq(m.n, i requires 0 <= i < m.n => if i == 0 then 0 else ExtractValue(LastVec(m, i), cube, primed)),
      if m.maxSwitches.Some? then Some(ExtractValue(ProcLastVec(m), cube, primed)) else None,
      if m.maxSwitches.Some? then Some(ExtractValue(SwitchCountVec(), cube, primed)) else None)
  }

  /** A literal is one of the bit vector's atoms in the given vocabulary. */
  predicate Owns(bv: BitVec, l: Lit, primed: bool) {
    l.v.base == bv.base && l.v.proc == bv.proc && l.next == primed
  }

  predicate NoneOwned(bv: BitVec, c: seq<Lit>, primed: bool) {
    forall j :: 0 <= j < |c| ==> !Owns(bv, c[j], primed)
  }

  lemma {:induction false} ExtractNoneOwned(bv: BitVec, c: seq<Lit>, primed: bool)
    requires NoneOwned(bv, c, primed)
    ensures ExtractValue(bv, c, primed) == 0
    decreases |c|
  {
    if |c| > 0 {
      ExtractNoneOwned(bv, c[..|c| - 1], primed);
    }
  }

  /** Literals of other bit vectors after the ones read change nothing. */
  lemma {:induction false} ExtractSkipsTail(bv: BitVec, a: seq<Lit>, b: seq<Lit>, primed: bool)
    requires NoneOwned(bv, b, primed)
    ensures ExtractValue(bv, a + b, primed) == ExtractValue(bv, a, primed)
    decreases |b|
  {
    if |b| == 0 {
      assert a + b == a;
    } else {
      var b' := b[..|b| - 1];
      assert (a + b)[..|a + b| - 1] == a + b';
      assert (a + b)[|a + b| - 1] == b[|b| - 1];
      ExtractSkipsTail(bv, a, b', primed);
    }
  }

  /** Literals of other bit vectors before the ones read change nothing. */
  lemma {:induction false} ExtractSkipsHead(bv: BitVec, a: seq<Lit>, b: seq<Lit>, primed: bool)
    requires NoneOwned(bv, a, primed)
    ensures ExtractValue(bv, a + b, primed) == ExtractValue(bv, b, primed)
    decreases |b|
  {
    if |b| == 0 {
      assert a + b == a;
      ExtractNoneOwned(bv, a, primed);
    } else {
      var b' := b[..|b| - 1];
      assert (a + b)[..|a + b| - 1] == a + b';
      assert (a + b)[|a + b| - 1] == b[|b| - 1];
      ExtractSkipsHead(bv, a, b', primed);
    }
  }

  predicate SameKey(x: BitVec, y: BitVec) {
    x.base == y.base && x.proc == y.proc
  }

  /** No two segments share a bit vector name. */
  predicate DistinctKeys(segs: seq<Segment>) {
    forall j, k :: 0 <= j < k < |segs| ==> !SameKey(segs[j].bv, segs[k].bv)
  }

  lemma {:induction false} EncodeNotOwned(segs: seq<Segment>, bv: BitVec, primed: bool)
    requires forall k :: 0 <= k < |segs| ==> !SameKey(segs[k].bv, bv)
    ensures NoneOwned(bv, Encode(segs, primed), primed)
    decreases |segs|
  {
    if |segs| > 0 {
      var n := |segs|;
      EncodeNotOwned(segs[..n - 1], bv, primed);
      var u := Uint(segs[n - 1].bv, segs[n - 1].value, primed);
      assert NoneOwned(bv, u, primed);
    }
  }

  /** Decoding one segment out of the concatenation of distinct segments
      gives its value modulo the width. */
  lemma {:induction false} ExtractSegment(segs: seq<Segment>, k: nat, primed: bool)
    requires DistinctKeys(segs) && k < |segs|
    ensures ExtractValue(segs[k].bv, Encode(segs, primed), primed) == segs[k].value % Pow2(segs[k].bv.size)
    decreases |segs|
  {
    var n := |segs|;
    var bv := segs[k].bv;
    var pre := segs[..n - 1];
    var u := Uint(segs[n - 1].bv, segs[n - 1].value, primed);
    assert Encode(segs, primed) == Encode(pre, primed) + u;
    if k == n - 1 {
      EncodeNotOwned(pre, bv, primed);
      ExtractSkipsHead(bv, Encode(pre, primed), u, primed);
      ExtractUint(bv, segs[k].value, primed);
    } else {
      assert !SameKey(segs[k].bv, segs[n - 1].bv);
      assert NoneOwned(bv, u, primed);
      ExtractSkipsTail(bv, Encode(pre, primed), u, primed);
      ExtractSegment(pre, k, primed);
    }
  }

  /** The position of a bit vector name in `Segments`: names determine
      positions, so the segments' names are distinct. */
  function KeyIndex(m: PetersonModel, bv: BitVec): int {
    if bv.base == "pc" then bv.proc
    else if bv.base == "level" then m.n + bv.proc
    else if bv.base == "last" then 2 * m.n + bv.proc
    else if bv.base == "proc_last" then 3 * m.n
    else 3 * m.n + 1
  }

  lemma SegmentsDistinct(m: PetersonModel, s: PetersonState)
    requires Sized(m, s) && SwitchFieldsPaired(s)
    ensures DistinctKeys(Segments(m, s))
  {
    var segs := Segments(m, s);
    assert forall j :: 0 <= j < |segs| ==> KeyIndex(m, segs[j].bv) == j;
    forall j, k | 0 <= j < k < |segs|
      ensures !SameKey(segs[j].bv, segs[k].bv)
    {
      assert KeyIndex(m, segs[j].bv) == j && KeyIndex(m, segs[k].bv) == k;
    }
  }

  /** Every value of the state fits its bit vector. */
  predicate Fits(m: PetersonModel, s: PetersonState)
    requires Sized(m, s)
  {
    (forall i :: 0 <= i < m.n ==> s.pc[i] < Pow2(Holding(PcNum))) &&
    (forall i :: 0 <= i < m.n ==> s.level[i] < Pow2(Holding(m.n))) &&
    (forall i :: 1 <= i < m.n ==> s.last[i] < Pow2(Holding(m.n))) &&
    (s.procLast.Some? ==> s.procLast.value < Pow2(Holding(m.p))) &&
    (s.switchCount.Some? ==> s.switchCount.value < Pow2(Holding(SwitchCountMax)))
  }

  /** A state `extract_state` can reproduce: sized to the model, `last[0]`
      zero, switch fields exactly when bounded, every value in range. */
  predicate Encodable(m: PetersonModel, s: PetersonState) {
    Sized(m, s) && SwitchFieldsPaired(s) && (m.n > 0 ==> s.last[0] == 0) &&
    (s.procLast.Some? <==> m.maxSwitches.Some?) && Fits(m, s)
  }

  /** Where each value sits in `Segments`: the pc of slot `i` first, ... */
  lemma SegmentsPcAt(m: PetersonModel, s: PetersonState, i: nat)
    requires Sized(m, s) && SwitchFieldsPaired(s) && i < m.n
    ensures Segments(m, s)[i] == Segment(PcVec(i), s.pc[i])
  {
  }

  /** ... then its level ... */
  lemma SegmentsLevelAt(m: PetersonModel, s: PetersonState, i: nat)
    requires Sized(m, s) && SwitchFieldsPaired(s) && i < m.n
    ensures Segments(m, s)[m.n + i] == Segment(LevelVec(m, i), s.level[i])
  {
  }

  /** ... then its last process ... */
  lemma SegmentsLastAt(m: PetersonModel, s: PetersonState, i: nat)
    requires Sized(m, s) && SwitchFieldsPaired(s) && i < m.n
    ensures Segments(m, s)[2 * m.n + i] == Segment(LastVec(m, i), s.last[i])
  {
  }

  /** ... and the switch fields at the end. */
  lemma SegmentsSwitchAt(m: PetersonModel, s: PetersonState)
    requires Sized(m, s) && SwitchFieldsPaired(s) && s.procLast.Some?
    ensures Segments(m, s)[3 * m.n] == Segment(ProcLastVec(m), s.procLast.value)
    ensures Segments(m, s)[3 * m.n + 1] == Segment(SwitchCountVec(), s.switchCount.value)
  {
  }

  /** A segment whose value fits its width decodes to that value. */
  lemma ExtractFitting(segs: seq<Segment>, k: nat, primed: bool)
    requires DistinctKeys(segs) && k < |segs| && segs[k].value < Pow2(segs[k].bv.size)
    ensures ExtractValue(segs[k].bv, Encode(segs, primed), primed) == segs[k].value
  {
    ExtractSegment(segs, k, primed);
    ModUnique(segs[k].value, Pow2(segs[k].bv.size), 0, segs[k].value);
  }

  /** The segment at position `k` holds `v` in `bv`, and `v` fits. */
  lemma ExtractAt(segs: seq<Segment>, k: nat, bv: BitVec, v: nat, primed: bool)
    requires DistinctKeys(segs) && k < |segs| && segs[k] == Segment(bv, v) && v < Pow2(bv.size)
    ensures ExtractValue(bv, Encode(segs, primed), primed) == v
  {
    ExtractFitting(segs, k, primed);
  }

  lemma ExtractPcs(m: PetersonModel, s: PetersonState, primed: bool)
    requires Encodable(m, s)
    ensures ExtractState(m, Cube(m, s, primed), primed).pc == s.pc
  {
    var segs := Segments(m, s);
    SegmentsDistinct(m, s);
    forall i | 0 <= i < m.n
      ensures ExtractValue(PcVec(i), Encode(segs, primed), primed) == s.pc[i]
    {
      SegmentsPcAt(m, s, i);
      ExtractAt(segs, i, PcVec(i), s.pc[i], primed);
    }
  }

  lemma ExtractLevels(m: PetersonModel, s: PetersonState, primed: bool)
    requires Encodable(m, s)
    ensures ExtractState(m, Cube(m, s, primed), primed).level == s.level
  {
    var segs := Segments(m, s);
    SegmentsDistinct(m, s);
    forall i | 0 <= i < m.n
      ensures ExtractValue(LevelVec(m, i), Encode(segs, primed), primed) == s.level[i]
    {
      SegmentsLevelAt(m, s, i);
      ExtractAt(segs, m.n + i, LevelVec(m, i), s.level[i], primed);
    }
  }

  lemma ExtractLasts(m: PetersonModel, s: PetersonState, primed: bool)
    requires Encodable(m, s)
    ensures ExtractState(m, Cube(m, s, primed), primed).last == s.last
  {
    var segs := Segments(m, s);
    SegmentsDistinct(m, s);
    forall i | 1 <= i < m.n
      ensures ExtractValue(LastVec(m, i), Encode(segs, primed), primed) == s.last[i]
    {
      SegmentsLastAt(m, s, i);
      ExtractAt(segs, 2 * m.n + i, LastVec(m, i), s.last[i], primed);
    }
  }

  lemma ExtractSwitchFields(m: PetersonModel, s: PetersonState, primed: bool)
    requires Encodable(m, s)
    ensures ExtractState(m, Cube(m, s, primed), primed).procLast == s.procLast
    ensures ExtractState(m, Cube(m, s, primed), primed).switchCount == s.switchCount
  {
    var segs := Segments(m, s);
    SegmentsDistinct(m, s);
    if s.procLast.Some? {
      SegmentsSwitchAt(m, s);
      ExtractAt(segs, 3 * m.n, ProcLastVec(m), s.procLast.value, primed);
      ExtractAt(segs, 3 * m.n + 1, SwitchCountVec(), s.switchCount.value, primed);
    }
  }

  /** Round trip: `extract_state(cube(s)) == s`, in either vocabulary. */
  lemma ExtractCube(m: PetersonModel, s: PetersonState, primed: bool)
    requires Encodable(m, s)
    ensures ExtractState(m, Cube(m, s, primed), primed) == s
  {
    ExtractPcs(m, s, primed);
    ExtractLevels(m, s, primed);
    ExtractLasts(m, s, primed);
    ExtractSwitchFields(m, s, primed);
  }

  /** Values within the ranges the protocol uses always fit. */
  lemma InRangeFits(m: PetersonModel, s: PetersonState)
    requires Sized(m, s)
    requires forall i :: 0 <= i < m.n ==> s.pc[i] <= PcNum && s.level[i] <= m.n && s.last[i] <= m.n
    requires s.procLast.Some? ==> s.procLast.value <= m.p
    requires s.switchCount.Some? ==> s.switchCount.value <= SwitchCountMax
    ensures Fits(m, s)
  {
  }

  // The transition system

  /** A state of the model: one entry per slot, no last process for level
      0, and the switch fields exactly when switches are bounded. */
  predicate WellFormed(m: PetersonModel, s: PetersonState) {
    Sized(m, s) && SwitchFieldsPaired(s) && (m.n > 0 ==> s.last[0] == 0) &&
    (s.procLast.Some? <==> m.maxSwitches.Some?)
  }

  /** `reset_initial`: every pc, level and last is 0, the switch count is 0
      when bounded; the last process to fire is left free. */
  predicate Initial(m: PetersonModel, s: PetersonState) {
    WellFormed(m, s) &&
    (forall i :: 0 <= i < m.n ==> s.pc[i] == 0 && s.level[i] == 0 && s.last[i] == 0) &&
    (m.maxSwitches.Some? ==> s.switchCount == Some(0))
  }

  /** `stays_except(pc, i)` and `stays_except(level, i)`. */
  predicate OthersStay(n: nat, s: PetersonState, t: PetersonState, i: nat)
    requires Len(n, s) && Len(n, t)
  {
    forall j :: 0 <= j < n && j != i ==> t.pc[j] == s.pc[j] && t.level[j] == s.level[j]
  }

  /** `stays(last)`: the entries for levels 1..N-1. */
  predicate LastStays(n: nat, s: PetersonState, t: PetersonState)
    requires Len(n, s) && Len(n, t)
  {
    forall x :: 1 <= x < n ==> t.last[x] == s.last[x]
  }

  /** `T_start`: idle to acquiring, entering level 1. */
  predicate Start(n: nat, s: PetersonState, t: PetersonState, i: nat)
    requires Len(n, s) && Len(n, t) && i < n
  {
    s.pc[i] == 0 && t.pc[i] == 1 && t.level[i] == 1 && OthersStay(n, s, t, i) && LastStays(n, s, t)
  }

  /** `T_boundcheck`: on to setting last while below level N, else into the
      critical section. */
  predicate BoundCheck(n: nat, s: PetersonState, t: PetersonState, i: nat)
    requires Len(n, s) && Len(n, t) && i < n
  {
    s.pc[i] == 1 && t.pc[i] == (if s.level[i] < n then 2 else 4) && t.level[i] == s.level[i] &&
    OthersStay(n, s, t, i) && LastStays(n, s, t)
  }

  /** `T_setlast`: `last[level[i]] := i` for a level in 1..N-1. */
  predicate SetLast(n: nat, s: PetersonState, t: PetersonState, i: nat)
    requires Len(n, s) && Len(n, t) && i < n
  {
    s.pc[i] == 2 && t.pc[i] == 3 && t.level[i] == s.level[i] && OthersStay(n, s, t, i) &&
    forall x :: 1 <= x < n ==> t.last[x] == (if s.level[i] == x then i else s.last[x])
  }

  /** The waiting condition of `T_await`: `i` was the last to enter its
      level and some other slot is at that level or higher. */
  predicate AwaitBlocked(n: nat, s: PetersonState, i: nat)
    requires Len(n, s) && i < n
  {
    (forall x :: 1 <= x < n && s.level[i] == x ==> s.last[x] == i) &&
    exists k :: 0 <= k < n && k != i && s.level[k] >= s.level[i]
  }

  /** `T_await`: keep waiting, or climb one level and go back to the bound
      check. */
  predicate Await(n: nat, s: PetersonState, t: PetersonState, i: nat)
    requires Len(n, s) && Len(n, t) && i < n
  {
    s.pc[i] == 3 &&
    (if AwaitBlocked(n, s, i) then t.pc[i] == 3 && t.level[i] == s.level[i]
     else t.pc[i] == 1 && t.level[i] == s.level[i] + 1) &&
    OthersStay(n, s, t, i) && LastStays(n, s, t)
  }

  /** `T_release`: leave the critical section, back to idle at level 0. */
  predicate Release(n: nat, s: PetersonState, t: PetersonState, i: nat)
    requires Len(n, s) && Len(n, t) && i < n
  {
    s.pc[i] == 4 && t.pc[i] == 0 && t.level[i] == 0 && OthersStay(n, s, t, i) && LastStays(n, s, t)
  }

  predicate ProcStep(n: nat, s: PetersonState, t: PetersonState, i: nat)
    requires Len(n, s) && Len(n, t) && i < n
  {
    Start(n, s, t, i) || BoundCheck(n, s, t, i) || SetLast(n, s, t, i) || Await(n, s, t, i) || Release(n, s, t, i)
  }

  /** `reset_transition`: one of the first `p` processes takes a step; when
      switches are bounded it becomes the last process to fire. */
  predicate Trans(m: PetersonModel, s: PetersonState, t: PetersonState) {
    WellFormed(m, s) && WellFormed(m, t) &&
    exists i: nat :: i < m.p && i < m.n && ProcStep(m.n, s, t, i) && (m.maxSwitches.Some? ==> t.procLast == Some(i))
  }

  /** `incremented()` of the switch counter: it is as wide as SWITCH_COUNT_MAX
      needs (5 bits), so one past 31 wraps around to 0. */
  function Incremented(v: nat): (r: nat)
    ensures r < Pow2(Holding(SwitchCountMax))
    ensures v + 1 < Pow2(Holding(SwitchCountMax)) ==> r == v + 1
    ensures v + 1 == Pow2(Holding(SwitchCountMax)) ==> r == 0
  {
    (v + 1) % Pow2(Holding(SwitchCountMax))
  }

  /** The constraint of `constrain_switches`: the count is incremented (with
      the counter's wrap-around) exactly when the firing process changes, and
      may not reach the bound plus one. */
  predicate SwitchCounting(m: PetersonModel, s: PetersonState, t: PetersonState)
    requires WellFormed(m, s) && WellFormed(m, t)
  {
    m.maxSwitches.Some? ==>
      t.switchCount.value == (if t.procLast == s.procLast then s.switchCount.value else Incremented(s.switchCount.value)) &&
      t.switchCount.value < m.maxSwitches.value + 1
  }

  /** A step of the constrained system: transition and constraint. */
  predicate Step(m: PetersonModel, s: PetersonState, t: PetersonState) {
    Trans(m, s, t) && SwitchCounting(m, s, t)
  }

  /** The move of process `i` on pc, level and last, computed directly. */
  function Move(m: PetersonModel, s: PetersonState, i: nat): (r: Option<PetersonState>)
    requires WellFormed(m, s) && i < m.n
    ensures r.Some? ==> WellFormed(m, r.value) && r.value.procLast == s.procLast && r.value.switchCount == s.switchCount
  {
    if s.pc[i] == 0 then Some(s.(pc := s.pc[i := 1], level := s.level[i := 1]))
    else if s.pc[i] == 1 then Some(s.(pc := s.pc[i := if s.level[i] < m.n then 2 else 4]))
    else if s.pc[i] == 2 then
      Some(s.(pc := s.pc[i := 3], last := if 1 <= s.level[i] < m.n then s.last[s.level[i] := i] else s.last))
    else if s.pc[i] == 3 then
      if AwaitBlocked(m.n, s, i) then Some(s) else Some(s.(pc := s.pc[i := 1], level := s.level[i := s.level[i] + 1]))
    else if s.pc[i] == 4 then Some(s.(pc := s.pc[i := 0], level := s.level[i := 0]))
    else None
  }

  /** The successor of `s` when process `i` fires, with the switch
      bookkeeping; none when `i` has no move or the bound forbids it. */
  function Successor(m: PetersonModel, s: PetersonState, i: nat): (r: Option<PetersonState>)
    requires WellFormed(m, s) && i < m.n
    ensures r.Some? ==> WellFormed(m, r.value)
  {
    match Move(m, s, i)
    case None => None
    case Some(t) =>
      if m.maxSwitches.None? then Some(t)
      else
        var count := if s.procLast == Some(i) then s.switchCount.value else Incremented(s.switchCount.value);
        if count < m.maxSwitches.value + 1 then Some(t.(procLast := Some(i), switchCount := Some(count)))
        else None
  }

  /** Two sized states agree on pc, level and the last entries for levels
      1..N-1; with `last[0]` fixed at 0 their vectors tie. */
  lemma TieByEntries(m: PetersonModel, a: PetersonState, b: PetersonState)
    requires WellFormed(m, a) && WellFormed(m, b)
    requires forall j :: 0 <= j < m.n ==> a.pc[j] == b.pc[j] && a.level[j] == b.level[j]
    requires forall x :: 1 <= x < m.n ==> a.last[x] == b.last[x]
    ensures VectorsTie(a, b)
  {
    assert a.pc == b.pc;
    assert a.level == b.level;
    assert forall x :: 0 <= x < m.n ==> a.last[x] == b.last[x];
  }

  /** The step relation of one process is the graph of `Move` on pc,
      level and last. */
  lemma ProcStepIsMove(m: PetersonModel, s: PetersonState, t: PetersonState, i: nat)
    requires WellFormed(m, s) && WellFormed(m, t) && i < m.n
    ensures ProcStep(m.n, s, t, i) <==> Move(m, s, i).Some? && VectorsTie(Move(m, s, i).value, t)
  {
    var r := Move(m, s, i);
    if ProcStep(m.n, s, t, i) {
      TieByEntries(m, r.value, t);
    }
    if r.Some? && VectorsTie(r.value, t) {
      var u := r.value;
      assert forall j :: 0 <= j < m.n ==> t.pc[j] == u.pc[j] && t.level[j] == u.level[j];
      assert forall x :: 1 <= x < m.n ==> t.last[x] == u.last[x];
      if s.pc[i] == 0 {
        assert Start(m.n, s, t, i);
      } else if s.pc[i] == 1 {
        assert BoundCheck(m.n, s, t, i);
      } else if s.pc[i] == 2 {
        assert SetLast(m.n, s, t, i);
      } else if s.pc[i] == 3 {
        assert Await(m.n, s, t, i);
      } else {
        assert Release(m.n, s, t, i);
      }
    }
  }

  /** The constrained step relation is exactly the set of successors of
      the first `p` processes. */
  lemma StepIsSuccessor(m: PetersonModel, s: PetersonState, t: PetersonState)
    requires WellFormed(m, s)
    ensures Step(m, s, t) <==> exists i: nat :: i < m.p && i < m.n && Successor(m, s, i) == Some(t)
  {
    if Step(m, s, t) {
      var i: nat :| i < m.p && i < m.n && ProcStep(m.n, s, t, i) && (m.maxSwitches.Some? ==> t.procLast == Some(i));
      ProcStepIsMove(m, s, t, i);
      assert Successor(m, s, i) == Some(t);
    }
    if exists i: nat :: i < m.p && i < m.n && Successor(m, s, i) == Some(t) {
      var i: nat :| i < m.p && i < m.n && Successor(m, s, i) == Some(t);
      ProcStepIsMove(m, s, t, i);
      assert ProcStep(m.n, s, t, i);
    }
  }

  /** Slots `p..N-1` never move, and a bounded step records which of the
      first `p` processes fired. */
  lemma IdleProcessesStay(m: PetersonModel, s: PetersonState, t: PetersonState)
    requires Trans(m, s, t)
    ensures forall j :: m.p <= j < m.n ==> t.pc[j] == s.pc[j] && t.level[j] == s.level[j]
    ensures m.maxSwitches.Some? ==> t.procLast.value < m.p
  {
  }

  /** Program counter and level agree: idle at level 0, acquiring at a level
      in 1..N (below N once past the bound check), critical at level N. */
  predicate PcLevelOk(n: nat, pc: nat, lvl: nat) {
    if pc == 0 then lvl == 0
    else if pc == 1 then 1 <= lvl <= n
    else if pc == 2 || pc == 3 then 1 <= lvl < n
    else pc == 4 && lvl == n
  }

  predicate LevelsConsistent(m: PetersonModel, s: PetersonState)
    requires Sized(m, s)
  {
    forall i :: 0 <= i < m.n ==> PcLevelOk(m.n, s.pc[i], s.level[i])
  }

  lemma InitialLevels(m: PetersonModel, s: PetersonState)
    requires Initial(m, s)
    ensures LevelsConsistent(m, s)
  {
  }

  /** Every transition preserves the agreement of program counters and
      levels, so it holds in every reachable state. */
  lemma TransKeepsLevels(m: PetersonModel, s: PetersonState, t: PetersonState)
    requires Trans(m, s, t) && LevelsConsistent(m, s)
    ensures LevelsConsistent(m, t)
  {
    var i: nat :| i < m.p && i < m.n && ProcStep(m.n, s, t, i) && (m.maxSwitches.Some? ==> t.procLast == Some(i));
    assert PcLevelOk(m.n, s.pc[i], s.level[i]);
    assert PcLevelOk(m.n, t.pc[i], t.level[i]);
  }

  // Counting context switches

  /** A run of the constrained system from an initial state. */
  predicate IsRun(m: PetersonModel, run: seq<PetersonState>) {
    |run| >= 1 && Initial(m, run[0]) && forall j :: 1 <= j < |run| ==> Step(m, run[j - 1], run[j])
  }

  lemma RunPrefix(m: PetersonModel, run: seq<PetersonState>)
    requires IsRun(m, run) && |run| > 1
    ensures IsRun(m, run[..|run| - 1])
  {
    var pre := run[..|run| - 1];
    assert forall j :: 1 <= j < |pre| ==> Step(m, run[j - 1], run[j]);
  }

  /** How often the firing process changed along a run. */
  function Switches(run: seq<PetersonState>): nat
    decreases |run|
  {
    if |run| <= 1 then 0
    else Switches(run[..|run| - 1]) + (if run[|run| - 1].procLast != run[|run| - 2].procLast then 1 else 0)
  }

  /** With bounded switches the counter of the last state of a run is the
      number of switches taken, and never exceeds the bound. The bound is
      one `constrain_switches` accepts (its plus one below SWITCH_COUNT_MAX),
      so the counter never wraps along a run. */
  lemma {:induction false} RunCountsSwitches(m: PetersonModel, run: seq<PetersonState>)
    requires m.maxSwitches.Some? && m.maxSwitches.value + 1 < SwitchCountMax && IsRun(m, run)
    ensures run[|run| - 1].switchCount == Some(Switches(run))
    ensures Switches(run) <= m.maxSwitches.value
    decreases |run|
  {
    if |run| > 1 {
      var pre := run[..|run| - 1];
      RunPrefix(m, run);
      RunCountsSwitches(m, pre);
      var s, t := run[|run| - 2], run[|run| - 1];
      assert Step(m, s, t);
      assert SwitchCounting(m, s, t);
    }
  }

  // Changing the bound

  function TooManySwitches(bound: nat): Error {
    InvalidArgument("The maximum number of switches m+1 (=" + Strings.NatToString(bound) +
                    "+1) must be less than SWITCH_COUNT_MAX=31")
  }

  /** `constrain_switches` as written: the change is classified by the sign
      of `old.value_or(0) - new.value_or(0)`. */
  function ConstrainSwitchesAsWritten(m: PetersonModel, bound: Option<nat>): (r: Result<PetersonModel>)
    ensures r.Failure? <==> bound.Some? && bound.value + 1 >= SwitchCountMax
    ensures r.Success? ==> r.value.n == m.n && r.value.p == m.p && r.value.maxSwitches == bound
  {
    if bound.Some? && !(bound.value + 1 < SwitchCountMax) then Failure(TooManySwitches(bound.value))
    else
      var d: int := m.maxSwitches.GetOr(0) - bound.GetOr(0);
      var diff := if d < 0 then FrameSequence.Relaxed
                  else if d > 0 then FrameSequence.Constrained
                  else FrameSequence.NoChange;
      Success(m.(maxSwitches := bound, diff := diff))
  }

  /** `constrain_switches` with the classification its comments describe:
      losing the bound relaxes, gaining one constrains. */
  function ConstrainSwitches(m: PetersonModel, bound: Option<nat>): (r: Result<PetersonModel>)
    ensures r.Failure? <==> bound.Some? && bound.value + 1 >= SwitchCountMax
    ensures r.Success? ==> r.value.n == m.n && r.value.p == m.p && r.value.maxSwitches == bound
    ensures r.Success? ==> (r.value.diff == FrameSequence.NoChange <==> bound == m.maxSwitches)
    ensures r.Success? ==>
              (r.value.diff == FrameSequence.Relaxed <==> Within(m.maxSwitches, bound) && !Within(bound, m.maxSwitches))
    ensures r.Success? ==>
              (r.value.diff == FrameSequence.Constrained <==> Within(bound, m.maxSwitches) && !Within(m.maxSwitches, bound))
  {
    if bound.Some? && !(bound.value + 1 < SwitchCountMax) then Failure(TooManySwitches(bound.value))
    else
      ClassifyMeaning(m.maxSwitches, bound);
      Success(m.(maxSwitches := bound, diff := Classify(m.maxSwitches, bound)))
  }

  /** Between two bounds the code and the documented classification agree. */
  lemma ConstrainSwitchesAgreeOnBounds(m: PetersonModel, bound: Option<nat>)
    requires m.maxSwitches.Some? && bound.Some?
    ensures ConstrainSwitchesAsWritten(m, bound) == ConstrainSwitches(m, bound)
  {
  }

  /** Dropping a bound of 3 is classified as a constraint, although every
      count the old bound allowed is still allowed and more besides. */
  lemma ConstrainSwitchesAsWrittenMisclassifies()
    ensures var m := PetersonModel(2, 2, Some(3), FrameSequence.NoChange);
            var r := ConstrainSwitchesAsWritten(m, None);
            r.Success? && r.value.diff == FrameSequence.Constrained &&
            Within(Some(3), None) && !Within(None, Some(3))
  {
    NotWithin(None, Some(3));
  }

  /** Initial states and transitions depend on the bound only through its
      presence: `constrain_switches` rebuilds them exactly when the state
      vocabulary changes. */
  lemma SameBoundednessSameSystem(m: PetersonModel, m': PetersonModel)
    requires m.n == m'.n && m.p == m'.p && m.maxSwitches.Some? == m'.maxSwitches.Some?
    ensures forall s :: Initial(m, s) <==> Initial(m', s)
    ensures forall s, t :: Trans(m, s, t) <==> Trans(m', s, t)
  {
    assert forall s :: WellFormed(m, s) <==> WellFormed(m', s);
  }

  // The property

  /** How many processes of `pcs` are in their critical section (pc 4):
      the number of true `pc_i = 4` literals that `atmost` and `atleast`
      count. */
  function Critical(pcs: seq<nat>): (r: nat)
    ensures r <= |pcs|
    ensures r == 0 <==> forall i :: 0 <= i < |pcs| ==> pcs[i] != 4
  {
    if pcs == [] then 0
    else Critical(pcs[..|pcs| - 1]) + if pcs[|pcs| - 1] == 4 then 1 else 0
  }

  /** `property`: at most one process is in its critical section. Its primed
      copy is the same predicate of the next state. */
  predicate Property(s: PetersonState) {
    Critical(s.pc) <= 1
  }

  /** `n_property`: at least two processes are in their critical section. */
  predicate Bad(s: PetersonState) {
    Critical(s.pc) >= 2
  }

  /** The count bound is mutual exclusion: at most one critical process
      exactly when no two distinct processes are both at pc 4. */
  lemma {:induction false} CriticalAtMostOne(pcs: seq<nat>)
    ensures Critical(pcs) <= 1 <==> forall i, j :: 0 <= i < j < |pcs| && pcs[i] == 4 ==> pcs[j] != 4
  {
    if pcs != [] {
      var n := |pcs| - 1;
      var p := pcs[..n];
      CriticalAtMostOne(p);
      assert forall i :: 0 <= i < n ==> p[i] == pcs[i];
      if pcs[n] == 4 && Critical(p) > 0 {
        var i :| 0 <= i < n && p[i] == 4;
        assert pcs[i] == 4 && pcs[n] == 4;
      }
    }
  }

  /** `n_property` is the negation of `property`: a bad state is exactly one
      where two distinct processes are both critical. */
  lemma PropertyNegatesBad(s: PetersonState)
    ensures Property(s) <==> !Bad(s)
    ensures Bad(s) <==> exists i, j :: 0 <= i < j < |s.pc| && s.pc[i] == 4 && s.pc[j] == 4
  {
    CriticalAtMostOne(s.pc);
  }

  /** The constructor: `reset_transition` reads `pc.at(i)` for every
      `i < p`, so more firing processes than slots is out of range; then the
      bound is checked, and a bounded model starts out relaxed. */
  function NewModel(nProcs: nat, mProcs: nat, switches: Option<nat>): (r: Result<PetersonModel>)
    ensures r.Failure? <==> nProcs > mProcs || (switches.Some? && switches.value + 1 >= SwitchCountMax)
    ensures r.Failure? && nProcs > mProcs ==> r.error == IndexError
    ensures r.Success? ==> r.value.p <= r.value.n && r.value.maxSwitches == switches
    ensures r.Success? ==> (r.value.diff == FrameSequence.Relaxed <==> switches.Some?)
  {
    if nProcs > mProcs then Failure(IndexError)
    else
      var m := PetersonModel(mProcs, nProcs, switches, FrameSequence.NoChange);
      match ConstrainSwitches(m, switches)
      case Failure(e) => Failure(e)
      case Success(m') =>
        Success(if switches.Some? then m'.(diff := FrameSequence.Relaxed) else m')
  }
}
