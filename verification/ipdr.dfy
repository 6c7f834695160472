/** Incremental PDR over the Peterson model: the sweep over switch bounds
    0, 1, 2, ... that reruns PDR after each change of bound, resetting the
    frames from scratch (`basic_reset`) or keeping them for the weaker
    bound (`relax_reset`), and the dispatch on the optimisation tactic.
    A PDR run is an oracle: its result for a bound and a kind of reset. */
module Ipdr {
  import opened Wrappers
  import opened Peterson
  import opened BoundChange
  import Pdr
  import FrameSequence

  /** How the frames were prepared before a run: rebuilt (`alg.reset()`), or
      kept from the run at bound `from` (`copy_to_Fk_keep`). */
  datatype ResetKind = BasicReset | RelaxReset(from: nat)

  /** One entry of `IpdrPetersonResult`: the bound, the reset before the
      run, and the run's result. */
  datatype RunRecord = RunRecord(bound: nat, reset: ResetKind, result: Pdr.PdrResult)

  /** `PDR::run` after the given reset to the given bound. */
  type PdrRun = (nat, ResetKind) -> Pdr.PdrResult

  /** The driver: the transition system, the tactic of the PDR context
      (`alg.ctx.type`) and whether every step resets from scratch. */
  datatype Ipdr = Ipdr(model: PetersonModel, tactic: Pdr.Tactic, control: bool)

  const NoTactic: string := "No optimization pdr tactic has been selected."

  /** The constructor asserts that the IPDR tactic chosen is relax. */
  function NewIpdr(ipdrTactic: Pdr.Tactic, control: bool, m: PetersonModel): (r: Result<Ipdr>)
    ensures r.Success? <==> ipdrTactic == Pdr.Relax
    ensures r.Success? ==> r.value.model == m && r.value.control == control
  {
    if ipdrTactic != Pdr.Relax then Failure(AssertionFailed)
    else Success(Ipdr(m, Pdr.Relax, control))
  }

  /** `basic_reset`: the old bound is read with `.value()`, the model is
      reconstrained and the frames are rebuilt by a basic run. */
  function BasicResetTo(e: Ipdr, switches: nat): (r: Result<Ipdr>)
    ensures r.Failure? <==> e.model.maxSwitches.None? || switches + 1 >= SwitchCountMax
    ensures r.Failure? && e.model.maxSwitches.None? ==> r.error == BadOptionalAccess
    ensures r.Success? ==> r.value.model.maxSwitches == Some(switches) && r.value.tactic == Pdr.Basic
    ensures r.Success? ==> r.value.model.n == e.model.n && r.value.model.p == e.model.p && r.value.control == e.control
  {
    if e.model.maxSwitches.None? then Failure(BadOptionalAccess)
    else
      match ConstrainSwitches(e.model, Some(switches))
      case Failure(err) => Failure(err)
      case Success(m) => Success(e.(model := m, tactic := Pdr.Basic))
  }

  /** `relax_reset`: the new bound must exceed the old one; the model is
      reconstrained and the frames are kept for the relax run. The result
      is always classified as relaxed, which frame reuse for a weaker
      constraint needs. */
  function RelaxResetTo(e: Ipdr, switches: nat): (r: Result<Ipdr>)
    ensures r.Failure? <==>
              e.model.maxSwitches.None? || switches <= e.model.maxSwitches.value || switches + 1 >= SwitchCountMax
    ensures r.Failure? && e.model.maxSwitches.None? ==> r.error == BadOptionalAccess
    ensures r.Success? ==> r.value.model.maxSwitches == Some(switches) && r.value.tactic == Pdr.Relax
    ensures r.Success? ==> r.value.model.diff == FrameSequence.Relaxed
    ensures r.Success? ==> r.value.model.n == e.model.n && r.value.model.p == e.model.p && r.value.control == e.control
  {
    if e.model.maxSwitches.None? then Failure(BadOptionalAccess)
    else if !(switches > e.model.maxSwitches.value) then Failure(AssertionFailed)
    else
      match ConstrainSwitches(e.model, Some(switches))
      case Failure(err) => Failure(err)
      case Success(m) =>
        assert Within(e.model.maxSwitches, Some(switches)) && !Within(Some(switches), e.model.maxSwitches) by {
          ClassifyMeaning(e.model.maxSwitches, Some(switches));
        }
        Success(e.(model := m, tactic := Pdr.Relax))
  }

  /** The reset before the run at bound `b`: the first run, and every run
      in control mode, starts from scratch; otherwise the frames of bound
      `b - 1` are kept. */
  function KindAt(control: bool, b: nat): ResetKind {
    if b == 0 || control then BasicReset else RelaxReset(b - 1)
  }

  function RecordAt(control: bool, run: PdrRun, b: nat): RunRecord {
    RunRecord(b, KindAt(control, b), run(b, KindAt(control, b)))
  }

  /** The records of the runs at bounds `0 .. k - 1`. */
  function Records(control: bool, run: PdrRun, k: nat): (r: seq<RunRecord>)
    ensures |r| == k
  {
    seq(k, b requires 0 <= b < k => RecordAt(control, run, b))
  }

  lemma RecordsSnoc(control: bool, run: PdrRun, k: nat)
    ensures Records(control, run, k + 1) == Records(control, run, k) + [RecordAt(control, run, k)]
  {
    assert forall b :: 0 <= b < k ==> Records(control, run, k + 1)[b] == Records(control, run, k)[b];
  }

  /** Every run below bound `k` found an invariant. */
  predicate HeldBelow(control: bool, run: PdrRun, k: nat) {
    forall b: nat :: b < k ==> run(b, KindAt(control, b)).Holds?
  }

  lemma HeldNext(control: bool, run: PdrRun, k: nat)
    ensures HeldBelow(control, run, k) && run(k, KindAt(control, k)).Holds? ==> HeldBelow(control, run, k + 1)
  {
  }

  /** What `relax(max_bound, control)` produces:
      - it fails when the model has no bound to read, or when every run up
        to bound 29 held and the sweep reaches bound 30, which the switch
        counter cannot represent;
      - otherwise the runs are those at bounds 0, 1, ... in order, each
        after the reset `KindAt` names, every run but the last found an
        invariant, and either the last one produced a trace or the sweep
        ended at `max_bound`; the model ends at the last bound run. */
  ghost predicate RelaxOutcome(e: Ipdr, maxBound: nat, control: bool, run: PdrRun,
                               r: Result<(Ipdr, seq<RunRecord>)>) {
    (r.Failure? <==> e.model.maxSwitches.None? || (maxBound >= 30 && HeldBelow(control, run, 30))) &&
    (r.Failure? && e.model.maxSwitches.None? ==> r.error == BadOptionalAccess) &&
    (r.Success? ==>
      var (e', recs) := r.value;
      1 <= |recs| <= maxBound + 1 && recs == Records(control, run, |recs|) &&
      HeldBelow(control, run, |recs| - 1) &&
      (recs[|recs| - 1].result.Trace? || |recs| == maxBound + 1) &&
      e'.model.maxSwitches == Some(|recs| - 1) && e'.model.n == e.model.n && e'.model.p == e.model.p)
  }

  /** The sweep after the runs at bounds `0 .. k - 1`: their records, every
      run but the last held, and the model sits at bound `k - 1`. */
  ghost predicate Swept(e: Ipdr, control: bool, run: PdrRun, cur: Ipdr, records: seq<RunRecord>, k: nat) {
    1 <= k && records == Records(control, run, k) && HeldBelow(control, run, k - 1) &&
    cur.model.maxSwitches == Some(k - 1) && cur.model.n == e.model.n && cur.model.p == e.model.p &&
    cur.control == e.control
  }

  /** One further step of the sweep after a run at bound `k - 1` held: the
      reset to bound `k` fails exactly when the switch counter cannot hold
      `k`, and otherwise the run at `k` is recorded. */
  method SweepStep(e: Ipdr, control: bool, run: PdrRun, cur: Ipdr, records: seq<RunRecord>, k: nat)
    returns (next: Result<Ipdr>, res: Pdr.PdrResult, records': seq<RunRecord>)
    requires Swept(e, control, run, cur, records, k) && run(k - 1, KindAt(control, k - 1)).Holds?
    ensures next.Failure? <==> k + 1 >= SwitchCountMax
    ensures HeldBelow(control, run, k)
    ensures next.Success? ==> Swept(e, control, run, next.value, records', k + 1)
    ensures next.Success? ==> res == run(k, KindAt(control, k)) && res == records'[k].result
  {
    HeldNext(control, run, k - 1);
    next := if control then BasicResetTo(cur, k) else RelaxResetTo(cur, k);
    res := run(k, KindAt(control, k));
    RecordsSnoc(control, run, k);
    records' := records + [RunRecord(k, KindAt(control, k), res)];
  }

  /** `relax`: run at bound 0, then at each further bound while the
      previous run found an invariant and the bound is at most `max_bound`. */
  method Relax(e: Ipdr, maxBound: nat, control: bool, run: PdrRun) returns (r: Result<(Ipdr, seq<RunRecord>)>)
    ensures RelaxOutcome(e, maxBound, control, run, r)
  {
    var first := BasicResetTo(e, 0);
    if first.Failure? {
      return Failure(first.error);
    }
    var cur := first.value;
    var res := run(0, BasicReset);
    var records := [RunRecord(0, BasicReset, res)];
    var bound: nat := 1;
    while res.Holds? && bound <= maxBound
      invariant 1 <= bound <= maxBound + 1 && bound <= 30
      invariant Swept(e, control, run, cur, records, bound)
      invariant res == records[bound - 1].result == run(bound - 1, KindAt(control, bound - 1))
      decreases maxBound + 1 - bound
    {
      var next, res', records' := SweepStep(e, control, run, cur, records, bound);
      if next.Failure? {
        return Failure(next.error);
      }
      cur, res, records := next.value, res', records';
      bound := bound + 1;
    }
    return Success((cur, records));
  }

  /** `relax_jump_test`: a basic run at `start` (its result only goes into
      the discarded report), then a relax run at `p + step` processes used
      as a switch bound. The asserts demand both `p + step <= start` and,
      inside `relax_reset`, `p + step > start`, so the test cannot
      complete. */
  function RelaxJumpTest(e: Ipdr, start: nat, step: nat): (r: Result<seq<RunRecord>>)
    ensures r.Failure?
    ensures r.error == (if e.model.maxSwitches.None? then BadOptionalAccess
                        else if start + 1 >= SwitchCountMax then TooManySwitches(start)
                        else AssertionFailed)
  {
    match BasicResetTo(e, start)
    case Failure(err) => Failure(err)
    case Success(e1) =>
      var oldp := e1.model.p;
      var newp := oldp + step;
      if !(newp > 0) || !(oldp < newp) then Failure(AssertionFailed)
      else if !(newp <= e1.model.maxSwitches.value) then Failure(AssertionFailed)
      else
        // `relax_reset(newp)` asserts `newp > start`, the opposite of the
        // assert just passed, so the second run is never reached.
        var relaxed := RelaxResetTo(e1, newp);
        Failure(relaxed.error)
  }

  /** `IPDR::run`: only relax is implemented; constrain and every other
      tactic end in `invalid_argument` (the jump tests after running). */
  method Run(e: Ipdr, tactic: Pdr.Tactic, maxBound: nat, run: PdrRun) returns (r: Result<(Ipdr, seq<RunRecord>)>)
    ensures tactic == Pdr.Relax ==> RelaxOutcome(e, maxBound, e.control, run, r)
    ensures tactic != Pdr.Relax ==> r.Failure?
    ensures tactic == Pdr.Constrain ==> r.error == InvalidArgument("Constrain not implemented.")
    ensures tactic !in {Pdr.Relax, Pdr.Constrain, Pdr.IncJumpTest, Pdr.IncOneTest} ==>
              r.error == InvalidArgument(NoTactic)
  {
    match tactic
    case Constrain =>
      return Failure(InvalidArgument("Constrain not implemented."));
    case Relax =>
      r := Relax(e, maxBound, e.control, run);
    case IncJumpTest =>
      var j := RelaxJumpTest(e, maxBound, 10);
      return Failure(j.error);
    case IncOneTest =>
      var j := RelaxJumpTest(e, maxBound, 1);
      return Failure(j.error);
    case _ =>
      return Failure(InvalidArgument(NoTactic));
  }

  /** `IPDR::control_run`: relax with every step reset from scratch, up to
      the given bound. */
  method ControlRun(e: Ipdr, tactic: Pdr.Tactic, processes: nat, run: PdrRun) returns (r: Result<(Ipdr, seq<RunRecord>)>)
    ensures tactic == Pdr.Relax ==> RelaxOutcome(e, processes, true, run, r)
    ensures tactic != Pdr.Relax ==> r.Failure?
    ensures tactic == Pdr.Constrain ==> r.error == InvalidArgument("Decrement not implemented.")
    ensures tactic !in {Pdr.Relax, Pdr.Constrain, Pdr.IncJumpTest, Pdr.IncOneTest} ==>
              r.error == InvalidArgument(NoTactic)
  {
    match tactic
    case Constrain =>
      return Failure(InvalidArgument("Decrement not implemented."));
    case Relax =>
      r := Relax(e, processes, true, run);
    case IncJumpTest =>
      var j := RelaxJumpTest(e, processes, 10);
      return Failure(j.error);
    case IncOneTest =>
      var j := RelaxJumpTest(e, processes, 1);
      return Failure(j.error);
    case _ =>
      return Failure(InvalidArgument(NoTactic));
  }
}
