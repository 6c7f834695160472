/** Bounds on a transition system and the classification of a change of
    bound (`IModel::Diff_t`): both models constrain a counter by an optional
    upper bound (pebbles in use, context switches taken), and incremental
    PDR reuses frames according to whether the new bound is weaker or
    stronger than the old one. */
module BoundChange {
  import opened Wrappers
  import opened FrameSequence

  /** A counter value `c` is allowed under bound `b`: no bound, or `c <= b`. */
  predicate Admits(b: Option<nat>, c: nat) {
    b.None? || c <= b.value
  }

  /** Every count `a` allows, `b` allows too. */
  ghost predicate Within(a: Option<nat>, b: Option<nat>) {
    forall c: nat :: Admits(a, c) ==> Admits(b, c)
  }

  /** The classification `PebblingModel::constrain` computes: two bounds
      compare numerically; gaining a bound constrains, losing one relaxes. */
  function Classify(before: Option<nat>, after: Option<nat>): (d: ModelDiff)
    ensures d == NoChange <==> before == after
  {
    if after.Some? && before.Some? then
      if after.value == before.value then NoChange
      else if after.value < before.value then Constrained else Relaxed
    else if after.Some? && before.None? then Constrained
    else if after.None? && before.Some? then Relaxed
    else NoChange
  }

  /** A count one above a bound is the witness that separates it from any
      weaker bound. */
  lemma NotWithin(a: Option<nat>, b: Option<nat>)
    requires b.Some? && (a.None? || a.value > b.value)
    ensures !Within(a, b)
  {
    var c: nat := b.value + 1;
    assert Admits(a, c) && !Admits(b, c);
  }

  /** The classification means what it says: `Relaxed` exactly when the new
      bound allows strictly more counts, `Constrained` exactly when it allows
      strictly fewer. */
  lemma ClassifyMeaning(before: Option<nat>, after: Option<nat>)
    ensures Classify(before, after) == Relaxed <==> Within(before, after) && !Within(after, before)
    ensures Classify(before, after) == Constrained <==> Within(after, before) && !Within(before, after)
  {
    match (before, after)
    case (Some(a), Some(b)) =>
      if a < b {
        NotWithin(after, before);
      } else if b < a {
        NotWithin(before, after);
      }
    case (None, Some(b)) =>
      NotWithin(before, after);
    case (Some(a), None) =>
      NotWithin(after, before);
    case (None, None) =>
  }
}
