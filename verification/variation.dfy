/**
 The variation calculator: compares each new price with the previously
 observed one. The baseline, a process-wide variable in the program, is
 passed in and handed back explicitly.
 */
module Variation {
  import opened Options

  /** Absolute change and percentage change against the baseline. */
  datatype Change = Change(difference: real, percentage: real)

  /** What one call reports, and the baseline it leaves behind. */
  datatype Step = Step(change: Change, baseline: Option<real>)

  /** No change at all, reported for the first observation. */
  const NoChange := Change(0.0, 0.0)

  /**
   `calculate_variation`: with no baseline the price becomes the baseline and
   the change is zero; otherwise the change is measured against the baseline,
   which then moves to the new price. A zero baseline would divide by zero,
   so it is excluded.
   */
  function CalculateVariation(baseline: Option<real>, current: real): (s: Step)
    requires baseline != Some(0.0)
    ensures s.baseline == Some(current)
    ensures baseline.None? ==> s.change == NoChange
    ensures baseline.Some? ==> s.change.difference + baseline.value == current
    ensures baseline.Some? ==> s.change.percentage * baseline.value == 100.0 * s.change.difference
  {
    match baseline
    case None => Step(NoChange, Some(current))
    case Some(previous) =>
      var difference := current - previous;
      Step(Change(difference, difference / previous * 100.0), Some(current))
  }

  /** The reported change rises above zero exactly when the price rose. */
  lemma RiseIsPositive(previous: real, current: real)
    requires previous != 0.0
    ensures CalculateVariation(Some(previous), current).change.difference > 0.0 <==> current > previous
  {
  }

  /** With a positive baseline, the percentage has the sign of the difference. */
  lemma PercentageFollowsDifference(previous: real, current: real)
    requires previous > 0.0
    ensures var c := CalculateVariation(Some(previous), current).change;
      (c.percentage > 0.0 <==> c.difference > 0.0) && (c.percentage == 0.0 <==> c.difference == 0.0)
  {
    var c := CalculateVariation(Some(previous), current).change;
    assert c.percentage * previous == 100.0 * c.difference;
    if c.percentage > 0.0 {
      assert c.percentage * previous > 0.0;
    } else if c.percentage < 0.0 {
      assert c.percentage * previous < 0.0;
    }
  }
}
