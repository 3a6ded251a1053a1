/**
 * The TrainingPlan record (app/models/training_plan.rb) and its validations.
 * Running the validations fills the record's `errors` list in the order Rails
 * runs the validators: presence then numericality for each attribute in
 * declaration order, then the custom cross-field rule.
 */
module TrainingPlans {
  import opened Wrappers
  import ClaudeApi
  import HandicapCalculator
  import HandicapCalculations

  datatype Attribute = CurrentHandicap | TargetHandicap | TimelineMonths

  /** The error kinds the validations add. */
  datatype Kind =
    | Blank                    // presence: true
    | NotANumber               // numericality on a missing value
    | GreaterThanOrEqualTo     // below the attribute's lower bound (0.0)
    | LessThanOrEqualTo        // above the attribute's upper bound (54.0, or 36 months)
    | GreaterThan              // not above the lower bound (0 months)
    | MustBeLowerThanCurrent   // "must be lower than current handicap"

  datatype PlanError = PlanError(attribute: Attribute, kind: Kind)

  /** A handicap lies in the accepted range 0.0..54.0. */
  predicate InHandicapRange(h: real) {
    0.0 <= h <= 54.0
  }

  /** The errors of `validates attr, presence: true, numericality: { >= 0.0, <= 54.0 }`. */
  function HandicapErrors(attr: Attribute, h: Option<real>): (es: seq<PlanError>)
    ensures es == [] <==> h.Some? && InHandicapRange(h.value)
    ensures forall e <- es :: e.attribute == attr && e.kind != MustBeLowerThanCurrent
    ensures h.None? ==> es == [PlanError(attr, Blank), PlanError(attr, NotANumber)]
  {
    match h
    case None => [PlanError(attr, Blank), PlanError(attr, NotANumber)]
    case Some(v) =>
      (if v >= 0.0 then [] else [PlanError(attr, GreaterThanOrEqualTo)]) +
      (if v <= 54.0 then [] else [PlanError(attr, LessThanOrEqualTo)])
  }

  /** The errors of `validates :timeline_months, presence: true, numericality: { > 0, <= 36 }`. */
  function TimelineErrors(m: Option<int>): (es: seq<PlanError>)
    ensures es == [] <==> m.Some? && 0 < m.value <= 36
    ensures forall e <- es :: e.attribute == TimelineMonths && e.kind != MustBeLowerThanCurrent
    ensures m.None? ==> es == [PlanError(TimelineMonths, Blank), PlanError(TimelineMonths, NotANumber)]
  {
    match m
    case None => [PlanError(TimelineMonths, Blank), PlanError(TimelineMonths, NotANumber)]
    case Some(v) =>
      (if v > 0 then [] else [PlanError(TimelineMonths, GreaterThan)]) +
      (if v <= 36 then [] else [PlanError(TimelineMonths, LessThanOrEqualTo)])
  }

  /** The error `target_must_be_lower_than_current` adds: one, exactly when both
      handicaps are present and the target is not below the current one. */
  function CrossFieldErrors(current: Option<real>, target: Option<real>): (es: seq<PlanError>)
    ensures |es| <= 1
    ensures es != [] <==> current.Some? && target.Some? && target.value >= current.value
    ensures forall e <- es :: e == PlanError(TargetHandicap, MustBeLowerThanCurrent)
  {
    if target.Some? && current.Some? && target.value >= current.value then
      [PlanError(TargetHandicap, MustBeLowerThanCurrent)]
    else []
  }

  /** All validation errors of a plan, in the order Rails adds them. */
  function PlanErrors(current: Option<real>, target: Option<real>, months: Option<int>): seq<PlanError>
  {
    HandicapErrors(CurrentHandicap, current) + HandicapErrors(TargetHandicap, target) +
    TimelineErrors(months) + CrossFieldErrors(current, target)
  }

  /** What a valid plan is, stated field by field. */
  predicate PlanValid(current: Option<real>, target: Option<real>, months: Option<int>) {
    && current.Some? && InHandicapRange(current.value)
    && target.Some? && InHandicapRange(target.value)
    && months.Some? && 0 < months.value <= 36
    && target.value < current.value
  }

  /** A plan has no errors exactly when it is valid. */
  lemma NoErrorsIffValid(current: Option<real>, target: Option<real>, months: Option<int>)
    ensures PlanErrors(current, target, months) == [] <==> PlanValid(current, target, months)
  {
    var es := PlanErrors(current, target, months);
    var parts := [HandicapErrors(CurrentHandicap, current), HandicapErrors(TargetHandicap, target),
                  TimelineErrors(months), CrossFieldErrors(current, target)];
    assert |es| == |parts[0]| + |parts[1]| + |parts[2]| + |parts[3]|;
  }

  /** The cross-field rule reports only when both handicaps are present; with
      either missing the plan carries the missing one's presence error instead. */
  lemma CrossFieldNeedsBothHandicaps(current: Option<real>, target: Option<real>, months: Option<int>)
    ensures PlanError(TargetHandicap, MustBeLowerThanCurrent) in PlanErrors(current, target, months)
      <==> current.Some? && target.Some? && target.value >= current.value
    ensures current.None? ==> PlanError(CurrentHandicap, Blank) in PlanErrors(current, target, months)
    ensures target.None? ==> PlanError(TargetHandicap, Blank) in PlanErrors(current, target, months)
  {
    var cross := PlanError(TargetHandicap, MustBeLowerThanCurrent);
    var head := HandicapErrors(CurrentHandicap, current) + HandicapErrors(TargetHandicap, target) +
      TimelineErrors(months);
    assert PlanErrors(current, target, months) == head + CrossFieldErrors(current, target);
    assert cross !in head;
    if current.None? {
      assert PlanError(CurrentHandicap, Blank) == head[0];
    }
    if target.None? {
      var k := |HandicapErrors(CurrentHandicap, current)|;
      assert PlanError(TargetHandicap, Blank) == head[k];
    }
  }

  /** A valid plan asks for a real improvement: the current handicap is above
      zero and the difference handed to the plan generator is positive. */
  lemma ValidPlanImproves(current: Option<real>, target: Option<real>, months: Option<int>)
    requires PlanValid(current, target, months)
    ensures current.value > 0.0
    ensures ClaudeApi.HandicapDifference(current.value, target.value) > 0.0
  {
  }

  /** A handicap a HandicapCalculation accepts raises no error as a plan's
      current or target handicap. */
  lemma CalculatedHandicapFitsPlan(h: Option<real>)
    requires HandicapCalculations.CalculatedHandicapValid(h)
    ensures HandicapErrors(CurrentHandicap, h) == [] && HandicapErrors(TargetHandicap, h) == []
  {
  }

  /** The range check sees the submitted handicap after the decimal cast, so a
      submitted value is accepted exactly when it lies in (-0.05, 54.05). */
  lemma SubmittedHandicapWindow(attr: Attribute, x: real)
    ensures HandicapErrors(attr, HandicapCalculations.CastDecimal(Some(x))) == [] <==> -0.05 < x < 54.05
  {
    HandicapCalculations.RoundedHandicapAccepted(x);
  }

  /** A submitted 54.06 is stored as 54.1 and refused as above 54.0. */
  lemma SubmittedJustAboveRangeRefused()
    ensures HandicapErrors(CurrentHandicap, HandicapCalculations.CastDecimal(Some(54.06)))
      == [PlanError(CurrentHandicap, LessThanOrEqualTo)]
  {
    HandicapCalculator.RoundTenthUnique(54.06, 54.1);
  }

  /** The cast can create the cross-field error: a submitted 10.04 against a
      target of 10.0 is an improvement on the raw values, but both are stored as
      10.0, and the plan is then told the target must be lower. */
  lemma CastCanRejectSmallImprovement()
    ensures CrossFieldErrors(Some(10.04), Some(10.0)) == []
    ensures var current := HandicapCalculations.CastDecimal(Some(10.04));
      var target := HandicapCalculations.CastDecimal(Some(10.0));
      CrossFieldErrors(current, target) == [PlanError(TargetHandicap, MustBeLowerThanCurrent)]
  {
    HandicapCalculator.RoundTenthUnique(10.04, 10.0);
    HandicapCalculator.RoundTenthUnique(10.0, 10.0);
  }

  /** A training plan as a record whose validations fill `errors`. */
  class TrainingPlan {
    var currentHandicap: Option<real>
    var targetHandicap: Option<real>
    var timelineMonths: Option<int>
    var errors: seq<PlanError>

    /** A new plan from submitted values; both handicaps are `decimal(4,1)`
        columns, so they are cast to one decimal on assignment. */
    constructor(current: Option<real>, target: Option<real>, months: Option<int>)
      ensures currentHandicap == HandicapCalculations.CastDecimal(current)
      ensures targetHandicap == HandicapCalculations.CastDecimal(target)
      ensures timelineMonths == months
      ensures errors == []
    {
      currentHandicap := HandicapCalculations.CastDecimal(current);
      targetHandicap := HandicapCalculations.CastDecimal(target);
      timelineMonths := months;
      errors := [];
    }

    /** `target_must_be_lower_than_current`: adds its error to `errors`. */
    method TargetMustBeLowerThanCurrent()
      modifies this`errors
      ensures errors == old(errors) + CrossFieldErrors(currentHandicap, targetHandicap)
    {
      if targetHandicap.Some? && currentHandicap.Some? && targetHandicap.value >= currentHandicap.value {
        errors := errors + [PlanError(TargetHandicap, MustBeLowerThanCurrent)];
      }
    }

    /** `valid?`: clears `errors`, runs every validation, and reports whether
        none of them added an error. */
    method Validate() returns (ok: bool)
      modifies this`errors
      ensures errors == PlanErrors(currentHandicap, targetHandicap, timelineMonths)
      ensures ok <==> PlanValid(currentHandicap, targetHandicap, timelineMonths)
    {
      var current, target, months := currentHandicap, targetHandicap, timelineMonths;
      errors := [];
      errors := errors + HandicapErrors(CurrentHandicap, current);
      errors := errors + HandicapErrors(TargetHandicap, target);
      errors := errors + TimelineErrors(months);
      TargetMustBeLowerThanCurrent();
      assert errors == PlanErrors(current, target, months);
      NoErrorsIffValid(current, target, months);
      ok := errors == [];
    }
  }
}
