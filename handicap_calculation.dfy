/**
 * A stored handicap calculation and its validations
 * (app/models/handicap_calculation.rb), and how they meet the calculator's output.
 */
module HandicapCalculations {
  import opened Wrappers
  import opened Text
  import opened GolfRounds
  import opened HandicapCalculator

  datatype HandicapCalculation = HandicapCalculation(
    calculatedHandicap: Option<real>,
    calculationMethod: Option<string>)

  /** Assignment to a `decimal(4,1)` column (db/schema.rb): the value is rounded
      to one decimal, halves away from zero, before any validation sees it. */
  function CastDecimal(x: Option<real>): (r: Option<real>)
    ensures r.Some? <==> x.Some?
    ensures x.Some? ==> r.value == RoundTenth(x.value)
  {
    match x
    case None => None
    case Some(v) => Some(RoundTenth(v))
  }

  /** Casting an already cast value changes nothing. */
  lemma CastDecimalIdempotent(x: Option<real>)
    ensures CastDecimal(CastDecimal(x)) == CastDecimal(x)
  {
    if x.Some? {
      RoundTenthIdempotent(x.value);
    }
  }

  /** The calculator's index is already a one-decimal value, so storing it in
      `calculated_handicap` does not change it. */
  lemma CalculatedIndexSurvivesCast(rounds: seq<GolfRound>)
    requires AllHaveDifferentials(rounds)
    ensures CastDecimal(Some(Calculate(rounds))) == Some(Calculate(rounds))
  {
    var index := Calculate(rounds);
    RoundTenthUnique(index, index);
  }

  /** `calculated_handicap`: present and 0.0 <= h <= 54.0, both ends included. */
  predicate CalculatedHandicapValid(h: Option<real>) {
    h.Some? && 0.0 <= h.value <= 54.0
  }

  /** `calculation_method`: present and one of `official`, `predicted`. */
  predicate CalculationMethodValid(m: Option<string>) {
    m.Some? && Present(m.value) && (m.value == "official" || m.value == "predicted")
  }

  predicate Valid(c: HandicapCalculation) {
    CalculatedHandicapValid(c.calculatedHandicap) && CalculationMethodValid(c.calculationMethod)
  }

  /** A value rounded to one decimal passes the range check exactly when the
      unrounded value lies in (-0.05, 54.05): -0.04 rounds to 0.0 and is kept,
      -0.05 rounds to -0.1 and is refused. */
  lemma RoundedHandicapAccepted(x: real)
    ensures CalculatedHandicapValid(Some(RoundTenth(x))) <==> -0.05 < x < 54.05
  {
    var r := RoundTenth(x);
    var m := (r * 10.0).Floor;
    assert m as real == r * 10.0;
    if -0.05 < x < 54.05 {
      assert -1 < m < 541;
    }
  }

  /** With one to three rounds the index is the lowest differential less 2.0, so
      it is refused as negative when that differential is at most 1.95 (not
      merely below 2.0: a lowest differential of 1.97 gives -0.03, which rounds
      to 0.0 and is kept), and refused as too high from 56.05 on. */
  lemma FewRoundsIndexAccepted(ds: seq<real>)
    requires 1 <= |ds| <= 3
    ensures CalculatedHandicapValid(Some(RoundTenth(FromDifferentials(ds)))) <==> 1.95 < Min(ds) < 56.05
  {
    assert FromDifferentials(ds) == Min(ds) - 2.0;
    RoundedHandicapAccepted(Min(ds) - 2.0);
  }

  /** The index for no rounds, 0.0, passes the range check. */
  lemma NoRoundsIndexAccepted()
    ensures CalculatedHandicapValid(Some(Calculate([])))
  {
  }

  /** The method is matched exactly: a differently capitalised or blank name is refused. */
  lemma CalculationMethodExact()
    ensures CalculationMethodValid(Some("predicted")) && CalculationMethodValid(Some("official"))
    ensures !CalculationMethodValid(Some("Predicted")) && !CalculationMethodValid(Some(""))
    ensures !CalculationMethodValid(None)
  {
    assert "Predicted"[0] != "predicted"[0];
    assert !IsSpace("predicted"[0]) && !IsSpace("official"[0]);
  }
}
