/**
 * A golf round record: its validations and its score differential
 * (app/models/golf_round.rb). An attribute that was never assigned is `None`.
 */
module GolfRounds {
  import opened Wrappers
  import opened Text

  datatype GolfRound = GolfRound(
    courseName: Option<string>,
    score: Option<int>,
    courseRating: Option<real>,
    slopeRating: Option<int>)

  /** `course_name`: present and at least three characters long. */
  predicate CourseNameValid(name: Option<string>) {
    name.Some? && Present(name.value) && |name.value| >= 3
  }

  /** `score`: present, an integer, 50 < score < 200. */
  predicate ScoreValid(score: Option<int>) {
    score.Some? && 50 < score.value < 200
  }

  /** `course_rating`: present, 60.0 < rating < 80.0. */
  predicate CourseRatingValid(rating: Option<real>) {
    rating.Some? && 60.0 < rating.value < 80.0
  }

  /** `slope_rating`: present, an integer, 55 < slope < 155. */
  predicate SlopeRatingValid(slope: Option<int>) {
    slope.Some? && 55 < slope.value < 155
  }

  predicate Valid(round: GolfRound) {
    && CourseNameValid(round.courseName)
    && ScoreValid(round.score)
    && CourseRatingValid(round.courseRating)
    && SlopeRatingValid(round.slopeRating)
  }

  /** What `score_differential` needs to produce a finite number: the three
      numeric attributes set and a non-zero slope. */
  predicate HasDifferential(round: GolfRound) {
    round.score.Some? && round.courseRating.Some? && round.slopeRating.Some? && round.slopeRating.value != 0
  }

  /** Every round of the sequence has a differential. */
  predicate AllHaveDifferentials(rounds: seq<GolfRound>) {
    forall round :: round in rounds ==> HasDifferential(round)
  }

  /** `score_differential`: `(113 / slope_rating) × (score − course_rating)`,
      carried at full precision with no rounding. */
  function ScoreDifferential(round: GolfRound): (d: real)
    requires HasDifferential(round)
    ensures d * round.slopeRating.value as real == 113.0 * (round.score.value as real - round.courseRating.value)
  {
    (113.0 / round.slopeRating.value as real) * (round.score.value as real - round.courseRating.value)
  }

  /** For a positive slope the differential is zero exactly when the score equals
      the course rating, and otherwise has the sign of `score − course_rating`. */
  lemma DifferentialSign(round: GolfRound)
    requires HasDifferential(round) && round.slopeRating.value > 0
    ensures var d := ScoreDifferential(round);
      var over := round.score.value as real - round.courseRating.value;
      && (d == 0.0 <==> over == 0.0)
      && (d > 0.0 <==> over > 0.0)
      && (d < 0.0 <==> over < 0.0)
  {
    var factor := 113.0 / round.slopeRating.value as real;
    assert factor > 0.0;
  }

  /** Every valid round has a differential: its slope lies in 56..154, never zero. */
  lemma ValidHasDifferential(round: GolfRound)
    requires Valid(round)
    ensures HasDifferential(round) && round.slopeRating.value > 0
  {
  }

  /** On one course (same rating and positive slope), a higher score gives a
      strictly higher differential. */
  lemma DifferentialIncreasesWithScore(a: GolfRound, b: GolfRound)
    requires HasDifferential(a) && HasDifferential(b)
    requires a.courseRating == b.courseRating && a.slopeRating == b.slopeRating
    requires a.slopeRating.value > 0
    requires a.score.value < b.score.value
    ensures ScoreDifferential(a) < ScoreDifferential(b)
  {
    var factor := 113.0 / a.slopeRating.value as real;
    var oa := a.score.value as real - a.courseRating.value;
    var ob := b.score.value as real - b.courseRating.value;
    assert factor > 0.0 && oa < ob;
    assert factor * ob - factor * oa == factor * (ob - oa);
  }

  /** The differential of any valid round lies strictly between -58.6 and 280.5:
      the extremes are slope 56 with score 51 against a rating near 80, and
      slope 56 with score 199 against a rating near 60. */
  lemma ValidDifferentialBounds(round: GolfRound)
    requires Valid(round)
    ensures HasDifferential(round)
    ensures -58.6 < ScoreDifferential(round) < 280.5
  {
    var slope := round.slopeRating.value as real;
    var factor := 113.0 / slope;
    var over := round.score.value as real - round.courseRating.value;
    assert 56.0 <= slope;
    assert 0.0 < factor <= 113.0 / 56.0 by {
      assert factor * slope == 113.0;
      assert (113.0 / 56.0) * 56.0 == 113.0;
    }
    assert -29.0 < over < 139.0;
    assert ScoreDifferential(round) == factor * over;
    assert (113.0 / 56.0) * 139.0 < 280.5 && (113.0 / 56.0) * -29.0 > -58.6;
    if over >= 0.0 {
      assert factor * over <= factor * 139.0;
      assert factor * 139.0 <= (113.0 / 56.0) * 139.0;
    } else {
      assert factor * over >= factor * -29.0;
      assert factor * -29.0 >= (113.0 / 56.0) * -29.0;
    }
  }

  /** Score 90 on a course rated 72.0 with slope 130 gives 15.646..., before any rounding. */
  lemma ExampleDifferential()
    ensures 15.646 < ScoreDifferential(GolfRound(Some("Pebble"), Some(90), Some(72.0), Some(130))) < 15.647
  {
  }
}
