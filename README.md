# Golf coach: verified model of the handicap and training-plan core

This project models the computational core of a Rails golf-coaching application in Dafny:

- **Rounds.** A golf round (`GolfRound`) has validations and a score differential:
  `(113 / slope) × (score − course rating)`.
- **Handicap calculator.** `HandicapCalculatorService#calculate` turns a list of rounds into a handicap index.
  - It returns 0.0 for no rounds.
  - Otherwise it takes the lowest differential less an adjustment (1 to 5 rounds), or the average of the k lowest differentials (6 or more rounds).
  - The result is rounded to one decimal place.
- **Stored calculations.** `HandicapCalculation` has validations on the stored index and the method name.
- **Training plans.** `TrainingPlan` has validations, including the rule that the target must lie below the current handicap. Running them fills the record's `errors` list.
- **Users.** The `User` model requires an email. The six-character password rule applies only while `password_required?` holds, and `before_save` lower-cases the email.
- **Reply parsing.** The pure part of `ClaudeApiService` covers three things:
  - the handicap difference handed to the plan generator;
  - `extract_section`, which cuts a section between `=== NAME ===` markers, matched case-insensitively with optional whitespace;
  - `parse_training_plan_response`, which returns three stripped guides.

Modules:

| file | module | contents |
|---|---|---|
| `wrappers.dfy` | `Wrappers` | `Option`, standing for Ruby's `nil` |
| `text.dfy` | `Text` | whitespace, `blank?`/`present?`, ASCII `downcase`, `strip` |
| `golf_round.dfy` | `GolfRounds` | rounds, validations, score differential |
| `handicap_calculator.dfy` | `HandicapCalculator` | `min`, `sort`, `first`, `round(1)`, the tier rule, `calculate` |
| `handicap_calculation.dfy` | `HandicapCalculations` | the stored calculation's validations and how they treat calculator output |
| `training_plan.dfy` | `TrainingPlans` | the `TrainingPlan` class, its error list and validations |
| `user.dfy` | `Users` | the `User` class, email normalisation, password rule, `save` |
| `claude_api.dfy` | `ClaudeApi` | the marker scanner, `extract_section`, `parse_training_plan_response` |

Modelling choices:

- Numbers are `real`.
- A missing attribute is `None`.
- Validation errors are lists of error values in the order Rails adds them. Validators run in declaration order, so presence comes before numericality for each attribute, and the attributes follow the order of the `validates` lines. `target_must_be_lower_than_current` runs last because `training_plan.rb` declares it last.
- Records whose validations the source runs in place (`TrainingPlan`, `User`) are classes with an `errors` field. Their methods state the new state exactly, in terms of pure error functions. The properties are proved about those functions.

## Model

| member | source | states |
|---|---|---|
| GolfRounds.CourseNameValid | app/models/golf_round.rb:6 | (definition) `course_name` is present, not blank, and at least 3 characters long |
| GolfRounds.ScoreValid | app/models/golf_round.rb:7-8 | (definition) `score` is present and 50 < score < 200 |
| GolfRounds.CourseRatingValid | app/models/golf_round.rb:9-10 | (definition) `course_rating` is present and 60.0 < rating < 80.0 |
| GolfRounds.SlopeRatingValid | app/models/golf_round.rb:11-12 | (definition) `slope_rating` is present and 55 < slope < 155 |
| GolfRounds.Valid | app/models/golf_round.rb:6-12 | (definition) all four attribute validations hold |
| GolfRounds.ScoreDifferential | app/models/golf_round.rb:15-17 | the differential times the slope is exactly 113 × (score − course rating), unrounded |
| GolfRounds.DifferentialSign | app/models/golf_round.rb:16 | for a positive slope the differential is 0 exactly when score equals course rating, and positive/negative exactly when the score is above/below it |
| GolfRounds.DifferentialIncreasesWithScore | app/models/golf_round.rb:16 | on one course (same rating and slope) a strictly higher score gives a strictly higher differential |
| GolfRounds.ValidHasDifferential | app/models/golf_round.rb:11-12 | a round passing all validations has score, rating and a slope that is positive (never zero), so its differential is defined |
| GolfRounds.ValidDifferentialBounds | app/models/golf_round.rb:7-16 | combining the score, rating and slope ranges, every valid round's differential lies in (−58.6, 280.5) |
| GolfRounds.ExampleDifferential | app/models/golf_round.rb:15-17 | score 90, rating 72.0, slope 130 gives 15.646… with no rounding |
| HandicapCalculator.Min | app/services/handicap_calculator_service.rb:28 | `min` is an element of the list no larger than any element |
| HandicapCalculator.Sort | app/services/handicap_calculator_service.rb:40 | `sort` yields an ascending permutation of its input |
| HandicapCalculator.First | app/services/handicap_calculator_service.rb:40 | `first(k)` is the prefix of length min(k, n) |
| HandicapCalculator.Sum | app/services/handicap_calculator_service.rb:40 | (definition) `Array#sum`, with 0 for the empty list |
| HandicapCalculator.RoundTenth | app/services/handicap_calculator_service.rb:19 | `round(1)` yields a multiple of 0.1 within 0.05 of the input, halves away from zero, keeping the sign |
| HandicapCalculator.RoundTenthUnique | app/services/handicap_calculator_service.rb:19 | any multiple of 0.1 meeting RoundTenth's distance rule is RoundTenth's value, so that contract fully determines the rounding |
| HandicapCalculator.RoundTenthIdempotent | app/services/handicap_calculator_service.rb:19 | rounding a rounded index changes nothing |
| HandicapCalculator.RuleFor | app/services/handicap_calculator_service.rb:25-62 | the `case` on the count: lowest-less-adjustment exactly for 1..5 differentials (adjustment in 0..2), otherwise an average of 2..8 lowest with 2k ≤ n whenever n ≥ 6 |
| HandicapCalculator.RuleCountMonotone | app/services/handicap_calculator_service.rb:38-61 | more rounds never average fewer differentials |
| HandicapCalculator.FromDifferentials | app/services/handicap_calculator_service.rb:24-63 | `calculate_handicap_from_differentials`: applies the count's rule; an empty list goes through the `else` branch and gives 0.0 |
| HandicapCalculator.Calculate | app/services/handicap_calculator_service.rb:8-20 | no rounds gives exactly 0.0; every result is a multiple of 0.1 |
| HandicapCalculator.Differentials | app/services/handicap_calculator_service.rb:13 | the i-th differential is the i-th round's score differential |
| HandicapCalculator.FewRoundsResult | app/services/handicap_calculator_service.rb:26-37 | with 1..5 differentials the result plus the adjustment (2.0 for 1..3, 1.0 for 4, 0.0 for 5) is an element, no larger than any element |
| HandicapCalculator.FewRoundsAtMostMin | app/services/handicap_calculator_service.rb:26-37 | with 1..5 differentials the result is at most the lowest differential |
| HandicapCalculator.AveragingTakesExactlyK | app/services/handicap_calculator_service.rb:38-61 | from 6 differentials on the rule averages, 2 ≤ k ≤ n, `first(k)` holds exactly k values and the result is their sum divided by k |
| HandicapCalculator.AveragingCounts | app/services/handicap_calculator_service.rb:38-61 | k is 2 for 6–8 rounds, 3 for 9–11, 4 for 12–14, 5 for 15–16, 6 for 17–18, 7 for 19 and 8 from 20 on |
| HandicapCalculator.AveragedAreLowest | app/services/handicap_calculator_service.rb:38-61 | the averaged values are a sub-multiset of the differentials and none exceeds a differential left out |
| HandicapCalculator.AverageBounds | app/services/handicap_calculator_service.rb:38-61 | an averaging result lies between the lowest and the k-th lowest differential |
| HandicapCalculator.SortedSixToEight | app/services/handicap_calculator_service.rb:38-43 | for 6..8 ascending differentials the result is the mean of the first two |
| HandicapCalculator.FromDifferentialsPermutationInvariant | app/services/handicap_calculator_service.rb:24-63 | the tier result depends only on the multiset of differentials |
| HandicapCalculator.DifferentialsPermutation | app/services/handicap_calculator_service.rb:13 | reordering the rounds reorders their differentials (same multiset) |
| HandicapCalculator.CalculatePermutationInvariant | app/services/handicap_calculator_service.rb:8-20 | the index does not depend on the order of the rounds |
| HandicapCalculator.ExampleThreeDifferentials | app/services/handicap_calculator_service.rb:29-31 | differentials 9.8, 10.2, 12.5 give index 7.8 |
| HandicapCalculator.ExampleSixDifferentials | app/services/handicap_calculator_service.rb:38-40 | six ascending differentials starting 5.0, 6.0 give index 5.5 |
| HandicapCalculations.CalculatedHandicapValid | app/models/handicap_calculation.rb:7-8 | (definition) `calculated_handicap` is present and 0.0 ≤ h ≤ 54.0 |
| HandicapCalculations.CalculationMethodValid | app/models/handicap_calculation.rb:9 | (definition) `calculation_method` is present and is "official" or "predicted" |
| HandicapCalculations.Valid | app/models/handicap_calculation.rb:7-9 | (definition) both attribute validations hold |
| HandicapCalculations.CastDecimal | db/schema.rb:51 | assigning to a `decimal(4,1)` column keeps presence and rounds the value to one decimal, halves away from zero |
| HandicapCalculations.CastDecimalIdempotent | db/schema.rb:40 | casting a cast value changes nothing |
| HandicapCalculations.CalculatedIndexSurvivesCast | db/schema.rb:40 | the calculator's index is unchanged when stored in `calculated_handicap` |
| HandicapCalculations.RoundedHandicapAccepted | app/models/handicap_calculation.rb:7-8 | a rounded value passes presence and 0.0 ≤ h ≤ 54.0 exactly when the unrounded value lies in (−0.05, 54.05) |
| HandicapCalculations.FewRoundsIndexAccepted | app/models/handicap_calculation.rb:7-8 | an index from 1..3 rounds is accepted exactly when the lowest differential lies in (1.95, 56.05) |
| HandicapCalculations.NoRoundsIndexAccepted | app/models/handicap_calculation.rb:7-8 | the 0.0 index for no rounds is accepted |
| HandicapCalculations.CalculationMethodExact | app/models/handicap_calculation.rb:9 | "official" and "predicted" are accepted; a differently capitalised, empty or missing method is refused |
| TrainingPlans.HandicapErrors | app/models/training_plan.rb:5-8 | a handicap attribute has no error exactly when present and within 0.0..54.0; a missing one gets blank and not-a-number errors, all on that attribute |
| TrainingPlans.TimelineErrors | app/models/training_plan.rb:9-10 | `timeline_months` has no error exactly when present with 0 < t ≤ 36; a missing one gets blank and not-a-number |
| TrainingPlans.CrossFieldErrors | app/models/training_plan.rb:15-19 | one "must be lower than current handicap" error on the target, exactly when both handicaps are present and target ≥ current |
| TrainingPlans.PlanErrors | app/models/training_plan.rb:5-11 | (definition) current-handicap, target-handicap and timeline errors, then the cross-field error, in the order Rails runs the validators |
| TrainingPlans.PlanValid | app/models/training_plan.rb:5-11 | (definition) both handicaps present in 0.0..54.0, timeline present in 1..36, target below current |
| TrainingPlans.NoErrorsIffValid | app/models/training_plan.rb:5-11 | the plan has no errors exactly when both handicaps are in range, the timeline is in 1..36 and the target is below the current handicap |
| TrainingPlans.CrossFieldNeedsBothHandicaps | app/models/training_plan.rb:16 | the cross-field error appears exactly when both handicaps are present and target ≥ current; a missing handicap gets its blank error instead |
| TrainingPlans.ValidPlanImproves | app/models/training_plan.rb:5-19 | a valid plan has current handicap > 0 and a positive handicap difference for the plan generator |
| TrainingPlans.CalculatedHandicapFitsPlan | app/models/training_plan.rb:5-8 | any handicap a stored calculation accepts raises no error as a plan's current or target handicap |
| TrainingPlans.SubmittedHandicapWindow | app/models/training_plan.rb:5-8 | a submitted handicap, cast to one decimal, passes the range check exactly when it lies in (-0.05, 54.05) |
| TrainingPlans.SubmittedJustAboveRangeRefused | app/models/training_plan.rb:5-6 | a submitted 54.06 is stored as 54.1 and gets exactly the "less than or equal to 54.0" error |
| TrainingPlans.CastCanRejectSmallImprovement | app/models/training_plan.rb:15-19 | a submitted 10.04 against 10.0 raises no cross-field error as raw values, but does once both are cast to one decimal |
| TrainingPlans.TrainingPlan.constructor | db/schema.rb:51-55 | a new plan holds both handicaps cast to one decimal, the timeline as given, and no errors |
| TrainingPlans.TrainingPlan.TargetMustBeLowerThanCurrent | app/models/training_plan.rb:15-19 | appends the cross-field error to `errors` and changes nothing else |
| TrainingPlans.TrainingPlan.Validate | app/models/training_plan.rb:5-11 | `errors` becomes all validation errors in Rails order; returns true exactly for a valid plan |
| Users.NormalizedEmail | app/models/user.rb:17-19 | a present email becomes a case-insensitively equal email without ASCII capitals; a missing or blank one is left as it was |
| Users.NormalizedEmailIdempotent | app/models/user.rb:18 | normalising twice is normalising once |
| Users.NormalizedEmailIgnoresCase | app/models/user.rb:17-19 | emails differing only in letter case normalise to the same email |
| Users.PasswordRequired | app/models/user.rb:21-23 | (definition) `password_digest` is nil, or a non-blank password is supplied |
| Users.EmailPresent | app/models/user.rb:18 | (definition) `email.present?`: the email is given and not blank |
| Users.PasswordLength | app/models/user.rb:11 | (definition) the length the length validator sees, with a nil password counting as length 0 |
| Users.UserErrors | app/models/user.rb:8-11 | blank-email error exactly when the email is not present; too-short error exactly when a password is required and shorter than 6 (a missing one counts as empty) |
| Users.UserValid | app/models/user.rb:8-11 | (definition) the email is present and, when a password is required, it has at least 6 characters |
| Users.NoErrorsIffValid | app/models/user.rb:8-11 | no errors exactly when the email is present and a required password has at least 6 characters |
| Users.PasswordRuleOnlyWhenRequired | app/models/user.rb:11-22 | without a digest, or when a non-blank new password is given, a short password is an error; with a digest and no or a blank new password, length is not checked |
| Users.NormalizedEmailKeepsErrors | app/models/user.rb:13-19 | lower-casing the email leaves the validation errors unchanged |
| Users.User.DowncaseEmail | app/models/user.rb:17-19 | the email field becomes its normalised form |
| Users.User.Validate | app/models/user.rb:8-11 | `errors` becomes the user's validation errors; returns true exactly for a valid user |
| Users.User.Save | app/models/user.rb:13 | saves exactly a valid user, lower-casing the email only then; a saved user is still valid afterwards |
| Text.Downcase | app/models/user.rb:18 | same length, each character lower-cased (ASCII) |
| Text.DowncaseIdempotent | app/models/user.rb:18 | downcasing twice is downcasing once |
| Text.DowncasePreservesPresence | app/models/user.rb:18 | downcasing keeps a present string present and leaves no ASCII capital |
| Text.Strip | app/services/claude_api_service.rb:167-171 | `strip` result has no whitespace or NUL at either end, is a contiguous piece of its input, and is empty exactly when the input is all whitespace/NUL |
| Text.StripIsTrimmedInfix | app/services/claude_api_service.rb:167-171 | stripping removes exactly the leading and trailing whitespace/NUL runs |
| Text.StripIdempotent | app/services/claude_api_service.rb:167-171 | stripping twice is stripping once |
| ClaudeApi.HandicapDifference | app/services/claude_api_service.rb:13 | the difference is positive exactly when the target is below the current handicap |
| ClaudeApi.SkipSpaces | app/services/claude_api_service.rb:175 | greedy `\s*`: skips a whitespace run and stops at a non-space or the end |
| ClaudeApi.MatchAt | app/services/claude_api_service.rb:175 | the pattern `/===\s*MARKER\s*===/i` tried at one position, with greedy `\s*`; a match ends at least 6 + the marker's length after its start, within the content |
| ClaudeApi.IsDelimiter | app/services/claude_api_service.rb:175 | (definition) the texts the pattern `/===\s*NAME\s*===/i` matches as a whole: `===`, whitespace, the name in any ASCII letter case, whitespace, `===` |
| ClaudeApi.MatchAtSound | app/services/claude_api_service.rb:175-177 | every match the scanner reports is a `===`, whitespace, case-insensitive marker, whitespace, `===` delimiter |
| ClaudeApi.MatchAtComplete | app/services/claude_api_service.rb:175-177 | every such delimiter is the match the scanner reports at its start (for a marker not starting with whitespace) |
| ClaudeApi.FirstMatch | app/services/claude_api_service.rb:176 | `match` finds the leftmost position where the pattern matches, or none when it matches nowhere |
| ClaudeApi.ExtractSection | app/services/claude_api_service.rb:174-190 | "" without a start match; otherwise a contiguous piece of the content beginning right after the first start match |
| ClaudeApi.ExtractSectionWithoutStart | app/services/claude_api_service.rb:176-177 | no start delimiter anywhere gives "" |
| ClaudeApi.ExtractSectionAfterStart | app/services/claude_api_service.rb:179-189 | the section begins right after the first start delimiter, and runs to the end of the content when the end marker is nil or does not occur |
| ClaudeApi.ExtractSectionBetween | app/services/claude_api_service.rb:181-189 | with both delimiters found the section is the text between them, and "" when the end delimiter begins before the start delimiter ends |
| ClaudeApi.SectionIsInfix | app/services/claude_api_service.rb:189 | the section is a contiguous piece of the content |
| ClaudeApi.Guide | app/services/claude_api_service.rb:167-171 | a guide is trimmed and is a contiguous piece of the content |
| ClaudeApi.ParseTrainingPlanResponse | app/services/claude_api_service.rb:158-172 | no reply text gives three empty guides; every guide has no leading or trailing whitespace and is a contiguous piece of the reply |
| ClaudeApi.ParseWellFormedReply | app/services/claude_api_service.rb:158-172 | when the first QUICK START GUIDE, COMPLETE PLAN and ADVANCED PLAN delimiters come in order, the guides are the stripped texts between them, the last running to the end |
| ClaudeApi.PlanMarkersAreMarkers | app/services/claude_api_service.rb:163-165 | the three section names start with a non-space, so the scanner agrees with the pattern on them |
| ClaudeApi.DelimiterIgnoresCaseAndSpacing | app/services/claude_api_service.rb:175-182 | `===  complete plan\t===` matches the COMPLETE PLAN marker |

## Left out

- Number representation: every number is a `real`.
  - `course_rating` is a `decimal` column, so each differential `(113.0 / slope) * (score - course_rating)` is a BigDecimal.
  - It follows that `min`, `sort`, `sum` (plain addition for BigDecimal elements), `/ k.0` and `round(1)` (ROUND_HALF_UP, exactly RoundTenth) all work on BigDecimals.
  - Binary representation error enters only through the Float quotient `113.0 / slope`, which the model takes as exact.
  - BigDecimal division by k may be truncated to a finite number of digits; the model divides exactly.
- GolfRounds.ScoreDifferential: slope 0 is excluded by the requires. Ruby's float division returns `Infinity` there, which the model does not represent. No valid round has slope 0 (ValidHasDifferential), so only unvalidated rounds are affected.
- HandicapCalculator.Calculate: requires every round to have a differential. With a missing attribute Ruby raises `NoMethodError`/`TypeError`, and this error path is not modelled.
- Numericality of raw input: Rails checks `only_integer` and "is a number" on the submitted text. The model receives attributes already typed as `int`/`real`, or missing.
- The `decimal(4,1)` columns: Rails rounds these values to one decimal when they are assigned, before validation.
  - A training plan's two handicaps are cast in the `TrainingPlan` constructor (CastDecimal), so its validations compare the rounded values.
  - The numericality validator also reads a decimal column's value at the column's scale. Since Rails 6.1 (the schema is `ActiveRecord::Schema[8.1]`, db/schema.rb:13) it rounds to that scale, as the cast does, so a submitted handicap is accepted exactly in (-0.05, 54.05) (SubmittedHandicapWindow). Rails 6.0 and earlier truncated to the scale instead; that behaviour is not modelled.
  - `GolfRound.course_rating` and `HandicapCalculation.calculated_handicap` are datatypes whose reals stand for the already-cast, one-decimal values.
  - For the calculator's index the cast changes nothing (CalculatedIndexSurvivesCast).
  - The column's precision of 4 digits, enforced by the database, is not modelled.
- Letter case and whitespace: these are ASCII only (`downcase`, the `/i` flag, `\s`, `blank?`, `strip`). Unicode case folding and Unicode spaces are not modelled.
- ClaudeApi.MatchAtComplete: stated only for marker names that do not begin with whitespace. Only for those does the greedy scanner need no backtracking; the three markers used qualify (PlanMarkersAreMarkers).
- Network and prompt code in `claude_api_service.rb`: `make_api_call`, HTTP, JSON decoding, timeouts, logging, prompts. The reply reaches the model as the optional text at `content[0].text`.
- Controllers, associations, the email format regular expression, the uniqueness check (a database query) and `has_secure_password`/bcrypt are not modelled. Only the case normalisation that the uniqueness rule relies on is modelled (NormalizedEmailIgnoresCase).
- HandicapCalculator.ExampleSixDifferentials: stated for any ascending six-differential list beginning 5.0, 6.0, rather than one literal list.
- Two behaviours are modelled as written though they are not standard World Handicap System practice:
  - 1 or 2 rounds use the same `min − 2.0` rule as 3 rounds.
  - 6 rounds get no extra −1.0 adjustment.
- With 1–3 rounds, a lowest differential just below 2.0 (in (1.95, 2.0)) rounds to 0.0 and is accepted by the calculation's range check. Only a lowest differential of at most 1.95 gives a negative, refused index (FewRoundsIndexAccepted).
