/**
 * The handicap index computed from a player's rounds
 * (app/services/handicap_calculator_service.rb): one score differential per
 * round, a rule chosen by the number of rounds, and rounding to one decimal.
 */
module HandicapCalculator {
  import opened GolfRounds

  // ---------------------------------------------------------------------------
  // Ruby's Array#min, #sort, #first(k) and #sum, over reals

  predicate Sorted(s: seq<real>) {
    forall i, j :: 0 <= i < j < |s| ==> s[i] <= s[j]
  }

  /** `Array#min`: an element of `s` no larger than any other. */
  function Min(s: seq<real>): (m: real)
    requires |s| > 0
    ensures m in s
    ensures forall i :: 0 <= i < |s| ==> m <= s[i]
  {
    if |s| == 1 then s[0]
    else
      var rest := Min(s[1..]);
      if s[0] <= rest then s[0] else rest
  }

  /** Inserts `x` into the sorted `s` at its place. */
  function Insert(x: real, s: seq<real>): (r: seq<real>)
    requires Sorted(s)
    ensures Sorted(r)
    ensures multiset(r) == multiset(s) + multiset{x}
    ensures |r| == |s| + 1 && (r[0] == x || (|s| > 0 && r[0] == s[0]))
  {
    if |s| == 0 || x <= s[0] then [x] + s
    else
      var tail := Insert(x, s[1..]);
      assert s == [s[0]] + s[1..];
      [s[0]] + tail
  }

  /** `Array#sort` (ascending): a sorted permutation of `s`. */
  function Sort(s: seq<real>): (r: seq<real>)
    ensures Sorted(r)
    ensures multiset(r) == multiset(s)
  {
    if |s| == 0 then []
    else
      assert s == [s[0]] + s[1..];
      Insert(s[0], Sort(s[1..]))
  }

  /** `Array#first(k)`: the first `k` elements, or all of them when there are fewer. */
  function First(s: seq<real>, k: nat): (r: seq<real>)
    ensures |r| == if k <= |s| then k else |s|
    ensures r == s[..|r|]
  {
    if k <= |s| then s[..k] else s
  }

  /** `Array#sum`. */
  function Sum(s: seq<real>): real {
    if |s| == 0 then 0.0 else s[0] + Sum(s[1..])
  }

  // ---------------------------------------------------------------------------
  // round(1)

  /** `x.round(1)` on a BigDecimal (ROUND_HALF_UP): the nearest multiple of 0.1,
      halves rounded away from zero. */
  function RoundTenth(x: real): (r: real)
    ensures (r * 10.0).Floor as real == r * 10.0
    ensures x >= 0.0 ==> r >= 0.0 && -0.05 < r - x <= 0.05
    ensures x < 0.0 ==> r <= 0.0 && -0.05 <= r - x < 0.05
  {
    var tenths := if x >= 0.0 then (x * 10.0 + 0.5).Floor else -((-x * 10.0 + 0.5).Floor);
    assert x >= 0.0 ==> x * 10.0 - 0.5 < tenths as real <= x * 10.0 + 0.5;
    assert x < 0.0 ==> x * 10.0 - 0.5 <= tenths as real < x * 10.0 + 0.5;
    assert (tenths as real / 10.0) * 10.0 == tenths as real;
    tenths as real / 10.0
  }

  /** The properties stated by RoundTenth's contract determine its value: any
      multiple of 0.1 within the same half-open distance of `x` is RoundTenth(x). */
  lemma RoundTenthUnique(x: real, y: real)
    requires (y * 10.0).Floor as real == y * 10.0
    requires x >= 0.0 ==> -0.05 < y - x <= 0.05
    requires x < 0.0 ==> -0.05 <= y - x < 0.05
    ensures y == RoundTenth(x)
  {
    var r := RoundTenth(x);
    var m, n := (y * 10.0).Floor, (r * 10.0).Floor;
    assert -1 < m - n < 1;
  }

  /** Rounding an already rounded value changes nothing. */
  lemma RoundTenthIdempotent(x: real)
    ensures RoundTenth(RoundTenth(x)) == RoundTenth(x)
  {
    var r := RoundTenth(x);
    RoundTenthUnique(r, r);
  }

  // ---------------------------------------------------------------------------
  // The tier table of calculate_handicap_from_differentials

  /** Either the lowest differential minus an adjustment, or the average of the
      `count` lowest differentials. */
  datatype Rule = LowestMinus(adjustment: real) | AverageOfLowest(count: nat)

  /** The `case differentials.length` of the source, branch by branch; its `else`
      branch also receives a count of zero. The lowest-minus rules serve 1 to 5
      rounds and average at least two and at most half of the differentials. */
  function RuleFor(n: nat): (rule: Rule)
    ensures rule.LowestMinus? <==> 1 <= n <= 5
    ensures rule.LowestMinus? ==> 0.0 <= rule.adjustment <= 2.0
    ensures rule.AverageOfLowest? ==> 2 <= rule.count <= 8 && (n >= 6 ==> 2 * rule.count <= n)
  {
    if 1 <= n <= 2 then LowestMinus(2.0)
    else if n == 3 then LowestMinus(2.0)
    else if n == 4 then LowestMinus(1.0)
    else if n == 5 then LowestMinus(0.0)
    else if n == 6 then AverageOfLowest(2)
    else if 7 <= n <= 8 then AverageOfLowest(2)
    else if 9 <= n <= 11 then AverageOfLowest(3)
    else if 12 <= n <= 14 then AverageOfLowest(4)
    else if 15 <= n <= 16 then AverageOfLowest(5)
    else if 17 <= n <= 18 then AverageOfLowest(6)
    else if n == 19 then AverageOfLowest(7)
    else AverageOfLowest(8)
  }

  /** More rounds never average fewer differentials. */
  lemma RuleCountMonotone(m: nat, n: nat)
    requires 6 <= m <= n
    ensures RuleFor(m).count <= RuleFor(n).count
  {
  }

  /** `calculate_handicap_from_differentials`, before rounding. */
  function FromDifferentials(ds: seq<real>): (h: real)
    ensures |ds| == 0 ==> h == 0.0
  {
    match RuleFor(|ds|)
    case LowestMinus(adjustment) => Min(ds) - adjustment
    case AverageOfLowest(k) => Sum(First(Sort(ds), k)) / k as real
  }

  /** `calculate`: 0.0 for no rounds, else the rounded rule result over the
      rounds' differentials. The result is always a multiple of 0.1. */
  function Calculate(rounds: seq<GolfRound>): (index: real)
    requires AllHaveDifferentials(rounds)
    ensures |rounds| == 0 ==> index == 0.0
    ensures (index * 10.0).Floor as real == index * 10.0
  {
    if |rounds| == 0 then 0.0
    else RoundTenth(FromDifferentials(Differentials(rounds)))
  }

  /** `@golf_rounds.map(&:score_differential)`. */
  function Differentials(rounds: seq<GolfRound>): (ds: seq<real>)
    requires AllHaveDifferentials(rounds)
    ensures |ds| == |rounds|
    ensures forall i :: 0 <= i < |rounds| ==> ds[i] == ScoreDifferential(rounds[i])
  {
    if |rounds| == 0 then []
    else
      assert forall round :: round in rounds[1..] ==> round in rounds;
      [ScoreDifferential(rounds[0])] + Differentials(rounds[1..])
  }

  // ---------------------------------------------------------------------------
  // Properties of the sort and the minimum

  /** Removing the element at `j` removes one occurrence of it from the multiset. */
  lemma MultisetRemove<T>(s: seq<T>, j: nat)
    requires j < |s|
    ensures multiset(s[..j] + s[j + 1..]) == multiset(s) - multiset{s[j]}
  {
    assert s == s[..j] + [s[j]] + s[j + 1..];
  }

  /** Dropping the head removes one occurrence of it from the multiset. */
  lemma MultisetTail<T>(s: seq<T>)
    requires |s| > 0
    ensures multiset(s[1..]) == multiset(s) - multiset{s[0]}
  {
    assert s == [s[0]] + s[1..];
  }

  /** Two sorted sequences holding the same multiset are equal. */
  lemma {:induction false} SortedUnique(a: seq<real>, b: seq<real>)
    requires Sorted(a) && Sorted(b) && multiset(a) == multiset(b)
    ensures a == b
    decreases |a|
  {
    assert |a| == |multiset(a)| == |multiset(b)| == |b|;
    if |a| > 0 {
      assert a[0] in multiset(a);
      var i :| 0 <= i < |b| && b[i] == a[0];
      assert b[0] in multiset(b);
      var j :| 0 <= j < |a| && a[j] == b[0];
      assert b[0] <= b[i] && a[0] <= a[j];
      MultisetTail(a);
      MultisetTail(b);
      SortedUnique(a[1..], b[1..]);
      assert a == [a[0]] + a[1..] && b == [b[0]] + b[1..];
    }
  }

  /** Sorting depends only on the multiset of the input. */
  lemma SortPermutationInvariant(a: seq<real>, b: seq<real>)
    requires multiset(a) == multiset(b)
    ensures Sort(a) == Sort(b)
  {
    SortedUnique(Sort(a), Sort(b));
  }

  /** The minimum is the first element of the sorted sequence. */
  lemma MinIsFirstOfSort(s: seq<real>)
    requires |s| > 0
    ensures |Sort(s)| == |s| && Sort(s)[0] == Min(s)
  {
    var t := Sort(s);
    assert |t| == |multiset(t)| == |s|;
    assert Min(s) in multiset(t) && t[0] in multiset(s);
  }

  // ---------------------------------------------------------------------------
  // Properties of the rule result

  /** The result depends only on the multiset of differentials, never on their order. */
  lemma FromDifferentialsPermutationInvariant(a: seq<real>, b: seq<real>)
    requires multiset(a) == multiset(b)
    ensures FromDifferentials(a) == FromDifferentials(b)
  {
    assert |a| == |multiset(a)| == |multiset(b)| == |b|;
    match RuleFor(|a|)
    case LowestMinus(_) =>
      MinIsFirstOfSort(a);
      MinIsFirstOfSort(b);
      SortPermutationInvariant(a, b);
      assert Min(a) == Min(b);
    case AverageOfLowest(_) =>
      SortPermutationInvariant(a, b);
  }

  /** The first round contributes its differential; the others contribute theirs. */
  lemma DifferentialsCons(rounds: seq<GolfRound>)
    requires AllHaveDifferentials(rounds) && |rounds| > 0
    ensures AllHaveDifferentials(rounds[1..])
    ensures multiset(Differentials(rounds)) ==
      multiset{ScoreDifferential(rounds[0])} + multiset(Differentials(rounds[1..]))
  {
    assert forall round :: round in rounds[1..] ==> round in rounds;
    assert Differentials(rounds) == [ScoreDifferential(rounds[0])] + Differentials(rounds[1..]);
  }

  /** Every round of a sub-multiset of rounds that all have differentials has one. */
  lemma SubMultisetHasDifferentials(a: seq<GolfRound>, b: seq<GolfRound>)
    requires AllHaveDifferentials(b) && multiset(a) <= multiset(b)
    ensures AllHaveDifferentials(a)
  {
    forall round | round in a ensures HasDifferential(round) {
      assert round in multiset(a);
    }
  }

  /** Removing an element behind the head keeps the head in front. */
  lemma RemoveBehindHead<T>(b: seq<T>, j: nat)
    requires 0 < j < |b|
    ensures b[..j] + b[j + 1..] == [b[0]] + (b[1..][..j - 1] + b[1..][j..])
    ensures b[1..][j - 1] == b[j]
  {
  }

  /** Removing the round at `j` removes one occurrence of its differential. */
  lemma {:induction false} DifferentialsRemove(b: seq<GolfRound>, j: nat)
    requires AllHaveDifferentials(b)
    requires j < |b|
    ensures AllHaveDifferentials(b[..j] + b[j + 1..])
    ensures multiset(Differentials(b)) ==
      multiset(Differentials(b[..j] + b[j + 1..])) + multiset{ScoreDifferential(b[j])}
    decreases |b|, 1
  {
    var rest := b[..j] + b[j + 1..];
    MultisetRemove(b, j);
    SubMultisetHasDifferentials(rest, b);
    DifferentialsCons(b);
    if j == 0 {
      assert rest == b[1..];
    } else {
      DifferentialsRemoveBehindHead(b, j);
    }
  }

  /** The step of DifferentialsRemove for a round behind the first one. */
  lemma {:induction false} DifferentialsRemoveBehindHead(b: seq<GolfRound>, j: nat)
    requires AllHaveDifferentials(b)
    requires 0 < j < |b|
    requires AllHaveDifferentials(b[..j] + b[j + 1..])
    requires AllHaveDifferentials(b[1..])
    ensures multiset(Differentials(b)) ==
      multiset(Differentials(b[..j] + b[j + 1..])) + multiset{ScoreDifferential(b[j])}
    decreases |b|, 0
  {
    var rest := b[..j] + b[j + 1..];
    var tail := b[1..];
    var shorter := tail[..j - 1] + tail[j..];
    var first, removed := multiset{ScoreDifferential(b[0])}, multiset{ScoreDifferential(b[j])};
    var whole, ofTail := multiset(Differentials(b)), multiset(Differentials(tail));
    var ofShorter, ofRest := multiset(Differentials(shorter)), multiset(Differentials(rest));
    assert whole == first + ofTail by {
      DifferentialsCons(b);
    }
    assert ofTail == ofShorter + removed by {
      RemoveBehindHead(b, j);
      DifferentialsRemove(tail, j - 1);
    }
    assert ofRest == first + ofShorter by {
      RemoveBehindHead(b, j);
      assert rest[0] == b[0] && rest[1..] == shorter;
      DifferentialsCons(rest);
    }
  }

  /** Reordering the rounds reorders their differentials. */
  lemma {:induction false} DifferentialsPermutation(a: seq<GolfRound>, b: seq<GolfRound>)
    requires AllHaveDifferentials(a)
    requires AllHaveDifferentials(b)
    requires multiset(a) == multiset(b)
    ensures multiset(Differentials(a)) == multiset(Differentials(b))
    decreases |a|
  {
    assert |a| == |multiset(a)| == |multiset(b)| == |b|;
    if |a| > 0 {
      var x := a[0];
      assert x in multiset(a);
      var j :| 0 <= j < |b| && b[j] == x;
      MultisetTail(a);
      MultisetRemove(b, j);
      DifferentialsRemove(b, j);
      DifferentialsCons(a);
      DifferentialsPermutation(a[1..], b[..j] + b[j + 1..]);
    }
  }

  /** The index does not depend on the order in which the rounds are given. */
  lemma CalculatePermutationInvariant(a: seq<GolfRound>, b: seq<GolfRound>)
    requires AllHaveDifferentials(a)
    requires AllHaveDifferentials(b)
    requires multiset(a) == multiset(b)
    ensures Calculate(a) == Calculate(b)
  {
    assert |a| == |multiset(a)| == |multiset(b)| == |b|;
    DifferentialsPermutation(a, b);
    FromDifferentialsPermutationInvariant(Differentials(a), Differentials(b));
  }

  /** With 1 to 5 differentials the result is the lowest one less 2.0 (1 to 3
      differentials), 1.0 (four) or nothing (five): no larger than any
      differential, and one of them once the adjustment is added back. */
  lemma FewRoundsResult(ds: seq<real>)
    requires 1 <= |ds| <= 5
    ensures var adjustment := if |ds| <= 3 then 2.0 else if |ds| == 4 then 1.0 else 0.0;
      && FromDifferentials(ds) + adjustment in ds
      && forall i :: 0 <= i < |ds| ==> FromDifferentials(ds) <= ds[i] - adjustment
  {
  }

  /** In every averaging tier with at least six differentials, `first(k)` takes
      exactly k of them, so the divisor is their count. */
  lemma AveragingTakesExactlyK(ds: seq<real>)
    requires |ds| >= 6
    ensures RuleFor(|ds|).AverageOfLowest?
    ensures var k := RuleFor(|ds|).count;
      && 2 <= k <= |ds|
      && |First(Sort(ds), k)| == k
      && FromDifferentials(ds) == Sum(First(Sort(ds), k)) / k as real
  {
    assert |Sort(ds)| == |multiset(Sort(ds))| == |ds|;
  }

  /** The first k elements of a sorted sequence are its k lowest: a sub-multiset,
      none of them larger than any element left out. */
  lemma SortedPrefixIsLowest(t: seq<real>, k: nat)
    requires Sorted(t) && k <= |t|
    ensures multiset(t[..k]) <= multiset(t)
    ensures forall x, y :: x in multiset(t[..k]) && y in multiset(t) - multiset(t[..k]) ==> x <= y
  {
    var chosen, left := t[..k], t[k..];
    assert t == chosen + left;
    assert multiset(t) == multiset(chosen) + multiset(left);
    forall x, y | x in multiset(chosen) && y in multiset(t) - multiset(chosen)
      ensures x <= y
    {
      assert y in multiset(left);
      var i :| 0 <= i < k && chosen[i] == x;
      var j :| 0 <= j < |left| && left[j] == y;
      assert t[i] == x && t[k + j] == y;
    }
  }

  /** The averaging tiers, band by band: how many of the lowest differentials
      are averaged for a given number of rounds. */
  lemma AveragingCounts(n: nat)
    requires n >= 6
    ensures 6 <= n <= 8 ==> RuleFor(n) == AverageOfLowest(2)
    ensures 9 <= n <= 11 ==> RuleFor(n) == AverageOfLowest(3)
    ensures 12 <= n <= 14 ==> RuleFor(n) == AverageOfLowest(4)
    ensures 15 <= n <= 16 ==> RuleFor(n) == AverageOfLowest(5)
    ensures 17 <= n <= 18 ==> RuleFor(n) == AverageOfLowest(6)
    ensures n == 19 ==> RuleFor(n) == AverageOfLowest(7)
    ensures n >= 20 ==> RuleFor(n) == AverageOfLowest(8)
  {
  }

  /** The k values averaged are the k lowest differentials: a sub-multiset of
      them, none larger than any differential left out. */
  lemma AveragedAreLowest(ds: seq<real>)
    requires |ds| >= 6
    ensures var chosen := First(Sort(ds), RuleFor(|ds|).count);
      && multiset(chosen) <= multiset(ds)
      && forall x, y :: x in multiset(chosen) && y in multiset(ds) - multiset(chosen) ==> x <= y
  {
    var k := RuleFor(|ds|).count;
    var t := Sort(ds);
    AveragingTakesExactlyK(ds);
    assert First(t, k) == t[..k];
    SortedPrefixIsLowest(t, k);
  }

  /** A sum of values between `lo` and `hi` lies between |s|·lo and |s|·hi. */
  lemma {:induction false} SumBetween(s: seq<real>, lo: real, hi: real)
    requires forall i :: 0 <= i < |s| ==> lo <= s[i] <= hi
    ensures |s| as real * lo <= Sum(s) <= |s| as real * hi
  {
    if |s| > 0 {
      SumBetween(s[1..], lo, hi);
      assert |s| as real * lo == (|s| - 1) as real * lo + lo;
      assert |s| as real * hi == (|s| - 1) as real * hi + hi;
    }
  }

  /** The average of the first k elements of a sorted sequence lies between its
      first and its k-th element. */
  lemma SortedPrefixAverageBounds(t: seq<real>, k: nat)
    requires Sorted(t) && 1 <= k <= |t|
    ensures t[0] <= Sum(t[..k]) / k as real <= t[k - 1]
  {
    var chosen := t[..k];
    assert forall i :: 0 <= i < k ==> t[0] <= chosen[i] <= t[k - 1];
    SumBetween(chosen, t[0], t[k - 1]);
    AverageBetween(Sum(chosen), k as real, t[0], t[k - 1]);
  }

  /** A total between k·lo and k·hi, divided by a positive k, lies between lo and hi. */
  lemma AverageBetween(total: real, k: real, lo: real, hi: real)
    requires k > 0.0 && k * lo <= total <= k * hi
    ensures lo <= total / k <= hi
  {
    assert total / k - lo == (total - k * lo) / k;
    assert hi - total / k == (k * hi - total) / k;
  }

  /** In an averaging tier the result lies between the lowest differential and
      the k-th lowest. */
  lemma AverageBounds(ds: seq<real>)
    requires |ds| >= 6
    ensures var k := RuleFor(|ds|).count;
      && k <= |Sort(ds)|
      && Min(ds) <= FromDifferentials(ds) <= Sort(ds)[k - 1]
  {
    var k := RuleFor(|ds|).count;
    var t := Sort(ds);
    AveragingTakesExactlyK(ds);
    MinIsFirstOfSort(ds);
    assert First(t, k) == t[..k];
    SortedPrefixAverageBounds(t, k);
  }

  /** With 1 to 5 differentials the result is at most the lowest one. */
  lemma FewRoundsAtMostMin(ds: seq<real>)
    requires 1 <= |ds| <= 5
    ensures FromDifferentials(ds) <= Min(ds)
  {
  }

  // ---------------------------------------------------------------------------
  // Worked examples

  /** Three rounds with differentials 9.8, 10.2 and 12.5 give 9.8 − 2.0 = 7.8. */
  lemma ExampleThreeDifferentials()
    ensures RoundTenth(FromDifferentials([9.8, 10.2, 12.5])) == 7.8
  {
    var ds := [9.8, 10.2, 12.5];
    assert Min(ds[1..]) == 10.2;
    assert Min(ds) == 9.8;
    RoundTenthUnique(7.8, 7.8);
  }

  /** Already sorted, six to eight differentials average their first two. */
  lemma SortedSixToEight(ds: seq<real>)
    requires Sorted(ds) && 6 <= |ds| <= 8
    ensures FromDifferentials(ds) == (ds[0] + ds[1]) / 2.0
  {
    var t := Sort(ds);
    SortedUnique(t, ds);
    assert RuleFor(|ds|) == AverageOfLowest(2);
    assert First(t, 2) == [ds[0], ds[1]];
    var pair := [ds[0], ds[1]];
    assert pair[1..] == [ds[1]] && [ds[1]][1..] == [];
    assert Sum([ds[1]]) == ds[1];
    assert Sum(pair) == ds[0] + ds[1];
  }

  /** Six differentials in ascending order starting 5.0, 6.0 (such as 5.0, 6.0,
      7.0, 8.0, 9.0, 10.0) average their best two: (5.0 + 6.0) / 2 = 5.5. */
  lemma ExampleSixDifferentials(ds: seq<real>)
    requires Sorted(ds) && |ds| == 6 && ds[0] == 5.0 && ds[1] == 6.0
    ensures RoundTenth(FromDifferentials(ds)) == 5.5
  {
    var h := FromDifferentials(ds);
    assert h == 5.5 by {
      SortedSixToEight(ds);
    }
    RoundTenthUnique(h, 5.5);
  }
}
