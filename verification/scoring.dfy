/** Scoring of the guessing game: how far a guess is from the actual
    amount, the accuracy band of that distance, and the overall score of
    a round. */
module Scoring {
  import opened Types
  import Amount

  /** `calculatePercentageDifference`: the distance of the guess from the
      actual amount as a percentage of the actual amount; against an
      actual amount of 0, an exact guess is 0 and anything else 100. */
  function PercentageDifference(guess: real, actual: real): (r: real)
    ensures r >= 0.0
    ensures r == 0.0 <==> guess == actual
    ensures actual == 0.0 && guess != 0.0 ==> r == 100.0
  {
    if actual == 0.0 then (if guess == 0.0 then 0.0 else 100.0)
    else Amount.Abs((guess - actual) / actual) * 100.0
  }

  /** Against a non-zero actual amount the percentage is the relative
      error: the percentage of the actual amount the guess misses by. */
  lemma PercentageIsRelativeError(guess: real, actual: real)
    requires actual != 0.0
    ensures PercentageDifference(guess, actual) * Amount.Abs(actual) == 100.0 * Amount.Abs(guess - actual)
  {
    var q := (guess - actual) / actual;
    assert q * actual == guess - actual;
    if q < 0.0 {
      if actual < 0.0 {
        assert Amount.Abs(q) * Amount.Abs(actual) == q * actual;
      } else {
        assert Amount.Abs(q) * Amount.Abs(actual) == -(q * actual);
      }
    } else {
      if actual < 0.0 {
        assert Amount.Abs(q) * Amount.Abs(actual) == -(q * actual);
      } else {
        assert Amount.Abs(q) * Amount.Abs(actual) == q * actual;
      }
    }
  }

  /** The ratio of the miss to the actual amount is unit-free. */
  lemma RatioScaleFree(guess: real, actual: real, k: real)
    requires k != 0.0 && actual != 0.0
    ensures (k * guess - k * actual) / (k * actual) == (guess - actual) / actual
  {
    var q := (guess - actual) / actual;
    assert q * actual == guess - actual;
    assert (k * actual) * q == k * guess - k * actual;
  }

  /** The percentage does not depend on the unit: scaling guess and actual
      amount by the same non-zero factor leaves it unchanged. */
  lemma PercentageScaleFree(guess: real, actual: real, k: real)
    requires k != 0.0
    ensures PercentageDifference(k * guess, k * actual) == PercentageDifference(guess, actual)
  {
    if actual != 0.0 {
      assert k * actual != 0.0;
      RatioScaleFree(guess, actual, k);
    } else {
      assert k * actual == 0.0;
      assert k * guess == 0.0 <==> guess == 0.0;
    }
  }

  /** The accuracy bands of `getAccuracyRating`, best first. */
  datatype Rating = Excellent | Good | Fair | Poor | VeryPoor

  /** The band a percentage falls in; each bound belongs to the better
      band. */
  function AccuracyRating(percentOff: real): Rating {
    if percentOff <= 5.0 then Excellent
    else if percentOff <= 15.0 then Good
    else if percentOff <= 30.0 then Fair
    else if percentOff <= 50.0 then Poor
    else VeryPoor
  }

  /** The position of a band, 0 for the best. */
  function Rank(r: Rating): (n: nat)
    ensures n < 5
  {
    match r
    case Excellent => 0
    case Good => 1
    case Fair => 2
    case Poor => 3
    case VeryPoor => 4
  }

  /** The upper bound of each band but the last. */
  function UpperBound(r: Rating): real
    requires r != VeryPoor
  {
    match r
    case Excellent => 5.0
    case Good => 15.0
    case Fair => 30.0
    case Poor => 50.0
  }

  /** The label `getAccuracyRating` returns for a band. */
  datatype Accuracy = Accuracy(rating: string, color: string, description: string)

  function AccuracyLabel(r: Rating): (a: Accuracy)
    ensures a.rating != ""
  {
    match r
    case Excellent => Accuracy("Excellent", "text-green-600", "🎯 Spot on!")
    case Good => Accuracy("Good", "text-green-500", "👍 Pretty close!")
    case Fair => Accuracy("Fair", "text-yellow-500", "🤔 Not bad")
    case Poor => Accuracy("Poor", "text-orange-500", "😬 Way off")
    case VeryPoor => Accuracy("Very Poor", "text-red-500", "🤯 Wildly off")
  }

  /** `getAccuracyRating`: the label of the band a percentage falls in;
      each label names exactly one band. */
  function GetAccuracyRating(percentOff: real): (a: Accuracy)
    ensures a.rating == "Excellent" <==> percentOff <= 5.0
    ensures a.rating == "Good" <==> 5.0 < percentOff <= 15.0
    ensures a.rating == "Fair" <==> 15.0 < percentOff <= 30.0
    ensures a.rating == "Poor" <==> 30.0 < percentOff <= 50.0
    ensures a.rating == "Very Poor" <==> 50.0 < percentOff
  {
    AccuracyLabel(AccuracyRating(percentOff))
  }

  /** A percentage is in a band exactly when it is above the bound of the
      band before and not above the band's own bound. */
  lemma RatingBands(percentOff: real, r: Rating)
    ensures AccuracyRating(percentOff) == r <==>
      && (r != VeryPoor ==> percentOff <= UpperBound(r))
      && (r != Excellent ==> percentOff > UpperBound(Previous(r)))
  {
  }

  /** The band before `r`. */
  function Previous(r: Rating): (p: Rating)
    requires r != Excellent
    ensures p != VeryPoor && Rank(p) + 1 == Rank(r)
  {
    match r
    case Good => Excellent
    case Fair => Good
    case Poor => Fair
    case VeryPoor => Poor
  }

  /** A larger percentage never earns a better band. */
  lemma RatingMonotone(p: real, q: real)
    requires p <= q
    ensures Rank(AccuracyRating(p)) <= Rank(AccuracyRating(q))
  {
  }

  /** `results.reduce((sum, r) => sum + r.percentOff, 0)`. */
  function SumPercentOff(results: seq<GameResult>): real {
    if results == [] then 0.0
    else SumPercentOff(results[..|results| - 1]) + results[|results| - 1].percentOff
  }

  /** `Math.max(0, Math.min(100, x))`. */
  function Clamp(x: real): (r: real)
    ensures 0.0 <= r <= 100.0
    ensures 0.0 <= x <= 100.0 ==> r == x
    ensures x < 0.0 ==> r == 0.0
    ensures x > 100.0 ==> r == 100.0
  {
    if x > 100.0 then 100.0 else if x < 0.0 then 0.0 else x
  }

  /** `calculateOverallScore`: 0 for no results, otherwise 100 minus the
      mean percentage off, kept within 0..100: a mean of 100 or more
      scores 0, whatever the individual percentages. */
  function OverallScore(results: seq<GameResult>): (r: real)
    ensures 0.0 <= r <= 100.0
    ensures results == [] ==> r == 0.0
    ensures |results| > 0 ==>
      var mean := SumPercentOff(results) / |results| as real;
      && (0.0 <= mean <= 100.0 ==> r == 100.0 - mean)
      && (mean >= 100.0 ==> r == 0.0)
      && (mean <= 0.0 ==> r == 100.0)
  {
    if |results| == 0 then 0.0
    else Clamp(100.0 - SumPercentOff(results) / |results| as real)
  }

  /** A sum of percentages each at least `lo`. */
  lemma {:induction false} SumAtLeast(results: seq<GameResult>, lo: real)
    requires forall i :: 0 <= i < |results| ==> lo <= results[i].percentOff
    ensures |results| as real * lo <= SumPercentOff(results)
  {
    if results != [] {
      var n := |results| - 1;
      SumAtLeast(results[..n], lo);
      assert |results| as real * lo == n as real * lo + lo;
    }
  }

  /** A sum of percentages each at most `hi`. */
  lemma {:induction false} SumAtMost(results: seq<GameResult>, hi: real)
    requires forall i :: 0 <= i < |results| ==> results[i].percentOff <= hi
    ensures SumPercentOff(results) <= |results| as real * hi
  {
    if results != [] {
      var n := |results| - 1;
      SumAtMost(results[..n], hi);
      assert |results| as real * hi == n as real * hi + hi;
    }
  }

  /** Term by term smaller percentages have a smaller sum. */
  lemma {:induction false} SumMonotone(a: seq<GameResult>, b: seq<GameResult>)
    requires |a| == |b|
    requires forall i :: 0 <= i < |a| ==> a[i].percentOff <= b[i].percentOff
    ensures SumPercentOff(a) <= SumPercentOff(b)
  {
    if a != [] {
      SumMonotone(a[..|a| - 1], b[..|b| - 1]);
    }
  }

  /** With every percentage between 0 and 100 no clamping happens: the
      score is 100 minus the mean percentage. */
  lemma ScoreIsComplementOfMean(results: seq<GameResult>)
    requires |results| > 0
    requires forall i :: 0 <= i < |results| ==> 0.0 <= results[i].percentOff <= 100.0
    ensures OverallScore(results) == 100.0 - SumPercentOff(results) / |results| as real
  {
    var n := |results| as real;
    SumAtLeast(results, 0.0);
    SumAtMost(results, 100.0);
    MeanWithin(SumPercentOff(results), n, 0.0, 100.0);
  }

  /** A total between `n * lo` and `n * hi` has its mean between `lo` and
      `hi`. */
  lemma MeanWithin(total: real, n: real, lo: real, hi: real)
    requires n > 0.0 && n * lo <= total <= n * hi
    ensures lo <= total / n <= hi
  {
    var mean := total / n;
    assert mean * n == total;
  }

  /** Perfect guesses score 100. */
  lemma PerfectScore(results: seq<GameResult>)
    requires |results| > 0
    requires forall i :: 0 <= i < |results| ==> results[i].percentOff == 0.0
    ensures OverallScore(results) == 100.0
  {
    SumAtMost(results, 0.0);
    SumAtLeast(results, 0.0);
  }

  /** Guesses that are all at least 100 % off score 0. */
  lemma HopelessScore(results: seq<GameResult>)
    requires |results| > 0
    requires forall i :: 0 <= i < |results| ==> results[i].percentOff >= 100.0
    ensures OverallScore(results) == 0.0
  {
    var n := |results| as real;
    SumAtLeast(results, 100.0);
    var total := SumPercentOff(results);
    MeanWithin(total, n, 100.0, total / n);
  }

  /** One exact guess and one guess 300 % off average to 150 % off, so
      the round scores 0: the mean is clamped, not each percentage. */
  lemma MixedScore(exact: GameResult, wild: GameResult)
    requires exact.percentOff == 0.0 && wild.percentOff == 300.0
    ensures OverallScore([exact, wild]) == 0.0
  {
    assert [exact, wild][..1] == [exact];
    assert [exact][..0] == [];
    assert SumPercentOff([exact]) == 0.0;
    assert SumPercentOff([exact, wild]) == 300.0;
  }

  /** Better guesses never lower the score: results that are term by term
      closer score at least as high. */
  lemma ScoreMonotone(a: seq<GameResult>, b: seq<GameResult>)
    requires |a| == |b| > 0
    requires forall i :: 0 <= i < |a| ==> a[i].percentOff <= b[i].percentOff
    ensures OverallScore(a) >= OverallScore(b)
  {
    SumMonotone(a, b);
    DivideMonotone(SumPercentOff(a), SumPercentOff(b), |a| as real);
  }

  /** Dividing by a positive count keeps the order. */
  lemma DivideMonotone(x: real, y: real, n: real)
    requires n > 0.0 && x <= y
    ensures x / n <= y / n
  {
    assert (x / n) * n == x && (y / n) * n == y;
  }
}
