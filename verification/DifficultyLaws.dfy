/** What the retarget depends on, and the range of its raw value. */
module DifficultyLaws {
  import opened Words
  import opened Doubles
  import opened Difficulty

  /** With fewer than two entries on either side the difficulty is one. */
  lemma BootstrapValue(timestamps: seq<u64>, cumulative: seq<u64>, target: u64)
    requires target >= 1 && (|timestamps| <= 1 || |cumulative| <= 1)
    ensures NextDifficulty(timestamps, cumulative, target) == 1
  {
  }

  // ----- only the increments of the window matter -----

  /** The j-th most recent increment, as the program subtracts. */
  function Increment(s: seq<u64>, j: nat): nat
    requires j + 1 < |s|
  {
    Minus(s[|s| - 1 - j], s[|s| - 2 - j])
  }

  predicate SameIncrements(a: seq<u64>, b: seq<u64>, n: nat) {
    n < |a| && n < |b| && forall j :: 0 <= j < n ==> Increment(a, j) == Increment(b, j)
  }

  lemma MinusChain(a: int, b: int, c: int)
    ensures Minus(a, c) == U64(Minus(a, b) + Minus(b, c))
  {
    var k := U64Split(a - b);
    var j := U64Split(b - c);
    U64Congruent(a - c, Minus(a, b) + Minus(b, c), k + j);
  }

  lemma {:induction false} SameSpan(a: seq<u64>, b: seq<u64>, n: nat, k: nat)
    requires SameIncrements(a, b, n) && k <= n
    ensures Minus(a[|a| - 1], a[|a| - 1 - k]) == Minus(b[|b| - 1], b[|b| - 1 - k])
  {
    if k > 0 {
      SameSpan(a, b, n, k - 1);
      assert Increment(a, k - 1) == Increment(b, k - 1);
      MinusChain(a[|a| - 1], a[|a| - k], a[|a| - 1 - k]);
      MinusChain(b[|b| - 1], b[|b| - k], b[|b| - 1 - k]);
    }
  }

  lemma {:induction false} SameWeightedSum(a: seq<u64>, b: seq<u64>, n: nat, i: nat, target: u64)
    requires SameIncrements(a, b, n) && i <= n
    ensures WeightedSum(a, |a| - n - 1, i, target) == WeightedSum(b, |b| - n - 1, i, target)
  {
    hide SolveTime, Times, U64, Minus;
    if i > 0 {
      SameWeightedSum(a, b, n, i - 1, target);
      assert Increment(a, n - i) == Increment(b, n - i);
    }
  }

  lemma SameWork(timestamps: seq<u64>, cumulative: seq<u64>, timestamps': seq<u64>, cumulative': seq<u64>)
    requires |timestamps| == |cumulative| >= 2 && |timestamps'| == |cumulative'| >= 2
    requires WindowLength(|timestamps|) == WindowLength(|timestamps'|)
    requires SameIncrements(cumulative, cumulative', WindowLength(|timestamps|))
    ensures WindowDifficulty(timestamps, cumulative) == WindowDifficulty(timestamps', cumulative')
    ensures PreviousDifficulty(timestamps, cumulative) == PreviousDifficulty(timestamps', cumulative')
  {
    var n := WindowLength(|timestamps|);
    SameSpan(cumulative, cumulative', n, n);
    SameSpan(cumulative, cumulative', n, 1);
  }

  lemma SameTiming(timestamps: seq<u64>, timestamps': seq<u64>, target: u64, raw: u64)
    requires |timestamps| >= 2 && |timestamps'| >= 2
    requires |timestamps| == |timestamps'| || (|timestamps| >= 101 && |timestamps'| >= 101)
    requires SameIncrements(timestamps, timestamps', WindowLength(|timestamps|))
    ensures WindowWeight(timestamps, target) == WindowWeight(timestamps', target)
    ensures EpochAnchor(timestamps, target, raw) == EpochAnchor(timestamps', target, raw)
  {
    hide WeightedSum, Correct, U64, Minus, SameIncrements;
    var n := WindowLength(|timestamps|);
    SameWeightedSum(timestamps, timestamps', n, n, target);
    SameSpan(timestamps, timestamps', n, n);
  }

  /** The retarget is a function of the last (at most) 100 increments of the timestamps and of
      the cumulative difficulties, with subtraction modulo 2^64; the rest of the two vectors
      and their absolute values are irrelevant. */
  lemma DependsOnlyOnIncrements(timestamps: seq<u64>, cumulative: seq<u64>,
                                timestamps': seq<u64>, cumulative': seq<u64>, target: u64)
    requires |timestamps| == |cumulative| >= 1 && |timestamps'| == |cumulative'| >= 1
    requires |timestamps| == |timestamps'| || (|timestamps| >= 101 && |timestamps'| >= 101)
    requires target >= 1
    requires SameIncrements(timestamps, timestamps', WindowLength(|timestamps|))
    requires SameIncrements(cumulative, cumulative', WindowLength(|timestamps|))
    ensures NextDifficulty(timestamps, cumulative, target) == NextDifficulty(timestamps', cumulative', target)
  {
    if |timestamps| >= 2 {
      SameWork(timestamps, cumulative, timestamps', cumulative');
      var n := WindowLength(|timestamps|);
      SameTiming(timestamps, timestamps', target,
                 Scale(WindowDifficulty(timestamps, cumulative), WindowWeight(timestamps, target), n, target));
    }
  }

  /** Window locality: only the last 101 entries count. */
  lemma WindowLocality(timestamps: seq<u64>, cumulative: seq<u64>, target: u64)
    requires |timestamps| == |cumulative| >= 101 && target >= 1
    ensures NextDifficulty(timestamps, cumulative, target)
         == NextDifficulty(timestamps[|timestamps| - 101..], cumulative[|cumulative| - 101..], target)
  {
    DependsOnlyOnIncrements(timestamps, cumulative, timestamps[|timestamps| - 101..],
                            cumulative[|cumulative| - 101..], target);
  }

  /** Every entry moved by the same amount, wrapping. */
  function Shifted(s: seq<u64>, offset: int): (r: seq<u64>)
    ensures |r| == |s|
  {
    seq(|s|, i requires 0 <= i < |s| => U64(s[i] + offset))
  }

  lemma ShiftKeepsIncrements(s: seq<u64>, offset: int, n: nat)
    requires n < |s|
    ensures SameIncrements(s, Shifted(s, offset), n)
  {
    forall j | 0 <= j < n ensures Increment(s, j) == Increment(Shifted(s, offset), j) {
      U64SubBoth(s[|s| - 1 - j] + offset, s[|s| - 2 - j] + offset);
    }
  }

  /** Neither the zero of the clock nor the zero of the accumulated work matters, even across
      the wrap at 2^64. */
  lemma ShiftInvariance(timestamps: seq<u64>, cumulative: seq<u64>, target: u64, clock: int, work: int)
    requires |timestamps| == |cumulative| >= 1 && target >= 1
    ensures NextDifficulty(timestamps, cumulative, target)
         == NextDifficulty(Shifted(timestamps, clock), Shifted(cumulative, work), target)
  {
    var n := WindowLength(|timestamps|);
    ShiftKeepsIncrements(timestamps, clock, n);
    ShiftKeepsIncrements(cumulative, work, n);
    DependsOnlyOnIncrements(timestamps, cumulative, Shifted(timestamps, clock), Shifted(cumulative, work), target);
  }

  // ----- bounds on the raw value -----

  lemma TriangleStep(i: nat)
    requires i >= 1
    ensures Triangle(i) == Triangle(i - 1) + i
  {
    assert i * (i + 1) == (i - 1) * i + 2 * i;
  }

  lemma TriangleUpTo100(i: nat)
    requires i <= 100
    ensures Triangle(i) <= 5050
  {
    assert i * (i + 1) <= 100 * 101;
  }

  /** Every recent increment is at least `least` and reads as a positive signed number. */
  predicate SpacedAtLeast(timestamps: seq<u64>, n: nat, least: nat) {
    n < |timestamps| && forall j :: 0 <= j < n ==> least <= Increment(timestamps, j) < TWO63
  }

  /** No wrap in the weighted sum for this block time. */
  predicate ModestTarget(target: u64) {
    target >= 1 && 30300 * target < TWO64
  }

  /** Once an increment reads as a positive number only the upper clamp of the solve time acts. */
  lemma SolveTimeOfPositive(elapsed: u64, target: u64)
    requires ModestTarget(target) && 1 <= elapsed < TWO63
    ensures SolveTime(elapsed, target) == if elapsed > 6 * target then 6 * target else elapsed
  {
  }

  lemma SolveTimeRange(elapsed: u64, target: u64)
    requires ModestTarget(target)
    ensures 1 <= SolveTime(elapsed, target) <= 6 * target
  {
  }

  /** The solve time in seconds: at least one, at most six targets; a step back counts as one. */
  lemma SolveTimeExactly(elapsed: u64, target: u64)
    requires ModestTarget(target)
    ensures elapsed == 0 || elapsed >= 0x8000_0000_0000_0000 ==> SolveTime(elapsed, target) == 1
    ensures 1 <= elapsed <= 6 * target ==> SolveTime(elapsed, target) == elapsed
    ensures 6 * target < elapsed < 0x8000_0000_0000_0000 ==> SolveTime(elapsed, target) == 6 * target
  {
  }

  /** The timestamps from `start` on, n of them, added up. */
  function SumFrom(timestamps: seq<u64>, start: nat, n: nat): nat
    requires start + n <= |timestamps|
  {
    if n == 0 then 0 else SumFrom(timestamps, start, n - 1) + timestamps[start + n - 1]
  }

  /** Summation by parts: where no solve time is clamped, the weighted sum is n times the last timestamp
      less the n timestamps before it. */
  lemma {:induction false} WeightedSumByParts(timestamps: seq<u64>, start: nat, n: nat, target: u64)
    requires start + n < |timestamps| && n <= 100 && ModestTarget(target)
    requires forall i :: start < i <= start + n ==> timestamps[i - 1] < timestamps[i] <= timestamps[i - 1] + 6 * target
    ensures WeightedSum(timestamps, start, n, target) + SumFrom(timestamps, start, n) == n * timestamps[start + n]
    ensures WeightedSum(timestamps, start, n, target) <= 6 * target * Triangle(n)
  {
    hide SolveTime, Times, U64, Triangle;
    if n == 0 {
      NoTriangle();
    } else {
      var t, s: nat := timestamps[start + n] as nat, timestamps[start + n - 1];
      var solve := t - s;
      WeightedSumByParts(timestamps, start, n - 1, target);
      SolveTimeExactly(solve, target);
      U64Small(solve);
      AccumulatePart(WeightedSum(timestamps, start, n - 1, target), solve, n, target);
      PartsArithmetic(n, t, s);
    }
  }

  lemma NoTriangle()
    ensures Triangle(0) == 0
  {
  }

  lemma PartsArithmetic(n: nat, t: nat, s: nat)
    requires n >= 1
    ensures (t - s) * n + (n - 1) * s + s == n * t
  {
    MulDistributes(n, t - s, s);
    MulCommutes(n, t - s);
    SuccessorTimes(n - 1, s);
  }

  lemma AccumulatePart(sum: nat, solve: nat, n: nat, target: u64)
    requires 1 <= n <= 100 && ModestTarget(target) && solve <= 6 * target && sum <= 6 * target * Triangle(n - 1)
    ensures U64(sum + Times(solve, n)) == sum + solve * n <= 6 * target * Triangle(n)
  {
    hide Triangle, U64;
    TriangleStep(n);
    TriangleUpTo100(n);
    TermRange(solve, n, 0, 6 * target);
    MulDistributes(6 * target, Triangle(n - 1), n);
    MulAtMost(6 * target, Triangle(n), 5050);
    MulCommutes(6 * target, 5050);
    U64Small(sum + solve * n);
  }

  lemma TermRange(solve: int, i: nat, least: nat, most: nat)
    requires i <= 100 && least <= solve <= most && 100 * most < TWO64
    ensures Times(solve, i) == solve * i && least * i <= solve * i <= most * i
  {
    hide U64;
    MulAtMost(i, least, solve);
    MulAtMost(i, solve, most);
    MulAtMost(most, i, 100);
    MulCommutes(i, least);
    MulCommutes(i, solve);
    MulCommutes(i, most);
    U64Small(solve * i);
  }

  lemma SumFits(sum: nat, term: nat, low: nat, lowTerm: nat, high: nat, highTerm: nat)
    requires low <= sum <= high && lowTerm <= term <= highTerm && high + highTerm < TWO64
    ensures low + lowTerm <= U64(sum + term) <= high + highTerm
  {
  }

  /** One turn of the loop keeps the sum within `least` and `most` times the sum of the weights. */
  lemma AccumulateRange(sum: nat, solve: int, i: nat, least: nat, most: nat)
    requires 1 <= i <= 100 && least <= solve <= most && 5050 * most < TWO64
    requires least * Triangle(i - 1) <= sum <= most * Triangle(i - 1)
    ensures least * Triangle(i) <= U64(sum + Times(solve, i)) <= most * Triangle(i)
  {
    hide Triangle, Times, U64;
    TriangleStep(i);
    TriangleUpTo100(i);
    TermRange(solve, i, least, most);
    var t, term := Triangle(i - 1), Times(solve, i);
    MulDistributes(least, t, i);
    MulDistributes(most, t, i);
    MulAtMost(most, t + i, 5050);
    MulCommutes(most, 5050);
    SumFits(sum, term, least * t, least * i, most * t, most * i);
  }

  lemma SolveTimeWithin(timestamps: seq<u64>, n: nat, i: nat, target: u64, least: nat)
    requires 1 <= i <= n < |timestamps| && ModestTarget(target)
    requires least <= 1 || (SpacedAtLeast(timestamps, n, least) && least <= 6 * target)
    ensures var start := |timestamps| - n - 1;
            least <= SolveTime(Minus(timestamps[start + i], timestamps[start + i - 1]), target) <= 6 * target
  {
    hide SolveTime, U64, Minus;
    var elapsed := Minus(timestamps[|timestamps| - n - 1 + i], timestamps[|timestamps| - n - 1 + i - 1]);
    SolveTimeRange(elapsed, target);
    if least > 1 {
      assert elapsed == Increment(timestamps, n - i);
      SolveTimeOfPositive(elapsed, target);
    }
  }

  lemma WeightedSumStep(timestamps: seq<u64>, start: nat, i: nat, target: u64)
    requires 1 <= i && start + i < |timestamps|
    ensures var solve := SolveTime(Minus(timestamps[start + i], timestamps[start + i - 1]), target);
            WeightedSum(timestamps, start, i, target) == U64(WeightedSum(timestamps, start, i - 1, target) + Times(solve, i))
  {
    hide SolveTime, Times, U64, Minus;
  }

  lemma {:induction false} WeightedSumBetween(timestamps: seq<u64>, n: nat, i: nat, target: u64, least: nat, most: nat)
    requires n < |timestamps| && i <= n <= 100 && ModestTarget(target) && most == 6 * target
    requires least <= 1 || (SpacedAtLeast(timestamps, n, least) && least <= most)
    ensures least * Triangle(i) <= WeightedSum(timestamps, |timestamps| - n - 1, i, target) <= most * Triangle(i)
  {
    if i == 0 {
      assert Triangle(0) == 0;
    } else {
      hide Triangle, SolveTime, Times, U64, Minus, SpacedAtLeast, WeightedSum;
      var start := |timestamps| - n - 1;
      WeightedSumBetween(timestamps, n, i - 1, target, least, most);
      SolveTimeWithin(timestamps, n, i, target, least);
      WeightedSumStep(timestamps, start, i, target);
      var sum: nat := WeightedSum(timestamps, start, i - 1, target);
      var solve := SolveTime(Minus(timestamps[start + i], timestamps[start + i - 1]), target);
      AccumulateRange(sum, solve, i, least, most);
    }
  }

  lemma WeightedSumRange(timestamps: seq<u64>, n: nat, i: nat, target: u64, least: nat)
    requires n < |timestamps| && i <= n <= 100 && ModestTarget(target)
    requires least <= 1 || (SpacedAtLeast(timestamps, n, least) && least <= 6 * target)
    ensures least * Triangle(i) <= WeightedSum(timestamps, |timestamps| - n - 1, i, target) <= 6 * target * Triangle(i)
  {
    hide SpacedAtLeast, WeightedSum, Triangle;
    WeightedSumBetween(timestamps, n, i, target, least, 6 * target);
  }

  // ----- the double steps -----

  lemma DenominatorNear(n: nat, target: u64)
    requires n >= 1 && target >= 1
    ensures Within(Denominator(n, target), (Triangle(n) * target) as real, 5)
  {
    hide Within, DoubleOf, Product, Triangle;
    var t, c := Triangle(n), target as nat;
    DoubleOfNear(t);
    DoubleOfNear(c);
    RealOfProduct(t, c);
    ProductNear(DoubleOf(t), t as real, 1, DoubleOf(c), c as real, 1, (t * c) as real);
  }

  lemma ScaledNear(total: u64, weight: u64, n: nat, target: u64)
    requires n >= 1 && target >= 1
    ensures Triangle(n) * target > 0
    ensures Within(ScaledDouble(total, weight, n, target), (total * weight) as real / (Triangle(n) * target) as real, 16)
  {
    hide Within, DoubleOf, Product, Quotient, Triangle, Denominator;
    TrianglePositive(n);
    MulAtMost(target, 1, Triangle(n));
    MulCommutes(target, Triangle(n));
    var w, s, den := total as real, weight as real, (Triangle(n) * target) as real;
    var exact := (total * weight) as real / den;
    DenominatorNear(n, target);
    DoubleOfNear(total);
    DoubleOfNear(weight);
    QuotientNear(DoubleOf(total), w, 1, Denominator(n, target), den, 5);
    QuotientSign(w, den);
    RealOfProduct(total, weight);
    QuotientOfProduct(w, den, s, (total * weight) as real);
    ProductNear(Quotient(DoubleOf(total), Denominator(n, target)), w / den, 10, DoubleOf(weight), s, 1, exact);
    QuotientSign((total * weight) as real, den);
    WithinMore(ScaledDouble(total, weight, n, target), exact, 14, 16);
  }

  /** Every double step is rounded: the results are doubles, and only the doubles of the words count. */
  lemma DoubleStepsRound(total: u64, weight: u64, n: nat, target: u64, raw: u64, actual: u64, expected: u64)
    requires n >= 1 && target >= 1 && actual >= 1
    ensures IsDouble(Denominator(n, target)) && IsDouble(ScaledDouble(total, weight, n, target))
    ensures IsDouble(CorrectionFactor(actual, expected)) && IsDouble(CorrectedDouble(raw, actual, expected))
  {
    hide IsDouble, Product, Quotient, DoubleOf;
    TrianglePositive(n);
    DoubleOfNear(Triangle(n));
    DoubleOfNear(target);
    DoubleOfNear(actual);
    OperationsRound(0, DoubleOf(Triangle(n)), DoubleOf(target));
    ProductIsDouble(Quotient(DoubleOf(total), Denominator(n, target)), DoubleOf(weight));
    OperationsRound(0, DoubleOf(expected), DoubleOf(actual));
    HalfAndTwo();
    ProductIsDouble(DoubleOf(raw), CorrectionFactor(actual, expected));
  }

  lemma ProductIsDouble(a: real, b: real)
    requires a >= 0.0 && b >= 0.0
    ensures IsDouble(Product(a, b))
  {
    hide Round, IsDouble;
    var p := a * b;
    BoundsMultiply(0.0, a, 0.0, b);
    ProductRounds(a, b, p);
    RoundedIsDouble(p);
  }

  lemma HalfAndTwo()
    ensures IsDouble(0.5) && IsDouble(2.0)
  {
    hide Round;
    RoundWhole(1);
    RoundWhole(2);
    RoundSmall(0.5);
  }

  lemma OnlyDoublesCount(total: u64, total': u64, weight: u64, weight': u64, n: nat, target: u64)
    requires n >= 1 && target >= 1
    requires DoubleOf(total) == DoubleOf(total') && DoubleOf(weight) == DoubleOf(weight')
    ensures ScaledDouble(total, weight, n, target) == ScaledDouble(total', weight', n, target)
  {
    hide Product, Quotient, DoubleOf;
  }

  lemma OnlyDoublesCorrect(raw: u64, raw': u64, actual: u64, actual': u64, expected: u64, expected': u64)
    requires actual >= 1 && actual' >= 1
    requires DoubleOf(raw) == DoubleOf(raw') && DoubleOf(actual) == DoubleOf(actual')
    requires DoubleOf(expected) == DoubleOf(expected')
    ensures CorrectedDouble(raw, actual, expected) == CorrectedDouble(raw', actual', expected')
  {
    hide Product, Quotient, DoubleOf;
  }

  /** The scaled value fits in 64 bits. */
  predicate ScaleFits(total: u64, weight: u64, n: nat, target: u64)
    requires n >= 1 && target >= 1
  {
    InWord(ScaledDouble(total, weight, n, target))
  }

  /** While it fits, the scaled value is total * weight / (n(n+1)/2 * target), rounded down, up to one
      part in 2^49; and it fits, up to such a part, when that quotient does. */
  lemma ScaleNear(total: u64, weight: u64, n: nat, target: u64)
    requires n >= 1 && target >= 1
    ensures ScaleFits(total, weight, n, target) ==>
              NearQuotient(Scale(total, weight, n, target), total * weight, Triangle(n) * target)
    ensures ScaleFits(total, weight, n, target) ==>
              562949953421311 * (total * weight) < 562949953421312 * (TWO64 * (Triangle(n) * target))
    ensures !ScaleFits(total, weight, n, target) ==>
              562949953421312 * (TWO64 * (Triangle(n) * target)) <= 562949953421313 * (total * weight)
  {
    hide Within, Triangle, NearQuotient, ScaledDouble;
    ScaledNear(total, weight, n, target);
    var d: real, a: nat, b: nat := ScaledDouble(total, weight, n, target), total * weight, Triangle(n) * target;
    if InWord(d) {
      FloorNear(d, a, b);
      BelowNear(d, TWO64, a, b);
    } else {
      BetweenNear(d, TWO64, a, b);
    }
  }

  /** Without a second between the ends of the last hundred blocks nothing is corrected. */
  lemma CorrectAtOnce(raw: u64, expected: u64)
    ensures Correct(raw, 0, expected) == raw
  {
  }

  /** The corrected value fits in 64 bits. */
  predicate CorrectFits(raw: u64, actual: u64, expected: u64) {
    actual == 0 || InWord(CorrectedDouble(raw, actual, expected))
  }

  lemma NoDifference(x: real)
    ensures Within(x, x, 0)
  {
  }

  lemma FactorBounds(x: real, f: real, z: real)
    requires x >= 0.0 && 0.5 <= f <= 2.0 && z == x * f
    ensures x <= 2.0 * z && z <= 2.0 * x
  {
    RealAtMost(x, 0.5, f);
    RealAtMost(x, f, 2.0);
  }

  lemma CorrectedNear(raw: u64, actual: u64, expected: u64) returns (z: real)
    requires actual >= 1
    ensures 0.0 <= raw as real <= 2.0 * z && z <= 2.0 * raw as real
    ensures Within(CorrectedDouble(raw, actual, expected), z, 4)
  {
    hide Within, DoubleOf, Product, CorrectionFactor;
    var x: real, f := raw as real, CorrectionFactor(actual, expected);
    z := x * f;
    DoubleOfNear(raw);
    NoDifference(f);
    FactorBounds(x, f, z);
    ProductNear(DoubleOf(raw), x, 1, f, f, 0, z);
  }

  /** The epoch correction moves a value by at most a factor of two either way, up to rounding. */
  lemma CorrectRange(raw: u64, actual: u64, expected: u64)
    ensures CorrectFits(raw, actual, expected) ==>
              var r := Correct(raw, actual, expected);
              && 562949953421312 * r <= 562949953421313 * (2 * raw)
              && 562949953421311 * (raw + 1) <= 562949953421312 * (2 * (r + 1))
    ensures 562949953421313 * (2 * raw) < 562949953421312 * TWO64 ==> CorrectFits(raw, actual, expected)
  {
    if actual >= 1 {
      hide DoubleOf, Product, CorrectionFactor, CorrectedDouble, Within;
      var d := CorrectedDouble(raw, actual, expected);
      var z := CorrectedNear(raw, actual, expected);
      if raw <= 0x20_0000_0000_0000 {
        HalfKept(raw, actual, expected);
      }
      FromCorrected(d, z, raw);
    }
  }

  lemma FromCorrected(d: real, z: real, raw: u64)
    requires Within(d, z, 4) && raw as real <= 2.0 * z && z <= 2.0 * raw as real
    requires raw <= 0x20_0000_0000_0000 ==> d >= (raw / 2) as real
    ensures 562949953421312 * d.Floor <= 562949953421313 * (2 * raw)
    ensures 562949953421311 * (raw + 1) <= 562949953421312 * (2 * (d.Floor + 1))
    ensures 562949953421313 * (2 * raw) < 562949953421312 * TWO64 ==> InWord(d)
  {
    CorrectedBounds(d, z, raw as real);
    AtMostTwice(d, raw);
    AtLeastHalf(d, raw);
  }

  lemma CorrectedBounds(d: real, z: real, x: real)
    requires Within(d, z, 4) && x <= 2.0 * z && z <= 2.0 * x
    ensures 9007199254740992.0 * d <= 18014398509481992.0 * x
    ensures 9007199254740988.0 * x <= 18014398509481984.0 * d
  {
  }

  lemma AtMostTwice(d: real, raw: nat)
    requires 9007199254740992.0 * d <= 18014398509481992.0 * raw as real
    ensures 562949953421312 * d.Floor <= 562949953421313 * (2 * raw)
    ensures 562949953421313 * (2 * raw) < 562949953421312 * TWO64 ==> InWord(d)
  {
    var q := d.Floor;
    assert 562949953421312.0 * q as real <= 562949953421313.0 * (2 * raw) as real;
  }

  lemma AtLeastHalf(d: real, raw: nat)
    requires 9007199254740988.0 * raw as real <= 18014398509481984.0 * d
    requires raw <= 0x20_0000_0000_0000 ==> d >= (raw / 2) as real
    ensures 562949953421311 * (raw + 1) <= 562949953421312 * (2 * (d.Floor + 1))
  {
    var q := d.Floor + 1;
    if raw <= 0x20_0000_0000_0000 {
      assert q >= raw / 2 + 1;
    } else {
      assert 9007199254740988.0 * raw as real <= 18014398509481984.0 * q as real;
    }
  }

  /** Without rounding of the argument the half is kept to the last unit. */
  lemma HalfKept(raw: u64, actual: u64, expected: u64)
    requires actual >= 1 && raw <= 0x20_0000_0000_0000
    ensures CorrectedDouble(raw, actual, expected) >= (raw / 2) as real
  {
    hide CorrectionFactor, Product, DoubleOf;
    DoubleOfNear(raw);
    ProductAtLeastHalf(raw, CorrectionFactor(actual, expected));
  }

  /** A window that took at most half of the expected time doubles. */
  lemma CorrectDoubles(raw: u64, actual: u64, expected: u64)
    requires 1 <= actual && 2 * actual <= expected <= 0x20_0000_0000_0000
    ensures raw <= 0x10_0000_0000_0000 ==> Correct(raw, actual, expected) == 2 * raw
    ensures CorrectFits(raw, actual, expected) ==>
              562949953421311 * (2 * raw) < 562949953421312 * (Correct(raw, actual, expected) + 1)
  {
    hide DoubleOf, Product, CorrectionFactor;
    FactorIsTwo(actual, expected);
    DoubleOfNear(raw);
    TwiceNear(DoubleOf(raw), raw);
  }

  lemma TwiceNear(d: real, raw: u64)
    requires d >= 0.0 && Within(d, raw as real, 1)
    requires raw <= 0x20_0000_0000_0000 ==> d == raw as real
    ensures raw <= 0x10_0000_0000_0000 ==> Product(d, 2.0) == (2 * raw) as real
    ensures 562949953421311.0 * (2 * raw) as real <= 562949953421312.0 * Product(d, 2.0)
  {
    hide Round, Product;
    var p := d * 2.0;
    ProductRounds(d, 2.0, p);
    RoundNear(p);
    if raw <= 0x10_0000_0000_0000 {
      RoundWhole(2 * raw);
    }
  }

  lemma FactorIsTwo(actual: u64, expected: u64)
    requires 1 <= actual && 2 * actual <= expected <= 0x20_0000_0000_0000
    ensures CorrectionFactor(actual, expected) == 2.0
  {
    hide Round;
    DoubleOfNear(actual);
    DoubleOfNear(expected);
    var q := expected as real / actual as real;
    AtLeastTwo(actual as real, expected as real);
    RoundAtLeast(q, 2);
  }

  /** A window that took at least twice the expected time halves. */
  lemma CorrectHalves(raw: u64, actual: u64, expected: u64)
    requires 1 <= expected <= 0x10_0000_0000_0000 && 2 * expected <= actual
    ensures CorrectFits(raw, actual, expected)
  {
    hide DoubleOf, Product, CorrectionFactor;
    FactorIsHalf(actual, expected);
    DoubleOfNear(raw);
    HalfNear(DoubleOf(raw), raw);
  }

  lemma HalfNear(d: real, raw: u64)
    requires d >= 0.0 && Within(d, raw as real, 1)
    ensures InWord(Product(d, 0.5))
  {
    hide Round, Product;
    var p := d * 0.5;
    ProductRounds(d, 0.5, p);
    RoundNear(p);
  }

  lemma AtLeastTwo(actual: real, expected: real)
    requires actual > 0.0 && 2.0 * actual <= expected
    ensures expected / actual >= 2.0
  {
    var q := expected / actual;
    QuotientTimes(expected, actual);
    RealCommutes(q, actual);
    CancelReal(actual, 2.0, q);
  }

  lemma AtMostHalf(e: real, a: real)
    requires a > 0.0 && 2.0 * e <= a
    ensures e / a <= 0.5
  {
    var q := e / a;
    QuotientTimes(e, a);
    RealCommutes(q, a);
    CancelReal(a, q, 0.5);
  }

  lemma FactorIsHalf(actual: u64, expected: u64)
    requires 1 <= expected <= 0x10_0000_0000_0000 && 2 * expected <= actual
    ensures CorrectionFactor(actual, expected) == 0.5
  {
    hide Round, Distance;
    DoubleOfNear(actual);
    DoubleOfNear(expected);
    var e, a := DoubleOf(expected), DoubleOf(actual);
    RoundAtLeast(actual as real, 2 * expected);
    var q := e / a;
    QuotientSign(e, a);
    AtMostHalf(e, a);
    if q > 0.0 {
      RoundSmall(q);
      RoundAtMost(2.0 * q, 1);
    }
  }

  /** Between half and twice the expected time the value is scaled by expected / actual. */
  lemma CorrectScales(raw: u64, actual: u64, expected: u64)
    requires 1 <= actual && expected <= 2 * actual && actual <= 2 * expected
    ensures CorrectFits(raw, actual, expected) ==> NearQuotient(Correct(raw, actual, expected), raw * expected, actual)
    ensures CorrectFits(raw, actual, expected) ==>
              562949953421311 * (raw * expected) < 562949953421312 * (TWO64 * actual)
    ensures !CorrectFits(raw, actual, expected) ==>
              562949953421312 * (TWO64 * actual) <= 562949953421313 * (raw * expected)
  {
    hide NearQuotient, Within, CorrectedDouble;
    var d: real, a: nat := CorrectedDouble(raw, actual, expected), raw * expected;
    ScaledCorrectly(raw, actual, expected);
    if InWord(d) {
      FloorNear(d, a, actual);
      BelowNear(d, TWO64, a, actual);
    } else {
      BetweenNear(d, TWO64, a, actual);
    }
  }

  lemma ScaledCorrectly(raw: u64, actual: u64, expected: u64)
    requires 1 <= actual && expected <= 2 * actual && actual <= 2 * expected
    ensures Within(CorrectedDouble(raw, actual, expected), (raw * expected) as real / actual as real, 16)
  {
    hide Within, DoubleOf, Product, CorrectionFactor;
    var x, e, a := raw as real, expected as real, actual as real;
    var z := (raw * expected) as real / a;
    DoubleOfNear(raw);
    FactorNear(actual, expected);
    QuotientSign(e, a);
    RealOfProduct(raw, expected);
    RealCommutes(x, e);
    RealCommutes(x, e / a);
    QuotientOfProduct(e, a, x, (raw * expected) as real);
    ProductNear(DoubleOf(raw), x, 1, CorrectionFactor(actual, expected), e / a, 6, z);
    QuotientSign((raw * expected) as real, a);
    WithinMore(CorrectedDouble(raw, actual, expected), z, 10, 16);
  }

  lemma FactorNear(actual: u64, expected: u64)
    requires 1 <= actual && expected <= 2 * actual && actual <= 2 * expected
    ensures Within(CorrectionFactor(actual, expected), expected as real / actual as real, 6)
  {
    hide Within, DoubleOf, Quotient;
    var e, a := expected as real, actual as real;
    DoubleOfNear(expected);
    DoubleOfNear(actual);
    QuotientNear(DoubleOf(expected), e, 1, DoubleOf(actual), a, 1);
    BetweenHalfAndTwo(e, a);
    ClampNear(Quotient(DoubleOf(expected), DoubleOf(actual)), e / a);
  }

  lemma BetweenHalfAndTwo(e: real, a: real)
    requires a > 0.0 && e <= 2.0 * a && a <= 2.0 * e
    ensures 0.5 <= e / a <= 2.0
  {
    var q := e / a;
    QuotientTimes(e, a);
    RealCommutes(q, a);
    CancelReal(a, q, 2.0);
    CancelReal(a, 0.5, q);
  }

  lemma ClampNear(r: real, x: real)
    requires 0.5 <= x <= 2.0 && Within(r, x, 6)
    ensures Within(2.0, x, 6) || r < 2.0
    ensures Within(0.5, x, 6) || r >= 0.5
  {
  }

  // ----- bounds on the raw value -----

  lemma WorkAtMost(total: nat, weight: nat, t: nat, c: nat)
    requires weight <= 6 * c * t
    ensures total * weight <= (6 * total) * (t * c)
  {
    MulAtMost(total, weight, 6 * c * t);
    MulAssociative(6, c, t);
    MulCommutes(c, t);
    MulLeftCommutes(total, 6, t * c);
    MulAssociative(6, total, t * c);
  }

  lemma WorkAtLeast(total: nat, weight: nat, least: nat, t: nat)
    requires least * t <= weight
    ensures (total * least) * t <= total * weight
  {
    MulAtMost(total, least * t, weight);
    MulAssociative(total, least, t);
  }

  /** The scaled value, when the weight lies between `least` and six target times of the weights' sum. */
  lemma ScaleRange(total: u64, weight: u64, n: nat, target: u64, least: nat)
    requires n >= 1 && target >= 1
    requires least * Triangle(n) <= weight <= 6 * target * Triangle(n)
    ensures ScaleFits(total, weight, n, target) ==>
              var s: nat := Scale(total, weight, n, target);
              && 562949953421312 * s <= 562949953421313 * (6 * total)
              && 562949953421311 * (total * least) < 562949953421312 * ((s + 1) * target)
    ensures 562949953421313 * (6 * total) < 562949953421312 * TWO64 ==> ScaleFits(total, weight, n, target)
  {
    hide Triangle, Scale, ScaleFits, NearQuotient;
    TrianglePositive(n);
    var t: nat, c: nat, s: nat := Triangle(n), target, Scale(total, weight, n, target);
    ScaleNear(total, weight, n, target);
    if ScaleFits(total, weight, n, target) {
      ScaledUpper(s, total, weight, t, c);
      ScaledLower(s, total, weight, least, t, c);
    } else {
      TooLarge(total, weight, t, c);
    }
  }

  lemma ScaledUpper(s: nat, total: nat, weight: nat, t: nat, c: nat)
    requires t >= 1 && c >= 1 && weight <= 6 * c * t && NearQuotient(s, total * weight, t * c)
    ensures 562949953421312 * s <= 562949953421313 * (6 * total)
  {
    var a, den, sd, x := total * weight, t * c, s * (t * c), (6 * total) * (t * c);
    assert 562949953421312 * sd <= 562949953421313 * a;
    hide NearQuotient;
    WorkAtMost(total, weight, t, c);
    MulAtMost(c, 1, t);
    MulCommutes(c, t);
    CancelUpper(s, 6 * total, den);
  }

  lemma ScaledLower(s: nat, total: nat, weight: nat, least: nat, t: nat, c: nat)
    requires t >= 1 && least * t <= weight && NearQuotient(s, total * weight, t * c)
    ensures 562949953421311 * (total * least) < 562949953421312 * ((s + 1) * c)
  {
    var a, sd := total * weight, (s + 1) * (t * c);
    assert 562949953421311 * a < 562949953421312 * sd;
    hide NearQuotient;
    WorkAtLeast(total, weight, least, t);
    CancelLower(s + 1, total * least, t, c);
  }

  lemma TooLarge(total: nat, weight: nat, t: nat, c: nat)
    requires t >= 1 && c >= 1 && weight <= 6 * c * t
    requires 562949953421312 * (TWO64 * (t * c)) <= 562949953421313 * (total * weight)
    ensures 562949953421312 * TWO64 <= 562949953421313 * (6 * total)
  {
    var den := t * c;
    WorkAtMost(total, weight, t, c);
    MulAtMost(c, 1, t);
    MulCommutes(c, t);
    CancelUpper(TWO64, 6 * total, den);
  }

  lemma CancelUpper(q: nat, x: nat, den: nat)
    requires den > 0
    ensures 562949953421312 * (q * den) <= 562949953421313 * (x * den) ==> 562949953421312 * q <= 562949953421313 * x
  {
    if 562949953421312 * (q * den) <= 562949953421313 * (x * den) {
      MulAssociative(562949953421312, q, den);
      MulAssociative(562949953421313, x, den);
      MulCommutes(562949953421312 * q, den);
      MulCommutes(562949953421313 * x, den);
      CancelFactor(den, 562949953421312 * q, 562949953421313 * x);
    }
  }

  lemma CancelLower(q: nat, x: nat, t: nat, c: nat)
    requires t > 0 && 562949953421311 * (x * t) < 562949953421312 * (q * (t * c))
    ensures 562949953421311 * x < 562949953421312 * (q * c)
  {
    MulLeftCommutes(q, t, c);
    MulAssociative(562949953421312, t, q * c);
    MulLeftCommutes(562949953421312, t, q * c);
    MulLeftCommutes(562949953421311, x, t);
    MulAssociative(x, 562949953421311, t);
    MulCommutes(562949953421311 * x, t);
    MulCommutes(x, 562949953421311);
    if 562949953421311 * x >= 562949953421312 * (q * c) {
      MulAtMost(t, 562949953421312 * (q * c), 562949953421311 * x);
    }
  }

  /** Both casts of the retarget stay within 64 bits. */
  predicate CastsFit(timestamps: seq<u64>, cumulative: seq<u64>, target: u64)
    requires !Bootstrapping(timestamps, cumulative) && Indexable(timestamps, cumulative)
    requires target >= 1
  {
    var n, count := WindowLength(|timestamps|), |timestamps|;
    var total, weight := WindowDifficulty(timestamps, cumulative), WindowWeight(timestamps, target);
    && ScaleFits(total, weight, n, target)
    && (count < 101 || CorrectFits(Scale(total, weight, n, target),
                                   Minus(timestamps[count - 1], timestamps[count - 101]), U64(100 * target)))
  }

  lemma BothAtMost(w: nat, s: nat, r: nat)
    requires 562949953421312 * s <= 562949953421313 * (6 * w)
    requires 562949953421312 * r <= 562949953421313 * (2 * s)
    ensures 562949953421312 * r <= 562949953421316 * (12 * w)
  {
  }

  lemma BothAtLeast(x: nat, s: nat, r: nat, c: nat)
    requires 562949953421311 * x < 562949953421312 * ((s + 1) * c)
    requires 562949953421311 * (s + 1) <= 562949953421312 * (2 * (r + 1))
    ensures 562949953421308 * x < 562949953421312 * (2 * ((r + 1) * c))
  {
    MulAtMost(c, 562949953421311 * (s + 1), 562949953421312 * (2 * (r + 1)));
    var sc, rc := (s + 1) * c, (r + 1) * c;
    MulLeftCommutes(c, 562949953421311, s + 1);
    MulCommutes(c, s + 1);
    MulLeftCommutes(c, 562949953421312, 2 * (r + 1));
    MulLeftCommutes(c, 2, r + 1);
    MulCommutes(c, r + 1);
    assert 562949953421311 * sc <= 562949953421312 * (2 * rc);
  }

  /** The raw value while the casts fit: with every solve time in the window at least `least`, it lies
      between W * least / (2T) and 12 W, up to rounding. */
  lemma RawRange(timestamps: seq<u64>, cumulative: seq<u64>, target: u64, least: nat)
    requires !Bootstrapping(timestamps, cumulative) && Indexable(timestamps, cumulative)
    requires ModestTarget(target) && CastsFit(timestamps, cumulative, target)
    requires least <= 1
             || (SpacedAtLeast(timestamps, WindowLength(|timestamps|), least) && least <= 6 * target)
    ensures var w := WindowDifficulty(timestamps, cumulative);
            var raw := RawDifficulty(timestamps, cumulative, target);
            && 562949953421312 * raw <= 562949953421316 * (12 * w)
            && 562949953421308 * (w * least) < 562949953421312 * (2 * ((raw + 1) * target))
  {
    hide Scale, ScaleFits, CorrectFits, Correct, WindowWeight, SpacedAtLeast, WindowDifficulty, RawDifficulty, Minus,
         U64, Triangle;
    var n := WindowLength(|timestamps|);
    var w: nat, raw: nat := WindowDifficulty(timestamps, cumulative), RawDifficulty(timestamps, cumulative, target);
    var weight := WindowWeight(timestamps, target);
    var s: nat, x: nat := Scale(w, weight, n, target), w * least;
    WindowWeightRange(timestamps, target, least);
    ScaleRange(w, weight, n, target, least);
    RawOfScaled(timestamps, cumulative, target, s);
    hide CastsFit;
    BothAtMost(w, s, raw);
    BothAtLeast(x, s, raw, target);
  }

  lemma RawOfScaled(timestamps: seq<u64>, cumulative: seq<u64>, target: u64, s: u64)
    requires !Bootstrapping(timestamps, cumulative) && Indexable(timestamps, cumulative)
    requires target >= 1 && CastsFit(timestamps, cumulative, target)
    requires s == Scale(WindowDifficulty(timestamps, cumulative), WindowWeight(timestamps, target),
                        WindowLength(|timestamps|), target)
    ensures var raw := RawDifficulty(timestamps, cumulative, target);
            && 562949953421312 * raw <= 562949953421313 * (2 * s)
            && 562949953421311 * (s + 1) <= 562949953421312 * (2 * (raw + 1))
  {
    hide Scale, CorrectFits, Correct, WindowWeight, Minus, U64, WindowDifficulty;
    if |timestamps| >= 101 {
      CorrectRange(s, Minus(timestamps[|timestamps| - 1], timestamps[|timestamps| - 101]), U64(100 * target));
    }
  }

  lemma WindowWeightRange(timestamps: seq<u64>, target: u64, least: nat)
    requires |timestamps| >= 2 && ModestTarget(target)
    requires least <= 1
             || (SpacedAtLeast(timestamps, WindowLength(|timestamps|), least) && least <= 6 * target)
    ensures var n := WindowLength(|timestamps|);
            least * Triangle(n) <= WindowWeight(timestamps, target) <= 6 * target * Triangle(n)
  {
    hide WeightedSum, SpacedAtLeast;
    var n := WindowLength(|timestamps|);
    WeightedSumRange(timestamps, n, n, target, least);
  }

  /** Whatever the timestamps are: as long as 13 times the work of the window fits in 64 bits, so do the
      casts, and the raw value is at most 12 times the work. */
  lemma RawEnvelope(timestamps: seq<u64>, cumulative: seq<u64>, target: u64)
    requires !Bootstrapping(timestamps, cumulative) && Indexable(timestamps, cumulative)
    requires ModestTarget(target) && 13 * WindowDifficulty(timestamps, cumulative) < TWO64
    ensures CastsFit(timestamps, cumulative, target)
    ensures var w := WindowDifficulty(timestamps, cumulative);
            var raw := RawDifficulty(timestamps, cumulative, target);
            && 562949953421312 * raw <= 562949953421316 * (12 * w)
            && 562949953421308 * w < 562949953421312 * (2 * ((raw + 1) * target))
  {
    EnvelopeFits(timestamps, cumulative, target);
    hide CastsFit, RawDifficulty, WindowDifficulty;
    RawRange(timestamps, cumulative, target, 1);
  }

  lemma EnvelopeFits(timestamps: seq<u64>, cumulative: seq<u64>, target: u64)
    requires !Bootstrapping(timestamps, cumulative) && Indexable(timestamps, cumulative)
    requires ModestTarget(target) && 13 * WindowDifficulty(timestamps, cumulative) < TWO64
    ensures CastsFit(timestamps, cumulative, target)
  {
    hide Scale, ScaleFits, CorrectFits, Correct, WeightedSum, WindowWeight, Minus, U64, WindowDifficulty;
    var n := WindowLength(|timestamps|);
    var w: nat, weight := WindowDifficulty(timestamps, cumulative), WindowWeight(timestamps, target);
    WindowWeightRange(timestamps, target, 1);
    ScaleRange(w, weight, n, target, 1);
    if |timestamps| >= 101 {
      CorrectRange(Scale(w, weight, n, target), Minus(timestamps[|timestamps| - 1], timestamps[|timestamps| - 101]),
                   U64(100 * target));
    }
  }
}
