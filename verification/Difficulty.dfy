/** The difficulty retarget and the proof-of-work target test (src/crypto/difficulty.cpp).

    Every `uint64_t` operation wraps explicitly, and every `double` operation rounds as
    IEEE 754 prescribes.  A cast whose argument does not fit in 64 bits, which C++ leaves
    undefined, gives an unspecified word. */
module Difficulty {
  import opened Words
  import opened Doubles

  /** DIFFICULTY_TARGET_V2 and DIFFICULTY_WINDOW_V2. */
  const TARGET_SECONDS: u64 := 150
  const WINDOW_SIZE: u64 := 720

  // ----- what the retarget computes -----

  /** The number of solve times that are averaged. */
  function WindowLength(count: nat): (n: nat)
    requires count >= 1
  {
    if count - 1 < 100 then count - 1 else 100
  }

  function MaxSolveTime(target: u64): int {
    AsInt64(U64(6 * target))
  }

  /** The clamped solve time for two timestamps that differ by `elapsed`. */
  function SolveTime(elapsed: u64, target: u64): int {
    var signed := AsInt64(elapsed);
    var positive := if signed < 1 then 1 else signed;
    if positive > MaxSolveTime(target) then MaxSolveTime(target) else positive
  }

  /** The linearly weighted sum of the first i solve times after index `start`. */
  function WeightedSum(timestamps: seq<u64>, start: nat, i: nat, target: u64): u64
    requires start + i < |timestamps|
  {
    if i == 0 then 0
    else U64(WeightedSum(timestamps, start, i - 1, target)
             + Times(SolveTime(Minus(timestamps[start + i], timestamps[start + i - 1]), target), i))
  }

  /** The index arithmetic of the retarget stays in bounds. */
  predicate Indexable(timestamps: seq<u64>, cumulative: seq<u64>) {
    |timestamps| < 2 || |cumulative| < 2 || |timestamps| - 1 <= |cumulative|
  }

  predicate Bootstrapping(timestamps: seq<u64>, cumulative: seq<u64>) {
    |timestamps| < 2 || |cumulative| < 2
  }

  function WindowDifficulty(timestamps: seq<u64>, cumulative: seq<u64>): u64
    requires !Bootstrapping(timestamps, cumulative) && Indexable(timestamps, cumulative)
  {
    var count := |timestamps|;
    Minus(cumulative[|cumulative| - 1], cumulative[count - WindowLength(count) - 1])
  }

  function PreviousDifficulty(timestamps: seq<u64>, cumulative: seq<u64>): u64
    requires !Bootstrapping(timestamps, cumulative) && Indexable(timestamps, cumulative)
  {
    Minus(cumulative[|cumulative| - 1], cumulative[|timestamps| - 2])
  }

  function Triangle(n: nat): nat {
    n * (n + 1) / 2
  }

  function WindowWeight(timestamps: seq<u64>, target: u64): u64
    requires |timestamps| >= 2
  {
    var count := |timestamps|;
    WeightedSum(timestamps, count - WindowLength(count) - 1, WindowLength(count), target)
  }

  /** The denominator n(n+1)/2 * target. */
  function Denominator(n: nat, target: u64): (d: real)
    requires n >= 1 && target >= 1
    ensures d >= 1.0
  {
    DenominatorPositive(n, target);
    Product(DoubleOf(Triangle(n)), DoubleOf(target))
  }

  lemma DenominatorPositive(n: nat, target: nat)
    requires n >= 1 && target >= 1
    ensures Product(DoubleOf(Triangle(n)), DoubleOf(target)) >= 1.0
  {
    hide Product, DoubleOf;
    TrianglePositive(n);
    DoubleOfNear(Triangle(n));
    DoubleOfNear(target);
    ProductAtLeastOne(DoubleOf(Triangle(n)), DoubleOf(target));
  }

  lemma TrianglePositive(n: nat)
    requires n >= 1
    ensures Triangle(n) >= 1
  {
    assert n * (n + 1) >= 2;
  }

  /** total / denominator * weight. */
  function ScaledDouble(total: u64, weight: u64, n: nat, target: u64): (d: real)
    requires n >= 1 && target >= 1
    ensures d >= 0.0
  {
    Product(Quotient(DoubleOf(total), Denominator(n, target)), DoubleOf(weight))
  }

  function Scale(total: u64, weight: u64, n: nat, target: u64): u64
    requires n >= 1 && target >= 1
  {
    CastToU64(ScaledDouble(total, weight, n, target))
  }

  /** expected / actual, clamped to [1/2, 2]. */
  function CorrectionFactor(actual: u64, expected: u64): (f: real)
    requires actual >= 1
    ensures 0.5 <= f <= 2.0
  {
    DoubleOfNear(actual);
    var ratio := Quotient(DoubleOf(expected), DoubleOf(actual));
    var capped := if ratio < 2.0 then ratio else 2.0;
    if capped < 0.5 then 0.5 else capped
  }

  function CorrectedDouble(raw: u64, actual: u64, expected: u64): (d: real)
    requires actual >= 1
    ensures d >= 0.0
  {
    Product(DoubleOf(raw), CorrectionFactor(actual, expected))
  }

  /** The epoch correction. */
  function Correct(raw: u64, actual: u64, expected: u64): u64 {
    if actual == 0 then raw else CastToU64(CorrectedDouble(raw, actual, expected))
  }

  function EpochAnchor(timestamps: seq<u64>, target: u64, raw: u64): u64 {
    var count := |timestamps|;
    if count < 101 then raw
    else Correct(raw, Minus(timestamps[count - 1], timestamps[count - 101]), U64(100 * target))
  }

  function RawDifficulty(timestamps: seq<u64>, cumulative: seq<u64>, target: u64): u64
    requires !Bootstrapping(timestamps, cumulative) && Indexable(timestamps, cumulative)
    requires target >= 1
  {
    EpochAnchor(timestamps, target,
                Scale(WindowDifficulty(timestamps, cumulative), WindowWeight(timestamps, target),
                      WindowLength(|timestamps|), target))
  }

  /** The asymmetric step clamp and the final lower bound of one. */
  function StepClamp(previous: u64, raw: u64): u64 {
    var upper := U64(previous * 115) / 100;
    var lower := U64(previous * 85) / 100;
    var capped := if previous > 10 && raw > upper then upper else raw;
    var stepped := if previous > 10 && capped < lower then lower else capped;
    if stepped < 1 then 1 else stepped
  }

  function NextDifficulty(timestamps: seq<u64>, cumulative: seq<u64>, target: u64): u64
    requires Indexable(timestamps, cumulative)
    requires target >= 1
  {
    if Bootstrapping(timestamps, cumulative) then 1
    else StepClamp(PreviousDifficulty(timestamps, cumulative), RawDifficulty(timestamps, cumulative, target))
  }

  // ----- the program -----

  /** The window loop of `next_difficulty_lwma3`. */
  method SumSolveTimes(timestamps: seq<u64>, n: nat, target: u64) returns (lwmaSum: u64)
    requires n < |timestamps|
    ensures lwmaSum == WeightedSum(timestamps, |timestamps| - n - 1, n, target)
  {
    var count := |timestamps|;
    lwmaSum := 0;
    var previous := timestamps[count - n - 1];
    ghost var start := count - n - 1;
    var i := 1;
    while i <= n
      invariant 1 <= i <= n + 1
      invariant previous == timestamps[start + i - 1]
      invariant lwmaSum == WeightedSum(timestamps, start, i - 1, target)
    {
      var current := timestamps[count - n + i - 1];
      var solveTime := AsInt64(Minus(current, previous));
      if solveTime < 1 {
        solveTime := 1;
      }
      if solveTime > MaxSolveTime(target) {
        solveTime := MaxSolveTime(target);
      }
      assert solveTime == SolveTime(Minus(timestamps[start + i], timestamps[start + i - 1]), target);
      lwmaSum := U64(lwmaSum + Times(solveTime, i));
      previous := current;
      i := i + 1;
    }
  }

  /** The `double` steps of `next_difficulty_lwma3`. */
  method ScaleWork(total: u64, lwmaSum: u64, n: nat, target: u64) returns (raw: u64)
    requires n >= 1 && target >= 1
    ensures raw == Scale(total, lwmaSum, n, target)
  {
    hide Product, Quotient, DoubleOf, CastToU64;
    DenominatorPositive(n, target);
    var triangle := n * (n + 1) / 2;
    assert triangle == Triangle(n);
    var denominator := Product(DoubleOf(triangle), DoubleOf(target));
    var average := Quotient(DoubleOf(total), denominator);
    raw := CastToU64(Product(average, DoubleOf(lwmaSum)));
  }

  /** The 100-block anchor of `next_difficulty_lwma3`. */
  method AnchorToEpoch(timestamps: seq<u64>, target: u64, scaled: u64) returns (raw: u64)
    ensures raw == EpochAnchor(timestamps, target, scaled)
  {
    hide Product, Quotient, DoubleOf, CastToU64, U64;
    var count := |timestamps|;
    raw := scaled;
    if count >= 101 {
      var actual := Minus(timestamps[count - 1], timestamps[count - 101]);
      var expected := U64(100 * target);
      if actual > 0 {
        DoubleOfNear(actual);
        var correction := Quotient(DoubleOf(expected), DoubleOf(actual));
        if 2.0 < correction {
          correction := 2.0;
        }
        if correction < 0.5 {
          correction := 0.5;
        }
        raw := CastToU64(Product(DoubleOf(raw), correction));
      }
    }
  }

  /** The step clamp of `next_difficulty_lwma3`. */
  method LimitStep(previous: u64, unclamped: u64) returns (difficulty: u64)
    ensures difficulty == StepClamp(previous, unclamped)
  {
    var raw := unclamped;
    if previous > 10 {
      var upper := U64(previous * 115) / 100;
      var lower := U64(previous * 85) / 100;
      if raw > upper {
        raw := upper;
      }
      if raw < lower {
        raw := lower;
      }
    }
    difficulty := if raw < 1 then 1 else raw;
  }

  /** `next_difficulty_lwma3`. */
  method NextDifficultyLwma3(timestamps: seq<u64>, cumulative: seq<u64>, target: u64, windowSize: u64)
    returns (difficulty: u64)
    requires Indexable(timestamps, cumulative)
    requires target >= 1
    ensures difficulty == NextDifficulty(timestamps, cumulative, target)
  {
    hide Scale, WeightedSum, EpochAnchor, StepClamp;
    var count := |timestamps|;
    if count < 2 || |cumulative| < 2 {
      return 1;
    }
    var n := if count - 1 < 100 then count - 1 else 100;
    var lwmaSum := SumSolveTimes(timestamps, n, target);
    var total := Minus(cumulative[|cumulative| - 1], cumulative[count - n - 1]);
    var scaled := ScaleWork(total, lwmaSum, n, target);
    var raw := AnchorToEpoch(timestamps, target, scaled);
    difficulty := LimitStep(Minus(cumulative[|cumulative| - 1], cumulative[count - 2]), raw);
  }
}
