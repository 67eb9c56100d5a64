/** Which way the retarget moves.  The program multiplies by the weighted solve times and does
    not divide by the window length, so within the step clamp the difficulty goes up. */
module DifficultyTrends {
  import opened Words
  import opened Doubles
  import opened Difficulty
  import opened DifficultyLaws
  import opened StepClampLaws

  // ----- steady windows -----

  /** All blocks of the window came `spacing` seconds apart and had the same difficulty. */
  ghost predicate SteadyWindow(timestamps: seq<u64>, cumulative: seq<u64>, spacing: nat, difficulty: nat) {
    && |timestamps| == |cumulative| >= 2
    && SteadySteps(timestamps, spacing, WindowLength(|timestamps|))
    && SteadySteps(cumulative, difficulty, WindowLength(|timestamps|))
  }

  ghost predicate SteadySteps(s: seq<u64>, step: nat, n: nat) {
    n < |s| && forall j :: 0 <= j < n ==> Increment(s, j) == step
  }

  lemma {:induction false} SteadySpan(s: seq<u64>, step: nat, n: nat, k: nat)
    requires SteadySteps(s, step, n) && k <= n
    ensures Minus(s[|s| - 1], s[|s| - 1 - k]) == U64(k * step)
  {
    if k > 0 {
      SteadySpan(s, step, n, k - 1);
      hide U64;
      assert Increment(s, k - 1) == step;
      MinusChain(s[|s| - 1], s[|s| - k], s[|s| - 1 - k]);
      U64AddLeft((k - 1) * step, step);
      MulDistributes(step, k - 1, 1);
      MulCommutes(step, k - 1);
      MulCommutes(step, k);
    } else {
      assert k * step == 0;
    }
  }

  /** The solve time that a spacing counts as: at least one second, at most 900. */
  function Counted(spacing: nat): nat {
    if spacing < 1 then 1 else if spacing > 900 then 900 else spacing
  }

  /** Equal spacing makes the weighted sum a multiple of the sum of the weights. */
  lemma {:induction false} SteadyWeight(timestamps: seq<u64>, spacing: nat, n: nat, i: nat)
    requires SteadySteps(timestamps, spacing, n) && spacing < TWO63 && i <= n <= 100
    ensures WeightedSum(timestamps, |timestamps| - n - 1, i, 150) == Counted(spacing) * Triangle(i)
  {
    if i == 0 {
      assert Triangle(0) == 0;
    } else {
      var start := |timestamps| - n - 1;
      assert Minus(timestamps[start + i], timestamps[start + i - 1]) == Increment(timestamps, n - i);
      hide SteadySteps, Triangle, SolveTime, Times, U64, Minus, Counted, WeightedSum;
      SteadyWeight(timestamps, spacing, n, i - 1);
      CountedSolveTime(spacing);
      WeightedSumStep(timestamps, start, i, 150);
      SteadyTurn(Counted(spacing), i);
    }
  }

  /** One turn of the loop with a constant solve time. */
  lemma SteadyTurn(c: nat, i: nat)
    requires 1 <= c <= 900 && 1 <= i <= 100
    ensures U64(c * Triangle(i - 1) + Times(c, i)) == c * Triangle(i)
  {
    hide Triangle, U64, Times;
    var t: nat, sum: nat := Triangle(i - 1), c * Triangle(i - 1);
    MulAtMost(t, c, 900);
    MulCommutes(t, c);
    MulCommutes(t, 900);
    AccumulatePart(sum, c, i, 150);
    TriangleStep(i);
    MulDistributes(c, t, i);
  }

  lemma CountedSolveTime(spacing: nat)
    requires spacing < TWO63
    ensures SolveTime(spacing, 150) == Counted(spacing)
    ensures 1 <= Counted(spacing) <= 900 && 5050 * Counted(spacing) < TWO64
  {
  }

  /** The work of a steady window, and the weight of its solve times. */
  function SteadyWork(n: nat, difficulty: nat): u64 {
    U64(n * difficulty)
  }

  function SteadySum(n: nat, spacing: nat): u64 {
    U64(Counted(spacing) * Triangle(n))
  }

  function SteadyScaled(n: nat, difficulty: nat, spacing: nat): u64
    requires n >= 1
  {
    Scale(SteadyWork(n, difficulty), SteadySum(n, spacing), n, 150)
  }

  /** What the step clamp receives from a steady window, short or full. */
  function SteadyUnclamped(count: nat, difficulty: nat, spacing: nat): u64
    requires count >= 2
  {
    var scaled := SteadyScaled(WindowLength(count), difficulty, spacing);
    if count <= 100 then scaled else Correct(scaled, U64(100 * spacing), 15000)
  }

  /** The casts of a steady window stay within 64 bits. */
  predicate SteadyFits(count: nat, difficulty: nat, spacing: nat)
    requires count >= 2
  {
    var n := WindowLength(count);
    && ScaleFits(SteadyWork(n, difficulty), SteadySum(n, spacing), n, 150)
    && (count <= 100 || CorrectFits(SteadyScaled(n, difficulty, spacing), U64(100 * spacing), 15000))
  }

  lemma SteadyParts(timestamps: seq<u64>, cumulative: seq<u64>, spacing: nat, difficulty: u64)
    requires SteadyWindow(timestamps, cumulative, spacing, difficulty) && spacing < TWO63
    ensures var n := WindowLength(|timestamps|);
            && WindowDifficulty(timestamps, cumulative) == SteadyWork(n, difficulty)
            && WindowWeight(timestamps, 150) == SteadySum(n, spacing)
            && PreviousDifficulty(timestamps, cumulative) == difficulty
            && Minus(timestamps[|timestamps| - 1], timestamps[|timestamps| - 1 - n]) == U64(n * spacing)
  {
    hide U64, Triangle, WeightedSum, Minus;
    var n := WindowLength(|timestamps|);
    SteadySpan(cumulative, difficulty, n, n);
    SteadySpan(cumulative, difficulty, n, 1);
    SteadySpan(timestamps, spacing, n, n);
    SteadyWeight(timestamps, spacing, n, n);
    U64Small(WindowWeight(timestamps, 150));
    U64Small(difficulty);
  }

  /** The retarget of a steady window in closed form, for every window length. */
  lemma SteadyWindowValue(timestamps: seq<u64>, cumulative: seq<u64>, spacing: nat, difficulty: u64)
    requires SteadyWindow(timestamps, cumulative, spacing, difficulty) && spacing < TWO63
    ensures NextDifficulty(timestamps, cumulative, TARGET_SECONDS)
         == StepClamp(difficulty, SteadyUnclamped(|timestamps|, difficulty, spacing))
    ensures CastsFit(timestamps, cumulative, TARGET_SECONDS) <==> SteadyFits(|timestamps|, difficulty, spacing)
  {
    hide SteadySteps, SteadyWork, SteadySum, Scale, Correct, ScaleFits, CorrectFits, StepClamp, U64, Minus, WindowWeight,
         WindowDifficulty, PreviousDifficulty;
    SteadyParts(timestamps, cumulative, spacing, difficulty);
    U64Small(100 * 150);
  }

  // ----- the scaled value of a steady window -----

  /** a / 150 may or may not round into 64 bits. */
  predicate OnTheEdge(a: nat) {
    && 562949953421312 * (TWO64 * 150) <= 562949953421313 * a
    && 562949953421311 * a < 562949953421312 * (TWO64 * 150)
  }

  lemma CancelNear(q: nat, x: nat, t: nat, c: nat)
    requires t >= 1 && NearQuotient(q, x * t, t * c)
    ensures NearQuotient(q, x, c)
  {
    var xt, qt, qs := x * t, q * (t * c), (q + 1) * (t * c);
    assert 562949953421312 * qt <= 562949953421313 * xt;
    assert 562949953421311 * xt < 562949953421312 * qs;
    MulLeftCommutes(q, t, c);
    MulCommutes(t, q * c);
    CancelUpperProduct(q * c, x, t);
    CancelLower(q + 1, x, t, c);
  }

  lemma CancelUpperProduct(y: nat, x: nat, t: nat)
    requires t >= 1 && 562949953421312 * (y * t) <= 562949953421313 * (x * t)
    ensures 562949953421312 * y <= 562949953421313 * x
  {
    CancelUpper(y, x, t);
  }

  lemma CancelEdge(x: nat, t: nat)
    requires t >= 1
    ensures 562949953421311 * (x * t) < 562949953421312 * (TWO64 * (t * 150)) ==>
              562949953421311 * x < 562949953421312 * (TWO64 * 150)
    ensures 562949953421312 * (TWO64 * (t * 150)) <= 562949953421313 * (x * t) ==>
              562949953421312 * (TWO64 * 150) <= 562949953421313 * x
  {
    var xt, bound := x * t, TWO64 * (t * 150);
    if 562949953421311 * xt < 562949953421312 * bound {
      CancelLower(TWO64, x, t, 150);
    }
    if 562949953421312 * bound <= 562949953421313 * xt {
      MulCommutes(150, t);
      assert bound == (TWO64 * 150) * t;
      CancelUpper(TWO64 * 150, x, t);
    }
  }

  /** Up to rounding a steady window of n intervals scales the difficulty D to n * D * c / 150. */
  lemma SteadyNear(n: nat, difficulty: u64, spacing: nat, a: nat)
    requires 1 <= n <= 100 && 100 * difficulty < TWO64 && a == (n * difficulty) * Counted(spacing)
    ensures var fits := ScaleFits(SteadyWork(n, difficulty), SteadySum(n, spacing), n, 150);
            && (fits ==> NearQuotient(SteadyScaled(n, difficulty, spacing), a, 150))
            && (!OnTheEdge(a) ==> (fits <==> a < TWO64 * 150))
  {
    hide Triangle, ScaleFits, Scale, U64, Counted;
    var c, t, w := Counted(spacing), Triangle(n), n * difficulty;
    CountedRange(spacing);
    TrianglePositive(n);
    TriangleUpTo100(n);
    MulAtMost(c, t, 5050);
    MulCommutes(c, 5050);
    U64Small(c * t);
    MulAtMost(difficulty, n, 100);
    MulCommutes(difficulty, n);
    U64Small(w);
    ScaleNear(w, c * t, n, 150);
    MulAssociative(w, c, t);
    CancelEdge(a, t);
    if ScaleFits(w, c * t, n, 150) {
      CancelNear(SteadyScaled(n, difficulty, spacing), a, t, 150);
    }
  }

  lemma CountedRange(spacing: nat)
    ensures 1 <= Counted(spacing) <= 900
  {
  }

  // ----- short windows -----

  /** A short window scales by n * c / 150, and rounding counts only where that is one. */
  lemma ShortWindow(n: nat, difficulty: u64, spacing: nat)
    requires 1 <= n <= 99 && difficulty >= 1 && 100 * difficulty < TWO64
    ensures var y, q := n * Counted(spacing), SteadyScaled(n, difficulty, spacing);
            var fits := ScaleFits(SteadyWork(n, difficulty), SteadySum(n, spacing), n, 150);
            && (y < 150 ==> fits && q < difficulty)
            && (y > 150 && fits ==> q >= difficulty)
            && (y == 150 && difficulty < 0x1_0000_0000_0000 ==> fits && difficulty - 1 <= q <= difficulty)
  {
    hide SteadyScaled, ScaleFits, Counted, SteadyWork, SteadySum;
    var c := Counted(spacing);
    var y := n * c;
    var a: nat := (n * difficulty) * c;
    MulCommutes(n, difficulty);
    MulAssociative(difficulty, n, c);
    SteadyNear(n, difficulty, spacing, a);
    assert a == difficulty * y;
    if y < 150 {
      MulAtMost(difficulty, y, 149);
    } else {
      MulAtMost(difficulty, 150, y);
      if y > 150 {
        MulAtMost(difficulty, 151, y);
      }
    }
  }

  // ----- full windows -----

  /** Slow blocks: the solve times outweigh the halving. */
  lemma SlowRise(difficulty: nat, product: nat, s: nat, r: nat)
    requires difficulty >= 2 && product >= 300 * difficulty
    requires 562949953421311 * (100 * product) < 562949953421312 * ((s + 1) * 150)
    requires 562949953421311 * (s + 1) <= 562949953421312 * (2 * (r + 1))
    ensures r >= 2 * difficulty
  {
  }

  /** Fast blocks: the doubling outweighs the solve times. */
  lemma FastRise(difficulty: nat, product: nat, s: nat, r: nat)
    requires difficulty > 3 && product >= difficulty
    requires 562949953421311 * (100 * product) < 562949953421312 * ((s + 1) * 150)
    requires s <= 0x10_0000_0000_0000 ==> r == 2 * s
    requires 562949953421311 * (2 * s) < 562949953421312 * (r + 1)
    ensures r >= difficulty && (difficulty > 10 ==> r >= difficulty * 115 / 100)
  {
    if s <= 0x10_0000_0000_0000 {
      if product <= 0x8000_0000_0000 {
        assert 3 * (s + 1) >= 2 * product;
      } else {
        assert 200 * s >= 115 * product;
      }
    }
  }

  /** In between, up to rounding, the two cancel. */
  lemma MiddleRise(difficulty: nat, product: nat, spacing: nat, s: nat, r: nat)
    requires difficulty >= 1 && 75 < spacing < 300 && product == difficulty * spacing
    requires 562949953421311 * (100 * product) < 562949953421312 * ((s + 1) * 150)
    requires NearQuotient(r, s * 15000, 100 * spacing)
    ensures r >= 2 * difficulty
  {
    var rs: nat := (r + 1) * (100 * spacing);
    assert 562949953421311 * (s * 15000) < 562949953421312 * rs;
    hide NearQuotient;
    MulAtMost(spacing, 1, difficulty);
    MulCommutes(spacing, difficulty);
    if r < 2 * difficulty {
      MulAtMost(100 * spacing, r + 1, 2 * difficulty);
      MulCommutes(100 * spacing, r + 1);
      MulLeftCommutes(100 * spacing, 2, difficulty);
      MulAssociative(100, spacing, difficulty);
      MulCommutes(spacing, difficulty);
      MiddleTooSmall(product, s, rs);
    }
  }

  lemma MiddleTooSmall(product: nat, s: nat, rs: nat)
    requires product >= 76
    requires 562949953421311 * (100 * product) < 562949953421312 * ((s + 1) * 150)
    requires 562949953421311 * (s * 15000) < 562949953421312 * rs
    ensures rs > 200 * product
  {
  }

  /** The one small case: difficulty 3, a second between blocks. */
  lemma ThreeDoubles()
    ensures SteadyScaled(100, 3, 1) >= 2
  {
    assert Triangle(100) == 5050;
    hide ScaledDouble, Triangle, U64;
    U64Small(300);
    U64Small(5050);
    SteadyNear(100, 3, 1, 300);
    ThreeOver();
  }

  lemma FullWindowRises(difficulty: u64, spacing: nat)
    requires 1 <= spacing < TWO63 && 115 * difficulty < TWO64 && SteadyFits(101, difficulty, spacing)
    ensures difficulty >= 2 ==> SteadyUnclamped(101, difficulty, spacing) >= difficulty
    ensures difficulty > 10 ==> SteadyUnclamped(101, difficulty, spacing) >= difficulty * 115 / 100
  {
    if difficulty >= 2 {
      hide SteadyScaled, ScaleFits, CorrectFits, SteadyWork, SteadySum, Correct, U64, Counted, NearQuotient, OnTheEdge;
      var s := SteadyScaled(100, difficulty, spacing);
      FullNear(difficulty, spacing);
      FullRisesBy(difficulty, spacing, s, difficulty * Counted(spacing));
    }
  }

  lemma FullNear(difficulty: u64, spacing: nat)
    requires 115 * difficulty < TWO64 && ScaleFits(SteadyWork(100, difficulty), SteadySum(100, spacing), 100, 150)
    ensures difficulty * Counted(spacing) >= difficulty
    ensures NearQuotient(SteadyScaled(100, difficulty, spacing), 100 * (difficulty * Counted(spacing)), 150)
  {
    hide SteadyScaled, ScaleFits, SteadyWork, SteadySum, Counted, NearQuotient, OnTheEdge;
    var c := Counted(spacing);
    var product := difficulty * c;
    CountedRange(spacing);
    MulAtMost(difficulty, 1, c);
    MulAssociative(100, difficulty, c);
    SteadyNear(100, difficulty, spacing, 100 * product);
  }

  lemma FullRisesBy(difficulty: u64, spacing: nat, s: u64, product: nat)
    requires difficulty >= 2 && 1 <= spacing < TWO63 && product == difficulty * Counted(spacing)
    requires s == SteadyScaled(100, difficulty, spacing) && CorrectFits(s, U64(100 * spacing), 15000)
    requires NearQuotient(s, 100 * product, 150)
    ensures var r := Correct(s, U64(100 * spacing), 15000);
            r >= difficulty && (difficulty > 10 ==> r >= difficulty * 115 / 100)
  {
    assert 562949953421311 * (100 * product) < 562949953421312 * ((s + 1) * 150);
    hide SteadyScaled, CorrectFits, Correct, U64, Counted, NearQuotient;
    CountedIs(spacing);
    if spacing >= 300 {
      CorrectRange(s, U64(100 * spacing), 15000);
      MulAtMost(difficulty, 300, Counted(spacing));
      SlowRise(difficulty, product, s, Correct(s, U64(100 * spacing), 15000));
    } else {
      U64Small(100 * spacing);
      var r := Correct(s, 100 * spacing, 15000);
      if spacing > 75 {
        CorrectScales(s, 100 * spacing, 15000);
        MiddleRise(difficulty, product, spacing, s, r);
      } else {
        CorrectDoubles(s, 100 * spacing, 15000);
        MulAtMost(difficulty, 1, spacing);
        SmallDoubles(difficulty, product, spacing, s, r);
      }
    }
  }

  lemma CountedIs(spacing: nat)
    ensures spacing >= 300 ==> Counted(spacing) >= 300
    ensures 1 <= spacing < 900 ==> Counted(spacing) == spacing
  {
  }

  lemma SmallDoubles(difficulty: u64, product: nat, spacing: nat, s: nat, r: nat)
    requires difficulty >= 2 && 1 <= spacing <= 75 && product == difficulty * spacing >= difficulty
    requires s == SteadyScaled(100, difficulty, spacing)
    requires 562949953421311 * (100 * product) < 562949953421312 * ((s + 1) * 150)
    requires s <= 0x10_0000_0000_0000 ==> r == 2 * s
    requires 562949953421311 * (2 * s) < 562949953421312 * (r + 1)
    ensures r >= difficulty && (difficulty > 10 ==> r >= difficulty * 115 / 100)
  {
    hide SteadyScaled;
    if difficulty > 3 {
      FastRise(difficulty, product, s, r);
    } else if difficulty == 3 && spacing == 1 {
      ThreeDoubles();
    } else {
      assert product >= 2 && (difficulty == 3 ==> product >= 6);
      assert s >= 1 && (difficulty == 3 ==> s >= 2);
    }
  }

  // ----- when a steady window falls -----

  /** Without a single second between blocks there is no correction, and a full window scales by 2/3. */
  lemma FullWindowAtOnce(difficulty: u64)
    requires difficulty >= 1 && 115 * difficulty < TWO64
    ensures SteadyFits(101, difficulty, 0) && SteadyUnclamped(101, difficulty, 0) < difficulty
  {
    hide SteadyScaled, ScaleFits, SteadyWork, SteadySum;
    SteadyNear(100, difficulty, 0, 100 * difficulty);
    U64Small(0);
  }

  /** When a steady window lowers the difficulty.  A window of n < 100 intervals does so exactly when
      n times the counted spacing is below 150 seconds; a full one only when all its timestamps are
      equal; and where a full rise would wrap, every one does.  Only n times the spacing equal to 150
      is left to the rounding. */
  lemma SteadyWindowFallsExactly(timestamps: seq<u64>, cumulative: seq<u64>, spacing: nat, difficulty: u64)
    requires SteadyWindow(timestamps, cumulative, spacing, difficulty) && spacing < TWO63
    requires 115 * difficulty >= TWO64 || SteadyFits(|timestamps|, difficulty, spacing)
    requires |timestamps| <= 100 ==> WindowLength(|timestamps|) * Counted(spacing) != 150
    ensures NextDifficulty(timestamps, cumulative, TARGET_SECONDS) < difficulty <==>
            && difficulty > 1
            && (|| 115 * difficulty >= TWO64
                || (if |timestamps| <= 100 then WindowLength(|timestamps|) * Counted(spacing) < 150 else spacing == 0))
  {
    hide SteadySteps, NextDifficulty, SteadyScaled, SteadyWork, SteadySum, Counted, ScaleFits, Correct, CorrectFits,
         StepClamp;
    var unclamped := SteadyUnclamped(|timestamps|, difficulty, spacing);
    SteadyWindowValue(timestamps, cumulative, spacing, difficulty);
    FallsExactly(difficulty, unclamped);
    if 115 * difficulty < TWO64 && difficulty > 1 {
      if |timestamps| <= 100 {
        ShortWindow(WindowLength(|timestamps|), difficulty, spacing);
      } else if spacing == 0 {
        FullWindowAtOnce(difficulty);
      } else {
        FullWindowRises(difficulty, spacing);
      }
    }
  }

  /** And there the result is the difficulty or one less. */
  lemma SteadyWindowOnTarget(timestamps: seq<u64>, cumulative: seq<u64>, spacing: nat, difficulty: u64)
    requires SteadyWindow(timestamps, cumulative, spacing, difficulty) && spacing < TWO63 && |timestamps| <= 100
    requires WindowLength(|timestamps|) * Counted(spacing) == 150
    requires 1 <= difficulty < 0x1_0000_0000_0000
    ensures difficulty - 1 <= NextDifficulty(timestamps, cumulative, TARGET_SECONDS) <= difficulty
  {
    hide SteadySteps, NextDifficulty, SteadyScaled, SteadyWork, SteadySum, Counted, ScaleFits;
    SteadyWindowValue(timestamps, cumulative, spacing, difficulty);
    ShortWindow(WindowLength(|timestamps|), difficulty, spacing);
    OneBelow(difficulty, SteadyUnclamped(|timestamps|, difficulty, spacing));
  }

  lemma OneBelow(previous: u64, raw: u64)
    requires 1 <= previous < 0x1_0000_0000_0000 && previous - 1 <= raw <= previous
    ensures previous - 1 <= StepClamp(previous, raw) <= previous
  {
  }

  /** 150 times the exact scaled value. */
  function SteadyProduct(count: nat, difficulty: nat, spacing: nat): (a: nat)
    requires count >= 1
  {
    NotNegative(WindowLength(count), difficulty);
    NotNegative(WindowLength(count) * difficulty, Counted(spacing));
    (WindowLength(count) * difficulty) * Counted(spacing)
  }

  /** Both casts of a steady window fit exactly when the scaled value does; short of a part in 2^49
      around it the edge is n D c = 150 * 2^64. */
  lemma SteadyFitsExactly(count: nat, difficulty: u64, spacing: nat)
    requires count >= 2 && spacing < 0x200_0000_0000_0000 && 115 * difficulty < TWO64
    requires !OnTheEdge(SteadyProduct(count, difficulty, spacing))
    ensures SteadyFits(count, difficulty, spacing) <==> SteadyProduct(count, difficulty, spacing) < TWO64 * 150
  {
    hide SteadyScaled, ScaleFits, SteadyWork, SteadySum, Correct, CorrectFits, Counted, OnTheEdge;
    var n, a := WindowLength(count), SteadyProduct(count, difficulty, spacing);
    SteadyNear(n, difficulty, spacing, a);
    if count > 100 && a < TWO64 * 150 {
      CorrectionFits(difficulty, spacing, SteadyScaled(n, difficulty, spacing), a);
    }
  }

  lemma CorrectionFits(difficulty: u64, spacing: nat, s: u64, a: nat)
    requires spacing < 0x200_0000_0000_0000 && 115 * difficulty < TWO64
    requires a == (100 * difficulty) * Counted(spacing) && NearQuotient(s, a, 150)
    ensures CorrectFits(s, U64(100 * spacing), 15000)
  {
    hide CorrectFits, Counted;
    CountedIs(spacing);
    U64Small(100 * spacing);
    if spacing >= 300 {
      CorrectHalves(s, 100 * spacing, 15000);
    } else if spacing > 75 {
      CorrectScales(s, 100 * spacing, 15000);
      MiddleFits(difficulty, spacing, s, a);
    } else if spacing >= 1 {
      CorrectRange(s, 100 * spacing, 15000);
      MulAtMost(100 * difficulty, spacing, 75);
    } else {
      AtOnceFits(s);
    }
  }

  lemma AtOnceFits(s: u64)
    ensures CorrectFits(s, U64(100 * 0), 15000)
  {
    U64Small(0);
  }

  lemma MiddleFits(difficulty: u64, spacing: nat, s: nat, a: nat)
    requires 75 < spacing < 300 && 115 * difficulty < TWO64
    requires a == (100 * difficulty) * spacing && NearQuotient(s, a, 150)
    ensures 562949953421313 * (s * 15000) < 562949953421312 * (TWO64 * (100 * spacing))
  {
    MulAtMost(spacing, 115 * difficulty, TWO64 - 1);
    MulCommutes(spacing, 100 * difficulty);
    MulLeftCommutes(spacing, 100, difficulty);
    MulLeftCommutes(spacing, 115, difficulty);
    var product := spacing * difficulty;
    assert a == 100 * product;
    assert 115 * product <= spacing * (TWO64 - 1);
  }

  /** The steady-window theorem: at the configured block time, a full steady window with difficulty
      above ten gets exactly 15 % more for its next block, however fast or slow it is, while the
      casts and the full rise fit. */
  lemma SteadyWindowRises(timestamps: seq<u64>, cumulative: seq<u64>, spacing: nat, difficulty: u64)
    requires |timestamps| >= 101 && SteadyWindow(timestamps, cumulative, spacing, difficulty)
    requires 1 <= spacing < TWO63 && SteadyFits(101, difficulty, spacing)
    requires difficulty > 10 && 115 * difficulty < TWO64
    ensures NextDifficulty(timestamps, cumulative, TARGET_SECONDS) == difficulty * 115 / 100
  {
    hide SteadySteps, NextDifficulty, SteadyScaled, SteadyFits, StepClamp, Correct;
    SteadyWindowValue(timestamps, cumulative, spacing, difficulty);
    FullWindowRises(difficulty, spacing);
    FullRise(difficulty, SteadyUnclamped(101, difficulty, spacing));
  }

  /** No full window with distinct timestamps lowers the difficulty while the casts and a full rise fit. */
  lemma SteadyWindowNeverFalls(timestamps: seq<u64>, cumulative: seq<u64>, spacing: nat, difficulty: u64)
    requires |timestamps| >= 101 && SteadyWindow(timestamps, cumulative, spacing, difficulty)
    requires 1 <= spacing < TWO63 && 115 * difficulty < TWO64 && SteadyFits(101, difficulty, spacing)
    ensures NextDifficulty(timestamps, cumulative, TARGET_SECONDS) >= difficulty
  {
    hide SteadySteps, NextDifficulty;
    SteadyWindowFallsExactly(timestamps, cumulative, spacing, difficulty);
  }

  // ----- examples -----

  /** A short window that falls: two intervals of 50 seconds. */
  lemma ShortWindowFalls()
    ensures NextDifficulty([1000, 1050, 1100], [1000, 2000, 3000], TARGET_SECONDS) == 850
  {
    TwoSteadySteps(1000, 50);
    TwoSteadySteps(1000, 1000);
    assert [1000, 1000 + 50, 1000 + 2 * 50] == [1000, 1050, 1100];
    hide SteadySteps, NextDifficulty, StepClamp, SteadyUnclamped;
    assert SteadyWindow([1000, 1050, 1100], [1000, 2000, 3000], 50, 1000);
    SteadyWindowValue([1000, 1050, 1100], [1000, 2000, 3000], 50, 1000);
    ShortExampleValue();
  }

  lemma TwoSteadySteps(first: u64, step: u64)
    requires first + 2 * step < TWO64
    ensures SteadySteps([first, first + step, first + 2 * step], step, 2)
  {
    U64Small(step);
  }

  lemma ShortExampleValue()
    ensures StepClamp(1000, SteadyUnclamped(3, 1000, 50)) == 850
  {
    hide SteadyScaled, ScaleFits, SteadyWork, SteadySum;
    SteadyNear(2, 1000, 50, 100000);
    ClampsTo850(SteadyScaled(2, 1000, 50));
  }

  lemma ClampsTo850(raw: u64)
    requires NearQuotient(raw, 100000, 150)
    ensures StepClamp(1000, raw) == 850
  {
  }

  /** The repository's own check for slow blocks: 121 blocks of difficulty 5000, 500 seconds
      apart, are meant to lower the difficulty and raise it to 5750. */
  lemma SlowBlocksRaiseDifficulty()
    ensures NextDifficulty(seq(121, i => 1700000000 + 500 * i), seq(121, i => 5000 * (i + 1)), TARGET_SECONDS) == 5750
  {
    var timestamps: seq<u64> := seq(121, i => 1700000000 + 500 * i);
    var cumulative: seq<u64> := seq(121, i => 5000 * (i + 1));
    SeriesIsSteady(timestamps, 500);
    SeriesIsSteady(cumulative, 5000);
    hide SteadyFits, NextDifficulty, SteadySteps;
    SteadyFitsExactly(101, 5000, 500);
    SteadyWindowRises(timestamps, cumulative, 500, 5000);
  }

  lemma SeriesIsSteady(s: seq<u64>, step: u64)
    requires |s| > 100 && forall i :: 0 <= i < |s| - 1 ==> s[i + 1] == s[i] + step
    ensures SteadySteps(s, step, 100)
  {
    forall j | 0 <= j < 100 ensures Increment(s, j) == step {
      var i := |s| - 2 - j;
      assert s[i + 1] == s[i] + step;
      U64Small(step);
    }
  }

  /** A value between the limits is taken as it is: two blocks 151 s apart with difficulty 1000. */
  lemma SlightlySlow()
    ensures NextDifficulty([1000, 1151], [1000, 2000], TARGET_SECONDS) == 1006
  {
    U64Small(151);
    U64Small(1000);
    assert SteadySteps([1000, 1151], 151, 1) && SteadySteps([1000, 2000], 1000, 1);
    hide SteadySteps, NextDifficulty, StepClamp, SteadyUnclamped;
    assert SteadyWindow([1000, 1151], [1000, 2000], 151, 1000);
    SteadyWindowValue([1000, 1151], [1000, 2000], 151, 1000);
    SlightlySlowValue();
    StepKeepsInterior(1000, 1006);
  }

  lemma SlightlySlowValue()
    ensures SteadyUnclamped(2, 1000, 151) == 1006
  {
    hide SteadyScaled, ScaleFits, SteadyWork, SteadySum;
    SteadyNear(1, 1000, 151, 151000);
  }

  /** And an uneven window: 50 s and 100 s weigh 1 * 50 + 2 * 100 = 250, so that work 200 scales to
      floor(200 * 250 / 450) = 111, between 85 % and 115 % of the last difficulty 110. */
  lemma UnevenWindow()
    ensures NextDifficulty([1000, 1050, 1150], [1000, 1090, 1200], TARGET_SECONDS) == 111
  {
    var timestamps: seq<u64>, cumulative: seq<u64> := [1000, 1050, 1150], [1000, 1090, 1200];
    UnevenWeight();
    assert Triangle(2) == 3;
    hide Scale, StepClamp, WeightedSum, Triangle;
    U64Small(200);
    U64Small(110);
    assert RawDifficulty(timestamps, cumulative, 150) == Scale(200, 250, 2, 150);
    UnevenScale();
    StepKeepsInterior(110, 111);
  }

  lemma UnevenWeight()
    ensures WeightedSum([1000, 1050, 1150], 0, 2, 150) == 250
  {
    hide WeightedSum;
    var timestamps: seq<u64> := [1000, 1050, 1150];
    WeightedSumByParts(timestamps, 0, 2, 150);
    assert SumFrom(timestamps, 0, 1) == 1000;
    assert SumFrom(timestamps, 0, 2) == 2050;
  }

  lemma UnevenScale()
    ensures Scale(200, 250, 2, 150) == 111
  {
    assert Triangle(2) == 3;
    hide Scale, ScaleFits, Triangle;
    ScaleNear(200, 250, 2, 150);
  }

  /** On target, and one less: 55 / 150 as a double, times 150, is below 55. */
  lemma RoundingFalls()
    ensures NextDifficulty([1000, 1150], [100, 155], TARGET_SECONDS) == 54
  {
    U64Small(150);
    U64Small(55);
    assert SteadySteps([1000, 1150], 150, 1) && SteadySteps([100, 155], 55, 1);
    hide SteadySteps, NextDifficulty, StepClamp, SteadyUnclamped;
    assert SteadyWindow([1000, 1150], [100, 155], 150, 55);
    SteadyWindowValue([1000, 1150], [100, 155], 150, 55);
    FiftyFourUnclamped();
    FiftyFourClamped();
  }

  /** On target, and kept: 20 / 150 as a double, times 150, is below 20 but rounds to it. */
  lemma RoundingKeeps()
    ensures NextDifficulty([1000, 1150], [100, 120], TARGET_SECONDS) == 20
  {
    U64Small(150);
    U64Small(20);
    assert SteadySteps([1000, 1150], 150, 1) && SteadySteps([100, 120], 20, 1);
    hide SteadySteps, NextDifficulty, StepClamp, SteadyUnclamped;
    assert SteadyWindow([1000, 1150], [100, 120], 150, 20);
    SteadyWindowValue([1000, 1150], [100, 120], 150, 20);
    TwentyUnclamped();
    StepKeepsInterior(20, 20);
  }

  lemma TwentyUnclamped()
    ensures SteadyUnclamped(2, 20, 150) == 20
  {
    assert Triangle(1) == 1;
    hide ScaledDouble, Triangle, U64;
    U64Small(20);
    U64Small(150);
    TwentyRounded();
  }

  lemma TwentyRounded()
    ensures ScaledDouble(20, 150, 1, 150) == 20.0
  {
    hide Product, Quotient, Round;
    assert Triangle(1) == 1;
    DoubleOfNear(1);
    DoubleOfNear(20);
    DoubleOfNear(150);
    WholeProduct(1, 150);
    TwentyOver150();
    var average := Quotient(20.0, 150.0);
    var p := average * 150.0;
    ProductRounds(average, 150.0, p);
    PowersOfTwo();
    RoundAt(p, 48, p * 281474976710656.0);
    assert NearestEven(p * 281474976710656.0) == 5629499534213120;
  }

  lemma TwentyOver150()
    ensures Quotient(20.0, 150.0) * 36028797018963968.0 == 4803839602528529.0
  {
    hide Round;
    PowersOfTwo();
    var x := 20.0 / 150.0;
    RoundAt(x, 55, x * 36028797018963968.0);
  }

  lemma FiftyFourUnclamped()
    ensures SteadyUnclamped(2, 55, 150) == 54
  {
    assert Triangle(1) == 1;
    hide ScaledDouble, Triangle, U64;
    U64Small(55);
    U64Small(150);
    FiftyFiveRounded();
  }

  lemma FiftyFourClamped()
    ensures StepClamp(55, 54) == 54
  {
  }

  lemma FiftyFiveRounded()
    ensures 54.0 <= ScaledDouble(55, 150, 1, 150) < 55.0
  {
    hide Product, Quotient, Round;
    assert Triangle(1) == 1;
    DoubleOfNear(1);
    DoubleOfNear(55);
    DoubleOfNear(150);
    WholeProduct(1, 150);
    FiftyFiveOver150();
    var average := Quotient(55.0, 150.0);
    var p := average * 150.0;
    ProductRounds(average, 150.0, p);
    PowersOfTwo();
    RoundAt(p, 47, p * 140737488355328.0);
    assert NearestEven(p * 140737488355328.0) == 7740561859543039;
  }

  lemma FiftyFiveOver150()
    ensures Quotient(55.0, 150.0) * 18014398509481984.0 == 6605279453476727.0
  {
    hide Round;
    PowersOfTwo();
    var x := 55.0 / 150.0;
    RoundAt(x, 54, x * 18014398509481984.0);
  }

  /** 300 / 757500 as a double, times 5050, is 2 or more. */
  lemma ThreeOver()
    ensures ScaledDouble(300, 5050, 100, 150) >= 2.0
  {
    hide Product, Quotient, Round;
    assert Triangle(100) == 5050;
    DoubleOfNear(300);
    DoubleOfNear(5050);
    DoubleOfNear(150);
    WholeProduct(5050, 150);
    ThreeHundredOver757500();
    var average := Quotient(300.0, 757500.0);
    var p := average * 5050.0;
    ProductRounds(average, 5050.0, p);
    RoundAtLeast(p, 2);
  }

  lemma WholeProduct(a: nat, b: nat)
    requires a * b <= 0x20_0000_0000_0000
    ensures Product(a as real, b as real) == (a * b) as real
  {
    hide Product, Round;
    RealOfProduct(a, b);
    var p: real := (a * b) as real;
    ProductRounds(a as real, b as real, p);
    RoundWhole(a * b);
  }

  lemma ThreeHundredOver757500()
    ensures Quotient(300.0, 757500.0) * 18446744073709551616.0 == 7305641217310714.0
  {
    hide Round;
    PowersOfTwo();
    var x := 300.0 / 757500.0;
    RoundAt(x, 64, x * 18446744073709551616.0);
  }

  // ----- the ratchet -----

  /** Each of the last ten difficulties is at most 15 % above the one before. */
  predicate RecentGrowthLimited(cumulative: seq<u64>) {
    |cumulative| >= 101 &&
    forall j :: 0 <= j < 9 ==> 100 * Increment(cumulative, j) <= 115 * Increment(cumulative, j + 1)
  }

  function SumOfRecent(cumulative: seq<u64>, k: nat): nat
    requires k < |cumulative|
  {
    if k == 0 then 0 else SumOfRecent(cumulative, k - 1) + Increment(cumulative, k - 1)
  }

  /** The work of the last hundred blocks fits in 64 bits. */
  predicate WorkFits(cumulative: seq<u64>) {
    |cumulative| >= 101 && SumOfRecent(cumulative, 100) < TWO64
  }

  /** The sum of the recent difficulties is what the subtraction of cumulative difficulties gives,
      modulo 2^64. */
  lemma {:induction false} RecentTelescopes(cumulative: seq<u64>, k: nat)
    requires k < |cumulative|
    ensures Minus(cumulative[|cumulative| - 1], cumulative[|cumulative| - 1 - k]) == U64(SumOfRecent(cumulative, k))
  {
    if k > 0 {
      RecentTelescopes(cumulative, k - 1);
      hide U64;
      MinusChain(cumulative[|cumulative| - 1], cumulative[|cumulative| - k], cumulative[|cumulative| - 1 - k]);
      U64AddLeft(SumOfRecent(cumulative, k - 1), Increment(cumulative, k - 1));
    }
  }

  lemma {:induction false} SumOfRecentGrows(cumulative: seq<u64>, k: nat, m: nat)
    requires k <= m < |cumulative|
    ensures SumOfRecent(cumulative, k) <= SumOfRecent(cumulative, m)
  {
    if k < m {
      SumOfRecentGrows(cumulative, k, m - 1);
    }
  }

  /** Ten terms of a series that shrinks by at most 100/115 a term already exceed 5.77 times the first. */
  lemma TenTermSum(d0: nat, d1: nat, d2: nat, d3: nat, d4: nat,
                   d5: nat, d6: nat, d7: nat, d8: nat, d9: nat)
    requires 100 * d0 <= 115 * d1 && 100 * d1 <= 115 * d2 && 100 * d2 <= 115 * d3
    requires 100 * d3 <= 115 * d4 && 100 * d4 <= 115 * d5 && 100 * d5 <= 115 * d6
    requires 100 * d6 <= 115 * d7 && 100 * d7 <= 115 * d8 && 100 * d8 <= 115 * d9
    ensures 100 * (d0 + d1 + d2 + d3 + d4 + d5 + d6 + d7 + d8 + d9) >= 577 * d0
  {
  }

  lemma WindowOutweighsTip(cumulative: seq<u64>)
    requires RecentGrowthLimited(cumulative)
    ensures 100 * SumOfRecent(cumulative, 100) >= 577 * Increment(cumulative, 0)
  {
    hide Increment;
    var d := j requires 0 <= j < 10 => Increment(cumulative, j);
    TenTermSum(d(0), d(1), d(2), d(3), d(4), d(5), d(6), d(7), d(8), d(9));
    FirstTen(cumulative);
    SumOfRecentGrows(cumulative, 10, 100);
  }

  lemma FirstTen(cumulative: seq<u64>)
    requires |cumulative| >= 101
    ensures SumOfRecent(cumulative, 10)
         == Increment(cumulative, 0) + Increment(cumulative, 1) + Increment(cumulative, 2) + Increment(cumulative, 3)
            + Increment(cumulative, 4) + Increment(cumulative, 5) + Increment(cumulative, 6) + Increment(cumulative, 7)
            + Increment(cumulative, 8) + Increment(cumulative, 9)
  {
    assert SumOfRecent(cumulative, 1) == SumOfRecent(cumulative, 0) + Increment(cumulative, 0);
    assert SumOfRecent(cumulative, 2) == SumOfRecent(cumulative, 1) + Increment(cumulative, 1);
    assert SumOfRecent(cumulative, 3) == SumOfRecent(cumulative, 2) + Increment(cumulative, 2);
    assert SumOfRecent(cumulative, 4) == SumOfRecent(cumulative, 3) + Increment(cumulative, 3);
    assert SumOfRecent(cumulative, 5) == SumOfRecent(cumulative, 4) + Increment(cumulative, 4);
    assert SumOfRecent(cumulative, 6) == SumOfRecent(cumulative, 5) + Increment(cumulative, 5);
    assert SumOfRecent(cumulative, 7) == SumOfRecent(cumulative, 6) + Increment(cumulative, 6);
    assert SumOfRecent(cumulative, 8) == SumOfRecent(cumulative, 7) + Increment(cumulative, 7);
    assert SumOfRecent(cumulative, 9) == SumOfRecent(cumulative, 8) + Increment(cumulative, 8);
    assert SumOfRecent(cumulative, 10) == SumOfRecent(cumulative, 9) + Increment(cumulative, 9);
  }

  /** The ratchet: when none of the last 100 blocks came sooner than 60 seconds after its
      predecessor, the next difficulty is the full 15 % step, no matter how the difficulties moved
      within the step limit, and no matter how late the blocks were while the casts fit. */
  lemma Ratchet(timestamps: seq<u64>, cumulative: seq<u64>)
    requires |timestamps| == |cumulative|
    requires WorkFits(cumulative) && RecentGrowthLimited(cumulative)
    requires SpacedAtLeast(timestamps, 100, 60) && CastsFit(timestamps, cumulative, TARGET_SECONDS)
    requires var d := Increment(cumulative, 0); d > 10 && 115 * d < TWO64
    ensures NextDifficulty(timestamps, cumulative, TARGET_SECONDS) == Increment(cumulative, 0) * 115 / 100
  {
    hide RawDifficulty, CastsFit, SpacedAtLeast, StepClamp, SumOfRecent, RecentGrowthLimited;
    var d: nat, w: nat, raw := Increment(cumulative, 0), SumOfRecent(cumulative, 100),
                               RawDifficulty(timestamps, cumulative, 150);
    RecentTelescopes(cumulative, 100);
    U64Small(w);
    assert WindowDifficulty(timestamps, cumulative) == w;
    WindowOutweighsTip(cumulative);
    RawRange(timestamps, cumulative, 150, 60);
    RatchetRaw(w, d, raw);
    FullRise(d, raw);
  }

  lemma RatchetRaw(w: nat, d: nat, raw: nat)
    requires d > 10 && 100 * w >= 577 * d
    requires 562949953421308 * (w * 60) < 562949953421312 * (2 * ((raw + 1) * 150))
    ensures raw >= d * 115 / 100
  {
  }
}
