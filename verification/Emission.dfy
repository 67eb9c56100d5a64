/** The block reward schedule (src/cryptonote_core/emission.cpp). */
module Emission {
  import opened Words

  /** 18.4 million coins of 10^12 atomic units. */
  const BASE_SUPPLY: u64 := 18_400_000_000_000_000_000
  /** 0.6 coins. */
  const TAIL_REWARD: u64 := 600_000_000_000

  function BlockReward(generated: u64, height: nat): u64 {
    if height == 0 then 100_000_000_000_000
    else if generated >= BASE_SUPPLY then TAIL_REWARD
    else
      var base := (BASE_SUPPLY - generated) / 0x10_0000;
      if base < TAIL_REWARD then TAIL_REWARD else base
  }

  /** The reward in numbers: 100 coins at height zero; above it the 2^20th part of what is left of
      18.4 million coins, rounded down, and never less than 0.6 coins. */
  lemma RewardExactly(generated: u64, height: nat)
    ensures height == 0 ==> BlockReward(generated, height) == 100_000_000_000_000
    ensures height > 0 ==>
              var left, reward := 18_400_000_000_000_000_000 - generated, BlockReward(generated, height);
              if left >= 1_048_576 * 600_000_000_000
              then 1_048_576 * reward <= left < 1_048_576 * (reward + 1)
              else reward == 600_000_000_000
  {
  }

  /** Coins generated by the blocks at heights 1 to n, as exact integers. */
  function Generated(n: nat): nat {
    if n == 0 then 0 else Generated(n - 1) + ExactReward(Generated(n - 1))
  }

  /** The reward above height zero for an exact total, which may exceed a word. */
  function ExactReward(generated: nat): nat {
    if generated >= BASE_SUPPLY then TAIL_REWARD
    else BlockReward(generated, 1)
  }

  /** One more block adds its reward; no words are involved. */
  lemma GeneratedStep(n: nat)
    ensures Generated(0) == 0
    ensures var left, reward := 18_400_000_000_000_000_000 - Generated(n), Generated(n + 1) - Generated(n);
            if left >= 1_048_576 * 600_000_000_000
            then 1_048_576 * reward <= left < 1_048_576 * (reward + 1)
            else reward == 600_000_000_000
  {
  }

  // ----- phases -----

  datatype Phase = Decay | Floor | Tail

  function PhaseOf(generated: nat): Phase {
    if generated >= BASE_SUPPLY then Tail
    else if (BASE_SUPPLY - generated) / 0x10_0000 >= TAIL_REWARD then Decay
    else Floor
  }

  predicate NotBefore(a: Phase, b: Phase) {
    b.Decay? || a.Tail? || (a.Floor? && b.Floor?)
  }

  /** Above height zero the reward is the same at every height, never rises as coins accumulate,
      and never falls below the tail reward. */
  lemma RewardNeverRises(earlier: u64, later: u64, height: nat, height': nat)
    requires earlier <= later && height > 0 && height' > 0
    ensures BlockReward(earlier, height) >= BlockReward(later, height') >= TAIL_REWARD
  {
  }

  lemma {:induction false} GeneratedGrows(m: nat, n: nat)
    requires m <= n
    ensures Generated(n) >= Generated(m) + (n - m) * 600_000_000_000
  {
    if m < n {
      GeneratedGrows(m, n - 1);
    }
  }

  lemma GeneratedMonotone(m: nat, n: nat)
    requires m <= n
    ensures Generated(m) <= Generated(n)
  {
    GeneratedGrows(m, n);
  }

  /** The phases come in the order decay, floor, tail. */
  lemma PhasesInOrder(m: nat, n: nat)
    requires m <= n
    ensures NotBefore(PhaseOf(Generated(n)), PhaseOf(Generated(m)))
  {
    GeneratedGrows(m, n);
  }

  // ----- the decay -----

  /** What is left of the base supply after n blocks; negative once the tail has begun. */
  function Remaining(n: nat): int {
    BASE_SUPPLY - Generated(n)
  }

  /** One block: a share of 1/2^20 leaves, rounded down, or more. */
  lemma RemainingStep(n: nat)
    ensures 0x10_0000 * Remaining(n + 1) <= 0xF_FFFF * Remaining(n) + 0xF_FFFF || Remaining(n + 1) <= 0
    ensures PhaseOf(Generated(n)).Decay? ==> 0x10_0000 * Remaining(n + 1) >= 0xF_FFFF * Remaining(n)
    ensures Remaining(n + 1) <= Remaining(n) - TAIL_REWARD
  {
  }

  /** The upper half of the sandwich, at every n: k^n (R_n - (k-1)) <= (R_0 - (k-1)) (k-1)^n for k = 2^20. */
  lemma {:induction false} DecayUpper(k: nat, n: nat)
    requires k == 0x10_0000
    ensures Pow(k, n) * (Remaining(n) - (k - 1)) <= (BASE_SUPPLY - (k - 1)) * Pow(k - 1, n)
  {
    if n > 0 {
      DecayUpper(k, n - 1);
      RemainingStep(n - 1);
      UpperStep(k, Pow(k, n - 1), Pow(k - 1, n - 1), Remaining(n - 1) - (k - 1), Remaining(n) - (k - 1),
                BASE_SUPPLY - (k - 1));
    }
  }

  lemma NotPositive(x: nat, y: int)
    requires y <= 0
    ensures x * y <= 0
  {
  }

  lemma ScaledThrough(k: nat, p: nat, before: int, after: int, first: nat, q: nat)
    requires k >= 1 && p * before <= first * q && k * after <= (k - 1) * before
    ensures (k * p) * after <= first * ((k - 1) * q)
  {
    MulAtMost(p, k * after, (k - 1) * before);
    MulAtMost(k - 1, p * before, first * q);
    MulAssociative(k, p, after);
    MulLeftCommutes(k, p, after);
    MulLeftCommutes(p, k - 1, before);
    MulLeftCommutes(k - 1, first, q);
  }

  lemma UpperStep(k: nat, p: nat, q: nat, before: int, after: int, first: nat)
    requires k >= 1 && p * before <= first * q
    requires k * after <= (k - 1) * before || after <= 0
    ensures (k * p) * after <= first * ((k - 1) * q)
  {
    if after <= 0 {
      NotPositive(k * p, after);
      NotNegative(k - 1, q);
      NotNegative(first, (k - 1) * q);
    } else {
      ScaledThrough(k, p, before, after, first, q);
    }
  }

  /** The lower half, while the decay lasts: k^n R_n >= R_0 (k-1)^n. */
  lemma {:induction false} DecayLower(k: nat, n: nat)
    requires k == 0x10_0000
    requires n > 0 ==> PhaseOf(Generated(n - 1)).Decay?
    ensures Pow(k, n) * Remaining(n) >= BASE_SUPPLY * Pow(k - 1, n)
  {
    if n > 0 {
      if n > 1 {
        PhasesInOrder(n - 2, n - 1);
      }
      DecayLower(k, n - 1);
      RemainingStep(n - 1);
      LowerStep(k, Pow(k, n - 1), Pow(k - 1, n - 1), Remaining(n - 1), Remaining(n), BASE_SUPPLY);
    }
  }

  lemma LowerStep(k: nat, p: nat, q: nat, before: int, after: int, first: nat)
    requires k >= 1 && p * before >= first * q
    requires k * after >= (k - 1) * before
    ensures (k * p) * after >= first * ((k - 1) * q)
  {
    MulAtMost(p, (k - 1) * before, k * after);
    MulAtMost(k - 1, first * q, p * before);
    MulAssociative(k, p, after);
    MulLeftCommutes(k, p, after);
    MulLeftCommutes(p, k - 1, before);
    MulLeftCommutes(k - 1, first, q);
  }

  // ----- how long the phases last -----

  lemma UpArithmetic(m: nat, n: nat, p: nat, q: nat)
    requires n >= 1 && m * p >= (m + n - 1) * q
    ensures m * ((m + 1) * p) >= (m + n) * (m * q)
  {
    var a, s := m + n - 1, m * q;
    MulAtMost(m + 1, a * q, m * p);
    MulLeftCommutes(m, m + 1, p);
    SuccessorTimes(m, a * q);
    SuccessorTimes(a, s);
    MulLeftCommutes(m, a, q);
    MulAtMost(q, m, a);
    MulCommutes(q, m);
    MulCommutes(q, a);
  }

  /** Bernoulli's inequality for 1 + 1/m, without the division. */
  lemma {:induction false} BernoulliUp(m: nat, n: nat)
    ensures m * Pow(m + 1, n) >= (m + n) * Pow(m, n)
  {
    if n > 0 {
      BernoulliUp(m, n - 1);
      UpArithmetic(m, n, Pow(m + 1, n - 1), Pow(m, n - 1));
    }
  }

  lemma DownArithmetic(k: nat, n: nat, p: nat, q: nat)
    requires 1 <= n <= k && k * q >= (k - n + 1) * p
    ensures k * ((k - 1) * q) >= (k - n) * (k * p)
  {
    var a, s := k - n + 1, k * p;
    MulAtMost(k - 1, a * p, k * q);
    MulLeftCommutes(k, k - 1, q);
    SuccessorTimes(k - 1, a * p);
    SuccessorTimes(a - 1, s);
    MulLeftCommutes(k, a, p);
    MulAtMost(p, a, k);
    MulCommutes(p, a);
    MulCommutes(p, k);
  }

  /** Bernoulli's inequality for 1 - 1/k, without the division. */
  lemma {:induction false} BernoulliDown(k: nat, n: nat)
    requires 1 <= k && n <= k
    ensures k * Pow(k - 1, n) >= (k - n) * Pow(k, n)
  {
    if n > 0 {
      BernoulliDown(k, n - 1);
      DownArithmetic(k, n, Pow(k, n - 1), Pow(k - 1, n - 1));
    }
  }

  lemma Twice(m: nat, u: nat, v: nat)
    requires m >= 1 && m * u >= (2 * m + 1) * v
    ensures u >= 2 * v
  {
    SuccessorTimes(2 * m, v);
    MulLeftCommutes(2, m, v);
    MulAssociative(2, m, v);
    CancelFactor(m, 2 * v, u);
  }

  lemma ProductAtLeast(a: nat, u: nat, t: nat, b: nat, v: nat)
    requires a >= t * b && u >= 2 * v
    ensures a * u >= (2 * t) * (b * v)
  {
    MulAtMost(u, t * b, a);
    MulAtMost(t * b, 2 * v, u);
    MulAssociative(t * b, 2, v);
    MulAssociative(2 * t, b, v);
    MulCommutes(t * b, 2);
    MulAssociative(2, t, b);
    MulCommutes(u, t * b);
    MulCommutes(u, a);
  }

  lemma {:induction false} HalvingPower(k: nat, j: nat)
    requires k >= 2
    ensures Pow(k, j * k) >= Pow(2, j) * Pow(k - 1, j * k)
  {
    if j > 0 {
      var n := (j - 1) * k;
      assert j * k == n + k;
      HalvingPower(k, j - 1);
      BernoulliUp(k - 1, k);
      Twice(k - 1, Pow(k, k), Pow(k - 1, k));
      ProductAtLeast(Pow(k, n), Pow(k, k), Pow(2, j - 1), Pow(k - 1, n), Pow(k - 1, k));
      PowAdd(k, n, k);
      PowAdd(k - 1, n, k);
    }
  }

  lemma ShareLeft(t: nat, p: nat, q: nat, r: int, first: nat)
    requires q > 0 && p >= t * q && p * r <= first * q
    ensures t * r <= first
  {
    if r > 0 {
      MulAtMost(r, t * q, p);
      MulLeftCommutes(r, t, q);
      MulCommutes(r, q);
      MulLeftCommutes(t, q, r);
      MulCommutes(r, p);
      MulCommutes(first, q);
      CancelFactor(q, t * r, first);
    } else {
      MulAtMost(t, r, 0);
    }
  }

  /** The half-life: every 2^20 blocks at least halve what is left of the base supply. */
  lemma HalfLife(k: nat, j: nat)
    requires k == 0x10_0000
    ensures Pow(2, j) * (Remaining(j * k) - (k - 1)) <= BASE_SUPPLY - (k - 1)
  {
    DecayUpper(k, j * k);
    HalvingPower(k, j);
    ShareLeft(Pow(2, j), Pow(k, j * k), Pow(k - 1, j * k), Remaining(j * k) - (k - 1), BASE_SUPPLY - (k - 1));
  }

  /** One sixteenth of 2^20 blocks multiplies by at least 15/16. */
  lemma SixteenthDown(k: nat, h: nat)
    requires h >= 1 && k == 16 * h
    ensures 16 * Pow(k - 1, h) >= 15 * Pow(k, h)
  {
    BernoulliDown(k, h);
    MulLeftCommutes(h, 16, Pow(k - 1, h));
    MulAssociative(16, h, Pow(k - 1, h));
    MulLeftCommutes(h, 15, Pow(k, h));
    MulAssociative(15, h, Pow(k, h));
    CancelFactor(h, 15 * Pow(k, h), 16 * Pow(k - 1, h));
  }

  /** And by at most 16/17. */
  lemma SixteenthUp(k: nat, h: nat)
    requires h >= 1 && k == 16 * h
    ensures 16 * Pow(k, h) >= 17 * Pow(k - 1, h)
  {
    BernoulliUp(k - 1, h);
    var u, v := Pow(k, h), Pow(k - 1, h);
    SuccessorTimes(k - 1, u);
    SuccessorTimes(k - 1 + h, v);
    PowersInOrder(k - 1, k, h);
    MulLeftCommutes(h, 16, u);
    MulAssociative(16, h, u);
    MulLeftCommutes(h, 17, v);
    MulAssociative(17, h, v);
    CancelFactor(h, 17 * v, 16 * u);
  }

  /** (16/15)^52 is at most 29. */
  lemma FiftyTwoSixteenths()
    ensures Pow(16, 52) <= 29 * Pow(15, 52)
  {
    PowFourTimes(16, 13, 4_503_599_627_370_496);
    PowFourTimes(15, 13, 1_946_195_068_359_375);
  }

  /** (17/16)^56 is at least 59/2. */
  lemma FiftySixSixteenths()
    ensures 59 * Pow(16, 56) <= 2 * Pow(17, 56)
  {
    PowFourTimes(16, 14, 72_057_594_037_927_936);
    PowFourTimes(17, 14, 168_377_826_559_400_929);
  }

  lemma PowFourTimes(b: nat, e: nat, p: nat)
    requires Pow(b, e) == p
    ensures Pow(b, 4 * e) == (p * p) * (p * p)
  {
    PowAdd(b, e, e);
    PowAdd(b, 2 * e, 2 * e);
  }

  /** The ratio after 52 sixteenths of 2^20 blocks. */
  lemma AtMost29(k: nat, h: nat)
    requires h >= 1 && k == 16 * h
    ensures Pow(k, 52 * h) <= 29 * Pow(k - 1, 52 * h)
  {
    hide Pow;
    SixteenthDown(k, h);
    PowerRatio(16, 15, k - 1, k, h, 52);
    FiftyTwoSixteenths();
    RatioThrough(Pow(16, 52), Pow(15, 52), Pow(k - 1, 52 * h), Pow(k, 52 * h), 29, 1);
  }

  /** And after 56. */
  lemma AtLeast59Halves(k: nat, h: nat)
    requires h >= 1 && k == 16 * h
    ensures 2 * Pow(k, 56 * h) >= 59 * Pow(k - 1, 56 * h)
  {
    hide Pow;
    SixteenthUp(k, h);
    PowerRatio(16, 17, k, k - 1, h, 56);
    FiftySixSixteenths();
    RatioThrough(Pow(16, 56), Pow(17, 56), Pow(k, 56 * h), Pow(k - 1, 56 * h), 2, 59);
  }

  lemma LeftAtLeast(p: nat, q: nat, r: int, first: nat, t: nat)
    requires p > 0 && p <= t * q && p * r >= first * q
    ensures first <= t * r
  {
    MulAtMost(first, p, t * q);
    MulAtMost(t, first * q, p * r);
    MulLeftCommutes(first, t, q);
    MulLeftCommutes(t, p, r);
    MulCommutes(first, p);
    CancelFactor(p, first, t * r);
  }

  /** The decay lasts for at least 3.25 * 2^20 blocks. */
  lemma {:induction false} DecayLasts(k: nat, n: nat)
    requires k == 0x10_0000 && n <= 3_407_872
    ensures PhaseOf(Generated(n)).Decay?
  {
    if n > 0 {
      DecayLasts(k, n - 1);
      DecayLower(k, n);
      AtMost29(k, 0x1_0000);
      RatioUpTo(k - 1, k, 29, n, 3_407_872);
      hide Pow;
      LeftAtLeast(Pow(k, n), Pow(k - 1, n), Remaining(n), BASE_SUPPLY, 29);
    }
  }

  /** The decay is over after 3.5 * 2^20 blocks. */
  lemma DecayEnds(k: nat, n: nat)
    requires k == 0x10_0000 && n >= 3_670_016
    ensures !PhaseOf(Generated(n)).Decay?
  {
    hide Pow, Generated;
    DecayUpper(k, 3_670_016);
    AtLeast59Halves(k, 0x1_0000);
    var p, q, r := Pow(k, 3_670_016), Pow(k - 1, 3_670_016), Remaining(3_670_016) - (k - 1);
    PowPositive(k - 1, 3_670_016);
    MulAssociative(2, p, r);
    MulAssociative(2, BASE_SUPPLY - (k - 1), q);
    ShareLeft(59, 2 * p, q, r, 2 * (BASE_SUPPLY - (k - 1)));
    PhasesInOrder(3_670_016, n);
  }

  /** From the end of the decay the base supply is complete within 2^20 blocks. */
  lemma FloorEnds(n: nat)
    requires !PhaseOf(Generated(n)).Decay?
    ensures Generated(n + 0x10_0000) >= BASE_SUPPLY
  {
    GeneratedGrows(n, n + 0x10_0000);
  }

  lemma {:induction false} LeftInFloor(k: nat, n: nat, m: nat)
    requires k == 0x10_0000 && PhaseOf(Generated(n)).Decay? && m <= k
    ensures Remaining(n + m) >= 600_000_000_000 * (k - m)
  {
    if m > 0 {
      LeftInFloor(k, n, m - 1);
      RemainingStep(n + m - 1);
    }
  }

  /** The whole schedule: decay through block 3.25 * 2^20 and over by 3.5 * 2^20, base supply
      incomplete before 4.25 * 2^20 and complete by 4.5 * 2^20. */
  lemma EmissionSchedule(n: nat)
    ensures n <= 3_407_872 ==> PhaseOf(Generated(n)).Decay?
    ensures n >= 3_670_016 ==> !PhaseOf(Generated(n)).Decay?
    ensures n < 4_456_448 ==> !PhaseOf(Generated(n)).Tail?
    ensures n >= 4_718_592 ==> PhaseOf(Generated(n)).Tail?
  {
    hide Generated;
    var k := 0x10_0000;
    DecayLasts(k, 3_407_872);
    DecayEnds(k, 3_670_016);
    if n <= 3_407_872 {
      DecayLasts(k, n);
    } else if n < 4_456_448 {
      LeftInFloor(k, 3_407_872, n - 3_407_872);
    }
    if n >= 3_670_016 {
      DecayEnds(k, n);
    }
    if n >= 4_718_592 {
      FloorEnds(3_670_016);
      PhasesInOrder(4_718_592, n);
    }
  }

  // ----- the end of the word -----

  /** The block that completes the base supply overshoots by less than one tail reward, and m
      further blocks add exactly m tail rewards. */
  lemma {:induction false} TailAfterCrossing(n: nat, m: nat)
    requires Generated(n) < BASE_SUPPLY <= Generated(n + 1)
    ensures Generated(n + 1 + m) == Generated(n + 1) + m * 600_000_000_000
    ensures Generated(n + 1) < BASE_SUPPLY + TAIL_REWARD
  {
    if m > 0 {
      TailAfterCrossing(n, m - 1);
      assert Generated(n + 1 + m) == Generated(n + m) + ExactReward(Generated(n + m));
      assert m * 600_000_000_000 == (m - 1) * 600_000_000_000 + TAIL_REWARD;
    }
  }

  lemma {:induction false} StaysBelow(n: nat, m: nat)
    requires Generated(n) < BASE_SUPPLY
    ensures Generated(n + 1 + m) < BASE_SUPPLY + (m + 1) * 600_000_000_000
  {
    if m > 0 {
      StaysBelow(n, m - 1);
      assert Generated(n + 1 + m) == Generated(n + m) + ExactReward(Generated(n + m));
    }
  }

  /** While the base supply is not complete, the total still fits in 64 bits 77906 blocks later. */
  lemma FitsAfter(n: nat, m: nat)
    requires Generated(n) < BASE_SUPPLY && m <= 77905
    ensures Generated(n + 1 + m) <= U64_MAX
  {
    StaysBelow(n, m);
  }

  /** No chain of up to 4.25 * 2^20 + 77905 blocks overflows the total. */
  lemma NoOverflow(n: nat)
    requires n <= 4_456_448 + 77_905
    ensures Generated(n) <= U64_MAX
  {
    EmissionSchedule(4_456_447);
    if n <= 4_456_447 {
      GeneratedGrows(n, 4_456_447);
    } else {
      FitsAfter(4_456_447, n - 4_456_448);
    }
  }

  /** Every chain of at least 4.5 * 2^20 + 77907 blocks does. */
  lemma Overflows(n: nat)
    requires n >= 4_718_592 + 77_907
    ensures Generated(n) > U64_MAX
  {
    hide Generated;
    EmissionSchedule(4_718_592);
    GeneratedGrows(4_718_592, n);
  }

  /** The last length whose total fits: it exists, and lies between the two bounds. */
  lemma {:induction false} LastThatFits(low: nat, high: nat) returns (n: nat)
    requires low < high && Generated(low) <= U64_MAX < Generated(high)
    ensures low <= n < high && Generated(n) <= U64_MAX < Generated(n + 1)
    decreases high - low
  {
    if low + 1 == high {
      n := low;
    } else if Generated(low + 1) <= U64_MAX {
      n := LastThatFits(low + 1, high);
    } else {
      n := low;
    }
  }
}
