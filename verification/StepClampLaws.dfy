/** What the step clamp promises, whatever raw value the retarget produced.
    Nothing here depends on how the two floating-point steps round. */
module StepClampLaws {
  import opened Words
  import opened Difficulty

  /** The advertised limit on a single step: between 85 % and 115 %, rounded down. */
  predicate WithinStep(previous: u64, next: u64) {
    previous * 85 / 100 <= next <= previous * 115 / 100
  }

  ghost predicate AlwaysWithinStep(previous: u64) {
    forall raw: u64 :: WithinStep(previous, StepClamp(previous, raw))
  }

  lemma ClampedStepIsWithin(previous: u64, raw: u64)
    requires previous > 10 && previous * 85 < TWO64
    ensures WithinStep(previous, StepClamp(previous, raw))
  {
    hide U64;
    U64Small(previous * 85);
    if previous * 115 < TWO64 {
      U64Small(previous * 115);
    } else {
      U64Unique(previous * 115, previous * 115 - TWO64, 1);
    }
  }

  /** Above the bootstrap range the advertised limit holds for every raw value exactly when
      the multiplication by 85 does not wrap; a wrap of the multiplication by 115 alone
      does no harm to it. */
  lemma StepLimitExactly(previous: u64)
    requires previous > 10
    ensures AlwaysWithinStep(previous) <==> previous * 85 < TWO64
  {
    if previous * 85 < TWO64 {
      forall raw: u64 ensures WithinStep(previous, StepClamp(previous, raw)) {
        ClampedStepIsWithin(previous, raw);
      }
    } else {
      var k := U64Split(previous * 85);
      assert k >= 1;
      assert !WithinStep(previous, StepClamp(previous, 0));
    }
  }

  /** The full 15 % rise can be reached exactly when the multiplication by 115 does not wrap. */
  lemma FullRiseExactly(previous: u64)
    requires previous > 10
    ensures (exists raw: u64 :: StepClamp(previous, raw) == previous * 115 / 100) <==> previous * 115 < TWO64
  {
    if previous * 115 < TWO64 {
      U64Small(previous * 115);
      U64Small(previous * 85);
      var raw: u64 := previous * 115 / 100;
      assert StepClamp(previous, raw) == raw;
    } else {
      var k := U64Split(previous * 115);
      var j := U64Split(previous * 85);
      forall raw: u64 ensures StepClamp(previous, raw) != previous * 115 / 100 {
        var upper := U64(previous * 115) / 100;
        var lower := U64(previous * 85) / 100;
        assert k >= 1 && upper < previous * 115 / 100;
        assert lower < previous * 115 / 100;
      }
    }
  }

  /** A raw value at or above the cap yields the cap. */
  lemma FullRise(previous: u64, raw: u64)
    requires previous > 10 && previous * 115 < TWO64 && raw >= previous * 115 / 100
    ensures StepClamp(previous, raw) == previous * 115 / 100
  {
    hide U64;
    U64Small(previous * 115);
    U64Small(previous * 85);
  }

  function Gap(x: int, y: int): nat {
    if x <= y then y - x else x - y
  }

  /** What a step does to every raw value.  Up to ten the raw value itself counts, with one as the least.
      Above ten, with the two limits as the 64-bit arithmetic gives them, the next difficulty is the
      point between the limits that is nearest to the raw value, and where wrapping turns the limits
      round it is the lower one. */
  lemma StepClampExactly(previous: u64, raw: u64)
    ensures var next := StepClamp(previous, raw);
            var low, high := (previous * 85) % 0x1_0000_0000_0000_0000 / 100, (previous * 115) % 0x1_0000_0000_0000_0000 / 100;
            && (previous <= 10 ==> next == if raw == 0 then 1 else raw)
            && (previous > 10 && 1 <= low <= high ==>
                  low <= next <= high && forall v :: low <= v <= high ==> Gap(next, raw) <= Gap(v, raw))
            && (previous > 10 && high < low ==> next == low)
            && (previous > 10 && low == 0 ==> next == if raw == 0 || high == 0 then 1 else if raw > high then high else raw)
  {
    hide U64;
    SameWord(previous * 85);
    SameWord(previous * 115);
  }

  lemma SameWord(x: nat)
    ensures U64(x) == x % 0x1_0000_0000_0000_0000
  {
  }

  /** In particular, where a full rise fits, the raw value is cut to the advertised limits and otherwise kept. */
  lemma StepKeepsInterior(previous: u64, raw: u64)
    requires previous > 10 && previous * 115 < TWO64
    ensures raw < previous * 85 / 100 ==> StepClamp(previous, raw) == previous * 85 / 100
    ensures previous * 85 / 100 <= raw <= previous * 115 / 100 ==> StepClamp(previous, raw) == raw
    ensures raw > previous * 115 / 100 ==> StepClamp(previous, raw) == previous * 115 / 100
  {
    hide U64;
    U64Small(previous * 85);
    U64Small(previous * 115);
  }

  /** Where the multiplication by 115 wraps and the one by 85 does not, the raw value has no say: the
      wrapped cap lies below the floor, and the difficulty falls by 15 %. */
  lemma WrappedCapFalls(previous: u64, raw: u64)
    requires previous * 85 < TWO64 <= previous * 115
    ensures StepClamp(previous, raw) == previous * 85 / 100
  {
    hide U64;
    U64Small(previous * 85);
    U64Unique(previous * 115, previous * 115 - TWO64, 1);
  }

  /** Above ten no step leaves the range in which 100 times the difficulty fits in 64 bits. */
  lemma StepFits(previous: u64, raw: u64)
    requires previous > 10 && 100 * previous < TWO64
    ensures 100 * StepClamp(previous, raw) < TWO64
  {
    if previous * 115 < TWO64 {
      ClampedStepIsWithin(previous, raw);
    } else {
      WrappedCapFalls(previous, raw);
    }
  }

  /** Which steps go down: with room for a full rise, exactly those whose raw value lies below a
      previous difficulty of more than one; without it, all. */
  lemma FallsExactly(previous: u64, raw: u64)
    ensures StepClamp(previous, raw) < previous <==> previous > 1 && (previous * 115 >= TWO64 || raw < previous)
  {
    if previous * 115 < TWO64 {
      hide U64;
      U64Small(previous * 115);
      U64Small(previous * 85);
    } else {
      var k := U64Split(previous * 115);
      var j := U64Split(previous * 85);
      assert U64(previous * 115) / 100 < previous;
      assert U64(previous * 85) / 100 < previous;
    }
  }

  /** A difficulty history in which each value is the clamp of its predecessor and of an
      arbitrary raw value. */
  predicate ClampedHistory(difficulties: seq<u64>, raws: seq<u64>) {
    |difficulties| == |raws| + 1 &&
    forall i :: 0 <= i < |raws| ==> difficulties[i + 1] == StepClamp(difficulties[i], raws[i])
  }

  /** Every difficulty that is left again lies in the range where the clamp is in force. */
  predicate InClampRange(difficulties: seq<u64>) {
    forall i :: 0 <= i < |difficulties| - 1 ==> difficulties[i] > 10 && difficulties[i] * 85 < TWO64
  }

  /** One factor of a geometric bound from above. */
  lemma GeometricRise(p: nat, q: nat, first: nat, before: nat, after: nat, rate: nat, base: nat)
    requires p * before <= q * first
    requires base * after <= rate * before
    ensures (base * p) * after <= (rate * q) * first
  {
    MulAtMost(p, base * after, rate * before);
    MulLeftCommutes(p, base, after);
    MulAssociative(base, p, after);
    MulLeftCommutes(p, rate, before);
    MulAtMost(rate, p * before, q * first);
    MulAssociative(rate, q, first);
  }

  /** One factor of a geometric bound from below. */
  lemma GeometricFall(p: nat, q: nat, first: nat, before: nat, after: nat, rate: nat, base: nat)
    requires p * before >= q * first
    requires base * after >= rate * before
    ensures (base * p) * after >= (rate * q) * first
  {
    MulAtMost(p, rate * before, base * after);
    MulLeftCommutes(p, base, after);
    MulAssociative(base, p, after);
    MulLeftCommutes(p, rate, before);
    MulAtMost(rate, q * first, p * before);
    MulAssociative(rate, q, first);
  }

  /** 5d + 33, the quantity that truncation cannot push below 85 % of itself in one step. */
  function Padded(d: nat): nat {
    5 * d + 33
  }

  lemma {:induction false} RiseEnvelope(difficulties: seq<u64>, raws: seq<u64>, k: nat)
    requires ClampedHistory(difficulties, raws) && InClampRange(difficulties)
    requires k < |difficulties|
    ensures Pow(100, k) * difficulties[k] <= Pow(115, k) * difficulties[0]
  {
    if k > 0 {
      RiseEnvelope(difficulties, raws, k - 1);
      assert difficulties[k - 1 + 1] == StepClamp(difficulties[k - 1], raws[k - 1]);
      ClampedStepIsWithin(difficulties[k - 1], raws[k - 1]);
      GeometricRise(Pow(100, k - 1), Pow(115, k - 1), difficulties[0], difficulties[k - 1], difficulties[k], 115, 100);
    }
  }

  lemma {:induction false} FallEnvelope(difficulties: seq<u64>, raws: seq<u64>, k: nat)
    requires ClampedHistory(difficulties, raws) && InClampRange(difficulties)
    requires k < |difficulties|
    ensures Pow(100, k) * Padded(difficulties[k]) >= Pow(85, k) * Padded(difficulties[0])
  {
    if k > 0 {
      FallEnvelope(difficulties, raws, k - 1);
      assert difficulties[k - 1 + 1] == StepClamp(difficulties[k - 1], raws[k - 1]);
      ClampedStepIsWithin(difficulties[k - 1], raws[k - 1]);
      GeometricFall(Pow(100, k - 1), Pow(85, k - 1), Padded(difficulties[0]), Padded(difficulties[k - 1]),
                    Padded(difficulties[k]), 85, 100);
    }
  }

  /** Over k blocks the difficulty rises by at most a factor 1.15^k, and with 33/5 added to both
      ends it falls to no less than 0.85^k of its start, for whatever the raw values were. */
  lemma DifficultyEnvelope(difficulties: seq<u64>, raws: seq<u64>)
    requires ClampedHistory(difficulties, raws) && InClampRange(difficulties)
    ensures var k := |raws|;
            && Pow(100, k) * difficulties[k] <= Pow(115, k) * difficulties[0]
            && Pow(100, k) * Padded(difficulties[k]) >= Pow(85, k) * Padded(difficulties[0])
  {
    RiseEnvelope(difficulties, raws, |raws|);
    FallEnvelope(difficulties, raws, |raws|);
  }
}
