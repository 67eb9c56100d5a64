/** Difficulties along a chain: how large they get, how fast they move, and where they end up. */
module ChainDifficulty {
  import opened Words
  import opened Doubles
  import opened CryptonoteTypes
  import opened Difficulty
  import opened DifficultyLaws
  import opened DifficultyTrends
  import opened StepClampLaws
  import opened Chain
  import opened ChainLaws

  // ----- difficulties and cumulative difficulties -----

  lemma CumulativeUpTo(upTo: seq<u64>, before: seq<u64>, t: u64)
    requires before != [] && upTo == before + [t]
    ensures CumulativeOf(upTo) == CumulativeOf(before) + [NextCumulative(before, CumulativeOf(before))]
  {
    hide CumulativeOf, NextCumulative;
    CumulativeExtends(before, t);
  }

  lemma CumulativeAt(timestamps: seq<u64>, i: nat)
    requires 1 <= i < |timestamps|
    ensures CumulativeOf(timestamps)[i] == NextCumulative(timestamps[..i], CumulativeOf(timestamps[..i]))
    ensures CumulativeOf(timestamps)[i - 1] == Last(CumulativeOf(timestamps[..i]))
  {
    hide CumulativeOf, NextCumulative;
    var before, c := CumulativeOf(timestamps[..i]), CumulativeOf(timestamps);
    var next := NextCumulative(timestamps[..i], before);
    assert c[..i + 1] == CumulativeOf(timestamps[..i + 1]) by {
      CumulativePrefix(timestamps, i + 1);
    }
    assert CumulativeOf(timestamps[..i + 1]) == before + [next] by {
      OneMore(timestamps, i);
      CumulativeUpTo(timestamps[..i + 1], timestamps[..i], timestamps[i]);
    }
    LastTwo(c, i, before, next);
  }

  lemma OneMore<T>(s: seq<T>, i: nat)
    requires i < |s|
    ensures s[..i + 1] == s[..i] + [s[i]]
  {
  }

  lemma LastTwo<T>(whole: seq<T>, i: nat, init: seq<T>, x: T)
    requires 1 <= i < |whole| && whole[..i + 1] == init + [x]
    ensures whole[i] == x && whole[i - 1] == Last(init)
  {
    assert whole[i] == whole[..i + 1][i];
    assert whole[i - 1] == whole[..i + 1][i - 1];
  }

  /** The difference of consecutive cumulative difficulties is the block's difficulty, even where
      the accumulated work wraps. */
  lemma IncrementIsDifficulty(timestamps: seq<u64>, i: nat)
    requires 1 <= i < |timestamps|
    ensures Minus(CumulativeOf(timestamps)[i], CumulativeOf(timestamps)[i - 1]) == DifficultyAt(timestamps, i)
  {
    hide NextDifficulty, CumulativeOf;
    CumulativeAt(timestamps, i);
    AddedDifference(CumulativeOf(timestamps)[i - 1], DifficultyAt(timestamps, i));
  }

  lemma AddedDifference(x: u64, d: u64)
    ensures Minus(U64(x as int + d), x) == d
  {
    var k := U64Split(x as int + d);
    U64Unique(U64(x as int + d) - x, d, -k);
  }

  /** The raw value from which block i of the chain got its difficulty. */
  function RawAt(timestamps: seq<u64>, i: nat): u64
    requires 2 <= i < |timestamps|
  {
    RawDifficulty(timestamps[..i], CumulativeOf(timestamps[..i]), TARGET_SECONDS)
  }

  /** From the third block on, each difficulty is the step clamp of the one before. */
  lemma DifficultyFollowsClamp(timestamps: seq<u64>, i: nat)
    requires 2 <= i < |timestamps|
    ensures DifficultyAt(timestamps, i) == StepClamp(DifficultyAt(timestamps, i - 1), RawAt(timestamps, i))
  {
    var before := timestamps[..i];
    IncrementIsDifficulty(before, i - 1);
    DifficultyAtPrefix(timestamps, i, i - 1);
  }

  function DifficultiesFrom(timestamps: seq<u64>, start: nat, k: nat): (d: seq<u64>)
    requires start + k < |timestamps|
    ensures |d| == k + 1
    ensures forall j :: 0 <= j <= k ==> d[j] == DifficultyAt(timestamps, start + j)
  {
    seq<u64>(k + 1, j requires 0 <= j < k + 1 => DifficultyAt(timestamps, start + j))
  }

  function RawsFrom(timestamps: seq<u64>, start: nat, k: nat): (r: seq<u64>)
    requires 1 <= start && start + k < |timestamps|
    ensures |r| == k
    ensures forall j :: 0 <= j < k ==> r[j] == RawAt(timestamps, start + j + 1)
  {
    seq<u64>(k, j requires 0 <= j < k => RawAt(timestamps, start + j + 1))
  }

  // ----- no chain comes near the end of the word -----

  predicate DifficultyFits(timestamps: seq<u64>, i: nat)
    requires i < |timestamps|
  {
    100 * DifficultyAt(timestamps, i) < TWO64
  }

  /** Looking back over one step: the earlier difficulty was small or at most 5/4 of the later one. */
  lemma StepBack(previous: u64, raw: u64)
    requires 100 * previous < TWO64
    ensures previous <= 10 || 4 * Padded(previous) <= 5 * Padded(StepClamp(previous, raw))
  {
    if previous > 10 {
      hide StepClamp;
      ClampedStepIsWithin(previous, raw);
    }
  }

  /** Looking back from a small difficulty over k steps. */
  lemma {:induction false} DifficultyBehind(timestamps: seq<u64>, i: nat, k: nat)
    requires 1 <= i - k && i < |timestamps| && DifficultyAt(timestamps, i) <= 10
    requires forall j :: 0 <= j <= i ==> DifficultyFits(timestamps, j)
    ensures Pow(4, k) * Padded(DifficultyAt(timestamps, i - k)) <= Pow(5, k) * 83
  {
    hide DifficultyAt, Pow, RawAt, StepClamp;
    PowStep(4, k);
    PowStep(5, k);
    if k > 0 {
      var before, after := DifficultyAt(timestamps, i - k + 1), DifficultyAt(timestamps, i - k);
      DifficultyBehind(timestamps, i, k - 1);
      DifficultyFollowsClamp(timestamps, i - k + 1);
      assert DifficultyFits(timestamps, i - k);
      StepBack(after, RawAt(timestamps, i - k + 1));
      if after <= 10 {
        PowersInOrder(4, 5, k);
        MulAtMost(Pow(4, k), Padded(after), 83);
      } else {
        GeometricRise(Pow(4, k - 1), Pow(5, k - 1), 83, Padded(before), Padded(after), 5, 4);
      }
    }
  }

  lemma QuarterCubed()
    ensures Pow(5, 3) <= 2 * Pow(4, 3)
  {
  }

  /** (5/4)^k is at most 2^34 up to k = 102. */
  lemma QuartersTaken(k: nat)
    requires k <= 102
    ensures Pow(5, k) <= 0x4_0000_0000 * Pow(4, k)
  {
    hide Pow;
    QuarterCubed();
    PowersOfTwo();
    PowerRatio(2, 1, 4, 5, 3, 34);
    PowOfOne(34);
    RatioUpTo(4, 5, 0x4_0000_0000, k, 102);
  }

  lemma {:induction false} PowOfOne(e: nat)
    ensures Pow(1, e) == 1
  {
    if e > 0 {
      PowOfOne(e - 1);
    }
  }

  /** Within a hundred blocks before a small difficulty no difficulty reaches 2^39. */
  lemma SmallBehind(timestamps: seq<u64>, i: nat, k: nat)
    requires 1 <= i - k && i < |timestamps| && k < 100 && DifficultyAt(timestamps, i) <= 10
    requires forall j :: 0 <= j <= i ==> DifficultyFits(timestamps, j)
    ensures DifficultyAt(timestamps, i - k) < 0x80_0000_0000
  {
    hide DifficultyAt, Pow;
    DifficultyBehind(timestamps, i, k);
    QuartersTaken(k);
    PowPositive(4, k);
    var p, q, d := Pow(4, k), Pow(5, k), Padded(DifficultyAt(timestamps, i - k));
    MulAtMost(83, q, 0x4_0000_0000 * p);
    MulCommutes(q, 83);
    MulCommutes(p, 83 * 0x4_0000_0000);
    CancelFactor(p, d, 83 * 0x4_0000_0000);
  }

  /** The increments of the cumulative difficulties are the difficulties, most recent first. */
  lemma IncrementOfChain(timestamps: seq<u64>, i: nat, j: nat)
    requires j + 1 < i <= |timestamps|
    ensures Increment(CumulativeOf(timestamps[..i]), j) == DifficultyAt(timestamps, i - 1 - j)
  {
    hide CumulativeOf, DifficultyAt;
    IncrementIsDifficulty(timestamps[..i], i - 1 - j);
    DifficultyAtPrefix(timestamps, i, i - 1 - j);
  }

  lemma {:induction false} SumAtMost(cumulative: seq<u64>, k: nat, most: nat)
    requires k < |cumulative| && forall j :: 0 <= j < k ==> Increment(cumulative, j) <= most
    ensures SumOfRecent(cumulative, k) <= k * most
  {
    if k > 0 {
      SumAtMost(cumulative, k - 1, most);
      SuccessorTimes(k - 1, most);
    } else {
      assert k * most == 0;
    }
  }

  /** The work of the window, when each of its blocks has at most `most`. */
  lemma WindowWorkAtMost(timestamps: seq<u64>, i: nat, most: nat)
    requires 2 <= i <= |timestamps|
    requires forall k :: i - WindowLength(i) <= k < i ==> DifficultyAt(timestamps, k) <= most
    ensures WindowDifficulty(timestamps[..i], CumulativeOf(timestamps[..i])) <= 100 * most
  {
    hide CumulativeOf, DifficultyAt;
    var cumulative, n := CumulativeOf(timestamps[..i]), WindowLength(i);
    forall j | 0 <= j < n ensures Increment(cumulative, j) <= most {
      IncrementOfChain(timestamps, i, j);
    }
    SumAtMost(cumulative, n, most);
    RecentTelescopes(cumulative, n);
    MulAtMost(most, n, 100);
    MulCommutes(most, n);
    WordAtMost(SumOfRecent(cumulative, n));
  }

  lemma WordAtMost(x: nat)
    ensures U64(x) <= x
  {
  }

  /** A small difficulty is followed by at most 1200 * 2^39: only the window's work counts. */
  lemma FitsAfterSmall(timestamps: seq<u64>, i: nat)
    requires 2 <= i < |timestamps| && DifficultyAt(timestamps, i - 1) <= 10
    requires forall j :: 0 <= j < i ==> DifficultyFits(timestamps, j)
    ensures DifficultyFits(timestamps, i)
  {
    hide DifficultyAt, CumulativeOf, RawDifficulty, CastsFit, WindowDifficulty;
    forall k | i - WindowLength(i) <= k < i ensures DifficultyAt(timestamps, k) <= 0x80_0000_0000 {
      SmallBehind(timestamps, i - 1, i - 1 - k);
    }
    WindowWorkAtMost(timestamps, i, 0x80_0000_0000);
    RawEnvelope(timestamps[..i], CumulativeOf(timestamps[..i]), TARGET_SECONDS);
    DifficultyFollowsClamp(timestamps, i);
    ClampAtMost(DifficultyAt(timestamps, i - 1), RawAt(timestamps, i));
  }

  lemma ClampAtMost(previous: u64, raw: u64)
    requires previous <= 10
    ensures StepClamp(previous, raw) <= raw + 1
  {
  }

  /** On every chain, whatever its timestamps, 100 times each difficulty fits in 64 bits; so the
      limit of 85 % to 115 % holds at every block whose predecessor is above ten. */
  lemma {:induction false} ChainFits(timestamps: seq<u64>, i: nat)
    requires i < |timestamps|
    ensures DifficultyFits(timestamps, i)
  {
    hide RawAt, StepClamp;
    if i >= 2 {
      forall j | 0 <= j < i ensures DifficultyFits(timestamps, j) {
        ChainFits(timestamps, j);
      }
      hide DifficultyAt;
      if DifficultyAt(timestamps, i - 1) > 10 {
        assert DifficultyFits(timestamps, i - 1);
        DifficultyFollowsClamp(timestamps, i);
        StepFits(DifficultyAt(timestamps, i - 1), RawAt(timestamps, i));
      } else {
        FitsAfterSmall(timestamps, i);
      }
    }
  }

  /** The step limit on a chain needs no bound on the difficulty. */
  lemma ChainStepLimit(timestamps: seq<u64>, i: nat)
    requires 2 <= i < |timestamps| && DifficultyAt(timestamps, i - 1) > 10
    ensures WithinStep(DifficultyAt(timestamps, i - 1), DifficultyAt(timestamps, i))
  {
    hide DifficultyAt, StepClamp, RawAt;
    ChainFits(timestamps, i - 1);
    DifficultyFollowsClamp(timestamps, i);
    ClampedStepIsWithin(DifficultyAt(timestamps, i - 1), RawAt(timestamps, i));
  }

  /** The multi-block envelope on any chain: k blocks move the difficulty by at most 1.15^k up and,
      with 33/5 added, 0.85^k down, while it stays above ten. */
  lemma ChainEnvelope(timestamps: seq<u64>, start: nat, k: nat)
    requires 1 <= start && start + k < |timestamps|
    requires forall i :: start <= i < start + k ==> DifficultyAt(timestamps, i) > 10
    ensures var d, d' := DifficultyAt(timestamps, start), DifficultyAt(timestamps, start + k);
            Pow(100, k) * d' <= Pow(115, k) * d && Pow(100, k) * Padded(d') >= Pow(85, k) * Padded(d)
  {
    hide DifficultyAt, RawAt, StepClamp;
    var d, raws := DifficultiesFrom(timestamps, start, k), RawsFrom(timestamps, start, k);
    forall j | 0 <= j < k ensures d[j + 1] == StepClamp(d[j], raws[j]) && d[j] > 10 && d[j] * 85 < TWO64 {
      assert DifficultyAt(timestamps, start + j) > 10;
      DifficultyFollowsClamp(timestamps, start + j + 1);
      ChainFits(timestamps, start + j);
    }
    DifficultyEnvelope(d, raws);
  }

  /** The work of the last hundred blocks of a chain never wraps. */
  lemma ChainWorkFits(timestamps: seq<u64>)
    requires |timestamps| >= 101
    ensures WorkFits(CumulativeOf(timestamps))
  {
    hide CumulativeOf, DifficultyAt;
    var most := (TWO64 - 1) / 100;
    assert timestamps[..|timestamps|] == timestamps;
    forall j | 0 <= j < 100 ensures Increment(CumulativeOf(timestamps), j) <= most {
      IncrementOfChain(timestamps, |timestamps|, j);
      ChainFits(timestamps, |timestamps| - 1 - j);
    }
    SumAtMost(CumulativeOf(timestamps), 100, most);
  }

  // ----- the clock -----

  /** On a chain whose clock readings are ordinary signed numbers every increment is positive, so the
      lower clamp of the solve time never acts and the last n blocks took at least n seconds. */
  lemma ChainSpacing(timestamps: seq<u64>, n: nat)
    requires TimestampsRise(timestamps) && n < |timestamps|
    requires OrdinaryTimes(timestamps)
    ensures SpacedAtLeast(timestamps, n, 1)
    ensures forall j :: 0 <= j < n ==> SolveTime(Increment(timestamps, j), TARGET_SECONDS)
                                       == if Increment(timestamps, j) > 900 then 900 else Increment(timestamps, j)
    ensures Minus(timestamps[|timestamps| - 1], timestamps[|timestamps| - 1 - n]) >= n
  {
    forall j | 0 <= j < n ensures 1 <= Increment(timestamps, j) < TWO63 {
      assert timestamps[|timestamps| - 2 - j] < timestamps[|timestamps| - 1 - j];
    }
    RiseOver(timestamps, |timestamps| - 1 - n, n);
  }

  predicate OrdinaryTimes(timestamps: seq<u64>) {
    forall i :: 0 <= i < |timestamps| ==> timestamps[i] < TWO63
  }

  lemma {:induction false} RiseOver(timestamps: seq<u64>, i: nat, n: nat)
    requires TimestampsRise(timestamps) && i + n < |timestamps|
    ensures timestamps[i + n] >= timestamps[i] + n
  {
    if n > 0 {
      RiseOver(timestamps, i, n - 1);
      assert timestamps[i + n - 1] < timestamps[i + n];
    }
  }

  /** Every block is submitted two hours or more before the clock leaves the signed numbers. */
  predicate OrdinaryClock(events: seq<Event>) {
    forall i :: 0 <= i < |events| && events[i].Submit? ==> events[i].now + FUTURE_TIME_LIMIT < TWO63
  }

  lemma StepKeepsTimes(n: Node, b: Block, now: u64)
    requires InStep(n) && OrdinaryTimes(n.timestamps) && now + FUTURE_TIME_LIMIT < TWO63
    ensures OrdinaryTimes(Step(n, b, now).timestamps)
  {
    U64Small(now + FUTURE_TIME_LIMIT);
  }

  lemma {:induction false} RunKeepsTimes(n: Node, events: seq<Event>)
    requires ChainInv(n) && LogMatches(n) && OrdinaryTimes(n.timestamps) && OrdinaryClock(events)
    ensures OrdinaryTimes(After(n, events).timestamps)
  {
    hide LogMatches, Step, Boot, OrdinaryTimes;
    if events != [] {
      var init, e := events[..|events| - 1], Last(events);
      RunKeepsTimes(n, init);
      match e
      case Submit(block, now) =>
        StepKeepsTimes(After(n, init), block, now);
      case Restart =>
        RunKeepsInv(n, init);
        BootTimes(After(n, init));
    }
  }

  lemma BootTimes(n: Node)
    requires ChainInv(n) && LogMatches(n)
    ensures Boot(n.disk).timestamps == n.timestamps
  {
    BootVectors(n);
  }

  lemma RunTimes(disk: Disk, events: seq<Event>)
    requires CleanDisk(disk) && OrdinaryClock(events)
    ensures var timestamps := After(Boot(disk), events).timestamps;
            OrdinaryTimes(timestamps) && TimestampsRise(timestamps)
  {
    hide Boot, After, OrdinaryTimes, TimestampsRise, OrdinaryClock, CleanDisk;
    FirstStart(disk);
    StartsOrdinary(disk);
    RunKeepsTimes(Boot(disk), events);
    ReachableInv(disk, events);
  }

  /** So, for any run with an ordinary clock, restarts included: time enters the chain as ordinary
      signed numbers, and all that `ChainSpacing` says holds. */
  lemma RunSpacing(disk: Disk, events: seq<Event>, n: nat)
    requires CleanDisk(disk) && OrdinaryClock(events)
    requires n < |After(Boot(disk), events).timestamps|
    ensures var timestamps := After(Boot(disk), events).timestamps;
            && OrdinaryTimes(timestamps) && SpacedAtLeast(timestamps, n, 1)
            && Minus(timestamps[|timestamps| - 1], timestamps[|timestamps| - 1 - n]) >= n
  {
    hide Boot, After, OrdinaryTimes, TimestampsRise, SpacedAtLeast, Minus, OrdinaryClock, CleanDisk;
    RunTimes(disk, events);
    ChainSpacing(After(Boot(disk), events).timestamps, n);
  }

  lemma StartsOrdinary(disk: Disk)
    requires CleanDisk(disk)
    ensures OrdinaryTimes(Boot(disk).timestamps)
  {
    BootCreates(disk);
  }

  // ----- the ratchet on a chain -----

  /** The casts behind block i's difficulty stay within 64 bits. */
  predicate CastsFitAt(timestamps: seq<u64>, i: nat)
    requires 2 <= i <= |timestamps|
  {
    CastsFit(timestamps[..i], CumulativeOf(timestamps[..i]), TARGET_SECONDS)
  }

  predicate CastsFitBetween(timestamps: seq<u64>, from: nat, to: nat)
    requires 2 <= from && to <= |timestamps| + 1
  {
    forall i :: from <= i < to ==> CastsFitAt(timestamps, i)
  }

  /** The full rise, or, where that wraps, the fall that the wrapped cap forces. */
  function FullStep(difficulty: nat): nat {
    if 115 * difficulty < TWO64 then 115 * difficulty / 100 else 85 * difficulty / 100
  }

  /** Any raw value at or above the cap makes the step full. */
  lemma StepIsFull(previous: u64, raw: u64)
    requires previous > 10 && 100 * previous < TWO64
    requires 115 * previous < TWO64 ==> raw >= 115 * previous / 100
    ensures StepClamp(previous, raw) == FullStep(previous) > 10
  {
    hide StepClamp;
    if 115 * previous < TWO64 {
      FullRise(previous, raw);
    } else {
      WrappedCapFalls(previous, raw);
    }
  }

  predicate AboveTen(timestamps: seq<u64>, from: nat, to: nat)
    requires to <= |timestamps|
  {
    forall i :: from <= i < to ==> DifficultyAt(timestamps, i) > 10
  }

  lemma RecentGrowthOnChain(timestamps: seq<u64>)
    requires |timestamps| >= 101 && AboveTen(timestamps, |timestamps| - 10, |timestamps|)
    ensures RecentGrowthLimited(CumulativeOf(timestamps))
  {
    hide CumulativeOf, DifficultyAt;
    var c, n := CumulativeOf(timestamps), |timestamps|;
    assert timestamps[..n] == timestamps;
    forall j | 0 <= j < 9 ensures 100 * Increment(c, j) <= 115 * Increment(c, j + 1) {
      assert DifficultyAt(timestamps, n - 2 - j) > 10;
      IncrementOfChain(timestamps, n, j);
      IncrementOfChain(timestamps, n, j + 1);
      ChainStepLimit(timestamps, n - 1 - j);
    }
  }

  /** Once a hundred blocks in a row took 60 seconds or more each, with the last ten difficulties
      above ten, the next difficulty is the full step, whatever the blocks' actual pace, unless a
      cast goes out of range. */
  lemma ChainRatchet(timestamps: seq<u64>)
    requires |timestamps| >= 101 && AboveTen(timestamps, |timestamps| - 10, |timestamps|)
    requires SpacedAtLeast(timestamps, 100, 60) && CastsFitAt(timestamps, |timestamps|)
    ensures NextDifficulty(timestamps, CumulativeOf(timestamps), TARGET_SECONDS)
         == FullStep(DifficultyAt(timestamps, |timestamps| - 1))
  {
    hide CumulativeOf, DifficultyAt, StepClamp, RawDifficulty, CastsFit, SpacedAtLeast;
    var cumulative, d := CumulativeOf(timestamps), DifficultyAt(timestamps, |timestamps| - 1);
    assert timestamps[..|timestamps|] == timestamps;
    IncrementOfChain(timestamps, |timestamps|, 0);
    ChainFits(timestamps, |timestamps| - 1);
    assert d > 10;
    if 115 * d < TWO64 {
      RecentGrowthOnChain(timestamps);
      ChainWorkFits(timestamps);
      Ratchet(timestamps, cumulative);
    } else {
      assert PreviousDifficulty(timestamps, cumulative) == d;
      WrappedCapFalls(d, RawDifficulty(timestamps, cumulative, TARGET_SECONDS));
    }
  }

  // ----- unhurried stretches -----

  /** From block `start` on, counting the hundred blocks before it, no block came sooner than `least`
      seconds after its predecessor; the ten difficulties before it are above ten. */
  ghost predicate UnhurriedFrom(timestamps: seq<u64>, start: nat, least: nat) {
    && 101 <= start <= |timestamps|
    && (forall i :: start - 100 <= i < |timestamps| ==> least <= Minus(timestamps[i], timestamps[i - 1]) < TWO63)
    && AboveTen(timestamps, start - 10, start)
  }

  lemma SpacedPrefix(timestamps: seq<u64>, start: nat, least: nat, i: nat)
    requires UnhurriedFrom(timestamps, start, least) && start <= i <= |timestamps|
    ensures SpacedAtLeast(timestamps[..i], 100, least)
  {
    var before := timestamps[..i];
    forall j | 0 <= j < 100 ensures least <= Increment(before, j) < TWO63 {
      assert least <= Minus(timestamps[i - 1 - j], timestamps[i - 1 - j - 1]) < TWO63;
    }
  }

  lemma AboveTenPrefix(timestamps: seq<u64>, from: nat, i: nat)
    requires i <= |timestamps| && AboveTen(timestamps, from, i)
    ensures AboveTen(timestamps[..i], from, i)
  {
    forall k | from <= k < i ensures DifficultyAt(timestamps[..i], k) > 10 {
      DifficultyAtPrefix(timestamps, i, k);
    }
  }

  lemma SamePrefix(timestamps: seq<u64>, i: nat)
    requires 2 <= i <= |timestamps|
    ensures CastsFitAt(timestamps[..i], i) == CastsFitAt(timestamps, i)
  {
    assert timestamps[..i][..i] == timestamps[..i];
  }

  /** Every block of such a stretch takes the full step, while the casts fit. */
  lemma {:induction false} UnhurriedStep(timestamps: seq<u64>, start: nat, i: nat)
    requires UnhurriedFrom(timestamps, start, 60) && start <= i < |timestamps|
    requires CastsFitBetween(timestamps, start, i + 1)
    ensures DifficultyAt(timestamps, i) == FullStep(DifficultyAt(timestamps, i - 1))
    ensures DifficultyAt(timestamps, i) > 10
  {
    hide CastsFitAt;
    forall k | i - 10 <= k < i ensures DifficultyAt(timestamps, k) > 10 {
      if k >= start {
        UnhurriedStep(timestamps, start, k);
      }
    }
    SpacedPrefix(timestamps, start, 60, i);
    AboveTenPrefix(timestamps, i - 10, i);
    assert CastsFitAt(timestamps, i);
    SamePrefix(timestamps, i);
    hide NextDifficulty, CumulativeOf, SpacedAtLeast, UnhurriedFrom, AboveTen;
    FullAfterPrefix(timestamps, i);
  }

  lemma FullAfterPrefix(timestamps: seq<u64>, i: nat)
    requires 101 <= i < |timestamps| && AboveTen(timestamps[..i], i - 10, i) && AboveTen(timestamps, i - 1, i)
    requires SpacedAtLeast(timestamps[..i], 100, 60) && CastsFitAt(timestamps[..i], i)
    ensures DifficultyAt(timestamps, i) == FullStep(DifficultyAt(timestamps, i - 1)) > 10
  {
    hide NextDifficulty, CumulativeOf, SpacedAtLeast, CastsFitAt;
    ChainRatchet(timestamps[..i]);
    DifficultyAtPrefix(timestamps, i, i - 1);
    ChainFits(timestamps, i - 1);
    assert DifficultyAt(timestamps, i - 1) > 10;
  }

  // ----- full steps in a row -----

  /** From a difficulty above ten, every block up to `to` takes the full step. */
  predicate FullSteps(timestamps: seq<u64>, from: nat, to: nat)
    requires to < |timestamps| && from < |timestamps|
  {
    && DifficultyAt(timestamps, from) > 10
    && forall i :: from < i <= to ==> DifficultyAt(timestamps, i) == FullStep(DifficultyAt(timestamps, i - 1))
  }

  /** 5d - 33, the quantity that grows by at least 15 % in each full rise. */
  function Surplus(d: nat): int {
    5 * d - 33
  }

  lemma SurplusStep(p: nat, q: nat, first: nat, before: nat, after: nat)
    requires p * before >= q * first && 100 * after >= 115 * before
    ensures (100 * p) * after >= (115 * q) * first
  {
    GeometricFall(p, q, first, before, after, 115, 100);
  }

  /** The full rise fits at all of these blocks. */
  predicate RisesFit(timestamps: seq<u64>, from: nat, to: nat)
    requires to <= |timestamps|
  {
    forall i :: from <= i < to ==> 115 * DifficultyAt(timestamps, i) < TWO64
  }

  lemma {:induction false} FullStepsGrow(timestamps: seq<u64>, from: nat, k: nat)
    requires from + k < |timestamps| && FullSteps(timestamps, from, from + k)
    requires RisesFit(timestamps, from, from + k)
    ensures DifficultyAt(timestamps, from + k) > 10
    ensures Pow(100, k) * Surplus(DifficultyAt(timestamps, from + k)) >= Pow(115, k) * Surplus(DifficultyAt(timestamps, from))
  {
    hide DifficultyAt;
    if k > 0 {
      FullStepsGrow(timestamps, from, k - 1);
      assert DifficultyAt(timestamps, from + k) == FullStep(DifficultyAt(timestamps, from + k - 1));
      assert 115 * DifficultyAt(timestamps, from + k - 1) < TWO64;
      SurplusStep(Pow(100, k - 1), Pow(115, k - 1), Surplus(DifficultyAt(timestamps, from)),
                  Surplus(DifficultyAt(timestamps, from + k - 1)), Surplus(DifficultyAt(timestamps, from + k)));
    }
  }

  lemma FiveRises()
    ensures Pow(115, 5) >= 2 * Pow(100, 5)
  {
  }

  /** (115/100)^280 is at least 2^56. */
  lemma DoublesEveryFive()
    ensures Pow(115, 280) >= 0x100_0000_0000_0000 * Pow(100, 280)
  {
    hide Pow;
    FiveRises();
    PowersOfTwo();
    PowerRatio(1, 2, 115, 100, 5, 56);
    PowOfOne(56);
  }

  lemma FullStepsReachCeiling(timestamps: seq<u64>, from: nat)
    requires from + 280 < |timestamps| && FullSteps(timestamps, from, from + 280)
    ensures !RisesFit(timestamps, from, from + 280)
  {
    hide DifficultyAt, Pow, Surplus, FullStep, RisesFit, FullSteps;
    if RisesFit(timestamps, from, from + 280) {
      FullStepsStart(timestamps, from, from + 280);
      FullStepsGrow(timestamps, from, 280);
      ChainFits(timestamps, from + 280);
      RiseTooLarge(DifficultyAt(timestamps, from), DifficultyAt(timestamps, from + 280));
    }
  }

  lemma FullStepsStart(timestamps: seq<u64>, from: nat, end: nat)
    requires from <= end < |timestamps| && FullSteps(timestamps, from, end)
    ensures DifficultyAt(timestamps, from) > 10
  {
    hide DifficultyAt, FullStep;
  }

  lemma RiseTooLarge(first: nat, last: nat)
    requires first > 10 && last > 10
    requires Pow(100, 280) * Surplus(last) >= Pow(115, 280) * Surplus(first)
    ensures 100 * last >= TWO64
  {
    DoublesEveryFive();
    PowPositive(100, 280);
    hide Pow;
    var p, q := Pow(100, 280), Pow(115, 280);
    MulAtMost(q, 22, Surplus(first));
    MulCommutes(p, 22 * 0x100_0000_0000_0000);
    CancelFactor(p, 22 * 0x100_0000_0000_0000, Surplus(last));
  }

  lemma {:induction false} FullStepsStay(timestamps: seq<u64>, from: nat, i: nat, j: nat)
    requires from <= i <= j < |timestamps| && FullSteps(timestamps, from, j)
    requires 115 * DifficultyAt(timestamps, i) >= TWO64
    ensures 11500 * (DifficultyAt(timestamps, j) + 1) > 85 * TWO64
  {
    hide DifficultyAt;
    if i < j {
      FullStepsStay(timestamps, from, i, j - 1);
      assert DifficultyAt(timestamps, j) == FullStep(DifficultyAt(timestamps, j - 1));
    }
  }

  // ----- the runaway -----

  lemma UnhurriedFullSteps(timestamps: seq<u64>, start: nat, to: nat)
    requires UnhurriedFrom(timestamps, start, 60) && start - 1 <= to < |timestamps|
    requires CastsFitBetween(timestamps, start, to + 1)
    ensures FullSteps(timestamps, start - 1, to)
  {
    hide DifficultyAt, CastsFitAt, FullStep;
    assert DifficultyAt(timestamps, start - 1) > 10;
    forall i | start - 1 < i <= to ensures DifficultyAt(timestamps, i) == FullStep(DifficultyAt(timestamps, i - 1)) {
      UnhurriedStep(timestamps, start, i);
    }
  }

  /** The runaway: on a stretch of unhurried blocks, slower than the target as they may be, k blocks
      multiply the difficulty by 1.15^k, up to an offset of 33/5, as long as casts and full rises fit. */
  lemma UnhurriedRunaway(timestamps: seq<u64>, start: nat, k: nat)
    requires UnhurriedFrom(timestamps, start, 60) && start - 1 + k < |timestamps|
    requires CastsFitBetween(timestamps, start, start + k) && RisesFit(timestamps, start - 1, start - 1 + k)
    ensures DifficultyAt(timestamps, start - 1) > 10 && DifficultyAt(timestamps, start - 1 + k) > 10
    ensures Pow(100, k) * Surplus(DifficultyAt(timestamps, start - 1 + k))
         >= Pow(115, k) * Surplus(DifficultyAt(timestamps, start - 1))
  {
    hide DifficultyAt, Pow, Surplus, CastsFitAt, RisesFit;
    UnhurriedFullSteps(timestamps, start, start - 1 + k);
    FullStepsGrow(timestamps, start - 1, k);
  }

  /** The runaway ends only at the end of the word: 280 unhurried blocks take the difficulty, however
      low above ten it starts, to where 115 times it no longer fits in 64 bits, or a cast out of range. */
  lemma RunawayReachesCeiling(timestamps: seq<u64>, start: nat)
    requires UnhurriedFrom(timestamps, start, 60) && start + 279 < |timestamps|
    requires CastsFitBetween(timestamps, start, start + 280)
    ensures exists i :: start - 1 <= i < start + 279 && 115 * DifficultyAt(timestamps, i) >= TWO64
  {
    hide DifficultyAt, CastsFitAt, FullSteps;
    UnhurriedFullSteps(timestamps, start, start + 279);
    FullStepsReachCeiling(timestamps, start - 1);
  }

  /** And there it stays: from the first difficulty for which a full rise does not fit, an unhurried
      stretch keeps every difficulty at 85 % of that bound or more, while the casts fit. */
  lemma StaysAtCeiling(timestamps: seq<u64>, start: nat, i: nat, j: nat)
    requires UnhurriedFrom(timestamps, start, 60) && start - 1 <= i <= j < |timestamps|
    requires CastsFitBetween(timestamps, start, j + 1)
    requires 115 * DifficultyAt(timestamps, i) >= TWO64
    ensures 11500 * (DifficultyAt(timestamps, j) + 1) > 85 * TWO64
  {
    hide DifficultyAt, CastsFitAt, FullSteps;
    UnhurriedFullSteps(timestamps, start, j);
    FullStepsStay(timestamps, start - 1, i, j);
  }

  // ----- out of range -----

  /** The work of a window whose blocks all have at least `least`. */
  lemma {:induction false} SumAtLeast(cumulative: seq<u64>, k: nat, least: nat)
    requires k < |cumulative| && forall j :: 0 <= j < k ==> Increment(cumulative, j) >= least
    ensures SumOfRecent(cumulative, k) >= k * least
  {
    if k > 0 {
      SumAtLeast(cumulative, k - 1, least);
      SuccessorTimes(k - 1, least);
    } else {
      assert k * least == 0;
    }
  }

  lemma WindowWorkAtLeast(timestamps: seq<u64>, least: nat)
    requires |timestamps| >= 101
    requires forall k :: |timestamps| - 100 <= k < |timestamps| ==> DifficultyAt(timestamps, k) >= least
    ensures WindowDifficulty(timestamps, CumulativeOf(timestamps)) >= 100 * least
  {
    hide CumulativeOf, DifficultyAt;
    var cumulative, n := CumulativeOf(timestamps), |timestamps|;
    assert timestamps[..n] == timestamps;
    forall j | 0 <= j < 100 ensures Increment(cumulative, j) >= least {
      IncrementOfChain(timestamps, n, j);
    }
    SumAtLeast(cumulative, 100, least);
    ChainWorkFits(timestamps);
    RecentTelescopes(cumulative, 100);
    U64Small(SumOfRecent(cumulative, 100));
  }

  /** Near the ceiling a window of blocks 203 seconds apart takes the first cast out of range. */
  lemma HighWindowOverflows(timestamps: seq<u64>)
    requires |timestamps| >= 101 && SpacedAtLeast(timestamps, 100, 203)
    requires forall k :: |timestamps| - 100 <= k < |timestamps| ==> 11500 * (DifficultyAt(timestamps, k) + 1) > 85 * TWO64
    ensures !CastsFitAt(timestamps, |timestamps|)
  {
    hide CumulativeOf, DifficultyAt, WindowDifficulty, WindowWeight, SpacedAtLeast;
    var cumulative := CumulativeOf(timestamps);
    assert timestamps[..|timestamps|] == timestamps;
    WindowWorkAtLeast(timestamps, 85 * TWO64 / 11500 - 1);
    WindowWeightRange(timestamps, TARGET_SECONDS, 203);
    TooMuchWork(WindowDifficulty(timestamps, cumulative), WindowWeight(timestamps, TARGET_SECONDS));
  }

  lemma TooMuchWork(w: u64, weight: u64)
    requires w >= 100 * (85 * TWO64 / 11500 - 1) && 203 * Triangle(100) <= weight
    ensures !ScaleFits(w, weight, 100, 150)
  {
    assert Triangle(100) == 5050;
    hide Triangle, ScaleFits, Scale, NearQuotient;
    ScaleNear(w, weight, 100, 150);
    MulAtMost(w, 203 * 5050, weight);
    var product := w * weight;
    assert 562949953421311 * product >= 562949953421312 * (TWO64 * (5050 * 150));
  }

  lemma Slower(timestamps: seq<u64>, start: nat, least: nat)
    requires UnhurriedFrom(timestamps, start, least) && least >= 60
    ensures UnhurriedFrom(timestamps, start, 60)
  {
  }

  /** An unhurried stretch at the ceiling, with 203 seconds or more between its blocks, takes a cast
      out of range within 101 blocks. */
  lemma CeilingOverflows(timestamps: seq<u64>, start: nat, i: nat)
    requires UnhurriedFrom(timestamps, start, 203) && start - 1 <= i && i + 101 <= |timestamps|
    requires 115 * DifficultyAt(timestamps, i) >= TWO64
    ensures !CastsFitBetween(timestamps, start, i + 102)
  {
    hide DifficultyAt, CastsFitAt;
    if CastsFitBetween(timestamps, start, i + 102) {
      var m := i + 101;
      var before := timestamps[..m];
      Slower(timestamps, start, 203);
      forall k | m - 100 <= k < m ensures 11500 * (DifficultyAt(before, k) + 1) > 85 * TWO64 {
        StaysAtCeiling(timestamps, start, i, k);
        DifficultyAtPrefix(timestamps, m, k);
      }
      SpacedPrefix(timestamps, start, 203, m);
      assert CastsFitAt(timestamps, m);
      SamePrefix(timestamps, m);
      HighWindowOverflows(before);
    }
  }

  /** So every such stretch takes a cast out of range within 381 blocks, wherever it starts. */
  lemma SlowStretchOverflows(timestamps: seq<u64>, start: nat)
    requires UnhurriedFrom(timestamps, start, 203) && start + 379 <= |timestamps|
    ensures !CastsFitBetween(timestamps, start, start + 380)
  {
    hide DifficultyAt, CastsFitAt;
    if CastsFitBetween(timestamps, start, start + 380) {
      Slower(timestamps, start, 203);
      RunawayReachesCeiling(timestamps, start);
      var i :| start - 1 <= i < start + 279 && 115 * DifficultyAt(timestamps, i) >= TWO64;
      CeilingOverflows(timestamps, start, i);
    }
  }

  // ----- from genesis -----

  /** No block of the chain came sooner than `least` seconds after its predecessor. */
  predicate EveryAtLeast(timestamps: seq<u64>, least: nat) {
    forall i :: 1 <= i < |timestamps| ==> least <= Minus(timestamps[i], timestamps[i - 1]) < TWO63
  }

  /** The work of the blocks 1 to i - 1. */
  function WorkBefore(timestamps: seq<u64>, i: nat): nat
    requires i <= |timestamps|
  {
    if i <= 1 then 0 else WorkBefore(timestamps, i - 1) + DifficultyAt(timestamps, i - 1)
  }

  lemma {:induction false} RecentIsWork(timestamps: seq<u64>, i: nat, k: nat)
    requires k < i <= |timestamps|
    ensures SumOfRecent(CumulativeOf(timestamps[..i]), k) + WorkBefore(timestamps, i - k) == WorkBefore(timestamps, i)
  {
    hide CumulativeOf, DifficultyAt;
    if k > 0 {
      RecentIsWork(timestamps, i, k - 1);
      IncrementOfChain(timestamps, i, k - 1);
    }
  }

  /** The window never has more work than the chain, and a short chain's window has all of it. */
  lemma WindowIsWork(timestamps: seq<u64>, i: nat)
    requires 2 <= i <= |timestamps| && WorkBefore(timestamps, i) < TWO64
    ensures WindowDifficulty(timestamps[..i], CumulativeOf(timestamps[..i])) <= WorkBefore(timestamps, i)
    ensures i <= 101 ==> WindowDifficulty(timestamps[..i], CumulativeOf(timestamps[..i])) == WorkBefore(timestamps, i)
  {
    hide CumulativeOf, DifficultyAt;
    var n, cumulative := WindowLength(i), CumulativeOf(timestamps[..i]);
    RecentIsWork(timestamps, i, n);
    RecentTelescopes(cumulative, n);
    U64Small(SumOfRecent(cumulative, n));
    if i <= 101 {
      assert WorkBefore(timestamps, 1) == 0;
    }
  }

  lemma EverySpaced(timestamps: seq<u64>, least: nat, i: nat, n: nat)
    requires EveryAtLeast(timestamps, least) && n < i <= |timestamps|
    ensures SpacedAtLeast(timestamps[..i], n, least)
  {
    var before := timestamps[..i];
    forall j | 0 <= j < n ensures least <= Increment(before, j) < TWO63 {
      assert least <= Minus(timestamps[i - 1 - j], timestamps[i - 1 - j - 1]) < TWO63;
    }
  }

  lemma WorkCastsFit(timestamps: seq<u64>, i: nat)
    requires 2 <= i <= |timestamps| && 13 * WorkBefore(timestamps, i) < TWO64
    ensures CastsFitAt(timestamps, i)
  {
    hide CumulativeOf, WorkBefore, WindowDifficulty, CastsFit;
    WindowIsWork(timestamps, i);
    EnvelopeFits(timestamps[..i], CumulativeOf(timestamps[..i]), TARGET_SECONDS);
  }

  /** In the first hundred blocks the raw value lies between the work so far and six times as much. */
  lemma EarlyRaw(timestamps: seq<u64>, i: nat)
    requires EveryAtLeast(timestamps, 150) && 2 <= i <= 100 && i < |timestamps|
    requires 13 * WorkBefore(timestamps, i) < TWO64
    ensures var v, raw := WorkBefore(timestamps, i), RawAt(timestamps, i);
            562949953421311 * v < 562949953421312 * (raw + 1) && 562949953421312 * raw <= 562949953421313 * (6 * v)
  {
    hide CumulativeOf, WorkBefore, WindowDifficulty, WindowWeight, Scale, ScaleFits, EveryAtLeast, SpacedAtLeast, Triangle;
    var before, n := timestamps[..i], i - 1;
    WindowIsWork(timestamps, i);
    EverySpaced(timestamps, 150, i, n);
    WindowWeightRange(before, TARGET_SECONDS, 150);
    ScaleRange(WorkBefore(timestamps, i), WindowWeight(before, TARGET_SECONDS), n, TARGET_SECONDS, 150);
  }

  /** The difficulties of blocks 1 to i - 1 are at most ten. */
  predicate Low(timestamps: seq<u64>, i: nat)
    requires i <= |timestamps|
  {
    forall j :: 1 <= j < i ==> DifficultyAt(timestamps, j) <= 10
  }

  lemma {:induction false} LowWork(timestamps: seq<u64>, i: nat)
    requires 1 <= i <= |timestamps| && Low(timestamps, i)
    ensures WorkBefore(timestamps, i) <= 10 * (i - 1)
  {
    hide DifficultyAt;
    if i > 1 {
      LowWork(timestamps, i - 1);
    }
  }

  lemma FirstDifficulty(timestamps: seq<u64>)
    requires |timestamps| >= 2
    ensures DifficultyAt(timestamps, 1) == 1
  {
  }

  /** Below ten a difficulty is the work so far, or one less, or at most six times as much. */
  lemma LowStep(timestamps: seq<u64>, i: nat)
    requires EveryAtLeast(timestamps, 150) && 2 <= i <= 100 && i < |timestamps| && Low(timestamps, i)
    requires WorkBefore(timestamps, i) >= 1
    ensures var v, d := WorkBefore(timestamps, i), DifficultyAt(timestamps, i);
            d >= 1 && v - 1 <= d <= 6 * v && WorkBefore(timestamps, i + 1) == v + d
  {
    hide DifficultyAt, RawAt;
    LowWork(timestamps, i);
    EarlyRaw(timestamps, i);
    DifficultyFollowsClamp(timestamps, i);
    assert DifficultyAt(timestamps, i - 1) <= 10;
  }

  /** The least work before block i while the difficulties are low. */
  function LeastWork(i: nat): nat {
    if i <= 2 then 1 else if i == 3 then 2 else LeastWork(i - 1) + LeastWork(i - 1) - 1
  }

  lemma {:induction false} LowWorkGrows(timestamps: seq<u64>, i: nat)
    requires EveryAtLeast(timestamps, 150) && 2 <= i <= 100 && i < |timestamps| && Low(timestamps, i)
    ensures WorkBefore(timestamps, i) >= LeastWork(i)
  {
    hide DifficultyAt;
    if i == 2 {
      FirstDifficulty(timestamps);
      assert WorkBefore(timestamps, 1) == 0;
    } else {
      LowWorkGrows(timestamps, i - 1);
      LowStep(timestamps, i - 1);
    }
  }

  /** By block 8 the difficulty has passed ten. */
  lemma {:induction false} FirstAboveTen(timestamps: seq<u64>, from: nat) returns (f: nat)
    requires EveryAtLeast(timestamps, 150) && |timestamps| >= 9 && 2 <= from <= 8 && Low(timestamps, from)
    ensures 2 <= f <= 8 && Low(timestamps, f) && DifficultyAt(timestamps, f) > 10
    decreases 8 - from
  {
    hide DifficultyAt;
    f := from;
    if DifficultyAt(timestamps, from) <= 10 {
      if from == 8 {
        LowWorkGrows(timestamps, 8);
        assert LeastWork(8) > 11;
        LowStep(timestamps, 8);
        assert false;
      }
      f := FirstAboveTen(timestamps, from + 1);
    }
  }

  /** The difficulty is above ten, well below the work before it, and that is at most 23/3 of it. */
  predicate Ahead(timestamps: seq<u64>, i: nat)
    requires i < |timestamps|
  {
    var d, v := DifficultyAt(timestamps, i), WorkBefore(timestamps, i + 1);
    d > 10 && 7 * d <= 6 * v && 3 * v <= 23 * d + 300 + 20 * i
  }

  lemma AheadAtFirst(timestamps: seq<u64>, f: nat)
    requires EveryAtLeast(timestamps, 150) && 2 <= f <= 8 && f < |timestamps| && Low(timestamps, f)
    requires DifficultyAt(timestamps, f) > 10
    ensures Ahead(timestamps, f) && DifficultyAt(timestamps, f) <= 420
  {
    hide DifficultyAt;
    LowWork(timestamps, f);
    LowWorkGrows(timestamps, f);
    LeastWorkPositive(f);
    LowStep(timestamps, f);
  }

  lemma LeastWorkPositive(i: nat)
    ensures LeastWork(i) >= 1
  {
  }

  lemma RawAhead(v: nat, d: nat, raw: nat)
    requires d > 10 && 7 * d <= 6 * v && 562949953421311 * v < 562949953421312 * (raw + 1)
    ensures raw >= 115 * d / 100
  {
  }

  /** One block further: the full rise, with both casts in range. */
  lemma AheadStep(timestamps: seq<u64>, f: nat, i: nat)
    requires EveryAtLeast(timestamps, 150) && 2 <= f <= 8 && f < i <= 500 && i < |timestamps|
    requires forall j :: f <= j < i ==> Ahead(timestamps, j)
    requires 115 * DifficultyAt(timestamps, i - 1) < TWO64
    ensures CastsFitAt(timestamps, i)
    ensures DifficultyAt(timestamps, i) == FullStep(DifficultyAt(timestamps, i - 1))
    ensures Ahead(timestamps, i)
  {
    hide DifficultyAt, RawAt, CastsFitAt, EveryAtLeast;
    var v, d := WorkBefore(timestamps, i), DifficultyAt(timestamps, i - 1);
    assert Ahead(timestamps, i - 1);
    WorkCastsFit(timestamps, i);
    if i <= 100 {
      EarlyRaw(timestamps, i);
      RawAhead(v, d, RawAt(timestamps, i));
      ChainFits(timestamps, i - 1);
      StepIsFull(d, RawAt(timestamps, i));
      DifficultyFollowsClamp(timestamps, i);
    } else {
      LateStep(timestamps, i);
    }
  }

  lemma LateStep(timestamps: seq<u64>, i: nat)
    requires EveryAtLeast(timestamps, 150) && 101 <= i < |timestamps| && CastsFitAt(timestamps, i)
    requires forall j :: i - 10 <= j < i ==> Ahead(timestamps, j)
    ensures DifficultyAt(timestamps, i) == FullStep(DifficultyAt(timestamps, i - 1))
  {
    hide DifficultyAt, CastsFitAt, SpacedAtLeast;
    EverySpaced(timestamps, 60, i, 100);
    forall j | i - 10 <= j < i ensures DifficultyAt(timestamps, j) > 10 {
      assert Ahead(timestamps, j);
    }
    AboveTenPrefix(timestamps, i - 10, i);
    SamePrefix(timestamps, i);
    FullAfterPrefix(timestamps, i);
  }

  /** As long as the full rise fits, every block after the first above ten is ahead of its window. */
  lemma {:induction false} GenesisAhead(timestamps: seq<u64>, f: nat, i: nat)
    requires EveryAtLeast(timestamps, 150) && 2 <= f <= 8 && f <= i <= 500 && i < |timestamps| && Low(timestamps, f)
    requires DifficultyAt(timestamps, f) > 10 && RisesFit(timestamps, f, i)
    ensures forall j :: f <= j <= i ==> Ahead(timestamps, j)
    ensures FullSteps(timestamps, f, i) && CastsFitBetween(timestamps, f + 1, i + 1)
  {
    hide DifficultyAt, CastsFitAt, Ahead, EveryAtLeast, FullStep;
    if i == f {
      AheadAtFirst(timestamps, f);
    } else {
      GenesisAhead(timestamps, f, i - 1);
      assert 115 * DifficultyAt(timestamps, i - 1) < TWO64;
      AheadStep(timestamps, f, i);
    }
  }

  /** The first block of a stretch for which a full rise does not fit. */
  lemma {:induction false} FirstCeiling(timestamps: seq<u64>, from: nat, end: nat) returns (i: nat)
    requires from <= end <= |timestamps| && !RisesFit(timestamps, from, end)
    ensures from <= i < end && RisesFit(timestamps, from, i) && 115 * DifficultyAt(timestamps, i) >= TWO64
    decreases end
  {
    hide DifficultyAt;
    if RisesFit(timestamps, from, end - 1) {
      i := end - 1;
    } else {
      i := FirstCeiling(timestamps, from, end - 1);
    }
  }

  /** The first block at the ceiling, with all that holds before it. */
  lemma GenesisCeiling(timestamps: seq<u64>) returns (f: nat, i: nat)
    requires EveryAtLeast(timestamps, 150) && |timestamps| >= 289
    ensures 2 <= f <= 8 && Low(timestamps, f) && DifficultyAt(timestamps, f) > 10
    ensures f <= i < f + 280 && RisesFit(timestamps, f, i) && 115 * DifficultyAt(timestamps, i) >= TWO64
  {
    hide DifficultyAt, EveryAtLeast, FullSteps, RisesFit, CastsFitAt;
    LowFromTwo(timestamps);
    f := FirstAboveTen(timestamps, 2);
    if RisesFit(timestamps, f, f + 280) {
      GenesisAhead(timestamps, f, f + 280);
      FullStepsReachCeiling(timestamps, f);
    }
    i := FirstCeiling(timestamps, f, f + 280);
  }

  lemma LowFromTwo(timestamps: seq<u64>)
    requires |timestamps| >= 2
    ensures Low(timestamps, 2)
  {
    FirstDifficulty(timestamps);
  }

  /** A chain that keeps to the target or is slower runs away: from genesis, with no block sooner than
      150 seconds after its predecessor, the difficulty is where 115 times it does not fit in 64 bits
      before block 288. */
  lemma GenesisReachesCeiling(timestamps: seq<u64>)
    requires EveryAtLeast(timestamps, 150) && |timestamps| >= 289
    ensures exists i :: 1 <= i < 288 && 115 * DifficultyAt(timestamps, i) >= TWO64
  {
    hide DifficultyAt, EveryAtLeast, RisesFit, Low;
    var f, i := GenesisCeiling(timestamps);
  }

  /** In its first hundred blocks such a chain is far from the ceiling. */
  lemma {:induction false} EarlyDifficulty(timestamps: seq<u64>, f: nat, i: nat)
    requires f <= i < |timestamps| && FullSteps(timestamps, f, i) && DifficultyAt(timestamps, f) <= 420
    ensures Pow(4, i - f) * DifficultyAt(timestamps, i) <= Pow(5, i - f) * 420
  {
    hide DifficultyAt, Pow;
    PowStep(4, i - f);
    PowStep(5, i - f);
    if i > f {
      EarlyDifficulty(timestamps, f, i - 1);
      assert DifficultyAt(timestamps, i) == FullStep(DifficultyAt(timestamps, i - 1));
      GeometricRise(Pow(4, i - f - 1), Pow(5, i - f - 1), 420, DifficultyAt(timestamps, i - 1),
                    DifficultyAt(timestamps, i), 5, 4);
    }
  }

  lemma EarlyIsLow(timestamps: seq<u64>, f: nat, i: nat)
    requires f <= i < |timestamps| && FullSteps(timestamps, f, i) && DifficultyAt(timestamps, f) <= 420
    requires i - f <= 102
    ensures 115 * DifficultyAt(timestamps, i) < TWO64
  {
    hide DifficultyAt, Pow, FullSteps;
    EarlyDifficulty(timestamps, f, i);
    QuartersTaken(i - f);
    PowPositive(4, i - f);
    var p, q, d := Pow(4, i - f), Pow(5, i - f), DifficultyAt(timestamps, i);
    MulAtMost(420, q, 0x4_0000_0000 * p);
    MulCommutes(q, 420);
    MulCommutes(p, 420 * 0x4_0000_0000);
    CancelFactor(p, d, 420 * 0x4_0000_0000);
  }

  /** And with 203 seconds or more between its blocks, the 389th difficulty is not reached without a
      cast out of range. */
  lemma GenesisOverflows(timestamps: seq<u64>)
    requires EveryAtLeast(timestamps, 203) && |timestamps| >= 388
    ensures exists i :: 2 <= i <= 388 && !CastsFitAt(timestamps, i)
  {
    hide DifficultyAt, CastsFitAt, RisesFit, Low, FullSteps, Ahead;
    var f, i := GenesisCeiling(timestamps);
    GenesisAhead(timestamps, f, i);
    AheadAtFirst(timestamps, f);
    if i <= 100 {
      EarlyIsLow(timestamps, f, i);
      assert false;
    }
    UnhurriedFromGenesis(timestamps, f, i);
    CeilingOverflows(timestamps, 101, i);
  }

  lemma UnhurriedFromGenesis(timestamps: seq<u64>, f: nat, i: nat)
    requires EveryAtLeast(timestamps, 203) && 2 <= f <= 8 && 100 <= i < |timestamps|
    requires forall j :: f <= j <= i ==> Ahead(timestamps, j)
    ensures UnhurriedFrom(timestamps, 101, 203)
  {
    hide DifficultyAt;
    forall j | 91 <= j < 101 ensures DifficultyAt(timestamps, j) > 10 {
      assert Ahead(timestamps, j);
    }
  }
}
