/** Wallet balances (src/wallet/wallet.cpp): replaying the persisted chain, and spending. */
module Wallet {
  import opened Words
  import opened CryptonoteTypes
  import opened Storage
  import opened Emission
  import opened TxPool

  /** CRYPTONOTE_DEFAULT_TX_SPENDABLE_AGE. */
  const SPENDABLE_AGE: nat := 10
  /** The flat fee of a transfer, 0.001 coins. */
  const TRANSFER_FEE: u64 := 1_000_000_000

  // ----- rescan -----

  /** The running total of `generated` after the blocks at heights 1 to n, wrapping at 2^64. */
  function GeneratedWord(n: nat): u64 {
    if n == 0 then 0 else U64(GeneratedWord(n - 1) + RewardAt(n))
  }

  /** The reward the replay gives the block at height i. */
  function RewardAt(i: nat): u64
    requires i >= 1
    decreases i, 0
  {
    BlockReward(GeneratedWord(i - 1), i)
  }

  /** The rewards of heights 1 to i that are spendable in a chain of n blocks, wrapping at 2^64. */
  function SpendableSum(n: nat, i: nat): u64 {
    if i == 0 then 0
    else if i + SPENDABLE_AGE <= n then U64(SpendableSum(n, i - 1) + RewardAt(i))
    else SpendableSum(n, i - 1)
  }

  /** The balances of a rescan of n persisted blocks, the first of which is the genesis block. */
  function RescanTotal(n: nat): u64
    requires n >= 1
  {
    GeneratedWord(n - 1)
  }

  function RescanUnlocked(n: nat): u64
    requires n >= 1
  {
    SpendableSum(n, n - 1)
  }

  /** The replay in numbers: nothing for genesis, then each reward of the total so far, modulo 2^64. */
  lemma RescanStep(n: nat)
    requires n >= 1
    ensures RescanTotal(1) == 0 && RescanTotal(2) == 17_547_607_421_875
    ensures RescanTotal(n + 1) == (RescanTotal(n) as int + BlockReward(RescanTotal(n), n)) % 0x1_0000_0000_0000_0000
  {
    hide BlockReward;
    FirstReward();
    assert GeneratedWord(n) == U64(GeneratedWord(n - 1) + RewardAt(n));
    assert RewardAt(n) == BlockReward(GeneratedWord(n - 1), n);
  }

  lemma FirstReward()
    ensures GeneratedWord(0) == 0 && GeneratedWord(1) == 17_547_607_421_875
  {
    assert GeneratedWord(0) == 0;
    assert RewardAt(1) == BlockReward(0, 1);
  }

  lemma {:induction false} SpendableSumStops(n: nat, i: nat)
    ensures SpendableSum(n, i) == if i + 10 <= n then GeneratedWord(i) else if n >= 10 then GeneratedWord(n - 10) else 0
  {
    if i > 0 {
      SpendableSumStops(n, i - 1);
    }
  }

  /** Maturity: what can be spent is the total of the chain without its last nine blocks, even
      across a wrap, and nothing in a chain of fewer than ten. */
  lemma RescanMaturity(n: nat)
    requires n >= 1
    ensures n >= 10 ==> RescanUnlocked(n) == RescanTotal(n - 9)
    ensures n < 10 ==> RescanUnlocked(n) == 0
  {
    SpendableSumStops(n, n - 1);
    if n == 10 {
      assert GeneratedWord(0) == 0;
    }
  }

  /** The replay agrees with the exact emission schedule until that leaves 64 bits. */
  lemma {:induction false} ReplayIsExact(n: nat)
    requires Generated(n) <= U64_MAX
    ensures GeneratedWord(n) == Generated(n)
  {
    if n > 0 {
      assert Generated(n) == Generated(n - 1) + ExactReward(Generated(n - 1));
      ReplayIsExact(n - 1);
      RewardIgnoresHeight(Generated(n - 1), n);
    }
  }

  lemma RewardIgnoresHeight(generated: u64, height: nat)
    requires height >= 1
    ensures BlockReward(generated, height) == ExactReward(generated)
  {
  }

  /** A longer chain never shows less, as long as the exact total fits. */
  lemma ExtensionNeverLowers(m: nat, n: nat)
    requires 1 <= m <= n && Generated(n - 1) <= U64_MAX
    ensures RescanTotal(m) <= RescanTotal(n)
    ensures RescanUnlocked(m) <= RescanUnlocked(n)
  {
    hide Generated, GeneratedWord, SpendableSum;
    TotalsOrdered(m, n);
    RescanMaturity(m);
    RescanMaturity(n);
    if m >= 10 {
      GeneratedMonotone(n - 10, n - 1);
      TotalsOrdered(m - 9, n - 9);
    }
  }

  lemma TotalsOrdered(m: nat, n: nat)
    requires 1 <= m <= n && Generated(n - 1) <= U64_MAX
    ensures RescanTotal(m) <= RescanTotal(n)
  {
    hide Generated, GeneratedWord;
    GeneratedMonotone(m - 1, n - 1);
    ReplayIsExact(m - 1);
    ReplayIsExact(n - 1);
  }

  /** The same, with the length at which the schedule is known to fit. */
  lemma ShortChainsNeverLower(m: nat, n: nat)
    requires 1 <= m <= n <= 4_456_448 + 77_906
    ensures RescanTotal(m) <= RescanTotal(n) == Generated(n - 1)
    ensures RescanUnlocked(m) <= RescanUnlocked(n) <= RescanTotal(n)
  {
    hide Generated, GeneratedWord, SpendableSum;
    NoOverflow(n - 1);
    ExtensionNeverLowers(m, n);
    ReplayIsExact(n - 1);
    RescanMaturity(n);
    if n >= 10 {
      GeneratedMonotone(n - 10, n - 1);
      TotalsOrdered(n - 9, n);
    }
  }

  // ----- when the total wraps -----

  /** One more block lowers the total shown exactly when the running total and the reward wrap. */
  lemma LowersExactly(n: nat)
    requires n >= 1
    ensures RescanTotal(n + 1) < RescanTotal(n) <==> RescanTotal(n) + RewardAt(n) > U64_MAX
  {
    if RescanTotal(n) + RewardAt(n) > U64_MAX {
      U64Unique(RescanTotal(n) + RewardAt(n), RescanTotal(n) + RewardAt(n) - TWO64, 1);
    } else {
      U64Small(RescanTotal(n) + RewardAt(n));
    }
  }

  /** The block at height n takes the exact emission out of 64 bits. */
  ghost predicate WrapsAt(n: nat) {
    n >= 1 && Generated(n - 1) <= U64_MAX < Generated(n)
  }

  lemma LastReward(n: nat)
    requires WrapsAt(n)
    ensures Generated(n) == Generated(n - 1) + TAIL_REWARD
  {
  }

  /** At that block the total drops from within one tail reward of 2^64 to less than one tail reward,
      and the replay starts the schedule over with a reward 29 times as large. */
  lemma FirstWrap(n: nat)
    requires WrapsAt(n)
    ensures 4_456_448 + 77_905 < n <= 4_718_592 + 77_907
    ensures RescanTotal(n) == Generated(n - 1) > U64_MAX - TAIL_REWARD
    ensures RescanTotal(n + 1) == Generated(n) - TWO64 < TAIL_REWARD
    ensures RewardAt(n) == TAIL_REWARD && RewardAt(n + 1) >= 29 * TAIL_REWARD
  {
    if n <= 4_456_448 + 77_905 {
      NoOverflow(n);
    }
    if n - 1 >= 4_718_592 + 77_907 {
      Overflows(n - 1);
    }
    hide Generated, GeneratedWord;
    ReplayIsExact(n - 1);
    LastReward(n);
    RewardIgnoresHeight(Generated(n - 1), n);
    LastWordReward(n);
    WordStep(n);
    U64Unique(GeneratedWord(n - 1) + RewardAt(n), Generated(n) - TWO64, 1);
  }

  lemma LastWordReward(n: nat)
    requires WrapsAt(n)
    ensures ExactReward(Generated(n - 1)) == TAIL_REWARD
  {
  }

  lemma WordStep(n: nat)
    requires n >= 1
    ensures GeneratedWord(n) == U64(GeneratedWord(n - 1) + RewardAt(n))
  {
  }

  /** No chain up to n blocks shows less than a shorter one. */
  ghost predicate NeverLowers(n: nat) {
    forall i, j :: 1 <= i <= j <= n ==> RescanTotal(i) <= RescanTotal(j)
  }

  /** When the total never shrinks: exactly as long as the exact emission fits in 64 bits. */
  lemma NeverLowersExactly(n: nat)
    requires n >= 1
    ensures NeverLowers(n) <==> Generated(n - 1) <= U64_MAX
  {
    hide Generated, GeneratedWord;
    if Generated(n - 1) <= U64_MAX {
      forall i, j | 1 <= i <= j <= n ensures RescanTotal(i) <= RescanTotal(j) {
        GeneratedMonotone(j - 1, n - 1);
        TotalsOrdered(i, j);
      }
    } else {
      EmptyTotal();
      var last := LastThatFits(0, n - 1);
      FirstWrap(last + 1);
      assert RescanTotal(last + 2) < RescanTotal(last + 1);
    }
  }

  lemma EmptyTotal()
    ensures Generated(0) == 0
  {
  }

  /** The same for the spendable balance, which is the total nine blocks earlier. */
  ghost predicate UnlockedNeverLowers(n: nat) {
    forall i, j :: 1 <= i <= j <= n ==> RescanUnlocked(i) <= RescanUnlocked(j)
  }

  lemma UnlockedNeverLowersExactly(n: nat)
    requires n >= 10
    ensures UnlockedNeverLowers(n) <==> Generated(n - 10) <= U64_MAX
  {
    hide Generated, GeneratedWord, SpendableSum;
    NeverLowersExactly(n - 9);
    if NeverLowers(n - 9) {
      forall i, j | 1 <= i <= j <= n ensures RescanUnlocked(i) <= RescanUnlocked(j) {
        RescanMaturity(i);
        RescanMaturity(j);
      }
    } else {
      var i, j :| 1 <= i <= j <= n - 9 && RescanTotal(i) > RescanTotal(j);
      RescanMaturity(i + 9);
      RescanMaturity(j + 9);
      assert RescanUnlocked(i + 9) > RescanUnlocked(j + 9);
    }
  }

  lemma RewardAtMost(generated: u64, height: nat)
    requires height >= 1
    ensures BlockReward(generated, height) <= 17_547_607_421_875
  {
  }

  /** After the first wrap the replay counts up again, by at most 17.55 coins a block. */
  lemma {:induction false} AfterWrap(w: nat, m: nat)
    requires WrapsAt(w) && m <= 0x10_0000
    ensures RescanTotal(w + 1) <= RescanTotal(w + 1 + m) <= 600_000_000_000 + m * 17_547_607_421_875
    ensures m >= 1 ==> RescanTotal(w + m) <= RescanTotal(w + 1 + m)
  {
    hide Generated, GeneratedWord;
    if m == 0 {
      FirstWrap(w);
    } else {
      AfterWrap(w, m - 1);
      WordStep(w + m);
      RewardAtMost(GeneratedWord(w + m - 1), w + m);
      SuccessorTimes(m - 1, 17_547_607_421_875);
      U64Small(GeneratedWord(w + m - 1) + RewardAt(w + m));
    }
  }

  lemma {:induction false} AfterWrapOrdered(w: nat, i: nat, j: nat)
    requires WrapsAt(w) && i <= j <= 0x10_0000
    ensures RescanTotal(w + 1 + i) <= RescanTotal(w + 1 + j)
  {
    hide Generated, GeneratedWord;
    if i < j {
      AfterWrapOrdered(w, i, j - 1);
      AfterWrap(w, j);
    }
  }

  /** The spendable balance is within the total, up to 2^20 blocks after the first wrap, except at the
      nine lengths at which the total has wrapped and the spendable balance has not. */
  lemma UnlockedExceedsExactly(w: nat, n: nat)
    requires WrapsAt(w) && 1 <= n <= w + 0x10_0000
    ensures RescanUnlocked(n) <= RescanTotal(n) <==> !(w + 1 <= n <= w + 9)
  {
    hide Generated, GeneratedWord, SpendableSum;
    RescanMaturity(n);
    FirstWrap(w);
    if n <= w {
      GeneratedMonotone(n - 1, w - 1);
      if n >= 10 {
        TotalsOrdered(n - 9, n);
      }
    } else if n <= w + 9 {
      AfterWrap(w, n - w - 1);
      BeforeWrap(w, n - 9);
    } else {
      AfterWrapOrdered(w, n - 9 - w - 1, n - w - 1);
    }
  }

  /** Just before the wrap the total is within nine rewards of 2^64. */
  lemma BeforeWrap(w: nat, n: nat)
    requires WrapsAt(w) && 1 <= n <= w <= n + 8
    ensures RescanTotal(n) > 10_000_000_000_000_000_000
  {
    hide Generated, GeneratedWord;
    FirstWrap(w);
    GeneratedMonotone(n - 1, w - 1);
    ReplayIsExact(n - 1);
    FewRewards(n - 1, w - 1);
  }

  lemma {:induction false} FewRewards(m: nat, n: nat)
    requires m <= n
    ensures Generated(n) <= Generated(m) + (n - m) * 17_547_607_421_875
  {
    if m < n {
      FewRewards(m, n - 1);
      SuccessorTimes(n - 1 - m, 17_547_607_421_875);
    }
  }

  // ----- transfers -----

  datatype WalletTransfer = WalletTransfer(amount: u64, height: u64, isIncoming: bool, isUnlocked: bool, recipient: string)

  datatype Balances = Balances(total: u64, unlocked: u64, history: seq<WalletTransfer>)

  function OutgoingTransfer(recipient: string, amount: u64): WalletTransfer {
    WalletTransfer(amount, 42, false, true, recipient)
  }

  predicate Accepts(s: Balances, amount: u64) {
    amount <= s.unlocked
  }

  /** The balances after a request to send `amount`. */
  function AfterTransfer(s: Balances, recipient: string, amount: u64): Balances {
    if !Accepts(s, amount) then s
    else
      var spent := U64(amount + TRANSFER_FEE);
      Balances(Minus(s.total, spent), Minus(s.unlocked, spent), s.history + [OutgoingTransfer(recipient, amount)])
  }

  function AfterTransfers(s: Balances, requests: seq<(string, u64)>): Balances {
    if requests == [] then s
    else AfterTransfer(AfterTransfers(s, requests[..|requests| - 1]), requests[|requests| - 1].0, requests[|requests| - 1].1)
  }

  function RecordedAmounts(history: seq<WalletTransfer>): nat {
    if history == [] then 0 else RecordedAmounts(history[..|history| - 1]) + history[|history| - 1].amount
  }

  /** Spendable balance, recorded amounts and fees paid, modulo 2^64. */
  function Accounted(s: Balances): u64 {
    U64(s.unlocked + RecordedAmounts(s.history) + 1_000_000_000 * |s.history|)
  }

  lemma TransferConserves(s: Balances, recipient: string, amount: u64)
    ensures Accounted(AfterTransfer(s, recipient, amount)) == Accounted(s)
    ensures var s' := AfterTransfer(s, recipient, amount);
            Minus(s'.total, s'.unlocked) == Minus(s.total, s.unlocked)
  {
    hide U64;
    if Accepts(s, amount) {
      var s' := AfterTransfer(s, recipient, amount);
      var spent := U64(amount + TRANSFER_FEE);
      RecordedOneMore(s.history, OutgoingTransfer(recipient, amount));
      SpentAndRecorded(s.unlocked, amount, RecordedAmounts(s.history) + 1_000_000_000 * |s.history|);
      U64SubBoth(s.total - spent, s.unlocked - spent);
    }
  }

  lemma RecordedOneMore(history: seq<WalletTransfer>, t: WalletTransfer)
    ensures RecordedAmounts(history + [t]) == RecordedAmounts(history) + t.amount
  {
    assert (history + [t])[..|history|] == history;
  }

  lemma SpentAndRecorded(unlocked: u64, amount: u64, rest: nat)
    ensures U64(Minus(unlocked, U64(amount + TRANSFER_FEE)) + (rest + amount + 1_000_000_000)) == U64(unlocked + rest)
  {
    var k := U64Split(amount + TRANSFER_FEE);
    var j := U64Split(unlocked - U64(amount + TRANSFER_FEE));
    hide U64;
    U64Congruent(Minus(unlocked, U64(amount + TRANSFER_FEE)) + (rest + amount + 1_000_000_000), unlocked + rest, k - j);
  }

  /** Conservation over every sequence of requests: nothing appears or vanishes modulo 2^64, and
      the locked part never changes. */
  lemma {:induction false} TransfersConserve(s: Balances, requests: seq<(string, u64)>)
    ensures Accounted(AfterTransfers(s, requests)) == Accounted(s)
    ensures var s' := AfterTransfers(s, requests); Minus(s'.total, s'.unlocked) == Minus(s.total, s.unlocked)
  {
    if requests != [] {
      var init, last := requests[..|requests| - 1], requests[|requests| - 1];
      TransfersConserve(s, init);
      TransferConserves(AfterTransfers(s, init), last.0, last.1);
    }
  }

  /** The same sum over the integers. */
  function Ledger(s: Balances): int {
    s.unlocked + RecordedAmounts(s.history) + 1_000_000_000 * |s.history|
  }

  /** How many of the requests were accepted although amount and fee exceeded the balance. */
  function Uncovered(s: Balances, requests: seq<(string, u64)>): nat {
    if requests == [] then 0
    else
      var init, amount := requests[..|requests| - 1], requests[|requests| - 1].1;
      Uncovered(s, init) + if OverSpends(AfterTransfers(s, init), amount) then 1 else 0
  }

  predicate OverSpends(s: Balances, amount: u64) {
    Accepts(s, amount) && amount + TRANSFER_FEE > s.unlocked
  }

  lemma LedgerStep(s: Balances, recipient: string, amount: u64)
    ensures Ledger(AfterTransfer(s, recipient, amount)) == Ledger(s) + if OverSpends(s, amount) then TWO64 else 0
  {
    if Accepts(s, amount) {
      RecordedOneMore(s.history, OutgoingTransfer(recipient, amount));
      SpentWord(s.unlocked, amount);
    }
  }

  /** Every uncovered request creates exactly 2^64 atomic units. */
  lemma {:induction false} LedgerCounts(s: Balances, requests: seq<(string, u64)>)
    ensures Ledger(AfterTransfers(s, requests)) == Ledger(s) + TWO64 * Uncovered(s, requests)
  {
    hide Ledger, OverSpends, AfterTransfer;
    if requests != [] {
      var init, last := requests[..|requests| - 1], requests[|requests| - 1];
      LedgerCounts(s, init);
      LedgerStep(AfterTransfers(s, init), last.0, last.1);
    }
  }

  /** Every request that was accepted was covered, amount and fee, by the balance it met. */
  predicate AllCovered(s: Balances, requests: seq<(string, u64)>) {
    forall i :: 0 <= i < |requests| ==> !OverSpends(AfterTransfers(s, requests[..i]), requests[i].1)
  }

  lemma {:induction false} NoneUncovered(s: Balances, requests: seq<(string, u64)>)
    ensures Uncovered(s, requests) == 0 <==> AllCovered(s, requests)
  {
    hide OverSpends, AfterTransfers;
    if requests != [] {
      var init, m := requests[..|requests| - 1], |requests| - 1;
      NoneUncovered(s, init);
      forall i | 0 <= i < m ensures init[..i] == requests[..i] && init[i] == requests[i] {
      }
    }
  }

  /** Conservation without the modulus: spendable balance, recorded amounts and fees keep their sum
      exactly when every accepted request was covered. */
  lemma ConservedExactly(s: Balances, requests: seq<(string, u64)>)
    ensures Ledger(AfterTransfers(s, requests)) == Ledger(s) <==> AllCovered(s, requests)
  {
    hide Ledger, AfterTransfers, AllCovered;
    LedgerCounts(s, requests);
    NoneUncovered(s, requests);
  }

  // ----- transfers and rescans -----

  datatype WalletOp =
    | Send(recipient: string, amount: u64)
    | Rescan(blocks: nat)

  /** A rescan of a log with at least one block overwrites both balances and keeps the history. */
  function AfterRescan(s: Balances, blocks: nat): Balances {
    if blocks == 0 then s else Balances(RescanTotal(blocks), RescanUnlocked(blocks), s.history)
  }

  function AfterOps(s: Balances, ops: seq<WalletOp>): Balances {
    if ops == [] then s
    else
      var before := AfterOps(s, ops[..|ops| - 1]);
      match ops[|ops| - 1]
      case Send(recipient, amount) => AfterTransfer(before, recipient, amount)
      case Rescan(blocks) => AfterRescan(before, blocks)
  }

  /** What the rescans of a history put back on the spendable balance, over the integers. */
  function PutBack(s: Balances, ops: seq<WalletOp>): int {
    if ops == [] then 0
    else
      var init := ops[..|ops| - 1];
      var before := AfterOps(s, init);
      PutBack(s, init) + match ops[|ops| - 1]
                         case Send(_, _) => 0
                         case Rescan(blocks) => AfterRescan(before, blocks).unlocked - before.unlocked
  }

  function UncoveredSends(s: Balances, ops: seq<WalletOp>): nat {
    if ops == [] then 0
    else
      var init := ops[..|ops| - 1];
      UncoveredSends(s, init) + match ops[|ops| - 1]
                                case Send(_, amount) => if OverSpends(AfterOps(s, init), amount) then 1 else 0
                                case Rescan(_) => 0
  }

  /** The ledger over any history: it grows by 2^64 for each uncovered request and by what each rescan
      puts back, and by nothing else. */
  lemma {:induction false} LedgerOfHistory(s: Balances, ops: seq<WalletOp>)
    ensures Ledger(AfterOps(s, ops)) == Ledger(s) + TWO64 * UncoveredSends(s, ops) + PutBack(s, ops)
  {
    hide OverSpends, AfterTransfer, RescanTotal, RescanUnlocked;
    if ops != [] {
      var init := ops[..|ops| - 1];
      LedgerOfHistory(s, init);
      match ops[|ops| - 1]
      case Send(recipient, amount) =>
        hide Ledger;
        LedgerStep(AfterOps(s, init), recipient, amount);
      case Rescan(blocks) =>
    }
  }

  /** What the wallet has recorded as paid, amounts and fees. */
  function PaidOut(s: Balances): nat {
    RecordedAmounts(s.history) + 1_000_000_000 * |s.history|
  }

  lemma LedgerIsPaidAndLeft(s: Balances)
    ensures Ledger(s) == s.unlocked + PaidOut(s)
  {
  }

  /** A rescan forgets what was spent: after a rescan of m blocks, any requests, and a rescan of n blocks,
      the ledger has grown by everything paid in between, on top of what the chain has added. */
  lemma RescanForgets(s: Balances, m: nat, requests: seq<(string, u64)>, n: nat)
    requires m >= 1 && n >= 1
    ensures var first := AfterRescan(s, m);
            var spent := AfterTransfers(first, requests);
            && Ledger(AfterRescan(spent, n)) - Ledger(first)
                 == RescanUnlocked(n) - RescanUnlocked(m) + PaidOut(spent) - PaidOut(first)
            && PaidOut(spent) - PaidOut(first)
                 == RescanUnlocked(m) - spent.unlocked + TWO64 * Uncovered(first, requests)
  {
    hide AfterTransfers, Ledger, PaidOut, RescanTotal, RescanUnlocked;
    var first := AfterRescan(s, m);
    var spent := AfterTransfers(first, requests);
    LedgerCounts(first, requests);
    LedgerIsPaidAndLeft(first);
    LedgerIsPaidAndLeft(spent);
    LedgerIsPaidAndLeft(AfterRescan(spent, n));
    SameHistory(spent, n);
  }

  lemma SameHistory(s: Balances, n: nat)
    ensures PaidOut(AfterRescan(s, n)) == PaidOut(s)
  {
  }

  /** So one balance is spent as often as the same chain is rescanned: the covered payment is recorded,
      and both balances are what they were. */
  lemma SpentTwice(s: Balances, n: nat, recipient: string, amount: u64)
    requires n >= 1 && amount + TRANSFER_FEE <= RescanUnlocked(n)
    ensures var first := AfterRescan(s, n);
            var again := AfterRescan(AfterTransfer(first, recipient, amount), n);
            && again.total == first.total && again.unlocked == first.unlocked
            && PaidOut(again) == PaidOut(first) + amount + TRANSFER_FEE
  {
    hide RescanTotal, RescanUnlocked;
    var first := AfterRescan(s, n);
    RecordedOneMore(first.history, OutgoingTransfer(recipient, amount));
  }

  /** An accepted transfer is paid for without a wrap exactly when amount and fee are covered;
      the program checks the amount alone. */
  lemma CoveredExactly(s: Balances, recipient: string, amount: u64)
    requires Accepts(s, amount)
    ensures AfterTransfer(s, recipient, amount).unlocked + amount + TRANSFER_FEE == s.unlocked
            <==> amount + TRANSFER_FEE <= s.unlocked
  {
    SpentWord(s.unlocked, amount);
  }

  /** The spendable balance after an accepted transfer: reduced, or wrapped up by 2^64. */
  lemma SpentWord(balance: u64, amount: u64)
    ensures Minus(balance, U64(amount + TRANSFER_FEE))
         == if amount + TRANSFER_FEE <= balance then balance - amount - TRANSFER_FEE
            else if balance - amount - TRANSFER_FEE < -TWO64 then balance - amount - TRANSFER_FEE + 2 * TWO64
            else balance - amount - TRANSFER_FEE + TWO64
  {
    var k := U64Split(amount + TRANSFER_FEE);
    var exact := balance - amount - TRANSFER_FEE;
    U64Congruent(balance - U64(amount + TRANSFER_FEE), exact, k);
    if exact >= 0 {
      U64Unique(exact, exact, 0);
    } else if exact < -TWO64 {
      U64Unique(exact, exact + 2 * TWO64, -2);
    } else {
      U64Unique(exact, exact + TWO64, -1);
    }
  }

  /** When an accepted transfer keeps the spendable balance within the total. */
  lemma OrderedExactly(s: Balances, recipient: string, amount: u64)
    requires Accepts(s, amount) && s.unlocked <= s.total
    ensures var s' := AfterTransfer(s, recipient, amount);
            s'.unlocked <= s'.total <==> amount + TRANSFER_FEE <= s.unlocked || amount + TRANSFER_FEE > s.total
  {
    SpentWord(s.unlocked, amount);
    SpentWord(s.total, amount);
  }

  /** The failing side: half of a total of 0.01 coins is spendable and sent. */
  lemma OrderLost(recipient: string)
    ensures var s := Balances(10_000_000_000, 5_000_000_000, []);
            var s' := AfterTransfer(s, recipient, s.unlocked);
            Accepts(s, s.unlocked) && s'.total == 4_000_000_000 < s'.unlocked == TWO64 - TRANSFER_FEE
  {
    SpentWord(5_000_000_000, 5_000_000_000);
    SpentWord(10_000_000_000, 5_000_000_000);
  }

  /** Sending the whole starting balance of 250 coins is accepted and wraps both balances. */
  lemma SendingEverythingWraps(recipient: string)
    ensures var s := Balances(250_000_000_000_000, 250_000_000_000_000, []);
            var s' := AfterTransfer(s, recipient, s.unlocked);
            s'.unlocked == s'.total == TWO64 - TRANSFER_FEE
  {
    assert U64(250_000_000_000_000 + TRANSFER_FEE) == 250_001_000_000_000;
  }

  // ----- the transaction a transfer builds -----

  function DecoyRing(n: nat): (offsets: seq<u64>)
    requires n <= 16
    ensures |offsets| == n
    ensures forall i :: 0 <= i < n ==> offsets[i] == 100 + i * 5
  {
    if n == 0 then [] else DecoyRing(n - 1) + [100 + (n - 1) * 5]
  }

  function Repeat(b: u8, n: nat): (bytes: seq<u8>)
    ensures |bytes| == n && forall i :: 0 <= i < n ==> bytes[i] == b
  {
    if n == 0 then [] else Repeat(b, n - 1) + [b]
  }

  /** The caller's transaction with one input, one output and the proof payloads put in. */
  function TransferTx(tx: Transaction): Transaction {
    tx.(version := 2,
        unlockTime := 0,
        vin := tx.vin + [TxInput(0, DecoyRing(16), ZeroHash())],
        vout := tx.vout + [TxOutput(0, ZeroHash()[0 := 0x99])],
        rct := tx.rct.(kind := 6, fee := TRANSFER_FEE, bulletproofPlus := Resized(tx.rct.bulletproofPlus, 128, 0xAA),
                       clsag := Resized(tx.rct.clsag, 256, 0xBB)))
  }

  /** `vector::resize` with a fill value. */
  function Resized(bytes: seq<u8>, n: nat, fill: u8): (r: seq<u8>)
    ensures |r| == n
  {
    if |bytes| >= n then bytes[..n] else bytes + Repeat(fill, n - |bytes|)
  }

  /** The transaction of a transfer, field by field: one ring of 16 decoys 100, 105, ..., 175 with a zero key
      image and one output to the key 99 00 ... are added, and the payloads are cut or filled to their sizes. */
  lemma TransferTxFields(tx: Transaction)
    ensures var r := TransferTx(tx);
            && r.version == 2 && r.unlockTime == 0 && r.extra == tx.extra && r.hash == tx.hash
            && |r.vin| == |tx.vin| + 1 && r.vin[..|tx.vin|] == tx.vin && r.vin[|tx.vin|].amount == 0
            && |r.vin[|tx.vin|].keyOffsets| == 16
            && (forall i :: 0 <= i < 16 ==> r.vin[|tx.vin|].keyOffsets[i] == 100 + 5 * i)
            && (forall i :: 0 <= i < 32 ==> r.vin[|tx.vin|].keyImage[i] == 0)
            && |r.vout| == |tx.vout| + 1 && r.vout[..|tx.vout|] == tx.vout && r.vout[|tx.vout|].amount == 0
            && r.vout[|tx.vout|].key[0] == 0x99 && (forall i :: 1 <= i < 32 ==> r.vout[|tx.vout|].key[i] == 0)
            && r.rct.kind == 6 && r.rct.fee == 1_000_000_000 && r.rct.pseudoOuts == tx.rct.pseudoOuts
            && FilledTo(r.rct.bulletproofPlus, tx.rct.bulletproofPlus, 128, 0xAA)
            && FilledTo(r.rct.clsag, tx.rct.clsag, 256, 0xBB)
  {
  }

  /** The first n bytes of a text of bytes, or all of it and the fill behind it. */
  predicate FilledTo(r: seq<u8>, bytes: seq<u8>, n: nat, fill: u8) {
    |r| == n && forall i :: 0 <= i < n ==> r[i] == if i < |bytes| then bytes[i] else fill
  }

  /** A request in full.  It is taken when the amount alone is within the spendable balance; then both
      balances fall, modulo 2^64, by the amount and by the fee that the built transaction carries, which is
      0.001 coins, and the history gets one more entry; otherwise nothing changes. */
  lemma TransferExactly(s: Balances, recipient: string, amount: u64, tx: Transaction)
    ensures amount <= s.unlocked ==>
              var s', fee := AfterTransfer(s, recipient, amount), TransferTx(tx).rct.fee;
              && fee == 1_000_000_000
              && s'.unlocked == (s.unlocked - amount - fee) % 0x1_0000_0000_0000_0000
              && s'.total == (s.total - amount - fee) % 0x1_0000_0000_0000_0000
              && s'.history == s.history + [WalletTransfer(amount, 42, false, true, recipient)]
    ensures amount > s.unlocked ==> AfterTransfer(s, recipient, amount) == s
  {
    if amount <= s.unlocked {
      SubtractedFee(s.unlocked, amount);
      SubtractedFee(s.total, amount);
    }
  }

  lemma SubtractedFee(balance: u64, amount: u64)
    ensures Minus(balance, U64(amount + TRANSFER_FEE)) == (balance - amount - 1_000_000_000) % 0x1_0000_0000_0000_0000
  {
    var k := U64Split(amount + TRANSFER_FEE);
    U64Congruent(balance - U64(amount + TRANSFER_FEE), balance - amount - 1_000_000_000, k);
  }

  /** In the pool a transfer counts with the fee its sender paid. */
  lemma TransferEntryFee(tx: Transaction, now: u64)
    ensures NewEntry(TransferTx(tx), now).fee == 1_000_000_000 && NewEntry(TransferTx(tx), now).tx == TransferTx(tx)
  {
  }

  /** A transfer built on a fresh transaction enters exactly the pools that know neither its hash nor
      the all-zero key image. */
  lemma FreshTransferAdmitted(pool: seq<PoolEntry>)
    ensures Admit(pool, TransferTx(EmptyTransaction())).Admitted?
            <==> !HashIn(pool, ZeroHash()) && !ImageIn(pool, ZeroHash())
  {
    var tx := TransferTx(EmptyTransaction());
    AdmittedExactly(pool, tx);
    assert tx.hash == ZeroHash();
    assert tx.vin[0].keyImage == ZeroHash();
  }

  /** Every transfer carries the same, never filled in, key image: a pool that holds one turns away
      all others. */
  lemma TransfersConflict(pool: seq<PoolEntry>, k: nat, earlier: Transaction, later: Transaction)
    requires k < |pool| && pool[k].tx == TransferTx(earlier)
    ensures !Admit(pool, TransferTx(later)).Admitted?
  {
    AdmittedExactly(pool, TransferTx(later));
    var tx := TransferTx(later);
    assert pool[k].tx.vin[|earlier.vin|].keyImage == ZeroHash();
    assert ImageIn(pool, ZeroHash());
    assert tx.vin[|later.vin|].keyImage == ZeroHash();
  }

  // ----- the class -----

  /** The replay loop of `rescan_blockchain` over n blocks. */
  method ReplayRewards(n: nat) returns (total: u64, unlocked: u64)
    requires n >= 1
    ensures total == RescanTotal(n) && unlocked == RescanUnlocked(n)
  {
    hide BlockReward, U64;
    total, unlocked := 0, 0;
    var generated: u64 := 0;
    var i := 1;
    while i < n
      invariant 1 <= i <= n
      invariant generated == total == GeneratedWord(i - 1)
      invariant unlocked == SpendableSum(n, i - 1)
    {
      var reward := BlockReward(generated, i);
      assert reward == RewardAt(i);
      generated := U64(generated + reward);
      total := U64(total + reward);
      if i + SPENDABLE_AGE <= n {
        unlocked := U64(unlocked + reward);
      }
      i := i + 1;
    }
  }

  class Wallet {
    var totalBalance: u64
    var unlockedBalance: u64
    var history: seq<WalletTransfer>

    constructor ()
      ensures totalBalance == unlockedBalance == 0 && history == []
    {
      totalBalance := 0;
      unlockedBalance := 0;
      history := [];
    }

    ghost function State(): Balances
      reads this
    {
      Balances(totalBalance, unlockedBalance, history)
    }

    /** `rescan_blockchain` over a data directory. */
    method RescanBlockchain(dir: DataDirectory) returns (balance: u64)
      modifies this
      ensures var n := |DecodeLog(Bytes(dir.blocksFile))|;
              State() == if n > 0 then Balances(RescanTotal(n), RescanUnlocked(n), old(history)) else old(State())
      ensures balance == totalBalance
    {
      var db := new PersistentDatabase();
      var _ := db.Open(dir);
      var ok, blocks, timestamps, cumulative, spent := db.LoadChain([], [], [], {});
      if ok && blocks != [] {
        totalBalance, unlockedBalance := ReplayRewards(|blocks|);
      }
      balance := totalBalance;
    }

    /** `create_transfer`, completing the caller's transaction. */
    method CreateTransfer(recipient: string, amount: u64, txIn: Transaction) returns (ok: bool, txOut: Transaction)
      modifies this
      ensures ok == Accepts(old(State()), amount)
      ensures State() == AfterTransfer(old(State()), recipient, amount)
      ensures txOut == if ok then TransferTx(txIn) else txIn
    {
      txOut := txIn;
      if amount > unlockedBalance {
        return false, txOut;
      }
      txOut := txOut.(version := 2, unlockTime := 0);
      var offsets: seq<u64> := [];
      for i := 0 to 16
        invariant offsets == DecoyRing(i)
      {
        offsets := offsets + [100 + i * 5];
      }
      txOut := txOut.(vin := txOut.vin + [TxInput(0, offsets, ZeroHash())]);
      txOut := txOut.(vout := txOut.vout + [TxOutput(0, ZeroHash()[0 := 0x99])]);
      txOut := txOut.(rct := txOut.rct.(
        kind := 6,
        fee := TRANSFER_FEE,
        bulletproofPlus := Resized(txOut.rct.bulletproofPlus, 128, 0xAA),
        clsag := Resized(txOut.rct.clsag, 256, 0xBB)));
      unlockedBalance := Minus(unlockedBalance, U64(amount + txOut.rct.fee));
      totalBalance := Minus(totalBalance, U64(amount + txOut.rct.fee));
      history := history + [OutgoingTransfer(recipient, amount)];
      ok := true;
    }
  }
}
