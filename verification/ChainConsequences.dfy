/** What the chain invariant says about acceptance, work, seeds, the mempool and the wallet. */
module ChainConsequences {
  import opened Words
  import opened CryptonoteTypes
  import opened Difficulty
  import opened ChainDifficulty
  import opened ProofOfWork
  import opened TxPool
  import opened TxPoolLaws
  import opened Storage
  import opened Hex
  import opened Wallet
  import opened Emission
  import opened Chain
  import opened ChainLaws

  // ----- acceptance -----

  /** A block is accepted exactly when it names the tip, is later than the tip but not too far in
      the future, and its hash number times the current difficulty fits in 64 bits. */
  lemma AcceptedExactly(n: Node, b: Block, now: u64)
    requires InStep(n) && n.blocks != []
    ensures Judge(n, b, now).Accepted? <==>
            && b.prevId == Last(n.blocks).hash
            && Last(n.blocks).timestamp < b.timestamp <= U64(now + FUTURE_TIME_LIMIT)
            && CurrentDifficulty(n) > 0 && PowValue(b.hash) * CurrentDifficulty(n) <= U64_MAX
  {
    PowDecision(b.hash, CurrentDifficulty(n));
  }

  /** Every non-genesis block of a reachable chain carries the work its difficulty asks for. */
  lemma ChainCarriesWork(n: Node, i: nat)
    requires ChainInv(n) && 1 <= i < |n.blocks|
    ensures DifficultyAt(n.timestamps, i) >= 1
    ensures PowValue(n.blocks[i].hash) * DifficultyAt(n.timestamps, i) <= U64_MAX
  {
    PowDecision(n.blocks[i].hash, DifficultyAt(n.timestamps, i));
  }

  // ----- every rising list of timestamps is a chain -----

  /** A hash that the fold turns into zeros where the target test looks. */
  function EasyHash(): (h: Hash)
    ensures PowValue(h) == 0
  {
    [0, 249, 242, 235, 228, 221, 214, 207] + seq<u8>(24, _ => 0)
  }

  function MinedBlock(previous: Hash, timestamp: u64): Block {
    EmptyBlock().(timestamp := timestamp, prevId := previous, hash := EasyHash())
  }

  function TipHash(size: nat): Hash {
    if size <= 1 then GenesisBlock().hash else EasyHash()
  }

  /** Submissions that build a chain with these timestamps, each two hours before its own time. */
  function Mining(timestamps: seq<u64>): (events: seq<Event>)
    ensures forall i :: 0 <= i < |events| ==> events[i].Submit?
  {
    if |timestamps| <= 1 then []
    else
      var m := |timestamps| - 1;
      Mining(timestamps[..m]) + [Submit(MinedBlock(TipHash(m), timestamps[m]), Minus(timestamps[m], 7200))]
  }

  lemma DifficultyPositive(n: Node)
    requires InStep(n)
    ensures CurrentDifficulty(n) >= 1
  {
    hide RawDifficulty, PreviousDifficulty;
  }

  lemma MinedIsAccepted(n: Node, timestamp: u64)
    requires InStep(n) && n.blocks != [] && Last(n.blocks).timestamp < timestamp
    ensures var b := MinedBlock(Last(n.blocks).hash, timestamp);
            Judge(n, b, Minus(timestamp, 7200)).Accepted?
  {
    hide NextDifficulty, EasyHash, Judge;
    DifficultyPositive(n);
    AcceptedExactly(n, MinedBlock(Last(n.blocks).hash, timestamp), Minus(timestamp, 7200));
    U64AddLeft(timestamp - 7200, 7200);
    U64Small(timestamp);
  }

  /** The node has these timestamps, and a tip as `Mining` leaves it. */
  predicate HasMined(n: Node, timestamps: seq<u64>) {
    n.timestamps == timestamps && n.blocks != [] && Last(n.blocks).hash == TipHash(|timestamps|)
  }

  /** Every strictly rising list of timestamps that begins with the genesis one is the chain of some
      run: what is proved of chains from genesis is not about nothing. */
  lemma {:induction false} EveryChainIsReal(disk: Disk, timestamps: seq<u64>)
    requires CleanDisk(disk) && timestamps != [] && timestamps[0] == GENESIS_TIMESTAMP && TimestampsRise(timestamps)
    ensures HasMined(After(Boot(disk), Mining(timestamps)), timestamps)
  {
    hide Boot, After, TipHash, Mining, TimestampsRise;
    if |timestamps| == 1 {
      FirstStart(disk);
      GenesisTimestamps(disk);
      NothingMined(disk, timestamps);
    } else {
      hide HasMined;
      var m := |timestamps| - 1;
      PrefixRises(timestamps, m);
      EveryChainIsReal(disk, timestamps[..m]);
      assert timestamps == timestamps[..m] + [timestamps[m]];
      MinedOnTop(disk, timestamps[..m], timestamps[m]);
    }
  }

  lemma MinedOnTop(disk: Disk, init: seq<u64>, t: u64)
    requires CleanDisk(disk) && init != [] && Last(init) < t && HasMined(After(Boot(disk), Mining(init)), init)
    ensures HasMined(After(Boot(disk), Mining(init + [t])), init + [t])
  {
    hide Boot, After, Step, Judge, LogMatches, ChainInv, EasyHash, MinedBlock, TipHash, Mining, CleanDisk, Minus, HasMined;
    ReachableInv(disk, Mining(init));
    OneMoreMined(disk, init, t);
    MinedStep(After(Boot(disk), Mining(init)), init, t);
  }

  lemma NothingMined(disk: Disk, timestamps: seq<u64>)
    requires CleanDisk(disk) && |timestamps| == 1
    ensures After(Boot(disk), Mining(timestamps)) == Boot(disk) && TipHash(1) == GenesisBlock().hash
  {
    hide Boot;
  }

  lemma PrefixRises(timestamps: seq<u64>, m: nat)
    requires TimestampsRise(timestamps) && 1 <= m < |timestamps|
    ensures TimestampsRise(timestamps[..m]) && Last(timestamps[..m]) < timestamps[m]
  {
  }

  lemma OneMoreMined(disk: Disk, init: seq<u64>, t: u64)
    requires init != []
    ensures After(Boot(disk), Mining(init + [t]))
         == Step(After(Boot(disk), Mining(init)), MinedBlock(TipHash(|init|), t), Minus(t, 7200))
  {
    hide Boot, After, Step, MinedBlock, TipHash, Verdicts, Minus, Mining;
    MiningExtends(init, t);
    RunSplits(Boot(disk), Mining(init), Submit(MinedBlock(TipHash(|init|), t), Minus(t, 7200)));
  }

  lemma MiningExtends(init: seq<u64>, t: u64)
    requires init != []
    ensures Mining(init + [t]) == Mining(init) + [Submit(MinedBlock(TipHash(|init|), t), Minus(t, 7200))]
  {
    hide MinedBlock, TipHash, Minus;
    var timestamps := init + [t];
    assert timestamps[..|timestamps| - 1] == init && timestamps[|timestamps| - 1] == t;
  }

  lemma GenesisTimestamps(disk: Disk)
    requires CleanDisk(disk)
    ensures Boot(disk).timestamps == [GENESIS_TIMESTAMP]
  {
    BootCreates(disk);
  }

  lemma MinedStep(n: Node, timestamps: seq<u64>, t: u64)
    requires ChainInv(n) && timestamps != [] && Last(timestamps) < t && HasMined(n, timestamps)
    ensures HasMined(Step(n, MinedBlock(TipHash(|timestamps|), t), Minus(t, 7200)), timestamps + [t])
  {
    hide ChainInv, Judge, Step, EasyHash, MinedBlock, TipHash, Minus;
    TipOfChain(n);
    MinedParts(TipHash(|timestamps|), t, |timestamps| + 1);
    MinedIsAccepted(n, t);
    StepAppends(n, MinedBlock(TipHash(|timestamps|), t), Minus(t, 7200));
  }

  lemma TipOfChain(n: Node)
    requires ChainInv(n)
    ensures InStep(n) && n.blocks != [] && Last(n.blocks).timestamp == Last(n.timestamps)
  {
    hide CumulativeOf, DifficultyAt, MeetsTarget, PowHash;
  }

  lemma MinedParts(previous: Hash, t: u64, size: nat)
    requires size >= 2
    ensures MinedBlock(previous, t).timestamp == t && MinedBlock(previous, t).hash == TipHash(size)
  {
    hide EasyHash;
  }

  lemma StepAppends(n: Node, b: Block, now: u64)
    requires InStep(n) && Judge(n, b, now).Accepted?
    ensures Step(n, b, now).blocks == n.blocks + [b] && Step(n, b, now).timestamps == n.timestamps + [b.timestamp]
  {
    hide Judge;
    AcceptedMeans(n, b, now);
  }

  /** So there is a run that takes a cast of the retarget out of range: blocks at any constant pace of
      203 seconds or more. */
  lemma SlowRunOverflows(disk: Disk, spacing: nat)
    requires CleanDisk(disk) && 203 <= spacing < 0x20_0000_0000_0000
    ensures var timestamps := seq<u64>(388, i requires 0 <= i < 388 => U64(GENESIS_TIMESTAMP + i * spacing));
            && After(Boot(disk), Mining(timestamps)).timestamps == timestamps
            && exists i :: 2 <= i <= 388 && !CastsFitAt(timestamps, i)
  {
    hide CastsFitAt, Boot, After, Mining;
    var timestamps := seq<u64>(388, i requires 0 <= i < 388 => U64(GENESIS_TIMESTAMP + i * spacing));
    forall i | 0 <= i < 388 ensures timestamps[i] == GENESIS_TIMESTAMP + i * spacing < TWO63 {
      MulAtMost(spacing, i, 388);
      MulCommutes(spacing, i);
      NotNegative(spacing, i);
      U64Small(GENESIS_TIMESTAMP + i * spacing);
    }
    assert timestamps[0] == GENESIS_TIMESTAMP;
    RisesByPace(timestamps, spacing);
    EveryChainIsReal(disk, timestamps);
    GenesisOverflows(timestamps);
  }

  lemma RisesByPace(timestamps: seq<u64>, spacing: nat)
    requires 203 <= spacing < TWO63
    requires forall i :: 0 <= i < |timestamps| ==> timestamps[i] == GENESIS_TIMESTAMP + i * spacing < TWO63
    ensures TimestampsRise(timestamps) && EveryAtLeast(timestamps, 203)
  {
    forall i, j | 0 <= i < j < |timestamps| ensures timestamps[i] < timestamps[j] {
      MulAtMost(spacing, i + 1, j);
      MulCommutes(spacing, i);
      MulCommutes(spacing, j);
      MulDistributes(spacing, i, 1);
    }
    forall i | 1 <= i < |timestamps| ensures 203 <= Minus(timestamps[i], timestamps[i - 1]) < TWO63 {
      SuccessorTimes(i - 1, spacing);
      U64Small(spacing);
    }
  }

  // ----- seeds -----

  /** The epochs after `from` up to `to`, in order. */
  function EpochRange(from: nat, to: nat): seq<nat> {
    if to <= from then [] else EpochRange(from, to - 1) + [to]
  }

  lemma {:induction false} InEpochRange(from: nat, to: nat, e: nat)
    ensures e in EpochRange(from, to) <==> from < e <= to
  {
    if from < to {
      InEpochRange(from, to - 1, e);
    }
  }

  lemma SeedRequestAt(height: nat)
    ensures SeedRequest(height) == EpochRange((height + 63) / 1440, (height + 64) / 1440)
  {
    if (height + 64) % 1440 == 0 {
      var q := (height + 64) / 1440;
      assert EpochRange(q - 1, q - 1) == [];
    }
  }

  lemma EmptyRange(from: nat)
    ensures EpochRange(from, from) == []
  {
  }

  lemma {:induction false} EpochRangeJoins(from: nat, middle: nat, to: nat)
    requires from <= middle <= to
    ensures EpochRange(from, to) == EpochRange(from, middle) + EpochRange(middle, to)
  {
    if middle < to {
      EpochRangeJoins(from, middle, to - 1);
    }
  }

  lemma StepRequests(n: Node, b: Block, now: u64)
    requires InStep(n)
    ensures |n.blocks| <= |Step(n, b, now).blocks|
    ensures Step(n, b, now).requested
         == n.requested + EpochRange((|n.blocks| + 63) / 1440, (|Step(n, b, now).blocks| + 63) / 1440)
  {
    if Judge(n, b, now).Accepted? {
      AcceptedMeans(n, b, now);
      SeedRequestAt(|n.blocks|);
    }
  }

  lemma TraceStep(n: Node, middle: Node, b: Block, now: u64)
    requires InStep(middle) && |n.blocks| <= |middle.blocks|
    requires middle.requested == n.requested + EpochRange((|n.blocks| + 63) / 1440, (|middle.blocks| + 63) / 1440)
    ensures |n.blocks| <= |Step(middle, b, now).blocks|
    ensures Step(middle, b, now).requested
         == n.requested + EpochRange((|n.blocks| + 63) / 1440, (|Step(middle, b, now).blocks| + 63) / 1440)
  {
    hide Judge;
    StepRequests(middle, b, now);
    EpochRangeJoins((|n.blocks| + 63) / 1440, (|middle.blocks| + 63) / 1440, (|Step(middle, b, now).blocks| + 63) / 1440);
  }

  /** The seed trace: a process that takes the chain from one size to another asks for exactly the
      epochs whose lag point lies between, in order and once each. */
  lemma {:induction false} SeedTrace(n: Node, events: seq<Event>)
    requires InStep(n) && NoRestarts(events)
    ensures |n.blocks| <= |After(n, events).blocks|
    ensures After(n, events).requested
         == n.requested + EpochRange((|n.blocks| + 63) / 1440, (|After(n, events).blocks| + 63) / 1440)
  {
    hide Judge, Step, EpochRange;
    if events == [] {
      EmptyRange((|n.blocks| + 63) / 1440);
    } else {
      var init, e := events[..|events| - 1], Last(events);
      assert e.Submit?;
      SeedTrace(n, init);
      TraceStep(n, After(n, init), e.block, e.now);
    }
  }

  /** A fresh process has asked for the epoch it is in exactly when that epoch's lag point came
      after its start. */
  lemma SeedTraceOfProcess(n: Node, events: seq<Event>)
    requires InStep(n) && n.requested == [] && NoRestarts(events)
    ensures After(n, events).requested == EpochRange((|n.blocks| + 63) / 1440, (|After(n, events).blocks| + 63) / 1440)
    ensures var epoch := SeedEpoch(|After(n, events).blocks|);
            epoch in After(n, events).requested <==> epoch > (|n.blocks| + 63) / 1440
  {
    hide After, EpochRange;
    SeedTrace(n, events);
    var size := |After(n, events).blocks|;
    InEpochRange((|n.blocks| + 63) / 1440, (size + 63) / 1440, size / 1440);
  }

  /** From genesis the epochs asked for are 1, 2, ..., floor((size + 63) / 1440), and the current epoch,
      unless it is the zeroth, is always among them. */
  lemma SeedTraceFromGenesis(disk: Disk, events: seq<Event>)
    requires CleanDisk(disk) && NoRestarts(events)
    ensures var n := After(Boot(disk), events);
            && n.requested == EpochRange(0, (|n.blocks| + 63) / 1440)
            && (SeedEpoch(|n.blocks|) == 0 || SeedEpoch(|n.blocks|) in n.requested)
  {
    hide Boot, After, Judge;
    FirstStart(disk);
    SeedTraceOfProcess(Boot(disk), events);
    assert (1 + 63) / 1440 == 0;
  }

  /** A restart forgets what was asked for, also for the epoch the chain is about to enter. */
  lemma SeedTraceAfterRestart(n: Node, events: seq<Event>)
    requires ChainInv(n) && LogHolds(n) && NoRestarts(events)
    ensures var r := After(Boot(n.disk), events);
            && r.requested == EpochRange((|n.blocks| + 63) / 1440, (|r.blocks| + 63) / 1440)
            && (SeedEpoch(|r.blocks|) in r.requested <==> SeedEpoch(|r.blocks|) > (|n.blocks| + 63) / 1440)
  {
    hide Boot, After, Judge;
    BootVectors(n);
    SeedTraceOfProcess(Boot(n.disk), events);
  }

  // ----- mempool and chain -----

  /** For an entry of any reachable pool the chain's check fails only on a spent key image. */
  lemma PoolAndChainAgree(states: seq<seq<PoolEntry>>, ops: seq<PoolOp>, k: nat, e: PoolEntry, spent: set<string>)
    requires PoolRun(states, ops) && k < |states| && e in states[k]
    ensures Verifies(spent, e.tx) <==> forall i :: 0 <= i < |e.tx.vin| ==> HashHex(e.tx.vin[i].keyImage) !in spent
  {
    PoolRunInvariant(states, ops, k);
    var i :| 0 <= i < |states[k]| && states[k][i] == e;
    assert EntryOk(states[k][i]);
  }

  /** The key-image list after saving these images in order. */
  function KeyFile(images: seq<Hash>): string {
    if images == [] then "" else HashHex(images[0]) + "\n" + KeyFile(images[1..])
  }

  lemma {:induction false} KeyFileAppends(images: seq<Hash>, image: Hash)
    ensures KeyFile(images + [image]) == KeyFile(images) + HashHex(image) + "\n"
  {
    hide HashHex, KeyFile;
    if images == [] {
      KeyFileOfOne(image);
      assert images + [image] == [image];
    } else {
      var rest := images[1..];
      KeyFileAppends(rest, image);
      KeyFileStarts(images);
      KeyFileStarts(images + [image]);
      assert (images + [image])[1..] == rest + [image];
    }
  }

  lemma KeyFileStarts(images: seq<Hash>)
    requires images != []
    ensures KeyFile(images) == HashHex(images[0]) + "\n" + KeyFile(images[1..])
  {
    hide HashHex;
  }

  lemma KeyFileOfOne(image: Hash)
    ensures KeyFile([image]) == HashHex(image) + "\n" && KeyFile([]) == ""
  {
    hide HashHex;
    assert [image][1..] == [];
  }

  lemma {:induction false} KeyFileLines(images: seq<Hash>)
    ensures NonEmptyLines(KeyFile(images)) == set v | v in images :: HashHex(v)
  {
    if images == [] {
      assert NonEmptyLines("") == {};
    } else {
      var rest := images[1..];
      HexIsCanonical(images[0]);
      assert '\n' !in HashHex(images[0]);
      LinesCons(HashHex(images[0]), KeyFile(rest));
      KeyFileLines(rest);
      assert forall v :: v in images <==> v == images[0] || v in rest;
    }
  }

  /** Saved key images are spent for every later process: against the list that saving `images` leaves,
      a well-formed transaction fails exactly when one of its key images was saved. */
  lemma SavedImagesAreSpent(images: seq<Hash>, tx: Transaction)
    ensures Verifies(NonEmptyLines(KeyFile(images)), tx)
            <==> WellFormed(tx) && forall i :: 0 <= i < |tx.vin| ==> tx.vin[i].keyImage !in images
  {
    KeyFileLines(images);
    var values := set v | v in images;
    assert NonEmptyLines(KeyFile(images)) == set v | v in values :: HashHex(v);
    SpentByValue(values, NonEmptyLines(KeyFile(images)), tx);
  }

  /** Accepting a block keeps the pool invariant, drops exactly the entries the block names and keeps
      every other entry. */
  lemma BlockKeepsPool(n: Node, b: Block, now: u64)
    requires InStep(n) && PoolInv(n.pool) && Judge(n, b, now).Accepted?
    ensures PoolInv(Step(n, b, now).pool)
    ensures forall e :: e in Step(n, b, now).pool <==> e in n.pool && e.tx.hash !in b.txHashes
  {
    AcceptedMeans(n, b, now);
    RemoveKeepsInv(n.pool, b.txHashes);
    forall e ensures e in Without(n.pool, b.txHashes) <==> e in n.pool && e.tx.hash !in b.txHashes {
      RemovalExactly(n.pool, b.txHashes, e);
      assert e in Without(n.pool, b.txHashes) <==> e in multiset(Without(n.pool, b.txHashes));
      assert e in n.pool <==> e in multiset(n.pool);
    }
  }

  /** Checking texts is checking values, when the texts are those of a set of values. */
  lemma SpentByValue(values: set<Hash>, spent: set<string>, tx: Transaction)
    requires spent == set v | v in values :: HashHex(v)
    ensures Verifies(spent, tx) <==> WellFormed(tx) && forall i :: 0 <= i < |tx.vin| ==> tx.vin[i].keyImage !in values
  {
    forall i | 0 <= i < |tx.vin| ensures HashHex(tx.vin[i].keyImage) in spent <==> tx.vin[i].keyImage in values {
      LookupByText(values, spent, tx.vin[i].keyImage);
    }
  }

  /** The first start over a directory without a block log ignores the key-image list, a restart reads
      it: the two agree on every transaction exactly when the list has no line a key image can match. */
  lemma FirstStartForgetsImages(disk: Disk)
    requires CleanDisk(disk) && disk.blocksFile.Absent?
    ensures Boot(disk).spent == {}
    ensures Boot(Boot(disk).disk).spent == NonEmptyLines(Bytes(disk.keysFile))
    ensures (forall tx :: Verifies(Boot(disk).spent, tx) <==> Verifies(Boot(Boot(disk).disk).spent, tx)) <==>
            (forall line :: line in NonEmptyLines(Bytes(disk.keysFile)) ==> !Canonical(line))
  {
    BootCreates(disk);
    FirstStart(disk);
    BootVectors(Boot(disk));
    hide Boot;
    AgreeExactly(NonEmptyLines(Bytes(disk.keysFile)));
  }

  /** A set of texts is as good as none exactly when none of them is the text of a value. */
  lemma AgreeExactly(lines: set<string>)
    ensures (forall tx :: Verifies({}, tx) <==> Verifies(lines, tx)) <==> (forall line :: line in lines ==> !Canonical(line))
  {
    if line :| line in lines && Canonical(line) {
      TextRoundTripExactly(line);
      var tx := SpendingOf(ParsedHash(line));
      assert Verifies({}, tx) && HashHex(tx.vin[0].keyImage) in lines;
    } else {
      forall tx ensures Verifies({}, tx) <==> Verifies(lines, tx) {
        forall i | 0 <= i < |tx.vin| ensures HashHex(tx.vin[i].keyImage) !in lines {
          HexIsCanonical(tx.vin[i].keyImage);
        }
      }
    }
  }

  /** A well-formed transaction with one given key image. */
  function SpendingOf(image: Hash): (tx: Transaction)
    ensures WellFormed(tx) && |tx.vin| == 1 && tx.vin[0].keyImage == image
  {
    EmptyTransaction().(vin := [TxInput(0, DecoyRing(16), image)],
                        vout := [TxOutput(0, ZeroHash())],
                        rct := RctSignatures(6, 0, [], [0], [0]))
  }

  // ----- the wallet on the node's own log -----

  /** A rescan of a reachable node's log sees one record a block, so its balances are those of the
      chain's length. */
  lemma RescanSeesChain(disk: Disk, events: seq<Event>)
    requires CleanDisk(disk)
    ensures var n := After(Boot(disk), events);
            |DecodeLog(Bytes(n.disk.blocksFile))| == |n.blocks| >= 1
  {
    ReachableInv(disk, events);
    var n := After(Boot(disk), events);
    LogRoundTrip(Records(n.blocks, n.timestamps));
  }

  /** Until the emission leaves 64 bits, the rescanned total is the exact emission of the chain's
      non-genesis blocks and never shrinks as the chain is extended. */
  lemma RescanFollowsEmission(disk: Disk, events: seq<Event>, later: seq<Event>)
    requires CleanDisk(disk)
    requires |After(After(Boot(disk), events), later).blocks| <= 4_456_448 + 77_906
    ensures var n := After(Boot(disk), events);
            var r := After(n, later);
            var size, size' := |DecodeLog(Bytes(n.disk.blocksFile))|, |DecodeLog(Bytes(r.disk.blocksFile))|;
            && size == |n.blocks| >= 1 && size' == |r.blocks| >= 1
            && RescanTotal(size) <= RescanTotal(size') == Generated(|r.blocks| - 1)
            && RescanUnlocked(size) <= RescanUnlocked(size') <= RescanTotal(size')
  {
    hide Boot, Judge;
    var n := After(Boot(disk), events);
    ReachableInv(disk, events);
    RunKeepsInv(n, later);
    SizeGrows(n, later);
    var r := After(n, later);
    LogRoundTrip(Records(n.blocks, n.timestamps));
    LogRoundTrip(Records(r.blocks, r.timestamps));
    ShortChainsNeverLower(|n.blocks|, |r.blocks|);
  }
}
