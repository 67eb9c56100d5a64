/** What every run of the node keeps, and why a restart cannot be noticed. */
module ChainLaws {
  import opened Words
  import opened CryptonoteTypes
  import opened Difficulty
  import opened ProofOfWork
  import opened Storage
  import opened Chain

  // ----- the difficulty history as a function of the timestamps -----

  /** The cumulative difficulty that follows a non-empty history. */
  function NextCumulative(timestamps: seq<u64>, cumulative: seq<u64>): u64
    requires |timestamps| == |cumulative| >= 1
  {
    U64(Last(cumulative) as int + NextDifficulty(timestamps, cumulative, TARGET_SECONDS))
  }

  /** The cumulative difficulties that a list of timestamps determines. */
  function CumulativeOf(timestamps: seq<u64>): (cumulative: seq<u64>)
    ensures |cumulative| == |timestamps|
  {
    if timestamps == [] then []
    else if |timestamps| == 1 then [1]
    else
      var before := timestamps[..|timestamps| - 1];
      CumulativeOf(before) + [NextCumulative(before, CumulativeOf(before))]
  }

  /** The difficulty that block i of a chain with these timestamps had to meet. */
  function DifficultyAt(timestamps: seq<u64>, i: nat): u64
    requires i < |timestamps|
  {
    if i == 0 then 1 else NextDifficulty(timestamps[..i], CumulativeOf(timestamps[..i]), TARGET_SECONDS)
  }

  lemma CumulativeExtends(timestamps: seq<u64>, t: u64)
    requires timestamps != []
    ensures CumulativeOf(timestamps + [t])
         == CumulativeOf(timestamps) + [NextCumulative(timestamps, CumulativeOf(timestamps))]
  {
    assert (timestamps + [t])[..|timestamps|] == timestamps;
  }

  lemma DifficultyOfNext(timestamps: seq<u64>, t: u64)
    requires timestamps != []
    ensures DifficultyAt(timestamps + [t], |timestamps|)
         == NextDifficulty(timestamps, CumulativeOf(timestamps), TARGET_SECONDS)
  {
    assert (timestamps + [t])[..|timestamps|] == timestamps;
  }

  lemma {:induction false} CumulativePrefix(timestamps: seq<u64>, i: nat)
    requires i <= |timestamps|
    ensures CumulativeOf(timestamps)[..i] == CumulativeOf(timestamps[..i])
  {
    if i == |timestamps| {
      assert timestamps[..i] == timestamps;
    } else if |timestamps| == 1 {
      assert timestamps[..i] == [];
    } else {
      var before := timestamps[..|timestamps| - 1];
      CumulativePrefix(before, i);
      assert before[..i] == timestamps[..i];
      assert CumulativeOf(timestamps)[..i] == CumulativeOf(before)[..i];
    }
  }

  lemma DifficultyOfPrefix(timestamps: seq<u64>, t: u64, i: nat)
    requires i < |timestamps|
    ensures DifficultyAt(timestamps + [t], i) == DifficultyAt(timestamps, i)
  {
    assert (timestamps + [t])[..i] == timestamps[..i];
  }

  // ----- the chain invariant -----

  predicate TimestampsRise(timestamps: seq<u64>) {
    forall i, j :: 0 <= i < j < |timestamps| ==> timestamps[i] < timestamps[j]
  }

  /** The three vectors are in step, time moves strictly forward, the cumulative difficulties are
      the ones the timestamps determine, and every block after the first met its target. */
  ghost predicate ChainInv(n: Node) {
    && InStep(n) && n.blocks != []
    && (forall i :: 0 <= i < |n.blocks| ==> n.blocks[i].timestamp == n.timestamps[i])
    && TimestampsRise(n.timestamps)
    && n.cumulative == CumulativeOf(n.timestamps)
    && (forall i :: 1 <= i < |n.blocks| ==> MeetsTarget(PowHash(n.blocks[i].hash), DifficultyAt(n.timestamps, i)))
  }

  /** Every block names its predecessor. */
  predicate Linked(blocks: seq<Block>) {
    forall i :: 1 <= i < |blocks| ==> blocks[i].prevId == blocks[i - 1].hash
  }

  lemma AppendRises(timestamps: seq<u64>, t: u64)
    requires timestamps != [] && TimestampsRise(timestamps) && Last(timestamps) < t
    ensures TimestampsRise(timestamps + [t])
  {
    var m := |timestamps|;
    forall i, j | 0 <= i < j <= m ensures (timestamps + [t])[i] < (timestamps + [t])[j] {
      if j == m && i < m - 1 {
        assert timestamps[i] < timestamps[m - 1];
      }
    }
  }

  lemma AppendMeetsTargets(blocks: seq<Block>, timestamps: seq<u64>, b: Block)
    requires |blocks| == |timestamps| >= 1
    requires forall i :: 1 <= i < |blocks| ==> MeetsTarget(PowHash(blocks[i].hash), DifficultyAt(timestamps, i))
    requires MeetsTarget(PowHash(b.hash), NextDifficulty(timestamps, CumulativeOf(timestamps), TARGET_SECONDS))
    ensures forall i :: 1 <= i < |blocks| + 1 ==>
              MeetsTarget(PowHash((blocks + [b])[i].hash), DifficultyAt(timestamps + [b.timestamp], i))
  {
    forall i | 1 <= i < |blocks| + 1
      ensures MeetsTarget(PowHash((blocks + [b])[i].hash), DifficultyAt(timestamps + [b.timestamp], i))
    {
      if i < |blocks| {
        DifficultyOfPrefix(timestamps, b.timestamp, i);
      } else {
        DifficultyOfNext(timestamps, b.timestamp);
      }
    }
  }

  /** What acceptance means, and what it does. */
  lemma AcceptedMeans(n: Node, b: Block, now: u64)
    requires InStep(n) && Judge(n, b, now).Accepted?
    ensures n.blocks != [] && b.prevId == Last(n.blocks).hash && Last(n.blocks).timestamp < b.timestamp
    ensures MeetsTarget(PowHash(b.hash), CurrentDifficulty(n))
    ensures Step(n, b, now) == Append(n, b, CurrentDifficulty(n))
  {
  }

  lemma AppendKeepsInv(n: Node, b: Block)
    requires ChainInv(n) && Last(n.timestamps) < b.timestamp
    requires MeetsTarget(PowHash(b.hash), CurrentDifficulty(n))
    ensures ChainInv(Append(n, b, CurrentDifficulty(n)))
  {
    hide NextDifficulty, PowHash, MeetsTarget;
    CumulativeExtends(n.timestamps, b.timestamp);
    AppendRises(n.timestamps, b.timestamp);
    AppendMeetsTargets(n.blocks, n.timestamps, b);
  }

  lemma StepKeepsInv(n: Node, b: Block, now: u64)
    requires ChainInv(n)
    ensures ChainInv(Step(n, b, now))
  {
    if Judge(n, b, now).Accepted? {
      AcceptedMeans(n, b, now);
      AppendKeepsInv(n, b);
    }
  }

  /** A rejected block changes nothing at all; an accepted one only ever extends the chain. */
  lemma StepExtendsOrKeeps(n: Node, b: Block, now: u64)
    requires InStep(n)
    ensures !Judge(n, b, now).Accepted? ==> Step(n, b, now) == n
    ensures Judge(n, b, now).Accepted? ==>
            var r := Step(n, b, now);
            && r.blocks == n.blocks + [b]
            && n.timestamps < r.timestamps && n.cumulative < r.cumulative
            && Bytes(n.disk.blocksFile) <= Bytes(r.disk.blocksFile)
  {
  }

  // ----- the log -----

  /** The records the log of a chain holds. */
  function Records(blocks: seq<Block>, timestamps: seq<u64>): (records: seq<Record>)
    requires |blocks| == |timestamps|
    ensures |records| == |blocks|
  {
    if blocks == [] then []
    else
      var m := |blocks| - 1;
      Records(blocks[..m], timestamps[..m]) + [RecordOf(blocks[m], m, DifficultyAt(timestamps, m))]
  }

  /** The disk holds the chain. */
  ghost predicate LogHolds(n: Node)
    requires InStep(n)
  {
    n.disk.blocksFile == Present(EncodeLog(Records(n.blocks, n.timestamps)))
  }

  /** Saves reach the disk, and the disk holds the chain. */
  ghost predicate LogMatches(n: Node)
    requires InStep(n)
  {
    n.disk.durable && LogHolds(n)
  }

  lemma RecordsExtend(blocks: seq<Block>, timestamps: seq<u64>, b: Block)
    requires |blocks| == |timestamps| >= 1
    ensures Records(blocks + [b], timestamps + [b.timestamp])
         == Records(blocks, timestamps)
            + [RecordOf(b, |blocks|, NextDifficulty(timestamps, CumulativeOf(timestamps), TARGET_SECONDS))]
  {
    hide DifficultyAt, NextDifficulty, CumulativeOf, RecordOf;
    var m := |blocks|;
    assert (blocks + [b])[..m] == blocks && (timestamps + [b.timestamp])[..m] == timestamps;
    DifficultyOfNext(timestamps, b.timestamp);
  }

  lemma StepKeepsLog(n: Node, b: Block, now: u64)
    requires ChainInv(n) && LogMatches(n)
    ensures LogMatches(Step(n, b, now))
  {
    if Judge(n, b, now).Accepted? {
      AcceptedMeans(n, b, now);
      RecordsExtend(n.blocks, n.timestamps, b);
      EncodeLogAppend(Records(n.blocks, n.timestamps), RecordOf(b, |n.blocks|, CurrentDifficulty(n)));
    }
  }

  lemma {:induction false} RecordsAt(blocks: seq<Block>, timestamps: seq<u64>, i: nat)
    requires |blocks| == |timestamps| && i < |blocks|
    ensures Records(blocks, timestamps)[i] == RecordOf(blocks[i], i, DifficultyAt(timestamps, i))
  {
    hide DifficultyAt, RecordOf;
    var m := |blocks| - 1;
    if i < m {
      RecordsAt(blocks[..m], timestamps[..m], i);
      DifficultyAtPrefix(timestamps, m, i);
    }
  }

  /** The running sum a loader computes is the cumulative difficulty the node had. */
  lemma {:induction false} TotalOfRecords(blocks: seq<Block>, timestamps: seq<u64>)
    requires |blocks| == |timestamps| >= 1
    ensures TotalDifficulty(Records(blocks, timestamps)) == Last(CumulativeOf(timestamps))
  {
    hide NextDifficulty, U64;
    var m := |blocks| - 1;
    var records := Records(blocks, timestamps);
    assert records[..m] == Records(blocks[..m], timestamps[..m]);
    if m > 0 {
      TotalOfRecords(blocks[..m], timestamps[..m]);
      assert Last(CumulativeOf(timestamps)) == NextCumulative(timestamps[..m], CumulativeOf(timestamps[..m]));
    } else {
      assert TotalDifficulty(records[..m]) == 0;
      U64Small(1);
    }
  }

  lemma DifficultyAtPrefix(timestamps: seq<u64>, i: nat, k: nat)
    requires k < i <= |timestamps|
    ensures DifficultyAt(timestamps[..i], k) == DifficultyAt(timestamps, k)
  {
    assert timestamps[..i][..k] == timestamps[..k];
  }

  lemma RecordsPrefix(blocks: seq<Block>, timestamps: seq<u64>, i: nat)
    requires |blocks| == |timestamps| && i <= |blocks|
    ensures Records(blocks, timestamps)[..i] == Records(blocks[..i], timestamps[..i])
  {
    forall k | 0 <= k < i ensures Records(blocks, timestamps)[k] == Records(blocks[..i], timestamps[..i])[k] {
      RecordsAt(blocks, timestamps, k);
      RecordsAt(blocks[..i], timestamps[..i], k);
      DifficultyAtPrefix(timestamps, i, k);
    }
  }

  lemma CumulativeOfRecords(blocks: seq<Block>, timestamps: seq<u64>)
    requires |blocks| == |timestamps|
    ensures LoadedCumulative(Records(blocks, timestamps)) == CumulativeOf(timestamps)
  {
    hide CumulativeOf, TotalDifficulty, Records;
    forall i | 0 <= i < |blocks|
      ensures LoadedCumulative(Records(blocks, timestamps))[i] == CumulativeOf(timestamps)[i]
    {
      RecordsPrefix(blocks, timestamps, i + 1);
      TotalOfRecords(blocks[..i + 1], timestamps[..i + 1]);
      CumulativePrefix(timestamps, i + 1);
      assert CumulativeOf(timestamps)[..i + 1][i] == CumulativeOf(timestamps)[i];
    }
  }

  // ----- starting -----

  /** A directory that was never used, or holds an empty block log, and can be written. */
  predicate CleanDisk(disk: Disk) {
    disk.durable && Bytes(disk.blocksFile) == []
  }

  /** The blocks agree on the fields that the log keeps. */
  predicate SameKeptFields(a: seq<Block>, b: seq<Block>) {
    |a| == |b| &&
    forall i :: 0 <= i < |a| ==> LoadedBlock(RecordOf(a[i], 0, 0)) == LoadedBlock(RecordOf(b[i], 0, 0))
  }

  /** A node that cannot be told apart from `a` by any later block: only the fields that the log
      does not keep may differ. */
  ghost predicate Alike(a: Node, b: Node) {
    && InStep(a) && InStep(b)
    && a.timestamps == b.timestamps && a.cumulative == b.cumulative && a.disk == b.disk
    && SameKeptFields(a.blocks, b.blocks)
  }

  /** What the very first start makes of a clean directory: key images are read only when a block
      log exists. */
  lemma BootCreates(disk: Disk)
    requires Bytes(disk.blocksFile) == []
    ensures Boot(disk) == Node([GenesisBlock()], [GENESIS_TIMESTAMP], [1],
                               if disk.blocksFile.Present? then NonEmptyLines(Bytes(disk.keysFile)) else {}, [],
                               Saved(disk, RecordOf(GenesisBlock(), 0, 1)), [])
  {
    assert DecodeLog(Bytes(disk.blocksFile)) == [];
    assert Boot(disk).blocks == [GenesisBlock()];
    assert Boot(disk).timestamps == [GENESIS_TIMESTAMP];
    assert Boot(disk).cumulative == [1];
  }

  lemma GenesisRecords(timestamps: seq<u64>)
    requires |timestamps| == 1
    ensures EncodeLog(Records([GenesisBlock()], timestamps)) == EncodeRecord(RecordOf(GenesisBlock(), 0, 1))
  {
    var r := RecordOf(GenesisBlock(), 0, 1);
    assert Records([GenesisBlock()], timestamps) == [r];
    EncodeLogAppend([], r);
    assert [] + [r] == [r];
  }

  lemma FirstStart(disk: Disk)
    requires CleanDisk(disk)
    ensures ChainInv(Boot(disk)) && LogMatches(Boot(disk))
    ensures Boot(disk).blocks == [GenesisBlock()] && Boot(disk).requested == []
  {
    BootCreates(disk);
    GenesisRecords([GENESIS_TIMESTAMP]);
    assert [] + EncodeRecord(RecordOf(GenesisBlock(), 0, 1)) == EncodeRecord(RecordOf(GenesisBlock(), 0, 1));
  }

  lemma LoadedVectors(blocks: seq<Block>, timestamps: seq<u64>)
    requires |blocks| == |timestamps|
    requires forall i :: 0 <= i < |blocks| ==> blocks[i].timestamp == timestamps[i]
    ensures LoadedTimestamps(Records(blocks, timestamps)) == timestamps
    ensures SameKeptFields(blocks, LoadedBlocks(Records(blocks, timestamps)))
  {
    hide Records, DifficultyAt, EmptyBlock;
    forall i | 0 <= i < |blocks|
      ensures LoadedTimestamps(Records(blocks, timestamps))[i] == timestamps[i]
      ensures LoadedBlocks(Records(blocks, timestamps))[i]
           == LoadedBlock(RecordOf(blocks[i], i, DifficultyAt(timestamps, i)))
    {
      RecordsAt(blocks, timestamps, i);
    }
  }

  /** What a fresh process makes of a log with at least one whole record. */
  lemma BootLoads(disk: Disk, records: seq<Record>)
    requires disk.blocksFile.Present? && DecodeLog(disk.blocksFile.content) == records != []
    ensures Boot(disk) == Node(LoadedBlocks(records), LoadedTimestamps(records), LoadedCumulative(records),
                               NonEmptyLines(Bytes(disk.keysFile)), [], disk, [])
  {
  }

  /** What it makes of a log that holds a chain. */
  lemma BootVectors(n: Node)
    requires ChainInv(n) && LogHolds(n)
    ensures Boot(n.disk) == Node(LoadedBlocks(Records(n.blocks, n.timestamps)), n.timestamps, n.cumulative,
                                 NonEmptyLines(Bytes(n.disk.keysFile)), [], n.disk, [])
  {
    var records := Records(n.blocks, n.timestamps);
    LogRoundTrip(records);
    BootLoads(n.disk, records);
    LoadedVectors(n.blocks, n.timestamps);
    CumulativeOfRecords(n.blocks, n.timestamps);
  }

  /** The invariant and the log do not depend on the fields that the log does not keep. */
  lemma InvOfKeptFields(n: Node, blocks: seq<Block>, r: Node)
    requires ChainInv(n) && LogMatches(n) && SameKeptFields(n.blocks, blocks)
    requires r.blocks == blocks && r.timestamps == n.timestamps && r.cumulative == n.cumulative && r.disk == n.disk
    ensures ChainInv(r) && LogMatches(r) && Alike(n, r)
  {
    KeptFields(n.blocks, blocks);
    SameRecords(n.blocks, blocks, n.timestamps);
  }

  /** Starting over the log of a chain rebuilds a node that is alike. */
  lemma BootRestores(n: Node)
    requires ChainInv(n) && LogMatches(n)
    ensures ChainInv(Boot(n.disk)) && LogMatches(Boot(n.disk)) && Alike(n, Boot(n.disk))
  {
    BootVectors(n);
    LoadedVectors(n.blocks, n.timestamps);
    InvOfKeptFields(n, LoadedBlocks(Records(n.blocks, n.timestamps)), Boot(n.disk));
  }

  lemma KeptFields(a: seq<Block>, b: seq<Block>)
    requires SameKeptFields(a, b)
    ensures forall i :: 0 <= i < |a| ==> a[i].hash == b[i].hash
    ensures forall i :: 0 <= i < |a| ==> a[i].timestamp == b[i].timestamp
  {
    forall i | 0 <= i < |a| ensures a[i].hash == b[i].hash && a[i].timestamp == b[i].timestamp {
      assert LoadedBlock(RecordOf(a[i], 0, 0)) == LoadedBlock(RecordOf(b[i], 0, 0));
    }
  }

  lemma SameRecords(a: seq<Block>, b: seq<Block>, timestamps: seq<u64>)
    requires |a| == |timestamps| && SameKeptFields(a, b)
    ensures Records(a, timestamps) == Records(b, timestamps)
  {
    forall i | 0 <= i < |a| ensures Records(a, timestamps)[i] == Records(b, timestamps)[i] {
      RecordsAt(a, timestamps, i);
      RecordsAt(b, timestamps, i);
    }
  }

  // ----- runs -----

  datatype Event =
    | Submit(block: Block, now: u64)
    | Restart

  /** The node after a history of submitted blocks and restarts over its own disk. */
  function After(n: Node, events: seq<Event>): (r: Node)
    requires InStep(n)
    ensures InStep(r)
  {
    if events == [] then n
    else
      var before := After(n, events[..|events| - 1]);
      match Last(events)
      case Submit(block, now) => Step(before, block, now)
      case Restart => Boot(before.disk)
  }

  /** The verdicts on the submitted blocks, in order. */
  function Verdicts(n: Node, events: seq<Event>): seq<Verdict>
    requires InStep(n)
  {
    if events == [] then []
    else
      var init := events[..|events| - 1];
      match Last(events)
      case Submit(block, now) => Verdicts(n, init) + [Judge(After(n, init), block, now)]
      case Restart => Verdicts(n, init)
  }

  function WithoutRestarts(events: seq<Event>): seq<Event> {
    if events == [] then []
    else
      var init := WithoutRestarts(events[..|events| - 1]);
      if Last(events).Restart? then init else init + [Last(events)]
  }

  /** Every run keeps the invariant and the log in agreement with the chain. */
  lemma {:induction false} RunKeepsInv(n: Node, events: seq<Event>)
    requires ChainInv(n) && LogMatches(n)
    ensures ChainInv(After(n, events)) && LogMatches(After(n, events))
  {
    if events != [] {
      var init := events[..|events| - 1];
      RunKeepsInv(n, init);
      match Last(events)
      case Submit(block, now) =>
        StepKeepsInv(After(n, init), block, now);
        StepKeepsLog(After(n, init), block, now);
      case Restart =>
        BootRestores(After(n, init));
    }
  }

  /** Every run from a clean disk satisfies the chain invariant, and the log holds the chain. */
  lemma ReachableInv(disk: Disk, events: seq<Event>)
    requires CleanDisk(disk)
    ensures var n := After(Boot(disk), events); ChainInv(n) && LogMatches(n)
  {
    FirstStart(disk);
    RunKeepsInv(Boot(disk), events);
  }

  /** The difficulty history of a run depends on nothing but the timestamps it accepted. */
  lemma HistoryDetermined(disk: Disk, events: seq<Event>, disk': Disk, events': seq<Event>)
    requires CleanDisk(disk) && CleanDisk(disk')
    requires After(Boot(disk), events).timestamps == After(Boot(disk'), events').timestamps
    ensures After(Boot(disk), events).cumulative == After(Boot(disk'), events').cumulative
    ensures CurrentDifficulty(After(Boot(disk), events)) == CurrentDifficulty(After(Boot(disk'), events'))
  {
    ReachableInv(disk, events);
    ReachableInv(disk', events');
  }

  lemma AlikeJudge(a: Node, b: Node, block: Block, now: u64)
    requires Alike(a, b)
    ensures Judge(a, block, now) == Judge(b, block, now)
    ensures Alike(Step(a, block, now), Step(b, block, now))
  {
    KeptFields(a.blocks, b.blocks);
  }

  lemma AlikeTransitive(a: Node, b: Node, c: Node)
    requires Alike(a, b) && Alike(b, c)
    ensures Alike(a, c)
  {
  }

  lemma RunSplits(n: Node, init: seq<Event>, e: Event)
    requires InStep(n)
    ensures After(n, init + [e]) == match e
                                    case Submit(block, now) => Step(After(n, init), block, now)
                                    case Restart => Boot(After(n, init).disk)
    ensures Verdicts(n, init + [e]) == match e
                                       case Submit(block, now) => Verdicts(n, init) + [Judge(After(n, init), block, now)]
                                       case Restart => Verdicts(n, init)
  {
    assert (init + [e])[..|init|] == init;
    assert Last(init + [e]) == e;
  }

  lemma WithoutRestartsSplits(init: seq<Event>, e: Event)
    ensures WithoutRestarts(init + [e]) == if e.Restart? then WithoutRestarts(init) else WithoutRestarts(init) + [e]
  {
    assert (init + [e])[..|init|] == init;
    assert Last(init + [e]) == e;
  }

  lemma TransparentStep(n: Node, init: seq<Event>, plain: seq<Event>, e: Event)
    requires ChainInv(n) && LogMatches(n)
    requires Verdicts(n, init) == Verdicts(n, plain) && Alike(After(n, init), After(n, plain))
    ensures var plain' := if e.Restart? then plain else plain + [e];
            Verdicts(n, init + [e]) == Verdicts(n, plain') && Alike(After(n, init + [e]), After(n, plain'))
  {
    hide Judge, Step, Boot;
    RunSplits(n, init, e);
    match e
    case Submit(block, now) =>
      AlikeJudge(After(n, init), After(n, plain), block, now);
      RunSplits(n, plain, e);
    case Restart =>
      RunKeepsInv(n, init);
      BootRestores(After(n, init));
      AlikeTransitive(Boot(After(n, init).disk), After(n, init), After(n, plain));
  }

  lemma NoEvents(n: Node)
    requires ChainInv(n)
    ensures After(n, []) == n && Verdicts(n, []) == [] && WithoutRestarts([]) == [] && Alike(n, n)
  {
    hide CumulativeOf, DifficultyAt, MeetsTarget;
  }

  /** The restart theorem: from any sound node, restarts anywhere in a run change no verdict, no
      difficulty, no chain data that counts and no byte of the log. */
  lemma {:induction false} RestartsAreTransparent(n: Node, events: seq<Event>)
    requires ChainInv(n) && LogMatches(n)
    ensures Verdicts(n, events) == Verdicts(n, WithoutRestarts(events))
    ensures Alike(After(n, events), After(n, WithoutRestarts(events)))
  {
    hide After, Verdicts, WithoutRestarts, Alike, ChainInv, LogMatches;
    if events == [] {
      NoEvents(n);
    } else {
      var init, e := events[..|events| - 1], Last(events);
      assert events == init + [e];
      RestartsAreTransparent(n, init);
      WithoutRestartsSplits(init, e);
      TransparentStep(n, init, WithoutRestarts(init), e);
    }
  }

  /** The same from a first start over a clean disk. */
  lemma RestartedNodeBehavesAlike(disk: Disk, before: seq<Event>, later: seq<Event>)
    requires CleanDisk(disk)
    ensures var live := After(Boot(disk), before);
            var restarted := Boot(live.disk);
            && Verdicts(restarted, later) == Verdicts(live, later)
            && Alike(After(restarted, later), After(live, later))
  {
    hide Boot, After, Verdicts;
    ReachableInv(disk, before);
    var live := After(Boot(disk), before);
    BootRestores(live);
    AlikeRuns(Boot(live.disk), live, later);
  }

  /** Alike nodes stay alike under the same events. */
  lemma {:induction false} AlikeRuns(a: Node, b: Node, events: seq<Event>)
    requires Alike(a, b)
    ensures Verdicts(a, events) == Verdicts(b, events)
    ensures Alike(After(a, events), After(b, events))
  {
    if events != [] {
      var init := events[..|events| - 1];
      AlikeRuns(a, b, init);
      if Last(events).Submit? {
        AlikeJudge(After(a, init), After(b, init), Last(events).block, Last(events).now);
      }
    }
  }

  // ----- one process -----

  predicate NoRestarts(events: seq<Event>) {
    forall i :: 0 <= i < |events| ==> events[i].Submit?
  }

  /** r has all of n's chain and log in front of its own. */
  predicate Extends(n: Node, r: Node) {
    && n.blocks <= r.blocks && n.timestamps <= r.timestamps && n.cumulative <= r.cumulative
    && Bytes(n.disk.blocksFile) <= Bytes(r.disk.blocksFile)
  }

  lemma ExtendsTransitive(a: Node, b: Node, c: Node)
    requires Extends(a, b) && Extends(b, c)
    ensures Extends(a, c)
  {
  }

  lemma StepLinks(n: Node, b: Block, now: u64)
    requires InStep(n)
    ensures Extends(n, Step(n, b, now))
    ensures Linked(n.blocks) ==> Linked(Step(n, b, now).blocks)
  {
    StepExtendsOrKeeps(n, b, now);
    if Judge(n, b, now).Accepted? {
      AcceptedMeans(n, b, now);
    }
  }

  /** Within one process the chain is only ever extended, its blocks stay linked, and the log grows
      at its end. */
  lemma {:induction false} ProcessExtends(n: Node, events: seq<Event>)
    requires InStep(n) && NoRestarts(events)
    ensures Extends(n, After(n, events))
    ensures Linked(n.blocks) ==> Linked(After(n, events).blocks)
  {
    if events != [] {
      var init, e := events[..|events| - 1], Last(events);
      ProcessExtends(n, init);
      assert e.Submit?;
      StepLinks(After(n, init), e.block, e.now);
      ExtendsTransitive(n, After(n, init), Step(After(n, init), e.block, e.now));
    }
  }

  lemma {:induction false} PlainIsOneProcess(events: seq<Event>)
    ensures NoRestarts(WithoutRestarts(events))
  {
    if events != [] {
      PlainIsOneProcess(events[..|events| - 1]);
    }
  }

  /** The chain never gets shorter, restarts or not. */
  lemma SizeGrows(n: Node, events: seq<Event>)
    requires ChainInv(n) && LogMatches(n)
    ensures |n.blocks| <= |After(n, events).blocks|
  {
    hide After, Verdicts, WithoutRestarts, ChainInv, LogMatches;
    RestartsAreTransparent(n, events);
    PlainIsOneProcess(events);
    assert InStep(n) by {
      StartsInStep(n);
    }
    ProcessExtends(n, WithoutRestarts(events));
  }

  lemma StartsInStep(n: Node)
    requires ChainInv(n)
    ensures InStep(n)
  {
  }

  /** From genesis every block names its predecessor. */
  lemma GenesisRunLinked(disk: Disk, events: seq<Event>)
    requires CleanDisk(disk) && NoRestarts(events)
    ensures var n := After(Boot(disk), events);
            Linked(n.blocks) && [GenesisBlock()] <= n.blocks
  {
    FirstStart(disk);
    ProcessExtends(Boot(disk), events);
  }

  /** From position `from` on every block names its predecessor. */
  predicate LinkedFrom(blocks: seq<Block>, from: nat) {
    forall i :: 1 <= i && from <= i < |blocks| ==> blocks[i].prevId == blocks[i - 1].hash
  }

  lemma StepLinksNew(n: Node, b: Block, now: u64, from: nat)
    requires InStep(n) && LinkedFrom(n.blocks, from)
    ensures LinkedFrom(Step(n, b, now).blocks, from)
  {
    StepExtendsOrKeeps(n, b, now);
    if Judge(n, b, now).Accepted? {
      AcceptedMeans(n, b, now);
    }
  }

  /** Whatever a process started with, every block it adds names its predecessor. */
  lemma {:induction false} NewBlocksLinked(n: Node, events: seq<Event>)
    requires InStep(n) && NoRestarts(events)
    ensures LinkedFrom(After(n, events).blocks, |n.blocks|)
  {
    hide Step, Judge;
    if events != [] {
      var init, e := events[..|events| - 1], Last(events);
      NewBlocksLinked(n, init);
      assert e.Submit?;
      StepLinksNew(After(n, init), e.block, e.now, |n.blocks|);
    }
  }

  /** Every run from a clean disk, restarts included, keeps the hash of the genesis block. */
  lemma GenesisHashKept(disk: Disk, events: seq<Event>)
    requires CleanDisk(disk)
    ensures var n := After(Boot(disk), events);
            n.blocks != [] && n.blocks[0].hash == GenesisBlock().hash
  {
    hide Boot, After, Verdicts, WithoutRestarts;
    FirstStart(disk);
    RestartsAreTransparent(Boot(disk), events);
    PlainIsOneProcess(events);
    GenesisRunLinked(disk, WithoutRestarts(events));
    KeptFields(After(Boot(disk), events).blocks, After(Boot(disk), WithoutRestarts(events)).blocks);
  }

  /** The log does not keep predecessor names: after a restart the blocks in memory are linked
      exactly when there is only the genesis block. */
  lemma RestartForgetsLinks(n: Node)
    requires ChainInv(n) && LogMatches(n) && n.blocks[0].hash == GenesisBlock().hash
    ensures Linked(Boot(n.disk).blocks) <==> |n.blocks| == 1
    ensures |Boot(n.disk).blocks| == |n.blocks|
    ensures forall i :: 0 <= i < |n.blocks| ==> Boot(n.disk).blocks[i].prevId == ZeroHash()
  {
    BootVectors(n);
    LoadedVectors(n.blocks, n.timestamps);
    LoadedPrevIds(Records(n.blocks, n.timestamps));
    LoadedNamesNobody(n.blocks, LoadedBlocks(Records(n.blocks, n.timestamps)));
  }

  /** Links in memory after any run, a restart and any further blocks: the loaded blocks name nobody,
      the new ones name their predecessors, and all are linked exactly when only genesis was loaded. */
  lemma LinksAfterRestart(disk: Disk, before: seq<Event>, later: seq<Event>)
    requires CleanDisk(disk) && NoRestarts(later)
    ensures var loaded := |After(Boot(disk), before).blocks|;
            var blocks := After(Boot(After(Boot(disk), before).disk), later).blocks;
            && loaded <= |blocks| && LinkedFrom(blocks, loaded)
            && (forall i :: 0 <= i < loaded ==> blocks[i].prevId == ZeroHash())
            && (Linked(blocks) <==> loaded == 1)
  {
    hide Boot, After, ChainInv, LogMatches;
    var live := After(Boot(disk), before);
    ReachableInv(disk, before);
    GenesisHashKept(disk, before);
    RestartForgetsLinks(live);
    ProcessExtends(Boot(live.disk), later);
    NewBlocksLinked(Boot(live.disk), later);
    LinkedPrefix(Boot(live.disk).blocks, After(Boot(live.disk), later).blocks);
  }

  lemma LinkedPrefix(blocks: seq<Block>, longer: seq<Block>)
    requires blocks <= longer && LinkedFrom(longer, |blocks|)
    ensures Linked(longer) <==> Linked(blocks)
  {
    if Linked(blocks) {
      forall i | 1 <= i < |longer| ensures longer[i].prevId == longer[i - 1].hash {
        if i < |blocks| {
          assert blocks[i] == longer[i] && blocks[i - 1] == longer[i - 1];
        }
      }
    } else {
      var i :| 1 <= i < |blocks| && blocks[i].prevId != blocks[i - 1].hash;
      assert blocks[i] == longer[i] && blocks[i - 1] == longer[i - 1];
    }
  }

  lemma LoadedPrevIds(records: seq<Record>)
    ensures forall i :: 0 <= i < |records| ==> LoadedBlocks(records)[i].prevId == ZeroHash()
  {
  }

  lemma LoadedNamesNobody(blocks: seq<Block>, loaded: seq<Block>)
    requires blocks != [] && blocks[0].hash == GenesisBlock().hash && SameKeptFields(blocks, loaded)
    requires forall i :: 0 <= i < |loaded| ==> loaded[i].prevId == ZeroHash()
    ensures Linked(loaded) <==> |blocks| == 1
  {
    KeptFields(blocks, loaded);
    assert loaded[0].hash == GenesisBlock().hash && GenesisBlock().hash[1] == 1;
    if |blocks| > 1 {
      assert loaded[1].prevId == ZeroHash();
    }
  }

  // ----- what a start recovers -----

  /** A start over the node's disk finds the node's timestamps, cumulative difficulties and the
      recorded fields of all its blocks. */
  predicate Recovered(n: Node)
    requires InStep(n)
  {
    var r := Boot(n.disk);
    SameKeptFields(n.blocks, r.blocks) && r.timestamps == n.timestamps && r.cumulative == n.cumulative
  }

  /** A save that fails is not noticed: after an accepted block a restart finds the whole node again
      exactly when saves reach the disk, and otherwise the node before the block. */
  lemma SurvivesExactlyWhenDurable(n: Node, b: Block, now: u64)
    requires ChainInv(n) && LogHolds(n) && Judge(n, b, now).Accepted?
    ensures Recovered(Step(n, b, now)) <==> n.disk.durable
    ensures !n.disk.durable ==> Recovered(n) && Boot(Step(n, b, now).disk) == Boot(n.disk)
  {
    hide Judge, Boot;
    AcceptedMeans(n, b, now);
    if n.disk.durable {
      StepKeepsInv(n, b, now);
      StepKeepsLog(n, b, now);
      RecoveredFromLog(Step(n, b, now));
    } else {
      RecoveredFromLog(n);
    }
  }

  lemma RecoveredFromLog(n: Node)
    requires ChainInv(n) && LogHolds(n)
    ensures Recovered(n)
  {
    hide Boot;
    BootVectors(n);
    LoadedVectors(n.blocks, n.timestamps);
  }

  /** A start over the log of a chain yields a sound node exactly for a process that has no blocks
      yet, whatever else it holds; any chain that does not begin earlier would come up twice. */
  lemma StartsSoundExactly(n: Node, p: Node)
    requires ChainInv(n) && LogMatches(n) && InStep(p) && p.disk == n.disk
    requires p.blocks == [] || p.timestamps[0] >= n.timestamps[0]
    ensures ChainInv(Start(p)) <==> p.blocks == []
  {
    var records := Records(n.blocks, n.timestamps);
    LogRoundTrip(records);
    StartLoads(p, records);
    LoadedVectors(n.blocks, n.timestamps);
    if p.blocks == [] {
      SameChain(p, n, records);
    } else {
      assert Start(p).timestamps == p.timestamps + n.timestamps;
      TwoChainsDoNotRise(p.timestamps, n.timestamps);
    }
  }

  lemma SameChain(p: Node, n: Node, records: seq<Record>)
    requires ChainInv(n) && LogMatches(n) && InStep(p) && p.disk == n.disk && p.blocks == []
    requires records == Records(n.blocks, n.timestamps)
    requires Start(p).blocks == p.blocks + LoadedBlocks(records)
    requires Start(p).timestamps == p.timestamps + LoadedTimestamps(records)
    requires Start(p).cumulative == p.cumulative + LoadedCumulative(records)
    ensures ChainInv(Start(p))
  {
    hide Boot, Start, ChainInv;
    BootRestores(n);
    BootVectors(n);
    InStepAndNamed(n);
    LoadedVectors(n.blocks, n.timestamps);
    CumulativeOfRecords(n.blocks, n.timestamps);
    InvOfVectors(Boot(n.disk), Start(p));
  }

  lemma InStepAndNamed(n: Node)
    requires ChainInv(n)
    ensures InStep(n) && forall i :: 0 <= i < |n.blocks| ==> n.blocks[i].timestamp == n.timestamps[i]
    ensures n.cumulative == CumulativeOf(n.timestamps)
  {
  }

  lemma InvOfVectors(a: Node, b: Node)
    requires ChainInv(a) && a.blocks == b.blocks && a.timestamps == b.timestamps && a.cumulative == b.cumulative
    ensures ChainInv(b)
  {
  }

  lemma TwoChainsDoNotRise(first: seq<u64>, second: seq<u64>)
    requires first != [] && second != [] && first[0] >= second[0]
    ensures !TimestampsRise(first + second)
  {
    assert (first + second)[0] == first[0] && (first + second)[|first|] == second[0];
  }

  /** `init` is meant for an empty process: a second one loads the whole chain again behind the first
      copy, and time no longer moves forward. */
  lemma SecondInitDoubles(n: Node)
    requires ChainInv(n) && LogHolds(n)
    ensures |Start(n).blocks| == 2 * |n.blocks|
    ensures Start(n).timestamps == n.timestamps + n.timestamps && !TimestampsRise(Start(n).timestamps)
  {
    LogRoundTrip(Records(n.blocks, n.timestamps));
    StartLoads(n, Records(n.blocks, n.timestamps));
    LoadedVectors(n.blocks, n.timestamps);
    TwoChainsDoNotRise(n.timestamps, n.timestamps);
  }

  lemma StartLoads(n: Node, records: seq<Record>)
    requires n.disk.blocksFile.Present? && DecodeLog(n.disk.blocksFile.content) == records != []
    ensures Start(n).blocks == n.blocks + LoadedBlocks(records)
    ensures Start(n).timestamps == n.timestamps + LoadedTimestamps(records)
    ensures Start(n).cumulative == n.cumulative + LoadedCumulative(records)
  {
  }
}
