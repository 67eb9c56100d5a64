/** Whole histories of a node: blocks, transactions, removals, shutdowns and new starts in any order. */
module NodeHistory {
  import opened Words
  import opened CryptonoteTypes
  import opened TxPool
  import opened TxPoolLaws
  import opened Storage
  import opened Chain
  import opened ChainLaws
  import opened ChainConsequences
  import opened NodeContract

  datatype Action =
    | Mine(block: Block, now: u64)
    | Offer(tx: Transaction, now: u64)
    | Drop(hashes: seq<Hash>)
    | Halt
    | Reopen(writable: bool)

  /** One action.  The order of equal fees in the pool is left open; a new process sees a directory
      that takes saves or does not. */
  ghost predicate NodeStep(n: Node, action: Action, after: Node)
    requires InStep(n)
  {
    match action
    case Mine(block, now) => after == Step(n, block, now)
    case Offer(tx, now) => after == n.(pool := after.pool) && PoolStep(n.pool, Add(tx, now), after.pool)
    case Drop(hashes) => after == n.(pool := Without(n.pool, hashes))
    case Halt => after == n.(disk := n.disk.(durable := false))
    case Reopen(writable) => after == Boot(n.disk.(durable := writable))
  }

  /** A history from a first start over a directory without blocks. */
  ghost predicate NodeRun(states: seq<Node>, actions: seq<Action>) {
    && |states| == |actions| + 1
    && (exists disk: Disk :: Bytes(disk.blocksFile) == [] && states[0] == Boot(disk))
    && forall k :: 0 <= k < |actions| ==> InStep(states[k]) && NodeStep(states[k], actions[k], states[k + 1])
  }

  /** The log holds the first k blocks of the chain. */
  ghost predicate LogHasFirst(n: Node, k: nat)
    requires InStep(n)
  {
    k <= |n.blocks| && Bytes(n.disk.blocksFile) == EncodeLog(Records(n.blocks[..k], n.timestamps[..k]))
  }

  /** What every state satisfies: chain and pool are sound, and the log holds a front part of the
      chain, all of it while saves reach the disk. */
  ghost predicate Sound(n: Node) {
    && ChainInv(n) && PoolInv(n.pool)
    && (exists k: nat :: LogHasFirst(n, k))
    && (n.disk.durable ==> LogHasFirst(n, |n.blocks|))
  }

  // ----- what an action leaves alone -----

  /** The spent images change at a new start only, and pool actions touch nothing but the pool. */
  lemma NodeStepLeaves(n: Node, action: Action, after: Node)
    requires InStep(n) && NodeStep(n, action, after)
    ensures !action.Reopen? ==> after.spent == n.spent
    ensures action.Offer? || action.Drop? ==>
              && after.blocks == n.blocks && after.timestamps == n.timestamps && after.cumulative == n.cumulative
              && after.disk == n.disk && after.requested == n.requested
    ensures action.Halt? ==>
              && after.pool == n.pool && after.blocks == n.blocks && after.requested == n.requested
              && after.disk.blocksFile == n.disk.blocksFile && after.disk.keysFile == n.disk.keysFile && !after.disk.durable
    ensures action.Reopen? ==> after.pool == [] && after.requested == [] && after.disk.keysFile == n.disk.keysFile
  {
    hide Step;
    match action
    case Mine(block, now) => StepKeepsSpent(n, block, now);
    case Offer(tx, now) =>
    case Drop(hashes) =>
    case Halt =>
    case Reopen(writable) => BootLeaves(n.disk.(durable := writable));
  }

  lemma BootLeaves(disk: Disk)
    ensures Boot(disk).pool == [] && Boot(disk).requested == [] && Boot(disk).disk.keysFile == disk.keysFile
  {
    hide DecodeLog, NonEmptyLines, EncodeRecord;
  }

  /** Between two new starts a spent image stays spent, whatever happens to blocks and pool. */
  lemma {:induction false} SpentUntilReopen(states: seq<Node>, actions: seq<Action>, i: nat, j: nat)
    requires NodeRun(states, actions) && i <= j < |states|
    requires forall k :: i <= k < j ==> !actions[k].Reopen?
    ensures states[j].spent == states[i].spent
  {
    hide NodeStep;
    if i < j {
      SpentUntilReopen(states, actions, i, j - 1);
      NodeStepLeaves(states[j - 1], actions[j - 1], states[j]);
    }
  }

  // ----- prefixes -----

  /** The node that had only the first k blocks, over a disk. */
  function FirstBlocks(n: Node, k: nat, disk: Disk): Node
    requires InStep(n) && k <= |n.blocks|
  {
    n.(blocks := n.blocks[..k], timestamps := n.timestamps[..k], cumulative := n.cumulative[..k], disk := disk)
  }

  lemma PrefixIsChain(n: Node, k: nat, disk: Disk)
    requires ChainInv(n) && 1 <= k <= |n.blocks|
    ensures ChainInv(FirstBlocks(n, k, disk))
  {
    hide CumulativeOf, DifficultyAt;
    CumulativePrefix(n.timestamps, k);
    forall i | 1 <= i < k ensures DifficultyAt(n.timestamps[..k], i) == DifficultyAt(n.timestamps, i) {
      DifficultyAtPrefix(n.timestamps, k, i);
    }
  }

  lemma LogOfRecords(records: seq<Record>)
    requires records != []
    ensures EncodeLog(records) != []
  {
    LogRoundTrip(records);
    assert DecodeLog([]) == [];
  }

  /** A disk whose log holds the first k >= 1 blocks holds the node that had only these. */
  lemma PrefixOnDisk(n: Node, k: nat, writable: bool)
    requires ChainInv(n) && 1 <= k && LogHasFirst(n, k)
    ensures ChainInv(FirstBlocks(n, k, n.disk.(durable := writable)))
    ensures LogHolds(FirstBlocks(n, k, n.disk.(durable := writable)))
  {
    PrefixIsChain(n, k, n.disk.(durable := writable));
    LogOfRecords(Records(n.blocks[..k], n.timestamps[..k]));
  }

  // ----- each action -----

  lemma MineKeepsLog(n: Node, block: Block, now: u64)
    requires Sound(n)
    ensures var r := Step(n, block, now);
            (exists k: nat :: LogHasFirst(r, k)) && (r.disk.durable ==> LogHasFirst(r, |r.blocks|))
  {
    hide Step, Judge, ChainInv, PoolInv, LogHasFirst, LogHolds;
    InStepOfChain(n);
    if Judge(n, block, now).Accepted? {
      StepKeepsInv(n, block, now);
      InStepOfChain(Step(n, block, now));
      if n.disk.durable {
        WholeLog(n);
        StepKeepsLog(n, block, now);
        WholeLogBack(Step(n, block, now));
      } else {
        var k: nat :| LogHasFirst(n, k);
        MinedUnsaved(n, block, now, k);
      }
    } else {
      StepExtendsOrKeeps(n, block, now);
    }
  }

  lemma MinedUnsaved(n: Node, block: Block, now: u64, k: nat)
    requires InStep(n) && Judge(n, block, now).Accepted? && !n.disk.durable && LogHasFirst(n, k)
    ensures LogHasFirst(Step(n, block, now), k) && !Step(n, block, now).disk.durable
  {
    hide Judge, Records, EncodeLog;
    AcceptedMeans(n, block, now);
    var r := Step(n, block, now);
    assert r.blocks[..k] == n.blocks[..k] && r.timestamps[..k] == n.timestamps[..k];
  }

  lemma InStepOfChain(n: Node)
    requires ChainInv(n)
    ensures InStep(n) && n.blocks != []
  {
  }

  lemma WholeLog(n: Node)
    requires ChainInv(n) && n.disk.durable && LogHasFirst(n, |n.blocks|)
    ensures LogMatches(n)
  {
    assert n.blocks[..|n.blocks|] == n.blocks && n.timestamps[..|n.blocks|] == n.timestamps;
    LogOfRecords(Records(n.blocks, n.timestamps));
  }

  lemma WholeLogBack(n: Node)
    requires InStep(n) && LogHolds(n)
    ensures LogHasFirst(n, |n.blocks|)
  {
    assert n.blocks[..|n.blocks|] == n.blocks && n.timestamps[..|n.blocks|] == n.timestamps;
  }

  lemma MineKeepsSound(n: Node, block: Block, now: u64)
    requires Sound(n)
    ensures Sound(Step(n, block, now))
  {
    hide ChainInv, PoolInv, LogHasFirst;
    InStepOfChain(n);
    StepKeepsInv(n, block, now);
    MineKeepsLog(n, block, now);
    if Judge(n, block, now).Accepted? {
      BlockKeepsPool(n, block, now);
    }
  }

  /** Soundness does not look at the pool's order, and survives the loss of the disk. */
  lemma SamePartsSound(n: Node, r: Node)
    requires Sound(n) && PoolInv(r.pool)
    requires r.blocks == n.blocks && r.timestamps == n.timestamps && r.cumulative == n.cumulative
    requires Bytes(r.disk.blocksFile) == Bytes(n.disk.blocksFile) && (r.disk.durable ==> n.disk.durable)
    ensures Sound(r)
  {
    InvOfVectors(n, r);
    hide ChainInv, PoolInv, Records, EncodeLog;
    var k: nat :| LogHasFirst(n, k);
    assert LogHasFirst(r, k);
  }

  lemma EmptyPool()
    ensures PoolInv([])
  {
  }

  /** A first start over a directory without blocks, whether it takes saves or not. */
  lemma FirstStartSound(disk: Disk)
    requires Bytes(disk.blocksFile) == []
    ensures Sound(Boot(disk)) && Boot(disk).blocks == [GenesisBlock()] && Boot(disk).pool == []
  {
    hide EncodeRecord, Records, PoolInv;
    var on := disk.(durable := true);
    FirstStart(on);
    BootCreates(on);
    BootCreates(disk);
    EmptyPool();
    InvOfVectors(Boot(on), Boot(disk));
    var n := Boot(disk);
    NoRecords(n);
    if disk.durable {
      assert on == disk;
      WholeLogBack(n);
    } else {
      assert LogHasFirst(n, 0);
    }
  }

  lemma NoRecords(n: Node)
    requires InStep(n)
    ensures EncodeLog(Records(n.blocks[..0], n.timestamps[..0])) == []
  {
  }

  /** What a new process finds: the first k blocks, when the log holds k >= 1 of them. */
  lemma ReopenFinds(n: Node, k: nat, writable: bool)
    requires ChainInv(n) && 1 <= k && LogHasFirst(n, k)
    ensures var r := Boot(n.disk.(durable := writable));
            && r.timestamps == n.timestamps[..k] && r.cumulative == n.cumulative[..k]
            && SameKeptFields(n.blocks[..k], r.blocks) && r.pool == []
            && ChainInv(r) && InStep(r) && LogHolds(r)
  {
    var on, m := FirstBlocks(n, k, n.disk.(durable := true)), FirstBlocks(n, k, n.disk.(durable := writable));
    hide Boot, ChainInv, LogHasFirst;
    PrefixOnDisk(n, k, true);
    PrefixOnDisk(n, k, writable);
    InStepOfChain(on);
    InStepOfChain(m);
    BootRestores(on);
    BootVectors(on);
    BootVectors(m);
    InvOfVectors(Boot(on.disk), Boot(m.disk));
  }

  lemma ReopenKeepsSound(n: Node, writable: bool)
    requires Sound(n)
    ensures Sound(Boot(n.disk.(durable := writable)))
  {
    hide Boot, ChainInv, PoolInv, LogHasFirst;
    InStepOfChain(n);
    var k: nat :| LogHasFirst(n, k);
    if k == 0 {
      NothingLogged(n);
      FirstStartSound(n.disk.(durable := writable));
    } else {
      ReopenFinds(n, k, writable);
      EmptyPool();
      WholeLogBack(Boot(n.disk.(durable := writable)));
    }
  }

  lemma NothingLogged(n: Node)
    requires InStep(n) && LogHasFirst(n, 0)
    ensures Bytes(n.disk.blocksFile) == []
  {
    NoRecords(n);
  }

  lemma NodeStepKeepsSound(n: Node, action: Action, after: Node)
    requires Sound(n) && InStep(n) && NodeStep(n, action, after)
    ensures Sound(after)
  {
    hide Sound, ChainInv, PoolInv, Boot, Step;
    PoolOfSound(n);
    match action
    case Mine(block, now) => MineKeepsSound(n, block, now);
    case Offer(tx, now) =>
      AddKeepsInv(n.pool, tx, now, after.pool);
      SamePartsSound(n, after);
    case Drop(hashes) =>
      RemoveKeepsInv(n.pool, hashes);
      SamePartsSound(n, after);
    case Halt => SamePartsSound(n, after);
    case Reopen(writable) => ReopenKeepsSound(n, writable);
  }

  lemma PoolOfSound(n: Node)
    requires Sound(n)
    ensures PoolInv(n.pool)
  {
  }

  /** Every state of every history is sound: whatever the order of blocks, transactions, removals,
      shutdowns and new starts, over a directory that takes saves or not, the chain invariant and the
      pool invariant hold, and the log holds a front part of the chain, all of it while saves succeed. */
  lemma {:induction false} NodeRunInvariant(states: seq<Node>, actions: seq<Action>, k: nat)
    requires NodeRun(states, actions) && k < |states|
    ensures Sound(states[k])
  {
    hide Sound, Boot, NodeStep;
    if k == 0 {
      var disk: Disk :| Bytes(disk.blocksFile) == [] && states[0] == Boot(disk);
      FirstStartSound(disk);
    } else {
      NodeRunInvariant(states, actions, k - 1);
      NodeStepKeepsSound(states[k - 1], actions[k - 1], states[k]);
    }
  }

  /** What a new process loses: exactly the blocks after those that were saved. */
  lemma ReopenLosesUnsaved(states: seq<Node>, actions: seq<Action>, i: nat, k: nat, writable: bool)
    requires NodeRun(states, actions) && i < |states| && InStep(states[i]) && 1 <= k && LogHasFirst(states[i], k)
    ensures var r := Boot(states[i].disk.(durable := writable));
            r.timestamps == states[i].timestamps[..k] && SameKeptFields(states[i].blocks[..k], r.blocks)
  {
    hide Boot, LogHasFirst, NodeRun;
    NodeRunInvariant(states, actions, i);
    ReopenFinds(states[i], k, writable);
  }
}
