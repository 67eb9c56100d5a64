/** The node's state and its steps as values (src/cryptonote_core/blockchain.cpp).  The class in
    `Blockchain` carries these steps out in place. */
module Chain {
  import opened Words
  import opened CryptonoteTypes
  import opened Difficulty
  import opened ProofOfWork
  import opened TxPool
  import opened Storage
  import opened Hex

  const GENESIS_TIMESTAMP: u64 := 1788461926
  const GENESIS_NONCE: u32 := 10001
  const FUTURE_TIME_LIMIT: u64 := 7200
  const SEED_EPOCH_BLOCKS: nat := 1440
  const SEED_LAG_BLOCKS: nat := 64

  /** The data directory as the node sees it; `durable` is whether a save reaches it. */
  datatype Disk = Disk(durable: bool, blocksFile: FileContent<u8>, keysFile: FileContent<char>)

  datatype Node = Node(
    blocks: seq<Block>,
    timestamps: seq<u64>,
    cumulative: seq<u64>,
    spent: set<string>,
    pool: seq<PoolEntry>,
    disk: Disk,
    requested: seq<nat>)

  datatype Verdict =
    | NoGenesis
    | WrongParent
    | StaleTimestamp
    | FutureTimestamp
    | WeakWork(difficulty: u64)
    | Accepted(difficulty: u64)

  /** The three vectors have one length. */
  predicate InStep(n: Node) {
    |n.blocks| == |n.timestamps| == |n.cumulative|
  }

  function Last<T>(s: seq<T>): T
    requires s != []
  {
    s[|s| - 1]
  }

  /** `get_current_difficulty`. */
  function CurrentDifficulty(n: Node): u64
    requires InStep(n)
  {
    NextDifficulty(n.timestamps, n.cumulative, TARGET_SECONDS)
  }

  /** `get_current_seed_epoch` for a chain of `size` blocks. */
  function SeedEpoch(size: nat): nat {
    size / 1440
  }

  /** The first rule a block breaks at time `now`, or its acceptance. */
  function Judge(n: Node, b: Block, now: u64): Verdict
    requires InStep(n)
  {
    if n.blocks == [] then NoGenesis
    else if b.prevId != Last(n.blocks).hash then WrongParent
    else if b.timestamp <= Last(n.blocks).timestamp then StaleTimestamp
    else if b.timestamp > U64(now + FUTURE_TIME_LIMIT) then FutureTimestamp
    else
      var difficulty := CurrentDifficulty(n);
      if MeetsTarget(PowHash(b.hash), difficulty) then Accepted(difficulty) else WeakWork(difficulty)
  }

  function RecordOf(b: Block, height: nat, difficulty: u64): Record {
    Record(U64(height), b.timestamp, b.nonce, difficulty, b.hash)
  }

  function Saved(d: Disk, r: Record): Disk {
    if d.durable then d.(blocksFile := Present(Bytes(d.blocksFile) + EncodeRecord(r))) else d
  }

  /** The seed epochs asked for when the block at `height` has been appended. */
  function SeedRequest(height: nat): seq<nat> {
    if (height + 64) % 1440 == 0 then [SeedEpoch(height + 1) + 1] else []
  }

  function Append(n: Node, b: Block, difficulty: u64): Node
    requires InStep(n) && n.blocks != []
  {
    var height := |n.blocks|;
    n.(blocks := n.blocks + [b],
       timestamps := n.timestamps + [b.timestamp],
       cumulative := n.cumulative + [U64(Last(n.cumulative) as int + difficulty)],
       pool := Without(n.pool, b.txHashes),
       disk := Saved(n.disk, RecordOf(b, height, difficulty)),
       requested := n.requested + SeedRequest(height))
  }

  /** `add_new_block` at time `now`. */
  function Step(n: Node, b: Block, now: u64): (r: Node)
    requires InStep(n)
    ensures InStep(r)
  {
    var verdict := Judge(n, b, now);
    if verdict.Accepted? then Append(n, b, verdict.difficulty) else n
  }

  /** The genesis block that `init` builds; its hash is fixed, not computed. */
  function GenesisBlock(): Block {
    EmptyBlock().(majorVersion := 1, timestamp := GENESIS_TIMESTAMP, nonce := GENESIS_NONCE,
                  hash := ZeroHash()[1 := 1][2 := 2])
  }

  function WithGenesis(n: Node): Node {
    n.(blocks := n.blocks + [GenesisBlock()],
       timestamps := n.timestamps + [GENESIS_TIMESTAMP],
       cumulative := n.cumulative + [1],
       disk := Saved(n.disk, RecordOf(GenesisBlock(), 0, 1)))
  }

  /** `init`: load what the disk holds, or start a chain with the genesis block. */
  function Start(n: Node): (r: Node)
    ensures InStep(n) ==> InStep(r)
  {
    var records := DecodeLog(Bytes(n.disk.blocksFile));
    var loaded :=
      if n.disk.blocksFile.Present? then
        n.(blocks := n.blocks + LoadedBlocks(records),
           timestamps := n.timestamps + LoadedTimestamps(records),
           cumulative := n.cumulative + LoadedCumulative(records),
           spent := n.spent + NonEmptyLines(Bytes(n.disk.keysFile)))
      else n;
    if n.disk.blocksFile.Present? && loaded.blocks != [] then loaded
    else WithGenesis(loaded)
  }

  /** A process before `init`, over a disk. */
  function Blank(disk: Disk): Node {
    Node([], [], [], {}, [], disk, [])
  }

  /** A fresh process started over a disk. */
  function Boot(disk: Disk): (r: Node)
    ensures InStep(r)
  {
    Start(Blank(disk))
  }

  /** `verify_transaction` against a set of spent key images in text form. */
  predicate Verifies(spent: set<string>, tx: Transaction) {
    WellFormed(tx) && forall i :: 0 <= i < |tx.vin| ==> HashHex(tx.vin[i].keyImage) !in spent
  }
}
