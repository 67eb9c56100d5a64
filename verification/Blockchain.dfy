/** The node (src/cryptonote_core/blockchain.cpp). */
module Blockchain {
  import opened Words
  import opened CryptonoteTypes
  import opened Difficulty
  import opened ProofOfWork
  import opened TxPool
  import opened Storage
  import opened Hex
  import opened Chain

  class Blockchain {
    var blocks: seq<Block>
    var timestamps: seq<u64>
    var cumulativeDifficulties: seq<u64>
    var spentKeyImages: set<string>
    const txPool: TxMemoryPool
    const db: PersistentDatabase
    const randomX: RandomXManager

    /** What every method keeps. */
    ghost predicate Valid()
      reads this, db
    {
      db.Valid() && |blocks| == |timestamps| == |cumulativeDifficulties|
    }

    ghost function DiskState(): Disk
      requires db.Valid()
      reads db, db.dir
    {
      Disk(db.Durable(),
           if db.dir == null then Absent else db.dir.blocksFile,
           if db.dir == null then Absent else db.dir.keysFile)
    }

    ghost function State(): (n: Node)
      requires Valid()
      reads this, txPool, db, randomX, db.dir
      ensures InStep(n)
    {
      Node(blocks, timestamps, cumulativeDifficulties, spentKeyImages, txPool.mempool, DiskState(), randomX.requested)
    }

    constructor (randomX: RandomXManager)
      ensures Valid() && State() == Blank(Disk(false, Absent, Absent)).(requested := randomX.requested)
      ensures this.randomX == randomX && fresh(txPool) && fresh(db) && db.dir == null
    {
      blocks, timestamps, cumulativeDifficulties, spentKeyImages := [], [], [], {};
      txPool := new TxMemoryPool();
      db := new PersistentDatabase();
      this.randomX := randomX;
    }

    /** The part of `init` that creates the genesis block. */
    method CommitGenesis()
      requires Valid()
      modifies this, db.dir
      ensures Valid() && db.dir == old(db.dir)
      ensures State() == WithGenesis(old(State()))
    {
      var genesis := EmptyBlock().(
        majorVersion := 1,
        minorVersion := 0,
        timestamp := GENESIS_TIMESTAMP,
        nonce := GENESIS_NONCE,
        prevId := ZeroHash(),
        hash := ZeroHash()[0 := 0][1 := 1][2 := 2]);
      assert genesis == GenesisBlock() by {
        assert ZeroHash()[0 := 0] == ZeroHash();
      }
      blocks := blocks + [genesis];
      timestamps := timestamps + [genesis.timestamp];
      cumulativeDifficulties := cumulativeDifficulties + [1];
      var _ := db.SaveBlock(genesis, 0, 1);
    }

    /** `init` over a data directory. */
    method Init(dataDir: DataDirectory) returns (ok: bool)
      requires Valid()
      modifies this, db, dataDir, randomX
      ensures Valid() && ok && randomX.initialized && db.dir == dataDir
      ensures State() == Start(old(State()).(
                disk := Disk(old(dataDir.writable), old(dataDir.blocksFile), old(dataDir.keysFile))))
    {
      var _ := db.Open(dataDir);
      var loaded;
      loaded, blocks, timestamps, cumulativeDifficulties, spentKeyImages :=
        db.LoadChain(blocks, timestamps, cumulativeDifficulties, spentKeyImages);
      if !(loaded && blocks != []) {
        CommitGenesis();
      }
      randomX.InitDataset();
      ok := true;
    }

    method GetCurrentDifficulty() returns (difficulty: u64)
      requires Valid()
      ensures difficulty == CurrentDifficulty(State())
    {
      difficulty := NextDifficultyLwma3(timestamps, cumulativeDifficulties, TARGET_SECONDS, WINDOW_SIZE);
    }

    function GetCurrentSeedEpoch(): nat
      reads this
    {
      |blocks| / SEED_EPOCH_BLOCKS
    }

    /** `verify_transaction`; the height argument is unused. */
    method VerifyTransaction(tx: Transaction, currentHeight: u64) returns (ok: bool)
      ensures ok == Verifies(spentKeyImages, tx)
    {
      if tx.vin == [] || tx.vout == [] {
        return false;
      }
      if tx.rct.kind != 6 || tx.rct.bulletproofPlus == [] || tx.rct.clsag == [] {
        return false;
      }
      for i := 0 to |tx.vin|
        invariant forall j :: 0 <= j < i ==> |tx.vin[j].keyOffsets| == RING_SIZE
                                             && HashHex(tx.vin[j].keyImage) !in spentKeyImages
      {
        if |tx.vin[i].keyOffsets| != RING_SIZE {
          return false;
        }
        var text := HashToHex(tx.vin[i].keyImage);
        if text in spentKeyImages {
          return false;
        }
      }
      ok := true;
    }

    /** The proof-of-work test of `add_new_block`. */
    method MeetsWork(hash: Hash, difficulty: u64) returns (ok: bool)
      modifies randomX
      ensures randomX.requested == old(randomX.requested)
      ensures ok == MeetsTarget(PowHash(hash), difficulty)
    {
      var powHash := new u8[32];
      randomX.CalculateHash(hash, powHash);
      ok := CheckPowHash(powHash[..], difficulty);
    }

    /** The part of `add_new_block` that commits an accepted block. */
    method Commit(b: Block, difficulty: u64)
      requires Valid() && blocks != []
      modifies this, txPool, db.dir, randomX
      ensures Valid() && db.dir == old(db.dir)
      ensures State() == Append(old(State()), b, difficulty)
    {
      hide EncodeRecord, Without;
      ghost var before := State();
      var height := |blocks|;
      blocks := blocks + [b];
      timestamps := timestamps + [b.timestamp];
      cumulativeDifficulties := cumulativeDifficulties
        + [U64(cumulativeDifficulties[|cumulativeDifficulties| - 1] as int + difficulty)];
      var _ := db.SaveBlock(b, U64(height), difficulty);
      assert DiskState() == Saved(before.disk, RecordOf(b, height, difficulty));
      txPool.RemoveTxs(b.txHashes);
      if (height + SEED_LAG_BLOCKS) % SEED_EPOCH_BLOCKS == 0 {
        randomX.PreallocateNextEpoch(GetCurrentSeedEpoch() + 1);
      }
      assert randomX.requested == before.requested + SeedRequest(height);
    }

    /** `add_new_block`; `now` is the clock.  A difficulty is reported once it has been computed. */
    method AddNewBlock(b: Block, now: u64) returns (verdict: Verdict)
      requires Valid()
      modifies this, txPool, db.dir, randomX
      ensures Valid() && db.dir == old(db.dir)
      ensures verdict == Judge(old(State()), b, now)
      ensures State() == Step(old(State()), b, now)
    {
      if blocks == [] {
        return NoGenesis;
      }
      var top := blocks[|blocks| - 1];
      if b.prevId != top.hash {
        return WrongParent;
      }
      if b.timestamp <= top.timestamp {
        return StaleTimestamp;
      }
      if b.timestamp > U64(now + FUTURE_TIME_LIMIT) {
        return FutureTimestamp;
      }
      var difficulty := GetCurrentDifficulty();
      var strong := MeetsWork(b.hash, difficulty);
      assert State() == old(State());
      if !strong {
        return WeakWork(difficulty);
      }
      Commit(b, difficulty);
      verdict := Accepted(difficulty);
    }

    /** `shutdown`: later blocks are still taken but no longer saved. */
    method Shutdown()
      requires Valid()
      modifies db, randomX
      ensures Valid() && db.dir == old(db.dir) && !randomX.initialized
      ensures State() == old(State()).(disk := old(State()).disk.(durable := false))
    {
      db.Close();
      randomX.Shutdown();
    }
  }
}
