/** What the node's operations do, in the fields and bytes of blocks, records and transactions. */
module NodeContract {
  import opened Words
  import opened CryptonoteTypes
  import opened ProofOfWork
  import opened TxPool
  import opened Storage
  import opened Hex
  import opened Chain
  import opened ChainLaws
  import opened ChainConsequences

  // ----- genesis -----

  /** 00 01 02 and 29 zeros. */
  function GenesisBytes(): (h: Hash)
    ensures h[0] == 0 && h[1] == 1 && h[2] == 2 && forall i :: 3 <= i < 32 ==> h[i] == 0
  {
    [0, 1, 2] + seq<u8>(29, _ => 0)
  }

  lemma GenesisHash()
    ensures GenesisBlock().hash == GenesisBytes()
  {
  }

  /** A first start over a directory without blocks: one block, given field by field, at cumulative
      difficulty one. */
  lemma GenesisExactly(disk: Disk)
    requires Bytes(disk.blocksFile) == []
    ensures Boot(disk).timestamps == [1788461926] && Boot(disk).cumulative == [1] && |Boot(disk).blocks| == 1
    ensures var b := Boot(disk).blocks[0];
            && b.majorVersion == 1 && b.minorVersion == 0 && b.timestamp == 1788461926 && b.nonce == 10001
            && (forall i :: 0 <= i < 32 ==> b.prevId[i] == 0) && b.hash == GenesisBytes() && b.txHashes == []
            && b.minerTx.vin == [] && b.minerTx.vout == [] && b.minerTx.version == 0
  {
    BootCreates(disk);
    GenesisHash();
  }

  /** And its record, where saves reach the disk: height 0, difficulty 1. */
  lemma GenesisRecordExactly(disk: Disk)
    requires Bytes(disk.blocksFile) == []
    ensures Boot(disk).disk.keysFile == disk.keysFile && Boot(disk).disk.durable == disk.durable
    ensures disk.durable ==>
              Boot(disk).disk.blocksFile == Present(EncodeRecord(Record(0, 1788461926, 10001, 1, GenesisBytes())))
    ensures !disk.durable ==> Boot(disk).disk.blocksFile == disk.blocksFile
  {
    hide EncodeRecord;
    BootCreates(disk);
    GenesisHash();
    assert RecordOf(GenesisBlock(), 0, 1) == Record(0, 1788461926, 10001, 1, GenesisBytes());
  }

  /** The first block after genesis must name those 32 bytes, and any other name is what it is rejected for. */
  lemma FirstParent(disk: Disk, b: Block, now: u64)
    requires Bytes(disk.blocksFile) == []
    ensures Judge(Boot(disk), b, now).WrongParent? <==> b.prevId != GenesisBytes()
  {
    hide CurrentDifficulty, PowHash;
    BootCreates(disk);
    GenesisHash();
  }

  // ----- add_new_block -----

  /** The verdict in full: the first rule a block breaks, in the order of the program, or acceptance, with the
      difficulty once that has been computed. */
  lemma JudgeExactly(n: Node, b: Block, now: u64)
    requires InStep(n)
    ensures n.blocks == [] <==> Judge(n, b, now).NoGenesis?
    ensures n.blocks != [] ==>
              var top, latest := n.blocks[|n.blocks| - 1], (now + 7200) % 0x1_0000_0000_0000_0000;
              var d := CurrentDifficulty(n);
              var v := Judge(n, b, now);
              && (v.WrongParent? <==> b.prevId != top.hash)
              && (v.StaleTimestamp? <==> b.prevId == top.hash && b.timestamp <= top.timestamp)
              && (v.FutureTimestamp? <==> b.prevId == top.hash && b.timestamp > top.timestamp && b.timestamp > latest)
              && (v == WeakWork(d) <==>
                    b.prevId == top.hash && top.timestamp < b.timestamp <= latest && !WorkMet(b.hash, d))
              && (v == Accepted(d) <==>
                    b.prevId == top.hash && top.timestamp < b.timestamp <= latest && WorkMet(b.hash, d))
  {
    hide CurrentDifficulty, PowHash, MeetsTarget, PowValue;
    PowDecision(b.hash, CurrentDifficulty(n));
  }

  /** The number in bytes 1 to 7 of the hash, each with seven times its position added, times the difficulty
      stays within 64 bits. */
  predicate WorkMet(hash: Hash, difficulty: nat) {
    difficulty > 0 && PowValue(hash) * difficulty <= 0xFFFF_FFFF_FFFF_FFFF
  }

  /** The new state in full: an accepted block adds one entry to each vector and, where saves reach the disk,
      one record to the log; its transactions leave the pool; the next epoch is asked for 64 blocks ahead.
      The spent key images and the key-image list stay as they are, and after a rejection everything does. */
  lemma StepExactly(n: Node, b: Block, now: u64)
    requires InStep(n)
    ensures !Judge(n, b, now).Accepted? ==> Step(n, b, now) == n
    ensures Judge(n, b, now).Accepted? ==>
              var r, d, size := Step(n, b, now), CurrentDifficulty(n), |n.blocks|;
              && r.blocks == n.blocks + [b] && r.timestamps == n.timestamps + [b.timestamp]
              && |r.cumulative| == size + 1 && r.cumulative[..size] == n.cumulative
              && r.cumulative[size] == (n.cumulative[size - 1] as int + d) % 0x1_0000_0000_0000_0000
              && r.spent == n.spent && r.pool == Without(n.pool, b.txHashes)
              && r.requested == n.requested + (if (size + 64) % 1440 == 0 then [(size + 1) / 1440 + 1] else [])
              && r.disk.keysFile == n.disk.keysFile && r.disk.durable == n.disk.durable
    ensures Judge(n, b, now).Accepted? && !n.disk.durable ==> Step(n, b, now).disk == n.disk
    ensures Judge(n, b, now).Accepted? && n.disk.durable ==>
              var added := EncodeRecord(Record(U64(|n.blocks|), b.timestamp, b.nonce, CurrentDifficulty(n), b.hash));
              Step(n, b, now).disk.blocksFile == Present(Bytes(n.disk.blocksFile) + added)
  {
    hide Judge, CurrentDifficulty, EncodeRecord, Without;
    if Judge(n, b, now).Accepted? {
      AcceptedMeans(n, b, now);
    }
  }

  // ----- the log in bytes -----

  /** Where a number of n bytes stands in a log, lowest byte first. */
  predicate NumberAt(log: seq<u8>, at: nat, n: nat, x: nat)
    requires at + n <= |log|
  {
    forall k :: 0 <= k < n ==> log[at + k] == (x / Pow(256, k)) % 256
  }

  lemma RecordAtByte(records: seq<Record>, i: nat)
    requires i < |records|
    ensures EncodeLog(records)[60 * i..60 * i + 60] == EncodeRecord(records[i])
    decreases i
  {
    hide EncodeRecord;
    if i > 0 {
      RecordAtByte(records[1..], i - 1);
      var log, head := EncodeLog(records), EncodeRecord(records[0]);
      assert log[60..] == EncodeLog(records[1..]);
      assert log[60 * i..60 * i + 60] == log[60..][60 * (i - 1)..60 * (i - 1) + 60];
    }
  }

  /** The log of a chain in bytes: block i is at byte 60 i, as its height, timestamp, nonce and difficulty,
      lowest byte first, and the bytes of its hash. */
  lemma LogInBytes(n: Node, i: nat)
    requires ChainInv(n) && LogHolds(n) && i < |n.blocks|
    ensures var log := Bytes(n.disk.blocksFile);
            && |log| == 60 * |n.blocks|
            && NumberAt(log, 60 * i, 8, i % 0x1_0000_0000_0000_0000) && NumberAt(log, 60 * i + 8, 8, n.timestamps[i])
            && NumberAt(log, 60 * i + 16, 4, n.blocks[i].nonce)
            && NumberAt(log, 60 * i + 20, 8, DifficultyAt(n.timestamps, i))
            && log[60 * i + 28..60 * i + 60] == n.blocks[i].hash
  {
    hide ChainInv, LogHolds, DifficultyAt, EncodeRecord, NumberAt;
    RecordOnDisk(n, i);
    var height: u64 := i % 0x1_0000_0000_0000_0000;
    RecordInLog(Bytes(n.disk.blocksFile), 60 * i,
                Record(height, n.timestamps[i], n.blocks[i].nonce, DifficultyAt(n.timestamps, i), n.blocks[i].hash));
  }

  lemma RecordOnDisk(n: Node, i: nat)
    requires ChainInv(n) && LogHolds(n) && i < |n.blocks|
    ensures InStep(n) && |Bytes(n.disk.blocksFile)| == 60 * |n.blocks|
    ensures Bytes(n.disk.blocksFile)[60 * i..60 * i + 60]
         == EncodeRecord(Record(i % 0x1_0000_0000_0000_0000, n.timestamps[i], n.blocks[i].nonce,
                                DifficultyAt(n.timestamps, i), n.blocks[i].hash))
  {
    hide DifficultyAt, CumulativeOf, EncodeLog, Records, EncodeRecord;
    RecordsAt(n.blocks, n.timestamps, i);
    RecordAtByte(Records(n.blocks, n.timestamps), i);
  }

  lemma RecordInLog(log: seq<u8>, at: nat, r: Record)
    requires at + 60 <= |log| && log[at..at + 60] == EncodeRecord(r)
    ensures NumberAt(log, at, 8, r.height) && NumberAt(log, at + 8, 8, r.timestamp)
    ensures NumberAt(log, at + 16, 4, r.nonce) && NumberAt(log, at + 20, 8, r.difficulty)
    ensures log[at + 28..at + 60] == r.hash
  {
    hide EncodeRecord, Pow;
    forall k | 0 <= k < 60 ensures log[at + k] == EncodeRecord(r)[k] {
      assert log[at..at + 60][k] == log[at + k];
    }
    forall k | 0 <= k < 8
      ensures log[at + k] == (r.height / Pow(256, k)) % 256
      ensures log[at + 8 + k] == (r.timestamp / Pow(256, k)) % 256
      ensures log[at + 20 + k] == (r.difficulty / Pow(256, k)) % 256
      ensures k < 4 ==> log[at + 16 + k] == (r.nonce / Pow(256, k)) % 256
    {
      RecordLayout(r, k);
    }
    forall k | 0 <= k < 32 ensures log[at + 28 + k] == r.hash[k] {
      RecordLayout(r, k);
    }
  }

  // ----- init -----

  /** A start over a block log with a chain before or in it: the log's records are put behind what was there
      and the list's lines join the spent images. */
  lemma StartLoadsExactly(n: Node)
    requires n.disk.blocksFile.Present? && (n.blocks != [] || DecodeLog(Bytes(n.disk.blocksFile)) != [])
    ensures var records, r := DecodeLog(Bytes(n.disk.blocksFile)), Start(n);
            && r.pool == n.pool && r.requested == n.requested && r.disk == n.disk
            && r.spent == n.spent + NonEmptyLines(Bytes(n.disk.keysFile))
            && |r.blocks| == |n.blocks| + |records| && r.blocks[..|n.blocks|] == n.blocks
            && r.timestamps == n.timestamps + LoadedTimestamps(records)
            && r.cumulative == n.cumulative + LoadedCumulative(records)
    ensures var records, r := DecodeLog(Bytes(n.disk.blocksFile)), Start(n);
            forall i :: 0 <= i < |records| ==> r.blocks[|n.blocks| + i] == LoadedBlock(records[i])
  {
    hide DecodeLog, NonEmptyLines, LoadedBlock;
  }

  /** Any other start: the genesis block is put behind what was there, and the list is read only if there is a
      block log. */
  lemma StartCreatesExactly(n: Node)
    requires n.disk.blocksFile.Absent? || (n.blocks == [] && DecodeLog(Bytes(n.disk.blocksFile)) == [])
    ensures var r := Start(n);
            && r.pool == n.pool && r.requested == n.requested && r.disk.keysFile == n.disk.keysFile
            && r.blocks == n.blocks + [GenesisBlock()] && r.timestamps == n.timestamps + [1788461926]
            && r.cumulative == n.cumulative + [1]
            && r.spent == n.spent + (if n.disk.blocksFile.Present? then NonEmptyLines(Bytes(n.disk.keysFile)) else {})
  {
    hide DecodeLog, NonEmptyLines, EncodeRecord, GenesisBlock;
  }

  // ----- verify_transaction and the spent images -----

  /** Verification in the fields of a transaction. */
  lemma VerifiesExactly(spent: set<string>, tx: Transaction)
    ensures Verifies(spent, tx) <==>
            && |tx.vin| > 0 && |tx.vout| > 0 && tx.rct.kind == 6 && |tx.rct.bulletproofPlus| > 0 && |tx.rct.clsag| > 0
            && forall i :: 0 <= i < |tx.vin| ==>
                 |tx.vin[i].keyOffsets| == 16 && HashHex(tx.vin[i].keyImage) !in spent
  {
    WellFormedExactly(tx);
  }

  /** A submitted block, whatever its verdict, leaves the spent images alone. */
  lemma StepKeepsSpent(n: Node, b: Block, now: u64)
    requires InStep(n)
    ensures Step(n, b, now).spent == n.spent
  {
    hide Judge;
    StepExactly(n, b, now);
  }

  /** So does a whole process. */
  lemma {:induction false} ProcessKeepsSpent(n: Node, events: seq<Event>)
    requires InStep(n) && NoRestarts(events)
    ensures After(n, events).spent == n.spent
  {
    hide Step, Judge;
    if events != [] {
      var init, e := events[..|events| - 1], Last(events);
      ProcessKeepsSpent(n, init);
      assert e.Submit?;
      StepKeepsSpent(After(n, init), e.block, e.now);
    }
  }

  lemma SameListSameSpent(a: Disk, b: Disk)
    requires a == b
    ensures Boot(a).spent == Boot(b).spent
  {
  }

  /** Alike nodes with the same spent images keep them the same under every history, restarts included. */
  lemma {:induction false} AlikeKeepSpent(a: Node, b: Node, events: seq<Event>)
    requires Alike(a, b) && a.spent == b.spent
    ensures After(a, events).spent == After(b, events).spent
  {
    hide Step, Judge, Boot, Alike;
    AlikeInStep(a, b);
    if events != [] {
      var init := events[..|events| - 1];
      AlikeKeepSpent(a, b, init);
      AlikeRuns(a, b, init);
      match Last(events)
      case Submit(block, now) =>
        StepKeepsSpent(After(a, init), block, now);
        StepKeepsSpent(After(b, init), block, now);
      case Restart =>
        AlikeInStep(After(a, init), After(b, init));
    }
  }

  lemma AlikeInStep(a: Node, b: Node)
    requires Alike(a, b)
    ensures InStep(a) && InStep(b) && a.disk == b.disk
  {
  }

  /** An image listed when a process starts over a chain stays spent through every block of that process: no
      transaction that uses it is verified, however well formed. */
  lemma ListedStaysSpent(n: Node, events: seq<Event>, tx: Transaction, i: nat)
    requires ChainInv(n) && LogHolds(n) && NoRestarts(events) && i < |tx.vin|
    requires HashHex(tx.vin[i].keyImage) in NonEmptyLines(Bytes(n.disk.keysFile))
    ensures !Verifies(After(Boot(n.disk), events).spent, tx)
  {
    hide Boot, After, ChainInv, LogHolds;
    ProcessKeepsSpent(Boot(n.disk), events);
    BootVectors(n);
  }

  /** With a list of saved images: at every point of the process exactly the complete transactions with rings
      of 16 and none of the saved images are verified. */
  lemma SavedStaySpent(n: Node, events: seq<Event>, images: seq<Hash>, tx: Transaction)
    requires ChainInv(n) && LogHolds(n) && NoRestarts(events) && n.disk.keysFile == Present(KeyFile(images))
    ensures Verifies(After(Boot(n.disk), events).spent, tx) <==>
            && |tx.vin| > 0 && |tx.vout| > 0 && tx.rct.kind == 6 && |tx.rct.bulletproofPlus| > 0 && |tx.rct.clsag| > 0
            && forall i :: 0 <= i < |tx.vin| ==> |tx.vin[i].keyOffsets| == 16 && tx.vin[i].keyImage !in images
  {
    hide Boot, After, ChainInv, LogHolds, KeyFile;
    ProcessKeepsSpent(Boot(n.disk), events);
    BootVectors(n);
    SavedImagesAreSpent(images, tx);
    WellFormedExactly(tx);
  }
}
