/** Blocks and transactions (src/cryptonote_core/cryptonote_basic.h). */
module CryptonoteTypes {
  import opened Words

  datatype TxInput = TxInput(amount: u64, keyOffsets: seq<u64>, keyImage: Hash)

  datatype TxOutput = TxOutput(amount: u64, key: Hash)

  datatype RctSignatures = RctSignatures(
    kind: u8,
    fee: u64,
    pseudoOuts: seq<Hash>,
    bulletproofPlus: seq<u8>,
    clsag: seq<u8>)

  datatype Transaction = Transaction(
    version: u8,
    unlockTime: u64,
    vin: seq<TxInput>,
    vout: seq<TxOutput>,
    extra: seq<u8>,
    rct: RctSignatures,
    hash: Hash)

  datatype Block = Block(
    majorVersion: u8,
    minorVersion: u8,
    timestamp: u64,
    prevId: Hash,
    nonce: u32,
    minerTx: Transaction,
    txHashes: seq<Hash>,
    hash: Hash)

  /** A value-initialised transaction. */
  function EmptyTransaction(): Transaction {
    Transaction(0, 0, [], [], [], RctSignatures(0, 0, [], [], []), ZeroHash())
  }

  /** A value-initialised block. */
  function EmptyBlock(): Block {
    Block(0, 0, 0, ZeroHash(), 0, EmptyTransaction(), [], ZeroHash())
  }
}
