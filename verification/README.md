# RandomLite consensus prototype: a Dafny model

The `src/` tree of RandomLite (XRL) holds a small proof-of-work node: a chain with a difficulty
retarget, a memory pool, an emission schedule, a wallet that replays the chain, and an append-only
block log. This project models that node and proves what its runs keep.

| file | contents |
|---|---|
| `Words.dfy` | fixed-width words, products and powers, little-endian bytes, bitwise OR and XOR |
| `Doubles.dfy` | IEEE 754 binary64 arithmetic on non-negative numbers, and its relative error |
| `CryptonoteTypes.dfy` | blocks and transactions |
| `Difficulty.dfy` | the retarget, as a method and as the function it computes |
| `StepClampLaws.dfy`, `DifficultyLaws.dfy`, `DifficultyTrends.dfy` | the step limit, locality and range, and direction of the retarget |
| `ProofOfWork.dfy` | the XOR-fold hash, the target test, and their composition |
| `Hex.dfy` | hexadecimal text of 32-byte values |
| `TxPool.dfy`, `TxPoolLaws.dfy` | the memory pool, its invariant and its block template |
| `Storage.dfy` | the record codec, file streams and the database class |
| `Emission.dfy` | the reward schedule |
| `Wallet.dfy` | rescan and transfers |
| `Chain.dfy` | the node's state and steps as values |
| `Blockchain.dfy` | the node as a class that carries those steps out in place |
| `ChainLaws.dfy` | invariants over runs, restarts and links |
| `ChainDifficulty.dfy` | the difficulties of a chain: their range, their pace, the runaway and where it ends |
| `ChainConsequences.dfy` | acceptance, seeds, mempool and wallet on the chain |
| `NodeContract.dfy` | the node's operations in the fields and bytes of blocks, records and transactions |
| `NodeHistory.dfy` | histories of blocks, transactions, removals, shutdowns and new starts in any order |

`dafny verify dfyconfig.toml` checks everything.

## How the node is modelled

Objects whose methods update their fields are classes (`TxMemoryPool`, `PersistentDatabase`,
`DataDirectory`, `InputStream`, `RandomXManager`, `Wallet`, `Blockchain`); loops are loops. Each such
method is proved equal to a function of the old state, and the laws are about those functions: single
steps, then histories of submitted blocks and restarts, of pool calls, and of transfer requests. What
those functions compute is also stated in raw fields, bytes and numbers (the lemmas named `...Exactly`,
`...Fields`, `...Layout` and the examples), so that no definition carries its own meaning.

Longer functions of the program are cut into methods with contracts of their own: `SumSolveTimes`,
`ScaleWork`, `AnchorToEpoch`, `LimitStep`, `ReadRecord`, `ReadRecords`, `ReadLines`, `ReplayRewards`,
`CommitGenesis`, `MeetsWork` and `Commit`.

Every unsigned operation that can wrap wraps explicitly. A `double` is a real number and every operation
on doubles is followed by rounding to 53 significant bits, to nearest with ties to even. A cast of a
double that does not fit in 64 bits, undefined in C++, gives a word of which nothing is known
(`OutOfRange`), so no law rests on it: laws that need the casts to stay in range say so (`CastsFit`,
`SteadyFits`). The clock is an argument. Whether files can
be opened for appending is a field of the data directory, because the node ignores a failed save. The
order that `std::sort` gives to equal fees is left open, so the pool laws hold for every order.

Where the code and its documentation differ, the model follows the code:

- The window is 100 blocks; the advertised 720-block window (`DIFFICULTY_WINDOW_V2`, README.md:73) is
  passed to the retarget and never read.
- The retarget multiplies by the weighted solve times and does not divide by the window length, so slow
  blocks raise the difficulty. The check for slow blocks in tests/test_consensus_tdd.cpp:63-81 expects
  a decrease; `SlowBlocksRaiseDifficulty` shows 5750 instead of a value below 5000. When a steady window
  does lower the difficulty, `SteadyWindowFallsExactly` says: a full one only when all its timestamps
  are equal, one of n < 100 intervals when n times the spacing (taken as 1 to 900 s) is below 150 s
  (`ShortWindowFalls`), and any one when 115 times the difficulty no longer fits in 64 bits. At exactly
  150 s the rounding decides between the difficulty and one less (`SteadyWindowOnTarget`,
  `RoundingFalls`).
- In the long run a chain that keeps to the target or is slower runs away: from genesis the difficulty
  reaches the end of the 64-bit range before block 288 (`GenesisReachesCeiling`), and with 203 s or more
  between blocks a cast of the retarget is out of range by block 388 (`GenesisOverflows`), which leaves
  the program without defined behaviour. `EveryChainIsReal` gives the runs with these chains.
- The comment on the step clamp promises 15 % either way; `StepLimitExactly` and `FullRiseExactly` say
  for which difficulties the 64-bit arithmetic keeps that, and `ChainFits` that every chain stays where
  the limit holds, though not always where a full rise is possible.
- The wallet compares only the amount with the balance and then subtracts amount and fee;
  `CoveredExactly`, `OrderedExactly` and `ConservedExactly` say when that is sound,
  `SendingEverythingWraps` and `OrderLost` when not.
- The wallet's running total is a 64-bit word and the tail emission never ends; `NeverLowersExactly` says
  when a longer chain can show a smaller balance, and `FirstWrap` what happens then.
- The first start over a directory without a block log skips the key-image list; later starts read it
  (`FirstStartForgetsImages`).
- Coins of the genesis block are part of `get_block_reward` but of no replayed balance.

## Model

| member | source | states |
|---|---|---|
| Difficulty.SumSolveTimes | src/crypto/difficulty.cpp:24-37 | The window loop leaves in `lwma_sum` the linearly weighted sum of the clamped solve times, every product and sum taken modulo 2^64. |
| Difficulty.ScaleWork | src/crypto/difficulty.cpp:42-45 | Denominator, average and product are computed in doubles, each rounded, and the product is cast. |
| Difficulty.AnchorToEpoch | src/crypto/difficulty.cpp:47-61 | From 101 entries on the scaled value is multiplied, in doubles, by expected over actual seconds of the last hundred blocks, clamped to [1/2, 2]; with fewer entries, or with no second between them, it is kept. |
| Difficulty.LimitStep | src/crypto/difficulty.cpp:63-72 | The cap, then the floor, then the lower bound of one, with both products taken modulo 2^64; the laws of the step limit below speak about the result. |
| StepClampLaws.StepClampExactly | src/crypto/difficulty.cpp:63-72 | For every previous difficulty and raw value: up to ten the raw value counts, or one; above ten the result is the point between the two limits, computed modulo 2^64, that is nearest to the raw value, and the lower limit where wrapping turns them round. |
| StepClampLaws.StepKeepsInterior | src/crypto/difficulty.cpp:66-69 | Above ten, where 115 p fits in 64 bits: a raw value below floor(85 p / 100) gives that limit, one above floor(115 p / 100) gives that one, and any value between is returned unchanged. |
| Difficulty.NextDifficultyLwma3 | src/crypto/difficulty.cpp:10-73 | The whole retarget (bootstrap value 1, window of at most 100, scaling and epoch correction in rounded doubles, casts, step clamp, floor of one) equals `NextDifficulty`, about which the laws below speak; `window_size` has no influence. |
| DifficultyLaws.BootstrapValue | src/crypto/difficulty.cpp:16-19 | With fewer than two timestamps or cumulative difficulties the next difficulty is one. |
| Doubles.RoundNear | src/crypto/difficulty.cpp:42-45 | Rounding to a double is off by at most one part in 2^53. |
| Doubles.RoundAt | src/crypto/difficulty.cpp:42-45 | For 2^52 <= 2^k x < 2^53 rounding is to the nearest multiple of 2^-k, the even one of two. |
| Doubles.RoundAtLarge | src/crypto/difficulty.cpp:42-45 | And for 2^52 <= x / 2^k < 2^53 to the nearest multiple of 2^k. |
| Doubles.TiesToEven | src/crypto/difficulty.cpp:42-45 | A tie goes to the even neighbour. |
| Doubles.OddWordsRound | src/crypto/difficulty.cpp:43-45 | The conversion of a word above 2^53 rounds: 2^53 + 1 goes to 2^53 and 2^53 + 3 to 2^53 + 4. |
| DifficultyLaws.SolveTimeExactly | src/crypto/difficulty.cpp:29-33 | The solve time in numbers: one for no elapsed time or a step back, the elapsed time up to six targets, and six targets beyond. |
| DifficultyLaws.WeightedSumByParts | src/crypto/difficulty.cpp:24-37 | Where no solve time is clamped, the weighted sum is n times the last timestamp less the sum of the n timestamps before it. |
| DifficultyLaws.DependsOnlyOnIncrements | src/crypto/difficulty.cpp:22-45 | Two histories with the same last 100 (or fewer, at equal length) increments of timestamps and of cumulative difficulties, modulo 2^64, get the same next difficulty, whatever else they contain. |
| DifficultyLaws.WindowLocality | src/crypto/difficulty.cpp:22-61 | With at least 101 entries the result is that of the last 101 entries alone. |
| DifficultyLaws.ShiftInvariance | src/crypto/difficulty.cpp:25-40 | Adding one constant to all timestamps and another to all cumulative difficulties, even across the wrap at 2^64, changes nothing. |
| DifficultyLaws.WeightedSumRange | src/crypto/difficulty.cpp:27-37 | For i turns of the loop the sum lies between `least` and 6T times i(i+1)/2, where `least` is any lower bound on the solve times (1 for arbitrary timestamps). |
| DifficultyLaws.ScaleNear | src/crypto/difficulty.cpp:39-45 | With K = 2^49: while the first cast is in range, the scaled value q satisfies K q N T <= (K + 1) W S and (K - 1) W S < K (q + 1) N T, for work W, weighted sum S, N = n(n+1)/2 and block time T; and the cast is in range when (K + 1) W S < K 2^64 N T and only when (K - 1) W S < K 2^64 N T. |
| DifficultyLaws.DoubleStepsRound | src/crypto/difficulty.cpp:42-58 | The denominator, the scaled value, the clamped factor and the corrected value are all doubles. |
| DifficultyLaws.OnlyDoublesCount | src/crypto/difficulty.cpp:43-45 | The scaled value depends on the work and on the weighted sum only through their conversions to double. |
| DifficultyLaws.RawEnvelope | src/crypto/difficulty.cpp:24-61 | For any timestamps, while 13 W < 2^64, both casts are in range and the value before the step clamp is at least W / (2T) - 1 and at most 12 W, up to four parts in 2^49. |
| DifficultyLaws.RawRange | src/crypto/difficulty.cpp:39-61 | While both casts are in range and every solve time in the window is at least m, the value before the step clamp lies between W m / (2T) - 1 and 12 W, up to four parts in 2^49. |
| DifficultyLaws.CorrectRange | src/crypto/difficulty.cpp:50-60 | While the second cast is in range the epoch correction moves a value by at most a factor of two either way, up to rounding; and it is in range when twice the value fits with one part in 2^49 to spare. |
| DifficultyLaws.CorrectScales | src/crypto/difficulty.cpp:54-60 | Between half and twice the expected time the corrected value is the value times expected over actual, rounded down, up to one part in 2^49. |
| DifficultyLaws.CorrectDoubles | src/crypto/difficulty.cpp:54-60 | A window that took at most half of the expected time doubles values of up to 2^52 exactly. |
| DifficultyLaws.CorrectHalves | src/crypto/difficulty.cpp:54-60 | A window that took at least twice the expected time never takes the second cast out of range. |
| DifficultyLaws.OnlyDoublesCorrect | src/crypto/difficulty.cpp:54-58 | The corrected value depends on its three words only through their conversions to double. |
| StepClampLaws.StepLimitExactly | src/crypto/difficulty.cpp:63-70 | For a previous difficulty above ten, the advertised limit of 85 % to 115 % holds for every raw value if and only if 85 times that difficulty fits in 64 bits. |
| StepClampLaws.FullRiseExactly | src/crypto/difficulty.cpp:64-69 | The full 15 % rise is reachable if and only if 115 times the previous difficulty fits in 64 bits. |
| StepClampLaws.WrappedCapFalls | src/crypto/difficulty.cpp:64-69 | Where 115 times the previous difficulty wraps and 85 times it does not, the next difficulty is floor(85 p / 100) for every raw value: the cap lies below the floor. |
| StepClampLaws.FallsExactly | src/crypto/difficulty.cpp:63-72 | A step lowers the difficulty if and only if that is above one and either 115 times it no longer fits in 64 bits or the raw value is below it. |
| StepClampLaws.DifficultyEnvelope | src/crypto/difficulty.cpp:63-72 | Over k steps with arbitrary raw values, 100^k d_k <= 115^k d_0 and 100^k (5 d_k + 33) >= 85^k (5 d_0 + 33), while the clamp is in force. |
| DifficultyTrends.SteadyWindowRises | src/crypto/difficulty.cpp:22-72 | With constant difficulty above ten and any constant spacing of at least one second over the last 100 blocks, the next difficulty is exactly floor(115 D / 100), while the casts are in range and 115 D fits in 64 bits. |
| DifficultyTrends.SteadyWindowFallsExactly | src/crypto/difficulty.cpp:22-72 | For a steady window of any length (equal spacings below 2^63, equal difficulties D), with the casts in range or 115 D past 64 bits, and n times the clamped spacing not exactly 150 when n < 100: the next difficulty is below D if and only if D > 1 and either 115 D does not fit in 64 bits, or the window has n < 100 intervals and n times the spacing clamped to 1..900 is below 150, or the window is full and the spacing is zero. |
| DifficultyTrends.SteadyWindowOnTarget | src/crypto/difficulty.cpp:42-45 | Where n < 100 times the clamped spacing is exactly 150, the next difficulty is D or D - 1, for D below 2^48. |
| DifficultyTrends.RoundingFalls | src/crypto/difficulty.cpp:42-45 | Two blocks 150 s apart with difficulty 55 are followed by 54: 55 / 150 * 150 is below 55 in doubles. |
| DifficultyTrends.RoundingKeeps | src/crypto/difficulty.cpp:42-45 | Two blocks 150 s apart with difficulty 20 are followed by 20: 20 / 150 * 150 is below 20 and rounds to it. |
| DifficultyTrends.SteadyFitsExactly | src/crypto/difficulty.cpp:45-58 | For spacings below 2^57 and 115 D < 2^64, and but for a sliver of one part in 2^49 on either side, both casts of a steady window of n intervals and clamped spacing c are in range if and only if n D c < 150 * 2^64. |
| DifficultyTrends.SteadyWindowNeverFalls | src/crypto/difficulty.cpp:22-72 | A full window of 100 equal spacings of at least one second never lowers the difficulty, whatever it is, while the casts are in range and 115 D fits in 64 bits. |
| DifficultyTrends.SteadyWindowValue | src/crypto/difficulty.cpp:22-72 | The retarget of a steady window in closed form: the step clamp of the work n D scaled, in doubles, by the weight c n(n+1)/2, c being the spacing clamped to 1..900, and corrected by the hundred-block anchor when the window is full; its casts are in range if and only if those of the closed form are. |
| DifficultyTrends.ShortWindowFalls | src/crypto/difficulty.cpp:22-72 | Three blocks of difficulty 1000, 50 s apart, lower the difficulty to 850. |
| DifficultyTrends.SlightlySlow | src/crypto/difficulty.cpp:10-72 | Two blocks 151 s apart with difficulty 1000 are followed by 1006, a value between the limits. |
| DifficultyTrends.UnevenWindow | src/crypto/difficulty.cpp:10-72 | Intervals of 50 s and 100 s and difficulties 90 and 110 are followed by 111: weights one and two, work 200, denominator 450. |
| DifficultyTrends.SlowBlocksRaiseDifficulty | tests/test_consensus_tdd.cpp:63-81 | The history of the repository's slow-block check (121 blocks of difficulty 5000, 500 s apart) gives 5750: the intended decrease does not happen. |
| DifficultyTrends.Ratchet | src/crypto/difficulty.cpp:39-70 | If no solve time in the window is below 60 s, the last ten difficulties grew by at most 15 % each and the casts are in range, the next difficulty is the full 15 % step; the hundred increments must sum to less than 2^64, the cumulative counter itself may wrap. |
| ProofOfWork.RandomXManager.constructor | src/crypto/randomx-monero.h:30-33 | A manager starts uninitialised with no epoch asked for. |
| ProofOfWork.RandomXManager.InitDataset | src/crypto/randomx-monero.cpp:17-25 | Initialisation sets the flag and nothing else. |
| ProofOfWork.RandomXManager.PreallocateNextEpoch | src/crypto/randomx-monero.cpp:27-34 | A request is appended to the trace of requested epochs. |
| ProofOfWork.RandomXManager.CalculateHash | src/crypto/randomx-monero.cpp:36-55 | For inputs of any length the caller's buffer ends up holding the XOR fold with its first byte zero; the manager is initialised on the way. |
| ProofOfWork.RandomXManager.Shutdown | src/crypto/randomx-monero.cpp:57-61 | Shutdown clears the initialised flag. |
| ProofOfWork.FoldOfShortInput | src/crypto/randomx-monero.cpp:46-52 | For up to 32 input bytes, output byte i is input byte i plus 7i modulo 256, and zero where there is no input, before the first byte is cleared. |
| ProofOfWork.PowHashIsParity | src/crypto/randomx-monero.cpp:45-53 | For inputs of any length: byte 0 is zero, and bit k of byte i > 0 is the parity of bit k of input byte j plus 7j over all j congruent to i modulo 32. |
| ProofOfWork.CheckPowHash | src/crypto/difficulty.cpp:75-84 | The shift-and-OR loop and the division accept exactly when the difficulty is positive and the little-endian number of the first eight bytes times the difficulty is at most 2^64 - 1. |
| ProofOfWork.TargetExactly | src/crypto/difficulty.cpp:75-84 | A digest passes exactly when the difficulty is positive and the number of its first eight bytes, lowest first, times the difficulty is at most 2^64 - 1. |
| ProofOfWork.ShiftedByte | src/crypto/difficulty.cpp:76-79 | OR-ing byte i, shifted by 8i bits, into an accumulator of i bytes gives the little-endian number of i + 1 bytes. |
| Words.BitXorAt | src/crypto/randomx-monero.cpp:51-51 | A bit of the XOR is set exactly where one of the two bits is. |
| Words.BitOrAt | src/crypto/difficulty.cpp:78-78 | A bit of the OR is clear exactly where both bits are. |
| ProofOfWork.PowDecision | src/crypto/randomx-monero.cpp:46-53 | Fold, byte loop and target test composed: a block hash x is accepted at d if and only if d > 0 and V*d <= 2^64 - 1, V being the sum of ((x[i] + 7i) mod 256) 256^i for i = 1..7. |
| ProofOfWork.PowValueInBytes | src/crypto/difficulty.cpp:76-79 | V in numbers: the sum of (x[i] + 7i) mod 256 times 256^i for i = 1..7. |
| ProofOfWork.PowMonotone | src/crypto/difficulty.cpp:81-83 | Acceptance at d carries over to every smaller positive difficulty and to every hash with the same bytes 1 to 7. |
| Hex.HashToHex | src/crypto/crypto.cpp:92-98 | The formatting loop yields two lower-case digits a byte. |
| Hex.HexToHash | src/crypto/crypto.cpp:100-108 | The parsing loop yields the array of parsed bytes for every text, short or malformed ones included. |
| Hex.HexText | src/crypto/crypto.cpp:92-98 | The text has 64 characters, the digits of the high and the low half of each byte in order, from 0123456789abcdef. |
| Hex.ParsedBytes | src/crypto/crypto.cpp:100-108 | For a text of any length byte i is read from characters 2i and 2i + 1, and is zero when these are not both there. |
| Hex.ParsesAs | src/crypto/crypto.cpp:103-105 | What two characters read as: two digits of either case as 16 v + w; a digit and anything else as the digit; white space or plus before a digit is skipped, minus negates modulo 256; anything else is zero. |
| Hex.HexRoundTrip | src/crypto/crypto.cpp:92-108 | Parsing the text of a value gives the value back. |
| Hex.TextRoundTripExactly | src/crypto/crypto.cpp:92-108 | Formatting a parsed text gives the text back if and only if it is 64 lower-case hexadecimal digits. |
| Hex.LookupByText | src/cryptonote_core/blockchain.cpp:90-94 | Looking up the text of a value in a set of texts of values is looking up the value. |
| TxPool.TxMemoryPool.constructor | src/cryptonote_core/tx_pool.h:20-21 | A pool starts empty. |
| TxPool.TxMemoryPool.AddTx | src/cryptonote_core/tx_pool.cpp:7-59 | The outcome is the first rule broken in program order; an admitted transaction gives some permutation, sorted by descending fee, of the old entries plus the new one; any other outcome leaves the pool unchanged. |
| TxPool.AdmittedExactly | src/cryptonote_core/tx_pool.cpp:10-42 | A transaction is admitted if and only if it is well formed with ring size 16 and shares neither hash nor key image with a pool entry. |
| TxPool.AdmissionExactly | src/cryptonote_core/tx_pool.cpp:10-42 | The outcome of an admission in the fields of the transaction: each of the five rejections, in the order of the program and with the first bad input deciding between ring size and key image, and admission for complete transactions of type 6 with rings of 16, unknown hash and no taken key image. |
| TxPool.NewEntryFields | src/cryptonote_core/tx_pool.cpp:44-48 | The new entry carries the transaction, its fee, the time of the call and the size 1800. |
| TxPool.TxMemoryPool.RemoveTxs | src/cryptonote_core/tx_pool.cpp:61-69 | The pool becomes the entries with unlisted hashes, in their old order. |
| TxPool.WithoutJoins | src/cryptonote_core/tx_pool.cpp:61-69 | Removal from two pools in a row is removal from each in the same order. |
| TxPool.WithoutOne | src/cryptonote_core/tx_pool.cpp:61-69 | A single entry goes exactly when its hash is listed. |
| TxPool.TxMemoryPool.GetBlockTemplateTxs | src/cryptonote_core/tx_pool.cpp:71-83 | The greedy loop returns the transactions of the prefix at which the running size first exceeds the limit. |
| TxPoolLaws.AddKeepsInv | src/cryptonote_core/tx_pool.cpp:7-59 | An `add_tx` call, admitted or not and whatever order ties get, keeps the pool invariant. |
| TxPoolLaws.AdditionExactly | src/cryptonote_core/tx_pool.cpp:44-56 | An admitted transaction adds exactly one entry, with its fee, the time of the call and size 1800, and the fees descend; a rejected one changes nothing. |
| TxPoolLaws.RemovalExactly | src/cryptonote_core/tx_pool.cpp:61-69 | Removal keeps each entry exactly as often as before if its hash is unlisted and drops it otherwise. |
| TxPoolLaws.RemoveKeepsInv | src/cryptonote_core/tx_pool.cpp:61-69 | A `remove_txs` call keeps the pool invariant. |
| TxPoolLaws.PoolRunInvariant | src/cryptonote_core/tx_pool.cpp:7-69 | After every sequence of admissions and removals the entries are sorted by descending fee, well formed with ring size 16, pairwise distinct in hash and disjoint in key images. |
| TxPoolLaws.PoolEntriesExactly | src/cryptonote_core/tx_pool.cpp:10-56 | Every entry of a reachable pool has inputs, outputs, type 6, both payloads and rings of 16, its own fee and size 1800; any two are in order of fee and share neither hash nor key image. |
| TxPoolLaws.TemplateExactly | src/cryptonote_core/tx_pool.cpp:71-83 | The template is the first min(size, max_bytes / 1800) entries if and only if the pool or the limit is too small for the byte count to wrap. |
| TxPoolLaws.TemplateOptimal | src/cryptonote_core/tx_pool.cpp:71-83 | The template fits in the limit and no selection of pool entries that fits pays a larger total fee. |
| Storage.RecordRoundTrip | src/blockchain_db/lmdb_storage.cpp:21-25 | Decoding the 60 bytes of a saved record gives its height, timestamp, nonce, difficulty and hash back. |
| Storage.RecordLayout | src/blockchain_db/lmdb_storage.cpp:21-25 | A record in bytes: height at 0, timestamp at 8, nonce at 16, difficulty at 20, each lowest byte first, and the hash at 28. |
| Storage.TornLog | src/blockchain_db/lmdb_storage.cpp:54-76 | Loading a log of saved records cut to any length L yields exactly its first floor(L/60) records. |
| Storage.LogRoundTrip | src/blockchain_db/lmdb_storage.cpp:21-76 | Loading the concatenation of saved records yields the records. |
| Storage.InputStream.Read | src/blockchain_db/lmdb_storage.cpp:59-65 | A read delivers all bytes asked for, or what is left and fails the stream, with that smaller count; a failed stream delivers nothing, counts zero and does not move. |
| Storage.ReadRecord | src/blockchain_db/lmdb_storage.cpp:55-65 | The five reads of a turn leave a count below 32 exactly when fewer than 60 bytes are left, and otherwise deliver the record. |
| Storage.ReadRecords | src/blockchain_db/lmdb_storage.cpp:53-76 | The record loop extends the caller's vectors by the blocks, the timestamps and the running sums (modulo 2^64) of the difficulties of all whole records. |
| Storage.LoadedBlockFields | src/blockchain_db/lmdb_storage.cpp:67-70 | A loaded block has the record's timestamp, nonce and hash and is value-initialised otherwise. |
| Storage.TotalIsSum | src/blockchain_db/lmdb_storage.cpp:74-74 | The running total is the exact sum of the difficulties modulo 2^64. |
| Storage.ReplayExtends | src/blockchain_db/lmdb_storage.cpp:67-75 | Pushing records one by one appends to each vector what the records stand for, and the running total is the sum of the difficulties modulo 2^64. |
| Storage.ReadLines | src/blockchain_db/lmdb_storage.cpp:78-86 | The line loop collects exactly the non-empty lines. |
| Storage.NonEmptyLinesExactly | src/blockchain_db/lmdb_storage.cpp:78-86 | A text is collected exactly when it stands, without a newline in it and not empty, between newlines or the ends of the file. |
| Storage.PersistentDatabase.constructor | src/blockchain_db/lmdb_storage.h:15-16 | A database starts closed. |
| Storage.PersistentDatabase.Open | src/blockchain_db/lmdb_storage.cpp:8-12 | Opening remembers the directory and always succeeds. |
| Storage.PersistentDatabase.SaveBlock | src/blockchain_db/lmdb_storage.cpp:14-28 | A save on an open database over a writable directory appends exactly one encoded record; any other save changes nothing and reports failure. |
| Storage.PersistentDatabase.SaveKeyImage | src/blockchain_db/lmdb_storage.cpp:30-39 | A key image is appended as one line under the same conditions. |
| Storage.PersistentDatabase.LoadChain | src/blockchain_db/lmdb_storage.cpp:41-91 | Without an open database or a block log nothing changes, not even the key images; otherwise all four containers are extended by what the files hold. |
| Storage.PersistentDatabase.Close | src/blockchain_db/lmdb_storage.cpp:93-95 | Closing keeps the directory and stops saves. |
| Emission.RewardNeverRises | src/cryptonote_core/emission.cpp:14-34 | Above height zero the reward does not depend on the height, never rises with the coins generated and is never below the tail reward. |
| Emission.RewardExactly | src/cryptonote_core/emission.cpp:14-34 | The reward in numbers: 100 coins at height zero; above it floor((18.4 million coins - generated) / 2^20), and never less than 0.6 coins. |
| Emission.GeneratedStep | src/cryptonote_core/emission.cpp:20-31 | The exact emission starts at zero and each block adds the reward of the total before it, in numbers. |
| Emission.PhasesInOrder | src/cryptonote_core/emission.cpp:20-31 | Decay, floor and tail come in that order along the emission. |
| Emission.DecayUpper | src/cryptonote_core/emission.cpp:25-31 | With K = 2^20 and R_n the supply left after n blocks, K^n (R_n - (K-1)) <= (R_0 - (K-1)) (K-1)^n for every n. |
| Emission.DecayLower | src/cryptonote_core/emission.cpp:25-26 | While the decay lasts, K^n R_n >= R_0 (K-1)^n. |
| Emission.HalfLife | src/cryptonote_core/emission.cpp:25-31 | After j times 2^20 blocks, 2^j (R - (K-1)) <= R_0 - (K-1): every 2^20 blocks at least halve what is left. |
| Emission.EmissionSchedule | src/cryptonote_core/emission.cpp:20-31 | The decay lasts through block 3.25*2^20 and is over by 3.5*2^20; the base supply is incomplete before block 4.25*2^20 and complete by 4.5*2^20. |
| Emission.FloorEnds | src/cryptonote_core/emission.cpp:28-31 | From the end of the decay the base supply is complete within 2^20 blocks. |
| Emission.TailAfterCrossing | src/cryptonote_core/emission.cpp:20-23 | The block that completes the base supply overshoots it by less than 0.6 coins, and each later block adds exactly 0.6. |
| Emission.FitsAfter | src/wallet/wallet.cpp:83-89 | From a total below the base supply, the running total still fits in 64 bits 77,906 blocks later. |
| Emission.NoOverflow | src/wallet/wallet.cpp:83-89 | No chain of up to 4,456,448 + 77,905 blocks above genesis makes the running total overflow. |
| Emission.Overflows | src/wallet/wallet.cpp:83-89 | Every chain of at least 4,718,592 + 77,907 blocks above genesis has an exact total that does not fit in 64 bits. |
| Wallet.ReplayRewards | src/wallet/wallet.cpp:79-93 | The replay loop computes, modulo 2^64, the total of all rewards above genesis and the total of those at least ten blocks from the end. |
| Wallet.Wallet.RescanBlockchain | src/wallet/wallet.cpp:69-105 | With at least one whole record in the log the balances become those of the replay; otherwise they stay as they were; the history is untouched. |
| Wallet.RescanStep | src/wallet/wallet.cpp:83-89 | The replay in numbers: zero for genesis alone, 17,547,607,421,875 with one block more, and each further block adds the reward of the total so far modulo 2^64. |
| Wallet.RescanMaturity | src/wallet/wallet.cpp:84-93 | For n >= 10 blocks the unlocked balance is the total of the chain without its last nine blocks, even across a wrap; for fewer it is zero. |
| Wallet.ReplayIsExact | src/wallet/wallet.cpp:83-89 | The replayed running total is the exact emission as long as that fits in 64 bits. |
| Wallet.ExtensionNeverLowers | src/wallet/wallet.cpp:78-96 | While the exact total fits, a longer chain shows at least the same total and unlocked balance. |
| Wallet.ShortChainsNeverLower | src/wallet/wallet.cpp:78-96 | Up to 4,534,354 blocks neither balance ever shrinks, the total is exact and the unlocked balance is at most the total. |
| Wallet.LowersExactly | src/wallet/wallet.cpp:83-89 | One more block lowers the total shown if and only if running total plus reward exceed 2^64 - 1. |
| Wallet.NeverLowersExactly | src/wallet/wallet.cpp:78-96 | Up to n blocks no longer chain shows a smaller total than a shorter one if and only if the exact emission of n - 1 rewards fits in 64 bits. |
| Wallet.FirstWrap | src/wallet/wallet.cpp:83-89 | The block that takes the emission out of 64 bits lies between heights 4,534,354 and 4,796,499; it drops the total from within one tail reward of 2^64 to less than one tail reward, and the next reward is at least 29 times the tail reward: the schedule starts over. |
| Wallet.UnlockedNeverLowersExactly | src/wallet/wallet.cpp:84-96 | For n >= 10, no chain of up to n blocks shows a smaller unlocked balance than a shorter one if and only if the exact emission of n - 10 rewards fits in 64 bits. |
| Wallet.UnlockedExceedsExactly | src/wallet/wallet.cpp:83-96 | Up to 2^20 blocks past the wrapping block w the unlocked balance is within the total except at exactly the lengths w + 1 to w + 9. |
| Wallet.Wallet.CreateTransfer | src/wallet/wallet.cpp:107-159 | A request above the unlocked balance changes nothing; any other subtracts amount plus fee from both balances modulo 2^64, records the transfer and completes the caller's transaction. |
| Wallet.TransferExactly | src/wallet/wallet.cpp:113-156 | A request is taken exactly when the amount is within the unlocked balance; then both balances fall modulo 2^64 by amount plus the fee that the built transaction carries, 1,000,000,000, and the history gains an outgoing, unlocked entry of height 42 with amount and recipient; otherwise nothing changes. |
| Wallet.TransferTxFields | src/wallet/wallet.cpp:119-142 | The built transaction field by field: version 2, unlock time 0, one more input with decoys 100, 105, ..., 175 and a zero key image, one more output to the key 99 00 ..., type 6, fee 1,000,000,000, payloads resized to 128 and 256 bytes. |
| Wallet.TransferEntryFee | src/wallet/wallet.cpp:140-140 | The pool entry of a transfer has the fee 1,000,000,000. |
| Wallet.TransfersConserve | src/wallet/wallet.cpp:107-156 | Over every sequence of requests, unlocked balance plus recorded amounts plus fees is constant modulo 2^64, and so is total minus unlocked. |
| Wallet.LedgerCounts | src/wallet/wallet.cpp:107-156 | Over every sequence of requests, unlocked balance plus recorded amounts plus fees, as integers, grows by exactly 2^64 for each request that was accepted without its fee being covered. |
| Wallet.ConservedExactly | src/wallet/wallet.cpp:107-156 | That integer sum is unchanged by a sequence of requests if and only if each accepted request was covered, amount and fee, by the balance it met. |
| Wallet.LedgerOfHistory | src/wallet/wallet.cpp:69-159 | Over every history of transfers and rescans the integer ledger grows by 2^64 for each uncovered request and by what each rescan puts back on the unlocked balance, and by nothing else. |
| Wallet.RescanForgets | src/wallet/wallet.cpp:96-100 | Between two rescans the ledger grows by everything paid in between, on top of what the chain added: a rescan forgets what was spent. |
| Wallet.SpentTwice | src/wallet/wallet.cpp:96-146 | After a covered transfer a rescan of the same chain restores both balances, with the payment recorded. |
| Wallet.CoveredExactly | src/wallet/wallet.cpp:113-146 | An accepted transfer is paid without a wrap if and only if amount plus fee is covered; line 113 compares the amount alone. |
| Wallet.OrderedExactly | src/wallet/wallet.cpp:113-146 | An accepted transfer keeps unlocked <= total if and only if amount plus fee is covered by the unlocked balance or exceeds the total. |
| Wallet.OrderLost | src/wallet/wallet.cpp:113-146 | The failing side of that condition: sending an unlocked half of 0.01 coins leaves the unlocked balance far above the total. |
| Wallet.SendingEverythingWraps | src/wallet/wallet.cpp:113-146 | Sending the whole starting balance of 250 coins is accepted and leaves both balances at 2^64 minus the fee. |
| Wallet.FreshTransferAdmitted | src/wallet/wallet.cpp:119-142 | A transfer built on a fresh transaction enters a pool if and only if the pool knows neither its hash nor the all-zero key image. |
| Wallet.TransfersConflict | src/wallet/wallet.cpp:123-130 | All transfers carry the same key image, so a pool that holds one turns away every other. |
| Blockchain.Blockchain.constructor | src/cryptonote_core/blockchain.cpp:10-10 | A process starts with empty vectors and no data directory. |
| Blockchain.Blockchain.Init | src/cryptonote_core/blockchain.cpp:12-54 | Starting over a directory makes the state `Start` of the old one: the loaded chain if there is one, else the genesis block, saved with difficulty one. |
| Blockchain.Blockchain.CommitGenesis | src/cryptonote_core/blockchain.cpp:33-47 | Genesis is appended to the three vectors with cumulative difficulty one and saved at height zero. |
| Blockchain.Blockchain.GetCurrentDifficulty | src/cryptonote_core/blockchain.cpp:56-63 | The current difficulty is the retarget of the node's two vectors at 150 s. |
| Blockchain.Blockchain.VerifyTransaction | src/cryptonote_core/blockchain.cpp:69-101 | True exactly for well-formed transactions with ring size 16 none of whose key images, as text, is in the spent set. |
| Blockchain.Blockchain.MeetsWork | src/cryptonote_core/blockchain.cpp:133-136 | Hashing and target test of a block hash give the decision of `PowDecision`. |
| Blockchain.Blockchain.Commit | src/cryptonote_core/blockchain.cpp:142-154 | An accepted block is pushed on the three vectors, saved if saves reach the disk, its transactions leave the pool, and at the lag point the next seed epoch is asked for. |
| Blockchain.Blockchain.AddNewBlock | src/cryptonote_core/blockchain.cpp:103-160 | The verdict is the first rule broken (parent, past, future, work) or acceptance with the difficulty; the whole new state, disk and pool included, is `Step` of the old one. |
| Blockchain.Blockchain.Shutdown | src/cryptonote_core/blockchain.cpp:162-167 | Shutdown clears the hashing engine's initialised flag, and saves no longer reach the disk; nothing else changes. |
| ChainLaws.StepKeepsInv | src/cryptonote_core/blockchain.cpp:111-144 | A submitted block, accepted or not, keeps the chain invariant: vectors in step, timestamps strictly rising, cumulative difficulties those the timestamps determine, every block after the first meeting its target. |
| ChainLaws.StepExtendsOrKeeps | src/cryptonote_core/blockchain.cpp:103-148 | A rejected block leaves chain, pool, log and requests unchanged; an accepted one appends to blocks, timestamps, cumulative difficulties and log. |
| ChainLaws.StepKeepsLog | src/cryptonote_core/blockchain.cpp:141-145 | When saves reach the disk the log stays the encoding of the chain, record i carrying height i, the block's difficulty, timestamp, nonce and hash. |
| ChainLaws.BootCreates | src/cryptonote_core/blockchain.cpp:28-49 | A start over a directory with an empty or absent block log yields exactly the genesis chain and its record; key images are read only if the log file exists. |
| ChainLaws.BootVectors | src/cryptonote_core/blockchain.cpp:28-30 | A start over the log of a chain restores its timestamps and cumulative difficulties exactly, blocks with timestamp, nonce and hash only, and the listed key images. |
| ChainLaws.BootRestores | src/cryptonote_core/blockchain.cpp:28-30 | The restarted node satisfies the chain invariant, agrees with the log and is alike the old one. |
| ChainLaws.ReachableInv | src/cryptonote_core/blockchain.cpp:103-160 | After every run of submissions and restarts from a clean directory the chain invariant holds and the log holds the chain. |
| ChainLaws.HistoryDetermined | src/cryptonote_core/blockchain.cpp:130-144 | Two reachable nodes with the same timestamps have the same cumulative difficulties and the same current difficulty. |
| ChainLaws.RestartsAreTransparent | src/cryptonote_core/blockchain.cpp:28-49 | Restarts anywhere in a run change no verdict, no difficulty, no timestamp or cumulative difficulty, and no byte of the log. |
| ChainLaws.RestartedNodeBehavesAlike | src/cryptonote_core/blockchain.cpp:28-49 | A node started over the log of a running one gives the same verdicts, difficulties and log as the running one on every later history. |
| ChainLaws.ProcessExtends | src/cryptonote_core/blockchain.cpp:142-145 | Within one process earlier chains and logs are prefixes of later ones, and linked blocks stay linked. |
| ChainLaws.SizeGrows | src/cryptonote_core/blockchain.cpp:142-145 | The chain never gets shorter over any run with restarts, while saves reach the disk. |
| ChainLaws.GenesisRunLinked | src/cryptonote_core/blockchain.cpp:114-117 | Within one process from genesis every block's `prev_id` is its predecessor's hash. |
| ChainLaws.GenesisHashKept | src/blockchain_db/lmdb_storage.cpp:67-72 | After every run from a clean directory, restarts included, the first block in memory has the genesis hash. |
| ChainLaws.NewBlocksLinked | src/cryptonote_core/blockchain.cpp:114-117 | Whatever blocks a process started with, every block it adds names its predecessor. |
| ChainLaws.RestartForgetsLinks | src/blockchain_db/lmdb_storage.cpp:67-72 | Restarting a node whose first block has the genesis hash, itself restarted or not, leaves all `prev_id` fields zero; they are linked if and only if the chain is the genesis block alone. |
| ChainLaws.LinksAfterRestart | src/cryptonote_core/blockchain.cpp:28-30 | After any run from a clean directory, a restart and any further submissions: the loaded blocks name nobody, the new ones name their predecessors, and the whole chain is linked if and only if only genesis was loaded. |
| ChainLaws.SurvivesExactlyWhenDurable | src/cryptonote_core/blockchain.cpp:141-145 | After an accepted block a start over the disk finds all timestamps, cumulative difficulties and recorded block fields again if and only if saves reach the disk, since the result of the save is ignored; otherwise it finds the node before the block. |
| ChainLaws.StartsSoundExactly | src/cryptonote_core/blockchain.cpp:12-54 | Starting over the log of a chain gives a node that satisfies the chain invariant if and only if the process has no blocks yet; its other state does not matter. The process's own chain, if any, must not begin before the logged one. |
| ChainLaws.SecondInitDoubles | src/cryptonote_core/blockchain.cpp:28-30 | A second `init` of one process loads the chain again behind itself, and the timestamps no longer rise. |
| ChainConsequences.AcceptedExactly | src/cryptonote_core/blockchain.cpp:111-139 | A block is accepted if and only if it names the tip, is later than the tip and at most two hours ahead of the clock, and V*d fits in 64 bits for the current difficulty d > 0. |
| ChainConsequences.ChainCarriesWork | src/cryptonote_core/blockchain.cpp:132-139 | Every non-genesis block of a chain has difficulty at least one and a hash number that meets it. |
| ChainConsequences.EveryChainIsReal | src/cryptonote_core/blockchain.cpp:103-160 | Every strictly rising list of timestamps that begins with the genesis one is the chain of some run: blocks with a hash that passes every target are accepted at these times. |
| ChainConsequences.SlowRunOverflows | src/crypto/difficulty.cpp:45-45 | So for every constant pace from 203 s to 2^53 s there is a run of 388 blocks that takes a cast of the retarget out of range. |
| ChainDifficulty.IncrementIsDifficulty | src/cryptonote_core/blockchain.cpp:144-144 | Consecutive cumulative difficulties differ by the block's difficulty, also where they wrap. |
| ChainDifficulty.DifficultyFollowsClamp | src/cryptonote_core/blockchain.cpp:130-144 | From the third block on each difficulty on the chain is the step clamp of its predecessor. |
| ChainDifficulty.ChainFits | src/crypto/difficulty.cpp:63-70 | On a chain with any timestamps whatever, 100 times every block's difficulty fits in 64 bits. |
| ChainDifficulty.ChainStepLimit | src/crypto/difficulty.cpp:63-70 | So the advertised limit of 85 % to 115 % holds at every block of every chain whose predecessor is above ten. |
| ChainDifficulty.ChainEnvelope | src/cryptonote_core/blockchain.cpp:130-144 | On a chain, k blocks move the difficulty by at most 1.15^k up and 0.85^k down (up to 33/5) while it stays above ten. |
| ChainDifficulty.ChainWorkFits | src/crypto/difficulty.cpp:39-40 | The difficulties of the last hundred blocks of a chain always sum to less than 2^64. |
| ChainDifficulty.ChainSpacing | src/crypto/difficulty.cpp:29-33 | On a chain with clock readings below 2^63 every solve time is positive, only the upper clamp at 900 s acts, and n blocks took at least n seconds, so the epoch correction never divides by zero. |
| ChainDifficulty.RunSpacing | src/cryptonote_core/blockchain.cpp:122-128 | Every run from a clean directory, restarts included, whose submissions come at clock readings below 2^63 - 7200 has timestamps below 2^63 only, so what is said of such chains applies to it. |
| ChainDifficulty.ChainRatchet | src/crypto/difficulty.cpp:22-72 | On a chain, a hundred blocks in a row of 60 s or more each, the last ten difficulties above ten and the casts in range, are followed by the full 15 % step, or by the 15 % fall of the wrapped cap where 115 times the difficulty does not fit in 64 bits. |
| ChainDifficulty.UnhurriedStep | src/crypto/difficulty.cpp:22-72 | Every block of such a stretch takes exactly that step, and the difficulty stays above ten, while the casts are in range. |
| ChainDifficulty.UnhurriedRunaway | src/crypto/difficulty.cpp:22-72 | On a stretch of such blocks k steps multiply the difficulty by at least 1.15^k up to an offset of 33/5, however slow the blocks are, as long as casts and full rises fit. |
| ChainDifficulty.RunawayReachesCeiling | src/crypto/difficulty.cpp:22-72 | Within 280 such blocks, from any difficulty above ten and with the casts in range, 115 times the difficulty no longer fits in 64 bits. |
| ChainDifficulty.StaysAtCeiling | src/crypto/difficulty.cpp:63-70 | From then on the difficulty never falls below 85 % of that bound while the blocks stay unhurried and the casts stay in range. |
| ChainDifficulty.CeilingOverflows | src/crypto/difficulty.cpp:45-45 | Once there, an unhurried stretch with 203 s or more between blocks takes a cast out of range within 101 blocks. |
| ChainDifficulty.SlowStretchOverflows | src/crypto/difficulty.cpp:45-45 | So every unhurried stretch with 203 s or more between blocks takes a cast out of range within 380 blocks, from any difficulty above ten. |
| ChainDifficulty.GenesisReachesCeiling | src/crypto/difficulty.cpp:10-72 | From genesis, with every block at least 150 s after its predecessor, some difficulty before block 288 is so high that 115 times it does not fit in 64 bits; no assumption on casts or difficulties. |
| ChainDifficulty.GenesisOverflows | src/crypto/difficulty.cpp:45-45 | From genesis, with every block at least 203 s after its predecessor, one of the difficulties of blocks 2 to 388 cannot be computed without a cast out of range. |
| ChainConsequences.SeedTrace | src/cryptonote_core/blockchain.cpp:150-154 | A process that takes the chain from size m to size n asks for the epochs above floor((m+63)/1440) up to floor((n+63)/1440), in order and once each. |
| ChainConsequences.SeedTraceFromGenesis | src/cryptonote_core/blockchain.cpp:65-67 | From genesis the epochs asked for are 1 to floor((n+63)/1440), and the current epoch is never ahead of them. |
| ChainConsequences.SeedTraceAfterRestart | src/cryptonote_core/blockchain.cpp:150-154 | A process started at size m has asked for the epoch it is in if and only if that epoch exceeds floor((m+63)/1440); requests of an earlier process are not repeated. |
| ChainConsequences.PoolAndChainAgree | src/cryptonote_core/blockchain.cpp:69-101 | For every entry of a reachable pool `verify_transaction` succeeds if and only if none of its key images is spent. |
| ChainConsequences.SpentByValue | src/cryptonote_core/blockchain.cpp:90-97 | Testing spentness by text is testing the 32-byte values, for a spent set of texts of values. |
| ChainConsequences.KeyFileAppends | src/blockchain_db/lmdb_storage.cpp:30-39 | Saving one more key image turns the list of the images saved so far into the list with the new one at its end. |
| ChainConsequences.SavedImagesAreSpent | src/blockchain_db/lmdb_storage.cpp:78-86 | Against the spent set loaded from a list of saved key images, a well-formed transaction fails `verify_transaction` if and only if one of its key images was saved. |
| ChainConsequences.BlockKeepsPool | src/cryptonote_core/blockchain.cpp:147-148 | An accepted block keeps the pool invariant and removes exactly the entries it names. |
| ChainConsequences.FirstStartForgetsImages | src/cryptonote_core/blockchain.cpp:28-30 | A first start without a block log ignores the key-image list that a restart reads; the two judge every transaction alike if and only if no line of the list is 64 lower-case hexadecimal digits. |
| ChainConsequences.RescanSeesChain | src/wallet/wallet.cpp:78-81 | A rescan of a reachable node's log sees exactly one record a block. |
| ChainConsequences.RescanFollowsEmission | src/wallet/wallet.cpp:78-96 | Up to 4,534,354 blocks the rescanned total of a node's log is the exact emission of its non-genesis blocks and neither balance shrinks over any later history, restarts included. |
| NodeContract.GenesisExactly | src/cryptonote_core/blockchain.cpp:33-45 | A first start over a directory without blocks has one block: version 1.0, timestamp 1788461926, nonce 10001, zero predecessor, hash 00 01 02 and 29 zeros, no transactions, at cumulative difficulty one. |
| NodeContract.GenesisRecordExactly | src/cryptonote_core/blockchain.cpp:47-47 | Its record, height 0 and difficulty 1, is the whole log where saves reach the disk, and the key-image list is untouched. |
| NodeContract.FirstParent | src/cryptonote_core/blockchain.cpp:114-117 | The first submitted block is rejected for its parent exactly when its `prev_id` is not 00 01 02 and 29 zeros. |
| NodeContract.JudgeExactly | src/cryptonote_core/blockchain.cpp:106-139 | Every verdict in full: no genesis, wrong parent, not later than the tip, more than 7200 s ahead of the clock (modulo 2^64), too little work, or acceptance, tried in this order. |
| NodeContract.StepExactly | src/cryptonote_core/blockchain.cpp:141-154 | The new state in full: a rejection changes nothing; an accepted block adds itself, its timestamp and the cumulative difficulty modulo 2^64, removes its transactions from the pool, asks for epoch floor((n+1)/1440)+1 when n + 64 is a multiple of 1440, appends its record where saves reach the disk, and leaves the spent images and the key-image list alone. |
| NodeContract.LogInBytes | src/blockchain_db/lmdb_storage.cpp:21-25 | The log of a chain in bytes: at 60 i the height i modulo 2^64, then timestamp, nonce, difficulty and hash of block i. |
| NodeContract.StartLoadsExactly | src/cryptonote_core/blockchain.cpp:28-30 | A start over a block log puts the log's blocks behind what was there and adds the listed lines to the spent images. |
| NodeContract.StartCreatesExactly | src/cryptonote_core/blockchain.cpp:31-48 | Any other start puts the genesis block behind what was there, and reads the list only if there is a block log. |
| NodeContract.VerifiesExactly | src/cryptonote_core/blockchain.cpp:69-101 | Verification in the fields of a transaction: inputs, outputs, type 6, both payloads, and for every input a ring of 16 and a key image whose text is not spent. |
| NodeContract.StepKeepsSpent | src/cryptonote_core/blockchain.cpp:103-160 | A submitted block, accepted or not, leaves the spent images alone. |
| NodeContract.ProcessKeepsSpent | src/cryptonote_core/blockchain.cpp:103-160 | So does every sequence of blocks within one process. |
| NodeContract.AlikeKeepSpent | src/cryptonote_core/blockchain.cpp:103-160 | Alike nodes with the same spent images keep them the same under every later history, restarts included. |
| NodeContract.ListedStaysSpent | src/cryptonote_core/blockchain.cpp:90-97 | A key image listed when a process starts over a chain stays spent through every later block of that process: no transaction that uses it is verified. |
| NodeContract.SavedStaySpent | src/cryptonote_core/blockchain.cpp:69-101 | Against a list of saved images, at every point of the process exactly the complete transactions with rings of 16 and none of those images are verified. |
| NodeHistory.NodeStepKeepsSound | src/cryptonote_core/blockchain.cpp:12-167 | A submitted block, a pool admission in any tie order, a pool removal, a shutdown and a new start over a directory that takes saves or not each keep a node sound: chain invariant, pool invariant, a log that holds a front part of the chain, all of it while saves succeed. |
| NodeHistory.NodeRunInvariant | src/cryptonote_core/blockchain.cpp:12-167 | After every interleaving of these actions from a first start the node is sound. |
| NodeHistory.ReopenLosesUnsaved | src/cryptonote_core/blockchain.cpp:28-30 | At any point of such a history a new start finds exactly the timestamps and recorded fields of the blocks that the log holds. |
| NodeHistory.NodeStepLeaves | src/cryptonote_core/blockchain.cpp:12-167 | The spent images change at a new start only; pool actions touch nothing but the pool; a shutdown changes nothing but that saves stop; a new start empties pool and requests. |
| NodeHistory.SpentUntilReopen | src/cryptonote_core/blockchain.cpp:142-154 | Between two new starts of any such history the spent images stay the same. |

## Left out

- Difficulty.NextDifficultyLwma3: doubles round to nearest, without excess precision or fused operations; subnormal and infinite values do not occur for these operands. Signed overflow of a solve time, undefined in C++, takes the two's complement result. A target of zero seconds, a division by zero, is excluded.
- DifficultyLaws.RawEnvelope: for block times below 2^64 / 30300 seconds, where the weighted sum cannot wrap; the node uses 150.
- DifficultyTrends.SteadyWindowFallsExactly: for spacings below 2^63 s, which read as positive signed numbers. Out-of-range casts are excluded (`SteadyFits`, decided by `SteadyFitsExactly`), except where 115 D does not fit and every raw value gives the same answer. On the boundary n * c = 150 see `SteadyWindowOnTarget`.
- DifficultyTrends.SteadyFitsExactly: within one part in 2^49 of the edge the rounding of the operands decides, and spacings of 2^57 s and more, where the hundred-block span wraps, are left out.
- DifficultyTrends.SteadyWindowRises: with 101 entries or more, spacings from 1 to 2^63 - 1 s, casts in range and 115 D < 2^64; the difficulty must be above ten for the clamp to act.
- DifficultyTrends.SteadyWindowNeverFalls: within the same bounds, but for every difficulty.
- DifficultyTrends.Ratchet: the casts must be in range, the last hundred difficulties must sum to less than 2^64 and 115 times the last one must fit (`FullRiseExactly`); on a chain the second always holds (`ChainWorkFits`), and `ChainRatchet` covers both sides of the third.
- ChainDifficulty.StaysAtCeiling: once a cast has left the range nothing is said of the difficulties that follow, because the program says nothing either.
- Wallet.UnlockedExceedsExactly: stops 2^20 blocks past the first wrap; the second one is millions of blocks later.
- ChainDifficulty.RunSpacing: a clock within two hours of 2^63 or beyond is left out.
- Storage.PersistentDatabase.SaveBlock: a save reaches the file whole or not at all; a torn record comes up only when a log is cut (`TornLog`). Appending behind a torn record misaligns all later records and is not part of this model.
- Storage.PersistentDatabase.LoadChain: text files are read without newline translation.
- ChainLaws.RestartsAreTransparent: assumes saves reach the disk; `SurvivesExactlyWhenDurable` says what happens otherwise. `NodeHistory` covers starts over directories that do not take saves. The spent set and the seed requests of a process are not restored by a restart and are treated separately.
- ProofOfWork.RandomXManager.PreallocateNextEpoch: the request is recorded by epoch number; the seed text, the detached thread and the dataset memory are not part of this model.
- Wallet.Wallet.CreateTransfer: the fixed transaction hash text of a history entry and the error text are left out.
- Locks and threads: `add_new_block`, `init` and each pool operation are atomic steps, and the unlocked read in `get_current_difficulty` is not raced.
- Confirmed transactions do not mark key images as spent and blocks are not checked against their transactions, because `add_new_block` does neither.
- Log lines and error texts; verdicts and outcomes name the rule instead.
- Keccak, BLAKE2b, key generation, stealth addresses, key-image generation, mnemonics and addresses: foreign calls, randomness or placeholders.
- `print_money` and `parse_money`: display, and a parse through `double` that does not round-trip.
- P2P, RPC, daemon, miner and wallet front ends: stubs, loops and console output. The daemon and the miners of the repository never set `prev_id`, so their blocks fail the parent rule on a fresh chain.
- `vendor/monero`, which README.md:92 names as the production code.
