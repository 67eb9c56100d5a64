/** The persistent block log and key-image list (src/blockchain_db/lmdb_storage.cpp). */
module Storage {
  import opened Words
  import opened CryptonoteTypes

  // ----- the record codec -----

  /** What the log keeps of a block: 8 + 8 + 4 + 8 + 32 bytes. */
  datatype Record = Record(height: u64, timestamp: u64, nonce: u32, difficulty: u64, hash: Hash)

  function EncodeRecord(r: Record): (b: seq<u8>)
    ensures |b| == 60
  {
    LittleEndian(r.height, 8) + LittleEndian(r.timestamp, 8) + LittleEndian(r.nonce, 4)
    + LittleEndian(r.difficulty, 8) + r.hash
  }

  lemma FitsWord(b: seq<u8>)
    ensures |b| == 8 ==> FromLittleEndian(b) < TWO64
    ensures |b| == 4 ==> FromLittleEndian(b) < 0x1_0000_0000
  {
    FromLittleEndianBound(b);
    PowersOf256();
  }

  function Word64(b: seq<u8>): u64
    requires |b| == 8
  {
    FitsWord(b);
    FromLittleEndian(b)
  }

  function Word32(b: seq<u8>): u32
    requires |b| == 4
  {
    FitsWord(b);
    FromLittleEndian(b)
  }

  function DecodeRecord(b: seq<u8>): Record
    requires |b| == 60
  {
    Record(Word64(b[..8]), Word64(b[8..16]), Word32(b[16..20]), Word64(b[20..28]), b[28..60])
  }

  /** The whole records at the front of a log; a torn tail is dropped. */
  function DecodeLog(log: seq<u8>): (records: seq<Record>)
    ensures |records| == |log| / 60
  {
    if |log| < 60 then [] else [DecodeRecord(log[..60])] + DecodeLog(log[60..])
  }

  function EncodeLog(records: seq<Record>): (log: seq<u8>)
    ensures |log| == 60 * |records|
  {
    if records == [] then [] else EncodeRecord(records[0]) + EncodeLog(records[1..])
  }

  /** The layout of a record: 8 bytes of height, 8 of timestamp, 4 of nonce and 8 of difficulty, each with
      the lowest byte first, and the 32 bytes of the hash. */
  lemma RecordLayout(r: Record, k: nat)
    ensures k < 8 ==> EncodeRecord(r)[k] == (r.height / Pow(256, k)) % 256
    ensures k < 8 ==> EncodeRecord(r)[8 + k] == (r.timestamp / Pow(256, k)) % 256
    ensures k < 4 ==> EncodeRecord(r)[16 + k] == (r.nonce / Pow(256, k)) % 256
    ensures k < 8 ==> EncodeRecord(r)[20 + k] == (r.difficulty / Pow(256, k)) % 256
    ensures k < 32 ==> EncodeRecord(r)[28 + k] == r.hash[k]
  {
    hide Pow, LittleEndian;
    if k < 8 {
      LittleEndianAt(r.height, 8, k);
      LittleEndianAt(r.timestamp, 8, k);
      LittleEndianAt(r.difficulty, 8, k);
      if k < 4 {
        LittleEndianAt(r.nonce, 4, k);
      }
    }
  }

  lemma Word64RoundTrip(x: u64)
    ensures Word64(LittleEndian(x, 8)) == x
  {
    PowersOf256();
    LittleEndianRoundTrip(x, 8);
  }

  lemma Word32RoundTrip(x: u32)
    ensures Word32(LittleEndian(x, 4)) == x
  {
    PowersOf256();
    LittleEndianRoundTrip(x, 4);
  }

  lemma RecordRoundTrip(r: Record)
    ensures DecodeRecord(EncodeRecord(r)) == r
  {
    var b := EncodeRecord(r);
    assert b[..8] == LittleEndian(r.height, 8);
    assert b[8..16] == LittleEndian(r.timestamp, 8);
    assert b[16..20] == LittleEndian(r.nonce, 4);
    assert b[20..28] == LittleEndian(r.difficulty, 8);
    assert b[28..60] == r.hash;
    Word64RoundTrip(r.height);
    Word64RoundTrip(r.timestamp);
    Word32RoundTrip(r.nonce);
    Word64RoundTrip(r.difficulty);
  }

  /** Cutting a log anywhere loses exactly the records that do not fit whole. */
  lemma {:induction false} TornLog(records: seq<Record>, length: nat)
    requires length <= 60 * |records|
    ensures DecodeLog(EncodeLog(records)[..length]) == records[..length / 60]
  {
    hide EncodeRecord, DecodeRecord;
    if length >= 60 {
      var log := EncodeLog(records);
      assert log[..length][..60] == EncodeRecord(records[0]);
      assert log[..length][60..] == EncodeLog(records[1..])[..length - 60];
      RecordRoundTrip(records[0]);
      TornLog(records[1..], length - 60);
      assert length / 60 == (length - 60) / 60 + 1;
      assert records[..length / 60] == [records[0]] + records[1..][..(length - 60) / 60];
    }
  }

  lemma LogRoundTrip(records: seq<Record>)
    ensures DecodeLog(EncodeLog(records)) == records
  {
    TornLog(records, 60 * |records|);
    assert EncodeLog(records)[..60 * |records|] == EncodeLog(records);
    assert records[..60 * |records| / 60] == records;
  }

  lemma {:induction false} EncodeLogAppend(records: seq<Record>, r: Record)
    ensures EncodeLog(records + [r]) == EncodeLog(records) + EncodeRecord(r)
  {
    if records == [] {
      assert records + [r] == [r];
      assert [r][1..] == [];
    } else {
      assert (records + [r])[1..] == records[1..] + [r];
      EncodeLogAppend(records[1..], r);
      assert EncodeRecord(records[0]) + (EncodeLog(records[1..]) + EncodeRecord(r))
          == (EncodeRecord(records[0]) + EncodeLog(records[1..])) + EncodeRecord(r);
    }
  }

  // ----- what a loader rebuilds -----

  /** A loaded block carries only its timestamp, nonce and hash. */
  function LoadedBlock(r: Record): Block {
    EmptyBlock().(timestamp := r.timestamp, nonce := r.nonce, hash := r.hash)
  }

  lemma LoadedBlockFields(r: Record)
    ensures LoadedBlock(r)
         == Block(0, 0, r.timestamp, ZeroHash(), r.nonce,
                  Transaction(0, 0, [], [], [], RctSignatures(0, 0, [], [], []), ZeroHash()), [], r.hash)
  {
  }

  function LoadedBlocks(records: seq<Record>): (blocks: seq<Block>)
    ensures |blocks| == |records|
    ensures forall i :: 0 <= i < |records| ==> blocks[i] == LoadedBlock(records[i])
  {
    if records == [] then [] else LoadedBlocks(records[..|records| - 1]) + [LoadedBlock(records[|records| - 1])]
  }

  function LoadedTimestamps(records: seq<Record>): (timestamps: seq<u64>)
    ensures |timestamps| == |records|
    ensures forall i :: 0 <= i < |records| ==> timestamps[i] == records[i].timestamp
  {
    if records == [] then [] else LoadedTimestamps(records[..|records| - 1]) + [records[|records| - 1].timestamp]
  }

  function TotalDifficulty(records: seq<Record>): u64 {
    if records == [] then 0
    else U64(TotalDifficulty(records[..|records| - 1]) + records[|records| - 1].difficulty)
  }

  function DifficultySum(records: seq<Record>): nat {
    if records == [] then 0 else DifficultySum(records[..|records| - 1]) + records[|records| - 1].difficulty
  }

  /** The total is the exact sum modulo 2^64. */
  lemma {:induction false} TotalIsSum(records: seq<Record>)
    ensures TotalDifficulty(records) == DifficultySum(records) % 0x1_0000_0000_0000_0000
  {
    if records != [] {
      var init := records[..|records| - 1];
      TotalIsSum(init);
      U64AddLeft(DifficultySum(init), records[|records| - 1].difficulty);
    }
  }

  /** The running sums of the difficulties, modulo 2^64. */
  function LoadedCumulative(records: seq<Record>): (cumulative: seq<u64>)
    ensures |cumulative| == |records|
    ensures forall i :: 0 <= i < |records| ==> cumulative[i] == TotalDifficulty(records[..i + 1])
  {
    if records == [] then []
    else
      var m := |records| - 1;
      var init := LoadedCumulative(records[..m]);
      assert forall i :: 0 <= i < m ==> init[i] == TotalDifficulty(records[..i + 1]) by {
        forall i | 0 <= i < m ensures init[i] == TotalDifficulty(records[..i + 1]) {
          assert records[..m][..i + 1] == records[..i + 1];
        }
      }
      assert records[..m + 1] == records;
      init + [TotalDifficulty(records)]
  }

  // ----- text lines -----

  /** The non-empty lines of a text, as `std::getline` delivers them; the last line needs no newline. */
  function Lines(text: string, from: nat, i: nat): set<string>
    requires from <= i <= |text|
    decreases |text| - i
  {
    if i == |text| then (if from < i then {text[from..i]} else {})
    else if text[i] == '\n' then (if from < i then {text[from..i]} else {}) + Lines(text, i + 1, i + 1)
    else Lines(text, from, i + 1)
  }

  function NonEmptyLines(text: string): set<string> {
    Lines(text, 0, 0)
  }

  lemma {:induction false} LinesShift(front: string, text: string, from: nat, i: nat)
    requires from <= i <= |text|
    ensures Lines(front + text, |front| + from, |front| + i) == Lines(text, from, i)
    decreases |text| - i
  {
    var whole := front + text;
    assert whole[|front| + from..|front| + i] == text[from..i];
    if i < |text| {
      assert whole[|front| + i] == text[i];
      if text[i] == '\n' {
        LinesShift(front, text, i + 1, i + 1);
      } else {
        LinesShift(front, text, from, i + 1);
      }
    }
  }

  lemma {:induction false} LinesSkip(text: string, from: nat, i: nat, end: nat)
    requires from <= i <= end <= |text| && forall k :: i <= k < end ==> text[k] != '\n'
    ensures Lines(text, from, i) == Lines(text, from, end)
    decreases end - i
  {
    if i < end {
      LinesSkip(text, from, i + 1, end);
    }
  }

  /** A line in front of a text adds itself to the lines. */
  lemma LinesCons(line: string, text: string)
    requires line != "" && '\n' !in line
    ensures NonEmptyLines(line + "\n" + text) == {line} + NonEmptyLines(text)
  {
    var front := line + "\n";
    var whole := front + text;
    LinesSkip(whole, 0, 0, |line|);
    assert whole[|line|] == '\n' && whole[0..|line|] == line;
    LinesShift(front, text, 0, 0);
    assert Lines(whole, 0, |line|) == {line} + Lines(whole, |line| + 1, |line| + 1);
  }

  /** Positions p to q of a text are one whole line that is not empty. */
  predicate LineAt(text: string, p: nat, q: nat) {
    && p < q <= |text| && (p == 0 || text[p - 1] == '\n') && (q == |text| || text[q] == '\n')
    && forall k :: p <= k < q ==> text[k] != '\n'
  }

  lemma {:induction false} LinesFrom(text: string, from: nat, i: nat, line: string)
    requires from <= i <= |text| && (from == 0 || text[from - 1] == '\n') && forall k :: from <= k < i ==> text[k] != '\n'
    ensures line in Lines(text, from, i) <==> exists p: nat, q: nat :: from <= p && LineAt(text, p, q) && line == text[p..q]
    decreases |text| - i
  {
    if i < |text| && text[i] != '\n' {
      LinesFrom(text, from, i + 1, line);
    } else {
      forall p: nat, q: nat | from <= p && LineAt(text, p, q) ensures (p == from && q == i) || i < p {
        if p > from {
          assert text[p - 1] == '\n';
        }
      }
      if from < i {
        assert LineAt(text, from, i);
      }
      if i < |text| {
        LinesFrom(text, i + 1, i + 1, line);
      }
    }
  }

  /** The lines a loader collects: exactly the texts between newlines or the ends that are not empty. */
  lemma NonEmptyLinesExactly(text: string, line: string)
    ensures line in NonEmptyLines(text) <==> exists p: nat, q: nat :: LineAt(text, p, q) && line == text[p..q]
  {
    LinesFrom(text, 0, 0, line);
  }

  // ----- files and streams -----

  /** A data directory; a file that was never written is absent.  `writable` is whether the
      files can be opened for appending. */
  class DataDirectory {
    var blocksFile: FileContent<u8>
    var keysFile: FileContent<char>
    var writable: bool

    constructor (writable: bool)
      ensures blocksFile.Absent? && keysFile.Absent? && this.writable == writable
    {
      blocksFile := Absent;
      keysFile := Absent;
      this.writable := writable;
    }
  }

  datatype FileContent<T> = Absent | Present(content: seq<T>)

  /** The bytes a reader sees. */
  function Bytes<T>(file: FileContent<T>): seq<T> {
    match file
    case Absent => []
    case Present(content) => content
  }

  /** A binary `std::ifstream`: a short read sets the fail state, and a failed stream reads nothing. */
  class InputStream {
    const data: seq<u8>
    var pos: nat
    var good: bool
    var gcount: nat

    ghost predicate Valid()
      reads this
    {
      pos <= |data|
    }

    constructor (data: seq<u8>)
      ensures this.data == data && pos == 0 && good && gcount == 0 && Valid()
    {
      this.data := data;
      pos := 0;
      good := true;
      gcount := 0;
    }

    method Read(n: nat) returns (bytes: seq<u8>)
      requires Valid()
      modifies this
      ensures Valid()
      ensures old(good) && n <= |data| - old(pos) ==>
              good && gcount == n && pos == old(pos) + n && bytes == data[old(pos)..pos]
      ensures old(good) && n > |data| - old(pos) ==>
              !good && gcount == |data| - old(pos) && pos == |data| && bytes == data[old(pos)..]
      ensures !old(good) ==> !good && gcount == 0 && pos == old(pos) && bytes == []
    {
      if !good {
        gcount := 0;
        bytes := [];
      } else if n <= |data| - pos {
        bytes := data[pos..pos + n];
        pos := pos + n;
        gcount := n;
      } else {
        bytes := data[pos..];
        gcount := |data| - pos;
        pos := |data|;
        good := false;
      }
    }
  }

  // ----- the database -----

  class PersistentDatabase {
    var dir: DataDirectory?
    var isOpen: bool

    constructor ()
      ensures dir == null && !isOpen
    {
      dir := null;
      isOpen := false;
    }

    ghost predicate Valid()
      reads this
    {
      isOpen ==> dir != null
    }

    /** Whether a save reaches the disk. */
    predicate Durable()
      requires Valid()
      reads this, dir
    {
      isOpen && dir.writable
    }

    method Open(path: DataDirectory) returns (ok: bool)
      modifies this
      ensures ok && dir == path && isOpen && Valid()
    {
      dir := path;
      isOpen := true;
      ok := true;
    }

    /** `save_block`: five writes to the end of the block log. */
    method SaveBlock(b: Block, height: u64, difficulty: u64) returns (ok: bool)
      requires Valid()
      modifies dir
      ensures ok == old(Durable())
      ensures dir != null ==> dir.keysFile == old(dir.keysFile) && dir.writable == old(dir.writable)
      ensures ok ==> dir.blocksFile == Present(
                Bytes(old(dir.blocksFile)) + EncodeRecord(Record(height, b.timestamp, b.nonce, difficulty, b.hash)))
      ensures !ok && dir != null ==> dir.blocksFile == old(dir.blocksFile)
    {
      if !isOpen {
        return false;
      }
      if !dir.writable {
        return false;
      }
      var out := Bytes(dir.blocksFile);
      ghost var was := out;
      out := out + LittleEndian(height, 8);
      out := out + LittleEndian(b.timestamp, 8);
      out := out + LittleEndian(b.nonce, 4);
      out := out + LittleEndian(difficulty, 8);
      out := out + b.hash;
      assert out == was + EncodeRecord(Record(height, b.timestamp, b.nonce, difficulty, b.hash));
      dir.blocksFile := Present(out);
      ok := true;
    }

    /** `save_key_image`: one line at the end of the key-image list. */
    method SaveKeyImage(keyImageHex: string) returns (ok: bool)
      requires Valid()
      modifies dir
      ensures ok == old(Durable())
      ensures dir != null ==> dir.blocksFile == old(dir.blocksFile) && dir.writable == old(dir.writable)
      ensures ok ==> dir.keysFile == Present(Bytes(old(dir.keysFile)) + keyImageHex + "\n")
      ensures !ok && dir != null ==> dir.keysFile == old(dir.keysFile)
    {
      if !isOpen {
        return false;
      }
      if !dir.writable {
        return false;
      }
      dir.keysFile := Present(Bytes(dir.keysFile) + keyImageHex + "\n");
      ok := true;
    }

    method Close()
      requires Valid()
      modifies this
      ensures !isOpen && dir == old(dir) && Valid()
    {
      isOpen := false;
    }

    /** `load_chain`: extends the caller's vectors and set with what the files hold. */
    method LoadChain(blocks: seq<Block>, timestamps: seq<u64>, cumulative: seq<u64>, spent: set<string>)
      returns (ok: bool, blocks': seq<Block>, timestamps': seq<u64>, cumulative': seq<u64>, spent': set<string>)
      requires Valid()
      ensures ok == (isOpen && dir.blocksFile.Present?)
      ensures !ok ==> blocks' == blocks && timestamps' == timestamps && cumulative' == cumulative && spent' == spent
      ensures ok ==> var records := DecodeLog(Bytes(dir.blocksFile));
                && Extended(records, blocks, timestamps, cumulative, blocks', timestamps', cumulative')
                && spent' == spent + NonEmptyLines(Bytes(dir.keysFile))
    {
      blocks', timestamps', cumulative', spent' := blocks, timestamps, cumulative, spent;
      if !isOpen {
        return false, blocks', timestamps', cumulative', spent';
      }
      if dir.blocksFile.Absent? {
        return false, blocks', timestamps', cumulative', spent';
      }
      blocks', timestamps', cumulative' := ReadRecords(dir.blocksFile.content, blocks, timestamps, cumulative);
      if dir.keysFile.Present? {
        var lines := ReadLines(dir.keysFile.content);
        spent' := spent' + lines;
      }
      ok := true;
    }
  }

  lemma AppendToConcat<T>(a: seq<T>, b: seq<T>, x: T)
    ensures (a + b) + [x] == a + (b + [x])
  {
  }

  lemma RecordOfTail(log: seq<u8>, i: nat)
    requires 1 <= i < |log| / 60
    ensures log[60..][60 * (i - 1)..60 * (i - 1) + 60] == log[60 * i..60 * i + 60]
  {
    var nested, direct := log[60..][60 * (i - 1)..60 * (i - 1) + 60], log[60 * i..60 * i + 60];
    forall k | 0 <= k < 60 ensures nested[k] == direct[k] {
      assert nested[k] == log[60..][60 * (i - 1) + k];
    }
  }

  /** Record i of a log lies at byte 60 i. */
  lemma {:induction false} DecodeLogAt(log: seq<u8>, i: nat)
    requires i < |log| / 60
    ensures DecodeLog(log)[i] == DecodeRecord(log[60 * i..60 * i + 60])
  {
    if i > 0 {
      DecodeLogAt(log[60..], i - 1);
      RecordOfTail(log, i);
    }
  }

  /** The first `pos` bytes of the log hold exactly the records in `done`. */
  ghost predicate Decoded(log: seq<u8>, pos: nat, done: seq<Record>) {
    && pos == 60 * |done| <= |log|
    && forall i :: 0 <= i < |done| ==> done[i] == DecodeRecord(log[60 * i..60 * i + 60])
  }

  lemma DecodedStep(log: seq<u8>, pos: nat, done: seq<Record>, record: Record)
    requires Decoded(log, pos, done) && pos + 60 <= |log|
    requires record == DecodeRecord(log[pos..pos + 60])
    ensures Decoded(log, pos + 60, done + [record])
  {
  }

  lemma DecodedEnd(log: seq<u8>, pos: nat, done: seq<Record>)
    requires Decoded(log, pos, done) && |log| - pos < 60
    ensures DecodeLog(log) == done
  {
    assert |done| == |log| / 60;
    forall i | 0 <= i < |done| ensures DecodeLog(log)[i] == done[i] {
      DecodeLogAt(log, i);
    }
  }

  /** The caller's vectors extended with what `records` stands for. */
  ghost predicate Extended(records: seq<Record>, blocks: seq<Block>, timestamps: seq<u64>, cumulative: seq<u64>,
                           blocks': seq<Block>, timestamps': seq<u64>, cumulative': seq<u64>) {
    && blocks' == blocks + LoadedBlocks(records)
    && timestamps' == timestamps + LoadedTimestamps(records)
    && cumulative' == cumulative + LoadedCumulative(records)
  }

  /** The variables of the record loop. */
  datatype LoadState = LoadState(blocks: seq<Block>, timestamps: seq<u64>, cumulative: seq<u64>, total: u64)

  function Push(s: LoadState, r: Record): LoadState {
    var total := U64(s.total + r.difficulty);
    LoadState(s.blocks + [LoadedBlock(r)], s.timestamps + [r.timestamp], s.cumulative + [total], total)
  }

  function Replay(s: LoadState, records: seq<Record>): LoadState {
    if records == [] then s else Push(Replay(s, records[..|records| - 1]), records[|records| - 1])
  }

  lemma ReplayStep(s: LoadState, records: seq<Record>, r: Record)
    ensures Replay(s, records + [r]) == Push(Replay(s, records), r)
  {
    assert (records + [r])[..|records|] == records;
  }

  /** Replaying records onto vectors appends what the records stand for. */
  lemma {:induction false} ReplayExtends(blocks: seq<Block>, timestamps: seq<u64>, cumulative: seq<u64>,
                                           records: seq<Record>)
    ensures var s := Replay(LoadState(blocks, timestamps, cumulative, 0), records);
            s.total == TotalDifficulty(records)
            && Extended(records, blocks, timestamps, cumulative, s.blocks, s.timestamps, s.cumulative)
  {
    if records != [] {
      var init, r := records[..|records| - 1], records[|records| - 1];
      ReplayExtends(blocks, timestamps, cumulative, init);
      AppendToConcat(blocks, LoadedBlocks(init), LoadedBlock(r));
      AppendToConcat(timestamps, LoadedTimestamps(init), r.timestamp);
      AppendToConcat(cumulative, LoadedCumulative(init), TotalDifficulty(records));
    }
  }

  lemma Field(data: seq<u8>, start: nat, from: nat, to: nat)
    requires start + 60 <= |data| && from <= to <= 60
    ensures data[start + from..start + to] == data[start..start + 60][from..to]
  {
    var direct, nested := data[start + from..start + to], data[start..start + 60][from..to];
    forall k | 0 <= k < to - from ensures direct[k] == nested[k] {
      assert nested[k] == data[start..start + 60][from + k];
    }
  }

  /** The five reads of one turn of the record loop; they succeed when a whole record is left. */
  method ReadRecord(input: InputStream) returns (record: Record)
    requires input.Valid() && input.good
    modifies input
    ensures input.Valid()
    ensures input.gcount < 32 <==> |input.data| - old(input.pos) < 60
    ensures input.gcount < 32 ==> !input.good
    ensures input.gcount >= 32 ==> input.good && input.pos == old(input.pos) + 60
                                   && record == DecodeRecord(input.data[old(input.pos)..input.pos])
  {
    var start := input.pos;
    var heightBytes := input.Read(8);
    var timestampBytes := input.Read(8);
    var nonceBytes := input.Read(4);
    var difficultyBytes := input.Read(8);
    var hashBytes := input.Read(32);
    if input.gcount < 32 {
      return Record(0, 0, 0, 0, ZeroHash());
    }
    Field(input.data, start, 0, 8);
    Field(input.data, start, 8, 16);
    Field(input.data, start, 16, 20);
    Field(input.data, start, 20, 28);
    Field(input.data, start, 28, 60);
    record := Record(Word64(heightBytes), Word64(timestampBytes), Word32(nonceBytes), Word64(difficultyBytes), hashBytes);
  }

  /** The record loop of `load_chain`. */
  method ReadRecords(log: seq<u8>, blocks: seq<Block>, timestamps: seq<u64>, cumulative: seq<u64>)
    returns (blocks': seq<Block>, timestamps': seq<u64>, cumulative': seq<u64>)
    ensures Extended(DecodeLog(log), blocks, timestamps, cumulative, blocks', timestamps', cumulative')
  {
    hide DecodeRecord, LoadedBlock;
    blocks', timestamps', cumulative' := blocks, timestamps, cumulative;
    var input := new InputStream(log);
    var total: u64 := 0;
    ghost var initial := LoadState(blocks, timestamps, cumulative, 0);
    ghost var done: seq<Record> := [];
    while input.pos < |input.data|
      invariant fresh(input) && input.Valid() && input.data == log && input.good
      invariant Decoded(log, input.pos, done)
      invariant LoadState(blocks', timestamps', cumulative', total) == Replay(initial, done)
      decreases |log| - input.pos
    {
      ghost var start := input.pos;
      var record := ReadRecord(input);
      if input.gcount < 32 {
        DecodedEnd(log, start, done);
        ReplayExtends(blocks, timestamps, cumulative, done);
        return;
      }
      DecodedStep(log, start, done, record);
      ReplayStep(initial, done, record);
      ghost var before := LoadState(blocks', timestamps', cumulative', total);
      done := done + [record];
      blocks' := blocks' + [LoadedBlock(record)];
      timestamps' := timestamps' + [record.timestamp];
      total := U64(total + record.difficulty);
      cumulative' := cumulative' + [total];
      assert LoadState(blocks', timestamps', cumulative', total) == Push(before, record);
    }
    DecodedEnd(log, input.pos, done);
    ReplayExtends(blocks, timestamps, cumulative, done);
  }

  /** The line loop of `load_chain`. */
  method ReadLines(text: string) returns (lines: set<string>)
    ensures lines == NonEmptyLines(text)
  {
    lines := {};
    var from, i := 0, 0;
    while i < |text|
      invariant from <= i <= |text|
      invariant lines + Lines(text, from, i) == NonEmptyLines(text)
    {
      if text[i] == '\n' {
        if from < i {
          lines := lines + {text[from..i]};
        }
        from := i + 1;
      }
      i := i + 1;
    }
    if from < i {
      lines := lines + {text[from..i]};
    }
  }
}
