/** The memory pool (src/cryptonote_core/tx_pool.cpp). */
module TxPool {
  import opened Words
  import opened CryptonoteTypes

  /** CRYPTONOTE_MINIMUM_MIXIN_V3 + 1. */
  const RING_SIZE := 16
  /** The size every entry is recorded with. */
  const BLOB_SIZE: nat := 1800

  datatype PoolEntry = PoolEntry(tx: Transaction, fee: u64, receiveTime: u64, blobSize: nat)

  datatype Admission =
    | Admitted
    | MissingInputsOrOutputs
    | MissingProofs
    | AlreadyInPool
    | WrongRingSize
    | KeyImageInPool

  // ----- admission -----

  predicate HasInputsAndOutputs(tx: Transaction) {
    tx.vin != [] && tx.vout != []
  }

  predicate HasProofs(tx: Transaction) {
    tx.rct.kind == 6 && tx.rct.bulletproofPlus != [] && tx.rct.clsag != []
  }

  predicate ImageIn(pool: seq<PoolEntry>, image: Hash) {
    exists k, j :: 0 <= k < |pool| && 0 <= j < |pool[k].tx.vin| && pool[k].tx.vin[j].keyImage == image
  }

  predicate HashIn(pool: seq<PoolEntry>, hash: Hash) {
    exists k :: 0 <= k < |pool| && pool[k].tx.hash == hash
  }

  /** The verdict of the input loop from input i onwards. */
  function CheckInputs(pool: seq<PoolEntry>, vin: seq<TxInput>, i: nat): Admission
    requires i <= |vin|
    decreases |vin| - i
  {
    if i == |vin| then Admitted
    else if |vin[i].keyOffsets| != RING_SIZE then WrongRingSize
    else if ImageIn(pool, vin[i].keyImage) then KeyImageInPool
    else CheckInputs(pool, vin, i + 1)
  }

  /** The first rule a transaction breaks, in the order the pool tries them. */
  function Admit(pool: seq<PoolEntry>, tx: Transaction): Admission {
    if !HasInputsAndOutputs(tx) then MissingInputsOrOutputs
    else if !HasProofs(tx) then MissingProofs
    else if HashIn(pool, tx.hash) then AlreadyInPool
    else CheckInputs(pool, tx.vin, 0)
  }

  /** A transaction that no pool can object to on its own account. */
  predicate WellFormed(tx: Transaction) {
    HasInputsAndOutputs(tx) && HasProofs(tx) &&
    forall i :: 0 <= i < |tx.vin| ==> |tx.vin[i].keyOffsets| == RING_SIZE
  }

  predicate ConflictFree(pool: seq<PoolEntry>, tx: Transaction) {
    !HashIn(pool, tx.hash) && forall i :: 0 <= i < |tx.vin| ==> !ImageIn(pool, tx.vin[i].keyImage)
  }

  lemma {:induction false} CheckInputsExactly(pool: seq<PoolEntry>, vin: seq<TxInput>, i: nat)
    requires i <= |vin|
    ensures CheckInputs(pool, vin, i).Admitted? <==>
            forall j :: i <= j < |vin| ==> |vin[j].keyOffsets| == RING_SIZE && !ImageIn(pool, vin[j].keyImage)
    decreases |vin| - i
  {
    if i < |vin| {
      CheckInputsExactly(pool, vin, i + 1);
    }
  }

  /** A transaction is admitted exactly when it is well formed and conflicts with nothing in the pool. */
  lemma AdmittedExactly(pool: seq<PoolEntry>, tx: Transaction)
    ensures Admit(pool, tx).Admitted? <==> WellFormed(tx) && ConflictFree(pool, tx)
  {
    CheckInputsExactly(pool, tx.vin, 0);
  }

  // ----- admission in the fields of a transaction -----

  /** Inputs, outputs and both proof payloads are there, and the signature is of type 6. */
  predicate Complete(tx: Transaction) {
    |tx.vin| > 0 && |tx.vout| > 0 && tx.rct.kind == 6 && |tx.rct.bulletproofPlus| > 0 && |tx.rct.clsag| > 0
  }

  /** Some entry has the transaction's hash. */
  predicate Known(pool: seq<PoolEntry>, tx: Transaction) {
    exists k :: 0 <= k < |pool| && pool[k].tx.hash == tx.hash
  }

  /** Some input of some entry has this key image. */
  predicate Taken(pool: seq<PoolEntry>, image: Hash) {
    exists e :: e in pool && exists input :: input in e.tx.vin && input.keyImage == image
  }

  predicate FineInput(pool: seq<PoolEntry>, input: TxInput) {
    |input.keyOffsets| == 16 && !Taken(pool, input.keyImage)
  }

  lemma TakenExactly(pool: seq<PoolEntry>, image: Hash)
    ensures ImageIn(pool, image) <==> Taken(pool, image)
  {
    if ImageIn(pool, image) {
      var k, j :| 0 <= k < |pool| && 0 <= j < |pool[k].tx.vin| && pool[k].tx.vin[j].keyImage == image;
      assert pool[k] in pool && pool[k].tx.vin[j] in pool[k].tx.vin;
    }
    if Taken(pool, image) {
      var e :| e in pool && exists input :: input in e.tx.vin && input.keyImage == image;
      var input :| input in e.tx.vin && input.keyImage == image;
      var k :| 0 <= k < |pool| && pool[k] == e;
      var j :| 0 <= j < |e.tx.vin| && e.tx.vin[j] == input;
      assert pool[k].tx.vin[j].keyImage == image;
    }
  }

  /** Input i is the first that is not fine. */
  predicate FirstBad(pool: seq<PoolEntry>, vin: seq<TxInput>, from: nat, i: nat) {
    from <= i < |vin| && !FineInput(pool, vin[i]) && forall j :: from <= j < i ==> FineInput(pool, vin[j])
  }

  /** The input loop stops at the first input that is not fine: for its ring size, if that is wrong, else
      for its key image. */
  lemma {:induction false} CheckInputsStopsAt(pool: seq<PoolEntry>, vin: seq<TxInput>, from: nat)
    requires from <= |vin|
    ensures CheckInputs(pool, vin, from).Admitted? <==> forall i :: from <= i < |vin| ==> FineInput(pool, vin[i])
    ensures CheckInputs(pool, vin, from).WrongRingSize? <==>
            exists i: nat :: FirstBad(pool, vin, from, i) && |vin[i].keyOffsets| != 16
    ensures CheckInputs(pool, vin, from).KeyImageInPool? <==>
            exists i: nat :: FirstBad(pool, vin, from, i) && |vin[i].keyOffsets| == 16
    decreases |vin| - from
  {
    hide ImageIn, Taken;
    if from < |vin| {
      TakenExactly(pool, vin[from].keyImage);
      CheckInputsStopsAt(pool, vin, from + 1);
      if FineInput(pool, vin[from]) {
        forall i: nat ensures FirstBad(pool, vin, from, i) <==> FirstBad(pool, vin, from + 1, i) {
        }
      } else {
        assert FirstBad(pool, vin, from, from);
      }
    }
  }

  /** The outcome of an admission in full: each rejection, in the order of the program, and the admission. */
  lemma AdmissionExactly(pool: seq<PoolEntry>, tx: Transaction)
    ensures Admit(pool, tx).MissingInputsOrOutputs? <==> tx.vin == [] || tx.vout == []
    ensures Admit(pool, tx).MissingProofs? <==>
            tx.vin != [] && tx.vout != [] && (tx.rct.kind != 6 || tx.rct.bulletproofPlus == [] || tx.rct.clsag == [])
    ensures Admit(pool, tx).AlreadyInPool? <==> Complete(tx) && Known(pool, tx)
    ensures Admit(pool, tx).WrongRingSize? <==>
            && Complete(tx) && !Known(pool, tx)
            && exists i: nat :: FirstBad(pool, tx.vin, 0, i) && |tx.vin[i].keyOffsets| != 16
    ensures Admit(pool, tx).KeyImageInPool? <==>
            && Complete(tx) && !Known(pool, tx)
            && exists i: nat :: FirstBad(pool, tx.vin, 0, i) && |tx.vin[i].keyOffsets| == 16
    ensures Admit(pool, tx).Admitted? <==>
            Complete(tx) && !Known(pool, tx) && forall i :: 0 <= i < |tx.vin| ==> FineInput(pool, tx.vin[i])
  {
    hide FineInput, FirstBad;
    CheckInputsStopsAt(pool, tx.vin, 0);
    CheckInputsKinds(pool, tx.vin, 0);
  }

  lemma {:induction false} CheckInputsKinds(pool: seq<PoolEntry>, vin: seq<TxInput>, i: nat)
    requires i <= |vin|
    ensures var a := CheckInputs(pool, vin, i); a.Admitted? || a.WrongRingSize? || a.KeyImageInPool?
    decreases |vin| - i
  {
    if i < |vin| {
      CheckInputsKinds(pool, vin, i + 1);
    }
  }

  lemma WellFormedExactly(tx: Transaction)
    ensures WellFormed(tx) <==> Complete(tx) && forall i :: 0 <= i < |tx.vin| ==> |tx.vin[i].keyOffsets| == 16
  {
  }

  /** The entry that an admitted transaction becomes. */
  function NewEntry(tx: Transaction, now: u64): PoolEntry {
    PoolEntry(tx, tx.rct.fee, now, BLOB_SIZE)
  }

  lemma NewEntryFields(tx: Transaction, now: u64)
    ensures NewEntry(tx, now) == PoolEntry(tx, tx.rct.fee, now, 1800)
  {
  }

  // ----- the order of the pool -----

  predicate SortedByFee(pool: seq<PoolEntry>) {
    forall i, j :: 0 <= i <= j < |pool| ==> pool[i].fee >= pool[j].fee
  }

  /** What `std::sort` promises: some arrangement by descending fee; ties come in any order. */
  predicate SortedPermutation(before: seq<PoolEntry>, after: seq<PoolEntry>) {
    multiset(after) == multiset(before) && SortedByFee(after)
  }

  function Insert(e: PoolEntry, pool: seq<PoolEntry>): seq<PoolEntry> {
    if pool == [] || e.fee >= pool[0].fee then [e] + pool else [pool[0]] + Insert(e, pool[1..])
  }

  lemma {:induction false} InsertAdds(e: PoolEntry, pool: seq<PoolEntry>)
    ensures multiset(Insert(e, pool)) == multiset(pool) + multiset{e}
  {
    if pool != [] && e.fee < pool[0].fee {
      InsertAdds(e, pool[1..]);
      assert pool == [pool[0]] + pool[1..];
    }
  }

  lemma HeadOnSorted(head: PoolEntry, rest: seq<PoolEntry>)
    requires SortedByFee(rest) && forall x :: x in rest ==> x.fee <= head.fee
    ensures SortedByFee([head] + rest)
  {
  }

  lemma {:induction false} InsertSorts(e: PoolEntry, pool: seq<PoolEntry>)
    requires SortedByFee(pool)
    ensures SortedByFee(Insert(e, pool))
  {
    if pool == [] || e.fee >= pool[0].fee {
      HeadOnSorted(e, pool);
    } else {
      var rest := Insert(e, pool[1..]);
      InsertSorts(e, pool[1..]);
      InsertAdds(e, pool[1..]);
      forall x | x in rest ensures x.fee <= pool[0].fee {
        assert x in multiset(rest);
        assert x == e || x in pool[1..];
      }
      HeadOnSorted(pool[0], rest);
    }
  }

  lemma {:induction false} SortedPermutationExists(pool: seq<PoolEntry>)
    ensures exists after :: SortedPermutation(pool, after)
  {
    if pool == [] {
      assert SortedPermutation(pool, []);
    } else {
      SortedPermutationExists(pool[1..]);
      var rest :| SortedPermutation(pool[1..], rest);
      assert pool == [pool[0]] + pool[1..];
      InsertAdds(pool[0], rest);
      InsertSorts(pool[0], rest);
      assert SortedPermutation(pool, Insert(pool[0], rest));
    }
  }

  // ----- removal -----

  /** The entries with unlisted hashes, in their old order. */
  function Without(pool: seq<PoolEntry>, hashes: seq<Hash>): seq<PoolEntry> {
    if pool == [] then []
    else
      var init := Without(pool[..|pool| - 1], hashes);
      if pool[|pool| - 1].tx.hash in hashes then init else init + [pool[|pool| - 1]]
  }

  /** Removal looks at one entry at a time and keeps the order. */
  lemma {:induction false} WithoutJoins(a: seq<PoolEntry>, b: seq<PoolEntry>, hashes: seq<Hash>)
    ensures Without(a + b, hashes) == Without(a, hashes) + Without(b, hashes)
  {
    if b == [] {
      assert a + b == a;
    } else {
      var init, last := b[..|b| - 1], b[|b| - 1];
      assert (a + b)[..|a + b| - 1] == a + init && (a + b)[|a + b| - 1] == last;
      WithoutJoins(a, init, hashes);
    }
  }

  lemma WithoutOne(e: PoolEntry, hashes: seq<Hash>)
    ensures Without([], hashes) == []
    ensures Without([e], hashes) == if exists k :: 0 <= k < |hashes| && hashes[k] == e.tx.hash then [] else [e]
  {
    assert [e][..0] == [];
  }

  // ----- template -----

  /** The greedy prefix: how many entries from index i on are taken, starting at `used` bytes. */
  function TemplateCount(pool: seq<PoolEntry>, maxBytes: u64, i: nat, used: u64): (n: nat)
    requires i <= |pool|
    ensures n <= |pool| - i
    decreases |pool| - i
  {
    if i == |pool| || U64(used + pool[i].blobSize) > maxBytes then 0
    else 1 + TemplateCount(pool, maxBytes, i + 1, U64(used + pool[i].blobSize))
  }

  function Transactions(pool: seq<PoolEntry>): (txs: seq<Transaction>)
    ensures |txs| == |pool|
    ensures forall i :: 0 <= i < |pool| ==> txs[i] == pool[i].tx
  {
    if pool == [] then [] else Transactions(pool[..|pool| - 1]) + [pool[|pool| - 1].tx]
  }

  // ----- the class -----

  class TxMemoryPool {
    var mempool: seq<PoolEntry>

    constructor ()
      ensures mempool == []
    {
      mempool := [];
    }

    /** `add_tx` at time `now`. */
    method AddTx(tx: Transaction, now: u64) returns (outcome: Admission)
      modifies this
      ensures outcome == Admit(old(mempool), tx)
      ensures outcome.Admitted? ==>
              SortedPermutation(old(mempool) + [NewEntry(tx, now)], mempool)
      ensures !outcome.Admitted? ==> mempool == old(mempool)
    {
      if tx.vin == [] || tx.vout == [] {
        return MissingInputsOrOutputs;
      }
      if tx.rct.kind != 6 || tx.rct.bulletproofPlus == [] || tx.rct.clsag == [] {
        return MissingProofs;
      }
      for k := 0 to |mempool|
        invariant !HashIn(mempool[..k], tx.hash)
      {
        if mempool[k].tx.hash == tx.hash {
          return AlreadyInPool;
        }
      }
      assert mempool[..|mempool|] == mempool;

      for i := 0 to |tx.vin|
        invariant CheckInputs(mempool, tx.vin, 0) == CheckInputs(mempool, tx.vin, i)
      {
        var input := tx.vin[i];
        if |input.keyOffsets| != RING_SIZE {
          return WrongRingSize;
        }
        for k := 0 to |mempool|
          invariant forall k', j' :: 0 <= k' < k && 0 <= j' < |mempool[k'].tx.vin|
                                     ==> mempool[k'].tx.vin[j'].keyImage != input.keyImage
        {
          for j := 0 to |mempool[k].tx.vin|
            invariant forall j' :: 0 <= j' < j ==> mempool[k].tx.vin[j'].keyImage != input.keyImage
          {
            if mempool[k].tx.vin[j].keyImage == input.keyImage {
              return KeyImageInPool;
            }
          }
        }
      }

      var unsorted := mempool + [NewEntry(tx, now)];
      SortedPermutationExists(unsorted);
      var sorted :| SortedPermutation(unsorted, sorted);
      mempool := sorted;
      outcome := Admitted;
    }

    /** `remove_txs`: the erase-remove idiom, keeping the order of what stays. */
    method RemoveTxs(hashes: seq<Hash>)
      modifies this
      ensures mempool == Without(old(mempool), hashes)
    {
      var kept := [];
      for k := 0 to |mempool|
        invariant mempool == old(mempool)
        invariant kept == Without(mempool[..k], hashes)
      {
        assert mempool[..k + 1][..k] == mempool[..k];
        if mempool[k].tx.hash !in hashes {
          kept := kept + [mempool[k]];
        }
      }
      assert mempool[..|mempool|] == mempool;
      mempool := kept;
    }

    /** `get_block_template_txs`. */
    method GetBlockTemplateTxs(maxBytes: u64) returns (result: seq<Transaction>)
      ensures result == Transactions(mempool[..TemplateCount(mempool, maxBytes, 0, 0)])
    {
      result := [];
      var used: u64 := 0;
      var k := 0;
      while k < |mempool|
        invariant 0 <= k <= |mempool|
        invariant result == Transactions(mempool[..k])
        invariant TemplateCount(mempool, maxBytes, 0, 0) == k + TemplateCount(mempool, maxBytes, k, used)
      {
        if U64(used + mempool[k].blobSize) > maxBytes {
          break;
        }
        assert mempool[..k + 1][..k] == mempool[..k];
        result := result + [mempool[k].tx];
        used := U64(used + mempool[k].blobSize);
        k := k + 1;
      }
    }
  }
}
