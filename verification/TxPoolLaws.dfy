/** What every pool reached by admissions and removals satisfies, and why its greedy template
    cannot be bettered. */
module TxPoolLaws {
  import opened Words
  import opened CryptonoteTypes
  import opened TxPool

  // ----- the pool invariant -----

  predicate SharesImage(a: Transaction, b: Transaction) {
    exists i, j :: 0 <= i < |a.vin| && 0 <= j < |b.vin| && a.vin[i].keyImage == b.vin[j].keyImage
  }

  /** Entries by descending fee, each well formed with ring size 16 and recorded with its own
      fee and the standard size; no two entries with one hash or with a key image in common. */
  ghost predicate PoolInv(pool: seq<PoolEntry>) {
    && SortedByFee(pool)
    && (forall i :: 0 <= i < |pool| ==> EntryOk(pool[i]))
    && (forall i, j :: 0 <= i < j < |pool| ==> Independent(pool[i], pool[j]))
  }

  predicate EntryOk(e: PoolEntry) {
    WellFormed(e.tx) && e.fee == e.tx.rct.fee && e.blobSize == BLOB_SIZE
  }

  predicate Independent(a: PoolEntry, b: PoolEntry) {
    a.tx.hash != b.tx.hash && !SharesImage(a.tx, b.tx)
  }

  datatype PoolOp =
    | Add(tx: Transaction, now: u64)
    | Remove(hashes: seq<Hash>)

  /** One call on the pool; the order of equal fees is left open. */
  ghost predicate PoolStep(before: seq<PoolEntry>, op: PoolOp, after: seq<PoolEntry>) {
    match op
    case Add(tx, now) =>
      if Admit(before, tx).Admitted? then SortedPermutation(before + [NewEntry(tx, now)], after)
      else after == before
    case Remove(hashes) => after == Without(before, hashes)
  }

  /** A history of the pool from empty. */
  ghost predicate PoolRun(states: seq<seq<PoolEntry>>, ops: seq<PoolOp>) {
    && |states| == |ops| + 1
    && states[0] == []
    && forall k :: 0 <= k < |ops| ==> PoolStep(states[k], ops[k], states[k + 1])
  }

  /** One admission in the fields of the entries: what was there stays, and the new entry has the
      transaction's fee, the time of the call and the size 1800. */
  lemma AdditionExactly(before: seq<PoolEntry>, tx: Transaction, now: u64, after: seq<PoolEntry>)
    requires PoolStep(before, Add(tx, now), after)
    ensures Admit(before, tx).Admitted? ==>
              && multiset(after) == multiset(before) + multiset{PoolEntry(tx, tx.rct.fee, now, 1800)}
              && forall i, j :: 0 <= i < j < |after| ==> after[i].fee >= after[j].fee
    ensures !Admit(before, tx).Admitted? ==> after == before
  {
    NewEntryFields(tx, now);
  }

  // Independence of all pairs, stated on the multiset so that it survives sorting.
  ghost predicate BagInv(bag: multiset<PoolEntry>) {
    && (forall e :: e in bag ==> EntryOk(e) && bag[e] == 1)
    && (forall a, b :: a in bag && b in bag && a != b ==> Independent(a, b))
  }

  lemma TwiceInSequence(pool: seq<PoolEntry>, i: nat, j: nat)
    requires i < j < |pool| && pool[i] == pool[j]
    ensures multiset(pool)[pool[i]] >= 2
  {
    assert pool == pool[..j] + [pool[j]] + pool[j + 1..];
    assert pool[i] in pool[..j] by {
      assert pool[..j][i] == pool[i];
    }
  }

  lemma {:induction false} OnceInSequence(pool: seq<PoolEntry>, e: PoolEntry)
    requires forall i, j :: 0 <= i < j < |pool| ==> pool[i] != pool[j]
    requires e in pool
    ensures multiset(pool)[e] == 1
  {
    var init, last := pool[..|pool| - 1], pool[|pool| - 1];
    assert pool == init + [last];
    if e in init {
      OnceInSequence(init, e);
      assert e != last;
    }
  }

  lemma EntriesOnce(pool: seq<PoolEntry>, e: PoolEntry)
    requires PoolInv(pool) && e in pool
    ensures EntryOk(e) && multiset(pool)[e] == 1
  {
    forall i, j | 0 <= i < j < |pool| ensures pool[i] != pool[j] {
      assert Independent(pool[i], pool[j]);
    }
    OnceInSequence(pool, e);
  }

  lemma EntriesIndependent(pool: seq<PoolEntry>, a: PoolEntry, b: PoolEntry)
    requires PoolInv(pool) && a in pool && b in pool && a != b
    ensures Independent(a, b)
  {
    var i :| 0 <= i < |pool| && pool[i] == a;
    var j :| 0 <= j < |pool| && pool[j] == b;
    assert if i < j then Independent(pool[i], pool[j]) else Independent(pool[j], pool[i]);
  }

  lemma PoolInvToBag(pool: seq<PoolEntry>)
    requires PoolInv(pool)
    ensures BagInv(multiset(pool))
  {
    forall e | e in multiset(pool) ensures EntryOk(e) && multiset(pool)[e] == 1 {
      EntriesOnce(pool, e);
    }
    forall a, b | a in multiset(pool) && b in multiset(pool) && a != b ensures Independent(a, b) {
      EntriesIndependent(pool, a, b);
    }
  }

  lemma BagToPoolInv(pool: seq<PoolEntry>)
    requires SortedByFee(pool) && BagInv(multiset(pool))
    ensures PoolInv(pool)
  {
    forall i, j | 0 <= i < j < |pool| ensures Independent(pool[i], pool[j]) {
      assert pool[i] in multiset(pool) && pool[j] in multiset(pool);
      if pool[i] == pool[j] {
        TwiceInSequence(pool, i, j);
      }
    }
    forall i | 0 <= i < |pool| ensures EntryOk(pool[i]) {
      assert pool[i] in multiset(pool);
    }
  }

  lemma AdmittedIsIndependent(pool: seq<PoolEntry>, tx: Transaction, now: u64, e: PoolEntry)
    requires Admit(pool, tx).Admitted? && e in pool
    ensures Independent(e, NewEntry(tx, now)) && Independent(NewEntry(tx, now), e)
  {
    AdmittedExactly(pool, tx);
    var k :| 0 <= k < |pool| && pool[k] == e;
    assert pool[k].tx.hash != tx.hash;
    forall i, j | 0 <= i < |e.tx.vin| && 0 <= j < |tx.vin| ensures e.tx.vin[i].keyImage != tx.vin[j].keyImage {
      assert pool[k].tx.vin[i].keyImage == e.tx.vin[i].keyImage;
      assert !ImageIn(pool, tx.vin[j].keyImage);
    }
  }

  lemma AddKeepsInv(before: seq<PoolEntry>, tx: Transaction, now: u64, after: seq<PoolEntry>)
    requires PoolInv(before) && PoolStep(before, Add(tx, now), after)
    ensures PoolInv(after)
  {
    if Admit(before, tx).Admitted? {
      AdmittedExactly(before, tx);
      PoolInvToBag(before);
      var entry := NewEntry(tx, now);
      forall e | e in before ensures Independent(e, entry) && Independent(entry, e) {
        AdmittedIsIndependent(before, tx, now, e);
      }
      assert multiset(after) == multiset(before) + multiset{entry};
      assert entry !in before;
      BagToPoolInv(after);
    }
  }

  /** Removal keeps exactly the entries with unlisted hashes, each as often as before. */
  lemma {:induction false} RemovalExactly(pool: seq<PoolEntry>, hashes: seq<Hash>, e: PoolEntry)
    ensures multiset(Without(pool, hashes))[e] == if e.tx.hash in hashes then 0 else multiset(pool)[e]
  {
    if pool != [] {
      var init, last := pool[..|pool| - 1], pool[|pool| - 1];
      assert pool == init + [last];
      RemovalExactly(init, hashes, e);
    }
  }

  lemma {:induction false} RemovalKeepsOrder(pool: seq<PoolEntry>, hashes: seq<Hash>)
    requires SortedByFee(pool)
    ensures SortedByFee(Without(pool, hashes))
  {
    if pool != [] {
      var init, last := pool[..|pool| - 1], pool[|pool| - 1];
      RemovalKeepsOrder(init, hashes);
      forall e | e in Without(init, hashes) ensures e.fee >= last.fee {
        RemovalExactly(init, hashes, e);
        assert e in multiset(Without(init, hashes));
        assert e in multiset(init);
      }
    }
  }

  lemma RemoveKeepsInv(before: seq<PoolEntry>, hashes: seq<Hash>)
    requires PoolInv(before)
    ensures PoolInv(Without(before, hashes))
  {
    PoolInvToBag(before);
    RemovalKeepsOrder(before, hashes);
    var after := Without(before, hashes);
    forall e | e in multiset(after) ensures e in multiset(before) && multiset(after)[e] == 1 {
      RemovalExactly(before, hashes, e);
    }
    BagToPoolInv(after);
  }

  /** The invariant holds after every sequence of admissions and removals, however ties are ordered. */
  lemma {:induction false} PoolRunInvariant(states: seq<seq<PoolEntry>>, ops: seq<PoolOp>, k: nat)
    requires PoolRun(states, ops) && k < |states|
    ensures PoolInv(states[k])
  {
    if k > 0 {
      PoolRunInvariant(states, ops, k - 1);
      assert PoolStep(states[k - 1], ops[k - 1], states[k - 1 + 1]);
      match ops[k - 1]
      case Add(tx, now) => AddKeepsInv(states[k - 1], tx, now, states[k]);
      case Remove(hashes) => RemoveKeepsInv(states[k - 1], hashes);
    }
  }

  /** The same in the fields of the entries of a reachable pool. */
  lemma PoolEntriesExactly(states: seq<seq<PoolEntry>>, ops: seq<PoolOp>, k: nat, i: nat)
    requires PoolRun(states, ops) && k < |states| && i < |states[k]|
    ensures var e := states[k][i];
            && |e.tx.vin| > 0 && |e.tx.vout| > 0
            && e.tx.rct.kind == 6 && |e.tx.rct.bulletproofPlus| > 0 && |e.tx.rct.clsag| > 0
            && (forall j :: 0 <= j < |e.tx.vin| ==> |e.tx.vin[j].keyOffsets| == 16)
            && e.fee == e.tx.rct.fee && e.blobSize == 1800
    ensures forall j :: i < j < |states[k]| ==>
              && states[k][i].fee >= states[k][j].fee && states[k][i].tx.hash != states[k][j].tx.hash
              && forall a, b :: 0 <= a < |states[k][i].tx.vin| && 0 <= b < |states[k][j].tx.vin| ==>
                   states[k][i].tx.vin[a].keyImage != states[k][j].tx.vin[b].keyImage
  {
    PoolRunInvariant(states, ops, k);
    var pool := states[k];
    assert EntryOk(pool[i]);
    WellFormedExactly(pool[i].tx);
    forall j | i < j < |pool| ensures Independent(pool[i], pool[j]) {
    }
  }

  // ----- the template -----

  /** The number of entries that could be added before the byte count wraps. */
  const MOST_ENTRIES: nat := 10248191152060862

  lemma {:induction false} TemplateWithoutWrap(pool: seq<PoolEntry>, maxBytes: u64, i: nat, used: u64)
    requires forall k :: 0 <= k < |pool| ==> pool[k].blobSize == BLOB_SIZE
    requires |pool| <= MOST_ENTRIES || maxBytes < 1800 * MOST_ENTRIES
    requires i <= |pool| && used == 1800 * i && used <= maxBytes
    ensures i + TemplateCount(pool, maxBytes, i, used) == if |pool| <= maxBytes / 1800 then |pool| else maxBytes / 1800
    decreases |pool| - i
  {
    if i < |pool| {
      assert i < MOST_ENTRIES && pool[i].blobSize == 1800;
      assert U64(used + 1800) == used + 1800;
      if used + BLOB_SIZE <= maxBytes {
        TemplateWithoutWrap(pool, maxBytes, i + 1, used + BLOB_SIZE);
      }
    }
  }

  lemma {:induction false} TemplateWithWrap(pool: seq<PoolEntry>, maxBytes: u64, i: nat, used: u64)
    requires forall k :: 0 <= k < |pool| ==> pool[k].blobSize == BLOB_SIZE
    requires |pool| > MOST_ENTRIES && maxBytes >= 1800 * MOST_ENTRIES
    requires i <= MOST_ENTRIES && used == 1800 * i
    ensures i + TemplateCount(pool, maxBytes, i, used) > MOST_ENTRIES
    decreases MOST_ENTRIES - i
  {
    if i < MOST_ENTRIES {
      TemplateWithWrap(pool, maxBytes, i + 1, used + BLOB_SIZE);
    } else {
      assert U64(used + BLOB_SIZE) <= maxBytes;
    }
  }

  /** Every reachable pool yields its first min(size, maxBytes / 1800) transactions, exactly when
      the pool is too small or the limit too low for the byte count to wrap. */
  lemma TemplateExactly(pool: seq<PoolEntry>, maxBytes: u64)
    requires PoolInv(pool)
    ensures TemplateCount(pool, maxBytes, 0, 0) == (if |pool| <= maxBytes / 1800 then |pool| else maxBytes / 1800)
            <==> |pool| <= MOST_ENTRIES || maxBytes < 1800 * MOST_ENTRIES
  {
    if |pool| <= MOST_ENTRIES || maxBytes < 1800 * MOST_ENTRIES {
      TemplateWithoutWrap(pool, maxBytes, 0, 0);
    } else {
      TemplateWithWrap(pool, maxBytes, 0, 0);
      assert maxBytes / 1800 <= MOST_ENTRIES;
    }
  }

  function FeeSum(pool: seq<PoolEntry>): nat {
    if pool == [] then 0 else FeeSum(pool[..|pool| - 1]) + pool[|pool| - 1].fee
  }

  // A selection of entries is a sequence of flags, one an entry.

  function ChosenFees(pool: seq<PoolEntry>, chosen: seq<bool>): nat
    requires |chosen| == |pool|
  {
    if pool == [] then 0
    else ChosenFees(pool[..|pool| - 1], chosen[..|pool| - 1]) + if chosen[|pool| - 1] then pool[|pool| - 1].fee else 0
  }

  function ChosenBytes(pool: seq<PoolEntry>, chosen: seq<bool>): nat
    requires |chosen| == |pool|
  {
    if pool == [] then 0
    else ChosenBytes(pool[..|pool| - 1], chosen[..|pool| - 1]) + if chosen[|pool| - 1] then pool[|pool| - 1].blobSize else 0
  }

  function ChosenCount(chosen: seq<bool>): (n: nat)
    ensures n <= |chosen|
  {
    if chosen == [] then 0
    else ChosenCount(chosen[..|chosen| - 1]) + if chosen[|chosen| - 1] then 1 else 0
  }

  lemma {:induction false} ChosenBytesCount(pool: seq<PoolEntry>, chosen: seq<bool>)
    requires |chosen| == |pool| && forall k :: 0 <= k < |pool| ==> pool[k].blobSize == BLOB_SIZE
    ensures ChosenBytes(pool, chosen) == 1800 * ChosenCount(chosen)
  {
    if pool != [] {
      ChosenBytesCount(pool[..|pool| - 1], chosen[..|pool| - 1]);
    }
  }

  /** No selection of c entries pays more than the first c. */
  lemma {:induction false} SelectionBelowPrefix(pool: seq<PoolEntry>, chosen: seq<bool>)
    requires |chosen| == |pool| && SortedByFee(pool)
    ensures ChosenFees(pool, chosen) <= FeeSum(pool[..ChosenCount(chosen)])
  {
    if pool != [] {
      var m := |pool| - 1;
      var c := ChosenCount(chosen);
      SelectionBelowPrefix(pool[..m], chosen[..m]);
      if chosen[m] {
        assert pool[..c][..c - 1] == pool[..m][..c - 1];
        assert pool[c - 1].fee >= pool[m].fee;
      } else {
        assert pool[..m][..c] == pool[..c];
      }
    }
  }

  lemma {:induction false} FeeSumGrows(pool: seq<PoolEntry>, c: nat, d: nat)
    requires c <= d <= |pool|
    ensures FeeSum(pool[..c]) <= FeeSum(pool[..d])
  {
    if c < d {
      FeeSumGrows(pool, c, d - 1);
      assert pool[..d][..d - 1] == pool[..d - 1];
    }
  }

  /** The greedy template fits in the limit, and no selection of pool entries that fits pays more. */
  lemma TemplateOptimal(pool: seq<PoolEntry>, maxBytes: u64, chosen: seq<bool>)
    requires PoolInv(pool) && (|pool| <= MOST_ENTRIES || maxBytes < 1800 * MOST_ENTRIES)
    requires |chosen| == |pool| && ChosenBytes(pool, chosen) <= maxBytes
    ensures 1800 * TemplateCount(pool, maxBytes, 0, 0) <= maxBytes
    ensures ChosenFees(pool, chosen) <= FeeSum(pool[..TemplateCount(pool, maxBytes, 0, 0)])
  {
    TemplateExactly(pool, maxBytes);
    ChosenBytesCount(pool, chosen);
    SelectionBelowPrefix(pool, chosen);
    FeeSumGrows(pool, ChosenCount(chosen), TemplateCount(pool, maxBytes, 0, 0));
  }
}
