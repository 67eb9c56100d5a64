/** The proof-of-work function and its target test (src/crypto/randomx-monero.cpp and
    `check_pow_hash` in src/crypto/difficulty.cpp). */
module ProofOfWork {
  import opened Words

  // ----- the XOR fold -----

  /** Input byte i plus 7i, as a byte. */
  function Mixed(byte: u8, i: nat): u8 {
    (byte + (i * 7) % 256) % 256
  }

  /** The 32 output bytes after the first n input bytes. */
  function FoldPrefix(input: seq<u8>, n: nat): Hash
    requires n <= |input|
  {
    if n == 0 then ZeroHash()
    else
      var before := FoldPrefix(input, n - 1);
      var slot := (n - 1) % 32;
      before[slot := BitXor(before[slot], (input[n - 1] as int) + ((n - 1) * 7) % 256) % 256]
  }

  /** `calculate_hash` of an input, with its first byte forced to zero. */
  function PowHash(input: seq<u8>): Hash {
    FoldPrefix(input, |input|)[0 := 0]
  }

  lemma FreshSlot(input: seq<u8>, n: nat)
    requires 1 <= n <= |input| && n <= 32
    requires FoldPrefix(input, n - 1)[n - 1] == 0
    ensures FoldPrefix(input, n) == FoldPrefix(input, n - 1)[n - 1 := Mixed(input[n - 1], n - 1)]
  {
    hide BitXor;
    SmallRemainder(n - 1);
    XorIntoZero((input[n - 1] as int) + ((n - 1) * 7) % 256);
  }

  lemma SmallRemainder(i: nat)
    requires i < 32
    ensures i % 32 == i
  {
  }

  lemma XorIntoZero(x: nat)
    ensures BitXor(0, x) == x
  {
  }

  /** Up to 32 bytes of input meet fresh slots, so the fold is a byte-wise sum. */
  lemma {:induction false} FoldOfShortPrefix(input: seq<u8>, n: nat, i: nat)
    requires n <= |input| && n <= 32 && i < 32
    ensures FoldPrefix(input, n)[i] == if i < n then Mixed(input[i], i) else 0
  {
    if n > 0 {
      FoldOfShortPrefix(input, n - 1, i);
      FoldOfShortPrefix(input, n - 1, n - 1);
      FreshSlot(input, n);
    }
  }

  /** In numbers: byte i of the fold of a short input is that of the input plus seven times i. */
  lemma FoldOfShortInput(input: seq<u8>, i: nat)
    requires |input| <= 32 && i < 32
    ensures FoldPrefix(input, |input|)[i] == if i < |input| then (input[i] as int + 7 * i) % 256 else 0
  {
    hide FoldPrefix, Mixed;
    FoldOfShortPrefix(input, |input|, i);
    if i < |input| {
      MixedIs(input[i], i);
    }
  }

  lemma MixedIs(byte: u8, i: nat)
    ensures Mixed(byte, i) == (byte as int + 7 * i) % 256
  {
    var n: nat := byte;
    SumOfRemainders(n, 7 * i);
    MulCommutes(7, i);
  }

  lemma SumOfRemainders(x: nat, y: nat)
    ensures (x + y % 256) % 256 == (x + y) % 256
  {
  }

  /** How many of the first n input bytes, at positions i, i + 32, i + 64 and so on, have bit k set once
      seven times their position has been added. */
  function BitsSet(input: seq<u8>, n: nat, i: nat, k: nat): nat
    requires n <= |input|
  {
    if n == 0 then 0
    else BitsSet(input, n - 1, i, k) + if (n - 1) % 32 == i then Bit(input[n - 1] + 7 * (n - 1), k) else 0
  }

  lemma FoldStep(input: seq<u8>, n: nat, i: nat)
    requires 1 <= n <= |input| && i < 32
    ensures FoldPrefix(input, n)[i]
         == if (n - 1) % 32 == i
            then BitXor(FoldPrefix(input, n - 1)[i], (input[n - 1] as int) + ((n - 1) * 7) % 256) % 256
            else FoldPrefix(input, n - 1)[i]
  {
    hide BitXor;
  }

  lemma ParityStep(before: nat, byte: nat, position: nat, k: nat)
    requires k < 8
    ensures Bit(BitXor(before, byte + (position * 7) % 256) % 256, k)
         == (Bit(before, k) + Bit(byte + 7 * position, k)) % 2
  {
    hide BitXor, Bit;
    var added := byte + (position * 7) % 256;
    BitOfByte(BitXor(before, added), k);
    BitXorAt(before, added, k);
    SameByte(byte, position, k);
  }

  /** The fold of an input of any length: each output bit is the parity of its input bits. */
  lemma {:induction false} FoldIsParity(input: seq<u8>, n: nat, i: nat, k: nat)
    requires n <= |input| && i < 32 && k < 8
    ensures Bit(FoldPrefix(input, n)[i], k) == BitsSet(input, n, i, k) % 2
  {
    hide BitXor, Bit, FoldPrefix, BitsSet;
    if n == 0 {
      NothingFolded(input, i, k);
    } else {
      FoldIsParity(input, n - 1, i, k);
      FoldStep(input, n, i);
      BitsSetStep(input, n, i, k);
      if (n - 1) % 32 == i {
        ParityStep(FoldPrefix(input, n - 1)[i], input[n - 1], n - 1, k);
      }
    }
  }

  lemma NothingFolded(input: seq<u8>, i: nat, k: nat)
    requires i < 32 && k < 8
    ensures Bit(FoldPrefix(input, 0)[i], k) == BitsSet(input, 0, i, k) == 0
  {
    hide Bit;
    BitOfZero(k);
  }

  lemma BitsSetStep(input: seq<u8>, n: nat, i: nat, k: nat)
    requires 1 <= n <= |input|
    ensures BitsSet(input, n, i, k)
         == BitsSet(input, n - 1, i, k) + if (n - 1) % 32 == i then Bit(input[n - 1] + 7 * (n - 1), k) else 0
  {
    hide Bit;
  }

  lemma BitOfZero(k: nat)
    requires k < 8
    ensures Bit(0, k) == 0
  {
  }

  lemma SameByte(byte: nat, position: nat, k: nat)
    requires k < 8
    ensures Bit(byte + (position * 7) % 256, k) == Bit(byte + 7 * position, k)
  {
    hide Bit;
    var moved: nat := position * 7;
    MulCommutes(7, position);
    SumOfRemainders(byte, moved);
    BitOfByte(byte + moved % 256, k);
    BitOfByte(byte + moved, k);
  }

  /** `calculate_hash` of any input: a zero, then the parities. */
  lemma PowHashIsParity(input: seq<u8>, i: nat, k: nat)
    requires i < 32 && k < 8
    ensures PowHash(input)[0] == 0
    ensures i > 0 ==> Bit(PowHash(input)[i], k) == BitsSet(input, |input|, i, k) % 2
  {
    FoldIsParity(input, |input|, i, k);
  }

  /** The singleton behind `RandomXManager::instance()`; `requested` records the epochs whose
      datasets were asked for in advance. */
  class RandomXManager {
    var initialized: bool
    var requested: seq<nat>

    constructor ()
      ensures !initialized && requested == []
    {
      initialized := false;
      requested := [];
    }

    method InitDataset()
      modifies this
      ensures initialized && requested == old(requested)
    {
      initialized := true;
    }

    method PreallocateNextEpoch(epoch: nat)
      modifies this
      ensures requested == old(requested) + [epoch] && initialized == old(initialized)
    {
      requested := requested + [epoch];
    }

    /** `calculate_hash`, writing into the caller's 32-byte buffer. */
    method CalculateHash(input: seq<u8>, output: array<u8>)
      requires output.Length == 32
      modifies this, output
      ensures initialized && requested == old(requested)
      ensures output[..] == PowHash(input)
    {
      if !initialized {
        InitDataset();
      }
      for k := 0 to 32
        modifies output
        invariant forall j :: 0 <= j < k ==> output[j] == 0
      {
        output[k] := 0;
      }
      for i := 0 to |input|
        modifies output
        invariant forall j :: 0 <= j < 32 ==> output[j] == FoldPrefix(input, i)[j]
      {
        output[i % 32] := BitXor(output[i % 32], (input[i] as int) + (i * 7) % 256) % 256;
      }
      output[0] := 0;
    }

    method Shutdown()
      modifies this
      ensures !initialized && requested == old(requested)
    {
      initialized := false;
    }
  }

  // ----- the target test -----

  /** The first eight bytes of a digest as a little-endian number. */
  function LowWord(digest: Hash): nat {
    FromLittleEndian(digest[..8])
  }

  /** The number compares with 2^64 - 1 as a product, which is what the division decides. */
  predicate MeetsTarget(digest: Hash, difficulty: nat) {
    difficulty > 0 && LowWord(digest) * difficulty <= U64_MAX
  }

  lemma DivisionDecides(value: nat, difficulty: nat, bound: nat)
    requires difficulty > 0
    ensures value <= bound / difficulty <==> value * difficulty <= bound
  {
    var q := bound / difficulty;
    assert difficulty * q <= bound < difficulty * (q + 1);
    if value <= q {
      MulAtMost(difficulty, value, q);
    } else {
      MulAtMost(difficulty, q + 1, value);
    }
  }

  lemma {:induction false} PowTwoOf8(i: nat)
    ensures Pow(2, 8 * i) == Pow(256, i)
  {
    if i > 0 {
      PowTwoOf8(i - 1);
      PowAdd(2, 8, 8 * (i - 1));
      assert Pow(2, 8) == 256;
    }
  }

  lemma PowerFits(i: nat)
    requires i <= 8
    ensures Pow(256, i) <= TWO64
  {
    PowersOf256();
    PowAdd(256, i, 8 - i);
    assert Pow(256, i) * 1 <= Pow(256, i) * Pow(256, 8 - i);
  }

  lemma NextByte(digest: Hash, i: nat)
    requires i < 8
    ensures FromLittleEndian(digest[..i]) < Pow(256, i)
    ensures FromLittleEndian(digest[..i]) + digest[i] * Pow(256, i) == FromLittleEndian(digest[..i + 1]) < TWO64
  {
    FromLittleEndianBound(digest[..i]);
    assert digest[..i + 1] == digest[..i] + [digest[i]];
    FromLittleEndianAppend(digest[..i], digest[i]);
    FromLittleEndianBound(digest[..i + 1]);
    PowerFits(i + 1);
  }

  /** One turn of the byte loop: shifting byte i into an accumulator of i bytes. */
  lemma ShiftedByte(digest: Hash, i: nat)
    requires i < 8
    ensures BitOr(FromLittleEndian(digest[..i]), Times(digest[i], Pow(2, 8 * i))) == FromLittleEndian(digest[..i + 1])
  {
    hide Pow, FromLittleEndian, BitOr;
    NextByte(digest, i);
    NoWrap(digest[i] * Pow(256, i), FromLittleEndian(digest[..i]));
    PowTwoOf8(i);
    BitOrDisjoint(FromLittleEndian(digest[..i]), digest[i], 8 * i);
  }

  lemma NoWrap(shifted: nat, value: nat)
    requires value + shifted < TWO64
    ensures U64(shifted) == shifted
  {
  }

  /** `check_pow_hash`. */
  method CheckPowHash(digest: Hash, difficulty: u64) returns (ok: bool)
    ensures ok == MeetsTarget(digest, difficulty)
  {
    var value: nat := 0;
    for i := 0 to 8
      invariant value == FromLittleEndian(digest[..i])
    {
      ShiftedByte(digest, i);
      value := BitOr(value, Times(digest[i], Pow(2, 8 * i)));
    }
    if difficulty == 0 {
      return false;
    }
    DivisionDecides(value, difficulty, U64_MAX);
    ok := value <= U64_MAX / difficulty;
  }

  // ----- the decision on a block hash -----

  /** The number a block hash stands for: byte i, for i from 1 to 7, is x[i] + 7i modulo 256. */
  function PowValue(x: Hash): nat {
    Mixed(x[1], 1) * 0x100 + Mixed(x[2], 2) * 0x1_0000 + Mixed(x[3], 3) * 0x100_0000
    + Mixed(x[4], 4) * 0x1_0000_0000 + Mixed(x[5], 5) * 0x100_0000_0000
    + Mixed(x[6], 6) * 0x1_0000_0000_0000 + Mixed(x[7], 7) * 0x100_0000_0000_0000
  }

  lemma EightBytes(b: seq<nat>)
    requires |b| == 8
    ensures FromLittleEndian(b)
         == b[0] + b[1] * 0x100 + b[2] * 0x1_0000 + b[3] * 0x100_0000
            + b[4] * 0x1_0000_0000 + b[5] * 0x100_0000_0000
            + b[6] * 0x1_0000_0000_0000 + b[7] * 0x100_0000_0000_0000
  {
    assert FromLittleEndian(b[8..]) == 0;
    assert FromLittleEndian(b[7..]) == b[7] + 256 * FromLittleEndian(b[8..]) by { assert b[7..][1..] == b[8..]; }
    assert FromLittleEndian(b[6..]) == b[6] + 256 * FromLittleEndian(b[7..]) by { assert b[6..][1..] == b[7..]; }
    assert FromLittleEndian(b[5..]) == b[5] + 256 * FromLittleEndian(b[6..]) by { assert b[5..][1..] == b[6..]; }
    assert FromLittleEndian(b[4..]) == b[4] + 256 * FromLittleEndian(b[5..]) by { assert b[4..][1..] == b[5..]; }
    assert FromLittleEndian(b[3..]) == b[3] + 256 * FromLittleEndian(b[4..]) by { assert b[3..][1..] == b[4..]; }
    assert FromLittleEndian(b[2..]) == b[2] + 256 * FromLittleEndian(b[3..]) by { assert b[2..][1..] == b[3..]; }
    assert FromLittleEndian(b[1..]) == b[1] + 256 * FromLittleEndian(b[2..]) by { assert b[1..][1..] == b[2..]; }
    assert FromLittleEndian(b[0..]) == b[0] + 256 * FromLittleEndian(b[1..]) by { assert b[0..][1..] == b[1..]; }
    assert b[0..] == b;
  }

  /** The target test of any digest: its first eight bytes, lowest first, times the difficulty fit in 64 bits. */
  lemma TargetExactly(digest: Hash, difficulty: nat)
    ensures MeetsTarget(digest, difficulty) <==>
            && difficulty > 0
            && (digest[0] as int + digest[1] as int * 0x100 + digest[2] as int * 0x1_0000
                + digest[3] as int * 0x100_0000 + digest[4] as int * 0x1_0000_0000 + digest[5] as int * 0x100_0000_0000
                + digest[6] as int * 0x1_0000_0000_0000 + digest[7] as int * 0x100_0000_0000_0000) * difficulty
               <= 0xFFFF_FFFF_FFFF_FFFF
  {
    hide FromLittleEndian;
    EightBytes(digest[..8]);
  }

  /** Fold and byte loop composed: what the target test reads off a block hash. */
  lemma LowWordOfPowHash(x: Hash)
    ensures LowWord(PowHash(x)) == PowValue(x)
  {
    var b := PowHash(x)[..8];
    assert b[0] == 0;
    forall i | 1 <= i < 8 ensures b[i] == Mixed(x[i], i) {
      FoldOfShortPrefix(x, 32, i);
    }
    EightBytes(b);
  }

  /** A block hash is accepted at difficulty d exactly when d is positive and V * d fits in 64 bits. */
  lemma PowDecision(x: Hash, difficulty: nat)
    ensures MeetsTarget(PowHash(x), difficulty) <==> difficulty > 0 && PowValue(x) * difficulty <= U64_MAX
  {
    LowWordOfPowHash(x);
  }

  /** The number V in bytes of the hash. */
  lemma PowValueInBytes(x: Hash)
    ensures PowValue(x)
         == (x[1] as int + 7) % 256 * 0x100 + (x[2] as int + 14) % 256 * 0x1_0000 + (x[3] as int + 21) % 256 * 0x100_0000
            + (x[4] as int + 28) % 256 * 0x1_0000_0000 + (x[5] as int + 35) % 256 * 0x100_0000_0000
            + (x[6] as int + 42) % 256 * 0x1_0000_0000_0000 + (x[7] as int + 49) % 256 * 0x100_0000_0000_0000
  {
    hide Mixed;
    MixedIs(x[1], 1);
    MixedIs(x[2], 2);
    MixedIs(x[3], 3);
    MixedIs(x[4], 4);
    MixedIs(x[5], 5);
    MixedIs(x[6], 6);
    MixedIs(x[7], 7);
  }

  lemma SamePowValue(x: Hash, y: Hash)
    requires x[1..8] == y[1..8]
    ensures PowValue(x) == PowValue(y)
  {
    forall i | 1 <= i < 8 ensures Mixed(x[i], i) == Mixed(y[i], i) {
      assert x[i] == x[1..8][i - 1] == y[1..8][i - 1] == y[i];
    }
  }

  /** Work that meets a difficulty meets every smaller positive one, and the bytes outside
      positions 1 to 7 have no influence. */
  lemma PowMonotone(x: Hash, y: Hash, difficulty: nat, easier: nat)
    requires MeetsTarget(PowHash(x), difficulty)
    requires 0 < easier <= difficulty
    requires x[1..8] == y[1..8]
    ensures MeetsTarget(PowHash(y), easier)
  {
    LowWordOfPowHash(x);
    LowWordOfPowHash(y);
    SamePowValue(x, y);
    MulAtMost(PowValue(x), easier, difficulty);
  }
}
