/** Fixed-width machine words.
    The node is written with `uint8_t`, `uint32_t` and `uint64_t`; here they are subsets
    of the integers, and every place where the program wraps says so with `U64`. */
module Words {

  const TWO64: int := 0x1_0000_0000_0000_0000
  const TWO63: int := 0x8000_0000_0000_0000
  const U64_MAX: u64 := 0xFFFF_FFFF_FFFF_FFFF

  type u8 = x: int | 0 <= x < 0x100
  type u32 = x: int | 0 <= x < 0x1_0000_0000
  type u64 = x: int | 0 <= x < 0x1_0000_0000_0000_0000

  /** A 32-byte value: block hash, transaction hash, public key or key image. */
  type Hash = s: seq<u8> | |s| == 32 witness [
    0, 0, 0, 0, 0, 0, 0, 0, 0, 0, 0, 0, 0, 0, 0, 0, 0, 0, 0, 0, 0, 0, 0, 0, 0, 0, 0, 0, 0, 0, 0, 0]

  function ZeroHash(): (h: Hash)
    ensures forall i :: 0 <= i < 32 ==> h[i] == 0
  {
    seq<u8>(32, _ => 0)
  }

  /** Reduction of an integer to an unsigned 64-bit word. */
  function U64(x: int): u64 {
    x % 0x1_0000_0000_0000_0000
  }

  /** Subtraction of words, wrapping below zero. */
  function Minus(a: int, b: int): u64 {
    U64(a - b)
  }

  /** Multiplication of words, wrapping at 2^64. */
  function Times(a: int, b: int): u64 {
    U64(a * b)
  }

  /** The two's complement reading of a word, as `static_cast<int64_t>` gives it. */
  function AsInt64(x: u64): int {
    if x < TWO63 then x else x - TWO64
  }

  lemma U64Unique(x: int, r: u64, k: int)
    requires x == r + k * TWO64
    ensures U64(x) == r
  {
  }

  /** A value in range is its own word. */
  lemma U64Small(x: int)
    requires 0 <= x < TWO64
    ensures U64(x) == x
  {
  }

  lemma U64Split(x: int) returns (k: int)
    ensures x == U64(x) + k * TWO64
  {
    k := x / TWO64;
  }

  /** Words that differ by a multiple of 2^64 reduce to the same word. */
  lemma U64Congruent(x: int, y: int, k: int)
    requires x == y + k * TWO64
    ensures U64(x) == U64(y)
  {
    var j := U64Split(y);
    U64Unique(x, U64(y), j + k);
  }

  lemma U64AddLeft(a: int, b: int)
    ensures U64(U64(a) + b) == U64(a + b)
  {
    var k := U64Split(a);
    U64Congruent(U64(a) + b, a + b, -k);
  }

  lemma U64SubBoth(a: int, b: int)
    ensures U64(U64(a) - U64(b)) == U64(a - b)
  {
    var k := U64Split(a);
    var j := U64Split(b);
    U64Congruent(U64(a) - U64(b), a - b, j - k);
  }

  function Pow(b: nat, e: nat): (p: nat)
    ensures b > 0 ==> p > 0
  {
    if e == 0 then 1 else b * Pow(b, e - 1)
  }

  lemma MulAssociative(x: int, y: int, z: int)
    ensures x * (y * z) == (x * y) * z
  {
  }

  lemma MulLeftCommutes(x: int, y: int, z: int)
    ensures x * (y * z) == y * (x * z)
  {
  }

  lemma MulCommutes(x: int, y: int)
    ensures x * y == y * x
  {
  }

  lemma MulDistributes(x: int, y: int, z: int)
    ensures x * (y + z) == x * y + x * z
  {
  }

  lemma NotNegative(x: nat, y: nat)
    ensures x * y >= 0
  {
  }

  lemma MulAtMost(p: nat, x: int, y: int)
    requires x <= y
    ensures p * x <= p * y
  {
  }

  lemma {:induction false} PowAdd(b: nat, m: nat, n: nat)
    ensures Pow(b, m + n) == Pow(b, m) * Pow(b, n)
  {
    if m > 0 {
      PowAdd(b, m - 1, n);
      MulAssociative(b, Pow(b, m - 1), Pow(b, n));
    }
  }

  lemma PowersOfTwo()
    ensures Pow(2, 34) == 0x4_0000_0000 && Pow(2, 47) == 0x8000_0000_0000
    ensures Pow(2, 48) == 0x1_0000_0000_0000 && Pow(2, 55) == 0x80_0000_0000_0000
    ensures Pow(2, 54) == 0x40_0000_0000_0000 && Pow(2, 56) == 0x100_0000_0000_0000
    ensures Pow(2, 64) == TWO64
  {
    FirstPowersOfTwo();
    hide Pow;
    PowAdd(2, 4, 4);
    PowAdd(2, 8, 8);
    PowAdd(2, 16, 16);
    PowAdd(2, 2, 32);
    PowAdd(2, 32, 32);
    PowAdd(2, 16, 8);
    PowAdd(2, 24, 32);
    PowAdd(2, 8, 7);
    PowAdd(2, 15, 32);
    PowAdd(2, 47, 7);
    PowAdd(2, 16, 32);
    PowAdd(2, 48, 7);
  }

  lemma FirstPowersOfTwo()
    ensures Pow(2, 2) == 4 && Pow(2, 4) == 16 && Pow(2, 7) == 128
  {
  }

  // ----- products and powers in order -----

  lemma SuccessorTimes(x: int, y: int)
    ensures (x + 1) * y == x * y + y
  {
  }

  lemma CancelFactor(c: nat, x: int, y: int)
    requires c > 0 && c * x <= c * y
    ensures x <= y
  {
    MulDistributes(c, y, 1);
    if x > y {
      MulAtMost(c, y + 1, x);
    }
  }

  lemma Regroup(p: nat, a: nat, x: nat, u: nat)
    ensures (x * p) * (a * u) == (p * a) * (x * u)
  {
    MulAssociative(x * p, a, u);
    MulAssociative(x, p, a);
    MulCommutes(x, p * a);
    MulAssociative(p * a, x, u);
  }

  lemma ProductsInOrder(a: nat, b: nat, c: nat, d: nat)
    requires a >= b && c >= d
    ensures a * c >= b * d
  {
    MulAtMost(c, b, a);
    MulAtMost(b, d, c);
    MulCommutes(c, a);
    MulCommutes(c, b);
  }

  /** A ratio of powers over h steps, taken j times. */
  lemma {:induction false} PowerRatio(x: nat, y: nat, a: nat, b: nat, h: nat, j: nat)
    requires x * Pow(a, h) >= y * Pow(b, h)
    ensures Pow(x, j) * Pow(a, j * h) >= Pow(y, j) * Pow(b, j * h)
  {
    hide Pow;
    PowStep(x, j);
    PowStep(y, j);
    if j > 0 {
      var n := (j - 1) * h;
      SuccessorTimes(j - 1, h);
      PowerRatio(x, y, a, b, h, j - 1);
      PowAdd(a, n, h);
      PowAdd(b, n, h);
      ProductsInOrder(Pow(x, j - 1) * Pow(a, n), Pow(y, j - 1) * Pow(b, n), x * Pow(a, h), y * Pow(b, h));
      Regroup(Pow(x, j - 1), Pow(a, n), x, Pow(a, h));
      Regroup(Pow(y, j - 1), Pow(b, n), y, Pow(b, h));
    } else {
      PowStep(a, 0);
      PowStep(b, 0);
      assert 0 * h == 0;
    }
  }

  lemma PowPositive(b: nat, e: nat)
    requires b > 0
    ensures Pow(b, e) > 0
  {
  }

  lemma PowStep(b: nat, e: nat)
    ensures Pow(b, e) == if e == 0 then 1 else b * Pow(b, e - 1)
  {
  }

  /** From x u >= y v and d x <= c y, d v <= c u. */
  lemma RatioThrough(x: nat, y: nat, u: nat, v: nat, c: nat, d: nat)
    requires x > 0 && x * u >= y * v && d * x <= c * y
    ensures d * v <= c * u
  {
    MulAtMost(c, y * v, x * u);
    MulAtMost(v, d * x, c * y);
    MulCommutes(v, d * x);
    MulCommutes(v, c * y);
    MulAssociative(c, y, v);
    MulAssociative(d, x, v);
    MulLeftCommutes(c, x, u);
    MulLeftCommutes(d, x, v);
    CancelFactor(x, d * v, c * u);
  }

  lemma {:induction false} PowersInOrder(a: nat, b: nat, n: nat)
    requires a <= b
    ensures Pow(a, n) <= Pow(b, n)
  {
    if n > 0 {
      PowersInOrder(a, b, n - 1);
      MulAtMost(a, Pow(a, n - 1), Pow(b, n - 1));
      MulAtMost(Pow(b, n - 1), a, b);
    }
  }

  /** A bound on the ratio of powers to one exponent holds for all smaller ones. */
  lemma RatioUpTo(a: nat, b: nat, c: nat, n: nat, m: nat)
    requires 0 < a <= b && n <= m && Pow(b, m) <= c * Pow(a, m)
    ensures Pow(b, n) <= c * Pow(a, n)
  {
    hide Pow;
    var rest := m - n;
    PowAdd(b, n, rest);
    PowAdd(a, n, rest);
    PowersInOrder(a, b, rest);
    PowPositive(a, rest);
    var u, v, w := Pow(b, n), Pow(a, n), Pow(a, rest);
    MulAtMost(u, w, Pow(b, rest));
    MulCommutes(w, u);
    MulLeftCommutes(w, c, v);
    MulCommutes(w, v);
    CancelFactor(w, u, c * v);
  }

  // ----- byte order -----

  /** The n low bytes of x, least significant first. */
  function LittleEndian(x: nat, n: nat): (b: seq<u8>)
    ensures |b| == n
  {
    if n == 0 then [] else [x % 256] + LittleEndian(x / 256, n - 1)
  }

  lemma {:induction false} LittleEndianAt(x: nat, n: nat, k: nat)
    requires k < n
    ensures LittleEndian(x, n)[k] == (x / Pow(256, k)) % 256
  {
    if k > 0 {
      LittleEndianAt(x / 256, n - 1, k - 1);
      PowPositive(256, k - 1);
      DivideTwice(x, 256, Pow(256, k - 1));
    }
  }

  lemma DivisionBounds(x: nat, c: nat)
    requires c > 0
    ensures c * (x / c) <= x < c * (x / c) + c
  {
  }

  lemma DivideTwice(x: nat, a: nat, b: nat)
    requires a > 0 && b > 0
    ensures a * b > 0 && (x / a) / b == x / (a * b)
  {
    var q, ab: nat := x / a, a * b;
    var r := q / b;
    MulAtMost(a, 1, b);
    DivisionBounds(x, a);
    DivisionBounds(q, b);
    TwoBounds(x, a, q, b, r);
    QuotientIs(x, ab, r);
  }

  lemma TwoBounds(x: nat, a: nat, q: nat, b: nat, r: nat)
    requires a * q <= x < a * q + a && b * r <= q < b * r + b
    ensures (a * b) * r <= x < (a * b) * r + a * b
  {
    MulAtMost(a, b * r, q);
    MulAtMost(a, q + 1, b * r + b);
    MulDistributes(a, q, 1);
    MulDistributes(a, b * r, b);
    MulAssociative(a, b, r);
  }

  lemma QuotientIs(x: nat, c: nat, q: nat)
    requires c > 0 && c * q <= x < c * q + c
    ensures x / c == q
  {
    var p := x / c;
    if p < q {
      MulAtMost(c, p + 1, q);
      MulDistributes(c, p, 1);
    }
    if p > q {
      MulAtMost(c, q + 1, p);
      MulDistributes(c, q, 1);
    }
  }

  /** The number that digits to base 256 stand for, least significant first. */
  function FromLittleEndian(b: seq<nat>): nat {
    if b == [] then 0 else b[0] + 256 * FromLittleEndian(b[1..])
  }

  lemma {:induction false} FromLittleEndianBound(b: seq<u8>)
    ensures FromLittleEndian(b) < Pow(256, |b|)
  {
    if b != [] {
      FromLittleEndianBound(b[1..]);
    }
  }

  lemma {:induction false} LittleEndianRoundTrip(x: nat, n: nat)
    requires x < Pow(256, n)
    ensures FromLittleEndian(LittleEndian(x, n)) == x
  {
    if n > 0 {
      LittleEndianRoundTrip(x / 256, n - 1);
      var b := LittleEndian(x, n);
      assert b[1..] == LittleEndian(x / 256, n - 1);
    }
  }

  lemma {:induction false} FromLittleEndianAppend(b: seq<nat>, c: nat)
    ensures FromLittleEndian(b + [c]) == FromLittleEndian(b) + c * Pow(256, |b|)
  {
    if b == [] {
      assert b + [c] == [c];
      assert [c][1..] == [];
    } else {
      assert (b + [c])[1..] == b[1..] + [c];
      FromLittleEndianAppend(b[1..], c);
    }
  }

  lemma PowersOf256()
    ensures Pow(256, 4) == 0x1_0000_0000
    ensures Pow(256, 8) == TWO64
  {
    assert Pow(256, 4) == 0x1_0000_0000;
    PowAdd(256, 4, 4);
  }

  // ----- bit operations on non-negative integers -----

  function BitOr(a: nat, b: nat): nat
    decreases a + b
  {
    if a == 0 then b
    else if b == 0 then a
    else (if a % 2 + b % 2 > 0 then 1 else 0) + 2 * BitOr(a / 2, b / 2)
  }

  function BitXor(a: nat, b: nat): nat
    decreases a + b
  {
    if a == 0 then b
    else if b == 0 then a
    else (a % 2 + b % 2) % 2 + 2 * BitXor(a / 2, b / 2)
  }

  /** Bit k of x. */
  function Bit(x: nat, k: nat): (b: nat)
    ensures b <= 1
  {
    if k == 0 then x % 2 else Bit(x / 2, k - 1)
  }

  lemma XorHalves(a: nat, b: nat)
    ensures BitXor(a, b) % 2 == (a % 2 + b % 2) % 2
    ensures BitXor(a, b) / 2 == BitXor(a / 2, b / 2)
  {
  }

  lemma OrHalves(a: nat, b: nat)
    ensures BitOr(a, b) % 2 == if a % 2 + b % 2 > 0 then 1 else 0
    ensures BitOr(a, b) / 2 == BitOr(a / 2, b / 2)
  {
  }

  /** XOR, bit by bit: set exactly where one of the two bits is. */
  lemma {:induction false} BitXorAt(a: nat, b: nat, k: nat)
    ensures Bit(BitXor(a, b), k) == if Bit(a, k) == Bit(b, k) then 0 else 1
    decreases k
  {
    hide BitXor;
    XorHalves(a, b);
    if k > 0 {
      BitXorAt(a / 2, b / 2, k - 1);
    }
  }

  /** OR, bit by bit: clear exactly where both bits are. */
  lemma {:induction false} BitOrAt(a: nat, b: nat, k: nat)
    ensures Bit(BitOr(a, b), k) == if Bit(a, k) == 0 && Bit(b, k) == 0 then 0 else 1
    decreases k
  {
    hide BitOr;
    OrHalves(a, b);
    if k > 0 {
      BitOrAt(a / 2, b / 2, k - 1);
    }
  }

  /** The low n bits do not see what is added above them. */
  lemma {:induction false} BitBelow(x: nat, y: nat, m: nat, n: nat, k: nat)
    requires k < n && x == y + m * Pow(2, n)
    ensures Bit(x, k) == Bit(y, k)
  {
    var p := Pow(2, n - 1);
    MulLeftCommutes(m, 2, p);
    assert x == y + 2 * (m * p);
    if k > 0 {
      HalfOfSum(x, y, m * p);
      BitBelow(x / 2, y / 2, m, n - 1, k - 1);
    }
  }

  lemma HalfOfSum(x: nat, y: nat, z: nat)
    requires x == y + 2 * z
    ensures x / 2 == y / 2 + z
  {
  }

  /** Bits 0 to 7 of a number are those of its last byte. */
  lemma BitOfByte(x: nat, k: nat)
    requires k < 8
    ensures Bit(x % 256, k) == Bit(x, k)
  {
    assert Pow(2, 4) == 16;
    PowAdd(2, 4, 4);
    BitBelow(x, x % 256, x / 256, 8, k);
  }

  /** OR-ing a value shifted past every set bit of the accumulator is addition. */
  lemma {:induction false} BitOrDisjoint(a: nat, b: nat, k: nat)
    requires a < Pow(2, k)
    ensures BitOr(a, b * Pow(2, k)) == a + b * Pow(2, k)
  {
    var p := Pow(2, k);
    if b == 0 {
      MulCommutes(b, p);
    } else if a != 0 {
      var q, x := Pow(2, k - 1), b * p;
      MulLeftCommutes(b, 2, q);
      MulAtMost(p, 1, b);
      MulCommutes(p, b);
      hide Pow;
      HalfOfEven(x, b * q);
      BitOrDisjoint(a / 2, b, k - 1);
    }
  }

  lemma HalfOfEven(x: nat, half: nat)
    requires x == 2 * half
    ensures x / 2 == half && x % 2 == 0
  {
  }
}
