/** Hexadecimal text of 32-byte values (`hash_to_hex` and `hex_to_hash` in src/crypto/crypto.cpp;
    src/cryptonote_core/blockchain.cpp writes key images the same way). */
module Hex {
  import opened Words

  function HexDigit(v: nat): char
    requires v < 16
  {
    "0123456789abcdef"[v]
  }

  /** One byte at width two, zero-filled, lower case. */
  function HexByte(b: u8): string {
    [HexDigit(b / 16), HexDigit(b % 16)]
  }

  function HexPrefix(bytes: seq<u8>): (s: string)
    ensures |s| == 2 * |bytes|
  {
    if bytes == [] then "" else HexPrefix(bytes[..|bytes| - 1]) + HexByte(bytes[|bytes| - 1])
  }

  function HashHex(h: Hash): string {
    HexPrefix(h)
  }

  function DigitValue(c: char): (v: int)
    ensures -1 <= v < 16
  {
    if '0' <= c <= '9' then c as int - '0' as int
    else if 'a' <= c <= 'f' then c as int - 'a' as int + 10
    else if 'A' <= c <= 'F' then c as int - 'A' as int + 10
    else -1
  }

  predicate IsSpace(c: char) {
    c == ' ' || ('\t' <= c <= '\r')
  }

  /** `strtoul(text, nullptr, 16)` of a two-character text, cast to a byte.  A digit may be
      followed by anything; white space or a sign may precede a single digit; a minus sign
      negates modulo 2^8; anything else reads as zero. */
  function ParseByte(c0: char, c1: char): u8 {
    var v0, v1 := DigitValue(c0), DigitValue(c1);
    if v0 >= 0 then (if v1 >= 0 then 16 * v0 + v1 else v0)
    else if v1 < 0 then 0
    else if IsSpace(c0) || c0 == '+' then v1
    else if c0 == '-' then (256 - v1) % 256
    else 0
  }

  /** The byte that `hex_to_hash` stores at position i. */
  function ParsedAt(text: string, i: nat): u8 {
    if 2 * i + 1 < |text| then ParseByte(text[2 * i], text[2 * i + 1]) else 0
  }

  /** `hash_to_hex`. */
  method HashToHex(h: Hash) returns (text: string)
    ensures text == HashHex(h)
  {
    text := "";
    for i := 0 to 32
      invariant text == HexPrefix(h[..i])
    {
      assert h[..i + 1][..i] == h[..i];
      text := text + HexByte(h[i]);
    }
    assert h[..32] == h;
  }

  /** `hex_to_hash`, filling a zeroed array. */
  method HexToHash(text: string) returns (h: array<u8>)
    ensures fresh(h) && h.Length == 32 && h[..] == ParsedHash(text)
  {
    h := new u8[32](_ => 0);
    var i := 0;
    while i < 32 && i * 2 + 1 < |text|
      invariant 0 <= i <= 32
      invariant forall j :: 0 <= j < i ==> h[j] == ParsedAt(text, j)
      invariant forall j :: i <= j < 32 ==> h[j] == 0
    {
      h[i] := ParseByte(text[i * 2], text[i * 2 + 1]);
      i := i + 1;
    }
  }

  /** What `HexToHash` leaves in the array. */
  function ParsedHash(text: string): (h: Hash)
    ensures forall i :: 0 <= i < 32 ==> h[i] == ParsedAt(text, i)
  {
    ParsedPrefix(text, 32)
  }

  function ParsedPrefix(text: string, n: nat): (bytes: seq<u8>)
    ensures |bytes| == n
    ensures forall i :: 0 <= i < n ==> bytes[i] == ParsedAt(text, i)
  {
    if n == 0 then [] else ParsedPrefix(text, n - 1) + [ParsedAt(text, n - 1)]
  }

  lemma {:induction false} HexPrefixAt(bytes: seq<u8>, i: nat)
    requires i < |bytes|
    ensures HexPrefix(bytes)[2 * i] == HexDigit(bytes[i] / 16)
    ensures HexPrefix(bytes)[2 * i + 1] == HexDigit(bytes[i] % 16)
  {
    if i < |bytes| - 1 {
      HexPrefixAt(bytes[..|bytes| - 1], i);
    }
  }

  /** The text of a value: 64 characters, each the digit of half a byte, high half first. */
  lemma HexText(h: Hash, i: nat)
    requires i < 32
    ensures |HashHex(h)| == 64
    ensures HashHex(h)[2 * i] == "0123456789abcdef"[h[i] / 16]
    ensures HashHex(h)[2 * i + 1] == "0123456789abcdef"[h[i] % 16]
  {
    HexPrefixAt(h, i);
  }

  /** A text of any length: byte i is read from characters 2i and 2i + 1, and is zero when these are not both
      there. */
  lemma ParsedBytes(text: string, i: nat)
    requires i < 32
    ensures ParsedHash(text)[i] == if 2 * i + 1 < |text| then ParseByte(text[2 * i], text[2 * i + 1]) else 0
  {
  }

  /** The digit with this value, in either case. */
  predicate IsDigit(c: char, v: nat) {
    v < 16 && (c == "0123456789abcdef"[v] || c == "0123456789ABCDEF"[v])
  }

  lemma DigitExactly(c: char, v: nat)
    ensures DigitValue(c) == v <==> IsDigit(c, v)
  {
  }

  /** What two characters read as: two digits as a byte; a digit and anything else as the digit; white
      space or a plus sign before a digit is skipped, a minus sign negates; the rest is zero. */
  lemma ParsesAs(c0: char, c1: char)
    ensures forall v: nat, w: nat :: IsDigit(c0, v) && IsDigit(c1, w) ==> ParseByte(c0, c1) == 16 * v + w
    ensures forall v: nat :: IsDigit(c0, v) && (forall w: nat :: !IsDigit(c1, w)) ==> ParseByte(c0, c1) == v
    ensures forall w: nat :: c0 in " \t\n\r+" + [11 as char, 12 as char] && IsDigit(c1, w) ==> ParseByte(c0, c1) == w
    ensures forall w: nat :: c0 == '-' && IsDigit(c1, w) ==> ParseByte(c0, c1) == if w == 0 then 0 else 256 - w
    ensures (forall v: nat :: !IsDigit(c0, v)) && (forall w: nat :: !IsDigit(c1, w)) ==> ParseByte(c0, c1) == 0
    ensures (forall v: nat :: !IsDigit(c0, v)) && c0 !in " \t\n\r+-" + [11 as char, 12 as char] ==> ParseByte(c0, c1) == 0
  {
    hide DigitValue, IsDigit;
    ValueExactly(c0);
    ValueExactly(c1);
    SignsAreNoDigits(c0);
  }

  lemma ValueExactly(c: char)
    ensures forall v: nat :: IsDigit(c, v) <==> DigitValue(c) == v
    ensures DigitValue(c) < 0 <==> forall v: nat :: !IsDigit(c, v)
  {
    hide DigitValue, IsDigit;
    forall v: nat ensures IsDigit(c, v) <==> DigitValue(c) == v {
      DigitExactly(c, v);
    }
    if DigitValue(c) >= 0 {
      assert IsDigit(c, DigitValue(c));
    }
  }

  lemma SignsAreNoDigits(c: char)
    ensures IsSpace(c) || c == '+' || c == '-' ==> DigitValue(c) < 0
    ensures IsSpace(c) <==> c in " \t\n\r" + [11 as char, 12 as char]
  {
  }

  lemma DigitRoundTrip(v: nat)
    requires v < 16
    ensures DigitValue(HexDigit(v)) == v
  {
  }

  /** Reading back the text of a value gives the value. */
  lemma HexRoundTrip(h: Hash)
    ensures ParsedHash(HashHex(h)) == h
  {
    forall i | 0 <= i < 32 ensures ParsedAt(HashHex(h), i) == h[i] {
      HexPrefixAt(h, i);
      DigitRoundTrip(h[i] / 16);
      DigitRoundTrip(h[i] % 16);
    }
  }

  lemma HexInjective(h: Hash, k: Hash)
    requires HashHex(h) == HashHex(k)
    ensures h == k
  {
    HexRoundTrip(h);
    HexRoundTrip(k);
  }

  predicate LowerHexDigit(c: char) {
    '0' <= c <= '9' || 'a' <= c <= 'f'
  }

  /** The texts the node itself writes. */
  predicate Canonical(text: string) {
    |text| == 64 && forall i :: 0 <= i < 64 ==> LowerHexDigit(text[i])
  }

  lemma ByteTextRoundTrip(c0: char, c1: char)
    requires LowerHexDigit(c0) && LowerHexDigit(c1)
    ensures HexByte(ParseByte(c0, c1)) == [c0, c1]
  {
    var v0, v1: nat := DigitValue(c0), DigitValue(c1);
    assert ParseByte(c0, c1) / 16 == v0 && ParseByte(c0, c1) % 16 == v1;
    assert HexDigit(v0) == c0 && HexDigit(v1) == c1;
  }

  lemma CanonicalPair(text: string, i: nat)
    requires Canonical(text) && i < 32
    ensures HashHex(ParsedHash(text))[2 * i] == text[2 * i]
    ensures HashHex(ParsedHash(text))[2 * i + 1] == text[2 * i + 1]
  {
    HexPrefixAt(ParsedHash(text), i);
    ByteTextRoundTrip(text[2 * i], text[2 * i + 1]);
  }

  lemma HexIsCanonical(h: Hash)
    ensures Canonical(HashHex(h))
  {
    forall i | 0 <= i < 64 ensures LowerHexDigit(HashHex(h)[i]) {
      HexPrefixAt(h, i / 2);
    }
  }

  /** Writing back a parsed text gives the text exactly when it is 64 lower-case hex digits. */
  lemma TextRoundTripExactly(text: string)
    ensures HashHex(ParsedHash(text)) == text <==> Canonical(text)
  {
    HexIsCanonical(ParsedHash(text));
    if Canonical(text) {
      forall i | 0 <= i < 64 ensures HashHex(ParsedHash(text))[i] == text[i] {
        CanonicalPair(text, i / 2);
      }
    }
  }

  /** Looking a value up by its text is looking the value up, in a set of texts of values. */
  lemma LookupByText(values: set<Hash>, texts: set<string>, h: Hash)
    requires texts == set v | v in values :: HashHex(v)
    ensures HashHex(h) in texts <==> h in values
  {
    if HashHex(h) in texts {
      var v :| v in values && HashHex(v) == HashHex(h);
      HexInjective(v, h);
    }
  }
}
