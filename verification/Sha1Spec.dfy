/**
 The Secure Hash Standard as RFC 3174 states it: padding (section 4), functions and
 constants (section 5) and the plain eighty-word method (section 6.1).
 */
module Sha1Spec {

  type word = bv32

  /** The circular left shift S^n(X) of section 3, for the shifts SHA-1 needs. */
  function Rotate1(x: word): word { (x << 1) | (x >> 31) }
  function Rotate5(x: word): word { (x << 5) | (x >> 27) }
  function Rotate30(x: word): word { (x << 30) | (x >> 2) }

  function BigEndian(b0: bv8, b1: bv8, b2: bv8, b3: bv8): word {
    (b0 as word << 24) | (b1 as word << 16) | (b2 as word << 8) | (b3 as word)
  }

  datatype Registers = Registers(a: word, b: word, c: word, d: word, e: word)

  const INITIAL := Registers(0x67452301, 0xEFCDAB89, 0x98BADCFE, 0x10325476, 0xC3D2E1F0)

  type Block = m: seq<bv8> | |m| == 64 witness seq(64, _ => 0)

  function Choose(b: word, c: word, d: word): word { (b & c) | (!b & d) }
  function Parity(b: word, c: word, d: word): word { b ^ c ^ d }
  function Majority(b: word, c: word, d: word): word { (b & c) | (b & d) | (c & d) }

  /** Section 5: the functions f(t; B, C, D). */
  function F(t: nat, b: word, c: word, d: word): word {
    if t < 20 then Choose(b, c, d)
    else if t < 40 then Parity(b, c, d)
    else if t < 60 then Majority(b, c, d)
    else Parity(b, c, d)
  }

  /** Section 5: the constants K(t). */
  function K(t: nat): word {
    if t < 20 then 0x5A827999
    else if t < 40 then 0x6ED9EBA1
    else if t < 60 then 0x8F1BBCDC
    else 0xCA62C1D6
  }

  /** The constants are 2^30 times the square roots of 2, 3, 5 and 10, rounded down. */
  lemma ConstantsAreRoots(t: nat)
    ensures t < 20 ==> K(t) == 0x5A827999
    ensures 20 <= t < 40 ==> K(t) == 0x6ED9EBA1
    ensures 40 <= t < 60 ==> K(t) == 0x8F1BBCDC
    ensures 60 <= t ==> K(t) == 0xCA62C1D6
    ensures IsRoot(0x5A827999, 2) && IsRoot(0x6ED9EBA1, 3) && IsRoot(0x8F1BBCDC, 5) && IsRoot(0xCA62C1D6, 10)
  {
  }

  predicate IsRoot(k: nat, n: nat) {
    k * k <= n * 0x1000_0000_0000_0000 < (k + 1) * (k + 1)
  }

  /** The initial words are the bytes 01 23 45 67 89 ab cd ef fe dc ba 98 76 54 32 10 f0 e1 d2 c3, low byte first. */
  lemma InitialBytes()
    ensures INITIAL.a == BigEndian(0x67, 0x45, 0x23, 0x01) && INITIAL.b == BigEndian(0xef, 0xcd, 0xab, 0x89)
    ensures INITIAL.c == BigEndian(0x98, 0xba, 0xdc, 0xfe) && INITIAL.d == BigEndian(0x10, 0x32, 0x54, 0x76)
    ensures INITIAL.e == BigEndian(0xc3, 0xd2, 0xe1, 0xf0)
  {
  }

  /** A circular shift by one moves every bit up and the highest to the lowest place; the others repeat it. */
  lemma RotateOnce(x: word)
    ensures Rotate1(x) & 1 == x >> 31
    ensures Rotate1(x) >> 1 == x & 0x7fff_ffff
  {
  }

  lemma RotateFiveTimes(x: word)
    ensures Rotate5(x) == Rotate1(Rotate1(Rotate1(Rotate1(Rotate1(x)))))
  {
  }

  lemma RotateThirtyTimes(x: word)
    ensures Rotate1(Rotate1(Rotate30(x))) == x
  {
  }

  /** The functions of the four quarters; the next three lemmas say what they are, bit by bit. */
  lemma FunctionsByQuarter(t: nat, b: word, c: word, d: word)
    ensures t < 20 ==> F(t, b, c, d) == Choose(b, c, d)
    ensures 20 <= t < 40 || 60 <= t ==> F(t, b, c, d) == Parity(b, c, d)
    ensures 40 <= t < 60 ==> F(t, b, c, d) == Majority(b, c, d)
  {
    hide Choose, Parity, Majority;
  }

  lemma ChoiceBits(b: word, c: word, d: word)
    ensures Choose(b, c, d) & b == b & c && Choose(b, c, d) & !b == !b & d
  {
  }

  lemma ParityBits(b: word, c: word, d: word)
    ensures Parity(b, c, d) ^ b ^ c == d
  {
  }

  lemma MajorityBits(b: word, c: word, d: word)
    ensures Majority(b, c, d) & (b ^ c) == d & (b ^ c) && Majority(b, c, d) & !(b ^ c) == b & !(b ^ c)
  {
  }

  /** Section 6.1, steps (a) and (b): word t of the message schedule. */
  function W(m: Block, t: nat): word {
    if t < 16 then BigEndian(m[4 * t], m[4 * t + 1], m[4 * t + 2], m[4 * t + 3])
    else Rotate1(W(m, t - 3) ^ W(m, t - 8) ^ W(m, t - 14) ^ W(m, t - 16))
  }

  /** TEMP of section 6.1, step (d); addition is modulo 2^32. */
  function Temp(a5: word, f: word, e: word, w: word, k: word): word { a5 + f + e + w + k }

  /** Section 6.1, step (d), for one t: the five-register shift. */
  function Shift(r: Registers, w: word, t: nat): Registers {
    Registers(Temp(Rotate5(r.a), F(t, r.b, r.c, r.d), r.e, w, K(t)), r.a, Rotate30(r.b), r.c, r.d)
  }

  function Rounds(r: Registers, m: Block, t: nat): Registers {
    if t == 0 then r else Shift(Rounds(r, m, t - 1), W(m, t - 1), t - 1)
  }

  /** Addition of words is modulo 2^32. */
  function Plus(x: word, y: word): word { x + y }

  lemma PlusAdds(x: word, y: word)
    ensures Plus(x, y) == x + y && Plus(x, y) == Plus(y, x)
  {
  }

  function AddRegisters(h: Registers, r: Registers): Registers {
    Registers(Plus(h.a, r.a), Plus(h.b, r.b), Plus(h.c, r.c), Plus(h.d, r.d), Plus(h.e, r.e))
  }

  /** Section 6.1, steps (c) to (e): one block folded into the chaining value. */
  function Compress(h: Registers, m: Block): Registers {
    AddRegisters(h, Rounds(h, m, 80))
  }

  function HashBlocks(h: Registers, p: seq<bv8>): Registers
    requires |p| % 64 == 0
    decreases |p|
  {
    if |p| == 0 then h else HashBlocks(Compress(h, p[..64]), p[64..])
  }

  function Zeros(n: nat): (z: seq<bv8>)
    ensures |z| == n
  {
    seq(n, _ => 0)
  }

  /** The n low bytes of v, most significant first. */
  function BigEndianBytes(v: bv64, n: nat): (s: seq<bv8>)
    ensures |s| == n
  {
    if n == 0 then [] else BigEndianBytes(v >> 8, n - 1) + [(v & 0xff) as bv8]
  }

  const TWO_TO_64: nat := 0x1_0000_0000_0000_0000

  /** The length in bits, which section 4 wants below 2^64: the remainder is vacuous under 2^61 bytes. */
  function BitLength(bytes: nat): bv64 {
    (8 * bytes % TWO_TO_64) as bv64
  }

  /** Below 2^61 bytes the length in bits is eight times the length in bytes. */
  lemma BitsAreEight(bytes: nat)
    requires bytes < 0x2000_0000_0000_0000
    ensures 8 * bytes < 0x1_0000_0000_0000_0000 && BitLength(bytes) == (8 * bytes) as bv64
  {
    SmallRemainder(8 * bytes, TWO_TO_64);
  }

  lemma SmallRemainder(x: nat, m: nat)
    requires x < m
    ensures x % m == x
  {
  }

  /** Section 4: a one bit, the fewest zeros that fill a block, the length as eight bytes. */
  function Pad(m: seq<bv8>): (p: seq<bv8>)
    ensures |p| % 64 == 0
  {
    m + [0x80] + Zeros((55 - |m|) % 64) + BigEndianBytes(BitLength(|m|), 8)
  }

  function WordBytes(x: word): (s: seq<bv8>)
    ensures |s| == 4
  {
    [((x >> 24) & 0xff) as bv8, ((x >> 16) & 0xff) as bv8, ((x >> 8) & 0xff) as bv8, (x & 0xff) as bv8]
  }

  /** The bytes of a word, the most significant one first. */
  lemma WordBytesRead(x: word)
    ensures var s := WordBytes(x); BigEndian(s[0], s[1], s[2], s[3]) == x
  {
  }

  function DigestBytes(h: Registers): (s: seq<bv8>)
    ensures |s| == 20
  {
    WordBytes(h.a) + WordBytes(h.b) + WordBytes(h.c) + WordBytes(h.d) + WordBytes(h.e)
  }

  function Sha1(m: seq<bv8>): seq<bv8> {
    DigestBytes(HashBlocks(INITIAL, Pad(m)))
  }

  lemma {:induction false} HashBlocksConcat(h: Registers, p: seq<bv8>, q: seq<bv8>)
    requires |p| % 64 == 0 && |q| % 64 == 0
    ensures HashBlocks(h, p + q) == HashBlocks(HashBlocks(h, p), q)
    decreases |p|
  {
    if |p| == 0 {
      assert p + q == q;
    } else {
      assert (p + q)[..64] == p[..64];
      assert (p + q)[64..] == p[64..] + q;
      HashBlocksConcat(Compress(h, p[..64]), p[64..], q);
    }
  }
}
