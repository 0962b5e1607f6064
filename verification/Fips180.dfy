/** SHA-1 as FIPS 180-4 defines it: functions, constants, padding and the 80-word schedule of section 6.1.2. */
module Fips180 {
  import opened Bytes

  const DIGEST_SIZE: nat := 20

  /** The five working variables of section 6.1.2, also used for a hash value H0..H4. */
  datatype Regs = Regs(a: Word, b: Word, c: Word, d: Word, e: Word)

  type Block = b: seq<Byte> | |b| == 64 witness seq(64, _ => 0)

  /** Section 5.3.1. */
  const INITIAL_HASH := Regs(0x67452301, 0xefcdab89, 0x98badcfe, 0x10325476, 0xc3d2e1f0)

  /** Section 3.2. */
  function Rotl(x: Word, n: Word): Word
    requires n <= 32
  {
    (x << n) | (x >> (32 - n))
  }

  /** Section 4.1.1. */
  function Ch(x: Word, y: Word, z: Word): Word { (x & y) ^ (!x & z) }

  function Parity(x: Word, y: Word, z: Word): Word { x ^ y ^ z }

  function Maj(x: Word, y: Word, z: Word): Word { (x & y) ^ (x & z) ^ (y & z) }

  function LogicalF(t: nat, x: Word, y: Word, z: Word): Word {
    if t < 20 then Ch(x, y, z)
    else if t < 40 then Parity(x, y, z)
    else if t < 60 then Maj(x, y, z)
    else Parity(x, y, z)
  }

  /** Section 4.2.1. */
  function K(t: nat): Word {
    if t < 20 then 0x5a827999
    else if t < 40 then 0x6ed9eba1
    else if t < 60 then 0x8f1bbcdc
    else 0xca62c1d6
  }

  /** A byte as eight bits, for the bitwise operations. */
  function Bits(b: Byte): bv8 { b as bv8 }

  function BigEndianWord(b0: bv8, b1: bv8, b2: bv8, b3: bv8): Word {
    (b0 as Word << 24) | (b1 as Word << 16) | (b2 as Word << 8) | b3 as Word
  }

  /** Word t of the message schedule, section 6.1.2 step 1. */
  function ScheduleWord(m: Block, t: nat): Word {
    if t < 16 then BigEndianWord(Bits(m[4 * t]), Bits(m[4 * t + 1]), Bits(m[4 * t + 2]), Bits(m[4 * t + 3]))
    else Rotl(ScheduleWord(m, t - 3) ^ ScheduleWord(m, t - 8) ^ ScheduleWord(m, t - 14) ^ ScheduleWord(m, t - 16), 1)
  }

  function Sum(x0: Word, x1: Word, x2: Word, x3: Word, x4: Word): Word { x0 + x1 + x2 + x3 + x4 }

  /** Section 6.1.2 step 3 for one t. */
  function Step(r: Regs, t: nat, w: Word): Regs {
    var temp := Sum(Rotl(r.a, 5), LogicalF(t, r.b, r.c, r.d), r.e, K(t), w);
    Regs(temp, r.a, Rotl(r.b, 30), r.c, r.d)
  }

  /** The working variables after the first n steps. */
  function Rounds(m: Block, h: Regs, n: nat): Regs {
    if n == 0 then h else Step(Rounds(m, h, n - 1), n - 1, ScheduleWord(m, n - 1))
  }

  function AddRegs(h: Regs, r: Regs): Regs {
    Regs(h.a + r.a, h.b + r.b, h.c + r.c, h.d + r.d, h.e + r.e)
  }

  /** Section 6.1.2: one intermediate hash value from the previous one. */
  function Compress(h: Regs, m: Block): Regs {
    AddRegs(h, Rounds(m, h, 80))
  }

  /** A length that is a whole number of blocks. */
  predicate Whole(n: nat) { n % 64 == 0 }

  /** The hash value after all blocks of s. */
  function Absorb(s: seq<Byte>): Regs
    requires Whole(|s|)
  {
    if |s| == 0 then INITIAL_HASH else Compress(Absorb(s[..|s| - 64]), s[|s| - 64..])
  }

  /** The number k of zero bytes section 5.1.1 asks for: least with n + 1 + k = 56 mod 64. */
  function ZeroBytes(n: nat): (k: nat)
    ensures k < 64 && (n + 1 + k) % 64 == 56
  {
    assert n == 64 * (n / 64) + n % 64;
    if n % 64 <= 55 then 55 - n % 64 else 119 - n % 64
  }

  /** Up to ZeroBytes(n), no smaller number of zero bytes reaches 56 mod 64. */
  lemma ZeroBytesExact(n: nat, k: nat)
    requires k <= ZeroBytes(n)
    ensures (n + 1 + k) % 64 == 56 <==> k == ZeroBytes(n)
  {
  }

  function BigEndian32(x: nat): (s: seq<Byte>)
    ensures |s| == 4
  {
    [Octet(x / 0x100_0000), Octet(x / 0x1_0000), Octet(x / 0x100), Octet(x)]
  }

  /** The 64-bit big-endian block of section 5.1.1 (bits above the 64th are dropped). */
  function BigEndian64(x: nat): (s: seq<Byte>)
    ensures |s| == 8
  {
    BigEndian32(x / TWO_32) + BigEndian32(x)
  }

  lemma BigEndian32Reversed(x: nat)
    ensures var e := Encode(x, 4); BigEndian32(x) == [e[3], e[2], e[1], e[0]]
  {
    var a := x / 256;
    var b := a / 256;
    var c := b / 256;
    assert Encode(b, 2) == [Octet(b), Octet(c)];
    assert Encode(a, 3) == [Octet(a)] + Encode(b, 2);
    assert b == x / 0x1_0000 && c == x / 0x100_0000;
    hide Octet;
  }

  lemma UpperBytes(x: nat)
    ensures Encode(x, 8)[..4] == Encode(x, 4) && Encode(x, 8)[4..] == Encode(x / TWO_32, 4)
  {
    var x1 := x / 256;
    var x2 := x1 / 256;
    var x3 := x2 / 256;
    assert x3 / 256 == x / TWO_32;
    hide Octet;
    EncodeMore(x, 7);
    EncodeMore(x1, 6);
    EncodeMore(x2, 5);
    EncodeMore(x3, 4);
    EncodeMore(x, 3);
    EncodeMore(x1, 2);
    EncodeMore(x2, 1);
    EncodeMore(x3, 0);
    hide Encode;
  }

  lemma EncodeMore(x: int, n: nat)
    ensures Encode(x, n + 1) == [Octet(x)] + Encode(x / 256, n)
    ensures Encode(x, 0) == []
  {
  }

  lemma ReversedHalves(e: seq<Byte>, low: seq<Byte>, high: seq<Byte>, i: nat)
    requires |e| == 8 && e[..4] == low && e[4..] == high && i < 8
    ensures ([high[3], high[2], high[1], high[0]] + [low[3], low[2], low[1], low[0]])[i] == e[7 - i]
  {
    assert |low| == |high| == 4;
  }

  /** The length block is the 64-bit integer stored most significant byte first. */
  lemma BigEndian64Reversed(x: nat, i: nat)
    requires i < 8
    ensures BigEndian64(x)[i] == Encode(x, 8)[7 - i]
  {
    BigEndian32Reversed(x);
    BigEndian32Reversed(x / TWO_32);
    UpperBytes(x);
    hide Encode, BigEndian32;
    ReversedHalves(Encode(x, 8), Encode(x, 4), Encode(x / TWO_32, 4), i);
  }

  function Zeros(k: nat): seq<Byte> { seq(k, _ => 0) }

  /** Section 5.1.1, for messages of whole bytes. */
  function Pad(m: seq<Byte>): seq<Byte> {
    m + [0x80] + Zeros(ZeroBytes(|m|)) + BigEndian64(8 * |m|)
  }

  lemma EightMore(n: nat)
    requires n % 64 == 56
    ensures Whole(n + 8)
  {
  }

  lemma PadLength(m: seq<Byte>)
    ensures Whole(|Pad(m)|)
  {
    hide BigEndian64, ZeroBytes, Whole;
    EightMore(|m| + 1 + ZeroBytes(|m|));
  }

  function ByteOf(w: Word): Byte { ((w & 0xff) as bv8) as int }

  function WordBytes(w: Word): (s: seq<Byte>)
    ensures |s| == 4
  {
    [ByteOf(w >> 24), ByteOf(w >> 16), ByteOf(w >> 8), ByteOf(w)]
  }

  function DigestBytes(h: Regs): (s: seq<Byte>)
    ensures |s| == DIGEST_SIZE
  {
    WordBytes(h.a) + WordBytes(h.b) + WordBytes(h.c) + WordBytes(h.d) + WordBytes(h.e)
  }

  /** The message digest. FIPS 180-4 defines it for messages below 2^64 bits, that is 2^61 bytes. */
  function Sha1(m: seq<Byte>): (d: seq<Byte>)
    ensures |d| == DIGEST_SIZE
  {
    PadLength(m);
    DigestBytes(Absorb(Pad(m)))
  }

  /** Absorbing one more block after whole blocks. */
  lemma AbsorbBlock(s: seq<Byte>, m: Block)
    requires Whole(|s|)
    ensures Whole(|s + m|) && Absorb(s + m) == Compress(Absorb(s), m)
  {
  }

  lemma AbsorbNothing()
    ensures Absorb([]) == INITIAL_HASH
  {
  }
}
