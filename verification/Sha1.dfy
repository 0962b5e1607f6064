/** The streaming SHA-1 of src/fand/sha1.c, proved against FIPS 180-4. */
module Sha1 {
  import opened Bytes
  import opened Fips180

  /** `rol`, sha1.c:13. */
  function Rol(value: Word, bits: Word): Word
    requires bits <= 32
  {
    (value >> (32 - bits)) | (value << bits)
  }

  /** A 32-bit load on a little-endian host, and the `htonl` that undoes its byte order. */
  function HostWord(b0: bv8, b1: bv8, b2: bv8, b3: bv8): Word {
    b0 as Word | (b1 as Word << 8) | (b2 as Word << 16) | (b3 as Word << 24)
  }

  function Htonl(x: Word): Word {
    (x << 24) | ((x & 0xff00) << 8) | ((x >> 8) & 0xff00) | (x >> 24)
  }

  function LoadedWord(m: Block, i: nat): Word
    requires i < 16
  {
    HostWord(Bits(m[4 * i]), Bits(m[4 * i + 1]), Bits(m[4 * i + 2]), Bits(m[4 * i + 3]))
  }

  /** Before step t the ring holds the latest 16 schedule words, and raw block words where none was computed yet. */
  ghost predicate Ring(ring: seq<Word>, m: Block, t: nat) {
    && |ring| == 16
    && (forall s :: 0 <= s < t <= s + 16 ==> ring[s % 16] == ScheduleWord(m, s))
    && (forall s :: t <= s < 16 ==> ring[s] == LoadedWord(m, s))
  }

  lemma LoadedIsScheduled(m: Block, t: nat)
    requires t < 16
    ensures Htonl(LoadedWord(m, t)) == ScheduleWord(m, t)
  {
  }

  lemma RingByteSwap(ring: seq<Word>, m: Block, t: nat)
    requires Ring(ring, m, t) && t < 16
    ensures Ring(ring[t := Htonl(ring[t])], m, t + 1)
    ensures Htonl(ring[t]) == ScheduleWord(m, t)
  {
    LoadedIsScheduled(m, t);
    hide Htonl, ScheduleWord, LoadedWord;
    var ring' := ring[t := Htonl(ring[t])];
    forall s | 0 <= s < t + 1 <= s + 16
      ensures ring'[s % 16] == ScheduleWord(m, s)
    {
      assert s % 16 == s;
      if s != t {
        assert ring[s % 16] == ScheduleWord(m, s);
      }
    }
  }

  function Expanded(ring: seq<Word>, i: nat): Word
    requires |ring| == 16
  {
    Rol(ring[(i + 13) % 16] ^ ring[(i + 8) % 16] ^ ring[(i + 2) % 16] ^ ring[i % 16], 1)
  }

  lemma RingSlot(ring: seq<Word>, m: Block, t: nat, back: nat)
    requires Ring(ring, m, t) && t >= 16 >= back >= 1
    ensures ring[(t + 16 - back) % 16] == ScheduleWord(m, t - back)
  {
    hide ScheduleWord, LoadedWord;
    assert (t + 16 - back) % 16 == (t - back) % 16;
  }

  /** Sixteen consecutive numbers fall into different slots. */
  lemma SlotsDiffer(s: nat, t: nat)
    requires s < t < s + 16
    ensures s % 16 != t % 16
  {
  }

  lemma RingPut(ring: seq<Word>, m: Block, t: nat, x: Word)
    requires Ring(ring, m, t) && t >= 16 && x == ScheduleWord(m, t)
    ensures Ring(ring[t % 16 := x], m, t + 1)
  {
    hide ScheduleWord, LoadedWord;
    var ring' := ring[t % 16 := x];
    forall s | 0 <= s < t + 1 <= s + 16
      ensures ring'[s % 16] == ScheduleWord(m, s)
    {
      if s != t {
        SlotsDiffer(s, t);
        assert ring[s % 16] == ScheduleWord(m, s);
      }
    }
  }

  /** Four words combined as section 6.1.2 step 1 combines the earlier schedule words. */
  function Mixed(a: Word, b: Word, c: Word, d: Word): Word { Rotl(a ^ b ^ c ^ d, 1) }

  lemma ScheduleMixed(m: Block, t: nat)
    requires t >= 16
    ensures ScheduleWord(m, t)
      == Mixed(ScheduleWord(m, t - 3), ScheduleWord(m, t - 8), ScheduleWord(m, t - 14), ScheduleWord(m, t - 16))
  {
    hide Rotl;
  }

  lemma ExpandedMixed(ring: seq<Word>, i: nat)
    requires |ring| == 16
    ensures Expanded(ring, i) == Mixed(ring[(i + 13) % 16], ring[(i + 8) % 16], ring[(i + 2) % 16], ring[i % 16])
  {
    hide Rol, Rotl;
    RolIsRotl(ring[(i + 13) % 16] ^ ring[(i + 8) % 16] ^ ring[(i + 2) % 16] ^ ring[i % 16]);
  }

  lemma RingExpand(ring: seq<Word>, m: Block, t: nat)
    requires Ring(ring, m, t) && t >= 16
    ensures Expanded(ring, t) == ScheduleWord(m, t)
  {
    assert |ring| == 16;
    hide *;
    RingSlot(ring, m, t, 3);
    RingSlot(ring, m, t, 8);
    RingSlot(ring, m, t, 14);
    RingSlot(ring, m, t, 16);
    ScheduleMixed(m, t);
    ExpandedMixed(ring, t);
  }

  lemma ChRewritten(w: Word, x: Word, y: Word)
    ensures (w & (x ^ y)) ^ y == Ch(w, x, y)
  {
  }

  lemma MajRewritten(w: Word, x: Word, y: Word)
    ensures ((w | x) & y) | (w & x) == Maj(w, x, y)
  {
  }

  lemma RolIsRotl(x: Word)
    ensures Rol(x, 1) == Rotl(x, 1) && Rol(x, 5) == Rotl(x, 5) && Rol(x, 30) == Rotl(x, 30)
  {
  }

  /** What a round call must do: the registers (v,w,x,y,z) in the roles of (a,b,c,d,e) make step t. */
  ghost predicate IsStep(m: Block, t: nat, v: Word, w: Word, x: Word, y: Word, z: Word, w': Word, z': Word) {
    Regs(z', v, w', x, y) == Step(Regs(v, w, x, y, z), t, ScheduleWord(m, t))
  }

  /** The value a round adds up into its register z. */
  function Accumulate(z: Word, f: Word, e: Word, k: Word, r: Word): Word { z + (f + e + k + r) }

  lemma SumOrder(z: Word, f: Word, e: Word, k: Word, r: Word)
    ensures Accumulate(z, f, e, k, r) == Sum(r, f, z, k, e)
  {
  }

  /** The source's order of summation makes the step of section 6.1.2. */
  lemma SourceOrderStep(m: Block, t: nat, v: Word, w: Word, x: Word, y: Word, z: Word,
      f: Word, e: Word, k: Word, r: Word)
    requires f == LogicalF(t, w, x, y) && e == ScheduleWord(m, t) && k == K(t) && r == Rol(v, 5)
    ensures IsStep(m, t, v, w, x, y, z, Rol(w, 30), Accumulate(z, f, e, k, r))
  {
    hide *;
    RolIsRotl(v);
    RolIsRotl(w);
    SumOrder(z, f, e, k, r);
    StepBySum(m, t, v, w, x, y, z);
  }

  lemma StepBySum(m: Block, t: nat, v: Word, w: Word, x: Word, y: Word, z: Word)
    ensures IsStep(m, t, v, w, x, y, z, Rotl(w, 30), Sum(Rotl(v, 5), LogicalF(t, w, x, y), z, K(t), ScheduleWord(m, t)))
  {
  }

  method Expand(block: array<Word>, i: nat, ghost m: Block) returns (r: Word)
    requires Ring(block[..], m, i) && i >= 16
    modifies block
    ensures Ring(block[..], m, i + 1) && r == ScheduleWord(m, i)
  {
    hide ScheduleWord, Rol;
    RingExpand(block[..], m, i);
    RingPut(block[..], m, i, Expanded(block[..], i));
    block[i % 16] := Rol(block[(i + 0xd) % 16] ^ block[(i + 0x8) % 16] ^ block[(i + 0x2) % 16] ^ block[i % 16], 1);
    r := block[i % 16];
  }

  method R0(block: array<Word>, v: Word, w: Word, x: Word, y: Word, z: Word, i: nat, ghost m: Block)
      returns (w': Word, z': Word)
    requires Ring(block[..], m, i) && i < 16
    modifies block
    ensures Ring(block[..], m, i + 1) && IsStep(m, i, v, w, x, y, z, w', z')
  {
    hide IsStep, ScheduleWord, Accumulate, Ch, Maj, Rol, Htonl;
    RingByteSwap(block[..], m, i);
    block[i] := Htonl(block[i]);
    z' := Accumulate(z, (w & (x ^ y)) ^ y, block[i], 0x5a827999, Rol(v, 5));
    w' := Rol(w, 30);
    ChRewritten(w, x, y);
    SourceOrderStep(m, i, v, w, x, y, z, (w & (x ^ y)) ^ y, block[i], 0x5a827999, Rol(v, 5));
  }

  method R1(block: array<Word>, v: Word, w: Word, x: Word, y: Word, z: Word, i: nat, ghost m: Block)
      returns (w': Word, z': Word)
    requires Ring(block[..], m, i) && 16 <= i < 20
    modifies block
    ensures Ring(block[..], m, i + 1) && IsStep(m, i, v, w, x, y, z, w', z')
  {
    hide IsStep, ScheduleWord, Accumulate, Ch, Maj, Rol, Htonl;
    var e := Expand(block, i, m);
    z' := Accumulate(z, (w & (x ^ y)) ^ y, e, 0x5a827999, Rol(v, 5));
    w' := Rol(w, 30);
    ChRewritten(w, x, y);
    SourceOrderStep(m, i, v, w, x, y, z, (w & (x ^ y)) ^ y, e, 0x5a827999, Rol(v, 5));
  }

  method R2(block: array<Word>, v: Word, w: Word, x: Word, y: Word, z: Word, i: nat, ghost m: Block)
      returns (w': Word, z': Word)
    requires Ring(block[..], m, i) && 20 <= i < 40
    modifies block
    ensures Ring(block[..], m, i + 1) && IsStep(m, i, v, w, x, y, z, w', z')
  {
    hide IsStep, ScheduleWord, Accumulate, Ch, Maj, Rol, Htonl;
    var e := Expand(block, i, m);
    z' := Accumulate(z, w ^ x ^ y, e, 0x6ed9eba1, Rol(v, 5));
    w' := Rol(w, 30);
    SourceOrderStep(m, i, v, w, x, y, z, w ^ x ^ y, e, 0x6ed9eba1, Rol(v, 5));
  }

  method R3(block: array<Word>, v: Word, w: Word, x: Word, y: Word, z: Word, i: nat, ghost m: Block)
      returns (w': Word, z': Word)
    requires Ring(block[..], m, i) && 40 <= i < 60
    modifies block
    ensures Ring(block[..], m, i + 1) && IsStep(m, i, v, w, x, y, z, w', z')
  {
    hide IsStep, ScheduleWord, Accumulate, Ch, Maj, Rol, Htonl;
    var e := Expand(block, i, m);
    z' := Accumulate(z, ((w | x) & y) | (w & x), e, 0x8f1bbcdc, Rol(v, 5));
    w' := Rol(w, 30);
    MajRewritten(w, x, y);
    SourceOrderStep(m, i, v, w, x, y, z, ((w | x) & y) | (w & x), e, 0x8f1bbcdc, Rol(v, 5));
  }

  method R4(block: array<Word>, v: Word, w: Word, x: Word, y: Word, z: Word, i: nat, ghost m: Block)
      returns (w': Word, z': Word)
    requires Ring(block[..], m, i) && 60 <= i < 80
    modifies block
    ensures Ring(block[..], m, i + 1) && IsStep(m, i, v, w, x, y, z, w', z')
  {
    hide IsStep, ScheduleWord, Accumulate, Ch, Maj, Rol, Htonl;
    var e := Expand(block, i, m);
    z' := Accumulate(z, w ^ x ^ y, e, 0xca62c1d6, Rol(v, 5));
    w' := Rol(w, 30);
    SourceOrderStep(m, i, v, w, x, y, z, w ^ x ^ y, e, 0xca62c1d6, Rol(v, 5));
  }

  /** The choice of round function for step i that the unrolled call list makes. */
  method Round(block: array<Word>, v: Word, w: Word, x: Word, y: Word, z: Word, i: nat, ghost m: Block, ghost h: Regs)
    returns (w': Word, z': Word)
    requires Ring(block[..], m, i) && i < 80
    requires Regs(v, w, x, y, z) == Rounds(m, h, i)
    modifies block
    ensures Ring(block[..], m, i + 1)
    ensures Regs(z', v, w', x, y) == Rounds(m, h, i + 1)
  {
    hide Ring, Step, ScheduleWord;
    if i < 16 {
      w', z' := R0(block, v, w, x, y, z, i, m);
    } else if i < 20 {
      w', z' := R1(block, v, w, x, y, z, i, m);
    } else if i < 40 {
      w', z' := R2(block, v, w, x, y, z, i, m);
    } else if i < 60 {
      w', z' := R3(block, v, w, x, y, z, i, m);
    } else {
      w', z' := R4(block, v, w, x, y, z, i, m);
    }
  }

  lemma NoRounds(m: Block, h: Regs)
    ensures Rounds(m, h, 0) == h
  {
  }

  /** The 80 calls of `sha1_transform`, five at a time: after each group the registers are back in their own roles. */
  method EightyRounds(block: array<Word>, h: Regs, m: Block) returns (r: Regs)
    requires Ring(block[..], m, 0)
    modifies block
    ensures r == Rounds(m, h, 80)
  {
    hide Ring, Rounds;
    NoRounds(m, h);
    var h0, h1, h2, h3, h4 := h.a, h.b, h.c, h.d, h.e;
    var t: nat := 0;
    while t < 80
      invariant t <= 80 && t % 5 == 0
      invariant Ring(block[..], m, t)
      invariant Regs(h0, h1, h2, h3, h4) == Rounds(m, h, t)
    {
      h1, h4 := Round(block, h0, h1, h2, h3, h4, t, m, h);
      h0, h3 := Round(block, h4, h0, h1, h2, h3, t + 1, m, h);
      h4, h2 := Round(block, h3, h4, h0, h1, h2, t + 2, m, h);
      h3, h1 := Round(block, h2, h3, h4, h0, h1, t + 3, m, h);
      h2, h0 := Round(block, h1, h2, h3, h4, h0, t + 4, m, h);
      t := t + 5;
    }
    r := Regs(h0, h1, h2, h3, h4);
  }

  const TWO_64: int := 0x1_0000_0000_0000_0000

  function WholeBlocks(s: seq<Byte>): (b: seq<Byte>)
    ensures Whole(|b|)
  {
    s[..|s| - |s| % 64]
  }

  function Tail(s: seq<Byte>): (t: seq<Byte>)
    ensures |t| == |s| % 64
  {
    s[|s| - |s| % 64..]
  }

  lemma WrapTwice(a: int, b: int)
    ensures (a % TWO_32 + b) % TWO_32 == (a + b) % TWO_32
  {
  }

  lemma RemainderUnique(x: int, q: int, r: int)
    requires x == q * TWO_64 + r && 0 <= r < TWO_64
    ensures x % TWO_64 == r
  {
  }

  lemma BitsOfLength(length: nat)
    ensures 8 * length == length / 0x2000_0000 * TWO_32 + length * 8 % TWO_32
  {
  }

  lemma LowHalfCarry(n0: uint32, bits: uint32, n0': uint32)
    requires n0' == (n0 + bits) % TWO_32
    ensures n0 + bits == (if n0' < n0 then TWO_32 else 0) + n0'
  {
  }

  /** The two-half carry of `sha1_update` adds the new bits modulo 2^64. */
  lemma CounterAdvance(n: nat, length: nat, n0: uint32, n1: uint32, n0': uint32, n1': uint32)
    requires length < TWO_32
    requires n1 * TWO_32 + n0 == (8 * n) % TWO_64
    requires n0' == (n0 + length * 8 % TWO_32) % TWO_32
    requires n1' == ((if n0' < n0 then (n1 + 1) % TWO_32 else n1) + length / 0x2000_0000) % TWO_32
    ensures n1' * TWO_32 + n0' == (8 * (n + length)) % TWO_64
  {
    var bits: uint32, high := length * 8 % TWO_32, length / 0x2000_0000;
    BitsOfLength(length);
    LowHalfCarry(n0, bits, n0');
    var carry := if n0' < n0 then 1 else 0;
    WrapTwice(n1 + carry, high);
    var q, wraps := (8 * n) / TWO_64, (n1 + carry + high) / TWO_32;
    assert n1 + carry + high == wraps * TWO_32 + n1';
    assert 8 * n == q * TWO_64 + n1 * TWO_32 + n0;
    RemainderUnique(8 * (n + length), q + wraps, n1' * TWO_32 + n0');
  }

  /**
    * The shifts and masks of sha1_update and sha1_final as arithmetic on machine words; CountBits, Position and
    * ComputeFinal use the arithmetic form.
    */
  lemma ShiftsAndMasks(n: Word)
    ensures n << 3 == n * 8
    ensures n >> 29 == n / 0x2000_0000
    ensures (n >> 3) & 0x3f == n / 8 % 64
    ensures (n & 0x1f8) != 0x1c0 <==> n / 8 % 64 != 56
    ensures (n >> 24) & 0xff == n / 0x100_0000 % 0x100 && (n >> 16) & 0xff == n / 0x1_0000 % 0x100
    ensures (n >> 8) & 0xff == n / 0x100 % 0x100 && n & 0xff == n % 0x100
  {
  }

  lemma WholeBlocksOff(blocks: int, d: int)
    ensures (64 * blocks + d) % 64 == d % 64
  {
  }

  lemma SameRemainder(n: nat, blocks: nat, n0: nat)
    requires 8 * n == 512 * blocks + n0
    ensures n0 / 8 % 64 == n % 64
  {
    var d := n - 64 * blocks;
    assert n0 / 8 == d;
    WholeBlocksOff(blocks, d);
  }

  /** The byte position inside the buffer is readable from the low counter half alone. */
  lemma BufferPosition(n: nat, n0: uint32, n1: uint32)
    requires n1 * TWO_32 + n0 == (8 * n) % TWO_64
    ensures n0 / 8 % 64 == n % 64
  {
    var blocks := (8 * n) / TWO_64 * 0x80_0000_0000_0000 + n1 * 0x80_0000;
    assert 8 * n == 512 * blocks + n0;
    SameRemainder(n, blocks, n0);
  }

  /** `sha1_compute_final`, sha1.c:195. */
  function ComputeFinal(n: uint32, i: nat): Byte {
    match i % 4
    case 0 => Octet(n / 0x100_0000)
    case 1 => Octet(n / 0x1_0000)
    case 2 => Octet(n / 0x100)
    case _ => Octet(n)
  }

  lemma SplitQuotients(q: nat, n: uint32)
    ensures (q * TWO_32 + n) / 0x100_0000 == 0x100 * q + n / 0x100_0000
    ensures (q * TWO_32 + n) / 0x1_0000 == 0x1_0000 * q + n / 0x1_0000
    ensures (q * TWO_32 + n) / 0x100 == 0x100_0000 * q + n / 0x100
  {
  }

  lemma OctetOfSum(x: int, q: int, y: int)
    requires x == 0x100 * q + y
    ensures Octet(x) == Octet(y)
  {
  }

  lemma LowWordBytes(x: nat, n: uint32)
    requires x % TWO_32 == n
    ensures BigEndian32(x) == BigEndian32(n)
  {
    hide Octet;
    var q := x / TWO_32;
    SplitQuotients(q, n);
    OctetOfSum(x / 0x100_0000, q, n / 0x100_0000);
    OctetOfSum(x / 0x1_0000, 0x100 * q, n / 0x1_0000);
    OctetOfSum(x / 0x100, 0x1_0000 * q, n / 0x100);
    OctetOfSum(x, 0x100_0000 * q, n);
  }

  lemma HalvesOf(x: nat, n0: uint32, n1: uint32)
    requires n1 * TWO_32 + n0 == x % TWO_64
    ensures x % TWO_32 == n0 && x / TWO_32 % TWO_32 == n1
  {
    var q := x / TWO_64;
    assert x == (q * TWO_32 + n1) * TWO_32 + n0;
    assert x / TWO_32 == q * TWO_32 + n1;
  }

  lemma FinalBytes(n: uint32)
    ensures [ComputeFinal(n, 0), ComputeFinal(n, 1), ComputeFinal(n, 2), ComputeFinal(n, 3)] == BigEndian32(n)
    ensures [ComputeFinal(n, 4), ComputeFinal(n, 5), ComputeFinal(n, 6), ComputeFinal(n, 7)] == BigEndian32(n)
  {
    hide Octet;
  }

  lemma LengthBytes(x: nat, n0: uint32, n1: uint32)
    requires n1 * TWO_32 + n0 == x % TWO_64
    ensures [ComputeFinal(n1, 0), ComputeFinal(n1, 1), ComputeFinal(n1, 2), ComputeFinal(n1, 3),
             ComputeFinal(n0, 4), ComputeFinal(n0, 5), ComputeFinal(n0, 6), ComputeFinal(n0, 7)] == BigEndian64(x)
  {
    HalvesOf(x, n0, n1);
    FinalBytes(n0);
    FinalBytes(n1);
    hide ComputeFinal, BigEndian32;
    LowWordBytes(x, n0);
    LowWordBytes(x / TWO_32, n1);
  }

  lemma AppendInsideBlock(m: seq<Byte>, data: seq<Byte>)
    requires |m| % 64 + |data| < 64
    ensures WholeBlocks(m + data) == WholeBlocks(m) && Tail(m + data) == Tail(m) + data
  {
    assert |m + data| % 64 == |m| % 64 + |data|;
  }

  lemma AppendFillsBlock(m: seq<Byte>, data: seq<Byte>)
    requires |m| % 64 + |data| >= 64
    ensures var j := 64 - |m| % 64;
      && (m + data)[..|m| + j] == WholeBlocks(m) + (Tail(m) + data[..j])
      && (|m| + j) % 64 == 0
  {
  }

  lemma NextCount(n: nat)
    requires Whole(n)
    ensures Whole(n + 64)
  {
  }

  lemma NextBlock(m: seq<Byte>, data: seq<Byte>, j: nat)
    requires j + 64 <= |data|
    ensures (m + data)[..|m| + j + 64] == (m + data)[..|m| + j] + data[j..j + 64]
  {
  }

  lemma AppendLeavesTail(m: seq<Byte>, data: seq<Byte>, j: nat)
    requires j <= |data| < j + 64 && (|m| + j) % 64 == 0
    ensures WholeBlocks(m + data) == (m + data)[..|m| + j] && Tail(m + data) == data[j..]
  {
  }

  /** Byte k of a word, most significant first. */
  function WordByte(w: Word, k: nat): Byte {
    match k
    case 0 => ByteOf(w >> 24)
    case 1 => ByteOf(w >> 16)
    case 2 => ByteOf(w >> 8)
    case _ => ByteOf(w)
  }

  /** The word of a hash value that digest bytes 4j to 4j + 3 come from. */
  function HashWord(h: Regs, j: nat): Word {
    match j case 0 => h.a case 1 => h.b case 2 => h.c case 3 => h.d case _ => h.e
  }

  /** `sha1_compute_digest_byte`, sha1.c:199. */
  function DigestByte(h: Regs, i: nat): Byte
    requires i < DIGEST_SIZE
  {
    WordByte(HashWord(h, i / 4), i % 4)
  }

  lemma WordByteAt(w: Word, k: nat)
    requires k < 4
    ensures WordBytes(w)[k] == WordByte(w, k)
  {
  }

  lemma FiveFours(a: seq<Byte>, b: seq<Byte>, c: seq<Byte>, d: seq<Byte>, e: seq<Byte>, j: nat, k: nat)
    requires |a| == |b| == |c| == |d| == |e| == 4 && j < 5 && k < 4
    ensures (a + b + c + d + e)[4 * j + k]
      == (match j case 0 => a[k] case 1 => b[k] case 2 => c[k] case 3 => d[k] case _ => e[k])
  {
  }

  lemma DigestByteAt(h: Regs, i: nat)
    requires i < DIGEST_SIZE
    ensures DigestBytes(h)[i] == DigestByte(h, i)
  {
    hide WordBytes, WordByte;
    var j, k := i / 4, i % 4;
    WordByteAt(HashWord(h, j), k);
    FiveFours(WordBytes(h.a), WordBytes(h.b), WordBytes(h.c), WordBytes(h.d), WordBytes(h.e), j, k);
    assert i == 4 * j + k;
  }

  class Sha1Ctx {
    var h0: Word
    var h1: Word
    var h2: Word
    var h3: Word
    var h4: Word
    var n0: uint32
    var n1: uint32
    const buffer: array<Byte>
    /** Every byte fed since the context was initialised. */
    ghost var message: seq<Byte>

    ghost function Hash(): Regs
      reads this
    {
      Regs(h0, h1, h2, h3, h4)
    }

    ghost predicate Valid()
      reads this, buffer
    {
      && buffer.Length == 64
      && Hash() == Absorb(WholeBlocks(message))
      && buffer[..|message| % 64] == Tail(message)
      && n1 * TWO_32 + n0 == (8 * |message|) % TWO_64
    }

    /** A fresh context after `sha1_init`. */
    constructor ()
      ensures Valid() && fresh(buffer)
      ensures message == []
    {
      hide Absorb;
      AbsorbNothing();
      h0, h1, h2, h3, h4 := 0x67452301, 0xefcdab89, 0x98badcfe, 0x10325476, 0xc3d2e1f0;
      n0, n1 := 0, 0;
      buffer := new Byte[64];
      message := [];
    }

    method Transform(chunk: Block)
      modifies `h0, `h1, `h2, `h3, `h4
      ensures Hash() == Compress(old(Hash()), chunk)
    {
      hide Rounds, LoadedWord, ScheduleWord, AddRegs;
      var h := Regs(h0, h1, h2, h3, h4);
      var block := new Word[16](i requires 0 <= i < 16 => LoadedWord(chunk, i));
      var r := EightyRounds(block, h, chunk);
      r := AddRegs(h, r);
      h0, h1, h2, h3, h4 := r.a, r.b, r.c, r.d, r.e;
    }

    /** The block loop of `sha1_update`. */
    method TransformRest(ghost m: seq<Byte>, data: seq<Byte>, start: nat) returns (j: nat)
      requires start <= |data| && Whole(|m| + start)
      requires Hash() == Absorb((m + data)[..|m| + start])
      modifies `h0, `h1, `h2, `h3, `h4
      ensures j <= |data| < j + 64 && Whole(|m| + j)
      ensures Hash() == Absorb((m + data)[..|m| + j])
    {
      hide *;
      ghost var s := m + data;
      ghost var pos := |m| + start;
      j := start;
      while j + 63 < |data|
        invariant j <= |data| && pos == |m| + j && Whole(pos)
        invariant Hash() == Absorb(s[..pos])
      {
        NextBlock(m, data, j);
        NextCount(pos);
        AbsorbBlock(s[..pos], data[j..j + 64]);
        Transform(data[j..j + 64]);
        j := j + 64;
        pos := pos + 64;
      }
    }

    /** The head of `sha1_update`: advances the bit counter and returns the old position inside the buffer. */
    method CountBits(length: nat) returns (i: nat)
      requires length < TWO_32
      requires n1 * TWO_32 + n0 == (8 * |message|) % TWO_64
      modifies `n0, `n1
      ensures n1 * TWO_32 + n0 == (8 * (|message| + length)) % TWO_64
      ensures i == |message| % 64
    {
      var nbits := length * 8 % TWO_32;
      i := n0;
      n0 := (n0 + nbits) % TWO_32;
      if n0 < i {
        n1 := (n1 + 1) % TWO_32;
      }
      n1 := (n1 + length / 0x2000_0000) % TWO_32;
      CounterAdvance(|message|, length, old(n0), old(n1), n0, n1);
      BufferPosition(|message|, old(n0), old(n1));
      i := i / 8 % 64;
    }

    /** The part of `sha1_update` that completes the buffered block and absorbs all whole blocks. */
    method FillBlock(ghost m: seq<Byte>, data: seq<Byte>, i: nat) returns (j: nat)
      requires buffer.Length == 64 && i == |m| % 64 && i + |data| >= 64
      requires Hash() == Absorb(WholeBlocks(m)) && buffer[..i] == Tail(m)
      modifies `h0, `h1, `h2, `h3, `h4, buffer
      ensures j <= |data| < j + 64
      ensures Hash() == Absorb(WholeBlocks(m + data)) && Tail(m + data) == data[j..]
    {
      hide Absorb, Compress, WholeBlocks, Tail, Splice;
      j := 64 - i;
      AppendFillsBlock(m, data);
      SpliceFront(buffer[..], i, data[..j]);
      CopyTo(buffer, i, data[..j]);
      assert buffer[..] == buffer[..][..64] == Tail(m) + data[..j];
      AbsorbBlock(WholeBlocks(m), buffer[..]);
      Transform(buffer[..]);
      j := TransformRest(m, data, j);
      AppendLeavesTail(m, data, j);
    }

    method Update(data: seq<Byte>)
      requires Valid()
      requires |data| + 63 < TWO_32
      modifies this, buffer
      ensures Valid()
      ensures message == old(message) + data
    {
      hide Absorb, WholeBlocks, Tail, Splice;
      var length := |data|;
      var i: nat := CountBits(length);
      ghost var m := message;
      message := m + data;
      var j: nat := 0;
      if i + length < 64 {
        AppendInsideBlock(m, data);
      } else {
        j := FillBlock(m, data, i);
        i := 0;
      }
      SpliceFront(buffer[..], i, data[j..]);
      CopyTo(buffer, i, data[j..]);
      assert buffer[..i + length - j] == buffer[..][..i + length - j] == Tail(message);
    }

    /** The padding of `sha1_final`, fed one byte at a time through Update. */
    method FeedPadding()
      requires Valid()
      modifies this, buffer
      ensures Valid() && message == Pad(old(message))
    {
      hide Valid, ZeroBytes, BigEndian64;
      ghost var m := message;
      var final := LengthField();
      Update([0x80]);
      ghost var k: nat := 0;
      var full := Position();
      while full != 56
        invariant Valid() && k <= ZeroBytes(|m|)
        invariant message == m + [0x80] + Zeros(k) && full == |message| % 64
        decreases ZeroBytes(|m|) - k
      {
        ZeroBytesExact(|m|, k);
        Update([0]);
        k := k + 1;
        full := Position();
      }
      ZeroBytesExact(|m|, k);
      Update(final);
    }

    /** The test of the padding loop, `(n0 & 0x1f8) != 0x1c0`, reads this position out of n0. */
    method Position() returns (p: nat)
      requires Valid()
      ensures p == |message| % 64
    {
      hide Absorb;
      BufferPosition(|message|, n0, n1);
      p := n0 / 8 % 64;
    }

    method LengthField() returns (final: seq<Byte>)
      requires Valid()
      ensures final == BigEndian64(8 * |message|)
    {
      hide Absorb;
      final := [ComputeFinal(n1, 0), ComputeFinal(n1, 1), ComputeFinal(n1, 2), ComputeFinal(n1, 3),
                ComputeFinal(n0, 4), ComputeFinal(n0, 5), ComputeFinal(n0, 6), ComputeFinal(n0, 7)];
      LengthBytes(8 * |message|, n0, n1);
    }

    /** `sha1_final`: writes the digest of everything fed to the context. */
    method Final(digest: array<Byte>)
      requires Valid()
      requires digest.Length >= DIGEST_SIZE && digest != buffer
      modifies this, buffer, digest
      ensures Valid() && message == Pad(old(message))
      ensures digest[..] == Fips180.Sha1(old(message)) + old(digest[DIGEST_SIZE..])
    {
      hide Absorb, Pad, DigestBytes, DigestByte;
      FeedPadding();
      PadLength(old(message));
      assert WholeBlocks(message) == message;
      var h := Regs(h0, h1, h2, h3, h4);
      for i := 0 to DIGEST_SIZE
        modifies digest
        invariant digest[..i] == DigestBytes(h)[..i] && digest[DIGEST_SIZE..] == old(digest[DIGEST_SIZE..])
      {
        DigestByteAt(h, i);
        digest[i] := DigestByte(h, i);
      }
      assert digest[..] == digest[..DIGEST_SIZE] + digest[DIGEST_SIZE..];
    }
  }

  function Concat(chunks: seq<seq<Byte>>): seq<Byte> {
    if chunks == [] then [] else Concat(chunks[..|chunks| - 1]) + chunks[|chunks| - 1]
  }

  /** Every way of splitting a message into updates gives the message's FIPS 180-4 digest. */
  method HashChunks(chunks: seq<seq<Byte>>) returns (digest: seq<Byte>)
    requires forall i :: 0 <= i < |chunks| ==> |chunks[i]| + 63 < TWO_32
    ensures digest == Fips180.Sha1(Concat(chunks))
  {
    hide Fips180.Sha1;
    var ctx := new Sha1Ctx();
    for i := 0 to |chunks|
      invariant ctx.Valid() && fresh(ctx) && fresh(ctx.buffer)
      invariant ctx.message == Concat(chunks[..i])
    {
      ctx.Update(chunks[i]);
      assert chunks[..i + 1][..i] == chunks[..i];
    }
    assert chunks[..|chunks|] == chunks;
    var d := new Byte[DIGEST_SIZE];
    ctx.Final(d);
    digest := d[..];
  }

  /** The message alone determines everything a later call can observe: hash, counter and the buffered tail. */
  lemma MessageDeterminesState(one: Sha1Ctx, two: Sha1Ctx)
    requires one.Valid() && two.Valid() && one.message == two.message
    ensures one.Hash() == two.Hash() && one.n0 == two.n0 && one.n1 == two.n1
    ensures one.buffer[..|one.message| % 64] == two.buffer[..|two.message| % 64]
  {
    hide Absorb;
    assert (one.n1 - two.n1) * TWO_32 == two.n0 - one.n0;
  }

  /** update(a); update(b) leaves the same observable state as update(a + b). */
  method UpdateSplit(one: Sha1Ctx, two: Sha1Ctx, a: seq<Byte>, b: seq<Byte>)
    requires one.Valid() && two.Valid() && one.message == two.message
    requires one != two && one.buffer != two.buffer
    requires |a| + |b| + 63 < TWO_32
    modifies one, one.buffer, two, two.buffer
    ensures one.Valid() && two.Valid() && one.message == two.message == old(one.message) + a + b
    ensures one.Hash() == two.Hash() && one.n0 == two.n0 && one.n1 == two.n1
    ensures one.buffer[..|one.message| % 64] == two.buffer[..|two.message| % 64]
  {
    hide *;
    one.Update(a);
    one.Update(b);
    two.Update(a + b);
    assert one.message == two.message;
    MessageDeterminesState(one, two);
  }
}
