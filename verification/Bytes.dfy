/** Machine bytes and words, and the little-endian two's-complement encoding of C integers. */
module Bytes {
  type Byte = b: int | 0 <= b < 256
  type Word = bv32

  const TWO_32: int := 0x1_0000_0000
  type uint32 = x: int | 0 <= x < TWO_32

  /** The low eight bits of an integer, as a conversion to `unsigned char` keeps them. */
  function Octet(x: int): Byte { x % 256 }

  /** `256^size`: the number of values `size` bytes can hold. */
  function Span(size: nat): (p: int)
    ensures p > 0
  {
    if size == 0 then 1 else 256 * Span(size - 1)
  }

  /** The bytes that storing `v` in a `size`-byte integer leaves in memory (little endian, truncating). */
  function Encode(v: int, size: nat): (s: seq<Byte>)
    ensures |s| == size
    decreases size
  {
    if size == 0 then [] else [Octet(v)] + Encode(v / 256, size - 1)
  }

  /** Byte i of a stored integer: the least significant byte comes first. */
  lemma {:induction false} EncodeAt(v: int, size: nat, i: nat)
    requires i < size
    ensures Encode(v, size)[i] == v / Span(i) % 256
    decreases size
  {
    if i > 0 {
      EncodeAt(v / 256, size - 1, i - 1);
      QuotientOfQuotient(v, Span(i - 1));
    }
  }

  lemma QuotientOfQuotient(v: int, p: int)
    requires p > 0
    ensures v / 256 / p == v / (256 * p)
  {
    var q := v / 256 / p;
    var r := v / 256 - q * p;
    assert v == q * (256 * p) + (256 * r + v % 256);
    assert 0 <= 256 * r + v % 256 < 256 * p;
    QuotientUnique(v, 256 * p, q, 256 * r + v % 256);
  }

  lemma QuotientUnique(v: int, d: int, q: int, r: int)
    requires 0 <= r < d && v == q * d + r
    ensures v / d == q
  {
    MultipleBound(q - v / d, d);
    assert (q - v / d) * d == q * d - v / d * d == v % d - r;
  }

  lemma MultipleBound(k: int, d: int)
    requires d > 0
    ensures k >= 1 ==> k * d >= d
    ensures k <= -1 ==> k * d <= -d
  {
    if k >= 1 {
      assert (k - 1) * d >= 0;
    } else if k <= -1 {
      assert (-1 - k) * d >= 0;
    }
  }

  function DecodeUnsigned(s: seq<Byte>): nat {
    if s == [] then 0 else s[0] + 256 * DecodeUnsigned(s[1..])
  }

  /** The integer that loading the bytes of `s` yields. */
  function Decode(s: seq<Byte>, signed: bool): int {
    var u := DecodeUnsigned(s);
    if signed && 2 * u >= Span(|s|) then u - Span(|s|) else u
  }

  predicate InRange(v: int, size: nat, signed: bool) {
    if signed then -Span(size) <= 2 * v < Span(size) else 0 <= v < Span(size)
  }

  lemma {:induction false} DecodeUnsignedEncode(v: int, size: nat)
    requires -Span(size) <= v < Span(size)
    ensures DecodeUnsigned(Encode(v, size)) == if v < 0 then v + Span(size) else v
    decreases size
  {
    if size > 0 {
      DecodeUnsignedEncode(v / 256, size - 1);
      assert Encode(v, size)[1..] == Encode(v / 256, size - 1);
    }
  }

  /** Every value of an integer type survives being stored and loaded again. */
  lemma DecodeEncode(v: int, size: nat, signed: bool)
    requires size > 0
    requires InRange(v, size, signed)
    ensures Decode(Encode(v, size), signed) == v
  {
    DecodeUnsignedEncode(v, size);
  }

  lemma {:induction false} DecodeUnsignedBound(s: seq<Byte>)
    ensures DecodeUnsigned(s) < Span(|s|)
  {
    if s != [] {
      DecodeUnsignedBound(s[1..]);
    }
  }

  lemma {:induction false} EncodeDecodeUnsigned(s: seq<Byte>)
    ensures Encode(DecodeUnsigned(s), |s|) == s
  {
    if s != [] {
      EncodeDecodeUnsigned(s[1..]);
      assert DecodeUnsigned(s) / 256 == DecodeUnsigned(s[1..]) && Octet(DecodeUnsigned(s)) == s[0];
    }
  }

  /** Storing keeps the value modulo the number of values of the type. */
  lemma {:induction false} EncodeWraps(v: int, size: nat)
    ensures Encode(v + Span(size), size) == Encode(v, size)
    decreases size
  {
    if size > 0 {
      EncodeWraps(v / 256, size - 1);
      assert (v + 256 * Span(size - 1)) / 256 == v / 256 + Span(size - 1);
      assert Octet(v + 256 * Span(size - 1)) == Octet(v);
    }
  }

  /** Loading bytes and storing the integer gives the bytes back; the integer is in range. */
  lemma EncodeDecode(s: seq<Byte>, signed: bool)
    ensures Encode(Decode(s, signed), |s|) == s
    ensures s != [] ==> InRange(Decode(s, signed), |s|, signed)
  {
    EncodeDecodeUnsigned(s);
    DecodeUnsignedBound(s);
    EncodeWraps(Decode(s, signed), |s|);
    assert s != [] ==> Span(|s|) == 2 * (128 * Span(|s| - 1));
  }

  /** The memory `was` after the bytes of `src` are stored at offset `at`. */
  function Splice(was: seq<Byte>, at: nat, src: seq<Byte>): (now: seq<Byte>)
    requires at + |src| <= |was|
    ensures |now| == |was|
  {
    was[..at] + src + was[at + |src|..]
  }

  /** Byte k of the memory afterwards. */
  lemma SpliceAt(was: seq<Byte>, at: nat, src: seq<Byte>, k: nat)
    requires at + |src| <= |was| && k < |was|
    ensures Splice(was, at, src)[k] == if at <= k < at + |src| then src[k - at] else was[k]
  {
  }

  lemma SpliceNothing(was: seq<Byte>, at: nat)
    requires at <= |was|
    ensures Splice(was, at, []) == was
  {
  }

  lemma SplicePrefix(was: seq<Byte>, src: seq<Byte>)
    requires |src| <= |was|
    ensures Splice(was, 0, src)[..|src|] == src
  {
  }

  lemma SpliceAll(was: seq<Byte>, src: seq<Byte>)
    requires |src| == |was|
    ensures Splice(was, 0, src) == src
  {
  }

  lemma SpliceFront(was: seq<Byte>, at: nat, src: seq<Byte>)
    requires at + |src| <= |was|
    ensures Splice(was, at, src)[..at + |src|] == was[..at] + src
  {
  }

  /** Two adjacent stores are one store. */
  lemma SpliceSplice(was: seq<Byte>, at: nat, x: seq<Byte>, y: seq<Byte>)
    requires at + |x| + |y| <= |was|
    ensures Splice(Splice(was, at, x), at + |x|, y) == Splice(was, at, x + y)
  {
  }

  /** `memcpy` of `src` to offset `at` of `dst`. */
  method CopyTo(dst: array<Byte>, at: nat, src: seq<Byte>)
    requires at + |src| <= dst.Length
    modifies dst
    ensures dst[..] == Splice(old(dst[..]), at, src)
  {
    forall k | 0 <= k < |src| {
      dst[at + k] := src[k];
    }
  }
}
