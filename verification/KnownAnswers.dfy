/** Known answers of FIPS 180-4's functions for short messages, and where its constants come from. */
module KnownAnswers {
  import opened Bytes
  import opened Fips180
  import opened Sha1

  // ---- The constants ----

  /** k is the integer part of the square root of n, times 2^30. */
  predicate Root(k: nat, n: nat) {
    k * k <= n * 0x1000_0000_0000_0000 < (k + 1) * (k + 1)
  }

  /** The four round constants come from the square roots of 2, 3, 5 and 10. */
  lemma RoundConstants(t: nat)
    requires t < 80
    ensures Root(K(t) as nat, if t < 20 then 2 else if t < 40 then 3 else if t < 60 then 5 else 10)
  {
  }

  /** The first four initial words, least significant byte first, count the hexadecimal digits up and down again. */
  lemma InitialHash()
    ensures [Backwards(INITIAL_HASH.a), Backwards(INITIAL_HASH.b), Backwards(INITIAL_HASH.c), Backwards(INITIAL_HASH.d)]
      == [[0x01, 0x23, 0x45, 0x67], [0x89, 0xab, 0xcd, 0xef], [0xfe, 0xdc, 0xba, 0x98], [0x76, 0x54, 0x32, 0x10]]
    ensures WordBytes(INITIAL_HASH.e) == [0xc3, 0xd2, 0xe1, 0xf0]
  {
  }

  function Backwards(w: Word): seq<Byte> {
    var s := WordBytes(w);
    [s[3], s[2], s[1], s[0]]
  }

  // ---- Evaluating a compression eight steps at a time ----

  /** These are the eight schedule words from t on. */
  ghost predicate Words(m: Block, t: nat, w: seq<Word>) {
    |w| == 8 && forall i | 0 <= i < 8 :: ScheduleWord(m, t + i) == w[i]
  }

  function EightSteps(r: Regs, t: nat, w: seq<Word>): Regs
    requires |w| == 8
  {
    var r4 := Step(Step(Step(Step(r, t, w[0]), t + 1, w[1]), t + 2, w[2]), t + 3, w[3]);
    Step(Step(Step(Step(r4, t + 4, w[4]), t + 5, w[5]), t + 6, w[6]), t + 7, w[7])
  }

  /** The eight schedule words after v and w. */
  function NextWords(v: seq<Word>, w: seq<Word>): (next: seq<Word>)
    requires |v| == |w| == 8
    ensures |next| == 8
  {
    var x0, x1, x2 := Mixed(w[5], w[0], v[2], v[0]), Mixed(w[6], w[1], v[3], v[1]), Mixed(w[7], w[2], v[4], v[2]);
    var x3, x4, x5 := Mixed(x0, w[3], v[5], v[3]), Mixed(x1, w[4], v[6], v[4]), Mixed(x2, w[5], v[7], v[5]);
    [x0, x1, x2, x3, x4, x5, Mixed(x3, w[6], w[0], v[6]), Mixed(x4, w[7], w[1], v[7])]
  }

  /** Before step t: the working variables, and the schedule words of the next sixteen steps. */
  ghost predicate At(m: Block, t: nat, r: Regs, v: seq<Word>, w: seq<Word>) {
    Rounds(m, INITIAL_HASH, t) == r && Words(m, t, v) && Words(m, t + 8, w)
  }

  lemma WordAt(m: Block, t: nat, w: seq<Word>, i: nat)
    requires Words(m, t, w) && i < 8
    ensures |w| == 8 && ScheduleWord(m, t + i) == w[i]
  {
    hide ScheduleWord;
  }

  lemma OneStep(m: Block, t: nat)
    ensures Rounds(m, INITIAL_HASH, t + 1) == Step(Rounds(m, INITIAL_HASH, t), t, ScheduleWord(m, t))
  {
    hide Step, ScheduleWord;
  }

  lemma StepsFrom(m: Block, t: nat, w: seq<Word>)
    requires Words(m, t, w)
    ensures Rounds(m, INITIAL_HASH, t + 8) == EightSteps(Rounds(m, INITIAL_HASH, t), t, w)
  {
    hide Step, ScheduleWord, Rounds;
    forall i | 0 <= i < 8
      ensures Rounds(m, INITIAL_HASH, t + i + 1) == Step(Rounds(m, INITIAL_HASH, t + i), t + i, w[i])
    {
      OneStep(m, t + i);
      WordAt(m, t, w, i);
    }
    hide Words;
    var r := i requires 0 <= i <= 8 => Rounds(m, INITIAL_HASH, t + i);
    assert r(4) == Step(Step(Step(Step(r(0), t, w[0]), t + 1, w[1]), t + 2, w[2]), t + 3, w[3]);
  }

  lemma WordFrom(m: Block, t: nat, a: Word, b: Word, c: Word, d: Word)
    requires t >= 16 && ScheduleWord(m, t - 3) == a && ScheduleWord(m, t - 8) == b
    requires ScheduleWord(m, t - 14) == c && ScheduleWord(m, t - 16) == d
    ensures ScheduleWord(m, t) == Mixed(a, b, c, d)
  {
    ScheduleMixed(m, t);
    hide ScheduleWord, Mixed;
  }

  lemma EightWords(m: Block, t: nat, w: seq<Word>)
    requires Words(m, t, w)
    ensures |w| == 8
    ensures ScheduleWord(m, t) == w[0] && ScheduleWord(m, t + 1) == w[1]
    ensures ScheduleWord(m, t + 2) == w[2] && ScheduleWord(m, t + 3) == w[3]
    ensures ScheduleWord(m, t + 4) == w[4] && ScheduleWord(m, t + 5) == w[5]
    ensures ScheduleWord(m, t + 6) == w[6] && ScheduleWord(m, t + 7) == w[7]
  {
    hide ScheduleWord;
    WordAt(m, t, w, 0);
    WordAt(m, t, w, 1);
    WordAt(m, t, w, 2);
    WordAt(m, t, w, 3);
    WordAt(m, t, w, 4);
    WordAt(m, t, w, 5);
    WordAt(m, t, w, 6);
    WordAt(m, t, w, 7);
  }

  lemma WordsFrom(m: Block, t: nat, v: seq<Word>, w: seq<Word>)
    requires Words(m, t, v) && Words(m, t + 8, w)
    ensures |v| == |w| == 8 && Words(m, t + 16, NextWords(v, w))
  {
    hide ScheduleWord, Mixed;
    EightWords(m, t, v);
    EightWords(m, t + 8, w);
    hide Words;
    var x := NextWords(v, w);
    WordFrom(m, t + 16, w[5], w[0], v[2], v[0]);
    WordFrom(m, t + 17, w[6], w[1], v[3], v[1]);
    WordFrom(m, t + 18, w[7], w[2], v[4], v[2]);
    WordFrom(m, t + 19, x[0], w[3], v[5], v[3]);
    WordFrom(m, t + 20, x[1], w[4], v[6], v[4]);
    WordFrom(m, t + 21, x[2], w[5], v[7], v[5]);
    WordFrom(m, t + 22, x[3], w[6], w[0], v[6]);
    WordFrom(m, t + 23, x[4], w[7], w[1], v[7]);
    hide NextWords;
    AreWords(m, t + 16, x);
  }

  lemma AreWords(m: Block, t: nat, w: seq<Word>)
    requires |w| == 8
    requires ScheduleWord(m, t) == w[0] && ScheduleWord(m, t + 1) == w[1]
    requires ScheduleWord(m, t + 2) == w[2] && ScheduleWord(m, t + 3) == w[3]
    requires ScheduleWord(m, t + 4) == w[4] && ScheduleWord(m, t + 5) == w[5]
    requires ScheduleWord(m, t + 6) == w[6] && ScheduleWord(m, t + 7) == w[7]
    ensures Words(m, t, w)
  {
    hide ScheduleWord;
  }

  /** Eight steps further. */
  lemma Advance(m: Block, t: nat, r: Regs, v: seq<Word>, w: seq<Word>)
    requires At(m, t, r, v, w)
    ensures At(m, t + 8, EightSteps(r, t, v), w, NextWords(v, w))
  {
    hide Rounds, Words, NextWords, EightSteps;
    StepsFrom(m, t, v);
    WordsFrom(m, t, v, w);
  }

  /** A message that pads to one block. */
  lemma OneBlock(message: seq<Byte>, m: Block, r: Regs, v: seq<Word>, w: seq<Word>)
    requires Pad(message) == m && At(m, 80, r, v, w)
    ensures Fips180.Sha1(message) == DigestBytes(AddRegs(INITIAL_HASH, r))
  {
    hide Rounds, Words, DigestBytes, Pad;
    AbsorbNothing();
    assert [] + m == m;
    AbsorbBlock([], m);
    hide Absorb;
  }

  lemma NoRounds(m: Block)
    ensures Rounds(m, INITIAL_HASH, 0) == INITIAL_HASH
  {
  }

  // ---- The message "abc" ----

  const ABC: seq<Byte> := [0x61, 0x62, 0x63]
  const ABC_BLOCK: Block := ABC + [0x80] + Zeros(59) + [24]

  lemma AbcBlock()
    ensures Pad(ABC) == ABC_BLOCK
  {
  }

  lemma AbcBlockBytes(i: nat)
    requires i < 64
    ensures ABC_BLOCK[i] ==
      if i == 0 then 0x61 else if i == 1 then 0x62 else if i == 2 then 0x63 else if i == 3 then 0x80
      else if i == 63 then 24 else 0
  {
  }

  lemma AbcInput(t: nat)
    requires t < 16
    ensures ScheduleWord(ABC_BLOCK, t) == if t == 0 then 0x61626380 else if t == 15 then 24 else 0
  {
    AbcBlockBytes(4 * t);
    AbcBlockBytes(4 * t + 1);
    AbcBlockBytes(4 * t + 2);
    AbcBlockBytes(4 * t + 3);
  }

  lemma AbcWords0()
    ensures Words(ABC_BLOCK, 0,
                  [0x61626380, 0x00000000, 0x00000000, 0x00000000, 0x00000000, 0x00000000, 0x00000000, 0x00000000])
  {
    hide ScheduleWord, Words;
    AbcInput(0);
    AbcInput(1);
    AbcInput(2);
    AbcInput(3);
    AbcInput(4);
    AbcInput(5);
    AbcInput(6);
    AbcInput(7);
    AreWords(ABC_BLOCK, 0,
             [0x61626380, 0x00000000, 0x00000000, 0x00000000, 0x00000000, 0x00000000, 0x00000000, 0x00000000]);
  }

  lemma AbcWords8()
    ensures Words(ABC_BLOCK, 8,
                  [0x00000000, 0x00000000, 0x00000000, 0x00000000, 0x00000000, 0x00000000, 0x00000000, 0x00000018])
  {
    hide ScheduleWord, Words;
    AbcInput(8);
    AbcInput(9);
    AbcInput(10);
    AbcInput(11);
    AbcInput(12);
    AbcInput(13);
    AbcInput(14);
    AbcInput(15);
    AreWords(ABC_BLOCK, 8,
             [0x00000000, 0x00000000, 0x00000000, 0x00000000, 0x00000000, 0x00000000, 0x00000000, 0x00000018]);
  }

  lemma Abc0() returns (r: Regs, v: seq<Word>, w: seq<Word>)
    ensures At(ABC_BLOCK, 0, r, v, w)
    ensures r == Regs(0x67452301, 0xefcdab89, 0x98badcfe, 0x10325476, 0xc3d2e1f0)
    ensures v == [0x61626380, 0x00000000, 0x00000000, 0x00000000, 0x00000000, 0x00000000, 0x00000000, 0x00000000]
    ensures w == [0x00000000, 0x00000000, 0x00000000, 0x00000000, 0x00000000, 0x00000000, 0x00000000, 0x00000018]
  {
    hide Rounds, Words;
    NoRounds(ABC_BLOCK);
    AbcWords0();
    AbcWords8();
    r := INITIAL_HASH;
    v := [0x61626380, 0x00000000, 0x00000000, 0x00000000, 0x00000000, 0x00000000, 0x00000000, 0x00000000];
    w := [0x00000000, 0x00000000, 0x00000000, 0x00000000, 0x00000000, 0x00000000, 0x00000000, 0x00000018];
  }

  lemma Abc8() returns (r: Regs, v: seq<Word>, w: seq<Word>)
    ensures At(ABC_BLOCK, 8, r, v, w)
    ensures r == Regs(0x9e8c07d4, 0x993e30c1, 0x0ff1f290, 0xb3f52677, 0xf3763846)
    ensures v == [0x00000000, 0x00000000, 0x00000000, 0x00000000, 0x00000000, 0x00000000, 0x00000000, 0x00000018]
    ensures w == [0xc2c4c700, 0x00000000, 0x00000030, 0x85898e01, 0x00000000, 0x00000060, 0x0b131c03, 0x00000030]
  {
    hide At, Words, Rounds, ScheduleWord;
    var r0, v0, w0 := Abc0();
    Advance(ABC_BLOCK, 0, r0, v0, w0);
    r, v, w := EightSteps(r0, 0, v0), w0, NextWords(v0, w0);
  }

  lemma Abc16() returns (r: Regs, v: seq<Word>, w: seq<Word>)
    ensures At(ABC_BLOCK, 16, r, v, w)
    ensures r == Regs(0x20bdd62f, 0x196bee77, 0x644a3da5, 0x1181ed99, 0x18c623f9)
    ensures v == [0xc2c4c700, 0x00000000, 0x00000030, 0x85898e01, 0x00000000, 0x00000060, 0x0b131c03, 0x00000030]
    ensures w == [0x85898ec1, 0x16263806, 0x00000000, 0x00000180, 0x2c4c700c, 0x000000f0, 0x93afb507, 0x5898e048]
  {
    hide At, Words, Rounds, ScheduleWord;
    var r0, v0, w0 := Abc8();
    Advance(ABC_BLOCK, 8, r0, v0, w0);
    r, v, w := EightSteps(r0, 8, v0), w0, NextWords(v0, w0);
  }

  lemma Abc24() returns (r: Regs, v: seq<Word>, w: seq<Word>)
    ensures At(ABC_BLOCK, 24, r, v, w)
    ensures r == Regs(0xd541f12d, 0x21283486, 0x0ce88eff, 0x868dec32, 0x7f67875f)
    ensures v == [0x85898ec1, 0x16263806, 0x00000000, 0x00000180, 0x2c4c700c, 0x000000f0, 0x93afb507, 0x5898e048]
    ensures w == [0x8e9a9202, 0x00000600, 0xb131c0f0, 0x16263bc6, 0x4ebed41e, 0x626380a1, 0x16263806, 0x000018c0]
  {
    hide At, Words, Rounds, ScheduleWord;
    var r0, v0, w0 := Abc16();
    Advance(ABC_BLOCK, 16, r0, v0, w0);
    r, v, w := EightSteps(r0, 16, v0), w0, NextWords(v0, w0);
  }

  lemma Abc32() returns (r: Regs, v: seq<Word>, w: seq<Word>)
    ensures At(ABC_BLOCK, 32, r, v, w)
    ensures r == Regs(0x3b845d33, 0x1267b407, 0x717eebd7, 0xa0dc2d4b, 0xd2aa1365)
    ensures v == [0x8e9a9202, 0x00000600, 0xb131c0f0, 0x16263bc6, 0x4ebed41e, 0x626380a1, 0x16263806, 0x000018c0]
    ensures w == [0xd2e138c4, 0x00000f00, 0x3afb5079, 0x898e04e5, 0xe2ba3c2b, 0x000060c0, 0x053a37cd, 0x74458547]
  {
    hide At, Words, Rounds, ScheduleWord;
    var r0, v0, w0 := Abc24();
    Advance(ABC_BLOCK, 24, r0, v0, w0);
    r, v, w := EightSteps(r0, 24, v0), w0, NextWords(v0, w0);
  }

  lemma Abc40() returns (r: Regs, v: seq<Word>, w: seq<Word>)
    ensures At(ABC_BLOCK, 40, r, v, w)
    ensures r == Regs(0x32de1cba, 0x4c986405, 0xf718e5cf, 0x03d447f6, 0xf72eec32)
    ensures v == [0xd2e138c4, 0x00000f00, 0x3afb5079, 0x898e04e5, 0xe2ba3c2b, 0x000060c0, 0x053a37cd, 0x74458547]
    ensures w == [0xda9415ed, 0x26380a16, 0x626383a1, 0x4ebf54de, 0x3835b44b, 0x0000f600, 0x1e84c7a3, 0x98e04d98]
  {
    hide At, Words, Rounds, ScheduleWord;
    var r0, v0, w0 := Abc32();
    Advance(ABC_BLOCK, 32, r0, v0, w0);
    r, v, w := EightSteps(r0, 32, v0), w0, NextWords(v0, w0);
  }

  lemma Abc48() returns (r: Regs, v: seq<Word>, w: seq<Word>)
    ensures At(ABC_BLOCK, 48, r, v, w)
    ensures r == Regs(0xbead02ca, 0xa01b846c, 0x8714787c, 0x503ca382, 0xfb86c6ab)
    ensures v == [0xda9415ed, 0x26380a16, 0x626383a1, 0x4ebf54de, 0x3835b44b, 0x0000f600, 0x1e84c7a3, 0x98e04d98]
    ensures w == [0x651d16a0, 0x62658ca1, 0x458544d6, 0x44584cb7, 0x7ba06619, 0x6380aea2, 0x0ae55269, 0x627b49a1]
  {
    hide At, Words, Rounds, ScheduleWord;
    var r0, v0, w0 := Abc40();
    Advance(ABC_BLOCK, 40, r0, v0, w0);
    r, v, w := EightSteps(r0, 40, v0), w0, NextWords(v0, w0);
  }

  lemma Abc56() returns (r: Regs, v: seq<Word>, w: seq<Word>)
    ensures At(ABC_BLOCK, 56, r, v, w)
    ensures r == Regs(0x5e6456af, 0x7b71f76d, 0x09fa7c76, 0x792410db, 0x8e11eb59)
    ensures v == [0x651d16a0, 0x62658ca1, 0x458544d6, 0x44584cb7, 0x7ba06619, 0x6380aea2, 0x0ae55269, 0x627b49a1]
    ensures w == [0x7cd45c9d, 0x000f0000, 0xfb50753a, 0xec6765e8, 0xba3c2be2, 0x0060c000, 0x3a37cd05, 0x458546f4]
  {
    hide At, Words, Rounds, ScheduleWord;
    var r0, v0, w0 := Abc48();
    Advance(ABC_BLOCK, 48, r0, v0, w0);
    r, v, w := EightSteps(r0, 48, v0), w0, NextWords(v0, w0);
  }

  lemma Abc64() returns (r: Regs, v: seq<Word>, w: seq<Word>)
    ensures At(ABC_BLOCK, 64, r, v, w)
    ensures r == Regs(0x6b61c9e1, 0xb66c020b, 0x9523272c, 0xf5d5b051, 0x8fd4b796)
    ensures v == [0x7cd45c9d, 0x000f0000, 0xfb50753a, 0xec6765e8, 0xba3c2be2, 0x0060c000, 0x3a37cd05, 0x458546f4]
    ensures w == [0xb8599dd6, 0x380a1a26, 0x01e02203, 0xe7cc3456, 0xe6e60b69, 0x00f60a00, 0x5795ef4f, 0x822e0879]
  {
    hide At, Words, Rounds, ScheduleWord;
    var r0, v0, w0 := Abc56();
    Advance(ABC_BLOCK, 56, r0, v0, w0);
    r, v, w := EightSteps(r0, 56, v0), w0, NextWords(v0, w0);
  }

  lemma Abc72() returns (r: Regs, v: seq<Word>, w: seq<Word>)
    ensures At(ABC_BLOCK, 72, r, v, w)
    ensures r == Regs(0x39859de7, 0xc199f8c7, 0x8fc96230, 0x125c24f0, 0xde37534a)
    ensures v == [0xb8599dd6, 0x380a1a26, 0x01e02203, 0xe7cc3456, 0xe6e60b69, 0x00f60a00, 0x5795ef4f, 0x822e0879]
    ensures w == [0x7e577ce2, 0x07ef2103, 0x8544e945, 0xeb39dab8, 0xc205991a, 0x80aecb63, 0x7d84ca48, 0x7b499b62]
  {
    hide At, Words, Rounds, ScheduleWord;
    var r0, v0, w0 := Abc64();
    Advance(ABC_BLOCK, 64, r0, v0, w0);
    r, v, w := EightSteps(r0, 64, v0), w0, NextWords(v0, w0);
  }

  lemma Abc80() returns (r: Regs, v: seq<Word>, w: seq<Word>)
    ensures At(ABC_BLOCK, 80, r, v, w)
    ensures r == Regs(0x42541b35, 0x5738d5e1, 0x21834873, 0x681e6df6, 0xd8fdf6ad)
    ensures v == [0x7e577ce2, 0x07ef2103, 0x8544e945, 0xeb39dab8, 0xc205991a, 0x80aecb63, 0x7d84ca48, 0x7b499b62]
    ensures w == [0x8e8010a8, 0x4b5b8a77, 0x3216b69a, 0x0507e88d, 0x705bee96, 0x60c0ff00, 0xa28362d0, 0x1da6b91d]
  {
    hide At, Words, Rounds, ScheduleWord;
    var r0, v0, w0 := Abc72();
    Advance(ABC_BLOCK, 72, r0, v0, w0);
    r, v, w := EightSteps(r0, 72, v0), w0, NextWords(v0, w0);
  }

  lemma AbcBytes()
    ensures AddRegs(INITIAL_HASH, Regs(0x42541b35, 0x5738d5e1, 0x21834873, 0x681e6df6, 0xd8fdf6ad))
      == Regs(0xa9993e36, 0x4706816a, 0xba3e2571, 0x7850c26c, 0x9cd0d89d)
    ensures DigestBytes(Regs(0xa9993e36, 0x4706816a, 0xba3e2571, 0x7850c26c, 0x9cd0d89d)) ==
         [0xa9, 0x99, 0x3e, 0x36, 0x47, 0x06, 0x81, 0x6a, 0xba, 0x3e,
          0x25, 0x71, 0x78, 0x50, 0xc2, 0x6c, 0x9c, 0xd0, 0xd8, 0x9d]
  {
  }

  /** The message digest of "abc". */
  lemma AbcDigest()
    ensures Fips180.Sha1(ABC) ==
         [0xa9, 0x99, 0x3e, 0x36, 0x47, 0x06, 0x81, 0x6a, 0xba, 0x3e,
          0x25, 0x71, 0x78, 0x50, 0xc2, 0x6c, 0x9c, 0xd0, 0xd8, 0x9d]
  {
    hide *;
    AbcBlock();
    var r, v, w := Abc80();
    OneBlock(ABC, ABC_BLOCK, r, v, w);
    AbcBytes();
  }

  /** However the message "abc" is cut into updates, the streaming hash yields that digest. */
  method AbcChunks(chunks: seq<seq<Byte>>) returns (digest: seq<Byte>)
    requires Concat(chunks) == ABC
    requires forall i :: 0 <= i < |chunks| ==> |chunks[i]| + 63 < TWO_32
    ensures digest ==
         [0xa9, 0x99, 0x3e, 0x36, 0x47, 0x06, 0x81, 0x6a, 0xba, 0x3e,
          0x25, 0x71, 0x78, 0x50, 0xc2, 0x6c, 0x9c, 0xd0, 0xd8, 0x9d]
  {
    hide *;
    AbcDigest();
    digest := HashChunks(chunks);
  }
}
