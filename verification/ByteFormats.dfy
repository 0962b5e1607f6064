/** The few directives the daemon's own formats use, and how they read and write single bytes. */
module ByteFormats {
  import opened Bytes
  import opened FormatDfa
  import opened Serialize

  const HHU := Item(false, 5)
  const HHUS := Item(true, 5)
  const D := Item(false, 2)
  const U := Item(false, 7)

  lemma ItemTexts()
    ensures RenderItem(HHU) == "%hhu" && RenderItem(HHUS) == "%*hhu" && RenderItem(D) == "%d" && RenderItem(U) == "%u"
  {
  }

  lemma RenderMore(i: Item, rest: seq<Item>, text: string)
    requires i.spec < 10 && ValidItems(rest) && Render(rest) == text
    ensures ValidItems([i] + rest) && Render([i] + rest) == RenderItem(i) + text
  {
  }

  lemma NoText()
    ensures Render([]) == ""
  {
  }

  lemma Sizes()
    ensures ValSize(5) == 1 && !IsSigned(5) && ValSize(2) == 4 && IsSigned(2)
    ensures HHU.spec == 5 && !HHU.star && HHUS.spec == 5 && HHUS.star && D.spec == 2 && !D.star
    ensures ValSize(7) == 4 && !IsSigned(7) && U.spec == 7 && !U.star
  {
  }

  lemma {:induction false} EncodeBytes(s: seq<Byte>)
    ensures EncodeAll(s, 1) == s
  {
    if s != [] {
      EncodeBytes(s[1..]);
      assert Encode(s[0], 1) == [s[0]];
    }
  }

  lemma {:induction false} DecodeBytes(s: seq<Byte>)
    ensures DecodeAll(s, |s|, 1, false) == s
  {
    if s != [] {
      DecodeBytes(s[1..]);
      DecodeByte(s[0]);
      assert s[..1] == [s[0]];
    }
  }

  lemma DecodeByte(b: Byte)
    ensures Decode([b], false) == b
  {
    assert DecodeUnsigned([b]) == b + 256 * DecodeUnsigned([]);
  }

  lemma EncodeByte(b: Byte)
    ensures Encode(b, 1) == [b]
  {
  }

  /** A `%*hhu` in front of a format reads n bytes. */
  lemma BytesFirst(n: nat, items: seq<Item>, counts: seq<nat>, buffer: seq<Byte>)
    requires 0 < n <= |buffer| && n < TWO_32 && ValidItems(items) && UnpackArgs(Render(items), counts)
    ensures ValidItems([HHUS] + items) && UnpackArgs(Render([HHUS] + items), [n] + counts)
    ensures UnpackRun(Render([HHUS] + items), [n] + counts, buffer)
         == Resume(n, [buffer[..n]], UnpackRun(Render(items), counts, buffer[n..]))
  {
    hide *;
    Sizes();
    UnpackMore(HHUS, items, n, counts, buffer);
    DecodeBytes(buffer[..n]);
  }

  /** A `%u` in front of a format reads four bytes. */
  lemma UnsignedFirst(items: seq<Item>, counts: seq<nat>, buffer: seq<Byte>)
    requires 4 <= |buffer| && ValidItems(items) && UnpackArgs(Render(items), counts)
    ensures ValidItems([U] + items) && UnpackArgs(Render([U] + items), counts)
    ensures UnpackRun(Render([U] + items), counts, buffer)
         == Resume(4, [[Decode(buffer[..4], false)]], UnpackRun(Render(items), counts, buffer[4..]))
  {
    assert TWO_32 > 4;
    hide *;
    Sizes();
    UnpackMore(U, items, 1, counts, buffer);
    DecodeOne(buffer[..4], 4, false);
  }

  lemma DecodeOne(s: seq<Byte>, size: nat, signed: bool)
    requires |s| == size
    ensures DecodeAll(s, 1, size, signed) == [Decode(s, signed)]
  {
    hide Decode;
    assert s[..size] == s;
  }
}
