/** The format-driven `packf` and `unpackf` of src/common/serialize.c, proved inverse over the grammar of formats. */
module Serialize {
  import opened Bytes
  import opened Errno
  import opened FormatDfa

  // ---- Arguments ----

  /** A variadic argument: an integer, or a pointer to an array of integers. */
  datatype Arg = Num(n: int) | Arr(elems: seq<int>)

  /** The argument a repeat count is read from: an unsigned int. */
  predicate HasCount(star: bool, args: seq<Arg>) {
    star ==> args != [] && args[0].Num? && 0 <= args[0].n < TWO_32
  }

  function Count(star: bool, args: seq<Arg>): nat
    requires HasCount(star, args)
  {
    if star then args[0].n else 1
  }

  function AfterCount(star: bool, args: seq<Arg>): seq<Arg>
    requires HasCount(star, args)
  {
    if star then args[1..] else args
  }

  /** The argument packf takes the data from: an integer when the count is 1, else a pointer to enough elements. */
  predicate HasValues(n: nat, args: seq<Arg>) {
    args != [] && if n == 1 then args[0].Num? else args[0].Arr? && n <= |args[0].elems|
  }

  function Values(n: nat, args: seq<Arg>): (v: seq<int>)
    requires HasValues(n, args)
    ensures |v| == n
  {
    if n == 1 then [args[0].n] else args[0].elems[..n]
  }

  // ---- One directive ----

  /** The head of a format: `%`, optionally `*`, and a specifier; rest is where the cursor lands. */
  datatype Header = Malformed | Header(star: bool, fmttype: nat, rest: string)

  predicate Starred(fmt: string) { CharAt(fmt, 1) == '*' }

  /** The text after `%` or `%*`. */
  function AfterPercent(fmt: string): string
    requires fmt != []
  {
    if Starred(fmt) then fmt[2..] else fmt[1..]
  }

  function ParseHeader(fmt: string): (h: Header)
    requires fmt != []
    ensures h.Header? ==> h.fmttype < 10 && |h.rest| < |fmt|
  {
    if fmt[0] != '%' then Malformed
    else
      var f := AfterPercent(fmt);
      var t := SpecifierAt(f);
      if t < 0 then Malformed
      else
        SpecifierUnique(f, t);
        Header(Starred(fmt), t, f[FmtLen(t)..])
  }

  function EncodeAll(vals: seq<int>, size: nat): (s: seq<Byte>)
    ensures |s| == |vals| * size
  {
    if vals == [] then [] else Encode(vals[0], size) + EncodeAll(vals[1..], size)
  }

  function DecodeAll(s: seq<Byte>, n: nat, size: nat, signed: bool): (vals: seq<int>)
    requires |s| == n * size
    ensures |vals| == n
  {
    if n == 0 then []
    else
      assert n * size == (n - 1) * size + size;
      [Decode(s[..size], signed)] + DecodeAll(s[size..], n - 1, size, signed)
  }

  // ---- packf ----

  /** What C demands of the variadic arguments of a packf call, up to where the format stops being well formed. */
  predicate PackArgs(fmt: string, args: seq<Arg>)
    decreases |fmt|
  {
    if fmt == [] || fmt[0] != '%' then true
    else if !HasCount(Starred(fmt), args) then false
    else
      var n, args1 := Count(Starred(fmt), args), AfterCount(Starred(fmt), args);
      var h := ParseHeader(fmt);
      if n == 0 || h.Malformed? then true
      else HasValues(n, args1) && n * ValSize(h.fmttype) < TWO_32 && PackArgs(h.rest, args1[1..])
  }

  /** The value a run returns and the bytes it has stored by then. */
  datatype Packed = Packed(ret: int, bytes: seq<Byte>)

  function Before(done: seq<Byte>, p: Packed): Packed {
    Packed(if p.ret < 0 then p.ret else |done| + p.ret, done + p.bytes)
  }

  /** packf into a buffer with room for `room` bytes. */
  function PackRun(fmt: string, args: seq<Arg>, room: nat): (p: Packed)
    requires PackArgs(fmt, args)
    ensures |p.bytes| <= room
    decreases |fmt|
  {
    if fmt == [] then Packed(0, [])
    else
      var h := ParseHeader(fmt);
      if fmt[0] != '%' || Count(Starred(fmt), args) == 0 || h.Malformed? then Packed(-1, [])
      else
        var n, args1 := Count(h.star, args), AfterCount(h.star, args);
        var bytes := EncodeAll(Values(n, args1), ValSize(h.fmttype));
        if |bytes| > room then Packed(-E2BIG, [])
        else Before(bytes, PackRun(h.rest, args1[1..], room - |bytes|))
  }

  lemma BeforeNothing(p: Packed)
    ensures Before([], p) == p
  {
  }

  lemma BeforeStop(done: seq<Byte>)
    ensures Before(done, Packed(0, [])) == Packed(|done|, done)
    ensures Before(done, Packed(-1, [])) == Packed(-1, done)
    ensures Before(done, Packed(-E2BIG, [])) == Packed(-E2BIG, done)
  {
  }

  lemma BeforeBefore(x: seq<Byte>, y: seq<Byte>, p: Packed)
    ensures Before(x, Before(y, p)) == Before(x + y, p)
  {
  }

  /** The directive at the head of the format is complete and repeats at least once. */
  predicate Directive(fmt: string, args: seq<Arg>)
    requires fmt != [] && PackArgs(fmt, args)
  {
    ParseHeader(fmt).Header? && Count(Starred(fmt), args) > 0
  }

  function DirectiveBytes(fmt: string, args: seq<Arg>): seq<Byte>
    requires fmt != [] && PackArgs(fmt, args) && Directive(fmt, args)
  {
    EncodeAll(Values(Count(Starred(fmt), args), AfterCount(Starred(fmt), args)), ValSize(ParseHeader(fmt).fmttype))
  }

  function ArgsAfter(fmt: string, args: seq<Arg>): seq<Arg>
    requires fmt != [] && PackArgs(fmt, args) && Directive(fmt, args)
  {
    AfterCount(Starred(fmt), args)[1..]
  }

  lemma PackDone(args: seq<Arg>, room: nat)
    ensures PackArgs([], args) && PackRun([], args, room) == Packed(0, [])
  {
  }

  /** A run, one directive at a time. */
  lemma PackStep(fmt: string, args: seq<Arg>, room: nat)
    requires fmt != [] && PackArgs(fmt, args)
    ensures !Directive(fmt, args) ==> PackRun(fmt, args, room) == Packed(-1, [])
    ensures Directive(fmt, args) ==>
      var bytes, rest, args' := DirectiveBytes(fmt, args), ParseHeader(fmt).rest, ArgsAfter(fmt, args);
      && |rest| < |fmt| && PackArgs(rest, args')
      && PackRun(fmt, args, room) ==
         (if |bytes| > room then Packed(-E2BIG, []) else Before(bytes, PackRun(rest, args', room - |bytes|)))
  {
  }

  /** The part of packf's loop that reads one directive and strips its arguments; fails where the source returns -1. */
  method StripDirective(fmt: string, args: seq<Arg>) returns (ok: bool, bytes: seq<Byte>, rest: string, args': seq<Arg>)
    requires fmt != [] && PackArgs(fmt, args)
    ensures ok == Directive(fmt, args)
    ensures ok ==> bytes == DirectiveBytes(fmt, args) && rest == ParseHeader(fmt).rest && args' == ArgsAfter(fmt, args)
  {
    hide SpecifierAt, EncodeAll;
    var nrepeat := 1;
    ok, bytes, rest, args' := false, [], fmt, args;
    if rest[0] != '%' {
      return;
    }
    rest := rest[1..];
    if CharAt(rest, 0) == '*' {
      nrepeat := args'[0].n;
      args' := args'[1..];
      if nrepeat == 0 {
        return;
      }
      rest := rest[1..];
    }
    assert rest == AfterPercent(fmt);
    var fmttype := DfaSimulate(rest);
    if fmttype < 0 {
      return;
    }
    SpecifierUnique(rest, fmttype);
    var src := if nrepeat == 1 then [args'[0].n] else args'[0].elems[..nrepeat];
    ok, bytes, rest, args' := true, EncodeAll(src, ValSize(fmttype)), rest[FmtLen(fmttype)..], args'[1..];
  }

  /** `packf`, serialize.c:317, writing at offset `at` of the array with `bufsize` bytes to use. */
  method Packf(buffer: array<Byte>, at: nat, bufsize: nat, fmt: string, args: seq<Arg>) returns (nwritten: int)
    requires at + bufsize <= buffer.Length
    requires PackArgs(fmt, args)
    modifies buffer
    ensures nwritten == PackRun(fmt, args, bufsize).ret
    ensures buffer[..] == Splice(old(buffer[..]), at, PackRun(fmt, args, bufsize).bytes)
  {
    hide *;
    ghost var was := buffer[..];
    var f, a := fmt, args;
    ghost var done: seq<Byte> := [];
    nwritten := 0;
    SpliceNothing(was, at);
    BeforeNothing(PackRun(fmt, args, bufsize));
    while f != []
      invariant PackArgs(f, a)
      invariant nwritten == |done| <= bufsize
      invariant PackRun(fmt, args, bufsize) == Before(done, PackRun(f, a, bufsize - |done|))
      invariant buffer[..] == Splice(was, at, done)
      decreases |f|
    {
      BeforeStop(done);
      PackStep(f, a, bufsize - |done|);
      var ok, bytes, rest, a' := StripDirective(f, a);
      if !ok {
        return -1;
      }
      if nwritten + |bytes| > bufsize {
        return -E2BIG;
      }
      BeforeBefore(done, bytes, PackRun(rest, a', bufsize - |done| - |bytes|));
      SpliceSplice(was, at, done, bytes);
      CopyTo(buffer, at + nwritten, bytes);
      assert buffer[..] == Splice(was, at, done + bytes);
      nwritten := nwritten + |bytes|;
      done := done + bytes;
      f, a := rest, a';
    }
    PackDone(a, bufsize - |done|);
    BeforeStop(done);
  }

  // ---- unpackf ----

  /** What C demands of the variadic arguments of an unpackf call: a count for every `*`. */
  predicate UnpackArgs(fmt: string, counts: seq<nat>)
    decreases |fmt|
  {
    if fmt == [] || fmt[0] != '%' then true
    else if Starred(fmt) && counts == [] then false
    else
      var n := if Starred(fmt) then counts[0] else 1;
      var h := ParseHeader(fmt);
      if n == 0 || h.Malformed? then true
      else n * ValSize(h.fmttype) < TWO_32 && UnpackArgs(h.rest, if h.star then counts[1..] else counts)
  }

  /** The value a run returns and, for each destination written by then, the values stored there. */
  datatype Unpacked = Unpacked(ret: int, outs: seq<seq<int>>)

  function Resume(nread: nat, outs: seq<seq<int>>, u: Unpacked): Unpacked {
    Unpacked(if u.ret < 0 then u.ret else nread + u.ret, outs + u.outs)
  }

  function UnpackCount(fmt: string, counts: seq<nat>): nat
    requires fmt != [] && fmt[0] == '%' && UnpackArgs(fmt, counts)
  {
    if Starred(fmt) then counts[0] else 1
  }

  function CountsAfter(star: bool, counts: seq<nat>): seq<nat> {
    if star && counts != [] then counts[1..] else counts
  }

  predicate UnpackDirective(fmt: string, counts: seq<nat>)
    requires fmt != [] && UnpackArgs(fmt, counts)
  {
    ParseHeader(fmt).Header? && UnpackCount(fmt, counts) > 0
  }

  /** unpackf over a received buffer. */
  function UnpackRun(fmt: string, counts: seq<nat>, buffer: seq<Byte>): (u: Unpacked)
    requires UnpackArgs(fmt, counts)
    ensures u.ret <= |buffer|
    decreases |fmt|
  {
    if fmt == [] then Unpacked(0, [])
    else if !UnpackDirective(fmt, counts) then Unpacked(-1, [])
    else
      var h := ParseHeader(fmt);
      var n, size := UnpackCount(fmt, counts), ValSize(h.fmttype);
      if n * size > |buffer| then Unpacked(-E2BIG, [])
      else
        Resume(n * size, [DecodeAll(buffer[..n * size], n, size, IsSigned(h.fmttype))],
               UnpackRun(h.rest, CountsAfter(h.star, counts), buffer[n * size..]))
  }

  lemma UnpackStep(fmt: string, counts: seq<nat>, buffer: seq<Byte>)
    requires fmt != [] && UnpackArgs(fmt, counts)
    ensures !UnpackDirective(fmt, counts) ==> UnpackRun(fmt, counts, buffer) == Unpacked(-1, [])
    ensures UnpackDirective(fmt, counts) ==>
      var h, n := ParseHeader(fmt), UnpackCount(fmt, counts);
      var size, counts' := ValSize(h.fmttype), CountsAfter(h.star, counts);
      && |h.rest| < |fmt| && UnpackArgs(h.rest, counts') && n * size >= 0
      && UnpackRun(fmt, counts, buffer) ==
         (if n * size > |buffer| then Unpacked(-E2BIG, [])
          else Resume(n * size, [DecodeAll(buffer[..n * size], n, size, IsSigned(h.fmttype))],
                      UnpackRun(h.rest, counts', buffer[n * size..])))
  {
  }

  lemma UnpackDone(counts: seq<nat>, buffer: seq<Byte>)
    ensures UnpackArgs([], counts) && UnpackRun([], counts, buffer) == Unpacked(0, [])
  {
  }

  lemma ResumeStop(nread: nat, outs: seq<seq<int>>)
    ensures Resume(nread, outs, Unpacked(0, [])) == Unpacked(nread, outs)
    ensures Resume(nread, outs, Unpacked(-1, [])) == Unpacked(-1, outs)
    ensures Resume(nread, outs, Unpacked(-E2BIG, [])) == Unpacked(-E2BIG, outs)
  {
  }

  lemma ResumeResume(nread: nat, outs: seq<seq<int>>, n: nat, out: seq<seq<int>>, u: Unpacked)
    ensures Resume(nread, outs, Resume(n, out, u)) == Resume(nread + n, outs + out, u)
    ensures Resume(0, [], u) == u
  {
  }

  /** The part of unpackf's loop that reads one directive and strips its repeat count. */
  method StripDestination(fmt: string, counts: seq<nat>)
      returns (ok: bool, n: nat, fmttype: nat, rest: string, counts': seq<nat>)
    requires fmt != [] && UnpackArgs(fmt, counts)
    ensures ok == UnpackDirective(fmt, counts)
    ensures ok ==> n == UnpackCount(fmt, counts) && ParseHeader(fmt) == Header(Starred(fmt), fmttype, rest)
    ensures ok ==> counts' == CountsAfter(Starred(fmt), counts)
  {
    hide SpecifierAt;
    ok, n, fmttype, rest, counts' := false, 1, 0, fmt, counts;
    if rest[0] != '%' {
      return;
    }
    rest := rest[1..];
    if CharAt(rest, 0) == '*' {
      n := counts'[0];
      counts' := counts'[1..];
      if n == 0 {
        return;
      }
      rest := rest[1..];
    }
    assert rest == AfterPercent(fmt);
    var t := DfaSimulate(rest);
    if t < 0 {
      return;
    }
    SpecifierUnique(rest, t);
    ok, fmttype, rest := true, t, rest[FmtLen(t)..];
  }

  /** `unpackf`, serialize.c:387. The destinations come back as the sequence of what was stored through them. */
  method Unpackf(buffer: seq<Byte>, fmt: string, counts: seq<nat>) returns (nread: int, outs: seq<seq<int>>)
    requires UnpackArgs(fmt, counts)
    ensures Unpacked(nread, outs) == UnpackRun(fmt, counts, buffer)
  {
    hide *;
    var f, c := fmt, counts;
    nread, outs := 0, [];
    assert buffer[0..] == buffer;
    ResumeResume(0, [], 0, [], UnpackRun(fmt, counts, buffer));
    while f != []
      invariant UnpackArgs(f, c)
      invariant 0 <= nread <= |buffer|
      invariant UnpackRun(fmt, counts, buffer) == Resume(nread, outs, UnpackRun(f, c, buffer[nread..]))
      decreases |f|
    {
      ResumeStop(nread, outs);
      UnpackStep(f, c, buffer[nread..]);
      var ok, n, fmttype, rest, c' := StripDestination(f, c);
      if !ok {
        return -1, outs;
      }
      var nbytes := n * ValSize(fmttype);
      if nread + nbytes > |buffer| {
        return -E2BIG, outs;
      }
      assert buffer[nread..][..nbytes] == buffer[nread..nread + nbytes];
      assert buffer[nread..][nbytes..] == buffer[nread + nbytes..];
      var vals := DecodeAll(buffer[nread..nread + nbytes], n, ValSize(fmttype), IsSigned(fmttype));
      ResumeResume(nread, outs, nbytes, [vals], UnpackRun(rest, c', buffer[nread + nbytes..]));
      outs := outs + [vals];
      nread := nread + nbytes;
      f, c := rest, c';
    }
    UnpackDone(c, buffer[nread..]);
    ResumeStop(nread, outs);
  }

  // ---- The grammar of formats ----

  datatype Item = Item(star: bool, spec: nat)

  predicate ValidItems(items: seq<Item>) {
    forall i :: 0 <= i < |items| ==> items[i].spec < 10
  }

  function RenderItem(i: Item): string
    requires i.spec < 10
  {
    "%" + (if i.star then "*" else "") + SPECIFIERS[i.spec]
  }

  function Render(items: seq<Item>): string
    requires ValidItems(items)
  {
    if items == [] then [] else RenderItem(items[0]) + Render(items[1..])
  }

  lemma NoItemsRender()
    ensures ValidItems([]) && Render([]) == []
  {
  }

  lemma HeaderOfItem(i: Item, rest: string)
    requires i.spec < 10
    ensures ParseHeader(RenderItem(i) + rest) == Header(i.star, i.spec, rest)
  {
    var fmt := RenderItem(i) + rest;
    assert fmt[0] == '%';
    assert fmt[1] == if i.star then '*' else SPECIFIERS[i.spec][0];
    assert SPECIFIERS[i.spec][0] != '*';
    var f := AfterPercent(fmt);
    assert f == SPECIFIERS[i.spec] + rest;
    SpecifierUnique(f, i.spec);
    assert f[FmtLen(i.spec)..] == rest;
  }

  lemma PercentText(fmt: string)
    requires fmt != [] && fmt[0] == '%'
    ensures fmt == "%" + (if Starred(fmt) then "*" else "") + AfterPercent(fmt)
  {
  }

  lemma HeaderParts(fmt: string)
    requires fmt != [] && ParseHeader(fmt).Header?
    ensures var h := ParseHeader(fmt);
      && fmt[0] == '%' && h.star == Starred(fmt)
      && AfterPercent(fmt) == SPECIFIERS[h.fmttype] + h.rest
  {
    var f := AfterPercent(fmt);
    SpecifierUnique(f, SpecifierAt(f));
    hide SpecifierAt, SPECIFIERS;
  }

  lemma Reassociate(x: string, y: string, z: string)
    ensures x + (y + z) == x + y + z
  {
  }

  lemma TextOfItem(i: Item, rest: string)
    requires i.spec < 10
    ensures RenderItem(i) + rest == "%" + (if i.star then "*" else "") + (SPECIFIERS[i.spec] + rest)
  {
    assert |SPECIFIERS| == 10;
    hide SPECIFIERS;
    Reassociate("%" + (if i.star then "*" else ""), SPECIFIERS[i.spec], rest);
  }

  lemma ItemOfHeader(fmt: string)
    requires fmt != [] && ParseHeader(fmt).Header?
    ensures var h := ParseHeader(fmt); fmt == RenderItem(Item(h.star, h.fmttype)) + h.rest
  {
    hide *;
    HeaderParts(fmt);
    PercentText(fmt);
    TextOfItem(Item(ParseHeader(fmt).star, ParseHeader(fmt).fmttype), ParseHeader(fmt).rest);
  }

  /** The arguments fit the items: PackArgs, read along the grammar. */
  predicate ItemArgs(items: seq<Item>, args: seq<Arg>) {
    if items == [] then true
    else if !HasCount(items[0].star, args) then false
    else
      var n, args1 := Count(items[0].star, args), AfterCount(items[0].star, args);
      n == 0 || (HasValues(n, args1) && n * ValSize(items[0].spec) < TWO_32 && ItemArgs(items[1..], args1[1..]))
  }

  predicate NonzeroCounts(items: seq<Item>, args: seq<Arg>)
    requires ItemArgs(items, args)
  {
    items == [] ||
    (Count(items[0].star, args) > 0 && NonzeroCounts(items[1..], AfterCount(items[0].star, args)[1..]))
  }

  ghost predicate Supplied(items: seq<Item>, args: seq<Arg>) {
    ValidItems(items) && ItemArgs(items, args) && NonzeroCounts(items, args)
  }

  /** The values an argument list holds, one sequence for each item. */
  ghost function ItemValues(items: seq<Item>, args: seq<Arg>): (v: seq<seq<int>>)
    requires Supplied(items, args)
    ensures |v| == |items|
  {
    if items == [] then []
    else
      var args1 := AfterCount(items[0].star, args);
      [Values(Count(items[0].star, args), args1)] + ItemValues(items[1..], args1[1..])
  }

  ghost function StarCounts(items: seq<Item>, args: seq<Arg>): seq<nat>
    requires Supplied(items, args)
  {
    if items == [] then []
    else
      (if items[0].star then [Count(true, args)] else []) + StarCounts(items[1..], AfterCount(items[0].star, args)[1..])
  }

  /** The concatenated encodings of some values. */
  ghost function Payload(items: seq<Item>, vals: seq<seq<int>>): seq<Byte>
    requires |items| == |vals|
  {
    if items == [] then [] else EncodeAll(vals[0], ValSize(items[0].spec)) + Payload(items[1..], vals[1..])
  }

  /** Every value is in range for its type. */
  ghost predicate ValuesInRange(items: seq<Item>, vals: seq<seq<int>>)
    requires |items| == |vals|
  {
    forall i, j :: 0 <= i < |items| && 0 <= j < |vals[i]|
      ==> InRange(vals[i][j], ValSize(items[i].spec), IsSigned(items[i].spec))
  }

  /** packf on a rendered format succeeds exactly when no count is zero and the payload fits; it stores the payload. */
  lemma {:induction false} PackRendered(items: seq<Item>, args: seq<Arg>, room: nat)
    requires ValidItems(items) && ItemArgs(items, args)
    ensures PackArgs(Render(items), args)
    ensures var p := PackRun(Render(items), args, room);
      && (p.ret >= 0 <==> NonzeroCounts(items, args) && |Payload(items, ItemValues(items, args))| <= room)
      && (p.ret >= 0 ==> p.bytes == Payload(items, ItemValues(items, args)) && p.ret == |p.bytes|)
    decreases |items|
  {
    hide EncodeAll;
    if items != [] {
      var i, rest := items[0], Render(items[1..]);
      HeaderOfItem(i, rest);
      hide SPECIFIERS, SpecifierAt;
      assert Render(items) == RenderItem(i) + rest;
      var n, args1 := Count(i.star, args), AfterCount(i.star, args);
      if n > 0 {
        PackRenderedRest(items, args, room);
      }
    }
  }

  /** What the first item contributes to a packf run. */
  lemma FirstDirective(items: seq<Item>, args: seq<Arg>) returns (bytes: seq<Byte>, args': seq<Arg>)
    requires ValidItems(items) && ItemArgs(items, args) && items != [] && Count(items[0].star, args) > 0
    requires PackArgs(Render(items[1..]), AfterCount(items[0].star, args)[1..])
    ensures ValidItems(items[1..]) && ItemArgs(items[1..], args')
    ensures NonzeroCounts(items, args) <==> NonzeroCounts(items[1..], args')
    ensures NonzeroCounts(items, args) ==>
      Payload(items, ItemValues(items, args)) == bytes + Payload(items[1..], ItemValues(items[1..], args'))
    ensures Render(items) != [] && PackArgs(Render(items), args) && Directive(Render(items), args)
    ensures bytes == DirectiveBytes(Render(items), args) && args' == ArgsAfter(Render(items), args)
    ensures ParseHeader(Render(items)).rest == Render(items[1..])
  {
    HeaderOfItem(items[0], Render(items[1..]));
    hide SPECIFIERS, SpecifierAt, ParseHeader, EncodeAll;
    args' := AfterCount(items[0].star, args)[1..];
    bytes := EncodeAll(Values(Count(items[0].star, args), AfterCount(items[0].star, args)), ValSize(items[0].spec));
    assert NonzeroCounts(items, args) ==> ItemValues(items, args)[1..] == ItemValues(items[1..], args');
  }

  lemma BeforeSucceeds(done: seq<Byte>, p: Packed)
    ensures Before(done, p).ret >= 0 <==> p.ret >= 0
    ensures p.ret == |p.bytes| ==> Before(done, p) == Packed(|done + p.bytes|, done + p.bytes)
  {
  }

  lemma {:induction false} PackRenderedRest(items: seq<Item>, args: seq<Arg>, room: nat)
    requires ValidItems(items) && ItemArgs(items, args) && items != [] && Count(items[0].star, args) > 0
    ensures PackArgs(Render(items), args)
    ensures var p := PackRun(Render(items), args, room);
      && (p.ret >= 0 <==> NonzeroCounts(items, args) && |Payload(items, ItemValues(items, args))| <= room)
      && (p.ret >= 0 ==> p.bytes == Payload(items, ItemValues(items, args)) && p.ret == |p.bytes|)
    decreases |items|, 0
  {
    assert E2BIG == 7;
    PackRendered(items[1..], AfterCount(items[0].star, args)[1..], 0);
    var bytes, args' := FirstDirective(items, args);
    hide *;
    PackStep(Render(items), args, room);
    if |bytes| <= room {
      PackRendered(items[1..], args', room - |bytes|);
      BeforeSucceeds(bytes, PackRun(Render(items[1..]), args', room - |bytes|));
    }
  }

  /** One more directive in front of a format that is a sequence of items. */
  lemma DirectiveInGrammar(fmt: string, args: seq<Arg>, rest: seq<Item>) returns (items: seq<Item>)
    requires fmt != [] && PackArgs(fmt, args) && Directive(fmt, args)
    requires ValidItems(rest) && Render(rest) == ParseHeader(fmt).rest && ItemArgs(rest, ArgsAfter(fmt, args))
    ensures ValidItems(items) && Render(items) == fmt && ItemArgs(items, args)
  {
    var h := ParseHeader(fmt);
    ItemOfHeader(fmt);
    hide ParseHeader, SPECIFIERS, RenderItem;
    items := [Item(h.star, h.fmttype)] + rest;
    assert items[1..] == rest;
  }

  /** A format packf succeeds on is in the grammar. */
  lemma {:induction false} PackAccepted(fmt: string, args: seq<Arg>, room: nat) returns (items: seq<Item>)
    requires PackArgs(fmt, args) && PackRun(fmt, args, room).ret >= 0
    ensures ValidItems(items) && Render(items) == fmt && ItemArgs(items, args)
    decreases |fmt|
  {
    assert E2BIG == 7;
    assert fmt == [] ==> ValidItems([]) && Render([]) == fmt && ItemArgs([], args);
    hide *;
    if fmt == [] {
      items := [];
    } else {
      PackStep(fmt, args, room);
      var h, bytes, args' := ParseHeader(fmt), DirectiveBytes(fmt, args), ArgsAfter(fmt, args);
      BeforeSucceeds(bytes, PackRun(h.rest, args', room - |bytes|));
      var tail := PackAccepted(h.rest, args', room - |bytes|);
      items := DirectiveInGrammar(fmt, args, tail);
    }
  }

  /** The items read as this format, their counts are not zero and their payload fits. */
  ghost predicate Packable(items: seq<Item>, fmt: string, args: seq<Arg>, room: nat) {
    Supplied(items, args) && Render(items) == fmt && |Payload(items, ItemValues(items, args))| <= room
  }

  /** packf succeeds exactly on the grammar's formats with nonzero counts and enough room. */
  lemma PackSucceedsExactly(fmt: string, args: seq<Arg>, room: nat)
    requires PackArgs(fmt, args)
    ensures PackRun(fmt, args, room).ret >= 0 <==> exists items :: Packable(items, fmt, args, room)
    ensures forall items :: Packable(items, fmt, args, room) ==>
      PackRun(fmt, args, room)
        == Packed(|Payload(items, ItemValues(items, args))|, Payload(items, ItemValues(items, args)))
  {
    if PackRun(fmt, args, room).ret >= 0 {
      var items := PackAccepted(fmt, args, room);
      PackRendered(items, args, room);
      assert Packable(items, fmt, args, room);
    }
    forall items | Packable(items, fmt, args, room)
      ensures PackRun(fmt, args, room)
        == Packed(|Payload(items, ItemValues(items, args))|, Payload(items, ItemValues(items, args)))
    {
      PackRendered(items, args, room);
    }
  }

  lemma EncodeAllFront(vals: seq<int>, size: nat)
    requires vals != []
    ensures EncodeAll(vals, size)[..size] == Encode(vals[0], size)
    ensures EncodeAll(vals, size)[size..] == EncodeAll(vals[1..], size)
  {
    hide Encode;
  }

  lemma DecodeAllFront(s: seq<Byte>, n: nat, size: nat, signed: bool)
    requires |s| == n * size
    ensures n == 0 ==> DecodeAll(s, n, size, signed) == []
    ensures n > 0 ==>
      && |s| >= size && |s[size..]| == (n - 1) * size
      && DecodeAll(s, n, size, signed) == [Decode(s[..size], signed)] + DecodeAll(s[size..], n - 1, size, signed)
  {
    hide Decode;
    if n > 0 {
      assert n * size == (n - 1) * size + size;
    }
  }

  lemma {:induction false} DecodeEncodeAll(vals: seq<int>, size: nat, signed: bool)
    requires size > 0
    requires forall i :: 0 <= i < |vals| ==> InRange(vals[i], size, signed)
    ensures DecodeAll(EncodeAll(vals, size), |vals|, size, signed) == vals
  {
    hide *;
    DecodeAllFront(EncodeAll(vals, size), |vals|, size, signed);
    if vals != [] {
      EncodeAllFront(vals, size);
      DecodeEncode(vals[0], size, signed);
      DecodeEncodeAll(vals[1..], size, signed);
      assert vals == [vals[0]] + vals[1..];
    }
  }

  /** One item of a rendered format, as unpackf sees it. */
  lemma UnpackRenderedStep(items: seq<Item>, counts: seq<nat>, n: nat, counts': seq<nat>)
    requires ValidItems(items) && items != []
    requires counts == (if items[0].star then [n] + counts' else counts') && n > 0
    requires !items[0].star ==> n == 1
    requires n * ValSize(items[0].spec) < TWO_32
    requires UnpackArgs(Render(items[1..]), counts')
    ensures UnpackArgs(Render(items), counts) && UnpackDirective(Render(items), counts)
    ensures ParseHeader(Render(items)) == Header(items[0].star, items[0].spec, Render(items[1..]))
    ensures UnpackCount(Render(items), counts) == n && CountsAfter(items[0].star, counts) == counts'
  {
    HeaderOfItem(items[0], Render(items[1..]));
    hide SPECIFIERS, SpecifierAt;
  }

  lemma {:induction false} StarCountsFit(items: seq<Item>, args: seq<Arg>)
    requires Supplied(items, args)
    ensures UnpackArgs(Render(items), StarCounts(items, args))
  {
    if items != [] {
      var args' := AfterCount(items[0].star, args)[1..];
      StarCountsFit(items[1..], args');
      UnpackRenderedStep(items, StarCounts(items, args), Count(items[0].star, args), StarCounts(items[1..], args'));
    }
  }

  /** What the first item contributes. */
  lemma FirstItem(items: seq<Item>, args: seq<Arg>) returns (n: nat, v: seq<int>, args': seq<Arg>)
    requires Supplied(items, args) && items != []
    ensures ValidItems(items) && Supplied(items[1..], args') && ValidItems(items[1..])
    ensures UnpackArgs(Render(items[1..]), StarCounts(items[1..], args'))
    ensures var vals, counts := ItemValues(items, args), StarCounts(items, args);
      && |v| == n && vals == [v] + ItemValues(items[1..], args')
      && Payload(items, vals)
         == EncodeAll(v, ValSize(items[0].spec)) + Payload(items[1..], ItemValues(items[1..], args'))
      && UnpackArgs(Render(items), counts) && UnpackDirective(Render(items), counts)
      && ParseHeader(Render(items)) == Header(items[0].star, items[0].spec, Render(items[1..]))
      && UnpackCount(Render(items), counts) == n
      && CountsAfter(items[0].star, counts) == StarCounts(items[1..], args')
  {
    n := Count(items[0].star, args);
    args' := AfterCount(items[0].star, args)[1..];
    v := Values(n, AfterCount(items[0].star, args));
    assert ItemValues(items, args)[1..] == ItemValues(items[1..], args');
    StarCountsFit(items[1..], args');
    UnpackRenderedStep(items, StarCounts(items, args), n, StarCounts(items[1..], args'));
  }

  lemma RangesOfTail(items: seq<Item>, vals: seq<seq<int>>)
    requires |items| == |vals| > 0 && ValuesInRange(items, vals)
    ensures ValuesInRange(items[1..], vals[1..])
    ensures forall j :: 0 <= j < |vals[0]| ==> InRange(vals[0][j], ValSize(items[0].spec), IsSigned(items[0].spec))
  {
  }

  lemma NoItems(args: seq<Arg>, tail: seq<Byte>)
    requires Supplied([], args)
    ensures UnpackArgs(Render([]), StarCounts([], args)) && ItemValues([], args) == [] && Payload([], []) == []
    ensures UnpackRun(Render([]), StarCounts([], args), [] + tail) == Unpacked(0, [])
  {
  }

  lemma ResumeValue(nread: nat, outs: seq<seq<int>>, n: nat, rest: seq<seq<int>>)
    ensures Resume(nread, outs, Unpacked(n, rest)) == Unpacked(nread + n, outs + rest)
  {
  }

  /** unpackf gives back every value packf stored, whatever follows the packed bytes in the buffer. */
  lemma {:induction false} RoundTrip(items: seq<Item>, args: seq<Arg>, tail: seq<Byte>)
    requires Supplied(items, args) && ValuesInRange(items, ItemValues(items, args))
    ensures UnpackArgs(Render(items), StarCounts(items, args))
    ensures var vals := ItemValues(items, args);
      UnpackRun(Render(items), StarCounts(items, args), Payload(items, vals) + tail)
        == Unpacked(|Payload(items, vals)|, vals)
    decreases |items|
  {
    hide *;
    if items == [] {
      NoItems(args, tail);
    } else {
      var n, v, args' := FirstItem(items, args);
      var i, vals, counts := items[0], ItemValues(items, args), StarCounts(items, args);
      RangesOfTail(items, vals);
      assert vals[0] == v && vals[1..] == ItemValues(items[1..], args');
      RoundTrip(items[1..], args', tail);
      var size := ValSize(i.spec);
      var bytes, rest := EncodeAll(v, size), Payload(items[1..], vals[1..]);
      DecodeEncodeAll(v, size, IsSigned(i.spec));
      UnpackStep(Render(items), counts, bytes + rest + tail);
      assert (bytes + rest + tail)[..|bytes|] == bytes;
      assert (bytes + rest + tail)[|bytes|..] == rest + tail;
      ResumeValue(|bytes|, [v], |rest|, vals[1..]);
    }
  }

  lemma UnpackStepReturns(fmt: string, counts: seq<nat>, buffer: seq<Byte>)
    requires fmt != [] && UnpackArgs(fmt, counts) && UnpackDirective(fmt, counts)
    ensures var h := ParseHeader(fmt);
      var nbytes, counts' := UnpackCount(fmt, counts) * ValSize(h.fmttype), CountsAfter(h.star, counts);
      && UnpackArgs(h.rest, counts') && nbytes >= 0
      && (nbytes > |buffer| ==> UnpackRun(fmt, counts, buffer).ret == -E2BIG)
      && (nbytes <= |buffer| ==> UnpackRun(h.rest, counts', buffer[nbytes..]).ret == -E2BIG ==>
          UnpackRun(fmt, counts, buffer).ret == -E2BIG)
  {
    UnpackStep(fmt, counts, buffer);
    hide SpecifierAt, DecodeAll, ParseHeader, UnpackRun, UnpackArgs, UnpackDirective;
  }

  /** No strict prefix of packed bytes satisfies the format that packed them. */
  lemma {:induction false} TruncatedRefused(items: seq<Item>, args: seq<Arg>, k: nat)
    requires Supplied(items, args) && k < |Payload(items, ItemValues(items, args))|
    ensures UnpackArgs(Render(items), StarCounts(items, args))
    ensures var cut := Payload(items, ItemValues(items, args))[..k];
      UnpackRun(Render(items), StarCounts(items, args), cut).ret == -E2BIG
    decreases |items|
  {
    hide *;
    if items == [] {
      NoItems(args, []);
    } else {
      var n, v, args' := FirstItem(items, args);
      var vals, counts, size := ItemValues(items, args), StarCounts(items, args), ValSize(items[0].spec);
      assert vals[1..] == ItemValues(items[1..], args');
      var bytes, rest := EncodeAll(v, size), Payload(items[1..], vals[1..]);
      var nbytes := n * size;
      assert |bytes| == nbytes;
      UnpackStepReturns(Render(items), counts, (bytes + rest)[..k]);
      if k >= nbytes {
        TruncatedRefused(items[1..], args', k - nbytes);
        assert (bytes + rest)[..k][nbytes..] == rest[..k - nbytes];
      }
    }
  }

  // ---- When unpackf succeeds, and which error it returns otherwise ----

  /** There is a nonzero count for every starred item. */
  ghost predicate Repeats(items: seq<Item>, counts: seq<nat>) {
    items == [] ||
    ((items[0].star ==> counts != [] && counts[0] > 0) && Repeats(items[1..], CountsAfter(items[0].star, counts)))
  }

  /** The bytes these items read. */
  ghost function DataSize(items: seq<Item>, counts: seq<nat>): (n: nat)
    requires Repeats(items, counts)
  {
    if items == [] then 0
    else
      (if items[0].star then counts[0] else 1) * ValSize(items[0].spec)
      + DataSize(items[1..], CountsAfter(items[0].star, counts))
  }

  /** The format is these items followed by the rest. */
  ghost predicate ReadsAs(fmt: string, counts: seq<nat>, items: seq<Item>, rest: string) {
    ValidItems(items) && Repeats(items, counts) && fmt == Render(items) + rest
  }

  lemma RepeatsFront(items: seq<Item>, counts: seq<nat>)
    requires items != []
    ensures ValidItems(items) <==> items[0].spec < 10 && ValidItems(items[1..])
    ensures ValidItems(items) ==> Render(items) == RenderItem(items[0]) + Render(items[1..])
    ensures var star, counts' := items[0].star, CountsAfter(items[0].star, counts);
      && (Repeats(items, counts) <==> (star ==> counts != [] && counts[0] > 0) && Repeats(items[1..], counts'))
      && (Repeats(items, counts) ==>
          DataSize(items, counts)
            == (if star then counts[0] else 1) * ValSize(items[0].spec) + DataSize(items[1..], counts'))
  {
    hide RenderItem, ValSize;
  }

  lemma HeaderUnpacks(fmt: string, counts: seq<nat>)
    requires fmt != [] && UnpackArgs(fmt, counts) && ParseHeader(fmt).Header?
    ensures fmt[0] == '%' && ParseHeader(fmt).star == Starred(fmt) && (Starred(fmt) ==> counts != [])
    ensures UnpackCount(fmt, counts) == if Starred(fmt) then counts[0] else 1
    ensures UnpackDirective(fmt, counts) <==> UnpackCount(fmt, counts) > 0
  {
    hide SpecifierAt;
  }

  lemma DirectiveHeader(fmt: string, counts: seq<nat>)
    requires fmt != [] && UnpackArgs(fmt, counts) && UnpackDirective(fmt, counts)
    ensures ParseHeader(fmt).Header?
  {
    hide ParseHeader, UnpackCount, UnpackArgs;
  }

  lemma ReadsAsMeans(fmt: string, counts: seq<nat>, items: seq<Item>, rest: string)
    ensures ReadsAs(fmt, counts, items, rest) <==>
      ValidItems(items) && Repeats(items, counts) && fmt == Render(items) + rest
  {
    hide Render, Repeats;
  }

  /** The directive the first item of a format makes. */
  lemma FirstReads(fmt: string, counts: seq<nat>, items: seq<Item>, rest: string)
    requires UnpackArgs(fmt, counts) && ReadsAs(fmt, counts, items, rest) && items != []
    ensures fmt != [] && UnpackDirective(fmt, counts) && items[0].spec < 10 && ValidItems(items[1..])
    ensures ParseHeader(fmt) == Header(items[0].star, items[0].spec, Render(items[1..]) + rest)
    ensures var fmt', counts' := Render(items[1..]) + rest, CountsAfter(items[0].star, counts);
      && ReadsAs(fmt', counts', items[1..], rest) && Repeats(items, counts)
      && DataSize(items, counts) == UnpackCount(fmt, counts) * ValSize(items[0].spec) + DataSize(items[1..], counts')
  {
    hide *;
    ReadsAsMeans(fmt, counts, items, rest);
    RepeatsFront(items, counts);
    var tail := Render(items[1..]) + rest;
    assert fmt == RenderItem(items[0]) + tail;
    ReadsAsMeans(tail, CountsAfter(items[0].star, counts), items[1..], rest);
    HeaderOfItem(items[0], tail);
    RenderedNotEmpty(items[0], tail);
    HeaderUnpacks(fmt, counts);
  }

  lemma RenderedNotEmpty(i: Item, rest: string)
    requires i.spec < 10
    ensures RenderItem(i) + rest != []
  {
  }

  lemma ResumeReturns(nread: nat, outs: seq<seq<int>>, u: Unpacked)
    ensures Resume(nread, outs, u).ret == if u.ret < 0 then u.ret else nread + u.ret
  {
  }

  /** A format that reads as items is read item by item until the data runs out. */
  lemma {:induction false} UnpackAlong(fmt: string, counts: seq<nat>, items: seq<Item>, rest: string, buffer: seq<Byte>)
    requires UnpackArgs(fmt, counts) && ReadsAs(fmt, counts, items, rest)
    ensures DataSize(items, counts) > |buffer| ==> UnpackRun(fmt, counts, buffer).ret == -E2BIG
    ensures DataSize(items, counts) <= |buffer| && rest == [] ==>
      UnpackRun(fmt, counts, buffer).ret == DataSize(items, counts)
    decreases |items|
  {
    assert E2BIG == 7;
    if items == [] {
      assert fmt == rest;
    } else {
      FirstReads(fmt, counts, items, rest);
      var nbytes := UnpackCount(fmt, counts) * ValSize(items[0].spec);
      var fmt', counts' := Render(items[1..]) + rest, CountsAfter(items[0].star, counts);
      hide *;
      UnpackStep(fmt, counts, buffer);
      if nbytes <= |buffer| {
        UnpackAlong(fmt', counts', items[1..], rest, buffer[nbytes..]);
        var u := UnpackRun(fmt', counts', buffer[nbytes..]);
        ResumeReturns(nbytes, [DecodeAll(buffer[..nbytes], UnpackCount(fmt, counts), ValSize(items[0].spec),
                                         IsSigned(items[0].spec))], u);
      }
    }
  }

  /** One more directive in front of a format that reads as items. */
  lemma DirectiveReads(fmt: string, counts: seq<nat>, items: seq<Item>, rest: string) returns (all: seq<Item>)
    requires fmt != [] && UnpackArgs(fmt, counts) && UnpackDirective(fmt, counts)
    requires var h := ParseHeader(fmt); ReadsAs(h.rest, CountsAfter(h.star, counts), items, rest)
    ensures ReadsAs(fmt, counts, all, rest)
    ensures var h := ParseHeader(fmt);
      DataSize(all, counts)
        == UnpackCount(fmt, counts) * ValSize(h.fmttype) + DataSize(items, CountsAfter(h.star, counts))
  {
    hide *;
    DirectiveHeader(fmt, counts);
    var h := ParseHeader(fmt);
    ItemOfHeader(fmt);
    HeaderUnpacks(fmt, counts);
    all := [Item(h.star, h.fmttype)] + items;
    assert all[1..] == items;
    ReadsAsMeans(h.rest, CountsAfter(h.star, counts), items, rest);
    RepeatsFront(all, counts);
    assert RenderItem(all[0]) + (Render(items) + rest) == RenderItem(all[0]) + Render(items) + rest;
    ReadsAsMeans(fmt, counts, all, rest);
  }

  lemma NothingRead(fmt: string, counts: seq<nat>)
    ensures ReadsAs(fmt, counts, [], fmt) && DataSize([], counts) == 0
  {
  }

  /** What a run of unpackf has found out about its format when it returns. */
  lemma {:induction false} UnpackFinds(fmt: string, counts: seq<nat>, buffer: seq<Byte>)
      returns (items: seq<Item>, rest: string)
    requires UnpackArgs(fmt, counts)
    ensures ReadsAs(fmt, counts, items, rest)
    ensures var ret := UnpackRun(fmt, counts, buffer).ret;
      && (ret >= 0 ==> rest == [] && DataSize(items, counts) <= |buffer|)
      && (ret == -E2BIG ==> DataSize(items, counts) > |buffer|)
      && (ret >= 0 || ret == -1 || ret == -E2BIG)
    decreases |fmt|
  {
    assert E2BIG == 7;
    hide *;
    NothingRead(fmt, counts);
    if fmt == [] {
      UnpackDone(counts, buffer);
      items, rest := [], fmt;
    } else {
      UnpackStep(fmt, counts, buffer);
      if !UnpackDirective(fmt, counts) {
        items, rest := [], fmt;
      } else {
        var h, n := ParseHeader(fmt), UnpackCount(fmt, counts);
        var size, counts' := ValSize(h.fmttype), CountsAfter(h.star, counts);
        if n * size > |buffer| {
          NothingRead(h.rest, counts');
          items := DirectiveReads(fmt, counts, [], h.rest);
          rest := h.rest;
        } else {
          var tail;
          tail, rest := UnpackFinds(h.rest, counts', buffer[n * size..]);
          items := DirectiveReads(fmt, counts, tail, rest);
          ResumeReturns(n * size, [DecodeAll(buffer[..n * size], n, size, IsSigned(h.fmttype))],
                        UnpackRun(h.rest, counts', buffer[n * size..]));
        }
      }
    }
  }

  /**
    * unpackf succeeds exactly on the grammar's formats with nonzero counts that ask for no more than the buffer holds.
    * It returns -E2BIG exactly when the format starts with items that ask for more, and -1 in all other cases.
    */
  lemma UnpackSucceedsExactly(fmt: string, counts: seq<nat>, buffer: seq<Byte>)
    requires UnpackArgs(fmt, counts)
    ensures var ret := UnpackRun(fmt, counts, buffer).ret;
      && (ret >= 0 <==> exists items :: ReadsAs(fmt, counts, items, []) && DataSize(items, counts) <= |buffer|)
      && (ret == -E2BIG <==>
          exists items, rest :: ReadsAs(fmt, counts, items, rest) && DataSize(items, counts) > |buffer|)
      && (ret >= 0 || ret == -1 || ret == -E2BIG)
    ensures forall items :: ReadsAs(fmt, counts, items, []) && DataSize(items, counts) <= |buffer| ==>
      UnpackRun(fmt, counts, buffer).ret == DataSize(items, counts)
  {
    assert E2BIG == 7;
    hide *;
    var found, end := UnpackFinds(fmt, counts, buffer);
    forall items, rest | ReadsAs(fmt, counts, items, rest)
      ensures DataSize(items, counts) > |buffer| ==> UnpackRun(fmt, counts, buffer).ret == -E2BIG
      ensures DataSize(items, counts) <= |buffer| && rest == [] ==>
        UnpackRun(fmt, counts, buffer).ret == DataSize(items, counts)
    {
      UnpackAlong(fmt, counts, items, rest, buffer);
    }
  }

  lemma EncodeAllMore(v: int, vals: seq<int>, size: nat)
    ensures EncodeAll([v] + vals, size) == Encode(v, size) + EncodeAll(vals, size)
    ensures EncodeAll([], size) == []
  {
    hide Encode;
    assert ([v] + vals)[1..] == vals;
  }

  lemma {:induction false} EncodeDecodeAll(s: seq<Byte>, n: nat, size: nat, signed: bool)
    requires |s| == n * size && size > 0
    ensures EncodeAll(DecodeAll(s, n, size, signed), size) == s
    ensures forall v :: v in DecodeAll(s, n, size, signed) ==> InRange(v, size, signed)
    decreases n
  {
    hide *;
    DecodeAllFront(s, n, size, signed);
    if n == 0 {
      EncodeAllMore(0, [], size);
    } else {
      EncodeDecode(s[..size], signed);
      EncodeDecodeAll(s[size..], n - 1, size, signed);
      EncodeAllMore(Decode(s[..size], signed), DecodeAll(s[size..], n - 1, size, signed), size);
      assert s == s[..size] + s[size..];
    }
  }

  lemma NothingHeld(v: seq<seq<int>>)
    requires v == []
    ensures Payload([], v) == [] && ValuesInRange([], v) && DataSize([], []) == 0
  {
  }

  /** One more item in front of what was read. */
  lemma PayloadFront(items: seq<Item>, v: seq<int>, outs: seq<seq<int>>, bytes: seq<Byte>)
    requires items != [] && |items| == 1 + |outs|
    requires EncodeAll(v, ValSize(items[0].spec)) == bytes
    requires forall x :: x in v ==> InRange(x, ValSize(items[0].spec), IsSigned(items[0].spec))
    requires ValuesInRange(items[1..], outs)
    ensures Payload(items, [v] + outs) == bytes + Payload(items[1..], outs)
    ensures ValuesInRange(items, [v] + outs)
  {
    hide EncodeAll, InRange, ValSize, IsSigned;
    var all := [v] + outs;
    assert all[1..] == outs;
    forall i, j | 0 <= i < |items| && 0 <= j < |all[i]|
      ensures InRange(all[i][j], ValSize(items[i].spec), IsSigned(items[i].spec))
    {
      if i == 0 {
        assert all[i][j] in v;
      } else {
        assert all[i] == outs[i - 1] && items[i] == items[1..][i - 1];
      }
    }
  }

  lemma ResumeRead(nread: nat, v: seq<int>, u: Unpacked)
    requires u.ret >= 0
    ensures Resume(nread, [v], u) == Unpacked(nread + u.ret, [v] + u.outs)
  {
  }

  /** What unpackf stores for a format of items: values in range whose encodings are exactly the bytes it read. */
  lemma {:induction false} UnpackedValues(fmt: string, counts: seq<nat>, items: seq<Item>, buffer: seq<Byte>)
    requires UnpackArgs(fmt, counts) && ReadsAs(fmt, counts, items, []) && DataSize(items, counts) <= |buffer|
    ensures var u := UnpackRun(fmt, counts, buffer);
      && 0 <= u.ret <= |buffer| && |u.outs| == |items|
      && Payload(items, u.outs) == buffer[..u.ret] && ValuesInRange(items, u.outs)
    decreases |items|
  {
    hide *;
    if items == [] {
      ReadsAsMeans(fmt, counts, items, []);
      NoItemsRender();
      UnpackDone(counts, buffer);
      NothingHeld([]);
    } else {
      FirstReads(fmt, counts, items, []);
      HeaderUnpacks(fmt, counts);
      UnpackStep(fmt, counts, buffer);
      var n, size, signed := UnpackCount(fmt, counts), ValSize(items[0].spec), IsSigned(items[0].spec);
      var nbytes := n * size;
      var fmt', counts' := Render(items[1..]) + [], CountsAfter(items[0].star, counts);
      UnpackedValues(fmt', counts', items[1..], buffer[nbytes..]);
      var u := UnpackRun(fmt', counts', buffer[nbytes..]);
      var v := DecodeAll(buffer[..nbytes], n, size, signed);
      EncodeDecodeAll(buffer[..nbytes], n, size, signed);
      PayloadFront(items, v, u.outs, buffer[..nbytes]);
      ResumeRead(nbytes, v, u);
      assert buffer[..nbytes] + buffer[nbytes..][..u.ret] == buffer[..nbytes + u.ret];
    }
  }

  // ---- Building argument lists item by item ----

  /** The items are supplied by the arguments, hold these values and pack to these bytes. */
  ghost predicate Packs(items: seq<Item>, args: seq<Arg>, vals: seq<seq<int>>, bytes: seq<Byte>, counts: seq<nat>) {
    && Supplied(items, args)
    && ItemValues(items, args) == vals
    && Payload(items, vals) == bytes
    && StarCounts(items, args) == counts
  }

  lemma PacksNothing()
    ensures Packs([], [], [], [], [])
  {
  }

  lemma PacksScalar(spec: nat, v: int, items: seq<Item>, args: seq<Arg>,
      vals: seq<seq<int>>, bytes: seq<Byte>, counts: seq<nat>)
    requires Packs(items, args, vals, bytes, counts) && spec < 10
    ensures Packs([Item(false, spec)] + items, [Num(v)] + args, [[v]] + vals, Encode(v, ValSize(spec)) + bytes, counts)
  {
    hide Encode;
    var all, args' := [Item(false, spec)] + items, [Num(v)] + args;
    assert all[1..] == items && args'[1..] == args && ([[v]] + vals)[1..] == vals;
    assert EncodeAll([v], ValSize(spec)) == Encode(v, ValSize(spec));
  }

  /** A `*` directive with count 1 takes a scalar too, and unpackf reads it back into one destination. */
  lemma PacksStarredScalar(spec: nat, v: int, items: seq<Item>, args: seq<Arg>,
      vals: seq<seq<int>>, bytes: seq<Byte>, counts: seq<nat>)
    requires Packs(items, args, vals, bytes, counts) && spec < 10
    ensures Packs([Item(true, spec)] + items, [Num(1), Num(v)] + args, [[v]] + vals,
                  Encode(v, ValSize(spec)) + bytes, [1] + counts)
  {
    hide Encode;
    var all, args' := [Item(true, spec)] + items, [Num(1), Num(v)] + args;
    assert all[1..] == items && args'[1..][1..] == args && ([[v]] + vals)[1..] == vals;
    assert EncodeAll([v], ValSize(spec)) == Encode(v, ValSize(spec));
  }

  /** A `*` directive with a count other than 1 takes its elements through a pointer. */
  lemma PacksArray(spec: nat, n: nat, elems: seq<int>, items: seq<Item>, args: seq<Arg>,
      vals: seq<seq<int>>, bytes: seq<Byte>, counts: seq<nat>)
    requires Packs(items, args, vals, bytes, counts) && spec < 10
    requires 2 <= n <= |elems| && n * ValSize(spec) < TWO_32
    ensures Packs([Item(true, spec)] + items, [Num(n), Arr(elems)] + args, [elems[..n]] + vals,
                  EncodeAll(elems[..n], ValSize(spec)) + bytes, [n] + counts)
  {
  }

  /** One more item in front of a rendered format, seen by unpackf. */
  lemma UnpackMore(i: Item, items: seq<Item>, n: nat, counts: seq<nat>, buffer: seq<Byte>)
    requires ValidItems(items) && i.spec < 10 && n * ValSize(i.spec) < TWO_32 && (!i.star ==> n == 1)
    requires n > 0 ==> UnpackArgs(Render(items), counts)
    ensures ValidItems([i] + items)
    ensures var counts' := if i.star then [n] + counts else counts;
      var size := ValSize(i.spec);
      && UnpackArgs(Render([i] + items), counts')
      && UnpackRun(Render([i] + items), counts', buffer) ==
         if n == 0 then Unpacked(-1, [])
         else if n * size > |buffer| then Unpacked(-E2BIG, [])
         else Resume(n * size, [DecodeAll(buffer[..n * size], n, size, IsSigned(i.spec))],
                     UnpackRun(Render(items), counts, buffer[n * size..]))
  {
    var all, counts' := [i] + items, if i.star then [n] + counts else counts;
    assert all[1..] == items;
    if n > 0 {
      UnpackRenderedStep(all, counts', n, counts);
      hide SPECIFIERS, SpecifierAt, RenderItem, DecodeAll;
      UnpackStep(Render(all), counts', buffer);
    } else {
      HeaderOfItem(i, Render(items));
      hide SPECIFIERS, SpecifierAt;
    }
  }

  /** The whole story of a call: packf stores the bytes, unpackf reads the values back, a strict prefix is refused. */
  lemma PacksAndUnpacks(items: seq<Item>, args: seq<Arg>,
      vals: seq<seq<int>>, bytes: seq<Byte>, counts: seq<nat>, room: nat, tail: seq<Byte>)
    requires Packs(items, args, vals, bytes, counts)
    ensures PackArgs(Render(items), args) && UnpackArgs(Render(items), counts)
    ensures |bytes| <= room ==> PackRun(Render(items), args, room) == Packed(|bytes|, bytes)
    ensures |bytes| > room ==> PackRun(Render(items), args, room).ret < 0
    ensures ValuesInRange(items, vals) ==> UnpackRun(Render(items), counts, bytes + tail) == Unpacked(|bytes|, vals)
    ensures forall k :: 0 <= k < |bytes| ==> UnpackRun(Render(items), counts, bytes[..k]).ret == -E2BIG
  {
    PackRendered(items, args, room);
    StarCountsFit(items, args);
    hide PackRun, UnpackRun, Render;
    if ValuesInRange(items, vals) {
      RoundTrip(items, args, tail);
    }
    forall k | 0 <= k < |bytes|
      ensures UnpackRun(Render(items), counts, bytes[..k]).ret == -E2BIG
    {
      TruncatedRefused(items, args, k);
    }
  }

  /** The last item of a rendered format, seen by unpackf. */
  lemma UnpackLast(i: Item, n: nat, counts: seq<nat>, buffer: seq<Byte>, size: nat, signed: bool, nbytes: nat)
    requires i.spec < 10 && size == ValSize(i.spec) && signed == IsSigned(i.spec)
    requires nbytes == n * size < TWO_32 && counts == if i.star then [n] else []
    requires !i.star ==> n == 1
    ensures ValidItems([i] + []) && UnpackArgs(Render([i] + []), counts)
    ensures n == 0 ==> UnpackRun(Render([i] + []), counts, buffer) == Unpacked(-1, [])
    ensures 0 < n && nbytes > |buffer| ==> UnpackRun(Render([i] + []), counts, buffer) == Unpacked(-E2BIG, [])
    ensures 0 < n && nbytes <= |buffer| ==>
      UnpackRun(Render([i] + []), counts, buffer) == Unpacked(nbytes, [DecodeAll(buffer[..nbytes], n, size, signed)])
  {
    hide *;
    UnpackDone([], if nbytes <= |buffer| then buffer[nbytes..] else []);
    NoItemsRender();
    UnpackMore(i, [], n, [], buffer);
    assert [n] + [] == [n];
    if nbytes <= |buffer| {
      ResumeStop(nbytes, [DecodeAll(buffer[..nbytes], n, size, signed)]);
    }
  }
}
