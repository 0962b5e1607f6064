/** The replies of the daemon's control protocol: `pack_*` and `unpack_*` of src/common/serialize.c. */
module Ipc {
  import opened Bytes
  import opened Errno
  import opened FandCfg
  import opened FormatDfa
  import opened Serialize
  import opened ByteFormats

  const IPC_MAX_MSG_LENGTH: nat := 48
  const RSP_OK: int := 0
  const RSP_ERR: int := 1

  /** A C int. */
  predicate IsInt(v: int) { InRange(v, 4, true) }

  // ---- Bytes of the replies ----

  function IntReply(code: Byte, v: int): (s: seq<Byte>)
    ensures |s| == 6
  {
    [6, code] + Encode(v, 4)
  }

  /** The length byte keeps the low eight bits. */
  function MatrixReply(matrix: seq<Byte>, nrows: Byte): (s: seq<Byte>)
    requires 2 * nrows <= |matrix|
    ensures |s| == 2 * nrows + 3
  {
    [Octet(2 * nrows + 3), 0, nrows] + matrix[..2 * nrows]
  }

  const EXIT_REPLY: seq<Byte> := [2, 0]

  // ---- Fixed formats ----

  const HEAD_ITEMS: seq<Item> := [HHU] + ([HHU] + [])
  const INT_ITEMS: seq<Item> := [HHU] + ([HHU] + ([D] + []))
  const MATRIX_ITEMS: seq<Item> := [HHU] + ([HHU] + ([HHU] + ([HHUS] + [])))

  lemma HhuFormat()
    ensures Render([HHU] + []) == "%hhu"
  {
  }

  lemma DFormat()
    ensures Render([D] + []) == "%d"
  {
  }

  lemma StarFormat()
    ensures Render([HHUS] + []) == "%*hhu"
  {
  }

  lemma HeadFormat()
    ensures Render(HEAD_ITEMS) == "%hhu%hhu"
  {
    HhuFormat();
    ItemTexts();
    hide RenderItem, Render;
    RenderMore(HHU, [HHU] + [], "%hhu");
  }

  lemma IntFormat()
    ensures Render(INT_ITEMS) == "%hhu%hhu%d"
  {
    DFormat();
    ItemTexts();
    hide RenderItem, Render;
    RenderMore(HHU, [D] + [], "%d");
    RenderMore(HHU, [HHU] + ([D] + []), "%hhu%d");
  }

  lemma MatrixFormat()
    ensures Render(MATRIX_ITEMS) == "%hhu%hhu%hhu%*hhu"
  {
    StarFormat();
    ItemTexts();
    hide RenderItem, Render;
    RenderMore(HHU, [HHUS] + [], "%*hhu");
    RenderMore(HHU, [HHU] + ([HHUS] + []), "%hhu%*hhu");
    RenderMore(HHU, [HHU] + ([HHU] + ([HHUS] + [])), "%hhu%hhu%*hhu");
  }

  // ---- What packf and unpackf do on the fixed formats ----

  lemma IntPacks(code: Byte, v: int)
    ensures Packs(INT_ITEMS, [Num(6)] + ([Num(code)] + ([Num(v)] + [])), [[6]] + ([[code]] + ([[v]] + [])),
      IntReply(code, v), [])
  {
    hide Packs, Encode;
    PacksNothing();
    PacksScalar(2, v, [], [], [], [], []);
    PacksScalar(5, code, [D] + [], [Num(v)] + [], [[v]] + [], Encode(v, 4) + [], []);
    PacksScalar(5, 6, [HHU] + ([D] + []), [Num(code)] + ([Num(v)] + []), [[code]] + ([[v]] + []),
      Encode(code, 1) + (Encode(v, 4) + []), []);
    EncodeByte(6);
    EncodeByte(code);
    assert [6 as Byte] + ([code] + (Encode(v, 4) + [])) == IntReply(code, v);
  }

  lemma ExitPacks()
    ensures Packs(HEAD_ITEMS, [Num(2)] + ([Num(0)] + []), [[2]] + ([[0]] + []), EXIT_REPLY, [])
  {
    hide Packs, Encode;
    PacksNothing();
    PacksScalar(5, 0, [], [], [], [], []);
    PacksScalar(5, 2, [HHU] + [], [Num(0)] + [], [[0]] + [], Encode(0, 1) + [], []);
    EncodeByte(0);
    EncodeByte(2);
    assert [2 as Byte] + ([0] + []) == EXIT_REPLY;
  }

  lemma MatrixPacks(matrix: seq<Byte>, nrows: Byte)
    requires 1 <= nrows && 2 * nrows <= |matrix|
    ensures var len, cells := Octet(2 * nrows + 3), matrix[..2 * nrows];
      Packs(MATRIX_ITEMS, [Num(len)] + ([Num(0)] + ([Num(nrows)] + ([Num(2 * nrows), Arr(matrix)] + []))),
            [[len]] + ([[0]] + ([[nrows]] + ([cells] + []))), MatrixReply(matrix, nrows), [2 * nrows] + [])
  {
    hide Packs, Encode, EncodeAll;
    var len, cells, last: seq<seq<int>> := Octet(2 * nrows + 3), matrix[..2 * nrows], [matrix[..2 * nrows]] + [];
    var args := [Num(2 * nrows), Arr(matrix)] + [];
    EncodeBytes(cells);
    PacksNothing();
    PacksArray(5, 2 * nrows, matrix, [], [], [], [], []);
    PacksScalar(5, nrows, [HHUS] + [], args, last, cells + [], [2 * nrows] + []);
    PacksScalar(5, 0, [HHU] + ([HHUS] + []), [Num(nrows)] + args, [[nrows]] + last,
      Encode(nrows, 1) + (cells + []), [2 * nrows] + []);
    PacksScalar(5, len, [HHU] + ([HHU] + ([HHUS] + [])), [Num(0)] + ([Num(nrows)] + args), [[0]] + ([[nrows]] + last),
                Encode(0, 1) + (Encode(nrows, 1) + (cells + [])), [2 * nrows] + []);
    EncodeByte(len);
    EncodeByte(0);
    EncodeByte(nrows);
    assert [len] + ([0] + ([nrows] + (cells + []))) == MatrixReply(matrix, nrows);
  }

  lemma ScalarArgs(spec: nat, v: int, items: seq<Item>, args: seq<Arg>)
    requires ItemArgs(items, args) && ValidItems(items) && spec < 10
    ensures var all, args' := [Item(false, spec)] + items, [Num(v)] + args;
      ValidItems(all) && ItemArgs(all, args') && NonzeroCounts(all, args') == NonzeroCounts(items, args)
  {
  }

  /** A matrix without rows cannot be packed: its repeat count is zero. */
  lemma EmptyMatrixRefused(matrix: seq<Byte>, room: nat)
    ensures var args := [Num(3)] + ([Num(0)] + ([Num(0)] + ([Num(0), Arr(matrix)] + [])));
      && PackArgs(Render(MATRIX_ITEMS), args)
      && PackRun(Render(MATRIX_ITEMS), args, room).ret < 0
  {
    var last := [Num(0), Arr(matrix)] + [];
    assert ItemArgs([HHUS] + [], last) && !NonzeroCounts([HHUS] + [], last);
    ScalarArgs(5, 0, [HHUS] + [], last);
    ScalarArgs(5, 0, [HHU] + ([HHUS] + []), [Num(0)] + last);
    ScalarArgs(5, 3, [HHU] + ([HHU] + ([HHUS] + [])), [Num(0)] + ([Num(0)] + last));
    hide ItemArgs, NonzeroCounts;
    PackRendered(MATRIX_ITEMS, [Num(3)] + ([Num(0)] + ([Num(0)] + last)), room);
  }

  // ---- The packers ----

  lemma IntCall(code: Byte, v: int, room: nat)
    ensures PackArgs("%hhu%hhu%d", [Num(6), Num(code), Num(v)])
    ensures var p := PackRun("%hhu%hhu%d", [Num(6), Num(code), Num(v)], room);
      if room >= 6 then p == Packed(6, IntReply(code, v)) else p.ret < 0
  {
    hide Packs, PackArgs, PackRun, Encode, Render;
    IntFormat();
    IntPacks(code, v);
    assert [Num(6)] + ([Num(code)] + ([Num(v)] + [])) == [Num(6), Num(code), Num(v)];
    PacksAndUnpacks(INT_ITEMS, [Num(6), Num(code), Num(v)], [[6]] + ([[code]] + ([[v]] + [])),
      IntReply(code, v), [], room, []);
  }

  /** `pack_error`, serialize.c:465. */
  method PackError(buffer: array<Byte>, bufsize: nat, error: int) returns (n: int)
    requires bufsize <= buffer.Length
    modifies buffer
    ensures bufsize >= 6 ==> n == 6 && buffer[..] == Splice(old(buffer[..]), 0, IntReply(1, error))
    ensures bufsize < 6 ==> n < 0
  {
    hide PackArgs, PackRun, Splice;
    IntCall(1, error, bufsize);
    n := Packf(buffer, 0, bufsize, "%hhu%hhu%d", [Num(6), Num(RSP_ERR), Num(error)]);
  }

  /** `pack_speed`, serialize.c:469. */
  method PackSpeed(buffer: array<Byte>, bufsize: nat, speed: int) returns (n: int)
    requires bufsize <= buffer.Length
    modifies buffer
    ensures bufsize >= 6 ==> n == 6 && buffer[..] == Splice(old(buffer[..]), 0, IntReply(0, speed))
    ensures bufsize < 6 ==> n < 0
  {
    hide PackArgs, PackRun, Splice;
    IntCall(0, speed, bufsize);
    n := Packf(buffer, 0, bufsize, "%hhu%hhu%d", [Num(6), Num(RSP_OK), Num(speed)]);
  }

  /** `pack_temp`, serialize.c:477. */
  method PackTemp(buffer: array<Byte>, bufsize: nat, temp: int) returns (n: int)
    requires bufsize <= buffer.Length
    modifies buffer
    ensures bufsize >= 6 ==> n == 6 && buffer[..] == Splice(old(buffer[..]), 0, IntReply(0, temp))
    ensures bufsize < 6 ==> n < 0
  {
    hide PackArgs, PackRun, Splice;
    IntCall(0, temp, bufsize);
    n := Packf(buffer, 0, bufsize, "%hhu%hhu%d", [Num(6), Num(RSP_OK), Num(temp)]);
  }

  lemma MatrixCall(matrix: seq<Byte>, nrows: Byte, room: nat)
    requires 2 * nrows <= |matrix|
    ensures var args := [Num(Octet(2 * nrows + 3)), Num(0), Num(nrows), Num(2 * nrows), Arr(matrix)];
      && PackArgs("%hhu%hhu%hhu%*hhu", args)
      && var p := PackRun("%hhu%hhu%hhu%*hhu", args, room);
         if nrows > 0 && room >= 2 * nrows + 3
         then p == Packed(2 * nrows + 3, MatrixReply(matrix, nrows))
         else p.ret < 0
  {
    hide Packs, PackArgs, PackRun, Render;
    MatrixFormat();
    var len := Octet(2 * nrows + 3);
    var args := [Num(len), Num(0), Num(nrows), Num(2 * nrows), Arr(matrix)];
    assert [Num(len)] + ([Num(0)] + ([Num(nrows)] + ([Num(2 * nrows), Arr(matrix)] + []))) == args;
    if nrows == 0 {
      EmptyMatrixRefused(matrix, room);
    } else {
      MatrixPacks(matrix, nrows);
      PacksAndUnpacks(MATRIX_ITEMS, args, [[len]] + ([[0]] + ([[nrows]] + ([matrix[..2 * nrows]] + []))),
                      MatrixReply(matrix, nrows), [2 * nrows] + [], room, []);
    }
  }

  /** `pack_matrix`, serialize.c:485. */
  method PackMatrix(buffer: array<Byte>, bufsize: nat, matrix: seq<Byte>, nrows: Byte) returns (n: int)
    requires bufsize <= buffer.Length
    requires 2 * nrows <= |matrix|
    modifies buffer
    ensures nrows > 0 && bufsize >= 2 * nrows + 3 ==>
      n == 2 * nrows + 3 && buffer[..] == Splice(old(buffer[..]), 0, MatrixReply(matrix, nrows))
    ensures nrows == 0 || bufsize < 2 * nrows + 3 ==> n < 0
  {
    hide PackArgs, PackRun, Splice, MatrixReply;
    MatrixCall(matrix, nrows, bufsize);
    var len := Octet(1 + (nrows * 2 + 2));
    var args := [Num(len), Num(RSP_OK), Num(nrows), Num(2 * nrows), Arr(matrix)];
    n := Packf(buffer, 0, bufsize, "%hhu%hhu%hhu%*hhu", args);
  }

  lemma ExitCall(room: nat)
    ensures PackArgs("%hhu%hhu", [Num(2), Num(0)])
    ensures var p := PackRun("%hhu%hhu", [Num(2), Num(0)], room);
      if room >= 2 then p == Packed(2, EXIT_REPLY) else p.ret < 0
  {
    hide Packs, PackArgs, PackRun, Render;
    HeadFormat();
    ExitPacks();
    assert [Num(2)] + ([Num(0)] + []) == [Num(2), Num(0)];
    PacksAndUnpacks(HEAD_ITEMS, [Num(2), Num(0)], [[2]] + ([[0]] + []), EXIT_REPLY, [], room, []);
  }

  /** `pack_exit_rsp`, serialize.c:521. */
  method PackExitRsp(buffer: array<Byte>, bufsize: nat) returns (n: int)
    requires bufsize <= buffer.Length
    modifies buffer
    ensures bufsize >= 2 ==> n == 2 && buffer[..] == Splice(old(buffer[..]), 0, EXIT_REPLY)
    ensures bufsize < 2 ==> n < 0
  {
    hide PackArgs, PackRun, Splice;
    ExitCall(bufsize);
    n := Packf(buffer, 0, bufsize, "%hhu%hhu", [Num(2), Num(RSP_OK)]);
  }

  // ---- The unpackers ----

  /** The member of `union unpack_result` written last. */
  datatype Result = Untouched | ErrorCode(error: int) | Value(value: int) | Cells(nrows: Byte, cells: seq<int>)

  /** What an unpacker returns, and the result it leaves. */
  datatype Reading = Reading(ret: int, result: Result)

  function LoadInt(buffer: seq<Byte>): int
    requires |buffer| >= 4
  {
    Decode(buffer[..4], true)
  }

  lemma ByteUnpackCall(buffer: seq<Byte>)
    ensures UnpackArgs("%hhu", [])
    ensures UnpackRun("%hhu", [], buffer) == if |buffer| >= 1 then Unpacked(1, [[buffer[0]]]) else Unpacked(-E2BIG, [])
  {
    assert TWO_32 > 1;
    hide *;
    HhuFormat();
    Sizes();
    if |buffer| >= 1 {
      DecodeBytes(buffer[..1]);
      assert buffer[..1] == [buffer[0]];
    }
    UnpackLast(HHU, 1, [], buffer, 1, false, 1);
  }

  lemma IntUnpackCall(buffer: seq<Byte>)
    ensures UnpackArgs("%d", [])
    ensures UnpackRun("%d", [], buffer)
      == if |buffer| >= 4 then Unpacked(4, [[LoadInt(buffer)]]) else Unpacked(-E2BIG, [])
  {
    assert TWO_32 > 4;
    hide *;
    DFormat();
    Sizes();
    if |buffer| >= 4 {
      LoadedInt(buffer);
    }
    UnpackLast(D, 1, [], buffer, 4, true, 4);
  }

  lemma LoadedInt(buffer: seq<Byte>)
    requires |buffer| >= 4
    ensures DecodeAll(buffer[..4], 1, 4, true) == [LoadInt(buffer)]
  {
    hide Decode;
    assert buffer[..4][..4] == buffer[..4];
  }

  lemma CellsUnpackCall(n: Byte, buffer: seq<Byte>)
    ensures UnpackArgs("%*hhu", [2 * n])
    ensures UnpackRun("%*hhu", [2 * n], buffer) ==
      if n == 0 then Unpacked(-1, []) else if 2 * n > |buffer| then Unpacked(-E2BIG, [])
        else Unpacked(2 * n, [buffer[..2 * n]])
  {
    assert TWO_32 > 512;
    hide *;
    StarFormat();
    Sizes();
    if |buffer| >= 2 * n {
      DecodeBytes(buffer[..2 * n]);
    }
    UnpackLast(HHUS, 2 * n, [2 * n], buffer, 1, false, 2 * n);
  }

  /** A `%hhu` in front of a format reads one byte. */
  lemma ByteFirst(items: seq<Item>, counts: seq<nat>, buffer: seq<Byte>)
    requires ValidItems(items) && UnpackArgs(Render(items), counts)
    ensures ValidItems([HHU] + items) && UnpackArgs(Render([HHU] + items), counts)
    ensures |buffer| >= 1 ==>
      UnpackRun(Render([HHU] + items), counts, buffer)
        == Resume(1, [[buffer[0]]], UnpackRun(Render(items), counts, buffer[1..]))
    ensures |buffer| == 0 ==> UnpackRun(Render([HHU] + items), counts, buffer) == Unpacked(-E2BIG, [])
  {
    assert TWO_32 > 1 && E2BIG == 7;
    hide *;
    Sizes();
    UnpackMore(HHU, items, 1, counts, buffer);
    if |buffer| >= 1 {
      DecodeBytes(buffer[..1]);
      assert buffer[..1] == [buffer[0]];
    }
  }

  lemma ResumeByte(b: Byte, rest: seq<Byte>, u: Unpacked)
    requires u == if |rest| >= 1 then Unpacked(1, [[rest[0]]]) else Unpacked(-E2BIG, [])
    ensures |rest| >= 1 ==> Resume(1, [[b]], u) == Unpacked(2, [[b], [rest[0]]])
    ensures |rest| == 0 ==> Resume(1, [[b]], u).ret == -E2BIG
  {
  }

  lemma HeadUnfold()
    ensures HEAD_ITEMS == [HHU] + ([HHU] + []) && ValidItems([HHU] + [])
  {
  }

  lemma HeadCall(buffer: seq<Byte>)
    ensures UnpackArgs("%hhu%hhu", [])
    ensures var u := UnpackRun("%hhu%hhu", [], buffer);
      if |buffer| >= 2 then u == Unpacked(2, [[buffer[0]], [buffer[1]]]) else u.ret == -E2BIG
  {
    hide *;
    HeadUnfold();
    HeadFormat();
    HhuFormat();
    if |buffer| == 0 {
      ByteUnpackCall([]);
      ByteFirst([HHU] + [], [], buffer);
    } else {
      ByteUnpackCall(buffer[1..]);
      ByteFirst([HHU] + [], [], buffer);
      ResumeByte(buffer[0], buffer[1..], UnpackRun("%hhu", [], buffer[1..]));
    }
  }

  /** The length an `unpackf` of one int adds to the running length: its error code when the int is cut short. */
  function IntLength(buffer: seq<Byte>): int { if |buffer| >= 4 then 4 else -E2BIG }

  /** unpack_int, which serves unpack_speed and unpack_temp. */
  function ReadInt(buffer: seq<Byte>): Reading {
    if |buffer| < 2 then Reading(-E2BIG, Untouched)
    else
      var len, rsp, body := buffer[0], buffer[1], buffer[2..];
      var result :=
        if |body| < 4 then Untouched
        else if rsp != 0 then ErrorCode(LoadInt(body))
        else Value(LoadInt(body));
      Reading(if 2 + IntLength(body) != len then -1 else rsp, result)
  }

  /** unpack_matrix copies the announced rows, if they are all there, into an array of 16 rows. */
  predicate RowsFit(buffer: seq<Byte>) {
    |buffer| >= 3 && buffer[1] == 0 ==>
      var nrows: nat := buffer[2];
      |buffer| >= 3 + 2 * nrows ==> nrows <= MAX_ROWS
  }

  function ReadMatrix(buffer: seq<Byte>): Reading {
    if |buffer| < 2 then Reading(-E2BIG, Untouched)
    else
      var len, rsp, body := buffer[0], buffer[1], buffer[2..];
      if rsp != 0 then
        if |body| < 4 then Reading(2 - E2BIG, Untouched)
        else Reading(if len != 6 then -1 else rsp, ErrorCode(LoadInt(body)))
      else if |body| < 1 then Reading(2 - E2BIG, Untouched)
      else
        var n: nat := body[0];
        if n == 0 then Reading(if len != 2 then -1 else 0, Cells(0, []))
        else if |body| < 2 * n + 1 then Reading(3 - E2BIG, Cells(n, []))
        else Reading(if len != 3 + 2 * n then -1 else 0, Cells(n, body[1..2 * n + 1]))
  }

  function ReadExit(buffer: seq<Byte>): Reading {
    if |buffer| < 2 then Reading(-E2BIG, Untouched)
    else
      var len, rsp, body := buffer[0], buffer[1], buffer[2..];
      var result := if rsp != 0 && |body| >= 4 then ErrorCode(LoadInt(body)) else Untouched;
      Reading(if len != 2 + (if rsp != 0 then IntLength(body) else 0) then -1 else rsp, result)
  }

  lemma CellsOfBody(buffer: seq<Byte>, n: nat)
    requires |buffer| >= n + 3
    ensures buffer[3..][..n] == buffer[2..][1..n + 1]
  {
  }

  /** `unpack_int`, serialize.c:442. */
  method UnpackInt(buffer: seq<Byte>) returns (r: Reading)
    ensures r == ReadInt(buffer)
  {
    hide UnpackRun, UnpackArgs, LoadInt;
    HeadCall(buffer);
    var rsplen, outs := Unpackf(buffer, "%hhu%hhu", []);
    if rsplen < 0 {
      return Reading(rsplen, Untouched);
    }
    var len, rsp := outs[0][0], outs[1][0];
    IntUnpackCall(buffer[rsplen..]);
    var n, vals := Unpackf(buffer[rsplen..], "%d", []);
    var result := if vals == [] then Untouched else if rsp != 0 then ErrorCode(vals[0][0]) else Value(vals[0][0]);
    rsplen := rsplen + n;
    if rsplen != len {
      return Reading(-1, result);
    }
    return Reading(rsp, result);
  }

  /** `unpack_matrix`, serialize.c:490. */
  method UnpackMatrix(buffer: seq<Byte>) returns (r: Reading)
    requires RowsFit(buffer)
    ensures r == ReadMatrix(buffer)
  {
    hide UnpackRun, UnpackArgs, LoadInt;
    HeadCall(buffer);
    var rsplen, outs := Unpackf(buffer, "%hhu%hhu", []);
    if rsplen < 0 {
      return Reading(rsplen, Untouched);
    }
    var len, rsp := outs[0][0], outs[1][0];
    var result := Untouched;
    if rsp != 0 {
      IntUnpackCall(buffer[rsplen..]);
      var n, vals := Unpackf(buffer[rsplen..], "%d", []);
      rsplen := rsplen + n;
      result := if vals == [] then Untouched else ErrorCode(vals[0][0]);
    } else {
      ByteUnpackCall(buffer[rsplen..]);
      var n, vals := Unpackf(buffer[rsplen..], "%hhu", []);
      rsplen := rsplen + n;
      if rsplen < 0 {
        return Reading(rsplen, result);
      }
      var rows := vals[0][0];
      CellsUnpackCall(rows, buffer[rsplen..]);
      var m, cells := Unpackf(buffer[rsplen..], "%*hhu", [2 * rows]);
      result := Cells(rows, if cells == [] then [] else cells[0]);
      if m > 0 {
        CellsOfBody(buffer, 2 * rows);
      }
      rsplen := rsplen + m;
    }
    if rsplen < 0 {
      return Reading(rsplen, result);
    }
    if rsplen != len {
      return Reading(-1, result);
    }
    return Reading(rsp, result);
  }

  /** `unpack_exit_rsp`, serialize.c:525. */
  method UnpackExitRsp(buffer: seq<Byte>) returns (r: Reading)
    ensures r == ReadExit(buffer)
  {
    hide UnpackRun, UnpackArgs, LoadInt;
    HeadCall(buffer);
    var rsplen, outs := Unpackf(buffer, "%hhu%hhu", []);
    if rsplen < 0 {
      return Reading(rsplen, Untouched);
    }
    var len, rsp := outs[0][0], outs[1][0];
    var result := Untouched;
    if rsp != 0 {
      IntUnpackCall(buffer[rsplen..]);
      var n, vals := Unpackf(buffer[rsplen..], "%d", []);
      rsplen := rsplen + n;
      result := if vals == [] then Untouched else ErrorCode(vals[0][0]);
    }
    if len != rsplen {
      return Reading(-1, result);
    }
    return Reading(rsp, result);
  }

  // ---- Decoding what was encoded ----

  lemma LoadEncoded(v: int, tail: seq<Byte>)
    requires IsInt(v)
    ensures LoadInt(Encode(v, 4) + tail) == v
  {
    hide Decode, Encode;
    assert (Encode(v, 4) + tail)[..4] == Encode(v, 4);
    DecodeEncode(v, 4, true);
  }

  /** Each unpacker yields what the packer was given, whatever follows the reply in the buffer. */
  lemma IntReplyDecodes(code: Byte, v: int, tail: seq<Byte>)
    requires IsInt(v)
    ensures ReadInt(IntReply(code, v) + tail) == Reading(code, if code != 0 then ErrorCode(v) else Value(v))
    ensures code != 0 ==> ReadMatrix(IntReply(code, v) + tail) == Reading(code, ErrorCode(v))
    ensures code != 0 ==> ReadExit(IntReply(code, v) + tail) == Reading(code, ErrorCode(v))
  {
    hide Encode, LoadInt;
    LoadEncoded(v, tail);
    assert (IntReply(code, v) + tail)[2..] == Encode(v, 4) + tail;
  }

  lemma MatrixReplyDecodes(matrix: seq<Byte>, nrows: nat, tail: seq<Byte>)
    requires 1 <= nrows <= MAX_ROWS && 2 * nrows <= |matrix|
    ensures RowsFit(MatrixReply(matrix, nrows) + tail)
    ensures ReadMatrix(MatrixReply(matrix, nrows) + tail) == Reading(0, Cells(nrows, matrix[..2 * nrows]))
  {
    hide LoadInt;
    var s := MatrixReply(matrix, nrows) + tail;
    assert s[3..] == matrix[..2 * nrows] + tail;
    assert s[2..][1..2 * nrows + 1] == s[3..][..2 * nrows] == matrix[..2 * nrows];
  }

  lemma ExitReplyDecodes(tail: seq<Byte>)
    ensures ReadExit(EXIT_REPLY + tail) == Reading(0, Untouched)
  {
  }

  /** No strict prefix of a reply decodes, although error codes are added to the running length. */
  lemma TruncatedIntReply(code: Byte, v: int, k: nat)
    requires k < 6
    ensures ReadInt(IntReply(code, v)[..k]).ret < 0
    ensures code != 0 ==> ReadMatrix(IntReply(code, v)[..k]).ret < 0 && ReadExit(IntReply(code, v)[..k]).ret < 0
  {
  }

  lemma TruncatedMatrixReply(matrix: seq<Byte>, nrows: nat, k: nat)
    requires 1 <= nrows <= MAX_ROWS && 2 * nrows <= |matrix|
    requires k < |MatrixReply(matrix, nrows)|
    ensures ReadMatrix(MatrixReply(matrix, nrows)[..k]).ret < 0
  {
  }

  lemma TruncatedExitReply(k: nat)
    requires k < |EXIT_REPLY|
    ensures ReadExit(EXIT_REPLY[..k]).ret < 0
  {
  }

  // ---- Exactly which buffers decode ----

  /** The buffer starts with the reply that carries this code and int. */
  ghost predicate StartsWithInt(buffer: seq<Byte>, code: Byte, v: int) {
    IsInt(v) && IntReply(code, v) <= buffer
  }

  ghost predicate StartsWithMatrix(buffer: seq<Byte>, nrows: Byte, cells: seq<Byte>) {
    1 <= nrows <= MAX_ROWS && |cells| == 2 * nrows && MatrixReply(cells, nrows) <= buffer
  }

  lemma StartsWithLoaded(buffer: seq<Byte>)
    requires |buffer| >= 6 && buffer[0] == 6
    ensures StartsWithInt(buffer, buffer[1], LoadInt(buffer[2..]))
  {
    var body := buffer[2..];
    EncodeDecode(body[..4], true);
    hide Encode, Decode;
    assert Encode(LoadInt(body), 4) == body[..4] == buffer[2..6];
    assert buffer[..6] == [6, buffer[1]] + buffer[2..6];
  }

  lemma IntStart(buffer: seq<Byte>, code: Byte, v: int)
    requires StartsWithInt(buffer, code, v)
    ensures |buffer| >= 6 && buffer[0] == 6 && buffer[1] == code
    ensures buffer == IntReply(code, v) + buffer[6..]
  {
    assert buffer[..6] == IntReply(code, v);
    assert buffer == buffer[..6] + buffer[6..];
    assert IntReply(code, v)[0] == 6 && IntReply(code, v)[1] == code;
  }

  /** unpack_int accepts exactly the buffers that start with a reply of the int packers, and reads that reply. */
  lemma IntReadExactly(buffer: seq<Byte>)
    ensures ReadInt(buffer).ret >= 0 <==> exists code: Byte, v :: StartsWithInt(buffer, code, v)
    ensures forall code: Byte, v :: StartsWithInt(buffer, code, v) ==>
      ReadInt(buffer) == Reading(code, if code != 0 then ErrorCode(v) else Value(v))
  {
    forall code: Byte, v | StartsWithInt(buffer, code, v)
      ensures ReadInt(buffer) == Reading(code, if code != 0 then ErrorCode(v) else Value(v))
    {
      IntStart(buffer, code, v);
      IntReplyDecodes(code, v, buffer[6..]);
    }
    hide LoadInt, StartsWithInt;
    if ReadInt(buffer).ret >= 0 {
      StartsWithLoaded(buffer);
    }
  }

  /** unpack_exit_rsp accepts exactly the exit reply and the error replies. */
  lemma ExitReadExactly(buffer: seq<Byte>)
    ensures ReadExit(buffer).ret == 0 <==> EXIT_REPLY <= buffer
    ensures ReadExit(buffer).ret > 0 <==> exists code: Byte, v :: code > 0 && StartsWithInt(buffer, code, v)
    ensures forall code: Byte, v :: code > 0 && StartsWithInt(buffer, code, v) ==>
      ReadExit(buffer) == Reading(code, ErrorCode(v))
  {
    forall code: Byte, v | code > 0 && StartsWithInt(buffer, code, v)
      ensures ReadExit(buffer) == Reading(code, ErrorCode(v))
    {
      IntStart(buffer, code, v);
      IntReplyDecodes(code, v, buffer[6..]);
    }
    hide LoadInt, StartsWithInt;
    if ReadExit(buffer).ret > 0 {
      StartsWithLoaded(buffer);
    }
    assert ReadExit(buffer).ret == 0 ==> buffer[..2] == EXIT_REPLY;
  }

  lemma MatrixStart(buffer: seq<Byte>, nrows: Byte)
    requires 1 <= nrows <= MAX_ROWS && |buffer| >= 3 + 2 * nrows
    requires buffer[0] == 3 + 2 * nrows && buffer[1] == 0 && buffer[2] == nrows
    ensures StartsWithMatrix(buffer, nrows, buffer[3..3 + 2 * nrows])
  {
    var cells := buffer[3..3 + 2 * nrows];
    assert cells[..2 * nrows] == cells;
    assert buffer[..2 * nrows + 3] == [buffer[0], buffer[1], buffer[2]] + cells;
  }

  /** A matrix reply without rows: never packed, yet read as an empty matrix. */
  const NO_ROWS_REPLY: seq<Byte> := [2, 0, 0]

  /**
    * unpack_matrix accepts exactly the error replies, the matrix replies, and one kind no packer writes: zero rows
    * announced with length 2. There the -1 of the refused repeat count is added to the running length 3.
    */
  lemma MatrixReadExactly(buffer: seq<Byte>)
    requires RowsFit(buffer)
    ensures ReadMatrix(buffer).ret == 0 <==>
      (exists nrows: Byte, cells: seq<Byte> :: StartsWithMatrix(buffer, nrows, cells)) || NO_ROWS_REPLY <= buffer
    ensures ReadMatrix(buffer).ret > 0 <==> exists code: Byte, v :: code > 0 && StartsWithInt(buffer, code, v)
    ensures forall nrows: Byte, cells: seq<Byte> :: StartsWithMatrix(buffer, nrows, cells) ==>
      ReadMatrix(buffer) == Reading(0, Cells(nrows, cells))
    ensures NO_ROWS_REPLY <= buffer ==> ReadMatrix(buffer) == Reading(0, Cells(0, []))
    ensures forall code: Byte, v :: code > 0 && StartsWithInt(buffer, code, v) ==>
      ReadMatrix(buffer) == Reading(code, ErrorCode(v))
  {
    forall code: Byte, v | code > 0 && StartsWithInt(buffer, code, v)
      ensures ReadMatrix(buffer) == Reading(code, ErrorCode(v))
    {
      IntStart(buffer, code, v);
      IntReplyDecodes(code, v, buffer[6..]);
    }
    forall nrows: Byte, cells: seq<Byte> | StartsWithMatrix(buffer, nrows, cells)
      ensures ReadMatrix(buffer) == Reading(0, Cells(nrows, cells))
    {
      var n := 2 * nrows + 3;
      assert buffer == MatrixReply(cells, nrows) + buffer[n..];
      MatrixReplyDecodes(cells, nrows, buffer[n..]);
      assert cells[..2 * nrows] == cells;
    }
    hide LoadInt, StartsWithInt;
    if ReadMatrix(buffer).ret > 0 {
      StartsWithLoaded(buffer);
    } else if ReadMatrix(buffer).ret == 0 {
      var nrows := buffer[2];
      if nrows == 0 {
        assert buffer[..3] == NO_ROWS_REPLY;
      } else {
        MatrixStart(buffer, nrows);
      }
    }
  }
}
