/** The path cache of src/fand/cache.c: packed by `packf`, sealed with SHA-1, read back by memcpy or `unpackf`. */
module CacheFormat {
  import opened Bytes
  import opened FormatDfa
  import opened Serialize
  import opened ByteFormats
  import Fips180

  const PATH: nat := 256
  const BODY_SIZE: nat := 772
  const CACHE_SIZE: nat := 792

  const PACK_ITEMS: seq<Item> := [HHUS] + ([HHUS] + ([HHUS] + ([U] + [])))
  const UNPACK_ITEMS: seq<Item> := [HHUS] + ([HHUS] + ([HHUS] + ([U] + ([HHUS] + []))))

  lemma PackFormat()
    ensures Render(PACK_ITEMS) == "%*hhu%*hhu%*hhu%u"
  {
    ItemTexts();
    NoText();
    hide RenderItem, Render;
    RenderMore(U, [], "");
    RenderMore(HHUS, [U] + [], "%u");
    RenderMore(HHUS, [HHUS] + ([U] + []), "%*hhu%u");
    RenderMore(HHUS, [HHUS] + ([HHUS] + ([U] + [])), "%*hhu%*hhu%u");
  }

  lemma UnpackFormat()
    ensures Render(UNPACK_ITEMS) == "%*hhu%*hhu%*hhu%u%*hhu"
  {
    ItemTexts();
    NoText();
    hide RenderItem, Render;
    RenderMore(HHUS, [], "");
    RenderMore(U, [HHUS] + [], "%*hhu");
    RenderMore(HHUS, [U] + ([HHUS] + []), "%u%*hhu");
    RenderMore(HHUS, [HHUS] + ([U] + ([HHUS] + [])), "%*hhu%u%*hhu");
    RenderMore(HHUS, [HHUS] + ([HHUS] + ([U] + ([HHUS] + []))), "%*hhu%*hhu%u%*hhu");
  }

  lemma DigestFormat()
    ensures Render([HHUS] + []) == "%*hhu"
  {
  }

  /** A path field of the cache struct: a 256-byte character array. */
  type Path = p: seq<Byte> | |p| == 256 witness seq(256, _ => 0)

  lemma BodyPacks(pwm: Path, enable: Path, temp: Path, card: uint32)
    ensures Packs(PACK_ITEMS,
                  [Num(256), Arr(pwm)] + ([Num(256), Arr(enable)] + ([Num(256), Arr(temp)] + ([Num(card)] + []))),
                  [pwm[..256]] + ([enable[..256]] + ([temp[..256]] + ([[card]] + []))),
                    pwm + enable + temp + Encode(card, 4),
                  [256] + ([256] + ([256] + [])))
  {
    hide Packs, Encode, EncodeAll;
    assert pwm[..256] == pwm && enable[..256] == enable && temp[..256] == temp;
    EncodeBytes(pwm);
    EncodeBytes(enable);
    EncodeBytes(temp);
    PacksNothing();
    PacksScalar(7, card, [], [], [], [], []);
    var args1, vals1 := [Num(card)] + [], [[card as int]] + [];
    PacksArray(5, 256, temp, [U] + [], args1, vals1, Encode(card, 4) + [], []);
    var args2, vals2 := [Num(256), Arr(temp)] + args1, [temp[..256]] + vals1;
    PacksArray(5, 256, enable, [HHUS] + ([U] + []), args2, vals2, temp + (Encode(card, 4) + []), [256] + []);
    PacksArray(5, 256, pwm, [HHUS] + ([HHUS] + ([U] + [])), [Num(256), Arr(enable)] + args2, [enable[..256]] + vals2,
               enable + (temp + (Encode(card, 4) + [])), [256] + ([256] + []));
    assert pwm + (enable + (temp + (Encode(card, 4) + []))) == pwm + enable + temp + Encode(card, 4);
  }

  lemma BodyCall(pwm: Path, enable: Path, temp: Path, card: uint32, room: nat)
    requires room >= BODY_SIZE
    ensures var args := [Num(256), Arr(pwm), Num(256), Arr(enable), Num(256), Arr(temp), Num(card)];
      && PackArgs("%*hhu%*hhu%*hhu%u", args)
      && PackRun("%*hhu%*hhu%*hhu%u", args, room) == Packed(772, pwm + enable + temp + Encode(card, 4))
  {
    PackFormat();
    BodyPacks(pwm, enable, temp, card);
    hide Packs, PackArgs, PackRun, Render, Encode;
    var args := [Num(256), Arr(pwm), Num(256), Arr(enable), Num(256), Arr(temp), Num(card)];
    assert [Num(256), Arr(pwm)] + ([Num(256), Arr(enable)] + ([Num(256), Arr(temp)] + ([Num(card)] + []))) == args;
    PacksAndUnpacks(PACK_ITEMS, args, [pwm[..256]] + ([enable[..256]] + ([temp[..256]] + ([[card]] + []))),
                    pwm + enable + temp + Encode(card, 4), [256] + ([256] + ([256] + [])), room, []);
  }

  lemma DigestCall(digest: seq<Byte>, room: nat)
    requires |digest| == Fips180.DIGEST_SIZE && room >= |digest|
    ensures PackArgs("%*hhu", [Num(20), Arr(digest)])
    ensures PackRun("%*hhu", [Num(20), Arr(digest)], room) == Packed(20, digest)
  {
    hide Packs, PackArgs, PackRun, Render, EncodeAll;
    DigestFormat();
    EncodeBytes(digest);
    PacksNothing();
    assert digest[..20] == digest && digest + [] == digest && [Num(20), Arr(digest)] + [] == [Num(20), Arr(digest)];
    PacksArray(5, 20, digest, [], [], [], [], []);
    PacksAndUnpacks([HHUS] + [], [Num(20), Arr(digest)], [digest[..20]] + [], digest, [20] + [], room, []);
  }

  /** A field of n bytes at a fixed offset. */
  lemma FieldAt(at: nat, n: nat, items: seq<Item>, counts: seq<nat>, buffer: seq<Byte>)
    requires 0 < n < TWO_32 && at + n <= |buffer| && ValidItems(items) && UnpackArgs(Render(items), counts)
    ensures ValidItems([HHUS] + items) && UnpackArgs(Render([HHUS] + items), [n] + counts)
    ensures UnpackRun(Render([HHUS] + items), [n] + counts, buffer[at..])
         == Resume(n, [buffer[at..at + n]], UnpackRun(Render(items), counts, buffer[at + n..]))
  {
    hide *;
    BytesFirst(n, items, counts, buffer[at..]);
    assert buffer[at..][..n] == buffer[at..at + n] && buffer[at..][n..] == buffer[at + n..];
  }

  lemma CardAt(items: seq<Item>, counts: seq<nat>, buffer: seq<Byte>)
    requires 772 <= |buffer| && ValidItems(items) && UnpackArgs(Render(items), counts)
    ensures ValidItems([U] + items) && UnpackArgs(Render([U] + items), counts)
    ensures UnpackRun(Render([U] + items), counts, buffer[768..])
         == Resume(4, [[DecodeUnsigned(buffer[768..772])]], UnpackRun(Render(items), counts, buffer[772..]))
  {
    hide UnpackRun, UnpackArgs, Render, DecodeUnsigned;
    UnsignedFirst(items, counts, buffer[768..]);
    assert buffer[768..][..4] == buffer[768..772] && buffer[768..][4..] == buffer[772..];
  }

  lemma FiveFields(a: seq<int>, b: seq<int>, c: seq<int>, d: seq<int>, e: seq<int>)
    ensures Resume(256, [a], Resume(256, [b], Resume(256, [c], Resume(4, [d], Resume(20, [e], Unpacked(0, []))))))
         == Unpacked(792, [a, b, c, d, e])
  {
  }

  lemma CacheCounts()
    ensures [256] + ([256] + ([256] + ([20] + []))) == [256, 256, 256, 20]
    ensures [HHUS] + ([HHUS] + ([HHUS] + ([U] + ([HHUS] + [])))) == UNPACK_ITEMS && ValidItems([])
    ensures TWO_32 > 256 && CACHE_SIZE == 792
  {
  }

  /** unpackf of the cache format on any buffer of full length: every field at its fixed offset. */
  lemma UnpackCall(buffer: seq<Byte>)
    requires |buffer| >= CACHE_SIZE
    ensures UnpackArgs("%*hhu%*hhu%*hhu%u%*hhu", [256, 256, 256, 20])
    ensures UnpackRun("%*hhu%*hhu%*hhu%u%*hhu", [256, 256, 256, 20], buffer) ==
      Unpacked(792, [buffer[..256], buffer[256..512], buffer[512..768],
        [DecodeUnsigned(buffer[768..772])], buffer[772..792]])
  {
    hide *;
    UnpackFormat();
    CacheCounts();
    UnpackDone([], buffer[792..]);
    NoText();
    FieldAt(772, 20, [], [], buffer);
    CardAt([HHUS] + [], [20] + [], buffer);
    FieldAt(512, 256, [U] + ([HHUS] + []), [20] + [], buffer);
    FieldAt(256, 256, [HHUS] + ([U] + ([HHUS] + [])), [256] + ([20] + []), buffer);
    FieldAt(0, 256, [HHUS] + ([HHUS] + ([U] + ([HHUS] + []))), [256] + ([256] + ([20] + [])), buffer);
    assert buffer[0..] == buffer && buffer[0..256] == buffer[..256];
    FiveFields(buffer[..256], buffer[256..512], buffer[512..768], [DecodeUnsigned(buffer[768..772])], buffer[772..792]);
  }
}

module Cache {
  import opened Bytes
  import opened Options
  import opened Serialize
  import opened CacheFormat
  import opened Fips180
  import opened Sha1
  import opened StrUtils

  /** The fields of `struct fand_cache`. */
  datatype Contents = Contents(pwm: Path, pwmEnable: Path, tempInput: Path, cardIdx: uint32, checksum: seq<Byte>)

  function Body(c: Contents): (s: seq<Byte>)
    ensures |s| == BODY_SIZE
  {
    c.pwm + c.pwmEnable + c.tempInput + Encode(c.cardIdx, 4)
  }

  /** The cache file of some contents. */
  function Image(c: Contents): (s: seq<Byte>)
    ensures |s| == CACHE_SIZE
  {
    Body(c) + Fips180.Sha1(Body(c))
  }

  /** A path with its last byte forced to NUL. */
  function Terminated(p: Path): Path { p[..255] + [0] }

  /** What the struct holds after reading a buffer. */
  function Restored(buffer: seq<Byte>): Contents
    requires |buffer| >= CACHE_SIZE
  {
    DecodeUnsignedBound(buffer[768..772]);
    assert Span(4) == TWO_32;
    Contents(Terminated(buffer[..256]), Terminated(buffer[256..512]), Terminated(buffer[512..768]),
             DecodeUnsigned(buffer[768..772]), buffer[772..792])
  }

  /** The bytes of "/sys/". */
  const SYSFS_STEM: seq<Byte> := [47, 115, 121, 115, 47]

  /** `cache_file_exists_in_sysfs`, cache.c:41; what the file system holds is a parameter. */
  predicate InSysfs(path: Path, present: seq<Byte> -> bool) {
    present(UpTo(path, 0)) && path[..5] == SYSFS_STEM
  }

  predicate AllInSysfs(c: Contents, present: seq<Byte> -> bool) {
    InSysfs(c.pwm, present) && InSysfs(c.pwmEnable, present) && InSysfs(c.tempInput, present)
  }

  /** The files cache_load takes: long enough, sealed with the digest of their body, and naming files under /sys. */
  predicate Acceptable(file: seq<Byte>, present: seq<Byte> -> bool) {
    |file| >= CACHE_SIZE && file[772..792] == Fips180.Sha1(file[..772]) && AllInSysfs(Restored(file), present)
  }

  /** What cache_load meets at the cache file's path. */
  datatype CacheFile = Missing | NotOpened | ReadFails | Readable(content: seq<Byte>)

  /** How the calls of cache_write turn out: directory there or made, file opened, count `write` returned, closed. */
  datatype WriteTarget = WriteTarget(directory: bool, open: bool, written: int, closed: bool)

  lemma RestoredPrefix(file: seq<Byte>)
    requires |file| >= CACHE_SIZE
    ensures Restored(file[..CACHE_SIZE]) == Restored(file) && file[..CACHE_SIZE][..772] == file[..772]
    ensures file[..CACHE_SIZE][772..792] == file[772..792]
  {
    hide Terminated, DecodeUnsigned;
    assert file[..CACHE_SIZE][..256] == file[..256] && file[..CACHE_SIZE][256..512] == file[256..512];
    assert file[..CACHE_SIZE][512..768] == file[512..768] && file[..CACHE_SIZE][768..772] == file[768..772];
  }

  lemma DecodeCard(v: uint32)
    ensures DecodeUnsigned(Encode(v, 4)) == v
  {
    assert Span(4) == TWO_32;
    DecodeUnsignedEncode(v, 4);
  }

  /** Reading back a written file restores every field but the last byte of each path, which becomes NUL. */
  lemma ImageRestored(c: Contents)
    ensures Image(c)[..256] == c.pwm && Image(c)[256..512] == c.pwmEnable && Image(c)[512..768] == c.tempInput
    ensures Image(c)[768..772] == Encode(c.cardIdx, 4)
    ensures Restored(Image(c))
      == Contents(Terminated(c.pwm), Terminated(c.pwmEnable), Terminated(c.tempInput), c.cardIdx, Fips180.Sha1(Body(c)))
    ensures Image(c)[..772] == Body(c)
  {
    hide Fips180.Sha1, Encode, DecodeUnsigned, Terminated;
    DecodeCard(c.cardIdx);
    var s := Image(c);
    assert s[..256] == c.pwm && s[256..512] == c.pwmEnable && s[512..768] == c.tempInput;
    assert s[768..772] == Encode(c.cardIdx, 4) && s[772..792] == Fips180.Sha1(Body(c));
  }

  /** A written file always carries the right digest: whether it is accepted depends on its paths alone. */
  lemma ImageAcceptable(c: Contents, present: seq<Byte> -> bool)
    ensures Acceptable(Image(c), present) <==>
      InSysfs(Terminated(c.pwm), present) && InSysfs(Terminated(c.pwmEnable), present)
        && InSysfs(Terminated(c.tempInput), present)
  {
    ImageRestored(c);
    hide Fips180.Sha1, Body, Restored, InSysfs, Terminated;
    assert Image(c)[772..792] == Fips180.Sha1(Body(c));
  }

  /** A terminated path keeps its first 255 bytes and ends with NUL. */
  lemma TerminatedBytes(p: Path, i: nat)
    requires i < 256
    ensures Terminated(p)[i] == if i < 255 then p[i] else 0
  {
  }

  /** The file names an existing file under /sys/ in the 256 bytes at this offset. */
  predicate NamesSysfs(file: seq<Byte>, at: nat, present: seq<Byte> -> bool)
    requires at + 256 <= |file|
  {
    file[at..at + 5] == [47, 115, 121, 115, 47] && present(UpTo(file[at..at + 255], 0))
  }

  lemma UpToEnd(s: seq<Byte>)
    ensures UpTo(s + [0], 0) == UpTo(s, 0)
  {
    if s != [] {
      assert (s + [0])[1..] == s[1..] + [0];
      UpToEnd(s[1..]);
    }
  }

  lemma InSysfsAt(file: seq<Byte>, at: nat, present: seq<Byte> -> bool)
    requires at + 256 <= |file|
    ensures InSysfs(Terminated(file[at..at + 256]), present) <==> NamesSysfs(file, at, present)
  {
    var p := file[at..at + 256];
    assert Terminated(p)[..5] == p[..5] == file[at..at + 5];
    assert p[..255] == file[at..at + 255];
    UpToEnd(p[..255]);
    hide UpTo;
  }

  lemma RestoredPaths(file: seq<Byte>)
    requires |file| >= CACHE_SIZE
    ensures var c := Restored(file);
      && c.pwm == Terminated(file[0..256]) && c.pwmEnable == Terminated(file[256..512])
      && c.tempInput == Terminated(file[512..768])
  {
    hide Terminated, DecodeUnsigned;
    assert file[..256] == file[0..256];
  }

  lemma RestoredNames(file: seq<Byte>, present: seq<Byte> -> bool)
    requires |file| >= CACHE_SIZE
    ensures InSysfs(Restored(file).pwm, present) <==> NamesSysfs(file, 0, present)
    ensures InSysfs(Restored(file).pwmEnable, present) <==> NamesSysfs(file, 256, present)
    ensures InSysfs(Restored(file).tempInput, present) <==> NamesSysfs(file, 512, present)
  {
    assert CACHE_SIZE == 792;
    hide *;
    RestoredPaths(file);
    InSysfsAt(file, 0, present);
    InSysfsAt(file, 256, present);
    InSysfsAt(file, 512, present);
  }

  lemma AcceptableMeans(file: seq<Byte>, present: seq<Byte> -> bool)
    requires |file| >= CACHE_SIZE
    ensures Acceptable(file, present) <==>
      && file[772..792] == Fips180.Sha1(file[..772])
      && InSysfs(Restored(file).pwm, present) && InSysfs(Restored(file).pwmEnable, present)
      && InSysfs(Restored(file).tempInput, present)
  {
    hide Restored, InSysfs, Fips180.Sha1;
  }

  lemma ShortRefused(file: seq<Byte>, present: seq<Byte> -> bool)
    requires |file| < 792
    ensures !Acceptable(file, present)
  {
    hide Fips180.Sha1;
  }

  /** A file is accepted exactly when it is long enough, sealed, and names three existing files under /sys/. */
  lemma AcceptableExactly(file: seq<Byte>, present: seq<Byte> -> bool)
    ensures Acceptable(file, present) <==>
      && |file| >= 792 && file[772..792] == Fips180.Sha1(file[..772])
      && NamesSysfs(file, 0, present) && NamesSysfs(file, 256, present) && NamesSysfs(file, 512, present)
  {
    assert CACHE_SIZE == 792;
    hide *;
    if |file| >= 792 {
      AcceptableMeans(file, present);
      RestoredNames(file, present);
    } else {
      ShortRefused(file, present);
    }
  }

  class FandCache {
    const pwm: array<Byte>
    const pwmEnable: array<Byte>
    const tempInput: array<Byte>
    var cardIdx: uint32
    const checksum: array<Byte>

    ghost predicate Shape() {
      && pwm.Length == pwmEnable.Length == tempInput.Length == PATH && checksum.Length == DIGEST_SIZE
      && pwm != pwmEnable && pwm != tempInput && pwmEnable != tempInput
      && checksum != pwm && checksum != pwmEnable && checksum != tempInput
    }

    ghost function Stored(): Contents
      reads this, pwm, pwmEnable, tempInput, checksum
      requires Shape()
    {
      Contents(pwm[..], pwmEnable[..], tempInput[..], cardIdx, checksum[..])
    }

    constructor ()
      ensures Shape() && fresh(pwm) && fresh(pwmEnable) && fresh(tempInput) && fresh(checksum)
    {
      pwm := new Byte[PATH](_ => 0);
      pwmEnable := new Byte[PATH](_ => 0);
      tempInput := new Byte[PATH](_ => 0);
      cardIdx := 0;
      checksum := new Byte[DIGEST_SIZE](_ => 0);
    }

    /** The digest `sha1_init`, `sha1_update`, `sha1_final` compute for some bytes. */
    static method Digest(data: seq<Byte>) returns (digest: seq<Byte>)
      requires |data| + 63 < TWO_32
      ensures digest == Fips180.Sha1(data)
    {
      hide Fips180.Sha1;
      var ctx := new Sha1Ctx();
      ctx.Update(data);
      var d := new Byte[DIGEST_SIZE];
      assert [] + data == data;
      ctx.Final(d);
      digest := d[..];
    }

    /** `cache_pack`, cache.c:83. */
    method Pack(buffer: array<Byte>, bufsize: nat) returns (nbytes: int)
      requires Shape() && bufsize <= buffer.Length
      requires buffer != pwm && buffer != pwmEnable && buffer != tempInput && buffer != checksum
      modifies buffer
      ensures bufsize < CACHE_SIZE ==> nbytes == -1 && buffer[..] == old(buffer[..])
      ensures bufsize >= CACHE_SIZE ==>
        nbytes == CACHE_SIZE && buffer[..] == Splice(old(buffer[..]), 0, Image(Stored()))
    {
      hide PackArgs, PackRun, Splice, Encode, Fips180.Sha1;
      if bufsize < CACHE_SIZE {
        return -1;
      }
      ghost var was := buffer[..];
      ghost var c := Stored();
      BodyCall(pwm[..], pwmEnable[..], tempInput[..], cardIdx, bufsize);
      nbytes := Packf(buffer, 0, bufsize, "%*hhu%*hhu%*hhu%u",
                      [Num(256), Arr(pwm[..]), Num(256), Arr(pwmEnable[..]), Num(256), Arr(tempInput[..]),
                       Num(cardIdx)]);
      SplicePrefix(was, Body(c));
      var digest := Digest(buffer[..nbytes]);
      DigestCall(digest, bufsize - nbytes);
      var more := Packf(buffer, nbytes, bufsize - nbytes, "%*hhu", [Num(20), Arr(digest)]);
      SpliceSplice(was, 0, Body(c), digest);
      nbytes := nbytes + more;
    }

    /** Overwrites every field of the struct. */
    method Overwrite(c: Contents)
      requires Shape() && |c.checksum| == DIGEST_SIZE
      modifies `cardIdx, pwm, pwmEnable, tempInput, checksum
      ensures Stored() == c
    {
      hide Splice;
      SpliceAll(pwm[..], c.pwm);
      SpliceAll(pwmEnable[..], c.pwmEnable);
      SpliceAll(tempInput[..], c.tempInput);
      SpliceAll(checksum[..], c.checksum);
      CopyTo(pwm, 0, c.pwm);
      CopyTo(pwmEnable, 0, c.pwmEnable);
      CopyTo(tempInput, 0, c.tempInput);
      cardIdx := c.cardIdx;
      CopyTo(checksum, 0, c.checksum);
    }

    /** `cache_unpack`, cache.c:106; `padded` is cache_struct_is_padded. Both branches leave the same struct. */
    method Unpack(buffer: seq<Byte>, padded: bool) returns (nbytes: int)
      requires Shape()
      modifies `cardIdx, pwm, pwmEnable, tempInput, checksum
      ensures |buffer| < CACHE_SIZE ==> nbytes == -1 && Stored() == old(Stored())
      ensures |buffer| >= CACHE_SIZE ==> nbytes == CACHE_SIZE && Stored() == Restored(buffer)
    {
      hide UnpackArgs, UnpackRun, DecodeUnsigned;
      if |buffer| < CACHE_SIZE {
        return -1;
      }
      ghost var r := Restored(buffer);
      if !padded {
        Overwrite(Contents(buffer[..256], buffer[256..512], buffer[512..768],
                           DecodeUnsigned(buffer[768..772]), buffer[772..792]));
        nbytes := CACHE_SIZE;
      } else {
        UnpackCall(buffer);
        var outs;
        nbytes, outs := Unpackf(buffer, "%*hhu%*hhu%*hhu%u%*hhu", [256, 256, 256, 20]);
        Overwrite(Contents(outs[0], outs[1], outs[2], outs[3][0], outs[4]));
      }
      pwm[PATH - 1] := 0;
      pwmEnable[PATH - 1] := 0;
      tempInput[PATH - 1] := 0;
      assert pwm[..] == r.pwm && pwmEnable[..] == r.pwmEnable && tempInput[..] == r.tempInput
        && checksum[..] == r.checksum;
    }

    /** `cache_validate`, cache.c:48. */
    method Validate(buffer: seq<Byte>, nbytes: nat, present: seq<Byte> -> bool) returns (status: int)
      requires Shape() && nbytes <= |buffer|
      ensures status == if nbytes == CACHE_SIZE && Fips180.Sha1(buffer[..BODY_SIZE]) == checksum[..]
        && AllInSysfs(Stored(), present)
                        then 0 else -1
    {
      hide Fips180.Sha1, InSysfs;
      if nbytes != CACHE_SIZE {
        return -1;
      }
      status := 0;
      var digest := Digest(buffer[..nbytes - DIGEST_SIZE]);
      if digest != checksum[..] {
        return -1;
      }
      if !InSysfs(pwm[..], present) {
        status := -1;
      } else if !InSysfs(pwmEnable[..], present) {
        status := -1;
      } else if !InSysfs(tempInput[..], present) {
        status := -1;
      }
    }

    /** `cache_load`, cache.c:132. */
    method Load(file: CacheFile, padded: bool, present: seq<Byte> -> bool) returns (status: int)
      requires Shape()
      modifies `cardIdx, pwm, pwmEnable, tempInput, checksum
      ensures status == if file.Readable? && Acceptable(file.content, present) then 0 else -1
      ensures Stored()
        == if file.Readable? && |file.content| >= CACHE_SIZE then Restored(file.content) else old(Stored())
    {
      hide Fips180.Sha1, AllInSysfs;
      if file.Missing? {
        return -1;
      }
      if file.NotOpened? {
        return -1;
      }
      status := 0;
      var buffer := [];
      if file.ReadFails? {
        status := -1;
      } else {
        buffer := if |file.content| < CACHE_SIZE then file.content else file.content[..CACHE_SIZE];
        if |buffer| != CACHE_SIZE {
          status := -1;
        }
      }
      if status < 0 {
        return status;
      }
      RestoredPrefix(file.content);
      var nbytes := Unpack(buffer, padded);
      if nbytes < 0 {
        return -1;
      }
      status := Validate(buffer, nbytes, present);
    }

    /** `cache_write`, cache.c:172: the bytes handed to `write`, if it gets that far. */
    method Write(target: WriteTarget) returns (status: int, file: Option<seq<Byte>>)
      requires Shape()
      ensures file == if target.directory && target.open then Some(Image(Stored())) else None
      ensures status == 0 <==> file.Some? && target.written == |file.value| && target.closed
      ensures status == 0 || status == -1
    {
      hide Fips180.Sha1, Image;
      if !target.directory {
        return -1, None;
      }
      var buffer := new Byte[CACHE_SIZE];
      ghost var was := buffer[..];
      var n := Pack(buffer, buffer.Length);
      if n < 0 {
        return -1, None;
      }
      if !target.open {
        return -1, None;
      }
      SplicePrefix(was, Image(Stored()));
      assert buffer[..] == Image(Stored());
      status, file := 0, Some(buffer[..]);
      if target.written != CACHE_SIZE {
        status := -1;
      }
      if !target.closed {
        status := -1;
      }
    }
  }
}
