/** The bounded copies and the number parser of src/common/strutils.c. */
module StrUtils {
  import opened Errno

  const NUL: char := '\0'

  /** A C string: the characters before the terminating NUL. */
  predicate IsCString(s: string) { NUL !in s }

  /** What a `char *` reads at index i of a C string. */
  function At(s: string, i: nat): char {
    if i < |s| then s[i] else NUL
  }

  /** What an array holds before its first terminator. */
  function UpTo<T(==)>(a: seq<T>, end: T): seq<T> {
    if a == [] || a[0] == end then [] else [a[0]] + UpTo(a[1..], end)
  }

  /** The C string a character array holds. */
  function CString(a: seq<char>): string { UpTo(a, NUL) }

  lemma {:induction false} CStringOf(s: string, rest: seq<char>)
    requires IsCString(s)
    ensures CString(s + [NUL] + rest) == s
  {
    if s == [] {
      assert ([] + [NUL] + rest)[0] == NUL;
    } else {
      CStringOf(s[1..], rest);
      assert (s + [NUL] + rest)[1..] == s[1..] + [NUL] + rest;
    }
  }

  /** The array after `src` and its NUL are stored at the front. */
  function Stored(was: seq<char>, src: string): (now: seq<char>)
    requires |src| < |was|
    ensures |now| == |was|
  {
    src + [NUL] + was[|src| + 1..]
  }

  /** A stored string reads back, and the array behind its NUL is unchanged. */
  lemma StoredReads(was: seq<char>, src: string)
    requires IsCString(src) && |src| < |was|
    ensures CString(Stored(was, src)) == src
    ensures Stored(was, src)[|src| + 1..] == was[|src| + 1..]
  {
    CStringOf(src, was[|src| + 1..]);
    hide CString;
  }

  /** The array after the loop that copies up to `limit` characters and stops after a NUL. */
  function Copied(was: seq<char>, src: string, limit: nat): (now: seq<char>)
    requires limit <= |was|
    ensures |now| == |was|
  {
    if |src| < limit then Stored(was, src) else src[..limit] + was[limit..]
  }

  /** `strscpy`, strutils.c:6. */
  method StrSCpy(dst: array<char>, src: string, dstlen: nat) returns (r: int)
    requires IsCString(src) && 0 < dstlen <= dst.Length
    modifies dst
    ensures r == if |src| >= dstlen then -E2BIG else |src|
    ensures dst[..] == Stored(old(dst[..]), if |src| >= dstlen then src[..dstlen - 1] else src)
  {
    CopyLoop(dst, src, dstlen);
    if |src| >= dstlen {
      dst[dstlen - 1] := NUL;
      return -E2BIG;
    }
    return |src|;
  }

  /** `strsncpy`, strutils.c:21. */
  method StrSNCpy(dst: array<char>, src: string, dstlen: nat, n: nat) returns (r: int)
    requires IsCString(src) && 0 < dstlen <= dst.Length
    modifies dst
    ensures r == if n >= dstlen || |src| < n then -E2BIG else n
    ensures r >= 0 ==> dst[..] == Stored(old(dst[..]), src[..n])
    ensures n < dstlen && |src| < n ==> dst[..] == Stored(old(dst[..]), src)
    ensures n >= dstlen ==> dst[..] == Copied(old(dst[..]), src, dstlen)[dstlen - 1 := NUL]
  {
    CopyLoop(dst, src, if n < dstlen then n else dstlen);
    if n >= dstlen {
      dst[dstlen - 1] := NUL;
      return -E2BIG;
    }
    if |src| < n {
      return -E2BIG;
    }
    dst[n] := NUL;
    return n;
  }

  /** One turn of the copy loop: the next character, or the NUL that ends the string. */
  lemma CopyOne(was: seq<char>, src: string, d: nat, limit: nat)
    requires d < limit <= |was| && d <= |src|
    ensures d < |src| ==> Copied(was, src, d)[d := src[d]] == Copied(was, src, d + 1)
    ensures d == |src| ==> Copied(was, src, d)[d := NUL] == Copied(was, src, limit)
  {
  }

  lemma CopyNone(was: seq<char>, src: string)
    ensures Copied(was, src, 0) == was
  {
  }

  /** The copy loop both functions run: at most `limit` characters, stopping after the NUL. */
  method CopyLoop(dst: array<char>, src: string, limit: nat)
    requires IsCString(src) && limit <= dst.Length
    modifies dst
    ensures dst[..] == Copied(old(dst[..]), src, limit)
  {
    hide Copied;
    ghost var was := dst[..];
    CopyNone(was, src);
    var i, d := limit, 0;
    while i > 0
      invariant 0 <= d <= limit && i + d == limit && d <= |src|
      invariant dst[..] == Copied(was, src, d)
    {
      CopyOne(was, src, d, limit);
      i := i - 1;
      dst[d] := At(src, d);
      assert dst[..] == Copied(was, src, d)[d := At(src, d)];
      if dst[d] == NUL {
        break;
      }
      d := d + 1;
    }
  }

  // ---- Numbers ----

  predicate IsDigit(c: char) { '0' <= c <= '9' }

  predicate AllDigits(s: string) { forall i :: 0 <= i < |s| ==> IsDigit(s[i]) }

  function DigitValue(c: char): nat
    requires IsDigit(c)
  {
    c as int - '0' as int
  }

  /** The number a string of decimal digits denotes. */
  function Number(s: string): nat
    requires AllDigits(s)
  {
    if s == [] then 0 else 10 * Number(s[..|s| - 1]) + DigitValue(s[|s| - 1])
  }

  const ULONG_MAX: nat := 0xffff_ffff_ffff_ffff

  /** `isspace` in the C locale. */
  predicate IsSpace(c: char) { c == ' ' || '\t' <= c <= '\r' }

  predicate AllSpaces(s: string) { forall i :: 0 <= i < |s| ==> IsSpace(s[i]) }

  predicate IsSign(s: string) { s == "" || s == "+" || s == "-" }

  function SkipSpaces(s: string): string {
    if s != [] && IsSpace(s[0]) then SkipSpaces(s[1..]) else s
  }

  function LeadingDigits(s: string): (d: string)
    ensures d <= s && AllDigits(d)
  {
    if s != [] && IsDigit(s[0]) then [s[0]] + LeadingDigits(s[1..]) else []
  }

  /** The sign in front of a numeral, if there is one. */
  function Sign(s: string): (sign: string)
    ensures sign <= s && IsSign(sign)
  {
    if s != [] && (s[0] == '+' || s[0] == '-') then [s[0]] else ""
  }

  /** The unsigned long a signed numeral becomes: saturated when too large, else negated modulo 2^64. */
  function UnsignedLong(sign: string, digits: string): (v: nat)
    requires AllDigits(digits)
    ensures v <= ULONG_MAX
  {
    if Number(digits) > ULONG_MAX then ULONG_MAX
    else if sign == "-" && Number(digits) > 0 then ULONG_MAX + 1 - Number(digits)
    else Number(digits)
  }

  /** `strtoul` in base ten: the value, and the text its end pointer is left at. */
  function StrToUL(s: string): (r: (nat, string)) {
    var t := SkipSpaces(s);
    var u := t[|Sign(t)|..];
    var digits := LeadingDigits(u);
    if digits == [] then (0, s) else (UnsignedLong(Sign(t), digits), u[|digits|..])
  }

  lemma {:induction false} SkipsSpaces(spaces: string, s: string)
    requires AllSpaces(spaces) && (s == [] || !IsSpace(s[0]))
    ensures SkipSpaces(spaces + s) == s
  {
    if spaces == [] {
      assert [] + s == s;
    } else {
      assert (spaces + s)[1..] == spaces[1..] + s;
      SkipsSpaces(spaces[1..], s);
    }
  }

  lemma {:induction false} SpacesSkipped(s: string) returns (spaces: string)
    ensures AllSpaces(spaces) && s == spaces + SkipSpaces(s)
  {
    if s != [] && IsSpace(s[0]) {
      var rest := SpacesSkipped(s[1..]);
      spaces := [s[0]] + rest;
    } else {
      spaces := [];
    }
  }

  lemma {:induction false} LeadsWithDigits(digits: string, rest: string)
    requires AllDigits(digits) && (rest != [] ==> !IsDigit(rest[0]))
    ensures LeadingDigits(digits + rest) == digits
  {
    if digits == [] {
      assert [] + rest == rest;
    } else {
      assert (digits + rest)[1..] == digits[1..] + rest;
      LeadsWithDigits(digits[1..], rest);
    }
  }

  /** A text that starts with a numeral: its value is converted, and the end pointer is left behind it. */
  lemma PrefixConverts(spaces: string, sign: string, digits: string, rest: string)
    requires AllSpaces(spaces) && IsSign(sign) && AllDigits(digits) && digits != []
    requires rest != [] ==> !IsDigit(rest[0])
    ensures StrToUL(spaces + (sign + (digits + rest))) == (UnsignedLong(sign, digits), rest)
  {
    hide Number, UnsignedLong;
    var u := digits + rest;
    var t := sign + u;
    SkipsSpaces(spaces, t);
    assert Sign(t) == sign && t[|Sign(t)|..] == u;
    LeadsWithDigits(digits, rest);
    assert u[|digits|..] == rest;
  }

  /** A text without digits where a numeral should have them: nothing is converted, the value is 0. */
  lemma NothingConverts(spaces: string, sign: string, rest: string)
    requires AllSpaces(spaces) && IsSign(sign)
    requires rest != [] ==> !IsDigit(rest[0])
    requires sign == "" && rest != [] ==> !IsSpace(rest[0]) && rest[0] != '+' && rest[0] != '-'
    ensures StrToUL(spaces + (sign + rest)) == (0, spaces + (sign + rest))
  {
    hide Number, UnsignedLong;
    var t := sign + rest;
    SkipsSpaces(spaces, t);
    assert Sign(t) == sign && t[|Sign(t)|..] == rest;
    LeadsWithDigits([], rest);
    assert [] + rest == rest;
  }

  /** The text is a numeral: white space, a sign, digits, and nothing else. */
  ghost predicate IsNumeral(s: string, spaces: string, sign: string, digits: string) {
    s == spaces + sign + digits && AllSpaces(spaces) && IsSign(sign) && digits != [] && AllDigits(digits)
  }

  lemma NumeralConverts(s: string, spaces: string, sign: string, digits: string)
    requires IsNumeral(s, spaces, sign, digits)
    ensures s != [] && StrToUL(s) == (UnsignedLong(sign, digits), [])
  {
    hide StrToUL, UnsignedLong, Number, AllSpaces, AllDigits, IsSign;
    PrefixConverts(spaces, sign, digits, []);
    WithoutRest(spaces, sign, digits);
  }

  lemma WithoutRest(spaces: string, sign: string, digits: string)
    ensures spaces + (sign + (digits + [])) == spaces + sign + digits
  {
    assert digits + [] == digits;
    assert spaces + (sign + digits) == spaces + sign + digits;
  }

  lemma ConvertsToItsEnd(s: string)
    requires s != [] && StrToUL(s).1 == []
    ensures var t := SkipSpaces(s);
      var u := t[|Sign(t)|..];
      u != [] && AllDigits(u)
  {
    hide SkipSpaces, Sign, UnsignedLong, LeadingDigits, AllDigits;
    var t := SkipSpaces(s);
    var u := t[|Sign(t)|..];
    var digits := LeadingDigits(u);
    assert digits != [] && u[|digits|..] == [];
    assert u == digits;
  }

  lemma ConvertedIsNumeral(s: string) returns (spaces: string, sign: string, digits: string)
    requires s != [] && StrToUL(s).1 == []
    ensures IsNumeral(s, spaces, sign, digits)
  {
    hide StrToUL, SkipSpaces, Sign, IsSign, AllDigits, AllSpaces;
    ConvertsToItsEnd(s);
    spaces := SpacesSkipped(s);
    var t := SkipSpaces(s);
    sign := Sign(t);
    digits := t[|sign|..];
    assert t == sign + digits;
    assert spaces + (sign + digits) == spaces + sign + digits;
  }

  /** strtoul consumes all of a text exactly when the text is a numeral, and the value is then that numeral's. */
  lemma ConvertsExactly(s: string)
    ensures s != [] && StrToUL(s).1 == [] <==> exists spaces, sign, digits :: IsNumeral(s, spaces, sign, digits)
    ensures forall spaces, sign, digits :: IsNumeral(s, spaces, sign, digits) ==>
      StrToUL(s).0 == UnsignedLong(sign, digits)
  {
    hide StrToUL, UnsignedLong, AllSpaces, AllDigits, IsSign;
    if s != [] && StrToUL(s).1 == [] {
      var spaces, sign, digits := ConvertedIsNumeral(s);
    }
    forall spaces, sign, digits | IsNumeral(s, spaces, sign, digits)
      ensures s != [] && StrToUL(s) == (UnsignedLong(sign, digits), [])
    {
      NumeralConverts(s, spaces, sign, digits);
    }
  }

  /** The value of every numeral: saturated above 2^64 - 1, else negated modulo 2^64 for a minus sign. */
  lemma SignedValues(sign: string, digits: string)
    requires IsSign(sign) && AllDigits(digits)
    ensures var n, v := Number(digits), UnsignedLong(sign, digits);
      && (n >= 0x1_0000_0000_0000_0000 ==> v == 0xffff_ffff_ffff_ffff)
      && (n < 0x1_0000_0000_0000_0000 && sign != "-" ==> v == n)
      && (0 < n < 0x1_0000_0000_0000_0000 && sign == "-" ==> v == 0x1_0000_0000_0000_0000 - n)
      && (n == 0 ==> v == 0)
  {
    hide Number;
  }

  /** The characters a numeral may start with: blank, tab, line feed, vertical tab, form feed, carriage return. */
  lemma SpaceCharacters(c: char)
    ensures IsSpace(c) <==> c as int in {9, 10, 11, 12, 13, 32}
  {
  }

  /** A negative number is out of any range whose upper end is below 2^63, such as those of the configuration. */
  lemma NegativeRefused(src: string, spaces: string, digits: string, high: nat)
    requires IsNumeral(src, spaces, "-", digits) && 0 < Number(digits) <= 0x8000_0000_0000_0000
    requires high < 0x8000_0000_0000_0000
    ensures StrToUL(src).0 > high
  {
    NumeralConverts(src, spaces, "-", digits);
    SignedValues("-", digits);
    hide StrToUL, UnsignedLong, Number;
  }

  lemma NumberOfFront(s: string)
    requires AllDigits(s) && s != []
    ensures AllDigits(s[..|s| - 1]) && Number(s) <= 10 * Number(s[..|s| - 1]) + 9
  {
  }

  /** Three digits make a number below 1000. */
  lemma {:induction false} ThreeDigits(s: string)
    requires AllDigits(s) && |s| <= 3
    ensures Number(s) < 1000
    ensures |s| <= 2 ==> Number(s) < 100
    ensures |s| <= 1 ==> Number(s) < 10
    ensures |s| == 0 ==> Number(s) == 0
  {
    if s != [] {
      NumberOfFront(s);
      ThreeDigits(s[..|s| - 1]);
      hide Number;
    }
  }

  lemma SmallUnsignedLong(digits: string)
    requires AllDigits(digits) && Number(digits) < 1000
    ensures UnsignedLong("", digits) == Number(digits)
  {
    hide Number;
  }

  /** Bare digits, if at most three, convert to their number. */
  lemma DigitsConvert(digits: string)
    requires digits != [] && AllDigits(digits) && |digits| <= 3
    ensures Number(digits) < 1000
    ensures StrToUL(digits) == (Number(digits), [])
  {
    ThreeDigits(digits);
    SmallUnsignedLong(digits);
    hide Number, StrToUL, UnsignedLong;
    assert digits == [] + "" + digits;
    assert AllSpaces([]) && IsSign("");
    NumeralConverts(digits, [], "", digits);
  }

  /** `strstoul`, strutils.c:50; `dst` is what the destination held before. */
  method StrToULong(src: string, dst: nat) returns (status: int, value: nat)
    ensures status == if src != [] && StrToUL(src).1 == [] then 0 else -EINVAL
    ensures value == if src == [] then dst else StrToUL(src).0
  {
    hide StrToUL;
    if src == [] {
      return -EINVAL, dst;
    }
    var (converted, endp) := StrToUL(src);
    value := converted;
    status := if endp != [] then -EINVAL else 0;
  }

  /** `strstoul_range`, strutils.c:63. */
  method StrToULRange(src: string, dst: nat, low: nat, high: nat) returns (status: int, value: nat)
    ensures status == 0 <==>
      exists spaces, sign, digits :: IsNumeral(src, spaces, sign, digits) && low <= UnsignedLong(sign, digits) <= high
    ensures status == if src != [] && StrToUL(src).1 == [] && low <= StrToUL(src).0 <= high then 0 else -EINVAL
    ensures value == if src == [] then dst else StrToUL(src).0
  {
    hide StrToUL, UnsignedLong;
    ConvertsExactly(src);
    status, value := StrToULong(src, dst);
    if status == 0 {
      status := if value < low || value > high then -EINVAL else 0;
    }
  }

  function Digit(d: nat): char
    requires d < 10
  {
    "0123456789"[d]
  }

  /** The canonical decimal text of a number. */
  function Decimal(n: nat): (s: string)
    ensures s != []
  {
    if n < 10 then [Digit(n)] else Decimal(n / 10) + [Digit(n % 10)]
  }

  lemma {:induction false} NumberOfDecimal(n: nat)
    ensures AllDigits(Decimal(n)) && Number(Decimal(n)) == n
  {
    if n >= 10 {
      NumberOfDecimal(n / 10);
      assert Decimal(n)[..|Decimal(n)| - 1] == Decimal(n / 10);
    } else {
      assert Decimal(n)[..0] == [];
    }
  }

  /** Three characters hold exactly the numbers below 1000. */
  lemma DecimalLength(n: nat)
    ensures |Decimal(n)| <= 3 <==> n < 1000
  {
    var tens := n / 10;
    var hundreds := tens / 10;
    if n >= 1000 {
      assert hundreds >= 10;
      assert Decimal(hundreds) == Decimal(hundreds / 10) + [Digit(hundreds % 10)];
    } else if n >= 100 {
      assert hundreds < 10;
    }
    assert n >= 100 ==> Decimal(tens) == Decimal(hundreds) + [Digit(tens % 10)];
  }
}
