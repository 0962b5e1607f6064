/** The automaton of src/common/serialize.c that recognises one conversion specifier. */
module FormatDfa {
  const ACCEPT: bv8 := 0x1
  const REJECT: bv8 := 0x2
  const HALF0: bv8 := 0x4
  const HALF1: bv8 := 0x8
  const LONG0: bv8 := 0x10
  const LONG1: bv8 := 0x20
  const SIGNED: bv8 := 0x40
  const UNSIGNED: bv8 := 0x80
  const FMTMASK: bv8 := HALF0 | HALF1 | LONG0 | LONG1 | SIGNED | UNSIGNED

  /** Edge label that matches every character. */
  const ANY: char := 128 as char

  datatype StateName = Start | Half | HalfHalf | Long | LongLong | SignedEnd | UnsignedEnd | Rejected
  datatype Edge = Edge(c: char, end: StateName)
  datatype State = State(flags: bv8, edges: seq<Edge>)

  /** Zero-initialised edge slots: label NUL. */
  const NO_EDGE := Edge('\0', Rejected)

  const D_EDGE := Edge('d', SignedEnd)
  const U_EDGE := Edge('u', UnsignedEnd)
  const REJECT_EDGE := Edge(ANY, Rejected)

  function Table(name: StateName): (s: State)
    ensures |s.edges| == 5
  {
    match name
    case Start => State(0, [Edge('h', Half), Edge('l', Long), D_EDGE, U_EDGE, REJECT_EDGE])
    case Half => State(HALF0, [Edge('h', HalfHalf), D_EDGE, U_EDGE, REJECT_EDGE, NO_EDGE])
    case HalfHalf => State(HALF1, [D_EDGE, U_EDGE, REJECT_EDGE, NO_EDGE, NO_EDGE])
    case Long => State(LONG0, [D_EDGE, U_EDGE, Edge('l', LongLong), REJECT_EDGE, NO_EDGE])
    case LongLong => State(LONG1, [D_EDGE, U_EDGE, REJECT_EDGE, NO_EDGE, NO_EDGE])
    case SignedEnd => State(ACCEPT | SIGNED, [NO_EDGE, NO_EDGE, NO_EDGE, NO_EDGE, NO_EDGE])
    case UnsignedEnd => State(ACCEPT | UNSIGNED, [NO_EDGE, NO_EDGE, NO_EDGE, NO_EDGE, NO_EDGE])
    case Rejected => State(REJECT, [NO_EDGE, NO_EDGE, NO_EDGE, NO_EDGE, NO_EDGE])
  }

  predicate EdgeMatch(ic: char, ec: char) { ec == ANY || ic == ec }

  predicate FlagSet(flags: bv8, bit: bv8) { flags & bit != 0 }

  predicate Accepting(flags: bv8) { FlagSet(flags, ACCEPT) }

  function Flag(flags: bv8, bit: bv8): int { if FlagSet(flags, bit) then 1 else 0 }

  /** `dfa_flags_to_fmttype`, serialize.c:155. */
  function FlagsToFmtType(flags: bv8): int {
    if (flags & FMTMASK) in {SIGNED | LONG0 | LONG1, SIGNED | HALF0 | HALF1, SIGNED | LONG0, SIGNED | HALF0, SIGNED,
                             UNSIGNED | LONG0 | LONG1, UNSIGNED | HALF0 | HALF1, UNSIGNED | LONG0, UNSIGNED | HALF0,
                             UNSIGNED}
    then Flag(flags, SIGNED) * 2 + Flag(flags, UNSIGNED) * 7 - Flag(flags, HALF0) - Flag(flags, HALF1)
         + Flag(flags, LONG0) + Flag(flags, LONG1)
    else -1
  }

  /** The character a C string pointer reads; the end of the sequence is the terminating NUL. */
  function CharAt(s: string, i: nat): char {
    if i < |s| then s[i] else '\0'
  }

  /** What the scan of one state's edges ends in. */
  datatype Scan = Invalid | Taken(end: StateName) | Exhausted

  function ScanEdges(edges: seq<Edge>, c: char): Scan {
    if edges == [] then Exhausted
    else if edges[0].c == '\0' then Invalid
    else if EdgeMatch(c, edges[0].c) then Taken(edges[0].end)
    else ScanEdges(edges[1..], c)
  }

  /** The automaton's result from a state, the flags gathered before it, and the rest of the string. */
  function Run(current: StateName, flags: bv8, rest: string): int
    decreases |rest|
  {
    var f := flags | Table(current).flags;
    if Accepting(f) then FlagsToFmtType(f)
    else
      match ScanEdges(Table(current).edges, CharAt(rest, 0))
      case Invalid => -1
      case Taken(end) => if CharAt(rest, 0) == '\0' then -1 else Run(end, f, rest[1..])
      case Exhausted => if CharAt(rest, 0) == '\0' then -1 else Run(current, f, rest[1..])
  }

  /** The ten specifiers, in the order of the FMT_ codes. */
  const SPECIFIERS: seq<string> := ["hhd", "hd", "d", "ld", "lld", "hhu", "hu", "u", "lu", "llu"]

  /** The code of the specifier that s starts with, or -1. */
  function SpecifierAt(s: string): (r: int)
    ensures -1 <= r < 10
  {
    if "hhd" <= s then 0 else if "hd" <= s then 1 else if "d" <= s then 2 else if "ld" <= s then 3
    else if "lld" <= s then 4 else if "hhu" <= s then 5 else if "hu" <= s then 6 else if "u" <= s then 7
    else if "lu" <= s then 8 else if "llu" <= s then 9 else -1
  }

  /** `dfa_valsize`, serialize.c:218, for an LP64 host. */
  function ValSize(fmttype: nat): (n: nat)
    ensures n in {1, 2, 4, 8}
  {
    [1, 2, 4, 8, 8][fmttype % 5]
  }

  /** `dfa_fmtlen`, serialize.c:230. */
  function FmtLen(fmttype: nat): nat {
    [3, 2, 1, 2, 3][fmttype % 5]
  }

  predicate IsSigned(fmttype: nat) { fmttype < 5 }

  /** The code is that of the only specifier the string starts with, and dfa_fmtlen is that specifier's length. */
  lemma SpecifierUnique(s: string, k: nat)
    requires k < 10
    ensures SPECIFIERS[k] <= s <==> SpecifierAt(s) == k
    ensures |SPECIFIERS[k]| == FmtLen(k)
  {
    if SPECIFIERS[k] <= s {
      assert s[0] == SPECIFIERS[k][0];
      assert |SPECIFIERS[k]| >= 2 ==> s[1] == SPECIFIERS[k][1];
      assert |SPECIFIERS[k]| >= 3 ==> s[2] == SPECIFIERS[k][2];
    }
  }

  /** The transition function the edge tables encode. */
  function Next(current: StateName, c: char): StateName {
    match current
    case Start => if c == 'h' then Half else if c == 'l' then Long else if c == 'd' then SignedEnd
                  else if c == 'u' then UnsignedEnd else Rejected
    case Half => if c == 'h' then HalfHalf else if c == 'd' then SignedEnd
                 else if c == 'u' then UnsignedEnd else Rejected
    case Long => if c == 'd' then SignedEnd else if c == 'u' then UnsignedEnd
                 else if c == 'l' then LongLong else Rejected
    case _ => if c == 'd' then SignedEnd else if c == 'u' then UnsignedEnd else Rejected
  }

  lemma ScanHead(e: seq<Edge>, c: char)
    requires e != []
    ensures ScanEdges(e, c)
      == if e[0].c == '\0' then Invalid else if EdgeMatch(c, e[0].c) then Taken(e[0].end) else ScanEdges(e[1..], c)
  {
  }

  lemma ScanFollowsNext(current: StateName, c: char)
    requires !Accepting(Table(current).flags) && current != Rejected
    ensures ScanEdges(Table(current).edges, c) == Taken(Next(current, c))
  {
    var e := Table(current).edges;
    assert e[1..][1..] == e[2..] && e[2..][1..] == e[3..] && e[3..][1..] == e[4..];
    ScanHead(e[4..], c);
    ScanHead(e[3..], c);
    ScanHead(e[2..], c);
    ScanHead(e[1..], c);
    ScanHead(e, c);
  }

  /** The type each specifier stands for. */
  lemma SpecifierTypes(k: nat)
    requires k < 10
    ensures ValSize(k) == 1 <==> SPECIFIERS[k] in {"hhd", "hhu"}
    ensures ValSize(k) == 2 <==> SPECIFIERS[k] in {"hd", "hu"}
    ensures ValSize(k) == 4 <==> SPECIFIERS[k] in {"d", "u"}
    ensures ValSize(k) == 8 <==> SPECIFIERS[k] in {"ld", "lu", "lld", "llu"}
    ensures IsSigned(k) <==> SPECIFIERS[k] in {"hhd", "hd", "d", "ld", "lld"}
  {
  }

  lemma RunTakes(current: StateName, flags: bv8, rest: string, end: StateName)
    requires !Accepting(flags | Table(current).flags)
    requires ScanEdges(Table(current).edges, CharAt(rest, 0)) == Taken(end)
    ensures Run(current, flags, rest)
      == if CharAt(rest, 0) == '\0' then -1 else Run(end, flags | Table(current).flags, rest[1..])
  {
  }

  lemma RunRejected(flags: bv8, rest: string)
    requires !Accepting(flags)
    ensures Run(Rejected, flags, rest) == -1
  {
  }

  lemma RunAccepts(flags: bv8, rest: string)
    ensures Run(SignedEnd, flags, rest) == FlagsToFmtType(flags | ACCEPT | SIGNED)
    ensures Run(UnsignedEnd, flags, rest) == FlagsToFmtType(flags | ACCEPT | UNSIGNED)
  {
  }

  /** The states that expect d or u and nothing else. */
  lemma RunLast(current: StateName, flags: bv8, rest: string)
    requires current in {HalfHalf, LongLong}
    requires flags == if current == HalfHalf then HALF0 else LONG0
    ensures Run(current, flags, rest) ==
            (if CharAt(rest, 0) == 'd' then (if current == HalfHalf then 0 else 4)
             else if CharAt(rest, 0) == 'u' then (if current == HalfHalf then 5 else 9)
             else -1)
  {
    var c, f := CharAt(rest, 0), flags | Table(current).flags;
    ScanFollowsNext(current, c);
    RunTakes(current, flags, rest, Next(current, c));
    if c != '\0' {
      RunAccepts(f, rest[1..]);
      RunRejected(f, rest[1..]);
    }
  }

  lemma SpecifierByChars(s: string)
    ensures SpecifierAt(s) ==
      var c0, c1, c2 := CharAt(s, 0), CharAt(s, 1), CharAt(s, 2);
      if c0 == 'h' && c1 == 'h' && c2 == 'd' then 0 else if c0 == 'h' && c1 == 'd' then 1 else if c0 == 'd' then 2
      else if c0 == 'l' && c1 == 'd' then 3 else if c0 == 'l' && c1 == 'l' && c2 == 'd' then 4
      else if c0 == 'h' && c1 == 'h' && c2 == 'u' then 5 else if c0 == 'h' && c1 == 'u' then 6 else if c0 == 'u' then 7
      else if c0 == 'l' && c1 == 'u' then 8 else if c0 == 'l' && c1 == 'l' && c2 == 'u' then 9 else -1
  {
  }

  lemma RunMiddle(current: StateName, rest: string)
    requires current in {Half, Long}
    ensures Run(current, 0, rest) == SpecifierAt((if current == Half then "h" else "l") + rest)
  {
    var c := CharAt(rest, 0);
    ScanFollowsNext(current, c);
    var f: bv8 := if current == Half then HALF0 else LONG0;
    assert 0 | Table(current).flags == f;
    var s := (if current == Half then "h" else "l") + rest;
    RunTakes(current, 0, rest, Next(current, c));
    if rest != [] {
      var tail := rest[1..];
      RunAccepts(f, tail);
      RunRejected(f, tail);
      RunLast(HalfHalf, HALF0, tail);
      RunLast(LongLong, LONG0, tail);
    }
    SpecifierByChars(s);
    assert CharAt(s, 1) == c && (rest != [] ==> CharAt(s, 2) == CharAt(rest[1..], 0));
  }

  /** On every string the automaton returns the code of the specifier the string starts with, or -1. */
  lemma RunDecides(s: string)
    ensures Run(Start, 0, s) == SpecifierAt(s)
  {
    var c := CharAt(s, 0);
    ScanFollowsNext(Start, c);
    RunTakes(Start, 0, s, Next(Start, c));
    SpecifierByChars(s);
    if s != [] {
      var tail := s[1..];
      assert s == [c] + tail;
      if c == 'h' {
        RunMiddle(Half, tail);
      } else if c == 'l' {
        RunMiddle(Long, tail);
      } else {
        RunAccepts(0, tail);
        RunRejected(0, tail);
      }
      hide SpecifierAt;
    }
  }

  /** `dfa_simulate`, serialize.c:181: the loop over the edges of the current state, inside the loop over the string. */
  method DfaSimulate(s: string) returns (r: int)
    ensures r == SpecifierAt(s)
  {
    hide FlagsToFmtType, SpecifierAt, Table;
    RunDecides(s);
    var current, flags: bv8, pos: nat := Start, 0, 0;
    while true
      invariant pos <= |s|
      invariant Run(current, flags, s[pos..]) == SpecifierAt(s)
      decreases |s| - pos
    {
      ghost var from, f := current, flags | Table(current).flags;
      ghost var c := CharAt(s, pos);
      assert c == CharAt(s[pos..], 0);
      var i := 0;
      var edges := Table(current).edges;
      while i < |edges|
        invariant 0 <= i <= |edges| == 5
        invariant current == from && edges == Table(from).edges && flags | Table(from).flags == f
        invariant i > 0 ==> flags == f && !Accepting(f)
        invariant ScanEdges(edges, c) == ScanEdges(edges[i..], c)
      {
        flags := flags | Table(current).flags;
        if Accepting(flags) {
          return FlagsToFmtType(flags);
        }
        if edges[i].c == '\0' {
          return -1;
        }
        if EdgeMatch(CharAt(s, pos), edges[i].c) {
          current := edges[i].end;
          break;
        }
        i := i + 1;
      }
      if CharAt(s, pos) == '\0' {
        break;
      }
      assert s[pos..][1..] == s[pos + 1..];
      pos := pos + 1;
    }
    return -1;
  }
}
