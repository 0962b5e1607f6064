/** The matrix parser of src/fand/config.c: the fixed pattern, the row loop, and the canonical text it inverts. */
module MatrixConfig {
  import opened Bytes
  import opened Options
  import opened FandCfg
  import opened StrUtils

  const NUMBUF: nat := 4

  // ---- The pattern [;(]'([0-9]+)::([0-9]+)'.*[;)] ----

  /** The offsets of the two submatches: [tempFrom, tempTo) and [speedFrom, speedTo). */
  datatype Match = Match(tempFrom: nat, tempTo: nat, speedFrom: nat, speedTo: nat)

  /** The end of the run of digits that starts at i. */
  function DigitsEnd(s: string, i: nat): (e: nat)
    requires i <= |s|
    ensures i <= e <= |s|
    ensures forall k :: i <= k < e ==> IsDigit(s[k])
    ensures e < |s| ==> !IsDigit(s[e])
    decreases |s| - i
  {
    if i < |s| && IsDigit(s[i]) then DigitsEnd(s, i + 1) else i
  }

  lemma {:induction false} DigitsEndAt(s: string, i: nat, e: nat)
    requires i <= e < |s| && !IsDigit(s[e])
    requires forall k :: i <= k < e ==> IsDigit(s[k])
    ensures DigitsEnd(s, i) == e
    decreases e - i
  {
    if i < e {
      DigitsEndAt(s, i + 1, e);
    }
  }

  predicate Closes(s: string, from: nat) {
    exists q :: from <= q < |s| && (s[q] == ';' || s[q] == ')')
  }

  /** The match of the pattern that starts at p, if there is one. */
  function MatchAt(s: string, p: nat): Option<Match> {
    if p + 2 > |s| || (s[p] != ';' && s[p] != '(') || s[p + 1] != '\'' then None
    else
      var a := p + 2;
      var b := DigitsEnd(s, a);
      if a == b || b + 2 > |s| || s[b] != ':' || s[b + 1] != ':' then None
      else
        var c := b + 2;
        var d := DigitsEnd(s, c);
        if c == d || d >= |s| || s[d] != '\'' || !Closes(s, d + 1) then None
        else Some(Match(a, b, c, d))
  }

  /** regexec: the leftmost match. */
  function Search(s: string, p: nat): Option<Match>
    requires p <= |s|
    decreases |s| - p
  {
    if MatchAt(s, p).Some? then MatchAt(s, p)
    else if p < |s| then Search(s, p + 1)
    else None
  }

  lemma {:induction false} SearchBounds(s: string, p: nat)
    requires p <= |s| && Search(s, p).Some?
    ensures var m := Search(s, p).value;
      && m.tempFrom < m.tempTo <= m.speedFrom < m.speedTo <= |s|
      && AllDigits(s[m.tempFrom..m.tempTo]) && AllDigits(s[m.speedFrom..m.speedTo])
    decreases |s| - p
  {
    if MatchAt(s, p).None? {
      SearchBounds(s, p + 1);
    }
  }

  /** The pattern, read off its text: m marks its two groups in an occurrence that starts at p. */
  ghost predicate PatternAt(s: string, p: nat, m: Match) {
    && p + 2 == m.tempFrom < m.tempTo && m.tempTo + 2 == m.speedFrom < m.speedTo < |s|
    && (s[p] == ';' || s[p] == '(') && s[p + 1] == '\''
    && AllDigits(s[m.tempFrom..m.tempTo])
    && s[m.tempTo] == ':' && s[m.tempTo + 1] == ':'
    && AllDigits(s[m.speedFrom..m.speedTo])
    && s[m.speedTo] == '\''
    && Closes(s, m.speedTo + 1)
  }

  lemma DigitsSlice(s: string, from: nat, to: nat)
    requires from <= to < |s| && AllDigits(s[from..to]) && !IsDigit(s[to])
    ensures DigitsEnd(s, from) == to
  {
    var digits := s[from..to];
    assert forall k | from <= k < to :: s[k] == digits[k - from];
    DigitsEndAt(s, from, to);
  }

  lemma PatternMatches(s: string, p: nat, m: Match)
    requires PatternAt(s, p, m)
    ensures MatchAt(s, p) == Some(m)
  {
    DigitsSlice(s, m.tempFrom, m.tempTo);
    DigitsSlice(s, m.speedFrom, m.speedTo);
    hide Closes, DigitsEnd, AllDigits, IsDigit;
  }

  lemma MatchHasPattern(s: string, p: nat)
    requires MatchAt(s, p).Some?
    ensures PatternAt(s, p, MatchAt(s, p).value)
  {
    hide Closes;
  }

  /** The scanner finds an occurrence at p exactly when there is one, and then its only groups. */
  lemma MatchIsPattern(s: string, p: nat, m: Match)
    ensures MatchAt(s, p) == Some(m) <==> PatternAt(s, p, m)
  {
    hide *;
    if PatternAt(s, p, m) {
      PatternMatches(s, p, m);
    }
    if MatchAt(s, p).Some? {
      MatchHasPattern(s, p);
    }
  }

  lemma NoPatternAt(s: string, p: nat)
    requires MatchAt(s, p).None?
    ensures forall m :: !PatternAt(s, p, m)
  {
    hide MatchAt, PatternAt;
    forall m: Match
      ensures !PatternAt(s, p, m)
    {
      MatchIsPattern(s, p, m);
    }
  }

  /** The search returns the leftmost occurrence, as regexec does, and fails only when there is none. */
  lemma {:induction false} SearchIsLeftmost(s: string, p: nat)
    requires p <= |s|
    ensures Search(s, p).None? ==> forall q, m :: p <= q <= |s| ==> !PatternAt(s, q, m)
    ensures Search(s, p).Some? ==>
      exists q :: p <= q && PatternAt(s, q, Search(s, p).value) && forall q', m :: p <= q' < q ==> !PatternAt(s, q', m)
    decreases |s| - p
  {
    hide MatchAt, PatternAt;
    if MatchAt(s, p).Some? {
      MatchHasPattern(s, p);
      assert PatternAt(s, p, Search(s, p).value);
    } else {
      NoPatternAt(s, p);
      if p < |s| {
        SearchIsLeftmost(s, p + 1);
        assert Search(s, p) == Search(s, p + 1);
        if Search(s, p).Some? {
          var q :| p + 1 <= q && PatternAt(s, q, Search(s, p).value)
            && forall q', m :: p + 1 <= q' < q ==> !PatternAt(s, q', m);
          assert forall q', m :: p <= q' < q ==> !PatternAt(s, q', m);
        }
      }
    }
  }

  /** A submatch of at most three digits whose value is at most `high`. */
  function Field(digits: string, high: nat): Option<nat>
    requires AllDigits(digits)
  {
    if |digits| < NUMBUF && Number(digits) <= high then Some(Number(digits)) else None
  }

  /** The temperature and speed of the segment the pattern finds. */
  function Segment(value: string): Option<(Byte, Byte)> {
    var m := Search(value, 0);
    if m.None? then None
    else
      SearchBounds(value, 0);
      var t := Field(value[m.value.tempFrom..m.value.tempTo], 255);
      var s := Field(value[m.value.speedFrom..m.value.speedTo], 100);
      if t.None? || s.None? then None else Some((t.value, s.value))
  }

  /** `strchr`: the rest of the string from the first c. */
  function StrChr(s: string, c: char): Option<string> {
    if s == [] then None else if s[0] == c then Some(s) else StrChr(s[1..], c)
  }

  /** Whether the row loop ends without an error, and the cells it stores. */
  datatype Scanned = Scanned(ok: bool, cells: seq<Byte>)

  function Scan(value: Option<string>, left: nat): (r: Scanned)
    ensures |r.cells| % 2 == 0 && |r.cells| <= 2 * left
    decreases left
  {
    if left == 0 || value.None? then Scanned(true, [])
    else
      match Segment(value.value)
      case None => Scanned(false, [])
      case Some((t, s)) =>
        var rest := Scan(if value.value == [] then None else StrChr(value.value[1..], ';'), left - 1);
        Scanned(rest.ok, [t, s] + rest.cells)
  }

  /** `config_set_matrix` accepts the text. */
  predicate Accepted(text: string) {
    var r := Scan(Some(text), MAX_ROWS);
    r.ok && |r.cells| < 2 * MAX_ROWS
  }

  // ---- Canonical text ----

  datatype Row = Row(temp: nat, speed: nat)

  /** One row as text: a separator, the quoted pair. */
  function CellText(lead: char, r: Row): string {
    [lead, '\''] + Decimal(r.temp) + "::" + Decimal(r.speed) + "'"
  }

  function Segments(rows: seq<Row>, lead: char): string {
    if rows == [] then ")" else CellText(lead, rows[0]) + Segments(rows[1..], ';')
  }

  /** `('t::s';'t::s';...;'t::s')`. */
  function Text(rows: seq<Row>): string { Segments(rows, '(') }

  predicate RowInRange(r: Row) { r.temp <= 255 && r.speed <= 100 }

  function RowCells(rows: seq<Row>): (cells: seq<Byte>)
    requires forall i :: 0 <= i < |rows| ==> RowInRange(rows[i])
    ensures |cells| == 2 * |rows|
  {
    if rows == [] then []
    else
      assert RowInRange(rows[0]);
      var t: Byte, s: Byte := rows[0].temp, rows[0].speed;
      [t, s] + RowCells(rows[1..])
  }

  lemma {:induction false} SegmentsClose(rows: seq<Row>, lead: char)
    ensures Segments(rows, lead) != [] && Segments(rows, lead)[|Segments(rows, lead)| - 1] == ')'
    decreases |rows|
  {
    if rows != [] {
      SegmentsClose(rows[1..], ';');
    }
  }

  lemma Middle(before: string, middle: string, after: string)
    ensures (before + (middle + after))[|before|..|before| + |middle|] == middle
  {
  }

  /** Where the parts of a row's text lie. */
  lemma CellLayout(lead: char, t: string, p: string, rest: string) returns (s: string)
    requires rest != [] && rest[|rest| - 1] == ')'
    ensures s == [lead, '\''] + t + "::" + p + "'" + rest
    ensures |s| == 5 + |t| + |p| + |rest|
    ensures s[0] == lead && s[1] == '\'' && s[2..2 + |t|] == t
    ensures s[2 + |t|] == ':' && s[3 + |t|] == ':' && s[4 + |t|..4 + |t| + |p|] == p && s[4 + |t| + |p|] == '\''
    ensures s[|s| - 1] == ')'
  {
    var open: string := [lead, '\''];
    s := open + t + "::" + p + "'" + rest;
    Middle(open, t, "::" + (p + ("'" + rest)));
    Middle(open + t + "::", p, "'" + rest);
    assert s == open + (t + ("::" + (p + ("'" + rest))));
    assert s == (open + t + "::") + (p + ("'" + rest));
  }

  /** The pattern matches text laid out like a row and picks out its two numbers. */
  lemma LayoutMatches(s: string, t: string, p: string)
    requires |s| > 5 + |t| + |p| && t != [] && p != [] && AllDigits(t) && AllDigits(p)
    requires (s[0] == '(' || s[0] == ';') && s[1] == '\'' && s[2..2 + |t|] == t
    requires s[2 + |t|] == ':' && s[3 + |t|] == ':' && s[4 + |t|..4 + |t| + |p|] == p && s[4 + |t| + |p|] == '\''
    requires s[|s| - 1] == ')'
    ensures MatchAt(s, 0) == Some(Match(2, 2 + |t|, 4 + |t|, 4 + |t| + |p|))
  {
    var m := Match(2, 2 + |t|, 4 + |t|, 4 + |t| + |p|);
    assert Closes(s, m.speedTo + 1) by {
      assert s[|s| - 1] == ')';
    }
    hide Closes;
    assert PatternAt(s, 0, m);
    hide *;
    MatchIsPattern(s, 0, m);
  }

  lemma CellMatches(lead: char, r: Row, rest: string)
    requires lead == '(' || lead == ';'
    requires rest != [] && rest[|rest| - 1] == ')'
    ensures var s, t, p := CellText(lead, r) + rest, Decimal(r.temp), Decimal(r.speed);
      && MatchAt(s, 0) == Some(Match(2, 2 + |t|, 4 + |t|, 4 + |t| + |p|))
      && |s| == 5 + |t| + |p| + |rest|
      && s[2..2 + |t|] == t && s[4 + |t|..4 + |t| + |p|] == p
  {
    NumberOfDecimal(r.temp);
    NumberOfDecimal(r.speed);
    hide Decimal, Number, MatchAt;
    var s := CellLayout(lead, Decimal(r.temp), Decimal(r.speed), rest);
    assert s == CellText(lead, r) + rest;
    LayoutMatches(s, Decimal(r.temp), Decimal(r.speed));
  }

  /** A numeral is accepted exactly when its number is in range. */
  lemma FieldOfDecimal(n: nat, high: nat)
    requires high < 1000
    ensures AllDigits(Decimal(n)) && Field(Decimal(n), high) == if n <= high then Some(n) else None
  {
    NumberOfDecimal(n);
    DecimalLength(n);
    hide Decimal, Number;
  }

  /** A numeral of four digits or more is refused, whatever its value: leading zeros count. */
  lemma LongFieldRefused(digits: string, high: nat)
    requires AllDigits(digits) && |digits| >= 4
    ensures Field(digits, high) == None
  {
    hide Number;
  }

  lemma SegmentFound(value: string, m: Match)
    requires MatchAt(value, 0) == Some(m)
    ensures m.tempFrom <= m.tempTo <= m.speedFrom <= m.speedTo <= |value|
    ensures var t, s := value[m.tempFrom..m.tempTo], value[m.speedFrom..m.speedTo];
      && AllDigits(t) && AllDigits(s)
      && Segment(value) == (if Field(t, 255).None? || Field(s, 100).None? then None
        else Some((Field(t, 255).value, Field(s, 100).value)))
  {
  }

  lemma SegmentsFront(rows: seq<Row>, lead: char)
    requires rows != []
    ensures Segments(rows, lead) == CellText(lead, rows[0]) + Segments(rows[1..], ';')
    ensures RowInRange(rows[0]) <==> rows[0].temp <= 255 && rows[0].speed <= 100
  {
  }

  /** The front row of canonical text is read exactly when its numbers are in range. */
  lemma SegmentOfText(rows: seq<Row>, lead: char)
    requires rows != [] && (lead == '(' || lead == ';')
    ensures Segment(Segments(rows, lead)) == if RowInRange(rows[0]) then Some((rows[0].temp, rows[0].speed)) else None
  {
    hide *;
    var r, rest := rows[0], Segments(rows[1..], ';');
    SegmentsFront(rows, lead);
    SegmentsClose(rows[1..], ';');
    CellMatches(lead, r, rest);
    SegmentFound(Segments(rows, lead), MatchAt(Segments(rows, lead), 0).value);
    FieldOfDecimal(r.temp, 255);
    FieldOfDecimal(r.speed, 100);
  }

  lemma {:induction false} StrChrSkips(before: string, rest: string, c: char)
    requires c !in before
    ensures StrChr(before + rest, c) == StrChr(rest, c)
  {
    if before != [] {
      assert (before + rest)[1..] == before[1..] + rest;
      StrChrSkips(before[1..], rest, c);
    } else {
      assert before + rest == rest;
    }
  }

  lemma CellHasNoSeparator(lead: char, r: Row)
    ensures CellText(lead, r) != [] && ';' !in CellText(lead, r)[1..]
  {
    NumberOfDecimal(r.temp);
    NumberOfDecimal(r.speed);
    hide Decimal, Number;
    var before: string := "'" + Decimal(r.temp) + "::" + Decimal(r.speed) + "'";
    assert CellText(lead, r)[1..] == before;
    forall i | 0 <= i < |before| ensures before[i] != ';' {
      if 1 <= i < 1 + |Decimal(r.temp)| {
        assert before[i] == Decimal(r.temp)[i - 1];
      } else if 3 + |Decimal(r.temp)| <= i < |before| - 1 {
        assert before[i] == Decimal(r.speed)[i - 3 - |Decimal(r.temp)|];
      }
    }
  }

  /** `strchr` from the second character lands on the next row. */
  lemma NextRow(rows: seq<Row>, lead: char)
    requires rows != []
    ensures Segments(rows, lead) != []
    ensures StrChr(Segments(rows, lead)[1..], ';') == if |rows| == 1 then None else Some(Segments(rows[1..], ';'))
  {
    CellHasNoSeparator(lead, rows[0]);
    var cell, rest := CellText(lead, rows[0]), Segments(rows[1..], ';');
    assert |rows| > 1 ==> rest[0] == ';';
    assert |rows| == 1 ==> rest == ")" && StrChr(rest[1..], ';') == None;
    assert Segments(rows, lead) == cell + rest;
    hide CellText, Segments;
    assert (cell + rest)[1..] == cell[1..] + rest;
    StrChrSkips(cell[1..], rest, ';');
  }

  predicate AllInRange(rows: seq<Row>) { forall i :: 0 <= i < |rows| ==> RowInRange(rows[i]) }

  lemma ScanStep(value: string, left: nat)
    requires left > 0 && value != []
    ensures var rest := Scan(StrChr(value[1..], ';'), left - 1);
      Scan(Some(value), left) ==
        if Segment(value).None? then Scanned(false, [])
        else Scanned(rest.ok, [Segment(value).value.0, Segment(value).value.1] + rest.cells)
  {
  }

  /** The row loop over canonical text: it ends without an error exactly when the rows it reaches are in range. */
  lemma {:induction false} ScanText(rows: seq<Row>, lead: char, left: nat)
    requires rows != [] && (lead == '(' || lead == ';')
    ensures var n := if |rows| < left then |rows| else left;
      var scanned := Scan(Some(Segments(rows, lead)), left);
      && (scanned.ok <==> AllInRange(rows[..n]))
      && (scanned.ok ==> scanned.cells == RowCells(rows[..n]))
    decreases left
  {
    hide *;
    var n := if |rows| < left then |rows| else left;
    var all := Segments(rows, lead);
    if left == 0 {
      NoRows(Some(all), 0);
      assert rows[..n] == [];
    } else {
      SegmentOfText(rows, lead);
      NextRow(rows, lead);
      ScanStep(all, left);
      FrontRow(rows[..n]);
      assert rows[..n][0] == rows[0] && rows[..n][1..] == rows[1..][..n - 1];
      if |rows| > 1 {
        ScanText(rows[1..], ';', left - 1);
      } else {
        assert rows[1..][..n - 1] == [];
        NoRows(None, left - 1);
      }
    }
  }

  lemma NoRows(value: Option<string>, left: nat)
    requires value.None? || left == 0
    ensures Scan(value, left) == Scanned(true, []) && AllInRange([]) && RowCells([]) == []
  {
  }

  lemma FrontRow(rows: seq<Row>)
    requires rows != []
    ensures AllInRange(rows) <==> RowInRange(rows[0]) && AllInRange(rows[1..])
    ensures AllInRange(rows) ==> RowCells(rows) == [rows[0].temp as int, rows[0].speed] + RowCells(rows[1..])
  {
  }

  /** Digits contain no NUL. */
  lemma DigitsAreCString(s: string)
    requires AllDigits(s)
    ensures IsCString(s)
  {
  }

  /** `now` is `was` with these cells stored at its front. */
  predicate Written(was: seq<Byte>, done: seq<Byte>, now: seq<Byte>) {
    |done| <= |was| && now == done + was[|done|..]
  }

  lemma TwoMore(was: seq<Byte>, done: seq<Byte>, before: seq<Byte>, t: Byte, s: Byte)
    requires Written(was, done, before) && |done| + 2 <= |before|
    ensures Written(was, done + [t, s], before[|done| := t][|done| + 1 := s])
  {
  }

  /** A scan continued after some cells are stored. */
  function After(done: seq<Byte>, r: Scanned): Scanned { Scanned(r.ok, done + r.cells) }

  lemma NothingDone(r: Scanned, was: seq<Byte>)
    ensures After([], r) == r && Written(was, [], was)
  {
  }

  lemma AfterStop(done: seq<Byte>)
    ensures After(done, Scanned(true, [])) == Scanned(true, done)
      && After(done, Scanned(false, [])) == Scanned(false, done)
  {
  }

  lemma AfterAfter(done: seq<Byte>, t: Byte, s: Byte, r: Scanned)
    ensures After(done, Scanned(r.ok, [t, s] + r.cells)) == After(done + [t, s], r)
  {
  }

  lemma EmptyNoMatch()
    ensures Search([], 0) == None
  {
  }

  /** `struct fand_config`; the interval is not read by anything modelled here. */
  class FandConfig {
    var throttle: bool
    var matrixRows: Byte
    var hysteresis: Byte
    const matrix: array<Byte>

    ghost function Values(): ConfigRecord
      reads this, matrix
    {
      ConfigRecord(throttle, matrixRows, hysteresis, matrix[..])
    }

    constructor ()
      ensures matrix.Length == 2 * MAX_ROWS && fresh(matrix)
    {
      throttle, matrixRows, hysteresis := false, 0, 0;
      matrix := new Byte[2 * MAX_ROWS](_ => 0);
    }

    /** One number of a row: copied into the reused buffer, parsed and checked. */
    static method ReadField(numbuf: array<char>, value: string, from: nat, to: nat, high: nat)
        returns (field: Option<nat>)
      requires numbuf.Length == NUMBUF && IsCString(value) && from < to <= |value| && AllDigits(value[from..to])
      modifies numbuf
      ensures field == Field(value[from..to], high)
    {
      ghost var was := numbuf[..];
      var n := StrSNCpy(numbuf, value[from..], NUMBUF, to - from);
      if n < 0 {
        return None;
      }
      ghost var digits := value[from..to];
      assert value[from..][..to - from] == digits;
      DigitsAreCString(digits);
      CStringOf(digits, was[|digits| + 1..]);
      DigitsConvert(digits);
      hide Number, StrToUL, UnsignedLong;
      assert CString(numbuf[..]) == digits;
      var status, ul := StrToULRange(CString(numbuf[..]), 0, 0, high);
      if status != 0 {
        return None;
      }
      return Some(ul);
    }

    /** The body of the row loop, config.c:112-143: the two numbers of the next segment. */
    static method ReadRow(numbuf: array<char>, value: string) returns (row: Option<(Byte, Byte)>)
      requires numbuf.Length == NUMBUF && IsCString(value)
      modifies numbuf
      ensures row == Segment(value)
    {
      hide Segment, Field, Search;
      var m := Search(value, 0);
      SegmentFields(value);
      if m.None? {
        return None;
      }
      var temp := ReadField(numbuf, value, m.value.tempFrom, m.value.tempTo, 255);
      if temp.None? {
        return None;
      }
      var speed := ReadField(numbuf, value, m.value.speedFrom, m.value.speedTo, 100);
      if speed.None? {
        return None;
      }
      return Some((temp.value, speed.value));
    }

    /** The two assignments of config.c:142-143. */
    method StoreRow(rows: nat, temp: Byte, speed: Byte)
      requires 2 * rows + 2 <= matrix.Length
      modifies matrix
      ensures matrix[..] == old(matrix[..])[2 * rows := temp][2 * rows + 1 := speed]
    {
      matrix[rows * 2] := temp;
      matrix[rows * 2 + 1] := speed;
    }

    /** The row loop, config.c:111-146; `ok` is false where the source jumps to its cleanup. */
    method ReadRows(text: string) returns (ok: bool, rows: nat)
      requires matrix.Length == 2 * MAX_ROWS && IsCString(text)
      modifies matrix
      ensures var scanned := Scan(Some(text), MAX_ROWS);
        ok == scanned.ok && |scanned.cells| == 2 * rows && rows <= MAX_ROWS
      ensures Written(old(matrix[..]), Scan(Some(text), MAX_ROWS).cells, matrix[..])
    {
      hide *;
      NothingDone(Scan(Some(text), MAX_ROWS), matrix[..]);
      var numbuf := new char[NUMBUF];
      var value := Some(text);
      rows := 0;
      ghost var was := matrix[..];
      ghost var done: seq<Byte> := [];
      while rows < MAX_ROWS && value.Some?
        invariant rows <= MAX_ROWS && |done| == 2 * rows
        invariant value.Some? ==> IsCString(value.value)
        invariant Scan(Some(text), MAX_ROWS) == After(done, Scan(value, MAX_ROWS - rows))
        invariant Written(was, done, matrix[..])
        decreases MAX_ROWS - rows
      {
        var row := ReadRow(numbuf, value.value);
        AfterStop(done);
        ScanTurn(value.value, MAX_ROWS - rows);
        if row.None? {
          return false, rows;
        }
        var (temp, speed) := row.value;
        TwoMore(was, done, matrix[..], temp, speed);
        StoreRow(rows, temp, speed);
        AfterAfter(done, temp, speed, Scan(StrChr(value.value[1..], ';'), MAX_ROWS - rows - 1));
        value := StrChr(value.value[1..], ';');
        done := done + [temp, speed];
        rows := rows + 1;
      }
      NoRows(value, MAX_ROWS - rows);
      AfterStop(done);
      ok := true;
    }

    /** `config_set_matrix`, config.c:98. */
    method SetMatrix(text: string) returns (status: int)
      requires matrix.Length == 2 * MAX_ROWS && IsCString(text)
      modifies `matrixRows, matrix
      ensures var scanned := Scan(Some(text), MAX_ROWS);
        && status == (if Accepted(text) then 0 else -1)
        && matrix[..] == scanned.cells + old(matrix[|scanned.cells|..])
        && matrixRows == (if status == 0 then |scanned.cells| / 2 else old(matrixRows))
    {
      hide Scan;
      var ok, rows := ReadRows(text);
      if !ok {
        return -1;
      }
      if rows == MAX_ROWS {
        return -1;
      }
      matrixRows := rows;
      return 0;
    }
  }

  /** One turn of the row loop. */
  lemma ScanTurn(value: string, left: nat)
    requires left > 0 && IsCString(value)
    ensures Segment(value).None? ==> Scan(Some(value), left) == Scanned(false, [])
    ensures Segment(value).Some? ==>
      var rest := Scan(StrChr(value[1..], ';'), left - 1);
      && value != []
      && Scan(Some(value), left) == Scanned(rest.ok, [Segment(value).value.0, Segment(value).value.1] + rest.cells)
      && (StrChr(value[1..], ';').Some? ==> IsCString(StrChr(value[1..], ';').value))
  {
    if value == [] {
      EmptyNoMatch();
    } else {
      StrChrIsCString(value[1..], ';');
    }
    SegmentFields(value);
    hide StrChr, Search, Field;
  }

  lemma SegmentFields(value: string)
    ensures Search(value, 0).None? ==> Segment(value).None?
    ensures Search(value, 0).Some? ==>
      var m := Search(value, 0).value;
      && value != [] && m.tempFrom < m.tempTo <= m.speedFrom < m.speedTo <= |value|
      && AllDigits(value[m.tempFrom..m.tempTo]) && AllDigits(value[m.speedFrom..m.speedTo])
      && var t, s := Field(value[m.tempFrom..m.tempTo], 255), Field(value[m.speedFrom..m.speedTo], 100);
         && (t.None? || s.None? ==> Segment(value).None?)
         && (t.Some? && s.Some? ==> t.value <= 255 && s.value <= 100 && Segment(value) == Some((t.value, s.value)))
  {
    if Search(value, 0).Some? {
      SearchBounds(value, 0);
    }
    hide MatchAt, Search, Number;
  }

  lemma {:induction false} StrChrIsCString(s: string, c: char)
    requires IsCString(s)
    ensures StrChr(s, c).Some? ==> IsCString(StrChr(s, c).value)
  {
    if s != [] && s[0] != c {
      StrChrIsCString(s[1..], c);
    }
  }

  // ---- The parser inverts the canonical text ----

  /** Canonical text is accepted exactly for one to fifteen rows in range, and then yields exactly its rows. */
  lemma TextRoundTrip(rows: seq<Row>)
    ensures Accepted(Text(rows)) <==> 1 <= |rows| <= 15 && AllInRange(rows)
    ensures Accepted(Text(rows)) ==> Scan(Some(Text(rows)), MAX_ROWS).cells == RowCells(rows)
  {
    hide Scan, RowCells, RowInRange;
    if rows == [] {
      NoRowsNoMatch();
    } else {
      ScanText(rows, '(', MAX_ROWS);
      assert |rows| <= MAX_ROWS ==> rows[..|rows|] == rows;
    }
  }

  lemma NoRowsNoMatch()
    ensures Text([]) == ")" && Scan(Some(Text([])), MAX_ROWS) == Scanned(false, [])
  {
  }

  /** The documentation allows sixteen rows; the parser refuses every text of sixteen. */
  lemma SixteenRowsRefused(rows: seq<Row>)
    requires |rows| == 16 && AllInRange(rows)
    ensures Scan(Some(Text(rows)), MAX_ROWS).ok && !Accepted(Text(rows))
  {
    TextRoundTrip(rows);
    ScanText(rows, '(', MAX_ROWS);
    hide Scan;
    assert rows[..MAX_ROWS] == rows;
  }
}
