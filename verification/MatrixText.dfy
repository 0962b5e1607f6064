/** The matrix parser on arbitrary text: which rows its loop reads, and when it reads each row exactly once. */
module MatrixText {
  import opened Bytes
  import opened Options
  import opened FandCfg
  import opened StrUtils
  import opened MatrixConfig

  // ---- Positions in the whole text ----

  /** The matrix pattern occurs at position p. */
  predicate Occurs(s: string, p: nat) { MatchAt(s, p).Some? }

  function Shifted(m: Option<Match>, k: nat): Option<Match> {
    match m
    case None => None
    case Some(x) => Some(Match(x.tempFrom + k, x.tempTo + k, x.speedFrom + k, x.speedTo + k))
  }

  lemma ClosesShift(s: string, k: nat, from: nat)
    requires k <= |s|
    ensures Closes(s, k + from) <==> Closes(s[k..], from)
  {
    if Closes(s, k + from) {
      var q :| k + from <= q < |s| && (s[q] == ';' || s[q] == ')');
      assert s[k..][q - k] == s[q];
    }
    if Closes(s[k..], from) {
      var q :| from <= q < |s| - k && (s[k..][q] == ';' || s[k..][q] == ')');
      assert s[k + q] == s[k..][q];
    }
  }

  lemma SliceOfRest(s: string, k: nat, i: nat, j: nat)
    requires k + i <= k + j <= |s|
    ensures s[k..][i..j] == s[k + i..k + j]
  {
  }

  /** The pattern occurs in the rest of a text exactly where it occurs in the text. */
  lemma PatternShift(s: string, k: nat, p: nat, m: Match)
    requires k <= |s|
    ensures PatternAt(s[k..], p, m) <==>
      PatternAt(s, k + p, Match(m.tempFrom + k, m.tempTo + k, m.speedFrom + k, m.speedTo + k))
  {
    if m.tempFrom <= m.tempTo <= m.speedFrom <= m.speedTo <= |s| - k {
      SliceOfRest(s, k, m.tempFrom, m.tempTo);
      SliceOfRest(s, k, m.speedFrom, m.speedTo);
    }
    ClosesShift(s, k, m.speedTo + 1);
    assert k + (m.speedTo + 1) == m.speedTo + k + 1;
    hide Closes, AllDigits;
  }

  lemma PatternStart(s: string, p: nat, m: Match)
    requires PatternAt(s, p, m)
    ensures p <= m.tempFrom <= m.tempTo <= m.speedFrom <= m.speedTo
  {
    hide Closes, AllDigits;
  }

  /** A match in the rest of a text is a match in the text. */
  lemma MatchShift(s: string, k: nat, p: nat)
    requires k <= |s|
    ensures MatchAt(s, k + p) == Shifted(MatchAt(s[k..], p), k)
  {
    hide MatchAt, PatternAt;
    if MatchAt(s, k + p).Some? {
      MatchHasPattern(s, k + p);
      var m := MatchAt(s, k + p).value;
      PatternStart(s, k + p, m);
      var back := Match(m.tempFrom - k, m.tempTo - k, m.speedFrom - k, m.speedTo - k);
      PatternShift(s, k, p, back);
      PatternMatches(s[k..], p, back);
    }
    if MatchAt(s[k..], p).Some? {
      MatchHasPattern(s[k..], p);
      PatternShift(s, k, p, MatchAt(s[k..], p).value);
      PatternMatches(s, k + p, Shifted(MatchAt(s[k..], p), k).value);
    }
  }

  /** The leftmost position from p on at which the pattern occurs. */
  function FirstOccurrence(s: string, p: nat): (q: Option<nat>)
    requires p <= |s|
    ensures q.Some? ==> p <= q.value && q.value + 2 <= |s| && Occurs(s, q.value)
    ensures forall r | p <= r < (if q.Some? then q.value else |s| + 1) :: !Occurs(s, r)
    decreases |s| - p
  {
    if Occurs(s, p) then Some(p) else if p < |s| then FirstOccurrence(s, p + 1) else None
  }

  lemma {:induction false} SearchShift(s: string, k: nat, p: nat)
    requires k + p <= |s|
    ensures Shifted(Search(s[k..], p), k)
      == match FirstOccurrence(s, k + p) case None => None case Some(q) => MatchAt(s, q)
    decreases |s| - p
  {
    hide MatchAt;
    MatchShift(s, k, p);
    if MatchAt(s[k..], p).None? && k + p < |s| {
      SearchShift(s, k, p + 1);
      assert k + (p + 1) == k + p + 1;
    }
  }

  lemma OccurrenceBounds(s: string, p: nat)
    requires Occurs(s, p)
    ensures var m := MatchAt(s, p).value;
      && m.tempFrom < m.tempTo <= m.speedFrom < m.speedTo <= |s|
      && AllDigits(s[m.tempFrom..m.tempTo]) && AllDigits(s[m.speedFrom..m.speedTo])
  {
    MatchHasPattern(s, p);
  }

  /** The row at an occurrence, if its numbers are in range. */
  function RowAt(s: string, p: nat): Option<(Byte, Byte)>
    requires Occurs(s, p)
  {
    OccurrenceBounds(s, p);
    var m := MatchAt(s, p).value;
    var t, v := Field(s[m.tempFrom..m.tempTo], 255), Field(s[m.speedFrom..m.speedTo], 100);
    if t.None? || v.None? then None else Some((t.value, v.value))
  }

  lemma RowAtMeans(s: string, p: nat)
    requires Occurs(s, p)
    ensures MatchAt(s, p).Some?
    ensures var m := MatchAt(s, p).value;
      && m.tempFrom < m.tempTo <= m.speedFrom < m.speedTo <= |s|
      && AllDigits(s[m.tempFrom..m.tempTo]) && AllDigits(s[m.speedFrom..m.speedTo])
      && var t, v := Field(s[m.tempFrom..m.tempTo], 255), Field(s[m.speedFrom..m.speedTo], 100);
         && (t.None? || v.None? ==> RowAt(s, p).None?)
         && (t.Some? && v.Some? ==> t.value <= 255 && v.value <= 100 && RowAt(s, p) == Some((t.value, v.value)))
  {
    OccurrenceBounds(s, p);
    hide MatchAt, Number;
  }

  lemma ShiftedValue(m: Option<Match>, k: nat)
    ensures Shifted(m, k).Some? <==> m.Some?
    ensures m.Some? ==>
      var x, y := m.value, Shifted(m, k).value;
      && y.tempFrom == k + x.tempFrom && y.tempTo == k + x.tempTo
      && y.speedFrom == k + x.speedFrom && y.speedTo == k + x.speedTo
  {
  }

  /** The row the loop reads at position k is that of the leftmost occurrence from there on. */
  lemma SegmentAt(s: string, k: nat)
    requires k <= |s|
    ensures Segment(s[k..]) == match FirstOccurrence(s, k) case None => None case Some(q) => RowAt(s, q)
  {
    hide *;
    SearchShift(s, k, 0);
    var found := Search(s[k..], 0);
    ShiftedValue(found, k);
    SegmentFields(s[k..]);
    if FirstOccurrence(s, k).Some? {
      RowAtMeans(s, FirstOccurrence(s, k).value);
      SliceOfRest(s, k, found.value.tempFrom, found.value.tempTo);
      SliceOfRest(s, k, found.value.speedFrom, found.value.speedTo);
    }
  }

  /** The first separator from position j on. */
  function Separator(s: string, j: nat): (r: Option<nat>)
    requires j <= |s|
    ensures r.Some? ==> j <= r.value < |s|
    decreases |s| - j
  {
    if j == |s| then None else if s[j] == ';' then Some(j) else Separator(s, j + 1)
  }

  lemma {:induction false} StrChrAt(s: string, j: nat)
    requires j <= |s|
    ensures StrChr(s[j..], ';') == match Separator(s, j) case None => None case Some(r) => Some(s[r..])
    decreases |s| - j
  {
    if j < |s| && s[j] != ';' {
      StrChrAt(s, j + 1);
      assert s[j..][1..] == s[j + 1..];
    }
  }

  // ---- What the loop reads ----

  /** The separator after position k; a segment of the text ends there. */
  function Next(s: string, k: nat): (r: Option<nat>)
    requires k <= |s|
    ensures r.Some? ==> k < r.value < |s|
  {
    if k == |s| then None else Separator(s, k + 1)
  }

  /** The segments from position k on: the text up to the first separator, and one for each separator. */
  function SegmentCount(s: string, k: nat): nat
    requires k <= |s|
    decreases |s| - k
  {
    1 + if Next(s, k).None? then 0 else SegmentCount(s, Next(s, k).value)
  }

  /** The positions of the occurrences the loop reads, one for each segment until it finds none. */
  function Picked(s: string, k: nat, left: nat): seq<nat>
    requires k <= |s|
    decreases left
  {
    if left == 0 || FirstOccurrence(s, k).None? then []
    else
      [FirstOccurrence(s, k).value] + if Next(s, k).None? then [] else Picked(s, Next(s, k).value, left - 1)
  }

  predicate RowsInRange(s: string, positions: seq<nat>) {
    forall i | 0 <= i < |positions| :: Occurs(s, positions[i]) && RowAt(s, positions[i]).Some?
  }

  /** The cells of the rows at some positions. */
  function CellsAt(s: string, positions: seq<nat>): seq<Byte>
    requires RowsInRange(s, positions)
  {
    if positions == [] then []
    else
      var (t, v) := RowAt(s, positions[0]).value;
      [t, v] + CellsAt(s, positions[1..])
  }

  lemma PickedStep(s: string, k: nat, left: nat)
    requires k <= |s| && left > 0
    ensures FirstOccurrence(s, k).None? ==> Picked(s, k, left) == []
    ensures FirstOccurrence(s, k).Some? ==>
      Picked(s, k, left) == [FirstOccurrence(s, k).value]
        + if Next(s, k).None? then [] else Picked(s, Next(s, k).value, left - 1)
    ensures SegmentCount(s, k) == 1 + if Next(s, k).None? then 0 else SegmentCount(s, Next(s, k).value)
  {
    hide FirstOccurrence, Next;
  }

  lemma CellsStep(s: string, q: nat, rest: seq<nat>)
    requires Occurs(s, q)
    ensures RowsInRange(s, [q] + rest) <==> RowAt(s, q).Some? && RowsInRange(s, rest)
    ensures RowsInRange(s, [q] + rest) ==>
      CellsAt(s, [q] + rest) == [RowAt(s, q).value.0, RowAt(s, q).value.1] + CellsAt(s, rest)
  {
    hide RowAt, Occurs;
    var all := [q] + rest;
    assert all[1..] == rest;
    if RowsInRange(s, all) {
      assert Occurs(s, all[0]) && RowAt(s, all[0]).Some?;
      forall i | 0 <= i < |rest|
        ensures Occurs(s, rest[i]) && RowAt(s, rest[i]).Some?
      {
        assert rest[i] == all[i + 1];
      }
    }
  }

  lemma NothingPicked(s: string)
    ensures RowsInRange(s, []) && CellsAt(s, []) == []
  {
  }

  /** One turn of the row loop at position k. */
  lemma ScanAt(s: string, k: nat, left: nat)
    requires k <= |s| && left > 0
    ensures Segment(s[k..]).None? ==> Scan(Some(s[k..]), left) == Scanned(false, [])
    ensures Segment(s[k..]).Some? ==>
      var row, rest := Segment(s[k..]).value,
        Scan(if Next(s, k).None? then None else Some(s[Next(s, k).value..]), left - 1);
      Scan(Some(s[k..]), left) == Scanned(rest.ok, [row.0, row.1] + rest.cells)
  {
    if k == |s| {
      assert s[k..] == [];
      EmptyNoMatch();
      SegmentFields([]);
    } else {
      StrChrAt(s, k + 1);
      assert s[k..][1..] == s[k + 1..];
      ScanStep(s[k..], left);
    }
    hide Search, Segment, StrChr, Separator;
  }

  /**
    * On any text whose segments the loop can all visit, it ends without an error exactly when every segment has an
    * occurrence at or after it and the rows it picks are in range; it then stores the rows it picked.
    */
  lemma {:induction false} LoopReads(s: string, k: nat, left: nat)
    requires k <= |s| && SegmentCount(s, k) <= left
    ensures var r, picked := Scan(Some(s[k..]), left), Picked(s, k, left);
      && (r.ok <==> |picked| == SegmentCount(s, k) && RowsInRange(s, picked))
      && (r.ok ==> r.cells == CellsAt(s, picked))
    decreases left
  {
    hide *;
    SegmentAt(s, k);
    CountPositive(s, k);
    ScanAt(s, k, left);
    PickedStep(s, k, left);
    if FirstOccurrence(s, k).Some? {
      var q := FirstOccurrence(s, k).value;
      if Next(s, k).None? {
        CellsStep(s, q, []);
        NothingPicked(s);
        NoRows(None, left - 1);
        assert [q] + [] == [q];
      } else {
        LoopReads(s, Next(s, k).value, left - 1);
        CellsStep(s, q, Picked(s, Next(s, k).value, left - 1));
      }
    }
  }

  lemma CountPositive(s: string, k: nat)
    requires k <= |s|
    ensures SegmentCount(s, k) > 0
  {
    hide Next;
  }

  // ---- Each row of the text exactly once ----

  /** All positions in [from, end) at which the pattern occurs, in order. */
  function Occurrences(s: string, from: nat, end: nat): (ps: seq<nat>)
    ensures forall i | 0 <= i < |ps| :: from <= ps[i] < end
    decreases end - from
  {
    if from >= end then [] else (if Occurs(s, from) then [from] else []) + Occurrences(s, from + 1, end)
  }

  lemma {:induction false} OccurrencesSplit(s: string, from: nat, mid: nat, end: nat)
    requires from <= mid <= end
    ensures Occurrences(s, from, end) == Occurrences(s, from, mid) + Occurrences(s, mid, end)
    decreases mid - from
  {
    hide Occurs;
    if from < mid {
      OccurrencesSplit(s, from + 1, mid, end);
    }
  }

  lemma {:induction false} NoOccurrences(s: string, from: nat, end: nat)
    requires forall r | from <= r < end :: !Occurs(s, r)
    ensures Occurrences(s, from, end) == []
    decreases end - from
  {
    hide Occurs;
    if from < end {
      NoOccurrences(s, from + 1, end);
    }
  }

  /** The occurrences before `end`, from the leftmost one on. */
  lemma FirstOfOccurrences(s: string, k: nat, end: nat)
    requires k <= end <= |s| && FirstOccurrence(s, k).Some?
    ensures var q := FirstOccurrence(s, k).value;
      Occurrences(s, k, end) == if q < end then [q] + Occurrences(s, q + 1, end) else []
  {
    var q := FirstOccurrence(s, k).value;
    hide FirstOccurrence, Occurs;
    if q < end {
      NoOccurrences(s, k, q);
      OccurrencesSplit(s, k, q, end);
    } else {
      NoOccurrences(s, k, end);
    }
  }

  /** In every segment from position k on, the pattern occurs exactly once. */
  ghost predicate OneEach(s: string, k: nat)
    requires k <= |s|
    decreases |s| - k
  {
    match Next(s, k)
    case None => |Occurrences(s, k, |s|)| == 1
    case Some(j) => |Occurrences(s, k, j)| == 1 && OneEach(s, j)
  }

  lemma OneEachMeans(s: string, k: nat)
    requires k <= |s|
    ensures OneEach(s, k) <==>
      if Next(s, k).None? then |Occurrences(s, k, |s|)| == 1
      else |Occurrences(s, k, Next(s, k).value)| == 1 && OneEach(s, Next(s, k).value)
  {
    hide Next, Occurrences;
  }

  lemma FirstBefore(s: string, k: nat)
    requires k <= |s| && FirstOccurrence(s, k).Some?
    ensures FirstOccurrence(s, k).value < |s|
  {
    hide Occurs;
  }

  lemma FirstAfter(s: string, k: nat)
    requires k <= |s|
    ensures FirstOccurrence(s, k).Some? ==> FirstOccurrence(s, k).value >= k
  {
    hide Occurs;
  }

  lemma SameFirst(s: string, k: nat, j: nat)
    requires k <= j <= |s| && FirstOccurrence(s, k).Some? && FirstOccurrence(s, k).value >= j
    ensures FirstOccurrence(s, j) == FirstOccurrence(s, k)
  {
    hide Occurs;
  }

  lemma NotRepeated(q: nat, picked: seq<nat>, rest: seq<nat>)
    requires picked != [] && picked[0] == q && forall i | 0 <= i < |rest| :: q < rest[i]
    ensures [q] + picked != [q] + rest
  {
    assert ([q] + picked)[1] == q;
    assert rest != [] ==> ([q] + rest)[1] == rest[0];
  }

  /** With one segment. */
  lemma OnlySegment(s: string, k: nat)
    requires k <= |s| && FirstOccurrence(s, k).Some?
    ensures [FirstOccurrence(s, k).value] + [] == Occurrences(s, k, |s|) <==> |Occurrences(s, k, |s|)| == 1
  {
    FirstOfOccurrences(s, k, |s|);
    FirstBefore(s, k);
    hide *;
  }

  lemma SplitAt(q: nat, picked: seq<nat>, rest: seq<nat>, tail: seq<nat>, j: nat)
    requires picked != [] && picked[0] >= j && forall i | 0 <= i < |rest| :: rest[i] < j
    ensures [q] + picked == [q] + rest + tail <==> rest == [] && picked == tail
  {
    assert ([q] + picked)[1] == picked[0];
    assert rest != [] ==> ([q] + rest + tail)[1] == rest[0];
    assert rest == [] ==> [q] + rest + tail == [q] + tail;
    assert ([q] + picked)[1..] == picked && ([q] + tail)[1..] == tail;
  }

  lemma OccurrencesBelow(s: string, from: nat, end: nat)
    ensures forall i | 0 <= i < |Occurrences(s, from, end)| :: from <= Occurrences(s, from, end)[i] < end
  {
    hide Occurs;
  }

  /** With two segments or more: what the picked positions being all occurrences says about the first segment. */
  lemma FirstSegment(s: string, k: nat, j: nat, picked: seq<nat>)
    requires k < j <= |s| && FirstOccurrence(s, k).Some? && FirstOccurrence(s, j).Some?
    requires picked != [] && picked[0] == FirstOccurrence(s, j).value >= j
    ensures [FirstOccurrence(s, k).value] + picked == Occurrences(s, k, |s|) <==>
      |Occurrences(s, k, j)| == 1 && picked == Occurrences(s, j, |s|)
  {
    hide *;
    var q := FirstOccurrence(s, k).value;
    OccurrencesSplit(s, k, j, |s|);
    FirstOfOccurrences(s, k, j);
    if q >= j {
      SameFirst(s, k, j);
      FirstOfOccurrences(s, j, |s|);
      FirstBefore(s, j);
      OccurrencesBelow(s, q + 1, |s|);
      NotRepeated(q, picked, Occurrences(s, q + 1, |s|));
      assert [] + Occurrences(s, j, |s|) == Occurrences(s, j, |s|);
    } else {
      OccurrencesBelow(s, q + 1, j);
      SplitAt(q, picked, Occurrences(s, q + 1, j), Occurrences(s, j, |s|), j);
    }
  }

  lemma {:induction false} PickedExactly(s: string, k: nat, left: nat)
    requires k <= |s| && SegmentCount(s, k) <= left && |Picked(s, k, left)| == SegmentCount(s, k)
    ensures Picked(s, k, left) == Occurrences(s, k, |s|) <==> OneEach(s, k)
    decreases left
  {
    hide *;
    CountPositive(s, k);
    PickedStep(s, k, left);
    OneEachMeans(s, k);
    if Next(s, k).None? {
      OnlySegment(s, k);
    } else {
      var j := Next(s, k).value;
      CountPositive(s, j);
      PickedStep(s, j, left - 1);
      FirstAfter(s, j);
      FirstSegment(s, k, j, Picked(s, j, left - 1));
      PickedExactly(s, j, left - 1);
    }
  }

  /** On a text that is accepted the loop has visited every segment. */
  lemma {:induction false} AcceptedVisitsAll(s: string, k: nat, left: nat)
    requires k <= |s|
    requires var r := Scan(Some(s[k..]), left); r.ok && |r.cells| < 2 * left
    ensures SegmentCount(s, k) <= left
    decreases left
  {
    hide *;
    ScanAt(s, k, left);
    PickedStep(s, k, left);
    if Next(s, k).Some? {
      AcceptedVisitsAll(s, Next(s, k).value, left - 1);
    }
  }

  /**
    * On every text that is accepted, the row of every occurrence of the pattern is stored exactly once and in order if
    * and only if the pattern occurs exactly once in each segment.
    */
  lemma EachRowOnce(s: string)
    requires Accepted(s)
    ensures var picked := Picked(s, 0, MAX_ROWS);
      && RowsInRange(s, picked) && Scan(Some(s), MAX_ROWS).cells == CellsAt(s, picked)
      && (picked == Occurrences(s, 0, |s|) <==> OneEach(s, 0))
  {
    hide Scan;
    assert s[0..] == s;
    AcceptedVisitsAll(s, 0, MAX_ROWS);
    LoopReads(s, 0, MAX_ROWS);
    PickedExactly(s, 0, MAX_ROWS);
  }

  /** Texts are accepted that have fewer than sixteen segments, an occurrence from each on, and picked rows in range. */
  lemma AcceptedExactly(s: string)
    ensures Accepted(s) <==>
      && SegmentCount(s, 0) < MAX_ROWS
      && |Picked(s, 0, MAX_ROWS)| == SegmentCount(s, 0) && RowsInRange(s, Picked(s, 0, MAX_ROWS))
  {
    assert s[0..] == s;
    hide Scan, RowsInRange, Picked, SegmentCount;
    if Accepted(s) {
      AcceptedVisitsAll(s, 0, MAX_ROWS);
    }
    if SegmentCount(s, 0) <= MAX_ROWS {
      LoopReads(s, 0, MAX_ROWS);
      if RowsInRange(s, Picked(s, 0, MAX_ROWS)) {
        CellsLength(s, Picked(s, 0, MAX_ROWS));
      }
    }
  }

  lemma {:induction false} CellsLength(s: string, positions: seq<nat>)
    requires RowsInRange(s, positions)
    ensures |CellsAt(s, positions)| == 2 * |positions|
  {
    hide RowAt;
    if positions != [] {
      CellsLength(s, positions[1..]);
    }
  }

  // ---- A text that is read twice in part ----

  /** A segment in which no row starts yields the row of the next one. */
  lemma EmptySegment(rest: string)
    requires rest != [] && rest[0] == ';'
    ensures Segment([';'] + rest) == Segment(rest)
    ensures StrChr(([';'] + rest)[1..], ';') == Some(rest)
  {
    var s := [';'] + rest;
    assert s[0..] == s && s[1..] == rest;
    SegmentAt(s, 0);
    SegmentAt(s, 1);
    assert !Occurs(s, 0);
    assert FirstOccurrence(s, 0) == FirstOccurrence(s, 1);
    hide Segment;
  }

  lemma SkipsCell(cell: string, rest: string)
    requires cell != [] && ';' !in cell[1..] && rest != [] && rest[0] == ';'
    ensures StrChr((cell + rest)[1..], ';') == Some(rest)
  {
    assert (cell + rest)[1..] == cell[1..] + rest;
    StrChrSkips(cell[1..], rest, ';');
  }

  /** A row in front of any text that goes on with a separator and closes. */
  lemma RowInFront(lead: char, r: Row, rest: string)
    requires (lead == '(' || lead == ';') && r.temp <= 255 && r.speed <= 100
    requires rest != [] && rest[0] == ';' && rest[|rest| - 1] == ')'
    ensures var s := CellText(lead, r) + rest;
      s != [] && Segment(s) == Some((r.temp, r.speed)) && StrChr(s[1..], ';') == Some(rest)
  {
    hide *;
    CellMatches(lead, r, rest);
    FieldOfDecimal(r.temp, 255);
    FieldOfDecimal(r.speed, 100);
    CellHasNoSeparator(lead, r);
    SegmentFound(CellText(lead, r) + rest, MatchAt(CellText(lead, r) + rest, 0).value);
    SkipsCell(CellText(lead, r), rest);
  }

  lemma TextLead(rows: seq<Row>, lead: char)
    requires rows != []
    ensures Segments(rows, lead) != [] && Segments(rows, lead)[0] == lead
  {
    hide Decimal;
  }

  lemma OneRow(r: Row)
    requires RowInRange(r)
    ensures AllInRange([r]) && RowCells([r]) == [r.temp as int, r.speed]
  {
    assert [r][1..] == [];
  }

  /** Two separators in a row, which a blank line inside the matrix leaves, duplicate the row after them. */
  lemma DoubledSeparator(first: Row, rows: seq<Row>, left: nat)
    requires rows != [] && RowInRange(first) && AllInRange(rows) && |rows| + 2 <= left
    ensures AllInRange([first]) && AllInRange([rows[0]])
    ensures Scan(Some(CellText('(', first) + ([';'] + Segments(rows, ';'))), left)
      == Scanned(true, RowCells([first]) + RowCells([rows[0]]) + RowCells(rows))
  {
    hide Scan, Segment, Segments, CellText, StrChr, RowCells;
    OneRow(first);
    OneRow(rows[0]);
    var tail := Segments(rows, ';');
    var mid := [';'] + tail;
    var text := CellText('(', first) + mid;
    TextLead(rows, ';');
    SegmentsClose(rows, ';');
    RowInFront('(', first, mid);
    EmptySegment(tail);
    SegmentOfText(rows, ';');
    ScanStep(text, left);
    ScanStep(mid, left - 1);
    ScanText(rows, ';', left - 2);
    assert rows[..|rows|] == rows;
    var one, two, all := RowCells([first]), RowCells([rows[0]]), RowCells(rows);
    assert one + (two + all) == one + two + all;
  }

  lemma TwoDigits(tens: nat, ones: nat)
    requires 0 < tens < 10 && ones < 10
    ensures Decimal(10 * tens + ones) == [Digit(tens), Digit(ones)] && Decimal(ones) == [Digit(ones)]
  {
    assert (10 * tens + ones) / 10 == tens;
  }

  lemma CellMeans(lead: char, r: Row, t: string, p: string)
    requires Decimal(r.temp) == t && Decimal(r.speed) == p
    ensures CellText(lead, r) == [lead, '\''] + t + "::" + p + "'"
  {
    hide Decimal;
  }

  lemma FirstCell()
    ensures CellText('(', Row(50, 0)) == "('50::0'"
  {
    TwoDigits(5, 0);
    CellMeans('(', Row(50, 0), "50", "0");
    hide *;
    assert ['(', '\''] + "50" + "::" + "0" + "'" == "('50::0'";
  }

  lemma LastSegment()
    ensures Segments([Row(70, 80)], ';') == ";'70::80')"
  {
    TwoDigits(7, 0);
    TwoDigits(8, 0);
    CellMeans(';', Row(70, 80), "70", "80");
    SegmentsFront([Row(70, 80)], ';');
    assert [Row(70, 80)][1..] == [] && Segments([], ';') == ")";
    hide *;
    assert [';', '\''] + "70" + "::" + "80" + "'" + ")" == ";'70::80')";
  }

  lemma BlankLineText()
    ensures CellText('(', Row(50, 0)) + ([';'] + Segments([Row(70, 80)], ';')) == "('50::0';;'70::80')"
  {
    hide *;
    FirstCell();
    LastSegment();
    assert [';'] + ";'70::80')" == ";;'70::80')";
  }

  lemma SixCells()
    ensures [50, 0] + [70, 80] + [70, 80] == [50, 0, 70, 80, 70, 80]
  {
  }

  /** A matrix of two rows with a blank line between them is stored as three rows. */
  lemma BlankLineStored(text: string)
    requires text == "('50::0';;'70::80')"
    ensures Scan(Some(text), MAX_ROWS) == Scanned(true, [50, 0, 70, 80, 70, 80])
  {
    assert RowInRange(Row(50, 0)) && RowInRange(Row(70, 80)) && MAX_ROWS == 16;
    hide *;
    SixCells();
    BlankLineText();
    OneRow(Row(50, 0));
    OneRow(Row(70, 80));
    DoubledSeparator(Row(50, 0), [Row(70, 80)], MAX_ROWS);
  }
}
