/**
 What the log reader makes of any log, written by this program or not: the lines of a text as it is ended by
 line breaks, and the record each line spells.
 */
module JsonlReading {
  import opened Basics
  import opened Json
  import opened JsonRoundTrip
  import opened JsonSpelling
  import opened Jsonl

  // ----- Rows -----

  /** A line and the break that ends it. */
  datatype Row = Row(line: string, end: string)

  predicate Unbroken(line: string) {
    forall c :: c in line ==> c != '\n' && c != '\r'
  }

  predicate IsBreak(end: string) {
    end == ['\n'] || end == ['\r'] || end == ['\r', '\n']
  }

  predicate RowFits(row: Row) {
    Unbroken(row.line) && IsBreak(row.end)
  }

  /** A carriage return ends a line alone unless a newline follows it. */
  predicate Apart(row: Row, next: Row) {
    !(row.end == ['\r'] && next == Row("", ['\n']))
  }

  function RowsText(rows: seq<Row>): string {
    if rows == [] then "" else rows[0].line + (rows[0].end + RowsText(rows[1..]))
  }

  ghost predicate RowsFit(rows: seq<Row>)
    decreases |rows|
  {
    rows != [] ==> RowFits(rows[0]) && (|rows| > 1 ==> Apart(rows[0], rows[1])) && RowsFit(rows[1..])
  }

  /** The text is those rows, one after the other. */
  ghost predicate Rows(content: string, rows: seq<Row>) {
    RowsFit(rows) && content == RowsText(rows)
  }

  /** Nothing is left of a line that was not ended by a newline. */
  predicate Complete(content: string) {
    content != "" ==> content[|content| - 1] == '\n'
  }

  function Lines(rows: seq<Row>): (r: seq<string>)
    ensures |r| == |rows| && forall i :: 0 <= i < |r| ==> r[i] == rows[i].line
  {
    if rows == [] then [] else [rows[0].line] + Lines(rows[1..])
  }

  // ----- Splitting -----

  lemma {:induction false} EndOfLine(line: string, rest: string)
    requires Unbroken(line) && rest != "" && LineBreak(rest[0])
    ensures LineEnd(line + rest) == |line|
  {
    if line != "" {
      assert line[0] in line && forall c :: c in line[1..] ==> c in line;
      assert (line + rest)[1..] == line[1..] + rest;
      EndOfLine(line[1..], rest);
    } else {
      assert line + rest == rest;
    }
  }

  lemma BreakTaken(end: string, rest: string, s: string)
    requires IsBreak(end) && s == end + rest && (end == ['\r'] ==> rest == "" || rest[0] != '\n')
    ensures s != "" && LineBreak(s[0]) && BreakLength(s) == |end|
  {
  }

  lemma FirstOfRows(rows: seq<Row>)
    requires RowsFit(rows) && rows != []
    ensures RowsText(rows) != "" && (RowsText(rows)[0] == '\n' ==> rows[0] == Row("", ['\n']))
  {
    var line, rest := rows[0].line, rows[0].end + RowsText(rows[1..]);
    if line != "" { assert line[0] in line && RowsText(rows)[0] == line[0]; }
  }

  lemma SplitFront(s: string, line: string, end: string, rest: string)
    requires Unbroken(line) && IsBreak(end) && (end == ['\r'] ==> rest == "" || rest[0] != '\n')
    requires s == line + (end + rest)
    ensures SplitLines(s) == [line] + SplitLines(rest)
  {
    BreakTaken(end, rest, end + rest);
    EndOfLine(line, end + rest);
    assert s[|line|..] == end + rest && s[..|line|] == line && s[|line| + |end|..] == rest;
  }

  /** The text of rows splits into their lines. */
  lemma {:induction false} RowsSplit(rows: seq<Row>)
    requires RowsFit(rows)
    ensures SplitLines(RowsText(rows)) == Lines(rows)
    decreases |rows|
  {
    if rows != [] {
      RowsSplit(rows[1..]);
      if |rows| > 1 { FirstOfRows(rows[1..]); }
      SplitFront(RowsText(rows), rows[0].line, rows[0].end, RowsText(rows[1..]));
    }
  }

  lemma TakeBreak(s: string) returns (end: string, rest: string)
    requires s != "" && LineBreak(s[0]) && Complete(s)
    ensures s == end + rest && IsBreak(end) && Complete(rest) && (end == ['\r'] ==> rest != "" && rest[0] != '\n')
  {
    var k := BreakLength(s);
    end, rest := s[..k], s[k..];
    if rest != "" { assert rest[|rest| - 1] == s[|s| - 1]; }
    if k == 2 { assert end == ['\r', '\n']; } else { assert end == [s[0]]; }
  }

  lemma TakeLine(s: string) returns (line: string, end: string, rest: string)
    requires s != "" && Complete(s)
    ensures s == line + (end + rest) && Unbroken(line) && IsBreak(end) && Complete(rest)
    ensures end == ['\r'] ==> rest != "" && rest[0] != '\n'
  {
    var e := LineEnd(s);
    line := s[..e];
    assert s[|s| - 1] == '\n';
    assert e < |s|;
    assert s[e..][|s[e..]| - 1] == s[|s| - 1];
    end, rest := TakeBreak(s[e..]);
  }

  /** Every complete text is made of rows. */
  lemma {:induction false} RowsOf(content: string) returns (rows: seq<Row>)
    requires Complete(content)
    ensures Rows(content, rows)
    decreases |content|
  {
    rows := [];
    if content != "" {
      var line, end, rest := TakeLine(content);
      var tail := RowsOf(rest);
      rows := [Row(line, end)] + tail;
      assert rows[1..] == tail;
      if tail != [] { FirstOfRows(tail); }
    }
  }

  // ----- Records -----

  /** The line spells the record, without repeated keys, and the model accepts it. */
  ghost predicate RecordOn(line: string, v: Json, accepts: Json -> bool, toFloat: FloatOf) {
    Spells(line, v, toFloat) && Dicts(v) && accepts(v)
  }

  ghost predicate HasRecord(line: string, accepts: Json -> bool, toFloat: FloatOf) {
    exists v :: RecordOn(line, v, accepts, toFloat)
  }

  lemma LineExactly(line: string, v: Json, accepts: Json -> bool, toFloat: FloatOf)
    ensures ReadLine(line, accepts, toFloat) == Some(v) <==> RecordOn(line, v, accepts, toFloat)
  {
    LoadExactly(line, v, Reader(false, toFloat));
  }

  lemma NoRecord(line: string, accepts: Json -> bool, toFloat: FloatOf)
    ensures ReadLine(line, accepts, toFloat).None? <==> !HasRecord(line, accepts, toFloat)
  {
    match ReadLine(line, accepts, toFloat)
    case Some(v) => LineExactly(line, v, accepts, toFloat);
    case None =>
      if HasRecord(line, accepts, toFloat) {
        var v :| RecordOn(line, v, accepts, toFloat);
        LineExactly(line, v, accepts, toFloat);
      }
  }

  lemma NothingOnEmpty(accepts: Json -> bool, toFloat: FloatOf)
    ensures !HasRecord("", accepts, toFloat)
  {
    NoRecord("", accepts, toFloat);
  }

  /** The first line without a record. */
  ghost predicate FirstWithout(lines: seq<string>, i: int, accepts: Json -> bool, toFloat: FloatOf) {
    0 <= i < |lines| && !HasRecord(lines[i], accepts, toFloat) &&
    forall j :: 0 <= j < i ==> HasRecord(lines[j], accepts, toFloat)
  }

  ghost predicate AllOn(lines: seq<string>, records: seq<Json>, accepts: Json -> bool, toFloat: FloatOf) {
    |records| == |lines| && forall i :: 0 <= i < |lines| ==> RecordOn(lines[i], records[i], accepts, toFloat)
  }

  ghost predicate Stuck(lines: seq<string>, empty: bool, accepts: Json -> bool, toFloat: FloatOf) {
    exists i :: FirstWithout(lines, i, accepts, toFloat) && (lines[i] == "" <==> empty)
  }

  /** What reading the lines comes to. */
  ghost predicate Comes(r: Reading, lines: seq<string>, accepts: Json -> bool, toFloat: FloatOf) {
    match r
    case Records(records) => AllOn(lines, records, accepts, toFloat)
    case Refused(EmptyLine) => Stuck(lines, true, accepts, toFloat)
    case Refused(InvalidLine) => Stuck(lines, false, accepts, toFloat)
    case Refused(PartialLine) => false
  }

  lemma StuckLonger(front: seq<string>, line: string, empty: bool, accepts: Json -> bool, toFloat: FloatOf)
    requires Stuck(front, empty, accepts, toFloat)
    ensures Stuck(front + [line], empty, accepts, toFloat)
  {
    var i :| FirstWithout(front, i, accepts, toFloat) && (front[i] == "" <==> empty);
    assert FirstWithout(front + [line], i, accepts, toFloat);
  }

  lemma StuckAtLast(front: seq<string>, line: string, records: seq<Json>, accepts: Json -> bool, toFloat: FloatOf)
    requires AllOn(front, records, accepts, toFloat) && !HasRecord(line, accepts, toFloat)
    ensures Stuck(front + [line], line == "", accepts, toFloat)
  {
    forall j | 0 <= j < |front| ensures HasRecord((front + [line])[j], accepts, toFloat) {
      assert RecordOn(front[j], records[j], accepts, toFloat);
    }
    assert FirstWithout(front + [line], |front|, accepts, toFloat);
  }

  lemma {:induction false} LinesRead(lines: seq<string>, accepts: Json -> bool, toFloat: FloatOf)
    ensures Comes(ReadLines(lines, accepts, toFloat), lines, accepts, toFloat)
    decreases |lines|
  {
    if lines != [] {
      var front, line := lines[..|lines| - 1], lines[|lines| - 1];
      assert lines == front + [line];
      LinesRead(front, accepts, toFloat);
      match ReadLines(front, accepts, toFloat)
      case Refused(reason) => StuckLonger(front, line, reason == EmptyLine, accepts, toFloat);
      case Records(records) =>
        NothingOnEmpty(accepts, toFloat);
        NoRecord(line, accepts, toFloat);
        match ReadLine(line, accepts, toFloat)
        case None => StuckAtLast(front, line, records, accepts, toFloat);
        case Some(v) => LineExactly(line, v, accepts, toFloat);
    }
  }

  lemma RecordUnique(line: string, v: Json, w: Json, accepts: Json -> bool, toFloat: FloatOf)
    requires RecordOn(line, v, accepts, toFloat) && RecordOn(line, w, accepts, toFloat)
    ensures v == w
  {
    LineExactly(line, v, accepts, toFloat);
    LineExactly(line, w, accepts, toFloat);
  }

  lemma RecordsUnique(lines: seq<string>, vs: seq<Json>, ws: seq<Json>, accepts: Json -> bool, toFloat: FloatOf)
    requires AllOn(lines, vs, accepts, toFloat) && AllOn(lines, ws, accepts, toFloat)
    ensures vs == ws
  {
    forall i | 0 <= i < |lines| ensures vs[i] == ws[i] {
      RecordUnique(lines[i], vs[i], ws[i], accepts, toFloat);
    }
  }

  lemma HereIsOne(lines: seq<string>, records: seq<Json>, i: int, accepts: Json -> bool, toFloat: FloatOf)
    requires AllOn(lines, records, accepts, toFloat) && 0 <= i < |lines|
    ensures HasRecord(lines[i], accepts, toFloat)
  {
    assert RecordOn(lines[i], records[i], accepts, toFloat);
  }

  lemma FirstIsOne(lines: seq<string>, i: int, k: int, accepts: Json -> bool, toFloat: FloatOf)
    requires FirstWithout(lines, i, accepts, toFloat) && FirstWithout(lines, k, accepts, toFloat)
    ensures i == k
  {
  }

  lemma StuckOnce(lines: seq<string>, empty: bool, accepts: Json -> bool, toFloat: FloatOf)
    requires Stuck(lines, empty, accepts, toFloat)
    ensures !Stuck(lines, !empty, accepts, toFloat)
    ensures forall records :: !AllOn(lines, records, accepts, toFloat)
  {
    var i :| FirstWithout(lines, i, accepts, toFloat) && (lines[i] == "" <==> empty);
    forall k | FirstWithout(lines, k, accepts, toFloat) ensures k == i { FirstIsOne(lines, k, i, accepts, toFloat); }
    forall records ensures !AllOn(lines, records, accepts, toFloat) {
      if AllOn(lines, records, accepts, toFloat) { HereIsOne(lines, records, i, accepts, toFloat); }
    }
  }

  lemma ComesOnce(q: Reading, r: Reading, lines: seq<string>, accepts: Json -> bool, toFloat: FloatOf)
    requires Comes(q, lines, accepts, toFloat) && Comes(r, lines, accepts, toFloat)
    ensures q == r
  {
    if q.Refused? {
      StuckOnce(lines, q.reason == EmptyLine, accepts, toFloat);
    } else if r.Refused? {
      StuckOnce(lines, r.reason == EmptyLine, accepts, toFloat);
    } else {
      RecordsUnique(lines, q.records, r.records, accepts, toFloat);
    }
  }

  /** What reading a log comes to, by its rows. */
  ghost predicate Reads(content: string, r: Reading, accepts: Json -> bool, toFloat: FloatOf) {
    if Complete(content) then exists rows :: Rows(content, rows) && Comes(r, Lines(rows), accepts, toFloat)
    else r == Refused(PartialLine)
  }

  /**
   A log that does not end with a newline is refused as partial. Any other is read as the records its lines
   spell, or refused for the first line that spells none: as empty or as invalid.
   */
  lemma LogExactly(content: string, r: Reading, accepts: Json -> bool, toFloat: FloatOf)
    ensures ReadLog(content, accepts, toFloat) == r <==> Reads(content, r, accepts, toFloat)
  {
    if Complete(content) {
      var rows := RowsOf(content);
      RowsSplit(rows);
      LinesRead(Lines(rows), accepts, toFloat);
      if Reads(content, r, accepts, toFloat) {
        var others :| Rows(content, others) && Comes(r, Lines(others), accepts, toFloat);
        RowsSplit(others);
        ComesOnce(ReadLog(content, accepts, toFloat), r, Lines(rows), accepts, toFloat);
      }
    }
  }
}
