/**
 JSON Lines logs: one canonical JSON text per line. The texts are printable ASCII, so the bytes of a
 log are its characters.
 */
module Jsonl {
  import opened Basics
  import opened Json
  import opened JsonCanonical
  import opened JsonRoundTrip
  import opened JsonText

  // ----- Writing -----

  /** One record on its line. */
  function Line(record: Json): string {
    Canonical(record)
  }

  /** `_serialize_jsonl` of finite records. */
  function Log(records: seq<Json>): string {
    if records == [] then "" else Log(records[..|records| - 1]) + Line(records[|records| - 1])
  }

  method SerializeJsonl(records: seq<Json>) returns (r: Option<string>)
    ensures r.Some? <==> forall x :: x in records ==> Finite(x)
    ensures r.Some? ==> r.value == Log(records)
  {
    var lines := "";
    for i := 0 to |records|
      invariant lines == Log(records[..i]) && forall x :: x in records[..i] ==> Finite(x)
    {
      assert records[..i + 1][..i] == records[..i] && records[..i + 1] == records[..i] + [records[i]];
      if !Finite(records[i]) {
        assert records[i] in records;
        return None;
      }
      lines := lines + Line(records[i]);
    }
    assert records[..|records|] == records;
    return Some(lines);
  }

  // ----- Reading -----

  predicate LineBreak(c: char) { c == '\n' || c == '\r' }

  /** Where the first line of `s` ends. */
  function LineEnd(s: string): (e: nat)
    ensures e <= |s| && (e < |s| ==> LineBreak(s[e])) && forall i :: 0 <= i < e ==> !LineBreak(s[i])
  {
    if s == "" || LineBreak(s[0]) then 0 else 1 + LineEnd(s[1..])
  }

  /** How many characters the break at the front of `s` takes: a carriage return and a newline count as one break. */
  function BreakLength(s: string): (n: nat)
    requires s != ""
    ensures 1 <= n <= |s|
  {
    if |s| >= 2 && s[0] == '\r' && s[1] == '\n' then 2 else 1
  }

  /** `bytes.splitlines`. */
  function SplitLines(s: string): seq<string>
    decreases |s|
  {
    if s == "" then []
    else
      var e := LineEnd(s);
      if e == |s| then [s] else [s[..e]] + SplitLines(s[e + BreakLength(s[e..])..])
  }

  /** The record on one line, when it parses without repeated keys and the model accepts it. */
  function ReadLine(line: string, accepts: Json -> bool, toFloat: FloatOf): Option<Json> {
    match Load(line, Reader(false, toFloat))
    case None => None
    case Some(v) => if Dicts(v) && accepts(v) then Some(v) else None
  }

  datatype Refusal = PartialLine | EmptyLine | InvalidLine

  datatype Reading = Records(records: seq<Json>) | Refused(reason: Refusal)

  /** The records of the lines, or the first line that is refused. */
  function ReadLines(lines: seq<string>, accepts: Json -> bool, toFloat: FloatOf): Reading {
    if lines == [] then Records([])
    else
      var front, line := lines[..|lines| - 1], lines[|lines| - 1];
      match ReadLines(front, accepts, toFloat)
      case Refused(reason) => Refused(reason)
      case Records(records) =>
        if line == "" then Refused(EmptyLine)
        else
          match ReadLine(line, accepts, toFloat)
          case None => Refused(InvalidLine)
          case Some(v) => Records(records + [v])
  }

  /** `_read_jsonl_models`. */
  function ReadLog(content: string, accepts: Json -> bool, toFloat: FloatOf): Reading {
    if content != "" && content[|content| - 1] != '\n' then Refused(PartialLine)
    else ReadLines(SplitLines(content), accepts, toFloat)
  }

  lemma {:induction false} RefusedPrefix(lines: seq<string>, n: nat, accepts: Json -> bool, toFloat: FloatOf)
    requires n <= |lines| && ReadLines(lines[..n], accepts, toFloat).Refused?
    ensures ReadLines(lines, accepts, toFloat) == ReadLines(lines[..n], accepts, toFloat)
  {
    if n < |lines| {
      assert lines[..|lines| - 1][..n] == lines[..n];
      RefusedPrefix(lines[..|lines| - 1], n, accepts, toFloat);
    } else {
      assert lines[..n] == lines;
    }
  }

  /** The reader's loop over the lines. */
  method ReadJsonl(content: string, accepts: Json -> bool, toFloat: FloatOf) returns (r: Reading)
    ensures r == ReadLog(content, accepts, toFloat)
  {
    if content != "" && content[|content| - 1] != '\n' {
      return Refused(PartialLine);
    }
    var lines := SplitLines(content);
    var records: seq<Json> := [];
    for i := 0 to |lines|
      invariant ReadLines(lines[..i], accepts, toFloat) == Records(records)
    {
      assert lines[..i + 1][..i] == lines[..i];
      if lines[i] == "" {
        RefusedPrefix(lines, i + 1, accepts, toFloat);
        return Refused(EmptyLine);
      }
      var parsed := ReadLine(lines[i], accepts, toFloat);
      if parsed.None? {
        RefusedPrefix(lines, i + 1, accepts, toFloat);
        return Refused(InvalidLine);
      }
      records := records + [parsed.value];
    }
    assert lines[..|lines|] == lines;
    return Records(records);
  }

  // ----- Round trip -----

  /** A record that was dumped from a model: a Python value without surrogates that the model reads back. */
  ghost predicate Dumped(record: Json, accepts: Json -> bool, toFloat: FloatOf) {
    Dicts(record) && Finite(record) && Floats(record, toFloat) && PairFreeAll(record) && accepts(Canon(record))
  }

  /** The text of a record: printable, not empty, and read back as the record with sorted keys. */
  lemma RecordLine(record: Json, accepts: Json -> bool, toFloat: FloatOf)
    requires Dumped(record, accepts, toFloat)
    ensures var text := Render(Canon(record));
            text != "" && Printable(text) && Line(record) == text + ['\n'] &&
            ReadLine(text, accepts, toFloat) == Some(Canon(record))
  {
    var v := Canon(record);
    CanonFloats(record, toFloat);
    CanonDicts(record);
    PairFreeCanon(record);
    MergeAllFixed(v);
    RenderPrintable(v, toFloat);
    RenderFront(v, toFloat);
    ReadWhole(v, toFloat);
  }

  lemma ReadWhole(v: Json, toFloat: FloatOf)
    requires Floats(v, toFloat)
    ensures Load(Render(v), Reader(false, toFloat)) == Some(MergeAll(v))
  {
    ReadRendered(v, "", Reader(false, toFloat));
    RenderFront(v, toFloat);
    assert Render(v) + "" == Render(v);
    SkipNothing(Render(v));
  }

  lemma {:induction false} LineEndAt(text: string, rest: string)
    requires Printable(text) && rest != "" && LineBreak(rest[0])
    ensures LineEnd(text + rest) == |text|
  {
    if text != "" {
      assert (text + rest)[1..] == text[1..] + rest;
      LineEndAt(text[1..], rest);
    } else {
      assert text + rest == rest;
    }
  }

  /** The first line of a text that starts with a printable line and a newline. */
  lemma SplitFirst(text: string, rest: string)
    requires Printable(text)
    ensures SplitLines(text + ['\n'] + rest) == [text] + SplitLines(rest)
  {
    var s := text + ['\n'] + rest;
    assert s == text + (['\n'] + rest);
    LineEndAt(text, ['\n'] + rest);
    assert s[|text|..] == ['\n'] + rest && s[..|text|] == text && s[|text| + 1..] == rest;
  }

  function Texts(records: seq<Json>): (r: seq<string>)
    ensures |r| == |records| && forall i :: 0 <= i < |r| ==> r[i] == Render(Canon(records[i]))
  {
    seq(|records|, i requires 0 <= i < |records| => Render(Canon(records[i])))
  }

  ghost predicate AllDumped(records: seq<Json>, accepts: Json -> bool, toFloat: FloatOf) {
    forall i :: 0 <= i < |records| ==> Dumped(records[i], accepts, toFloat)
  }

  lemma LogAppend(records: seq<Json>, last: Json)
    ensures Log(records + [last]) == Log(records) + Line(last)
  {
    assert (records + [last])[..|records|] == records;
  }

  lemma {:induction false} LogHead(records: seq<Json>)
    requires records != []
    ensures Log(records) == Line(records[0]) + Log(records[1..])
  {
    if |records| > 1 {
      var front, last := records[..|records| - 1], records[|records| - 1];
      LogHead(front);
      LogAppend(front[1..], last);
      assert records[1..] == front[1..] + [last];
      Regroup(Line(records[0]), Log(front[1..]), Line(last));
    } else {
      assert records[1..] == [];
    }
  }

  /** A log splits into exactly the texts of its records. */
  lemma {:induction false} LogLines(records: seq<Json>, accepts: Json -> bool, toFloat: FloatOf)
    requires AllDumped(records, accepts, toFloat)
    ensures SplitLines(Log(records)) == Texts(records)
  {
    if records != [] {
      LogHead(records);
      RecordLine(records[0], accepts, toFloat);
      LogLines(records[1..], accepts, toFloat);
      SplitFirst(Render(Canon(records[0])), Log(records[1..]));
      TextsHead(records);
    }
  }

  lemma TextsHead(records: seq<Json>)
    requires records != []
    ensures Texts(records) == [Render(Canon(records[0]))] + Texts(records[1..])
  {
  }

  lemma ReadOneMore(lines: seq<string>, line: string, records: seq<Json>, v: Json, accepts: Json -> bool,
                    toFloat: FloatOf)
    requires ReadLines(lines, accepts, toFloat) == Records(records)
    requires line != "" && ReadLine(line, accepts, toFloat) == Some(v)
    ensures ReadLines(lines + [line], accepts, toFloat) == Records(records + [v])
  {
    assert (lines + [line])[..|lines|] == lines;
  }

  lemma AppendedItems(records: seq<Json>, last: Json)
    ensures CanonItems(records + [last]) == CanonItems(records) + [Canon(last)]
    ensures Texts(records + [last]) == Texts(records) + [Render(Canon(last))]
  {
  }

  lemma ReadAppended(records: seq<Json>, last: Json, accepts: Json -> bool, toFloat: FloatOf)
    requires Dumped(last, accepts, toFloat)
    requires ReadLines(Texts(records), accepts, toFloat) == Records(CanonItems(records))
    ensures ReadLines(Texts(records + [last]), accepts, toFloat) == Records(CanonItems(records + [last]))
  {
    RecordLine(last, accepts, toFloat);
    ReadOneMore(Texts(records), Render(Canon(last)), CanonItems(records), Canon(last), accepts, toFloat);
    AppendedItems(records, last);
  }

  lemma {:induction false} TextsRead(records: seq<Json>, accepts: Json -> bool, toFloat: FloatOf)
    requires AllDumped(records, accepts, toFloat)
    ensures ReadLines(Texts(records), accepts, toFloat) == Records(CanonItems(records))
  {
    if records != [] {
      var front, last := records[..|records| - 1], records[|records| - 1];
      assert records == front + [last];
      assert AllDumped(front, accepts, toFloat) && Dumped(last, accepts, toFloat);
      TextsRead(front, accepts, toFloat);
      ReadAppended(front, last, accepts, toFloat);
    }
  }

  lemma LogEnds(records: seq<Json>)
    ensures Log(records) != "" ==> Log(records)[|Log(records)| - 1] == '\n'
  {
  }

  /** Reading back a written log returns exactly the records written, with sorted keys. */
  lemma LogRoundTrip(records: seq<Json>, accepts: Json -> bool, toFloat: FloatOf)
    requires AllDumped(records, accepts, toFloat)
    ensures ReadLog(Log(records), accepts, toFloat) == Records(CanonItems(records))
  {
    LogEnds(records);
    LogLines(records, accepts, toFloat);
    TextsRead(records, accepts, toFloat);
  }

  /** Inside a line the last character is printable, so the prefix is partial. */
  lemma PartialPrefix(before: string, text: string, n: nat)
    requires Printable(text) && 0 < n <= |text|
    ensures var s := (before + (text + ['\n']))[..|before| + n];
            s != "" && s[|s| - 1] != '\n'
  {
    var s := (before + (text + ['\n']))[..|before| + n];
    assert s[|s| - 1] == text[n - 1];
  }

  lemma CutInLastLine(records: seq<Json>, last: Json, n: nat, accepts: Json -> bool, toFloat: FloatOf)
    requires Dumped(last, accepts, toFloat) && |Log(records)| < n < |Log(records + [last])|
    ensures ReadLog(Log(records + [last])[..n], accepts, toFloat) == Refused(PartialLine)
  {
    RecordLine(last, accepts, toFloat);
    LogAppend(records, last);
    PartialPrefix(Log(records), Render(Canon(last)), n - |Log(records)|);
    RefusedPartial(Log(records + [last])[..n], accepts, toFloat);
  }

  lemma RefusedPartial(s: string, accepts: Json -> bool, toFloat: FloatOf)
    requires s != "" && s[|s| - 1] != '\n'
    ensures ReadLog(s, accepts, toFloat) == Refused(PartialLine)
  {
  }

  ghost predicate ReadsPrefix(r: Reading, records: seq<Json>) {
    exists k :: 0 <= k <= |records| && r == Records(CanonItems(records[..k]))
  }

  lemma LongerPrefix(r: Reading, records: seq<Json>, last: Json)
    requires ReadsPrefix(r, records)
    ensures ReadsPrefix(r, records + [last])
  {
    var k :| 0 <= k <= |records| && r == Records(CanonItems(records[..k]));
    assert (records + [last])[..k] == records[..k];
  }

  /**
   However a log is cut short, it is refused as partial or read as the records before the cut: the
   ones whose lines are complete.
   */
  lemma {:induction false} CutLog(records: seq<Json>, n: nat, accepts: Json -> bool, toFloat: FloatOf)
    requires AllDumped(records, accepts, toFloat) && n <= |Log(records)|
    ensures var r := ReadLog(Log(records)[..n], accepts, toFloat);
            r == Refused(PartialLine) || ReadsPrefix(r, records)
  {
    if n == |Log(records)| {
      LogRoundTrip(records, accepts, toFloat);
      assert Log(records)[..n] == Log(records) && records[..|records|] == records;
    } else {
      var front, last := records[..|records| - 1], records[|records| - 1];
      assert records == front + [last];
      LogAppend(front, last);
      if n <= |Log(front)| {
        CutLog(front, n, accepts, toFloat);
        assert Log(records)[..n] == Log(front)[..n];
        var r := ReadLog(Log(front)[..n], accepts, toFloat);
        if r != Refused(PartialLine) { LongerPrefix(r, front, last); }
      } else {
        CutInLastLine(front, last, n, accepts, toFloat);
      }
    }
  }
}
