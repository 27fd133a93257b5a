/**
 What stands where in a redacted value.

 `Shows` describes the result by position, for every budget: element by element of a list, key by key of a
 dict, each text charged after the ones before it. Without a limit it is the plain mirror image of the value
 graph; when what a value needs fits in the budget with a byte to spare, that image is the result.
 */
module RedactionShape {
  import opened Basics
  import opened Redaction
  import opened RedactionExposure
  import opened RedactionSecrecy
  import opened Utf8

  // ----- Texts -----

  /** What may be spent on texts altogether. */
  datatype Allowance = Unlimited | Limited(bytes: nat)

  /** `n` characters of the text fit in the room, and one more does not. */
  ghost predicate LongestFitting(text: string, n: nat, room: nat) {
    && n <= |text| && |Encode(text[..n])| <= room
    && (n < |text| ==> |Encode(text[..n + 1])| > room)
  }

  ghost predicate CutAt(shown: string, text: string, n: nat, room: nat, mark: string) {
    LongestFitting(text, n, room) && shown == text[..n] + mark
  }

  ghost predicate CutToFit(shown: string, text: string, room: nat, mark: string) {
    exists n :: CutAt(shown, text, n, room, mark)
  }

  /** The text is shown whole while it fits, then cut between characters and marked, then only the mark. */
  ghost predicate Charged(shown: string, after: nat, text: string, used: nat, mark: string, a: Allowance) {
    match a
    case Unlimited => shown == text && after == used + |Encode(text)|
    case Limited(bytes) =>
      if used >= bytes then shown == mark && after == used
      else if used + |Encode(text)| <= bytes then shown == text && after == used + |Encode(text)|
      else after == bytes && CutToFit(shown, text, bytes - used, mark)
  }

  ghost predicate TextShows(r: Clean, after: nat, text: string, used: nat, p: Policy, a: Allowance) {
    r.Str? && Charged(r.text, after, text, used, p.marks.truncated, a)
  }

  // ----- Dicts -----

  /** One line written into a dict: the key as charged, then the value under it. */
  datatype Line = Line(key: string, middle: nat, value: Clean, after: nat)

  /** Of the lines with this key, the first and the last. */
  ghost predicate FirstLine(lines: seq<Line>, i: nat, key: string) {
    i < |lines| && lines[i].key == key && forall j :: 0 <= j < i ==> lines[j].key != key
  }

  ghost predicate LastLine(lines: seq<Line>, i: nat, key: string) {
    i < |lines| && lines[i].key == key && forall j :: i < j < |lines| ==> lines[j].key != key
  }

  ghost predicate InOrder(lines: seq<Line>, a: string, b: string) {
    exists i: nat, j: nat :: i < j && FirstLine(lines, i, a) && FirstLine(lines, j, b)
  }

  ghost predicate LastValue(lines: seq<Line>, e: Entry) {
    exists i: nat :: LastLine(lines, i, e.key) && lines[i].value == e.value
  }

  /** The dict has one entry per key, in the order the keys were first written, with the value last written. */
  ghost predicate Filled(entries: seq<Entry>, lines: seq<Line>) {
    && DistinctBy(entries, KeyOf)
    && (forall e :: e in entries ==> LastValue(lines, e))
    && (forall line :: line in lines ==> exists e :: e in entries && e.key == line.key)
    && (forall a, b :: 0 <= a < b < |entries| ==> InOrder(lines, entries[a].key, entries[b].key))
  }

  // ----- The image of a value -----

  /** `r` is what `v` becomes, from `used` bytes to `after`. */
  ghost predicate Shows(r: Clean, after: nat, v: Value, h: Heap, p: Policy, depth: nat, seen: set<Identity>, used: nat,
                        sensitive: bool, a: Allowance)
    requires Closed(h) && Known(v, h)
    decreases if depth < p.maxDepth then p.maxDepth - depth else 0, 3
  {
    if sensitive then TextShows(r, after, p.replacement, used, p, a)
    else if depth >= p.maxDepth then TextShows(r, after, p.marks.tooDeep, used, p, a)
    else
      match v
      case Text(text) => TextShows(r, after, p.redactText(text), used, p, a)
      case Plain(scalar) => r == Scalar(scalar) && after == used
      case Opaque(safeText) => TextShows(r, after, p.redactText(safeText), used, p, a)
      case Container(id) =>
        if id in seen then TextShows(r, after, p.marks.cycle, used, p, a)
        else
          match h[id]
          case Sequence(values) =>
            r.List? && exists ledger :: ListShows(r.values, after, values, ledger, h, p, depth, seen + {id}, used, a)
          case Mapping(items) =>
            r.Dict? && exists lines :: DictShows(r.entries, after, items, lines, h, p, depth, seen + {id}, used, a)
  }

  /** Element by element; `ledger[i]` bytes are used before element `i`. */
  ghost predicate ElementsShow(r: seq<Clean>, values: seq<Value>, ledger: seq<nat>, h: Heap, p: Policy, depth: nat,
                               seen: set<Identity>, used: nat, a: Allowance)
    requires Closed(h) && depth < p.maxDepth && forall x :: x in values ==> Known(x, h)
    decreases p.maxDepth - depth, 0
  {
    && |r| == |values| && |ledger| == |values| + 1 && ledger[0] == used
    && forall i :: 0 <= i < |values| ==>
         Shows(r[i], ledger[i + 1], values[i], h, p, depth + 1, seen, ledger[i], false, a)
  }

  /** As many elements as there is room for, and a marker when some are left out. */
  ghost predicate ListShows(r: seq<Clean>, after: nat, values: seq<Value>, ledger: seq<nat>, h: Heap, p: Policy,
                            depth: nat, seen: set<Identity>, used: nat, a: Allowance)
    requires Closed(h) && depth < p.maxDepth && forall x :: x in values ==> Known(x, h)
    decreases p.maxDepth - depth, 1
  {
    if |values| <= p.maxItems then
      ElementsShow(r, values, ledger, h, p, depth, seen, used, a) && after == ledger[|values|]
    else
      && |r| == p.maxItems + 1
      && ElementsShow(r[..p.maxItems], values[..p.maxItems], ledger, h, p, depth, seen, used, a)
      && TextShows(r[p.maxItems], after, p.marks.truncated, ledger[p.maxItems], p, a)
  }

  /** The bytes used before a line. */
  function Start(lines: seq<Line>, i: nat, used: nat): nat
    requires i <= |lines|
  {
    if i == 0 then used else lines[i - 1].after
  }

  /** The key is charged first, and decides whether the value is replaced. */
  ghost predicate LineShows(line: Line, item: Item, h: Heap, p: Policy, depth: nat, seen: set<Identity>, used: nat,
                            a: Allowance)
    requires Closed(h) && depth < p.maxDepth && Known(item.value, h)
    decreases p.maxDepth - depth, 0
  {
    && Charged(line.key, line.middle, ShownKey(item.key, p), used, p.marks.truncated, a)
    && Shows(line.value, line.after, item.value, h, p, depth + 1, seen, line.middle, p.sensitive(line.key), a)
  }

  ghost predicate LinesShow(lines: seq<Line>, items: seq<Item>, h: Heap, p: Policy, depth: nat, seen: set<Identity>,
                            used: nat, a: Allowance)
    requires Closed(h) && depth < p.maxDepth && forall x :: x in items ==> Known(x.value, h)
    decreases p.maxDepth - depth, 1
  {
    && |lines| == |items|
    && forall i {:trigger items[i]} :: 0 <= i < |items| ==>
         LineShows(lines[i], items[i], h, p, depth, seen, Start(lines, i, used), a)
  }

  /** A line for each item there is room for, and one for the marker when some are left out. */
  ghost predicate DictShows(r: seq<Entry>, after: nat, items: seq<Item>, lines: seq<Line>, h: Heap, p: Policy,
                            depth: nat, seen: set<Identity>, used: nat, a: Allowance)
    requires Closed(h) && depth < p.maxDepth && forall x :: x in items ==> Known(x.value, h)
    decreases p.maxDepth - depth, 2
  {
    && Filled(r, lines) && after == Start(lines, |lines|, used)
    && if |items| <= p.maxItems then LinesShow(lines, items, h, p, depth, seen, used, a)
       else
         && |lines| == p.maxItems + 1
         && LinesShow(lines[..p.maxItems], items[..p.maxItems], h, p, depth, seen, used, a)
         && lines[p.maxItems].key == p.marks.truncated
         && TextShows(lines[p.maxItems].value, after, p.marks.truncated, Start(lines, p.maxItems, used), p, a)
  }

  // ----- Filling a dict -----

  function EntriesOf(lines: seq<Line>): seq<Entry> {
    if lines == [] then []
    else
      var last := lines[|lines| - 1];
      Put(EntriesOf(lines[..|lines| - 1]), Entry(last.key, last.value), KeyOf)
  }

  /** `r` is the dict with `e` put where its key is, or at the end. */
  ghost predicate Placed(r: seq<Entry>, entries: seq<Entry>, e: Entry) {
    || ((forall x :: x in entries ==> x.key != e.key) && r == entries + [e])
    || PlacedAt(r, entries, e)
  }

  ghost predicate PlacedAt(r: seq<Entry>, entries: seq<Entry>, e: Entry) {
    exists k :: 0 <= k < |entries| && entries[k].key == e.key && r == entries[k := e]
  }

  lemma PlacedLater(first: Entry, rest: seq<Entry>, e: Entry, s: seq<Entry>)
    requires first.key != e.key && Placed(s, rest, e)
    ensures Placed([first] + s, [first] + rest, e)
  {
    var entries := [first] + rest;
    if PlacedAt(s, rest, e) {
      var k :| 0 <= k < |rest| && rest[k].key == e.key && s == rest[k := e];
      assert entries[k + 1].key == e.key && [first] + s == entries[k + 1 := e];
    } else {
      assert [first] + s == entries + [e];
    }
  }

  lemma {:induction false} PutPlace(entries: seq<Entry>, e: Entry)
    ensures Placed(Put(entries, e, KeyOf), entries, e)
  {
    if entries == [] {
      assert [] + [e] == [e];
    } else if entries[0].key == e.key {
      assert Put(entries, e, KeyOf) == entries[0 := e];
    } else {
      PutPlace(entries[1..], e);
      PlacedLater(entries[0], entries[1..], e, Put(entries[1..], e, KeyOf));
      assert entries == [entries[0]] + entries[1..];
    }
  }

  lemma StillFirst(lines: seq<Line>, line: Line, a: string, b: string)
    requires InOrder(lines, a, b)
    ensures InOrder(lines + [line], a, b)
  {
    var i: nat, j: nat :| i < j && FirstLine(lines, i, a) && FirstLine(lines, j, b);
    assert FirstLine(lines + [line], i, a) && FirstLine(lines + [line], j, b);
  }

  lemma StillLast(lines: seq<Line>, line: Line, e: Entry)
    requires LastValue(lines, e) && e.key != line.key
    ensures LastValue(lines + [line], e)
  {
    var i: nat :| LastLine(lines, i, e.key) && lines[i].value == e.value;
    assert LastLine(lines + [line], i, e.key);
  }

  lemma {:induction false} HasFirst(lines: seq<Line>, line: Line)
    requires line in lines
    ensures exists i: nat :: FirstLine(lines, i, line.key)
  {
    if lines[0].key == line.key {
      assert FirstLine(lines, 0, line.key);
    } else {
      var rest := lines[1..];
      assert lines == [lines[0]] + rest;
      HasFirst(rest, line);
      var i: nat :| FirstLine(rest, i, line.key);
      assert FirstLine(lines, i + 1, line.key);
    }
  }

  lemma LastIsNew(lines: seq<Line>, line: Line)
    ensures LastValue(lines + [line], Entry(line.key, line.value))
  {
    assert LastLine(lines + [line], |lines|, line.key);
  }

  /** A key written for the first time comes after the keys before it. */
  lemma NewKeyLast(entries: seq<Entry>, lines: seq<Line>, line: Line, a: nat)
    requires Filled(entries, lines) && a < |entries| && forall x :: x in entries ==> x.key != line.key
    ensures InOrder(lines + [line], entries[a].key, line.key)
  {
    var all := lines + [line];
    assert entries[a] in entries;
    var k: nat :| LastLine(lines, k, entries[a].key) && lines[k].value == entries[a].value;
    assert lines[k] in lines;
    HasFirst(lines, lines[k]);
    var i: nat :| FirstLine(lines, i, entries[a].key);
    assert FirstLine(all, i, entries[a].key);
    forall j | 0 <= j < |lines| ensures all[j].key != line.key {
      assert lines[j] in lines;
    }
    assert FirstLine(all, |lines|, line.key);
  }

  lemma FilledNew(entries: seq<Entry>, lines: seq<Line>, line: Line)
    requires Filled(entries, lines) && forall x :: x in entries ==> x.key != line.key
    ensures Filled(entries + [Entry(line.key, line.value)], lines + [line])
  {
    var e, all := Entry(line.key, line.value), lines + [line];
    var r := entries + [e];
    LastIsNew(lines, line);
    forall x | x in r ensures LastValue(all, x) {
      if x in entries { StillLast(lines, line, x); }
    }
    forall l | l in all ensures exists x :: x in r && x.key == l.key {
      if l in lines {
        var x :| x in entries && x.key == l.key;
        assert x in r;
      } else {
        assert e in r && l == line;
      }
    }
    forall a, b | 0 <= a < b < |r| ensures InOrder(all, r[a].key, r[b].key) {
      if b < |entries| {
        StillFirst(lines, line, entries[a].key, entries[b].key);
      } else {
        NewKeyLast(entries, lines, line, a);
      }
    }
    forall i, j | 0 <= i < j < |r| ensures KeyOf(r[i]) != KeyOf(r[j]) {
      if j == |entries| { assert entries[i] in entries; }
    }
  }

  lemma FilledAgain(entries: seq<Entry>, lines: seq<Line>, line: Line, k: nat)
    requires Filled(entries, lines) && k < |entries| && entries[k].key == line.key
    ensures Filled(entries[k := Entry(line.key, line.value)], lines + [line])
  {
    var e, all := Entry(line.key, line.value), lines + [line];
    var r := entries[k := e];
    LastIsNew(lines, line);
    forall i | 0 <= i < |r| ensures r[i].key == entries[i].key && LastValue(all, r[i]) {
      if i != k {
        assert KeyOf(entries[i]) != KeyOf(entries[k]) by { assert i < k || k < i; }
        assert entries[i] in entries;
        StillLast(lines, line, entries[i]);
      }
    }
    forall l | l in all ensures exists x :: x in r && x.key == l.key {
      if l in lines {
        var x :| x in entries && x.key == l.key;
        var i :| 0 <= i < |entries| && entries[i] == x;
        assert r[i] in r;
      } else {
        assert r[k] in r && l == line;
      }
    }
    forall a, b | 0 <= a < b < |r| ensures InOrder(all, r[a].key, r[b].key) {
      StillFirst(lines, line, entries[a].key, entries[b].key);
    }
  }

  lemma {:induction false} EntriesFilled(lines: seq<Line>)
    ensures Filled(EntriesOf(lines), lines)
  {
    if lines != [] {
      var front, line := lines[..|lines| - 1], lines[|lines| - 1];
      EntriesFilled(front);
      assert lines == front + [line];
      var entries, e := EntriesOf(front), Entry(line.key, line.value);
      PutPlace(entries, e);
      if PlacedAt(Put(entries, e, KeyOf), entries, e) {
        var k: nat :| k < |entries| && entries[k].key == e.key && Put(entries, e, KeyOf) == entries[k := e];
        FilledAgain(entries, front, line, k);
      } else {
        FilledNew(entries, front, line);
      }
    }
  }

  // ----- The walk writes these lines -----

  /** The line the walk writes for one item. */
  function LineOf(item: Item, h: Heap, p: Policy, depth: nat, seen: set<Identity>, used: nat): Line
    requires Closed(h) && depth < p.maxDepth && Known(item.value, h)
  {
    var key := CleanKey(item.key, p, used);
    var value := Redact(item.value, h, p, depth + 1, seen, key.1, p.sensitive(key.0));
    Line(key.0, key.1, value.0, value.1)
  }

  /** The lines the walk writes for the items, one after the other. */
  function LinesOf(items: seq<Item>, h: Heap, p: Policy, depth: nat, seen: set<Identity>, used: nat): (r: seq<Line>)
    requires Closed(h) && depth < p.maxDepth && forall x :: x in items ==> Known(x.value, h)
    ensures |r| == |items|
  {
    if items == [] then []
    else
      var line := LineOf(items[0], h, p, depth, seen, used);
      [line] + LinesOf(items[1..], h, p, depth, seen, line.after)
  }

  lemma OneMoreLine(lines: seq<Line>, line: Line)
    ensures EntriesOf(lines + [line]) == Put(EntriesOf(lines), Entry(line.key, line.value), KeyOf)
  {
    assert (lines + [line])[..|lines|] == lines;
  }

  /** With `lines` written and `used` bytes spent, the walk over the items ends with `all` written. */
  ghost predicate Ends(items: seq<Item>, room: nat, h: Heap, p: Policy, depth: nat, seen: set<Identity>,
                       lines: seq<Line>, used: nat, all: seq<Line>, end: nat)
    requires Closed(h) && depth < p.maxDepth && forall x :: x in items ==> Known(x.value, h)
  {
    RedactItems(items, room, h, p, depth, seen, EntriesOf(lines), used) == (EntriesOf(all), end)
  }

  /** One item written, the walk goes on with the rest. */
  lemma EndsStep(items: seq<Item>, room: nat, h: Heap, p: Policy, depth: nat, seen: set<Identity>,
                 lines: seq<Line>, used: nat, all: seq<Line>, end: nat, line: Line)
    requires Closed(h) && depth < p.maxDepth && (forall x :: x in items ==> Known(x.value, h))
    requires items != [] && room > 0 && line == LineOf(items[0], h, p, depth, seen, used)
    requires Ends(items[1..], room - 1, h, p, depth, seen, lines + [line], line.after, all, end)
    ensures Ends(items, room, h, p, depth, seen, lines, used, all, end)
  {
    OneMoreLine(lines, line);
  }

  lemma NoItems(room: nat, h: Heap, p: Policy, depth: nat, seen: set<Identity>, lines: seq<Line>, used: nat)
    requires Closed(h) && depth < p.maxDepth
    ensures Ends([], room, h, p, depth, seen, lines, used, lines, used)
  {
  }

  lemma NoRoom(items: seq<Item>, h: Heap, p: Policy, depth: nat, seen: set<Identity>, lines: seq<Line>, used: nat,
               mark: (Clean, nat))
    requires Closed(h) && depth < p.maxDepth && (forall x :: x in items ==> Known(x.value, h))
    requires items != [] && mark == CleanText(p.marks.truncated, p, used)
    ensures Ends(items, 0, h, p, depth, seen, lines, used, lines + [Line(p.marks.truncated, used, mark.0, mark.1)],
                 mark.1)
  {
    OneMoreLine(lines, Line(p.marks.truncated, used, mark.0, mark.1));
  }

  lemma LinesStep(items: seq<Item>, h: Heap, p: Policy, depth: nat, seen: set<Identity>, used: nat, line: Line,
                  tail: seq<Line>)
    requires Closed(h) && depth < p.maxDepth && (forall x :: x in items ==> Known(x.value, h)) && items != []
    requires line == LineOf(items[0], h, p, depth, seen, used)
    requires tail == LinesOf(items[1..], h, p, depth, seen, line.after)
    ensures LinesOf(items, h, p, depth, seen, used) == [line] + tail
  {
  }

  lemma Continued(line: Line, tail: seq<Line>, used: nat, lines: seq<Line>)
    ensures var more := [line] + tail;
            lines + more == lines + [line] + tail && Start(more, |more|, used) == Start(tail, |tail|, line.after)
  {
  }

  /** The dict is filled with the lines written before and those of all items. */
  lemma {:induction false} AllWritten(items: seq<Item>, room: nat, h: Heap, p: Policy, depth: nat,
                                      seen: set<Identity>, lines: seq<Line>, used: nat)
    requires Closed(h) && depth < p.maxDepth && |items| <= room && forall x :: x in items ==> Known(x.value, h)
    ensures var more := LinesOf(items, h, p, depth, seen, used);
            Ends(items, room, h, p, depth, seen, lines, used, lines + more, Start(more, |more|, used))
    decreases |items|
  {
    if items == [] {
      assert lines + [] == lines;
      NoItems(room, h, p, depth, seen, lines, used);
    } else {
      var line, rest := LineOf(items[0], h, p, depth, seen, used), items[1..];
      var tail := LinesOf(rest, h, p, depth, seen, line.after);
      AllWritten(rest, room - 1, h, p, depth, seen, lines + [line], line.after);
      LinesStep(items, h, p, depth, seen, used, line, tail);
      Continued(line, tail, used, lines);
      EndsStep(items, room, h, p, depth, seen, lines, used, lines + [line] + tail, Start(tail, |tail|, line.after),
               line);
    }
  }

  /** When there is no room for all items, a marker is written after those there is room for. */
  lemma {:induction false} SomeWritten(items: seq<Item>, room: nat, h: Heap, p: Policy, depth: nat,
                                       seen: set<Identity>, lines: seq<Line>, used: nat)
    requires Closed(h) && depth < p.maxDepth && room < |items| && forall x :: x in items ==> Known(x.value, h)
    ensures var more := LinesOf(items[..room], h, p, depth, seen, used);
            var end := Start(more, |more|, used);
            var mark := CleanText(p.marks.truncated, p, end);
            Ends(items, room, h, p, depth, seen, lines, used,
                 lines + more + [Line(p.marks.truncated, end, mark.0, mark.1)], mark.1)
    decreases |items|
  {
    var kept := items[..room];
    if room == 0 {
      assert kept == [] && lines + [] == lines;
      NoRoom(items, h, p, depth, seen, lines, used, CleanText(p.marks.truncated, p, used));
    } else {
      var line, rest := LineOf(items[0], h, p, depth, seen, used), items[1..];
      assert kept[0] == items[0] && kept[1..] == rest[..room - 1];
      var tail := LinesOf(rest[..room - 1], h, p, depth, seen, line.after);
      SomeWritten(rest, room - 1, h, p, depth, seen, lines + [line], line.after);
      LinesStep(kept, h, p, depth, seen, used, line, tail);
      Continued(line, tail, used, lines);
      var end := Start(tail, |tail|, line.after);
      var mark := CleanText(p.marks.truncated, p, end);
      EndsStep(items, room, h, p, depth, seen, lines, used,
               lines + [line] + tail + [Line(p.marks.truncated, end, mark.0, mark.1)], mark.1, line);
    }
  }

  // ----- The result is the image -----

  /** What is asked of the budget: nothing, or that it has a byte more than is needed. */
  ghost predicate Allows(a: Allowance, p: Policy, used: nat, needs: nat) {
    && used <= p.maxBytes
    && match a
       case Limited(bytes) => bytes == p.maxBytes
       case Unlimited => p.replacement != "" && used + needs < p.maxBytes
  }

  /** The budget is kept, and without a limit exactly the needs are charged. */
  ghost predicate Spent(a: Allowance, p: Policy, used: nat, needs: nat, after: nat) {
    used <= after <= p.maxBytes && (a.Unlimited? ==> after == used + needs)
  }

  lemma Longest(text: string, room: nat)
    ensures LongestFitting(text, Fitting(text, room), room)
  {
    var n := Fitting(text, room);
    FittingLongest(text, room, n);
    if n < |text| { FittingLongest(text, room, n + 1); }
  }

  lemma FittingCut(text: string, room: nat, mark: string)
    ensures CutToFit(text[..Fitting(text, room)] + mark, text, room, mark)
  {
    var n := Fitting(text, room);
    Longest(text, room);
    assert CutAt(text[..n] + mark, text, n, room, mark);
  }

  /** What the budget makes of a text, as `Charged` says. */
  lemma ChargedMeans(shown: string, after: nat, text: string, used: nat, bytes: nat, mark: string)
    requires used <= bytes
    requires (shown, after) == if used == bytes then (mark, bytes)
                               else if |Encode(text)| <= bytes - used then (text, used + |Encode(text)|)
                               else (text[..Fitting(text, bytes - used)] + mark, bytes)
    ensures Charged(shown, after, text, used, mark, Limited(bytes)) && used <= after <= bytes
  {
    FittingCut(text, bytes - used, mark);
  }

  lemma ChargeShows(text: string, p: Policy, used: nat, a: Allowance)
    requires Allows(a, p, used, |Encode(text)|)
    ensures var r := Charge(text, used, p.maxBytes, p.marks.truncated);
            Charged(r.0, r.1, text, used, p.marks.truncated, a) && Spent(a, p, used, |Encode(text)|, r.1)
  {
    var r := Charge(text, used, p.maxBytes, p.marks.truncated);
    ChargeMeans(text, used, p.maxBytes, p.marks.truncated);
    ChargedMeans(r.0, r.1, text, used, p.maxBytes, p.marks.truncated);
  }

  lemma {:induction false} ValueShows(v: Value, h: Heap, p: Policy, depth: nat, seen: set<Identity>, used: nat,
                                      sensitive: bool, a: Allowance)
    requires Closed(h) && Known(v, h) && Allows(a, p, used, Needs(v, h, p, depth, seen, sensitive))
    ensures var r := Redact(v, h, p, depth, seen, used, sensitive);
            Shows(r.0, r.1, v, h, p, depth, seen, used, sensitive, a) &&
            Spent(a, p, used, Needs(v, h, p, depth, seen, sensitive), r.1)
    decreases if depth < p.maxDepth then p.maxDepth - depth else 0, 2, 0
  {
    if sensitive {
      ChargeShows(p.replacement, p, used, a);
    } else if depth >= p.maxDepth {
      ChargeShows(p.marks.tooDeep, p, used, a);
    } else {
      match v
      case Text(text) => ChargeShows(p.redactText(text), p, used, a);
      case Plain(_) =>
      case Opaque(safeText) => ChargeShows(p.redactText(safeText), p, used, a);
      case Container(id) =>
        if id in seen {
          ChargeShows(p.marks.cycle, p, used, a);
        } else {
          match h[id]
          case Sequence(values) => SequenceShows(values, id, h, p, depth, seen, used, a);
          case Mapping(items) => MappingShows(items, id, h, p, depth, seen, used, a);
        }
    }
  }

  lemma {:induction false} ElementsShown(values: seq<Value>, h: Heap, p: Policy, depth: nat, seen: set<Identity>,
                                         used: nat, a: Allowance)
    returns (ledger: seq<nat>)
    requires Closed(h) && depth < p.maxDepth && forall x :: x in values ==> Known(x, h)
    requires Allows(a, p, used, ValuesNeed(values, h, p, depth, seen))
    ensures var r := RedactValues(values, h, p, depth, seen, used);
            ElementsShow(r.0, values, ledger, h, p, depth, seen, used, a) && r.1 == ledger[|values|] &&
            Spent(a, p, used, ValuesNeed(values, h, p, depth, seen), r.1)
    decreases p.maxDepth - depth, 0, |values|
  {
    if values == [] {
      ledger := [used];
    } else {
      var front, last := values[..|values| - 1], values[|values| - 1];
      var before := ElementsShown(front, h, p, depth, seen, used, a);
      var r := RedactValues(front, h, p, depth, seen, used);
      ValueShows(last, h, p, depth + 1, seen, r.1, false, a);
      var value := Redact(last, h, p, depth + 1, seen, r.1, false);
      ledger := before + [value.1];
      assert values == front + [last];
      MoreElements(r.0, front, before, value.0, last, value.1, h, p, depth, seen, used, a);
    }
  }

  lemma MoreElements(r: seq<Clean>, values: seq<Value>, ledger: seq<nat>, c: Clean, v: Value, after: nat, h: Heap,
                     p: Policy, depth: nat, seen: set<Identity>, used: nat, a: Allowance)
    requires Closed(h) && depth < p.maxDepth && (forall x :: x in values ==> Known(x, h)) && Known(v, h)
    requires ElementsShow(r, values, ledger, h, p, depth, seen, used, a)
    requires Shows(c, after, v, h, p, depth + 1, seen, ledger[|values|], false, a)
    ensures ElementsShow(r + [c], values + [v], ledger + [after], h, p, depth, seen, used, a)
  {
  }

  lemma {:induction false} SequenceShows(values: seq<Value>, id: Identity, h: Heap, p: Policy, depth: nat,
                                         seen: set<Identity>, used: nat, a: Allowance)
    requires Closed(h) && depth < p.maxDepth && id in h && h[id] == Sequence(values) && id !in seen
    requires Allows(a, p, used, Needs(Container(id), h, p, depth, seen, false))
    ensures var r := Redact(Container(id), h, p, depth, seen, used, false);
            Shows(r.0, r.1, Container(id), h, p, depth, seen, used, false, a) &&
            Spent(a, p, used, Needs(Container(id), h, p, depth, seen, false), r.1)
    decreases p.maxDepth - depth, 1, 0
  {
    var kept := if |values| <= p.maxItems then values else values[..p.maxItems];
    var ledger := ElementsShown(kept, h, p, depth, seen + {id}, used, a);
    var inner := RedactValues(kept, h, p, depth, seen + {id}, used);
    var r := Redact(Container(id), h, p, depth, seen, used, false);
    if |values| > p.maxItems {
      ChargeShows(p.marks.truncated, p, inner.1, a);
      assert r.0.values[..p.maxItems] == inner.0;
    }
    assert ListShows(r.0.values, r.1, values, ledger, h, p, depth, seen + {id}, used, a);
  }

  lemma {:induction false} LineShown(item: Item, h: Heap, p: Policy, depth: nat, seen: set<Identity>, used: nat,
                                     a: Allowance)
    requires Closed(h) && depth < p.maxDepth && Known(item.value, h)
    requires Allows(a, p, used, ItemNeeds(item, h, p, depth, seen))
    ensures var line := LineOf(item, h, p, depth, seen, used);
            LineShows(line, item, h, p, depth, seen, used, a) &&
            Spent(a, p, used, ItemNeeds(item, h, p, depth, seen), line.after)
    decreases p.maxDepth - depth, 0, 0
  {
    ChargeShows(ShownKey(item.key, p), p, used, a);
    var key := CleanKey(item.key, p, used);
    ValueShows(item.value, h, p, depth + 1, seen, key.1, p.sensitive(key.0), a);
  }

  lemma {:induction false} LinesShown(items: seq<Item>, h: Heap, p: Policy, depth: nat, seen: set<Identity>,
                                      used: nat, a: Allowance)
    requires Closed(h) && depth < p.maxDepth && forall x :: x in items ==> Known(x.value, h)
    requires Allows(a, p, used, ItemsNeed(items, |items|, h, p, depth, seen))
    ensures var lines := LinesOf(items, h, p, depth, seen, used);
            LinesShow(lines, items, h, p, depth, seen, used, a) &&
            Spent(a, p, used, ItemsNeed(items, |items|, h, p, depth, seen), Start(lines, |lines|, used))
    decreases p.maxDepth - depth, 0, |items| + 1
  {
    if items != [] {
      var line, rest := LineOf(items[0], h, p, depth, seen, used), items[1..];
      LineShown(items[0], h, p, depth, seen, used, a);
      LinesShown(rest, h, p, depth, seen, line.after, a);
      var tail := LinesOf(rest, h, p, depth, seen, line.after);
      LinesStep(items, h, p, depth, seen, used, line, tail);
      MoreLines(line, tail, items, h, p, depth, seen, used, a);
      Continued(line, tail, used, []);
    }
  }

  lemma LineOfAll(lines: seq<Line>, items: seq<Item>, i: nat, h: Heap, p: Policy, depth: nat, seen: set<Identity>,
                  used: nat, a: Allowance)
    requires Closed(h) && depth < p.maxDepth && forall x :: x in items ==> Known(x.value, h)
    requires LinesShow(lines, items, h, p, depth, seen, used, a) && i < |items|
    ensures |lines| == |items| && LineShows(lines[i], items[i], h, p, depth, seen, Start(lines, i, used), a)
  {
  }

  lemma StartShifts(line: Line, tail: seq<Line>, i: nat, used: nat)
    requires 0 < i <= |tail| + 1
    ensures Start([line] + tail, i, used) == Start(tail, i - 1, line.after)
  {
  }

  lemma MoreLines(line: Line, tail: seq<Line>, items: seq<Item>, h: Heap, p: Policy, depth: nat, seen: set<Identity>,
                  used: nat, a: Allowance)
    requires Closed(h) && depth < p.maxDepth && (forall x :: x in items ==> Known(x.value, h)) && items != []
    requires LineShows(line, items[0], h, p, depth, seen, used, a)
    requires LinesShow(tail, items[1..], h, p, depth, seen, line.after, a)
    ensures LinesShow([line] + tail, items, h, p, depth, seen, used, a)
  {
    var lines, rest := [line] + tail, items[1..];
    forall i | 0 <= i < |items| ensures LineShows(lines[i], items[i], h, p, depth, seen, Start(lines, i, used), a) {
      if i == 0 {
        assert lines[i] == line && Start(lines, i, used) == used;
      } else {
        StartShifts(line, tail, i, used);
        LineOfAll(tail, rest, i - 1, h, p, depth, seen, line.after, a);
        assert lines[i] == tail[i - 1] && items[i] == rest[i - 1];
      }
    }
  }

  /** The needs of the items there is room for, and of the marker. */
  lemma {:induction false} NeedsOfKept(items: seq<Item>, room: nat, h: Heap, p: Policy, depth: nat,
                                       seen: set<Identity>)
    requires Closed(h) && depth < p.maxDepth && forall x :: x in items ==> Known(x.value, h)
    ensures ItemsNeed(items, room, h, p, depth, seen) ==
            if |items| <= room then ItemsNeed(items, |items|, h, p, depth, seen)
            else ItemsNeed(items[..room], room, h, p, depth, seen) + |Encode(p.marks.truncated)|
    decreases |items|
  {
    if items != [] && room > 0 {
      NeedsOfKept(items[1..], room - 1, h, p, depth, seen);
      if |items| > room {
        assert items[..room][0] == items[0] && items[..room][1..] == items[1..][..room - 1];
      }
    }
  }

  lemma DictImage(r: seq<Entry>, after: nat, items: seq<Item>, lines: seq<Line>, id: Identity, h: Heap, p: Policy,
                  depth: nat, seen: set<Identity>, used: nat, a: Allowance)
    requires Closed(h) && depth < p.maxDepth && id in h && h[id] == Mapping(items) && id !in seen
    requires DictShows(r, after, items, lines, h, p, depth, seen + {id}, used, a)
    ensures Shows(Dict(r), after, Container(id), h, p, depth, seen, used, false, a)
  {
  }

  /** A mapping there is room for. */
  lemma WholeDict(r: Clean, after: nat, items: seq<Item>, lines: seq<Line>, id: Identity, h: Heap, p: Policy,
                  depth: nat, seen: set<Identity>, used: nat, a: Allowance)
    requires Closed(h) && depth < p.maxDepth && id in h && h[id] == Mapping(items) && id !in seen
    requires |items| <= p.maxItems && LinesShow(lines, items, h, p, depth, seen + {id}, used, a)
    requires r == Dict(EntriesOf(lines)) && after == Start(lines, |lines|, used)
    ensures Shows(r, after, Container(id), h, p, depth, seen, used, false, a)
  {
    EntriesFilled(lines);
    DictImage(r.entries, after, items, lines, id, h, p, depth, seen, used, a);
  }

  /** A mapping that is cut. */
  lemma CutDict(r: Clean, items: seq<Item>, lines: seq<Line>, last: Line, id: Identity, h: Heap, p: Policy,
                depth: nat, seen: set<Identity>, used: nat, a: Allowance)
    requires Closed(h) && depth < p.maxDepth && id in h && h[id] == Mapping(items) && id !in seen
    requires |items| > p.maxItems == |lines| && LinesShow(lines, items[..p.maxItems], h, p, depth, seen + {id}, used, a)
    requires last.key == p.marks.truncated
    requires TextShows(last.value, last.after, p.marks.truncated, Start(lines, |lines|, used), p, a)
    requires r == Dict(EntriesOf(lines + [last]))
    ensures Shows(r, last.after, Container(id), h, p, depth, seen, used, false, a)
  {
    var all := lines + [last];
    EntriesFilled(all);
    LastLineApart(lines, last, used);
    CutDictShows(r.entries, items, all, lines, last, h, p, depth, seen + {id}, used, a);
    DictImage(r.entries, last.after, items, all, id, h, p, depth, seen, used, a);
  }

  lemma LastLineApart(lines: seq<Line>, last: Line, used: nat)
    ensures var all := lines + [last];
            all[..|lines|] == lines && Start(all, |lines|, used) == Start(lines, |lines|, used) &&
            Start(all, |all|, used) == last.after
  {
  }

  lemma CutDictShows(r: seq<Entry>, items: seq<Item>, all: seq<Line>, lines: seq<Line>, last: Line, h: Heap,
                     p: Policy, depth: nat, seen: set<Identity>, used: nat, a: Allowance)
    requires Closed(h) && depth < p.maxDepth && forall x :: x in items ==> Known(x.value, h)
    requires |items| > p.maxItems && LinesShow(lines, items[..p.maxItems], h, p, depth, seen, used, a)
    requires |all| == p.maxItems + 1 && all[..p.maxItems] == lines && all[p.maxItems] == last
    requires Start(all, |all|, used) == last.after && last.key == p.marks.truncated
    requires TextShows(last.value, last.after, p.marks.truncated, Start(all, p.maxItems, used), p, a)
    requires Filled(r, all)
    ensures DictShows(r, last.after, items, all, h, p, depth, seen, used, a)
  {
  }

  /** The redaction of a mapping, in terms of what its walk ends with. */
  lemma MappingEnds(items: seq<Item>, id: Identity, h: Heap, p: Policy, depth: nat, seen: set<Identity>, used: nat,
                    all: seq<Line>, end: nat)
    requires Closed(h) && depth < p.maxDepth && id in h && h[id] == Mapping(items) && id !in seen
    requires Ends(items, p.maxItems, h, p, depth, seen + {id}, [], used, all, end)
    ensures Redact(Container(id), h, p, depth, seen, used, false) == (Dict(EntriesOf(all)), end)
    ensures Needs(Container(id), h, p, depth, seen, false) == ItemsNeed(items, p.maxItems, h, p, depth, seen + {id})
  {
  }

  lemma {:induction false} MappingShows(items: seq<Item>, id: Identity, h: Heap, p: Policy, depth: nat,
                                        seen: set<Identity>, used: nat, a: Allowance)
    requires Closed(h) && depth < p.maxDepth && id in h && h[id] == Mapping(items) && id !in seen
    requires Allows(a, p, used, Needs(Container(id), h, p, depth, seen, false))
    ensures var r := Redact(Container(id), h, p, depth, seen, used, false);
            Shows(r.0, r.1, Container(id), h, p, depth, seen, used, false, a) &&
            Spent(a, p, used, Needs(Container(id), h, p, depth, seen, false), r.1)
    decreases p.maxDepth - depth, 1, 0
  {
    var visiting := seen + {id};
    var kept := if |items| <= p.maxItems then items else items[..p.maxItems];
    var lines := LinesOf(kept, h, p, depth, visiting, used);
    var end := Start(lines, |lines|, used);
    assert [] + lines == lines;
    if |items| <= p.maxItems {
      AllWritten(items, p.maxItems, h, p, depth, visiting, [], used);
      MappingEnds(items, id, h, p, depth, seen, used, lines, end);
      NeedsOfKept(items, p.maxItems, h, p, depth, visiting);
      LinesShown(kept, h, p, depth, visiting, used, a);
      WholeDict(Dict(EntriesOf(lines)), end, items, lines, id, h, p, depth, seen, used, a);
    } else {
      var mark := CleanText(p.marks.truncated, p, end);
      var last := Line(p.marks.truncated, end, mark.0, mark.1);
      SomeWritten(items, p.maxItems, h, p, depth, visiting, [], used);
      MappingEnds(items, id, h, p, depth, seen, used, lines + [last], mark.1);
      NeedsOfKept(items, p.maxItems, h, p, depth, visiting);
      LinesShown(kept, h, p, depth, visiting, used, a);
      ChargeShows(p.marks.truncated, p, end, a);
      CutDict(Dict(EntriesOf(lines + [last])), items, lines, last, id, h, p, depth, seen, used, a);
    }
  }

  /** Whatever the budget, the redacted value is the image of the graph that the budget pays for. */
  lemma RedactionShows(v: Value, h: Heap, p: Policy)
    requires Closed(h) && Known(v, h)
    ensures exists after ::
              Shows(Redact(v, h, p, 0, {}, 0, false).0, after, v, h, p, 0, {}, 0, false, Limited(p.maxBytes))
  {
    ValueShows(v, h, p, 0, {}, 0, false, Limited(p.maxBytes));
  }

  /** When the budget has a byte more than the value needs, it is the plain mirror image, nothing cut. */
  lemma RedactionMirrors(v: Value, h: Heap, p: Policy)
    requires Closed(h) && Known(v, h) && p.replacement != "" && Needs(v, h, p, 0, {}, false) < p.maxBytes
    ensures Shows(Redact(v, h, p, 0, {}, 0, false).0, Needs(v, h, p, 0, {}, false), v, h, p, 0, {}, 0, false, Unlimited)
  {
    ValueShows(v, h, p, 0, {}, 0, false, Unlimited);
  }
}
