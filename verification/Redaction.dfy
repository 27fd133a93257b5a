/**
 Bounded redaction of diagnostic values: one byte budget threaded through a recursive walk of a
 value graph that may contain cycles.
 */
module Redaction {
  import opened Basics
  import opened Utf8

  // ----- Values -----

  type Identity = nat

  /** A Python value: a string, a plain scalar, another object known by its safe text, or a container. */
  datatype Value = Text(text: string) | Plain(scalar: int) | Opaque(safeText: string) | Container(id: Identity)

  /** A key is known by its safe text. */
  datatype Item = Item(key: string, value: Value)

  datatype Node = Mapping(items: seq<Item>) | Sequence(values: seq<Value>)

  /** The containers by identity; cycles and sharing are allowed. */
  type Heap = map<Identity, Node>

  predicate Known(v: Value, heap: Heap) {
    v.Container? ==> v.id in heap
  }

  predicate Closed(heap: Heap) {
    forall id :: id in heap ==>
      match heap[id]
      case Mapping(items) => forall x :: x in items ==> Known(x.value, heap)
      case Sequence(values) => forall x :: x in values ==> Known(x, heap)
  }

  /** The redacted value. */
  datatype Clean = Str(text: string) | Scalar(scalar: int) | Dict(entries: seq<Entry>) | List(values: seq<Clean>)

  datatype Entry = Entry(key: string, value: Clean)

  function KeyOf(e: Entry): string { e.key }

  datatype Policy = Policy(
    maxDepth: nat,
    maxItems: nat,
    maxString: nat,
    maxBytes: nat,
    replacement: string,
    marks: Marks,
    redactText: string -> string,
    redactKey: string -> string,
    sensitive: string -> bool)

  /** The marker texts; `StandardMarks` says which they are. */
  datatype Marks = Marks(truncated: string, cycle: string, tooDeep: string)

  predicate StandardMarks(marks: Marks) {
    marks == Marks("[truncated]", "[cycle]", "[max_depth]")
  }

  /** The bytes of "[truncated]". */
  const MARKER_BYTES: nat := 11

  // ----- The budget -----

  /** What the budget makes of a text, and what has been used afterwards. */
  function Charge(text: string, used: nat, limit: nat, mark: string): (string, nat) {
    if limit <= used then (mark, used)
    else
      var encoded := Encode(text);
      if |encoded| <= limit - used then (text, used + |encoded|)
      else (DecodeIgnore(encoded[..limit - used]) + mark, limit)
  }

  class Budget {
    const limit: nat
    const mark: string
    var used: nat

    ghost predicate Valid() reads this { used <= limit }

    constructor (limit: nat, mark: string)
      ensures Valid() && used == 0 && this.limit == limit && this.mark == mark
    {
      this.limit := limit;
      this.mark := mark;
      this.used := 0;
    }

    /** `_RedactionBudget.text`. */
    method Take(value: string) returns (r: string)
      requires Valid()
      modifies this
      ensures Valid() && (r, used) == Charge(value, old(used), limit, mark)
    {
      var remaining := limit - used;
      if remaining <= 0 {
        return mark;
      }
      var encoded := Encode(value);
      if |encoded| <= remaining {
        used := used + |encoded|;
        return value;
      }
      var truncated := DecodeIgnore(encoded[..remaining]);
      used := limit;
      return truncated + mark;
    }
  }

  function Over(s: string): nat {
    if |Encode(s)| > MARKER_BYTES then |Encode(s)| - MARKER_BYTES else 0
  }

  lemma MarkerBytes(marks: Marks)
    requires StandardMarks(marks)
    ensures |Encode(marks.truncated)| == MARKER_BYTES
  {
    assert |Encode("[truncated]")| == 11;
  }

  lemma MarkedOver(kept: string, room: nat, mark: string)
    requires |Encode(kept)| <= room && Over(mark) == 0
    ensures Over(kept + mark) <= room
  {
    EncodeAppend(kept, mark);
  }

  /** A text is kept whole when it fits; otherwise the longest prefix that fits is kept and marked. */
  lemma ChargeMeans(text: string, used: nat, limit: nat, mark: string)
    requires used <= limit
    ensures Charge(text, used, limit, mark) ==
            if used == limit then (mark, limit)
            else if |Encode(text)| <= limit - used then (text, used + |Encode(text)|)
            else (text[..Fitting(text, limit - used)] + mark, limit)
  {
    TruncationExact(text, limit - used);
  }

  /** A text is charged for all its bytes but those of one marker. */
  lemma ChargeExact(text: string, used: nat, limit: nat, mark: string)
    requires used <= limit && Over(mark) == 0
    ensures var r := Charge(text, used, limit, mark);
            used <= r.1 <= limit && Over(r.0) <= r.1 - used
  {
    if used < limit && |Encode(text)| > limit - used {
      TruncationExact(text, limit - used);
      MarkedOver(TruncateToBytes(text, limit - used), limit - used, mark);
    }
  }

  // ----- The walk -----

  function CleanKey(key: string, p: Policy, used: nat): (string, nat) {
    var text := p.redactKey(key);
    Charge(if |text| <= p.maxString then text else text[..p.maxString], used, p.maxBytes, p.marks.truncated)
  }

  function CleanText(text: string, p: Policy, used: nat): (Clean, nat) {
    var r := Charge(text, used, p.maxBytes, p.marks.truncated);
    (Str(r.0), r.1)
  }

  /** `_redact_value`: the redacted value and the budget used so far. */
  function Redact(v: Value, heap: Heap, p: Policy, depth: nat, seen: set<Identity>, used: nat,
                  sensitive: bool): (Clean, nat)
    requires Closed(heap) && Known(v, heap)
    decreases if depth < p.maxDepth then p.maxDepth - depth else 0, 1, 0
  {
    if sensitive then CleanText(p.replacement, p, used)
    else if depth >= p.maxDepth then CleanText(p.marks.tooDeep, p, used)
    else
      match v
      case Text(text) => CleanText(p.redactText(text), p, used)
      case Plain(scalar) => (Scalar(scalar), used)
      case Opaque(safeText) => CleanText(p.redactText(safeText), p, used)
      case Container(id) =>
        if id in seen then CleanText(p.marks.cycle, p, used)
        else
          match heap[id]
          case Mapping(items) =>
            var r := RedactItems(items, p.maxItems, heap, p, depth, seen + {id}, [], used);
            (Dict(r.0), r.1)
          case Sequence(values) =>
            var kept := if |values| <= p.maxItems then values else values[..p.maxItems];
            var r := RedactValues(kept, heap, p, depth, seen + {id}, used);
            if |values| <= p.maxItems then (List(r.0), r.1)
            else
              var marker := CleanText(p.marks.truncated, p, r.1);
              (List(r.0 + [marker.0]), marker.1)
  }

  /** The items of a mapping, filled into the dict `result`, at most `room` of them. */
  function RedactItems(items: seq<Item>, room: nat, heap: Heap, p: Policy, depth: nat, seen: set<Identity>,
                       result: seq<Entry>, used: nat): (seq<Entry>, nat)
    requires Closed(heap) && depth < p.maxDepth && forall x :: x in items ==> Known(x.value, heap)
    decreases p.maxDepth - depth, 0, |items| + 1
  {
    if items == [] then (result, used)
    else if room == 0 then
      var marker := CleanText(p.marks.truncated, p, used);
      (Put(result, Entry(p.marks.truncated, marker.0), KeyOf), marker.1)
    else
      var entry := RedactItem(items[0], heap, p, depth, seen, used);
      RedactItems(items[1..], room - 1, heap, p, depth, seen, Put(result, entry.0, KeyOf), entry.1)
  }

  /** One item: its key is charged first, and decides whether its value is replaced. */
  function RedactItem(item: Item, heap: Heap, p: Policy, depth: nat, seen: set<Identity>, used: nat): (Entry, nat)
    requires Closed(heap) && depth < p.maxDepth && Known(item.value, heap)
    decreases p.maxDepth - depth, 0, 0
  {
    var key := CleanKey(item.key, p, used);
    var value := Redact(item.value, heap, p, depth + 1, seen, key.1, p.sensitive(key.0));
    (Entry(key.0, value.0), value.1)
  }

  function RedactValues(values: seq<Value>, heap: Heap, p: Policy, depth: nat, seen: set<Identity>,
                        used: nat): (r: (seq<Clean>, nat))
    requires Closed(heap) && depth < p.maxDepth && forall x :: x in values ==> Known(x, heap)
    ensures |r.0| == |values|
    decreases p.maxDepth - depth, 0, |values|
  {
    if values == [] then ([], used)
    else
      var front, last := values[..|values| - 1], values[|values| - 1];
      var r := RedactValues(front, heap, p, depth, seen, used);
      var value := Redact(last, heap, p, depth + 1, seen, r.1, false);
      (r.0 + [value.0], value.1)
  }

  /** The rest of a mapping, from item `index` on, ends as `whole`. */
  ghost predicate EndsAs(items: seq<Item>, index: nat, heap: Heap, p: Policy, depth: nat, seen: set<Identity>,
                         result: seq<Entry>, used: nat, whole: (seq<Entry>, nat))
    requires Closed(heap) && depth < p.maxDepth && forall x :: x in items ==> Known(x.value, heap)
    requires index <= |items| && index <= p.maxItems
  {
    RedactItems(items[index..], p.maxItems - index, heap, p, depth, seen, result, used) == whole
  }

  lemma EndsAfterItem(items: seq<Item>, index: nat, heap: Heap, p: Policy, depth: nat, seen: set<Identity>,
                      result: seq<Entry>, used: nat, entry: Entry, after: nat, whole: (seq<Entry>, nat))
    requires Closed(heap) && depth < p.maxDepth && forall x :: x in items ==> Known(x.value, heap)
    requires index < |items| && index < p.maxItems
    requires EndsAs(items, index, heap, p, depth, seen, result, used, whole)
    requires (entry, after) == RedactItem(items[index], heap, p, depth, seen, used)
    ensures EndsAs(items, index + 1, heap, p, depth, seen, Put(result, entry, KeyOf), after, whole)
  {
    var rest := items[index..];
    assert rest[0] == items[index] && rest[1..] == items[index + 1..];
  }

  lemma EndsWithMarker(items: seq<Item>, heap: Heap, p: Policy, depth: nat, seen: set<Identity>,
                       result: seq<Entry>, used: nat, whole: (seq<Entry>, nat))
    requires Closed(heap) && depth < p.maxDepth && forall x :: x in items ==> Known(x.value, heap)
    requires p.maxItems < |items| && EndsAs(items, p.maxItems, heap, p, depth, seen, result, used, whole)
    ensures var marker := CleanText(p.marks.truncated, p, used);
            whole == (Put(result, Entry(p.marks.truncated, marker.0), KeyOf), marker.1)
  {
  }

  lemma EndsHere(items: seq<Item>, heap: Heap, p: Policy, depth: nat, seen: set<Identity>,
                 result: seq<Entry>, used: nat, whole: (seq<Entry>, nat))
    requires Closed(heap) && depth < p.maxDepth && forall x :: x in items ==> Known(x.value, heap)
    requires |items| <= p.maxItems && EndsAs(items, |items|, heap, p, depth, seen, result, used, whole)
    ensures whole == (result, used)
  {
  }

  /** The walk as it runs: one budget and one set of containers being visited, both updated in place. */
  class Walk {
    const heap: Heap
    const policy: Policy
    const budget: Budget
    var seen: set<Identity>

    ghost predicate Valid() reads this, budget {
      Closed(heap) && budget.limit == policy.maxBytes && budget.mark == policy.marks.truncated && budget.Valid()
    }

    constructor (heap: Heap, policy: Policy)
      requires Closed(heap)
      ensures Valid() && fresh(budget) && seen == {} && budget.used == 0
      ensures this.heap == heap && this.policy == policy
    {
      this.heap := heap;
      this.policy := policy;
      this.seen := {};
      this.budget := new Budget(policy.maxBytes, policy.marks.truncated);
    }

    method RedactValue(v: Value, depth: nat, sensitiveKey: bool) returns (r: Clean)
      requires Valid() && Known(v, heap)
      modifies this, budget
      ensures Valid() && seen == old(seen)
      ensures (r, budget.used) == Redact(v, heap, policy, depth, old(seen), old(budget.used), sensitiveKey)
      decreases if depth < policy.maxDepth then policy.maxDepth - depth else 0, 1
    {
      var text: string;
      if sensitiveKey {
        text := budget.Take(policy.replacement);
        return Str(text);
      }
      if depth >= policy.maxDepth {
        text := budget.Take(policy.marks.tooDeep);
        return Str(text);
      }
      match v {
        case Text(value) =>
          text := budget.Take(policy.redactText(value));
          return Str(text);
        case Plain(scalar) => return Scalar(scalar);
        case Opaque(safeText) =>
          text := budget.Take(policy.redactText(safeText));
          return Str(text);
        case Container(id) =>
          if id in seen {
            text := budget.Take(policy.marks.cycle);
            return Str(text);
          }
          var before := seen;
          seen := seen + {id};
          match heap[id] {
            case Mapping(items) => r := RedactMapping(items, depth);
            case Sequence(values) => r := RedactSequence(values, depth);
          }
          seen := seen - {id};
          assert seen == before;
      }
    }

    /** `_redact_key`. */
    method RedactKey(key: string) returns (r: string)
      requires Valid()
      modifies budget
      ensures Valid() && (r, budget.used) == CleanKey(key, policy, old(budget.used))
    {
      var text := policy.redactKey(key);
      r := budget.Take(if |text| <= policy.maxString then text else text[..policy.maxString]);
    }

    /** One turn of the loop over a mapping: the key first, then the value under it. */
    method RedactEntry(item: Item, depth: nat) returns (entry: Entry)
      requires Valid() && depth < policy.maxDepth && Known(item.value, heap)
      modifies this, budget
      ensures Valid() && seen == old(seen)
      ensures (entry, budget.used) == RedactItem(item, heap, policy, depth, old(seen), old(budget.used))
      decreases policy.maxDepth - depth, 0, 0
    {
      var key := RedactKey(item.key);
      var value := RedactValue(item.value, depth + 1, policy.sensitive(key));
      entry := Entry(key, value);
    }

    method RedactMapping(items: seq<Item>, depth: nat) returns (r: Clean)
      requires Valid() && depth < policy.maxDepth && forall x :: x in items ==> Known(x.value, heap)
      modifies this, budget
      ensures Valid() && seen == old(seen) && r.Dict?
      ensures (r.entries, budget.used) ==
              RedactItems(items, policy.maxItems, heap, policy, depth, old(seen), [], old(budget.used))
      decreases policy.maxDepth - depth, 0, 1
    {
      var result: seq<Entry> := [];
      var index := 0;
      ghost var whole := RedactItems(items, policy.maxItems, heap, policy, depth, seen, [], budget.used);
      assert items[0..] == items;
      while index < |items|
        invariant 0 <= index <= |items| && index <= policy.maxItems
        invariant Valid() && seen == old(seen)
        invariant EndsAs(items, index, heap, policy, depth, seen, result, budget.used, whole)
      {
        if index >= policy.maxItems {
          EndsWithMarker(items, heap, policy, depth, seen, result, budget.used, whole);
          var marker := budget.Take(policy.marks.truncated);
          result := Put(result, Entry(policy.marks.truncated, Str(marker)), KeyOf);
          return Dict(result);
        }
        ghost var before := budget.used;
        var entry := RedactEntry(items[index], depth);
        EndsAfterItem(items, index, heap, policy, depth, seen, result, before, entry, budget.used, whole);
        result := Put(result, entry, KeyOf);
        index := index + 1;
      }
      EndsHere(items, heap, policy, depth, seen, result, budget.used, whole);
      return Dict(result);
    }

    method RedactSequence(values: seq<Value>, depth: nat) returns (r: Clean)
      requires Valid() && depth < policy.maxDepth && forall x :: x in values ==> Known(x, heap)
      modifies this, budget
      ensures Valid() && seen == old(seen) && r.List?
      ensures var kept := if |values| <= policy.maxItems then values else values[..policy.maxItems];
              var inner := RedactValues(kept, heap, policy, depth, old(seen), old(budget.used));
              if |values| <= policy.maxItems then (r.values, budget.used) == inner
              else (r.values, budget.used) == (inner.0 + [CleanText(policy.marks.truncated, policy, inner.1).0],
                                               CleanText(policy.marks.truncated, policy, inner.1).1)
      decreases policy.maxDepth - depth, 0
    {
      var count := if |values| <= policy.maxItems then |values| else policy.maxItems;
      var result: seq<Clean> := [];
      for index := 0 to count
        invariant Valid() && seen == old(seen)
        invariant (result, budget.used) == RedactValues(values[..index], heap, policy, depth, seen, old(budget.used))
      {
        assert values[..index + 1][..index] == values[..index];
        var value := RedactValue(values[index], depth + 1, false);
        result := result + [value];
      }
      assert |values| <= policy.maxItems ==> values[..count] == values;
      if |values| > policy.maxItems {
        var marker := budget.Take(policy.marks.truncated);
        result := result + [Str(marker)];
      }
      return List(result);
    }
  }

  /** `redact_diagnostic_value`. */
  method RedactDiagnostic(v: Value, heap: Heap, policy: Policy) returns (r: Clean)
    requires Closed(heap) && Known(v, heap)
    ensures r == Redact(v, heap, policy, 0, {}, 0, false).0
  {
    var walk := new Walk(heap, policy);
    r := walk.RedactValue(v, 0, false);
  }

  // ----- Bounds -----

  /** The bytes of all strings, not counting the first eleven of each. */
  function Excess(c: Clean): nat {
    match c
    case Str(text) => Over(text)
    case Scalar(_) => 0
    case Dict(entries) => EntriesExcess(entries)
    case List(values) => ValuesExcess(values)
  }

  function EntriesExcess(entries: seq<Entry>): nat {
    if entries == [] then 0 else Over(entries[0].key) + Excess(entries[0].value) + EntriesExcess(entries[1..])
  }

  function ValuesExcess(values: seq<Clean>): nat {
    if values == [] then 0 else Excess(values[0]) + ValuesExcess(values[1..])
  }

  /** At most `levels` containers inside one another, each of at most `width` entries with distinct keys. */
  ghost predicate Bounded(c: Clean, levels: int, width: nat) {
    match c
    case Dict(entries) =>
      levels > 0 && |entries| <= width && DistinctBy(entries, KeyOf) &&
      forall e :: e in entries ==> Bounded(e.value, levels - 1, width)
    case List(values) =>
      levels > 0 && |values| <= width && forall x :: x in values ==> Bounded(x, levels - 1, width)
    case _ => true
  }

  lemma {:induction false} PutExcess(entries: seq<Entry>, e: Entry)
    ensures EntriesExcess(Put(entries, e, KeyOf)) <= EntriesExcess(entries) + Over(e.key) + Excess(e.value)
  {
    if entries == [] {
    } else if entries[0].key == e.key {
    } else {
      PutExcess(entries[1..], e);
    }
  }

  lemma {:induction false} AppendExcess(values: seq<Clean>, c: Clean)
    ensures ValuesExcess(values + [c]) == ValuesExcess(values) + Excess(c)
  {
    if values != [] {
      assert (values + [c])[1..] == values[1..] + [c];
      AppendExcess(values[1..], c);
    } else {
      assert [] + [c] == [c];
    }
  }

  /** What one redaction guarantees: its bytes are charged, and its shape is bounded. */
  ghost predicate Guaranteed(c: Clean, before: nat, after: nat, levels: int, p: Policy) {
    before <= after <= p.maxBytes && Excess(c) <= after - before && Bounded(c, levels, p.maxItems + 1)
  }

  /** There is budget left to speak of, and the marker itself is never charged for. */
  predicate Affordable(p: Policy, used: nat) {
    used <= p.maxBytes && Over(p.marks.truncated) == 0
  }

  lemma TextGuaranteed(text: string, p: Policy, used: nat, levels: int)
    requires Affordable(p, used)
    ensures var r := CleanText(text, p, used);
            Guaranteed(r.0, used, r.1, levels, p)
  {
    ChargeExact(text, used, p.maxBytes, p.marks.truncated);
  }

  lemma {:induction false} RedactGuaranteed(v: Value, heap: Heap, p: Policy, depth: nat, seen: set<Identity>, used: nat,
                                            sensitive: bool)
    requires Closed(heap) && Known(v, heap) && Affordable(p, used) && depth <= p.maxDepth
    ensures var r := Redact(v, heap, p, depth, seen, used, sensitive);
            Guaranteed(r.0, used, r.1, p.maxDepth - depth, p)
    decreases p.maxDepth - depth, 1, 0
  {
    forall text
      ensures Guaranteed(CleanText(text, p, used).0, used, CleanText(text, p, used).1, p.maxDepth - depth, p)
    {
      TextGuaranteed(text, p, used, p.maxDepth - depth);
    }
    if !sensitive && depth < p.maxDepth && v.Container? && v.id !in seen {
      match heap[v.id]
      case Mapping(items) => ItemsGuaranteed(items, p.maxItems, heap, p, depth, seen + {v.id}, [], used);
      case Sequence(values) =>
        if |values| <= p.maxItems {
          SequenceGuaranteed(values, heap, p, depth, seen + {v.id}, used);
        } else {
          CutSequenceGuaranteed(values[..p.maxItems], p.marks.truncated, heap, p, depth, seen + {v.id}, used);
        }
    }
  }

  lemma {:induction false} SequenceGuaranteed(values: seq<Value>, heap: Heap, p: Policy, depth: nat,
                                              seen: set<Identity>, used: nat)
    requires Closed(heap) && depth < p.maxDepth && Affordable(p, used) && |values| <= p.maxItems
    requires forall x :: x in values ==> Known(x, heap)
    ensures var r := RedactValues(values, heap, p, depth, seen, used);
            Guaranteed(List(r.0), used, r.1, p.maxDepth - depth, p)
    decreases p.maxDepth - depth, 0, |values| + 1
  {
    ValuesGuaranteed(values, heap, p, depth, seen, used);
  }

  lemma {:induction false} CutSequenceGuaranteed(values: seq<Value>, mark: string, heap: Heap, p: Policy, depth: nat,
                                                 seen: set<Identity>, used: nat)
    requires Closed(heap) && depth < p.maxDepth && Affordable(p, used) && |values| <= p.maxItems
    requires forall x :: x in values ==> Known(x, heap)
    ensures var r := RedactValues(values, heap, p, depth, seen, used);
            var marker := CleanText(mark, p, r.1);
            Guaranteed(List(r.0 + [marker.0]), used, marker.1, p.maxDepth - depth, p)
    decreases p.maxDepth - depth, 0, |values| + 1
  {
    ValuesGuaranteed(values, heap, p, depth, seen, used);
    var r := RedactValues(values, heap, p, depth, seen, used);
    var marker := CleanText(mark, p, r.1);
    TextGuaranteed(mark, p, r.1, p.maxDepth - depth - 1);
    MarkedSequence(r.0, marker.0, p, p.maxDepth - depth, used, r.1, marker.1);
  }

  lemma MarkedSequence(values: seq<Clean>, marker: Clean, p: Policy, levels: nat, before: nat, used: nat, after: nat)
    requires before <= used <= p.maxBytes && ValuesExcess(values) <= used - before && levels > 0 &&
             |values| <= p.maxItems
    requires forall x :: x in values ==> Bounded(x, levels - 1, p.maxItems + 1)
    requires Guaranteed(marker, used, after, levels - 1, p)
    ensures Guaranteed(List(values + [marker]), before, after, levels, p)
  {
    AppendExcess(values, marker);
    AppendBounded(values, marker, levels - 1, p.maxItems + 1);
  }

  lemma AppendBounded(values: seq<Clean>, c: Clean, levels: int, width: nat)
    requires (forall x :: x in values ==> Bounded(x, levels, width)) && Bounded(c, levels, width)
    ensures forall x :: x in values + [c] ==> Bounded(x, levels, width)
  {
  }

  ghost predicate EntriesBounded(entries: seq<Entry>, levels: int, width: nat) {
    DistinctBy(entries, KeyOf) && forall e :: e in entries ==> Bounded(e.value, levels - 1, width)
  }

  lemma KeyGuaranteed(key: string, p: Policy, used: nat)
    requires Affordable(p, used)
    ensures var r := CleanKey(key, p, used);
            used <= r.1 <= p.maxBytes && Over(r.0) <= r.1 - used
  {
    var text := p.redactKey(key);
    ChargeExact(if |text| <= p.maxString then text else text[..p.maxString], used, p.maxBytes, p.marks.truncated);
  }

  ghost predicate ItemBounded(e: Entry, before: nat, after: nat, levels: int, p: Policy) {
    before <= after <= p.maxBytes && Over(e.key) + Excess(e.value) <= after - before &&
    Bounded(e.value, levels, p.maxItems + 1)
  }

  lemma ItemBounds(key: string, value: Clean, before: nat, middle: nat, after: nat, levels: int, p: Policy)
    requires before <= middle <= p.maxBytes && Over(key) <= middle - before
    requires Guaranteed(value, middle, after, levels, p)
    ensures ItemBounded(Entry(key, value), before, after, levels, p)
  {
  }

  lemma {:induction false} ItemGuaranteed(item: Item, heap: Heap, p: Policy, depth: nat, seen: set<Identity>, used: nat)
    requires Closed(heap) && depth < p.maxDepth && Affordable(p, used) && Known(item.value, heap)
    ensures var r := RedactItem(item, heap, p, depth, seen, used);
            ItemBounded(r.0, used, r.1, p.maxDepth - depth - 1, p)
    decreases p.maxDepth - depth, 0, 0
  {
    KeyGuaranteed(item.key, p, used);
    var key := CleanKey(item.key, p, used);
    RedactGuaranteed(item.value, heap, p, depth + 1, seen, key.1, p.sensitive(key.0));
    var value := Redact(item.value, heap, p, depth + 1, seen, key.1, p.sensitive(key.0));
    ItemBounds(key.0, value.0, used, key.1, value.1, p.maxDepth - depth - 1, p);
  }

  lemma PutBounded(entries: seq<Entry>, e: Entry, levels: int, width: nat)
    requires EntriesBounded(entries, levels, width) && Bounded(e.value, levels - 1, width)
    ensures EntriesBounded(Put(entries, e, KeyOf), levels, width)
    ensures EntriesExcess(Put(entries, e, KeyOf)) <= EntriesExcess(entries) + Over(e.key) + Excess(e.value)
    ensures |Put(entries, e, KeyOf)| <= |entries| + 1
  {
    PutMeans(entries, e, KeyOf);
    PutExcess(entries, e);
  }

  /** From `before` with `result` filled in so far, the mapping ends as `r` with `after` used. */
  ghost predicate ItemsBounded(result: seq<Entry>, before: nat, r: seq<Entry>, after: nat, levels: int, p: Policy) {
    before <= after <= p.maxBytes && EntriesExcess(r) <= EntriesExcess(result) + after - before &&
    |r| <= p.maxItems + 1 && EntriesBounded(r, levels, p.maxItems + 1)
  }

  lemma ItemsStep(result: seq<Entry>, before: nat, e: Entry, middle: nat, r: seq<Entry>, after: nat, levels: int,
                  p: Policy)
    requires EntriesBounded(result, levels, p.maxItems + 1) && ItemBounded(e, before, middle, levels - 1, p)
    requires ItemsBounded(Put(result, e, KeyOf), middle, r, after, levels, p)
    ensures ItemsBounded(result, before, r, after, levels, p)
  {
    PutBounded(result, e, levels, p.maxItems + 1);
  }

  lemma LastItem(result: seq<Entry>, before: nat, e: Entry, after: nat, levels: int, p: Policy)
    requires |result| <= p.maxItems && EntriesBounded(result, levels, p.maxItems + 1)
    requires ItemBounded(e, before, after, levels - 1, p)
    ensures ItemsBounded(result, before, Put(result, e, KeyOf), after, levels, p)
  {
    PutBounded(result, e, levels, p.maxItems + 1);
  }

  lemma LastMarker(result: seq<Entry>, used: nat, levels: int, p: Policy)
    requires Affordable(p, used) && |result| <= p.maxItems && EntriesBounded(result, levels, p.maxItems + 1)
    ensures var marker := CleanText(p.marks.truncated, p, used);
            ItemsBounded(result, used, Put(result, Entry(p.marks.truncated, marker.0), KeyOf), marker.1, levels, p)
  {
    var marker := CleanText(p.marks.truncated, p, used);
    TextGuaranteed(p.marks.truncated, p, used, levels - 1);
    LastItem(result, used, Entry(p.marks.truncated, marker.0), marker.1, levels, p);
  }

  lemma {:induction false} ItemsGuaranteed(items: seq<Item>, room: nat, heap: Heap, p: Policy, depth: nat,
                                           seen: set<Identity>, result: seq<Entry>, used: nat)
    requires Closed(heap) && depth < p.maxDepth && Affordable(p, used)
    requires forall x :: x in items ==> Known(x.value, heap)
    requires |result| + room <= p.maxItems && EntriesBounded(result, p.maxDepth - depth, p.maxItems + 1)
    ensures var r := RedactItems(items, room, heap, p, depth, seen, result, used);
            ItemsBounded(result, used, r.0, r.1, p.maxDepth - depth, p)
    decreases p.maxDepth - depth, 0, 2 * |items| + 2
  {
    if items == [] {
    } else if room == 0 {
      LastMarker(result, used, p.maxDepth - depth, p);
    } else {
      var e := RedactItem(items[0], heap, p, depth, seen, used);
      ItemGuaranteed(items[0], heap, p, depth, seen, used);
      NextItems(items[1..], room - 1, heap, p, depth, seen, result, used, e.0, e.1);
    }
  }

  lemma {:induction false} NextItems(items: seq<Item>, room: nat, heap: Heap, p: Policy, depth: nat,
                                     seen: set<Identity>, result: seq<Entry>, used: nat, e: Entry, after: nat)
    requires Closed(heap) && depth < p.maxDepth && forall x :: x in items ==> Known(x.value, heap)
    requires |result| + 1 + room <= p.maxItems && EntriesBounded(result, p.maxDepth - depth, p.maxItems + 1)
    requires ItemBounded(e, used, after, p.maxDepth - depth - 1, p) && Affordable(p, after)
    ensures var r := RedactItems(items, room, heap, p, depth, seen, Put(result, e, KeyOf), after);
            ItemsBounded(result, used, r.0, r.1, p.maxDepth - depth, p)
    decreases p.maxDepth - depth, 0, 2 * |items| + 3
  {
    PutBounded(result, e, p.maxDepth - depth, p.maxItems + 1);
    ItemsGuaranteed(items, room, heap, p, depth, seen, Put(result, e, KeyOf), after);
    var r := RedactItems(items, room, heap, p, depth, seen, Put(result, e, KeyOf), after);
    ItemsStep(result, used, e, after, r.0, r.1, p.maxDepth - depth, p);
  }

  lemma {:induction false} ValuesGuaranteed(values: seq<Value>, heap: Heap, p: Policy, depth: nat, seen: set<Identity>,
                                            used: nat)
    requires Closed(heap) && depth < p.maxDepth && Affordable(p, used) && forall x :: x in values ==> Known(x, heap)
    ensures var r := RedactValues(values, heap, p, depth, seen, used);
            used <= r.1 <= p.maxBytes && ValuesExcess(r.0) <= r.1 - used &&
            forall x :: x in r.0 ==> Bounded(x, p.maxDepth - depth - 1, p.maxItems + 1)
    decreases p.maxDepth - depth, 0, |values|
  {
    if values != [] {
      var front, last := values[..|values| - 1], values[|values| - 1];
      ValuesGuaranteed(front, heap, p, depth, seen, used);
      var r := RedactValues(front, heap, p, depth, seen, used);
      RedactGuaranteed(last, heap, p, depth + 1, seen, r.1, false);
      AppendExcess(r.0, Redact(last, heap, p, depth + 1, seen, r.1, false).0);
    }
  }

  // ----- In bytes -----

  /** The number of strings in a redacted value, keys included. */
  function Strings(c: Clean): nat {
    match c
    case Str(_) => 1
    case Scalar(_) => 0
    case Dict(entries) => EntriesStrings(entries)
    case List(values) => ValuesStrings(values)
  }

  function EntriesStrings(entries: seq<Entry>): nat {
    if entries == [] then 0 else 1 + Strings(entries[0].value) + EntriesStrings(entries[1..])
  }

  function ValuesStrings(values: seq<Clean>): nat {
    if values == [] then 0 else Strings(values[0]) + ValuesStrings(values[1..])
  }

  /** The UTF-8 bytes of all its strings together. */
  function Bytes(c: Clean): nat {
    match c
    case Str(text) => |Encode(text)|
    case Scalar(_) => 0
    case Dict(entries) => EntriesBytes(entries)
    case List(values) => ValuesBytes(values)
  }

  function EntriesBytes(entries: seq<Entry>): nat {
    if entries == [] then 0 else |Encode(entries[0].key)| + Bytes(entries[0].value) + EntriesBytes(entries[1..])
  }

  function ValuesBytes(values: seq<Clean>): nat {
    if values == [] then 0 else Bytes(values[0]) + ValuesBytes(values[1..])
  }

  lemma {:induction false} BytesByExcess(c: Clean)
    ensures Bytes(c) <= Excess(c) + MARKER_BYTES * Strings(c)
    decreases c, 0
  {
    match c
    case Dict(entries) => EntriesByExcess(entries);
    case List(values) => ValuesByExcess(values);
    case _ =>
  }

  lemma {:induction false} EntriesByExcess(entries: seq<Entry>)
    ensures EntriesBytes(entries) <= EntriesExcess(entries) + MARKER_BYTES * EntriesStrings(entries)
    decreases entries, 1
  {
    if entries != [] {
      BytesByExcess(entries[0].value);
      EntriesByExcess(entries[1..]);
    }
  }

  lemma {:induction false} ValuesByExcess(values: seq<Clean>)
    ensures ValuesBytes(values) <= ValuesExcess(values) + MARKER_BYTES * ValuesStrings(values)
    decreases values, 1
  {
    if values != [] {
      BytesByExcess(values[0]);
      ValuesByExcess(values[1..]);
    }
  }

  /**
   Whatever the value graph, cycles included: the redacted value nests at most `maxDepth` containers
   of at most `maxItems + 1` entries each, and all its strings together take at most `maxBytes`
   bytes plus one marker for each string.
   */
  lemma RedactionBounded(v: Value, heap: Heap, p: Policy)
    requires Closed(heap) && Known(v, heap)
    requires StandardMarks(p.marks)
    ensures var r := Redact(v, heap, p, 0, {}, 0, false);
            Bounded(r.0, p.maxDepth, p.maxItems + 1) &&
            Bytes(r.0) <= p.maxBytes + MARKER_BYTES * Strings(r.0) && r.1 <= p.maxBytes
  {
    MarkerBytes(p.marks);
    BoundedFrom(v, heap, p);
  }

  lemma BoundedFrom(v: Value, heap: Heap, p: Policy)
    requires Closed(heap) && Known(v, heap) && Affordable(p, 0)
    ensures var r := Redact(v, heap, p, 0, {}, 0, false);
            Bounded(r.0, p.maxDepth, p.maxItems + 1) &&
            Bytes(r.0) <= p.maxBytes + MARKER_BYTES * Strings(r.0) && r.1 <= p.maxBytes
  {
    RedactGuaranteed(v, heap, p, 0, {}, 0, false);
    BytesByExcess(Redact(v, heap, p, 0, {}, 0, false).0);
  }
}
