/**
 When values below sensitive keys stay out of a redacted value. A key is looked at after it has been
 cut to the string length and charged to the budget, so a sensitive key that either of them cuts may no
 longer look sensitive. A key the budget cuts leaves no budget, so that only numbers and the shape of
 containers show below it; a key the string length cuts leaves all of it, so that texts show as well.
 */
module RedactionExposure {
  import opened Basics
  import opened Redaction
  import opened RedactionSecrecy
  import opened Utf8

  // ----- One item -----

  /** The key fits in what the budget has left. */
  predicate KeyFits(key: string, p: Policy, used: nat) {
    used < p.maxBytes && |Encode(ShownKey(key, p))| <= p.maxBytes - used
  }

  /** The key as the walk looks at it when it does not fit. */
  function CutKey(key: string, p: Policy, used: nat): string
    requires used <= p.maxBytes
  {
    ShownKey(key, p)[..Fitting(ShownKey(key, p), p.maxBytes - used)] + p.marks.truncated
  }

  lemma KeyByRoom(key: string, p: Policy, used: nat)
    requires used <= p.maxBytes
    ensures CleanKey(key, p, used) ==
            if KeyFits(key, p, used) then (ShownKey(key, p), used + |Encode(ShownKey(key, p))|)
            else (CutKey(key, p, used), p.maxBytes)
  {
    ChargeMeans(ShownKey(key, p), used, p.maxBytes, p.marks.truncated);
    if used == p.maxBytes {
      FittingNothing(ShownKey(key, p));
      assert CutKey(key, p, used) == p.marks.truncated;
    }
  }

  lemma FittingNothing(s: string)
    ensures Fitting(s, 0) == 0
  {
    FittingLongest(s, 0, Fitting(s, 0));
  }

  /** The form of the key the walk looks at, and the budget used once the key is charged. */
  function LookedKey(key: string, p: Policy, used: nat): string
    requires used <= p.maxBytes
  {
    if KeyFits(key, p, used) then ShownKey(key, p) else CutKey(key, p, used)
  }

  function AfterKey(key: string, p: Policy, used: nat): nat
    requires used <= p.maxBytes
  {
    if KeyFits(key, p, used) then used + |Encode(ShownKey(key, p))| else p.maxBytes
  }

  /** Below a key that looks sensitive and fits, every value becomes the replacement, containers included. */
  lemma FittingKeyHides(item: Item, h: Heap, p: Policy, depth: nat, seen: set<Identity>, used: nat)
    requires Closed(h) && Known(item.value, h) && depth < p.maxDepth
    requires LooksSensitive(item.key, p) && KeyFits(item.key, p, used)
    ensures var after := used + |Encode(ShownKey(item.key, p))|;
            var text := CleanText(p.replacement, p, after);
            RedactItem(item, h, p, depth, seen, used) == (Entry(ShownKey(item.key, p), text.0), text.1)
  {
    KeyByRoom(item.key, p, used);
  }

  lemma ItemByRoom(item: Item, h: Heap, p: Policy, depth: nat, seen: set<Identity>, used: nat)
    requires Closed(h) && Known(item.value, h) && depth < p.maxDepth && used <= p.maxBytes
    ensures var key, after := LookedKey(item.key, p, used), AfterKey(item.key, p, used);
            var value := Redact(item.value, h, p, depth + 1, seen, after, p.sensitive(key));
            RedactItem(item, h, p, depth, seen, used) == (Entry(key, value.0), value.1)
  {
    KeyByRoom(item.key, p, used);
  }

  /** What an item shows is the same for every value. */
  ghost predicate ItemHidden(key: string, h: Heap, p: Policy, depth: nat, seen: set<Identity>, used: nat)
    requires Closed(h) && depth < p.maxDepth
  {
    forall x, y :: Known(x, h) && Known(y, h) ==>
      RedactItem(Item(key, x), h, p, depth, seen, used) == RedactItem(Item(key, y), h, p, depth, seen, used)
  }

  /**
   Whatever the key, an item shows nothing of its value exactly when the form of the key the walk looks at,
   cut to the string length and to what the budget has left, is sensitive, or the depth allows no value.
   */
  lemma ItemHiddenExactly(key: string, h: Heap, p: Policy, depth: nat, seen: set<Identity>, used: nat)
    requires Closed(h) && depth < p.maxDepth && used <= p.maxBytes
    ensures ItemHidden(key, h, p, depth, seen, used) <==>
            p.sensitive(LookedKey(key, p, used)) || depth + 1 == p.maxDepth
  {
    ItemByRoom(Item(key, Plain(0)), h, p, depth, seen, used);
    ItemByRoom(Item(key, Plain(1)), h, p, depth, seen, used);
    assert Known(Plain(0), h) && Known(Plain(1), h);
    if p.sensitive(LookedKey(key, p, used)) || depth + 1 == p.maxDepth {
      forall x, y | Known(x, h) && Known(y, h)
        ensures RedactItem(Item(key, x), h, p, depth, seen, used) == RedactItem(Item(key, y), h, p, depth, seen, used)
      {
        ItemByRoom(Item(key, x), h, p, depth, seen, used);
        ItemByRoom(Item(key, y), h, p, depth, seen, used);
      }
    }
  }

  /** A number is shown exactly when the form of its key the walk looks at is not sensitive, and the depth allows it. */
  lemma NumberShownExactly(key: string, n: int, h: Heap, p: Policy, depth: nat, seen: set<Identity>, used: nat)
    requires Closed(h) && depth < p.maxDepth && used <= p.maxBytes
    ensures RedactItem(Item(key, Plain(n)), h, p, depth, seen, used).0.value == Scalar(n) <==>
            !p.sensitive(LookedKey(key, p, used)) && depth + 1 < p.maxDepth
  {
    ItemByRoom(Item(key, Plain(n)), h, p, depth, seen, used);
  }

  /**
   Two texts with different redacted forms, each of which fits in what the key leaves of the budget if it
   leaves any, can be told apart exactly when the form of the key the walk looks at is not sensitive, the
   depth allows it, and the key does leave some budget.
   */
  lemma TextShownExactly(key: string, s: string, t: string, h: Heap, p: Policy, depth: nat, seen: set<Identity>,
                         used: nat)
    requires Closed(h) && depth < p.maxDepth && used <= p.maxBytes && p.redactText(s) != p.redactText(t)
    requires var left := p.maxBytes - AfterKey(key, p, used);
             left > 0 ==> |Encode(p.redactText(s))| <= left && |Encode(p.redactText(t))| <= left
    ensures RedactItem(Item(key, Text(s)), h, p, depth, seen, used).0.value !=
            RedactItem(Item(key, Text(t)), h, p, depth, seen, used).0.value <==>
            !p.sensitive(LookedKey(key, p, used)) && depth + 1 < p.maxDepth && AfterKey(key, p, used) < p.maxBytes
  {
    ItemByRoom(Item(key, Text(s)), h, p, depth, seen, used);
    ItemByRoom(Item(key, Text(t)), h, p, depth, seen, used);
  }

  // ----- Whole values -----

  /** Items with one redacted key: below a sensitive one anything, below another alike values. */
  predicate SameShown(a: Item, b: Item, p: Policy) {
    p.redactKey(a.key) == p.redactKey(b.key) && (SensitiveKey(a.key, p) || SameValue(a.value, b.value, p))
  }

  ghost predicate SameShownItems(a: seq<Item>, b: seq<Item>, p: Policy) {
    |a| == |b| && forall i :: 0 <= i < |a| ==> SameShown(a[i], b[i], p)
  }

  ghost predicate SameShownNode(a: Node, b: Node, p: Policy) {
    match a
    case Mapping(items) => b.Mapping? && SameShownItems(items, b.items, p)
    case Sequence(values) => b.Sequence? && SameValues(values, b.values, p)
  }

  /** Graphs that differ only below sensitive keys, in any way, and in texts with one redacted form. */
  ghost predicate SameAbove(h: Heap, g: Heap, p: Policy) {
    h.Keys == g.Keys && forall id :: id in h ==> SameShownNode(h[id], g[id], p)
  }

  /** The keys the rest of a mapping writes into the result. */
  function KeysWritten(items: seq<Item>, room: nat, h: Heap, p: Policy, depth: nat, seen: set<Identity>,
                       used: nat): set<string>
    requires Closed(h) && depth < p.maxDepth && forall x :: x in items ==> Known(x.value, h)
  {
    if items == [] then {}
    else if room == 0 then {p.marks.truncated}
    else
      var entry := RedactItem(items[0], h, p, depth, seen, used);
      {entry.0.key} + KeysWritten(items[1..], room - 1, h, p, depth, seen, entry.1)
  }

  /**
   Somewhere in the result stands a value from below a sensitive key: the walk looked at the key in a
   form that is not sensitive, and nothing it wrote later took the place of what it found.
   */
  predicate Exposed(v: Value, h: Heap, p: Policy, depth: nat, seen: set<Identity>, used: nat, sensitive: bool)
    requires Closed(h) && Known(v, h)
    decreases if depth < p.maxDepth then p.maxDepth - depth else 0, 1, 0
  {
    !sensitive && depth < p.maxDepth && v.Container? && v.id !in seen &&
    match h[v.id]
    case Mapping(items) => ItemsExposed(items, p.maxItems, h, p, depth, seen + {v.id}, used)
    case Sequence(values) =>
      ValuesExposed(if |values| <= p.maxItems then values else values[..p.maxItems], h, p, depth, seen + {v.id}, used)
  }

  predicate ItemExposed(item: Item, h: Heap, p: Policy, depth: nat, seen: set<Identity>, used: nat)
    requires Closed(h) && depth < p.maxDepth && Known(item.value, h)
    decreases p.maxDepth - depth, 0, 0
  {
    var key := CleanKey(item.key, p, used);
    if SensitiveKey(item.key, p) then !p.sensitive(key.0) && depth + 1 < p.maxDepth
    else Exposed(item.value, h, p, depth + 1, seen, key.1, p.sensitive(key.0))
  }

  predicate ItemsExposed(items: seq<Item>, room: nat, h: Heap, p: Policy, depth: nat, seen: set<Identity>, used: nat)
    requires Closed(h) && depth < p.maxDepth && forall x :: x in items ==> Known(x.value, h)
    decreases p.maxDepth - depth, 0, |items| + 1
  {
    items != [] && room > 0 &&
    var entry := RedactItem(items[0], h, p, depth, seen, used);
    || (ItemExposed(items[0], h, p, depth, seen, used) &&
        entry.0.key !in KeysWritten(items[1..], room - 1, h, p, depth, seen, entry.1))
    || ItemsExposed(items[1..], room - 1, h, p, depth, seen, entry.1)
  }

  predicate ValuesExposed(values: seq<Value>, h: Heap, p: Policy, depth: nat, seen: set<Identity>, used: nat)
    requires Closed(h) && depth < p.maxDepth && forall x :: x in values ==> Known(x, h)
    decreases p.maxDepth - depth, 0, |values|
  {
    values != [] &&
    var front, last := values[..|values| - 1], values[|values| - 1];
    || ValuesExposed(front, h, p, depth, seen, used)
    || Exposed(last, h, p, depth + 1, seen, RedactValues(front, h, p, depth, seen, used).1, false)
  }

  /** With budget left, the walk goes into a value below a sensitive key, whether or not the result keeps it. */
  predicate Looked(v: Value, h: Heap, p: Policy, depth: nat, seen: set<Identity>, used: nat, sensitive: bool)
    requires Closed(h) && Known(v, h)
    decreases if depth < p.maxDepth then p.maxDepth - depth else 0, 1, 0
  {
    !sensitive && depth < p.maxDepth && v.Container? && v.id !in seen &&
    match h[v.id]
    case Mapping(items) => ItemsLooked(items, p.maxItems, h, p, depth, seen + {v.id}, used)
    case Sequence(values) =>
      ValuesLooked(if |values| <= p.maxItems then values else values[..p.maxItems], h, p, depth, seen + {v.id}, used)
  }

  predicate ItemLooked(item: Item, h: Heap, p: Policy, depth: nat, seen: set<Identity>, used: nat)
    requires Closed(h) && depth < p.maxDepth && Known(item.value, h)
    decreases p.maxDepth - depth, 0, 0
  {
    var key := CleanKey(item.key, p, used);
    if SensitiveKey(item.key, p) then !p.sensitive(key.0) && depth + 1 < p.maxDepth && key.1 < p.maxBytes
    else Looked(item.value, h, p, depth + 1, seen, key.1, p.sensitive(key.0))
  }

  predicate ItemsLooked(items: seq<Item>, room: nat, h: Heap, p: Policy, depth: nat, seen: set<Identity>, used: nat)
    requires Closed(h) && depth < p.maxDepth && forall x :: x in items ==> Known(x.value, h)
    decreases p.maxDepth - depth, 0, |items| + 1
  {
    items != [] && room > 0 &&
    (ItemLooked(items[0], h, p, depth, seen, used) ||
     ItemsLooked(items[1..], room - 1, h, p, depth, seen, RedactItem(items[0], h, p, depth, seen, used).1))
  }

  predicate ValuesLooked(values: seq<Value>, h: Heap, p: Policy, depth: nat, seen: set<Identity>, used: nat)
    requires Closed(h) && depth < p.maxDepth && forall x :: x in values ==> Known(x, h)
    decreases p.maxDepth - depth, 0, |values|
  {
    values != [] &&
    var front, last := values[..|values| - 1], values[|values| - 1];
    || ValuesLooked(front, h, p, depth, seen, used)
    || Looked(last, h, p, depth + 1, seen, RedactValues(front, h, p, depth, seen, used).1, false)
  }

  // ----- A spent budget stays as it is -----

  lemma {:induction false} SpentStays(v: Value, h: Heap, p: Policy, depth: nat, seen: set<Identity>, used: nat,
                                      sensitive: bool)
    requires Closed(h) && Known(v, h) && p.maxBytes <= used
    ensures Redact(v, h, p, depth, seen, used, sensitive).1 == used && !Looked(v, h, p, depth, seen, used, sensitive)
    decreases if depth < p.maxDepth then p.maxDepth - depth else 0, 1, 0
  {
    if !sensitive && depth < p.maxDepth && v.Container? && v.id !in seen {
      match h[v.id]
      case Mapping(items) => ItemsSpent(items, p.maxItems, h, p, depth, seen + {v.id}, [], used);
      case Sequence(values) =>
        ValuesSpent(if |values| <= p.maxItems then values else values[..p.maxItems], h, p, depth, seen + {v.id}, used);
    }
  }

  lemma {:induction false} ItemsSpent(items: seq<Item>, room: nat, h: Heap, p: Policy, depth: nat, seen: set<Identity>,
                                      result: seq<Entry>, used: nat)
    requires Closed(h) && depth < p.maxDepth && p.maxBytes <= used && forall x :: x in items ==> Known(x.value, h)
    ensures RedactItems(items, room, h, p, depth, seen, result, used).1 == used
    ensures !ItemsLooked(items, room, h, p, depth, seen, used)
    decreases p.maxDepth - depth, 0, |items| + 1
  {
    if items != [] && room > 0 {
      var key := CleanKey(items[0].key, p, used);
      SpentStays(items[0].value, h, p, depth + 1, seen, key.1, p.sensitive(key.0));
      var entry := RedactItem(items[0], h, p, depth, seen, used);
      ItemsSpent(items[1..], room - 1, h, p, depth, seen, Put(result, entry.0, KeyOf), entry.1);
    }
  }

  lemma {:induction false} ValuesSpent(values: seq<Value>, h: Heap, p: Policy, depth: nat, seen: set<Identity>,
                                       used: nat)
    requires Closed(h) && depth < p.maxDepth && p.maxBytes <= used && forall x :: x in values ==> Known(x, h)
    ensures RedactValues(values, h, p, depth, seen, used).1 == used && !ValuesLooked(values, h, p, depth, seen, used)
    decreases p.maxDepth - depth, 0, |values|
  {
    if values != [] {
      var front, last := values[..|values| - 1], values[|values| - 1];
      ValuesSpent(front, h, p, depth, seen, used);
      SpentStays(last, h, p, depth + 1, seen, used, false);
    }
  }

  // ----- Two dicts filled alike -----

  ghost predicate SameKeys(r: seq<Entry>, s: seq<Entry>) {
    |r| == |s| && forall i :: 0 <= i < |r| ==> r[i].key == s[i].key
  }

  /** The two dicts agree, except perhaps on keys that will be written again. */
  ghost predicate EqualBut(r: seq<Entry>, s: seq<Entry>, later: set<string>) {
    SameKeys(r, s) && forall i :: 0 <= i < |r| ==> r[i].key in later || r[i] == s[i]
  }

  lemma {:induction false} PutKeys(r: seq<Entry>, s: seq<Entry>, e: Entry, f: Entry)
    requires SameKeys(r, s) && e.key == f.key && DistinctBy(r, KeyOf)
    ensures SameKeys(Put(r, e, KeyOf), Put(s, f, KeyOf)) && DistinctBy(Put(r, e, KeyOf), KeyOf)
  {
    PutMeans(r, e, KeyOf);
    PutSameKeys(r, s, e, f);
  }

  lemma {:induction false} PutSameKeys(r: seq<Entry>, s: seq<Entry>, e: Entry, f: Entry)
    requires SameKeys(r, s) && e.key == f.key
    ensures SameKeys(Put(r, e, KeyOf), Put(s, f, KeyOf))
  {
    if r != [] {
      PutSameKeys(r[1..], s[1..], e, f);
    }
  }

  /** After one more write, the dicts agree but for later keys exactly when they did so before. */
  lemma {:induction false} PutEqualBut(r: seq<Entry>, s: seq<Entry>, e: Entry, f: Entry, later: set<string>)
    requires SameKeys(r, s) && e.key == f.key && DistinctBy(r, KeyOf)
    ensures EqualBut(Put(r, e, KeyOf), Put(s, f, KeyOf), later) <==>
            EqualBut(r, s, {e.key} + later) && (e.key in later || e == f)
  {
    PutSameKeys(r, s, e, f);
    if r == [] {
      EqualHead([e], [f], later);
    } else {
      PutEqualBut(r[1..], s[1..], e, f, later);
      PutSameKeys(r[1..], s[1..], e, f);
      EqualHead(r, s, {e.key} + later);
      EqualHead(Put(r, e, KeyOf), Put(s, f, KeyOf), later);
      if r[0].key == e.key {
        assert Put(r, e, KeyOf)[1..] == r[1..] && Put(s, f, KeyOf)[1..] == s[1..];
        NoKeyAgain(r, s, later);
      } else {
        assert Put(r, e, KeyOf)[1..] == Put(r[1..], e, KeyOf) && Put(s, f, KeyOf)[1..] == Put(s[1..], f, KeyOf);
      }
    }
  }

  lemma EqualHead(r: seq<Entry>, s: seq<Entry>, later: set<string>)
    requires SameKeys(r, s) && r != []
    ensures EqualBut(r, s, later) <==> (r[0].key in later || r[0] == s[0]) && EqualBut(r[1..], s[1..], later)
  {
    if EqualBut(r[1..], s[1..], later) {
      forall i | 0 < i < |r| ensures r[i].key in later || r[i] == s[i] {
        assert r[1..][i - 1] == r[i] && s[1..][i - 1] == s[i];
      }
    }
  }

  lemma NoKeyAgain(r: seq<Entry>, s: seq<Entry>, later: set<string>)
    requires SameKeys(r, s) && r != [] && DistinctBy(r, KeyOf)
    ensures EqualBut(r[1..], s[1..], {r[0].key} + later) <==> EqualBut(r[1..], s[1..], later)
  {
    forall i | 0 <= i < |r| - 1 ensures r[1..][i].key != r[0].key {
      assert KeyOf(r[i + 1]) != KeyOf(r[0]);
    }
  }

  // ----- Two redactions side by side -----

  /** What is known of the values below sensitive keys: nothing, that they are numbers, or different numbers. */
  datatype Pairing = Anything | Numbers | Different

  predicate Paired(v: Value, w: Value, pairing: Pairing) {
    pairing.Anything? || (v.Plain? && w.Plain? && (pairing.Different? ==> v != w))
  }

  ghost predicate PairedItems(a: seq<Item>, b: seq<Item>, p: Policy, pairing: Pairing) {
    |a| == |b| && forall i :: 0 <= i < |a| && SensitiveKey(a[i].key, p) ==> Paired(a[i].value, b[i].value, pairing)
  }

  ghost predicate PairedGraphs(h: Heap, g: Heap, p: Policy, pairing: Pairing) {
    forall id :: id in h && id in g && h[id].Mapping? && g[id].Mapping? ==>
      PairedItems(h[id].items, g[id].items, p, pairing)
  }

  /**
   What can be said of the two, unless the walk goes into unknown values with budget left: they charge
   alike, they differ at most where something is exposed, and there they do when the numbers are different.
   */
  ghost predicate Alike<T(!new)>(x: (T, nat), y: (T, nat), looked: bool, exposed: bool, pairing: Pairing) {
    !looked || !pairing.Anything? ==>
      && x.1 == y.1
      && (!exposed ==> x.0 == y.0)
      && (pairing.Different? && exposed ==> x.0 != y.0)
  }

  ghost predicate Twins(h: Heap, g: Heap, p: Policy, pairing: Pairing) {
    Closed(h) && Closed(g) && SameAbove(h, g, p) && PairedGraphs(h, g, p, pairing)
  }

  lemma {:induction false} TwinValue(v: Value, w: Value, h: Heap, g: Heap, p: Policy, depth: nat, seen: set<Identity>,
                                     used: nat, sensitive: bool, pairing: Pairing)
    requires Twins(h, g, p, pairing) && Known(v, h) && Known(w, g) && SameValue(v, w, p)
    ensures Alike(Redact(v, h, p, depth, seen, used, sensitive), Redact(w, g, p, depth, seen, used, sensitive),
                  Looked(v, h, p, depth, seen, used, sensitive), Exposed(v, h, p, depth, seen, used, sensitive),
                  pairing)
    decreases if depth < p.maxDepth then p.maxDepth - depth else 0, 1, 0
  {
    if !sensitive && depth < p.maxDepth && v.Container? && v.id !in seen {
      assert SameShownNode(h[v.id], g[v.id], p);
      match h[v.id]
      case Mapping(items) =>
        TwinItems(items, g[v.id].items, p.maxItems, h, g, p, depth, seen + {v.id}, [], [], used, pairing);
      case Sequence(values) =>
        TwinSequence(values, g[v.id].values, v.id, h, g, p, depth, seen, used, pairing);
    }
  }

  lemma {:induction false} TwinSequence(values: seq<Value>, others: seq<Value>, id: Identity, h: Heap, g: Heap,
                                        p: Policy, depth: nat, seen: set<Identity>, used: nat, pairing: Pairing)
    requires Twins(h, g, p, pairing) && depth < p.maxDepth && SameValues(values, others, p) && id !in seen
    requires id in h && id in g && h[id] == Sequence(values) && g[id] == Sequence(others)
    ensures var v := Container(id);
            Alike(Redact(v, h, p, depth, seen, used, false), Redact(v, g, p, depth, seen, used, false),
                  Looked(v, h, p, depth, seen, used, false), Exposed(v, h, p, depth, seen, used, false), pairing)
    decreases p.maxDepth - depth, 0, |values| + 1
  {
    if |values| <= p.maxItems {
      TwinValues(values, others, h, g, p, depth, seen + {id}, used, pairing);
    } else {
      TwinValues(values[..p.maxItems], others[..p.maxItems], h, g, p, depth, seen + {id}, used, pairing);
      var r := RedactValues(values[..p.maxItems], h, p, depth, seen + {id}, used);
      var s := RedactValues(others[..p.maxItems], g, p, depth, seen + {id}, used);
      SameEnd(r.0, s.0, CleanText(p.marks.truncated, p, r.1).0);
    }
  }

  lemma SameEnd<T>(r: seq<T>, s: seq<T>, x: T)
    ensures r + [x] == s + [x] <==> r == s
  {
    assert r == (r + [x])[..|r|] && s == (s + [x])[..|s|];
  }

  lemma {:induction false} TwinValues(values: seq<Value>, others: seq<Value>, h: Heap, g: Heap, p: Policy, depth: nat,
                                      seen: set<Identity>, used: nat, pairing: Pairing)
    requires Twins(h, g, p, pairing) && depth < p.maxDepth && SameValues(values, others, p)
    requires (forall x :: x in values ==> Known(x, h)) && (forall x :: x in others ==> Known(x, g))
    ensures Alike(RedactValues(values, h, p, depth, seen, used), RedactValues(others, g, p, depth, seen, used),
                  ValuesLooked(values, h, p, depth, seen, used), ValuesExposed(values, h, p, depth, seen, used),
                  pairing)
    decreases p.maxDepth - depth, 0, |values|
  {
    if values != [] {
      var front, last := values[..|values| - 1], values[|values| - 1];
      var before, end := others[..|others| - 1], others[|others| - 1];
      TwinValues(front, before, h, g, p, depth, seen, used, pairing);
      var r, s := RedactValues(front, h, p, depth, seen, used), RedactValues(before, g, p, depth, seen, used);
      TwinValue(last, end, h, g, p, depth + 1, seen, r.1, false, pairing);
      AppendEqual(r.0, s.0, Redact(last, h, p, depth + 1, seen, r.1, false).0,
                  Redact(end, g, p, depth + 1, seen, r.1, false).0);
    }
  }

  lemma AppendEqual<T>(r: seq<T>, s: seq<T>, x: T, y: T)
    requires |r| == |s|
    ensures r + [x] == s + [y] <==> r == s && x == y
  {
    assert r == (r + [x])[..|r|] && s == (s + [y])[..|s|];
    assert (r + [x])[|r|] == x && (s + [y])[|s|] == y;
  }

  /** Below a sensitive key that does not look sensitive, a spent budget and a number charge nothing. */
  lemma TwinSecret(item: Item, other: Item, h: Heap, g: Heap, p: Policy, depth: nat, seen: set<Identity>, used: nat,
                   pairing: Pairing)
    requires Closed(h) && Closed(g) && depth < p.maxDepth && Known(item.value, h) && Known(other.value, g)
    requires SensitiveKey(item.key, p) && p.redactKey(item.key) == p.redactKey(other.key)
    requires Paired(item.value, other.value, pairing)
    ensures Alike(RedactItem(item, h, p, depth, seen, used), RedactItem(other, g, p, depth, seen, used),
                  ItemLooked(item, h, p, depth, seen, used), ItemExposed(item, h, p, depth, seen, used), pairing)
  {
    var key := CleanKey(item.key, p, used);
    assert CleanKey(other.key, p, used) == key;
    if p.maxBytes <= key.1 {
      SpentStays(item.value, h, p, depth + 1, seen, key.1, p.sensitive(key.0));
      SpentStays(other.value, g, p, depth + 1, seen, key.1, p.sensitive(key.0));
    }
  }

  lemma {:induction false} TwinItem(item: Item, other: Item, h: Heap, g: Heap, p: Policy, depth: nat,
                                    seen: set<Identity>, used: nat, pairing: Pairing)
    requires Twins(h, g, p, pairing) && depth < p.maxDepth && Known(item.value, h) && Known(other.value, g)
    requires SameShown(item, other, p) && (SensitiveKey(item.key, p) ==> Paired(item.value, other.value, pairing))
    ensures Alike(RedactItem(item, h, p, depth, seen, used), RedactItem(other, g, p, depth, seen, used),
                  ItemLooked(item, h, p, depth, seen, used), ItemExposed(item, h, p, depth, seen, used), pairing)
    decreases p.maxDepth - depth, 0, 0
  {
    if SensitiveKey(item.key, p) {
      TwinSecret(item, other, h, g, p, depth, seen, used, pairing);
    } else {
      var key := CleanKey(item.key, p, used);
      TwinValue(item.value, other.value, h, g, p, depth + 1, seen, key.1, p.sensitive(key.0), pairing);
    }
  }

  lemma EqualButNothing(r: seq<Entry>, s: seq<Entry>)
    requires SameKeys(r, s)
    ensures EqualBut(r, s, {}) <==> r == s
  {
    if r != s {
      var i :| 0 <= i < |r| && r[i] != s[i];
    }
  }

  /** Both dicts end with the marker that the mapping was cut short. */
  lemma TwinMarker(r: seq<Entry>, s: seq<Entry>, marker: Entry)
    requires SameKeys(r, s) && DistinctBy(r, KeyOf)
    ensures Put(r, marker, KeyOf) == Put(s, marker, KeyOf) <==> EqualBut(r, s, {marker.key})
  {
    PutKeys(r, s, marker, marker);
    PutEqualBut(r, s, marker, marker, {});
    EqualButNothing(Put(r, marker, KeyOf), Put(s, marker, KeyOf));
    assert {marker.key} + {} == {marker.key};
  }

  /** What the rest of a mapping comes to: the keys it writes, whether it looks and shows, the dict and its charge. */
  datatype Outcome = Outcome(keys: set<string>, looked: bool, exposed: bool, dict: (seq<Entry>, nat))

  function OutcomeOf(items: seq<Item>, room: nat, h: Heap, p: Policy, depth: nat, seen: set<Identity>, r: seq<Entry>,
                     used: nat): Outcome
    requires Closed(h) && depth < p.maxDepth && forall x :: x in items ==> Known(x.value, h)
  {
    Outcome(KeysWritten(items, room, h, p, depth, seen, used), ItemsLooked(items, room, h, p, depth, seen, used),
            ItemsExposed(items, room, h, p, depth, seen, used), RedactItems(items, room, h, p, depth, seen, r, used))
  }

  /** The dict filled from `s` compares with the outcome filled from `r`. */
  ghost predicate OutcomeAlike(a: Outcome, dict: (seq<Entry>, nat), r: seq<Entry>, s: seq<Entry>, pairing: Pairing) {
    Alike(a.dict, dict, a.looked, !EqualBut(r, s, a.keys) || a.exposed, pairing)
  }

  /** The outcome with one more item in front. */
  function Before(e: Entry, looked: bool, exposed: bool, rest: Outcome): Outcome {
    Outcome({e.key} + rest.keys, looked || rest.looked, (exposed && e.key !in rest.keys) || rest.exposed, rest.dict)
  }

  lemma OutcomeStep(items: seq<Item>, room: nat, h: Heap, p: Policy, depth: nat, seen: set<Identity>, r: seq<Entry>,
                    used: nat, e: (Entry, nat))
    requires Closed(h) && depth < p.maxDepth && items != [] && room > 0 && forall x :: x in items ==> Known(x.value, h)
    requires e == RedactItem(items[0], h, p, depth, seen, used)
    ensures OutcomeOf(items, room, h, p, depth, seen, r, used) ==
            Before(e.0, ItemLooked(items[0], h, p, depth, seen, used), ItemExposed(items[0], h, p, depth, seen, used),
                   OutcomeOf(items[1..], room - 1, h, p, depth, seen, Put(r, e.0, KeyOf), e.1))
  {
  }

  /** What the first of the items adds to what is known of the rest. */
  lemma TwinStep(r: seq<Entry>, s: seq<Entry>, e: (Entry, nat), f: (Entry, nat), looked: bool, exposed: bool,
                 x: Outcome, y: (seq<Entry>, nat), pairing: Pairing)
    requires SameKeys(r, s) && DistinctBy(r, KeyOf) && e.0.key == f.0.key
    requires Alike(e, f, looked, exposed, pairing)
    requires OutcomeAlike(x, y, Put(r, e.0, KeyOf), Put(s, f.0, KeyOf), pairing)
    ensures OutcomeAlike(Before(e.0, looked, exposed, x), y, r, s, pairing)
  {
    PutEqualBut(r, s, e.0, f.0, x.keys);
  }

  lemma DictStep(items: seq<Item>, room: nat, h: Heap, p: Policy, depth: nat, seen: set<Identity>, r: seq<Entry>,
                 used: nat, e: (Entry, nat))
    requires Closed(h) && depth < p.maxDepth && items != [] && room > 0 && forall x :: x in items ==> Known(x.value, h)
    requires e == RedactItem(items[0], h, p, depth, seen, used)
    ensures RedactItems(items, room, h, p, depth, seen, r, used) ==
            RedactItems(items[1..], room - 1, h, p, depth, seen, Put(r, e.0, KeyOf), e.1)
  {
  }

  /** The first items are alike, and so is what the rest comes to. */
  lemma TwinFirst(items: seq<Item>, others: seq<Item>, room: nat, h: Heap, g: Heap, p: Policy, depth: nat,
                  seen: set<Identity>, r: seq<Entry>, s: seq<Entry>, used: nat, e: (Entry, nat), f: (Entry, nat),
                  pairing: Pairing)
    requires Closed(h) && Closed(g) && depth < p.maxDepth && items != [] && others != [] && room > 0
    requires (forall x :: x in items ==> Known(x.value, h)) && (forall x :: x in others ==> Known(x.value, g))
    requires e == RedactItem(items[0], h, p, depth, seen, used) && f == RedactItem(others[0], g, p, depth, seen, used)
    requires Alike(e, f, ItemLooked(items[0], h, p, depth, seen, used), ItemExposed(items[0], h, p, depth, seen, used),
                   pairing)
    requires e.0.key == f.0.key && SameKeys(r, s) && DistinctBy(r, KeyOf)
    requires OutcomeAlike(OutcomeOf(items[1..], room - 1, h, p, depth, seen, Put(r, e.0, KeyOf), e.1),
                          RedactItems(others[1..], room - 1, g, p, depth, seen, Put(s, f.0, KeyOf), f.1),
                          Put(r, e.0, KeyOf), Put(s, f.0, KeyOf), pairing)
    ensures OutcomeAlike(OutcomeOf(items, room, h, p, depth, seen, r, used),
                         RedactItems(others, room, g, p, depth, seen, s, used), r, s, pairing)
  {
    OutcomeStep(items, room, h, p, depth, seen, r, used, e);
    DictStep(others, room, g, p, depth, seen, s, used, f);
    TwinStep(r, s, e, f, ItemLooked(items[0], h, p, depth, seen, used), ItemExposed(items[0], h, p, depth, seen, used),
             OutcomeOf(items[1..], room - 1, h, p, depth, seen, Put(r, e.0, KeyOf), e.1),
             RedactItems(others[1..], room - 1, g, p, depth, seen, Put(s, f.0, KeyOf), f.1), pairing);
  }

  lemma {:induction false} TwinItems(items: seq<Item>, others: seq<Item>, room: nat, h: Heap, g: Heap, p: Policy,
                                     depth: nat, seen: set<Identity>, r: seq<Entry>, s: seq<Entry>, used: nat,
                                     pairing: Pairing)
    requires Twins(h, g, p, pairing) && depth < p.maxDepth && SameShownItems(items, others, p)
    requires PairedItems(items, others, p, pairing)
    requires (forall x :: x in items ==> Known(x.value, h)) && (forall x :: x in others ==> Known(x.value, g))
    requires SameKeys(r, s) && DistinctBy(r, KeyOf)
    ensures OutcomeAlike(OutcomeOf(items, room, h, p, depth, seen, r, used),
                         RedactItems(others, room, g, p, depth, seen, s, used), r, s, pairing)
    decreases p.maxDepth - depth, 0, 2 * |items| + 1
  {
    if items == [] {
      EqualButNothing(r, s);
    } else if room == 0 {
      TwinMarker(r, s, Entry(p.marks.truncated, CleanText(p.marks.truncated, p, used).0));
    } else if ItemLooked(items[0], h, p, depth, seen, used) && pairing.Anything? {
      assert ItemsLooked(items, room, h, p, depth, seen, used);
    } else {
      KnownTail(items, h);
      KnownTail(others, g);
      TailsAlike(items, others, p, pairing);
      TwinMore(items, others, items[1..], others[1..], room, h, g, p, depth, seen, r, s, used, pairing);
    }
  }

  lemma KnownTail(items: seq<Item>, h: Heap)
    requires items != [] && forall x :: x in items ==> Known(x.value, h)
    ensures forall x :: x in items[1..] ==> Known(x.value, h)
  {
  }

  lemma TailsAlike(items: seq<Item>, others: seq<Item>, p: Policy, pairing: Pairing)
    requires SameShownItems(items, others, p) && items != [] && PairedItems(items, others, p, pairing)
    ensures SameShownItems(items[1..], others[1..], p) && PairedItems(items[1..], others[1..], p, pairing)
  {
  }

  lemma {:induction false} TwinMore(items: seq<Item>, others: seq<Item>, rest: seq<Item>, otherRest: seq<Item>,
                                    room: nat, h: Heap, g: Heap, p: Policy, depth: nat, seen: set<Identity>,
                                    r: seq<Entry>, s: seq<Entry>, used: nat, pairing: Pairing)
    requires Twins(h, g, p, pairing) && depth < p.maxDepth && items != [] && others != [] && room > 0
    requires (forall x :: x in items ==> Known(x.value, h)) && (forall x :: x in others ==> Known(x.value, g))
    requires (forall x :: x in rest ==> Known(x.value, h)) && (forall x :: x in otherRest ==> Known(x.value, g))
    requires rest == items[1..] && otherRest == others[1..] && SameShown(items[0], others[0], p)
    requires SensitiveKey(items[0].key, p) ==> Paired(items[0].value, others[0].value, pairing)
    requires SameShownItems(rest, otherRest, p) && PairedItems(rest, otherRest, p, pairing)
    requires SameKeys(r, s) && DistinctBy(r, KeyOf)
    requires !ItemLooked(items[0], h, p, depth, seen, used) || !pairing.Anything?
    ensures OutcomeAlike(OutcomeOf(items, room, h, p, depth, seen, r, used),
                         RedactItems(others, room, g, p, depth, seen, s, used), r, s, pairing)
    decreases p.maxDepth - depth, 0, 2 * |items|
  {
    TwinItem(items[0], others[0], h, g, p, depth, seen, used, pairing);
    var e, f := RedactItem(items[0], h, p, depth, seen, used), RedactItem(others[0], g, p, depth, seen, used);
    PutKeys(r, s, e.0, f.0);
    TwinItems(rest, otherRest, room - 1, h, g, p, depth, seen, Put(r, e.0, KeyOf), Put(s, f.0, KeyOf), e.1, pairing);
    TwinFirst(items, others, room, h, g, p, depth, seen, r, s, used, e, f, pairing);
  }

  // ----- The whole redaction -----

  /** The redacted value depends on nothing below sensitive keys, whatever stands there. */
  ghost predicate Hidden(v: Value, h: Heap, p: Policy)
    requires Closed(h) && Known(v, h)
  {
    forall g: Heap :: Closed(g) && Known(v, g) && SameAbove(h, g, p) ==>
      Redact(v, g, p, 0, {}, 0, false).0 == Redact(v, h, p, 0, {}, 0, false).0
  }

  function FillItems(items: seq<Item>, n: int, p: Policy): (r: seq<Item>)
    ensures |r| == |items|
    ensures forall i :: 0 <= i < |r| ==>
            r[i] == if SensitiveKey(items[i].key, p) then Item(items[i].key, Plain(n)) else items[i]
  {
    if items == [] then []
    else
      [if SensitiveKey(items[0].key, p) then Item(items[0].key, Plain(n)) else items[0]] + FillItems(items[1..], n, p)
  }

  /** The graph with one number below every sensitive key. */
  function Fill(h: Heap, n: int, p: Policy): Heap {
    map id | id in h :: match h[id] case Mapping(items) => Mapping(FillItems(items, n, p)) case Sequence(_) => h[id]
  }

  lemma FillSame(h: Heap, n: int, p: Policy)
    requires Closed(h)
    ensures Closed(Fill(h, n, p)) && SameAbove(h, Fill(h, n, p), p)
  {
  }

  lemma FillsPaired(h: Heap, m: int, n: int, p: Policy)
    requires Closed(h)
    ensures SameAbove(Fill(h, m, p), Fill(h, n, p), p)
    ensures PairedGraphs(Fill(h, m, p), Fill(h, n, p), p, if m == n then Numbers else Different)
  {
  }

  /** A graph that agrees with another above sensitive keys agrees with its filled form. */
  lemma FilledSame(h: Heap, g: Heap, n: int, p: Policy)
    requires Closed(h) && SameAbove(h, g, p)
    ensures SameAbove(Fill(h, n, p), g, p)
  {
    forall id | id in h ensures SameShownNode(Fill(h, n, p)[id], g[id], p) {
      assert SameShownNode(h[id], g[id], p);
    }
  }

  lemma SameAsItself(h: Heap, p: Policy)
    ensures SameAbove(h, h, p)
  {
  }

  /** When the result depends on nothing below sensitive keys, no value from there stands in it. */
  lemma HiddenNotExposed(v: Value, h: Heap, p: Policy)
    requires Closed(h) && Known(v, h) && Hidden(v, h, p)
    ensures Closed(Fill(h, 0, p)) && !Exposed(v, Fill(h, 0, p), p, 0, {}, 0, false)
  {
    var g, k := Fill(h, 0, p), Fill(h, 1, p);
    FillSame(h, 0, p);
    FillSame(h, 1, p);
    FillsPaired(h, 0, 1, p);
    assert Redact(v, g, p, 0, {}, 0, false).0 == Redact(v, k, p, 0, {}, 0, false).0;
    TwinValue(v, v, g, k, p, 0, {}, 0, false, Different);
  }

  /** When nothing is looked at with budget left, and nothing from below sensitive keys stays, nothing depends on it. */
  lemma UnseenHidden(v: Value, h: Heap, base: Heap, p: Policy)
    requires Closed(h) && Known(v, h) && Closed(base) && Known(v, base)
    requires SameAbove(base, h, p) && forall g: Heap :: SameAbove(h, g, p) ==> SameAbove(base, g, p)
    requires !Looked(v, base, p, 0, {}, 0, false) && !Exposed(v, base, p, 0, {}, 0, false)
    ensures Hidden(v, h, p)
  {
    TwinValue(v, v, base, h, p, 0, {}, 0, false, Anything);
    forall g: Heap | Closed(g) && Known(v, g) && SameAbove(h, g, p)
      ensures Redact(v, g, p, 0, {}, 0, false).0 == Redact(v, h, p, 0, {}, 0, false).0
    {
      TwinValue(v, v, base, g, p, 0, {}, 0, false, Anything);
    }
  }

  /** The shown keys of every mapping are different, and none ends with the marker of a cut key. */
  ghost predicate ClearKeys(h: Heap, p: Policy) {
    forall id :: id in h && h[id].Mapping? ==> ItemsClear(h[id].items, p)
  }

  ghost predicate ItemsClear(items: seq<Item>, p: Policy) {
    && (forall i, j :: 0 <= i < j < |items| ==> ShownKey(items[i].key, p) != ShownKey(items[j].key, p))
    && (forall i :: 0 <= i < |items| ==> !Marked(ShownKey(items[i].key, p), p))
  }

  predicate Marked(s: string, p: Policy) {
    |s| >= |p.marks.truncated| && s[|s| - |p.marks.truncated|..] == p.marks.truncated
  }

  lemma FillKeepsKeys(h: Heap, n: int, p: Policy)
    ensures KeysSurvive(h, p) ==> KeysSurvive(Fill(h, n, p), p)
    ensures ClearKeys(h, p) ==> ClearKeys(Fill(h, n, p), p)
  {
    forall id | id in h && h[id].Mapping?
      ensures ItemsSurvive(h[id].items, p) ==> ItemsSurvive(FillItems(h[id].items, n, p), p)
      ensures ItemsClear(h[id].items, p) ==> ItemsClear(FillItems(h[id].items, n, p), p)
    {
      FillItemsKeys(h[id].items, n, p);
    }
  }

  lemma FillItemsKeys(items: seq<Item>, n: int, p: Policy)
    ensures ItemsSurvive(items, p) ==> ItemsSurvive(FillItems(items, n, p), p)
    ensures ItemsClear(items, p) ==> ItemsClear(FillItems(items, n, p), p)
  {
    var r := FillItems(items, n, p);
    forall i | 0 <= i < |items| ensures r[i].key == items[i].key && items[i] in items { }
  }

  // ----- Keys that still look sensitive -----

  /** Then the walk goes below a sensitive key only once the budget is spent. */
  lemma {:induction false} SurvivingUnseen(v: Value, h: Heap, p: Policy, depth: nat, seen: set<Identity>, used: nat,
                                           sensitive: bool)
    requires Closed(h) && Known(v, h) && KeysSurvive(h, p)
    ensures !Looked(v, h, p, depth, seen, used, sensitive)
    decreases if depth < p.maxDepth then p.maxDepth - depth else 0, 1, 0
  {
    if !sensitive && depth < p.maxDepth && v.Container? && v.id !in seen {
      match h[v.id]
      case Mapping(items) => SurvivingItems(items, p.maxItems, h, p, depth, seen + {v.id}, used);
      case Sequence(values) =>
        var kept := if |values| <= p.maxItems then values else values[..p.maxItems];
        SurvivingValues(kept, h, p, depth, seen + {v.id}, used);
    }
  }

  lemma {:induction false} SurvivingItems(items: seq<Item>, room: nat, h: Heap, p: Policy, depth: nat,
                                          seen: set<Identity>, used: nat)
    requires Closed(h) && depth < p.maxDepth && KeysSurvive(h, p) && ItemsSurvive(items, p)
    requires forall x :: x in items ==> Known(x.value, h)
    ensures !ItemsLooked(items, room, h, p, depth, seen, used)
    decreases p.maxDepth - depth, 0, |items| + 1
  {
    if items != [] && room > 0 {
      var key := CleanKey(items[0].key, p, used);
      assert SensitiveKey(items[0].key, p) ==> LooksSensitive(items[0].key, p);
      SurvivingUnseen(items[0].value, h, p, depth + 1, seen, key.1, p.sensitive(key.0));
      SurvivingItems(items[1..], room - 1, h, p, depth, seen, RedactItem(items[0], h, p, depth, seen, used).1);
    }
  }

  lemma {:induction false} SurvivingValues(values: seq<Value>, h: Heap, p: Policy, depth: nat, seen: set<Identity>,
                                           used: nat)
    requires Closed(h) && depth < p.maxDepth && KeysSurvive(h, p) && forall x :: x in values ==> Known(x, h)
    ensures !ValuesLooked(values, h, p, depth, seen, used)
    decreases p.maxDepth - depth, 0, |values|
  {
    if values != [] {
      var front, last := values[..|values| - 1], values[|values| - 1];
      SurvivingValues(front, h, p, depth, seen, used);
      SurvivingUnseen(last, h, p, depth + 1, seen, RedactValues(front, h, p, depth, seen, used).1, false);
    }
  }

  // ----- Keys that are never written twice -----

  /** A key is charged whole, or ends with the marker. */
  lemma CleanOrMarked(key: string, p: Policy, used: nat)
    ensures CleanKey(key, p, used).0 == ShownKey(key, p) || Marked(CleanKey(key, p, used).0, p)
    ensures CleanKey(key, p, used).1 < p.maxBytes ==> CleanKey(key, p, used).0 == ShownKey(key, p)
  {
  }

  lemma {:induction false} NotWrittenAgain(items: seq<Item>, room: nat, h: Heap, p: Policy, depth: nat,
                                           seen: set<Identity>, used: nat, key: string)
    requires Closed(h) && depth < p.maxDepth && !Marked(key, p) && forall x :: x in items ==> Known(x.value, h)
    requires forall i :: 0 <= i < |items| ==> ShownKey(items[i].key, p) != key
    ensures key !in KeysWritten(items, room, h, p, depth, seen, used)
  {
    if items != [] {
      assert p.marks.truncated[0..] == p.marks.truncated;
      if room > 0 {
        CleanOrMarked(items[0].key, p, used);
        NotWrittenAgain(items[1..], room - 1, h, p, depth, seen, RedactItem(items[0], h, p, depth, seen, used).1, key);
      }
    }
  }

  /** Where keys are clear, what the walk looks at with budget left stays in the result. */
  lemma {:induction false} ClearExposed(v: Value, h: Heap, p: Policy, depth: nat, seen: set<Identity>, used: nat,
                                        sensitive: bool)
    requires Closed(h) && Known(v, h) && ClearKeys(h, p)
    ensures Looked(v, h, p, depth, seen, used, sensitive) ==> Exposed(v, h, p, depth, seen, used, sensitive)
    decreases if depth < p.maxDepth then p.maxDepth - depth else 0, 1, 0
  {
    if !sensitive && depth < p.maxDepth && v.Container? && v.id !in seen {
      match h[v.id]
      case Mapping(items) => ClearItems(items, p.maxItems, h, p, depth, seen + {v.id}, used);
      case Sequence(values) =>
        var kept := if |values| <= p.maxItems then values else values[..p.maxItems];
        ClearValues(kept, h, p, depth, seen + {v.id}, used);
    }
  }

  lemma ClearTail(items: seq<Item>, p: Policy)
    requires ItemsClear(items, p) && items != []
    ensures ItemsClear(items[1..], p) && !Marked(ShownKey(items[0].key, p), p)
    ensures forall i :: 0 <= i < |items[1..]| ==> ShownKey(items[1..][i].key, p) != ShownKey(items[0].key, p)
  {
  }

  lemma {:induction false} ClearItem(item: Item, h: Heap, p: Policy, depth: nat, seen: set<Identity>, used: nat)
    requires Closed(h) && depth < p.maxDepth && Known(item.value, h) && ClearKeys(h, p)
    requires ItemLooked(item, h, p, depth, seen, used)
    ensures ItemExposed(item, h, p, depth, seen, used)
    ensures RedactItem(item, h, p, depth, seen, used).0.key == ShownKey(item.key, p)
    decreases p.maxDepth - depth, 0, 0
  {
    var key := CleanKey(item.key, p, used);
    ClearExposed(item.value, h, p, depth + 1, seen, key.1, p.sensitive(key.0));
    if p.maxBytes <= key.1 {
      SpentStays(item.value, h, p, depth + 1, seen, key.1, p.sensitive(key.0));
    }
    CleanOrMarked(item.key, p, used);
  }

  lemma {:induction false} ClearItems(items: seq<Item>, room: nat, h: Heap, p: Policy, depth: nat, seen: set<Identity>,
                                      used: nat)
    requires Closed(h) && depth < p.maxDepth && ClearKeys(h, p) && ItemsClear(items, p)
    requires forall x :: x in items ==> Known(x.value, h)
    ensures ItemsLooked(items, room, h, p, depth, seen, used) ==> ItemsExposed(items, room, h, p, depth, seen, used)
    decreases p.maxDepth - depth, 0, |items| + 1
  {
    if items != [] && room > 0 {
      ClearTail(items, p);
      var after := RedactItem(items[0], h, p, depth, seen, used).1;
      ClearItems(items[1..], room - 1, h, p, depth, seen, after);
      if ItemLooked(items[0], h, p, depth, seen, used) {
        ClearItem(items[0], h, p, depth, seen, used);
        NotWrittenAgain(items[1..], room - 1, h, p, depth, seen, after, ShownKey(items[0].key, p));
      }
    }
  }

  lemma {:induction false} ClearValues(values: seq<Value>, h: Heap, p: Policy, depth: nat, seen: set<Identity>,
                                       used: nat)
    requires Closed(h) && depth < p.maxDepth && ClearKeys(h, p) && forall x :: x in values ==> Known(x, h)
    ensures ValuesLooked(values, h, p, depth, seen, used) ==> ValuesExposed(values, h, p, depth, seen, used)
    decreases p.maxDepth - depth, 0, |values|
  {
    if values != [] {
      var front, last := values[..|values| - 1], values[|values| - 1];
      ClearValues(front, h, p, depth, seen, used);
      ClearExposed(last, h, p, depth + 1, seen, RedactValues(front, h, p, depth, seen, used).1, false);
    }
  }

  // ----- Exactly when nothing shows -----

  /**
   Nothing below a sensitive key influences the result exactly when, with a number below each of them, no
   such number stands in it. This holds of every graph whose sensitive keys still look sensitive, and of
   every graph whose mappings do not write a key twice; of the others, from left to right.
   */
  lemma HiddenExactly(v: Value, h: Heap, p: Policy)
    requires Closed(h) && Known(v, h)
    ensures Closed(Fill(h, 0, p)) && (Hidden(v, h, p) ==> !Exposed(v, Fill(h, 0, p), p, 0, {}, 0, false))
    ensures KeysSurvive(h, p) || ClearKeys(h, p) ==>
              (Hidden(v, h, p) <==> !Exposed(v, Fill(h, 0, p), p, 0, {}, 0, false))
  {
    var base := Fill(h, 0, p);
    FillSame(h, 0, p);
    FillKeepsKeys(h, 0, p);
    if Hidden(v, h, p) {
      HiddenNotExposed(v, h, p);
    } else if (KeysSurvive(h, p) || ClearKeys(h, p)) && !Exposed(v, base, p, 0, {}, 0, false) {
      if KeysSurvive(h, p) {
        SurvivingUnseen(v, base, p, 0, {}, 0, false);
      } else {
        ClearExposed(v, base, p, 0, {}, 0, false);
      }
      SameAsItself(h, p);
      forall g: Heap | SameAbove(h, g, p) ensures SameAbove(base, g, p) { FilledSame(h, g, 0, p); }
      UnseenHidden(v, h, base, p);
    }
  }

  /** Where the one graph has a sensitive key, the other has a number below it. */
  ghost predicate NumbersBelow(h: Heap, g: Heap, p: Policy) {
    forall id :: id in h && id in g && h[id].Mapping? && g[id].Mapping? ==>
      NumbersIn(h[id].items, g[id].items, p)
  }

  ghost predicate NumbersIn(a: seq<Item>, b: seq<Item>, p: Policy) {
    |a| == |b| && forall i :: 0 <= i < |a| && SensitiveKey(a[i].key, p) ==> b[i].value.Plain?
  }

  /** Among the graphs with numbers below sensitive keys, the result is always the same. */
  ghost predicate NumbersHidden(v: Value, h: Heap, p: Policy) {
    forall g: Heap, k: Heap ::
      Closed(g) && Closed(k) && Known(v, g) && Known(v, k) && SameAbove(h, g, p) && SameAbove(h, k, p) &&
      NumbersBelow(h, g, p) && NumbersBelow(h, k, p) ==>
        Redact(v, g, p, 0, {}, 0, false).0 == Redact(v, k, p, 0, {}, 0, false).0
  }

  lemma FilledNumbers(h: Heap, g: Heap, n: int, p: Policy)
    requires SameAbove(h, g, p) && NumbersBelow(h, g, p)
    ensures NumbersBelow(h, Fill(h, n, p), p) && PairedGraphs(Fill(h, n, p), g, p, Numbers)
  {
  }

  /** For numbers the condition is exact for every graph: none shows exactly when none is exposed. */
  lemma NumbersHiddenExactly(v: Value, h: Heap, p: Policy)
    requires Closed(h) && Known(v, h)
    ensures Closed(Fill(h, 0, p)) && (NumbersHidden(v, h, p) <==> !Exposed(v, Fill(h, 0, p), p, 0, {}, 0, false))
  {
    var base, other := Fill(h, 0, p), Fill(h, 1, p);
    FillSame(h, 0, p);
    FillSame(h, 1, p);
    FillsNumbers(h, p);
    if Exposed(v, base, p, 0, {}, 0, false) {
      FillsPaired(h, 0, 1, p);
      TwinValue(v, v, base, other, p, 0, {}, 0, false, Different);
    } else {
      forall g: Heap | Closed(g) && Known(v, g) && SameAbove(h, g, p) && NumbersBelow(h, g, p)
        ensures Redact(v, g, p, 0, {}, 0, false).0 == Redact(v, base, p, 0, {}, 0, false).0
      {
        FilledSame(h, g, 0, p);
        FilledNumbers(h, g, 0, p);
        TwinValue(v, v, base, g, p, 0, {}, 0, false, Numbers);
      }
    }
  }

  lemma FillsNumbers(h: Heap, p: Policy)
    ensures NumbersBelow(h, Fill(h, 0, p), p) && NumbersBelow(h, Fill(h, 1, p), p)
  {
  }

  // ----- A budget that suffices -----

  /** The bytes a value needs to be redacted in full, the replacement standing below each key that looks sensitive. */
  function Needs(v: Value, h: Heap, p: Policy, depth: nat, seen: set<Identity>, sensitive: bool): nat
    requires Closed(h) && Known(v, h)
    decreases if depth < p.maxDepth then p.maxDepth - depth else 0, 1, 0
  {
    if sensitive then |Encode(p.replacement)|
    else if depth >= p.maxDepth then |Encode(p.marks.tooDeep)|
    else
      match v
      case Text(text) => |Encode(p.redactText(text))|
      case Plain(_) => 0
      case Opaque(safeText) => |Encode(p.redactText(safeText))|
      case Container(id) =>
        if id in seen then |Encode(p.marks.cycle)|
        else
          match h[id]
          case Mapping(items) => ItemsNeed(items, p.maxItems, h, p, depth, seen + {id})
          case Sequence(values) =>
            if |values| <= p.maxItems then ValuesNeed(values, h, p, depth, seen + {id})
            else ValuesNeed(values[..p.maxItems], h, p, depth, seen + {id}) + |Encode(p.marks.truncated)|
  }

  function ItemNeeds(item: Item, h: Heap, p: Policy, depth: nat, seen: set<Identity>): nat
    requires Closed(h) && depth < p.maxDepth && Known(item.value, h)
    decreases p.maxDepth - depth, 0, 0
  {
    |Encode(ShownKey(item.key, p))| + Needs(item.value, h, p, depth + 1, seen, LooksSensitive(item.key, p))
  }

  function ItemsNeed(items: seq<Item>, room: nat, h: Heap, p: Policy, depth: nat, seen: set<Identity>): nat
    requires Closed(h) && depth < p.maxDepth && forall x :: x in items ==> Known(x.value, h)
    decreases p.maxDepth - depth, 0, |items| + 1
  {
    if items == [] then 0
    else if room == 0 then |Encode(p.marks.truncated)|
    else ItemNeeds(items[0], h, p, depth, seen) + ItemsNeed(items[1..], room - 1, h, p, depth, seen)
  }

  function ValuesNeed(values: seq<Value>, h: Heap, p: Policy, depth: nat, seen: set<Identity>): nat
    requires Closed(h) && depth < p.maxDepth && forall x :: x in values ==> Known(x, h)
    decreases p.maxDepth - depth, 0, |values|
  {
    if values == [] then 0
    else
      ValuesNeed(values[..|values| - 1], h, p, depth, seen) + Needs(values[|values| - 1], h, p, depth + 1, seen, false)
  }

  lemma TextCharged(text: string, p: Policy, used: nat)
    requires used + |Encode(text)| <= p.maxBytes
    ensures CleanText(text, p, used).1 == used + |Encode(text)|
  {
  }

  /**
   While the needs fit in the budget, exactly they are charged, and when all sensitive keys still look
   sensitive, nothing from below them stays in the result.
   */
  lemma {:induction false} NeedsCharged(v: Value, h: Heap, p: Policy, depth: nat, seen: set<Identity>, used: nat,
                                        sensitive: bool)
    requires Closed(h) && Known(v, h) && p.replacement != "" &&
             used + Needs(v, h, p, depth, seen, sensitive) <= p.maxBytes
    ensures Redact(v, h, p, depth, seen, used, sensitive).1 == used + Needs(v, h, p, depth, seen, sensitive)
    ensures KeysSurvive(h, p) ==> !Exposed(v, h, p, depth, seen, used, sensitive)
    decreases if depth < p.maxDepth then p.maxDepth - depth else 0, 1, 0
  {
    if !sensitive && depth < p.maxDepth && v.Container? && v.id !in seen {
      match h[v.id]
      case Mapping(items) => ItemsCharged(items, p.maxItems, h, p, depth, seen + {v.id}, [], used);
      case Sequence(values) =>
        var kept := if |values| <= p.maxItems then values else values[..p.maxItems];
        ValuesCharged(kept, h, p, depth, seen + {v.id}, used);
    }
  }

  lemma {:induction false} ItemCharged(item: Item, h: Heap, p: Policy, depth: nat, seen: set<Identity>, used: nat)
    requires Closed(h) && depth < p.maxDepth && Known(item.value, h) && p.replacement != ""
    requires used + ItemNeeds(item, h, p, depth, seen) <= p.maxBytes
    ensures RedactItem(item, h, p, depth, seen, used).1 == used + ItemNeeds(item, h, p, depth, seen)
    ensures KeysSurvive(h, p) && (SensitiveKey(item.key, p) ==> LooksSensitive(item.key, p)) ==>
              !ItemExposed(item, h, p, depth, seen, used)
    decreases p.maxDepth - depth, 0, 0
  {
    var key := CleanKey(item.key, p, used);
    KeyByRoom(item.key, p, used);
    if LooksSensitive(item.key, p) {
      assert |p.replacement| <= |Encode(p.replacement)|;
      assert KeyFits(item.key, p, used);
      TextCharged(p.replacement, p, key.1);
    } else {
      NeedsCharged(item.value, h, p, depth + 1, seen, key.1, false);
      if p.sensitive(key.0) { SpentStays(item.value, h, p, depth + 1, seen, key.1, true); }
    }
  }

  lemma {:induction false} ItemsCharged(items: seq<Item>, room: nat, h: Heap, p: Policy, depth: nat,
                                        seen: set<Identity>, result: seq<Entry>, used: nat)
    requires Closed(h) && depth < p.maxDepth && p.replacement != "" && forall x :: x in items ==> Known(x.value, h)
    requires used + ItemsNeed(items, room, h, p, depth, seen) <= p.maxBytes
    ensures RedactItems(items, room, h, p, depth, seen, result, used).1 ==
            used + ItemsNeed(items, room, h, p, depth, seen)
    ensures KeysSurvive(h, p) && ItemsSurvive(items, p) ==> !ItemsExposed(items, room, h, p, depth, seen, used)
    decreases p.maxDepth - depth, 0, |items| + 1
  {
    if items != [] && room > 0 {
      ItemCharged(items[0], h, p, depth, seen, used);
      var entry := RedactItem(items[0], h, p, depth, seen, used);
      ItemsCharged(items[1..], room - 1, h, p, depth, seen, Put(result, entry.0, KeyOf), entry.1);
    }
  }

  lemma {:induction false} ValuesCharged(values: seq<Value>, h: Heap, p: Policy, depth: nat, seen: set<Identity>,
                                         used: nat)
    requires Closed(h) && depth < p.maxDepth && p.replacement != "" && forall x :: x in values ==> Known(x, h)
    requires used + ValuesNeed(values, h, p, depth, seen) <= p.maxBytes
    ensures RedactValues(values, h, p, depth, seen, used).1 == used + ValuesNeed(values, h, p, depth, seen)
    ensures KeysSurvive(h, p) ==> !ValuesExposed(values, h, p, depth, seen, used)
    decreases p.maxDepth - depth, 0, |values|
  {
    if values != [] {
      var front, last := values[..|values| - 1], values[|values| - 1];
      ValuesCharged(front, h, p, depth, seen, used);
      NeedsCharged(last, h, p, depth + 1, seen, RedactValues(front, h, p, depth, seen, used).1, false);
    }
  }

  /**
   When what the value needs fits in the budget and all its sensitive keys still look sensitive, nothing below
   a sensitive key influences the result.
   */
  lemma SufficientBudgetHides(v: Value, h: Heap, p: Policy)
    requires Closed(h) && Known(v, h) && p.replacement != "" && Needs(v, h, p, 0, {}, false) <= p.maxBytes
    requires KeysSurvive(h, p)
    ensures Hidden(v, h, p)
  {
    NeedsCharged(v, h, p, 0, {}, 0, false);
    SurvivingUnseen(v, h, p, 0, {}, 0, false);
    SameAsItself(h, p);
    UnseenHidden(v, h, h, p);
  }

  // ----- Values that are shown -----

  function Single(key: string, value: Value): Heap {
    map[0 := Mapping([Item(key, value)])]
  }

  lemma OneItem(item: Item, h: Heap, p: Policy)
    requires h == Single(item.key, item.value) && !item.value.Container? && p.maxDepth >= 2 && p.maxItems >= 1
    ensures Closed(h) && Known(Container(0), h)
    ensures var entry := RedactItem(item, h, p, 0, {0}, 0).0;
            Redact(Container(0), h, p, 0, {}, 0, false).0 == Dict([entry]) && entry.key == CleanKey(item.key, p, 0).0
    ensures Needs(Container(0), h, p, 0, {}, false) == ItemNeeds(item, h, p, 0, {0})
  {
    var items := [item];
    assert items[1..] == [];
    var entry := RedactItem(item, h, p, 0, {0}, 0);
    assert Put([], entry.0, KeyOf) == [entry.0];
    assert RedactItems(items[1..], p.maxItems - 1, h, p, 0, {0}, [entry.0], entry.1) == ([entry.0], entry.1);
    assert ItemsNeed(items[1..], p.maxItems - 1, h, p, 0, {0}) == 0;
    assert {} + {0} == {0};
  }

  lemma SinglesSame(key: string, x: Value, y: Value, p: Policy)
    requires SensitiveKey(key, p)
    ensures SameAbove(Single(key, x), Single(key, y), p)
  {
    assert SameShownNode(Single(key, x)[0], Single(key, y)[0], p);
  }

  /** Below a sensitive key that the walk looks at in a form that is not sensitive, a number is shown. */
  lemma NumberShown(key: string, n: int, p: Policy)
    requires p.maxDepth >= 2 && p.maxItems >= 1 && SensitiveKey(key, p) && !p.sensitive(LookedKey(key, p, 0))
    ensures var h := Single(key, Plain(n));
            Closed(h) && Known(Container(0), h) && !Hidden(Container(0), h, p) &&
            Redact(Container(0), h, p, 0, {}, 0, false).0 == Dict([Entry(LookedKey(key, p, 0), Scalar(n))])
  {
    var h, g := Single(key, Plain(n)), Single(key, Plain(n + 1));
    OneItem(Item(key, Plain(n)), h, p);
    OneItem(Item(key, Plain(n + 1)), g, p);
    NumberShownExactly(key, n, h, p, 0, {0}, 0);
    NumberShownExactly(key, n + 1, g, p, 0, {0}, 0);
    KeyByRoom(key, p, 0);
    SinglesSame(key, Plain(n), Plain(n + 1), p);
  }

  /** With an ample budget, below a sensitive key that no longer looks sensitive, a text is shown. */
  lemma TextShown(key: string, t: string, p: Policy)
    requires p.maxDepth >= 2 && p.maxItems >= 1 && SensitiveKey(key, p) && !LooksSensitive(key, p)
    requires |Encode(ShownKey(key, p))| < p.maxBytes
    requires |Encode(ShownKey(key, p))| + |Encode(p.redactText(t))| <= p.maxBytes
    ensures var h := Single(key, Text(t));
            Closed(h) && Known(Container(0), h) && !Hidden(Container(0), h, p) &&
            Needs(Container(0), h, p, 0, {}, false) <= p.maxBytes &&
            Redact(Container(0), h, p, 0, {}, 0, false).0 == Dict([Entry(ShownKey(key, p), Str(p.redactText(t)))])
  {
    var h, g := Single(key, Text(t)), Single(key, Plain(0));
    OneItem(Item(key, Text(t)), h, p);
    OneItem(Item(key, Plain(0)), g, p);
    ItemByRoom(Item(key, Text(t)), h, p, 0, {0}, 0);
    NumberShownExactly(key, 0, g, p, 0, {0}, 0);
    SinglesSame(key, Text(t), Plain(0), p);
  }

  /** With a budget for both, the value below a sensitive key is hidden exactly when the key still looks sensitive. */
  lemma SurvivesExactly(key: string, n: int, p: Policy)
    requires p.maxDepth >= 2 && p.maxItems >= 1 && SensitiveKey(key, p) && p.replacement != ""
    requires |Encode(ShownKey(key, p))| + |Encode(p.replacement)| <= p.maxBytes
    ensures var h := Single(key, Plain(n));
            Closed(h) && Known(Container(0), h) && (Hidden(Container(0), h, p) <==> LooksSensitive(key, p))
  {
    var h := Single(key, Plain(n));
    OneItem(Item(key, Plain(n)), h, p);
    assert |p.replacement| <= |Encode(p.replacement)|;
    if LooksSensitive(key, p) {
      assert ItemsSurvive(h[0].items, p);
      SufficientBudgetHides(Container(0), h, p);
    } else {
      NumberShown(key, n, p);
    }
  }

  /** Three bytes for the key "token". */
  function ThreeBytes(marks: Marks, replacement: string): Policy {
    Policy(2, 1, 5, 3, replacement, marks, text => text, key => key, key => key == "token")
  }

  lemma TokenShown(n: int, marks: Marks, replacement: string)
    requires StandardMarks(marks)
    ensures var p, h := ThreeBytes(marks, replacement), Single("token", Plain(n));
            SensitiveKey("token", p) && LooksSensitive("token", p) &&
            Closed(h) && Known(Container(0), h) && !Hidden(Container(0), h, p) &&
            exists cut :: Redact(Container(0), h, p, 0, {}, 0, false).0 == Dict([Entry(cut, Scalar(n))])
  {
    var p := ThreeBytes(marks, replacement);
    assert |"token"| <= |Encode("token")|;
    assert |CutKey("token", p, 0)| >= |marks.truncated| > |"token"|;
    NumberShown("token", n, p);
  }

  /** A text cut to three characters and marked, as `redact_diagnostic_text` cuts it. */
  function CutAtThree(text: string, marker: string): string {
    if |text| > 3 then text[..3] + marker else text
  }

  /** Strings of three characters, and a budget of 32768 bytes. */
  function ThreeCharacters(marks: Marks, replacement: string): Policy {
    Policy(8, 64, 3, 32768, replacement, marks, text => CutAtThree(text, marks.truncated),
           key => CutAtThree(key, marks.truncated), key => key == "token")
  }

  lemma ThreeCharactersFit(s: string)
    requires |s| <= 3
    ensures |Encode(s)| <= 12
  {
    EncodedLength(s);
  }

  lemma {:induction false} EncodedLength(s: string)
    ensures |Encode(s)| <= 4 * |s|
  {
    if s != "" { EncodedLength(s[1..]); }
  }

  /** Three characters for the key "token", and the budget for anything: the text below it is shown. */
  lemma TokenTextShown(t: string, marks: Marks, replacement: string)
    requires StandardMarks(marks) && |t| <= 3
    ensures var p, h := ThreeCharacters(marks, replacement), Single("token", Text(t));
            SensitiveKey("token", p) && Closed(h) && Known(Container(0), h) && !Hidden(Container(0), h, p) &&
            Needs(Container(0), h, p, 0, {}, false) <= p.maxBytes &&
            exists key :: Redact(Container(0), h, p, 0, {}, 0, false).0 == Dict([Entry(key, Str(t))])
  {
    var p := ThreeCharacters(marks, replacement);
    assert |ShownKey("token", p)| == 3;
    ThreeCharactersFit(ShownKey("token", p));
    ThreeCharactersFit(t);
    TextShown("token", t, p);
  }
}
