/**
 What a redacted value can depend on. Two value graphs that differ only in texts below sensitive
 keys, and in texts that redaction makes equal, redact to the same value, as long as the sensitive keys
 still look sensitive once they are cut to the string length.
 */
module RedactionSecrecy {
  import opened Basics
  import opened Redaction

  /** The key as it is looked at when the budget does not cut it. */
  function ShownKey(key: string, p: Policy): string {
    var text := p.redactKey(key);
    if |text| <= p.maxString then text else text[..p.maxString]
  }

  /** The key as it is given is sensitive. */
  predicate SensitiveKey(key: string, p: Policy) {
    p.sensitive(key)
  }

  /** The key is still sensitive once it is redacted and cut to the string length, as the walk looks at it. */
  predicate LooksSensitive(key: string, p: Policy) {
    p.sensitive(ShownKey(key, p))
  }

  /** Every sensitive key of the graph still looks sensitive. */
  ghost predicate KeysSurvive(h: Heap, p: Policy) {
    forall id :: id in h && h[id].Mapping? ==> ItemsSurvive(h[id].items, p)
  }

  ghost predicate ItemsSurvive(items: seq<Item>, p: Policy) {
    forall x :: x in items && SensitiveKey(x.key, p) ==> LooksSensitive(x.key, p)
  }

  /** Values that redaction cannot tell apart at once; containers are compared by identity. */
  predicate SameValue(v: Value, w: Value, p: Policy) {
    match v
    case Text(text) => w.Text? && p.redactText(text) == p.redactText(w.text)
    case Plain(scalar) => w == v
    case Opaque(safeText) => w.Opaque? && p.redactText(safeText) == p.redactText(w.safeText)
    case Container(id) => w == v
  }

  /** Items with one shown key, whose values are alike, or are texts below a key that looks sensitive. */
  predicate SameItem(a: Item, b: Item, p: Policy) {
    && p.redactKey(a.key) == p.redactKey(b.key)
    && (SameValue(a.value, b.value, p) || (LooksSensitive(a.key, p) && a.value.Text? && b.value.Text?))
  }

  ghost predicate SameItems(a: seq<Item>, b: seq<Item>, p: Policy) {
    |a| == |b| && forall i :: 0 <= i < |a| ==> SameItem(a[i], b[i], p)
  }

  ghost predicate SameValues(a: seq<Value>, b: seq<Value>, p: Policy) {
    |a| == |b| && forall i :: 0 <= i < |a| ==> SameValue(a[i], b[i], p)
  }

  ghost predicate SameNode(a: Node, b: Node, p: Policy) {
    match a
    case Mapping(items) => b.Mapping? && SameItems(items, b.items, p)
    case Sequence(values) => b.Sequence? && SameValues(values, b.values, p)
  }

  /** The same containers, alike one by one. */
  ghost predicate SameGraph(h: Heap, g: Heap, p: Policy) {
    h.Keys == g.Keys && forall id :: id in h ==> SameNode(h[id], g[id], p)
  }

  /** A key the budget cuts leaves no budget, so any text after it becomes the marker. */
  lemma SpentBudgetHides(key: string, x: string, y: string, p: Policy, used: nat)
    requires CleanKey(key, p, used).0 != ShownKey(key, p)
    ensures CleanText(x, p, CleanKey(key, p, used).1) == CleanText(y, p, CleanKey(key, p, used).1)
  {
  }

  /** A text below a sensitive key is replaced, or comes after the budget is spent. */
  lemma SecretTextSame(item: Item, other: Item, h: Heap, g: Heap, p: Policy, depth: nat, seen: set<Identity>, used: nat)
    requires Closed(h) && Closed(g) && depth < p.maxDepth
    requires item.value.Text? && other.value.Text? && LooksSensitive(item.key, p) &&
             p.redactKey(item.key) == p.redactKey(other.key)
    ensures RedactItem(item, h, p, depth, seen, used) == RedactItem(other, g, p, depth, seen, used)
  {
    var key := CleanKey(item.key, p, used);
    assert CleanKey(other.key, p, used) == key;
    if key.0 != ShownKey(item.key, p) {
      SpentBudgetHides(item.key, p.redactText(item.value.text), p.redactText(other.value.text), p, used);
    }
  }

  lemma {:induction false} RedactSame(v: Value, w: Value, h: Heap, g: Heap, p: Policy, depth: nat, seen: set<Identity>,
                                      used: nat, sensitive: bool)
    requires Closed(h) && Closed(g) && Known(v, h) && Known(w, g) && SameGraph(h, g, p) && SameValue(v, w, p)
    ensures Redact(v, h, p, depth, seen, used, sensitive) == Redact(w, g, p, depth, seen, used, sensitive)
    decreases if depth < p.maxDepth then p.maxDepth - depth else 0, 1, 0
  {
    if !sensitive && depth < p.maxDepth && v.Container? && v.id !in seen {
      assert SameNode(h[v.id], g[v.id], p);
      match h[v.id]
      case Mapping(items) => ItemsSame(items, g[v.id].items, p.maxItems, h, g, p, depth, seen + {v.id}, [], used);
      case Sequence(values) =>
        var others := g[v.id].values;
        if |values| <= p.maxItems {
          ValuesSame(values, others, h, g, p, depth, seen + {v.id}, used);
        } else {
          ValuesSame(values[..p.maxItems], others[..p.maxItems], h, g, p, depth, seen + {v.id}, used);
        }
    }
  }

  lemma {:induction false} ItemSame(item: Item, other: Item, h: Heap, g: Heap, p: Policy, depth: nat,
                                    seen: set<Identity>, used: nat)
    requires Closed(h) && Closed(g) && SameGraph(h, g, p) && depth < p.maxDepth
    requires Known(item.value, h) && Known(other.value, g) && SameItem(item, other, p)
    ensures RedactItem(item, h, p, depth, seen, used) == RedactItem(other, g, p, depth, seen, used)
    decreases p.maxDepth - depth, 0, 0
  {
    if SameValue(item.value, other.value, p) {
      var key := CleanKey(item.key, p, used);
      RedactSame(item.value, other.value, h, g, p, depth + 1, seen, key.1, p.sensitive(key.0));
    } else {
      SecretTextSame(item, other, h, g, p, depth, seen, used);
    }
  }

  lemma {:induction false} ItemsSame(items: seq<Item>, others: seq<Item>, room: nat, h: Heap, g: Heap, p: Policy,
                                     depth: nat, seen: set<Identity>, result: seq<Entry>, used: nat)
    requires Closed(h) && Closed(g) && SameGraph(h, g, p) && depth < p.maxDepth && SameItems(items, others, p)
    requires (forall x :: x in items ==> Known(x.value, h)) && (forall x :: x in others ==> Known(x.value, g))
    ensures RedactItems(items, room, h, p, depth, seen, result, used) ==
            RedactItems(others, room, g, p, depth, seen, result, used)
    decreases p.maxDepth - depth, 0, |items| + 1
  {
    if items != [] && room > 0 {
      ItemSame(items[0], others[0], h, g, p, depth, seen, used);
      var entry := RedactItem(items[0], h, p, depth, seen, used);
      ItemsSame(items[1..], others[1..], room - 1, h, g, p, depth, seen, Put(result, entry.0, KeyOf), entry.1);
    }
  }

  lemma {:induction false} ValuesSame(values: seq<Value>, others: seq<Value>, h: Heap, g: Heap, p: Policy, depth: nat,
                                      seen: set<Identity>, used: nat)
    requires Closed(h) && Closed(g) && SameGraph(h, g, p) && depth < p.maxDepth && SameValues(values, others, p)
    requires (forall x :: x in values ==> Known(x, h)) && (forall x :: x in others ==> Known(x, g))
    ensures RedactValues(values, h, p, depth, seen, used) == RedactValues(others, g, p, depth, seen, used)
    decreases p.maxDepth - depth, 0, |values|
  {
    if values != [] {
      var front, last := values[..|values| - 1], values[|values| - 1];
      var before, end := others[..|others| - 1], others[|others| - 1];
      ValuesSame(front, before, h, g, p, depth, seen, used);
      RedactSame(last, end, h, g, p, depth + 1, seen, RedactValues(front, h, p, depth, seen, used).1, false);
    }
  }

  /** As `SameItem`, for keys that are sensitive as they are given. */
  predicate SameButSecret(a: Item, b: Item, p: Policy) {
    && p.redactKey(a.key) == p.redactKey(b.key)
    && (SameValue(a.value, b.value, p) || (SensitiveKey(a.key, p) && a.value.Text? && b.value.Text?))
  }

  ghost predicate SameButSecretNode(a: Node, b: Node, p: Policy) {
    match a
    case Mapping(items) =>
      b.Mapping? && |items| == |b.items| && forall i :: 0 <= i < |items| ==> SameButSecret(items[i], b.items[i], p)
    case Sequence(values) => b.Sequence? && SameValues(values, b.values, p)
  }

  /** Graphs that differ only in texts below sensitive keys, and in texts with one redacted form. */
  ghost predicate SameButSecrets(h: Heap, g: Heap, p: Policy) {
    h.Keys == g.Keys && forall id :: id in h ==> SameButSecretNode(h[id], g[id], p)
  }

  lemma SecretsLookAlike(h: Heap, g: Heap, p: Policy)
    requires SameButSecrets(h, g, p) && KeysSurvive(h, p)
    ensures SameGraph(h, g, p)
  {
    forall id | id in h ensures SameNode(h[id], g[id], p) {
      assert SameButSecretNode(h[id], g[id], p);
      if h[id].Mapping? {
        assert ItemsSurvive(h[id].items, p);
      }
    }
  }

  /**
   When every sensitive key still looks sensitive, the redacted value depends on no text below a sensitive
   key, and on every other text only through its redacted form, however deep it stands, however the graph
   is shared or cyclic, and whether or not the budget suffices.
   */
  lemma SecretTextsHidden(v: Value, h: Heap, g: Heap, p: Policy)
    requires Closed(h) && Closed(g) && Known(v, h) && SameButSecrets(h, g, p) && KeysSurvive(h, p)
    ensures Known(v, g) && Redact(v, h, p, 0, {}, 0, false) == Redact(v, g, p, 0, {}, 0, false)
  {
    SecretsLookAlike(h, g, p);
    RedactSame(v, v, h, g, p, 0, {}, 0, false);
  }
}
