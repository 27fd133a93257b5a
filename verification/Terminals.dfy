/**
 One order of terminal results everywhere: the request sorts its output requirements by UTF-8
 bytes, the harness and the descriptor sort their terminal results by code points.
 */
module Terminals {
  import opened Basics
  import opened Json
  import opened JsonCanonical
  import opened JsonRoundTrip
  import opened JsonText
  import opened Ordering
  import opened Utf8
  import Schema

  const MAX_REQUIREMENTS := 64

  /** What one terminal result requires: whether an output must be present, and its schema's digest. */
  datatype Entry = Entry(terminal: string, required: bool, schemaDigest: string)

  function ByteKey(e: Entry): Rank { Encode(e.terminal) }

  function CodeKey(e: Entry): Rank { Codes(e.terminal) }

  function TextBytes(s: string): Rank { Encode(s) }

  function TextCodes(s: string): Rank { Codes(s) }

  ghost predicate DistinctTerminals(entries: seq<Entry>) {
    forall i, j :: 0 <= i < j < |entries| ==> entries[i].terminal != entries[j].terminal
  }

  ghost predicate Admissible(entries: seq<Entry>, blank: string -> bool) {
    |entries| <= MAX_REQUIREMENTS && DistinctTerminals(entries) && forall e :: e in entries ==> !blank(e.terminal)
  }

  /** `_selected_output_requirements_by_terminal_result`: the entries in the order of the returned dict. */
  method ByTerminalResult(entries: seq<Entry>, blank: string -> bool) returns (r: Result<seq<Entry>>)
    ensures r.Ok? <==> Admissible(entries, blank)
    ensures r.Ok? ==> r.value == Sort(entries, ByteKey)
  {
    if |entries| > MAX_REQUIREMENTS {
      return Err("ceiling");
    }
    var names: set<string> := {};
    var lookup: seq<Entry> := [];
    for i := 0 to |entries|
      invariant lookup == entries[..i] && DistinctTerminals(entries[..i])
      invariant forall e :: e in entries[..i] ==> !blank(e.terminal)
      invariant forall t :: t in names <==> exists j :: 0 <= j < i && entries[j].terminal == t
    {
      if blank(entries[i].terminal) {
        assert entries[i] in entries;
        return Err("blank");
      }
      if entries[i].terminal in names {
        return Err("duplicate");
      }
      assert entries[..i + 1] == entries[..i] + [entries[i]];
      names := names + {entries[i].terminal};
      lookup := lookup + [entries[i]];
    }
    assert entries[..|entries|] == entries;
    return Ok(Sort(lookup, ByteKey));
  }

  /** `canonicalize_base_terminal_results`, with the check of each name as a parameter. */
  function CanonicalTerminals(results: seq<string>, valid: string -> bool): Result<seq<string>> {
    if !(1 <= |results| <= MAX_REQUIREMENTS) then Err("count")
    else if exists t :: t in results && !valid(t) then Err("invalid")
    else if !Distinct(results) then Err("duplicate")
    else Ok(Sort(results, TextCodes))
  }

  /** The vocabulary is admitted exactly when it has 1 to 64 valid names, no two alike; it is then listed in order. */
  lemma CanonicalTerminalsExact(results: seq<string>, valid: string -> bool)
    ensures var r := CanonicalTerminals(results, valid);
            && (r.Ok? <==> 1 <= |results| <= 64 && (forall t :: t in results ==> valid(t)) &&
                           forall i, j :: 0 <= i < j < |results| ==> results[i] != results[j])
            && (r.Ok? ==> Ascending(r.value, Codes) && forall t :: t in r.value <==> t in results)
  {
    var r := CanonicalTerminals(results, valid);
    if r.Ok? {
      DistinctTextCodes(results);
      SortAscending(results, TextCodes);
      SortElements(results, TextCodes);
    }
  }

  /** The terminal results of the descriptor: sorted again from the nodes of the harness. */
  function DescriptorTerminals(nodeResults: seq<string>): seq<string> {
    Sort(nodeResults, TextCodes)
  }

  // ----- One order -----

  lemma EntryOrder()
    ensures forall x: Entry, y: Entry :: Less(ByteKey(x), ByteKey(y)) <==> Less(CodeKey(x), CodeKey(y))
  {
    forall x: Entry, y: Entry ensures Less(ByteKey(x), ByteKey(y)) <==> Less(CodeKey(x), CodeKey(y)) {
      ByteOrder(x.terminal, y.terminal);
    }
  }

  /** Sorting by UTF-8 bytes and sorting by code points order any terminal results alike. */
  lemma BytesAndCodesSortAlike(entries: seq<Entry>, results: seq<string>)
    ensures Sort(entries, ByteKey) == Sort(entries, CodeKey)
    ensures Sort(results, TextBytes) == Sort(results, TextCodes)
  {
    EntryOrder();
    SortAlike(entries, ByteKey, CodeKey);
    forall x: string, y: string ensures Less(TextBytes(x), TextBytes(y)) <==> Less(TextCodes(x), TextCodes(y)) {
      ByteOrder(x, y);
    }
    SortAlike(results, TextBytes, TextCodes);
  }

  function TerminalsOf(entries: seq<Entry>): (r: seq<string>)
    ensures |r| == |entries| && forall i :: 0 <= i < |r| ==> r[i] == entries[i].terminal
  {
    seq(|entries|, i requires 0 <= i < |entries| => entries[i].terminal)
  }

  lemma DistinctByteKeys(entries: seq<Entry>)
    requires DistinctTerminals(entries)
    ensures DistinctKeys(entries, ByteKey)
  {
    forall i, j | 0 <= i < j < |entries| ensures ByteKey(entries[i]) != ByteKey(entries[j]) {
      if ByteKey(entries[i]) == ByteKey(entries[j]) { EncodeInjective(entries[i].terminal, entries[j].terminal); }
    }
  }

  lemma DistinctTextCodes(results: seq<string>)
    requires Distinct(results)
    ensures DistinctKeys(results, TextCodes)
  {
    forall i, j | 0 <= i < j < |results| ensures TextCodes(results[i]) != TextCodes(results[j]) {
      if TextCodes(results[i]) == TextCodes(results[j]) { CodesInjective(results[i], results[j]); }
    }
  }

  /**
   A request that covers the harness vocabulary lists its requirements in exactly the order of that
   vocabulary, which is also the order of the descriptor.
   */
  lemma OneOrder(entries: seq<Entry>, results: seq<string>, valid: string -> bool)
    requires DistinctTerminals(entries) && CanonicalTerminals(results, valid).Ok?
    requires SameElements(TerminalsOf(entries), results)
    ensures TerminalsOf(Sort(entries, ByteKey)) == CanonicalTerminals(results, valid).value
    ensures DescriptorTerminals(CanonicalTerminals(results, valid).value) == CanonicalTerminals(results, valid).value
  {
    var sorted, canonical := Sort(entries, ByteKey), Sort(results, TextCodes);
    DistinctByteKeys(entries);
    SortAscending(entries, ByteKey);
    SortElements(entries, ByteKey);
    DistinctTextCodes(results);
    SortAscending(results, TextCodes);
    SortElements(results, TextCodes);
    forall i, j | 0 <= i < j < |sorted|
      ensures Less(TextCodes(TerminalsOf(sorted)[i]), TextCodes(TerminalsOf(sorted)[j]))
    {
      assert Less(ByteKey(sorted[i]), ByteKey(sorted[j]));
      ByteOrder(sorted[i].terminal, sorted[j].terminal);
    }
    forall t ensures t in TerminalsOf(sorted) <==> t in canonical {
      TerminalIn(sorted, t);
      TerminalIn(entries, t);
      if exists e :: e in sorted && e.terminal == t {
        var e :| e in sorted && e.terminal == t;
        assert e in entries;
      }
      if exists e :: e in entries && e.terminal == t {
        var e :| e in entries && e.terminal == t;
        assert e in sorted;
      }
    }
    AscendingUnique(TerminalsOf(sorted), canonical, TextCodes);
    SortedAlready(canonical, TextCodes);
  }

  lemma TerminalIn(entries: seq<Entry>, t: string)
    ensures t in TerminalsOf(entries) <==> exists e :: e in entries && e.terminal == t
  {
    if t in TerminalsOf(entries) {
      var i :| 0 <= i < |entries| && TerminalsOf(entries)[i] == t;
      assert entries[i] in entries;
    }
    if exists e :: e in entries && e.terminal == t {
      var e :| e in entries && e.terminal == t;
      var i :| 0 <= i < |entries| && entries[i] == e;
      assert TerminalsOf(entries)[i] == t;
    }
  }

  // ----- The digest of the requirements -----

  /** The member names of one payload record, in the order they are written. */
  datatype Names = Names(required: Text, schema: Text, terminal: Text)

  predicate StandardNames(names: Names) {
    names == Names(Schema.Lit("required"), Schema.Lit("schema_sha256"), Schema.Lit("terminal_result"))
  }

  function PayloadEntry(e: Entry, names: Names): Json {
    Obj([Member(names.required, Bool(e.required)), Member(names.schema, Str(Schema.Lit(e.schemaDigest))),
         Member(names.terminal, Str(Schema.Lit(e.terminal)))])
  }

  function Payload(entries: seq<Entry>, names: Names): (r: seq<Json>)
    ensures |r| == |entries| && forall i :: 0 <= i < |r| ==> r[i] == PayloadEntry(entries[i], names)
  {
    if entries == [] then [] else [PayloadEntry(entries[0], names)] + Payload(entries[1..], names)
  }

  /** The canonical JSON text of the payload. */
  function PayloadText(entries: seq<Entry>, names: Names): string {
    Render(Canon(Arr(Payload(entries, names))))
  }

  /** `_selected_output_requirements_sha256` of admissible requirements. */
  function Digest(entries: seq<Entry>, names: Names, sha: string -> string): Option<string> {
    if entries == [] then None else Some(sha(PayloadText(Sort(entries, ByteKey), names)))
  }

  /** The digest does not depend on the order the caller lists the requirements in. */
  lemma DigestIgnoresOrder(a: seq<Entry>, b: seq<Entry>, names: Names, sha: string -> string)
    requires DistinctTerminals(a) && multiset(a) == multiset(b)
    ensures Digest(a, names, sha) == Digest(b, names, sha)
  {
    assert |multiset(a)| == |a| && |multiset(b)| == |b|;
    forall e ensures e in a <==> e in b {
      assert e in multiset(a) <==> e in multiset(b);
    }
    DistinctByteKeys(a);
    SortAscending(a, ByteKey);
    AscendingDistinct(Sort(a, ByteKey), ByteKey);
    DistinctByPermutation(a, b);
    DistinctByteKeys(b);
    SortIgnoresOrder(a, b, ByteKey);
  }

  lemma CountedTwice(b: seq<Entry>, i: nat, j: nat)
    requires i < j < |b| && b[i] == b[j]
    ensures multiset(b)[b[i]] >= 2
  {
    assert b == b[..j] + [b[j]] + b[j + 1..] && b[i] in b[..j];
    assert multiset(b)[b[i]] == multiset(b[..j])[b[i]] + 1 + multiset(b[j + 1..])[b[i]];
  }

  lemma DistinctByPermutation(a: seq<Entry>, b: seq<Entry>)
    requires DistinctTerminals(a) && multiset(a) == multiset(b)
    ensures DistinctTerminals(b)
  {
    forall i, j | 0 <= i < j < |b| ensures b[i].terminal != b[j].terminal {
      assert b[i] in multiset(b) && b[j] in multiset(b);
      assert b[i] in a && b[j] in a;
      DistinctCounts(a, b[i]);
      if b[i] == b[j] { CountedTwice(b, i, j); }
    }
  }

  lemma NoSurrogates(s: string)
    ensures PairFree(Schema.Lit(s))
  {
  }

  lemma PayloadPairFree(entries: seq<Entry>, names: Names)
    requires PairFree(names.required) && PairFree(names.schema) && PairFree(names.terminal)
    ensures PairFreeAll(Arr(Payload(entries, names)))
  {
    forall i | 0 <= i < |entries| ensures PairFreeAll(Payload(entries, names)[i]) {
      NoSurrogates(entries[i].terminal);
      NoSurrogates(entries[i].schemaDigest);
    }
  }

  predicate AscendingNames(names: Names) {
    Less(names.required, names.schema) && Less(names.schema, names.terminal)
  }

  lemma StandardNamesAscend(names: Names)
    requires StandardNames(names)
    ensures AscendingNames(names) && PairFree(names.required) && PairFree(names.schema) && PairFree(names.terminal)
  {
    assert names.required[0] == 'r' as int && names.schema[0] == 's' as int && names.terminal[0] == 't' as int;
    NoSurrogates("required");
    NoSurrogates("schema_sha256");
    NoSurrogates("terminal_result");
  }

  /** A payload record already stands in canonical order. */
  lemma PayloadEntryCanonical(e: Entry, names: Names)
    requires AscendingNames(names)
    ensures Canon(PayloadEntry(e, names)) == PayloadEntry(e, names)
  {
    var members := PayloadEntry(e, names).members;
    assert CanonMembers(members) == members;
    LessTransitive(names.required, names.schema, names.terminal);
    forall i, j | 0 <= i < j < |members| ensures Less(MemberKey(members[i]), MemberKey(members[j])) {
    }
    SortedAlready(members, MemberKey);
  }

  lemma PayloadCanonical(entries: seq<Entry>, names: Names)
    requires AscendingNames(names)
    ensures Canon(Arr(Payload(entries, names))) == Arr(Payload(entries, names))
  {
    forall i | 0 <= i < |entries| ensures CanonItems(Payload(entries, names))[i] == Payload(entries, names)[i] {
      PayloadEntryCanonical(entries[i], names);
    }
    assert CanonItems(Payload(entries, names)) == Payload(entries, names);
  }

  lemma PayloadInjective(a: seq<Entry>, b: seq<Entry>, names: Names)
    requires Payload(a, names) == Payload(b, names)
    ensures a == b
  {
    assert |Payload(a, names)| == |Payload(b, names)|;
    forall i | 0 <= i < |a| ensures a[i] == b[i] {
      assert PayloadEntry(a[i], names) == Payload(a, names)[i] == Payload(b, names)[i] == PayloadEntry(b[i], names);
      var x, y := PayloadEntry(a[i], names).members, PayloadEntry(b[i], names).members;
      assert x[0] == y[0] && x[1] == y[1] && x[2] == y[2];
      Schema.LitInjective(a[i].terminal, b[i].terminal);
      Schema.LitInjective(a[i].schemaDigest, b[i].schemaDigest);
    }
  }

  lemma PayloadFixed(entries: seq<Entry>, names: Names)
    requires StandardNames(names)
    ensures MergeAll(Canon(Arr(Payload(entries, names)))) == Arr(Payload(entries, names))
  {
    StandardNamesAscend(names);
    PayloadCanonical(entries, names);
    PayloadPairFree(entries, names);
    MergeAllFixed(Arr(Payload(entries, names)));
  }

  lemma SameRendered(v: Json, w: Json, toFloat: FloatOf)
    requires Floats(v, toFloat) && Floats(w, toFloat) && Render(Canon(v)) == Render(Canon(w))
    ensures MergeAll(Canon(v)) == MergeAll(Canon(w))
  {
    CanonFloats(v, toFloat);
    CanonFloats(w, toFloat);
    SameText(Canon(v), Canon(w), toFloat);
  }

  lemma PayloadFloats(entries: seq<Entry>, names: Names, toFloat: FloatOf)
    ensures Floats(Arr(Payload(entries, names)), toFloat)
  {
    forall i | 0 <= i < |entries| ensures Floats(Payload(entries, names)[i], toFloat) {
    }
  }

  lemma PayloadTextInjective(a: seq<Entry>, b: seq<Entry>, names: Names, toFloat: FloatOf)
    requires StandardNames(names) && PayloadText(a, names) == PayloadText(b, names)
    ensures a == b
  {
    PayloadFixed(a, names);
    PayloadFixed(b, names);
    PayloadFloats(a, names, toFloat);
    PayloadFloats(b, names, toFloat);
    SameRendered(Arr(Payload(a, names)), Arr(Payload(b, names)), toFloat);
    PayloadInjective(a, b, names);
  }

  /** The hashed text determines the requirements: equal texts come from the same requirements. */
  lemma DigestTextDetermines(a: seq<Entry>, b: seq<Entry>, names: Names, toFloat: FloatOf)
    requires StandardNames(names) && PayloadText(Sort(a, ByteKey), names) == PayloadText(Sort(b, ByteKey), names)
    ensures multiset(a) == multiset(b)
  {
    PayloadTextInjective(Sort(a, ByteKey), Sort(b, ByteKey), names, toFloat);
  }

  /** The record says of a terminal result what it requires, under the three names and nothing else. */
  ghost predicate Says(v: Json, e: Entry, names: Names) {
    && v.Obj? && Dicts(v) && |v.members| == 3
    && Member(names.terminal, Str(Schema.Lit(e.terminal))) in v.members
    && Member(names.required, Bool(e.required)) in v.members
    && Member(names.schema, Str(Schema.Lit(e.schemaDigest))) in v.members
  }

  lemma PayloadSays(e: Entry, names: Names)
    requires AscendingNames(names)
    ensures Says(PayloadEntry(e, names), e, names)
  {
    var members := PayloadEntry(e, names).members;
    LessTransitive(names.required, names.schema, names.terminal);
    LessIrreflexive(names.required);
    LessIrreflexive(names.schema);
    assert members[0].key != members[1].key && members[0].key != members[2].key && members[1].key != members[2].key;
    assert members[0] in members && members[1] in members && members[2] in members;
  }

  /** The hashed text reads back as one record for each requirement, in the byte order of the terminal results. */
  lemma DigestTextReads(entries: seq<Entry>, names: Names, toFloat: FloatOf) returns (records: seq<Json>)
    requires StandardNames(names)
    ensures Load(PayloadText(Sort(entries, ByteKey), names), Reader(false, toFloat)) == Some(Arr(records))
    ensures |records| == |entries|
    ensures forall i :: 0 <= i < |records| ==> Says(records[i], Sort(entries, ByteKey)[i], names)
  {
    var sorted := Sort(entries, ByteKey);
    var v := Arr(Payload(sorted, names));
    records := v.items;
    StandardNamesAscend(names);
    forall i | 0 <= i < |records| ensures Says(records[i], sorted[i], names) { PayloadSays(sorted[i], names); }
    PayloadFixed(sorted, names);
    PayloadFloats(sorted, names, toFloat);
    PayloadLoads(v, toFloat);
  }

  lemma PayloadLoads(v: Json, toFloat: FloatOf)
    requires Floats(v, toFloat) && v.Arr?
    ensures Load(Render(Canon(v)), Reader(false, toFloat)) == Some(MergeAll(Canon(v)))
  {
    CanonFloats(v, toFloat);
    ReadRendered(Canon(v), "", Reader(false, toFloat));
    RenderFront(Canon(v), toFloat);
    assert Render(Canon(v)) + "" == Render(Canon(v));
    SkipNothing(Render(Canon(v)));
  }
}
