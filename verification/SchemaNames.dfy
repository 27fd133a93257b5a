/**
 Which schemas survive being pinned, read off the schema as written: merging the surrogate pairs
 in its property names must not disturb their order.

 A pinned schema is loaded back from its canonical text, which merges the surrogate pairs in every
 name. Code points above U+FFFF come after the high surrogates in code point order, but so do the
 characters from U+E000 to U+FFFF; a name that begins with a pair can therefore stand before such a
 name when its pair is unmerged, and after it once it is merged. `ReloadedInOrder` makes this exact for
 every admitted schema, at every depth; `SchemaDisordered` has a schema where it happens.
 */
module SchemaNames {
  import opened Basics
  import opened Json
  import opened JsonCanonical
  import opened JsonRoundTrip
  import opened JsonText
  import opened Ordering
  import opened Schema
  import opened SchemaAgreement
  import opened SchemaCanonical
  import opened SchemaPinning
  import opened SchemaValidator

  predicate KeepsOrder(a: Text, b: Text) {
    Less(a, b) ==> Less(Merge(a), Merge(b))
  }

  ghost predicate OrderKept(p: seq<Member>) {
    forall a, b :: Lookup(p, a).Some? && Lookup(p, b).Some? ==> KeepsOrder(a, b)
  }

  /** At every object node, the merged property names stand in the order of the names as written. */
  ghost predicate NamesKeepOrder(s: Json)
    decreases s
  {
    && (HasKind(s, ObjectKind) && PropertiesIn(s).Obj? ==>
          OrderKept(PropertiesIn(s).members) &&
          forall key :: PropertyOf(s, key).Some? ==> NamesKeepOrder(PropertyOf(s, key).value))
    && (HasKind(s, ArrayKind) && Field(s, Items).Some? ==> NamesKeepOrder(Field(s, Items).value))
  }

  ghost predicate FieldAscends(n: Json, k: Keyword) {
    Field(n, k).Some? ==> KeysAscend(Reloaded(Field(n, k).value))
  }

  /** Keywords hold no surrogates, so the order of a schema node's own keys never changes. */
  lemma OwnKeysAscend(n: Json)
    requires WellKeyed(n)
    ensures Ascending(Reloaded(n).members, MemberKey)
  {
    CanonMember(n.members);
    var sorted := Canon(n).members;
    KeywordsPairFree(sorted);
    NoDuplicatesAscending(CanonMembers(n.members));
    forall i | 0 <= i < |sorted| ensures MergeMembers(sorted)[i].key == sorted[i].key {
      assert sorted[i] in sorted;
      MergeFixed(sorted[i].key);
    }
    forall i, j | 0 <= i < j < |sorted|
      ensures Less(MemberKey(MergeMembers(sorted)[i]), MemberKey(MergeMembers(sorted)[j]))
    {
      assert Less(MemberKey(sorted[i]), MemberKey(sorted[j]));
    }
  }

  lemma AscendsByFields(n: Json)
    requires WellKeyed(n)
    ensures KeysAscend(Reloaded(n)) <==> forall k: Keyword :: FieldAscends(n, k)
  {
    OwnKeysAscend(n);
    var l := Reloaded(n).members;
    if KeysAscend(Reloaded(n)) {
      forall k: Keyword ensures FieldAscends(n, k) {
        FieldReloaded(n, k);
      }
    }
    if forall k: Keyword :: FieldAscends(n, k) {
      ReloadedKeys(n);
      AscendingMembers(l);
      forall m | m in l ensures KeysAscend(m.value) {
        var k: Keyword :| m.key == Key(k);
        LookupMember(l, m);
        FieldReloaded(n, k);
        assert FieldAscends(n, k);
      }
    }
  }

  lemma FlatAscends(v: Json)
    requires v.Arr? ==> forall x :: x in v.items ==> Scalar(x)
    requires !v.Obj?
    ensures KeysAscend(Reloaded(v))
  {
    if v.Arr? {
      forall x | x in MergeItems(CanonItems(v.items)) ensures KeysAscend(x) {
        var i :| 0 <= i < |v.items| && MergeItems(CanonItems(v.items))[i] == x;
        assert v.items[i] in v.items;
      }
    }
  }

  lemma EnumFlat(values: seq<Json>, kind: Option<Kind>)
    requires EnumAdmitted(values, kind)
    ensures forall x :: x in Sort(values, ScalarRank) ==> Scalar(x)
  {
    SortElements(values, ScalarRank);
    forall x | x in Sort(values, ScalarRank) ensures Scalar(x) {
      assert x in values;
      var i :| 0 <= i < |values| && values[i] == x;
      assert ScalarAdmitted(values[i], kind);
    }
  }

  lemma FrameAscends(s: Json, depth: nat, n: Json, k: Keyword)
    requires NormalizeSchema(s, depth) == Ok(n) && Framed(k)
    ensures FieldAscends(n, k)
  {
    Assembled(s, depth);
    ConstraintOf(s, KindIn(s));
    FrameField(s, depth, k);
    if k == Enum && Field(s, Enum).Some? { EnumFlat(Field(s, Enum).value.items, KindIn(s)); }
    if Field(n, k).Some? { FlatAscends(Field(n, k).value); }
  }

  lemma ObjectRestAscends(s: Json, depth: nat, n: Json)
    requires NormalizeSchema(s, depth) == Ok(n) && HasKind(s, ObjectKind)
    ensures FieldAscends(n, Required) && FieldAscends(n, Additional)
  {
    var _, _, _ := ObjectFields(s, depth, n);
    FlatAscends(Field(n, Required).value);
    FlatAscends(Field(n, Additional).value);
  }

  lemma BoundsAscend(s: Json, depth: nat, n: Json)
    requires NormalizeSchema(s, depth) == Ok(n)
    ensures HasKind(s, ArrayKind) ==> FieldAscends(n, MinItems) && FieldAscends(n, MaxItems)
    ensures HasKind(s, StringKind) ==> FieldAscends(n, MinLength) && FieldAscends(n, MaxLength)
  {
    if HasKind(s, ArrayKind) { ArrayFields(s, depth, n); }
    if HasKind(s, StringKind) { StringFields(s, depth, n); }
  }

  lemma BodyAscends(s: Json, depth: nat, n: Json, kind: Kind, k: Keyword)
    requires NormalizeSchema(s, depth) == Ok(n) && HasKind(s, kind) && BodyKey(Some(kind), k)
    requires k != Properties && k != Items
    ensures FieldAscends(n, k)
  {
    match kind
    case ObjectKind => ObjectRestAscends(s, depth, n);
    case ArrayKind => BoundsAscend(s, depth, n);
    case StringKind => BoundsAscend(s, depth, n);
    case _ =>
  }

  /** Only properties and items can come back out of order. */
  lemma OtherAscends(s: Json, depth: nat, n: Json, k: Keyword)
    requires NormalizeSchema(s, depth) == Ok(n) && DeclaredKind(s).Ok? && k != Properties && k != Items
    ensures FieldAscends(n, k)
  {
    if Framed(k) {
      FrameAscends(s, depth, n, k);
    } else if BodyKey(KindIn(s), k) {
      Assembled(s, depth);
      BodyAscends(s, depth, n, KindIn(s).value, k);
    } else {
      FieldOutside(s, depth, n, k);
    }
  }

  lemma NodeAscends(s: Json, depth: nat, n: Json)
    requires NormalizeSchema(s, depth) == Ok(n)
    ensures KeysAscend(Reloaded(n)) <==> FieldAscends(n, Properties) && FieldAscends(n, Items)
  {
    Assembled(s, depth);
    NormalizedWellKeyed(s, depth, n);
    AscendsByFields(n);
    forall k: Keyword ensures k != Properties && k != Items ==> FieldAscends(n, k) {
      if k != Properties && k != Items { OtherAscends(s, depth, n, k); }
    }
  }

  lemma MergedPair(sorted: seq<Member>, a: Text, b: Text)
    requires Ascending(sorted, MemberKey) && Ascending(MergeMembers(sorted), MemberKey)
    requires Lookup(sorted, a).Some? && Lookup(sorted, b).Some?
    ensures KeepsOrder(a, b)
  {
    if Less(a, b) {
      var names := [a, b];
      NamesStayAscending(names, sorted);
      assert Less(TextRank(MergeTexts(names)[0]), TextRank(MergeTexts(names)[1]));
    }
  }

  lemma PairAscends(sorted: seq<Member>, i: nat, j: nat)
    requires Ascending(sorted, MemberKey) && OrderKept(sorted) && NoDuplicates(sorted) && i < j < |sorted|
    ensures Less(Merge(sorted[i].key), Merge(sorted[j].key))
  {
    LookupMember(sorted, sorted[i]);
    LookupMember(sorted, sorted[j]);
    assert KeepsOrder(sorted[i].key, sorted[j].key);
    assert Less(MemberKey(sorted[i]), MemberKey(sorted[j]));
  }

  lemma OrderKeptAscends(sorted: seq<Member>)
    requires Ascending(sorted, MemberKey) && OrderKept(sorted)
    ensures Ascending(MergeMembers(sorted), MemberKey)
  {
    AscendingMembers(sorted);
    forall i, j | 0 <= i < j < |sorted| ensures Less(Merge(sorted[i].key), Merge(sorted[j].key)) {
      PairAscends(sorted, i, j);
    }
    MergedAscend(sorted);
  }

  lemma MergedAscend(members: seq<Member>)
    requires forall i, j :: 0 <= i < j < |members| ==> Less(Merge(members[i].key), Merge(members[j].key))
    ensures Ascending(MergeMembers(members), MemberKey)
  {
    var merged := MergeMembers(members);
    forall i, j | 0 <= i < j < |merged| ensures Less(MemberKey(merged[i]), MemberKey(merged[j])) {
      assert MemberKey(merged[i]) == Merge(members[i].key) && MemberKey(merged[j]) == Merge(members[j].key);
    }
  }

  lemma OrderKeptAlike(p: seq<Member>, q: seq<Member>)
    requires forall key :: Lookup(p, key).Some? <==> Lookup(q, key).Some?
    ensures OrderKept(p) <==> OrderKept(q)
  {
    if OrderKept(p) {
      forall a, b | Lookup(q, a).Some? && Lookup(q, b).Some? ensures KeepsOrder(a, b) {
        assert Lookup(p, a).Some? && Lookup(p, b).Some?;
      }
    }
    if OrderKept(q) {
      forall a, b | Lookup(p, a).Some? && Lookup(p, b).Some? ensures KeepsOrder(a, b) {
        assert Lookup(q, a).Some? && Lookup(q, b).Some?;
      }
    }
  }

  lemma SortedNames(p: seq<Member>, np: seq<Member>, depth: nat, sorted: seq<Member>)
    requires NoDuplicates(p) && NormalizeProperties(p, depth) == Ok(np) && Obj(sorted) == Canon(Obj(np))
    ensures Ascending(sorted, MemberKey) && (OrderKept(p) <==> OrderKept(sorted))
  {
    PropertiesNormalized(p, depth);
    NoDuplicatesAscending(CanonMembers(np));
    forall key ensures Lookup(p, key).Some? <==> Lookup(sorted, key).Some? {
      NormalizedProperty(p, depth, key);
      LookupCanon(np, key);
    }
    OrderKeptAlike(p, sorted);
  }

  lemma SortedOrderKept(sorted: seq<Member>)
    requires Ascending(sorted, MemberKey)
    ensures Ascending(MergeMembers(sorted), MemberKey) <==> OrderKept(sorted)
  {
    if OrderKept(sorted) { OrderKeptAscends(sorted); }
    if Ascending(MergeMembers(sorted), MemberKey) {
      forall a, b | Lookup(sorted, a).Some? && Lookup(sorted, b).Some?
        ensures KeepsOrder(a, b)
      {
        MergedPair(sorted, a, b);
      }
    }
  }

  /** The merged names of a sorted dict ascend exactly when merging keeps their order. */
  lemma MergedNamesAscend(p: seq<Member>, np: seq<Member>, depth: nat, sorted: seq<Member>)
    requires NoDuplicates(p) && NormalizeProperties(p, depth) == Ok(np) && Obj(sorted) == Canon(Obj(np))
    ensures Ascending(MergeMembers(sorted), MemberKey) <==> OrderKept(p)
  {
    SortedNames(p, np, depth, sorted);
    SortedOrderKept(sorted);
  }

  ghost predicate ValuesAscend(l: seq<Member>) {
    forall m :: m in l ==> KeysAscend(m.value)
  }

  lemma DictAscends(l: seq<Member>)
    ensures KeysAscend(Obj(l)) <==> Ascending(l, MemberKey) && ValuesAscend(l)
  {
  }

  lemma ReloadedValues(np: seq<Member>)
    ensures ValuesAscend(Reloaded(Obj(np)).members) <==> forall i :: 0 <= i < |np| ==> KeysAscend(Reloaded(np[i].value))
  {
    var l := Reloaded(Obj(np)).members;
    if ValuesAscend(l) {
      forall i | 0 <= i < |np| ensures KeysAscend(Reloaded(np[i].value)) { ReloadedMember(np, i); }
    }
    if forall i :: 0 <= i < |np| ==> KeysAscend(Reloaded(np[i].value)) {
      forall m | m in l ensures KeysAscend(m.value) {
        ReloadedProperty(np, m);
        var i :| 0 <= i < |np| && m == Member(Merge(np[i].key), Reloaded(np[i].value));
      }
    }
  }

  lemma PropertiesAscend(p: seq<Member>, np: seq<Member>, depth: nat)
    requires NoDuplicates(p) && NormalizeProperties(p, depth) == Ok(np)
    ensures KeysAscend(Reloaded(Obj(np))) <==>
            OrderKept(p) && forall i :: 0 <= i < |np| ==> KeysAscend(Reloaded(np[i].value))
  {
    var sorted := Canon(Obj(np)).members;
    MergedNamesAscend(p, np, depth, sorted);
    ReloadedValues(np);
    DictAscends(MergeMembers(sorted));
  }

  /** What the names of an object schema mean, property by property. */
  lemma ObjectOrder(s: Json, p: seq<Member>)
    requires HasKind(s, ObjectKind) && PropertiesIn(s) == Obj(p) && NoDuplicates(p)
    ensures NamesKeepOrder(s) <==>
            OrderKept(p) && forall i :: 0 <= i < |p| ==> NamesKeepOrder(p[i].value)
  {
    OneKind(s, ObjectKind);
    forall i | 0 <= i < |p| ensures PropertyOf(s, p[i].key) == Some(p[i].value) {
      LookupMember(p, p[i]);
    }
    forall key | PropertyOf(s, key).Some? ensures exists i :: 0 <= i < |p| && p[i].value == PropertyOf(s, key).value {
      assert Member(key, PropertyOf(s, key).value) in p;
    }
  }

  /** The pinned schema stays in order exactly when the names of the schema as written do. */
  lemma {:induction false} ReloadedInOrder(s: Json, depth: nat, n: Json)
    requires NormalizeSchema(s, depth) == Ok(n) && Dicts(s)
    ensures KeysAscend(Reloaded(n)) <==> NamesKeepOrder(s)
    decreases s, 1
  {
    Assembled(s, depth);
    NodeAscends(s, depth, n);
    if KindIn(s) == Some(ObjectKind) {
      ObjectInOrder(s, depth, n);
    } else if KindIn(s) == Some(ArrayKind) {
      ArrayInOrder(s, depth, n);
    } else {
      OtherInOrder(s, depth, n);
    }
  }

  lemma ArrayOrder(s: Json, p: Json)
    requires HasKind(s, ArrayKind) && Field(s, Items) == Some(p)
    ensures NamesKeepOrder(s) <==> NamesKeepOrder(p)
  {
    OneKind(s, ArrayKind);
  }

  lemma ArrayNode(n: Json, pn: Json)
    requires Field(n, Items) == Some(pn) && Field(n, Properties).None?
    ensures FieldAscends(n, Properties) && FieldAscends(n, Items) <==> KeysAscend(Reloaded(pn))
  {
  }

  lemma ArrayNodeParts(s: Json, depth: nat, n: Json) returns (p: Json, pn: Json)
    requires NormalizeSchema(s, depth) == Ok(n) && HasKind(s, ArrayKind)
    ensures Field(s, Items) == Some(p) && NormalizeSchema(p, depth + 1) == Ok(pn)
    ensures Field(n, Items) == Some(pn) && Field(n, Properties).None?
  {
    ArrayFields(s, depth, n);
    KindDeclared(s, ArrayKind);
    FieldOutside(s, depth, n, Properties);
    p, pn := Field(s, Items).value, Field(n, Items).value;
  }

  lemma {:induction false} ArrayInOrder(s: Json, depth: nat, n: Json)
    requires NormalizeSchema(s, depth) == Ok(n) && Dicts(s) && HasKind(s, ArrayKind)
    ensures FieldAscends(n, Properties) && FieldAscends(n, Items) <==> NamesKeepOrder(s)
    decreases s, 0
  {
    var p, pn := ArrayNodeParts(s, depth, n);
    DictsField(s, Items);
    ReloadedInOrder(p, depth + 1, pn);
    ArrayOrder(s, p);
    ArrayNode(n, pn);
  }

  lemma OtherInOrder(s: Json, depth: nat, n: Json)
    requires NormalizeSchema(s, depth) == Ok(n) && DeclaredKind(s).Ok?
    requires KindIn(s) != Some(ObjectKind) && KindIn(s) != Some(ArrayKind)
    ensures FieldAscends(n, Properties) && FieldAscends(n, Items) <==> NamesKeepOrder(s)
  {
    FieldOutside(s, depth, n, Properties);
    FieldOutside(s, depth, n, Items);
    NeitherKind(s, depth);
  }

  lemma NeitherKind(s: Json, depth: nat)
    requires NormalizeSchema(s, depth).Ok? && DeclaredKind(s).Ok?
    requires KindIn(s) != Some(ObjectKind) && KindIn(s) != Some(ArrayKind)
    ensures NamesKeepOrder(s)
  {
    if HasKind(s, ObjectKind) { KindDeclared(s, ObjectKind); }
    if HasKind(s, ArrayKind) { KindDeclared(s, ArrayKind); }
  }

  lemma {:induction false} ObjectInOrder(s: Json, depth: nat, n: Json)
    requires NormalizeSchema(s, depth) == Ok(n) && Dicts(s) && HasKind(s, ObjectKind)
    ensures FieldAscends(n, Properties) && FieldAscends(n, Items) <==> NamesKeepOrder(s)
    decreases s, 0
  {
    var p, np := ObjectNodeParts(s, depth, n);
    ObjectNode(n, np);
    ObjectPartsInOrder(s, p, np, depth + 1);
  }

  lemma ObjectNodeParts(s: Json, depth: nat, n: Json) returns (p: seq<Member>, np: seq<Member>)
    requires NormalizeSchema(s, depth) == Ok(n) && HasKind(s, ObjectKind)
    ensures PropertiesIn(s) == Obj(p) && NormalizeProperties(p, depth + 1) == Ok(np)
    ensures Field(n, Properties) == Some(Obj(np)) && Field(n, Items).None?
  {
    var required;
    p, required, np := ObjectFields(s, depth, n);
    KindDeclared(s, ObjectKind);
    FieldOutside(s, depth, n, Items);
  }

  lemma ObjectNode(n: Json, np: seq<Member>)
    requires Field(n, Properties) == Some(Obj(np)) && Field(n, Items).None?
    ensures FieldAscends(n, Properties) && FieldAscends(n, Items) <==> KeysAscend(Reloaded(Obj(np)))
  {
  }

  lemma {:induction false} ObjectPartsInOrder(s: Json, p: seq<Member>, np: seq<Member>, depth: nat)
    requires Dicts(s) && HasKind(s, ObjectKind) && PropertiesIn(s) == Obj(p)
    requires NormalizeProperties(p, depth) == Ok(np)
    ensures KeysAscend(Reloaded(Obj(np))) <==> NamesKeepOrder(s)
    decreases s, 0, 1
  {
    SourceProperties(s, p);
    ObjectOrder(s, p);
    PropertiesInOrder(s, p, np, depth);
  }

  lemma SourceProperties(s: Json, p: seq<Member>)
    requires Dicts(s) && PropertiesIn(s) == Obj(p)
    ensures NoDuplicates(p) && forall m :: m in p ==> Dicts(m.value) && m.value < s
  {
    if Field(s, Properties).Some? { DictsField(s, Properties); }
  }

  lemma {:induction false} PropertiesInOrder(s: Json, p: seq<Member>, np: seq<Member>, depth: nat)
    requires NoDuplicates(p) && (forall m :: m in p ==> Dicts(m.value) && m.value < s)
    requires NormalizeProperties(p, depth) == Ok(np)
    ensures KeysAscend(Reloaded(Obj(np))) <==> OrderKept(p) && forall i :: 0 <= i < |p| ==> NamesKeepOrder(p[i].value)
    decreases s, 0, 0
  {
    PropertiesNormalized(p, depth);
    PropertiesAscend(p, np, depth);
    forall i | 0 <= i < |np| ensures KeysAscend(Reloaded(np[i].value)) <==> NamesKeepOrder(p[i].value) {
      assert p[i] in p;
      ReloadedInOrder(p[i].value, depth, np[i].value);
    }
  }
}
