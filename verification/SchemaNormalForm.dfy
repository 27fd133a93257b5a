/**
 What normalization returns, field by field, in terms of the schema as written.
 */
module SchemaNormalForm {
  import opened Basics
  import opened Json
  import opened JsonCanonical
  import opened JsonRoundTrip
  import opened JsonText
  import opened Ordering
  import opened Schema
  import opened SchemaAgreement
  import opened SchemaCanonical
  import opened SchemaMismatch
  import opened SchemaPinning
  import opened SchemaValidator

  /** The same values, in strictly ascending order of their canonical texts. */
  ghost predicate SortedValues(given: Option<Json>, normal: Option<Json>) {
    if given.None? then normal.None?
    else
      && given.value.Arr? && normal.Some? && normal.value.Arr?
      && SameElements(normal.value.items, given.value.items) && |normal.value.items| == |given.value.items|
      && forall i, j :: 0 <= i < j < |normal.value.items| ==>
           Less(Codes(Canonical(normal.value.items[i])), Codes(Canonical(normal.value.items[j])))
  }

  /** The declared names as strings, strictly ascending by code point. */
  ghost predicate SortedNames(s: Json, normal: Option<Json>) {
    && normal.Some? && normal.value.Arr? && AllStrings(normal.value.items)
    && (forall x :: x in normal.value.items <==> Declares(s, Required, x))
    && forall i, j :: 0 <= i < j < |normal.value.items| ==> Less(normal.value.items[i].text, normal.value.items[j].text)
  }

  function GivenProperties(s: Json): (r: seq<Member>)
    ensures r == [] || Obj(r) < s
  {
    match Field(s, Properties)
    case Some(Obj(members)) => members
    case _ => []
  }

  /** `n` is the normal form of `s`: its fields, and no others, each in its normal form. */
  ghost predicate NormalOf(n: Json, s: Json)
    decreases s, 1
  {
    && n.Obj? && NoDuplicates(n.members) && (forall m :: m in n.members ==> IsKeyword(m.key))
    && Field(n, Type) == Field(s, Type) && Field(n, Const) == Field(s, Const)
    && SortedValues(Field(s, Enum), Field(n, Enum))
    && (if HasKind(s, ObjectKind) then
          && Field(n, Additional) == Some(Bool(false)) && SortedNames(s, Field(n, Required))
          && PropertiesNormal(Field(n, Properties), s)
        else Field(n, Additional).None? && Field(n, Required).None? && Field(n, Properties).None?)
    && (if HasKind(s, ArrayKind) then
          && Field(s, Items).Some? && Field(n, Items).Some? && NormalOf(Field(n, Items).value, Field(s, Items).value)
          && Field(n, MinItems) == Field(s, MinItems) && Field(n, MaxItems) == Field(s, MaxItems)
        else Field(n, Items).None? && Field(n, MinItems).None? && Field(n, MaxItems).None?)
    && (if HasKind(s, StringKind) then
          Field(n, MinLength) == Field(s, MinLength) && Field(n, MaxLength) == Field(s, MaxLength)
        else Field(n, MinLength).None? && Field(n, MaxLength).None?)
  }

  /** The properties in their given order, each in its normal form. */
  ghost predicate PropertiesNormal(normal: Option<Json>, s: Json)
    decreases s, 0
  {
    var given := GivenProperties(s);
    && normal.Some? && normal.value.Obj? && |normal.value.members| == |given|
    && forall i :: 0 <= i < |given| ==>
         normal.value.members[i].key == given[i].key && given[i].value < s &&
         NormalOf(normal.value.members[i].value, given[i].value)
  }

  // ----- The parts -----

  lemma EnumNormal(s: Json, kind: Option<Kind>, normal: Option<Json>)
    requires NormalizeConstraint(s, kind).Ok? && Field(s, Const).None? && normal == NormalizedEnum(Field(s, Enum))
    ensures SortedValues(Field(s, Enum), normal)
  {
    if Field(s, Enum).Some? {
      var values := Field(s, Enum).value.items;
      DistinctRanks(values);
      SortAscending(values, ScalarRank);
      SortElements(values, ScalarRank);
      SortLength(values);
    }
  }

  lemma SortLength(values: seq<Json>)
    ensures |Sort(values, ScalarRank)| == |values|
  {
  }

  lemma NamesNormal(s: Json, sorted: seq<Text>)
    requires Ascending(sorted, TextRank) && Lists(s, Strings(sorted)) && DeclaresStrings(s)
    ensures SortedNames(s, Some(Arr(Strings(sorted))))
  {
    forall x ensures x in Strings(sorted) <==> Declares(s, Required, x) {
      if x in Strings(sorted) || Declares(s, Required, x) { assert x == Str(x.text); }
    }
  }

  ghost predicate DeclaresStrings(s: Json) {
    forall x :: Declares(s, Required, x) ==> x.Str?
  }

  lemma OnlyStrings(s: Json, depth: nat, n: Json)
    requires NormalizeSchema(s, depth) == Ok(n) && HasKind(s, ObjectKind)
    ensures DeclaresStrings(s)
  {
    var properties, required, normalized := ObjectFields(s, depth, n);
  }

  /** A field that only one kind has is absent from a schema of another. */
  lemma OtherKind(s: Json, depth: nat, n: Json, k: Keyword, kind: Kind)
    requires NormalizeSchema(s, depth) == Ok(n) && !HasKind(s, kind) && !Framed(k)
    requires forall other: Kind :: KindKeyword(other, k) ==> other == kind
    ensures Field(n, k).None?
  {
    Assembled(s, depth);
    FieldOutside(s, depth, n, k);
  }

  lemma NotObject(s: Json, depth: nat, n: Json)
    requires NormalizeSchema(s, depth) == Ok(n) && !HasKind(s, ObjectKind)
    ensures Field(n, Additional).None? && Field(n, Required).None? && Field(n, Properties).None?
  {
    OtherKind(s, depth, n, Additional, ObjectKind);
    OtherKind(s, depth, n, Required, ObjectKind);
    OtherKind(s, depth, n, Properties, ObjectKind);
  }

  lemma NotArray(s: Json, depth: nat, n: Json)
    requires NormalizeSchema(s, depth) == Ok(n) && !HasKind(s, ArrayKind)
    ensures Field(n, Items).None? && Field(n, MinItems).None? && Field(n, MaxItems).None?
  {
    OtherKind(s, depth, n, Items, ArrayKind);
    OtherKind(s, depth, n, MinItems, ArrayKind);
    OtherKind(s, depth, n, MaxItems, ArrayKind);
  }

  lemma NotString(s: Json, depth: nat, n: Json)
    requires NormalizeSchema(s, depth) == Ok(n) && !HasKind(s, StringKind)
    ensures Field(n, MinLength).None? && Field(n, MaxLength).None?
  {
    OtherKind(s, depth, n, MinLength, StringKind);
    OtherKind(s, depth, n, MaxLength, StringKind);
  }

  lemma FrameNormal(s: Json, depth: nat, n: Json)
    requires NormalizeSchema(s, depth) == Ok(n)
    ensures n.Obj? && NoDuplicates(n.members) && forall m :: m in n.members ==> IsKeyword(m.key)
    ensures Field(n, Type) == Field(s, Type) && Field(n, Const) == Field(s, Const)
    ensures SortedValues(Field(s, Enum), Field(n, Enum))
  {
    NormalizedKeys(s, depth, n);
    NormalizedFrame(s, depth);
    Assembled(s, depth);
    if Field(s, Const).None? { EnumNormal(s, KindIn(s), Field(n, Enum)); }
  }

  // ----- The whole -----

  lemma {:induction false} ObjectNormal(s: Json, depth: nat, n: Json)
    requires NormalizeSchema(s, depth) == Ok(n) && HasKind(s, ObjectKind)
    ensures Field(n, Additional) == Some(Bool(false)) && SortedNames(s, Field(n, Required))
    ensures PropertiesNormal(Field(n, Properties), s)
    decreases s, 0
  {
    var properties, normalized, sorted := ObjectSorted(s, depth, n);
    var p, r, q := ObjectFields(s, depth, n);
    OnlyStrings(s, depth, n);
    NamesNormal(s, sorted);
    PropertiesNormalized(properties, depth + 1);
    forall i | 0 <= i < |properties|
      ensures properties[i].value < s && NormalOf(normalized[i].value, properties[i].value)
    {
      PropertySmaller(s, properties, i);
      NormalizedMeans(properties[i].value, depth + 1, normalized[i].value);
    }
    assert GivenProperties(s) == properties;
  }

  lemma PropertySmaller(s: Json, properties: seq<Member>, i: nat)
    requires Field(s, Properties).GetOr(Obj([])) == Obj(properties) && i < |properties|
    ensures properties[i].value < s
  {
    var p := Field(s, Properties).value;
    assert p.members == properties && properties[i] in p.members;
    assert properties[i].value < p;
  }

  /** Normalization returns the normal form. */
  lemma {:induction false} NormalizedMeans(s: Json, depth: nat, n: Json)
    requires NormalizeSchema(s, depth) == Ok(n)
    ensures NormalOf(n, s)
    decreases s, 1
  {
    FrameNormal(s, depth, n);
    if HasKind(s, ObjectKind) {
      ObjectNormal(s, depth, n);
    } else {
      NotObject(s, depth, n);
    }
    if HasKind(s, ArrayKind) {
      ArrayFields(s, depth, n);
      NormalizedMeans(Field(s, Items).value, depth + 1, Field(n, Items).value);
    } else {
      NotArray(s, depth, n);
    }
    if HasKind(s, StringKind) {
      StringFields(s, depth, n);
    } else {
      NotString(s, depth, n);
    }
  }
}
