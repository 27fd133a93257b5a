/**
 A requirement pins the digest of its canonical schema and checks it again on the schema it
 loaded back from those bytes. When that second check passes, exactly.

 The loaded schema is the canonical form of the normalized one with its surrogate pairs merged. It
 passes the second check when it is admitted again, at the same depth, and normalizes to itself. The
 lemmas show, for each part of a schema, that the part passes its checks once more: the declared kind,
 the keys, the constraint, the bounds, the required names, and the parts that hold further schemas. The
 one thing that can fail is the order of the property names, so that is the one thing assumed here.
 `ReloadedSettles` puts the parts together by recursion on the schema.
 */
module SchemaPinning {
  import opened Basics
  import opened Json
  import opened JsonCanonical
  import opened JsonRoundTrip
  import opened JsonText
  import opened Ordering
  import opened Schema
  import opened SchemaAgreement
  import opened SchemaCanonical
  import SchemaValidator

  /** The members of every dict are listed in strictly ascending key order. */
  ghost predicate KeysAscend(v: Json) {
    match v
    case Arr(items) => forall x :: x in items ==> KeysAscend(x)
    case Obj(members) => Ascending(members, MemberKey) && forall m :: m in members ==> KeysAscend(m.value)
    case _ => true
  }

  /** What the canonical bytes of a normalized schema load back as, pairs kept. */
  function Reloaded(n: Json): Json {
    MergeAll(Canon(n))
  }

  // ----- Scalars and texts without surrogates -----

  lemma KeyPairFree(k: Keyword)
    ensures PairFree(Key(k))
  {
    assert forall i :: 0 <= i < |Name(k)| ==> Name(k)[i] <= 'z' by {
      match k
      case Type => assert Name(k) == "type";
      case Properties => assert Name(k) == "properties";
      case Required => assert Name(k) == "required";
      case Additional => assert Name(k) == "additionalProperties";
      case Items => assert Name(k) == "items";
      case MinItems => assert Name(k) == "minItems";
      case MaxItems => assert Name(k) == "maxItems";
      case MinLength => assert Name(k) == "minLength";
      case MaxLength => assert Name(k) == "maxLength";
      case Const => assert Name(k) == "const";
      case Enum => assert Name(k) == "enum";
    }
  }

  lemma KindPairFree(t: Kind)
    ensures PairFree(KindText(t))
  {
    assert forall i :: 0 <= i < |KindName(t)| ==> KindName(t)[i] <= 'z' by {
      match t
      case ObjectKind => case ArrayKind => case StringKind => case IntegerKind =>
      case NumberKind => case BooleanKind => case NullKind =>
    }
  }

  predicate Scalar(v: Json) { !v.Arr? && !v.Obj? }

  lemma ScalarReloaded(v: Json, kind: Option<Kind>)
    requires ScalarAdmitted(v, kind)
    ensures var w := Reloaded(v);
            ScalarAdmitted(w, kind) && Canon(w) == w && Canonical(w) == Canonical(v)
  {
    RenderMerge(v);
  }

  // ----- The fields of the reloaded schema -----

  ghost predicate WellKeyed(n: Json) {
    n.Obj? && NoDuplicates(n.members) && forall m :: m in n.members ==> IsKeyword(m.key)
  }

  lemma KeywordsPairFree(members: seq<Member>)
    requires forall m :: m in members ==> IsKeyword(m.key)
    ensures forall m :: m in members ==> PairFree(m.key)
  {
    forall m | m in members ensures PairFree(m.key) {
      var k: Keyword :| m.key == Key(k);
      KeyPairFree(k);
    }
  }

  lemma FieldReloaded(n: Json, k: Keyword)
    requires WellKeyed(n)
    ensures Field(Reloaded(n), k) == MergeOf(CanonOf(Field(n, k)))
  {
    CanonMember(n.members);
    LookupCanon(n.members, Key(k));
    KeywordsPairFree(Canon(n).members);
    LookupMerge(Canon(n).members, Key(k));
  }

  lemma ReloadedKeys(n: Json)
    requires WellKeyed(n)
    ensures Reloaded(n).Obj?
    ensures forall m :: m in Reloaded(n).members ==> IsKeyword(m.key)
  {
    CanonMember(n.members);
    KeywordsPairFree(Canon(n).members);
    forall m | m in Reloaded(n).members ensures IsKeyword(m.key) {
      var i :| 0 <= i < |Reloaded(n).members| && Reloaded(n).members[i] == m;
      MergeFixed(Canon(n).members[i].key);
      assert Canon(n).members[i] in Canon(n).members;
    }
  }

  /** A schema normalized from the reloaded one prints like it, when its fields do. */
  lemma SettledByFields(l: Json, w: Json)
    requires l.Obj? && Ascending(l.members, MemberKey) && (forall m :: m in l.members ==> IsKeyword(m.key))
    requires WellKeyed(w)
    requires forall k: Keyword :: CanonOf(Field(w, k)) == Field(l, k)
    ensures Canon(w) == l
  {
    NoDuplicatesAscending(CanonMembers(w.members));
    forall key ensures Lookup(Canon(w).members, key) == Lookup(l.members, key) {
      LookupCanon(w.members, key);
      if IsKeyword(key) {
        var k: Keyword :| key == Key(k);
        assert CanonOf(Field(w, k)) == Field(l, k);
      } else {
        OnlyKeywords(w.members, key);
        OnlyKeywords(l.members, key);
      }
    }
    AscendingByLookup(Canon(w).members, l.members);
  }

  // ----- Enum values and required names stay sorted -----

  /** The sorted enum, printed and loaded: the same canonical texts, each still admitted. */
  lemma EnumValuesReloaded(sorted: seq<Json>, kind: Option<Kind>)
    requires forall x :: x in sorted ==> ScalarAdmitted(x, kind)
    ensures var again := MergeItems(CanonItems(sorted));
            ScalarsAdmitted(again, kind) && CanonItems(again) == again &&
            forall i :: 0 <= i < |again| ==> Canonical(again[i]) == Canonical(sorted[i])
  {
    var again := MergeItems(CanonItems(sorted));
    forall i | 0 <= i < |again|
      ensures ScalarAdmitted(again[i], kind) && Canon(again[i]) == again[i] &&
              Canonical(again[i]) == Canonical(sorted[i])
    {
      assert sorted[i] in sorted;
      ScalarReloaded(sorted[i], kind);
    }
  }

  lemma EnumSorted(values: seq<Json>, kind: Option<Kind>)
    requires EnumAdmitted(values, kind)
    ensures Ascending(Sort(values, ScalarRank), ScalarRank)
    ensures forall x :: x in Sort(values, ScalarRank) ==> ScalarAdmitted(x, kind)
  {
    DistinctRanks(values);
    SortAscending(values, ScalarRank);
    SortElements(values, ScalarRank);
    forall x | x in Sort(values, ScalarRank) ensures ScalarAdmitted(x, kind) {
      assert x in values;
      var j :| 0 <= j < |values| && values[j] == x;
    }
  }

  lemma EnumReloaded(values: seq<Json>, kind: Option<Kind>)
    requires EnumAdmitted(values, kind)
    ensures var sorted := Sort(values, ScalarRank);
            var again := MergeItems(CanonItems(sorted));
            EnumAdmitted(again, kind) && Sort(again, ScalarRank) == again && CanonItems(again) == again
  {
    var sorted := Sort(values, ScalarRank);
    var again := MergeItems(CanonItems(sorted));
    EnumSorted(values, kind);
    EnumValuesReloaded(sorted, kind);
    AgainSorted(sorted, again);
    DistinctTexts(again);
    AscendingDistinct(again, ScalarRank);
    forall i, j | 0 <= i < j < |again| ensures Canonical(again[i]) != Canonical(again[j]) {
      assert ScalarRank(again[i]) != ScalarRank(again[j]);
    }
    SortedAlready(again, ScalarRank);
  }

  lemma AgainSorted(sorted: seq<Json>, again: seq<Json>)
    requires |again| == |sorted| && Ascending(sorted, ScalarRank)
    requires forall i :: 0 <= i < |again| ==> Canonical(again[i]) == Canonical(sorted[i])
    ensures Ascending(again, ScalarRank)
  {
    forall i, j | 0 <= i < j < |again| ensures Less(ScalarRank(again[i]), ScalarRank(again[j])) {
      assert Less(ScalarRank(sorted[i]), ScalarRank(sorted[j]));
    }
  }

  function MergeTexts(texts: seq<Text>): (r: seq<Text>)
    ensures |r| == |texts| && forall i :: 0 <= i < |r| ==> r[i] == Merge(texts[i])
  {
    if texts == [] then [] else [Merge(texts[0])] + MergeTexts(texts[1..])
  }

  lemma StringsReloaded(texts: seq<Text>)
    ensures Reloaded(Arr(Strings(texts))) == Arr(Strings(MergeTexts(texts)))
  {
    assert MergeItems(CanonItems(Strings(texts))) == Strings(MergeTexts(texts));
  }

  lemma {:induction false} TextsOfStrings(texts: seq<Text>)
    ensures AllStrings(Strings(texts)) && Texts(Strings(texts)) == texts
  {
    if texts != [] {
      assert Strings(texts)[1..] == Strings(texts[1..]);
      TextsOfStrings(texts[1..]);
    }
  }

  /** When merging keeps the order of the property names, it keeps the order of the required ones. */
  lemma NamesStayAscending(names: seq<Text>, members: seq<Member>)
    requires Ascending(names, TextRank) && Ascending(members, MemberKey)
    requires Ascending(MergeMembers(members), MemberKey)
    requires forall i :: 0 <= i < |names| ==> Lookup(members, names[i]).Some?
    ensures Ascending(MergeTexts(names), TextRank)
  {
    forall i, j | 0 <= i < j < |names|
      ensures Less(TextRank(MergeTexts(names)[i]), TextRank(MergeTexts(names)[j]))
    {
      var a, b := names[i], names[j];
      var p :| 0 <= p < |members| && members[p] == Member(a, Lookup(members, a).value);
      var q :| 0 <= q < |members| && members[q] == Member(b, Lookup(members, b).value);
      assert Less(TextRank(a), TextRank(b));
      if q < p {
        assert Less(MemberKey(members[q]), MemberKey(members[p]));
        LessTransitive(a, b, a);
      }
      LessIrreflexive(a);
      assert Less(MemberKey(MergeMembers(members)[p]), MemberKey(MergeMembers(members)[q]));
    }
  }

  lemma AscendingTexts(texts: seq<Text>)
    requires Ascending(texts, TextRank)
    ensures Distinct(texts) && Sort(texts, TextRank) == texts
  {
    AscendingDistinct(texts, TextRank);
    forall i, j | 0 <= i < j < |texts| ensures texts[i] != texts[j] {
      assert TextRank(texts[i]) != TextRank(texts[j]);
    }
    SortedAlready(texts, TextRank);
  }

  // ----- The reloaded schema is admitted again -----

  lemma NormalizedWellKeyed(s: Json, depth: nat, n: Json)
    requires NormalizeSchema(s, depth) == Ok(n)
    ensures WellKeyed(n)
  {
    NormalizedKeys(s, depth, n);
  }

  lemma KindReloaded(s: Json, depth: nat, n: Json)
    requires NormalizeSchema(s, depth) == Ok(n)
    ensures Field(Reloaded(n), Type) == Field(s, Type) && DeclaredKind(s).Ok?
    ensures DeclaredKind(Reloaded(n)) == DeclaredKind(s)
  {
    Assembled(s, depth);
    NormalizedWellKeyed(s, depth, n);
    FrameField(s, depth, Type);
    FieldReloaded(n, Type);
    if KindIn(s).Some? {
      KindPairFree(KindIn(s).value);
      MergeFixed(KindText(KindIn(s).value));
      KindDeclared(s, KindIn(s).value);
      KindDeclared(Reloaded(n), KindIn(s).value);
    }
  }

  lemma KeySupported(s: Json, depth: nat, n: Json, k: Keyword)
    requires NormalizeSchema(s, depth) == Ok(n) && DeclaredKind(s).Ok? && Field(n, k).Some?
    ensures Supported(KindIn(s), Key(k))
  {
    if Framed(k) {
      FrameField(s, depth, k);
      Assembled(s, depth);
      if k == Type { assert KindKeyword(KindIn(s).value, Type); }
    } else if !BodyKey(KindIn(s), k) {
      FieldOutside(s, depth, n, k);
    }
  }

  lemma KeysReloaded(s: Json, depth: nat, n: Json)
    requires NormalizeSchema(s, depth) == Ok(n) && DeclaredKind(s).Ok?
    ensures Reloaded(n).Obj? && AllSupported(Reloaded(n).members, KindIn(s))
  {
    NormalizedWellKeyed(s, depth, n);
    ReloadedKeys(n);
    var l := Reloaded(n);
    forall m | m in l.members ensures Supported(KindIn(s), m.key) {
      var k: Keyword :| m.key == Key(k);
      LookupNone(l.members, m.key);
      FieldReloaded(n, k);
      KeySupported(s, depth, n, k);
    }
    AllSupportedMeans(l.members, KindIn(s));
  }

  /** The admitted value constraint of a schema: at most one of the two, each well formed. */
  ghost predicate ConstraintAdmitted(c: Option<Json>, e: Option<Json>, kind: Option<Kind>) {
    && !(c.Some? && e.Some?)
    && (c.Some? ==> ScalarAdmitted(c.value, kind))
    && (e.Some? ==> e.value.Arr? && EnumAdmitted(e.value.items, kind))
  }

  lemma ConstraintOf(s: Json, kind: Option<Kind>)
    requires !(Field(s, Const).Some? && Field(s, Enum).Some?)
    ensures NormalizeConstraint(s, kind).Ok? <==> ConstraintAdmitted(Field(s, Const), Field(s, Enum), kind)
  {
  }

  lemma ReloadedConst(c: Json, kind: Option<Kind>)
    requires ScalarAdmitted(c, kind)
    ensures ScalarAdmitted(Reloaded(c), kind) && Canon(Reloaded(c)) == Reloaded(c)
  {
    ScalarReloaded(c, kind);
  }

  lemma ReloadedEnum(values: seq<Json>, kind: Option<Kind>, e: Json)
    requires EnumAdmitted(values, kind) && e == Reloaded(Arr(Sort(values, ScalarRank)))
    ensures e.Arr? && EnumAdmitted(e.items, kind) && Canon(Arr(Sort(e.items, ScalarRank))) == e
  {
    EnumReloaded(values, kind);
  }

  /** The value constraint survives: the same canonical bytes, still sorted. */
  lemma ConstraintReloaded(s: Json, depth: nat, n: Json)
    requires NormalizeSchema(s, depth) == Ok(n) && DeclaredKind(s).Ok?
    ensures var l := Reloaded(n);
            ConstraintAdmitted(Field(l, Const), Field(l, Enum), KindIn(s)) &&
            (Field(l, Const).Some? <==> Field(s, Const).Some?) && (Field(l, Enum).Some? <==> Field(s, Enum).Some?) &&
            CanonOf(Field(l, Const)) == Field(l, Const) &&
            CanonOf(NormalizedEnum(Field(l, Enum))) == Field(l, Enum)
  {
    var c, e := Field(s, Const), Field(s, Enum);
    ConstraintFields(s, depth, n);
    if c.Some? { ReloadedConst(c.value, KindIn(s)); }
    if e.Some? { ReloadedEnum(e.value.items, KindIn(s), Field(Reloaded(n), Enum).value); }
  }

  lemma ConstraintFields(s: Json, depth: nat, n: Json)
    requires NormalizeSchema(s, depth) == Ok(n) && DeclaredKind(s).Ok?
    ensures ConstraintAdmitted(Field(s, Const), Field(s, Enum), KindIn(s))
    ensures Field(Reloaded(n), Const) == MergeOf(CanonOf(Field(s, Const)))
    ensures Field(Reloaded(n), Enum) == MergeOf(CanonOf(NormalizedEnum(Field(s, Enum))))
  {
    Assembled(s, depth);
    ConstraintOf(s, KindIn(s));
    NormalizedWellKeyed(s, depth, n);
    NormalizedFrame(s, depth);
    FieldReloaded(n, Const);
    FieldReloaded(n, Enum);
  }

  /** Once its body is admitted, the reloaded schema is. */
  lemma ReloadedAdmitted(s: Json, depth: nat, n: Json)
    requires NormalizeSchema(s, depth) == Ok(n) && DeclaredKind(s).Ok?
    requires NormalizeBody(Reloaded(n), KindIn(s), depth).Ok?
    ensures NormalizeSchema(Reloaded(n), depth).Ok?
  {
    Assembled(s, depth);
    KindReloaded(s, depth, n);
    KeysReloaded(s, depth, n);
    ConstraintReloaded(s, depth, n);
    ConstraintOf(Reloaded(n), KindIn(s));
    Admitted(Reloaded(n), depth, KindIn(s));
  }

  /** The fields that do not belong to the kind settle. */
  lemma FrameSettles(s: Json, depth: nat, n: Json, w: Json, k: Keyword)
    requires NormalizeSchema(s, depth) == Ok(n) && NormalizeSchema(Reloaded(n), depth) == Ok(w)
    requires DeclaredKind(s).Ok? && !BodyKey(KindIn(s), k)
    ensures CanonOf(Field(w, k)) == Field(Reloaded(n), k)
  {
    KindReloaded(s, depth, n);
    if Framed(k) {
      FrameField(Reloaded(n), depth, k);
      ConstraintReloaded(s, depth, n);
      Assembled(s, depth);
    } else {
      FieldOutside(Reloaded(n), depth, w, k);
      FieldOutside(s, depth, n, k);
      NormalizedWellKeyed(s, depth, n);
      FieldReloaded(n, k);
    }
  }

  ghost predicate Settles(n: Json, depth: nat) {
    NormalizeSchema(Reloaded(n), depth).Ok? && Canon(NormalizeSchema(Reloaded(n), depth).value) == Reloaded(n)
  }

  /** The fields of the kind come out of `l` as they stand in it, up to key order. */
  ghost predicate BodySettles(l: Json, depth: nat, kind: Option<Kind>) {
    NormalizeSchema(l, depth).Ok? &&
    forall k :: BodyKey(kind, k) ==> CanonOf(Field(NormalizeSchema(l, depth).value, k)) == Field(l, k)
  }

  lemma SettlesByBody(s: Json, depth: nat, n: Json)
    requires NormalizeSchema(s, depth) == Ok(n) && KeysAscend(Reloaded(n)) && DeclaredKind(s).Ok?
    requires BodySettles(Reloaded(n), depth, KindIn(s))
    ensures Settles(n, depth)
  {
    var l, w := Reloaded(n), NormalizeSchema(Reloaded(n), depth).value;
    NormalizedWellKeyed(s, depth, n);
    NormalizedWellKeyed(l, depth, w);
    ReloadedKeys(n);
    forall k: Keyword ensures CanonOf(Field(w, k)) == Field(l, k) {
      if !BodyKey(KindIn(s), k) { FrameSettles(s, depth, n, w, k); }
    }
    SettledByFields(l, w);
  }

  // ----- Kind by kind -----

  lemma PlainAgain(l: Json, kind: Option<Kind>, depth: nat)
    requires NormalizeSchema(l, depth).Ok? && forall k :: !BodyKey(kind, k)
    ensures BodySettles(l, depth, kind)
  {
  }

  lemma PlainSettles(s: Json, depth: nat, n: Json)
    requires NormalizeSchema(s, depth) == Ok(n) && KeysAscend(Reloaded(n)) && DeclaredKind(s).Ok?
    requires forall k :: !BodyKey(KindIn(s), k)
    ensures Settles(n, depth)
  {
    PlainBody(Reloaded(n), KindIn(s), depth);
    ReloadedAdmitted(s, depth, n);
    PlainAgain(Reloaded(n), KindIn(s), depth);
    SettlesByBody(s, depth, n);
  }

  lemma StringAgain(l: Json, depth: nat)
    requires NormalizeSchema(l, depth).Ok? && SchemaValidator.HasKind(l, StringKind)
    requires CanonOf(Field(l, MinLength)) == Field(l, MinLength) && CanonOf(Field(l, MaxLength)) == Field(l, MaxLength)
    ensures BodySettles(l, depth, Some(StringKind))
  {
    StringFields(l, depth, NormalizeSchema(l, depth).value);
  }

  lemma ArrayAgain(l: Json, depth: nat, p: Json)
    requires NormalizeSchema(l, depth).Ok? && SchemaValidator.HasKind(l, ArrayKind) && Field(l, Items) == Some(p)
    requires CanonOf(Field(l, MinItems)) == Field(l, MinItems) && CanonOf(Field(l, MaxItems)) == Field(l, MaxItems)
    requires NormalizeSchema(p, depth + 1).Ok? && Canon(NormalizeSchema(p, depth + 1).value) == p
    ensures BodySettles(l, depth, Some(ArrayKind))
  {
    var w := NormalizeSchema(l, depth).value;
    ArrayFields(l, depth, w);
    ArrayKeysSettle(l, w);
  }

  lemma ArrayKeysSettle(l: Json, w: Json)
    requires CanonOf(Field(w, Items)) == Field(l, Items) && CanonOf(Field(w, MinItems)) == Field(l, MinItems)
    requires CanonOf(Field(w, MaxItems)) == Field(l, MaxItems)
    ensures forall k :: BodyKey(Some(ArrayKind), k) ==> CanonOf(Field(w, k)) == Field(l, k)
  {
  }

  lemma StringsFixed(texts: seq<Text>)
    ensures Canon(Arr(Strings(texts))) == Arr(Strings(texts))
  {
    assert CanonItems(Strings(texts)) == Strings(texts);
  }

  lemma ObjectAgain(l: Json, depth: nat, p: seq<Member>, np: seq<Member>, names: seq<Text>)
    requires NormalizeSchema(l, depth).Ok? && SchemaValidator.HasKind(l, ObjectKind)
    requires PropertiesIn(l) == Obj(p) && RequiredIn(l) == Arr(Strings(names))
    requires Field(l, Properties).Some? && Field(l, Required).Some? && Field(l, Additional) == Some(Bool(false))
    requires NormalizeProperties(p, depth + 1) == Ok(np) && Canon(Obj(np)) == Obj(p)
    requires AllStrings(Strings(names)) && Sort(Texts(Strings(names)), TextRank) == names
    ensures BodySettles(l, depth, Some(ObjectKind))
  {
    var w := NormalizeSchema(l, depth).value;
    ObjectFieldValues(l, depth, w, p, np, Strings(names));
    StringsFixed(names);
    ObjectKeysSettle(l, w);
  }

  lemma ObjectKeysSettle(l: Json, w: Json)
    requires CanonOf(Field(w, Properties)) == Field(l, Properties) && CanonOf(Field(w, Required)) == Field(l, Required)
    requires CanonOf(Field(w, Additional)) == Field(l, Additional)
    ensures forall k :: BodyKey(Some(ObjectKind), k) ==> CanonOf(Field(w, k)) == Field(l, k)
  {
  }

  /** Admitted bounds are integers, which nothing changes. */
  lemma BoundReloaded(s: Json, n: Json, minimum: Keyword, maximum: Keyword, ceiling: int)
    requires WellKeyed(n) && BoundError(s, minimum, maximum, ceiling).Ok?
    requires Field(n, minimum) == Field(s, minimum) && Field(n, maximum) == Field(s, maximum)
    ensures Field(Reloaded(n), minimum) == Field(s, minimum) == CanonOf(Field(s, minimum))
    ensures Field(Reloaded(n), maximum) == Field(s, maximum) == CanonOf(Field(s, maximum))
    ensures BoundError(Reloaded(n), minimum, maximum, ceiling).Ok?
  {
    FieldReloaded(n, minimum);
    FieldReloaded(n, maximum);
  }

  lemma StringReloaded(s: Json, depth: nat, n: Json)
    requires NormalizeSchema(s, depth) == Ok(n) && SchemaValidator.HasKind(s, StringKind)
    ensures var l := Reloaded(n);
            NormalizeBody(l, Some(StringKind), depth).Ok? &&
            CanonOf(Field(l, MinLength)) == Field(l, MinLength) && CanonOf(Field(l, MaxLength)) == Field(l, MaxLength)
  {
    NormalizedWellKeyed(s, depth, n);
    StringFields(s, depth, n);
    BoundReloaded(s, n, MinLength, MaxLength, MAX_STRING);
  }

  lemma SameKindReloaded(s: Json, depth: nat, n: Json, kind: Kind)
    requires NormalizeSchema(s, depth) == Ok(n) && SchemaValidator.HasKind(s, kind)
    ensures SchemaValidator.HasKind(Reloaded(n), kind) && DeclaredKind(s) == Ok(Some(kind))
  {
    KindDeclared(s, kind);
    KindReloaded(s, depth, n);
  }

  lemma StringSettles(s: Json, depth: nat, n: Json)
    requires NormalizeSchema(s, depth) == Ok(n) && KeysAscend(Reloaded(n))
    requires SchemaValidator.HasKind(s, StringKind)
    ensures Settles(n, depth)
  {
    SameKindReloaded(s, depth, n, StringKind);
    StringReloaded(s, depth, n);
    ReloadedAdmitted(s, depth, n);
    StringAgain(Reloaded(n), depth);
    SettlesByBody(s, depth, n);
  }

  lemma ArrayReloaded(s: Json, depth: nat, n: Json, pn: Json)
    requires NormalizeSchema(s, depth) == Ok(n) && SchemaValidator.HasKind(s, ArrayKind)
    requires Field(n, Items) == Some(pn)
    ensures var l := Reloaded(n);
            BoundError(l, MinItems, MaxItems, MAX_ITEMS).Ok? && Field(l, Items) == Some(Reloaded(pn)) &&
            CanonOf(Field(l, MinItems)) == Field(l, MinItems) && CanonOf(Field(l, MaxItems)) == Field(l, MaxItems)
  {
    NormalizedWellKeyed(s, depth, n);
    ArrayFields(s, depth, n);
    BoundReloaded(s, n, MinItems, MaxItems, MAX_ITEMS);
    FieldReloaded(n, Items);
  }

  lemma ArraySettles(s: Json, depth: nat, n: Json, pn: Json)
    requires NormalizeSchema(s, depth) == Ok(n) && KeysAscend(Reloaded(n))
    requires SchemaValidator.HasKind(s, ArrayKind)
    requires Field(n, Items) == Some(pn) && Settles(pn, depth + 1)
    ensures Settles(n, depth)
  {
    SameKindReloaded(s, depth, n, ArrayKind);
    ArrayReloaded(s, depth, n, pn);
    ArrayBuilt(Reloaded(n), depth);
    ReloadedAdmitted(s, depth, n);
    ArrayAgain(Reloaded(n), depth, Reloaded(pn));
    SettlesByBody(s, depth, n);
  }

  // ----- Objects -----

  /** The reloaded properties are the normalized ones, each reloaded, in the order of their old names. */
  lemma ReloadedProperty(np: seq<Member>, m: Member)
    requires m in Reloaded(Obj(np)).members
    ensures exists i :: 0 <= i < |np| && m == Member(Merge(np[i].key), Reloaded(np[i].value))
  {
    CanonMember(np);
    var canon := Canon(Obj(np)).members;
    var j :| 0 <= j < |canon| && MergeMembers(canon)[j] == m;
    assert canon[j] in canon;
  }

  lemma PropertiesSettle(np: seq<Member>, depth: nat)
    requires forall i :: 0 <= i < |np| ==> Settles(np[i].value, depth)
    requires Ascending(Reloaded(Obj(np)).members, MemberKey)
    ensures var l := Reloaded(Obj(np)).members;
            NormalizeProperties(l, depth).Ok? && Canon(Obj(NormalizeProperties(l, depth).value)) == Obj(l)
  {
    var l := Reloaded(Obj(np)).members;
    forall m | m in l
      ensures NormalizeSchema(m.value, depth).Ok? && Canon(NormalizeSchema(m.value, depth).value) == m.value
    {
      ReloadedProperty(np, m);
      var i :| 0 <= i < |np| && m == Member(Merge(np[i].key), Reloaded(np[i].value));
      assert Settles(np[i].value, depth);
    }
    PropertiesNormalized(l, depth);
    var lp := NormalizeProperties(l, depth).value;
    forall i | 0 <= i < |l| ensures CanonMembers(lp)[i] == l[i] {
      assert l[i] in l;
    }
    assert CanonMembers(lp) == l;
    SortedAlready(l, MemberKey);
  }

  lemma NamesChecked(merged: seq<Text>, l: seq<Member>)
    requires Ascending(merged, TextRank) && forall i :: 0 <= i < |merged| ==> Lookup(l, merged[i]).Some?
    ensures AllStrings(Strings(merged)) && Distinct(Strings(merged))
    ensures forall x :: x in Strings(merged) ==> Lookup(l, x.text).Some?
    ensures Sort(Texts(Strings(merged)), TextRank) == merged
  {
    AscendingTexts(merged);
    TextsOfStrings(merged);
    forall x | x in Strings(merged) ensures Lookup(l, x.text).Some? {
      var i :| 0 <= i < |merged| && Strings(merged)[i] == x;
    }
    forall i, j | 0 <= i < j < |merged| ensures Strings(merged)[i] != Strings(merged)[j] {
      assert merged[i] != merged[j];
    }
  }

  lemma CheckPassed(s: Json, l: seq<Member>, required: seq<Json>)
    requires Field(s, Additional) == Some(Bool(false)) && |l| <= MAX_PROPERTIES
    requires AllStrings(required) && Distinct(required) && AllDeclared(required, l) && NamesFit(l)
    ensures CheckObject(s, Obj(l), Arr(required)).Ok?
  {
  }

  /** The checks on the reloaded properties and required names pass again. */
  lemma CheckReloaded(l: Json, members: seq<Member>, names: seq<Text>)
    requires Field(l, Additional) == Some(Bool(false)) && |members| <= MAX_PROPERTIES
    requires forall i :: 0 <= i < |members| ==> |members[i].key| <= MAX_STRING
    requires Ascending(MergeTexts(names), TextRank)
    requires forall i :: 0 <= i < |names| ==> Lookup(MergeMembers(members), Merge(names[i])).Some?
    ensures CheckObject(l, Obj(MergeMembers(members)), Arr(Strings(MergeTexts(names)))).Ok?
    ensures AllStrings(Strings(MergeTexts(names)))
    ensures Sort(Texts(Strings(MergeTexts(names))), TextRank) == MergeTexts(names)
  {
    NamesChecked(MergeTexts(names), MergeMembers(members));
    CheckPassed(l, MergeMembers(members), Strings(MergeTexts(names)));
  }

  lemma NameReloaded(members: seq<Member>, name: Text)
    requires Lookup(members, name).Some?
    ensures Lookup(MergeMembers(members), Merge(name)).Some?
  {
    var i :| 0 <= i < |members| && members[i] == Member(name, Lookup(members, name).value);
    assert MergeMembers(members)[i] in MergeMembers(members);
    LookupNone(MergeMembers(members), Merge(name));
  }

  /** What an admitted object schema says about its names, before and after sorting. */
  lemma ObjectNames(p: seq<Member>, np: seq<Member>, required: seq<Json>, depth: nat)
    requires NoDuplicates(p) && NormalizeProperties(p, depth) == Ok(np) && AllStrings(required) && Distinct(required)
    requires AllDeclared(required, p)
    ensures var names, sorted := Sort(Texts(required), TextRank), Canon(Obj(np)).members;
            NoDuplicates(np) && Ascending(names, TextRank) && Ascending(sorted, MemberKey) &&
            forall i :: 0 <= i < |names| ==> Lookup(sorted, names[i]).Some?
  {
    var names, sorted := Sort(Texts(required), TextRank), Canon(Obj(np)).members;
    PropertiesStayDistinct(p, np, depth);
    NoDuplicatesAscending(CanonMembers(np));
    RequiredNamesAscend(required);
    forall i | 0 <= i < |names| ensures Lookup(sorted, names[i]).Some? {
      RequiredNameKept(p, np, required, depth, names[i]);
    }
  }

  lemma PropertiesStayDistinct(p: seq<Member>, np: seq<Member>, depth: nat)
    requires NoDuplicates(p) && NormalizeProperties(p, depth) == Ok(np)
    ensures NoDuplicates(np)
  {
    PropertiesNormalized(p, depth);
  }

  lemma RequiredNamesAscend(required: seq<Json>)
    requires AllStrings(required) && Distinct(required)
    ensures Ascending(Sort(Texts(required), TextRank), TextRank)
  {
    forall i, j | 0 <= i < j < |required| ensures TextRank(Texts(required)[i]) != TextRank(Texts(required)[j]) {
      assert required[i] != required[j];
    }
    SortAscending(Texts(required), TextRank);
  }

  lemma RequiredNameKept(p: seq<Member>, np: seq<Member>, required: seq<Json>, depth: nat, name: Text)
    requires NormalizeProperties(p, depth) == Ok(np) && AllStrings(required) && NoDuplicates(np)
    requires AllDeclared(required, p)
    requires name in Sort(Texts(required), TextRank)
    ensures Lookup(Canon(Obj(np)).members, name).Some?
  {
    SortElements(Texts(required), TextRank);
    TextsOf(required, name);
    NormalizedProperty(p, depth, name);
    LookupCanon(np, name);
  }

  /** The pieces of the reloaded object schema. */
  lemma ObjectPieces(n: Json, np: seq<Member>, names: seq<Text>)
    requires WellKeyed(n) && Field(n, Properties) == Some(Obj(np))
    requires Field(n, Required) == Some(Arr(Strings(names))) && Field(n, Additional) == Some(Bool(false))
    ensures Field(Reloaded(n), Properties) == Some(Obj(Reloaded(Obj(np)).members))
    ensures Field(Reloaded(n), Required) == Some(Arr(Strings(MergeTexts(names))))
    ensures Field(Reloaded(n), Additional) == Some(Bool(false))
  {
    ReloadedField(n, Properties, Obj(np));
    ReloadedField(n, Required, Arr(Strings(names)));
    ReloadedField(n, Additional, Bool(false));
    StringsReloaded(names);
  }

  lemma ReloadedField(n: Json, k: Keyword, v: Json)
    requires WellKeyed(n) && Field(n, k) == Some(v)
    ensures Field(Reloaded(n), k) == Some(Reloaded(v))
  {
    FieldReloaded(n, k);
  }

  lemma ShortNames(p: seq<Member>, np: seq<Member>, depth: nat)
    requires NormalizeProperties(p, depth) == Ok(np) && |p| <= MAX_PROPERTIES
    requires forall m :: m in p ==> |m.key| <= MAX_STRING
    ensures var sorted := Canon(Obj(np)).members;
            |sorted| <= MAX_PROPERTIES && forall i :: 0 <= i < |sorted| ==> |sorted[i].key| <= MAX_STRING
  {
    PropertiesNormalized(p, depth);
    CanonMember(np);
    var sorted := Canon(Obj(np)).members;
    forall i | 0 <= i < |sorted| ensures |sorted[i].key| <= MAX_STRING {
      assert sorted[i] in sorted;
      var j :| 0 <= j < |np| && sorted[i] == Member(np[j].key, Canon(np[j].value));
      assert p[j] in p;
    }
  }

  /** The reloaded object schema passes its checks again, its required names still in order. */
  lemma ObjectChecked(l: Json, p: seq<Member>, np: seq<Member>, required: seq<Json>, depth: nat)
    requires NoDuplicates(p) && NormalizeProperties(p, depth) == Ok(np) && |p| <= MAX_PROPERTIES
    requires NamesFit(p) && AllStrings(required) && Distinct(required) && AllDeclared(required, p)
    requires Field(l, Additional) == Some(Bool(false))
    requires Ascending(MergeMembers(Canon(Obj(np)).members), MemberKey)
    ensures var names := Sort(Texts(required), TextRank);
            CheckObject(l, Obj(MergeMembers(Canon(Obj(np)).members)), Arr(Strings(MergeTexts(names)))).Ok? &&
            AllStrings(Strings(MergeTexts(names))) &&
            Sort(Texts(Strings(MergeTexts(names))), TextRank) == MergeTexts(names)
  {
    var names, sorted := Sort(Texts(required), TextRank), Canon(Obj(np)).members;
    ObjectNames(p, np, required, depth);
    ShortNames(p, np, depth);
    NamesStayAscending(names, sorted);
    forall i | 0 <= i < |names| ensures Lookup(MergeMembers(sorted), Merge(names[i])).Some? {
      NameReloaded(sorted, names[i]);
    }
    CheckReloaded(l, sorted, names);
  }

  lemma ObjectSettlesBy(s: Json, depth: nat, n: Json, l: seq<Member>, names: seq<Text>)
    requires NormalizeSchema(s, depth) == Ok(n) && KeysAscend(Reloaded(n))
    requires SchemaValidator.HasKind(s, ObjectKind)
    requires Field(Reloaded(n), Properties) == Some(Obj(l)) && Field(Reloaded(n), Required) == Some(Arr(Strings(names)))
    requires Field(Reloaded(n), Additional) == Some(Bool(false))
    requires CheckObject(Reloaded(n), Obj(l), Arr(Strings(names))).Ok?
    requires AllStrings(Strings(names)) && Sort(Texts(Strings(names)), TextRank) == names
    requires NormalizeProperties(l, depth + 1).Ok? && Canon(Obj(NormalizeProperties(l, depth + 1).value)) == Obj(l)
    ensures Settles(n, depth)
  {
    SameKindReloaded(s, depth, n, ObjectKind);
    ObjectBuilt(Reloaded(n), depth);
    ReloadedAdmitted(s, depth, n);
    ObjectAgain(Reloaded(n), depth, l, NormalizeProperties(l, depth + 1).value, names);
    SettlesByBody(s, depth, n);
  }

  lemma AscendingProperties(n: Json, np: seq<Member>)
    requires WellKeyed(n) && KeysAscend(Reloaded(n)) && Field(n, Properties) == Some(Obj(np))
    ensures KeysAscend(Reloaded(Obj(np)))
  {
    FieldReloaded(n, Properties);
  }

  /** What the reloaded object schema consists of. */
  lemma ObjectFacts(s: Json, depth: nat, n: Json, p: seq<Member>, np: seq<Member>, required: seq<Json>)
    requires NormalizeSchema(s, depth) == Ok(n) && KeysAscend(Reloaded(n))
    requires SchemaValidator.HasKind(s, ObjectKind) && PropertiesIn(s) == Obj(p) && RequiredIn(s) == Arr(required)
    requires NormalizeProperties(p, depth + 1) == Ok(np)
    ensures AllStrings(required) && KeysAscend(Reloaded(Obj(np)))
    ensures Field(Reloaded(n), Properties) == Some(Obj(Reloaded(Obj(np)).members))
    ensures Field(Reloaded(n), Required) == Some(Arr(Strings(MergeTexts(Sort(Texts(required), TextRank)))))
    ensures Field(Reloaded(n), Additional) == Some(Bool(false))
  {
    NormalizedWellKeyed(s, depth, n);
    ObjectFieldValues(s, depth, n, p, np, required);
    AscendingProperties(n, np);
    ObjectPieces(n, np, Sort(Texts(required), TextRank));
  }

  lemma ObjectSettles(s: Json, depth: nat, n: Json, p: seq<Member>, np: seq<Member>, required: seq<Json>)
    requires NormalizeSchema(s, depth) == Ok(n) && KeysAscend(Reloaded(n)) && NoDuplicates(p)
    requires SchemaValidator.HasKind(s, ObjectKind) && PropertiesIn(s) == Obj(p) && RequiredIn(s) == Arr(required)
    requires NormalizeProperties(p, depth + 1) == Ok(np)
    requires forall i :: 0 <= i < |np| ==> Settles(np[i].value, depth + 1)
    ensures Settles(n, depth)
  {
    ObjectFacts(s, depth, n, p, np, required);
    ObjectAdmitted(s, depth);
    var l := ObjectLoaded(s, Reloaded(n), depth, p, np, required);
    ObjectSettlesBy(s, depth, n, l, MergeTexts(Sort(Texts(required), TextRank)));
  }

  lemma ReloadedProperties(np: seq<Member>) returns (q: seq<Member>)
    requires KeysAscend(Reloaded(Obj(np)))
    ensures Reloaded(Obj(np)) == Obj(q) && q == MergeMembers(Canon(Obj(np)).members) && Ascending(q, MemberKey)
  {
    q := Reloaded(Obj(np)).members;
  }

  lemma ObjectLoaded(s: Json, l: Json, depth: nat, p: seq<Member>, np: seq<Member>, required: seq<Json>)
    returns (q: seq<Member>)
    requires CheckObject(s, Obj(p), Arr(required)).Ok? && NoDuplicates(p) && AllStrings(required)
    requires NormalizeProperties(p, depth + 1) == Ok(np)
    requires Field(l, Additional) == Some(Bool(false)) && KeysAscend(Reloaded(Obj(np)))
    requires forall i :: 0 <= i < |np| ==> Settles(np[i].value, depth + 1)
    ensures q == Reloaded(Obj(np)).members
    ensures var names := MergeTexts(Sort(Texts(required), TextRank));
            CheckObject(l, Obj(q), Arr(Strings(names))).Ok? &&
            AllStrings(Strings(names)) && Sort(Texts(Strings(names)), TextRank) == names
    ensures NormalizeProperties(q, depth + 1).Ok? && Canon(Obj(NormalizeProperties(q, depth + 1).value)) == Obj(q)
  {
    q := ReloadedProperties(np);
    PropertiesSettle(np, depth + 1);
    ObjectChecksAgain(s, l, depth, p, np, required, Sort(Texts(required), TextRank));
  }

  /** What the checks on the properties and the required names establish. */
  lemma CheckedMeans(s: Json, p: seq<Member>, required: seq<Json>)
    requires CheckObject(s, Obj(p), Arr(required)).Ok? && AllStrings(required)
    ensures |p| <= MAX_PROPERTIES && NamesFit(p) && Distinct(required) && AllDeclared(required, p)
  {
  }

  lemma ObjectChecksAgain(s: Json, l: Json, depth: nat, p: seq<Member>, np: seq<Member>, required: seq<Json>,
                          names: seq<Text>)
    requires CheckObject(s, Obj(p), Arr(required)).Ok? && NoDuplicates(p) && AllStrings(required)
    requires NormalizeProperties(p, depth + 1) == Ok(np) && names == Sort(Texts(required), TextRank)
    requires Field(l, Additional) == Some(Bool(false)) && Ascending(MergeMembers(Canon(Obj(np)).members), MemberKey)
    ensures CheckObject(l, Obj(MergeMembers(Canon(Obj(np)).members)), Arr(Strings(MergeTexts(names)))).Ok?
    ensures AllStrings(Strings(MergeTexts(names))) &&
            Sort(Texts(Strings(MergeTexts(names))), TextRank) == MergeTexts(names)
  {
    CheckedMeans(s, p, required);
    ObjectChecked(l, p, np, required, depth + 1);
  }

  lemma ReloadedMember(np: seq<Member>, i: nat)
    requires i < |np|
    ensures Member(Merge(np[i].key), Reloaded(np[i].value)) in Reloaded(Obj(np)).members
  {
    CanonMember(np);
    var canon := Canon(Obj(np)).members;
    var j :| 0 <= j < |canon| && canon[j] == Member(np[i].key, Canon(np[i].value));
    assert MergeMembers(canon)[j] in MergeMembers(canon);
  }

  lemma ReloadedParts(np: seq<Member>, i: nat)
    requires KeysAscend(Reloaded(Obj(np))) && i < |np|
    ensures KeysAscend(Reloaded(np[i].value))
  {
    ReloadedMember(np, i);
  }

  lemma AdmittedKind(s: Json, depth: nat)
    requires NormalizeSchema(s, depth).Ok?
    ensures DeclaredKind(s).Ok? && (KindIn(s).Some? ==> SchemaValidator.HasKind(s, KindIn(s).value))
  {
    Assembled(s, depth);
  }

  /**
   A normalized schema, printed and loaded back, is admitted again and prints the same, when its
   reloaded property names are still in strictly ascending order.
   */
  lemma {:induction false} ReloadedSettles(s: Json, depth: nat, n: Json)
    requires NormalizeSchema(s, depth) == Ok(n) && Dicts(s) && KeysAscend(Reloaded(n))
    ensures Settles(n, depth)
    decreases s, 2
  {
    AdmittedKind(s, depth);
    match KindIn(s)
    case Some(ObjectKind) => ObjectReloadedSettles(s, depth, n);
    case Some(ArrayKind) => ArrayReloadedSettles(s, depth, n);
    case Some(StringKind) => StringSettles(s, depth, n);
    case _ =>
      NoBodyKeys(KindIn(s));
      PlainSettles(s, depth, n);
  }

  lemma AscendingItems(n: Json, pn: Json)
    requires WellKeyed(n) && KeysAscend(Reloaded(n)) && Field(n, Items) == Some(pn)
    ensures KeysAscend(Reloaded(pn))
  {
    FieldReloaded(n, Items);
  }

  lemma DictsField(s: Json, k: Keyword)
    requires Dicts(s) && Field(s, k).Some?
    ensures Dicts(Field(s, k).value)
  {
  }

  lemma {:induction false} ArrayReloadedSettles(s: Json, depth: nat, n: Json)
    requires NormalizeSchema(s, depth) == Ok(n) && Dicts(s) && KeysAscend(Reloaded(n))
    requires SchemaValidator.HasKind(s, ArrayKind)
    ensures Settles(n, depth)
    decreases s, 1
  {
    NormalizedWellKeyed(s, depth, n);
    ArrayFields(s, depth, n);
    var pn := Field(n, Items).value;
    AscendingItems(n, pn);
    DictsField(s, Items);
    ReloadedSettles(Field(s, Items).value, depth + 1, pn);
    ArraySettles(s, depth, n, pn);
  }

  lemma {:induction false} ObjectReloadedSettles(s: Json, depth: nat, n: Json)
    requires NormalizeSchema(s, depth) == Ok(n) && Dicts(s) && KeysAscend(Reloaded(n))
    requires SchemaValidator.HasKind(s, ObjectKind)
    ensures Settles(n, depth)
    decreases s, 1
  {
    var p, required, np := ObjectFields(s, depth, n);
    NormalizedWellKeyed(s, depth, n);
    AscendingProperties(n, np);
    ReloadedPropertiesSettle(s, depth, p, np);
    ObjectSettles(s, depth, n, p, np, required);
  }

  lemma {:induction false} ReloadedPropertiesSettle(s: Json, depth: nat, p: seq<Member>, np: seq<Member>)
    requires Dicts(s) && KeysAscend(Reloaded(Obj(np))) && PropertiesIn(s) == Obj(p)
    requires NormalizeProperties(p, depth + 1) == Ok(np)
    ensures NoDuplicates(p)
    ensures forall i :: 0 <= i < |np| ==> Settles(np[i].value, depth + 1)
    decreases s, 0
  {
    PropertiesNormalized(p, depth + 1);
    assert Dicts(PropertiesIn(s));
    forall i | 0 <= i < |np| ensures Settles(np[i].value, depth + 1) {
      assert p[i] in p && p[i].value < s;
      ReloadedParts(np, i);
      ReloadedSettles(p[i].value, depth + 1, np[i].value);
    }
  }
}
