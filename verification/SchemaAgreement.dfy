/**
 The validator agrees with the meaning of the schema as it was written.

 The validator runs on the normalized schema, the meaning is read off the original one. The proof
 follows the schema: each kind has a lemma that takes the agreement on the parts (the properties of an
 object, the items of an array) to the agreement on the whole, and `Agreement` puts them together. On
 the way it finds that the validator's unreachable branches are unreachable.
 */
module SchemaAgreement {
  import opened Basics
  import opened Json
  import opened JsonCanonical
  import opened JsonRoundTrip
  import opened JsonText
  import opened Ordering
  import opened Schema
  import opened SchemaValidator

  // ----- The fields of a normalized schema -----

  lemma {:induction false} LookupAppend(a: seq<Member>, b: seq<Member>, key: Text)
    ensures Lookup(a + b, key) == if Lookup(a, key).Some? then Lookup(a, key) else Lookup(b, key)
  {
    if a == [] {
      assert a + b == b;
    } else {
      assert (a + b)[1..] == a[1..] + b;
      LookupAppend(a[1..], b, key);
    }
  }

  lemma LookupCopied(s: Json, k: Keyword, j: Keyword)
    ensures Lookup(Copied(s, k), Key(j)) == if j == k then Field(s, k) else None
  {
    KeysDiffer(k, j);
  }

  lemma NullTypeUnsupported()
    ensures !Supported(None, Key(Type))
  {
    KeysDiffer(Type, Const);
    KeysDiffer(Type, Enum);
  }

  function KindIn(s: Json): Option<Kind>
    requires DeclaredKind(s).Ok?
  {
    DeclaredKind(s).value
  }

  /** The parts a normalized schema is put together from. */
  lemma Assembled(s: Json, depth: nat)
    requires NormalizeSchema(s, depth).Ok?
    ensures s.Obj? && depth <= MAX_DEPTH && DeclaredKind(s).Ok? && AllSupported(s.members, KindIn(s))
    ensures !(Field(s, Const).Some? && Field(s, Enum).Some?)
    ensures KindIn(s).None? ==> Field(s, Type).None? && (Field(s, Const).Some? || Field(s, Enum).Some?)
    ensures KindIn(s).Some? ==> Field(s, Type) == Some(Str(KindText(KindIn(s).value)))
    ensures NormalizeBody(s, KindIn(s), depth).Ok? && NormalizeConstraint(s, KindIn(s)).Ok?
    ensures NormalizeSchema(s, depth).value ==
            Obj(Head(KindIn(s)) + NormalizeBody(s, KindIn(s), depth).value + NormalizeConstraint(s, KindIn(s)).value)
  {
    if KindIn(s).None? && Field(s, Type).Some? {
      NullTypeUnsupported();
      AllSupportedMeans(s.members, None);
    }
  }

  lemma HeadLookup(kind: Option<Kind>, k: Keyword)
    ensures Lookup(Head(kind), Key(k)) ==
            if k == Type && kind.Some? then Some(Str(KindText(kind.value))) else None
  {
    KeysDiffer(Type, k);
  }

  /** What normalization keeps of the value constraint. */
  function NormalizedEnum(values: Option<Json>): Option<Json> {
    match values
    case Some(Arr(items)) => Some(Arr(Sort(items, ScalarRank)))
    case _ => None
  }

  lemma ConstraintLookup(s: Json, kind: Option<Kind>, k: Keyword)
    requires NormalizeConstraint(s, kind).Ok? && !(Field(s, Const).Some? && Field(s, Enum).Some?)
    ensures Lookup(NormalizeConstraint(s, kind).value, Key(k)) ==
            if k == Const then Field(s, Const) else if k == Enum then NormalizedEnum(Field(s, Enum)) else None
  {
    KeysDiffer(Const, k);
    KeysDiffer(Enum, k);
  }

  lemma ThreePartLookup(a: seq<Member>, b: seq<Member>, c: seq<Member>, key: Text)
    ensures Lookup(a + b + c, key) ==
            if Lookup(a, key).Some? then Lookup(a, key)
            else if Lookup(b, key).Some? then Lookup(b, key) else Lookup(c, key)
  {
    LookupAppend(a + b, c, key);
    LookupAppend(a, b, key);
  }

  lemma ObjectBodyLookup(properties: seq<Member>, required: seq<Text>, k: Keyword)
    ensures Lookup(ObjectBody(properties, required), Key(k)) ==
            if k == Properties then Some(Obj(properties))
            else if k == Required then Some(Arr(Strings(required)))
            else if k == Additional then Some(Bool(false)) else None
  {
    var body := ObjectBody(properties, required);
    KeysDiffer(Properties, k);
    KeysDiffer(Required, k);
    KeysDiffer(Additional, k);
    assert Lookup(body[1..], Key(k)) ==
           if body[1].key == Key(k) then Some(body[1].value) else Lookup(body[1..][1..], Key(k));
    assert body[1..][1..] == [body[2]];
  }

  lemma ArrayBodyLookup(items: Json, s: Json, k: Keyword)
    ensures Lookup(ArrayBody(items, s), Key(k)) ==
            if k == Items then Some(items) else if (k == MinItems || k == MaxItems) then Field(s, k) else None
  {
    var first := [Member(Key(Items), items)];
    KeysDiffer(Items, k);
    LookupCopied(s, MinItems, k);
    LookupCopied(s, MaxItems, k);
    ThreePartLookup(first, Copied(s, MinItems), Copied(s, MaxItems), Key(k));
  }

  lemma StringBodyLookup(s: Json, k: Keyword)
    ensures Lookup(Copied(s, MinLength) + Copied(s, MaxLength), Key(k)) ==
            if (k == MinLength || k == MaxLength) then Field(s, k) else None
  {
    LookupCopied(s, MinLength, k);
    LookupCopied(s, MaxLength, k);
    LookupAppend(Copied(s, MinLength), Copied(s, MaxLength), Key(k));
  }

  /** What the body of an object schema is made from. */
  lemma ObjectParts(s: Json, depth: nat)
    requires NormalizeBody(s, Some(ObjectKind), depth).Ok?
    ensures var properties := Field(s, Properties).GetOr(Obj([]));
            var required := Field(s, Required).GetOr(Arr([]));
            CheckObject(s, properties, required).Ok? &&
            NormalizeProperties(properties.members, depth + 1).Ok? &&
            NormalizeBody(s, Some(ObjectKind), depth).value ==
              ObjectBody(NormalizeProperties(properties.members, depth + 1).value,
                         Sort(Texts(required.items), TextRank))
  {
  }

  lemma ArrayParts(s: Json, depth: nat)
    requires NormalizeBody(s, Some(ArrayKind), depth).Ok?
    ensures Field(s, Items).Some? && BoundError(s, MinItems, MaxItems, MAX_ITEMS).Ok?
    ensures NormalizeSchema(Field(s, Items).value, depth + 1).Ok?
    ensures NormalizeBody(s, Some(ArrayKind), depth).value ==
            ArrayBody(NormalizeSchema(Field(s, Items).value, depth + 1).value, s)
  {
  }

  /** The keywords the body of a kind may have. */
  predicate BodyKey(kind: Option<Kind>, k: Keyword) {
    k != Type && kind.Some? && KindKeyword(kind.value, k)
  }

  lemma BodyHasNone(s: Json, depth: nat, k: Keyword)
    requires DeclaredKind(s).Ok? && NormalizeBody(s, KindIn(s), depth).Ok? && !BodyKey(KindIn(s), k)
    ensures Lookup(NormalizeBody(s, KindIn(s), depth).value, Key(k)).None?
  {
    match KindIn(s)
    case Some(ObjectKind) => ObjectHasNone(s, depth, k);
    case Some(ArrayKind) =>
      ArrayParts(s, depth);
      ArrayBodyLookup(NormalizeSchema(Field(s, Items).value, depth + 1).value, s, k);
    case Some(StringKind) => StringBodyLookup(s, k);
    case _ =>
  }

  lemma ObjectHasNone(s: Json, depth: nat, k: Keyword)
    requires NormalizeBody(s, Some(ObjectKind), depth).Ok? && (k != Properties && k != Required && k != Additional)
    ensures Lookup(NormalizeBody(s, Some(ObjectKind), depth).value, Key(k)).None?
  {
    ObjectParts(s, depth);
    var required := Field(s, Required).GetOr(Arr([]));
    ObjectBodyLookup(NormalizeProperties(Field(s, Properties).GetOr(Obj([])).members, depth + 1).value,
                     Sort(Texts(required.items), TextRank), k);
  }

  /** The keywords whose fields do not depend on the kind. */
  predicate Framed(k: Keyword) {
    k == Type || k == Const || k == Enum
  }

  /** The value of a framed field, read off the schema as written. */
  function FramedField(s: Json, k: Keyword): Option<Json>
    requires Framed(k)
  {
    if k == Enum then NormalizedEnum(Field(s, Enum)) else Field(s, k)
  }

  lemma PartsLookup(s: Json, kind: Option<Kind>, body: seq<Member>, constraint: seq<Member>, k: Keyword)
    requires Framed(k) && Lookup(body, Key(k)).None?
    requires NormalizeConstraint(s, kind) == Ok(constraint) && !(Field(s, Const).Some? && Field(s, Enum).Some?)
    requires Field(s, Type) == if kind.None? then None else Some(Str(KindText(kind.value)))
    ensures Lookup(Head(kind) + body + constraint, Key(k)) == FramedField(s, k)
  {
    ThreePartLookup(Head(kind), body, constraint, Key(k));
    HeadLookup(kind, k);
    ConstraintLookup(s, kind, k);
  }

  lemma FrameField(s: Json, depth: nat, k: Keyword)
    requires NormalizeSchema(s, depth).Ok? && Framed(k)
    ensures Field(NormalizeSchema(s, depth).value, k) == FramedField(s, k)
  {
    Assembled(s, depth);
    BodyHasNone(s, depth, k);
    PartsLookup(s, KindIn(s), NormalizeBody(s, KindIn(s), depth).value, NormalizeConstraint(s, KindIn(s)).value, k);
  }

  /** The type and the value constraint of a normalized schema. */
  lemma NormalizedFrame(s: Json, depth: nat)
    requires NormalizeSchema(s, depth).Ok?
    ensures var n := NormalizeSchema(s, depth).value;
            Field(n, Type) == Field(s, Type) &&
            Field(n, Const) == Field(s, Const) &&
            Field(n, Enum) == NormalizedEnum(Field(s, Enum))
  {
    FrameField(s, depth, Type);
    FrameField(s, depth, Const);
    FrameField(s, depth, Enum);
  }

  lemma BodyLookup(s: Json, depth: nat, k: Keyword)
    requires NormalizeSchema(s, depth).Ok? && !Framed(k)
    ensures DeclaredKind(s).Ok? && NormalizeBody(s, KindIn(s), depth).Ok?
    ensures Field(NormalizeSchema(s, depth).value, k) == Lookup(NormalizeBody(s, KindIn(s), depth).value, Key(k))
  {
    Assembled(s, depth);
    var kind := KindIn(s);
    var body, constraint := NormalizeBody(s, kind, depth).value, NormalizeConstraint(s, kind).value;
    ThreePartLookup(Head(kind), body, constraint, Key(k));
    HeadLookup(kind, k);
    ConstraintLookup(s, kind, k);
  }

  // ----- Agreement of the parts -----

  lemma SerializeEqual(v: Json, c: Json, toFloat: FloatOf)
    requires Finite(v) && Finite(c) && Floats(v, toFloat) && Floats(c, toFloat)
    ensures Serialize(v).Some? && Serialize(c).Some?
    ensures Serialize(v) == Serialize(c) <==> SameJson(v, c)
  {
    SerializeIsCanonical(v, toFloat);
    SerializeIsCanonical(c, toFloat);
    CanonicalInjective(v, c, toFloat);
  }

  lemma FieldFloats(s: Json, k: Keyword, toFloat: FloatOf)
    requires Floats(s, toFloat) && Field(s, k).Some?
    ensures Floats(Field(s, k).value, toFloat)
  {
  }

  /** The value constraint of the schema, on its own. */
  ghost predicate ConstraintHolds(v: Json, s: Json) {
    && (Field(s, Const).Some? ==> SameJson(v, Field(s, Const).value))
    && (Field(s, Enum).Some? ==> exists x :: Declares(s, Enum, x) && SameJson(v, x))
  }

  lemma ConstAgrees(v: Json, s: Json, n: Json, c: Json, path: seq<Step>, toFloat: FloatOf)
    requires Finite(v) && Floats(v, toFloat) && Finite(c) && Floats(c, toFloat)
    requires Field(s, Const) == Field(n, Const) == Some(c) && Field(s, Enum).None?
    ensures var e := ConstraintError(v, n, path);
            !e.Crash? && (e.Accepted? <==> ConstraintHolds(v, s))
  {
    SerializeEqual(v, c, toFloat);
  }

  ghost predicate SomeSameText(v: Json, values: seq<Json>) {
    exists x :: x in values && Serialize(v) == Serialize(x)
  }

  ghost predicate SomeSame(v: Json, values: seq<Json>) {
    exists x :: x in values && SameJson(v, x)
  }

  /** What the validator says of an enum whose values can all be written. */
  lemma EnumError(v: Json, n: Json, sorted: seq<Json>, path: seq<Step>)
    requires Field(n, Const).None? && Field(n, Enum) == Some(Arr(sorted))
    requires Serialize(v).Some? && forall x :: x in sorted ==> Serialize(x).Some?
    ensures var e := ConstraintError(v, n, path); !e.Crash? && (e.Accepted? <==> SomeSameText(v, sorted))
  {
    if SomeSameText(v, sorted) {
      var x :| x in sorted && Serialize(v) == Serialize(x);
      assert !(forall y :: y in sorted ==> Serialize(v) != Serialize(y));
    } else {
      assert forall y :: y in sorted ==> Serialize(v) != Serialize(y);
    }
  }

  lemma EnumMeans(v: Json, s: Json, values: seq<Json>)
    requires Field(s, Const).None? && Field(s, Enum) == Some(Arr(values))
    ensures ConstraintHolds(v, s) <==> SomeSame(v, values)
  {
    forall x ensures Declares(s, Enum, x) <==> x in values {
    }
  }

  lemma SomeSameAgree(v: Json, values: seq<Json>, sorted: seq<Json>, toFloat: FloatOf)
    requires Finite(v) && Floats(v, toFloat) && SameElements(sorted, values)
    requires forall x :: x in values ==> Finite(x) && Floats(x, toFloat)
    ensures SomeSameText(v, sorted) <==> SomeSame(v, values)
    ensures forall x :: x in sorted ==> Serialize(x).Some?
  {
    forall x | x in values
      ensures Serialize(x).Some? && (Serialize(v) == Serialize(x) <==> SameJson(v, x))
    {
      SerializeEqual(v, x, toFloat);
    }
  }

  lemma EnumAgrees(v: Json, s: Json, n: Json, values: seq<Json>, sorted: seq<Json>, path: seq<Step>, toFloat: FloatOf)
    requires Finite(v) && Floats(v, toFloat) && SameElements(sorted, values)
    requires forall x :: x in values ==> Finite(x) && Floats(x, toFloat)
    requires Field(s, Const).None? && Field(n, Const).None?
    requires Field(s, Enum) == Some(Arr(values)) && Field(n, Enum) == Some(Arr(sorted))
    ensures var e := ConstraintError(v, n, path);
            !e.Crash? && (e.Accepted? <==> ConstraintHolds(v, s))
  {
    SerializeIsCanonical(v, toFloat);
    SomeSameAgree(v, values, sorted, toFloat);
    EnumError(v, n, sorted, path);
    EnumMeans(v, s, values);
  }

  /** What an admitted value constraint consists of. */
  lemma ConstraintParts(s: Json, kind: Option<Kind>, toFloat: FloatOf)
    requires NormalizeConstraint(s, kind).Ok? && Floats(s, toFloat)
    ensures Field(s, Const).Some? ==> Finite(Field(s, Const).value) && Floats(Field(s, Const).value, toFloat)
    ensures Field(s, Const).None? && Field(s, Enum).Some? ==>
              Field(s, Enum).value.Arr? && EnumAdmitted(Field(s, Enum).value.items, kind) &&
              forall x :: x in Field(s, Enum).value.items ==> Finite(x) && Floats(x, toFloat)
  {
    if Field(s, Const).Some? {
      FieldFloats(s, Const, toFloat);
    } else if Field(s, Enum).Some? {
      FieldFloats(s, Enum, toFloat);
      var values := Field(s, Enum).value.items;
      forall x | x in values ensures Finite(x) {
        var i :| 0 <= i < |values| && values[i] == x;
        assert ScalarAdmitted(values[i], kind);
      }
    }
  }

  lemma ConstraintAgrees(v: Json, s: Json, depth: nat, n: Json, path: seq<Step>, toFloat: FloatOf)
    requires NormalizeSchema(s, depth) == Ok(n) && Finite(v) && Floats(v, toFloat) && Floats(s, toFloat)
    ensures var e := ConstraintError(v, n, path);
            !e.Crash? && (e.Accepted? <==> ConstraintHolds(v, s))
  {
    Assembled(s, depth);
    NormalizedFrame(s, depth);
    ConstraintParts(s, KindIn(s), toFloat);
    if Field(s, Const).Some? {
      ConstAgrees(v, s, n, Field(s, Const).value, path, toFloat);
    } else if Field(s, Enum).Some? {
      var values := Field(s, Enum).value.items;
      SortElements(values, ScalarRank);
      EnumAgrees(v, s, n, values, Sort(values, ScalarRank), path, toFloat);
    }
  }

  lemma {:induction false} FirstMissingNone(required: seq<Json>, members: seq<Member>)
    requires AllStrings(required)
    ensures FirstMissing(required, members).None? <==> forall x :: x in required ==> Lookup(members, x.text).Some?
  {
    if required != [] {
      FirstMissingNone(required[1..], members);
    }
  }

  /** Looking a name up in the normalized properties normalizes what the schema declares. */
  lemma {:induction false} NormalizedProperty(properties: seq<Member>, depth: nat, key: Text)
    requires NormalizeProperties(properties, depth).Ok?
    ensures Lookup(NormalizeProperties(properties, depth).value, key).Some? <==> Lookup(properties, key).Some?
    ensures Lookup(properties, key).Some? ==>
              NormalizeSchema(Lookup(properties, key).value, depth)
              == Ok(Lookup(NormalizeProperties(properties, depth).value, key).value)
  {
    if properties != [] {
      var r := NormalizeProperties(properties, depth).value;
      assert r[1..] == NormalizeProperties(properties[1..], depth).value;
      NormalizedProperty(properties[1..], depth, key);
    }
  }

  // ----- Agreement -----

  /** The part of `Satisfies` that belongs to one declared kind. */
  ghost predicate KindHolds(v: Json, s: Json, kind: Kind) {
    match kind
    case ObjectKind =>
      && v.Obj?
      && (forall name :: Declares(s, Required, Str(name)) ==> Get(v, name).Some?)
      && (forall m :: m in v.members ==> MemberHolds(m, s))
    case ArrayKind =>
      && v.Arr?
      && AtLeast(|v.items|, Field(s, MinItems)) && AtMost(|v.items|, Field(s, MaxItems))
      && (Field(s, Items).Some? ==> forall x :: x in v.items ==> Satisfies(x, Field(s, Items).value))
    case StringKind =>
      v.Str? && AtLeast(|v.text|, Field(s, MinLength)) && AtMost(|v.text|, Field(s, MaxLength))
    case IntegerKind => v.Int?
    case NumberKind => v.Int? || v.Float?
    case BooleanKind => v.Bool?
    case NullKind => v.Null?
  }

  ghost predicate MemberHolds(m: Member, s: Json) {
    PropertyOf(s, m.key).Some? && Satisfies(m.value, PropertyOf(s, m.key).value)
  }

  lemma OneKind(s: Json, kind: Kind)
    requires HasKind(s, kind)
    ensures forall other: Kind :: HasKind(s, other) <==> other == kind
  {
    forall other: Kind | HasKind(s, other) ensures other == kind {
      KindOfText(kind);
      KindOfText(other);
    }
  }

  lemma KindDeclared(s: Json, kind: Kind)
    requires HasKind(s, kind)
    ensures DeclaredKind(s) == Ok(Some(kind))
  {
    KindOfText(kind);
  }

  /** A schema of a known kind was normalized from a body of that kind. */
  lemma BodyOfKind(s: Json, depth: nat, kind: Kind)
    requires NormalizeSchema(s, depth).Ok? && HasKind(s, kind)
    ensures DeclaredKind(s) == Ok(Some(kind)) && NormalizeBody(s, Some(kind), depth).Ok?
  {
    KindDeclared(s, kind);
    Assembled(s, depth);
  }

  lemma SatisfiesByKind(v: Json, s: Json, kind: Kind)
    requires HasKind(s, kind)
    ensures Satisfies(v, s) <==> ConstraintHolds(v, s) && KindHolds(v, s, kind)
  {
    OneKind(s, kind);
  }

  lemma SatisfiesUntyped(v: Json, s: Json)
    requires Field(s, Type).None?
    ensures Satisfies(v, s) <==> ConstraintHolds(v, s)
  {
  }

  /** A size check on the normalized bounds is the size condition, given the global ceiling. */
  lemma SizeAgrees(size: nat, s: Json, n: Json, minimum: Keyword, maximum: Keyword, ceiling: nat, path: seq<Step>)
    requires Field(n, minimum) == Field(s, minimum) && Field(n, maximum) == Field(s, maximum)
    requires BoundError(s, minimum, maximum, ceiling).Ok? && size <= ceiling
    ensures var e := SizeError(size, n, minimum, maximum, ceiling, path);
            !e.Crash? && (e.Accepted? <==> AtLeast(size, Field(s, minimum)) && AtMost(size, Field(s, maximum)))
  {
  }

  lemma ObjectFields(s: Json, depth: nat, n: Json)
    returns (properties: seq<Member>, required: seq<Json>, normalized: seq<Member>)
    requires NormalizeSchema(s, depth) == Ok(n) && HasKind(s, ObjectKind)
    ensures Field(s, Properties).GetOr(Obj([])) == Obj(properties)
    ensures Field(s, Required).GetOr(Arr([])) == Arr(required) && AllStrings(required)
    ensures NormalizeProperties(properties, depth + 1) == Ok(normalized)
    ensures Field(n, Properties) == Some(Obj(normalized))
    ensures Field(n, Required) == Some(Arr(Strings(Sort(Texts(required), TextRank))))
    ensures Field(n, Additional) == Some(Bool(false))
  {
    BodyOfKind(s, depth, ObjectKind);
    ObjectParts(s, depth);
    properties := Field(s, Properties).GetOr(Obj([])).members;
    required := Field(s, Required).GetOr(Arr([])).items;
    normalized := NormalizeProperties(properties, depth + 1).value;
    ObjectField(s, depth, n, normalized, Sort(Texts(required), TextRank), Properties);
    ObjectField(s, depth, n, normalized, Sort(Texts(required), TextRank), Required);
    ObjectField(s, depth, n, normalized, Sort(Texts(required), TextRank), Additional);
  }

  lemma ObjectField(s: Json, depth: nat, n: Json, properties: seq<Member>, required: seq<Text>, k: Keyword)
    requires NormalizeSchema(s, depth) == Ok(n) && DeclaredKind(s) == Ok(Some(ObjectKind))
    requires NormalizeBody(s, Some(ObjectKind), depth) == Ok(ObjectBody(properties, required))
    requires (k == Properties || k == Required || k == Additional)
    ensures Field(n, k) ==
            Some(if k == Properties then Obj(properties)
                 else if k == Required then Arr(Strings(required)) else Bool(false))
  {
    BodyLookup(s, depth, k);
    ObjectBodyLookup(properties, required, k);
  }

  lemma ArrayField(s: Json, depth: nat, n: Json, k: Keyword)
    requires NormalizeSchema(s, depth) == Ok(n) && DeclaredKind(s) == Ok(Some(ArrayKind))
    requires (k == Items || k == MinItems || k == MaxItems) && NormalizeBody(s, Some(ArrayKind), depth).Ok?
    requires Field(s, Items).Some? && NormalizeSchema(Field(s, Items).value, depth + 1).Ok?
    requires NormalizeBody(s, Some(ArrayKind), depth).value ==
             ArrayBody(NormalizeSchema(Field(s, Items).value, depth + 1).value, s)
    ensures Field(n, k) ==
            if k == Items then Some(NormalizeSchema(Field(s, Items).value, depth + 1).value) else Field(s, k)
  {
    BodyLookup(s, depth, k);
    ArrayBodyLookup(NormalizeSchema(Field(s, Items).value, depth + 1).value, s, k);
  }

  lemma ArrayFields(s: Json, depth: nat, n: Json)
    requires NormalizeSchema(s, depth) == Ok(n) && HasKind(s, ArrayKind)
    ensures Field(s, Items).Some? && BoundError(s, MinItems, MaxItems, MAX_ITEMS).Ok?
    ensures NormalizeSchema(Field(s, Items).value, depth + 1).Ok?
    ensures Field(n, Items) == Some(NormalizeSchema(Field(s, Items).value, depth + 1).value)
    ensures Field(n, MinItems) == Field(s, MinItems) && Field(n, MaxItems) == Field(s, MaxItems)
  {
    BodyOfKind(s, depth, ArrayKind);
    ArrayParts(s, depth);
    ArrayField(s, depth, n, Items);
    ArrayField(s, depth, n, MinItems);
    ArrayField(s, depth, n, MaxItems);
  }

  lemma StringParts(s: Json, depth: nat)
    requires NormalizeBody(s, Some(StringKind), depth).Ok?
    ensures BoundError(s, MinLength, MaxLength, MAX_STRING).Ok?
    ensures NormalizeBody(s, Some(StringKind), depth).value == Copied(s, MinLength) + Copied(s, MaxLength)
  {
  }

  lemma StringField(s: Json, depth: nat, n: Json, k: Keyword)
    requires NormalizeSchema(s, depth) == Ok(n) && DeclaredKind(s) == Ok(Some(StringKind))
    requires (k == MinLength || k == MaxLength) && NormalizeBody(s, Some(StringKind), depth).Ok?
    ensures Field(n, k) == Field(s, k)
  {
    StringParts(s, depth);
    BodyLookup(s, depth, k);
    StringBodyLookup(s, k);
  }

  lemma StringFields(s: Json, depth: nat, n: Json)
    requires NormalizeSchema(s, depth) == Ok(n) && HasKind(s, StringKind)
    ensures BoundError(s, MinLength, MaxLength, MAX_STRING).Ok?
    ensures Field(n, MinLength) == Field(s, MinLength) && Field(n, MaxLength) == Field(s, MaxLength)
  {
    BodyOfKind(s, depth, StringKind);
    StringParts(s, depth);
    StringField(s, depth, n, MinLength);
    StringField(s, depth, n, MaxLength);
  }

  lemma RequiredNames(required: seq<Json>)
    requires AllStrings(required)
    ensures var sorted := Strings(Sort(Texts(required), TextRank));
            AllStrings(sorted) && SameElements(sorted, required)
  {
    var texts := Texts(required);
    var sortedTexts := Sort(texts, TextRank);
    SortElements(texts, TextRank);
    forall x ensures x in Strings(sortedTexts) <==> x in required {
      if x in required {
        var i :| 0 <= i < |required| && required[i] == x;
        assert texts[i] in sortedTexts;
        var j :| 0 <= j < |sortedTexts| && sortedTexts[j] == texts[i];
        assert Strings(sortedTexts)[j] == x;
      }
      if x in Strings(sortedTexts) {
        var j :| 0 <= j < |sortedTexts| && Strings(sortedTexts)[j] == x;
        assert sortedTexts[j] in texts;
        var i :| 0 <= i < |texts| && texts[i] == sortedTexts[j];
        assert required[i] == x;
      }
    }
  }

  lemma NoExtraKeys(members: seq<Member>, properties: seq<Member>)
    ensures ExtraKeys(members, properties) == [] <==> forall m :: m in members ==> Lookup(properties, m.key).Some?
  {
    var extra := ExtraKeys(members, properties);
    assert |extra| > 0 ==> extra[0] in extra;
    if exists m :: m in members && Lookup(properties, m.key).None? {
      var m :| m in members && Lookup(properties, m.key).None?;
      assert m.key in extra;
    }
  }

  /** Nothing required is missing from the dict. */
  lemma RequiredAgree(members: seq<Member>, s: Json, required: seq<Json>)
    requires AllStrings(required) && Field(s, Required).GetOr(Arr([])) == Arr(required)
    ensures AllStrings(Strings(Sort(Texts(required), TextRank)))
    ensures FirstMissing(Strings(Sort(Texts(required), TextRank)), members).None? <==>
            forall name :: Declares(s, Required, Str(name)) ==> Lookup(members, name).Some?
  {
    var sorted := Strings(Sort(Texts(required), TextRank));
    RequiredNames(required);
    FirstMissingNone(sorted, members);
    forall name ensures Declares(s, Required, Str(name)) <==> Str(name) in sorted {
    }
    NoneMissing(sorted, members);
  }

  lemma NoneMissing(items: seq<Json>, members: seq<Member>)
    requires AllStrings(items)
    ensures (forall x :: x in items ==> Lookup(members, x.text).Some?) <==>
            forall name :: Str(name) in items ==> Lookup(members, name).Some?
  {
    forall x | x in items ensures x == Str(x.text) {
    }
  }

  lemma EmptySort(texts: seq<Text>)
    ensures Sort(texts, TextRank) == [] <==> texts == []
  {
  }

  /** The validator never crashes on a normalized schema and accepts exactly the instances. */
  ghost predicate Agrees(v: Json, s: Json, n: Json, path: seq<Step>) {
    !SchemaError(v, n, path).Crash? && (SchemaError(v, n, path).Accepted? <==> Satisfies(v, s))
  }

  /** Everything the agreement proof needs to know about a payload. */
  ghost predicate Payload(v: Json, levels: int, toFloat: FloatOf) {
    WithinCeilings(v, levels) && Finite(v) && Floats(v, toFloat)
  }

  lemma PayloadMember(members: seq<Member>, m: Member, levels: int, toFloat: FloatOf)
    requires Payload(Obj(members), levels, toFloat) && m in members
    ensures Payload(m.value, levels - 1, toFloat)
  {
    WithinMembers(members, levels);
  }

  lemma PayloadItem(items: seq<Json>, x: Json, levels: int, toFloat: FloatOf)
    requires Payload(Arr(items), levels, toFloat) && x in items
    ensures Payload(x, levels - 1, toFloat)
  {
    WithinItems(items, levels);
  }

  lemma PropertyParts(s: Json, key: Text, properties: seq<Member>, toFloat: FloatOf)
    requires Field(s, Properties).GetOr(Obj([])) == Obj(properties) && Floats(s, toFloat)
    ensures PropertyOf(s, key) == Lookup(properties, key)
    ensures PropertyOf(s, key).Some? ==> Floats(PropertyOf(s, key).value, toFloat)
  {
  }

  /** The verdict on a value is right wherever the value stands. */
  ghost predicate AgreesEverywhere(v: Json, s: Json, n: Json) {
    forall path :: Agrees(v, s, n, path)
  }

  /** The verdict on one member of a dict is right, and its property was looked up alike. */
  ghost predicate MemberAgrees(m: Member, s: Json, normalized: seq<Member>) {
    && PropertyOf(s, m.key).Some? && Lookup(normalized, m.key).Some?
    && AgreesEverywhere(m.value, PropertyOf(s, m.key).value, Lookup(normalized, m.key).value)
  }

  lemma MemberStep(m: Member, s: Json, normalized: seq<Member>, path: seq<Step>)
    requires MemberAgrees(m, s, normalized)
    ensures Lookup(normalized, m.key).Some?
    ensures var e := SchemaError(m.value, Lookup(normalized, m.key).value, path);
            !e.Crash? && (e.Accepted? <==> MemberHolds(m, s))
  {
    assert Agrees(m.value, PropertyOf(s, m.key).value, Lookup(normalized, m.key).value, path);
  }

  lemma {:induction false} MembersAgree(members: seq<Member>, s: Json, normalized: seq<Member>, path: seq<Step>)
    requires forall m :: m in members ==> MemberAgrees(m, s, normalized)
    ensures var e := MembersError(members, normalized, path);
            !e.Crash? && (e.Accepted? <==> forall m :: m in members ==> MemberHolds(m, s))
  {
    if members != [] {
      MembersAgree(members[1..], s, normalized, path);
      MemberStep(members[0], s, normalized, path + [AtKey(members[0].key)]);
      AllHoldCons(members, s);
    }
  }

  lemma AllHoldCons(members: seq<Member>, s: Json)
    requires members != []
    ensures (forall m :: m in members ==> MemberHolds(m, s)) <==>
            MemberHolds(members[0], s) && forall m :: m in members[1..] ==> MemberHolds(m, s)
  {
    assert members == [members[0]] + members[1..];
  }

  lemma ItemStep(x: Json, s: Json, n: Json, path: seq<Step>)
    requires AgreesEverywhere(x, s, n)
    ensures !SchemaError(x, n, path).Crash? && (SchemaError(x, n, path).Accepted? <==> Satisfies(x, s))
  {
    assert Agrees(x, s, n, path);
  }

  ghost predicate AllSatisfy(items: seq<Json>, s: Json) {
    forall x :: x in items ==> Satisfies(x, s)
  }

  lemma AllSatisfyCons(items: seq<Json>, s: Json)
    requires items != []
    ensures AllSatisfy(items, s) <==> Satisfies(items[0], s) && AllSatisfy(items[1..], s)
  {
    assert items == [items[0]] + items[1..];
  }

  lemma {:induction false} ItemsAgree(items: seq<Json>, s: Json, n: Json, path: seq<Step>, index: nat)
    requires forall x :: x in items ==> AgreesEverywhere(x, s, n)
    ensures var e := ItemsError(items, n, path, index);
            !e.Crash? && (e.Accepted? <==> AllSatisfy(items, s))
  {
    if items != [] {
      ItemsAgree(items[1..], s, n, path, index + 1);
      ItemStep(items[0], s, n, path + [AtIndex(index)]);
      AllSatisfyCons(items, s);
    }
  }

  lemma ObjectErrorParts(v: Json, n: Json, required: seq<Json>, normalized: seq<Member>, path: seq<Step>)
    requires v.Obj? && AllStrings(required)
    requires Field(n, Required) == Some(Arr(required)) && Field(n, Properties) == Some(Obj(normalized))
    ensures var clean := FirstMissing(required, v.members).None? && ExtraKeys(v.members, normalized) == [];
            var e := ObjectError(v, n, path);
            if clean then e == MembersError(v.members, normalized, path) else !e.Crash? && !e.Accepted?
  {
    EmptySort(ExtraKeys(v.members, normalized));
  }

  lemma UndeclaredMember(members: seq<Member>, s: Json, normalized: seq<Member>)
    requires ExtraKeys(members, normalized) != []
    requires forall m :: m in members ==>
               if PropertyOf(s, m.key).Some? then MemberAgrees(m, s, normalized) else Lookup(normalized, m.key).None?
    ensures exists m :: m in members && !MemberHolds(m, s)
  {
    NoExtraKeys(members, normalized);
    var m :| m in members && Lookup(normalized, m.key).None?;
    assert PropertyOf(s, m.key).None?;
    assert !MemberHolds(m, s);
  }

  /** The member checks together say whether every member of the dict holds. */
  lemma MembersVerdict(members: seq<Member>, s: Json, normalized: seq<Member>, path: seq<Step>)
    requires forall m :: m in members ==>
               if PropertyOf(s, m.key).Some? then MemberAgrees(m, s, normalized) else Lookup(normalized, m.key).None?
    ensures var e := MembersError(members, normalized, path);
            (ExtraKeys(members, normalized) == [] ==> !e.Crash?) &&
            (ExtraKeys(members, normalized) == [] && e.Accepted? <==> forall m :: m in members ==> MemberHolds(m, s))
  {
    if ExtraKeys(members, normalized) == [] {
      NoExtraKeys(members, normalized);
      MembersAgree(members, s, normalized, path);
    } else {
      UndeclaredMember(members, s, normalized);
    }
  }

  lemma ObjectVerdict(v: Json, s: Json, n: Json, names: seq<Json>, normalized: seq<Member>, path: seq<Step>)
    requires v.Obj? && AllStrings(names)
    requires Field(n, Required) == Some(Arr(names)) && Field(n, Properties) == Some(Obj(normalized))
    requires FirstMissing(names, v.members).None? <==>
             forall name :: Declares(s, Required, Str(name)) ==> Lookup(v.members, name).Some?
    requires ExtraKeys(v.members, normalized) == [] ==> !MembersError(v.members, normalized, path).Crash?
    requires ExtraKeys(v.members, normalized) == [] && MembersError(v.members, normalized, path).Accepted? <==>
             forall m :: m in v.members ==> MemberHolds(m, s)
    ensures var e := ObjectError(v, n, path);
            !e.Crash? && (e.Accepted? <==> KindHolds(v, s, ObjectKind))
  {
    ObjectErrorParts(v, n, names, normalized, path);
  }

  lemma ObjectAgrees(v: Json, s: Json, n: Json, required: seq<Json>, normalized: seq<Member>, path: seq<Step>)
    requires v.Obj? && AllStrings(required) && Field(s, Required).GetOr(Arr([])) == Arr(required)
    requires Field(n, Required) == Some(Arr(Strings(Sort(Texts(required), TextRank))))
    requires Field(n, Properties) == Some(Obj(normalized))
    requires forall m :: m in v.members ==>
               if PropertyOf(s, m.key).Some? then MemberAgrees(m, s, normalized) else Lookup(normalized, m.key).None?
    ensures var e := ObjectError(v, n, path);
            !e.Crash? && (e.Accepted? <==> KindHolds(v, s, ObjectKind))
  {
    MembersVerdict(v.members, s, normalized, path);
    RequiredAgree(v.members, s, required);
    ObjectVerdict(v, s, n, Strings(Sort(Texts(required), TextRank)), normalized, path);
  }

  lemma ArrayAgrees(v: Json, s: Json, n: Json, p: Json, pn: Json, path: seq<Step>)
    requires v.Arr? && |v.items| <= MAX_ITEMS && Field(s, Items) == Some(p) && Field(n, Items) == Some(pn)
    requires Field(n, MinItems) == Field(s, MinItems) && Field(n, MaxItems) == Field(s, MaxItems)
    requires BoundError(s, MinItems, MaxItems, MAX_ITEMS).Ok?
    requires forall x :: x in v.items ==> AgreesEverywhere(x, p, pn)
    ensures var e := ArrayError(v, n, path);
            !e.Crash? && (e.Accepted? <==> KindHolds(v, s, ArrayKind))
  {
    SizeAgrees(|v.items|, s, n, MinItems, MaxItems, MAX_ITEMS, path);
    ItemsAgree(v.items, p, pn, path, 0);
  }

  lemma StringAgrees(v: Json, s: Json, depth: nat, n: Json, levels: int, path: seq<Step>)
    requires NormalizeSchema(s, depth) == Ok(n) && HasKind(s, StringKind) && WithinCeilings(v, levels) && v.Str?
    ensures var e := SizeError(|v.text|, n, MinLength, MaxLength, MAX_STRING, path);
            !e.Crash? && (e.Accepted? <==> KindHolds(v, s, StringKind))
  {
    StringFields(s, depth, n);
    assert PartOf(v, v);
    SizeAgrees(|v.text|, s, n, MinLength, MaxLength, MAX_STRING, path);
  }

  /** What `SchemaError` comes to once the constraint has passed and the kind is known. */
  function KindError(v: Json, n: Json, kind: Kind, path: seq<Step>): Verdict {
    match kind
    case ObjectKind => ObjectError(v, n, path)
    case ArrayKind => ArrayError(v, n, path)
    case StringKind =>
      if !v.Str? then Mismatch(path, "must be string")
      else SizeError(|v.text|, n, MinLength, MaxLength, MAX_STRING, path)
    case IntegerKind => if v.Int? then Accepted else Mismatch(path, "must be integer")
    case NumberKind => if v.Int? || v.Float? then Accepted else Mismatch(path, "must be finite number")
    case BooleanKind => if v.Bool? then Accepted else Mismatch(path, "must be boolean")
    case NullKind => if v.Null? then Accepted else Mismatch(path, "must be null")
  }

  lemma ErrorByKind(v: Json, n: Json, kind: Kind, path: seq<Step>)
    requires HasKind(n, kind)
    ensures SchemaError(v, n, path) ==
            if ConstraintError(v, n, path).Accepted? then KindError(v, n, kind, path) else ConstraintError(v, n, path)
  {
    KindOfText(kind);
  }

  lemma {:induction false} MemberCase(m: Member, s: Json, depth: nat, properties: seq<Member>, normalized: seq<Member>,
                                      levels: int, toFloat: FloatOf)
    requires Field(s, Properties).GetOr(Obj([])) == Obj(properties) && Floats(s, toFloat)
    requires NormalizeProperties(properties, depth) == Ok(normalized) && Payload(m.value, levels, toFloat)
    ensures if PropertyOf(s, m.key).Some? then MemberAgrees(m, s, normalized) else Lookup(normalized, m.key).None?
    decreases s, 0
  {
    PropertyParts(s, m.key, properties, toFloat);
    NormalizedProperty(properties, depth, m.key);
    if PropertyOf(s, m.key).Some? {
      Agreement(m.value, PropertyOf(s, m.key).value, depth, Lookup(normalized, m.key).value, levels, toFloat);
    }
  }

  lemma {:induction false} MembersCase(members: seq<Member>, s: Json, depth: nat, properties: seq<Member>,
                                       normalized: seq<Member>, levels: int, toFloat: FloatOf)
    requires Field(s, Properties).GetOr(Obj([])) == Obj(properties) && Floats(s, toFloat)
    requires NormalizeProperties(properties, depth) == Ok(normalized) && Payload(Obj(members), levels, toFloat)
    ensures forall m :: m in members ==>
              if PropertyOf(s, m.key).Some? then MemberAgrees(m, s, normalized) else Lookup(normalized, m.key).None?
    decreases s, 1
  {
    forall m | m in members
      ensures if PropertyOf(s, m.key).Some? then MemberAgrees(m, s, normalized) else Lookup(normalized, m.key).None?
    {
      PayloadMember(members, m, levels, toFloat);
      MemberCase(m, s, depth, properties, normalized, levels - 1, toFloat);
    }
  }

  lemma {:induction false} ObjectCase(members: seq<Member>, s: Json, depth: nat, n: Json, levels: int,
                                      path: seq<Step>, toFloat: FloatOf)
    requires NormalizeSchema(s, depth) == Ok(n) && HasKind(s, ObjectKind)
    requires Payload(Obj(members), levels, toFloat) && Floats(s, toFloat)
    ensures var e := ObjectError(Obj(members), n, path);
            !e.Crash? && (e.Accepted? <==> KindHolds(Obj(members), s, ObjectKind))
    decreases s, 2
  {
    var properties, required, normalized := ObjectFields(s, depth, n);
    MembersCase(members, s, depth + 1, properties, normalized, levels, toFloat);
    ObjectAgrees(Obj(members), s, n, required, normalized, path);
  }

  lemma {:induction false} ItemsCase(items: seq<Json>, s: Json, depth: nat, n: Json, levels: int, toFloat: FloatOf)
    requires NormalizeSchema(s, depth) == Ok(n) && Floats(s, toFloat)
    requires Payload(Arr(items), levels, toFloat)
    ensures forall x :: x in items ==> AgreesEverywhere(x, s, n)
    decreases s, 5
  {
    forall x | x in items ensures AgreesEverywhere(x, s, n) {
      PayloadItem(items, x, levels, toFloat);
      Agreement(x, s, depth, n, levels - 1, toFloat);
    }
  }

  lemma {:induction false} ArrayCase(v: Json, s: Json, depth: nat, n: Json, levels: int, path: seq<Step>,
                                     toFloat: FloatOf)
    requires NormalizeSchema(s, depth) == Ok(n) && HasKind(s, ArrayKind)
    requires Payload(v, levels, toFloat) && Floats(s, toFloat) && v.Arr?
    ensures var e := ArrayError(v, n, path);
            !e.Crash? && (e.Accepted? <==> KindHolds(v, s, ArrayKind))
    decreases s, 1
  {
    ArrayFields(s, depth, n);
    FieldFloats(s, Items, toFloat);
    WithinItems(v.items, levels);
    var p, pn := Field(s, Items).value, Field(n, Items).value;
    ItemsCase(v.items, p, depth + 1, pn, levels, toFloat);
    ArrayAgrees(v, s, n, p, pn, path);
  }

  lemma {:induction false} KindCase(v: Json, s: Json, depth: nat, n: Json, kind: Kind, levels: int, path: seq<Step>,
                                    toFloat: FloatOf)
    requires NormalizeSchema(s, depth) == Ok(n) && HasKind(s, kind)
    requires Payload(v, levels, toFloat) && Floats(s, toFloat)
    ensures var e := KindError(v, n, kind, path);
            !e.Crash? && (e.Accepted? <==> KindHolds(v, s, kind))
    decreases s, 3
  {
    match kind
    case ObjectKind => if v.Obj? { ObjectCase(v.members, s, depth, n, levels, path, toFloat); }
    case ArrayKind => if v.Arr? { ArrayCase(v, s, depth, n, levels, path, toFloat); }
    case StringKind => if v.Str? { StringAgrees(v, s, depth, n, levels, path); }
    case _ =>
  }

  /** The validator on a normalized schema decides the meaning of the schema as written. */
  lemma {:induction false} Agreement(v: Json, s: Json, depth: nat, n: Json, levels: int, toFloat: FloatOf)
    requires NormalizeSchema(s, depth) == Ok(n)
    requires Payload(v, levels, toFloat) && Floats(s, toFloat)
    ensures AgreesEverywhere(v, s, n)
    decreases s, 4
  {
    forall path ensures Agrees(v, s, n, path) {
      Assembled(s, depth);
      NormalizedFrame(s, depth);
      ConstraintAgrees(v, s, depth, n, path, toFloat);
      if KindIn(s).None? {
        SatisfiesUntyped(v, s);
      } else {
        var kind := KindIn(s).value;
        SatisfiesByKind(v, s, kind);
        ErrorByKind(v, n, kind, path);
        KindCase(v, s, depth, n, kind, levels, path, toFloat);
      }
    }
  }
}
