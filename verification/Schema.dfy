/**
 The closed JSON-schema subset for selected outputs: admission and normalization of a schema,
 admission of a payload, and the validator that runs a normalized schema on a payload.
 */
module Schema {
  import opened Basics
  import opened Json
  import opened JsonCanonical
  import opened JsonText
  import opened Ordering

  const MAX_SCHEMA_BYTES := 64 * 1024
  const MAX_PAYLOAD_BYTES := 1024 * 1024
  const MAX_DEPTH := 16
  const MAX_PROPERTIES := 64
  const MAX_ITEMS := 1024
  const MAX_STRING := 64 * 1024

  // ----- Keywords -----

  function Lit(s: string): (t: Text)
    ensures |t| == |s| && forall i :: 0 <= i < |s| ==> t[i] == s[i] as int
  {
    Codes(s)
  }

  datatype Keyword =
    | Type | Properties | Required | Additional | Items | MinItems | MaxItems
    | MinLength | MaxLength | Const | Enum

  function Name(k: Keyword): string {
    match k
    case Type => "type"
    case Properties => "properties"
    case Required => "required"
    case Additional => "additionalProperties"
    case Items => "items"
    case MinItems => "minItems"
    case MaxItems => "maxItems"
    case MinLength => "minLength"
    case MaxLength => "maxLength"
    case Const => "const"
    case Enum => "enum"
  }

  function Key(k: Keyword): Text { Lit(Name(k)) }

  datatype Kind = ObjectKind | ArrayKind | StringKind | IntegerKind | NumberKind | BooleanKind | NullKind

  function KindName(t: Kind): string {
    match t
    case ObjectKind => "object"
    case ArrayKind => "array"
    case StringKind => "string"
    case IntegerKind => "integer"
    case NumberKind => "number"
    case BooleanKind => "boolean"
    case NullKind => "null"
  }

  function KindText(t: Kind): Text { Lit(KindName(t)) }

  function KindOf(name: Text): (r: Option<Kind>)
    ensures r.Some? ==> KindText(r.value) == name
  {
    if name == KindText(ObjectKind) then Some(ObjectKind)
    else if name == KindText(ArrayKind) then Some(ArrayKind)
    else if name == KindText(StringKind) then Some(StringKind)
    else if name == KindText(IntegerKind) then Some(IntegerKind)
    else if name == KindText(NumberKind) then Some(NumberKind)
    else if name == KindText(BooleanKind) then Some(BooleanKind)
    else if name == KindText(NullKind) then Some(NullKind)
    else None
  }

  lemma LitInjective(a: string, b: string)
    requires Lit(a) == Lit(b)
    ensures a == b
  {
    forall i | 0 <= i < |a| ensures a[i] == b[i] {
      assert Lit(a)[i] == a[i] as int && Lit(b)[i] == b[i] as int;
      assert a[i] as int == b[i] as int;
    }
  }

  lemma NamesDiffer(a: Keyword, b: Keyword)
    requires a != b
    ensures Name(a) != Name(b)
  {
    assert Name(Type)[0] != Name(Enum)[0];
    assert Name(Items)[0] != Name(Const)[0];
    assert Name(Required)[0] == 'r' && Name(MinItems)[1] == 'i' && Name(MaxItems)[1] == 'a' &&
        Name(MinItems)[0] == 'm' && Name(MaxItems)[0] == 'm';
    assert Name(MinLength)[1] != Name(MaxLength)[1];
  }

  lemma KeysDiffer(a: Keyword, b: Keyword)
    ensures Key(a) == Key(b) <==> a == b
  {
    if a != b && Key(a) == Key(b) {
      LitInjective(Name(a), Name(b));
      NamesDiffer(a, b);
    }
  }

  lemma KindNamesDiffer(a: Kind, b: Kind)
    requires a != b
    ensures KindName(a) != KindName(b)
  {
    assert KindName(ObjectKind)[0] == 'o' && KindName(StringKind)[0] == 's' && KindName(NumberKind)[0] == 'n';
    assert KindName(IntegerKind)[0] != KindName(BooleanKind)[0];
  }

  lemma KindOfText(t: Kind)
    ensures KindOf(KindText(t)) == Some(t)
  {
    var r := KindOf(KindText(t));
    if r != Some(t) {
      LitInjective(KindName(r.value), KindName(t));
      KindNamesDiffer(r.value, t);
    }
  }

  // ----- Dict access -----

  function Lookup(members: seq<Member>, key: Text): (r: Option<Json>)
    ensures r.Some? ==> Member(key, r.value) in members
  {
    if members == [] then None
    else if members[0].key == key then Some(members[0].value)
    else Lookup(members[1..], key)
  }

  lemma {:induction false} LookupNone(members: seq<Member>, key: Text)
    ensures Lookup(members, key).None? <==> forall m :: m in members ==> m.key != key
  {
    if members != [] {
      LookupNone(members[1..], key);
      assert members == [members[0]] + members[1..];
    }
  }

  /** `value.get(key)` of a dict. */
  function Get(v: Json, key: Text): (r: Option<Json>)
    ensures r.Some? ==> v.Obj? && Member(key, r.value) in v.members && r.value < v
  {
    if v.Obj? then Lookup(v.members, key) else None
  }

  function Field(v: Json, k: Keyword): (r: Option<Json>)
    ensures r.Some? ==> v.Obj? && Member(Key(k), r.value) in v.members && r.value < v
  {
    Get(v, Key(k))
  }

  // ----- Scalars -----

  function NormalizeScalar(v: Json): Result<Json> {
    match v
    case NonFinite => Err("non-finite")
    case Str(text) => if |text| > MAX_STRING then Err("string ceiling") else Ok(v)
    case Arr(_) => Err("scalar")
    case Obj(_) => Err("scalar")
    case _ => Ok(v)
  }

  predicate ScalarMatches(v: Json, kind: Option<Kind>) {
    match kind
    case None => true
    case Some(StringKind) => v.Str?
    case Some(IntegerKind) => v.Int?
    case Some(NumberKind) => v.Int? || v.Float?
    case Some(BooleanKind) => v.Bool?
    case Some(NullKind) => v.Null?
    case Some(_) => false
  }

  /** Canonical texts are ASCII, so their bytes are their code points. */
  function ScalarRank(v: Json): Rank { Codes(Canonical(v)) }

  function TextRank(t: Text): Rank { t }

  predicate ScalarAdmitted(v: Json, kind: Option<Kind>) {
    NormalizeScalar(v).Ok? && ScalarMatches(v, kind)
  }

  function CanonicalTexts(values: seq<Json>): seq<string> {
    if values == [] then []
    else CanonicalTexts(values[..|values| - 1]) + [Canonical(values[|values| - 1])]
  }

  predicate ScalarsAdmitted(values: seq<Json>, kind: Option<Kind>) {
    forall i :: 0 <= i < |values| ==> ScalarAdmitted(values[i], kind)
  }

  predicate EnumAdmitted(values: seq<Json>, kind: Option<Kind>) {
    1 <= |values| <= 64 && ScalarsAdmitted(values, kind) && Distinct(CanonicalTexts(values))
  }

  lemma {:induction false} CanonicalTextAt(values: seq<Json>, i: nat)
    requires i < |values|
    ensures |CanonicalTexts(values)| == |values| && CanonicalTexts(values)[i] == Canonical(values[i])
  {
    var front := values[..|values| - 1];
    if i < |front| {
      CanonicalTextAt(front, i);
    } else if i > 0 {
      CanonicalTextAt(front, 0);
    }
  }

  lemma DistinctExtend<T>(xs: seq<T>, x: T)
    requires Distinct(xs)
    ensures Distinct(xs + [x]) <==> x !in xs
  {
    if x in xs {
      var j :| 0 <= j < |xs| && xs[j] == x;
      assert (xs + [x])[j] == (xs + [x])[|xs|];
    }
  }

  lemma DistinctPrefix<T>(xs: seq<T>, n: nat)
    requires n <= |xs| && Distinct(xs)
    ensures Distinct(xs[..n])
  {
  }

  lemma {:induction false} CanonicalTextsPrefix(values: seq<Json>, n: nat)
    requires n <= |values|
    ensures |CanonicalTexts(values)| == |values| && CanonicalTexts(values)[..n] == CanonicalTexts(values[..n])
  {
    if n == |values| {
      assert values[..n] == values;
      if values != [] { CanonicalTextAt(values, 0); }
      assert CanonicalTexts(values)[..n] == CanonicalTexts(values);
    } else {
      CanonicalTextsPrefix(values[..|values| - 1], n);
      assert values[..|values| - 1][..n] == values[..n];
    }
  }

  /** What the text of one more enum value means for the texts seen so far. */
  lemma EnumTextStep(values: seq<Json>, i: nat)
    requires i < |values| && Distinct(CanonicalTexts(values[..i]))
    ensures CanonicalTexts(values[..i + 1]) == CanonicalTexts(values[..i]) + [Canonical(values[i])]
    ensures Canonical(values[i]) in CanonicalTexts(values[..i]) ==> !Distinct(CanonicalTexts(values))
    ensures Canonical(values[i]) !in CanonicalTexts(values[..i]) ==> Distinct(CanonicalTexts(values[..i + 1]))
  {
    var texts, text := CanonicalTexts(values[..i]), Canonical(values[i]);
    var next := CanonicalTexts(values[..i + 1]);
    assert next == texts + [text] by {
      assert values[..i + 1][..i] == values[..i] && values[..i + 1][i] == values[i];
    }
    DistinctExtend(texts, text);
    CanonicalTextsPrefix(values, i + 1);
    if Distinct(CanonicalTexts(values)) {
      DistinctPrefix(CanonicalTexts(values), i + 1);
    }
  }

  lemma EnumScalarStep(values: seq<Json>, i: nat, kind: Option<Kind>)
    requires i < |values| && ScalarsAdmitted(values[..i], kind)
    ensures !ScalarAdmitted(values[i], kind) ==> !ScalarsAdmitted(values, kind)
    ensures ScalarAdmitted(values[i], kind) ==> ScalarsAdmitted(values[..i + 1], kind)
  {
    forall j | 0 <= j < i ensures ScalarAdmitted(values[j], kind) {
      assert values[..i][j] == values[j];
    }
  }

  /** The first `i` values passed, and `seen` holds their texts. */
  ghost predicate EnumSoFar(values: seq<Json>, i: nat, kind: Option<Kind>, seen: set<string>)
    requires i <= |values|
  {
    && ScalarsAdmitted(values[..i], kind) && Distinct(CanonicalTexts(values[..i]))
    && forall t :: t in seen <==> t in CanonicalTexts(values[..i])
  }

  lemma EnumStep(values: seq<Json>, i: nat, kind: Option<Kind>, seen: set<string>)
    requires i < |values| && EnumSoFar(values, i, kind, seen)
    ensures var passes := ScalarAdmitted(values[i], kind) && Canonical(values[i]) !in seen;
            if passes then EnumSoFar(values, i + 1, kind, seen + {Canonical(values[i])})
            else !EnumAdmitted(values, kind)
  {
    EnumTextStep(values, i);
    EnumScalarStep(values, i, kind);
  }

  lemma EnumDone(values: seq<Json>, kind: Option<Kind>, seen: set<string>)
    requires 1 <= |values| <= 64 && EnumSoFar(values, |values|, kind, seen)
    ensures EnumAdmitted(values, kind)
  {
    assert values[..|values|] == values;
  }

  method NormalizeEnumValue(value: Json, kind: Option<Kind>) returns (r: Result<Json>)
    ensures r.Ok? <==> ScalarAdmitted(value, kind)
    ensures r.Ok? ==> r.value == value
  {
    var normalized := NormalizeScalar(value);
    if normalized.Ok? && !ScalarMatches(normalized.value, kind) {
      return Err("enum value does not satisfy schema type");
    }
    return normalized;
  }

  /** The enum branch: values are normalized, checked and de-duplicated one by one, then sorted. */
  method CanonicalizeEnum(values: seq<Json>, kind: Option<Kind>) returns (r: Result<seq<Json>>)
    ensures r.Ok? <==> EnumAdmitted(values, kind)
    ensures r.Ok? ==> r.value == Sort(values, ScalarRank)
  {
    if !(1 <= |values| <= 64) {
      return Err("enum must contain between 1 and 64 values");
    }
    var seen: set<string> := {};
    var canonicalValues: seq<Json> := [];
    assert values[..0] == [];
    for i := 0 to |values|
      invariant canonicalValues == values[..i] && EnumSoFar(values, i, kind, seen)
    {
      EnumStep(values, i, kind, seen);
      var normalized := NormalizeEnumValue(values[i], kind);
      if normalized.Err? {
        return Err(normalized.reason);
      }
      var canonical := Canonical(normalized.value);
      if canonical in seen {
        return Err("enum values must be unique");
      }
      seen := seen + {canonical};
      canonicalValues := canonicalValues + [normalized.value];
    }
    EnumDone(values, kind, seen);
    assert values[..|values|] == values;
    return Ok(Sort(canonicalValues, ScalarRank));
  }

  // ----- Schema normalization -----

  predicate KindKeyword(kind: Kind, k: Keyword) {
    match k
    case Type => true
    case Properties => kind.ObjectKind?
    case Required => kind.ObjectKind?
    case Additional => kind.ObjectKind?
    case Items => kind.ArrayKind?
    case MinItems => kind.ArrayKind?
    case MaxItems => kind.ArrayKind?
    case MinLength => kind.StringKind?
    case MaxLength => kind.StringKind?
    case _ => false
  }

  /** The keys a schema of this kind may have; without a type only its one value constraint. */
  predicate Supported(kind: Option<Kind>, key: Text) {
    || key == Key(Const)
    || key == Key(Enum)
    || (kind.Some? && exists k :: KindKeyword(kind.value, k) && key == Key(k))
  }

  /** `schema.get("type")`: the declared kind, or none for an absent (or null) type. */
  function DeclaredKind(schema: Json): Result<Option<Kind>> {
    match Field(schema, Type)
    case None => Ok(None)
    case Some(Null) => Ok(None)
    case Some(Str(name)) =>
      if KindOf(name).None? then Err("type") else Ok(KindOf(name))
    case Some(_) => Err("type")
  }

  /** `set(schema)` minus the supported keywords is empty. */
  predicate AllSupported(members: seq<Member>, kind: Option<Kind>) {
    members != [] ==> Supported(kind, members[0].key) && AllSupported(members[1..], kind)
  }

  lemma {:induction false} AllSupportedMeans(members: seq<Member>, kind: Option<Kind>)
    ensures AllSupported(members, kind) <==> forall m :: m in members ==> Supported(kind, m.key)
  {
    if members != [] {
      AllSupportedMeans(members[1..], kind);
      assert members == [members[0]] + members[1..];
    }
  }

  function BoundError(schema: Json, minimum: Keyword, maximum: Keyword, ceiling: int): Result<()> {
    var least := Field(schema, minimum).GetOr(Int(0));
    var most := Field(schema, maximum).GetOr(Int(ceiling));
    if !least.Int? || !most.Int? then Err("bound type")
    else if least.n < 0 || most.n < 0 then Err("negative bound")
    else if least.n > most.n then Err("bounds crossed")
    else if most.n > ceiling then Err("bound ceiling")
    else Ok(())
  }

  predicate AllStrings(items: seq<Json>) {
    forall x :: x in items ==> x.Str?
  }

  function Texts(items: seq<Json>): (r: seq<Text>)
    requires AllStrings(items)
    ensures |r| == |items| && forall i :: 0 <= i < |r| ==> items[i] == Str(r[i])
  {
    if items == [] then [] else [items[0].text] + Texts(items[1..])
  }

  function Strings(texts: seq<Text>): (r: seq<Json>)
    ensures |r| == |texts| && forall i :: 0 <= i < |r| ==> r[i] == Str(texts[i])
  {
    if texts == [] then [] else [Str(texts[0])] + Strings(texts[1..])
  }

  predicate AllDeclared(required: seq<Json>, properties: seq<Member>)
    requires AllStrings(required)
  {
    forall x :: x in required ==> Lookup(properties, x.text).Some?
  }

  predicate NamesFit(properties: seq<Member>) {
    forall m :: m in properties ==> |m.key| <= MAX_STRING
  }

  /** The checks on `properties` and `required` before the properties are normalized. */
  function CheckObject(schema: Json, properties: Json, required: Json): Result<()> {
    if Field(schema, Additional) != Some(Bool(false)) then Err("additionalProperties")
    else if !properties.Obj? then Err("properties")
    else if |properties.members| > MAX_PROPERTIES then Err("property ceiling")
    else if !required.Arr? || !AllStrings(required.items) then Err("required strings")
    else if !Distinct(required.items) then Err("required unique")
    else if !AllDeclared(required.items, properties.members) then Err("required declared")
    else if !NamesFit(properties.members) then Err("name ceiling")
    else Ok(())
  }

  function Copied(schema: Json, k: Keyword): seq<Member> {
    match Field(schema, k)
    case None => []
    case Some(v) => [Member(Key(k), v)]
  }

  function ObjectBody(properties: seq<Member>, required: seq<Text>): seq<Member> {
    [Member(Key(Properties), Obj(properties)),
     Member(Key(Required), Arr(Strings(required))),
     Member(Key(Additional), Bool(false))]
  }

  function ArrayBody(items: Json, schema: Json): seq<Member> {
    [Member(Key(Items), items)] + Copied(schema, MinItems) + Copied(schema, MaxItems)
  }

  function NormalizeSchema(schema: Json, depth: nat): Result<Json>
    decreases schema, 2
  {
    if depth > MAX_DEPTH then Err("depth ceiling")
    else if !schema.Obj? then Err("not an object")
    else if Field(schema, Const).Some? && Field(schema, Enum).Some? then Err("const and enum")
    else
      match DeclaredKind(schema)
      case Err(reason) => Err(reason)
      case Ok(kind) =>
        if kind.None? && Field(schema, Const).None? && Field(schema, Enum).None? then
          Err("type")
        else if !AllSupported(schema.members, kind) then Err("unsupported")
        else
          match NormalizeBody(schema, kind, depth)
          case Err(reason) => Err(reason)
          case Ok(body) =>
            match NormalizeConstraint(schema, kind)
            case Err(reason) => Err(reason)
            case Ok(constraint) => Ok(Obj(Head(kind) + body + constraint))
  }

  function Head(kind: Option<Kind>): seq<Member> {
    if kind.None? then [] else [Member(Key(Type), Str(KindText(kind.value)))]
  }

  function NormalizeBody(schema: Json, kind: Option<Kind>, depth: nat): Result<seq<Member>>
    decreases schema, 1
  {
    match kind
    case Some(ObjectKind) =>
      var properties := Field(schema, Properties).GetOr(Obj([]));
      var required := Field(schema, Required).GetOr(Arr([]));
      (match CheckObject(schema, properties, required)
       case Err(reason) => Err(reason)
       case Ok(_) =>
         assert properties.members == [] || properties < schema;
         match if properties.members == [] then Ok([]) else NormalizeProperties(properties.members, depth + 1)
         case Err(reason) => Err(reason)
         case Ok(normalized) => Ok(ObjectBody(normalized, Sort(Texts(required.items), TextRank))))
    case Some(ArrayKind) =>
      if Field(schema, Items).None? then Err("items")
      else
        (match BoundError(schema, MinItems, MaxItems, MAX_ITEMS)
         case Err(reason) => Err(reason)
         case Ok(_) =>
           match NormalizeSchema(Field(schema, Items).value, depth + 1)
           case Err(reason) => Err(reason)
           case Ok(items) => Ok(ArrayBody(items, schema)))
    case Some(StringKind) =>
      (match BoundError(schema, MinLength, MaxLength, MAX_STRING)
       case Err(reason) => Err(reason)
       case Ok(_) => Ok(Copied(schema, MinLength) + Copied(schema, MaxLength)))
    case _ => Ok([])
  }

  function NormalizeProperties(members: seq<Member>, depth: nat): Result<seq<Member>>
    decreases members, 3
  {
    if members == [] then Ok([])
    else
      match NormalizeSchema(members[0].value, depth)
      case Err(reason) => Err(reason)
      case Ok(first) =>
        match NormalizeProperties(members[1..], depth)
        case Err(reason) => Err(reason)
        case Ok(rest) => Ok([Member(members[0].key, first)] + rest)
  }

  lemma {:induction false} PropertiesNormalized(members: seq<Member>, depth: nat)
    ensures var r := NormalizeProperties(members, depth);
            (r.Ok? <==> forall m :: m in members ==> NormalizeSchema(m.value, depth).Ok?) &&
            (r.Ok? ==> |r.value| == |members| &&
                       forall i :: 0 <= i < |members| ==>
                         NormalizeSchema(members[i].value, depth) == Ok(r.value[i].value) &&
                         r.value[i].key == members[i].key)
  {
    if members != [] {
      PropertiesNormalized(members[1..], depth);
      assert members == [members[0]] + members[1..];
    }
  }

  function NormalizeConstraint(schema: Json, kind: Option<Kind>): Result<seq<Member>> {
    match Field(schema, Const)
    case Some(constant) =>
      (match NormalizeScalar(constant)
       case Err(reason) => Err(reason)
       case Ok(value) =>
         if !ScalarMatches(value, kind) then Err("const type")
         else Ok([Member(Key(Const), value)]))
    case None =>
      match Field(schema, Enum)
      case None => Ok([])
      case Some(Arr(values)) =>
        if EnumAdmitted(values, kind) then Ok([Member(Key(Enum), Arr(Sort(values, ScalarRank)))])
        else Err("enum")
      case Some(_) => Err("enum array")
  }
}
