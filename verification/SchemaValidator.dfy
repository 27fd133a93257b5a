/**
 Running a normalized schema on a payload, the meaning of a schema, and their agreement.
 */
module SchemaValidator {
  import opened Basics
  import opened Json
  import opened JsonRoundTrip
  import opened JsonText
  import opened Ordering
  import opened Schema

  // ----- Payload ceilings -----

  /** `_normalize_selected_output_payload`: the value rebuilt, or the first ceiling it breaks. */
  function NormalizePayload(v: Json, depth: nat): Result<Json>
    decreases v, 0
  {
    if depth > MAX_DEPTH then Err("payload exceeds the nesting-depth ceiling")
    else
      match v
      case NonFinite => Err("non-finite number")
      case Str(text) => if |text| > MAX_STRING then Err("string ceiling") else Ok(v)
      case Arr(items) =>
        if |items| > MAX_ITEMS then Err("array-item ceiling")
        else
          var r :- NormalizePayloadItems(items, depth + 1);
          Ok(Arr(r))
      case Obj(members) =>
        if |members| > MAX_PROPERTIES then Err("object-property ceiling")
        else if exists m :: m in members && |m.key| > MAX_STRING then Err("key exceeds the string ceiling")
        else
          var r :- NormalizePayloadMembers(members, depth + 1);
          Ok(Obj(r))
      case _ => Ok(v)
  }

  function NormalizePayloadItems(items: seq<Json>, depth: nat): Result<seq<Json>>
    decreases items, 1
  {
    if items == [] then Ok([])
    else
      var first :- NormalizePayload(items[0], depth);
      var rest :- NormalizePayloadItems(items[1..], depth);
      Ok([first] + rest)
  }

  function NormalizePayloadMembers(members: seq<Member>, depth: nat): Result<seq<Member>>
    decreases members, 1
  {
    if members == [] then Ok([])
    else
      var first :- NormalizePayload(members[0].value, depth);
      var rest :- NormalizePayloadMembers(members[1..], depth);
      Ok([Member(members[0].key, first)] + rest)
  }

  /** The deepest nesting of the value, a scalar counting as one level. */
  ghost predicate NestsWithin(v: Json, levels: int) {
    levels > 0 &&
    match v
    case Arr(items) => forall x :: x in items ==> NestsWithin(x, levels - 1)
    case Obj(members) => forall m :: m in members ==> NestsWithin(m.value, levels - 1)
    case _ => true
  }

  /** `part` is `v` or stands somewhere inside it. */
  ghost predicate PartOf(part: Json, v: Json) {
    part == v ||
    match v
    case Arr(items) => exists x :: x in items && PartOf(part, x)
    case Obj(members) => exists m :: m in members && PartOf(part, m.value)
    case _ => false
  }

  /** The ceilings on one value, not looking inside it. */
  predicate Small(v: Json) {
    match v
    case NonFinite => false
    case Str(text) => |text| <= MAX_STRING
    case Arr(items) => |items| <= MAX_ITEMS
    case Obj(members) => |members| <= MAX_PROPERTIES && forall m :: m in members ==> |m.key| <= MAX_STRING
    case _ => true
  }

  ghost predicate WithinCeilings(v: Json, levels: int) {
    NestsWithin(v, levels) && forall part :: PartOf(part, v) ==> Small(part)
  }

  lemma {:induction false} PayloadUnchanged(v: Json, depth: nat)
    ensures NormalizePayload(v, depth).Ok? ==> NormalizePayload(v, depth).value == v
    decreases v, 0
  {
    match v
    case Arr(items) => PayloadItemsUnchanged(items, depth + 1);
    case Obj(members) => PayloadMembersUnchanged(members, depth + 1);
    case _ =>
  }

  ghost predicate ItemsNormalize(items: seq<Json>, depth: nat) {
    forall x :: x in items ==> NormalizePayload(x, depth).Ok?
  }

  lemma HeadAndTailNormalize(items: seq<Json>, depth: nat)
    requires items != []
    ensures ItemsNormalize(items, depth) <==>
            NormalizePayload(items[0], depth).Ok? && ItemsNormalize(items[1..], depth)
  {
    forall x ensures x in items <==> x == items[0] || x in items[1..] {
      assert items == [items[0]] + items[1..];
    }
  }

  lemma PayloadItemsStep(items: seq<Json>, depth: nat)
    requires items != []
    ensures var r, first, rest := NormalizePayloadItems(items, depth), NormalizePayload(items[0], depth),
                                  NormalizePayloadItems(items[1..], depth);
            && (r.Ok? <==> first.Ok? && rest.Ok?)
            && (r.Ok? ==> r.value == [first.value] + rest.value)
  {
  }

  lemma {:induction false} PayloadItemsUnchanged(items: seq<Json>, depth: nat)
    ensures NormalizePayloadItems(items, depth).Ok? <==> ItemsNormalize(items, depth)
    ensures NormalizePayloadItems(items, depth).Ok? ==> NormalizePayloadItems(items, depth).value == items
    decreases items, 1
  {
    if items != [] {
      PayloadUnchanged(items[0], depth);
      PayloadItemsUnchanged(items[1..], depth);
      PayloadItemsStep(items, depth);
      HeadAndTailNormalize(items, depth);
      assert items == [items[0]] + items[1..];
    }
  }

  ghost predicate MembersNormalize(members: seq<Member>, depth: nat) {
    forall m :: m in members ==> NormalizePayload(m.value, depth).Ok?
  }

  lemma FirstAndOthersNormalize(members: seq<Member>, depth: nat)
    requires members != []
    ensures MembersNormalize(members, depth) <==>
            NormalizePayload(members[0].value, depth).Ok? && MembersNormalize(members[1..], depth)
  {
    forall m ensures m in members <==> m == members[0] || m in members[1..] {
      assert members == [members[0]] + members[1..];
    }
  }

  lemma PayloadMembersStep(members: seq<Member>, depth: nat)
    requires members != []
    ensures var r, first, rest := NormalizePayloadMembers(members, depth), NormalizePayload(members[0].value, depth),
                                  NormalizePayloadMembers(members[1..], depth);
            && (r.Ok? <==> first.Ok? && rest.Ok?)
            && (r.Ok? ==> r.value == [Member(members[0].key, first.value)] + rest.value)
  {
  }

  lemma {:induction false} PayloadMembersUnchanged(members: seq<Member>, depth: nat)
    ensures NormalizePayloadMembers(members, depth).Ok? <==> MembersNormalize(members, depth)
    ensures NormalizePayloadMembers(members, depth).Ok? ==> NormalizePayloadMembers(members, depth).value == members
    decreases members, 1
  {
    if members != [] {
      PayloadUnchanged(members[0].value, depth);
      PayloadMembersUnchanged(members[1..], depth);
      PayloadMembersStep(members, depth);
      FirstAndOthersNormalize(members, depth);
      assert members == [members[0]] + members[1..];
    }
  }

  lemma WithinItems(items: seq<Json>, levels: int)
    ensures WithinCeilings(Arr(items), levels) <==>
            levels > 0 && Small(Arr(items)) && forall x :: x in items ==> WithinCeilings(x, levels - 1)
  {
    var v := Arr(items);
    assert PartOf(v, v);
    forall x, part | x in items && PartOf(part, x) ensures PartOf(part, v) {
    }
  }

  lemma WithinMembers(members: seq<Member>, levels: int)
    ensures WithinCeilings(Obj(members), levels) <==>
            levels > 0 && Small(Obj(members)) && forall m :: m in members ==> WithinCeilings(m.value, levels - 1)
  {
    var v := Obj(members);
    assert PartOf(v, v);
    forall m, part | m in members && PartOf(part, m.value) ensures PartOf(part, v) {
    }
  }

  /** What payload normalization says about one value. */
  ghost predicate AdmittedExactly(v: Json, depth: nat) {
    && (NormalizePayload(v, depth).Ok? <==> WithinCeilings(v, MAX_DEPTH + 1 - depth))
    && (NormalizePayload(v, depth).Ok? ==> NormalizePayload(v, depth).value == v && Finite(v))
  }

  lemma ArrAdmission(items: seq<Json>, depth: nat)
    requires forall x :: x in items ==> AdmittedExactly(x, depth + 1)
    ensures AdmittedExactly(Arr(items), depth)
  {
    PayloadItemsUnchanged(items, depth + 1);
    WithinItems(items, MAX_DEPTH + 1 - depth);
  }

  lemma ObjAdmission(members: seq<Member>, depth: nat)
    requires forall m :: m in members ==> AdmittedExactly(m.value, depth + 1)
    ensures AdmittedExactly(Obj(members), depth)
  {
    PayloadMembersUnchanged(members, depth + 1);
    WithinMembers(members, MAX_DEPTH + 1 - depth);
  }

  /** Payload normalization admits exactly the values within the global ceilings, unchanged. */
  lemma {:induction false} PayloadAdmission(v: Json, depth: nat)
    ensures NormalizePayload(v, depth).Ok? <==> WithinCeilings(v, MAX_DEPTH + 1 - depth)
    ensures NormalizePayload(v, depth).Ok? ==> NormalizePayload(v, depth).value == v && Finite(v)
  {
    match v
    case Arr(items) =>
      forall x | x in items ensures AdmittedExactly(x, depth + 1) { PayloadAdmission(x, depth + 1); }
      ArrAdmission(items, depth);
    case Obj(members) =>
      forall m | m in members ensures AdmittedExactly(m.value, depth + 1) { PayloadAdmission(m.value, depth + 1); }
      ObjAdmission(members, depth);
    case _ => assert PartOf(v, v);
  }

  // ----- The validator -----

  datatype Step = AtKey(key: Text) | AtIndex(index: nat)

  /** The first mismatch found; `Crash` stands for any Python exception the validator would raise. */
  datatype Verdict = Accepted | Mismatch(path: seq<Step>, reason: string) | Crash

  /** The const or enum part: canonical bytes are compared. */
  function ConstraintError(v: Json, s: Json, path: seq<Step>): Verdict {
    match Field(s, Const)
    case Some(constant) =>
      if Serialize(v).None? || Serialize(constant).None? then Crash
      else if Serialize(v) != Serialize(constant) then Mismatch(path, "must equal const value")
      else Accepted
    case None =>
      match Field(s, Enum)
      case None => Accepted
      case Some(Arr(values)) =>
        if Serialize(v).None? || exists x :: x in values && Serialize(x).None? then Crash
        else if forall x :: x in values ==> Serialize(v) != Serialize(x) then Mismatch(path, "must equal an enum value")
        else Accepted
      case Some(_) => Crash
  }

  function SizeVerdict(size: nat, least: Json, most: Json, path: seq<Step>): Verdict {
    if !least.Int? || !most.Int? then Crash
    else if size < least.n then Mismatch(path, "too few")
    else if size > most.n then Mismatch(path, "too many")
    else Accepted
  }

  function SizeError(size: nat, s: Json, minimum: Keyword, maximum: Keyword, ceiling: int, path: seq<Step>): Verdict {
    SizeVerdict(size, Field(s, minimum).GetOr(Int(0)), Field(s, maximum).GetOr(Int(ceiling)), path)
  }

  /** The first required name the dict lacks. */
  function FirstMissing(required: seq<Json>, members: seq<Member>): Option<Text>
    requires AllStrings(required)
  {
    if required == [] then None
    else if Lookup(members, required[0].text).None? then Some(required[0].text)
    else FirstMissing(required[1..], members)
  }

  function ExtraKeys(members: seq<Member>, properties: seq<Member>): (r: seq<Text>)
    ensures forall k :: k in r <==> exists m :: m in members && m.key == k && Lookup(properties, k).None?
  {
    if members == [] then []
    else
      var rest := ExtraKeys(members[1..], properties);
      if Lookup(properties, members[0].key).None? then [members[0].key] + rest else rest
  }

  /** `_selected_output_schema_error`. */
  function SchemaError(v: Json, s: Json, path: seq<Step>): Verdict
    decreases s, 1
  {
    var constraint := ConstraintError(v, s, path);
    if !constraint.Accepted? then constraint
    else
      match Field(s, Type)
      case None => Accepted
      case Some(Null) => Accepted
      case Some(Str(name)) =>
        (match KindOf(name)
         case None => Crash
         case Some(ObjectKind) => ObjectError(v, s, path)
         case Some(ArrayKind) => ArrayError(v, s, path)
         case Some(StringKind) =>
           if !v.Str? then Mismatch(path, "must be string")
           else SizeError(|v.text|, s, MinLength, MaxLength, MAX_STRING, path)
         case Some(IntegerKind) => if v.Int? then Accepted else Mismatch(path, "must be integer")
         case Some(NumberKind) => if v.Int? || v.Float? then Accepted else Mismatch(path, "must be finite number")
         case Some(BooleanKind) => if v.Bool? then Accepted else Mismatch(path, "must be boolean")
         case Some(NullKind) => if v.Null? then Accepted else Mismatch(path, "must be null"))
      case Some(_) => Crash
  }

  function ObjectError(v: Json, s: Json, path: seq<Step>): Verdict
    decreases s, 0
  {
    if !v.Obj? then Mismatch(path, "must be object")
    else
      match Field(s, Properties)
      case Some(Obj(properties)) =>
        (match Field(s, Required)
         case Some(Arr(required)) =>
           if !AllStrings(required) then Crash
           else
             var missing := FirstMissing(required, v.members);
             if missing.Some? then Mismatch(path + [AtKey(missing.value)], "is required")
             else
               var extra := Sort(ExtraKeys(v.members, properties), TextRank);
               if extra != [] then Mismatch(path + [AtKey(extra[0])], "is not allowed")
               else MembersError(v.members, properties, path)
         case _ => Crash)
      case _ => Crash
  }

  function MembersError(members: seq<Member>, properties: seq<Member>, path: seq<Step>): Verdict
    decreases properties, |members|
  {
    if members == [] then Accepted
    else
      match Lookup(properties, members[0].key)
      case None => Crash
      case Some(p) =>
        var error := SchemaError(members[0].value, p, path + [AtKey(members[0].key)]);
        if !error.Accepted? then error else MembersError(members[1..], properties, path)
  }

  function ArrayError(v: Json, s: Json, path: seq<Step>): Verdict
    decreases s, 0
  {
    if !v.Arr? then Mismatch(path, "must be array")
    else
      var size := SizeError(|v.items|, s, MinItems, MaxItems, MAX_ITEMS, path);
      if !size.Accepted? then size
      else
        match Field(s, Items)
        case None => if v.items == [] then Accepted else Crash
        case Some(p) => ItemsError(v.items, p, path, 0)
  }

  function ItemsError(items: seq<Json>, s: Json, path: seq<Step>, index: nat): Verdict
    decreases s, |items| + 1
  {
    if items == [] then Accepted
    else
      var error := SchemaError(items[0], s, path + [AtIndex(index)]);
      if !error.Accepted? then error else ItemsError(items[1..], s, path, index + 1)
  }

  // ----- What a schema means -----

  /** Equal as JSON values: alike up to key order (and surrogate pairs); 1, 1.0 and true differ. */
  ghost predicate SameJson(v: Json, w: Json) {
    MergeAll(Canon(v)) == MergeAll(Canon(w))
  }

  ghost predicate HasKind(s: Json, kind: Kind) {
    Field(s, Type) == Some(Str(KindText(kind)))
  }

  /** A numeric bound of the schema holds; an absent bound always does. */
  ghost predicate AtLeast(size: nat, bound: Option<Json>) {
    bound.Some? && bound.value.Int? ==> bound.value.n <= size
  }

  ghost predicate AtMost(size: nat, bound: Option<Json>) {
    bound.Some? && bound.value.Int? ==> size <= bound.value.n
  }

  ghost predicate Declares(s: Json, k: Keyword, x: Json) {
    match Field(s, k)
    case Some(Arr(items)) => x in items
    case _ => false
  }

  function PropertyOf(s: Json, key: Text): (r: Option<Json>)
    ensures r.Some? ==> r.value < s
  {
    match Field(s, Properties)
    case Some(p) => Get(p, key)
    case None => None
  }

  /** `v` is an instance of the schema `s`, read off the schema as it was written. */
  ghost predicate Satisfies(v: Json, s: Json)
    decreases s
  {
    && (Field(s, Const).Some? ==> SameJson(v, Field(s, Const).value))
    && (Field(s, Enum).Some? ==> exists x :: Declares(s, Enum, x) && SameJson(v, x))
    && (HasKind(s, ObjectKind) ==>
          && v.Obj?
          && (forall name :: Declares(s, Required, Str(name)) ==> Get(v, name).Some?)
          && (forall m :: m in v.members ==>
                PropertyOf(s, m.key).Some? && Satisfies(m.value, PropertyOf(s, m.key).value)))
    && (HasKind(s, ArrayKind) ==>
          && v.Arr?
          && AtLeast(|v.items|, Field(s, MinItems)) && AtMost(|v.items|, Field(s, MaxItems))
          && (Field(s, Items).Some? ==> forall x :: x in v.items ==> Satisfies(x, Field(s, Items).value)))
    && (HasKind(s, StringKind) ==>
          v.Str? && AtLeast(|v.text|, Field(s, MinLength)) && AtMost(|v.text|, Field(s, MaxLength)))
    && (HasKind(s, IntegerKind) ==> v.Int?)
    && (HasKind(s, NumberKind) ==> v.Int? || v.Float?)
    && (HasKind(s, BooleanKind) ==> v.Bool?)
    && (HasKind(s, NullKind) ==> v.Null?)
  }
}
