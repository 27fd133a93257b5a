/**
 Where the validator reports a mismatch: the path leads to the first fault of the payload, against the schema
 as it was written.

 A value's own faults come before those of its parts. In an object a missing required name comes first, the
 least of them, then the least undeclared key, then the first member whose value is at fault; in an array the
 size, then the first item.
 */
module SchemaMismatch {
  import opened Basics
  import opened Json
  import opened JsonRoundTrip
  import opened JsonText
  import opened Ordering
  import opened Schema
  import opened SchemaAgreement
  import opened SchemaCanonical
  import opened SchemaPinning
  import opened SchemaValidator

  // ----- The first fault -----

  ghost predicate Missing(members: seq<Member>, s: Json, name: Text) {
    Declares(s, Required, Str(name)) && Lookup(members, name).None?
  }

  ghost predicate Undeclared(members: seq<Member>, s: Json, key: Text) {
    (exists m :: m in members && m.key == key) && PropertyOf(s, key).None?
  }

  ghost predicate LeastMissing(members: seq<Member>, s: Json, name: Text) {
    Missing(members, s, name) && forall other: Text :: Missing(members, s, other) ==> !Less(other, name)
  }

  ghost predicate LeastUndeclared(members: seq<Member>, s: Json, key: Text) {
    Undeclared(members, s, key) && forall other: Text :: Undeclared(members, s, other) ==> !Less(other, key)
  }

  /** The size of the array is within the bounds of the schema. */
  ghost predicate SizeFits(size: nat, s: Json) {
    AtLeast(size, Field(s, MinItems)) && AtMost(size, Field(s, MaxItems))
  }

  /** Member `k` is the first whose value is not an instance of its property. */
  ghost predicate FirstBad(members: seq<Member>, k: nat, s: Json) {
    && k < |members| && !MemberHolds(members[k], s) && PropertyOf(s, members[k].key).Some?
    && forall j :: 0 <= j < k ==> MemberHolds(members[j], s)
  }

  ghost predicate FirstBadItem(items: seq<Json>, k: nat, s: Json) {
    k < |items| && !Satisfies(items[k], s) && forall j :: 0 <= j < k ==> Satisfies(items[j], s)
  }

  /** The steps lead from `v` to the first fault of `v` against `s`. */
  ghost predicate FaultAt(v: Json, s: Json, steps: seq<Step>)
    decreases s, 1
  {
    if !ConstraintHolds(v, s) then steps == []
    else if HasKind(s, ObjectKind) && v.Obj? then ObjectFaultAt(v.members, s, steps)
    else if HasKind(s, ArrayKind) && v.Arr? then ArrayFaultAt(v.items, s, steps)
    else steps == []
  }

  ghost predicate ObjectFaultAt(members: seq<Member>, s: Json, steps: seq<Step>)
    decreases s, 0
  {
    if exists name :: Missing(members, s, name) then
      |steps| == 1 && steps[0].AtKey? && LeastMissing(members, s, steps[0].key)
    else if exists key :: Undeclared(members, s, key) then
      |steps| == 1 && steps[0].AtKey? && LeastUndeclared(members, s, steps[0].key)
    else
      exists k: nat :: FirstBad(members, k, s) && steps != [] && steps[0] == AtKey(members[k].key) &&
                       FaultAt(members[k].value, PropertyOf(s, members[k].key).value, steps[1..])
  }

  ghost predicate ArrayFaultAt(items: seq<Json>, s: Json, steps: seq<Step>)
    decreases s, 0
  {
    if !SizeFits(|items|, s) then steps == []
    else
      Field(s, Items).Some? &&
      exists k: nat :: FirstBadItem(items, k, Field(s, Items).value) && steps != [] && steps[0] == AtIndex(k) &&
                       FaultAt(items[k], Field(s, Items).value, steps[1..])
  }

  // ----- Paths -----

  /** The reported path starts with `path` and goes on to the first fault. */
  ghost predicate LeadsTo(reported: seq<Step>, path: seq<Step>, v: Json, s: Json) {
    path <= reported && FaultAt(v, s, reported[|path|..])
  }

  ghost predicate Locates(v: Json, s: Json, n: Json, path: seq<Step>) {
    SchemaError(v, n, path).Mismatch? ==> LeadsTo(SchemaError(v, n, path).path, path, v, s)
  }

  ghost predicate LocatesEverywhere(v: Json, s: Json, n: Json) {
    forall path :: Locates(v, s, n, path)
  }

  /** A step into a part, and what the part adds. */
  lemma OneStep(reported: seq<Step>, path: seq<Step>, step: Step)
    requires path + [step] <= reported
    ensures path <= reported && reported[|path|..] != [] && reported[|path|..][0] == step
    ensures reported[|path|..][1..] == reported[|path + [step]|..]
  {
    assert (path + [step])[|path|] == step;
  }

  lemma NoStep(path: seq<Step>)
    ensures path <= path && path[|path|..] == []
  {
  }

  // ----- Arrays -----

  lemma {:induction false} ItemsLocated(items: seq<Json>, i: nat, s: Json, n: Json, path: seq<Step>) returns (k: nat)
    requires i <= |items| && forall x :: x in items ==> AgreesEverywhere(x, s, n) && LocatesEverywhere(x, s, n)
    requires forall j :: 0 <= j < i ==> Satisfies(items[j], s)
    requires ItemsError(items[i..], n, path, i).Mismatch?
    ensures FirstBadItem(items, k, s)
    ensures LeadsTo(ItemsError(items[i..], n, path, i).path, path + [AtIndex(k)], items[k], s)
    decreases |items| - i
  {
    assert i < |items|;
    var x, rest := items[i], items[i + 1..];
    assert items[i..][0] == x && items[i..][1..] == rest && x in items;
    ItemStep(x, s, n, path + [AtIndex(i)]);
    if SchemaError(x, n, path + [AtIndex(i)]).Accepted? {
      k := ItemsLocated(items, i + 1, s, n, path);
    } else {
      k := i;
      assert Locates(x, s, n, path + [AtIndex(i)]);
    }
  }

  lemma ArrayLocated(v: Json, s: Json, n: Json, p: Json, pn: Json, path: seq<Step>)
    requires v.Arr? && |v.items| <= MAX_ITEMS && Field(s, Items) == Some(p) && Field(n, Items) == Some(pn)
    requires Field(n, MinItems) == Field(s, MinItems) && Field(n, MaxItems) == Field(s, MaxItems)
    requires BoundError(s, MinItems, MaxItems, MAX_ITEMS).Ok? && ArrayError(v, n, path).Mismatch?
    requires forall x :: x in v.items ==> AgreesEverywhere(x, p, pn) && LocatesEverywhere(x, p, pn)
    ensures var reported := ArrayError(v, n, path).path;
            path <= reported && ArrayFaultAt(v.items, s, reported[|path|..])
  {
    SizeAgrees(|v.items|, s, n, MinItems, MaxItems, MAX_ITEMS, path);
    NoStep(path);
    if SizeFits(|v.items|, s) {
      assert v.items[0..] == v.items;
      var k := ItemsLocated(v.items, 0, p, pn, path);
      OneStep(ArrayError(v, n, path).path, path, AtIndex(k));
    }
  }

  // ----- Objects -----

  /** The members before the first missing name are there. */
  lemma {:induction false} FirstMissingAt(names: seq<Json>, members: seq<Member>) returns (k: nat)
    requires AllStrings(names) && FirstMissing(names, members).Some?
    ensures k < |names| && names[k].text == FirstMissing(names, members).value
    ensures Lookup(members, names[k].text).None?
    ensures forall j :: 0 <= j < k ==> Lookup(members, names[j].text).Some?
  {
    if Lookup(members, names[0].text).None? {
      k := 0;
    } else {
      var inner := FirstMissingAt(names[1..], members);
      k := inner + 1;
      forall j | 0 <= j < k ensures Lookup(members, names[j].text).Some? {
        if j > 0 { assert names[j] == names[1..][j - 1]; }
      }
    }
  }

  /** The required names are those of the ascending list. */
  ghost predicate Lists(s: Json, names: seq<Json>) {
    forall name: Text :: Declares(s, Required, Str(name)) <==> Str(name) in names
  }

  lemma RequiredListed(s: Json, required: seq<Json>, sorted: seq<Text>)
    requires AllStrings(required) && Field(s, Required).GetOr(Arr([])) == Arr(required)
    requires sorted == Sort(Texts(required), TextRank)
    ensures Lists(s, Strings(sorted))
  {
    RequiredNames(required);
  }

  /** Of ascending names, the first missing is the least missing. */
  lemma MissingLeast(members: seq<Member>, s: Json, sorted: seq<Text>)
    requires Ascending(sorted, TextRank) && Lists(s, Strings(sorted))
    requires FirstMissing(Strings(sorted), members).Some?
    ensures LeastMissing(members, s, FirstMissing(Strings(sorted), members).value)
  {
    var names := Strings(sorted);
    var k := FirstMissingAt(names, members);
    assert names[k] in names && names[k] == Str(sorted[k]);
    forall other: Text | Missing(members, s, other) ensures !Less(other, sorted[k]) {
      var j :| 0 <= j < |names| && names[j] == Str(other);
      if j > k {
        LessAsymmetric(sorted[k], sorted[j]);
      } else {
        assert j == k;
        LessIrreflexive(other);
      }
    }
  }

  lemma NothingMissing(members: seq<Member>, s: Json, sorted: seq<Text>)
    requires Lists(s, Strings(sorted)) && FirstMissing(Strings(sorted), members).None?
    ensures !exists name :: Missing(members, s, name)
  {
    var names := Strings(sorted);
    FirstMissingNone(names, members);
    forall name: Text ensures !Missing(members, s, name) {
      if Str(name) in names { assert Str(name).text == name; }
    }
  }

  lemma LessAsymmetric(a: Rank, b: Rank)
    requires Less(a, b)
    ensures !Less(b, a)
  {
    if Less(b, a) {
      LessTransitive(a, b, a);
      LessIrreflexive(a);
    }
  }

  lemma {:induction false} ExtraKeysDistinct(members: seq<Member>, properties: seq<Member>)
    requires NoDuplicates(members)
    ensures Distinct(ExtraKeys(members, properties))
  {
    if members != [] {
      var tail := members[1..];
      assert NoDuplicates(tail);
      ExtraKeysDistinct(tail, properties);
      assert forall m :: m in tail ==> m.key != members[0].key;
    }
  }

  lemma UndeclaredLeast(members: seq<Member>, s: Json, normalized: seq<Member>)
    requires NoDuplicates(members)
    requires forall m :: m in members ==> (PropertyOf(s, m.key).Some? <==> Lookup(normalized, m.key).Some?)
    ensures var extra := Sort(ExtraKeys(members, normalized), TextRank);
            if extra == [] then !exists key :: Undeclared(members, s, key) else LeastUndeclared(members, s, extra[0])
  {
    var keys := ExtraKeys(members, normalized);
    var extra := Sort(keys, TextRank);
    ExtraKeysDistinct(members, normalized);
    assert DistinctKeys(keys, TextRank);
    SortAscending(keys, TextRank);
    SortElements(keys, TextRank);
    forall key ensures key in extra <==> Undeclared(members, s, key) {
      assert key in extra <==> key in keys;
    }
    if extra != [] {
      assert extra[0] in extra;
      forall other: Text | Undeclared(members, s, other) ensures !Less(other, extra[0]) {
        var j :| 0 <= j < |extra| && extra[j] == other;
        if j > 0 { LessAsymmetric(extra[0], extra[j]); } else { LessIrreflexive(other); }
      }
    }
  }

  /** What is known of one member: its verdict is right, and a mismatch in it is located. */
  ghost predicate MemberKnown(m: Member, s: Json, normalized: seq<Member>) {
    MemberAgrees(m, s, normalized) &&
    LocatesEverywhere(m.value, PropertyOf(s, m.key).value, Lookup(normalized, m.key).value)
  }

  lemma {:induction false} MembersLocated(members: seq<Member>, i: nat, s: Json, normalized: seq<Member>,
                                          path: seq<Step>)
    returns (k: nat)
    requires i <= |members| && forall m :: m in members ==> MemberKnown(m, s, normalized)
    requires forall j :: 0 <= j < i ==> MemberHolds(members[j], s)
    requires MembersError(members[i..], normalized, path).Mismatch?
    ensures FirstBad(members, k, s)
    ensures LeadsTo(MembersError(members[i..], normalized, path).path, path + [AtKey(members[k].key)],
                    members[k].value, PropertyOf(s, members[k].key).value)
    decreases |members| - i
  {
    assert i < |members|;
    var m, rest := members[i], members[i + 1..];
    assert members[i..][0] == m && members[i..][1..] == rest && m in members;
    assert MemberKnown(m, s, normalized);
    var step := path + [AtKey(m.key)];
    MemberStep(m, s, normalized, step);
    if SchemaError(m.value, Lookup(normalized, m.key).value, step).Accepted? {
      k := MembersLocated(members, i + 1, s, normalized, path);
    } else {
      k := i;
      assert Locates(m.value, PropertyOf(s, m.key).value, Lookup(normalized, m.key).value, step);
    }
  }

  /** What the validator says of an object, step by step. */
  lemma ObjectReports(v: Json, n: Json, names: seq<Json>, normalized: seq<Member>, path: seq<Step>)
    requires v.Obj? && AllStrings(names)
    requires Field(n, Required) == Some(Arr(names)) && Field(n, Properties) == Some(Obj(normalized))
    ensures var extra := Sort(ExtraKeys(v.members, normalized), TextRank);
            var missing := FirstMissing(names, v.members);
            ObjectError(v, n, path) ==
            if missing.Some? then Mismatch(path + [AtKey(missing.value)], "is required")
            else if extra != [] then Mismatch(path + [AtKey(extra[0])], "is not allowed")
            else MembersError(v.members, normalized, path)
  {
  }

  /** When nothing is missing or undeclared, the first bad member is reported. */
  lemma BadMemberLocated(members: seq<Member>, s: Json, normalized: seq<Member>, path: seq<Step>)
    requires !(exists name :: Missing(members, s, name)) && !(exists key :: Undeclared(members, s, key))
    requires forall m :: m in members ==> MemberKnown(m, s, normalized)
    requires MembersError(members, normalized, path).Mismatch?
    ensures var reported := MembersError(members, normalized, path).path;
            path <= reported && ObjectFaultAt(members, s, reported[|path|..])
  {
    assert members[0..] == members;
    var k := MembersLocated(members, 0, s, normalized, path);
    OneStep(MembersError(members, normalized, path).path, path, AtKey(members[k].key));
  }

  /** What is known of each member of an object that is being validated. */
  ghost predicate MembersKnown(members: seq<Member>, s: Json, normalized: seq<Member>) {
    forall m :: m in members ==>
      if PropertyOf(s, m.key).Some? then MemberKnown(m, s, normalized) else Lookup(normalized, m.key).None?
  }

  lemma DeclaredKnown(members: seq<Member>, s: Json, normalized: seq<Member>)
    requires MembersKnown(members, s, normalized)
    ensures forall m :: m in members ==> (PropertyOf(s, m.key).Some? <==> Lookup(normalized, m.key).Some?)
    ensures !(exists key :: Undeclared(members, s, key)) ==> forall m :: m in members ==> MemberKnown(m, s, normalized)
  {
    forall m | m in members ensures PropertyOf(s, m.key).None? ==> Undeclared(members, s, m.key) {
    }
  }

  /** The reported path starts with `path` and goes on to the first fault of the object. */
  ghost predicate LeadsIn(reported: seq<Step>, path: seq<Step>, members: seq<Member>, s: Json) {
    path <= reported && ObjectFaultAt(members, s, reported[|path|..])
  }

  lemma MissingLocated(members: seq<Member>, s: Json, name: Text, path: seq<Step>)
    requires LeastMissing(members, s, name)
    ensures LeadsIn(path + [AtKey(name)], path, members, s)
  {
    OneStep(path + [AtKey(name)], path, AtKey(name));
  }

  lemma UndeclaredLocated(members: seq<Member>, s: Json, key: Text, path: seq<Step>)
    requires !(exists name :: Missing(members, s, name)) && LeastUndeclared(members, s, key)
    ensures LeadsIn(path + [AtKey(key)], path, members, s)
  {
    OneStep(path + [AtKey(key)], path, AtKey(key));
  }

  lemma ObjectLocated(v: Json, s: Json, n: Json, sorted: seq<Text>, normalized: seq<Member>, path: seq<Step>)
    requires v.Obj? && NoDuplicates(v.members) && Ascending(sorted, TextRank) && Lists(s, Strings(sorted))
    requires Field(n, Required) == Some(Arr(Strings(sorted))) && Field(n, Properties) == Some(Obj(normalized))
    requires MembersKnown(v.members, s, normalized) && ObjectError(v, n, path).Mismatch?
    ensures LeadsIn(ObjectError(v, n, path).path, path, v.members, s)
  {
    var members := v.members;
    var missing := FirstMissing(Strings(sorted), members);
    ObjectReports(v, n, Strings(sorted), normalized, path);
    if missing.Some? {
      MissingLeast(members, s, sorted);
      MissingLocated(members, s, missing.value, path);
    } else {
      NothingMissing(members, s, sorted);
      PresentLocated(members, s, normalized, path, ObjectError(v, n, path));
    }
  }

  /** When nothing required is missing. */
  lemma PresentLocated(members: seq<Member>, s: Json, normalized: seq<Member>, path: seq<Step>, e: Verdict)
    requires NoDuplicates(members) && MembersKnown(members, s, normalized)
    requires !(exists name :: Missing(members, s, name)) && e.Mismatch?
    requires var extra := Sort(ExtraKeys(members, normalized), TextRank);
             e == if extra != [] then Mismatch(path + [AtKey(extra[0])], "is not allowed")
                  else MembersError(members, normalized, path)
    ensures LeadsIn(e.path, path, members, s)
  {
    var extra := Sort(ExtraKeys(members, normalized), TextRank);
    DeclaredKnown(members, s, normalized);
    UndeclaredLeast(members, s, normalized);
    if extra != [] {
      UndeclaredLocated(members, s, extra[0], path);
    } else {
      BadMemberLocated(members, s, normalized, path);
    }
  }

  // ----- Every mismatch -----

  lemma ConstraintPath(v: Json, n: Json, path: seq<Step>)
    ensures ConstraintError(v, n, path).Mismatch? ==> ConstraintError(v, n, path).path == path
  {
  }

  lemma SizePath(size: nat, n: Json, minimum: Keyword, maximum: Keyword, ceiling: int, path: seq<Step>)
    ensures var e := SizeError(size, n, minimum, maximum, ceiling, path); e.Mismatch? ==> e.path == path
  {
  }

  /** A schema of one kind has no other. */
  lemma FaultByKind(v: Json, s: Json, kind: Kind, steps: seq<Step>)
    requires HasKind(s, kind) && ConstraintHolds(v, s)
    ensures FaultAt(v, s, steps) <==>
            if kind == ObjectKind && v.Obj? then ObjectFaultAt(v.members, s, steps)
            else if kind == ArrayKind && v.Arr? then ArrayFaultAt(v.items, s, steps)
            else steps == []
  {
    OneKind(s, kind);
  }

  /** The sorted names and the normalized properties of an admitted object schema. */
  lemma ObjectSorted(s: Json, depth: nat, n: Json)
    returns (properties: seq<Member>, normalized: seq<Member>, sorted: seq<Text>)
    requires NormalizeSchema(s, depth) == Ok(n) && HasKind(s, ObjectKind)
    ensures Field(s, Properties).GetOr(Obj([])) == Obj(properties)
    ensures NormalizeProperties(properties, depth + 1) == Ok(normalized)
    ensures Field(n, Properties) == Some(Obj(normalized)) && Field(n, Required) == Some(Arr(Strings(sorted)))
    ensures Ascending(sorted, TextRank) && Lists(s, Strings(sorted))
  {
    var required;
    properties, required, normalized := ObjectFields(s, depth, n);
    sorted := Sort(Texts(required), TextRank);
    BodyOfKind(s, depth, ObjectKind);
    ObjectParts(s, depth);
    CheckedMeans(s, properties, required);
    RequiredNamesAscend(required);
    RequiredListed(s, required, sorted);
  }

  lemma {:induction false} MembersCaseLocated(members: seq<Member>, s: Json, depth: nat, properties: seq<Member>,
                                              normalized: seq<Member>, levels: int, toFloat: FloatOf)
    requires Field(s, Properties).GetOr(Obj([])) == Obj(properties) && Floats(s, toFloat) && Dicts(Obj(members))
    requires NormalizeProperties(properties, depth) == Ok(normalized) && Payload(Obj(members), levels, toFloat)
    ensures MembersKnown(members, s, normalized)
    decreases s, 1
  {
    MembersCase(members, s, depth, properties, normalized, levels, toFloat);
    forall m | m in members && PropertyOf(s, m.key).Some? ensures MemberKnown(m, s, normalized) {
      PayloadMember(members, m, levels, toFloat);
      MemberLocated(m, s, depth, properties, normalized, levels - 1, toFloat);
    }
  }

  lemma {:induction false} ObjectCaseLocated(v: Json, s: Json, depth: nat, n: Json, levels: int, path: seq<Step>,
                                             toFloat: FloatOf)
    requires NormalizeSchema(s, depth) == Ok(n) && HasKind(s, ObjectKind) && v.Obj? && Dicts(v)
    requires Payload(v, levels, toFloat) && Floats(s, toFloat) && ObjectError(v, n, path).Mismatch?
    ensures LeadsIn(ObjectError(v, n, path).path, path, v.members, s)
    decreases s, 2
  {
    var properties, normalized, sorted := ObjectSorted(s, depth, n);
    MembersCaseLocated(v.members, s, depth + 1, properties, normalized, levels, toFloat);
    ObjectLocated(v, s, n, sorted, normalized, path);
  }

  lemma {:induction false} MemberLocated(m: Member, s: Json, depth: nat, properties: seq<Member>,
                                         normalized: seq<Member>, levels: int, toFloat: FloatOf)
    requires Field(s, Properties).GetOr(Obj([])) == Obj(properties) && Floats(s, toFloat) && Dicts(m.value)
    requires NormalizeProperties(properties, depth) == Ok(normalized) && Payload(m.value, levels, toFloat)
    requires PropertyOf(s, m.key).Some? && MemberAgrees(m, s, normalized)
    ensures MemberKnown(m, s, normalized)
    decreases s, 0
  {
    PropertyParts(s, m.key, properties, toFloat);
    NormalizedProperty(properties, depth, m.key);
    Located(m.value, PropertyOf(s, m.key).value, depth, Lookup(normalized, m.key).value, levels, toFloat);
  }

  lemma {:induction false} ArrayCaseLocated(v: Json, s: Json, depth: nat, n: Json, levels: int, path: seq<Step>,
                                            toFloat: FloatOf)
    requires NormalizeSchema(s, depth) == Ok(n) && HasKind(s, ArrayKind) && v.Arr? && Dicts(v)
    requires Payload(v, levels, toFloat) && Floats(s, toFloat) && ArrayError(v, n, path).Mismatch?
    ensures var reported := ArrayError(v, n, path).path;
            path <= reported && ArrayFaultAt(v.items, s, reported[|path|..])
    decreases s, 2
  {
    ArrayFields(s, depth, n);
    FieldFloats(s, Items, toFloat);
    WithinItems(v.items, levels);
    var p, pn := Field(s, Items).value, Field(n, Items).value;
    ItemsCase(v.items, p, depth + 1, pn, levels, toFloat);
    forall x | x in v.items ensures LocatesEverywhere(x, p, pn) {
      PayloadItem(v.items, x, levels, toFloat);
      Located(x, p, depth + 1, pn, levels - 1, toFloat);
    }
    ArrayLocated(v, s, n, p, pn, path);
  }

  lemma {:induction false} KindLocated(v: Json, s: Json, depth: nat, n: Json, kind: Kind, levels: int, path: seq<Step>,
                                       toFloat: FloatOf)
    requires NormalizeSchema(s, depth) == Ok(n) && HasKind(s, kind) && Dicts(v) && ConstraintHolds(v, s)
    requires Payload(v, levels, toFloat) && Floats(s, toFloat) && KindError(v, n, kind, path).Mismatch?
    ensures LeadsTo(KindError(v, n, kind, path).path, path, v, s)
    decreases s, 3
  {
    var reported := KindError(v, n, kind, path).path;
    NoStep(path);
    if kind == ObjectKind && v.Obj? {
      ObjectCaseLocated(v, s, depth, n, levels, path, toFloat);
    } else if kind == ArrayKind && v.Arr? {
      ArrayCaseLocated(v, s, depth, n, levels, path, toFloat);
    } else if kind == StringKind && v.Str? {
      SizePath(|v.text|, n, MinLength, MaxLength, MAX_STRING, path);
    }
    FaultByKind(v, s, kind, reported[|path|..]);
  }

  /** Whatever mismatch the validator reports, it is the first fault of the payload against the schema as written. */
  lemma {:induction false} Located(v: Json, s: Json, depth: nat, n: Json, levels: int, toFloat: FloatOf)
    requires NormalizeSchema(s, depth) == Ok(n) && Dicts(v)
    requires Payload(v, levels, toFloat) && Floats(s, toFloat)
    ensures LocatesEverywhere(v, s, n)
    decreases s, 5
  {
    forall path ensures Locates(v, s, n, path) {
      LocatedAt(v, s, depth, n, levels, path, toFloat);
    }
  }

  lemma {:induction false} LocatedAt(v: Json, s: Json, depth: nat, n: Json, levels: int, path: seq<Step>,
                                     toFloat: FloatOf)
    requires NormalizeSchema(s, depth) == Ok(n) && Dicts(v)
    requires Payload(v, levels, toFloat) && Floats(s, toFloat)
    ensures Locates(v, s, n, path)
    decreases s, 4
  {
    Assembled(s, depth);
    NormalizedFrame(s, depth);
    ConstraintAgrees(v, s, depth, n, path, toFloat);
    ConstraintPath(v, n, path);
    NoStep(path);
    if ConstraintError(v, n, path).Accepted? && KindIn(s).Some? {
      var kind := KindIn(s).value;
      ErrorByKind(v, n, kind, path);
      if SchemaError(v, n, path).Mismatch? { KindLocated(v, s, depth, n, kind, levels, path, toFloat); }
    }
  }

  /** A reported path, from the root of the payload. */
  lemma MismatchLocated(v: Json, s: Json, n: Json, levels: int, toFloat: FloatOf)
    requires NormalizeSchema(s, 1) == Ok(n) && Dicts(v)
    requires Payload(v, levels, toFloat) && Floats(s, toFloat)
    ensures SchemaError(v, n, []).Mismatch? ==> FaultAt(v, s, SchemaError(v, n, []).path)
  {
    Located(v, s, 1, n, levels, toFloat);
    assert Locates(v, s, n, []);
  }
}
