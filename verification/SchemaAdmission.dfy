/**
 Pinning a schema in a requirement, and admitting a candidate output against the pinned schema.

 This is where the parts meet: what normalization returns, what printing and loading make of it, and
 what the validator decides. The main results are that pinning succeeds exactly when the property
 names keep their order, and that a candidate is admitted exactly when it is an instance of the schema.
 */
module SchemaAdmission {
  import opened Basics
  import opened Json
  import opened JsonCanonical
  import opened JsonRoundTrip
  import opened JsonText
  import opened Ordering
  import opened Schema
  import opened SchemaAgreement
  import opened SchemaCanonical
  import opened SchemaNames
  import opened SchemaPinning
  import opened SchemaValidator

  // ----- Loading JSON the ordinary way: the last of repeated keys wins -----

  /** A dict filled pair by pair. */
  function Fill(pairs: seq<Member>): (r: seq<Member>)
    ensures NoDuplicates(r)
    ensures forall x :: x in r ==> x in pairs
    ensures NoDuplicates(pairs) ==> r == pairs
  {
    if pairs == [] then []
    else
      var front, last := pairs[..|pairs| - 1], pairs[|pairs| - 1];
      assert pairs == front + [last];
      assert NoDuplicates(pairs) ==> forall x :: x in front ==> MemberKey(x) != MemberKey(last);
      PutMeans(Fill(front), last, MemberKey);
      NoDuplicatesByKey(Fill(front));
      NoDuplicatesByKey(Put(Fill(front), last, MemberKey));
      Put(Fill(front), last, MemberKey)
  }

  lemma NoDuplicatesByKey(members: seq<Member>)
    ensures DistinctBy(members, MemberKey) <==> NoDuplicates(members)
  {
    if DistinctBy(members, MemberKey) {
      forall i, j | 0 <= i < j < |members| ensures members[i].key != members[j].key {
        assert MemberKey(members[i]) != MemberKey(members[j]);
      }
    }
    if NoDuplicates(members) {
      forall i, j | 0 <= i < j < |members| ensures MemberKey(members[i]) != MemberKey(members[j]) {
        assert members[i].key != members[j].key;
      }
    }
  }

  /** What plain `json.loads` makes of a text whose pairs were all kept. */
  function Collapse(v: Json): Json {
    match v
    case Arr(items) => Arr(CollapseItems(items))
    case Obj(members) => Obj(Fill(CollapseMembers(members)))
    case _ => v
  }

  function CollapseItems(items: seq<Json>): (r: seq<Json>)
    ensures |r| == |items|
    ensures forall i :: 0 <= i < |r| ==> r[i] == Collapse(items[i])
  {
    if items == [] then [] else [Collapse(items[0])] + CollapseItems(items[1..])
  }

  function CollapseMembers(members: seq<Member>): (r: seq<Member>)
    ensures |r| == |members|
    ensures forall i :: 0 <= i < |r| ==> r[i] == Member(members[i].key, Collapse(members[i].value))
  {
    if members == [] then []
    else [Member(members[0].key, Collapse(members[0].value))] + CollapseMembers(members[1..])
  }

  lemma {:induction false} CollapseFixed(v: Json)
    requires Dicts(v)
    ensures Collapse(v) == v
  {
    match v
    case Arr(items) =>
      forall i | 0 <= i < |items| ensures Collapse(items[i]) == items[i] { CollapseFixed(items[i]); }
    case Obj(members) =>
      forall i | 0 <= i < |members| ensures CollapseMembers(members)[i] == members[i] {
        assert members[i] in members;
        CollapseFixed(members[i].value);
      }
      assert CollapseMembers(members) == members;
    case _ =>
  }

  /** A loaded value is a Python value: distinct keys, and nothing it was not read from. */
  lemma {:induction false} CollapseSound(v: Json, toFloat: FloatOf)
    requires Floats(v, toFloat) && PairFreeAll(v)
    ensures Dicts(Collapse(v)) && Floats(Collapse(v), toFloat) && PairFreeAll(Collapse(v))
  {
    match v
    case Arr(items) =>
      forall x | x in items ensures Dicts(Collapse(x)) && Floats(Collapse(x), toFloat) && PairFreeAll(Collapse(x)) {
        CollapseSound(x, toFloat);
      }
    case Obj(members) =>
      var r := CollapseMembers(members);
      forall i | 0 <= i < |r|
        ensures Dicts(r[i].value) && Floats(r[i].value, toFloat) && PairFree(r[i].key) && PairFreeAll(r[i].value)
      {
        assert members[i] in members;
        CollapseSound(members[i].value, toFloat);
      }
      forall m | m in Fill(r) ensures m in r { }
    case _ =>
  }

  /** `json.loads(text)`. */
  function Loads(text: string, toFloat: FloatOf): Option<Json> {
    match Load(text, Reader(false, toFloat))
    case None => None
    case Some(v) => Some(Collapse(v))
  }

  // ----- What normalization keeps of a schema value -----

  /** A schema as Python holds it; `pairFree` when it was read from JSON text. */
  ghost predicate Source(s: Json, pairFree: bool, toFloat: FloatOf) {
    Floats(s, toFloat) && Dicts(s) && (pairFree ==> PairFreeAll(s))
  }

  ghost predicate Kept(v: Json, pairFree: bool, toFloat: FloatOf) {
    Source(v, pairFree, toFloat) && Finite(v)
  }

  ghost predicate FieldKept(n: Json, k: Keyword, pairFree: bool, toFloat: FloatOf) {
    Field(n, k).Some? ==> Kept(Field(n, k).value, pairFree, toFloat)
  }

  lemma KeptByFields(n: Json, pairFree: bool, toFloat: FloatOf)
    requires WellKeyed(n) && forall k: Keyword :: FieldKept(n, k, pairFree, toFloat)
    ensures Kept(n, pairFree, toFloat)
  {
    KeywordsPairFree(n.members);
    forall m | m in n.members ensures Kept(m.value, pairFree, toFloat) {
      var k: Keyword :| m.key == Key(k);
      LookupMember(n.members, m);
      assert FieldKept(n, k, pairFree, toFloat);
    }
  }

  lemma SourceField(s: Json, k: Keyword, pairFree: bool, toFloat: FloatOf)
    requires Source(s, pairFree, toFloat) && Field(s, k).Some?
    ensures Source(Field(s, k).value, pairFree, toFloat)
  {
  }

  lemma ScalarKept(v: Json, kind: Option<Kind>, pairFree: bool, toFloat: FloatOf)
    requires ScalarAdmitted(v, kind) && Source(v, pairFree, toFloat)
    ensures Kept(v, pairFree, toFloat)
  {
  }

  lemma EnumKept(values: seq<Json>, kind: Option<Kind>, pairFree: bool, toFloat: FloatOf)
    requires EnumAdmitted(values, kind) && Source(Arr(values), pairFree, toFloat)
    ensures Kept(Arr(Sort(values, ScalarRank)), pairFree, toFloat)
  {
    SortElements(values, ScalarRank);
    forall x | x in Sort(values, ScalarRank) ensures Kept(x, pairFree, toFloat) {
      assert x in values;
      var i :| 0 <= i < |values| && values[i] == x;
      assert ScalarAdmitted(values[i], kind);
      ScalarKept(x, kind, pairFree, toFloat);
    }
  }

  lemma ConstraintKept(s: Json, depth: nat, n: Json, k: Keyword, pairFree: bool, toFloat: FloatOf)
    requires NormalizeSchema(s, depth) == Ok(n) && Source(s, pairFree, toFloat) && DeclaredKind(s).Ok?
    requires (k == Const || k == Enum) && Field(n, k).Some?
    ensures FieldKept(n, k, pairFree, toFloat)
  {
    Assembled(s, depth);
    ConstraintOf(s, KindIn(s));
    NormalizedFrame(s, depth);
    SourceField(s, k, pairFree, toFloat);
    if k == Const {
      ScalarKept(Field(s, Const).value, KindIn(s), pairFree, toFloat);
    } else {
      EnumKept(Field(s, Enum).value.items, KindIn(s), pairFree, toFloat);
    }
  }

  lemma TypeKept(s: Json, depth: nat, n: Json, pairFree: bool, toFloat: FloatOf)
    requires NormalizeSchema(s, depth) == Ok(n)
    ensures FieldKept(n, Type, pairFree, toFloat)
  {
    Assembled(s, depth);
    NormalizedFrame(s, depth);
    if KindIn(s).Some? { KindPairFree(KindIn(s).value); }
  }

  lemma StringsKept(items: seq<Json>, names: seq<Text>, pairFree: bool, toFloat: FloatOf)
    requires Source(Arr(items), pairFree, toFloat) && AllStrings(items) && names == Sort(Texts(items), TextRank)
    ensures Kept(Arr(Strings(names)), pairFree, toFloat)
  {
    SortElements(Texts(items), TextRank);
    forall i | 0 <= i < |names| ensures pairFree ==> PairFree(names[i]) {
      assert names[i] in names;
      TextsOf(items, names[i]);
      assert Str(names[i]) in items;
      assert pairFree ==> PairFreeAll(Str(names[i]));
    }
    NamesKept(names, pairFree, toFloat);
  }

  lemma ListKept(items: seq<Json>, pairFree: bool, toFloat: FloatOf)
    requires forall i :: 0 <= i < |items| ==> Kept(items[i], pairFree, toFloat)
    ensures Kept(Arr(items), pairFree, toFloat)
  {
    forall x | x in items ensures Kept(x, pairFree, toFloat) {
      var i :| 0 <= i < |items| && items[i] == x;
    }
  }

  lemma NamesKept(names: seq<Text>, pairFree: bool, toFloat: FloatOf)
    requires pairFree ==> forall i :: 0 <= i < |names| ==> PairFree(names[i])
    ensures Kept(Arr(Strings(names)), pairFree, toFloat)
  {
    forall i | 0 <= i < |names| ensures Kept(Strings(names)[i], pairFree, toFloat) {
      assert Strings(names)[i] == Str(names[i]);
    }
    ListKept(Strings(names), pairFree, toFloat);
  }

  lemma BoundKept(v: Option<Json>, pairFree: bool, toFloat: FloatOf)
    requires v.Some? ==> v.value.Int?
    ensures v.Some? ==> Kept(v.value, pairFree, toFloat)
  {
  }

  lemma BoundsAreInts(s: Json, minimum: Keyword, maximum: Keyword, ceiling: int)
    requires BoundError(s, minimum, maximum, ceiling).Ok?
    ensures Field(s, minimum).Some? ==> Field(s, minimum).value.Int?
    ensures Field(s, maximum).Some? ==> Field(s, maximum).value.Int?
  {
  }

  lemma NamesStay(p: seq<Member>, np: seq<Member>, depth: nat, pairFree: bool)
    requires NormalizeProperties(p, depth) == Ok(np) && NoDuplicates(p)
    requires pairFree ==> forall m :: m in p ==> PairFree(m.key)
    ensures NoDuplicates(np) && (pairFree ==> forall i :: 0 <= i < |np| ==> PairFree(np[i].key))
  {
    PropertiesNormalized(p, depth);
    forall i | 0 <= i < |np| ensures pairFree ==> PairFree(np[i].key) {
      assert p[i] in p;
    }
  }

  lemma DictKept(np: seq<Member>, pairFree: bool, toFloat: FloatOf)
    requires NoDuplicates(np) && (pairFree ==> forall i :: 0 <= i < |np| ==> PairFree(np[i].key))
    requires forall i :: 0 <= i < |np| ==> Kept(np[i].value, pairFree, toFloat)
    ensures Kept(Obj(np), pairFree, toFloat)
  {
  }

  lemma PropertiesKept(p: seq<Member>, np: seq<Member>, depth: nat, pairFree: bool, toFloat: FloatOf)
    requires NormalizeProperties(p, depth) == Ok(np) && Source(Obj(p), pairFree, toFloat)
    requires forall i :: 0 <= i < |np| ==> Kept(np[i].value, pairFree, toFloat)
    ensures Kept(Obj(np), pairFree, toFloat)
  {
    NamesStay(p, np, depth, pairFree);
    DictKept(np, pairFree, toFloat);
  }

  lemma {:induction false} PartsKept(s: Json, depth: nat, p: seq<Member>, np: seq<Member>, pairFree: bool,
                                     toFloat: FloatOf)
    requires PropertiesIn(s) == Obj(p) && NormalizeProperties(p, depth) == Ok(np)
    requires Source(s, pairFree, toFloat)
    ensures Kept(Obj(np), pairFree, toFloat)
    decreases s, 0
  {
    PropertiesNormalized(p, depth);
    assert Source(Obj(p), pairFree, toFloat);
    forall i | 0 <= i < |np| ensures Kept(np[i].value, pairFree, toFloat) {
      assert p[i] in p && p[i].value < s;
      NormalizedKept(p[i].value, depth, np[i].value, pairFree, toFloat);
    }
    PropertiesKept(p, np, depth, pairFree, toFloat);
  }

  lemma {:induction false} ObjectKept(s: Json, depth: nat, n: Json, k: Keyword, pairFree: bool, toFloat: FloatOf)
    requires NormalizeSchema(s, depth) == Ok(n) && HasKind(s, ObjectKind) && Source(s, pairFree, toFloat)
    requires k == Properties || k == Required || k == Additional
    ensures FieldKept(n, k, pairFree, toFloat)
    decreases s, 1
  {
    var p, required, np := ObjectFields(s, depth, n);
    if k == Properties {
      PartsKept(s, depth + 1, p, np, pairFree, toFloat);
    } else if k == Required {
      SourceRequired(s, required, pairFree, toFloat);
      StringsKept(required, Sort(Texts(required), TextRank), pairFree, toFloat);
    }
  }

  lemma SourceRequired(s: Json, required: seq<Json>, pairFree: bool, toFloat: FloatOf)
    requires RequiredIn(s) == Arr(required) && Source(s, pairFree, toFloat)
    ensures Source(Arr(required), pairFree, toFloat)
  {
    if Field(s, Required).Some? { SourceField(s, Required, pairFree, toFloat); }
  }

  lemma {:induction false} ArrayKept(s: Json, depth: nat, n: Json, k: Keyword, pairFree: bool, toFloat: FloatOf)
    requires NormalizeSchema(s, depth) == Ok(n) && HasKind(s, ArrayKind) && Source(s, pairFree, toFloat)
    requires k == Items || k == MinItems || k == MaxItems
    ensures FieldKept(n, k, pairFree, toFloat)
    decreases s, 1
  {
    ArrayFields(s, depth, n);
    if k == Items {
      SourceField(s, Items, pairFree, toFloat);
      NormalizedKept(Field(s, Items).value, depth + 1, Field(n, Items).value, pairFree, toFloat);
    } else {
      BoundsAreInts(s, MinItems, MaxItems, MAX_ITEMS);
      BoundKept(Field(s, k), pairFree, toFloat);
    }
  }

  lemma StringKept(s: Json, depth: nat, n: Json, k: Keyword, pairFree: bool, toFloat: FloatOf)
    requires NormalizeSchema(s, depth) == Ok(n) && HasKind(s, StringKind)
    requires k == MinLength || k == MaxLength
    ensures FieldKept(n, k, pairFree, toFloat)
  {
    StringFields(s, depth, n);
    BoundsAreInts(s, MinLength, MaxLength, MAX_STRING);
    BoundKept(Field(s, k), pairFree, toFloat);
  }

  lemma {:induction false} BodyKept(s: Json, depth: nat, n: Json, kind: Kind, k: Keyword, pairFree: bool,
                                    toFloat: FloatOf)
    requires NormalizeSchema(s, depth) == Ok(n) && Source(s, pairFree, toFloat) && HasKind(s, kind)
    requires BodyKey(Some(kind), k)
    ensures FieldKept(n, k, pairFree, toFloat)
    decreases s, 2
  {
    match kind
    case ObjectKind => ObjectKept(s, depth, n, k, pairFree, toFloat);
    case ArrayKind => ArrayKept(s, depth, n, k, pairFree, toFloat);
    case StringKind => StringKept(s, depth, n, k, pairFree, toFloat);
    case _ =>
  }

  /** Normalization returns a finite Python value, with no new surrogate pairs. */
  lemma {:induction false} NormalizedKept(s: Json, depth: nat, n: Json, pairFree: bool, toFloat: FloatOf)
    requires NormalizeSchema(s, depth) == Ok(n) && Source(s, pairFree, toFloat)
    ensures Kept(n, pairFree, toFloat)
    decreases s, 3
  {
    Assembled(s, depth);
    NormalizedWellKeyed(s, depth, n);
    forall k: Keyword ensures FieldKept(n, k, pairFree, toFloat) {
      if k == Type {
        TypeKept(s, depth, n, pairFree, toFloat);
      } else if Framed(k) {
        if Field(n, k).Some? { ConstraintKept(s, depth, n, k, pairFree, toFloat); }
      } else if BodyKey(KindIn(s), k) {
        BodyKept(s, depth, n, KindIn(s).value, k, pairFree, toFloat);
      } else {
        FieldOutside(s, depth, n, k);
      }
    }
    KeptByFields(n, pairFree, toFloat);
  }

  // ----- Pinning -----

  datatype Requirement = Requirement(required: bool, schema: Json, digest: string)

  /** `canonical_selected_output_schema_bytes` of a mapping. */
  function CanonicalSchema(s: Json): Result<string> {
    match NormalizeSchema(s, 1)
    case Err(reason) => Err(reason)
    case Ok(n) =>
      match Serialize(n)
      case None => Err("non-finite")
      case Some(text) => if |text| > MAX_SCHEMA_BYTES then Err("byte ceiling") else Ok(text)
  }

  /** `SelectedOutputRequirement`: the schema is replaced by its loaded canonical form and re-hashed. */
  function Pin(required: bool, s: Json, supplied: string, sha: string -> string,
               toFloat: FloatOf): Result<Requirement> {
    match CanonicalSchema(s)
    case Err(reason) => Err(reason)
    case Ok(text) =>
      match Loads(text, toFloat)
      case None => Err("unreadable")
      case Some(l) =>
        if supplied != "" && supplied != sha(text) then Err("digest")
        else CheckDigest(Requirement(required, l, sha(text)), sha)
  }

  /** `_schema_digest_matches`: the digest is computed again from the schema the requirement carries. */
  function CheckDigest(r: Requirement, sha: string -> string): Result<Requirement> {
    match CanonicalSchema(r.schema)
    case Err(reason) => Err(reason)
    case Ok(again) => if sha(again) != r.digest then Err("digest") else Ok(r)
  }

  lemma {:induction false} AscendingDicts(v: Json)
    requires KeysAscend(v)
    ensures Dicts(v)
  {
    match v
    case Arr(items) => forall x | x in items ensures Dicts(x) { AscendingDicts(x); }
    case Obj(members) =>
      AscendingMembers(members);
      forall m | m in members ensures Dicts(m.value) { AscendingDicts(m.value); }
    case _ =>
  }

  lemma {:induction false} CanonAscends(v: Json)
    requires Dicts(v)
    ensures KeysAscend(Canon(v))
  {
    match v
    case Arr(items) => forall x | x in items ensures KeysAscend(Canon(x)) { CanonAscends(x); }
    case Obj(members) =>
      forall m | m in members ensures KeysAscend(Canon(m.value)) { CanonAscends(m.value); }
      NoDuplicatesAscending(CanonMembers(members));
      CanonMember(members);
    case _ =>
  }

  /** What the pinned text is and what it loads back as. */
  lemma PinnedText(s: Json, n: Json, toFloat: FloatOf)
    requires NormalizeSchema(s, 1) == Ok(n) && Source(s, false, toFloat)
    ensures Serialize(n) == Some(Canonical(n)) && Loads(Canonical(n), toFloat) == Some(Collapse(Reloaded(n)))
    ensures Source(Collapse(Reloaded(n)), true, toFloat)
    ensures KeysAscend(Reloaded(n)) ==> Collapse(Reloaded(n)) == Reloaded(n)
  {
    NormalizedKept(s, 1, n, false, toFloat);
    SerializeIsCanonical(n, toFloat);
    LoadCanonical(n, toFloat);
    CanonFloats(n, toFloat);
    MergedFloats(Canon(n), toFloat);
    MergeAllPairFree(Canon(n));
    CollapseSound(Reloaded(n), toFloat);
    if KeysAscend(Reloaded(n)) {
      AscendingDicts(Reloaded(n));
      CollapseFixed(Reloaded(n));
    }
  }

  lemma {:induction false} MergedFloats(v: Json, toFloat: FloatOf)
    requires Floats(v, toFloat)
    ensures Floats(MergeAll(v), toFloat)
  {
    match v
    case Arr(items) => forall x | x in items ensures Floats(MergeAll(x), toFloat) { MergedFloats(x, toFloat); }
    case Obj(members) =>
      forall m | m in members ensures Floats(MergeAll(m.value), toFloat) { MergedFloats(m.value, toFloat); }
    case _ =>
  }

  /** A text that canonicalizes to itself has its names in order. */
  lemma SettledAscends(n: Json, l: Json, toFloat: FloatOf)
    requires Floats(n, toFloat) && Source(l, true, toFloat) && CanonicalSchema(l) == Ok(Canonical(n))
    ensures KeysAscend(Reloaded(n))
  {
    var w := NormalizeSchema(l, 1).value;
    NormalizedKept(l, 1, w, true, toFloat);
    SerializeIsCanonical(w, toFloat);
    CanonicalInjective(w, n, toFloat);
    PairFreeCanon(w);
    MergeAllFixed(Canon(w));
    CanonAscends(w);
  }

  lemma SettledText(n: Json, toFloat: FloatOf)
    requires Settles(n, 1) && Floats(n, toFloat) && Source(Reloaded(n), true, toFloat)
    requires |Canonical(n)| <= MAX_SCHEMA_BYTES
    ensures CanonicalSchema(Reloaded(n)) == Ok(Canonical(n))
  {
    var w := NormalizeSchema(Reloaded(n), 1).value;
    NormalizedKept(Reloaded(n), 1, w, true, toFloat);
    SerializeIsCanonical(w, toFloat);
    RenderMerge(Canon(n));
  }

  /** Canonicalizing the loaded schema gives the pinned text again exactly when its names keep their order. */
  lemma PinSettlesExactly(s: Json, n: Json, toFloat: FloatOf)
    requires NormalizeSchema(s, 1) == Ok(n) && Source(s, false, toFloat) && CanonicalSchema(s) == Ok(Canonical(n))
    ensures CanonicalSchema(Collapse(Reloaded(n))) == Ok(Canonical(n)) <==> NamesKeepOrder(s)
  {
    PinnedText(s, n, toFloat);
    NormalizedKept(s, 1, n, false, toFloat);
    ReloadedInOrder(s, 1, n);
    if NamesKeepOrder(s) {
      ReloadedSettles(s, 1, n);
      SettledText(n, toFloat);
    }
    if CanonicalSchema(Collapse(Reloaded(n))) == Ok(Canonical(n)) {
      SettledAscends(n, Collapse(Reloaded(n)), toFloat);
    }
  }

  ghost predicate Collision(sha: string -> string, a: string, b: string) {
    a != b && sha(a) == sha(b)
  }

  lemma PinChecksDigest(required: bool, s: Json, n: Json, supplied: string, sha: string -> string, toFloat: FloatOf)
    requires NormalizeSchema(s, 1) == Ok(n) && Source(s, false, toFloat) && |Canonical(n)| <= MAX_SCHEMA_BYTES
    requires supplied == "" || supplied == sha(Canonical(n))
    ensures Pin(required, s, supplied, sha, toFloat) ==
            CheckDigest(Requirement(required, Collapse(Reloaded(n)), sha(Canonical(n))), sha)
    ensures CanonicalSchema(s) == Ok(Canonical(n))
  {
    PinnedText(s, n, toFloat);
  }

  lemma OrderedPins(required: bool, s: Json, n: Json, supplied: string, sha: string -> string, toFloat: FloatOf)
    requires NormalizeSchema(s, 1) == Ok(n) && Source(s, false, toFloat) && |Canonical(n)| <= MAX_SCHEMA_BYTES
    requires (supplied == "" || supplied == sha(Canonical(n))) && NamesKeepOrder(s)
    ensures Pin(required, s, supplied, sha, toFloat) == Ok(Requirement(required, Reloaded(n), sha(Canonical(n))))
  {
    PinChecksDigest(required, s, n, supplied, sha, toFloat);
    PinSettlesExactly(s, n, toFloat);
    LoadedInOrder(s, n, toFloat);
  }

  lemma DisorderedCollides(required: bool, s: Json, n: Json, supplied: string, sha: string -> string, toFloat: FloatOf)
    requires NormalizeSchema(s, 1) == Ok(n) && Source(s, false, toFloat) && |Canonical(n)| <= MAX_SCHEMA_BYTES
    requires (supplied == "" || supplied == sha(Canonical(n))) && !NamesKeepOrder(s)
    requires Pin(required, s, supplied, sha, toFloat).Ok?
    ensures exists again :: Collision(sha, Canonical(n), again)
  {
    PinChecksDigest(required, s, n, supplied, sha, toFloat);
    PinSettlesExactly(s, n, toFloat);
    assert Collision(sha, Canonical(n), CanonicalSchema(Collapse(Reloaded(n))).value);
  }

  /**
   The digest check on a freshly pinned schema passes exactly when merging surrogate pairs keeps the
   order of its property names, unless two different texts have one digest.
   */
  lemma PinAcceptsExactly(required: bool, s: Json, n: Json, supplied: string, sha: string -> string, toFloat: FloatOf)
    requires NormalizeSchema(s, 1) == Ok(n) && Source(s, false, toFloat) && |Canonical(n)| <= MAX_SCHEMA_BYTES
    requires supplied == "" || supplied == sha(Canonical(n))
    ensures NamesKeepOrder(s) ==>
              Pin(required, s, supplied, sha, toFloat) == Ok(Requirement(required, Reloaded(n), sha(Canonical(n))))
    ensures !NamesKeepOrder(s) && Pin(required, s, supplied, sha, toFloat).Ok? ==>
              exists again :: Collision(sha, Canonical(n), again)
  {
    if NamesKeepOrder(s) {
      OrderedPins(required, s, n, supplied, sha, toFloat);
    } else if Pin(required, s, supplied, sha, toFloat).Ok? {
      DisorderedCollides(required, s, n, supplied, sha, toFloat);
    }
  }

  lemma LoadedInOrder(s: Json, n: Json, toFloat: FloatOf)
    requires NormalizeSchema(s, 1) == Ok(n) && Source(s, false, toFloat) && NamesKeepOrder(s)
    ensures Collapse(Reloaded(n)) == Reloaded(n)
  {
    ReloadedInOrder(s, 1, n);
    PinnedText(s, n, toFloat);
  }

  /** A schema without surrogate pairs, as every schema read from JSON text is, always passes. */
  lemma PairFreeSchemaPins(required: bool, s: Json, n: Json, supplied: string, sha: string -> string, toFloat: FloatOf)
    requires NormalizeSchema(s, 1) == Ok(n) && Source(s, true, toFloat) && |Canonical(n)| <= MAX_SCHEMA_BYTES
    requires supplied == "" || supplied == sha(Canonical(n))
    ensures Reloaded(n) == Canon(n)
    ensures Pin(required, s, supplied, sha, toFloat) == Ok(Requirement(required, Canon(n), sha(Canonical(n))))
  {
    PairFreeKeepsOrder(s, n, toFloat);
    PinAcceptsExactly(required, s, n, supplied, sha, toFloat);
  }

  /** A schema given as strict JSON text is never rejected by its own digest. */
  lemma TextSchemaPins(required: bool, text: string, s: Json, n: Json, sha: string -> string, toFloat: FloatOf)
    requires FaithfulFloats(toFloat) && Load(text, Reader(true, toFloat)) == Some(s)
    requires NormalizeSchema(s, 1) == Ok(n) && |Canonical(n)| <= MAX_SCHEMA_BYTES
    ensures Pin(required, s, "", sha, toFloat) == Ok(Requirement(required, Canon(n), sha(Canonical(n))))
  {
    ReadValueClean(SkipSpace(text), Reader(true, toFloat));
    PairFreeSchemaPins(required, s, n, "", sha, toFloat);
  }

  // ----- The validator runs on the pinned schema -----

  lemma FieldCanon(n: Json, k: Keyword)
    requires Dicts(n)
    ensures Field(Canon(n), k) == CanonOf(Field(n, k))
  {
    if n.Obj? { LookupCanon(n.members, Key(k)); }
  }

  lemma SerializeCanon(v: Json)
    requires Dicts(v) && Finite(v)
    ensures Serialize(Canon(v)) == Serialize(v)
  {
    CanonFinite(v);
    CanonIdempotent(v);
  }

  lemma ConstOnCanon(v: Json, n: Json, constant: Json, path: seq<Step>)
    requires Field(n, Const) == Some(constant) && Field(Canon(n), Const) == Some(Canon(constant))
    requires Dicts(constant) && Finite(constant)
    ensures ConstraintError(v, Canon(n), path) == ConstraintError(v, n, path)
  {
    SerializeCanon(constant);
  }

  /** Neither a const nor an enum list: accepted without an enum, a crash otherwise. */
  lemma NoListConstraint(v: Json, n: Json, path: seq<Step>)
    requires Field(n, Const).None? && (Field(n, Enum).Some? ==> !Field(n, Enum).value.Arr?)
    ensures ConstraintError(v, n, path) == if Field(n, Enum).None? then Accepted else Crash
  {
  }

  lemma FieldSound(n: Json, k: Keyword)
    requires Dicts(n) && Finite(n) && Field(n, k).Some?
    ensures Dicts(Field(n, k).value) && Finite(Field(n, k).value)
  {
  }

  lemma ConstraintOnCanon(v: Json, n: Json, path: seq<Step>)
    requires Dicts(n) && Finite(n)
    ensures ConstraintError(v, Canon(n), path) == ConstraintError(v, n, path)
  {
    FieldCanon(n, Const);
    FieldCanon(n, Enum);
    if Field(n, Const).Some? {
      FieldSound(n, Const);
      ConstOnCanon(v, n, Field(n, Const).value, path);
    } else if Field(n, Enum).Some? && Field(n, Enum).value.Arr? {
      FieldSound(n, Enum);
      EnumOnCanon(v, n, Field(n, Enum).value.items, path);
    } else {
      NoListConstraint(v, n, path);
      NoListConstraint(v, Canon(n), path);
    }
  }

  ghost predicate Printed(text: Option<string>, values: seq<Json>) {
    exists x :: x in values && Serialize(x) == text
  }

  lemma EnumVerdict(v: Json, n: Json, values: seq<Json>, path: seq<Step>)
    requires Field(n, Const).None? && Field(n, Enum) == Some(Arr(values)) && !Printed(None, values)
    ensures ConstraintError(v, n, path) ==
            if Serialize(v).None? then Crash
            else if Printed(Serialize(v), values) then Accepted else Mismatch(path, "must equal an enum value")
  {
  }

  lemma {:induction false} PrintedOnCanon(values: seq<Json>, text: Option<string>)
    requires forall x :: x in values ==> Dicts(x) && Finite(x)
    ensures Printed(text, CanonItems(values)) <==> Printed(text, values)
  {
    var canon := CanonItems(values);
    forall i | 0 <= i < |values| ensures Serialize(canon[i]) == Serialize(values[i]) {
      SerializeCanon(values[i]);
    }
    if Printed(text, canon) {
      var x :| x in canon && Serialize(x) == text;
      var i :| 0 <= i < |canon| && canon[i] == x;
      assert values[i] in values;
    }
    if Printed(text, values) {
      var y :| y in values && Serialize(y) == text;
      var i :| 0 <= i < |values| && values[i] == y;
      assert canon[i] in canon;
    }
  }

  lemma EnumOnCanon(v: Json, n: Json, values: seq<Json>, path: seq<Step>)
    requires Field(n, Const).None? && Field(Canon(n), Const).None? && Field(n, Enum) == Some(Arr(values))
    requires Field(Canon(n), Enum) == Some(Arr(CanonItems(values)))
    requires forall x :: x in values ==> Dicts(x) && Finite(x)
    ensures ConstraintError(v, Canon(n), path) == ConstraintError(v, n, path)
  {
    PrintedOnCanon(values, None);
    PrintedOnCanon(values, Serialize(v));
    assert !Printed(None, values);
    EnumVerdict(v, n, values, path);
    EnumVerdict(v, Canon(n), CanonItems(values), path);
  }

  lemma {:induction false} ExtraKeysAlike(members: seq<Member>, p: seq<Member>, q: seq<Member>)
    requires forall key :: Lookup(p, key).Some? <==> Lookup(q, key).Some?
    ensures ExtraKeys(members, p) == ExtraKeys(members, q)
  {
    if members != [] { ExtraKeysAlike(members[1..], p, q); }
  }

  lemma {:induction false} MembersOnCanon(members: seq<Member>, p: seq<Member>, path: seq<Step>)
    requires NoDuplicates(p) && forall m :: m in p ==> Dicts(m.value) && Finite(m.value)
    ensures MembersError(members, Canon(Obj(p)).members, path) == MembersError(members, p, path)
    decreases p, |members|
  {
    if members != [] {
      LookupCanon(p, members[0].key);
      if Lookup(p, members[0].key).Some? {
        VerdictOnCanon(members[0].value, Lookup(p, members[0].key).value, path + [AtKey(members[0].key)]);
      }
      MembersOnCanon(members[1..], p, path);
    }
  }

  lemma {:induction false} ItemsOnCanon(items: seq<Json>, n: Json, path: seq<Step>, index: nat)
    requires Dicts(n) && Finite(n)
    ensures ItemsError(items, Canon(n), path, index) == ItemsError(items, n, path, index)
    decreases n, |items| + 3
  {
    if items != [] {
      VerdictOnCanon(items[0], n, path + [AtIndex(index)]);
      ItemsOnCanon(items[1..], n, path, index + 1);
    }
  }

  lemma StringsOnCanon(items: seq<Json>)
    ensures AllStrings(CanonItems(items)) <==> AllStrings(items)
    ensures AllStrings(items) ==> CanonItems(items) == items
  {
    if AllStrings(CanonItems(items)) {
      forall x | x in items ensures x.Str? {
        var i :| 0 <= i < |items| && items[i] == x;
        assert CanonItems(items)[i] in CanonItems(items);
      }
    }
  }

  /** What the object part of the validator comes to, given the two fields it reads. */
  function ObjectVerdictOf(members: seq<Member>, p: seq<Member>, required: seq<Json>, path: seq<Step>): Verdict
    requires AllStrings(required)
  {
    var missing := FirstMissing(required, members);
    if missing.Some? then Mismatch(path + [AtKey(missing.value)], "is required")
    else
      var extra := Sort(ExtraKeys(members, p), TextRank);
      if extra != [] then Mismatch(path + [AtKey(extra[0])], "is not allowed") else MembersError(members, p, path)
  }

  lemma ObjectUnfolded(v: Json, n: Json, p: Json, r: Json, path: seq<Step>)
    requires v.Obj? && Field(n, Properties) == Some(p) && Field(n, Required) == Some(r)
    ensures ObjectError(v, n, path) ==
            if p.Obj? && r.Arr? && AllStrings(r.items) then ObjectVerdictOf(v.members, p.members, r.items, path)
            else Crash
  {
  }

  lemma {:induction false} PropertiesOnCanon(members: seq<Member>, p: seq<Member>, required: seq<Json>, path: seq<Step>)
    requires Dicts(Obj(p)) && Finite(Obj(p)) && AllStrings(required)
    ensures ObjectVerdictOf(members, Canon(Obj(p)).members, required, path) ==
            ObjectVerdictOf(members, p, required, path)
    decreases p, |members| + 1
  {
    forall key ensures Lookup(p, key).Some? <==> Lookup(Canon(Obj(p)).members, key).Some? { LookupCanon(p, key); }
    ExtraKeysAlike(members, p, Canon(Obj(p)).members);
    MembersOnCanon(members, p, path);
  }

  lemma {:induction false} ObjectOnCanon(v: Json, n: Json, path: seq<Step>)
    requires Dicts(n) && Finite(n)
    ensures ObjectError(v, Canon(n), path) == ObjectError(v, n, path)
    decreases n, 0
  {
    FieldCanon(n, Properties);
    FieldCanon(n, Required);
    if v.Obj? && Field(n, Properties).Some? && Field(n, Required).Some? {
      var p, r := Field(n, Properties).value, Field(n, Required).value;
      ObjectUnfolded(v, n, p, r, path);
      ObjectUnfolded(v, Canon(n), Canon(p), Canon(r), path);
      if r.Arr? { StringsOnCanon(r.items); }
      if p.Obj? && r.Arr? && AllStrings(r.items) { PropertiesOnCanon(v.members, p.members, r.items, path); }
    }
  }

  lemma SizeVerdictCanon(size: nat, least: Json, most: Json, path: seq<Step>)
    ensures SizeVerdict(size, Canon(least), Canon(most), path) == SizeVerdict(size, least, most, path)
  {
  }

  lemma BoundCanon(bound: Option<Json>, absent: int)
    ensures CanonOf(bound).GetOr(Int(absent)) == Canon(bound.GetOr(Int(absent)))
  {
  }

  lemma SizeOnCanon(size: nat, n: Json, minimum: Keyword, maximum: Keyword, ceiling: int, path: seq<Step>)
    requires Dicts(n)
    ensures SizeError(size, Canon(n), minimum, maximum, ceiling, path) ==
            SizeError(size, n, minimum, maximum, ceiling, path)
  {
    FieldCanon(n, minimum);
    FieldCanon(n, maximum);
    BoundCanon(Field(n, minimum), 0);
    BoundCanon(Field(n, maximum), ceiling);
    SizeVerdictCanon(size, Field(n, minimum).GetOr(Int(0)), Field(n, maximum).GetOr(Int(ceiling)), path);
  }

  lemma {:induction false} ArrayOnCanon(v: Json, n: Json, path: seq<Step>)
    requires Dicts(n) && Finite(n)
    ensures ArrayError(v, Canon(n), path) == ArrayError(v, n, path)
    decreases n, 0
  {
    if v.Arr? {
      SizeOnCanon(|v.items|, n, MinItems, MaxItems, MAX_ITEMS, path);
      FieldCanon(n, Items);
      if Field(n, Items).Some? { ItemsOnCanon(v.items, Field(n, Items).value, path, 0); }
    }
  }

  lemma {:induction false} KindOnCanon(v: Json, n: Json, kind: Kind, path: seq<Step>)
    requires Dicts(n) && Finite(n)
    ensures KindError(v, Canon(n), kind, path) == KindError(v, n, kind, path)
    decreases n, 1
  {
    match kind
    case ObjectKind => ObjectOnCanon(v, n, path);
    case ArrayKind => ArrayOnCanon(v, n, path);
    case StringKind => if v.Str? { SizeOnCanon(|v.text|, n, MinLength, MaxLength, MAX_STRING, path); }
    case _ =>
  }

  predicate KnownKind(n: Json) {
    Field(n, Type).Some? && Field(n, Type).value.Str? && KindOf(Field(n, Type).value.text).Some?
  }

  lemma KnownHas(n: Json) returns (kind: Kind)
    requires KnownKind(n)
    ensures HasKind(n, kind)
  {
    kind := KindOf(Field(n, Type).value.text).value;
  }

  lemma UnknownKind(v: Json, n: Json, path: seq<Step>)
    requires !KnownKind(n)
    ensures SchemaError(v, n, path) ==
            if !ConstraintError(v, n, path).Accepted? then ConstraintError(v, n, path)
            else if Field(n, Type) == None || Field(n, Type) == Some(Null) then Accepted else Crash
  {
  }

  lemma UnknownOnCanon(v: Json, n: Json, path: seq<Step>)
    requires Dicts(n) && !KnownKind(n) && ConstraintError(v, Canon(n), path) == ConstraintError(v, n, path)
    ensures SchemaError(v, Canon(n), path) == SchemaError(v, n, path)
  {
    FieldCanon(n, Type);
    UnknownKind(v, n, path);
    UnknownKind(v, Canon(n), path);
  }

  /** Sorting the keys of a schema does not change any verdict, not even its path. */
  lemma {:induction false} VerdictOnCanon(v: Json, n: Json, path: seq<Step>)
    requires Dicts(n) && Finite(n)
    ensures SchemaError(v, Canon(n), path) == SchemaError(v, n, path)
    decreases n, 2
  {
    ConstraintOnCanon(v, n, path);
    FieldCanon(n, Type);
    if KnownKind(n) {
      var kind := KnownHas(n);
      ErrorByKind(v, n, kind, path);
      ErrorByKind(v, Canon(n), kind, path);
      KindOnCanon(v, n, kind, path);
    } else {
      UnknownOnCanon(v, n, path);
    }
  }

  /** Without surrogate pairs nothing can disturb the order of the names. */
  lemma PairFreeKeepsOrder(s: Json, n: Json, toFloat: FloatOf)
    requires NormalizeSchema(s, 1) == Ok(n) && Source(s, true, toFloat)
    ensures NamesKeepOrder(s) && Reloaded(n) == Canon(n)
  {
    NormalizedKept(s, 1, n, true, toFloat);
    PairFreeCanon(n);
    MergeAllFixed(Canon(n));
    CanonAscends(n);
    ReloadedInOrder(s, 1, n);
  }

  /** The validator, run on the pinned form of a schema without surrogate pairs, decides that schema. */
  lemma PairFreeAgreement(v: Json, s: Json, n: Json, path: seq<Step>, levels: int, toFloat: FloatOf)
    requires NormalizeSchema(s, 1) == Ok(n) && Source(s, true, toFloat) && Payload(v, levels, toFloat)
    ensures Agrees(v, s, Reloaded(n), path)
  {
    NormalizedKept(s, 1, n, true, toFloat);
    PairFreeKeepsOrder(s, n, toFloat);
    Agreement(v, s, 1, n, levels, toFloat);
    VerdictOnCanon(v, n, path);
    assert Agrees(v, s, n, path);
  }

  /** Whatever the schema, a requirement decides the meaning of the schema it carries. */
  lemma CarriedAgreement(v: Json, s: Json, n: Json, path: seq<Step>, levels: int, toFloat: FloatOf)
    requires NormalizeSchema(s, 1) == Ok(n) && Source(s, false, toFloat) && Payload(v, levels, toFloat)
    requires NamesKeepOrder(s)
    ensures Agrees(v, Reloaded(n), Reloaded(n), path)
  {
    ReloadedInOrder(s, 1, n);
    PinnedText(s, n, toFloat);
    ReloadedSettles(s, 1, n);
    var w := NormalizeSchema(Reloaded(n), 1).value;
    NormalizedKept(Reloaded(n), 1, w, true, toFloat);
    Agreement(v, Reloaded(n), 1, w, levels, toFloat);
    VerdictOnCanon(v, w, path);
    assert Agrees(v, Reloaded(n), w, path);
  }

  /**
   Whenever a schema is pinned, the validator decides the meaning of the schema the requirement carries,
   which is the meaning of the schema as it was handed in when that one holds no surrogate pairs.
   */
  lemma PinnedAgreement(v: Json, s: Json, n: Json, path: seq<Step>, levels: int, toFloat: FloatOf)
    requires NormalizeSchema(s, 1) == Ok(n) && Source(s, false, toFloat) && Payload(v, levels, toFloat)
    requires NamesKeepOrder(s)
    ensures Agrees(v, Reloaded(n), Reloaded(n), path)
    ensures PairFreeAll(s) ==> Agrees(v, s, Reloaded(n), path)
  {
    CarriedAgreement(v, s, n, path, levels, toFloat);
    if PairFreeAll(s) {
      PairFreeAgreement(v, s, n, path, levels, toFloat);
    }
  }

  // ----- Admission -----

  datatype Output = Absent | Present(value: Json)

  /** `SelectedOutputPresent`: the global ceilings, then the ceiling on the canonical bytes. */
  function PresentOutput(v: Json): Result<Json> {
    match NormalizePayload(v, 1)
    case Err(reason) => Err(reason)
    case Ok(w) =>
      match Serialize(w)
      case None => Err("non-finite")
      case Some(text) => if |text| > MAX_PAYLOAD_BYTES then Err("byte ceiling") else Ok(w)
  }

  /** `admit_selected_output`. */
  function Admit(requirement: Requirement, candidate: Option<Json>): Result<Output> {
    match candidate
    case None => if requirement.required then Err("missing") else Ok(Absent)
    case Some(value) =>
      match PresentOutput(value)
      case Err(reason) => Err(reason)
      case Ok(v) =>
        match SchemaError(v, requirement.schema, [])
        case Accepted => Ok(Present(v))
        case Mismatch(_, reason) => Err(reason)
        case Crash => Err("crash")
  }

  lemma PresentAfter(v: Json)
    requires NormalizePayload(v, 1) == Ok(v) && Serialize(v) == Some(Canonical(v))
    ensures PresentOutput(v) == if |Canonical(v)| > MAX_PAYLOAD_BYTES then Err("byte ceiling") else Ok(v)
  {
  }

  lemma PresentExactly(v: Json, toFloat: FloatOf)
    requires Floats(v, toFloat)
    ensures PresentOutput(v).Ok? <==> WithinCeilings(v, MAX_DEPTH) && |Canonical(v)| <= MAX_PAYLOAD_BYTES
    ensures PresentOutput(v).Ok? ==> PresentOutput(v) == Ok(v) && Payload(v, MAX_DEPTH, toFloat)
  {
    PayloadAdmission(v, 1);
    if NormalizePayload(v, 1).Ok? {
      SerializeIsCanonical(v, toFloat);
      PresentAfter(v);
    }
  }

  /** What admission says of a present candidate, for a schema with the given meaning. */
  ghost predicate DecidedBy(r: Result<Output>, v: Json, schema: Json) {
    && (r.Ok? <==> WithinCeilings(v, MAX_DEPTH) && |Canonical(v)| <= MAX_PAYLOAD_BYTES && Satisfies(v, schema))
    && (r.Ok? ==> r == Ok(Present(v)))
  }

  /**
   Admission, end to end: a candidate is admitted exactly when it is absent and optional, or within
   the global ceilings and an instance of the schema the requirement carries; it is admitted unchanged.
   For a schema without surrogate pairs that is the schema the requirement was made from.
   */
  lemma AdmittedExactly(required: bool, s: Json, candidate: Option<Json>, sha: string -> string, toFloat: FloatOf)
    requires Source(s, false, toFloat) && (candidate.Some? ==> Floats(candidate.value, toFloat))
    requires Pin(required, s, "", sha, toFloat).Ok? && NamesKeepOrder(s)
    ensures var q := Pin(required, s, "", sha, toFloat).value;
            var r := Admit(q, candidate);
            if candidate.None? then r == (if required then Err("missing") else Ok(Absent))
            else DecidedBy(r, candidate.value, q.schema) && (PairFreeAll(s) ==> DecidedBy(r, candidate.value, s))
  {
    var n := NormalizeSchema(s, 1).value;
    NormalizedKept(s, 1, n, false, toFloat);
    SerializeIsCanonical(n, toFloat);
    OrderedPins(required, s, n, "", sha, toFloat);
    if candidate.Some? {
      PresentExactly(candidate.value, toFloat);
      if PresentOutput(candidate.value).Ok? {
        PinnedAgreement(candidate.value, s, n, [], MAX_DEPTH, toFloat);
      }
    }
  }

  // ----- The order of keys in a payload does not matter -----

  lemma SameJsonCanon(v: Json, w: Json)
    requires Dicts(v)
    ensures SameJson(Canon(v), w) <==> SameJson(v, w)
  {
    CanonIdempotent(v);
  }

  lemma {:induction false} MemberSatisfiesCanon(m: Member, s: Json)
    requires Dicts(m.value)
    ensures MemberHolds(Member(m.key, Canon(m.value)), s) <==> MemberHolds(m, s)
    decreases s, 0, 0
  {
    if PropertyOf(s, m.key).Some? { SatisfiesCanon(m.value, PropertyOf(s, m.key).value); }
  }

  lemma {:induction false} MembersSatisfyCanon(members: seq<Member>, s: Json)
    requires Dicts(Obj(members))
    ensures (forall m :: m in Canon(Obj(members)).members ==> MemberHolds(m, s)) <==>
            (forall m :: m in members ==> MemberHolds(m, s))
    decreases s, 0, 1
  {
    CanonMember(members);
    var canon := Canon(Obj(members)).members;
    forall i | 0 <= i < |members|
      ensures MemberHolds(Member(members[i].key, Canon(members[i].value)), s) <==> MemberHolds(members[i], s)
    {
      assert members[i] in members;
      MemberSatisfiesCanon(members[i], s);
    }
    if forall m :: m in canon ==> MemberHolds(m, s) {
      forall m | m in members ensures MemberHolds(m, s) {
        var i :| 0 <= i < |members| && members[i] == m;
        assert Member(m.key, Canon(m.value)) in canon;
      }
    }
  }

  lemma {:induction false} ItemsSatisfyCanon(items: seq<Json>, s: Json)
    requires Dicts(Arr(items))
    ensures AllSatisfy(CanonItems(items), s) <==> AllSatisfy(items, s)
    decreases s, |items| + 3
  {
    if items != [] {
      assert CanonItems(items)[1..] == CanonItems(items[1..]);
      SatisfiesCanon(items[0], s);
      ItemsSatisfyCanon(items[1..], s);
      AllSatisfyCons(items, s);
      AllSatisfyCons(CanonItems(items), s);
    }
  }

  /** The object part of a schema's meaning, in its three conditions. */
  lemma ObjectHolds(members: seq<Member>, s: Json)
    ensures KindHolds(Obj(members), s, ObjectKind) <==>
            (forall name :: Declares(s, Required, Str(name)) ==> Lookup(members, name).Some?) &&
            (forall m :: m in members ==> MemberHolds(m, s))
  {
  }

  lemma RequiredCanon(members: seq<Member>, s: Json)
    requires NoDuplicates(members)
    ensures (forall name :: Declares(s, Required, Str(name)) ==> Lookup(members, name).Some?) <==>
            (forall name :: Declares(s, Required, Str(name)) ==> Lookup(Canon(Obj(members)).members, name).Some?)
  {
    forall name ensures Lookup(Canon(Obj(members)).members, name).Some? <==> Lookup(members, name).Some? {
      LookupCanon(members, name);
    }
  }

  lemma {:induction false} ObjectHoldsCanon(members: seq<Member>, s: Json)
    requires Dicts(Obj(members))
    ensures KindHolds(Canon(Obj(members)), s, ObjectKind) <==> KindHolds(Obj(members), s, ObjectKind)
    decreases s, 1
  {
    var canon := Canon(Obj(members)).members;
    MembersSatisfyCanon(members, s);
    RequiredCanon(members, s);
    ObjectHolds(members, s);
    ObjectHolds(canon, s);
  }

  lemma {:induction false} ArrayHoldsCanon(items: seq<Json>, s: Json)
    requires Dicts(Arr(items))
    ensures KindHolds(Canon(Arr(items)), s, ArrayKind) <==> KindHolds(Arr(items), s, ArrayKind)
    decreases s, 1
  {
    if Field(s, Items).Some? {
      ItemsSatisfyCanon(items, Field(s, Items).value);
      assert AllSatisfy(items, Field(s, Items).value) <==> AllSatisfy(CanonItems(items), Field(s, Items).value);
    }
  }

  lemma OtherHoldsCanon(v: Json, s: Json, kind: Kind)
    requires !(kind == ObjectKind && v.Obj?) && !(kind == ArrayKind && v.Arr?)
    ensures KindHolds(Canon(v), s, kind) <==> KindHolds(v, s, kind)
  {
  }

  lemma {:induction false} KindHoldsCanon(v: Json, s: Json, kind: Kind)
    requires Dicts(v)
    ensures KindHolds(Canon(v), s, kind) <==> KindHolds(v, s, kind)
    decreases s, 2
  {
    if kind == ObjectKind && v.Obj? {
      ObjectHoldsCanon(v.members, s);
    } else if kind == ArrayKind && v.Arr? {
      ArrayHoldsCanon(v.items, s);
    } else {
      OtherHoldsCanon(v, s, kind);
    }
  }

  lemma ConstraintHoldsCanon(v: Json, s: Json)
    requires Dicts(v)
    ensures ConstraintHolds(Canon(v), s) <==> ConstraintHolds(v, s)
  {
    forall w ensures SameJson(Canon(v), w) <==> SameJson(v, w) { SameJsonCanon(v, w); }
  }

  /** A payload is an instance of a schema whatever the order of its keys. */
  lemma {:induction false} SatisfiesCanon(v: Json, s: Json)
    requires Dicts(v)
    ensures Satisfies(Canon(v), s) <==> Satisfies(v, s)
    decreases s, 3
  {
    ConstraintHoldsCanon(v, s);
    if kind: Kind :| HasKind(s, kind) {
      KindHoldsCanon(v, s, kind);
      SatisfiesByKind(v, s, kind);
      SatisfiesByKind(Canon(v), s, kind);
    }
  }

  /** Two payloads that differ only in key order get the same answer from the validator. */
  lemma VerdictIgnoresKeyOrder(v: Json, w: Json, s: Json, n: Json, levels: int, toFloat: FloatOf)
    requires NormalizeSchema(s, 1) == Ok(n) && Source(s, false, toFloat) && NamesKeepOrder(s)
    requires Payload(v, levels, toFloat) && Payload(w, levels, toFloat)
    requires Dicts(v) && Dicts(w) && Canon(v) == Canon(w)
    ensures SchemaError(v, Reloaded(n), []).Accepted? <==> SchemaError(w, Reloaded(n), []).Accepted?
  {
    CarriedAgreement(v, s, n, [], levels, toFloat);
    CarriedAgreement(w, s, n, [], levels, toFloat);
    SatisfiesCanon(v, Reloaded(n));
    SatisfiesCanon(w, Reloaded(n));
  }
}
