/**
 One canonical schema per meaning: schemas that differ only in spelling normalize alike.

 Spelling is the order of keys, properties, required names and enum values, and whether an empty
 `properties` or `required` is written out. Normalized schemas are compared field by field: their keys
 are keywords, each at most once, so their canonical forms are equal as soon as the canonical forms of
 all fields are. `SpellingDoesNotMatter` is the result; the lemmas before it go kind by kind, and show
 for each that the re-spelled schema passes the same checks.
 */
module SchemaCanonical {
  import opened Basics
  import opened Json
  import opened JsonCanonical
  import opened JsonRoundTrip
  import opened JsonText
  import opened Ordering
  import opened Schema
  import opened SchemaAgreement
  import SchemaValidator

  // ----- Dicts as lookups -----

  lemma {:induction false} LookupMember(members: seq<Member>, m: Member)
    requires NoDuplicates(members) && m in members
    ensures Lookup(members, m.key) == Some(m.value)
  {
    if members[0] != m {
      var tail := members[1..];
      assert forall i, j :: 0 <= i < j < |tail| ==>
          tail[i].key == members[i + 1].key && tail[j].key == members[j + 1].key;
      var k :| 0 <= k < |members| && members[k] == m;
      assert members[0].key != members[k].key;
      LookupMember(tail, m);
    }
  }

  function CanonOf(v: Option<Json>): Option<Json> {
    if v.None? then None else Some(Canon(v.value))
  }

  function MergeOf(v: Option<Json>): Option<Json> {
    if v.None? then None else Some(MergeAll(v.value))
  }

  lemma CanonNoDuplicates(members: seq<Member>)
    requires NoDuplicates(members)
    ensures NoDuplicates(Canon(Obj(members)).members)
  {
    NoDuplicatesAscending(CanonMembers(members));
  }

  lemma LookupCanonMissing(members: seq<Member>, key: Text)
    requires Lookup(members, key).None?
    ensures Lookup(Canon(Obj(members)).members, key).None?
  {
    CanonMember(members);
    LookupNone(members, key);
    LookupNone(Canon(Obj(members)).members, key);
  }

  lemma LookupCanon(members: seq<Member>, key: Text)
    requires NoDuplicates(members)
    ensures Lookup(Canon(Obj(members)).members, key) == CanonOf(Lookup(members, key))
  {
    if Lookup(members, key).None? {
      LookupCanonMissing(members, key);
    } else {
      CanonMember(members);
      CanonNoDuplicates(members);
      var i :| 0 <= i < |members| && members[i] == Member(key, Lookup(members, key).value);
      LookupMember(Canon(Obj(members)).members, Member(key, Canon(members[i].value)));
    }
  }

  lemma {:induction false} LookupMerge(members: seq<Member>, key: Text)
    requires forall m :: m in members ==> PairFree(m.key)
    ensures Lookup(MergeMembers(members), key) == MergeOf(Lookup(members, key))
  {
    if members != [] {
      assert members[0] in members;
      MergeFixed(members[0].key);
      assert MergeMembers(members)[1..] == MergeMembers(members[1..]);
      LookupMerge(members[1..], key);
    }
  }

  lemma AscendingMembers(members: seq<Member>)
    requires Ascending(members, MemberKey)
    ensures NoDuplicates(members)
  {
    AscendingDistinct(members, MemberKey);
    forall i, j | 0 <= i < j < |members| ensures members[i].key != members[j].key {
      assert MemberKey(members[i]) != MemberKey(members[j]);
    }
  }

  /** Dicts listed in key order are equal when they agree on every key. */
  lemma AscendingByLookup(a: seq<Member>, b: seq<Member>)
    requires Ascending(a, MemberKey) && Ascending(b, MemberKey)
    requires forall key :: Lookup(a, key) == Lookup(b, key)
    ensures a == b
  {
    AscendingMembers(a);
    AscendingMembers(b);
    forall m ensures m in a <==> m in b {
      if m in a { LookupMember(a, m); }
      if m in b { LookupMember(b, m); }
    }
    AscendingUnique(a, b, MemberKey);
  }

  /** Dicts have the same canonical form when their values do, key by key. */
  lemma CanonByLookup(a: seq<Member>, b: seq<Member>)
    requires NoDuplicates(a) && NoDuplicates(b)
    requires forall key :: CanonOf(Lookup(a, key)) == CanonOf(Lookup(b, key))
    ensures Canon(Obj(a)) == Canon(Obj(b))
  {
    forall key ensures Lookup(Canon(Obj(a)).members, key) == Lookup(Canon(Obj(b)).members, key) {
      LookupCanon(a, key);
      LookupCanon(b, key);
      assert CanonOf(Lookup(a, key)) == CanonOf(Lookup(b, key));
    }
    NoDuplicatesAscending(CanonMembers(a));
    NoDuplicatesAscending(CanonMembers(b));
    AscendingByLookup(Canon(Obj(a)).members, Canon(Obj(b)).members);
  }

  // ----- The keys of a normalized schema -----

  predicate IsKeyword(key: Text) {
    exists k: Keyword :: key == Key(k)
  }

  lemma ConcatNoDuplicates(a: seq<Member>, b: seq<Member>)
    requires NoDuplicates(a) && NoDuplicates(b)
    requires forall m, w :: m in a && w in b ==> m.key != w.key
    ensures NoDuplicates(a + b)
  {
    var c := a + b;
    forall i, j | 0 <= i < j < |c| ensures c[i].key != c[j].key {
      if i < |a| <= j {
        assert c[i] in a && c[j] in b;
      }
    }
  }

  /** All keys are among the given keywords, and none repeats. */
  ghost predicate KeyedBy(members: seq<Member>, ks: set<Keyword>) {
    NoDuplicates(members) && forall m :: m in members ==> exists k :: k in ks && m.key == Key(k)
  }

  lemma KeyedConcat(a: seq<Member>, b: seq<Member>, ks: set<Keyword>, js: set<Keyword>)
    requires KeyedBy(a, ks) && KeyedBy(b, js) && ks !! js
    ensures KeyedBy(a + b, ks + js)
  {
    forall m, w | m in a && w in b ensures m.key != w.key {
      var k :| k in ks && m.key == Key(k);
      var j :| j in js && w.key == Key(j);
      KeysDiffer(k, j);
    }
    ConcatNoDuplicates(a, b);
    forall m | m in a + b ensures exists k :: k in ks + js && m.key == Key(k) {
      if m in a {
        var k :| k in ks && m.key == Key(k);
        assert k in ks + js;
      } else {
        var k :| k in js && m.key == Key(k);
        assert k in ks + js;
      }
    }
  }

  lemma KeyedOne(k: Keyword, v: Json)
    ensures KeyedBy([Member(Key(k), v)], {k})
  {
    assert k in {k};
  }

  lemma KeyedCopied(s: Json, k: Keyword)
    ensures KeyedBy(Copied(s, k), {k})
  {
    if Field(s, k).Some? { KeyedOne(k, Field(s, k).value); }
  }

  const BODY_KEYS: set<Keyword> :=
    {Properties, Required, Additional, Items, MinItems, MaxItems, MinLength, MaxLength}

  lemma KeyedWiden(a: seq<Member>, ks: set<Keyword>, js: set<Keyword>)
    requires KeyedBy(a, ks) && ks <= js
    ensures KeyedBy(a, js)
  {
    forall m | m in a ensures exists k :: k in js && m.key == Key(k) {
      var k :| k in ks && m.key == Key(k);
      assert k in js;
    }
  }

  lemma KeyedObjectBody(properties: seq<Member>, required: seq<Text>)
    ensures KeyedBy(ObjectBody(properties, required), BODY_KEYS)
  {
    var p, r := Member(Key(Properties), Obj(properties)), Member(Key(Required), Arr(Strings(required)));
    var a := Member(Key(Additional), Bool(false));
    KeyedThree(p, r, a);
    assert ObjectBody(properties, required) == [p] + [r] + [a];
    KeyedWiden([p] + [r] + [a], {Properties} + {Required} + {Additional}, BODY_KEYS);
  }

  lemma KeyedThree(p: Member, r: Member, a: Member)
    requires p.key == Key(Properties) && r.key == Key(Required) && a.key == Key(Additional)
    ensures KeyedBy([p] + [r] + [a], {Properties} + {Required} + {Additional})
  {
    KeyedOne(Properties, p.value);
    KeyedOne(Required, r.value);
    KeyedOne(Additional, a.value);
    KeyedConcat([p], [r], {Properties}, {Required});
    KeyedConcat([p] + [r], [a], {Properties} + {Required}, {Additional});
  }

  lemma KeyedArrayBody(items: Json, s: Json)
    ensures KeyedBy(ArrayBody(items, s), BODY_KEYS)
  {
    var first := [Member(Key(Items), items)];
    KeyedOne(Items, items);
    KeyedCopied(s, MinItems);
    KeyedCopied(s, MaxItems);
    KeyedConcat(first, Copied(s, MinItems), {Items}, {MinItems});
    KeyedConcat(first + Copied(s, MinItems), Copied(s, MaxItems), {Items} + {MinItems}, {MaxItems});
    KeyedWiden(ArrayBody(items, s), {Items} + {MinItems} + {MaxItems}, BODY_KEYS);
  }

  lemma KeyedStringBody(s: Json)
    ensures KeyedBy(Copied(s, MinLength) + Copied(s, MaxLength), BODY_KEYS)
  {
    KeyedCopied(s, MinLength);
    KeyedCopied(s, MaxLength);
    KeyedConcat(Copied(s, MinLength), Copied(s, MaxLength), {MinLength}, {MaxLength});
    KeyedWiden(Copied(s, MinLength) + Copied(s, MaxLength), {MinLength} + {MaxLength}, BODY_KEYS);
  }

  lemma KeyedBody(s: Json, kind: Option<Kind>, depth: nat)
    requires NormalizeBody(s, kind, depth).Ok?
    ensures KeyedBy(NormalizeBody(s, kind, depth).value, BODY_KEYS)
  {
    match kind
    case Some(ObjectKind) =>
      ObjectParts(s, depth);
      KeyedObjectBody(NormalizeProperties(Field(s, Properties).GetOr(Obj([])).members, depth + 1).value,
                      Sort(Texts(Field(s, Required).GetOr(Arr([])).items), TextRank));
    case Some(ArrayKind) =>
      ArrayParts(s, depth);
      KeyedArrayBody(NormalizeSchema(Field(s, Items).value, depth + 1).value, s);
    case Some(StringKind) => KeyedStringBody(s);
    case _ =>
  }

  lemma KeyedConstraint(s: Json, kind: Option<Kind>)
    requires NormalizeConstraint(s, kind).Ok?
    ensures KeyedBy(NormalizeConstraint(s, kind).value, {Const, Enum})
  {
    if NormalizeConstraint(s, kind).value != [] {
      var m := NormalizeConstraint(s, kind).value[0];
      var k := if Field(s, Const).Some? then Const else Enum;
      KeyedOne(k, m.value);
      KeyedWiden([m], {k}, {Const, Enum});
      assert NormalizeConstraint(s, kind).value == [m];
    }
  }

  lemma KeyedHead(kind: Option<Kind>)
    ensures KeyedBy(Head(kind), {Type})
  {
    if kind.Some? { KeyedOne(Type, Str(KindText(kind.value))); }
  }

  lemma KeyedParts(head: seq<Member>, body: seq<Member>, constraint: seq<Member>)
    requires KeyedBy(head, {Type}) && KeyedBy(body, BODY_KEYS) && KeyedBy(constraint, {Const, Enum})
    ensures NoDuplicates(head + body + constraint)
    ensures forall m :: m in head + body + constraint ==> IsKeyword(m.key)
  {
    KeyedConcat(head, body, {Type}, BODY_KEYS);
    KeyedConcat(head + body, constraint, {Type} + BODY_KEYS, {Const, Enum});
  }

  lemma NormalizedKeys(s: Json, depth: nat, n: Json)
    requires NormalizeSchema(s, depth) == Ok(n)
    ensures n.Obj? && NoDuplicates(n.members)
    ensures forall m :: m in n.members ==> IsKeyword(m.key)
  {
    Assembled(s, depth);
    KeyedHead(KindIn(s));
    KeyedBody(s, KindIn(s), depth);
    KeyedConstraint(s, KindIn(s));
    KeyedParts(Head(KindIn(s)), NormalizeBody(s, KindIn(s), depth).value, NormalizeConstraint(s, KindIn(s)).value);
  }

  lemma OnlyKeywords(members: seq<Member>, key: Text)
    requires (forall m :: m in members ==> IsKeyword(m.key)) && !IsKeyword(key)
    ensures Lookup(members, key).None?
  {
  }

  /** A field of two schemas has one canonical form. */
  ghost predicate FieldAlike(n: Json, w: Json, k: Keyword) {
    CanonOf(Field(n, k)) == CanonOf(Field(w, k))
  }

  /** Normalized schemas have one canonical form when their fields do. */
  lemma FieldsDecide(s: Json, t: Json, depth: nat, n: Json, w: Json)
    requires NormalizeSchema(s, depth) == Ok(n) && NormalizeSchema(t, depth) == Ok(w)
    requires forall k: Keyword :: FieldAlike(n, w, k)
    ensures Canon(n) == Canon(w)
  {
    NormalizedKeys(s, depth, n);
    NormalizedKeys(t, depth, w);
    forall key ensures CanonOf(Lookup(n.members, key)) == CanonOf(Lookup(w.members, key)) {
      if IsKeyword(key) {
        var k: Keyword :| key == Key(k);
        assert FieldAlike(n, w, k);
      } else {
        OnlyKeywords(n.members, key);
        OnlyKeywords(w.members, key);
      }
    }
    CanonByLookup(n.members, w.members);
  }

  // ----- Lists up to order -----

  /** Reordering keeps a list free of repetitions. */
  lemma Reordered<T(!new)>(a: seq<T>, b: seq<T>)
    requires multiset(a) == multiset(b)
    ensures |a| == |b| && SameElements(a, b)
    ensures Distinct(a) ==> Distinct(b)
  {
    assert |multiset(a)| == |a| && |multiset(b)| == |b|;
    forall x ensures x in a <==> x in b {
      assert x in multiset(a) <==> x in multiset(b);
    }
    if Distinct(a) {
      forall i, j | 0 <= i < j < |b| ensures b[i] != b[j] {
        DistinctCounts(a, b[i]);
        assert b == b[..j] + [b[j]] + b[j + 1..];
        assert b[i] in b[..j];
        assert multiset(b)[b[i]] == multiset(b[..j])[b[i]] + multiset([b[j]])[b[i]] + multiset(b[j + 1..])[b[i]];
      }
    }
  }

  lemma DistinctTexts(values: seq<Json>)
    ensures Distinct(CanonicalTexts(values)) <==>
            forall i, j :: 0 <= i < j < |values| ==> Canonical(values[i]) != Canonical(values[j])
  {
    var texts := CanonicalTexts(values);
    forall i | 0 <= i < |values| ensures |texts| == |values| && texts[i] == Canonical(values[i]) {
      CanonicalTextAt(values, i);
    }
    assert values == [] ==> texts == [];
  }

  lemma DistinctRanks(values: seq<Json>)
    requires Distinct(CanonicalTexts(values))
    ensures DistinctKeys(values, ScalarRank)
  {
    DistinctTexts(values);
    forall i, j | 0 <= i < j < |values| ensures ScalarRank(values[i]) != ScalarRank(values[j]) {
      var a, b := Canonical(values[i]), Canonical(values[j]);
      if Codes(a) == Codes(b) {
        CodesInjective(a, b);
      }
    }
  }

  /** Values with distinct texts are distinct, and different ones have different texts. */
  lemma TextsTellApart(a: seq<Json>, x: Json, y: Json)
    requires Distinct(CanonicalTexts(a)) && x in a && y in a
    ensures Distinct(a) && (x != y ==> Canonical(x) != Canonical(y))
  {
    DistinctTexts(a);
    var p :| 0 <= p < |a| && a[p] == x;
    var q :| 0 <= q < |a| && a[q] == y;
    assert p < q || q < p || p == q;
    forall i, j | 0 <= i < j < |a| ensures a[i] != a[j] {
      assert Canonical(a[i]) != Canonical(a[j]);
    }
  }

  lemma TextsStayDistinct(a: seq<Json>, b: seq<Json>)
    requires Distinct(CanonicalTexts(a)) && Distinct(b) && SameElements(a, b)
    ensures Distinct(CanonicalTexts(b))
  {
    forall i, j | 0 <= i < j < |b| ensures Canonical(b[i]) != Canonical(b[j]) {
      assert b[i] in b && b[j] in b && b[i] != b[j];
      TextsTellApart(a, b[i], b[j]);
    }
    DistinctTexts(b);
  }

  lemma ScalarsStayAdmitted(a: seq<Json>, b: seq<Json>, kind: Option<Kind>)
    requires ScalarsAdmitted(a, kind) && SameElements(a, b)
    ensures ScalarsAdmitted(b, kind)
  {
    forall i | 0 <= i < |b| ensures ScalarAdmitted(b[i], kind) {
      assert b[i] in b;
      var p :| 0 <= p < |a| && a[p] == b[i];
    }
  }

  lemma SameSorted(a: seq<Json>, b: seq<Json>)
    requires Distinct(CanonicalTexts(a)) && Distinct(CanonicalTexts(b)) && SameElements(a, b)
    ensures Sort(a, ScalarRank) == Sort(b, ScalarRank)
  {
    DistinctRanks(a);
    DistinctRanks(b);
    SortIgnoresOrder(a, b, ScalarRank);
  }

  /** A reordered enum is admitted as well and sorts to the same list. */
  lemma EnumReordered(a: seq<Json>, b: seq<Json>, kind: Option<Kind>)
    requires EnumAdmitted(a, kind) && multiset(a) == multiset(b)
    ensures EnumAdmitted(b, kind) && Sort(a, ScalarRank) == Sort(b, ScalarRank)
  {
    TextsTellApart(a, a[0], a[0]);
    Reordered(a, b);
    TextsStayDistinct(a, b);
    ScalarsStayAdmitted(a, b, kind);
    SameSorted(a, b);
  }

  lemma TextsOf(items: seq<Json>, t: Text)
    requires AllStrings(items)
    ensures t in Texts(items) <==> Str(t) in items
  {
    var texts := Texts(items);
    if Str(t) in items {
      var i :| 0 <= i < |items| && items[i] == Str(t);
      assert texts[i] == t;
    }
  }

  lemma RequiredReordered(a: seq<Json>, b: seq<Json>)
    requires AllStrings(a) && Distinct(a) && multiset(a) == multiset(b)
    ensures AllStrings(b) && Distinct(b) && SameElements(a, b)
    ensures Sort(Texts(a), TextRank) == Sort(Texts(b), TextRank)
  {
    Reordered(a, b);
    forall t ensures t in Texts(a) <==> t in Texts(b) {
      TextsOf(a, t);
      TextsOf(b, t);
    }
    forall i, j | 0 <= i < j < |a| ensures TextRank(Texts(a)[i]) != TextRank(Texts(a)[j]) {
      assert a[i] != a[j];
    }
    forall i, j | 0 <= i < j < |b| ensures TextRank(Texts(b)[i]) != TextRank(Texts(b)[j]) {
      assert b[i] != b[j];
    }
    SortIgnoresOrder(Texts(a), Texts(b), TextRank);
  }

  // ----- Schemas that differ only in spelling -----

  function PropertiesIn(s: Json): Json { Field(s, Properties).GetOr(Obj([])) }

  function RequiredIn(s: Json): Json { Field(s, Required).GetOr(Arr([])) }

  /** The same enum in any order, or none. */
  ghost predicate SameEnum(a: Option<Json>, b: Option<Json>) {
    || a == b
    || (a.Some? && b.Some? && a.value.Arr? && b.value.Arr? && multiset(a.value.items) == multiset(b.value.items))
  }

  /** Two property lists with the same names in any order, alike name by name. */
  ghost predicate SameNames(p: Json, q: Json) {
    && p.Obj? && q.Obj? && NoDuplicates(p.members) && NoDuplicates(q.members)
    && forall key :: Lookup(p.members, key).Some? <==> Lookup(q.members, key).Some?
  }

  /** `t` may have no keyword that `s` lacks, except a spelled-out `properties` or `required`. */
  ghost predicate NoNewKeys(s: Json, t: Json)
    requires s.Obj? && t.Obj?
  {
    forall m :: m in t.members ==>
      Lookup(s.members, m.key).Some? ||
      (SchemaValidator.HasKind(s, ObjectKind) && m.key in [Key(Properties), Key(Required)])
  }

  /**
   `s` and `t` differ only in the order of keys, properties, required names and enum values, or
   in spelling out or leaving out an empty `properties` or `required`.
   */
  ghost predicate SameSchema(s: Json, t: Json)
    decreases s
  {
    && s.Obj? && t.Obj? && NoNewKeys(s, t) && NoNewKeys(t, s)
    && (forall k :: (k != Enum && k != Properties && k != Required && k != Items) ==> Field(t, k) == Field(s, k))
    && SameEnum(Field(s, Enum), Field(t, Enum))
    && (Field(s, Items).Some? <==> Field(t, Items).Some?)
    && (Field(s, Items).Some? ==> SameSchema(Field(s, Items).value, Field(t, Items).value))
    && (SchemaValidator.HasKind(s, ObjectKind) ==>
          && RequiredIn(s).Arr? && RequiredIn(t).Arr?
          && multiset(RequiredIn(s).items) == multiset(RequiredIn(t).items)
          && SameNames(PropertiesIn(s), PropertiesIn(t))
          && forall key :: SchemaValidator.PropertyOf(s, key).Some? ==>
               SchemaValidator.PropertyOf(t, key).Some? &&
               SameSchema(SchemaValidator.PropertyOf(s, key).value, SchemaValidator.PropertyOf(t, key).value))
  }

  /** A keyword that does not belong to the kind is absent from the normalized schema. */
  lemma FieldOutside(s: Json, depth: nat, n: Json, k: Keyword)
    requires NormalizeSchema(s, depth) == Ok(n) && DeclaredKind(s).Ok? && !Framed(k)
    requires !BodyKey(KindIn(s), k)
    ensures Field(n, k).None?
  {
    BodyLookup(s, depth, k);
    BodyHasNone(s, depth, k);
  }

  lemma SupportedStill(s: Json, t: Json, kind: Option<Kind>)
    requires s.Obj? && t.Obj? && NoNewKeys(s, t) && AllSupported(s.members, kind)
    requires DeclaredKind(s) == Ok(kind)
    ensures AllSupported(t.members, kind)
  {
    AllSupportedMeans(s.members, kind);
    AllSupportedMeans(t.members, kind);
    forall m | m in t.members ensures Supported(kind, m.key) {
      if Lookup(s.members, m.key).Some? {
        assert Member(m.key, Lookup(s.members, m.key).value) in s.members;
      } else {
        KindDeclared(s, ObjectKind);
        assert KindKeyword(ObjectKind, Properties) && KindKeyword(ObjectKind, Required);
      }
    }
  }

  lemma ConstraintStill(s: Json, t: Json, kind: Option<Kind>)
    requires Field(t, Const) == Field(s, Const) && SameEnum(Field(s, Enum), Field(t, Enum))
    requires NormalizeConstraint(s, kind).Ok? && !(Field(s, Const).Some? && Field(s, Enum).Some?)
    ensures NormalizeConstraint(t, kind).Ok?
    ensures NormalizedEnum(Field(t, Enum)) == NormalizedEnum(Field(s, Enum))
  {
    if Field(s, Const).None? && Field(s, Enum).Some? && Field(s, Enum) != Field(t, Enum) {
      EnumReordered(Field(s, Enum).value.items, Field(t, Enum).value.items, kind);
    }
  }

  /** What a schema needs in order to be admitted. */
  lemma Admitted(t: Json, depth: nat, kind: Option<Kind>)
    requires t.Obj? && depth <= MAX_DEPTH && !(Field(t, Const).Some? && Field(t, Enum).Some?)
    requires DeclaredKind(t) == Ok(kind) && (kind.Some? || Field(t, Const).Some? || Field(t, Enum).Some?)
    requires AllSupported(t.members, kind) && NormalizeBody(t, kind, depth).Ok?
    requires NormalizeConstraint(t, kind).Ok?
    ensures NormalizeSchema(t, depth).Ok?
  {
  }

  function KeysOf(members: seq<Member>): (r: seq<Text>)
    ensures |r| == |members| && forall i :: 0 <= i < |r| ==> r[i] == members[i].key
  {
    if members == [] then [] else [members[0].key] + KeysOf(members[1..])
  }

  lemma {:induction false} KeysLookup(members: seq<Member>, key: Text)
    ensures key in KeysOf(members) <==> Lookup(members, key).Some?
  {
    if members != [] {
      KeysLookup(members[1..], key);
      assert KeysOf(members) == [members[0].key] + KeysOf(members[1..]);
    }
  }

  lemma SameNamesSize(p: seq<Member>, q: seq<Member>)
    requires SameNames(Obj(p), Obj(q))
    ensures |p| == |q|
  {
    var a, b := KeysOf(p), KeysOf(q);
    DistinctSize(a);
    DistinctSize(b);
    forall key ensures key in a <==> key in b {
      KeysLookup(p, key);
      KeysLookup(q, key);
    }
    assert (set x | x in a) == (set x | x in b);
  }

  lemma ObjectStill(s: Json, t: Json)
    requires RequiredIn(s).Arr? && RequiredIn(t).Arr? && multiset(RequiredIn(s).items) == multiset(RequiredIn(t).items)
    requires SameNames(PropertiesIn(s), PropertiesIn(t)) && Field(t, Additional) == Field(s, Additional)
    requires CheckObject(s, PropertiesIn(s), RequiredIn(s)).Ok?
    ensures CheckObject(t, PropertiesIn(t), RequiredIn(t)).Ok?
    ensures Sort(Texts(RequiredIn(s).items), TextRank) == Sort(Texts(RequiredIn(t).items), TextRank)
  {
    var p, q := PropertiesIn(s).members, PropertiesIn(t).members;
    SameNamesSize(p, q);
    RequiredReordered(RequiredIn(s).items, RequiredIn(t).items);
    NameLengths(p, q);
    forall x | x in RequiredIn(t).items ensures Lookup(q, x.text).Some? {
      assert x in RequiredIn(s).items;
      assert Lookup(p, x.text).Some?;
    }
  }

  lemma NameLengths(p: seq<Member>, q: seq<Member>)
    requires SameNames(Obj(p), Obj(q)) && forall m :: m in p ==> |m.key| <= MAX_STRING
    ensures forall m :: m in q ==> |m.key| <= MAX_STRING
  {
    forall m | m in q ensures |m.key| <= MAX_STRING {
      LookupNone(q, m.key);
      assert Lookup(q, m.key).Some?;
      assert Member(m.key, Lookup(p, m.key).value) in p;
    }
  }

  // ----- Normalizing alike -----

  /** The canonical form of the normalized schema, when the schema is admitted. */
  function CanonicalForm(s: Json, depth: nat): Option<Json> {
    match NormalizeSchema(s, depth)
    case Ok(n) => Some(Canon(n))
    case Err(_) => None
  }

  ghost predicate AdmittedAlike(s: Json, t: Json, depth: nat) {
    CanonicalForm(s, depth).Some? ==> CanonicalForm(t, depth) == CanonicalForm(s, depth)
  }

  lemma PropertiesAlike(p: seq<Member>, q: seq<Member>, depth: nat)
    requires SameNames(Obj(p), Obj(q)) && NormalizeProperties(p, depth).Ok?
    requires forall key :: Lookup(p, key).Some? ==> AdmittedAlike(Lookup(p, key).value, Lookup(q, key).value, depth)
    ensures NormalizeProperties(q, depth).Ok?
    ensures Canon(Obj(NormalizeProperties(q, depth).value)) == Canon(Obj(NormalizeProperties(p, depth).value))
  {
    PropertiesNormalized(p, depth);
    PropertiesNormalized(q, depth);
    forall m | m in q ensures NormalizeSchema(m.value, depth).Ok? {
      LookupMember(q, m);
      NormalizedProperty(p, depth, m.key);
      assert AdmittedAlike(Lookup(p, m.key).value, Lookup(q, m.key).value, depth);
    }
    var np, nq := NormalizeProperties(p, depth).value, NormalizeProperties(q, depth).value;
    forall key ensures CanonOf(Lookup(nq, key)) == CanonOf(Lookup(np, key)) {
      NormalizedProperty(p, depth, key);
      NormalizedProperty(q, depth, key);
      if Lookup(p, key).Some? {
        assert AdmittedAlike(Lookup(p, key).value, Lookup(q, key).value, depth);
      }
    }
    CanonByLookup(nq, np);
  }

  /** The fields that do not depend on the kind come out alike. */
  lemma FrameAlike(s: Json, t: Json, depth: nat, n: Json, w: Json, k: Keyword)
    requires NormalizeSchema(s, depth) == Ok(n) && NormalizeSchema(t, depth) == Ok(w) && SameSchema(s, t)
    requires Framed(k)
    ensures FieldAlike(n, w, k)
  {
    Assembled(s, depth);
    FrameField(s, depth, k);
    FrameField(t, depth, k);
    if k == Enum { ConstraintStill(s, t, KindIn(s)); }
  }

  lemma SameKind(s: Json, t: Json)
    requires SameSchema(s, t)
    ensures DeclaredKind(t) == DeclaredKind(s)
  {
    assert Field(t, Type) == Field(s, Type);
  }

  /** An admitted schema, re-spelled, has an admitted constraint and only supported keys. */
  lemma FrameStill(s: Json, t: Json, depth: nat)
    requires NormalizeSchema(s, depth).Ok? && SameSchema(s, t)
    requires NormalizeBody(t, KindIn(s), depth).Ok?
    ensures NormalizeSchema(t, depth).Ok?
  {
    Assembled(s, depth);
    SameKind(s, t);
    SupportedStill(s, t, KindIn(s));
    ConstraintStill(s, t, KindIn(s));
    Admitted(t, depth, KindIn(s));
  }

  /** The body of an object schema is built once its checks pass and its properties normalize. */
  lemma ObjectBuilt(t: Json, depth: nat)
    requires CheckObject(t, PropertiesIn(t), RequiredIn(t)).Ok?
    requires NormalizeProperties(PropertiesIn(t).members, depth + 1).Ok?
    ensures NormalizeBody(t, Some(ObjectKind), depth).Ok?
  {
  }

  /** When the fields of the kind come out alike, so does the whole schema. */
  lemma AlikeByFields(s: Json, t: Json, depth: nat, n: Json, w: Json)
    requires NormalizeSchema(s, depth) == Ok(n) && NormalizeSchema(t, depth) == Ok(w) && SameSchema(s, t)
    requires DeclaredKind(s).Ok? && forall k :: BodyKey(KindIn(s), k) ==> FieldAlike(n, w, k)
    ensures Canon(n) == Canon(w)
  {
    SameKind(s, t);
    forall k: Keyword ensures FieldAlike(n, w, k) {
      if Framed(k) {
        FrameAlike(s, t, depth, n, w, k);
      } else if !BodyKey(KindIn(s), k) {
        FieldOutside(s, depth, n, k);
        FieldOutside(t, depth, w, k);
      }
    }
    FieldsDecide(s, t, depth, n, w);
  }

  /** The checks an admitted object schema has passed. */
  lemma ObjectAdmitted(s: Json, depth: nat)
    requires NormalizeSchema(s, depth).Ok? && SchemaValidator.HasKind(s, ObjectKind)
    ensures CheckObject(s, PropertiesIn(s), RequiredIn(s)).Ok?
    ensures NormalizeProperties(PropertiesIn(s).members, depth + 1).Ok?
  {
    BodyOfKind(s, depth, ObjectKind);
    ObjectParts(s, depth);
  }

  lemma ObjectStays(s: Json, t: Json, depth: nat)
    requires NormalizeSchema(s, depth).Ok? && SameSchema(s, t) && DeclaredKind(s) == Ok(Some(ObjectKind))
    requires CheckObject(t, PropertiesIn(t), RequiredIn(t)).Ok?
    requires NormalizeProperties(PropertiesIn(t).members, depth + 1).Ok?
    ensures NormalizeSchema(t, depth).Ok?
  {
    ObjectBuilt(t, depth);
    FrameStill(s, t, depth);
  }

  /** The fields of an object body, in terms of its parts. */
  lemma ObjectFieldValues(s: Json, depth: nat, n: Json, p: seq<Member>, np: seq<Member>, r: seq<Json>)
    requires NormalizeSchema(s, depth) == Ok(n) && SchemaValidator.HasKind(s, ObjectKind)
    requires PropertiesIn(s) == Obj(p) && NormalizeProperties(p, depth + 1) == Ok(np)
    requires RequiredIn(s) == Arr(r)
    ensures AllStrings(r)
    ensures Field(n, Properties) == Some(Obj(np))
    ensures Field(n, Required) == Some(Arr(Strings(Sort(Texts(r), TextRank))))
    ensures Field(n, Additional) == Some(Bool(false))
  {
    var _, _, _ := ObjectFields(s, depth, n);
  }

  lemma ObjectAlike(s: Json, t: Json, depth: nat, n: Json, w: Json, np: seq<Member>, nq: seq<Member>, names: Json)
    requires NormalizeSchema(s, depth) == Ok(n) && NormalizeSchema(t, depth) == Ok(w) && SameSchema(s, t)
    requires DeclaredKind(s) == Ok(Some(ObjectKind)) && Canon(Obj(np)) == Canon(Obj(nq))
    requires Field(n, Properties) == Some(Obj(np)) && Field(w, Properties) == Some(Obj(nq))
    requires Field(n, Required) == Field(w, Required) == Some(names)
    requires Field(n, Additional) == Field(w, Additional)
    ensures Canon(n) == Canon(w)
  {
    ObjectKeysAlike(n, w);
    AlikeByFields(s, t, depth, n, w);
  }

  lemma ObjectKeysAlike(n: Json, w: Json)
    requires FieldAlike(n, w, Properties) && FieldAlike(n, w, Required) && FieldAlike(n, w, Additional)
    ensures forall k :: BodyKey(Some(ObjectKind), k) ==> FieldAlike(n, w, k)
  {
  }

  lemma ArrayKeysAlike(n: Json, w: Json)
    requires FieldAlike(n, w, Items) && FieldAlike(n, w, MinItems) && FieldAlike(n, w, MaxItems)
    ensures forall k :: BodyKey(Some(ArrayKind), k) ==> FieldAlike(n, w, k)
  {
  }

  lemma ObjectCaseAlike(s: Json, t: Json, depth: nat, p: seq<Member>, q: seq<Member>, r: seq<Json>, u: seq<Json>)
    requires NormalizeSchema(s, depth).Ok? && SameSchema(s, t) && SchemaValidator.HasKind(s, ObjectKind)
    requires PropertiesIn(s) == Obj(p) && PropertiesIn(t) == Obj(q)
    requires RequiredIn(s) == Arr(r) && RequiredIn(t) == Arr(u)
    requires NormalizeProperties(p, depth + 1).Ok? && NormalizeProperties(q, depth + 1).Ok?
    requires Canon(Obj(NormalizeProperties(q, depth + 1).value)) == Canon(Obj(NormalizeProperties(p, depth + 1).value))
    ensures AdmittedAlike(s, t, depth)
  {
    ObjectAdmitted(s, depth);
    ObjectStill(s, t);
    KindDeclared(s, ObjectKind);
    ObjectStays(s, t, depth);
    assert SchemaValidator.HasKind(t, ObjectKind);
    var n, w := NormalizeSchema(s, depth).value, NormalizeSchema(t, depth).value;
    var np, nq := NormalizeProperties(p, depth + 1).value, NormalizeProperties(q, depth + 1).value;
    ObjectFieldValues(s, depth, n, p, np, r);
    ObjectFieldValues(t, depth, w, q, nq, u);
    ObjectAlike(s, t, depth, n, w, np, nq, Field(n, Required).value);
  }

  lemma FieldStill(s: Json, t: Json, k: Keyword)
    requires SameSchema(s, t) && k != Enum && k != Properties && k != Required && k != Items
    ensures Field(t, k) == Field(s, k)
  {
  }

  lemma BoundByFields(s: Json, t: Json, minimum: Keyword, maximum: Keyword, ceiling: int)
    requires Field(t, minimum) == Field(s, minimum) && Field(t, maximum) == Field(s, maximum)
    ensures BoundError(t, minimum, maximum, ceiling) == BoundError(s, minimum, maximum, ceiling)
  {
  }

  /** Bounds are copied as they are, so a re-spelled schema has the same ones. */
  lemma BoundStill(s: Json, t: Json, minimum: Keyword, maximum: Keyword, ceiling: int)
    requires SameSchema(s, t)
    requires minimum == MinLength || minimum == MinItems
    requires maximum == MaxLength || maximum == MaxItems
    ensures Field(t, minimum) == Field(s, minimum) && Field(t, maximum) == Field(s, maximum)
    ensures BoundError(t, minimum, maximum, ceiling) == BoundError(s, minimum, maximum, ceiling)
  {
    FieldStill(s, t, minimum);
    FieldStill(s, t, maximum);
    BoundByFields(s, t, minimum, maximum, ceiling);
  }

  lemma ArrayBuilt(t: Json, depth: nat)
    requires Field(t, Items).Some? && BoundError(t, MinItems, MaxItems, MAX_ITEMS).Ok?
    requires NormalizeSchema(Field(t, Items).value, depth + 1).Ok?
    ensures NormalizeBody(t, Some(ArrayKind), depth).Ok?
  {
  }

  lemma ArrayStays(s: Json, t: Json, depth: nat)
    requires NormalizeSchema(s, depth).Ok? && SameSchema(s, t) && SchemaValidator.HasKind(s, ArrayKind)
    requires Field(s, Items).Some? ==> AdmittedAlike(Field(s, Items).value, Field(t, Items).value, depth + 1)
    ensures NormalizeSchema(t, depth).Ok?
  {
    BodyOfKind(s, depth, ArrayKind);
    ArrayParts(s, depth);
    BoundStill(s, t, MinItems, MaxItems, MAX_ITEMS);
    ArrayBuilt(t, depth);
    FrameStill(s, t, depth);
  }

  lemma ArrayFieldsAlike(s: Json, t: Json, depth: nat, n: Json, w: Json)
    requires NormalizeSchema(s, depth) == Ok(n) && NormalizeSchema(t, depth) == Ok(w) && SameSchema(s, t)
    requires SchemaValidator.HasKind(s, ArrayKind) && SchemaValidator.HasKind(t, ArrayKind)
    requires Field(s, Items).Some? ==> AdmittedAlike(Field(s, Items).value, Field(t, Items).value, depth + 1)
    ensures FieldAlike(n, w, Items) && FieldAlike(n, w, MinItems) && FieldAlike(n, w, MaxItems)
  {
    ArrayFields(s, depth, n);
    ArrayFields(t, depth, w);
    BoundStill(s, t, MinItems, MaxItems, MAX_ITEMS);
  }

  lemma KindStill(s: Json, t: Json, kind: Kind)
    requires SameSchema(s, t) && SchemaValidator.HasKind(s, kind)
    ensures SchemaValidator.HasKind(t, kind) && DeclaredKind(s) == Ok(Some(kind))
  {
    KindDeclared(s, kind);
  }

  lemma ArrayAlike(s: Json, t: Json, depth: nat)
    requires NormalizeSchema(s, depth).Ok? && SameSchema(s, t) && SchemaValidator.HasKind(s, ArrayKind)
    requires Field(s, Items).Some? ==> AdmittedAlike(Field(s, Items).value, Field(t, Items).value, depth + 1)
    ensures AdmittedAlike(s, t, depth)
  {
    ArrayStays(s, t, depth);
    var n, w := NormalizeSchema(s, depth).value, NormalizeSchema(t, depth).value;
    KindStill(s, t, ArrayKind);
    ArrayFieldsAlike(s, t, depth, n, w);
    ArrayKeysAlike(n, w);
    AlikeByFields(s, t, depth, n, w);
  }

  lemma StringBuilt(t: Json, depth: nat)
    requires BoundError(t, MinLength, MaxLength, MAX_STRING).Ok?
    ensures NormalizeBody(t, Some(StringKind), depth).Ok?
  {
  }

  lemma StringStays(s: Json, t: Json, depth: nat)
    requires NormalizeSchema(s, depth).Ok? && SameSchema(s, t) && SchemaValidator.HasKind(s, StringKind)
    ensures NormalizeSchema(t, depth).Ok?
  {
    BodyOfKind(s, depth, StringKind);
    StringParts(s, depth);
    BoundStill(s, t, MinLength, MaxLength, MAX_STRING);
    StringBuilt(t, depth);
    FrameStill(s, t, depth);
  }

  lemma StringKeysAlike(n: Json, w: Json)
    requires FieldAlike(n, w, MinLength) && FieldAlike(n, w, MaxLength)
    ensures forall k :: BodyKey(Some(StringKind), k) ==> FieldAlike(n, w, k)
  {
  }

  lemma StringFieldsAlike(s: Json, t: Json, depth: nat, n: Json, w: Json)
    requires NormalizeSchema(s, depth) == Ok(n) && NormalizeSchema(t, depth) == Ok(w) && SameSchema(s, t)
    requires SchemaValidator.HasKind(s, StringKind) && SchemaValidator.HasKind(t, StringKind)
    ensures forall k :: BodyKey(Some(StringKind), k) ==> FieldAlike(n, w, k)
  {
    StringFields(s, depth, n);
    StringFields(t, depth, w);
    BoundStill(s, t, MinLength, MaxLength, MAX_STRING);
    StringKeysAlike(n, w);
  }

  lemma StringAlike(s: Json, t: Json, depth: nat)
    requires NormalizeSchema(s, depth).Ok? && SameSchema(s, t) && SchemaValidator.HasKind(s, StringKind)
    ensures AdmittedAlike(s, t, depth)
  {
    StringStays(s, t, depth);
    var n, w := NormalizeSchema(s, depth).value, NormalizeSchema(t, depth).value;
    KindStill(s, t, StringKind);
    StringFieldsAlike(s, t, depth, n, w);
    AlikeByFields(s, t, depth, n, w);
  }

  lemma PlainBody(l: Json, kind: Option<Kind>, depth: nat)
    requires !BodyKey(kind, Properties) && !BodyKey(kind, Items) && !BodyKey(kind, MinLength)
    ensures NormalizeBody(l, kind, depth).Ok?
  {
  }

  lemma NoBodyKeys(kind: Option<Kind>)
    requires kind != Some(ObjectKind) && kind != Some(ArrayKind) && kind != Some(StringKind)
    ensures forall k :: !BodyKey(kind, k)
  {
  }

  lemma PlainAlike(s: Json, t: Json, depth: nat)
    requires NormalizeSchema(s, depth).Ok? && SameSchema(s, t)
    requires DeclaredKind(s).Ok? && KindIn(s) !in {Some(ObjectKind), Some(ArrayKind), Some(StringKind)}
    ensures AdmittedAlike(s, t, depth)
  {
    NoBodyKeys(KindIn(s));
    PlainBody(t, KindIn(s), depth);
    FrameStill(s, t, depth);
    AlikeByFields(s, t, depth, NormalizeSchema(s, depth).value, NormalizeSchema(t, depth).value);
  }

  /** Properties of one name are re-spelled alike. */
  lemma PropertyRespelled(s: Json, t: Json, p: seq<Member>, q: seq<Member>, key: Text)
    requires SameSchema(s, t) && SchemaValidator.HasKind(s, ObjectKind)
    requires PropertiesIn(s) == Obj(p) && PropertiesIn(t) == Obj(q) && Lookup(p, key).Some?
    ensures Lookup(q, key).Some? && SameSchema(Lookup(p, key).value, Lookup(q, key).value)
    ensures Lookup(p, key).value < s
  {
    assert SchemaValidator.PropertyOf(s, key).Some?;
  }

  /** An admitted schema, re-spelled, is admitted with the same canonical form. */
  lemma {:induction false} RespelledAdmitted(s: Json, t: Json, depth: nat)
    requires SameSchema(s, t)
    ensures AdmittedAlike(s, t, depth)
    decreases s
  {
    if NormalizeSchema(s, depth).Ok? {
      Assembled(s, depth);
      match KindIn(s)
      case Some(ObjectKind) =>
        var p, q := PropertiesIn(s).members, PropertiesIn(t).members;
        forall key | Lookup(p, key).Some?
          ensures AdmittedAlike(Lookup(p, key).value, Lookup(q, key).value, depth + 1)
        {
          PropertyRespelled(s, t, p, q, key);
          RespelledAdmitted(Lookup(p, key).value, Lookup(q, key).value, depth + 1);
        }
        ObjectAdmitted(s, depth);
        PropertiesAlike(p, q, depth + 1);
        ObjectCaseAlike(s, t, depth, p, q, RequiredIn(s).items, RequiredIn(t).items);
      case Some(ArrayKind) =>
        if Field(s, Items).Some? {
          RespelledAdmitted(Field(s, Items).value, Field(t, Items).value, depth + 1);
        }
        ArrayAlike(s, t, depth);
      case Some(StringKind) => StringAlike(s, t, depth);
      case _ => PlainAlike(s, t, depth);
    }
  }

  /** Differing only in spelling goes both ways. */
  lemma {:induction false} SameSchemaSymmetric(s: Json, t: Json)
    requires SameSchema(s, t)
    ensures SameSchema(t, s)
    decreases s
  {
    if Field(s, Items).Some? {
      SameSchemaSymmetric(Field(s, Items).value, Field(t, Items).value);
    }
    if SchemaValidator.HasKind(s, ObjectKind) {
      forall key | SchemaValidator.PropertyOf(t, key).Some?
        ensures SchemaValidator.PropertyOf(s, key).Some?
        ensures SameSchema(SchemaValidator.PropertyOf(t, key).value, SchemaValidator.PropertyOf(s, key).value)
      {
        PropertyStill(t, s, key);
        SameSchemaSymmetric(SchemaValidator.PropertyOf(s, key).value, SchemaValidator.PropertyOf(t, key).value);
      }
    }
  }

  lemma PropertyStill(s: Json, t: Json, key: Text)
    requires SameNames(PropertiesIn(s), PropertiesIn(t)) && SchemaValidator.PropertyOf(s, key).Some?
    ensures SchemaValidator.PropertyOf(t, key).Some?
  {
    assert Lookup(PropertiesIn(s).members, key).Some?;
  }

  /**
   Two schemas that differ only in spelling are admitted alike: both are refused, or both are
   admitted with one canonical form, hence identical canonical bytes.
   */
  lemma SpellingDoesNotMatter(s: Json, t: Json, depth: nat)
    requires SameSchema(s, t)
    ensures CanonicalForm(s, depth) == CanonicalForm(t, depth)
  {
    RespelledAdmitted(s, t, depth);
    SameSchemaSymmetric(s, t);
    RespelledAdmitted(t, s, depth);
  }
}
