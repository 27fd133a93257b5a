/**
 Which schemas are admitted, read off the members of the schema as it was written.

 `WellFormed` is the closed subset in plain terms: what keys a node may have, what their values must be, and
 the same for the schemas inside. Normalization admits exactly the well-formed schemas.
 */
module SchemaWellFormed {
  import opened Basics
  import opened Json
  import opened JsonCanonical
  import opened JsonText
  import opened Ordering
  import opened Schema
  import opened SchemaAgreement
  import opened SchemaCanonical
  import SchemaValidator

  // ----- Well-formed schemas -----

  ghost predicate Has(members: seq<Member>, k: Keyword, v: Json) {
    Member(Key(k), v) in members
  }

  ghost predicate HasKey(members: seq<Member>, k: Keyword) {
    exists v :: Has(members, k, v)
  }

  /** The declared type, or no type at all. */
  ghost predicate Typed(members: seq<Member>, kind: Option<Kind>) {
    match kind
    case None => !HasKey(members, Type)
    case Some(t) => Has(members, Type, Str(KindText(t)))
  }

  /** The keywords of each kind, and the value constraints of all. */
  predicate Allowed(kind: Option<Kind>, k: Keyword) {
    match k
    case Const => true
    case Enum => true
    case Type => kind.Some?
    case Properties => kind == Some(ObjectKind)
    case Required => kind == Some(ObjectKind)
    case Additional => kind == Some(ObjectKind)
    case Items => kind == Some(ArrayKind)
    case MinItems => kind == Some(ArrayKind)
    case MaxItems => kind == Some(ArrayKind)
    case MinLength => kind == Some(StringKind)
    case MaxLength => kind == Some(StringKind)
  }

  ghost predicate OnlyAllowed(members: seq<Member>, kind: Option<Kind>) {
    forall m :: m in members ==> exists k :: Allowed(kind, k) && m.key == Key(k)
  }

  /** A finite scalar of the kind, its text within the ceiling. */
  predicate ScalarOf(kind: Option<Kind>, v: Json) {
    match v
    case Null => kind.None? || kind == Some(NullKind)
    case Bool(_) => kind.None? || kind == Some(BooleanKind)
    case Int(_) => kind.None? || kind == Some(IntegerKind) || kind == Some(NumberKind)
    case Float(_) => kind.None? || kind == Some(NumberKind)
    case Str(text) => (kind.None? || kind == Some(StringKind)) && |text| <= MAX_STRING
    case _ => false
  }

  /** Between 1 and 64 scalars of the kind, with different canonical texts. */
  ghost predicate EnumOf(kind: Option<Kind>, v: Json) {
    && v.Arr? && 1 <= |v.items| <= 64 && (forall x :: x in v.items ==> ScalarOf(kind, x))
    && forall i, j :: 0 <= i < j < |v.items| ==> Canonical(v.items[i]) != Canonical(v.items[j])
  }

  /** At most one value constraint, and an admissible one; without a type there is one. */
  ghost predicate Constrained(members: seq<Member>, kind: Option<Kind>) {
    && !(HasKey(members, Const) && HasKey(members, Enum))
    && (kind.None? ==> HasKey(members, Const) || HasKey(members, Enum))
    && (forall v :: Has(members, Const, v) ==> ScalarOf(kind, v))
    && (forall v :: Has(members, Enum, v) ==> EnumOf(kind, v))
  }

  /** 0 <= minimum <= maximum <= ceiling, where either may be absent. */
  ghost predicate Bounded(members: seq<Member>, minimum: Keyword, maximum: Keyword, ceiling: int) {
    && (forall v :: Has(members, minimum, v) ==> v.Int? && 0 <= v.n <= ceiling)
    && (forall v :: Has(members, maximum, v) ==> v.Int? && 0 <= v.n <= ceiling)
    && (forall v, w :: Has(members, minimum, v) && Has(members, maximum, w) && v.Int? && w.Int? ==> v.n <= w.n)
  }

  /** Some property has this name. */
  ghost predicate Names(members: seq<Member>, name: Text) {
    exists p, m :: Has(members, Properties, p) && p.Obj? && m in p.members && m.key == name
  }

  /** A closed object: nothing but the declared properties, and the required names among them. */
  ghost predicate ClosedObject(members: seq<Member>) {
    && Has(members, Additional, Bool(false))
    && (forall p :: Has(members, Properties, p) ==>
          p.Obj? && |p.members| <= MAX_PROPERTIES && forall m :: m in p.members ==> |m.key| <= MAX_STRING)
    && (forall r :: Has(members, Required, r) ==>
          r.Arr? && Distinct(r.items) && forall x :: x in r.items ==> x.Str? && Names(members, x.text))
  }

  /** The schema `s` belongs to the closed subset and nests at most `levels` schemas. */
  ghost predicate WellFormed(s: Json, levels: int)
    decreases s, 0
  {
    levels > 0 &&
    match s
    case Obj(members) =>
      exists kind :: Typed(members, kind) && OnlyAllowed(members, kind) && Constrained(members, kind) &&
                     BodyWellFormed(members, kind, levels - 1)
    case _ => false
  }

  /** What the kind asks of its own keywords, with at most `levels` schemas nested inside. */
  ghost predicate BodyWellFormed(members: seq<Member>, kind: Option<Kind>, levels: int)
    decreases members, 1
  {
    && (kind == Some(ObjectKind) ==>
          && ClosedObject(members)
          && forall m :: m in members && m.key == Key(Properties) ==> PropertiesWellFormed(m.value, levels))
    && (kind == Some(ArrayKind) ==>
          && HasKey(members, Items) && Bounded(members, MinItems, MaxItems, MAX_ITEMS)
          && forall m :: m in members && m.key == Key(Items) ==> WellFormed(m.value, levels))
    && (kind == Some(StringKind) ==> Bounded(members, MinLength, MaxLength, MAX_STRING))
  }

  ghost predicate PropertiesWellFormed(p: Json, levels: int)
    decreases p, 0
  {
    match p
    case Obj(members) => forall m :: m in members ==> WellFormed(m.value, levels)
    case _ => true
  }

  // ----- Looking members up -----

  lemma FieldHas(members: seq<Member>, k: Keyword, v: Json)
    requires NoDuplicates(members)
    ensures Field(Obj(members), k) == Some(v) <==> Has(members, k, v)
  {
    if Has(members, k, v) { LookupMember(members, Member(Key(k), v)); }
  }

  lemma FieldHasKey(members: seq<Member>, k: Keyword)
    requires NoDuplicates(members)
    ensures Field(Obj(members), k).Some? <==> HasKey(members, k)
    ensures Field(Obj(members), k).Some? ==> Has(members, k, Field(Obj(members), k).value)
    ensures forall v :: Has(members, k, v) ==> Field(Obj(members), k) == Some(v)
  {
    forall v ensures Field(Obj(members), k) == Some(v) <==> Has(members, k, v) { FieldHas(members, k, v); }
    var f := Field(Obj(members), k);
    if f.Some? { assert Has(members, k, f.value); }
  }

  // ----- The checks, one by one -----

  lemma SupportedExact(kind: Option<Kind>, key: Text)
    ensures Supported(kind, key) <==> exists k :: Allowed(kind, k) && key == Key(k)
  {
    if Supported(kind, key) {
      if key == Key(Const) {
        assert Allowed(kind, Const);
      } else if key == Key(Enum) {
        assert Allowed(kind, Enum);
      } else {
        var k :| KindKeyword(kind.value, k) && key == Key(k);
        assert Allowed(kind, k);
      }
    }
    if k :| Allowed(kind, k) && key == Key(k) {
      if k != Const && k != Enum { assert KindKeyword(kind.value, k); }
    }
  }

  lemma OnlyAllowedExact(members: seq<Member>, kind: Option<Kind>)
    ensures AllSupported(members, kind) <==> OnlyAllowed(members, kind)
  {
    AllSupportedMeans(members, kind);
    forall m | m in members
      ensures Supported(kind, m.key) <==> exists k :: Allowed(kind, k) && m.key == Key(k)
    {
      SupportedExact(kind, m.key);
    }
  }

  lemma ScalarExact(kind: Option<Kind>, v: Json)
    ensures ScalarAdmitted(v, kind) <==> ScalarOf(kind, v)
  {
  }

  lemma EnumExact(kind: Option<Kind>, values: seq<Json>)
    ensures EnumAdmitted(values, kind) <==> EnumOf(kind, Arr(values))
  {
    DistinctTexts(values);
    forall v ensures ScalarAdmitted(v, kind) <==> ScalarOf(kind, v) { ScalarExact(kind, v); }
    if ScalarsAdmitted(values, kind) {
      forall x | x in values ensures ScalarOf(kind, x) {
        var i :| 0 <= i < |values| && values[i] == x;
      }
    }
    if forall x :: x in values ==> ScalarOf(kind, x) {
      forall i | 0 <= i < |values| ensures ScalarAdmitted(values[i], kind) { assert values[i] in values; }
    }
  }

  lemma ConstraintExact(members: seq<Member>, kind: Option<Kind>)
    requires NoDuplicates(members) && !(HasKey(members, Const) && HasKey(members, Enum))
    ensures NormalizeConstraint(Obj(members), kind).Ok? <==>
            (forall v :: Has(members, Const, v) ==> ScalarOf(kind, v)) &&
            (forall v :: Has(members, Enum, v) ==> EnumOf(kind, v))
  {
    var s := Obj(members);
    FieldHasKey(members, Const);
    FieldHasKey(members, Enum);
    if Field(s, Const).Some? {
      ScalarExact(kind, Field(s, Const).value);
    } else if Field(s, Enum).Some? && Field(s, Enum).value.Arr? {
      EnumExact(kind, Field(s, Enum).value.items);
    }
  }

  lemma BoundExact(members: seq<Member>, minimum: Keyword, maximum: Keyword, ceiling: nat)
    requires NoDuplicates(members)
    ensures BoundError(Obj(members), minimum, maximum, ceiling).Ok? <==> Bounded(members, minimum, maximum, ceiling)
  {
    FieldHasKey(members, minimum);
    FieldHasKey(members, maximum);
  }

  lemma NamesExact(members: seq<Member>, p: Json, name: Text)
    requires NoDuplicates(members) && p.Obj? && PropertiesIn(Obj(members)) == p
    ensures Names(members, name) <==> Lookup(p.members, name).Some?
  {
    FieldHasKey(members, Properties);
    LookupNone(p.members, name);
    if Lookup(p.members, name).Some? {
      assert Has(members, Properties, p) && Member(name, Lookup(p.members, name).value) in p.members;
    }
  }

  lemma RequiredExact(members: seq<Member>, p: seq<Member>, items: seq<Json>)
    requires NoDuplicates(members) && PropertiesIn(Obj(members)) == Obj(p)
    ensures (AllStrings(items) && AllDeclared(items, p)) <==>
            forall x :: x in items ==> x.Str? && Names(members, x.text)
  {
    forall x | x in items && x.Str? ensures Names(members, x.text) <==> Lookup(p, x.text).Some? {
      NamesExact(members, Obj(p), x.text);
    }
  }

  lemma ObjectExact(members: seq<Member>)
    requires NoDuplicates(members)
    ensures CheckObject(Obj(members), PropertiesIn(Obj(members)), RequiredIn(Obj(members))).Ok? <==>
            ClosedObject(members)
  {
    var s := Obj(members);
    var p, r := PropertiesIn(s), RequiredIn(s);
    FieldHas(members, Additional, Bool(false));
    FieldHasKey(members, Properties);
    FieldHasKey(members, Required);
    if p.Obj? && r.Arr? { RequiredExact(members, p.members, r.items); }
  }

  lemma TypeExact(members: seq<Member>, kind: Option<Kind>)
    requires NoDuplicates(members) && AllSupported(members, kind)
    ensures DeclaredKind(Obj(members)) == Ok(kind) <==> Typed(members, kind)
  {
    var s := Obj(members);
    FieldHasKey(members, Type);
    if kind.Some? {
      KindOfText(kind.value);
      FieldHas(members, Type, Str(KindText(kind.value)));
    } else {
      AllSupportedMeans(members, kind);
      NullTypeUnsupported();
    }
  }

  // ----- Admitted exactly -----

  /** The schemas inside are admitted exactly when they are well formed. */
  ghost predicate InnerExact(members: seq<Member>, depth: nat) {
    && (forall m :: m in members && m.key == Key(Items) ==> AdmittedExactly(m.value, depth + 1))
    && (forall m, q :: m in members && m.key == Key(Properties) && m.value.Obj? && q in m.value.members ==>
          AdmittedExactly(q.value, depth + 1))
  }

  ghost predicate AdmittedExactly(s: Json, depth: nat) {
    NormalizeSchema(s, depth).Ok? <==> WellFormed(s, MAX_DEPTH + 1 - depth)
  }

  lemma PropertiesExact(members: seq<Member>, p: seq<Member>, depth: nat)
    requires NoDuplicates(members) && InnerExact(members, depth) && PropertiesIn(Obj(members)) == Obj(p)
    ensures NormalizeProperties(p, depth + 1).Ok? <==>
            forall m :: m in members && m.key == Key(Properties) ==>
              PropertiesWellFormed(m.value, MAX_DEPTH - depth)
  {
    PropertiesNormalized(p, depth + 1);
    FieldHasKey(members, Properties);
    if Field(Obj(members), Properties).Some? {
      var m := Member(Key(Properties), Obj(p));
      assert m in members;
      forall q | q in p
        ensures NormalizeSchema(q.value, depth + 1).Ok? <==> WellFormed(q.value, MAX_DEPTH - depth)
      {
        assert q in m.value.members;
        assert AdmittedExactly(q.value, depth + 1);
      }
      assert forall n :: n in members && n.key == Key(Properties) ==> Has(members, Properties, n.value);
    } else {
      forall n | n in members ensures n.key != Key(Properties) {
        assert !Has(members, Properties, n.value);
      }
    }
  }

  lemma ObjectBodyChecks(s: Json, depth: nat)
    requires CheckObject(s, PropertiesIn(s), RequiredIn(s)).Ok?
    ensures NormalizeBody(s, Some(ObjectKind), depth).Ok? <==>
            NormalizeProperties(PropertiesIn(s).members, depth + 1).Ok?
  {
  }

  lemma ObjectBodyExact(members: seq<Member>, depth: nat)
    requires NoDuplicates(members) && InnerExact(members, depth)
    ensures NormalizeBody(Obj(members), Some(ObjectKind), depth).Ok? <==>
            BodyWellFormed(members, Some(ObjectKind), MAX_DEPTH - depth)
  {
    var s := Obj(members);
    ObjectExact(members);
    FieldHasKey(members, Properties);
    if CheckObject(s, PropertiesIn(s), RequiredIn(s)).Ok? {
      PropertiesExact(members, PropertiesIn(s).members, depth);
      ObjectBodyChecks(s, depth);
    }
  }

  lemma ArrayBodyExact(members: seq<Member>, depth: nat)
    requires NoDuplicates(members) && InnerExact(members, depth)
    ensures NormalizeBody(Obj(members), Some(ArrayKind), depth).Ok? <==>
            BodyWellFormed(members, Some(ArrayKind), MAX_DEPTH - depth)
  {
    var s := Obj(members);
    FieldHasKey(members, Items);
    BoundExact(members, MinItems, MaxItems, MAX_ITEMS);
    if Field(s, Items).Some? {
      assert Member(Key(Items), Field(s, Items).value) in members;
      assert AdmittedExactly(Field(s, Items).value, depth + 1);
    }
  }

  lemma BodyExact(members: seq<Member>, kind: Option<Kind>, depth: nat)
    requires NoDuplicates(members) && InnerExact(members, depth)
    ensures NormalizeBody(Obj(members), kind, depth).Ok? <==> BodyWellFormed(members, kind, MAX_DEPTH - depth)
  {
    match kind
    case Some(ObjectKind) => ObjectBodyExact(members, depth);
    case Some(ArrayKind) => ArrayBodyExact(members, depth);
    case Some(StringKind) => BoundExact(members, MinLength, MaxLength, MAX_STRING);
    case _ =>
  }

  /** One node of the given kind. */
  lemma NodeExact(members: seq<Member>, kind: Option<Kind>, depth: nat)
    requires NoDuplicates(members) && InnerExact(members, depth) && depth <= MAX_DEPTH
    requires Typed(members, kind) && OnlyAllowed(members, kind)
    ensures NormalizeSchema(Obj(members), depth).Ok? <==>
            Constrained(members, kind) && BodyWellFormed(members, kind, MAX_DEPTH - depth)
  {
    var s := Obj(members);
    OnlyAllowedExact(members, kind);
    TypeExact(members, kind);
    BodyExact(members, kind, depth);
    FieldHasKey(members, Const);
    FieldHasKey(members, Enum);
    if !(HasKey(members, Const) && HasKey(members, Enum)) { ConstraintExact(members, kind); }
    if NormalizeSchema(s, depth).Ok? {
      Assembled(s, depth);
    } else if Constrained(members, kind) && BodyWellFormed(members, kind, MAX_DEPTH - depth) {
      Admitted(s, depth, kind);
    }
  }

  /** A node is admitted exactly when it is well formed, given that for the schemas inside. */
  lemma NodeDecides(members: seq<Member>, depth: nat)
    requires NoDuplicates(members) && InnerExact(members, depth) && depth <= MAX_DEPTH
    ensures AdmittedExactly(Obj(members), depth)
  {
    var s := Obj(members);
    if NormalizeSchema(s, depth).Ok? {
      Assembled(s, depth);
      OnlyAllowedExact(members, KindIn(s));
      TypeExact(members, KindIn(s));
      NodeExact(members, KindIn(s), depth);
    } else if kind: Option<Kind> :| Typed(members, kind) && OnlyAllowed(members, kind) &&
                                    Constrained(members, kind) && BodyWellFormed(members, kind, MAX_DEPTH - depth) {
      NodeExact(members, kind, depth);
    }
  }

  lemma {:induction false} ByParts(s: Json, depth: nat)
    requires Dicts(s)
    ensures AdmittedExactly(s, depth)
    decreases s, 1
  {
    if s.Obj? && depth <= MAX_DEPTH {
      InnerByParts(s.members, depth);
      NodeDecides(s.members, depth);
    }
  }

  lemma {:induction false} InnerByParts(members: seq<Member>, depth: nat)
    requires Dicts(Obj(members))
    ensures InnerExact(members, depth)
    decreases members, 2
  {
    forall m | m in members && m.key == Key(Items) ensures AdmittedExactly(m.value, depth + 1) {
      ByParts(m.value, depth + 1);
    }
    forall m, q | m in members && m.key == Key(Properties) && m.value.Obj? && q in m.value.members
      ensures AdmittedExactly(q.value, depth + 1)
    {
      assert Dicts(m.value);
      ByParts(q.value, depth + 1);
    }
  }

  /** Normalization admits exactly the well-formed schemas, at any depth. */
  lemma WellFormedExactly(s: Json, depth: nat)
    requires Dicts(s)
    ensures NormalizeSchema(s, depth).Ok? <==> WellFormed(s, MAX_DEPTH + 1 - depth)
  {
    ByParts(s, depth);
  }
}
