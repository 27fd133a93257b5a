/**
 A schema that is admitted, and yet rejected by its own digest when it is pinned in a requirement.

 It is an object schema with two properties, one named by a surrogate pair and one by U+E000. Their order
 as written is not the order of the names once the pair is merged, so the schema loaded back from the
 canonical text is canonicalized to another text than the one its digest was taken of. The canonical
 text is short, so that nothing else can be the reason of the rejection.
 */
module SchemaDisordered {
  import opened Basics
  import opened Json
  import opened JsonCanonical
  import opened JsonRoundTrip
  import opened JsonText
  import opened Ordering
  import opened Schema
  import opened SchemaAdmission
  import opened SchemaAgreement
  import opened SchemaCanonical
  import opened SchemaNames
  import opened SchemaPinning

  /** `{"const": null}`. */
  function NullOnly(): Json { Obj([Member(Key(Const), Null)]) }

  /** Two properties, named by a lone surrogate pair and by U+E000. */
  function TwoNames(): seq<Member> {
    [Member([0xD83D, 0xDE00], NullOnly()), Member([0xE000], NullOnly())]
  }

  function Disordered(): Json {
    Obj([Member(Key(Type), Str(KindText(ObjectKind))),
         Member(Key(Additional), Bool(false)),
         Member(Key(Properties), Obj(TwoNames()))])
  }

  lemma NullOnlyField(k: Keyword)
    ensures Field(NullOnly(), k) == if k == Const then Some(Null) else None
  {
    KeysDiffer(Const, k);
  }

  lemma NullOnlyAdmitted(depth: nat)
    requires depth <= MAX_DEPTH
    ensures NormalizeSchema(NullOnly(), depth).Ok?
  {
    NullOnlyField(Type);
    NullOnlyField(Const);
    NullOnlyField(Enum);
    AllSupportedMeans(NullOnly().members, None);
    Admitted(NullOnly(), depth, None);
  }

  lemma DisorderedField(k: Keyword)
    ensures Field(Disordered(), k) ==
            if k == Type then Some(Str(KindText(ObjectKind)))
            else if k == Additional then Some(Bool(false))
            else if k == Properties then Some(Obj(TwoNames())) else None
  {
    KeysDiffer(Type, k);
    KeysDiffer(Additional, k);
    KeysDiffer(Properties, k);
    var m := Disordered().members;
    assert Lookup(m[1..], Key(k)) == if m[1].key == Key(k) then Some(m[1].value) else Lookup(m[1..][1..], Key(k));
    assert m[1..][1..] == [m[2]];
  }

  lemma TwoNamesAdmitted()
    ensures NormalizeProperties(TwoNames(), 2).Ok?
  {
    NullOnlyAdmitted(2);
    forall m | m in TwoNames() ensures NormalizeSchema(m.value, 2).Ok? {
      assert m.value == NullOnly();
    }
    PropertiesNormalized(TwoNames(), 2);
  }

  lemma TwoNamesChecked(s: Json)
    requires Field(s, Additional) == Some(Bool(false))
    ensures CheckObject(s, Obj(TwoNames()), Arr([])).Ok?
  {
    assert NamesFit(TwoNames());
    CheckPassed(s, TwoNames(), []);
  }

  lemma DisorderedParts()
    ensures PropertiesIn(Disordered()) == Obj(TwoNames()) && RequiredIn(Disordered()) == Arr([])
    ensures Field(Disordered(), Additional) == Some(Bool(false))
  {
    DisorderedField(Additional);
    DisorderedField(Properties);
    DisorderedField(Required);
  }

  lemma DisorderedBody()
    ensures NormalizeBody(Disordered(), Some(ObjectKind), 1).Ok?
  {
    var s := Disordered();
    DisorderedParts();
    TwoNamesAdmitted();
    TwoNamesChecked(s);
    ObjectBuilt(s, 1);
  }

  lemma DisorderedKeys()
    ensures AllSupported(Disordered().members, Some(ObjectKind))
  {
    AllSupportedMeans(Disordered().members, Some(ObjectKind));
    assert KindKeyword(ObjectKind, Type) && KindKeyword(ObjectKind, Additional) && KindKeyword(ObjectKind, Properties);
  }

  lemma DisorderedAdmitted()
    ensures NormalizeSchema(Disordered(), 1).Ok?
  {
    var s := Disordered();
    DisorderedField(Type);
    DisorderedField(Const);
    DisorderedField(Enum);
    KindDeclared(s, ObjectKind);
    DisorderedBody();
    DisorderedKeys();
    Admitted(s, 1, Some(ObjectKind));
  }

  /** Such a schema exists: admitted by normalization, yet its names do not keep their order. */
  lemma DisorderedNames()
    ensures NormalizeSchema(Disordered(), 1).Ok? && !NamesKeepOrder(Disordered())
  {
    DisorderedAdmitted();
    DisorderedField(Type);
    DisorderedField(Properties);
    var p := TwoNames();
    var a, b: Text := p[0].key, p[1].key;
    LookupNone(p, a);
    LookupNone(p, b);
    assert p[0] in p && p[1] in p;
    assert Lookup(p, a).Some? && Lookup(p, b).Some? && Less(a, b);
    assert a[2..] == [];
    assert Merge(a) == [Join(0xD83D, 0xDE00)];
    MergeFixed(b);
    assert !KeepsOrder(a, b);
  }

  // ----- Its canonical text is short -----

  lemma PointLength(c: CodePoint)
    ensures |EscapePoint(c)| <= 12
  {
  }

  lemma {:induction false} QuotedLength(t: Text)
    ensures |Quoted(t)| <= 12 * |t| + 1
  {
    if t != [] {
      PointLength(t[0]);
      QuotedFront(t, "");
      QuotedLength(t[1..]);
      assert Quoted(t) + "" == Quoted(t) && Quoted(t[1..]) + "" == Quoted(t[1..]);
    }
  }

  /** Keys of at most `key` code points, values of at most `size` characters. */
  ghost predicate Short(members: seq<Member>, key: nat, size: nat) {
    forall m :: m in members ==> |m.key| <= key && |Render(Canon(m.value))| <= size
  }

  ghost predicate ShortTexts(members: seq<Member>, key: nat, size: nat) {
    forall m :: m in members ==> |m.key| <= key && |Render(m.value)| <= size
  }

  lemma MemberLength(m: Member, tail: string, key: nat, size: nat)
    requires |m.key| <= key && |Render(m.value)| <= size
    ensures |MemberText(Quoted(m.key), Render(m.value), tail)| <= 12 * key + size + 3 + |tail|
  {
    QuotedLength(m.key);
  }

  lemma {:induction false} MembersLength(members: seq<Member>, key: nat, size: nat, each: nat)
    requires members != [] && ShortTexts(members, key, size) && each == 12 * key + size + 4
    ensures |MembersText(members)| <= |members| * each
  {
    assert members[0] in members;
    if |members| == 1 {
      MemberLength(members[0], ['}'], key, size);
    } else {
      var rest := members[1..];
      assert forall m :: m in rest ==> m in members;
      MembersLength(rest, key, size, each);
      MemberLength(members[0], [','] + MembersText(rest), key, size);
      OneMore(|rest|, each);
    }
  }

  lemma OneMore(n: nat, each: nat)
    ensures (n + 1) * each == n * each + each
  {
  }

  lemma CanonLength(members: seq<Member>, key: nat, size: nat, each: nat)
    requires Short(members, key, size) && each == 12 * key + size + 4
    ensures |Render(Canon(Obj(members)))| <= 2 + |members| * each
  {
    var sorted := Canon(Obj(members)).members;
    CanonMember(members);
    assert |sorted| == |members|;
    forall c | c in sorted ensures |c.key| <= key && |Render(c.value)| <= size {
      var i :| 0 <= i < |members| && c == Member(members[i].key, Canon(members[i].value));
      assert members[i] in members;
    }
    if sorted != [] {
      MembersLength(sorted, key, size, each);
    }
  }

  lemma NullOnlyNormalized(depth: nat)
    requires depth <= MAX_DEPTH
    ensures NormalizeSchema(NullOnly(), depth) == Ok(NullOnly())
  {
    NullOnlyAdmitted(depth);
    NullOnlyField(Type);
    NullOnlyField(Const);
    Assembled(NullOnly(), depth);
    assert NormalizeBody(NullOnly(), None, depth) == Ok([]);
    assert NormalizeConstraint(NullOnly(), None) == Ok([Member(Key(Const), Null)]);
    assert [] + [] + [Member(Key(Const), Null)] == [Member(Key(Const), Null)];
  }

  lemma KeysShort(k: Keyword)
    ensures |Key(k)| <= 20
  {
  }

  lemma NullOnlyShort()
    ensures |Render(Canon(NullOnly()))| <= 250
  {
    var members := NullOnly().members;
    KeysShort(Const);
    assert Render(Canon(Null)) == "null";
    assert Short(members, 20, 4);
    CanonLength(members, 20, 4, 248);
  }

  lemma PropertiesStep(members: seq<Member>, depth: nat, first: Json, rest: seq<Member>)
    requires members != [] && NormalizeSchema(members[0].value, depth) == Ok(first)
    requires NormalizeProperties(members[1..], depth) == Ok(rest)
    ensures NormalizeProperties(members, depth) == Ok([Member(members[0].key, first)] + rest)
  {
  }

  lemma NoProperties(depth: nat)
    ensures NormalizeProperties([], depth) == Ok([])
  {
  }

  lemma PairNormalized(members: seq<Member>, rest: seq<Member>, depth: nat, first: Json, second: Json)
    requires |members| == 2 && rest == members[1..]
    requires NormalizeSchema(members[0].value, depth) == Ok(first)
    requires NormalizeSchema(rest[0].value, depth) == Ok(second)
    ensures NormalizeProperties(members, depth) == Ok([Member(members[0].key, first), Member(rest[0].key, second)])
  {
    NoProperties(depth);
    assert rest[1..] == [];
    PropertiesStep(rest, depth, second, []);
    var a, b := Member(members[0].key, first), Member(rest[0].key, second);
    assert [b] + [] == [b];
    PropertiesStep(members, depth, first, [b]);
    assert [a] + [b] == [a, b];
  }

  lemma TwoNamesNormalized()
    ensures NormalizeProperties(TwoNames(), 2) == Ok(TwoNames())
  {
    NullOnlyNormalized(2);
    PairNormalized(TwoNames(), TwoNames()[1..], 2, NullOnly(), NullOnly());
  }

  lemma TwoNamesShort()
    ensures |Render(Canon(Obj(TwoNames())))| <= 600
  {
    NullOnlyShort();
    assert Short(TwoNames(), 2, 250);
    CanonLength(TwoNames(), 2, 250, 278);
  }

  /** The normalized schema: the type and the object body. */
  function Normalized(): seq<Member> {
    [Member(Key(Type), Str(KindText(ObjectKind)))] + ObjectBody(TwoNames(), [])
  }

  lemma NoRequired()
    ensures Sort(Texts([]), TextRank) == []
  {
  }

  lemma DisorderedBodyIs()
    ensures NormalizeBody(Disordered(), Some(ObjectKind), 1) == Ok(ObjectBody(TwoNames(), []))
  {
    DisorderedBody();
    DisorderedField(Properties);
    DisorderedField(Required);
    TwoNamesNormalized();
    NoRequired();
  }

  lemma NoConstraint(s: Json, kind: Option<Kind>)
    requires Field(s, Const).None? && Field(s, Enum).None?
    ensures NormalizeConstraint(s, kind) == Ok([])
  {
  }

  lemma DisorderedKind()
    ensures KindIn(Disordered()) == Some(ObjectKind)
  {
    DisorderedField(Type);
    KindDeclared(Disordered(), ObjectKind);
  }

  lemma DisorderedNormalized()
    ensures NormalizeSchema(Disordered(), 1) == Ok(Obj(Normalized()))
  {
    DisorderedAdmitted();
    DisorderedField(Const);
    DisorderedField(Enum);
    DisorderedBodyIs();
    NoConstraint(Disordered(), Some(ObjectKind));
    DisorderedKind();
    var s, body := Disordered(), ObjectBody(TwoNames(), []);
    Assembled(s, 1);
    assert Head(Some(ObjectKind)) + body + [] == Normalized();
  }

  lemma TextLength(t: Text)
    ensures |Render(Canon(Str(t)))| <= 12 * |t| + 2
  {
    QuotedLength(t);
  }

  lemma KindNameShort()
    ensures |KindText(ObjectKind)| == 6
  {
  }

  lemma EmptyListText(items: seq<Json>)
    requires items == []
    ensures Render(Canon(Arr(items))) == "[]"
  {
  }

  lemma WordsShort()
    ensures |Render(Canon(Str(KindText(ObjectKind))))| <= 600
    ensures |Render(Canon(Arr(Strings([]))))| <= 600 && |Render(Canon(Bool(false)))| <= 600
  {
    KindNameShort();
    TextLength(KindText(ObjectKind));
    EmptyListText(Strings([]));
  }

  ghost predicate ShortOne(m: Member, key: nat, size: nat) {
    |m.key| <= key && |Render(Canon(m.value))| <= size
  }

  lemma FourShort(a: Member, b: Member, c: Member, d: Member, key: nat, size: nat)
    requires ShortOne(a, key, size) && ShortOne(b, key, size) && ShortOne(c, key, size) && ShortOne(d, key, size)
    ensures Short([a] + [b, c, d], key, size)
  {
  }

  lemma NormalizedShort()
    ensures Short(Normalized(), 20, 600) && |Normalized()| == 4
  {
    TwoNamesShort();
    WordsShort();
    forall k ensures |Key(k)| <= 20 { KeysShort(k); }
    FourShort(Member(Key(Type), Str(KindText(ObjectKind))), Member(Key(Properties), Obj(TwoNames())),
              Member(Key(Required), Arr(Strings([]))), Member(Key(Additional), Bool(false)), 20, 600);
  }

  lemma DisorderedShort(n: Json)
    requires n == Obj(Normalized())
    ensures |Canonical(n)| <= MAX_SCHEMA_BYTES
  {
    NormalizedShort();
    CanonLength(Normalized(), 20, 600, 844);
  }

  lemma TwoNamesSource(toFloat: FloatOf)
    ensures Dicts(Obj(TwoNames())) && Floats(Obj(TwoNames()), toFloat)
  {
    var p := TwoNames();
    assert p[0].key[0] != p[1].key[0];
    assert Dicts(NullOnly()) && Floats(NullOnly(), toFloat);
  }

  lemma ThreeSource(a: Member, b: Member, c: Member, toFloat: FloatOf)
    requires a.key != b.key && a.key != c.key && b.key != c.key
    requires Source(a.value, false, toFloat) && Source(b.value, false, toFloat) && Source(c.value, false, toFloat)
    ensures Source(Obj([a, b, c]), false, toFloat)
  {
    var members := [a, b, c];
    assert NoDuplicates(members);
    forall m | m in members ensures Source(m.value, false, toFloat) {
      assert m == a || m == b || m == c;
    }
  }

  lemma DisorderedSource(toFloat: FloatOf)
    ensures Source(Disordered(), false, toFloat)
  {
    var m := Disordered().members;
    KeysDiffer(Type, Additional);
    KeysDiffer(Type, Properties);
    KeysDiffer(Additional, Properties);
    TwoNamesSource(toFloat);
    ThreeSource(m[0], m[1], m[2], toFloat);
    assert m == [m[0], m[1], m[2]];
  }

  /** The schema passes every check of its own, and is then rejected, unless two texts have one digest. */
  lemma DisorderedRejected(required: bool, sha: string -> string, toFloat: FloatOf)
    ensures NormalizeSchema(Disordered(), 1).Ok?
    ensures var text := Canonical(NormalizeSchema(Disordered(), 1).value);
            |text| <= MAX_SCHEMA_BYTES && CanonicalSchema(Disordered()) == Ok(text) &&
            (Pin(required, Disordered(), "", sha, toFloat).Ok? ==> exists again :: Collision(sha, text, again))
  {
    DisorderedNames();
    DisorderedNormalized();
    var n := NormalizeSchema(Disordered(), 1).value;
    DisorderedShort(n);
    DisorderedSource(toFloat);
    PinChecksDigest(required, Disordered(), n, "", sha, toFloat);
    PinAcceptsExactly(required, Disordered(), n, "", sha, toFloat);
  }
}
