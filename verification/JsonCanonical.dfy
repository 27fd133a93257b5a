/** What canonical texts say: which values share one, and what reading one back returns. */
module JsonCanonical {
  import opened Basics
  import opened Json
  import opened JsonNumber
  import opened JsonRoundTrip
  import opened JsonText
  import opened Ordering

  /** The canonical text of a value without NaN or infinity. */
  function Canonical(v: Json): string {
    Render(Canon(v)) + ['\n']
  }

  /** No string or key in the value holds an unmerged surrogate pair. */
  ghost predicate PairFreeAll(v: Json) {
    match v
    case Str(text) => PairFree(text)
    case Arr(items) => forall x :: x in items ==> PairFreeAll(x)
    case Obj(members) => forall m :: m in members ==> PairFree(m.key) && PairFreeAll(m.value)
    case _ => true
  }

  // ----- Merging -----

  lemma {:induction false} MergeAllPairFree(v: Json)
    ensures PairFreeAll(MergeAll(v))
  {
    match v
    case Str(text) => MergePairFree(text);
    case Arr(items) =>
      forall x | x in items ensures PairFreeAll(MergeAll(x)) { MergeAllPairFree(x); }
    case Obj(members) =>
      forall m | m in members ensures PairFree(Merge(m.key)) && PairFreeAll(MergeAll(m.value)) {
        MergePairFree(m.key);
        MergeAllPairFree(m.value);
      }
    case _ =>
  }

  lemma {:induction false} MergeAllFixed(v: Json)
    requires PairFreeAll(v)
    ensures MergeAll(v) == v
  {
    match v
    case Str(text) => MergeFixed(text);
    case Arr(items) =>
      forall i | 0 <= i < |items| ensures MergeAll(items[i]) == items[i] { MergeAllFixed(items[i]); }
    case Obj(members) =>
      forall i | 0 <= i < |members| ensures MergeMembers(members)[i] == members[i] {
        var m := members[i];
        assert m in members;
        MergeFixed(m.key);
        MergeAllFixed(m.value);
      }
    case _ =>
  }

  /** Merging surrogate pairs does not change the printed text. */
  lemma {:induction false} RenderMerge(v: Json)
    ensures Render(MergeAll(v)) == Render(v)
    decreases v, 0
  {
    match v
    case Str(text) => EscapeMerge(text);
    case Arr(items) => if items != [] { ItemsTextMerge(items); }
    case Obj(members) => if members != [] { MembersTextMerge(members); }
    case _ =>
  }

  lemma {:induction false} ItemsTextMerge(items: seq<Json>)
    requires items != []
    ensures ItemsText(MergeItems(items)) == ItemsText(items)
    decreases items, 1
  {
    RenderMerge(items[0]);
    assert MergeItems(items)[1..] == MergeItems(items[1..]);
    if |items| > 1 { ItemsTextMerge(items[1..]); }
  }

  lemma {:induction false} MembersTextMerge(members: seq<Member>)
    requires members != []
    ensures MembersText(MergeMembers(members)) == MembersText(members)
    decreases members, 1
  {
    RenderMerge(members[0].value);
    EscapeMerge(members[0].key);
    assert MergeMembers(members)[1..] == MergeMembers(members[1..]);
    if |members| > 1 { MembersTextMerge(members[1..]); }
  }

  /** Two values print alike exactly when they agree up to surrogate pairs. */
  lemma SameText(v: Json, w: Json, toFloat: FloatOf)
    requires Floats(v, toFloat) && Floats(w, toFloat)
    ensures Render(v) == Render(w) <==> MergeAll(v) == MergeAll(w)
  {
    ReadRendered(v, "", Reader(false, toFloat));
    ReadRendered(w, "", Reader(false, toFloat));
    RenderMerge(v);
    RenderMerge(w);
    assert Render(v) + "" == Render(v) && Render(w) + "" == Render(w);
  }

  /** The printer cannot tell a lone surrogate pair from the code point it stands for. */
  lemma SurrogatePairCollides()
    ensures Canonical(Str([0xD83D, 0xDE00])) == Canonical(Str([0x1_F600]))
    ensures Canon(Str([0xD83D, 0xDE00])) != Canon(Str([0x1_F600]))
  {
    var pair, point := Str([0xD83D, 0xDE00]), Str([0x1_F600]);
    assert Merge([0xD83D, 0xDE00]) == [Join(0xD83D, 0xDE00)];
    RenderMerge(pair);
    assert MergeAll(pair) == point;
  }

  // ----- Printable text -----

  lemma PrintableConcat(a: string, b: string)
    requires Printable(a) && Printable(b)
    ensures Printable(a + b)
  {
  }

  lemma {:induction false} RenderPrintable(v: Json, toFloat: FloatOf)
    requires Floats(v, toFloat)
    ensures Printable(Render(v))
    decreases v, 0
  {
    match v
    case Int(n) =>
      IntRoundTrip(n);
      LexemeCharacters(IntText(n));
    case Float(repr) => LexemeCharacters(repr);
    case Str(text) => EscapePrintable(text);
    case Arr(items) => if items != [] { ItemsPrintable(items, toFloat); }
    case Obj(members) => if members != [] { MembersPrintable(members, toFloat); }
    case _ =>
  }

  lemma {:induction false} ItemsPrintable(items: seq<Json>, toFloat: FloatOf)
    requires items != [] && Floats(Arr(items), toFloat)
    ensures Printable(ItemsText(items))
    decreases items, 1
  {
    RenderPrintable(items[0], toFloat);
    if |items| > 1 {
      ItemsPrintable(items[1..], toFloat);
      PrintableConcat([','], ItemsText(items[1..]));
    }
  }

  lemma {:induction false} MembersPrintable(members: seq<Member>, toFloat: FloatOf)
    requires members != [] && Floats(Obj(members), toFloat)
    ensures Printable(MembersText(members))
    decreases members, 1
  {
    var k, v := Quoted(members[0].key), Render(members[0].value);
    EscapePrintable(members[0].key);
    RenderPrintable(members[0].value, toFloat);
    var tail := ['}'];
    if |members| > 1 {
      MembersPrintable(members[1..], toFloat);
      tail := [','] + MembersText(members[1..]);
    }
    PrintableConcat(v, tail);
    PrintableConcat([':'], v + tail);
    PrintableConcat(k, [':'] + (v + tail));
  }

  lemma {:induction false} NoCrLf(s: string)
    requires forall i :: 0 <= i < |s| ==> s[i] != '\r'
    ensures ReplaceCrLf(s) == s
  {
    if |s| >= 2 { NoCrLf(s[1..]); }
  }

  // ----- Sorting keys -----

  /** The members of a canonical dict are the canonical forms of the members of the dict. */
  lemma CanonMember(members: seq<Member>)
    ensures forall i :: 0 <= i < |members| ==>
              Member(members[i].key, Canon(members[i].value)) in Canon(Obj(members)).members
    ensures forall c :: c in Canon(Obj(members)).members ==>
              exists i :: 0 <= i < |members| && c == Member(members[i].key, Canon(members[i].value))
  {
    var canon := CanonMembers(members);
    SortElements(canon, MemberKey);
    forall i | 0 <= i < |members|
      ensures Member(members[i].key, Canon(members[i].value)) in Sort(canon, MemberKey)
    {
      assert canon[i] in canon;
    }
  }

  lemma {:induction false} CanonFloats(v: Json, toFloat: FloatOf)
    requires Floats(v, toFloat)
    ensures Floats(Canon(v), toFloat)
  {
    match v
    case Arr(items) =>
      forall x | x in items ensures Floats(Canon(x), toFloat) { CanonFloats(x, toFloat); }
    case Obj(members) =>
      forall m | m in members ensures Floats(Canon(m.value), toFloat) { CanonFloats(m.value, toFloat); }
      CanonMember(members);
    case _ =>
  }

  lemma {:induction false} CanonFinite(v: Json)
    requires Finite(v)
    ensures Finite(Canon(v))
  {
    match v
    case Arr(items) =>
      forall x | x in items ensures Finite(Canon(x)) { CanonFinite(x); }
    case Obj(members) =>
      forall m | m in members ensures Finite(Canon(m.value)) { CanonFinite(m.value); }
      CanonMember(members);
    case _ =>
  }

  lemma {:induction false} PairFreeCanon(v: Json)
    requires PairFreeAll(v)
    ensures PairFreeAll(Canon(v))
  {
    match v
    case Arr(items) =>
      forall x | x in items ensures PairFreeAll(Canon(x)) { PairFreeCanon(x); }
    case Obj(members) =>
      forall m | m in members ensures PairFreeAll(Canon(m.value)) { PairFreeCanon(m.value); }
      CanonMember(members);
    case _ =>
  }

  lemma {:induction false} CanonPairFree(v: Json)
    requires PairFreeAll(Canon(v))
    ensures PairFreeAll(v)
  {
    match v
    case Arr(items) =>
      forall i | 0 <= i < |items| ensures PairFreeAll(items[i]) {
        assert CanonItems(items)[i] in CanonItems(items);
        CanonPairFree(items[i]);
      }
    case Obj(members) =>
      CanonMember(members);
      forall i | 0 <= i < |members| ensures PairFree(members[i].key) && PairFreeAll(members[i].value) {
        var c := Member(members[i].key, Canon(members[i].value));
        assert c in Canon(v).members;
        CanonPairFree(members[i].value);
      }
    case _ =>
  }

  lemma NoDuplicatesAscending(members: seq<Member>)
    requires NoDuplicates(members)
    ensures Ascending(Sort(members, MemberKey), MemberKey)
    ensures NoDuplicates(Sort(members, MemberKey))
  {
    assert DistinctKeys(members, MemberKey);
    SortAscending(members, MemberKey);
    AscendingDistinct(Sort(members, MemberKey), MemberKey);
    var sorted := Sort(members, MemberKey);
    forall i, j | 0 <= i < j < |sorted| ensures sorted[i].key != sorted[j].key {
      assert MemberKey(sorted[i]) != MemberKey(sorted[j]);
    }
  }

  lemma {:induction false} CanonDicts(v: Json)
    requires Dicts(v)
    ensures Dicts(Canon(v))
  {
    match v
    case Arr(items) =>
      forall x | x in items ensures Dicts(Canon(x)) { CanonDicts(x); }
    case Obj(members) =>
      forall m | m in members ensures Dicts(Canon(m.value)) { CanonDicts(m.value); }
      CanonMember(members);
      NoDuplicatesAscending(CanonMembers(members));
    case _ =>
  }

  /** Dicts with equal members up to key order have one canonical form. */
  lemma CanonIgnoresOrder(a: seq<Member>, b: seq<Member>)
    requires NoDuplicates(a) && NoDuplicates(b)
    requires SameElements(CanonMembers(a), CanonMembers(b))
    ensures Canon(Obj(a)) == Canon(Obj(b))
  {
    assert DistinctKeys(CanonMembers(a), MemberKey) && DistinctKeys(CanonMembers(b), MemberKey);
    SortIgnoresOrder(CanonMembers(a), CanonMembers(b), MemberKey);
  }

  lemma CanonTwice(members: seq<Member>)
    requires NoDuplicates(members)
    requires forall m :: m in members ==> Canon(Canon(m.value)) == Canon(m.value)
    ensures Canon(Canon(Obj(members))) == Canon(Obj(members))
  {
    var canon := Canon(Obj(members)).members;
    CanonMember(members);
    forall i | 0 <= i < |canon| ensures CanonMembers(canon)[i] == canon[i] {
      assert canon[i] in canon;
    }
    assert CanonMembers(canon) == canon;
    NoDuplicatesAscending(CanonMembers(members));
    SortedAlready(canon, MemberKey);
  }

  /** Canonicalizing twice changes nothing more. */
  lemma {:induction false} CanonIdempotent(v: Json)
    requires Dicts(v)
    ensures Canon(Canon(v)) == Canon(v)
  {
    match v
    case Arr(items) =>
      forall i | 0 <= i < |items| ensures Canon(Canon(items[i])) == Canon(items[i]) { CanonIdempotent(items[i]); }
    case Obj(members) =>
      forall m | m in members ensures Canon(Canon(m.value)) == Canon(m.value) { CanonIdempotent(m.value); }
      CanonTwice(members);
    case _ =>
  }

  // ----- The canonical text and the readers -----

  /** `canonical_json_serialize` succeeds on finite values, and its line-ending step changes nothing. */
  lemma SerializeIsCanonical(v: Json, toFloat: FloatOf)
    requires Floats(v, toFloat)
    ensures Serialize(v) == if Finite(v) then Some(Canonical(v)) else None
    ensures Printable(Render(Canon(v)))
  {
    CanonFloats(v, toFloat);
    RenderPrintable(Canon(v), toFloat);
    NoCrLf(Render(Canon(v)));
  }

  /** Loading a canonical text gives the sorted value with its surrogate pairs merged. */
  lemma LoadCanonical(v: Json, toFloat: FloatOf)
    requires Floats(v, toFloat)
    ensures Load(Canonical(v), Reader(false, toFloat)) == Some(MergeAll(Canon(v)))
  {
    CanonFloats(v, toFloat);
    ReadRendered(Canon(v), ['\n'], Reader(false, toFloat));
    RenderFront(Canon(v), toFloat);
    assert Canonical(v)[0] == Render(Canon(v))[0];
    SkipNothing(Canonical(v));
    assert SkipSpace(['\n']) == SkipSpace("");
  }

  /** A value whose dicts have distinct keys and that is finite passes the raw strictness check. */
  lemma {:induction false} FiniteDictsAreStrict(v: Json)
    requires Dicts(v) && Finite(v)
    ensures RawStrict(v)
    decreases v, 0
  {
    match v
    case Arr(items) => FiniteItemsAreStrict(items);
    case Obj(members) => FiniteMembersAreStrict(members);
    case _ =>
  }

  lemma {:induction false} FiniteItemsAreStrict(items: seq<Json>)
    requires forall x :: x in items ==> Dicts(x) && Finite(x)
    ensures RawStrictItems(items)
    decreases items, 1
  {
    if items != [] {
      FiniteDictsAreStrict(items[0]);
      FiniteItemsAreStrict(items[1..]);
    }
  }

  lemma {:induction false} FiniteMembersAreStrict(members: seq<Member>)
    requires forall m :: m in members ==> Dicts(m.value) && Finite(m.value)
    ensures RawStrictMembers(members)
    decreases members, 1
  {
    if members != [] {
      FiniteDictsAreStrict(members[0].value);
      FiniteMembersAreStrict(members[1..]);
    }
  }

  /**
   Printing canonically and reading strictly gives back exactly the sorted value, if and only if
   no string or key of the value holds an unmerged surrogate pair.
   */
  lemma CanonicalRoundTrip(v: Json, toFloat: FloatOf)
    requires Dicts(v) && Finite(v) && Floats(v, toFloat)
    ensures Serialize(v) == Some(Canonical(v))
    ensures Load(Canonical(v), Reader(true, toFloat)) == Some(Canon(v)) <==> PairFreeAll(v)
  {
    SerializeIsCanonical(v, toFloat);
    LoadCanonical(v, toFloat);
    StrictIsRawThenChecked(Canonical(v), Reader(true, toFloat));
    MergeAllPairFree(Canon(v));
    if Load(Canonical(v), Reader(true, toFloat)) == Some(Canon(v)) {
      CanonPairFree(v);
    }
    if PairFreeAll(v) {
      PairFreeCanon(v);
      MergeAllFixed(Canon(v));
      CanonDicts(v);
      CanonFinite(v);
      FiniteDictsAreStrict(Canon(v));
    }
  }

  /** Equal canonical texts mean equal values, up to key order and surrogate pairs. */
  lemma CanonicalInjective(v: Json, w: Json, toFloat: FloatOf)
    requires Floats(v, toFloat) && Floats(w, toFloat)
    ensures Canonical(v) == Canonical(w) <==> MergeAll(Canon(v)) == MergeAll(Canon(w))
    ensures PairFreeAll(v) && PairFreeAll(w) ==> (Canonical(v) == Canonical(w) <==> Canon(v) == Canon(w))
  {
    CanonFloats(v, toFloat);
    CanonFloats(w, toFloat);
    SameText(Canon(v), Canon(w), toFloat);
    if Canonical(v) == Canonical(w) {
      assert Canonical(v)[..|Canonical(v)| - 1] == Render(Canon(v));
      assert Canonical(w)[..|Canonical(w)| - 1] == Render(Canon(w));
    }
    if PairFreeAll(v) && PairFreeAll(w) {
      PairFreeCanon(v);
      PairFreeCanon(w);
      MergeAllFixed(Canon(v));
      MergeAllFixed(Canon(w));
    }
  }

  // ----- What reading can produce -----

  /** Reading a float lexeme yields a `repr` that itself reads back. */
  ghost predicate FaithfulFloats(toFloat: FloatOf) {
    forall s :: toFloat(s).Some? ==>
      NumberEnd(toFloat(s).value) == Some((|toFloat(s).value|, true)) &&
      toFloat(toFloat(s).value) == toFloat(s)
  }

  /** What holds of every value a reader can return. */
  ghost predicate Clean(v: Json, rd: Reader) {
    PairFreeAll(v) && Floats(v, rd.toFloat) && (rd.strict ==> Dicts(v) && Finite(v))
  }

  lemma {:induction false} ReadValueClean(s: string, rd: Reader)
    requires FaithfulFloats(rd.toFloat) && ReadValue(s, rd).Some?
    ensures Clean(ReadValue(s, rd).value.0, rd)
    decreases |s|, 0
  {
    if s[0] == '"' {
      ReadTextPairFree(s[1..]);
    } else if s[0] == '[' {
      var t := SkipSpace(s[1..]);
      if t == "" || t[0] != ']' { ReadItemsClean(t, rd); }
    } else if s[0] == '{' {
      var t := SkipSpace(s[1..]);
      if t == "" || t[0] != '}' { ReadMembersClean(t, rd); }
    } else {
      ReadAtomClean(s, rd);
    }
  }

  lemma ReadNumberClean(s: string, rd: Reader)
    requires FaithfulFloats(rd.toFloat) && ReadNumber(s, rd).Some?
    ensures Clean(ReadNumber(s, rd).value.0, rd)
  {
  }

  lemma ReadAtomClean(s: string, rd: Reader)
    requires FaithfulFloats(rd.toFloat) && ReadAtom(s, rd).Some?
    ensures Clean(ReadAtom(s, rd).value.0, rd)
  {
    if ReadAtom(s, rd) == ReadNumber(s, rd) {
      ReadNumberClean(s, rd);
    }
  }

  lemma {:induction false} ReadItemsClean(s: string, rd: Reader)
    requires FaithfulFloats(rd.toFloat) && ReadItems(s, rd).Some?
    ensures forall x :: x in ReadItems(s, rd).value.0 ==> Clean(x, rd)
    decreases |s|, 1
  {
    ReadValueClean(s, rd);
    var t := SkipSpace(ReadValue(s, rd).value.1);
    if t[0] == ',' {
      ReadItemsClean(SkipSpace(t[1..]), rd);
    }
  }

  lemma {:induction false} ReadMembersClean(s: string, rd: Reader)
    requires FaithfulFloats(rd.toFloat) && ReadMembers(s, rd).Some?
    ensures forall m :: m in ReadMembers(s, rd).value.0 ==> PairFree(m.key) && Clean(m.value, rd)
    decreases |s|, 1
  {
    var k := ReadKey(s).value;
    ReadTextPairFree(s[1..]);
    ReadValueClean(k.1, rd);
    var t := SkipSpace(ReadValue(k.1, rd).value.1);
    if t[0] == ',' {
      ReadMembersClean(SkipSpace(t[1..]), rd);
    }
  }

  /**
   For every JSON text the strict reader accepts, printing what it read is a fixed point: the
   canonical text reads back as the same value with sorted keys and prints as itself.
   */
  lemma StrictTextsSettle(s: string, toFloat: FloatOf)
    requires FaithfulFloats(toFloat) && Load(s, Reader(true, toFloat)).Some?
    ensures var v := Load(s, Reader(true, toFloat)).value;
            Serialize(v) == Some(Canonical(v)) &&
            Load(Canonical(v), Reader(true, toFloat)) == Some(Canon(v)) &&
            Canonical(Canon(v)) == Canonical(v)
  {
    var v := Load(s, Reader(true, toFloat)).value;
    ReadValueClean(SkipSpace(s), Reader(true, toFloat));
    CanonicalRoundTrip(v, toFloat);
    CanonIdempotent(v);
  }
}
