/**
 Printing and reading undo each other.

 `ensure_ascii` writes a lone high surrogate followed by a lone low one exactly as it writes
 the code point the pair stands for, so what comes back is the value with its surrogate pairs
 merged; for values without such a pair it is the value itself.
 */
module JsonRoundTrip {
  import opened Basics
  import opened Json
  import opened JsonNumber
  import opened JsonText

  /** The value with the surrogate pairs of its strings and keys merged. */
  function MergeAll(v: Json): Json {
    match v
    case Str(text) => Str(Merge(text))
    case Arr(items) => Arr(MergeItems(items))
    case Obj(members) => Obj(MergeMembers(members))
    case _ => v
  }

  function MergeItems(items: seq<Json>): (r: seq<Json>)
    ensures |r| == |items|
    ensures forall i :: 0 <= i < |r| ==> r[i] == MergeAll(items[i])
  {
    if items == [] then [] else [MergeAll(items[0])] + MergeItems(items[1..])
  }

  function MergeMembers(members: seq<Member>): (r: seq<Member>)
    ensures |r| == |members|
    ensures forall i :: 0 <= i < |r| ==> r[i] == Member(Merge(members[i].key), MergeAll(members[i].value))
  {
    if members == [] then []
    else [Member(Merge(members[0].key), MergeAll(members[0].value))] + MergeMembers(members[1..])
  }

  /** Every float is written as a float lexeme that reads back as itself. */
  ghost predicate Floats(v: Json, toFloat: FloatOf) {
    match v
    case Float(repr) => NumberEnd(repr) == Some((|repr|, true)) && toFloat(repr) == Some(repr)
    case Arr(items) => forall x :: x in items ==> Floats(x, toFloat)
    case Obj(members) => forall m :: m in members ==> Floats(m.value, toFloat)
    case _ => true
  }

  // ----- Reading rendered text -----

  /** `s` starts with neither white space nor a closing mark. */
  predicate ValueFront(s: string) {
    s != "" && !Space(s[0]) && s[0] != ']' && s[0] != '}'
  }

  lemma IntFront(n: int)
    ensures ValueFront(IntText(n))
  {
    IntRoundTrip(n);
    LexemeCharacters(IntText(n));
  }

  lemma FloatFront(repr: string)
    requires NumberEnd(repr).Some?
    ensures ValueFront(repr)
  {
    LexemeCharacters(repr);
  }

  lemma RenderFront(v: Json, toFloat: FloatOf)
    requires Floats(v, toFloat)
    ensures ValueFront(Render(v))
  {
    match v
    case Int(n) => IntFront(n);
    case Float(repr) => FloatFront(repr);
    case _ =>
  }

  lemma NumberIsNoConstant(s: string, rd: Reader)
    requires NumberEnd(s).Some?
    ensures s != "" && s[0] !in {'"', '[', '{'} && ReadAtom(s, rd) == ReadNumber(s, rd)
  {
    LexemeCharacters(s);
    if s[0] == '-' {
      assert Digits(s[1..]) > 0;
      assert Digit(s[1..][0]);
      assert "-Infinity"[1] == 'I';
    }
  }

  lemma ReadLexeme(s: string, rest: string, rd: Reader)
    requires NumberEnd(s).Some? && NumberEnd(s).value.0 == |s| && Delimited(rest)
    ensures var t := s + rest;
            NumberEnd(t) == NumberEnd(s) && t[..|s|] == s && t[|s|..] == rest
    ensures ReadValue(s + rest, rd) == ReadNumber(s + rest, rd)
  {
    NumberBefore(s, rest);
    NumberIsNoConstant(s + rest, rd);
  }

  lemma ReadWord(word: string, rest: string)
    ensures word <= word + rest && (word + rest)[|word|..] == rest
  {
  }

  lemma SkipNothing(s: string)
    requires s != "" ==> !Space(s[0])
    ensures SkipSpace(s) == s
  {
  }

  lemma ReadRenderedAtom(v: Json, rest: string, rd: Reader)
    requires !rd.strict && Floats(v, rd.toFloat) && Delimited(rest) && !v.Str? && !v.Arr? && !v.Obj?
    ensures ReadValue(Render(v) + rest, rd) == Some((v, rest))
  {
    match v
    case Null => ReadWord("null", rest);
    case Bool(b) => ReadWord(if b then "true" else "false", rest);
    case NonFinite => ReadWord("NaN", rest);
    case Int(n) =>
      IntRoundTrip(n);
      ReadLexeme(IntText(n), rest, rd);
    case Float(repr) =>
      ReadLexeme(repr, rest, rd);
  }

  lemma ReadQuoted(text: Text, rest: string, rd: Reader)
    ensures ReadValue(['"'] + Quoted(text) + rest, rd) == Some((Str(Merge(text)), rest))
  {
    var s := ['"'] + Quoted(text) + rest;
    assert s[1..] == Quoted(text) + rest;
    TextRoundTrip(text, rest);
  }

  lemma ReadEmpty(rest: string, rd: Reader)
    ensures ReadValue("[]" + rest, rd) == Some((Arr([]), rest))
    ensures ReadValue("{}" + rest, rd) == Some((Obj([]), rest))
  {
    var s, t := "[]" + rest, "{}" + rest;
    assert s[1..] == [']'] + rest && t[1..] == ['}'] + rest;
    assert s[1..][1..] == rest && t[1..][1..] == rest;
  }

  lemma ReadArrText(t: string, items: seq<Json>, rest: string, rd: Reader)
    requires t != "" && !Space(t[0]) && t[0] != ']' && ReadItems(t, rd) == Some((items, rest))
    ensures ReadValue(['['] + t, rd) == Some((Arr(items), rest))
  {
    assert (['['] + t)[1..] == t;
    SkipNothing(t);
  }

  lemma ReadArr(items: seq<Json>, rest: string, rd: Reader)
    requires items != [] && Floats(Arr(items), rd.toFloat)
    requires ReadItems(ItemsText(items) + rest, rd) == Some((MergeItems(items), rest))
    ensures ReadValue(Render(Arr(items)) + rest, rd) == Some((MergeAll(Arr(items)), rest))
  {
    RenderFront(items[0], rd.toFloat);
    ReadArrText(ItemsText(items) + rest, MergeItems(items), rest, rd);
    assert Render(Arr(items)) + rest == ['['] + (ItemsText(items) + rest);
  }

  lemma ReadObjText(t: string, members: seq<Member>, rest: string, rd: Reader)
    requires t != "" && !Space(t[0]) && t[0] != '}' && ReadMembers(t, rd) == Some((members, rest))
    requires !rd.strict
    ensures ReadValue(['{'] + t, rd) == Some((Obj(members), rest))
  {
    assert (['{'] + t)[1..] == t;
    SkipNothing(t);
  }

  lemma Enclosed(c: char, u: string, rest: string)
    ensures [c] + u + rest == [c] + (u + rest)
  {
  }

  lemma ReadObj(members: seq<Member>, rest: string, rd: Reader)
    requires members != [] && !rd.strict
    requires ReadMembers(MembersText(members) + rest, rd) == Some((MergeMembers(members), rest))
    ensures ReadValue(Render(Obj(members)) + rest, rd) == Some((MergeAll(Obj(members)), rest))
  {
    var u := MembersText(members);
    MembersStart(members, rest);
    Enclosed('{', u, rest);
    ReadObjText(u + rest, MergeMembers(members), rest, rd);
  }

  lemma MembersStart(members: seq<Member>, rest: string)
    requires members != []
    ensures MembersText(members) + rest != "" && (MembersText(members) + rest)[0] == '"'
  {
  }

  lemma LastItem(s: string, v: Json, rest: string, rd: Reader)
    requires ReadValue(s, rd) == Some((v, [']'] + rest))
    ensures ReadItems(s, rd) == Some(([v], rest))
  {
    assert ([']'] + rest)[1..] == rest;
  }

  lemma NextItem(s: string, v: Json, t: string, items: seq<Json>, rest: string, rd: Reader)
    requires ReadValue(s, rd) == Some((v, [','] + t)) && (t != "" ==> !Space(t[0]))
    requires ReadItems(t, rd) == Some((items, rest))
    ensures ReadItems(s, rd) == Some(([v] + items, rest))
  {
    assert ([','] + t)[1..] == t;
    SkipNothing(t);
  }

  lemma LastMember(s: string, m: Member, t: string, rest: string, rd: Reader)
    requires ReadKey(s) == Some((m.key, t)) && ReadValue(t, rd) == Some((m.value, ['}'] + rest))
    ensures ReadMembers(s, rd) == Some(([m], rest))
  {
    assert (['}'] + rest)[1..] == rest;
  }

  lemma NextMember(s: string, m: Member, t: string, u: string, members: seq<Member>, rest: string, rd: Reader)
    requires ReadKey(s) == Some((m.key, t)) && ReadValue(t, rd) == Some((m.value, [','] + u))
    requires (u != "" ==> !Space(u[0])) && ReadMembers(u, rd) == Some((members, rest))
    ensures ReadMembers(s, rd) == Some(([m] + members, rest))
  {
    assert ([','] + u)[1..] == u;
    SkipNothing(u);
  }

  /** A rendered value followed by a delimiter is read as its merged form, up to that delimiter. */
  lemma {:induction false} ReadRendered(v: Json, rest: string, rd: Reader)
    requires !rd.strict && Floats(v, rd.toFloat) && Delimited(rest)
    ensures ReadValue(Render(v) + rest, rd) == Some((MergeAll(v), rest))
    decreases v, 0
  {
    match v
    case Str(text) =>
      ReadQuoted(text, rest, rd);
    case Arr(items) =>
      if items == [] {
        ReadEmpty(rest, rd);
      } else {
        ReadRenderedItems(items, rest, rd);
        ReadArr(items, rest, rd);
      }
    case Obj(members) =>
      if members == [] {
        ReadEmpty(rest, rd);
      } else {
        ReadRenderedMembers(members, rest, rd);
        ReadObj(members, rest, rd);
      }
    case _ => ReadRenderedAtom(v, rest, rd);
  }

  lemma {:induction false} ReadRenderedItems(items: seq<Json>, rest: string, rd: Reader)
    requires items != [] && !rd.strict && Floats(Arr(items), rd.toFloat)
    ensures ReadItems(ItemsText(items) + rest, rd) == Some((MergeItems(items), rest))
    decreases items, 1
  {
    var s, v := ItemsText(items) + rest, MergeAll(items[0]);
    if |items| == 1 {
      assert s == Render(items[0]) + ([']'] + rest);
      ReadRendered(items[0], [']'] + rest, rd);
      LastItem(s, v, rest, rd);
      assert MergeItems(items) == [v];
    } else {
      var t := ItemsText(items[1..]) + rest;
      assert s == Render(items[0]) + ([','] + t);
      ReadRendered(items[0], [','] + t, rd);
      ReadRenderedItems(items[1..], rest, rd);
      RenderFront(items[1], rd.toFloat);
      NextItem(s, v, t, MergeItems(items[1..]), rest, rd);
    }
  }

  lemma ReadRenderedKey(key: Text, value: string, tail: string)
    requires ValueFront(value)
    ensures ReadKey(MemberText(Quoted(key), value, tail)) == Some((Merge(key), value + tail))
  {
    var t := value + tail;
    var s := MemberText(Quoted(key), value, tail);
    assert s[1..] == Quoted(key) + ([':'] + t);
    TextRoundTrip(key, [':'] + t);
    SkipNothing([':'] + t);
    SkipNothing(t);
    assert ([':'] + t)[1..] == t;
  }

  lemma MemberAppend(key: string, value: string, tail: string, rest: string)
    ensures MemberText(key, value, tail) + rest == MemberText(key, value, tail + rest)
  {
    var c := [':'];
    assert value + tail + rest == value + (tail + rest);
    assert c + (value + tail) + rest == c + (value + tail + rest);
    assert key + (c + (value + tail)) + rest == key + (c + (value + tail) + rest);
  }

  lemma FloatsHeadTail(members: seq<Member>, toFloat: FloatOf)
    requires members != [] && Floats(Obj(members), toFloat)
    ensures Floats(members[0].value, toFloat) && Floats(Obj(members[1..]), toFloat)
  {
    assert members[0] in members;
    assert forall m :: m in members[1..] ==> m in members;
  }

  function MergeMember(m: Member): Member {
    Member(Merge(m.key), MergeAll(m.value))
  }

  /** Reading one rendered member closed by `}`. */
  lemma OnlyMember(m: Member, value: string, rest: string, rd: Reader)
    requires ValueFront(value)
    requires ReadValue(value + (['}'] + rest), rd) == Some((MergeAll(m.value), ['}'] + rest))
    ensures ReadMembers(MemberText(Quoted(m.key), value, ['}'] + rest), rd) == Some(([MergeMember(m)], rest))
  {
    var t := ['}'] + rest;
    ReadRenderedKey(m.key, value, t);
    LastMember(MemberText(Quoted(m.key), value, t), MergeMember(m), value + t, rest, rd);
  }

  /** Reading one rendered member followed by `,` and further members. */
  lemma FirstMember(m: Member, value: string, u: string, tail: seq<Member>, rest: string, rd: Reader)
    requires ValueFront(value) && (u != "" ==> !Space(u[0]))
    requires ReadValue(value + ([','] + u), rd) == Some((MergeAll(m.value), [','] + u))
    requires ReadMembers(u, rd) == Some((tail, rest))
    ensures ReadMembers(MemberText(Quoted(m.key), value, [','] + u), rd) == Some(([MergeMember(m)] + tail, rest))
  {
    var t := [','] + u;
    ReadRenderedKey(m.key, value, t);
    NextMember(MemberText(Quoted(m.key), value, t), MergeMember(m), value + t, u, tail, rest, rd);
  }

  lemma LastMemberText(members: seq<Member>, rest: string)
    requires |members| == 1
    ensures MembersText(members) + rest == MemberText(Quoted(members[0].key), Render(members[0].value), ['}'] + rest)
  {
    MemberAppend(Quoted(members[0].key), Render(members[0].value), ['}'], rest);
  }

  lemma MoreMemberText(key: string, value: string, u: string, rest: string)
    ensures MemberText(key, value, [','] + u) + rest == MemberText(key, value, [','] + (u + rest))
  {
    MemberAppend(key, value, [','] + u, rest);
    assert [','] + u + rest == [','] + (u + rest);
  }

  lemma MoreMembersText(members: seq<Member>, u: string, rest: string)
    requires |members| > 1 && u == MembersText(members[1..])
    ensures MembersText(members) + rest ==
            MemberText(Quoted(members[0].key), Render(members[0].value), [','] + (u + rest))
  {
    MoreMemberText(Quoted(members[0].key), Render(members[0].value), u, rest);
  }

  lemma {:induction false} ReadRenderedMembers(members: seq<Member>, rest: string, rd: Reader)
    requires members != [] && !rd.strict && Floats(Obj(members), rd.toFloat)
    ensures ReadMembers(MembersText(members) + rest, rd) == Some((MergeMembers(members), rest))
    decreases members, 1
  {
    FloatsHeadTail(members, rd.toFloat);
    RenderFront(members[0].value, rd.toFloat);
    var value := Render(members[0].value);
    if |members| == 1 {
      ReadRendered(members[0].value, ['}'] + rest, rd);
      OnlyMember(members[0], value, rest, rd);
      LastMemberText(members, rest);
      assert MergeMembers(members) == [MergeMember(members[0])];
    } else {
      var u := MembersText(members[1..]) + rest;
      ReadRendered(members[0].value, [','] + u, rd);
      ReadRenderedMembers(members[1..], rest, rd);
      MembersStart(members[1..], rest);
      FirstMember(members[0], value, u, MergeMembers(members[1..]), rest, rd);
      MoreMembersText(members, MembersText(members[1..]), rest);
    }
  }
}
