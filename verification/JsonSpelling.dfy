/**
 The JSON texts, as RFC 8259 describes them, and the values they spell.

 A `Tree` is a text with every choice its writer had: white space around every token, the spelling of each
 string and number. `Spelling` is the text and `Meaning` the value. The reader accepts the spellings, each
 with its meaning, and no other text; the strict reader those of them whose keys are distinct and whose
 numbers are finite.
 */
module JsonSpelling {
  import opened Basics
  import opened Json
  import opened JsonGrammar
  import opened JsonNumber
  import opened JsonText

  // ----- Texts -----

  datatype Tree =
    | NullTree
    | BoolTree(b: bool)
    | ConstantTree(name: string)
    | NumberTree(numeral: Numeral)
    | StringTree(pieces: seq<Piece>)
    | ArrayTree(gap: string, elems: seq<Elem>)
    | ObjectTree(gap: string, fields: seq<Field>)

  /** A value of an array, the white space after it, and that after the comma when another follows. */
  datatype Elem = Elem(tree: Tree, after: string, next: string)

  /** A key, the white space before and after the colon, and a value as in an array. */
  datatype Field = Field(key: seq<Piece>, before: string, gap: string, tree: Tree, after: string, next: string)

  /** The three constants beyond RFC 8259 that `json.loads` knows. */
  predicate Constant(name: string) {
    name == "NaN" || name == "Infinity" || name == "-Infinity"
  }

  ghost predicate WellSpelled(t: Tree)
    decreases t
  {
    match t
    case NullTree => true
    case BoolTree(_) => true
    case ConstantTree(name) => Constant(name)
    case NumberTree(numeral) => NumeralFits(numeral)
    case StringTree(pieces) => PiecesFit(pieces)
    case ArrayTree(gap, elems) => White(gap) && forall e :: e in elems ==> ElemFits(e)
    case ObjectTree(gap, fields) => White(gap) && forall f :: f in fields ==> FieldFits(f)
  }

  ghost predicate ElemFits(e: Elem)
    decreases e
  {
    WellSpelled(e.tree) && White(e.after) && White(e.next)
  }

  ghost predicate FieldFits(f: Field)
    decreases f
  {
    && PiecesFit(f.key) && White(f.before) && White(f.gap)
    && WellSpelled(f.tree) && White(f.after) && White(f.next)
  }

  function Spelling(t: Tree): string {
    match t
    case NullTree => "null"
    case BoolTree(b) => if b then "true" else "false"
    case ConstantTree(name) => name
    case NumberTree(numeral) => NumeralText(numeral)
    case StringTree(pieces) => ['"'] + LiteralText(pieces)
    case ArrayTree(gap, elems) => ['['] + (gap + if elems == [] then [']'] else ElemsText(elems))
    case ObjectTree(gap, fields) => ['{'] + (gap + if fields == [] then ['}'] else FieldsText(fields))
  }

  function ElemsText(elems: seq<Elem>): string
    requires elems != []
  {
    var e := elems[0];
    Spelling(e.tree) + (e.after + if |elems| == 1 then [']'] else [','] + (e.next + ElemsText(elems[1..])))
  }

  function FieldsText(fields: seq<Field>): string
    requires fields != []
  {
    var f := fields[0];
    KeyText(f) + (Spelling(f.tree) +
                  (f.after + if |fields| == 1 then ['}'] else [','] + (f.next + FieldsText(fields[1..]))))
  }

  /** A key up to the value it names. */
  function KeyText(f: Field): (s: string)
    ensures s != "" && s[0] == '"'
  {
    ['"'] + (LiteralText(f.key) + (f.before + ([':'] + f.gap)))
  }

  function Meaning(t: Tree, toFloat: FloatOf): Json {
    match t
    case NullTree => Null
    case BoolTree(b) => Bool(b)
    case ConstantTree(_) => NonFinite
    case NumberTree(numeral) => NumeralMeaning(numeral, toFloat)
    case StringTree(pieces) => Str(LiteralMeaning(pieces))
    case ArrayTree(_, elems) => Arr(ElemsMeaning(elems, toFloat))
    case ObjectTree(_, fields) => Obj(FieldsMeaning(fields, toFloat))
  }

  function ElemsMeaning(elems: seq<Elem>, toFloat: FloatOf): (r: seq<Json>)
    ensures |r| == |elems| && forall i :: 0 <= i < |r| ==> r[i] == Meaning(elems[i].tree, toFloat)
  {
    if elems == [] then [] else [Meaning(elems[0].tree, toFloat)] + ElemsMeaning(elems[1..], toFloat)
  }

  function FieldsMeaning(fields: seq<Field>, toFloat: FloatOf): (r: seq<Member>)
    ensures |r| == |fields|
    ensures forall i :: 0 <= i < |r| ==>
              r[i] == Member(LiteralMeaning(fields[i].key), Meaning(fields[i].tree, toFloat))
  {
    if fields == [] then []
    else [Member(LiteralMeaning(fields[0].key), Meaning(fields[0].tree, toFloat))] + FieldsMeaning(fields[1..], toFloat)
  }

  /** The text spells the value, as `tree` with the given white space around it. */
  ghost predicate SpelledAs(text: string, v: Json, toFloat: FloatOf, before: string, tree: Tree, after: string) {
    && White(before) && White(after) && WellSpelled(tree)
    && text == before + (Spelling(tree) + after) && v == Meaning(tree, toFloat)
  }

  ghost predicate Spells(text: string, v: Json, toFloat: FloatOf) {
    exists before, tree, after :: SpelledAs(text, v, toFloat, before, tree, after)
  }

  // ----- Every spelling is read -----

  /** A value starts with neither white space nor a closing mark. */
  predicate Front(s: string) {
    s != "" && !IsWhite(s[0]) && s[0] != ']' && s[0] != '}'
  }

  lemma NumeralFront(n: Numeral)
    requires NumeralFits(n)
    ensures var s := NumeralText(n); s != "" && (s[0] == '-' || '0' <= s[0] <= '9')
  {
    assert n.whole[0] in n.whole;
    FrontOf(SignText(n), n.whole + (n.fraction + n.exponent));
    FrontOf(n.whole, n.fraction + n.exponent);
  }

  lemma SpellingFront(t: Tree)
    requires WellSpelled(t)
    ensures Front(Spelling(t))
  {
    if t.NumberTree? { NumeralFront(t.numeral); }
  }

  /** What may follow a value: white space, a comma or a closing mark, or nothing. */
  predicate Ends(rest: string) {
    rest != "" ==> IsWhite(rest[0]) || rest[0] == ',' || rest[0] == ']' || rest[0] == '}'
  }

  lemma PrefixOf(a: string, rest: string)
    ensures a <= a + rest && (a + rest)[|a|..] == rest
  {
  }

  lemma ConstantRead(name: string, rest: string, rd: Reader, s: string)
    requires Constant(name) && !rd.strict && s == name + rest
    ensures ReadValue(s, rd) == Some((NonFinite, rest))
  {
    PrefixOf(name, rest);
    assert s[0] == name[0];
  }

  lemma WordRead(t: Tree, rest: string, rd: Reader, s: string)
    requires (t.NullTree? || t.BoolTree?) && s == Spelling(t) + rest
    ensures ReadValue(s, rd) == Some((Meaning(t, rd.toFloat), rest))
  {
    PrefixOf(Spelling(t), rest);
    assert s[0] == Spelling(t)[0];
  }

  lemma NotWord(word: string, s: string, i: nat)
    requires i < |word| && i < |s| && s[i] != word[i]
    ensures !(word <= s)
  {
  }

  lemma DigitFrontIsNumber(s: string, rd: Reader)
    requires s != "" && ('0' <= s[0] <= '9' || (s[0] == '-' && |s| > 1 && '0' <= s[1] <= '9'))
    ensures ReadValue(s, rd) == ReadNumber(s, rd)
  {
    NotWord("null", s, 0);
    NotWord("true", s, 0);
    NotWord("false", s, 0);
    NotWord("NaN", s, 0);
    NotWord("Infinity", s, 0);
    NotWord("-Infinity", s, if s[0] == '-' then 1 else 0);
  }

  lemma NumberRead(n: Numeral, rest: string, rd: Reader, s: string)
    requires NumeralFits(n) && Ends(rest) && !rd.strict && s == NumeralText(n) + rest
    ensures ReadValue(s, rd) == Some((NumeralMeaning(n, rd.toFloat), rest))
  {
    var k := |NumeralText(n)|;
    NumeralRead(n, rest);
    PrefixOf(NumeralText(n), rest);
    assert s[..k] == NumeralText(n);
    NumeralSecond(n, rest, s);
    DigitFrontIsNumber(s, rd);
    if !IsFloat(n) { IntValueExact(n, rd.toFloat); }
  }

  lemma NumeralSecond(n: Numeral, rest: string, s: string)
    requires NumeralFits(n) && s == NumeralText(n) + rest
    ensures s != "" && ('0' <= s[0] <= '9' || (s[0] == '-' && |s| > 1 && '0' <= s[1] <= '9'))
  {
    WholeFirst(n, rest);
    assert n.whole[0] in n.whole;
    if n.negative {
      assert s[0] == '-' && s[1] == n.whole[0];
    } else {
      assert s[0] == n.whole[0];
    }
  }

  lemma QuotedRead(s: string, t: Text, rest: string, rd: Reader)
    requires s != "" && s[0] == '"' && ReadText(s[1..]) == Some((t, rest))
    ensures ReadValue(s, rd) == Some((Str(t), rest))
  {
  }

  lemma Unquoted(s: string, literal: string, rest: string)
    requires s == ['"'] + literal + rest
    ensures s != "" && s[0] == '"' && s[1..] == literal + rest
  {
  }

  lemma StringRead(pieces: seq<Piece>, rest: string, rd: Reader, s: string)
    requires PiecesFit(pieces) && s == ['"'] + LiteralText(pieces) + rest
    ensures ReadValue(s, rd) == Some((Str(LiteralMeaning(pieces)), rest))
  {
    LiteralRead(pieces, rest);
    Unquoted(s, LiteralText(pieces), rest);
    QuotedRead(s, LiteralMeaning(pieces), rest, rd);
  }

  lemma LastItem(s: string, v: Json, u: string, w: string, rd: Reader)
    requires ReadValue(s, rd) == Some((v, u)) && SkipSpace(u) == w && w != "" && w[0] == ']'
    ensures ReadItems(s, rd) == Some(([v], w[1..]))
  {
  }

  lemma MoreItems(s: string, v: Json, u: string, w: string, x: string, vs: seq<Json>, rest: string, rd: Reader)
    requires ReadValue(s, rd) == Some((v, u)) && SkipSpace(u) == w && w != "" && w[0] == ','
    requires SkipSpace(w[1..]) == x && ReadItems(x, rd) == Some((vs, rest))
    ensures ReadItems(s, rd) == Some(([v] + vs, rest))
  {
  }

  lemma LastMember(s: string, key: Text, k: string, v: Json, u: string, w: string, rd: Reader)
    requires ReadKey(s) == Some((key, k)) && ReadValue(k, rd) == Some((v, u))
    requires SkipSpace(u) == w && w != "" && w[0] == '}'
    ensures ReadMembers(s, rd) == Some(([Member(key, v)], w[1..]))
  {
  }

  lemma MoreMembers(s: string, key: Text, k: string, v: Json, u: string, w: string, x: string, ms: seq<Member>,
                    rest: string, rd: Reader)
    requires ReadKey(s) == Some((key, k)) && ReadValue(k, rd) == Some((v, u))
    requires SkipSpace(u) == w && w != "" && w[0] == ',' && SkipSpace(w[1..]) == x
    requires ReadMembers(x, rd) == Some((ms, rest))
    ensures ReadMembers(s, rd) == Some(([Member(key, v)] + ms, rest))
  {
  }

  /** `s` is `a`, then white space `w`, then `b`, which starts with something else. */
  lemma AfterWhite(w: string, b: string)
    requires White(w) && b != "" && !IsWhite(b[0])
    ensures SkipSpace(w + b) == b && (w + b != "") && (IsWhite((w + b)[0]) || (w + b)[0] == b[0])
  {
    SkipWhite(w, b);
    FrontOf(w, b);
  }

  lemma KeyRead(f: Field, value: string, s: string)
    requires PiecesFit(f.key) && White(f.before) && White(f.gap) && Front(value) && s == KeyText(f) + value
    ensures ReadKey(s) == Some((LiteralMeaning(f.key), value))
  {
    var tail := f.gap + value;
    var u := f.before + ([':'] + tail);
    KeyRegrouped(f, value);
    assert s[0] == '"' && s[1..] == LiteralText(f.key) + u;
    LiteralRead(f.key, u);
    AfterWhite(f.before, [':'] + tail);
    AfterWhite(f.gap, value);
    assert ([':'] + tail)[1..] == tail;
  }

  lemma KeyRegrouped(f: Field, value: string)
    ensures KeyText(f) + value == ['"'] + (LiteralText(f.key) + (f.before + ([':'] + (f.gap + value))))
  {
    Regroup(['"'], LiteralText(f.key) + (f.before + ([':'] + f.gap)), value);
    Regroup(LiteralText(f.key), f.before + ([':'] + f.gap), value);
    Regroup(f.before, [':'] + f.gap, value);
    Regroup([':'], f.gap, value);
  }

  lemma ElemsFront(elems: seq<Elem>, rest: string)
    requires elems != [] && forall e :: e in elems ==> ElemFits(e)
    ensures Front(ElemsText(elems) + rest)
  {
    assert ElemFits(elems[0]);
    SpellingFront(elems[0].tree);
  }

  /** The last value of an array, and the text up to and past it. */
  lemma LastElem(e: Elem, rest: string)
    ensures ElemsText([e]) + rest == Spelling(e.tree) + (e.after + ([']'] + rest))
  {
    Regroup(Spelling(e.tree), e.after + [']'], rest);
    Regroup(e.after, [']'], rest);
  }

  lemma MoreElems(elems: seq<Elem>, rest: string)
    requires |elems| > 1
    ensures var e, more := elems[0], ElemsText(elems[1..]);
            ElemsText(elems) + rest == Spelling(e.tree) + (e.after + ([','] + (e.next + (more + rest))))
  {
    var e, more := elems[0], ElemsText(elems[1..]);
    Regroup(Spelling(e.tree), e.after + ([','] + (e.next + more)), rest);
    Regroup(e.after, [','] + (e.next + more), rest);
    Regroup([','], e.next + more, rest);
    Regroup(e.next, more, rest);
  }

  lemma LastField(f: Field, rest: string)
    ensures FieldsText([f]) + rest == KeyText(f) + (Spelling(f.tree) + (f.after + (['}'] + rest)))
  {
    Regroup(KeyText(f), Spelling(f.tree) + (f.after + ['}']), rest);
    Regroup(Spelling(f.tree), f.after + ['}'], rest);
    Regroup(f.after, ['}'], rest);
  }

  lemma MoreFields(fields: seq<Field>, rest: string)
    requires |fields| > 1
    ensures var f, more := fields[0], FieldsText(fields[1..]);
            FieldsText(fields) + rest ==
            KeyText(f) + (Spelling(f.tree) + (f.after + ([','] + (f.next + (more + rest)))))
  {
    var f, more := fields[0], FieldsText(fields[1..]);
    Regroup(KeyText(f), Spelling(f.tree) + (f.after + ([','] + (f.next + more))), rest);
    Regroup(Spelling(f.tree), f.after + ([','] + (f.next + more)), rest);
    Regroup(f.after, [','] + (f.next + more), rest);
    Regroup([','], f.next + more, rest);
    Regroup(f.next, more, rest);
  }

  /** What follows a value in an array or object ends it. */
  lemma EndsAfter(w: string, mark: char, more: string)
    requires White(w) && (mark == ',' || mark == ']' || mark == '}')
    ensures Ends(w + ([mark] + more)) && SkipSpace(w + ([mark] + more)) == [mark] + more
    ensures ([mark] + more)[0] == mark && ([mark] + more)[1..] == more
  {
    AfterWhite(w, [mark] + more);
  }

  lemma {:induction false} TreeRead(t: Tree, rest: string, rd: Reader)
    requires WellSpelled(t) && Ends(rest) && !rd.strict
    ensures ReadValue(Spelling(t) + rest, rd) == Some((Meaning(t, rd.toFloat), rest))
    decreases t
  {
    var s := Spelling(t) + rest;
    match t
    case NullTree => WordRead(t, rest, rd, s);
    case BoolTree(_) => WordRead(t, rest, rd, s);
    case ConstantTree(name) => ConstantRead(name, rest, rd, s);
    case NumberTree(numeral) => NumberRead(numeral, rest, rd, s);
    case StringTree(pieces) => StringRead(pieces, rest, rd, s);
    case ArrayTree(gap, elems) =>
      if elems != [] { ElemsRead(elems, rest, rd); }
      ArrayRead(gap, elems, rest, rd, s);
    case ObjectTree(gap, fields) =>
      if fields != [] { FieldsRead(fields, rest, rd); }
      ObjectRead(gap, fields, rest, rd, s);
  }

  lemma ArrayRead(gap: string, elems: seq<Elem>, rest: string, rd: Reader, s: string)
    requires White(gap) && (forall e :: e in elems ==> ElemFits(e)) && s == Spelling(ArrayTree(gap, elems)) + rest
    requires elems != [] ==> ReadItems(ElemsText(elems) + rest, rd) == Some((ElemsMeaning(elems, rd.toFloat), rest))
    ensures ReadValue(s, rd) == Some((Arr(ElemsMeaning(elems, rd.toFloat)), rest))
  {
    var body := if elems == [] then [']'] else ElemsText(elems);
    Regroup(['['], gap + body, rest);
    Regroup(gap, body, rest);
    if elems != [] { ElemsFront(elems, rest); }
    AfterWhite(gap, body + rest);
    Opened(s, '[', gap + (body + rest));
  }

  lemma Opened(s: string, mark: char, more: string)
    requires s == [mark] + more
    ensures s != "" && s[0] == mark && s[1..] == more
  {
  }

  lemma ObjectRead(gap: string, fields: seq<Field>, rest: string, rd: Reader, s: string)
    requires White(gap) && !rd.strict && s == Spelling(ObjectTree(gap, fields)) + rest
    requires fields != [] ==>
               ReadMembers(FieldsText(fields) + rest, rd) == Some((FieldsMeaning(fields, rd.toFloat), rest))
    ensures ReadValue(s, rd) == Some((Obj(FieldsMeaning(fields, rd.toFloat)), rest))
  {
    var body := if fields == [] then ['}'] else FieldsText(fields);
    Regroup(['{'], gap + body, rest);
    Regroup(gap, body, rest);
    if fields != [] { FieldsFront(fields, rest); }
    AfterWhite(gap, body + rest);
    Opened(s, '{', gap + (body + rest));
  }

  lemma OneElemMeaning(e: Elem, toFloat: FloatOf)
    ensures ElemsMeaning([e], toFloat) == [Meaning(e.tree, toFloat)]
  {
    assert [e][1..] == [] && [Meaning(e.tree, toFloat)] + [] == [Meaning(e.tree, toFloat)];
  }

  lemma LastElemRead(e: Elem, rest: string, rd: Reader, s: string, u: string, v: Json)
    requires ElemFits(e) && s == ElemsText([e]) + rest && u == e.after + ([']'] + rest)
    requires ReadValue(Spelling(e.tree) + u, rd) == Some((v, u))
    ensures ReadItems(s, rd) == Some(([v], rest))
  {
    LastElem(e, rest);
    EndsAfter(e.after, ']', rest);
    LastItem(s, v, u, [']'] + rest, rd);
  }

  lemma MoreElemsRead(elems: seq<Elem>, rest: string, rd: Reader, s: string, u: string, v: Json, x: string,
                      vs: seq<Json>)
    requires |elems| > 1 && ElemFits(elems[0]) && s == ElemsText(elems) + rest && x == ElemsText(elems[1..]) + rest
    requires Front(x) && ReadItems(x, rd) == Some((vs, rest))
    requires u == elems[0].after + ([','] + (elems[0].next + x))
    requires ReadValue(Spelling(elems[0].tree) + u, rd) == Some((v, u))
    ensures ReadItems(s, rd) == Some(([v] + vs, rest))
  {
    var e := elems[0];
    MoreElems(elems, rest);
    EndsAfter(e.after, ',', e.next + x);
    AfterWhite(e.next, x);
    MoreItems(s, v, u, [','] + (e.next + x), x, vs, rest, rd);
  }

  lemma {:induction false} ElemsRead(elems: seq<Elem>, rest: string, rd: Reader)
    requires elems != [] && !rd.strict && forall e :: e in elems ==> ElemFits(e)
    ensures ReadItems(ElemsText(elems) + rest, rd) == Some((ElemsMeaning(elems, rd.toFloat), rest))
    decreases elems
  {
    var e, tail, s := elems[0], elems[1..], ElemsText(elems) + rest;
    assert ElemFits(e);
    if |elems| == 1 {
      var u := e.after + ([']'] + rest);
      assert elems == [e];
      EndsAfter(e.after, ']', rest);
      TreeRead(e.tree, u, rd);
      LastElemRead(e, rest, rd, s, u, Meaning(e.tree, rd.toFloat));
      OneElemMeaning(e, rd.toFloat);
    } else {
      var x := ElemsText(tail) + rest;
      var u := e.after + ([','] + (e.next + x));
      EndsAfter(e.after, ',', e.next + x);
      ElemsFront(tail, rest);
      TreeRead(e.tree, u, rd);
      ElemsRead(tail, rest, rd);
      MoreElemsRead(elems, rest, rd, s, u, Meaning(e.tree, rd.toFloat), x, ElemsMeaning(tail, rd.toFloat));
    }
  }

  lemma OneFieldMeaning(f: Field, toFloat: FloatOf)
    ensures FieldsMeaning([f], toFloat) == [Member(LiteralMeaning(f.key), Meaning(f.tree, toFloat))]
  {
    var m := Member(LiteralMeaning(f.key), Meaning(f.tree, toFloat));
    assert [f][1..] == [] && [m] + [] == [m];
  }

  lemma FieldKeyRead(f: Field, u: string, s: string)
    requires FieldFits(f) && s == KeyText(f) + (Spelling(f.tree) + u)
    ensures ReadKey(s) == Some((LiteralMeaning(f.key), Spelling(f.tree) + u))
  {
    SpellingFront(f.tree);
    FrontOf(Spelling(f.tree), u);
    KeyRead(f, Spelling(f.tree) + u, s);
  }

  lemma LastFieldRead(f: Field, rest: string, rd: Reader, s: string, u: string, v: Json)
    requires FieldFits(f) && s == FieldsText([f]) + rest && u == f.after + (['}'] + rest)
    requires ReadValue(Spelling(f.tree) + u, rd) == Some((v, u))
    ensures ReadMembers(s, rd) == Some(([Member(LiteralMeaning(f.key), v)], rest))
  {
    LastField(f, rest);
    FieldKeyRead(f, u, s);
    EndsAfter(f.after, '}', rest);
    LastMember(s, LiteralMeaning(f.key), Spelling(f.tree) + u, v, u, ['}'] + rest, rd);
  }

  lemma MoreFieldsRead(fields: seq<Field>, rest: string, rd: Reader, s: string, u: string, v: Json, x: string,
                       ms: seq<Member>)
    requires |fields| > 1 && FieldFits(fields[0]) && s == FieldsText(fields) + rest
    requires x == FieldsText(fields[1..]) + rest && Front(x) && ReadMembers(x, rd) == Some((ms, rest))
    requires u == fields[0].after + ([','] + (fields[0].next + x))
    requires ReadValue(Spelling(fields[0].tree) + u, rd) == Some((v, u))
    ensures ReadMembers(s, rd) == Some(([Member(LiteralMeaning(fields[0].key), v)] + ms, rest))
  {
    var f := fields[0];
    MoreFields(fields, rest);
    FieldKeyRead(f, u, s);
    EndsAfter(f.after, ',', f.next + x);
    AfterWhite(f.next, x);
    MoreMembers(s, LiteralMeaning(f.key), Spelling(f.tree) + u, v, u, [','] + (f.next + x), x, ms, rest, rd);
  }

  lemma FieldsFront(fields: seq<Field>, rest: string)
    requires fields != []
    ensures Front(FieldsText(fields) + rest)
  {
  }

  lemma {:induction false} FieldsRead(fields: seq<Field>, rest: string, rd: Reader)
    requires fields != [] && !rd.strict && forall f :: f in fields ==> FieldFits(f)
    ensures ReadMembers(FieldsText(fields) + rest, rd) == Some((FieldsMeaning(fields, rd.toFloat), rest))
    decreases fields
  {
    var f, tail, s := fields[0], fields[1..], FieldsText(fields) + rest;
    assert FieldFits(f);
    if |fields| == 1 {
      var u := f.after + (['}'] + rest);
      assert fields == [f];
      EndsAfter(f.after, '}', rest);
      TreeRead(f.tree, u, rd);
      LastFieldRead(f, rest, rd, s, u, Meaning(f.tree, rd.toFloat));
      OneFieldMeaning(f, rd.toFloat);
    } else {
      var x := FieldsText(tail) + rest;
      var u := f.after + ([','] + (f.next + x));
      EndsAfter(f.after, ',', f.next + x);
      FieldsFront(tail, rest);
      TreeRead(f.tree, u, rd);
      FieldsRead(tail, rest, rd);
      MoreFieldsRead(fields, rest, rd, s, u, Meaning(f.tree, rd.toFloat), x, FieldsMeaning(tail, rd.toFloat));
    }
  }

  // ----- Everything read is a spelling -----

  lemma Split(s: string, k: nat)
    requires k <= |s|
    ensures s == s[..k] + s[k..]
  {
  }

  lemma NumberSpelled(s: string, rd: Reader) returns (n: Numeral)
    requires !rd.strict && ReadNumber(s, rd).Some?
    ensures var (v, rest) := ReadNumber(s, rd).value;
            NumeralFits(n) && NumeralMeaning(n, rd.toFloat) == v && s == NumeralText(n) + rest
  {
    n := NumeralSpelled(s);
    Split(s, NumberEnd(s).value.0);
    if !IsFloat(n) { IntValueExact(n, rd.toFloat); }
  }

  /** The words and constants: null, true, false and the three that are not numbers. */
  lemma WordSpelled(s: string, rd: Reader, word: string, t: Tree)
    requires word <= s && Spelling(t) == word
    ensures s == Spelling(t) + s[|word|..]
  {
    Split(s, |word|);
  }

  lemma AtomSpelled(s: string, rd: Reader) returns (t: Tree)
    requires !rd.strict && ReadAtom(s, rd).Some?
    ensures var (v, rest) := ReadAtom(s, rd).value;
            WellSpelled(t) && Meaning(t, rd.toFloat) == v && s == Spelling(t) + rest
  {
    if "null" <= s {
      t := NullTree;
      WordSpelled(s, rd, "null", t);
    } else if "true" <= s {
      t := BoolTree(true);
      WordSpelled(s, rd, "true", t);
    } else if "false" <= s {
      t := BoolTree(false);
      WordSpelled(s, rd, "false", t);
    } else if "NaN" <= s {
      t := ConstantTree("NaN");
      WordSpelled(s, rd, "NaN", t);
    } else if "Infinity" <= s {
      t := ConstantTree("Infinity");
      WordSpelled(s, rd, "Infinity", t);
    } else if "-Infinity" <= s {
      t := ConstantTree("-Infinity");
      WordSpelled(s, rd, "-Infinity", t);
    } else {
      var n := NumberSpelled(s, rd);
      t := NumberTree(n);
    }
  }

  lemma {:induction false} TreeSpelled(s: string, rd: Reader) returns (t: Tree)
    requires !rd.strict && ReadValue(s, rd).Some?
    ensures var (v, rest) := ReadValue(s, rd).value;
            WellSpelled(t) && Meaning(t, rd.toFloat) == v && s == Spelling(t) + rest
    decreases |s|, 0
  {
    var rest := ReadValue(s, rd).value.1;
    if s[0] == '"' {
      var pieces := LiteralSpelled(s[1..]);
      t := StringTree(pieces);
      Reopened(s, "", LiteralText(pieces), rest);
    } else if s[0] == '[' {
      var gap := Skipped(s[1..]);
      var u := SkipSpace(s[1..]);
      if u != "" && u[0] == ']' {
        t := ArrayTree(gap, []);
        Split(u, 1);
        Reopened(s, gap, [']'], rest);
      } else {
        var elems := ItemsSpelled(u, rd);
        t := ArrayTree(gap, elems);
        Reopened(s, gap, ElemsText(elems), rest);
      }
    } else if s[0] == '{' {
      var gap := Skipped(s[1..]);
      var u := SkipSpace(s[1..]);
      if u != "" && u[0] == '}' {
        t := ObjectTree(gap, []);
        Split(u, 1);
        Reopened(s, gap, ['}'], rest);
      } else {
        var fields := MembersSpelled(u, rd);
        t := ObjectTree(gap, fields);
        Reopened(s, gap, FieldsText(fields), rest);
      }
    } else {
      t := AtomSpelled(s, rd);
    }
  }

  /** An opening mark, white space, a body and the rest. */
  lemma Reopened(s: string, gap: string, body: string, rest: string)
    requires s != "" && s[1..] == gap + (body + rest)
    ensures s == [s[0]] + (gap + body) + rest && "" + body == body
  {
    Regroup([s[0]], gap + body, rest);
    Regroup(gap, body, rest);
    assert s == [s[0]] + s[1..];
  }

  /** How the reader took a list of values apart. */
  lemma ItemsTaken(s: string, rd: Reader)
    requires ReadItems(s, rd).Some?
    ensures ReadValue(s, rd).Some?
    ensures var (v, u) := ReadValue(s, rd).value;
            var w := SkipSpace(u);
            w != "" &&
            if w[0] == ']' then ReadItems(s, rd) == Some(([v], w[1..]))
            else w[0] == ',' && ReadItems(SkipSpace(w[1..]), rd).Some? &&
                 var (vs, rest) := ReadItems(SkipSpace(w[1..]), rd).value;
                 ReadItems(s, rd) == Some(([v] + vs, rest))
  {
  }

  lemma LastElemIs(e: Elem, s: string, u: string, w: string, rest: string)
    requires s == Spelling(e.tree) + u && u == e.after + w && w == [']'] + rest
    ensures s == ElemsText([e]) + rest
  {
    LastElem(e, rest);
  }

  lemma MoreElemsAre(elems: seq<Elem>, s: string, u: string, w: string, x: string, rest: string)
    requires |elems| > 1 && s == Spelling(elems[0].tree) + u && u == elems[0].after + w
    requires w == [','] + (elems[0].next + x) && x == ElemsText(elems[1..]) + rest
    ensures s == ElemsText(elems) + rest
  {
    MoreElems(elems, rest);
  }

  lemma ElemsPut(e: Elem, tail: seq<Elem>, toFloat: FloatOf)
    requires tail != [] && ElemFits(e) && forall x :: x in tail ==> ElemFits(x)
    ensures var elems := [e] + tail;
            elems[1..] == tail && elems[0] == e && (forall x :: x in elems ==> ElemFits(x)) &&
            ElemsMeaning(elems, toFloat) == [Meaning(e.tree, toFloat)] + ElemsMeaning(tail, toFloat)
  {
    assert ([e] + tail)[1..] == tail;
  }

  lemma {:induction false} ItemsSpelled(s: string, rd: Reader) returns (elems: seq<Elem>)
    requires !rd.strict && ReadItems(s, rd).Some?
    ensures var (vs, rest) := ReadItems(s, rd).value;
            elems != [] && (forall e :: e in elems ==> ElemFits(e)) && ElemsMeaning(elems, rd.toFloat) == vs &&
            s == ElemsText(elems) + rest
    decreases |s|, 1
  {
    ItemsTaken(s, rd);
    var rest := ReadItems(s, rd).value.1;
    var tree := TreeSpelled(s, rd);
    var u := ReadValue(s, rd).value.1;
    var after := Skipped(u);
    var w := SkipSpace(u);
    Split(w, 1);
    if w[0] == ']' {
      var e := Elem(tree, after, "");
      elems := [e];
      OneElemMeaning(e, rd.toFloat);
      LastElemIs(e, s, u, w, rest);
    } else {
      var next := Skipped(w[1..]);
      var x := SkipSpace(w[1..]);
      var tail := ItemsSpelled(x, rd);
      var e := Elem(tree, after, next);
      elems := [e] + tail;
      ElemsPut(e, tail, rd.toFloat);
      MoreElemsAre(elems, s, u, w, x, rest);
    }
  }

  /** How the reader took a key apart. */
  lemma KeyTaken(s: string)
    requires ReadKey(s).Some?
    ensures s != "" && s[0] == '"' && ReadText(s[1..]).Some?
    ensures var (key, u) := ReadText(s[1..]).value;
            var w := SkipSpace(u);
            w != "" && w[0] == ':' && ReadKey(s) == Some((key, SkipSpace(w[1..])))
  {
  }

  lemma KeySpelled(s: string) returns (key: seq<Piece>, before: string, gap: string)
    requires ReadKey(s).Some?
    ensures PiecesFit(key) && White(before) && White(gap) && LiteralMeaning(key) == ReadKey(s).value.0
    ensures s == ['"'] + (LiteralText(key) + (before + ([':'] + (gap + ReadKey(s).value.1))))
  {
    KeyTaken(s);
    key := LiteralSpelled(s[1..]);
    var u := ReadText(s[1..]).value.1;
    before := Skipped(u);
    var w := SkipSpace(u);
    gap := Skipped(w[1..]);
    KeyParts(s, LiteralText(key), u, before, w, gap, SkipSpace(w[1..]));
  }

  lemma KeyParts(s: string, literal: string, u: string, before: string, w: string, gap: string, value: string)
    requires s != "" && s[0] == '"' && s[1..] == literal + u && u == before + w
    requires w != "" && w[0] == ':' && w[1..] == gap + value
    ensures s == ['"'] + (literal + (before + ([':'] + (gap + value))))
  {
    assert s == [s[0]] + s[1..];
    assert w == [w[0]] + w[1..];
  }

  lemma MembersTaken(s: string, rd: Reader)
    requires ReadMembers(s, rd).Some?
    ensures ReadKey(s).Some? && ReadValue(ReadKey(s).value.1, rd).Some?
    ensures var (key, k) := ReadKey(s).value;
            var (v, u) := ReadValue(k, rd).value;
            var w := SkipSpace(u);
            w != "" &&
            if w[0] == '}' then ReadMembers(s, rd) == Some(([Member(key, v)], w[1..]))
            else w[0] == ',' && ReadMembers(SkipSpace(w[1..]), rd).Some? &&
                 var (ms, rest) := ReadMembers(SkipSpace(w[1..]), rd).value;
                 ReadMembers(s, rd) == Some(([Member(key, v)] + ms, rest))
  {
  }

  lemma LastFieldIs(f: Field, s: string, k: string, u: string, w: string, rest: string)
    requires s == ['"'] + (LiteralText(f.key) + (f.before + ([':'] + (f.gap + k))))
    requires k == Spelling(f.tree) + u && u == f.after + w && w == ['}'] + rest
    ensures s == FieldsText([f]) + rest
  {
    KeyRegrouped(f, k);
    LastField(f, rest);
  }

  lemma MoreFieldsAre(fields: seq<Field>, s: string, k: string, u: string, w: string, x: string, rest: string)
    requires |fields| > 1 && k == Spelling(fields[0].tree) + u
    requires var f := fields[0]; s == ['"'] + (LiteralText(f.key) + (f.before + ([':'] + (f.gap + k))))
    requires u == fields[0].after + w && w == [','] + (fields[0].next + x) && x == FieldsText(fields[1..]) + rest
    ensures s == FieldsText(fields) + rest
  {
    KeyRegrouped(fields[0], k);
    MoreFields(fields, rest);
  }

  lemma FieldsPut(f: Field, tail: seq<Field>, toFloat: FloatOf)
    requires tail != [] && FieldFits(f) && forall x :: x in tail ==> FieldFits(x)
    ensures var fields := [f] + tail;
            fields[1..] == tail && fields[0] == f && (forall x :: x in fields ==> FieldFits(x)) &&
            FieldsMeaning(fields, toFloat) ==
            [Member(LiteralMeaning(f.key), Meaning(f.tree, toFloat))] + FieldsMeaning(tail, toFloat)
  {
    assert ([f] + tail)[1..] == tail;
  }

  /** The fields spell the members up to what is left unread. */
  ghost predicate FieldsSpell(fields: seq<Field>, s: string, ms: seq<Member>, rest: string, toFloat: FloatOf) {
    && fields != [] && (forall f :: f in fields ==> FieldFits(f)) && FieldsMeaning(fields, toFloat) == ms
    && s == FieldsText(fields) + rest
  }

  lemma LastFieldSpells(f: Field, s: string, k: string, u: string, w: string, rest: string, toFloat: FloatOf)
    requires FieldFits(f) && s == ['"'] + (LiteralText(f.key) + (f.before + ([':'] + (f.gap + k))))
    requires k == Spelling(f.tree) + u && u == f.after + w && w == ['}'] + rest
    ensures FieldsSpell([f], s, [Member(LiteralMeaning(f.key), Meaning(f.tree, toFloat))], rest, toFloat)
  {
    OneFieldMeaning(f, toFloat);
    LastFieldIs(f, s, k, u, w, rest);
  }

  lemma MoreFieldsSpell(f: Field, tail: seq<Field>, s: string, k: string, u: string, w: string, x: string,
                        ms: seq<Member>, rest: string, toFloat: FloatOf)
    requires FieldFits(f) && s == ['"'] + (LiteralText(f.key) + (f.before + ([':'] + (f.gap + k))))
    requires k == Spelling(f.tree) + u && u == f.after + w && w == [','] + (f.next + x)
    requires FieldsSpell(tail, x, ms, rest, toFloat)
    ensures FieldsSpell([f] + tail, s, [Member(LiteralMeaning(f.key), Meaning(f.tree, toFloat))] + ms, rest, toFloat)
  {
    FieldsPut(f, tail, toFloat);
    MoreFieldsAre([f] + tail, s, k, u, w, x, rest);
  }

  lemma {:induction false} MembersSpelled(s: string, rd: Reader) returns (fields: seq<Field>)
    requires !rd.strict && ReadMembers(s, rd).Some?
    ensures FieldsSpell(fields, s, ReadMembers(s, rd).value.0, ReadMembers(s, rd).value.1, rd.toFloat)
    decreases |s|, 1
  {
    MembersTaken(s, rd);
    var (ms, rest) := ReadMembers(s, rd).value;
    var key, before, gap := KeySpelled(s);
    var k := ReadKey(s).value.1;
    var tree := TreeSpelled(k, rd);
    var u := ReadValue(k, rd).value.1;
    var after := Skipped(u);
    var w := SkipSpace(u);
    Split(w, 1);
    if w[0] == '}' {
      var f := Field(key, before, gap, tree, after, "");
      fields := [f];
      LastFieldSpells(f, s, k, u, w, rest, rd.toFloat);
    } else {
      var next := Skipped(w[1..]);
      var x := SkipSpace(w[1..]);
      var tail := MembersSpelled(x, rd);
      var f := Field(key, before, gap, tree, after, next);
      fields := [f] + tail;
      MoreFieldsSpell(f, tail, s, k, u, w, x, ReadMembers(x, rd).value.0, rest, rd.toFloat);
    }
  }

  // ----- The readers -----

  lemma SpellingLoads(text: string, v: Json, rd: Reader, before: string, tree: Tree, after: string)
    requires !rd.strict && SpelledAs(text, v, rd.toFloat, before, tree, after)
    ensures Load(text, rd) == Some(v)
  {
    SpellingFront(tree);
    FrontOf(Spelling(tree), after);
    AfterWhite(before, Spelling(tree) + after);
    TreeRead(tree, after, rd);
    SkipWhite(after, "");
    assert after + "" == after;
  }

  /** The reader that keeps everything accepts exactly the spellings, each as the value it spells. */
  lemma LoadExactly(text: string, v: Json, rd: Reader)
    requires !rd.strict
    ensures Load(text, rd) == Some(v) <==> Spells(text, v, rd.toFloat)
  {
    if Load(text, rd) == Some(v) {
      var before := Skipped(text);
      var tree := TreeSpelled(SkipSpace(text), rd);
      var rest := ReadValue(SkipSpace(text), rd).value.1;
      var after := Skipped(rest);
      assert after + "" == after;
      assert SpelledAs(text, v, rd.toFloat, before, tree, after);
    }
    if Spells(text, v, rd.toFloat) {
      var before, tree, after :| SpelledAs(text, v, rd.toFloat, before, tree, after);
      SpellingLoads(text, v, rd, before, tree, after);
    }
  }

  lemma {:induction false} RawStrictMeans(v: Json)
    ensures RawStrict(v) <==> Finite(v) && Dicts(v)
  {
    match v
    case Arr(items) => RawStrictItemsMean(items);
    case Obj(members) => RawStrictMembersMean(members);
    case _ =>
  }

  lemma {:induction false} RawStrictItemsMean(items: seq<Json>)
    ensures RawStrictItems(items) <==> forall x :: x in items ==> Finite(x) && Dicts(x)
  {
    if items != [] {
      RawStrictMeans(items[0]);
      RawStrictItemsMean(items[1..]);
      assert items == [items[0]] + items[1..];
    }
  }

  lemma {:induction false} RawStrictMembersMean(members: seq<Member>)
    ensures RawStrictMembers(members) <==> forall m :: m in members ==> Finite(m.value) && Dicts(m.value)
  {
    if members != [] {
      RawStrictMeans(members[0].value);
      RawStrictMembersMean(members[1..]);
      assert members == [members[0]] + members[1..];
    }
  }

  /** The strict reader accepts exactly the spellings of finite values whose dicts have distinct keys. */
  lemma StrictExactly(text: string, v: Json, rd: Reader)
    ensures Load(text, Strict(rd)) == Some(v) <==> Spells(text, v, rd.toFloat) && Finite(v) && Dicts(v)
  {
    StrictIsRawThenChecked(text, rd);
    LoadExactly(text, v, Raw(rd));
    RawStrictMeans(v);
  }
}
