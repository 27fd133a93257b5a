/**
 The form of a canonical text: among all the texts that spell a value, the printer writes the compact one.

 A compact spelling has no white space between tokens, no escape where a printable ASCII character can stand
 for itself, the short escape where there is one, hexadecimal digits in lower case, and no negative zero. Of a
 value without surrogate pairs there is exactly one such text.
 */
module JsonCompact {
  import opened Basics
  import opened Json
  import opened JsonGrammar
  import opened JsonNumber
  import opened JsonRoundTrip
  import opened JsonSpelling
  import opened JsonText

  // ----- Compact spellings -----

  predicate LowerHex(digits: string) {
    forall c :: c in digits ==> '0' <= c <= '9' || 'a' <= c <= 'f'
  }

  ghost predicate HasShortEscape(code: CodePoint) {
    exists letter :: Escapes(letter, code)
  }

  /** Printable ASCII stands for itself, then short escapes are preferred, then lower-case hexadecimal ones. */
  ghost predicate CompactPiece(piece: Piece) {
    match piece
    case Plain(c) => c <= '~'
    case Escaped(letter, _) => letter != '/'
    case Unicode(digits, code) => LowerHex(digits) && !(0x20 <= code <= 0x7E) && !HasShortEscape(code)
  }

  ghost predicate CompactPieces(pieces: seq<Piece>) {
    forall piece :: piece in pieces ==> CompactPiece(piece)
  }

  ghost predicate Compact(t: Tree)
    decreases t
  {
    match t
    case ConstantTree(_) => false
    case NumberTree(n) => !IsFloat(n) ==> !(n.negative && n.whole == "0")
    case StringTree(pieces) => CompactPieces(pieces)
    case ArrayTree(gap, elems) => gap == "" && forall e :: e in elems ==> CompactElem(e)
    case ObjectTree(gap, fields) => gap == "" && forall f :: f in fields ==> CompactField(f)
    case _ => true
  }

  ghost predicate CompactElem(e: Elem)
    decreases e
  {
    Compact(e.tree) && e.after == "" && e.next == ""
  }

  ghost predicate CompactField(f: Field)
    decreases f
  {
    CompactPieces(f.key) && f.before == "" && f.gap == "" && Compact(f.tree) && f.after == "" && f.next == ""
  }

  /** Every float is written as its `repr`. */
  ghost predicate PlainFloats(t: Tree, toFloat: FloatOf)
    decreases t
  {
    match t
    case NumberTree(n) => IsFloat(n) ==> toFloat(NumeralText(n)) == Some(NumeralText(n))
    case ArrayTree(_, elems) => forall e :: e in elems ==> PlainFloats(e.tree, toFloat)
    case ObjectTree(_, fields) => forall f :: f in fields ==> PlainFloats(f.tree, toFloat)
    case _ => true
  }

  ghost predicate Good(t: Tree, toFloat: FloatOf) {
    WellSpelled(t) && Compact(t) && PlainFloats(t, toFloat)
  }

  // ----- What the printer writes is compact -----

  lemma HexOfFour(n: int)
    requires 0 <= n < 0x1_0000
    ensures HexDigits(Hex4(n), n) && LowerHex(Hex4(n))
  {
    HexRoundTrip(n, "");
    assert Hex4(n) + "" == Hex4(n);
    ReadHexExact(Hex4(n), "", n);
  }

  lemma NoShort(c: CodePoint)
    requires ShortEscape(c).None? && !(0x20 <= c <= 0x7E)
    ensures !HasShortEscape(c)
  {
  }

  lemma UnitPiece(n: CodePoint)
    requires n < 0x1_0000 && ShortEscape(n).None? && !(0x20 <= n <= 0x7E)
    ensures var piece := Unicode(Hex4(n), n);
            PieceFits(piece) && CompactPiece(piece) && PieceText(piece) == UnicodeEscape(n)
  {
    HexOfFour(n);
    NoShort(n);
  }

  /** The pieces of one code point. */
  lemma PointPieces(c: CodePoint) returns (pieces: seq<Piece>)
    ensures PiecesFit(pieces) && CompactPieces(pieces)
    ensures if c < 0x1_0000 then |pieces| == 1 && EscapePoint(c) == PieceText(pieces[0])
            else |pieces| == 2 && EscapePoint(c) == PieceText(pieces[0]) + PieceText(pieces[1])
  {
    if ShortEscape(c).Some? {
      var letter := ShortEscape(c).value;
      EscapesExact(letter, c);
      pieces := [Escaped(letter, c)];
    } else if 32 <= c <= 126 {
      pieces := [Plain(c as char)];
    } else if c < 0x1_0000 {
      UnitPiece(c);
      pieces := [Unicode(Hex4(c), c)];
    } else {
      UnitPiece(LeadUnit(c));
      UnitPiece(TrailUnit(c));
      pieces := [Unicode(Hex4(LeadUnit(c)), LeadUnit(c)), Unicode(Hex4(TrailUnit(c)), TrailUnit(c))];
    }
  }

  lemma {:induction false} TextPieces(t: Text) returns (pieces: seq<Piece>)
    ensures PiecesFit(pieces) && CompactPieces(pieces) && LiteralText(pieces) == Quoted(t)
  {
    if t == [] {
      pieces := [];
      assert "" + ['"'] == ['"'];
    } else {
      var front := PointPieces(t[0]);
      var tail := TextPieces(t[1..]);
      pieces := front + tail;
      Regroup(EscapePoint(t[0]), Escape(t[1..]), ['"']);
      if |front| == 1 {
        assert pieces[1..] == tail;
      } else {
        assert pieces[1..] == [front[1]] + tail && pieces[1..][1..] == tail;
        Regroup(PieceText(front[0]), PieceText(front[1]), LiteralText(tail));
      }
    }
  }

  lemma WholeNumeral(s: string, float: bool) returns (n: Numeral)
    requires NumberEnd(s) == Some((|s|, float))
    ensures NumeralFits(n) && NumeralText(n) == s && (IsFloat(n) <==> float)
  {
    n := NumeralSpelled(s);
    assert s[..|s|] == s;
  }

  lemma NotMinusZero(k: int)
    ensures IntText(k) != ['-', '0']
  {
    if k < 0 {
      var s := NatText(-k);
      assert s[0] == '0' ==> -k == 0;
      assert IntText(k)[1] == s[0];
    }
  }

  lemma IntNumeral(k: int) returns (n: Numeral)
    ensures NumeralFits(n) && NumeralText(n) == IntText(k) && !IsFloat(n) && !(n.negative && n.whole == "0")
  {
    IntRoundTrip(k);
    n := WholeNumeral(IntText(k), false);
    IntegerText(n);
    NotMinusZero(k);
  }

  lemma {:induction false} Printed(v: Json, toFloat: FloatOf) returns (t: Tree)
    requires Finite(v) && Floats(v, toFloat)
    ensures Good(t, toFloat) && Spelling(t) == Render(v)
    decreases v
  {
    match v
    case Null => t := NullTree;
    case Bool(b) => t := BoolTree(b);
    case Int(k) =>
      var n := IntNumeral(k);
      t := NumberTree(n);
    case Float(repr) =>
      var n := WholeNumeral(repr, true);
      t := NumberTree(n);
    case Str(text) =>
      var pieces := TextPieces(text);
      t := StringTree(pieces);
    case Arr(items) =>
      var elems: seq<Elem> := [];
      if items != [] { elems := PrintedItems(items, toFloat); }
      t := ArrayTree("", elems);
      assert "" + ['['] == ['['];
      NoGap(if elems == [] then [']'] else ElemsText(elems));
    case Obj(members) =>
      var fields: seq<Field> := [];
      if members != [] { fields := PrintedMembers(members, toFloat); }
      t := ObjectTree("", fields);
      NoGap(if fields == [] then ['}'] else FieldsText(fields));
  }

  lemma NoGap(body: string)
    ensures "" + body == body
  {
  }

  ghost predicate GoodElem(e: Elem, toFloat: FloatOf) {
    ElemFits(e) && CompactElem(e) && PlainFloats(e.tree, toFloat)
  }

  ghost predicate GoodField(f: Field, toFloat: FloatOf) {
    FieldFits(f) && CompactField(f) && PlainFloats(f.tree, toFloat)
  }

  /** The text of a list of values without white space. */
  lemma TightElems(elems: seq<Elem>)
    requires elems != [] && elems[0].after == "" && elems[0].next == ""
    ensures ElemsText(elems) ==
            Spelling(elems[0].tree) + if |elems| == 1 then [']'] else [','] + ElemsText(elems[1..])
  {
    NoGap([']']);
    if |elems| > 1 {
      NoGap(ElemsText(elems[1..]));
      NoGap([','] + ElemsText(elems[1..]));
    }
  }

  lemma {:induction false} PrintedItems(items: seq<Json>, toFloat: FloatOf) returns (elems: seq<Elem>)
    requires items != [] && forall x :: x in items ==> Finite(x) && Floats(x, toFloat)
    ensures elems != [] && (forall e :: e in elems ==> GoodElem(e, toFloat)) && ElemsText(elems) == ItemsText(items)
    decreases items
  {
    assert items[0] in items;
    var tree := Printed(items[0], toFloat);
    var e := Elem(tree, "", "");
    if |items| == 1 {
      elems := [e];
    } else {
      var tail := PrintedItems(items[1..], toFloat);
      elems := [e] + tail;
      assert elems[1..] == tail;
    }
    TightElems(elems);
  }

  lemma TightFields(fields: seq<Field>)
    requires fields != []
    requires var f := fields[0]; f.before == "" && f.gap == "" && f.after == "" && f.next == ""
    ensures FieldsText(fields) ==
            MemberText(LiteralText(fields[0].key), Spelling(fields[0].tree),
                       if |fields| == 1 then ['}'] else [','] + FieldsText(fields[1..]))
  {
    var f := fields[0];
    var tail := if |fields| == 1 then ['}'] else [','] + FieldsText(fields[1..]);
    NoGap(['}']);
    if |fields| > 1 {
      NoGap(FieldsText(fields[1..]));
      NoGap([','] + FieldsText(fields[1..]));
    }
    KeyTight(f, Spelling(f.tree) + tail);
  }

  lemma KeyTight(f: Field, value: string)
    requires f.before == "" && f.gap == ""
    ensures KeyText(f) + value == ['"'] + (LiteralText(f.key) + ([':'] + value))
  {
    KeyRegrouped(f, value);
    NoGap(value);
    NoGap([':'] + value);
  }

  lemma {:induction false} PrintedMembers(members: seq<Member>, toFloat: FloatOf) returns (fields: seq<Field>)
    requires members != [] && forall m :: m in members ==> Finite(m.value) && Floats(m.value, toFloat)
    ensures fields != [] && (forall f :: f in fields ==> GoodField(f, toFloat))
    ensures FieldsText(fields) == MembersText(members)
    decreases members
  {
    assert members[0] in members;
    var tree := Printed(members[0].value, toFloat);
    var key := TextPieces(members[0].key);
    var f := Field(key, "", "", tree, "", "");
    if |members| == 1 {
      fields := [f];
    } else {
      var tail := PrintedMembers(members[1..], toFloat);
      fields := [f] + tail;
      assert fields[1..] == tail;
    }
    TightFields(fields);
  }

  // ----- A compact text is what the printer writes -----

  lemma HexDigitOf(c: char, d: int)
    requires Hex(c, d) && ('0' <= c <= '9' || 'a' <= c <= 'f')
    ensures c == HexDigit(d)
  {
    HexValueExact(c, d);
  }

  lemma LowerHexUnique(digits: string, code: CodePoint)
    requires HexDigits(digits, code) && LowerHex(digits)
    ensures code < 0x1_0000 && digits == Hex4(code)
  {
    var a, b, c, d :| FourDigits(digits, code, a, b, c, d);
    assert digits[0] in digits && digits[1] in digits && digits[2] in digits && digits[3] in digits;
    HexDigitOf(digits[0], a);
    HexDigitOf(digits[1], b);
    HexDigitOf(digits[2], c);
    HexDigitOf(digits[3], d);
    DigitsOfFour(code, a, b, c, d);
  }

  lemma DigitsOfFour(code: int, a: int, b: int, c: int, d: int)
    requires 0 <= a < 16 && 0 <= b < 16 && 0 <= c < 16 && 0 <= d < 16
    requires code == a * 4096 + b * 256 + c * 16 + d
    ensures 0 <= code < 0x1_0000 && code / 4096 == a && code / 256 % 16 == b && code / 16 % 16 == c && code % 16 == d
  {
    assert code / 256 == a * 16 + b;
    assert code / 16 == a * 256 + b * 16 + c;
  }

  lemma ShortOf(letter: char, code: CodePoint)
    requires Escapes(letter, code) && letter != '/'
    ensures ShortEscape(code) == Some(letter)
  {
  }

  lemma PiecePrinted(piece: Piece)
    requires PieceFits(piece) && CompactPiece(piece)
    ensures PieceText(piece) == EscapePoint(Code(piece))
  {
    match piece
    case Plain(c) =>
    case Escaped(letter, code) => ShortOf(letter, code);
    case Unicode(digits, code) =>
      LowerHexUnique(digits, code);
      if ShortEscape(code).Some? { EscapesExact(ShortEscape(code).value, code); }
  }

  lemma {:induction false} LiteralPrinted(pieces: seq<Piece>)
    requires PiecesFit(pieces) && CompactPieces(pieces)
    ensures LiteralText(pieces) == Quoted(Codes(pieces))
  {
    if pieces == [] {
      NoGap(['"']);
    } else {
      assert PieceFits(pieces[0]) && CompactPiece(pieces[0]);
      PiecePrinted(pieces[0]);
      LiteralPrinted(pieces[1..]);
      assert Codes(pieces)[1..] == Codes(pieces[1..]);
      Regroup(EscapePoint(Code(pieces[0])), Escape(Codes(pieces[1..])), ['"']);
    }
  }

  lemma LiteralUnique(pieces: seq<Piece>)
    requires PiecesFit(pieces) && CompactPieces(pieces)
    ensures LiteralText(pieces) == Quoted(LiteralMeaning(pieces))
  {
    LiteralPrinted(pieces);
    EscapeMerge(Codes(pieces));
  }

  lemma PlacesPositive(s: string)
    requires s != "" && '1' <= s[0] <= '9'
    ensures Places(s) > 0
  {
    PowPositive(|s| - 1);
    AtLeastOne(s[0] as int - '0' as int, Pow10(|s| - 1));
  }

  lemma {:induction false} PowPositive(k: nat)
    ensures Pow10(k) > 0
  {
    if k > 0 { PowPositive(k - 1); }
  }

  lemma AtLeastOne(d: int, p: int)
    requires d >= 1 && p >= 1
    ensures d * p >= 1
  {
  }

  lemma DigitPlaces(c: char)
    requires '0' <= c <= '9'
    ensures Places([c]) == c as int - '0' as int && NatText(Places([c])) == [c]
  {
    assert [c][1..] == "";
  }

  /** The printer writes a number with the digits it was read from. */
  lemma {:induction false} NatTextOfPlaces(s: string)
    requires DigitRun(s) && (|s| > 1 ==> s[0] != '0')
    ensures NatText(Places(s)) == s
    decreases |s|
  {
    assert s[0] in s && s[|s| - 1] in s;
    if |s| == 1 {
      assert s == [s[0]];
      DigitPlaces(s[0]);
    } else {
      var front, c := s[..|s| - 1], s[|s| - 1];
      assert s == front + [c] && front[0] == s[0] && forall x :: x in front ==> x in s;
      PlacesAppend(front, c);
      PlacesPositive(front);
      NatTextOfPlaces(front);
      TensAndOnes(Places(front), c);
    }
  }

  lemma TensAndOnes(n: nat, c: char)
    requires n > 0 && '0' <= c <= '9'
    ensures NatText(n * 10 + (c as int - '0' as int)) == NatText(n) + [c]
  {
    var d := c as int - '0' as int;
    assert (n * 10 + d) / 10 == n && (n * 10 + d) % 10 == d;
  }

  lemma NumeralUnique(n: Numeral, toFloat: FloatOf)
    requires NumeralFits(n) && Compact(NumberTree(n)) && PlainFloats(NumberTree(n), toFloat)
    ensures NumeralText(n) == Render(NumeralMeaning(n, toFloat))
  {
    if !IsFloat(n) {
      IntegerText(n);
      NatTextOfPlaces(n.whole);
      NoGap(n.whole);
      assert n.whole[0] in n.whole;
      if n.negative {
        if n.whole[0] != '0' { PlacesPositive(n.whole); }
      }
    }
  }

  /** A compact spelling is the printed text of its meaning. */
  lemma {:induction false} CompactUnique(t: Tree, toFloat: FloatOf)
    requires Good(t, toFloat)
    ensures Spelling(t) == Render(Meaning(t, toFloat))
    decreases t
  {
    match t
    case NumberTree(n) => NumeralUnique(n, toFloat);
    case StringTree(pieces) => LiteralUnique(pieces);
    case ArrayTree(gap, elems) =>
      if elems != [] {
        ElemsUnique(elems, toFloat);
        NoGap(ElemsText(elems));
      } else {
        NoGap([']']);
      }
    case ObjectTree(gap, fields) =>
      if fields != [] {
        FieldsUnique(fields, toFloat);
        NoGap(FieldsText(fields));
      } else {
        NoGap(['}']);
      }
    case _ =>
  }

  lemma {:induction false} ElemsUnique(elems: seq<Elem>, toFloat: FloatOf)
    requires elems != [] && forall e :: e in elems ==> GoodElem(e, toFloat)
    ensures ElemsText(elems) == ItemsText(ElemsMeaning(elems, toFloat))
    decreases elems
  {
    assert GoodElem(elems[0], toFloat);
    CompactUnique(elems[0].tree, toFloat);
    TightElems(elems);
    if |elems| > 1 {
      ElemsUnique(elems[1..], toFloat);
      assert ElemsMeaning(elems, toFloat)[1..] == ElemsMeaning(elems[1..], toFloat);
    }
  }

  lemma {:induction false} FieldsUnique(fields: seq<Field>, toFloat: FloatOf)
    requires fields != [] && forall f :: f in fields ==> GoodField(f, toFloat)
    ensures FieldsText(fields) == MembersText(FieldsMeaning(fields, toFloat))
    decreases fields
  {
    assert GoodField(fields[0], toFloat);
    CompactUnique(fields[0].tree, toFloat);
    LiteralUnique(fields[0].key);
    TightFields(fields);
    if |fields| > 1 {
      FieldsUnique(fields[1..], toFloat);
      assert FieldsMeaning(fields, toFloat)[1..] == FieldsMeaning(fields[1..], toFloat);
    }
  }

  /** `text` spells `v` compactly. */
  ghost predicate SpellsCompactly(text: string, v: Json, toFloat: FloatOf) {
    exists t :: Good(t, toFloat) && Spelling(t) == text && Meaning(t, toFloat) == v
  }

  /** The meaning of a printed text is the value with its surrogate pairs merged. */
  lemma PrintedMeaning(v: Json, t: Tree, toFloat: FloatOf)
    requires Finite(v) && Floats(v, toFloat) && WellSpelled(t) && Spelling(t) == Render(v)
    ensures Meaning(t, toFloat) == MergeAll(v)
  {
    var rd := Reader(false, toFloat);
    TreeRead(t, "", rd);
    ReadRendered(v, "", rd);
  }

  /** The printed text of a value is the one text that spells it, surrogate pairs merged, compactly. */
  lemma PrintedExactly(v: Json, text: string, toFloat: FloatOf)
    requires Finite(v) && Floats(v, toFloat)
    ensures text == Render(v) <==> SpellsCompactly(text, MergeAll(v), toFloat)
  {
    var printed := Printed(v, toFloat);
    PrintedMeaning(v, printed, toFloat);
    CompactUnique(printed, toFloat);
    if t: Tree :| Good(t, toFloat) && Spelling(t) == text && Meaning(t, toFloat) == MergeAll(v) {
      CompactUnique(t, toFloat);
    }
  }
}
