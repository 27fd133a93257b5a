/**
 The strings and numbers of a JSON text, as sections 6 and 7 of RFC 8259 describe them, with every choice
 their writer has: escapes, hexadecimal digits of either case, fractions and exponents. The reader reads
 exactly these, each as what it stands for.
 */
module JsonGrammar {
  import opened Basics
  import opened Json
  import opened JsonNumber
  import opened JsonText

  // ----- White space -----

  predicate IsWhite(c: char) { c == ' ' || c == '\t' || c == '\n' || c == '\r' }

  predicate White(w: string) {
    forall i :: 0 <= i < |w| ==> IsWhite(w[i])
  }

  lemma {:induction false} SkipWhite(w: string, s: string)
    requires White(w) && (s != "" ==> !IsWhite(s[0]))
    ensures SkipSpace(w + s) == s
  {
    if w == "" {
      assert w + s == s;
    } else {
      assert (w + s)[1..] == w[1..] + s;
      SkipWhite(w[1..], s);
    }
  }

  lemma {:induction false} Skipped(s: string) returns (w: string)
    ensures White(w) && s == w + SkipSpace(s)
  {
    w := "";
    if s != "" && Space(s[0]) {
      w := Skipped(s[1..]);
      w := [s[0]] + w;
      assert s == [s[0]] + s[1..];
    }
  }

  // ----- Strings -----

  /** One character of a string literal as it is written, and the code point it stands for. */
  datatype Piece = Plain(c: char) | Escaped(letter: char, code: CodePoint) | Unicode(digits: string, code: CodePoint)

  /** The two-character escapes. */
  predicate Escapes(letter: char, code: CodePoint) {
    || (letter == '"' && code == 0x22) || (letter == '\\' && code == 0x5C) || (letter == '/' && code == 0x2F)
    || (letter == 'b' && code == 0x08) || (letter == 'f' && code == 0x0C) || (letter == 'n' && code == 0x0A)
    || (letter == 'r' && code == 0x0D) || (letter == 't' && code == 0x09)
  }

  /** A hexadecimal digit of either case, and its value. */
  predicate Hex(c: char, d: int) {
    0 <= d < 16 && (c == "0123456789abcdef"[d] || c == "0123456789ABCDEF"[d])
  }

  ghost predicate HexDigits(digits: string, code: CodePoint) {
    |digits| == 4 && exists a, b, c, d :: FourDigits(digits, code, a, b, c, d)
  }

  predicate FourDigits(digits: string, code: CodePoint, a: int, b: int, c: int, d: int)
    requires |digits| == 4
  {
    && Hex(digits[0], a) && Hex(digits[1], b) && Hex(digits[2], c) && Hex(digits[3], d)
    && code == a * 4096 + b * 256 + c * 16 + d
  }

  ghost predicate PieceFits(piece: Piece) {
    match piece
    case Plain(c) => c >= ' ' && c != '"' && c != '\\'
    case Escaped(letter, code) => Escapes(letter, code)
    case Unicode(digits, code) => HexDigits(digits, code)
  }

  ghost predicate PiecesFit(pieces: seq<Piece>) {
    forall piece :: piece in pieces ==> PieceFits(piece)
  }

  function PieceText(piece: Piece): string {
    match piece
    case Plain(c) => [c]
    case Escaped(letter, _) => ['\\', letter]
    case Unicode(digits, _) => ['\\', 'u'] + digits
  }

  function Code(piece: Piece): CodePoint {
    match piece
    case Plain(c) => c as int
    case Escaped(_, code) => code
    case Unicode(_, code) => code
  }

  function Codes(pieces: seq<Piece>): (r: Text)
    ensures |r| == |pieces| && forall i :: 0 <= i < |r| ==> r[i] == Code(pieces[i])
  {
    if pieces == [] then [] else [Code(pieces[0])] + Codes(pieces[1..])
  }

  /** The inside of a string literal and its closing quote. */
  function LiteralText(pieces: seq<Piece>): (s: string)
    ensures s != ""
  {
    if pieces == [] then ['"'] else PieceText(pieces[0]) + LiteralText(pieces[1..])
  }

  /** The string a literal spells: its code points, with the surrogate pairs among the escapes joined. */
  function LiteralMeaning(pieces: seq<Piece>): Text { Merge(Codes(pieces)) }

  lemma HexValueExact(c: char, d: int)
    ensures Hex(c, d) <==> d >= 0 && HexValue(c) == d
  {
    var low, high := "0123456789abcdef", "0123456789ABCDEF";
    if 0 <= d < 10 {
      assert low[d] == (d + 48) as char && high[d] == (d + 48) as char;
    } else if 10 <= d < 16 {
      assert low[d] == (d + 87) as char && high[d] == (d + 55) as char;
    }
  }

  /** The reader reads four hexadecimal digits exactly as they are meant. */
  lemma ReadHexExact(digits: string, rest: string, code: CodePoint)
    requires |digits| == 4
    ensures ReadHex4(digits + rest) == Some(code) <==> HexDigits(digits, code)
  {
    var s := digits + rest;
    var a, b, c, d := HexValue(digits[0]), HexValue(digits[1]), HexValue(digits[2]), HexValue(digits[3]);
    assert s[0] == digits[0] && s[1] == digits[1] && s[2] == digits[2] && s[3] == digits[3];
    HexValueExact(digits[0], a);
    HexValueExact(digits[1], b);
    HexValueExact(digits[2], c);
    HexValueExact(digits[3], d);
    if HexDigits(digits, code) {
      var e, f, g, h :| FourDigits(digits, code, e, f, g, h);
      HexValueExact(digits[0], e);
      HexValueExact(digits[1], f);
      HexValueExact(digits[2], g);
      HexValueExact(digits[3], h);
    }
    if ReadHex4(s) == Some(code) {
      assert FourDigits(digits, code, a, b, c, d);
    }
  }

  lemma EscapesExact(letter: char, code: CodePoint)
    ensures SimpleEscape(letter) == Some(code) <==> Escapes(letter, code)
  {
  }

  /** Only a hexadecimal escape can stand for a surrogate. */
  lemma SurrogateIsUnicode(piece: Piece)
    requires PieceFits(piece) && 0xD800 <= Code(piece) < 0xE000
    ensures piece.Unicode?
  {
  }

  lemma UnicodeFront(digits: string, code: CodePoint, rest: string)
    requires HexDigits(digits, code)
    ensures var s := ['\\', 'u'] + digits + rest;
            s[0] == '\\' && s[1] == 'u' && ReadHex4(s[2..]) == Some(code) && s[6..] == rest
  {
    var s := ['\\', 'u'] + digits + rest;
    Regroup(['\\', 'u'], digits, rest);
    assert s[2..] == digits + rest;
    assert s[6..] == (digits + rest)[4..] == rest;
    ReadHexExact(digits, rest, code);
  }

  lemma UnitRead(digits: string, code: CodePoint, rest: string)
    requires HexDigits(digits, code) && (High(code) ==> NoLowUnit(rest))
    ensures var s := ['\\', 'u'] + digits + rest; ReadPoint(s) == Some((code, rest))
  {
    var s := ['\\', 'u'] + digits + rest;
    UnicodeFront(digits, code, rest);
    if |s| >= 8 {
      assert s[6] == rest[0] && s[7] == rest[1] && s[8..] == rest[2..];
    }
  }

  lemma PairRead(high: string, h: CodePoint, low: string, l: CodePoint, rest: string)
    requires HexDigits(high, h) && HexDigits(low, l) && High(h) && Low(l)
    ensures var s := ['\\', 'u'] + high + (['\\', 'u'] + low + rest); ReadPoint(s) == Some((Join(h, l), rest))
  {
    var u := ['\\', 'u'] + low + rest;
    var s := ['\\', 'u'] + high + u;
    UnicodeFront(high, h, u);
    UnicodeFront(low, l, rest);
    assert s[6] == u[0] && s[7] == u[1] && s[8..] == u[2..] && s[12..] == u[6..];
  }

  lemma LiteralFront(pieces: seq<Piece>, rest: string)
    ensures pieces == [] ==> LiteralText(pieces) + rest == ['"'] + rest
    ensures pieces != [] ==> LiteralText(pieces) + rest == PieceText(pieces[0]) + (LiteralText(pieces[1..]) + rest)
  {
  }

  /** A literal that does not start with a low surrogate does not complete a pair. */
  lemma NotCompleting(pieces: seq<Piece>, rest: string)
    requires PiecesFit(pieces) && (pieces != [] ==> !Low(Code(pieces[0])))
    ensures NoLowUnit(LiteralText(pieces) + rest)
  {
    LiteralFront(pieces, rest);
    if pieces != [] {
      var tail := LiteralText(pieces[1..]) + rest;
      assert PieceFits(pieces[0]);
      match pieces[0]
      case Plain(c) => NotEscaped(c, tail);
      case Escaped(letter, _) => NotUnicode(letter, tail);
      case Unicode(digits, code) => UnicodeFront(digits, code, tail);
    }
  }

  lemma PieceRead(piece: Piece, rest: string)
    requires PieceFits(piece) && (High(Code(piece)) ==> NoLowUnit(rest))
    ensures var s := PieceText(piece) + rest; s[0] != '"' && ReadPoint(s) == Some((Code(piece), rest))
  {
    var s := PieceText(piece) + rest;
    match piece
    case Plain(c) => assert s[0] == c && s[1..] == rest;
    case Escaped(letter, code) =>
      EscapesExact(letter, code);
      assert s[0] == '\\' && s[1] == letter && s[2..] == rest;
    case Unicode(digits, code) => UnitRead(digits, code, rest);
  }

  ghost predicate StartsPaired(pieces: seq<Piece>) {
    |pieces| >= 2 && High(Code(pieces[0])) && Low(Code(pieces[1]))
  }

  lemma PairedFront(pieces: seq<Piece>, rest: string)
    requires PiecesFit(pieces) && StartsPaired(pieces)
    ensures var s := LiteralText(pieces) + rest;
            s[0] != '"' &&
            ReadPoint(s) == Some((Join(Code(pieces[0]), Code(pieces[1])), LiteralText(pieces[2..]) + rest))
  {
    var a, b, tail := pieces[0], pieces[1], pieces[1..];
    SurrogateIsUnicode(a);
    SurrogateIsUnicode(b);
    assert tail[0] == b && tail[1..] == pieces[2..];
    LiteralFront(pieces, rest);
    LiteralFront(tail, rest);
    PairRead(a.digits, a.code, b.digits, b.code, LiteralText(pieces[2..]) + rest);
  }

  lemma SingleFront(pieces: seq<Piece>, rest: string)
    requires PiecesFit(pieces) && pieces != [] && !StartsPaired(pieces)
    ensures var s := LiteralText(pieces) + rest;
            s[0] != '"' && ReadPoint(s) == Some((Code(pieces[0]), LiteralText(pieces[1..]) + rest))
  {
    var tail := pieces[1..];
    assert PieceFits(pieces[0]) && PiecesFit(tail);
    LiteralFront(pieces, rest);
    if High(Code(pieces[0])) {
      assert tail != [] ==> tail[0] == pieces[1];
      NotCompleting(tail, rest);
    }
    PieceRead(pieces[0], LiteralText(tail) + rest);
  }

  lemma PairedMeaning(pieces: seq<Piece>)
    requires StartsPaired(pieces)
    ensures LiteralMeaning(pieces) == [Join(Code(pieces[0]), Code(pieces[1]))] + LiteralMeaning(pieces[2..])
  {
    assert Codes(pieces)[2..] == Codes(pieces[2..]);
  }

  lemma SingleMeaning(pieces: seq<Piece>)
    requires pieces != [] && !StartsPaired(pieces)
    ensures LiteralMeaning(pieces) == [Code(pieces[0])] + LiteralMeaning(pieces[1..])
  {
    assert Codes(pieces)[1..] == Codes(pieces[1..]);
  }

  /** Every well-spelled literal is read, up to its closing quote, as what it spells. */
  lemma {:induction false} LiteralRead(pieces: seq<Piece>, rest: string)
    requires PiecesFit(pieces)
    ensures ReadText(LiteralText(pieces) + rest) == Some((LiteralMeaning(pieces), rest))
    decreases |pieces|
  {
    var s := LiteralText(pieces) + rest;
    if pieces == [] {
      LiteralFront(pieces, rest);
      assert s[1..] == rest;
    } else {
      var paired := StartsPaired(pieces);
      var tail := if paired then pieces[2..] else pieces[1..];
      var c := if paired then Join(Code(pieces[0]), Code(pieces[1])) else Code(pieces[0]);
      if paired {
        PairedFront(pieces, rest);
        PairedMeaning(pieces);
      } else {
        SingleFront(pieces, rest);
        SingleMeaning(pieces);
      }
      LiteralRead(tail, rest);
      ReadStep(s, c, LiteralText(tail) + rest, LiteralMeaning(tail), rest);
    }
  }

  /** The pieces the reader took for one code point. */
  lemma PointRead(s: string) returns (front: seq<Piece>)
    requires s != "" && s[0] != '"' && ReadPoint(s).Some?
    ensures PiecesFit(front)
    ensures var (c, u) := ReadPoint(s).value;
            if |front| == 1 then
              Code(front[0]) == c && s == PieceText(front[0]) + u && (High(c) ==> NoLowAtFront(u))
            else
              |front| == 2 && StartsPaired(front) && c == Join(Code(front[0]), Code(front[1])) &&
              s == PieceText(front[0]) + (PieceText(front[1]) + u)
  {
    var (c, u) := ReadPoint(s).value;
    if s[0] != '\\' {
      front := [Plain(s[0])];
    } else if s[1] != 'u' {
      EscapesExact(s[1], c);
      front := [Escaped(s[1], c)];
      assert s == ['\\', s[1]] + s[2..];
    } else {
      var high := UnitSpelled(s);
      var u := s[6..];
      if High(high.code) && !NoLowAtFront(u) {
        assert u[2..] == s[8..];
        var low := UnitSpelled(u);
        assert u[6..] == s[12..];
        front := [high, low];
      } else {
        front := [high];
        if High(high.code) && |s| >= 8 {
          assert u[2..] == s[8..] && u[0] == s[6] && u[1] == s[7];
        }
      }
    }
  }

  lemma UnitSpelled(s: string) returns (piece: Piece)
    requires |s| >= 2 && s[0] == '\\' && s[1] == 'u' && ReadHex4(s[2..]).Some?
    ensures piece.Unicode? && PieceFits(piece) && piece.code == ReadHex4(s[2..]).value
    ensures |s| >= 6 && s == PieceText(piece) + s[6..]
  {
    var digits := s[2..6];
    piece := Unicode(digits, ReadHex4(s[2..]).value);
    assert s[2..] == digits + s[6..];
    ReadHexExact(digits, s[6..], piece.code);
  }

  /** No escape of a low surrogate stands at the front. */
  predicate NoLowAtFront(s: string) {
    |s| >= 2 && s[0] == '\\' && s[1] == 'u' && ReadHex4(s[2..]).Some? ==> !Low(ReadHex4(s[2..]).value)
  }

  lemma NotPairedAfter(pieces: seq<Piece>, rest: string)
    requires PiecesFit(pieces) && NoLowAtFront(LiteralText(pieces) + rest)
    ensures pieces != [] ==> !Low(Code(pieces[0]))
  {
    if pieces != [] && Low(Code(pieces[0])) {
      LiteralFront(pieces, rest);
      SurrogateIsUnicode(pieces[0]);
      UnicodeFront(pieces[0].digits, pieces[0].code, LiteralText(pieces[1..]) + rest);
    }
  }

  /** Whatever string literal is read, it is well spelled and spells what was read. */
  lemma {:induction false} LiteralSpelled(s: string) returns (pieces: seq<Piece>)
    requires ReadText(s).Some?
    ensures PiecesFit(pieces) && LiteralMeaning(pieces) == ReadText(s).value.0
    ensures s == LiteralText(pieces) + ReadText(s).value.1
    decreases |s|
  {
    if s[0] == '"' {
      pieces := [];
      assert s == ['"'] + s[1..];
    } else {
      var (c, u) := ReadPoint(s).value;
      var rest := ReadText(s).value.1;
      var front := PointRead(s);
      var tail := LiteralSpelled(u);
      pieces := front + tail;
      assert PiecesFit(pieces);
      LiteralFront(pieces, rest);
      if |front| == 1 {
        assert pieces[1..] == tail;
        if High(c) { NotPairedAfter(tail, rest); }
        SingleMeaning(pieces);
      } else {
        assert pieces[2..] == tail && pieces[1..][1..] == tail && pieces[1..][0] == front[1];
        LiteralFront(pieces[1..], rest);
        PairedMeaning(pieces);
      }
    }
  }

  // ----- Numbers -----

  /** A number as it is written: sign, whole part, and perhaps a fraction and an exponent. */
  datatype Numeral = Numeral(negative: bool, whole: string, fraction: string, exponent: string)

  predicate DigitRun(s: string) {
    s != "" && forall c :: c in s ==> '0' <= c <= '9'
  }

  predicate FractionFits(f: string) {
    f != "" ==> f[0] == '.' && DigitRun(f[1..])
  }

  predicate ExponentFits(x: string) {
    x != "" ==>
      && (x[0] == 'e' || x[0] == 'E')
      && (DigitRun(x[1..]) || (|x| >= 2 && (x[1] == '+' || x[1] == '-') && DigitRun(x[2..])))
  }

  /** No leading zeros, and digits wherever a point or an exponent asks for them. */
  predicate NumeralFits(n: Numeral) {
    && DigitRun(n.whole) && (|n.whole| > 1 ==> n.whole[0] != '0')
    && FractionFits(n.fraction) && ExponentFits(n.exponent)
  }

  function SignText(n: Numeral): string { if n.negative then ['-'] else [] }

  function NumeralText(n: Numeral): string {
    SignText(n) + (n.whole + (n.fraction + n.exponent))
  }

  predicate IsFloat(n: Numeral) { n.fraction != "" || n.exponent != "" }

  function Pow10(k: nat): nat { if k == 0 then 1 else 10 * Pow10(k - 1) }

  /** The number a run of digits stands for, each digit counted by its place. */
  function Places(s: string): nat {
    if s == "" then 0
    else (if '0' <= s[0] <= '9' then s[0] as int - '0' as int else 0) * Pow10(|s| - 1) + Places(s[1..])
  }

  function NumeralMeaning(n: Numeral, toFloat: FloatOf): Json {
    if !IsFloat(n) then Int(if n.negative then -(Places(n.whole) as int) else Places(n.whole))
    else
      match toFloat(NumeralText(n))
      case Some(repr) => Float(repr)
      case None => NonFinite
  }

  /** What follows does not go on with the number. */
  predicate Stops(rest: string) {
    rest != "" ==> !('0' <= rest[0] <= '9') && rest[0] != '.' && rest[0] != 'e' && rest[0] != 'E'
  }

  predicate NoDigit(rest: string) {
    rest != "" ==> !('0' <= rest[0] <= '9')
  }

  lemma {:induction false} RunThen(run: string, rest: string)
    requires (forall c :: c in run ==> '0' <= c <= '9') && NoDigit(rest)
    ensures Digits(run + rest) == |run|
  {
    if run == "" {
      assert run + rest == rest;
    } else {
      assert run[0] in run && forall c :: c in run[1..] ==> c in run;
      assert (run + rest)[1..] == run[1..] + rest;
      RunThen(run[1..], rest);
    }
  }

  lemma IntegerRead(n: Numeral, rest: string, s: string)
    requires NumeralFits(n) && NoDigit(rest) && s == SignText(n) + (n.whole + rest)
    ensures IntegerEnd(s) == Some(|SignText(n)| + |n.whole|)
  {
    RunThen(n.whole, rest);
    assert s[|SignText(n)|..] == n.whole + rest;
    assert s[|SignText(n)|] == n.whole[0] && n.whole[0] in n.whole;
    assert At(s, 0, {'-'}) <==> n.negative;
  }

  lemma FractionRead(s: string, p: nat, f: string, rest: string)
    requires p <= |s| && s[p..] == f + rest
    requires FractionFits(f) && NoDigit(rest) && (f == "" && rest != "" ==> rest[0] != '.')
    ensures FractionEnd(s, p) == p + |f|
  {
    if f == "" {
      assert rest != "" ==> s[p] == s[p..][0] == rest[0];
    } else {
      RunThen(f[1..], rest);
      assert s[p] == s[p..][0] == f[0];
      assert s[p + 1..] == s[p..][1..] == f[1..] + rest;
    }
  }

  lemma ExponentRead(s: string, p: nat, x: string, rest: string)
    requires p <= |s| && s[p..] == x + rest && ExponentFits(x) && Stops(rest)
    ensures ExponentEnd(s, p) == p + |x|
  {
    if x == "" {
      assert rest != "" ==> s[p] == s[p..][0] == rest[0];
    } else {
      assert s[p] == s[p..][0] == x[0] && s[p + 1] == s[p..][1] == x[1];
      if DigitRun(x[1..]) {
        assert x[1] == x[1..][0] && x[1] in x[1..];
        RunThen(x[1..], rest);
        assert s[p + 1..] == s[p..][1..] == x[1..] + rest;
      } else {
        RunThen(x[2..], rest);
        assert s[p + 2..] == s[p..][2..] == x[2..] + rest;
      }
    }
  }

  lemma NumberEndIs(s: string, p: nat, q: nat, e: nat)
    requires IntegerEnd(s) == Some(p) && FractionEnd(s, p) == q && ExponentEnd(s, q) == e
    ensures NumberEnd(s) == Some((e, e > p))
  {
  }

  lemma Regrouped(a: string, b: string, c: string, d: string, r: string)
    ensures var s := a + (b + (c + d)) + r;
            && s == a + (b + (c + (d + r)))
            && s[|a| + |b|..] == c + (d + r) && s[|a| + |b| + |c|..] == d + r
  {
    Regroup(a, b + (c + d), r);
    Regroup(b, c + d, r);
    Regroup(c, d, r);
    DropFront(a, b + (c + (d + r)), |b|);
    DropFront(a, b + (c + (d + r)), |b| + |c|);
    DropFront(b, c + (d + r), 0);
    DropFront(b, c + (d + r), |c|);
    DropFront(c, d + r, 0);
  }

  lemma DropFront(a: string, b: string, k: nat)
    requires k <= |b|
    ensures (a + b)[|a| + k..] == b[k..]
    ensures b[0..] == b
  {
  }

  lemma FrontOf(a: string, b: string)
    ensures a == "" ==> a + b == b
    ensures a != "" ==> (a + b)[0] == a[0]
  {
  }

  function WholeEnd(n: Numeral): nat { |SignText(n)| + |n.whole| }

  lemma WholeFirst(n: Numeral, rest: string)
    ensures NumeralText(n) + rest == SignText(n) + (n.whole + (n.fraction + (n.exponent + rest)))
  {
    Regrouped(SignText(n), n.whole, n.fraction, n.exponent, rest);
  }

  lemma WholeRead(n: Numeral, rest: string)
    requires NumeralFits(n) && Stops(rest)
    ensures IntegerEnd(NumeralText(n) + rest) == Some(WholeEnd(n))
  {
    var tail := n.exponent + rest;
    FrontOf(n.exponent, rest);
    FrontOf(n.fraction, tail);
    WholeFirst(n, rest);
    IntegerRead(n, n.fraction + tail, NumeralText(n) + rest);
  }

  lemma FractionNext(n: Numeral, rest: string)
    ensures var s := NumeralText(n) + rest;
            WholeEnd(n) <= |s| && s[WholeEnd(n)..] == n.fraction + (n.exponent + rest)
  {
    Regrouped(SignText(n), n.whole, n.fraction, n.exponent, rest);
  }

  lemma FractionPartRead(n: Numeral, rest: string)
    requires NumeralFits(n) && Stops(rest)
    ensures var s := NumeralText(n) + rest;
            WholeEnd(n) <= |s| && FractionEnd(s, WholeEnd(n)) == WholeEnd(n) + |n.fraction|
  {
    FrontOf(n.exponent, rest);
    FractionNext(n, rest);
    FractionRead(NumeralText(n) + rest, WholeEnd(n), n.fraction, n.exponent + rest);
  }

  lemma ExponentLast(n: Numeral, rest: string, s: string, p: nat)
    requires s == NumeralText(n) + rest && p == WholeEnd(n) + |n.fraction|
    ensures p <= |s| && s[p..] == n.exponent + rest && |NumeralText(n)| == p + |n.exponent|
  {
    Regrouped(SignText(n), n.whole, n.fraction, n.exponent, rest);
  }

  /** Every well-spelled number is read to its end. */
  lemma NumeralRead(n: Numeral, rest: string)
    requires NumeralFits(n) && Stops(rest)
    ensures NumberEnd(NumeralText(n) + rest) == Some((|NumeralText(n)|, IsFloat(n)))
  {
    var s, p, q := NumeralText(n) + rest, WholeEnd(n), WholeEnd(n) + |n.fraction|;
    WholeRead(n, rest);
    FractionPartRead(n, rest);
    ExponentLast(n, rest, s, q);
    ExponentRead(s, q, n.exponent, rest);
    NumberEndIs(s, p, q, |NumeralText(n)|);
  }

  lemma {:induction false} PlacesAppend(s: string, c: char)
    ensures Places(s + [c]) == Places(s) * 10 + if '0' <= c <= '9' then c as int - '0' as int else 0
  {
    if s == "" {
      assert s + [c] == [c] && [c][1..] == "";
    } else {
      assert (s + [c])[1..] == s[1..] + [c];
      PlacesAppend(s[1..], c);
      TenTimes(if '0' <= s[0] <= '9' then s[0] as int - '0' as int else 0, Pow10(|s| - 1), Places(s[1..]));
    }
  }

  lemma TenTimes(d: int, p: int, rest: int)
    ensures d * (10 * p) + rest * 10 == (d * p + rest) * 10
  {
  }

  lemma {:induction false} PlacesExact(s: string)
    requires forall i :: 0 <= i < |s| ==> Digit(s[i])
    ensures NatValue(s) == Places(s)
    decreases |s|
  {
    if s != "" {
      var front := s[..|s| - 1];
      PlacesExact(front);
      PlacesAppend(front, s[|s| - 1]);
      assert s == front + [s[|s| - 1]];
      assert Digit(s[|s| - 1]);
    }
  }

  lemma WholeValue(n: Numeral)
    requires NumeralFits(n)
    ensures NatValueOf(n.whole) == Places(n.whole) && Digit(n.whole[0])
  {
    forall i | 0 <= i < |n.whole| ensures Digit(n.whole[i]) {
      assert n.whole[i] in n.whole;
    }
    PlacesExact(n.whole);
  }

  lemma IntegerText(n: Numeral)
    requires !IsFloat(n)
    ensures NumeralText(n) == SignText(n) + n.whole
  {
    assert n.whole + ([] + []) == n.whole;
  }

  lemma SignedValue(whole: string)
    requires whole != "" && Digit(whole[0])
    ensures IntValue(['-'] + whole) == -(NatValueOf(whole) as int) && IntValue(whole) == NatValueOf(whole)
    ensures [] + whole == whole
  {
    assert (['-'] + whole)[1..] == whole;
  }

  lemma IntValueExact(n: Numeral, toFloat: FloatOf)
    requires NumeralFits(n) && !IsFloat(n)
    ensures NumeralMeaning(n, toFloat) == Int(IntValue(NumeralText(n)))
  {
    WholeValue(n);
    IntegerText(n);
    SignedValue(n.whole);
  }

  lemma RunOf(s: string, k: nat)
    requires 0 < k <= Digits(s)
    ensures DigitRun(s[..k])
  {
  }

  lemma WholeSpelled(s: string) returns (sign: nat, whole: string)
    requires IntegerEnd(s).Some?
    ensures sign == (if s[0] == '-' then 1 else 0) && sign <= IntegerEnd(s).value
    ensures whole == s[sign..IntegerEnd(s).value]
    ensures DigitRun(whole) && (|whole| > 1 ==> whole[0] != '0')
  {
    sign := if At(s, 0, {'-'}) then 1 else 0;
    whole := s[sign..IntegerEnd(s).value];
    var k := |whole|;
    RunOf(s[sign..], k);
    assert whole == s[sign..][..k];
  }

  lemma FractionSpelled(s: string, p: nat)
    requires p <= |s|
    ensures FractionFits(s[p..FractionEnd(s, p)])
  {
    var f := s[p..FractionEnd(s, p)];
    if f != "" {
      RunOf(s[p + 1..], |f| - 1);
      assert f[1..] == s[p + 1..][..|f| - 1];
    }
  }

  lemma ExponentSpelled(s: string, p: nat)
    requires p <= |s|
    ensures ExponentFits(s[p..ExponentEnd(s, p)])
  {
    var x := s[p..ExponentEnd(s, p)];
    if x != "" {
      var sign := if At(s, p + 1, {'+', '-'}) then 2 else 1;
      var k := |x| - sign;
      RunOf(s[p + sign..], k);
      assert x[sign..] == s[p + sign..][..k];
      assert x[0] == s[p];
      assert sign == 2 ==> x[1] == s[p + 1];
    }
  }

  lemma Slices(s: string, i: nat, j: nat, k: nat, e: nat)
    requires i <= j <= k <= e <= |s|
    ensures s[..e] == s[..i] + (s[i..j] + (s[j..k] + s[k..e]))
  {
    assert s[j..e] == s[j..k] + s[k..e];
    assert s[i..e] == s[i..j] + s[j..e];
  }

  /** Whatever number is read, it is well spelled. */
  lemma NumeralSpelled(s: string) returns (n: Numeral)
    requires NumberEnd(s).Some?
    ensures NumeralFits(n) && s[..NumberEnd(s).value.0] == NumeralText(n)
    ensures NumberEnd(s).value.1 <==> IsFloat(n)
  {
    var p := IntegerEnd(s).value;
    var q := FractionEnd(s, p);
    var e := ExponentEnd(s, q);
    var sign, whole := WholeSpelled(s);
    FractionSpelled(s, p);
    ExponentSpelled(s, q);
    n := Numeral(s[0] == '-', whole, s[p..q], s[q..e]);
    assert s[..sign] == SignText(n);
    Slices(s, sign, p, q, e);
  }
}
