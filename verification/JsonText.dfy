/**
 JSON strings: how `json.dumps(..., ensure_ascii=True)` escapes a Python string and how
 `json.loads` reads it back.

 A Python string is a sequence of code points that may include lone surrogates; JSON text
 is a Dafny `string`, whose characters are never surrogates (it is decoded UTF-8).
 */
module JsonText {
  import opened Basics

  type CodePoint = c: int | 0 <= c < 0x11_0000

  type Text = seq<CodePoint>

  predicate High(c: CodePoint) { 0xD800 <= c < 0xDC00 }

  predicate Low(c: CodePoint) { 0xDC00 <= c < 0xE000 }

  /** The code point a surrogate pair stands for. */
  function Join(high: CodePoint, low: CodePoint): CodePoint
    requires High(high) && Low(low)
  {
    0x1_0000 + (high - 0xD800) * 1024 + (low - 0xDC00)
  }

  /** No high surrogate stands directly before a low one. */
  ghost predicate PairFree(t: Text) {
    forall i, j :: 0 <= i < j < |t| && j == i + 1 ==> !(High(t[i]) && Low(t[j]))
  }

  /** Every surrogate pair replaced by the one code point it stands for. */
  function Merge(t: Text): (r: Text)
    ensures |r| <= |t|
  {
    if t == [] then []
    else if |t| >= 2 && High(t[0]) && Low(t[1]) then [Join(t[0], t[1])] + Merge(t[2..])
    else [t[0]] + Merge(t[1..])
  }

  lemma {:induction false} MergeFixed(t: Text)
    requires PairFree(t)
    ensures Merge(t) == t
  {
    if t != [] {
      var u := t[1..];
      assert !(|t| >= 2 && High(t[0]) && Low(t[1]));
      forall i, j | 0 <= i < j < |u| && j == i + 1 ensures !(High(u[i]) && Low(u[j])) {
        assert u[i] == t[i + 1] && u[j] == t[j + 1];
      }
      MergeFixed(u);
    }
  }

  lemma {:induction false} MergePairFree(t: Text)
    ensures PairFree(Merge(t))
    ensures t != [] ==> Merge(t) != [] && (Merge(t)[0] == t[0] || Merge(t)[0] >= 0x1_0000)
  {
    if t != [] {
      var u := if |t| >= 2 && High(t[0]) && Low(t[1]) then t[2..] else t[1..];
      MergePairFree(u);
      var r, m := Merge(t), Merge(u);
      forall i, j | 0 <= i < j < |r| && j == i + 1 ensures !(High(r[i]) && Low(r[j])) {
        assert r[j] == m[i];
        if i > 0 {
          assert r[i] == m[i - 1];
        }
      }
    }
  }

  // ----- Writing -----

  function HexDigit(d: int): (c: char)
    requires 0 <= d < 16
  {
    if d < 10 then (d + 48) as char else (d + 87) as char
  }

  function Hex4(n: int): (s: string)
    requires 0 <= n < 0x1_0000
    ensures |s| == 4
  {
    [HexDigit(n / 4096), HexDigit(n / 256 % 16), HexDigit(n / 16 % 16), HexDigit(n % 16)]
  }

  /** The letter of the two-character escape `ensure_ascii` uses for `c`, if it has one. */
  function ShortEscape(c: CodePoint): (r: Option<char>)
    ensures r.Some? ==> c < 127 && SimpleEscape(r.value) == Some(c) && r.value != 'u' && ' ' <= r.value <= '~'
  {
    if c == 34 then Some('"')
    else if c == 92 then Some('\\')
    else if c == 8 then Some('b')
    else if c == 12 then Some('f')
    else if c == 10 then Some('n')
    else if c == 13 then Some('r')
    else if c == 9 then Some('t')
    else None
  }

  function UnicodeEscape(n: int): (s: string)
    requires 0 <= n < 0x1_0000
    ensures |s| == 6
  {
    ['\\', 'u'] + Hex4(n)
  }

  function LeadUnit(c: CodePoint): (h: CodePoint)
    requires c >= 0x1_0000
    ensures High(h)
  {
    0xD800 + (c - 0x1_0000) / 1024
  }

  function TrailUnit(c: CodePoint): (l: CodePoint)
    requires c >= 0x1_0000
    ensures Low(l) && Join(LeadUnit(c), l) == c
  {
    0xDC00 + (c - 0x1_0000) % 1024
  }

  /** One code point as `ensure_ascii` writes it. */
  function EscapePoint(c: CodePoint): (s: string)
    ensures s != "" && s[0] != '"'
  {
    if ShortEscape(c).Some? then ['\\', ShortEscape(c).value]
    else if 32 <= c <= 126 then [c as char]
    else if c < 0x1_0000 then UnicodeEscape(c)
    else UnicodeEscape(LeadUnit(c)) + UnicodeEscape(TrailUnit(c))
  }

  function Escape(t: Text): string {
    if t == [] then "" else EscapePoint(t[0]) + Escape(t[1..])
  }

  // ----- Reading -----

  function HexValue(c: char): (v: int)
    ensures -1 <= v < 16
  {
    if '0' <= c <= '9' then c as int - 48
    else if 'a' <= c <= 'f' then c as int - 87
    else if 'A' <= c <= 'F' then c as int - 55
    else -1
  }

  function ReadHex4(s: string): (r: Option<CodePoint>)
    ensures r.Some? ==> |s| >= 4 && r.value < 0x1_0000
  {
    if |s| < 4 || HexValue(s[0]) < 0 || HexValue(s[1]) < 0 || HexValue(s[2]) < 0 || HexValue(s[3]) < 0 then None
    else Some(HexValue(s[0]) * 4096 + HexValue(s[1]) * 256 + HexValue(s[2]) * 16 + HexValue(s[3]))
  }

  function SimpleEscape(c: char): Option<CodePoint> {
    if c == '"' then Some(34)
    else if c == '\\' then Some(92)
    else if c == '/' then Some(47)
    else if c == 'b' then Some(8)
    else if c == 'f' then Some(12)
    else if c == 'n' then Some(10)
    else if c == 'r' then Some(13)
    else if c == 't' then Some(9)
    else None
  }

  /** The code point at the front of the inside of a string literal, and what follows it. */
  function ReadPoint(s: string): (r: Option<(CodePoint, string)>)
    requires s != "" && s[0] != '"'
    ensures r.Some? ==> |r.value.1| < |s|
  {
    if s[0] != '\\' then
      if s[0] < ' ' then None else Some((s[0] as int, s[1..]))
    else if |s| < 2 then None
    else if s[1] == 'u' then
      match ReadHex4(s[2..])
      case None => None
      case Some(n) =>
        if High(n) && |s| >= 8 && s[6] == '\\' && s[7] == 'u' then
          match ReadHex4(s[8..])
          case None => None
          case Some(m) => if Low(m) then Some((Join(n, m), s[12..])) else Some((n, s[6..]))
        else Some((n, s[6..]))
    else
      match SimpleEscape(s[1])
      case None => None
      case Some(c) => Some((c, s[2..]))
  }

  /** The rest of a string literal after its opening quote, and what follows the closing one. */
  function ReadText(s: string): (r: Option<(Text, string)>)
    ensures r.Some? ==> |r.value.1| < |s|
    decreases |s|
  {
    if s == "" then None
    else if s[0] == '"' then Some(([], s[1..]))
    else
      match ReadPoint(s)
      case None => None
      case Some(p) =>
        match ReadText(p.1)
        case None => None
        case Some(q) => Some(([p.0] + q.0, q.1))
  }

  // ----- Round trip -----

  lemma HexDigitsSum(n: int)
    requires 0 <= n < 0x1_0000
    ensures 0 <= n / 4096 < 16
    ensures n / 4096 * 4096 + n / 256 % 16 * 256 + n / 16 % 16 * 16 + n % 16 == n
  {
    var p := n / 16;
    var q := p / 16;
    assert n / 256 == q && n / 4096 == q / 16;
  }

  lemma HexRoundTrip(n: int, rest: string)
    requires 0 <= n < 0x1_0000
    ensures ReadHex4(Hex4(n) + rest) == Some(n)
  {
    var s := Hex4(n) + rest;
    var a, b, c, d := n / 4096, n / 256 % 16, n / 16 % 16, n % 16;
    HexDigitsSum(n);
    assert s[0] == HexDigit(a) && s[1] == HexDigit(b) && s[2] == HexDigit(c) && s[3] == HexDigit(d);
    assert HexValue(s[0]) == a && HexValue(s[1]) == b && HexValue(s[2]) == c && HexValue(s[3]) == d;
  }

  lemma UnicodeEscapeFront(n: int, rest: string)
    requires 0 <= n < 0x1_0000
    ensures var s := UnicodeEscape(n) + rest;
            s[0] == '\\' && s[1] == 'u' && ReadHex4(s[2..]) == Some(n) && s[6..] == rest
  {
    var s := UnicodeEscape(n) + rest;
    HexRoundTrip(n, rest);
    assert s[2..] == Hex4(n) + rest;
  }

  /** Text at whose front no low surrogate escape can be read (and no malformed one stands). */
  predicate NoLowUnit(s: string) {
    |s| >= 2 && s[0] == '\\' && s[1] == 'u' ==> ReadHex4(s[2..]).Some? && !Low(ReadHex4(s[2..]).value)
  }

  lemma UnitRoundTrip(n: int, rest: string)
    requires 0 <= n < 0x1_0000 && (High(n) ==> NoLowUnit(rest))
    ensures var s := UnicodeEscape(n) + rest;
            s[0] != '"' && ReadPoint(s) == Some((n, rest))
  {
    var s := UnicodeEscape(n) + rest;
    UnicodeEscapeFront(n, rest);
    if |s| >= 8 {
      assert s[6] == rest[0] && s[7] == rest[1] && s[8..] == rest[2..];
    }
  }

  lemma PairRoundTrip(high: CodePoint, low: CodePoint, rest: string)
    requires High(high) && Low(low)
    ensures var s := UnicodeEscape(high) + (UnicodeEscape(low) + rest);
            s[0] != '"' && ReadPoint(s) == Some((Join(high, low), rest))
  {
    var u := UnicodeEscape(low) + rest;
    var s := UnicodeEscape(high) + u;
    UnicodeEscapeFront(high, u);
    UnicodeEscapeFront(low, rest);
    assert s[6] == u[0] && s[7] == u[1] && s[8..] == u[2..] && s[12..] == u[6..];
  }

  /** What `EscapePoint` wrote is read back, unless what follows completes a surrogate pair. */
  lemma PointRoundTrip(c: CodePoint, rest: string)
    requires High(c) ==> NoLowUnit(rest)
    ensures var s := EscapePoint(c) + rest;
            s[0] != '"' && ReadPoint(s) == Some((c, rest))
  {
    if ShortEscape(c).Some? {
      ShortRoundTrip(c, rest);
    } else if 32 <= c <= 126 {
      PlainRoundTrip(c, rest);
    } else if c < 0x1_0000 {
      UnitRoundTrip(c, rest);
    } else {
      PairRoundTrip(LeadUnit(c), TrailUnit(c), rest);
      assert EscapePoint(c) + rest == UnicodeEscape(LeadUnit(c)) + (UnicodeEscape(TrailUnit(c)) + rest);
    }
  }

  lemma ShortRoundTrip(c: CodePoint, rest: string)
    requires ShortEscape(c).Some?
    ensures var s := ['\\', ShortEscape(c).value] + rest;
            s[0] != '"' && ReadPoint(s) == Some((c, rest))
  {
    var s := ['\\', ShortEscape(c).value] + rest;
    assert s[0] == '\\' && s[1] == ShortEscape(c).value && s[2..] == rest;
  }

  lemma PlainRoundTrip(c: CodePoint, rest: string)
    requires ShortEscape(c).None? && 32 <= c <= 126
    ensures var s := [c as char] + rest;
            s[0] != '"' && ReadPoint(s) == Some((c, rest))
  {
    var s := [c as char] + rest;
    assert s[0] == c as char && s[1..] == rest;
  }

  lemma UnitNoLow(n: int, tail: string)
    requires 0 <= n < 0x1_0000 && !(0xDC00 <= n < 0xE000)
    ensures NoLowUnit(UnicodeEscape(n) + tail)
  {
    UnicodeEscapeFront(n, tail);
  }

  lemma NotUnicode(c: char, tail: string)
    requires c != 'u'
    ensures NoLowUnit(['\\', c] + tail)
  {
    var s := ['\\', c] + tail;
    assert s[1] == c;
  }

  lemma NotEscaped(c: char, tail: string)
    requires c != '\\'
    ensures NoLowUnit([c] + tail)
  {
    var s := [c] + tail;
    assert s[0] == c;
  }

  lemma AstralNoLow(c: CodePoint, tail: string)
    requires c >= 0x1_0000
    ensures NoLowUnit(UnicodeEscape(LeadUnit(c)) + UnicodeEscape(TrailUnit(c)) + tail)
  {
    var rest := UnicodeEscape(TrailUnit(c)) + tail;
    UnitNoLow(LeadUnit(c), rest);
    assert UnicodeEscape(LeadUnit(c)) + UnicodeEscape(TrailUnit(c)) + tail == UnicodeEscape(LeadUnit(c)) + rest;
  }

  lemma PointNoLow(c: CodePoint, tail: string)
    requires !Low(c)
    ensures NoLowUnit(EscapePoint(c) + tail)
  {
    if ShortEscape(c).Some? {
      NotUnicode(ShortEscape(c).value, tail);
    } else if 32 <= c <= 126 {
      NotEscaped(c as char, tail);
    } else if c < 0x1_0000 {
      UnitNoLow(c, tail);
    } else {
      AstralNoLow(c, tail);
    }
  }

  /** Escaped text that does not start with a low surrogate cannot complete a pair. */
  lemma NotCompletedBy(t: Text, rest: string)
    requires if t == [] then rest != "" && rest[0] == '"' else !Low(t[0])
    ensures NoLowUnit(Escape(t) + rest)
  {
    if t == [] {
      assert Escape(t) + rest == rest;
    } else {
      PointNoLow(t[0], Escape(t[1..]) + rest);
      assert Escape(t) + rest == EscapePoint(t[0]) + (Escape(t[1..]) + rest);
    }
  }

  lemma EscapeTwo(t: Text)
    requires |t| >= 2 && High(t[0]) && Low(t[1])
    ensures Escape(t) == UnicodeEscape(t[0]) + (UnicodeEscape(t[1]) + Escape(t[2..]))
  {
    assert t[1..][1..] == t[2..];
    assert Escape(t[1..]) == EscapePoint(t[1]) + Escape(t[2..]);
  }

  /** The inside of a string literal up to and including its closing quote. */
  function Quoted(t: Text): (s: string)
    ensures s != ""
  {
    Escape(t) + ['"']
  }

  lemma QuotedFront(t: Text, rest: string)
    ensures t == [] ==> Quoted(t) + rest == ['"'] + rest
    ensures t != [] ==> Quoted(t) + rest == EscapePoint(t[0]) + (Quoted(t[1..]) + rest)
  {
  }

  lemma QuotedNotCompleting(t: Text, rest: string)
    requires t != [] ==> !Low(t[0])
    ensures NoLowUnit(Quoted(t) + rest)
  {
    NotCompletedBy(t, ['"'] + rest);
    assert Quoted(t) + rest == Escape(t) + (['"'] + rest);
  }

  lemma ReadStep(s: string, c: CodePoint, u: string, t: Text, rest: string)
    requires s != "" && s[0] != '"' && ReadPoint(s) == Some((c, u)) && ReadText(u) == Some((t, rest))
    ensures ReadText(s) == Some(([c] + t, rest))
  {
  }

  lemma RegroupTail(a: string, b: string, c: string, d: string, e: string)
    ensures a + (b + c) + d + e == a + (b + (c + d + e))
  {
  }

  lemma QuotedPair(t: Text, rest: string)
    requires |t| >= 2 && High(t[0]) && Low(t[1])
    ensures var s := Quoted(t) + rest;
            s[0] != '"' && ReadPoint(s) == Some((Join(t[0], t[1]), Quoted(t[2..]) + rest))
  {
    EscapeTwo(t);
    RegroupTail(UnicodeEscape(t[0]), UnicodeEscape(t[1]), Escape(t[2..]), ['"'], rest);
    PairRoundTrip(t[0], t[1], Quoted(t[2..]) + rest);
  }

  lemma QuotedPoint(t: Text, rest: string)
    requires t != [] && !(|t| >= 2 && High(t[0]) && Low(t[1]))
    ensures var s := Quoted(t) + rest;
            s[0] != '"' && ReadPoint(s) == Some((t[0], Quoted(t[1..]) + rest))
  {
    QuotedFront(t, rest);
    if High(t[0]) {
      QuotedNotCompleting(t[1..], rest);
    }
    PointRoundTrip(t[0], Quoted(t[1..]) + rest);
  }

  /** The front of an escaped string reads back as the front of its merged form. */
  lemma QuotedStep(t: Text, rest: string)
    requires t != []
    ensures var paired := |t| >= 2 && High(t[0]) && Low(t[1]);
            var s := Quoted(t) + rest;
            s[0] != '"' &&
            ReadPoint(s) == if paired then Some((Join(t[0], t[1]), Quoted(t[2..]) + rest))
                            else Some((t[0], Quoted(t[1..]) + rest))
  {
    if |t| >= 2 && High(t[0]) && Low(t[1]) {
      QuotedPair(t, rest);
    } else {
      QuotedPoint(t, rest);
    }
  }

  /** Reading an escaped string gives it back with its surrogate pairs merged. */
  lemma {:induction false} TextRoundTrip(t: Text, rest: string)
    ensures ReadText(Quoted(t) + rest) == Some((Merge(t), rest))
    decreases |t|
  {
    var s := Quoted(t) + rest;
    if t == [] {
      QuotedFront(t, rest);
      assert s[1..] == rest;
    } else {
      QuotedStep(t, rest);
      var paired := |t| >= 2 && High(t[0]) && Low(t[1]);
      var tail := if paired then t[2..] else t[1..];
      var c := if paired then Join(t[0], t[1]) else t[0];
      TextRoundTrip(tail, rest);
      ReadStep(s, c, Quoted(tail) + rest, Merge(tail), rest);
    }
  }

  /** Whatever the text, a string read from it never holds an unmerged surrogate pair. */
  lemma {:induction false} ReadTextPairFree(s: string)
    requires ReadText(s).Some?
    ensures PairFree(ReadText(s).value.0)
    decreases |s|
  {
    if s[0] != '"' {
      var p := ReadPoint(s).value;
      ReadTextPairFree(p.1);
      var t, u := ReadText(s).value.0, ReadText(p.1).value.0;
      forall i, j | 0 <= i < j < |t| && j == i + 1 ensures !(High(t[i]) && Low(t[j])) {
        assert t[j] == u[i];
        if i > 0 {
          assert t[i] == u[i - 1];
        } else if High(p.0) {
          assert ReadPoint(p.1).Some? && u[0] == ReadPoint(p.1).value.0;
          assert p.1 == s[6..];
        }
      }
    }
  }

  // ----- What two strings share when they are written alike -----

  lemma EscapeCons(c: CodePoint, t: Text)
    ensures Escape([c] + t) == EscapePoint(c) + Escape(t)
  {
    assert ([c] + t)[1..] == t;
  }

  /** A joined pair is written as the pair it was joined from. */
  lemma EscapeJoined(high: CodePoint, low: CodePoint)
    requires High(high) && Low(low)
    ensures EscapePoint(Join(high, low)) == UnicodeEscape(high) + UnicodeEscape(low)
  {
    var c := Join(high, low);
    assert LeadUnit(c) == high && TrailUnit(c) == low;
  }

  /** Merging surrogate pairs does not change the escaped text. */
  lemma {:induction false} EscapeMerge(t: Text)
    ensures Escape(Merge(t)) == Escape(t)
    decreases |t|
  {
    if |t| >= 2 && High(t[0]) && Low(t[1]) {
      EscapeMerge(t[2..]);
      EscapeTwo(t);
      EscapeCons(Join(t[0], t[1]), Merge(t[2..]));
      EscapeJoined(t[0], t[1]);
      Regroup(UnicodeEscape(t[0]), UnicodeEscape(t[1]), Escape(t[2..]));
    } else if t != [] {
      EscapeMerge(t[1..]);
      EscapeCons(t[0], Merge(t[1..]));
    }
  }

  lemma Regroup(a: string, b: string, c: string)
    ensures a + b + c == a + (b + c)
  {
  }

  /** The escaped text is printable ASCII throughout. */
  predicate Printable(s: string) {
    forall i :: 0 <= i < |s| ==> ' ' <= s[i] <= '~'
  }

  lemma PointPrintable(c: CodePoint)
    ensures Printable(EscapePoint(c))
  {
    assert forall n :: 0 <= n < 0x1_0000 ==> Printable(UnicodeEscape(n));
  }

  lemma {:induction false} EscapePrintable(t: Text)
    ensures Printable(Escape(t))
  {
    if t != [] {
      PointPrintable(t[0]);
      EscapePrintable(t[1..]);
    }
  }
}
