/**
 UTF-8 (section 3 of RFC 3629): encoding, decoding with errors ignored, and cutting a text to a
 number of bytes.
 */
module Utf8 {
  import opened Basics
  import opened Ordering

  type Byte = b: int | 0 <= b < 256

  // ----- Encoding -----

  function EncodeChar(c: char): (r: seq<Byte>)
    ensures 1 <= |r| <= 4
  {
    var n := c as int;
    if n < 0x80 then [n]
    else if n < 0x800 then [0xC0 + n / 64, 0x80 + n % 64]
    else if n < 0x1_0000 then [0xE0 + n / 4096, 0x80 + n / 64 % 64, 0x80 + n % 64]
    else [0xF0 + n / 262144, 0x80 + n / 4096 % 64, 0x80 + n / 64 % 64, 0x80 + n % 64]
  }

  /** `text.encode("utf-8")`. */
  function Encode(s: string): (r: seq<Byte>)
    ensures |s| <= |r|
  {
    if s == "" then [] else EncodeChar(s[0]) + Encode(s[1..])
  }

  // ----- Decoding -----

  predicate Continuation(b: Byte) { 0x80 <= b < 0xC0 }

  /** How many bytes a sequence with this first byte has, or 0 when none starts with it. */
  function SequenceLength(b: Byte): (k: nat)
    ensures k <= 4
  {
    if b < 0x80 then 1
    else if b < 0xC0 then 0
    else if b < 0xE0 then 2
    else if b < 0xF0 then 3
    else if b < 0xF8 then 4
    else 0
  }

  predicate Continued(b: seq<Byte>, k: nat)
    requires k <= |b|
  {
    forall i :: 1 <= i < k ==> Continuation(b[i])
  }

  /** The number spelled by a sequence of `k` bytes. */
  function SequenceValue(b: seq<Byte>, k: nat): int
    requires 1 <= k <= 4 && k <= |b|
  {
    if k == 1 then b[0]
    else if k == 2 then (b[0] as int - 0xC0) * 64 + (b[1] as int - 0x80)
    else if k == 3 then (b[0] as int - 0xE0) * 4096 + (b[1] as int - 0x80) * 64 + (b[2] as int - 0x80)
    else (b[0] as int - 0xF0) * 262144 + (b[1] as int - 0x80) * 4096 + (b[2] as int - 0x80) * 64 + (b[3] as int - 0x80)
  }

  /** The shortest sequence for `n` has `k` bytes, and `n` is a Unicode scalar value. */
  predicate Shortest(n: int, k: nat) {
    if k == 1 then 0 <= n < 0x80
    else if k == 2 then 0x80 <= n < 0x800
    else if k == 3 then 0x800 <= n < 0x1_0000 && !(0xD800 <= n < 0xE000)
    else k == 4 && 0x1_0000 <= n < 0x11_0000
  }

  /** The well-formed sequence at the front of `b`, as its character and its length. */
  function DecodeFront(b: seq<Byte>): (r: Option<(char, nat)>)
    ensures r.Some? ==> 1 <= r.value.1 <= |b|
  {
    if b == [] then None
    else
      var k := SequenceLength(b[0]);
      if k == 0 || |b| < k || !Continued(b, k) || !Shortest(SequenceValue(b, k), k) then None
      else Some((SequenceValue(b, k) as char, k))
  }

  /**
   `b.decode("utf-8", errors="ignore")`. Skipping a malformed part byte by byte comes to the same
   as skipping it at once, since continuation bytes start no sequence.
   */
  function DecodeIgnore(b: seq<Byte>): string {
    if b == [] then ""
    else
      match DecodeFront(b)
      case Some(p) => [p.0] + DecodeIgnore(b[p.1..])
      case None => DecodeIgnore(b[1..])
  }

  // ----- Decoding what was encoded -----

  lemma Digits64(n: int)
    requires 0 <= n
    ensures n / 64 * 64 + n % 64 == n
    ensures n / 4096 == n / 64 / 64 && n / 262144 == n / 64 / 64 / 64
    ensures n / 4096 * 4096 + n / 64 % 64 * 64 + n % 64 == n
    ensures n / 262144 * 262144 + n / 4096 % 64 * 4096 + n / 64 % 64 * 64 + n % 64 == n
  {
    var p := n / 64;
    var q := p / 64;
  }

  lemma EncodedSequence(c: char)
    ensures var e := EncodeChar(c);
            SequenceLength(e[0]) == |e| && Continued(e, |e|) && SequenceValue(e, |e|) == c as int &&
            Shortest(c as int, |e|)
  {
    Digits64(c as int);
  }

  lemma FrontDecodes(c: char, rest: seq<Byte>)
    ensures DecodeFront(EncodeChar(c) + rest) == Some((c, |EncodeChar(c)|))
  {
    var e := EncodeChar(c);
    var b := e + rest;
    EncodedSequence(c);
    assert forall i :: 0 <= i < |e| ==> b[i] == e[i];
    assert SequenceValue(b, |e|) == SequenceValue(e, |e|);
  }

  lemma DigitsOf(n: int, a: int, b: int, c: int, d: int)
    requires 0 <= a && 0 <= b < 64 && 0 <= c < 64 && 0 <= d < 64 && n == a * 262144 + b * 4096 + c * 64 + d
    ensures n / 262144 == a && n / 4096 % 64 == b && n / 64 % 64 == c && n % 64 == d
    ensures n / 4096 == a * 64 + b && n / 64 == a * 4096 + b * 64 + c
  {
    assert n / 64 == a * 4096 + b * 64 + c;
    assert n / 64 / 64 == a * 64 + b;
    Digits64(n);
  }

  lemma TwoBytes(b: seq<Byte>, c: char)
    requires |b| == 2 && SequenceLength(b[0]) == 2 && Continued(b, 2)
    requires SequenceValue(b, 2) == c as int && Shortest(c as int, 2)
    ensures EncodeChar(c) == b
  {
    assert Continuation(b[1]);
    DigitsOf(c as int, 0, 0, b[0] - 0xC0, b[1] - 0x80);
  }

  lemma ThreeBytes(b: seq<Byte>, c: char)
    requires |b| == 3 && SequenceLength(b[0]) == 3 && Continued(b, 3)
    requires SequenceValue(b, 3) == c as int && Shortest(c as int, 3)
    ensures EncodeChar(c) == b
  {
    assert Continuation(b[1]) && Continuation(b[2]);
    DigitsOf(c as int, 0, b[0] - 0xE0, b[1] - 0x80, b[2] - 0x80);
  }

  lemma FourBytes(b: seq<Byte>, c: char)
    requires |b| == 4 && SequenceLength(b[0]) == 4 && Continued(b, 4)
    requires SequenceValue(b, 4) == c as int && Shortest(c as int, 4)
    ensures EncodeChar(c) == b
  {
    assert Continuation(b[1]) && Continuation(b[2]) && Continuation(b[3]);
    DigitsOf(c as int, b[0] - 0xF0, b[1] - 0x80, b[2] - 0x80, b[3] - 0x80);
  }

  /** What is decoded is what is encoded. */
  lemma FrontEncodes(b: seq<Byte>)
    requires DecodeFront(b).Some?
    ensures var (c, k) := DecodeFront(b).value; b[..k] == EncodeChar(c)
  {
    var (c, k) := DecodeFront(b).value;
    assert SequenceValue(b[..k], k) == SequenceValue(b, k);
    assert Continued(b[..k], k);
    match k
    case 2 => TwoBytes(b[..2], c);
    case 3 => ThreeBytes(b[..3], c);
    case 4 => FourBytes(b[..4], c);
    case _ =>
  }

  /** A character is decoded exactly where its encoding stands. */
  lemma FrontExact(b: seq<Byte>, c: char, k: nat)
    ensures DecodeFront(b) == Some((c, k)) <==> EncodeChar(c) <= b && k == |EncodeChar(c)|
  {
    if EncodeChar(c) <= b {
      FrontDecodes(c, b[|EncodeChar(c)|..]);
      assert EncodeChar(c) + b[|EncodeChar(c)|..] == b;
    }
    if DecodeFront(b).Some? { FrontEncodes(b); }
  }

  lemma {:induction false} ContinuationsIgnored(b: seq<Byte>)
    requires forall i :: 0 <= i < |b| ==> Continuation(b[i])
    ensures DecodeIgnore(b) == ""
  {
    if b != [] {
      ContinuationsIgnored(b[1..]);
    }
  }

  /** A sequence cut short decodes to nothing. */
  lemma CutIgnored(c: char, k: nat)
    requires k < |EncodeChar(c)|
    ensures DecodeIgnore(EncodeChar(c)[..k]) == ""
  {
    if k > 0 {
      EncodedSequence(c);
      var b := EncodeChar(c)[..k];
      assert DecodeFront(b).None?;
      forall i | 0 <= i < |b[1..]| ensures Continuation(b[1..][i]) {
        assert b[1..][i] == EncodeChar(c)[i + 1];
      }
      ContinuationsIgnored(b[1..]);
    }
  }

  // ----- Cutting a text to a number of bytes -----

  /** How many leading characters fit in `k` bytes. */
  function Fitting(s: string, k: nat): (n: nat)
    ensures n <= |s|
  {
    if s == "" || |EncodeChar(s[0])| > k then 0
    else 1 + Fitting(s[1..], k - |EncodeChar(s[0])|)
  }

  lemma {:induction false} EncodePrefix(s: string, n: nat)
    requires n <= |s|
    ensures Encode(s) == Encode(s[..n]) + Encode(s[n..])
  {
    if n == 0 {
      assert s[..0] == "" && s[0..] == s;
    } else {
      EncodePrefix(s[1..], n - 1);
      assert s[..n][0] == s[0] && s[..n][1..] == s[1..][..n - 1] && s[1..][n - 1..] == s[n..];
      Regroup(EncodeChar(s[0]), Encode(s[1..][..n - 1]), Encode(s[n..]));
    }
  }

  lemma Regroup(a: seq<Byte>, b: seq<Byte>, c: seq<Byte>)
    ensures a + (b + c) == (a + b) + c
  {
  }

  lemma EncodeAppend(s: string, t: string)
    ensures Encode(s + t) == Encode(s) + Encode(t)
  {
    EncodePrefix(s + t, |s|);
    assert (s + t)[..|s|] == s && (s + t)[|s|..] == t;
  }

  /** `Fitting` is the longest: exactly the prefixes up to it fit. */
  lemma {:induction false} FittingLongest(s: string, k: nat, n: nat)
    requires n <= |s|
    ensures |Encode(s[..n])| <= k <==> n <= Fitting(s, k)
  {
    if n > 0 {
      var e := |EncodeChar(s[0])|;
      assert s[..n][1..] == s[1..][..n - 1];
      if e <= k {
        FittingLongest(s[1..], k - e, n - 1);
      }
    }
  }

  /** Cutting the encoding anywhere and decoding it gives the longest prefix that fits. */
  lemma {:induction false} DecodeCut(s: string, k: nat)
    requires k <= |Encode(s)|
    ensures DecodeIgnore(Encode(s)[..k]) == s[..Fitting(s, k)]
  {
    if s != "" {
      var e, rest := EncodeChar(s[0]), Encode(s[1..]);
      if k < |e| {
        assert Encode(s)[..k] == e[..k];
        CutIgnored(s[0], k);
      } else {
        var b := Encode(s)[..k];
        assert b == e + rest[..k - |e|];
        FrontDecodes(s[0], rest[..k - |e|]);
        assert b[|e|..] == rest[..k - |e|];
        DecodeCut(s[1..], k - |e|);
        assert s[..Fitting(s, k)] == [s[0]] + s[1..][..Fitting(s, k) - 1];
      }
    }
  }

  /** Decoding undoes encoding. */
  lemma DecodeEncode(s: string)
    ensures DecodeIgnore(Encode(s)) == s
  {
    var k := |Encode(s)|;
    FittingLongest(s, k, |s|);
    assert s[..|s|] == s && Encode(s)[..k] == Encode(s);
    DecodeCut(s, k);
  }

  /** `_truncate_to_utf8_bytes`. */
  function TruncateToBytes(s: string, limit: nat): string {
    var encoded := Encode(s);
    if |encoded| <= limit then s else DecodeIgnore(encoded[..limit])
  }

  /** Truncation keeps exactly the longest prefix, cut between characters, that fits the limit. */
  lemma TruncationExact(s: string, limit: nat)
    ensures TruncateToBytes(s, limit) == s[..Fitting(s, limit)]
    ensures TruncateToBytes(s, limit) == s <==> |Encode(s)| <= limit
    ensures |Encode(TruncateToBytes(s, limit))| <= limit
    ensures forall n :: 0 <= n <= |s| && |Encode(s[..n])| <= limit ==> s[..n] <= TruncateToBytes(s, limit)
  {
    FittingLongest(s, limit, |s|);
    assert s[..|s|] == s;
    FittingLongest(s, limit, Fitting(s, limit));
    if |Encode(s)| > limit { DecodeCut(s, limit); }
    forall n | 0 <= n <= |s| && |Encode(s[..n])| <= limit ensures s[..n] <= s[..Fitting(s, limit)] {
      FittingLongest(s, limit, n);
    }
  }

  // ----- Byte order is code-point order -----

  predicate Digit64(x: int) { 0 <= x < 64 }

  /** Of two numbers written in base 64, the smaller has the smaller digit where they first differ. */
  lemma SmallerDigits(a: int, b: int, c: int, d: int, p: int, q: int, r: int, s: int)
    requires Digit64(b) && Digit64(c) && Digit64(d) && Digit64(q) && Digit64(r) && Digit64(s)
    requires a * 262144 + b * 4096 + c * 64 + d < p * 262144 + q * 4096 + r * 64 + s
    ensures a < p || (a == p && (b < q || (b == q && (c < r || (c == r && d < s)))))
  {
  }

  lemma SmallerPair(c: int, d: int, r: int, s: int)
    requires Digit64(d) && Digit64(s) && c * 64 + d < r * 64 + s
    ensures c < r || (c == r && d < s)
  {
  }

  lemma SmallerTriple(b: int, c: int, d: int, q: int, r: int, s: int)
    requires Digit64(c) && Digit64(d) && Digit64(r) && Digit64(s)
    requires b * 4096 + c * 64 + d < q * 4096 + r * 64 + s
    ensures b < q || (b == q && (c < r || (c == r && d < s)))
  {
  }

  lemma LessAtFirst(e: seq<Byte>, f: seq<Byte>, i: nat, s: Rank, t: Rank)
    requires i < |e| && i < |f| && e[..i] == f[..i] && e[i] < f[i]
    ensures Less(e + s, f + t)
  {
    assert e == e[..i] + e[i..] && f == f[..i] + f[i..];
    assert e + s == e[..i] + (e[i..] + s) && f + t == f[..i] + (f[i..] + t);
    LessAfterPrefix(e[..i], e[i..] + s, f[i..] + t);
  }

  lemma DifferInTwo(e: seq<Byte>, f: seq<Byte>) returns (i: nat)
    requires |e| == |f| == 2 && (e[0] < f[0] || (e[0] == f[0] && e[1] < f[1]))
    ensures i < |e| && e[..i] == f[..i] && e[i] < f[i]
  {
    i := if e[0] < f[0] then 0 else 1;
  }

  lemma DifferInThree(e: seq<Byte>, f: seq<Byte>) returns (i: nat)
    requires |e| == |f| == 3
    requires e[0] < f[0] || (e[0] == f[0] && (e[1] < f[1] || (e[1] == f[1] && e[2] < f[2])))
    ensures i < |e| && e[..i] == f[..i] && e[i] < f[i]
  {
    i := if e[0] < f[0] then 0 else if e[1] < f[1] then 1 else 2;
  }

  lemma DifferInFour(e: seq<Byte>, f: seq<Byte>) returns (i: nat)
    requires |e| == |f| == 4
    requires || e[0] < f[0]
             || (e[0] == f[0] && (e[1] < f[1] || (e[1] == f[1] && (e[2] < f[2] || (e[2] == f[2] && e[3] < f[3])))))
    ensures i < |e| && e[..i] == f[..i] && e[i] < f[i]
  {
    i := if e[0] < f[0] then 0 else if e[1] < f[1] then 1 else if e[2] < f[2] then 2 else 3;
  }

  /** The digits of two characters, compared where they first differ. */
  lemma DigitsCompared(m: int, n: int)
    requires 0 <= m < n
    ensures m / 64 < n / 64 || (m / 64 == n / 64 && m % 64 < n % 64)
    ensures || m / 4096 < n / 4096
            || (m / 4096 == n / 4096 && (m / 64 % 64 < n / 64 % 64 || (m / 64 % 64 == n / 64 % 64 && m % 64 < n % 64)))
    ensures || m / 262144 < n / 262144
            || (&& m / 262144 == n / 262144
                && (|| m / 4096 % 64 < n / 4096 % 64
                    || (m / 4096 % 64 == n / 4096 % 64 &&
                        (m / 64 % 64 < n / 64 % 64 || (m / 64 % 64 == n / 64 % 64 && m % 64 < n % 64)))))
  {
    Digits64(m);
    Digits64(n);
    SmallerPair(m / 64, m % 64, n / 64, n % 64);
    SmallerTriple(m / 4096, m / 64 % 64, m % 64, n / 4096, n / 64 % 64, n % 64);
    SmallerDigits(m / 262144, m / 4096 % 64, m / 64 % 64, m % 64, n / 262144, n / 4096 % 64, n / 64 % 64, n % 64);
  }

  /** Two sequences of the same length, by their numbers. */
  lemma FirstDifference(c: char, d: char) returns (i: nat)
    requires c < d && |EncodeChar(c)| == |EncodeChar(d)|
    ensures i < |EncodeChar(c)| && EncodeChar(c)[..i] == EncodeChar(d)[..i] && EncodeChar(c)[i] < EncodeChar(d)[i]
  {
    var e, f := EncodeChar(c), EncodeChar(d);
    if |e| == 1 {
      i := 0;
    } else {
      DigitsCompared(c as int, d as int);
      if |e| == 2 {
        i := DifferInTwo(e, f);
      } else if |e| == 3 {
        i := DifferInThree(e, f);
      } else {
        i := DifferInFour(e, f);
      }
    }
  }

  /** A smaller character's bytes come first, and differ before either ends. */
  lemma SmallerBytes(c: char, d: char, s: Rank, t: Rank)
    requires c < d
    ensures Less(EncodeChar(c) + s, EncodeChar(d) + t)
  {
    var e, f := EncodeChar(c), EncodeChar(d);
    if |e| == |f| {
      var i := FirstDifference(c, d);
      LessAtFirst(e, f, i, s, t);
    } else {
      LessAtFirst(e, f, 0, s, t);
    }
  }

  /** Comparing UTF-8 bytes and comparing code points order any two texts alike. */
  lemma {:induction false} ByteOrder(s: string, t: string)
    ensures Less(Encode(s), Encode(t)) <==> Less(Codes(s), Codes(t))
  {
    if s != "" && t != "" {
      assert Codes(s)[1..] == Codes(s[1..]) && Codes(t)[1..] == Codes(t[1..]);
      if s[0] == t[0] {
        ByteOrder(s[1..], t[1..]);
        LessAfterPrefix(EncodeChar(s[0]), Encode(s[1..]), Encode(t[1..]));
      } else if s[0] < t[0] {
        SmallerBytes(s[0], t[0], Encode(s[1..]), Encode(t[1..]));
      } else {
        SmallerBytes(t[0], s[0], Encode(t[1..]), Encode(s[1..]));
        if Less(Encode(s), Encode(t)) {
          LessTransitive(Encode(s), Encode(t), Encode(s));
          LessIrreflexive(Encode(s));
        }
      }
    }
  }

  lemma EncodeInjective(s: string, t: string)
    requires Encode(s) == Encode(t)
    ensures s == t
  {
    DecodeEncode(s);
    DecodeEncode(t);
  }
}
