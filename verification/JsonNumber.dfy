/** JSON numbers: the lexeme `json.loads` recognises, and the decimal text of an integer. */
module JsonNumber {
  import opened Basics

  predicate Digit(c: char) { '0' <= c <= '9' }

  /** The number of digits at the front of `s`. */
  function Digits(s: string): (n: nat)
    ensures n <= |s|
    ensures forall i :: 0 <= i < n ==> Digit(s[i])
    ensures n < |s| ==> !Digit(s[n])
  {
    if s != "" && Digit(s[0]) then 1 + Digits(s[1..]) else 0
  }

  /** A position in `s` where a sign, a point or an exponent mark may stand. */
  predicate At(s: string, p: nat, chars: set<char>) {
    p < |s| && s[p] in chars
  }

  /** Where the integer part ends; `None` when there is none. */
  function IntegerEnd(s: string): (r: Option<nat>)
    ensures r.Some? ==> 0 < r.value <= |s|
  {
    var sign := if At(s, 0, {'-'}) then 1 else 0;
    var digits := Digits(s[sign..]);
    if digits == 0 then None
    else Some(sign + if s[sign] == '0' then 1 else digits)
  }

  function FractionEnd(s: string, p: nat): (q: nat)
    requires p <= |s|
    ensures p <= q <= |s|
  {
    if At(s, p, {'.'}) && Digits(s[p + 1..]) > 0 then p + 1 + Digits(s[p + 1..]) else p
  }

  function ExponentEnd(s: string, p: nat): (q: nat)
    requires p <= |s|
    ensures p <= q <= |s|
  {
    if !At(s, p, {'e', 'E'}) then p
    else
      var sign := if At(s, p + 1, {'+', '-'}) then p + 2 else p + 1;
      if Digits(s[sign..]) > 0 then sign + Digits(s[sign..]) else p
  }

  /** The end of the number at the front of `s`, and whether it is a float. */
  function NumberEnd(s: string): (r: Option<(nat, bool)>)
    ensures r.Some? ==> 0 < r.value.0 <= |s|
  {
    match IntegerEnd(s)
    case None => None
    case Some(p) => var q := ExponentEnd(s, FractionEnd(s, p)); Some((q, q > p))
  }

  /** What may follow a number in compact JSON: the end, or a closing or separating mark. */
  predicate Delimited(rest: string) {
    rest != "" ==> rest[0] in {',', ']', '}', '\n'}
  }

  lemma {:induction false} DigitsBefore(s: string, rest: string)
    requires Delimited(rest)
    ensures Digits(s + rest) == Digits(s)
  {
    if s == "" {
      assert s + rest == rest;
    } else {
      assert (s + rest)[1..] == s[1..] + rest;
      DigitsBefore(s[1..], rest);
    }
  }

  lemma DigitsFrom(s: string, rest: string, p: nat)
    requires Delimited(rest) && p <= |s|
    ensures Digits((s + rest)[p..]) == Digits(s[p..])
  {
    assert (s + rest)[p..] == s[p..] + rest;
    DigitsBefore(s[p..], rest);
  }

  lemma AtBefore(s: string, rest: string, p: nat, chars: set<char>)
    requires Delimited(rest) && p <= |s| && chars !! {',', ']', '}', '\n'}
    ensures At(s + rest, p, chars) == At(s, p, chars)
  {
    if p < |s| {
      assert (s + rest)[p] == s[p];
    } else if rest != "" {
      assert (s + rest)[p] == rest[0];
    }
  }

  lemma FractionBefore(s: string, rest: string, p: nat)
    requires Delimited(rest) && p <= |s|
    ensures FractionEnd(s + rest, p) == FractionEnd(s, p)
  {
    AtBefore(s, rest, p, {'.'});
    if At(s, p, {'.'}) { DigitsFrom(s, rest, p + 1); }
  }

  lemma ExponentBefore(s: string, rest: string, p: nat)
    requires Delimited(rest) && p <= |s|
    ensures ExponentEnd(s + rest, p) == ExponentEnd(s, p)
  {
    AtBefore(s, rest, p, {'e', 'E'});
    if At(s, p, {'e', 'E'}) {
      AtBefore(s, rest, p + 1, {'+', '-'});
      DigitsFrom(s, rest, if At(s, p + 1, {'+', '-'}) then p + 2 else p + 1);
    }
  }

  /** A delimiter after the text leaves the number at its front as it is. */
  lemma NumberBefore(s: string, rest: string)
    requires Delimited(rest) && NumberEnd(s).Some?
    ensures NumberEnd(s + rest) == NumberEnd(s)
  {
    AtBefore(s, rest, 0, {'-'});
    var sign := if At(s, 0, {'-'}) then 1 else 0;
    DigitsFrom(s, rest, sign);
    var p := IntegerEnd(s).value;
    assert IntegerEnd(s + rest) == Some(p);
    FractionBefore(s, rest, p);
    ExponentBefore(s, rest, FractionEnd(s, p));
  }

  // ----- Integers -----

  function DigitChar(d: int): (c: char)
    requires 0 <= d < 10
    ensures Digit(c)
  {
    (d + 48) as char
  }

  function NatText(n: nat): (s: string)
    ensures s != ""
    ensures forall i :: 0 <= i < |s| ==> Digit(s[i])
    ensures s[0] == '0' ==> n == 0 && |s| == 1
  {
    if n < 10 then [DigitChar(n)] else NatText(n / 10) + [DigitChar(n % 10)]
  }

  /** `str(n)`. */
  function IntText(n: int): (s: string)
    ensures s != ""
  {
    if n < 0 then ['-'] + NatText(-n) else NatText(n)
  }

  function NatValue(s: string): nat
    requires forall i :: 0 <= i < |s| ==> Digit(s[i])
  {
    if s == "" then 0
    else
      assert Digit(s[|s| - 1]);
      NatValue(s[..|s| - 1]) * 10 + (s[|s| - 1] as int - 48)
  }

  /** `int(s)` of an integer lexeme. */
  function IntValue(s: string): int {
    if s != "" && s[0] == '-' then -(NatValueOf(s[1..]) as int) else NatValueOf(s)
  }

  function NatValueOf(s: string): nat {
    if forall i :: 0 <= i < |s| ==> Digit(s[i]) then NatValue(s) else 0
  }

  lemma {:induction false} NatRoundTrip(n: nat)
    ensures NatValue(NatText(n)) == n
    decreases n
  {
    if n >= 10 {
      NatRoundTrip(n / 10);
      var s := NatText(n);
      assert s[..|s| - 1] == NatText(n / 10) && s[|s| - 1] == DigitChar(n % 10);
    } else {
      var s := NatText(n);
      assert s[..|s| - 1] == "";
    }
  }

  lemma {:induction false} AllDigits(s: string)
    requires forall i :: 0 <= i < |s| ==> Digit(s[i])
    ensures Digits(s) == |s|
  {
    if s != "" { AllDigits(s[1..]); }
  }

  /** The decimal text of an integer is a complete integer lexeme with that value. */
  lemma IntRoundTrip(n: int)
    ensures NumberEnd(IntText(n)) == Some((|IntText(n)|, false))
    ensures IntValue(IntText(n)) == n
  {
    var s := IntText(n);
    var m := if n < 0 then -n else n;
    var t := NatText(m);
    var sign := if n < 0 then 1 else 0;
    assert s[sign..] == t;
    AllDigits(t);
    NatRoundTrip(m);
    assert At(s, 0, {'-'}) <==> n < 0;
    assert s[sign] == t[0];
    assert IntegerEnd(s) == Some(|s|);
  }

  lemma IntegerCharacters(s: string)
    requires IntegerEnd(s).Some?
    ensures Digit(s[0]) || s[0] == '-'
    ensures forall i :: 0 <= i < IntegerEnd(s).value ==> ' ' <= s[i] <= '~'
  {
    var sign := if At(s, 0, {'-'}) then 1 else 0;
    forall i | sign <= i < IntegerEnd(s).value ensures Digit(s[i]) {
      assert s[i] == s[sign..][i - sign];
    }
  }

  lemma FractionCharacters(s: string, p: nat)
    requires p <= |s|
    ensures forall i :: p <= i < FractionEnd(s, p) ==> ' ' <= s[i] <= '~'
  {
    forall i | p < i < FractionEnd(s, p) ensures Digit(s[i]) {
      assert s[i] == s[p + 1..][i - p - 1];
    }
  }

  lemma ExponentCharacters(s: string, p: nat)
    requires p <= |s|
    ensures forall i :: p <= i < ExponentEnd(s, p) ==> ' ' <= s[i] <= '~'
  {
    if At(s, p, {'e', 'E'}) {
      var sign := if At(s, p + 1, {'+', '-'}) then p + 2 else p + 1;
      forall i | sign <= i < ExponentEnd(s, p) ensures Digit(s[i]) {
        assert s[i] == s[sign..][i - sign];
      }
    }
  }

  /** Every character of a number lexeme is printable, and the first is a digit or a sign. */
  lemma LexemeCharacters(s: string)
    requires NumberEnd(s).Some?
    ensures Digit(s[0]) || s[0] == '-'
    ensures forall i :: 0 <= i < NumberEnd(s).value.0 ==> ' ' <= s[i] <= '~'
  {
    IntegerCharacters(s);
    var p := IntegerEnd(s).value;
    FractionCharacters(s, p);
    ExponentCharacters(s, FractionEnd(s, p));
  }
}
