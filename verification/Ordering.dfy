/**
 Python's lexicographic order on strings and byte strings, and `sorted`.

 A string is ordered by its code points and a byte string by its bytes, so both are
 compared here as sequences of integers.
 */
module Ordering {
  import opened Basics

  type Rank = seq<int>

  /** A string's code points. */
  function Codes(s: string): (r: Rank)
    ensures |r| == |s| && forall i :: 0 <= i < |s| ==> r[i] == s[i] as int
  {
    seq(|s|, i requires 0 <= i < |s| => s[i] as int)
  }

  lemma CodesInjective(s: string, t: string)
    requires Codes(s) == Codes(t)
    ensures s == t
  {
    assert |Codes(s)| == |Codes(t)|;
    forall i | 0 <= i < |s| ensures s[i] == t[i] {
      assert Codes(s)[i] == s[i] as int && Codes(t)[i] == t[i] as int;
      assert s[i] as int == t[i] as int;
    }
  }

  predicate Less(a: Rank, b: Rank) {
    if b == [] then false
    else if a == [] then true
    else a[0] < b[0] || (a[0] == b[0] && Less(a[1..], b[1..]))
  }

  lemma {:induction false} LessIrreflexive(a: Rank)
    ensures !Less(a, a)
  {
    if a != [] {
      LessIrreflexive(a[1..]);
    }
  }

  lemma {:induction false} LessTransitive(a: Rank, b: Rank, c: Rank)
    requires Less(a, b) && Less(b, c)
    ensures Less(a, c)
  {
    if a != [] && a[0] == b[0] == c[0] {
      LessTransitive(a[1..], b[1..], c[1..]);
    }
  }

  lemma {:induction false} LessTotal(a: Rank, b: Rank)
    ensures a == b || Less(a, b) || Less(b, a)
  {
    if a != [] && b != [] && a[0] == b[0] {
      LessTotal(a[1..], b[1..]);
      assert a == [a[0]] + a[1..] && b == [b[0]] + b[1..];
    }
  }

  /** A shared prefix does not affect the comparison. */
  lemma {:induction false} LessAfterPrefix(p: Rank, a: Rank, b: Rank)
    ensures Less(p + a, p + b) == Less(a, b)
  {
    if p == [] {
      assert p + a == a && p + b == b;
    } else {
      LessAfterPrefix(p[1..], a, b);
      assert (p + a)[1..] == p[1..] + a && (p + b)[1..] == p[1..] + b;
    }
  }

  /** Strictly ascending under `key`: ordered and without equal keys. */
  predicate Ascending<T>(xs: seq<T>, key: T -> Rank) {
    forall i, j :: 0 <= i < j < |xs| ==> Less(key(xs[i]), key(xs[j]))
  }

  ghost predicate DistinctKeys<T>(xs: seq<T>, key: T -> Rank) {
    forall i, j :: 0 <= i < j < |xs| ==> key(xs[i]) != key(xs[j])
  }

  lemma AscendingDistinct<T>(xs: seq<T>, key: T -> Rank)
    requires Ascending(xs, key)
    ensures DistinctKeys(xs, key)
  {
    forall i, j | 0 <= i < j < |xs| ensures key(xs[i]) != key(xs[j]) {
      LessIrreflexive(key(xs[i]));
    }
  }

  /** Stable insertion: `x` goes before the first element whose key is not smaller. */
  function Insert<T>(x: T, xs: seq<T>, key: T -> Rank): (r: seq<T>)
    ensures multiset(r) == multiset(xs) + multiset{x}
    ensures |r| == |xs| + 1
  {
    if xs == [] then [x]
    else if Less(key(xs[0]), key(x)) then
      assert xs == [xs[0]] + xs[1..];
      [xs[0]] + Insert(x, xs[1..], key)
    else [x] + xs
  }

  /** `sorted(xs, key=key)`. */
  function Sort<T>(xs: seq<T>, key: T -> Rank): (r: seq<T>)
    ensures multiset(r) == multiset(xs)
    ensures |r| == |xs|
  {
    if xs == [] then []
    else
      assert xs == [xs[0]] + xs[1..];
      Insert(xs[0], Sort(xs[1..], key), key)
  }

  lemma SortElements<T(!new)>(xs: seq<T>, key: T -> Rank)
    ensures SameElements(Sort(xs, key), xs)
  {
    forall x ensures x in Sort(xs, key) <==> x in xs {
      assert x in multiset(Sort(xs, key)) <==> x in multiset(xs);
    }
  }

  lemma AscendingCons<T(!new)>(x: T, xs: seq<T>, key: T -> Rank)
    requires Ascending(xs, key) && forall y :: y in xs ==> Less(key(x), key(y))
    ensures Ascending([x] + xs, key)
  {
    var all := [x] + xs;
    forall i, j | 0 <= i < j < |all| ensures Less(key(all[i]), key(all[j])) {
      assert all[j] == xs[j - 1];
      if i > 0 { assert all[i] == xs[i - 1]; }
    }
  }

  lemma {:induction false} InsertAscending<T(!new)>(x: T, xs: seq<T>, key: T -> Rank)
    requires Ascending(xs, key)
    requires forall y :: y in xs ==> key(y) != key(x)
    ensures Ascending(Insert(x, xs, key), key)
  {
    if xs != [] {
      LessTotal(key(xs[0]), key(x));
      if Less(key(xs[0]), key(x)) {
        var tail := xs[1..];
        AscendingTail(xs, key);
        InsertAscending(x, tail, key);
        forall y | y in Insert(x, tail, key) ensures Less(key(xs[0]), key(y)) {
          assert y in multiset(tail) + multiset{x};
          if y != x {
            var k :| 0 <= k < |tail| && tail[k] == y;
            assert xs[k + 1] == y;
          }
        }
        AscendingCons(xs[0], Insert(x, tail, key), key);
      } else {
        forall y | y in xs ensures Less(key(x), key(y)) {
          var k :| 0 <= k < |xs| && xs[k] == y;
          if k > 0 { LessTransitive(key(x), key(xs[0]), key(y)); }
        }
        AscendingCons(x, xs, key);
      }
    }
  }

  /** Sorting a sequence without equal keys gives a strictly ascending one. */
  lemma {:induction false} SortAscending<T(!new)>(xs: seq<T>, key: T -> Rank)
    requires DistinctKeys(xs, key)
    ensures Ascending(Sort(xs, key), key)
  {
    if xs != [] {
      var tail := xs[1..];
      SortAscending(tail, key);
      SortElements(tail, key);
      forall y | y in Sort(tail, key) ensures key(y) != key(xs[0]) {
        assert y in tail;
        var k :| 0 <= k < |tail| && tail[k] == y;
        assert xs[k + 1] == y;
      }
      InsertAscending(xs[0], Sort(tail, key), key);
    }
  }

  /** A strictly ascending sequence is determined by its elements alone. */
  lemma {:induction false} AscendingUnique<T(!new)>(a: seq<T>, b: seq<T>, key: T -> Rank)
    requires Ascending(a, key) && Ascending(b, key) && SameElements(a, b)
    ensures a == b
  {
    assert |b| > 0 ==> b[0] in a;
    if a != [] {
      assert a[0] in b;
      assert b[0] in a;
      var i :| 0 <= i < |b| && b[i] == a[0];
      var j :| 0 <= j < |a| && a[j] == b[0];
      if i > 0 {
        if j > 0 {
          LessTransitive(key(a[0]), key(b[0]), key(a[0]));
        }
        LessIrreflexive(key(a[0]));
      }
      assert a[0] == b[0];
      var ta, tb := a[1..], b[1..];
      AscendingTail(a, key);
      AscendingTail(b, key);
      forall x ensures x in ta <==> x in tb {
        assert x in a <==> x in b;
        if x == a[0] {
          HeadNotInTail(a, key);
          HeadNotInTail(b, key);
        }
      }
      AscendingUnique(ta, tb, key);
      assert a == [a[0]] + ta && b == [b[0]] + tb;
    }
  }

  lemma AscendingTail<T>(a: seq<T>, key: T -> Rank)
    requires Ascending(a, key) && a != []
    ensures Ascending(a[1..], key)
  {
    var t := a[1..];
    forall i, j | 0 <= i < j < |t| ensures Less(key(t[i]), key(t[j])) {
      assert t[i] == a[i + 1] && t[j] == a[j + 1];
    }
  }

  lemma HeadNotInTail<T(!new)>(a: seq<T>, key: T -> Rank)
    requires Ascending(a, key) && a != []
    ensures a[0] !in a[1..]
  {
    if a[0] in a[1..] {
      var k :| 0 <= k < |a| - 1 && a[1..][k] == a[0];
      assert a[k + 1] == a[0];
      LessIrreflexive(key(a[0]));
    }
  }

  lemma SortedAlready<T(!new)>(xs: seq<T>, key: T -> Rank)
    requires Ascending(xs, key)
    ensures Sort(xs, key) == xs
  {
    AscendingDistinct(xs, key);
    SortAscending(xs, key);
    SortElements(xs, key);
    AscendingUnique(Sort(xs, key), xs, key);
  }

  /** Two lists with the same elements and no equal keys sort to the same list. */
  lemma SortIgnoresOrder<T(!new)>(a: seq<T>, b: seq<T>, key: T -> Rank)
    requires DistinctKeys(a, key) && DistinctKeys(b, key) && SameElements(a, b)
    ensures Sort(a, key) == Sort(b, key)
  {
    SortAscending(a, key);
    SortAscending(b, key);
    SortElements(a, key);
    SortElements(b, key);
    AscendingUnique(Sort(a, key), Sort(b, key), key);
  }

  /** Distinct strings in code point order: ascending, with the same elements. */
  lemma SortedStrings(names: seq<string>, sorted: seq<string>)
    requires Distinct(names) && sorted == Sort(names, Codes)
    ensures Ascending(sorted, Codes) && forall x :: x in sorted <==> x in names
  {
    forall i, j | 0 <= i < j < |names| ensures Codes(names[i]) != Codes(names[j]) {
      if Codes(names[i]) == Codes(names[j]) { CodesInjective(names[i], names[j]); }
    }
    SortAscending(names, Codes);
    SortElements(names, Codes);
  }

  /** The elements of a set, in some order, each once. */
  method Elements(s: set<string>) returns (r: seq<string>)
    ensures Distinct(r) && forall x :: x in r <==> x in s
  {
    r := [];
    var rest := s;
    while rest != {}
      invariant Distinct(r) && rest <= s && forall x :: x in r <==> x in s && x !in rest
      decreases |rest|
    {
      var x :| x in rest;
      DistinctAppend(r, x);
      r := r + [x];
      rest := rest - {x};
    }
  }

  /** `sorted` of a set of strings. */
  method SortedSet(s: set<string>) returns (r: seq<string>)
    ensures Ascending(r, Codes) && forall x :: x in r <==> x in s
  {
    var names := Elements(s);
    r := Sort(names, Codes);
    SortedStrings(names, r);
  }

  /** Two keys that order all elements alike sort alike. */
  lemma {:induction false} SortAlike<T(!new)>(xs: seq<T>, f: T -> Rank, g: T -> Rank)
    requires forall x, y :: Less(f(x), f(y)) <==> Less(g(x), g(y))
    ensures Sort(xs, f) == Sort(xs, g)
  {
    if xs != [] {
      SortAlike(xs[1..], f, g);
      InsertAlike(xs[0], Sort(xs[1..], f), f, g);
    }
  }

  lemma {:induction false} InsertAlike<T(!new)>(x: T, xs: seq<T>, f: T -> Rank, g: T -> Rank)
    requires forall a, b :: Less(f(a), f(b)) <==> Less(g(a), g(b))
    ensures Insert(x, xs, f) == Insert(x, xs, g)
  {
    if xs != [] { InsertAlike(x, xs[1..], f, g); }
  }
}
