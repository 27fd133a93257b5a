/** Small shared datatypes and predicates on sequences. */
module Basics {

  datatype Option<+T> = None | Some(value: T) {
    function GetOr(default: T): T {
      if Some? then value else default
    }
  }

  /** A Python call that either returns a value or raises with a reason. */
  datatype Result<+T> = Ok(value: T) | Err(reason: string) {
    predicate IsFailure() { Err? }

    function PropagateFailure<U>(): Result<U>
      requires Err?
    {
      Err(reason)
    }

    function Extract(): T
      requires Ok?
    {
      value
    }
  }

  predicate Distinct<T(==)>(s: seq<T>) {
    forall i, j :: 0 <= i < j < |s| ==> s[i] != s[j]
  }

  lemma DistinctAppend<T>(s: seq<T>, x: T)
    requires Distinct(s) && x !in s
    ensures Distinct(s + [x])
  {
  }

  lemma {:induction false} DistinctCounts<T>(a: seq<T>, x: T)
    requires Distinct(a)
    ensures multiset(a)[x] <= 1
  {
    if a != [] {
      DistinctCounts(a[1..], x);
      assert a == [a[0]] + a[1..];
      forall k | 0 <= k < |a| - 1 ensures a[1..][k] != a[0] {
        assert a[1..][k] == a[k + 1];
      }
      assert multiset(a) == multiset{a[0]} + multiset(a[1..]);
    }
  }

  ghost predicate SameElements<T(!new)>(a: seq<T>, b: seq<T>) {
    forall x :: x in a <==> x in b
  }

  lemma {:induction false} DistinctSize<T(!new)>(s: seq<T>)
    ensures |set x | x in s| <= |s|
    ensures |set x | x in s| == |s| <==> Distinct(s)
  {
    if s == [] {
      assert (set x | x in s) == {};
    } else {
      var t := s[1..];
      DistinctSize(t);
      assert (set x | x in s) == (set x | x in t) + {s[0]};
      if s[0] in t {
        var k :| 0 <= k < |t| && t[k] == s[0];
        assert s[k + 1] == s[0];
        assert (set x | x in s) == (set x | x in t);
      } else {
        assert forall i, j :: 0 <= i < j < |s| ==> s[i] in s && s[j] in t;
        assert Distinct(t) ==> Distinct(s);
        assert Distinct(s) ==> Distinct(t) by {
          forall i, j | Distinct(s) && 0 <= i < j < |t| ensures t[i] != t[j] {
            assert s[i + 1] != s[j + 1];
          }
        }
      }
    }
  }

  /** `d[key(e)] = e`: an entry whose key is already present keeps its place. */
  function Put<E, K(==)>(entries: seq<E>, e: E, key: E -> K): seq<E> {
    if entries == [] then [e]
    else if key(entries[0]) == key(e) then [e] + entries[1..]
    else [entries[0]] + Put(entries[1..], e, key)
  }

  lemma {:induction false} PutMeans<E, K>(entries: seq<E>, e: E, key: E -> K)
    ensures var r := Put(entries, e, key);
            (forall x :: x in r ==> x == e || x in entries) &&
            (DistinctBy(entries, key) ==> DistinctBy(r, key)) &&
            ((forall x :: x in entries ==> key(x) != key(e)) ==> r == entries + [e]) &&
            |entries| <= |r| <= |entries| + 1
  {
    if entries != [] && key(entries[0]) != key(e) {
      PutMeans(entries[1..], e, key);
      assert entries == [entries[0]] + entries[1..];
      assert DistinctBy(entries, key) ==> forall x :: x in entries[1..] ==> key(x) != key(entries[0]);
    }
  }

  predicate DistinctBy<E, K(==)>(entries: seq<E>, key: E -> K) {
    forall i, j :: 0 <= i < j < |entries| ==> key(entries[i]) != key(entries[j])
  }
}
