/** Sharing the context byte limit out over the discovered context files. */
module Context {
  import opened Utf8

  const CONTEXT_BYTE_LIMIT: nat := 49_152

  datatype Discovered = Discovered(scope: string, path: string, content: string, raw: seq<Byte>)

  datatype Included = Included(
    scope: string,
    path: string,
    content: string,
    rawSha256: string,
    originalByteCount: nat,
    includedByteCount: nat,
    truncated: bool)

  /** The contents of all discovered files, one after the other. */
  function Joined(files: seq<Discovered>): string {
    if files == [] then "" else Joined(files[..|files| - 1]) + files[|files| - 1].content
  }

  function Contents(records: seq<Included>): string {
    if records == [] then "" else Contents(records[..|records| - 1]) + records[|records| - 1].content
  }

  /** The record describes the file, with all its text or a strictly shorter prefix of it. */
  predicate Describes(record: Included, file: Discovered, sha: seq<Byte> -> string) {
    && record.scope == file.scope && record.path == file.path
    && record.rawSha256 == sha(file.raw) && record.originalByteCount == |file.raw|
    && record.includedByteCount == |Encode(record.content)|
    && if record.truncated then record.content < file.content else record.content == file.content
  }

  lemma {:induction false} FittingAfter(s: string, t: string, k: nat)
    requires |Encode(s)| <= k
    ensures Fitting(s + t, k) == |s| + Fitting(t, k - |Encode(s)|)
  {
    if s == "" {
      assert s + t == t;
    } else {
      assert (s + t)[1..] == s[1..] + t;
      FittingAfter(s[1..], t, k - |EncodeChar(s[0])|);
    }
  }

  lemma {:induction false} FittingBefore(t: string, u: string, k: nat)
    requires |Encode(t)| > k
    ensures Fitting(t + u, k) == Fitting(t, k)
  {
    assert (t + u)[1..] == t[1..] + u;
    if |EncodeChar(t[0])| <= k { FittingBefore(t[1..], u, k - |EncodeChar(t[0])|); }
  }

  lemma PrefixOfSum(s: string, t: string, u: string, n: nat)
    requires n <= |t|
    ensures (s + (t + u))[..|s| + n] == s + t[..n]
  {
  }

  /** What fits of a text whose first part fits whole and whose second part does not. */
  lemma CutInside(s: string, t: string, u: string, k: nat, r: nat)
    requires k == |Encode(s)| + r && r < |Encode(t)|
    ensures TruncateToBytes(s + t + u, k) == s + TruncateToBytes(t, r)
  {
    var n := Fitting(t, r);
    assert s + t + u == s + (t + u);
    FittingAfter(s, t + u, k);
    FittingBefore(t, u, r);
    TruncationExact(s + (t + u), k);
    TruncationExact(t, r);
    PrefixOfSum(s, t, u, n);
  }

  lemma ExactFit(s: string, u: string, k: nat)
    requires k == |Encode(s)|
    ensures TruncateToBytes(s + u, k) == s
  {
    FittingAfter(s, u, k);
    TruncationExact(s + u, k);
    assert Fitting(u, 0) == 0;
    assert (s + u)[..|s|] == s;
  }

  lemma {:induction false} JoinedPrefix(files: seq<Discovered>, n: nat)
    requires n <= |files|
    ensures Joined(files[..n]) <= Joined(files)
  {
    if n == |files| {
      assert files[..n] == files;
    } else {
      var front := files[..|files| - 1];
      assert front[..n] == files[..n];
      JoinedPrefix(front, n);
    }
  }

  lemma JoinedStep(files: seq<Discovered>, n: nat)
    requires n < |files|
    ensures Joined(files[..n + 1]) == Joined(files[..n]) + files[n].content
  {
    assert files[..n + 1][..n] == files[..n];
  }

  /** The rest of the joined contents, after the first `n` files. */
  lemma JoinedRest(files: seq<Discovered>, n: nat) returns (rest: string)
    requires n <= |files|
    ensures Joined(files) == Joined(files[..n]) + rest
  {
    JoinedPrefix(files, n);
    rest := Joined(files)[|Joined(files[..n])|..];
  }

  function Whole(file: Discovered, sha: seq<Byte> -> string): (r: Included)
    ensures Describes(r, file, sha) && !r.truncated && r.content == file.content
  {
    Included(file.scope, file.path, file.content, sha(file.raw), |file.raw|, |Encode(file.content)|, false)
  }

  function Cut(file: Discovered, remaining: nat, sha: seq<Byte> -> string): (r: Included)
    requires remaining < |Encode(file.content)|
    ensures Describes(r, file, sha) && r.truncated && r.content == TruncateToBytes(file.content, remaining)
  {
    TruncationExact(file.content, remaining);
    var content := TruncateToBytes(file.content, remaining);
    Included(file.scope, file.path, content, sha(file.raw), |file.raw|, |Encode(content)|, true)
  }

  lemma ContentsStep(records: seq<Included>, r: Included)
    ensures Contents(records + [r]) == Contents(records) + r.content
  {
    assert (records + [r])[..|records|] == records;
  }

  function JoinedBytes(files: seq<Discovered>, n: nat): nat
    requires n <= |files|
  {
    |Encode(Joined(files[..n]))|
  }

  lemma BytesStep(files: seq<Discovered>, n: nat)
    requires n < |files|
    ensures JoinedBytes(files, n + 1) == JoinedBytes(files, n) + |Encode(files[n].content)|
  {
    JoinedStep(files, n);
    EncodeAppend(Joined(files[..n]), files[n].content);
  }

  lemma StopAfter(files: seq<Discovered>, n: nat)
    requires n <= |files| && JoinedBytes(files, n) == CONTEXT_BYTE_LIMIT
    ensures TruncateToBytes(Joined(files), CONTEXT_BYTE_LIMIT) == Joined(files[..n])
  {
    var rest := JoinedRest(files, n);
    ExactFit(Joined(files[..n]), rest, CONTEXT_BYTE_LIMIT);
  }

  lemma StopInside(files: seq<Discovered>, n: nat, remaining: nat)
    requires n < |files| && JoinedBytes(files, n) + remaining == CONTEXT_BYTE_LIMIT
    requires remaining < |Encode(files[n].content)|
    ensures TruncateToBytes(Joined(files), CONTEXT_BYTE_LIMIT) ==
            Joined(files[..n]) + TruncateToBytes(files[n].content, remaining)
  {
    JoinedStep(files, n);
    var rest := JoinedRest(files, n + 1);
    CutInside(Joined(files[..n]), files[n].content, rest, CONTEXT_BYTE_LIMIT, remaining);
  }

  ghost predicate AllWhole(included: seq<Included>, files: seq<Discovered>, sha: seq<Byte> -> string) {
    |included| <= |files| &&
    forall j :: 0 <= j < |included| ==> Describes(included[j], files[j], sha) && !included[j].truncated
  }

  /**
   Together the included contents are the longest prefix of all the contents that fits the limit;
   only the last record may be cut, and the flag says whether any text or any file is missing.
   */
  ghost predicate Allocated(files: seq<Discovered>, included: seq<Included>, truncated: bool,
                            sha: seq<Byte> -> string) {
    && Contents(included) == TruncateToBytes(Joined(files), CONTEXT_BYTE_LIMIT)
    && |included| <= |files| && (forall i :: 0 <= i < |included| ==> Describes(included[i], files[i], sha))
    && (forall i :: 0 <= i < |included| - 1 ==> !included[i].truncated)
    && (truncated <==> !(|included| == |files| && forall i :: 0 <= i < |included| ==> !included[i].truncated))
  }

  lemma AllocatedCut(files: seq<Discovered>, before: seq<Included>, remaining: nat, sha: seq<Byte> -> string)
    requires |before| < |files| && AllWhole(before, files, sha) && Contents(before) == Joined(files[..|before|])
    requires JoinedBytes(files, |before|) + remaining == CONTEXT_BYTE_LIMIT
    requires remaining < |Encode(files[|before|].content)|
    ensures Allocated(files, before + [Cut(files[|before|], remaining, sha)], true, sha)
  {
    StopInside(files, |before|, remaining);
    AllocatedCutRecord(files, before, Cut(files[|before|], remaining, sha), sha);
  }

  lemma AllocatedCutRecord(files: seq<Discovered>, before: seq<Included>, r: Included, sha: seq<Byte> -> string)
    requires |before| < |files| && AllWhole(before, files, sha) && Contents(before) == Joined(files[..|before|])
    requires Describes(r, files[|before|], sha) && r.truncated
    requires TruncateToBytes(Joined(files), CONTEXT_BYTE_LIMIT) == Joined(files[..|before|]) + r.content
    ensures Allocated(files, before + [r], true, sha)
  {
    var all := before + [r];
    ContentsStep(before, r);
    assert all[|before|].truncated;
    forall i | 0 <= i < |all| ensures Describes(all[i], files[i], sha) {
    }
  }

  lemma AllocatedFull(files: seq<Discovered>, included: seq<Included>, sha: seq<Byte> -> string)
    requires |included| < |files| && AllWhole(included, files, sha) && Contents(included) == Joined(files[..|included|])
    requires JoinedBytes(files, |included|) == CONTEXT_BYTE_LIMIT
    ensures Allocated(files, included, true, sha)
  {
    StopAfter(files, |included|);
  }

  lemma AllocatedAll(files: seq<Discovered>, included: seq<Included>, sha: seq<Byte> -> string)
    requires |included| == |files| && AllWhole(included, files, sha) && Contents(included) == Joined(files[..|files|])
    requires JoinedBytes(files, |files|) <= CONTEXT_BYTE_LIMIT
    ensures Allocated(files, included, false, sha)
  {
    assert files[..|files|] == files;
  }

  /** The files read so far are all included whole, and `remaining` bytes are left. */
  ghost predicate Taken(files: seq<Discovered>, included: seq<Included>, remaining: int, sha: seq<Byte> -> string) {
    && AllWhole(included, files, sha) && Contents(included) == Joined(files[..|included|])
    && 0 <= remaining == CONTEXT_BYTE_LIMIT - JoinedBytes(files, |included|)
  }

  lemma AllWholeStep(included: seq<Included>, r: Included, files: seq<Discovered>, sha: seq<Byte> -> string)
    requires |included| < |files| && AllWhole(included, files, sha)
    requires Describes(r, files[|included|], sha) && !r.truncated
    ensures AllWhole(included + [r], files, sha)
  {
  }

  lemma TakeRecord(files: seq<Discovered>, included: seq<Included>, r: Included, remaining: int,
                   sha: seq<Byte> -> string)
    requires |included| < |files| && Taken(files, included, remaining, sha)
    requires Describes(r, files[|included|], sha) && !r.truncated && r.content == files[|included|].content
    requires |Encode(files[|included|].content)| <= remaining
    ensures Taken(files, included + [r], remaining - |Encode(files[|included|].content)|, sha)
  {
    AllWholeStep(included, r, files, sha);
    JoinedStep(files, |included|);
    BytesStep(files, |included|);
    ContentsStep(included, r);
  }

  lemma TakeWhole(files: seq<Discovered>, included: seq<Included>, remaining: int, sha: seq<Byte> -> string)
    requires |included| < |files| && Taken(files, included, remaining, sha)
    requires |Encode(files[|included|].content)| <= remaining
    ensures Taken(files, included + [Whole(files[|included|], sha)], remaining - |Encode(files[|included|].content)|,
                  sha)
  {
    TakeRecord(files, included, Whole(files[|included|], sha), remaining, sha);
  }

  /** `_allocate_context`. */
  method Allocate(files: seq<Discovered>, sha: seq<Byte> -> string) returns (included: seq<Included>, truncated: bool)
    ensures Allocated(files, included, truncated, sha)
  {
    var remaining := CONTEXT_BYTE_LIMIT;
    included := [];
    for i := 0 to |files|
      invariant |included| == i && Taken(files, included, remaining, sha)
    {
      var contentBytes := |Encode(files[i].content)|;
      if contentBytes <= remaining {
        TakeWhole(files, included, remaining, sha);
        included := included + [Whole(files[i], sha)];
        remaining := remaining - contentBytes;
        if remaining == 0 && i < |files| - 1 {
          AllocatedFull(files, included, sha);
          return included, true;
        }
      } else {
        AllocatedCut(files, included, remaining, sha);
        return included + [Cut(files[i], remaining, sha)], true;
      }
    }
    AllocatedAll(files, included, sha);
    return included, false;
  }

  /** What the contents of the records come to, stated without the truncation itself. */
  lemma LongestPrefix(contents: string, all: string)
    requires contents == TruncateToBytes(all, CONTEXT_BYTE_LIMIT)
    ensures contents <= all && |Encode(contents)| <= CONTEXT_BYTE_LIMIT
    ensures forall n :: 0 <= n <= |all| && |Encode(all[..n])| <= CONTEXT_BYTE_LIMIT ==> n <= |contents|
  {
    TruncationExact(all, CONTEXT_BYTE_LIMIT);
    forall n | 0 <= n <= |all| && |Encode(all[..n])| <= CONTEXT_BYTE_LIMIT ensures n <= |contents| {
      FittingLongest(all, CONTEXT_BYTE_LIMIT, n);
    }
  }
}
