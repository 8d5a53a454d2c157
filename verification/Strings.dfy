/** Characters, searching and splitting strings. */
module Strings {

  predicate IsDigit(c: char) {
    '0' <= c <= '9'
  }

  /** What isspace accepts in the "C" locale. */
  predicate IsSpace(c: char) {
    c == ' ' || 9 <= c as int <= 13
  }

  /** The position of the first `c`, or the length when there is none. */
  function IndexOf(s: string, c: char): (n: nat)
    ensures n <= |s|
    ensures forall i :: 0 <= i < n ==> s[i] != c
    ensures n < |s| ==> s[n] == c
  {
    if s == "" || s[0] == c then 0 else 1 + IndexOf(s[1..], c)
  }

  /** A position with these properties is the first one. */
  lemma {:induction false} IndexOfIs(s: string, c: char, n: nat)
    requires n <= |s| && (forall i :: 0 <= i < n ==> s[i] != c) && (n < |s| ==> s[n] == c)
    ensures IndexOf(s, c) == n
  {
  }

  /** The first `c` from `a` on is at `b`, if none is before and one is there. */
  lemma IndexOfSlice(s: string, a: nat, b: nat, c: char)
    requires a <= b <= |s| && c !in s[a..b] && (b < |s| ==> s[b] == c)
    ensures IndexOf(s[a..], c) == b - a
  {
    forall k | 0 <= k < b - a
      ensures s[a..][k] != c
    {
      assert s[a..][k] == s[a..b][k];
    }
    IndexOfIs(s[a..], c, b - a);
  }

  method Find(s: string, c: char, start: nat) returns (at: nat)
    requires start <= |s|
    ensures start <= at <= |s| && at == start + IndexOf(s[start..], c)
  {
    at := start;
    while at < |s| && s[at] != c
      invariant start <= at <= |s|
      invariant forall i :: start <= i < at ==> s[i] != c
    {
      at := at + 1;
    }
    IndexOfIs(s[start..], c, at - start);
  }

  /** The stretches between the `c`s, at least one. */
  function Split(s: string, c: char): (parts: seq<string>)
    ensures parts != []
    decreases |s|
  {
    var n := IndexOf(s, c);
    if n == |s| then [s] else [s[..n]] + Split(s[n + 1..], c)
  }

  function Join(parts: seq<string>, c: char): string
    requires parts != []
  {
    if |parts| == 1 then parts[0] else parts[0] + [c] + Join(parts[1..], c)
  }

  lemma {:induction false} JoinInvertsSplit(s: string, c: char)
    ensures Join(Split(s, c), c) == s
    ensures forall i :: 0 <= i < |Split(s, c)| ==> c !in Split(s, c)[i]
    decreases |s|
  {
    var n := IndexOf(s, c);
    if n < |s| {
      JoinInvertsSplit(s[n + 1..], c);
      assert Split(s, c)[1..] == Split(s[n + 1..], c);
      assert s == s[..n] + [c] + s[n + 1..];
    }
  }

  lemma {:induction false} SplitInvertsJoin(parts: seq<string>, c: char)
    requires parts != [] && forall i :: 0 <= i < |parts| ==> c !in parts[i]
    ensures Split(Join(parts, c), c) == parts
  {
    var s := Join(parts, c);
    assert c !in parts[0];
    if |parts| == 1 {
      IndexOfIs(s, c, |s|);
    } else {
      var rest := Join(parts[1..], c);
      FirstPart(parts[0], c, rest);
      SplitInvertsJoin(parts[1..], c);
      hide Split, Join, IndexOf;
      assert parts == [parts[0]] + parts[1..];
    }
  }

  lemma FirstPart(part: string, c: char, rest: string)
    requires c !in part
    ensures Split(part + [c] + rest, c) == [part] + Split(rest, c)
  {
    var s, n := part + [c] + rest, |part|;
    assert s[n] == c;
    assert forall i :: 0 <= i < n ==> s[i] == part[i];
    IndexOfIs(s, c, n);
    assert s[..n] == part && s[n + 1..] == rest;
  }
}
