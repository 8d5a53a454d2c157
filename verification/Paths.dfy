/** String tests on resource paths, and what they say about path segments. */
module Paths {
  import opened Wrappers
  import opened Strings

  function Segments(path: string): seq<string> {
    Split(path, '/')
  }

  // ----- going up -----

  predicate EndsWith(s: string, t: string) {
    |t| <= |s| && s[|s| - |t|..] == t
  }

  predicate ContainsAt(s: string, t: string, i: nat) {
    i + |t| <= |s| && s[i..i + |t|] == t
  }

  /** The resource ends with `/..` or contains `/../`. */
  predicate HasUpDir(resource: string) {
    EndsWith(resource, "/..") || exists i: nat :: i <= |resource| && ContainsAt(resource, "/../", i)
  }

  /** At `i` stands a slash, then `..`, then a slash or the end. */
  predicate UpAt(s: string, i: nat) {
    i + 3 <= |s| && s[i] == '/' && s[i + 1] == '.' && s[i + 2] == '.' && (i + 3 == |s| || s[i + 3] == '/')
  }

  ghost predicate GoesUp(s: string) {
    exists i: nat :: UpAt(s, i)
  }

  lemma HasUpDirAt(s: string)
    ensures HasUpDir(s) <==> GoesUp(s)
  {
    if EndsWith(s, "/..") {
      var i := |s| - 3;
      assert s[i] == s[i..][0] && s[i + 1] == s[i..][1] && s[i + 2] == s[i..][2];
      assert UpAt(s, i);
    }
    if i: nat :| i <= |s| && ContainsAt(s, "/../", i) {
      var t := s[i..i + 4];
      assert s[i] == t[0] && s[i + 1] == t[1] && s[i + 2] == t[2] && s[i + 3] == t[3];
      assert UpAt(s, i);
    }
    if i: nat :| UpAt(s, i) {
      if i + 3 == |s| {
        assert s[i..] == "/..";
      } else {
        assert s[i..i + 4] == "/../";
        assert ContainsAt(s, "/../", i);
      }
    }
  }

  /** After a slash, the text goes up exactly when one of its segments is `..`. */
  lemma {:induction false} UpSegment(s: string)
    ensures GoesUp("/" + s) <==> ".." in Segments(s)
    decreases |s|
  {
    var n := IndexOf(s, '/');
    FirstUp(s, n);
    if n == |s| {
      assert s[..n] == s && Segments(s) == [s];
    } else {
      UpSegment(s[n + 1..]);
      assert Segments(s) == [s[..n]] + Segments(s[n + 1..]);
    }
  }

  /** Going up in the first segment, or after it. */
  lemma FirstUp(s: string, n: nat)
    requires n == IndexOf(s, '/')
    ensures GoesUp("/" + s) <==> s[..n] == ".." || (n < |s| && GoesUp("/" + s[n + 1..]))
  {
    hide IndexOf, UpAt;
    var r := "/" + s;
    UpFirst(s, n);
    if i: nat :| UpAt(r, i) && i > 0 {
      UpIsLate(s, n, i);
      LaterUp(s, n, i - n - 1);
    }
    if n < |s| {
      var t := "/" + s[n + 1..];
      if i: nat :| UpAt(t, i) {
        LaterUp(s, n, i);
        assert UpAt(r, i + n + 1);
      }
    }
  }

  lemma UpIsLate(s: string, n: nat, i: nat)
    requires n == IndexOf(s, '/') && UpAt("/" + s, i) && i > 0
    ensures n < |s| && i > n
  {
    assert ("/" + s)[i] == s[i - 1];
  }

  lemma UpFirst(s: string, n: nat)
    requires n <= |s| && (n < |s| ==> s[n] == '/') && forall i :: 0 <= i < n ==> s[i] != '/'
    ensures UpAt("/" + s, 0) <==> s[..n] == ".."
  {
    var r := "/" + s;
    assert forall i :: 0 < i < |r| ==> r[i] == s[i - 1];
    assert s[..n] == ".." <==> n == 2 && s[0] == '.' && s[1] == '.';
  }

  lemma LaterUp(s: string, n: nat, i: nat)
    requires n < |s| && s[n] == '/'
    ensures UpAt("/" + s, i + n + 1) <==> UpAt("/" + s[n + 1..], i)
  {
    var r, t := "/" + s, "/" + s[n + 1..];
    assert forall k :: 0 <= k < |t| ==> t[k] == r[k + n + 1];
  }

  /** For a resource that starts with a slash, the test finds exactly the `..` segments. */
  lemma UpDirIsSegment(resource: string)
    requires "/" <= resource
    ensures HasUpDir(resource) <==> ".." in Segments(resource)
  {
    var s := resource[1..];
    assert resource == "/" + s;
    HasUpDirAt(resource);
    UpSegment(s);
    assert IndexOf(resource, '/') == 0;
    assert Segments(resource) == [resource[..0]] + Segments(s);
    assert resource[..0] != "..";
  }

  // ----- prefixes -----

  /** What the test computes; nothing where it takes the last character of an empty prefix. */
  function PrefixTest(prefix: string, resource: string): Option<bool> {
    if prefix == "" && "/" <= resource then Some(true)
    else if |resource| < |prefix| then Some(false)
    else if !(prefix <= resource) then Some(false)
    else if |resource| == |prefix| then Some(true)
    else if prefix == "" then None
    else Some(resource[|prefix|] == '/' || prefix[|prefix| - 1] == '/')
  }

  /** The test is undefined exactly for an empty prefix and a resource that is not empty and
      does not start with a slash. */
  lemma PrefixTestIsDefined(prefix: string, resource: string)
    ensures PrefixTest(prefix, resource).None? <==> prefix == "" && resource != "" && resource[0] != '/'
  {
    assert prefix == "" ==> resource[..0] == prefix;
  }

  predicate Prefixes(prefix: string, resource: string)
    requires prefix != "" || resource == "" || resource[0] == '/'
  {
    PrefixTestIsDefined(prefix, resource);
    PrefixTest(prefix, resource).value
  }

  lemma SegmentsCut(p: string)
    ensures var n := IndexOf(p, '/');
            && (n == |p| ==> '/' !in p && Segments(p) == [p])
            && (n < |p| ==> p == p[..n] + "/" + p[n + 1..] && '/' !in p[..n] && |Segments(p[n + 1..])| > 0 &&
                            Segments(p) == [p[..n]] + Segments(p[n + 1..]))
  {
  }

  /** A text's segments begin another's exactly when the other is the same text, or goes on
      with a slash. */
  lemma {:induction false} SegmentPrefix(p: string, r: string)
    ensures Segments(p) <= Segments(r) <==> r == p || p + "/" <= r
    decreases |p|
  {
    hide Segments, IndexOf;
    var n, m := IndexOf(p, '/'), IndexOf(r, '/');
    SegmentsCut(p);
    if n == |p| {
      FirstSegment(p, r);
    } else if m < |r| {
      SegmentPrefix(p[n + 1..], r[m + 1..]);
      BelowFirst(p[..n], p[n + 1..], r);
    } else {
      OneSegment(p, n, r);
    }
  }

  /** A text without a slash begins with no other that has one. */
  lemma OneSegment(p: string, n: nat, r: string)
    requires n < |p| && p[n] == '/' && IndexOf(r, '/') == |r|
    requires |Segments(p)| > 1
    ensures !(Segments(p) <= Segments(r)) && !(r == p || p + "/" <= r)
  {
    assert Segments(r) == [r];
    hide Split;
    Longer(p, "/", r);
    if p <= r {
      assert false;
    }
  }

  lemma BelowFirst(a: string, q: string, r: string)
    requires '/' !in a && IndexOf(r, '/') < |r|
    requires var s := r[IndexOf(r, '/') + 1..]; Segments(q) <= Segments(s) <==> s == q || q + "/" <= s
    ensures var p := a + "/" + q; [a] + Segments(q) <= Segments(r) <==> r == p || p + "/" <= r
  {
    var m := IndexOf(r, '/');
    var b, s, p := r[..m], r[m + 1..], a + "/" + q;
    assert r == b + "/" + s && Segments(r) == [b] + Segments(s);
    assert p + "/" == a + "/" + (q + "/");
    ConsPrefix(a, Segments(q), b, Segments(s));
    hide Split, IndexOf;
    if a == b {
      SamePrefix(a + "/", q, s);
      SamePrefix(a + "/", q + "/", s);
    } else {
      StartsSegment(a, r);
      Longer(a + "/", q, r);
      Longer(a + "/", q + "/", r);
    }
  }

  /** The first segment of `r` is `a`. */
  lemma FirstSegment(a: string, r: string)
    requires '/' !in a
    ensures [a] <= Segments(r) <==> r == a || a + "/" <= r
    ensures a + "/" <= r <==> IndexOf(r, '/') < |r| && r[..IndexOf(r, '/')] == a
  {
    var m := IndexOf(r, '/');
    assert Segments(r)[0] == r[..m];
    StartsSegment(a, r);
    if r == a {
      IndexOfIs(r, '/', |r|);
    }
    assert m == |r| ==> r[..m] == r;
    assert m < |r| && r[..m] == a ==> a + "/" <= r;
  }

  lemma StartsSegment(a: string, r: string)
    requires '/' !in a
    ensures a + "/" <= r <==> IndexOf(r, '/') < |r| && r[..IndexOf(r, '/')] == a
  {
    var m := IndexOf(r, '/');
    OneMore(a, r);
    if a + "/" <= r {
      assert forall i :: 0 <= i < |a| ==> r[i] == a[i];
      IndexOfIs(r, '/', |a|);
    }
  }

  lemma ConsPrefix(a: string, x: seq<string>, b: string, y: seq<string>)
    ensures [a] + x <= [b] + y <==> a == b && x <= y
  {
    if [a] + x <= [b] + y {
      assert ([a] + x)[0] == ([b] + y)[0];
      assert forall i :: 0 <= i < |x| ==> x[i] == ([a] + x)[i + 1] == ([b] + y)[i + 1] == y[i];
    }
  }

  lemma SamePrefix(a: string, x: string, y: string)
    ensures a + x <= a + y <==> x <= y
    ensures a + x == a + y <==> x == y
  {
    if a + x <= a + y {
      assert forall i :: 0 <= i < |x| ==> x[i] == (a + x)[|a| + i] == (a + y)[|a| + i] == y[i];
    }
    assert (a + x)[|a|..] == x && (a + y)[|a|..] == y;
  }

  lemma Longer(a: string, b: string, r: string)
    ensures a + b <= r ==> a <= r
  {
    if a + b <= r {
      assert r[..|a|] == (a + b)[..|a|] == a;
    }
  }

  /** A prefix without a final slash covers exactly the resources whose segments begin with
      its own. */
  lemma PrefixIsSegmentPrefix(prefix: string, resource: string)
    requires "/" <= resource
    requires prefix != "" ==> prefix[|prefix| - 1] != '/'
    ensures Prefixes(prefix, resource) <==> Segments(prefix) <= Segments(resource)
  {
    SegmentPrefix(prefix, resource);
    OneMore(prefix, resource);
  }

  /** What a prefix covers, in terms of segments: everything at or below it, or, if it ends with a
      slash, what goes on below it. */
  predicate Covers(prefix: string, resource: string) {
    if prefix == "" || prefix[|prefix| - 1] != '/' then Segments(prefix) <= Segments(resource)
    else Segments(prefix[..|prefix| - 1]) <= Segments(resource) && resource != prefix[..|prefix| - 1]
  }

  lemma PrefixesCover(prefix: string, resource: string)
    requires "/" <= resource
    ensures PrefixTest(prefix, resource) == Some(Covers(prefix, resource))
  {
    hide PrefixTest, Split;
    PrefixTestIsDefined(prefix, resource);
    if prefix == "" || prefix[|prefix| - 1] != '/' {
      PrefixIsSegmentPrefix(prefix, resource);
    } else {
      SlashedPrefixIsProper(prefix, resource);
    }
  }

  lemma OneMore(p: string, r: string)
    ensures p + "/" <= r <==> p <= r && |p| < |r| && r[|p|] == '/'
  {
    if p <= r && |p| < |r| && r[|p|] == '/' {
      assert r[..|p| + 1] == p + "/";
    }
    Longer(p, "/", r);
  }

  /** One with a final slash covers exactly those that go on below the prefix without it. */
  lemma SlashedPrefixIsProper(prefix: string, resource: string)
    requires "/" <= resource && prefix != "" && prefix[|prefix| - 1] == '/'
    ensures var dir := prefix[..|prefix| - 1];
            Prefixes(prefix, resource) <==> Segments(dir) <= Segments(resource) && resource != dir
  {
    var dir := prefix[..|prefix| - 1];
    assert prefix == dir + "/";
    SegmentPrefix(dir, resource);
  }
}
