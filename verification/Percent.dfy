/** Percent-encoding of paths and queries (section 2.1 of RFC 3986), and the split of a
    request target. */
module Percent {
  import opened Sequences
  import opened Strings

  /** A byte, as a character below 256. */
  type Octet = c: char | c as int < 256

  type Octets = seq<Octet>

  /** Paths keep `+`; queries write a space as `+`. */
  datatype Variant = Path | Query

  // ----- characters -----

  predicate IsAlnum(c: char) {
    '0' <= c <= '9' || 'a' <= c <= 'z' || 'A' <= c <= 'Z'
  }

  predicate IsUnreserved(c: char) {
    IsAlnum(c) || c == '-' || c == '.' || c == '_' || c == '~'
  }

  predicate IsSafe(v: Variant, c: char) {
    IsUnreserved(c) || (match v case Path => c == '+' case Query => c == ' ')
  }

  function WriteChar(v: Variant, c: Octet): Octet {
    if v.Query? && c == ' ' then '+' else c
  }

  function ReadChar(v: Variant, c: Octet): Octet {
    if v.Query? && c == '+' then ' ' else c
  }

  function HexDigit(n: nat): (c: Octet)
    requires n < 16
    ensures IsHexDigit(c) && HexValue(c) == n
    ensures IsAlnum(c)
  {
    if n < 10 then ('0' as int + n) as char else ('A' as int + (n - 10)) as char
  }

  predicate IsHexDigit(c: char) {
    '0' <= c <= '9' || 'a' <= c <= 'f' || 'A' <= c <= 'F'
  }

  function HexValue(c: char): (n: nat)
    requires IsHexDigit(c)
    ensures n < 16
  {
    if '0' <= c <= '9' then c as int - '0' as int
    else if 'a' <= c <= 'f' then c as int - 'a' as int + 10
    else c as int - 'A' as int + 10
  }

  function FromHex(hi: char, lo: char): Octet
    requires IsHexDigit(hi) && IsHexDigit(lo)
  {
    (HexValue(hi) * 16 + HexValue(lo)) as char
  }

  // ----- encoding -----

  function EncodeChar(v: Variant, c: Octet): Octets {
    if IsSafe(v, c) then [WriteChar(v, c)]
    else ['%', HexDigit(c as int / 16), HexDigit(c as int % 16)]
  }

  function Encode(v: Variant, s: Octets): Octets {
    if s == [] then [] else EncodeChar(v, s[0]) + Encode(v, s[1..])
  }

  lemma {:induction false} EncodeAppend(v: Variant, a: Octets, b: Octets)
    ensures Encode(v, a + b) == Encode(v, a) + Encode(v, b)
  {
    if a == [] {
      assert a + b == b;
    } else {
      assert (a + b)[1..] == a[1..] + b;
      EncodeAppend(v, a[1..], b);
    }
  }

  lemma EncodeSnoc(v: Variant, s: Octets, i: nat)
    requires i < |s|
    ensures Encode(v, s[..i + 1]) == Encode(v, s[..i]) + EncodeChar(v, s[i])
  {
    assert s[..i + 1] == s[..i] + [s[i]];
    EncodeAppend(v, s[..i], [s[i]]);
    assert Encode(v, [s[i]]) == EncodeChar(v, s[i]) + Encode(v, [s[i]][1..]);
  }

  /** Encodes, having first worked out how long the result is. */
  method UrlEncode(v: Variant, input: Octets) returns (out: Octets, length: nat)
    ensures out == Encode(v, input)
    ensures length == |out|
  {
    length := |input|;
    for i := 0 to |input|
      invariant length == |input| - i + |Encode(v, input[..i])|
    {
      EncodeSnoc(v, input, i);
      if !IsSafe(v, input[i]) {
        length := length + 2;
      }
    }
    out := [];
    for i := 0 to |input|
      invariant out == Encode(v, input[..i])
    {
      EncodeSnoc(v, input, i);
      var c := input[i];
      if IsSafe(v, c) {
        out := out + [WriteChar(v, c)];
      } else {
        out := out + ['%'];
        out := out + [HexDigit(c as int / 16)];
        out := out + [HexDigit(c as int % 16)];
      }
    }
    assert input[..|input|] == input;
  }

  /** The characters of encoded text are unreserved, or `%`, or `+`: none of them can be
      taken for a delimiter of a query or a target. */
  lemma {:induction false} EncodedIsInert(v: Variant, s: Octets)
    ensures forall i :: 0 <= i < |Encode(v, s)| ==>
              var c := Encode(v, s)[i]; IsUnreserved(c) || c == '%' || c == '+'
    ensures var e := Encode(v, s); '&' !in e && '=' !in e && '?' !in e && '#' !in e
  {
    if s != [] {
      EncodedIsInert(v, s[1..]);
      var head, tail := EncodeChar(v, s[0]), Encode(v, s[1..]);
      forall i | 0 <= i < |head + tail|
        ensures var c := (head + tail)[i]; IsUnreserved(c) || c == '%' || c == '+'
      {
        if i >= |head| {
          assert (head + tail)[i] == tail[i - |head|];
        }
      }
    }
  }

  // ----- decoding -----

  predicate EscapeAt(a: char, b: char, c: char) {
    a == '%' && IsHexDigit(b) && IsHexDigit(c)
  }

  /** The decoding of a text that is not a single character. */
  function DecodeRest(v: Variant, s: Octets): Octets {
    if s == [] then []
    else if |s| > 2 && EscapeAt(s[0], s[1], s[2]) then [FromHex(s[1], s[2])] + DecodeRest(v, s[3..])
    else [ReadChar(v, s[0])] + DecodeRest(v, s[1..])
  }

  /** The decoding of a text.  For a text of one character the room check does not hold
      back, because the unsigned length minus two wraps around, and a lone `%` looks at the
      two characters that follow the text in memory. */
  function Decode(v: Variant, s: Octets, beyond: Octets): Octets
    requires |beyond| >= 2
  {
    if |s| == 1 && EscapeAt(s[0], beyond[0], beyond[1]) then [FromHex(beyond[0], beyond[1])]
    else DecodeRest(v, s)
  }

  /** What is still to be decoded at position `i`. */
  ghost function DecodeFrom(v: Variant, input: Octets, beyond: Octets, i: nat): Octets
    requires |beyond| >= 2
  {
    if i == 0 then Decode(v, input, beyond) else if i <= |input| then DecodeRest(v, input[i..]) else []
  }

  /** One round of the decoding loop, with its room check. */
  lemma DecodeStep(v: Variant, input: Octets, beyond: Octets, i: nat)
    requires |beyond| >= 2 && i < |input|
    ensures var memory, n := input + beyond, |input|;
            DecodeFrom(v, input, beyond, i) ==
            if (n < 2 || i < n - 2) && EscapeAt(memory[i], memory[i + 1], memory[i + 2])
            then [FromHex(memory[i + 1], memory[i + 2])] + DecodeFrom(v, input, beyond, i + 3)
            else [ReadChar(v, memory[i])] + DecodeFrom(v, input, beyond, i + 1)
  {
    var s := input[i..];
    assert input[0..] == input;
    assert s[1..] == input[i + 1..];
    if |s| > 2 {
      assert s[3..] == input[i + 3..];
    }
  }

  lemma NothingDecoded(v: Variant, input: Octets, beyond: Octets)
    requires |beyond| >= 2
    ensures [] + DecodeFrom(v, input, beyond, 0) == Decode(v, input, beyond)
  {
  }

  lemma NothingLeft(v: Variant, input: Octets, beyond: Octets, i: nat)
    requires |beyond| >= 2 && i >= |input|
    ensures DecodeFrom(v, input, beyond, i) == []
  {
  }

  method UrlDecode(v: Variant, input: Octets, beyond: Octets) returns (out: Octets)
    requires |beyond| >= 2
    ensures out == Decode(v, input, beyond)
  {
    hide DecodeFrom, Decode, DecodeRest, FromHex, ReadChar;
    var memory, n := input + beyond, |input|;
    out := [];
    var i: nat := 0;
    assert out + DecodeFrom(v, input, beyond, i) == Decode(v, input, beyond) by {
      NothingDecoded(v, input, beyond);
    }
    while i < n
      invariant out + DecodeFrom(v, input, beyond, i) == Decode(v, input, beyond)
      decreases n - i
    {
      DecodeStep(v, input, beyond, i);
      ghost var before := out;
      if memory[i] == '%' && (n < 2 || i < n - 2) && IsHexDigit(memory[i + 1]) && IsHexDigit(memory[i + 2]) {
        out := out + [FromHex(memory[i + 1], memory[i + 2])];
        Regroup(before, [FromHex(memory[i + 1], memory[i + 2])], DecodeFrom(v, input, beyond, i + 3));
        i := i + 3;
      } else {
        out := out + [ReadChar(v, memory[i])];
        Regroup(before, [ReadChar(v, memory[i])], DecodeFrom(v, input, beyond, i + 1));
        i := i + 1;
      }
    }
    NothingLeft(v, input, beyond, i);
  }

  lemma DecodeEncodedChar(v: Variant, c: Octet, rest: Octets)
    ensures DecodeRest(v, EncodeChar(v, c) + rest) == [c] + DecodeRest(v, rest)
  {
    var s := EncodeChar(v, c) + rest;
    if IsSafe(v, c) {
      assert s[0] != '%' && s[1..] == rest;
    } else {
      assert s[3..] == rest;
    }
  }

  lemma {:induction false} DecodeRestInvertsEncode(v: Variant, s: Octets)
    ensures DecodeRest(v, Encode(v, s)) == s
  {
    if s != [] {
      DecodeEncodedChar(v, s[0], Encode(v, s[1..]));
      DecodeRestInvertsEncode(v, s[1..]);
      assert s == [s[0]] + s[1..];
    }
  }

  /** Round trip: decoding what was encoded gives it back, whatever follows it in memory. */
  lemma DecodeInvertsEncode(v: Variant, s: Octets, beyond: Octets)
    requires |beyond| >= 2
    ensures Decode(v, Encode(v, s), beyond) == s
  {
    DecodeRestInvertsEncode(v, s);
    if |Encode(v, s)| == 1 {
      assert Encode(v, s) == EncodeChar(v, s[0]) + Encode(v, s[1..]);
      assert Encode(v, s)[0] == WriteChar(v, s[0]) != '%';
    }
  }

  // ----- characters, one by one -----

  const UPPER_HEX := "0123456789ABCDEF"

  const LOWER_HEX := "0123456789abcdef"

  lemma HexDigits(n: nat)
    requires n < 16
    ensures HexDigit(n) == UPPER_HEX[n]
    ensures IsHexDigit(UPPER_HEX[n]) && HexValue(UPPER_HEX[n]) == n
    ensures IsHexDigit(LOWER_HEX[n]) && HexValue(LOWER_HEX[n]) == n
  {
  }

  lemma HexDigitsOnly(c: char)
    ensures IsHexDigit(c) <==> c in UPPER_HEX || c in LOWER_HEX
  {
    if IsHexDigit(c) {
      HexDigits(HexValue(c));
      assert c == UPPER_HEX[HexValue(c)] || c == LOWER_HEX[HexValue(c)];
    }
  }

  /** Letters, digits and `-._~` are written as they are; a path keeps `+`, a query writes a space
      as `+`; everything else is written as `%` and two upper-case digits. */
  lemma EncodeRule(v: Variant, c: Octet)
    ensures EncodeChar(v, c) ==
            if 'a' <= c <= 'z' || 'A' <= c <= 'Z' || '0' <= c <= '9' || c in "-._~" then [c]
            else if (v.Query? && c == ' ') || (v.Path? && c == '+') then ['+']
            else ['%', UPPER_HEX[c as int / 16], UPPER_HEX[c as int % 16]]
  {
    HexDigits(c as int / 16);
    HexDigits(c as int % 16);
  }

  /** `%` and two hexadecimal digits, of either case, are decoded as their value. */
  lemma EscapeRule(v: Variant, n: nat, m: nat, hi: Octet, lo: Octet, rest: Octets)
    requires n < 16 && (hi == UPPER_HEX[n] || hi == LOWER_HEX[n])
    requires m < 16 && (lo == UPPER_HEX[m] || lo == LOWER_HEX[m])
    ensures DecodeRest(v, ['%', hi, lo] + rest) == [(16 * n + m) as char] + DecodeRest(v, rest)
  {
    HexDigits(n);
    HexDigits(m);
    hide IsHexDigit, HexValue;
    assert (['%', hi, lo] + rest)[3..] == rest;
  }

  /** Any other character is decoded as itself, but for `+`, which is a space in a query; so is a `%`
      that two such digits do not follow. */
  lemma PlainRule(v: Variant, c: Octet, rest: Octets)
    requires c == '%' ==>
               |rest| < 2 || rest[0] !in UPPER_HEX + LOWER_HEX || rest[1] !in UPPER_HEX + LOWER_HEX
    ensures DecodeRest(v, [c] + rest) == [if v.Query? && c == '+' then ' ' else c] + DecodeRest(v, rest)
  {
    var s := [c] + rest;
    assert s[1..] == rest;
    if |rest| >= 2 {
      HexDigitsOnly(rest[0]);
      HexDigitsOnly(rest[1]);
      assert s[1] == rest[0] && s[2] == rest[1];
    }
    hide IsHexDigit, UPPER_HEX, LOWER_HEX;
  }

  /** Decoding a text does not depend on what follows it in memory, unless the text is a single
      `%`. */
  lemma DecodeIsLocal(v: Variant, s: Octets)
    ensures (forall b1: Octets, b2: Octets :: |b1| >= 2 && |b2| >= 2 ==> Decode(v, s, b1) == Decode(v, s, b2)) <==>
            s != ['%']
  {
    if s == ['%'] {
      LonePercentWitness(v);
    } else {
      assert |s| == 1 ==> s[0] != '%';
    }
  }

  /** Before the digits `41` a single `%` is decoded as `A`, before other text as itself. */
  lemma LonePercentWitness(v: Variant)
    ensures Decode(v, ['%'], ['4', '1']) == ['A'] && Decode(v, ['%'], ['x', 'x']) == ['%']
  {
    var s: Octets := ['%'];
    assert s[1..] == [];
    assert DecodeRest(v, s) == [ReadChar(v, '%')] + DecodeRest(v, s[1..]);
  }

  // ----- the parts of a request target -----

  /** The position of the first `?` or `#`, or the length. */
  function FindQuery(target: Octets): (n: nat)
    ensures n <= |target|
    ensures forall i :: 0 <= i < n ==> target[i] != '?' && target[i] != '#'
    ensures n < |target| ==> target[n] == '?' || target[n] == '#'
  {
    if target == [] || target[0] == '?' || target[0] == '#' then 0 else 1 + FindQuery(target[1..])
  }

  /** The query part of a target: what follows the `?`.  The position of a later `#`
      is used as a length, so the `#` itself is kept. */
  function QueryPart(target: Octets): Octets {
    var q := FindQuery(target);
    if q == |target| || target[q] == '#' then []
    else
      var after := target[q + 1..];
      var h := IndexOf(after, '#');
      if h == |after| then after else after[..h + 1]
  }

  /** Splits a target into its path and its query. */
  method Split(target: Octets) returns (path: Octets, query: Octets)
    ensures path == target[..FindQuery(target)] && query == QueryPart(target)
  {
    var at := 0;
    while at < |target| && target[at] != '?' && target[at] != '#'
      invariant 0 <= at <= |target|
      invariant at + FindQuery(target[at..]) == FindQuery(target)
    {
      assert target[at..][1..] == target[at + 1..];
      at := at + 1;
    }
    path := target[..at];
    query := [];
    QueryAt(target, at);
    hide FindQuery, IndexOf, QueryPart;
    var rest := target[at..];
    if rest != [] && rest[0] == '?' {
      var hash := Find(rest, '#', 1);
      Behind(target, at);
      query := if hash == |rest| then rest[1..] else rest[1..][..hash];
    }
  }

  lemma QueryAt(target: Octets, q: nat)
    requires q == FindQuery(target)
    ensures q == |target| || target[q] == '#' ==> QueryPart(target) == []
    ensures q < |target| && target[q] == '?' ==>
              var after := target[q + 1..];
              var h := IndexOf(after, '#');
              QueryPart(target) == if h == |after| then after else after[..h + 1]
  {
    hide FindQuery, IndexOf;
  }

  lemma Behind(target: Octets, at: nat)
    requires at < |target|
    ensures target[at..][1..] == target[at + 1..]
  {
  }

  /** A path and a query free of delimiters come apart as they were put together. */
  lemma SplitInvertsTarget(path: Octets, query: Octets)
    requires '?' !in path && '#' !in path && '#' !in query
    ensures var target := path + ['?'] + query;
            target[..FindQuery(target)] == path && QueryPart(target) == query
  {
    var target := path + ['?'] + query;
    assert target[|path|] == '?' && target[..|path|] == path && target[|path| + 1..] == query;
    assert forall i :: 0 <= i < |path| ==> target[i] == path[i];
    var h := IndexOf(query, '#');
    assert h == |query|;
  }

  /** A target without a query: its path ends at the fragment, and the query is empty. */
  lemma SplitWithoutQuery(path: Octets, fragment: Octets)
    requires '?' !in path && '#' !in path
    ensures path[..FindQuery(path)] == path && QueryPart(path) == []
    ensures var target := path + ['#'] + fragment;
            target[..FindQuery(target)] == path && QueryPart(target) == []
  {
    var target := path + ['#'] + fragment;
    assert target[|path|] == '#' && target[..|path|] == path;
    assert forall i :: 0 <= i < |path| ==> target[i] == path[i];
    assert FindQuery(path) == |path|;
  }

  lemma HashAfter(target: Octets, q: nat)
    requires q < |target| && '#' !in target[..q + 1]
    ensures '#' in target <==> '#' in target[q + 1..]
  {
    assert target == target[..q + 1] + target[q + 1..];
  }

  lemma HashKept(after: Octets, h: nat)
    requires h == IndexOf(after, '#')
    ensures '#' in after <==> h < |after|
    ensures h < |after| ==> '#' in after[..h + 1]
  {
    if h < |after| {
      assert after[..h + 1][h] == '#';
    }
  }

  /** The query part is free of `#` exactly when the target has none after its `?`. */
  lemma QueryKeepsHash(target: Octets)
    requires FindQuery(target) < |target| && target[FindQuery(target)] == '?'
    ensures '#' in QueryPart(target) <==> '#' in target
  {
    hide IndexOf, FindQuery;
    NoHashBefore(target);
    var q := FindQuery(target);
    HashAfter(target, q);
    HashKept(target[q + 1..], IndexOf(target[q + 1..], '#'));
  }

  lemma NoHashBefore(target: Octets)
    requires FindQuery(target) < |target| && target[FindQuery(target)] == '?'
    ensures '#' !in target[..FindQuery(target) + 1]
  {
    var q := FindQuery(target);
    assert forall i :: 0 <= i < q + 1 ==> target[i] != '#';
  }

  /** So the query of `/p?a#b` keeps its `#`. */
  lemma QueryKeepsHashWitness()
    ensures QueryPart(['/', 'p', '?', 'a', '#', 'b']) == ['a', '#']
  {
    var target: Octets := ['/', 'p', '?', 'a', '#', 'b'];
    assert target[1..] == ['p', '?', 'a', '#', 'b'] && target[1..][1..] == ['?', 'a', '#', 'b'];
    assert FindQuery(target) == 2;
    var after := target[3..];
    assert after == ['a', '#', 'b'];
    IndexOfIs(after, '#', 1);
  }
}
