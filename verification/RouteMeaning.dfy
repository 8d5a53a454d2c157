/** What a list of tokens means, told without regular expressions, and the proof that the
    compiled tree accepts exactly that, with exactly those values in its groups. */
module RouteMeaning {
  import opened Wrappers
  import Strings
  import opened Regex
  import opened RegexReader
  import opened PathKeys
  import opened PathCompiler

  // ----- the meaning -----

  /** `w` as a whole matches the pattern. */
  ghost predicate PatternAccepts(pattern: string, w: string)
    requires PlainPattern(pattern)
  {
    Accepts(Read(pattern).value, w, [])
  }

  function Prefixed(prefix: string, segments: seq<string>): string {
    if segments == [] then "" else prefix + segments[0] + Prefixed(prefix, segments[1..])
  }

  ghost predicate AllAccepted(pattern: string, segments: seq<string>)
    requires PlainPattern(pattern)
  {
    forall i :: 0 <= i < |segments| ==> PatternAccepts(pattern, segments[i])
  }

  /** The values a parameter can take; a repeatable one takes several segments joined by
      its prefix. */
  ghost predicate ValueMeans(k: Key, v: string)
    requires PlainPattern(k.pattern)
  {
    if k.repeat then
      exists segments :: segments != [] && AllAccepted(k.pattern, segments) &&
        v == segments[0] + Prefixed(k.prefix, segments[1..])
    else PatternAccepts(k.pattern, v)
  }

  /** The text `w` gives the parameter the value `v`.  A missing optional parameter has the
      value "", and only a partial one then keeps its prefix. */
  ghost predicate ParameterMeans(k: Key, w: string, v: string)
    requires PlainPattern(k.pattern)
  {
    || (w == k.prefix + v && ValueMeans(k, v))
    || (k.optional && v == "" && w == if k.partial then k.prefix else "")
  }

  /** The text `w` is the tokens' texts one after the other, with the values `vs` for the
      parameters among them. */
  ghost predicate TokensMean(ts: seq<Key>, w: string, vs: seq<string>)
    requires Compilable(ts)
  {
    if ts == [] then w == "" && vs == []
    else if ts[0].isString then
      ts[0].value.s <= w && TokensMean(ts[1..], w[|ts[0].value.s|..], vs)
    else
      vs != [] && exists k :: 0 <= k <= |w| && ParameterMeans(ts[0], w[..k], vs[0]) &&
                              TokensMean(ts[1..], w[k..], vs[1..])
  }

  predicate NoLineBreak(w: string) {
    forall i :: 0 <= i < |w| ==> !IsLineBreak(w[i])
  }

  /** The path means the tokens with the values `vs`: every token in turn, then nothing
      more, or in non-strict mode at most one more slash; a rest parameter takes
      everything up to the end. */
  ghost predicate RouteMeans(ts: seq<Key>, options: Options, path: string, vs: seq<string>)
    requires AllWellFormed(ts)
  {
    if TakesRest(ts, options) then
      vs != [] && NoLineBreak(vs[|vs| - 1]) &&
      exists k :: 0 <= k <= |path| && path[k..] == ts[|ts| - 1].prefix + vs[|vs| - 1] &&
                  TokensMean(ts[..|ts| - 1], path[..k], vs[..|vs| - 1])
    else
      || TokensMean(Body(ts, options), path, vs)
      || (!options.strict && path != "" && path[|path| - 1] == '/' &&
          TokensMean(Body(ts, options), path[..|path| - 1], vs))
  }

  // ----- the default patterns -----

  lemma {:induction false} ManyCharacters(a: Atom, s: string, i: nat, j: nat, c: seq<string>, allowed: char -> bool)
    requires GroupsAtom(a) == 0 && i <= j <= |s|
    requires forall p, q, d :: 0 <= p <= q <= |s| ==>
               (MatchAtom(a, s, p, q, d) <==> q == p + 1 && d == [] && allowed(s[p]))
    ensures MatchMany(a, s, i, j, c) <==> c == [] && forall x :: i <= x < j ==> allowed(s[x])
    decreases j - i
  {
    if i < j {
      ManyCharacters(a, s, i + 1, j, c, allowed);
      if c == [] && forall x :: i <= x < j ==> allowed(s[x]) {
        assert MatchAtom(a, s, i, i + 1, c);
      }
    }
  }

  /** `.*` takes any text on one line, `[^/]+?` and its like a non-empty text without the
      delimiter's characters. */
  lemma DefaultPatternsMean(delimiter: string, w: string)
    requires '-' !in delimiter
    ensures PlainPattern(".*") && (PatternAccepts(".*", w) <==> NoLineBreak(w))
    ensures PlainPattern(SegmentPattern(delimiter))
    ensures PatternAccepts(SegmentPattern(delimiter), w) <==>
            w != "" && forall i :: 0 <= i < |w| ==> w[i] !in delimiter
  {
    hide MatchAlt, MatchTerm, MatchMany, ReadRe, Read, PlainPattern, InItems;
    DefaultPatternsArePlain(delimiter);
    RestMeans(w, 0, |w|, []);
    assert w[0..|w|] == w;
    var items := Singles(delimiter);
    var term := Rep(Brackets(true, items), Several(true));
    SeveralMean(true, items, true, w);
    MatchOne(term, w, 0, |w|, []);
    OnlyAlt(One(term), w, []);
    forall i | 0 <= i < |w|
      ensures InItems(items, w[i]) <==> w[i] in delimiter
    {
      InSingles(delimiter, w[i]);
    }
  }

  const DIGITS_RE: Re := Just(One(Rep(Class('d'), Several(false))))

  /** A custom pattern such as `\d+` is covered as well: it takes the non-empty runs of digits. */
  lemma DigitsPatternMeans(w: string)
    ensures PlainPattern("\\d+")
    ensures PatternAccepts("\\d+", w) <==> w != "" && forall i :: 0 <= i < |w| ==> Strings.IsDigit(w[i])
  {
    hide ReadRe, Read, PlainPattern, InClass;
    DigitsPatternReads();
    var a, term := Class('d'), Rep(Class('d'), Several(false));
    MatchOne(term, w, 0, |w|, []);
    OnlyAlt(One(term), w, []);
    DigitsMean(w);
  }

  lemma DigitsPatternReads()
    ensures Read("\\d+") == Some(DIGITS_RE) && PlainPattern("\\d+")
  {
    hide ReadRe, Read;
    var a, term := Class('d'), Rep(Class('d'), Several(false));
    assert TextAtom(a) == "\\d" && TextTerm(term) == "\\d" + ("+" + "");
    OneShape(term);
    ReadText(DIGITS_RE);
    assert "\\d" + ("+" + "") == "\\d+";
    assert GroupsRe(DIGITS_RE) == 0 && AnchorlessRe(DIGITS_RE);
  }

  lemma DigitsMean(w: string)
    ensures MatchTerm(Rep(Class('d'), Several(false)), w, 0, |w|, []) <==>
            w != "" && forall i :: 0 <= i < |w| ==> Strings.IsDigit(w[i])
  {
    var a := Class('d');
    if w != "" {
      ManyCharacters(a, w, 1, |w|, [], x => Strings.IsDigit(x));
      if forall i :: 0 <= i < |w| ==> Strings.IsDigit(w[i]) {
        assert MatchAtom(a, w, 0, 1, []);
      }
    }
  }

  lemma RestMeans(s: string, i: nat, j: nat, c: seq<string>)
    requires i <= j <= |s|
    ensures MatchRe(REST_RE, s, i, j, c) <==> c == [] && NoLineBreak(s[i..j])
  {
    MatchOne(Rep(Dot, Many(false)), s, i, j, c);
    ManyCharacters(Dot, s, i, j, c, x => !IsLineBreak(x));
    assert NoLineBreak(s[i..j]) <==> forall x :: i <= x < j ==> !IsLineBreak(s[x]) by {
      assert forall x :: i <= x < j ==> s[x] == s[i..j][x - i];
    }
    assert MatchRe(REST_RE, s, i, j, c) == (|c| == 0 && MatchTerm(Rep(Dot, Many(false)), s, i, j, c));
  }

  /** A repeated character of a class: the non-empty runs of such characters. */
  lemma SeveralMean(negated: bool, items: seq<Item>, lazy: bool, w: string)
    ensures MatchTerm(Rep(Brackets(negated, items), Several(lazy)), w, 0, |w|, []) <==>
            w != "" && forall i :: 0 <= i < |w| ==> InItems(items, w[i]) != negated
  {
    hide InItems;
    var a := Brackets(negated, items);
    if w != "" {
      ManyCharacters(a, w, 1, |w|, [], x => InItems(items, x) != negated);
      if forall i :: 0 <= i < |w| ==> InItems(items, w[i]) != negated {
        assert MatchAtom(a, w, 0, 1, []);
      }
    }
  }

  /** A custom pattern such as `[a-z0-9_]+` is plain, and takes the non-empty runs of the
      characters in its brackets. */
  lemma BracketPatternMeans(negated: bool, items: seq<Item>, lazy: bool, w: string)
    requires forall i :: 0 <= i < |items| ==> WellFormedItem(items[i])
    ensures var pattern := TextTerm(Rep(Brackets(negated, items), Several(lazy)));
            && PlainPattern(pattern)
            && (PatternAccepts(pattern, w) <==>
                w != "" && forall i :: 0 <= i < |w| ==> InItems(items, w[i]) != negated)
  {
    hide InItems, WellFormedItem;
    var term := Rep(Brackets(negated, items), Several(lazy));
    OneShape(term);
    ReadText(Just(One(term)));
    SeveralMean(negated, items, lazy, w);
    hide ReadRe, Read, TextRe, TextAlt, TextTerm, MatchTerm, MatchAlt;
    MatchOne(term, w, 0, |w|, []);
    OnlyAlt(One(term), w, []);
  }

  lemma OnlyAlt(a: Alt, w: string, c: seq<string>)
    ensures Accepts(Just(a), w, c) <==> MatchAlt(a, w, 0, |w|, c)
  {
    if MatchAlt(a, w, 0, |w|, c) {
      assert |c| == GroupsAlt(a) == GroupsRe(Just(a));
    }
  }

  // ----- one parameter -----

  /** A stretch of a path, cut in two. */
  lemma Cut(s: string, i: nat, k: nat, j: nat)
    requires i <= k <= j <= |s|
    ensures s[i..k] == s[i..j][..k - i] && s[k..j] == s[i..j][k - i..]
  {
  }

  /** A pattern matches a stretch of the path as it matches that stretch alone. */
  lemma PatternMatches(k: Key, s: string, i: nat, j: nat, c: seq<string>)
    requires PlainPattern(k.pattern) && i <= j <= |s|
    ensures MatchTerm(Rep(PatternAtom(k), Once), s, i, j, c) <==> c == [] && PatternAccepts(k.pattern, s[i..j])
  {
    PatternShape(k);
    var r, w := Read(k.pattern).value, s[i..j];
    assert w[0..|w|] == w;
    assert MatchTerm(Rep(PatternAtom(k), Once), s, i, j, c) <==> |c| == 0 && MatchRe(r, s, i, j, c);
    if |c| == 0 {
      if MatchRe(r, s, i, j, c) {
        LocalRe(r, s, i, j, w, 0, |w|, c);
      }
      if MatchRe(r, w, 0, |w|, c) {
        LocalRe(r, w, 0, |w|, s, i, j, c);
      }
    }
  }

  lemma PrefixedFound(prefix: string, t: Term, s: string, i: nat, j: nat, c: seq<string>)
    requires i <= j <= |s| && MatchAlt(Append(Literal(prefix), One(t)), s, i, j, c)
    ensures prefix <= s[i..j] && MatchTerm(t, s, i + |prefix|, j, c)
  {
    hide MatchRe, MatchAlt, MatchTerm, MatchAtom, MatchMany, Append, Literal, TextAtom, TextTerm, TextAlt;
    TextLiteral(prefix);
    var k := SplitAppend(Literal(prefix), One(t), s, i, j, c);
    assert c[..0] == [] && c[0..] == c;
    MatchLiteral(prefix, s, i, k, []);
    MatchOne(t, s, k, j, c);
    Cut(s, i, k, j);
    assert |s[i..k]| == k - i;
  }

  lemma PrefixedMade(prefix: string, t: Term, s: string, i: nat, j: nat, c: seq<string>)
    requires i <= j <= |s| && prefix <= s[i..j] && MatchTerm(t, s, i + |prefix|, j, c)
    ensures MatchAlt(Append(Literal(prefix), One(t)), s, i, j, c)
  {
    hide MatchRe, MatchAlt, MatchTerm, MatchAtom, MatchMany, Append, Literal, TextAtom, TextTerm, TextAlt;
    var k := i + |prefix|;
    Cut(s, i, k, j);
    assert s[i..j][..|prefix|] == prefix;
    MatchLiteral(prefix, s, i, k, []);
    MatchOne(t, s, k, j, c);
    JoinAppend(Literal(prefix), One(t), s, i, k, j, [], c);
    assert [] + c == c;
  }

  /** A literal prefix, then a term. */
  lemma PrefixedMatches(prefix: string, t: Term, s: string, i: nat, j: nat, c: seq<string>)
    requires i <= j <= |s|
    ensures MatchAlt(Append(Literal(prefix), One(t)), s, i, j, c) <==>
            prefix <= s[i..j] && MatchTerm(t, s, i + |prefix|, j, c)
  {
    hide MatchAlt, MatchTerm, Append, Literal;
    if MatchAlt(Append(Literal(prefix), One(t)), s, i, j, c) {
      PrefixedFound(prefix, t, s, i, j, c);
    } else if prefix <= s[i..j] && MatchTerm(t, s, i + |prefix|, j, c) {
      PrefixedMade(prefix, t, s, i, j, c);
    }
  }

  /** One more round of a repeated parameter. */
  function RoundAtom(k: Key): Atom
    requires PlainPattern(k.pattern)
  {
    Group(Just(Append(Literal(k.prefix), One(Rep(PatternAtom(k), Once)))))
  }

  lemma RoundMatches(k: Key, s: string, i: nat, j: nat, c: seq<string>)
    requires PlainPattern(k.pattern) && i <= j <= |s|
    ensures GroupsAtom(RoundAtom(k)) == 0
    ensures MatchAtom(RoundAtom(k), s, i, j, c) <==>
            c == [] && k.prefix <= s[i..j] && PatternAccepts(k.pattern, s[i..j][|k.prefix|..])
  {
    PatternShape(k);
    var pattern := Rep(PatternAtom(k), Once);
    PrefixedShape(k.prefix, pattern);
    PrefixedMatches(k.prefix, pattern, s, i, j, c);
    ParensShape(Append(Literal(k.prefix), One(pattern)), Once);
    assert MatchAtom(RoundAtom(k), s, i, j, c) <==>
           |c| == 0 && MatchAlt(Append(Literal(k.prefix), One(pattern)), s, i, j, c);
    if k.prefix <= s[i..j] {
      PatternMatches(k, s, i + |k.prefix|, j, c);
      assert s[i + |k.prefix|..j] == s[i..j][|k.prefix|..];
    }
  }

  lemma {:induction false} RoundsFound(k: Key, s: string, i: nat, j: nat) returns (segments: seq<string>)
    requires PlainPattern(k.pattern) && i <= j <= |s| && MatchMany(RoundAtom(k), s, i, j, [])
    ensures AllAccepted(k.pattern, segments) && s[i..j] == Prefixed(k.prefix, segments)
    decreases j - i
  {
    RoundMatches(k, s, i, j, []);
    if i == j {
      segments := [];
    } else {
      var m, d :| i < m <= j && MatchAtom(RoundAtom(k), s, i, m, d) &&
        if m == j then [] == d else MatchMany(RoundAtom(k), s, m, j, []);
      RoundMatches(k, s, i, m, d);
      var segment := s[i..m][|k.prefix|..];
      var others := [];
      if m < j {
        others := RoundsFound(k, s, m, j);
      }
      segments := [segment] + others;
      assert s[i..m] == k.prefix + segment;
      assert s[i..j] == s[i..m] + s[m..j];
      assert segments[1..] == others;
    }
  }

  lemma {:induction false} RoundsMatch(k: Key, s: string, i: nat, j: nat, segments: seq<string>)
    requires PlainPattern(k.pattern) && i <= j <= |s|
    requires AllAccepted(k.pattern, segments) && s[i..j] == Prefixed(k.prefix, segments)
    ensures MatchMany(RoundAtom(k), s, i, j, [])
    decreases |segments|
  {
    RoundMatches(k, s, i, j, []);
    if segments != [] {
      var round, others := k.prefix + segments[0], segments[1..];
      var m := i + |round|;
      assert s[i..j] == round + Prefixed(k.prefix, others);
      assert m <= j && s[i..m] == s[i..j][..|round|] == round && s[m..j] == s[i..j][|round|..];
      RoundsMatch(k, s, m, j, others);
      RoundMatches(k, s, i, m, []);
      assert s[i..m][|k.prefix|..] == segments[0];
      if m > i {
        assert MatchAtom(RoundAtom(k), s, i, m, []);
      }
    }
  }

  lemma RepeatsFound(k: Key, s: string, i: nat, j: nat)
    requires PlainPattern(k.pattern) && k.repeat && i <= j <= |s| && MatchAlt(ValueAlt(k), s, i, j, [])
    ensures ValueMeans(k, s[i..j])
  {
    hide MatchRe, MatchAlt, MatchTerm, MatchAtom, MatchMany, PlainPattern, WellFormedTerm, TextTerm, GroupsAtom;
    var pattern, more := Rep(PatternAtom(k), Once), Rep(RoundAtom(k), Many(false));
    PatternShape(k);
    var m := SplitCons(pattern, One(more), s, i, j, []);
    var c: seq<string> := [];
    assert c[..0] == [] && c[0..] == [];
    PatternMatches(k, s, i, m, []);
    MatchOne(more, s, m, j, []);
    ManyIs(RoundAtom(k), s, m, j, []);
    var others := RoundsFound(k, s, m, j);
    FirstSegment(k, s[i..m], others, s[m..j]);
    assert s[i..j] == s[i..m] + s[m..j];
  }

  lemma ManyIs(a: Atom, s: string, i: nat, j: nat, c: seq<string>)
    requires i <= j <= |s|
    ensures MatchTerm(Rep(a, Many(false)), s, i, j, c) <==> MatchMany(a, s, i, j, c)
  {
  }

  lemma FirstSegment(k: Key, first: string, others: seq<string>, rest: string)
    requires PlainPattern(k.pattern) && k.repeat && PatternAccepts(k.pattern, first)
    requires AllAccepted(k.pattern, others) && rest == Prefixed(k.prefix, others)
    ensures ValueMeans(k, first + rest)
  {
    hide PlainPattern, PatternAccepts;
    var segments := [first] + others;
    assert segments[1..] == others;
    assert AllAccepted(k.pattern, segments);
  }

  lemma RepeatsMatch(k: Key, s: string, i: nat, j: nat)
    requires PlainPattern(k.pattern) && k.repeat && i <= j <= |s| && ValueMeans(k, s[i..j])
    ensures MatchAlt(ValueAlt(k), s, i, j, [])
  {
    var pattern, more := Rep(PatternAtom(k), Once), Rep(RoundAtom(k), Many(false));
    var segments :| segments != [] && AllAccepted(k.pattern, segments) &&
      s[i..j] == segments[0] + Prefixed(k.prefix, segments[1..]);
    var m := i + |segments[0]|;
    assert s[i..m] == s[i..j][..m - i] == segments[0] && s[m..j] == s[i..j][m - i..];
    PatternMatches(k, s, i, m, []);
    RoundsMatch(k, s, m, j, segments[1..]);
    RoundMatches(k, s, m, j, []);
    assert MatchTerm(more, s, m, j, []);
    MatchOne(pattern, s, i, m, []);
    MatchOne(more, s, m, j, []);
    JoinAppend(One(pattern), One(more), s, i, m, j, [], []);
    assert Append(One(pattern), One(more)) == ValueAlt(k);
  }

  lemma ValueMatches(k: Key, s: string, i: nat, j: nat, c: seq<string>)
    requires PlainPattern(k.pattern) && i <= j <= |s|
    ensures MatchAlt(ValueAlt(k), s, i, j, c) <==> c == [] && ValueMeans(k, s[i..j])
  {
    ValueShape(k);
    if !k.repeat {
      MatchOne(Rep(PatternAtom(k), Once), s, i, j, c);
      PatternMatches(k, s, i, j, c);
    } else if c == [] {
      if MatchAlt(ValueAlt(k), s, i, j, c) {
        RepeatsFound(k, s, i, j);
      } else if ValueMeans(k, s[i..j]) {
        RepeatsMatch(k, s, i, j);
      }
    }
  }

  function CaptureAtom(k: Key): Atom
    requires PlainPattern(k.pattern)
  {
    Capture(Just(ValueAlt(k)))
  }

  lemma CaptureMatches(k: Key, s: string, i: nat, j: nat, c: seq<string>)
    requires PlainPattern(k.pattern) && i <= j <= |s|
    ensures GroupsAtom(CaptureAtom(k)) == 1
    ensures MatchAtom(CaptureAtom(k), s, i, j, c) <==> c == [s[i..j]] && ValueMeans(k, s[i..j])
  {
    hide MatchRe, MatchAlt, MatchTerm, MatchAtom, MatchMany, GroupsRe, GroupsAlt, GroupsTerm, GroupsAtom,
      PlainPattern, ValueAlt, ValueMeans;
    ValueShape(k);
    MatchCapture(ValueAlt(k), s, i, j, c);
    if |c| == 1 {
      ValueMatches(k, s, i, j, c[1..]);
      assert c == [c[0]] && c[1..] == [];
    }
  }

  lemma MatchCapture(a: Alt, s: string, i: nat, j: nat, c: seq<string>)
    requires i <= j <= |s|
    ensures GroupsAtom(Capture(Just(a))) == 1 + GroupsAlt(a)
    ensures MatchAtom(Capture(Just(a)), s, i, j, c) <==>
            |c| == 1 + GroupsAlt(a) && c[0] == s[i..j] && MatchAlt(a, s, i, j, c[1..])
  {
    assert GroupsRe(Just(a)) == GroupsAlt(a);
    if |c| == 1 + GroupsAlt(a) {
      assert MatchRe(Just(a), s, i, j, c[1..]) <==> MatchAlt(a, s, i, j, c[1..]);
    }
  }

  /** `prefix(value)` with the group once or optional. */
  lemma PrefixedCaptureMatches(k: Key, n: Count, s: string, i: nat, j: nat, c: seq<string>)
    requires PlainPattern(k.pattern) && i <= j <= |s| && (n == Once || n == Optional(false))
    ensures MatchAlt(Append(Literal(k.prefix), One(Rep(CaptureAtom(k), n))), s, i, j, c) <==>
            && |c| == 1
            && (|| (s[i..j] == k.prefix + c[0] && ValueMeans(k, c[0]))
                || (n != Once && s[i..j] == k.prefix && c[0] == ""))
  {
    var w, t := s[i..j], Rep(CaptureAtom(k), n);
    CaptureMatches(k, s, i, j, c);
    PrefixedMatches(k.prefix, t, s, i, j, c);
    if k.prefix <= w {
      var m := i + |k.prefix|;
      CaptureMatches(k, s, m, j, c);
      assert w == k.prefix + s[m..j];
      assert |c| == 1 ==> (w == k.prefix + c[0] <==> c[0] == s[m..j]);
      assert |c| == 1 ==> (c == Blank(1) <==> c[0] == "");
      assert w == k.prefix <==> m == j;
    }
  }

  lemma ParameterMatches(k: Key, s: string, i: nat, j: nat, c: seq<string>)
    requires PlainPattern(k.pattern) && i <= j <= |s|
    ensures MatchAlt(ParameterAlt(k), s, i, j, c) <==> |c| == 1 && ParameterMeans(k, s[i..j], c[0])
  {
    PrefixedCaptureMatches(k, Once, s, i, j, c);
    PrefixedCaptureMatches(k, Optional(false), s, i, j, c);
    if k.optional && !k.partial {
      var whole := Append(Literal(k.prefix), One(Rep(CaptureAtom(k), Once)));
      var t := Rep(Group(Just(whole)), Optional(false));
      ParameterShape(k);
      OneShape(t);
      MatchOne(t, s, i, j, c);
      if |c| == 1 {
        assert c == Blank(1) <==> c[0] == "";
        assert MatchAtom(Group(Just(whole)), s, i, j, c) <==> MatchRe(Just(whole), s, i, j, c);
        assert MatchRe(Just(whole), s, i, j, c) <==> MatchAlt(whole, s, i, j, c);
      }
    }
  }

  // ----- all tokens -----

  lemma {:induction false} TokensFound(ts: seq<Key>, s: string, i: nat, j: nat, c: seq<string>)
    requires Compilable(ts) && i <= j <= |s| && MatchAlt(TokensAlt(ts), s, i, j, c)
    ensures TokensMean(ts, s[i..j], c)
  {
    hide MatchRe, MatchTerm, MatchAtom, MatchMany, GroupsRe, GroupsTerm, GroupsAtom, PlainPattern, Append,
      Literal, ParameterMeans;
    if ts != [] {
      var g := GroupsAlt(TokenAlt(ts[0]));
      var k := SplitAppend(TokenAlt(ts[0]), TokensAlt(ts[1..]), s, i, j, c);
      TokensFound(ts[1..], s, k, j, c[g..]);
      Cut(s, i, k, j);
      if ts[0].isString {
        MatchLiteral(ts[0].value.s, s, i, k, c[..g]);
        assert c[g..] == c;
      } else {
        ParameterMatches(ts[0], s, i, k, c[..g]);
        assert c[g..] == c[1..] && c[..g][0] == c[0];
        assert ParameterMeans(ts[0], s[i..j][..k - i], c[0]);
      }
    }
  }

  lemma {:induction false} TokensMade(ts: seq<Key>, s: string, i: nat, j: nat, c: seq<string>)
    requires Compilable(ts) && i <= j <= |s| && TokensMean(ts, s[i..j], c)
    ensures MatchAlt(TokensAlt(ts), s, i, j, c)
  {
    hide MatchRe, MatchAlt, MatchTerm, MatchAtom, MatchMany, GroupsRe, GroupsAlt, GroupsTerm, GroupsAtom,
      PlainPattern, TokenAlt, Append, HeadMeans, TokensMean, ParameterMeans;
    var w := s[i..j];
    if ts == [] {
      NothingMade(ts, s, i, j, c);
    } else {
      var head, tail := TokenAlt(ts[0]), TokensAlt(ts[1..]);
      var m, v: seq<string> := HeadFound(ts, w, c);
      var k := i + m;
      Cut(s, i, k, j);
      HeadMade(ts[0], s, i, k, v);
      TokensMade(ts[1..], s, k, j, c[|v|..]);
      JoinAppend(head, tail, s, i, k, j, v, c[|v|..]);
      assert v + c[|v|..] == c;
    }
  }

  lemma NothingMade(ts: seq<Key>, s: string, i: nat, j: nat, c: seq<string>)
    requires ts == [] && i <= j <= |s| && TokensMean(ts, s[i..j], c)
    ensures MatchAlt(TokensAlt(ts), s, i, j, c)
  {
  }

  /** Where the first token ends, and its value if it has one. */
  ghost predicate HeadMeans(t: Key, w: string, v: seq<string>)
    requires CompilableToken(t)
  {
    if t.isString then v == [] && w == t.value.s else |v| == 1 && ParameterMeans(t, w, v[0])
  }

  lemma HeadFound(ts: seq<Key>, w: string, c: seq<string>) returns (m: nat, v: seq<string>)
    requires Compilable(ts) && ts != [] && TokensMean(ts, w, c)
    ensures m <= |w| && v <= c && HeadMeans(ts[0], w[..m], v) && TokensMean(ts[1..], w[m..], c[|v|..])
  {
    if ts[0].isString {
      m, v := |ts[0].value.s|, [];
      assert c[0..] == c;
    } else {
      m :| 0 <= m <= |w| && ParameterMeans(ts[0], w[..m], c[0]) && TokensMean(ts[1..], w[m..], c[1..]);
      v := [c[0]];
    }
  }

  lemma HeadMade(t: Key, s: string, i: nat, k: nat, v: seq<string>)
    requires CompilableToken(t) && i <= k <= |s| && HeadMeans(t, s[i..k], v)
    ensures MatchAlt(TokenAlt(t), s, i, k, v)
  {
    if t.isString {
      MatchLiteral(t.value.s, s, i, k, v);
    } else {
      ParameterMatches(t, s, i, k, v);
    }
  }

  /** Compiled tokens match a stretch of the path exactly when it means the tokens. */
  lemma TokensMatch(ts: seq<Key>, s: string, i: nat, j: nat, c: seq<string>)
    requires Compilable(ts) && i <= j <= |s|
    ensures MatchAlt(TokensAlt(ts), s, i, j, c) <==> TokensMean(ts, s[i..j], c)
  {
    if MatchAlt(TokensAlt(ts), s, i, j, c) {
      TokensFound(ts, s, i, j, c);
    } else if TokensMean(ts, s[i..j], c) {
      TokensMade(ts, s, i, j, c);
    }
  }

  // ----- repeated segments -----

  lemma {:induction false} PrefixedIsJoined(d: char, segments: seq<string>)
    requires segments != []
    ensures segments[0] + Prefixed([d], segments[1..]) == Strings.Join(segments, d)
  {
    if |segments| > 1 {
      PrefixedIsJoined(d, segments[1..]);
      assert segments[1..][1..] == segments[2..];
      assert Prefixed([d], segments[1..]) == [d] + segments[1] + Prefixed([d], segments[2..]);
      assert segments[0] + ([d] + segments[1] + Prefixed([d], segments[2..])) ==
             segments[0] + [d] + (segments[1] + Prefixed([d], segments[2..]));
    }
  }

  /** A repeated parameter with the default pattern takes one or more non-empty segments, joined
      by its prefix. */
  lemma RepeatedSegments(k: Key, d: char, v: string)
    requires k.repeat && k.prefix == [d] && d != '-' && k.pattern == SegmentPattern([d])
    ensures PlainPattern(k.pattern)
    ensures ValueMeans(k, v) <==>
            forall i :: 0 <= i < |Strings.Split(v, d)| ==> Strings.Split(v, d)[i] != ""
  {
    DefaultPatternsMean([d], v);
    if ValueMeans(k, v) {
      hide PlainPattern, PatternAccepts, SegmentPattern;
      var segments :| segments != [] && AllAccepted(k.pattern, segments) &&
        v == segments[0] + Prefixed(k.prefix, segments[1..]);
      forall i | 0 <= i < |segments|
        ensures segments[i] != "" && d !in segments[i]
      {
        DefaultPatternsMean([d], segments[i]);
      }
      PrefixedIsJoined(d, segments);
      Strings.SplitInvertsJoin(segments, d);
    }
    if forall i :: 0 <= i < |Strings.Split(v, d)| ==> Strings.Split(v, d)[i] != "" {
      hide PlainPattern, PatternAccepts, SegmentPattern;
      var segments := Strings.Split(v, d);
      Strings.JoinInvertsSplit(v, d);
      PrefixedIsJoined(d, segments);
      forall i | 0 <= i < |segments|
        ensures PatternAccepts(k.pattern, segments[i])
      {
        DefaultPatternsMean([d], segments[i]);
      }
      assert AllAccepted(k.pattern, segments);
    }
  }

  // ----- leaving parameters out -----

  /** A first parameter without a value: what is left for the other tokens. */
  lemma FirstLeftOut(k: Key, rest: seq<Key>, w: string, vs: seq<string>)
    requires CompilableToken(k) && Compilable([k] + rest) && Compilable(rest) && !k.isString && k.optional
    ensures TokensMean([k] + rest, w, [""] + vs) <==>
            || (k.prefix <= w && (k.partial || ValueMeans(k, "")) && TokensMean(rest, w[|k.prefix|..], vs))
            || (!k.partial && TokensMean(rest, w, vs))
  {
    var ts, us := [k] + rest, [""] + vs;
    assert ts[1..] == rest && us[1..] == vs;
    hide PlainPattern, ValueMeans, Compilable;
    assert k.prefix + "" == k.prefix;
    if TokensMean(ts, w, us) {
      var m :| 0 <= m <= |w| && ParameterMeans(k, w[..m], "") && TokensMean(rest, w[m..], vs);
      if w[..m] == "" {
        assert w[m..] == w;
      }
      assert w[..m] == k.prefix ==> m == |k.prefix|;
    }
    if k.prefix <= w && (k.partial || ValueMeans(k, "")) && TokensMean(rest, w[|k.prefix|..], vs) {
      assert ParameterMeans(k, w[..|k.prefix|], us[0]);
    }
    if !k.partial && TokensMean(rest, w, vs) {
      assert w[0..] == w && ParameterMeans(k, w[..0], us[0]);
    }
  }

  /** Leaving out an optional parameter leaves the path of the other tokens alone. */
  ghost predicate CanBeLeftOut(k: Key, rest: seq<Key>)
    requires Compilable([k] + rest) && Compilable(rest)
  {
    forall w, vs :: TokensMean(rest, w, vs) ==> TokensMean([k] + rest, w, [""] + vs)
  }

  lemma {:induction false} PrefixStays(k: Key, rest: seq<Key>, w: string, vs: seq<string>)
    requires CompilableToken(k) && Compilable([k] + rest) && Compilable(rest)
    requires !k.isString && k.optional && k.partial && k.prefix != ""
    requires TokensMean(rest, w, vs)
    ensures !CanBeLeftOut(k, rest)
    decreases |w|
  {
    FirstLeftOut(k, rest, w, vs);
    if CanBeLeftOut(k, rest) {
      PrefixStays(k, rest, w[|k.prefix|..], vs);
    }
  }

  /** An optional parameter can be left out together with its prefix exactly when it is not
      partial or has no prefix, whatever tokens follow, if they mean some path at all. */
  lemma LeftOutExactly(k: Key, rest: seq<Key>, w: string, vs: seq<string>)
    requires CompilableToken(k) && Compilable([k] + rest) && Compilable(rest) && !k.isString && k.optional
    requires TokensMean(rest, w, vs)
    ensures CanBeLeftOut(k, rest) <==> !(k.partial && k.prefix != "")
  {
    if k.partial && k.prefix != "" {
      PrefixStays(k, rest, w, vs);
    } else {
      forall w, vs | TokensMean(rest, w, vs)
        ensures TokensMean([k] + rest, w, [""] + vs)
      {
        FirstLeftOut(k, rest, w, vs);
        assert k.prefix == "" ==> w[|k.prefix|..] == w;
      }
    }
  }

  // ----- the end of the route -----

  lemma EndMatches(s: string, i: nat, j: nat, c: seq<string>)
    requires i <= j <= |s|
    ensures MatchRe(Just(One(End)), s, i, j, c) <==> i == j == |s| && c == []
  {
    MatchOne(End, s, i, j, c);
    assert GroupsRe(Just(One(End))) == GroupsAlt(One(End)) == 0 by {
      OneShape(End);
    }
  }

  lemma FinalSlashMatches(s: string, i: nat, j: nat, c: seq<string>)
    requires i <= j <= |s|
    ensures MatchTerm(FINAL_SLASH, s, i, j, c) <==>
            c == [] && (i == j || (j == |s| == i + 1 && s[i] == '/'))
  {
    FinalSlashShape();
    if c == [] && i < j {
      if MatchTerm(FINAL_SLASH, s, i, j, c) {
        FinalSlashFound(s, i, j);
      }
      if j == |s| == i + 1 && s[i] == '/' {
        FinalSlashMade(s, i);
      }
    }
  }

  const SLASH_AT_END: Alt := Cons(SLASH, One(Ahead(Just(One(End)))))

  lemma FinalSlashFound(s: string, i: nat, j: nat)
    requires i < j <= |s| && MatchTerm(FINAL_SLASH, s, i, j, [])
    ensures j == |s| == i + 1 && s[i] == '/'
  {
    var c: seq<string>, ahead := [], Ahead(Just(One(End)));
    assert MatchAlt(SLASH_AT_END, s, i, j, c) by {
      assert MatchAtom(FINAL_SLASH.atom, s, i, j, c);
      assert MatchRe(Just(SLASH_AT_END), s, i, j, c);
    }
    var m := SplitCons(SLASH, One(ahead), s, i, j, c);
    assert GroupsTerm(SLASH) == 0 && c[..0] == [] && c[0..] == [];
    AheadEnd(s, m, j);
    assert MatchAtom(Chr('/'), s, i, m, []);
  }

  lemma AheadEnd(s: string, m: nat, j: nat)
    requires m <= j <= |s| && MatchAlt(One(Ahead(Just(One(End)))), s, m, j, [])
    ensures m == j == |s|
  {
    MatchOne(Ahead(Just(One(End))), s, m, j, []);
    var k :| m <= k <= |s| && MatchRe(Just(One(End)), s, m, k, []);
    EndMatches(s, m, k, []);
  }

  lemma FinalSlashMade(s: string, i: nat)
    requires i + 1 == |s| && s[i] == '/'
    ensures MatchTerm(FINAL_SLASH, s, i, |s|, [])
  {
    var ahead, n := Ahead(Just(One(End))), |s|;
    EndMatches(s, n, n, []);
    assert GroupsTerm(ahead) == 0 by { OneShape(End); }
    assert MatchTerm(ahead, s, n, n, []);
    MatchOne(ahead, s, n, n, []);
    assert MatchAtom(Chr('/'), s, i, n, []) && MatchTerm(SLASH, s, i, n, []);
    MatchOne(SLASH, s, i, n, []);
    JoinAppend(One(SLASH), One(ahead), s, i, n, n, [], []);
    assert Append(One(SLASH), One(ahead)) == SLASH_AT_END;
    assert MatchRe(Just(SLASH_AT_END), s, i, n, []);
  }

  /** At the end of the path the boundary holds, like `$`. */
  lemma BoundaryAtEnd(s: string, i: nat, c: seq<string>)
    requires i <= |s|
    ensures MatchTerm(BOUNDARY, s, |s|, |s|, c) <==> c == []
  {
    BoundaryShape();
    var n := |s|;
    if c == [] {
      EndMatches(s, n, n, []);
      OneShape(SLASH);
      var g := GroupsAlt(One(SLASH));
      assert g == 0 && c[..g] == Blank(g) && c[g..] == [];
      assert MatchRe(BOUNDARY.re, s, n, n, c);
    }
  }

  lemma OpenMatches(options: Options, s: string, i: nat, k: nat)
    requires i <= k <= |s|
    ensures MatchAlt(Open(options), s, i, k, []) <==>
            k == i || (!options.strict && k == |s| == i + 1 && s[i] == '/')
  {
    if !options.strict {
      MatchOne(FINAL_SLASH, s, i, k, []);
      FinalSlashMatches(s, i, k, []);
    }
  }

  lemma CloseMatches(options: Options, slash: bool, s: string, k: nat)
    requires k <= |s|
    ensures MatchAlt(Close(options, slash), s, k, |s|, []) <==> k == |s|
  {
    MatchOne(End, s, k, |s|, []);
    MatchOne(BOUNDARY, s, k, |s|, []);
    BoundaryAtEnd(s, k, []);
    BoundaryShape();
  }

  /** The tail matches the end of the path, whether or not END is set: nothing is left,
      or in non-strict mode one slash. */
  lemma TailMatches(options: Options, slash: bool, s: string, i: nat, c: seq<string>)
    requires i <= |s|
    ensures MatchAlt(TailAlt(options, slash), s, i, |s|, c) <==>
            c == [] && (i == |s| || (!options.strict && i + 1 == |s| && s[i] == '/'))
  {
    hide MatchTerm, MatchRe, MatchAtom, MatchMany, MatchAlt, TextAlt, TextTerm, Append, Open, Close, WellFormedAlt;
    TailShape(options, slash);
    var n, open, close := |s|, Open(options), Close(options, slash);
    assert TailAlt(options, slash) == Append(open, close);
    if MatchAlt(Append(open, close), s, i, n, c) {
      var k := SplitAppend(open, close, s, i, n, c);
      TextAppend(open, close);
      assert c == [] && c[..GroupsAlt(open)] == [] && c[GroupsAlt(open)..] == [];
      OpenMatches(options, s, i, k);
      CloseMatches(options, slash, s, k);
    }
    if c == [] && (i == n || (!options.strict && i + 1 == n && s[i] == '/')) {
      OpenMatches(options, s, i, n);
      CloseMatches(options, slash, s, n);
      JoinAppend(open, close, s, i, n, n, c, c);
      assert c + c == c;
    }
  }

  lemma RestMatches(prefix: string, s: string, i: nat, c: seq<string>)
    requires i <= |s|
    ensures MatchAlt(Append(Literal(prefix), One(REST_CAPTURE)), s, i, |s|, c) <==>
            |c| == 1 && s[i..] == prefix + c[0] && NoLineBreak(c[0])
  {
    hide MatchAlt, MatchMany, Append, Literal, TextAtom, TextTerm;
    var j := |s|;
    assert s[i..j] == s[i..];
    PrefixedMatches(prefix, REST_CAPTURE, s, i, j, c);
    OneShape(Rep(Dot, Many(false)));
    ParensShape(REST_RE.alt, Once);
    if prefix <= s[i..j] {
      var m := i + |prefix|;
      assert s[i..j] == prefix + s[m..j];
      if |c| == 1 {
        RestMeans(s, m, j, c[1..]);
        assert MatchTerm(REST_CAPTURE, s, m, j, c) <==> MatchAtom(REST_CAPTURE.atom, s, m, j, c);
        assert MatchAtom(REST_CAPTURE.atom, s, m, j, c) <==> c[0] == s[m..j] && MatchRe(REST_RE, s, m, j, c[1..]);
      }
    }
  }

  // ----- the main theorem -----

  /** Compilation preserves meaning: the compiled tree matches the whole path with the
      texts `c` in its groups exactly when the path means the tokens with the values `c`.
      The n-th group therefore holds the value of the n-th parameter. */
  lemma CompilationPreservesMeaning(ts: seq<Key>, options: Options, path: string, c: seq<string>)
    requires AllWellFormed(ts)
    ensures Accepts(RouteRe(ts, options), path, c) <==> RouteMeans(ts, options, path, c)
  {
    StartMatches(RouteAlt(ts, options), path, c);
    if MatchAlt(RouteAlt(ts, options), path, 0, |path|, c) {
      if TakesRest(ts, options) {
        RestRouteFound(ts, options, path, c);
      } else {
        BodyRouteFound(ts, options, path, c);
      }
    }
    if RouteMeans(ts, options, path, c) {
      if TakesRest(ts, options) {
        RestRouteMade(ts, options, path, c);
      } else {
        BodyRouteMade(ts, options, path, c);
      }
    }
  }

  lemma StartMatches(a: Alt, s: string, c: seq<string>)
    ensures Accepts(Just(Cons(Start, a)), s, c) <==> MatchAlt(a, s, 0, |s|, c)
  {
    assert GroupsTerm(Start) == 0;
    assert GroupsAlt(Cons(Start, a)) == GroupsAlt(a) == GroupsRe(Just(Cons(Start, a)));
    assert c[..0] == [] && c[0..] == c;
    if Accepts(Just(Cons(Start, a)), s, c) {
      assert MatchAlt(Cons(Start, a), s, 0, |s|, c);
      var k := SplitCons(Start, a, s, 0, |s|, c);
    }
    if MatchAlt(a, s, 0, |s|, c) {
      assert MatchTerm(Start, s, 0, 0, c[..0]) && MatchAlt(a, s, 0, |s|, c[0..]);
      assert MatchAlt(Cons(Start, a), s, 0, |s|, c);
    }
  }

  lemma RestRouteFound(ts: seq<Key>, options: Options, path: string, c: seq<string>)
    requires AllWellFormed(ts) && TakesRest(ts, options)
    requires MatchAlt(RouteAlt(ts, options), path, 0, |path|, c)
    ensures RouteMeans(ts, options, path, c)
  {
    hide MatchRe, MatchAlt, MatchTerm, MatchAtom, MatchMany, TokensMean, PlainPattern, TokensAlt, Literal, Append;
    var init, last, n := ts[..|ts| - 1], ts[|ts| - 1], |path|;
    var a, b := TokensAlt(init), Append(Literal(last.prefix), One(REST_CAPTURE));
    var g := GroupsAlt(a);
    var k := SplitAppend(a, b, path, 0, n, c);
    RestShape(last.prefix);
    TokensMatch(init, path, 0, k, c[..g]);
    RestMatches(last.prefix, path, k, c[g..]);
    assert path[0..k] == path[..k] && c[..|c| - 1] == c[..g] && c[g..][0] == c[|c| - 1];
  }

  lemma RestCut(ts: seq<Key>, options: Options, path: string, c: seq<string>) returns (k: nat)
    requires AllWellFormed(ts) && TakesRest(ts, options) && RouteMeans(ts, options, path, c)
    ensures k <= |path| && c != [] && NoLineBreak(c[|c| - 1])
    ensures path[k..] == ts[|ts| - 1].prefix + c[|c| - 1]
    ensures TokensMean(ts[..|ts| - 1], path[..k], c[..|c| - 1])
  {
    hide TokensMean, PlainPattern;
    k :| 0 <= k <= |path| && path[k..] == ts[|ts| - 1].prefix + c[|c| - 1] &&
      TokensMean(ts[..|ts| - 1], path[..k], c[..|c| - 1]);
  }

  lemma RestRouteMade(ts: seq<Key>, options: Options, path: string, c: seq<string>)
    requires AllWellFormed(ts) && TakesRest(ts, options) && RouteMeans(ts, options, path, c)
    ensures MatchAlt(RouteAlt(ts, options), path, 0, |path|, c)
  {
    hide MatchRe, MatchAlt, MatchTerm, MatchAtom, MatchMany, GroupsRe, GroupsAlt, GroupsTerm, GroupsAtom,
      TokensMean, PlainPattern, TokensAlt, Literal, Append, RouteMeans, NoLineBreak;
    var init, last, n := ts[..|ts| - 1], ts[|ts| - 1], |path|;
    var k := RestCut(ts, options, path, c);
    var values, value := c[..|c| - 1], c[|c| - 1];
    assert path[0..k] == path[..k];
    TokensMatch(init, path, 0, k, values);
    RestMatches(last.prefix, path, k, [value]);
    JoinAppend(TokensAlt(init), Append(Literal(last.prefix), One(REST_CAPTURE)), path, 0, k, n, values, [value]);
    assert values + [value] == c;
  }

  /** Where the tokens end and the optional slash begins. */
  lemma BodyEnd(body: seq<Key>, options: Options, slash: bool, path: string, c: seq<string>) returns (k: nat)
    requires Compilable(body)
    requires MatchAlt(Append(TokensAlt(body), TailAlt(options, slash)), path, 0, |path|, c)
    ensures k == |path| || (!options.strict && k + 1 == |path| && path[k] == '/')
    ensures TokensMean(body, path[..k], c)
  {
    hide MatchRe, MatchAlt, MatchTerm, MatchAtom, MatchMany, GroupsRe, GroupsAlt, GroupsTerm, GroupsAtom,
      TokensMean, PlainPattern, TokensAlt, Append;
    k := SplitAppend(TokensAlt(body), TailAlt(options, slash), path, 0, |path|, c);
    var g := GroupsAlt(TokensAlt(body));
    TailMatches(options, slash, path, k, c[g..]);
    assert c[..g] == c && path[0..k] == path[..k];
    TokensMatch(body, path, 0, k, c);
  }

  lemma BodyRouteFound(ts: seq<Key>, options: Options, path: string, c: seq<string>)
    requires AllWellFormed(ts) && !TakesRest(ts, options)
    requires MatchAlt(RouteAlt(ts, options), path, 0, |path|, c)
    ensures RouteMeans(ts, options, path, c)
  {
    hide MatchRe, MatchAlt, MatchTerm, MatchAtom, MatchMany, GroupsRe, GroupsAlt, GroupsTerm, GroupsAtom,
      TokensMean, PlainPattern, TokensAlt, Append;
    var k := BodyEnd(Body(ts, options), options, EndsWithSlash(ts), path, c);
    assert path[..|path|] == path;
  }

  lemma BodyRouteMade(ts: seq<Key>, options: Options, path: string, c: seq<string>)
    requires AllWellFormed(ts) && !TakesRest(ts, options) && RouteMeans(ts, options, path, c)
    ensures MatchAlt(RouteAlt(ts, options), path, 0, |path|, c)
  {
    hide MatchRe, MatchAlt, MatchTerm, MatchAtom, MatchMany, GroupsRe, GroupsAlt, GroupsTerm, GroupsAtom,
      TokensMean, PlainPattern, TokensAlt, Append;
    var body, slash, n := Body(ts, options), EndsWithSlash(ts), |path|;
    var k := if TokensMean(body, path, c) then n else n - 1;
    assert path[0..k] == path[..k] && path[..n] == path;
    TokensMatch(body, path, 0, k, c);
    TailMatches(options, slash, path, k, []);
    JoinAppend(TokensAlt(body), TailAlt(options, slash), path, 0, k, n, c, []);
    assert c + [] == c;
  }

  /** The whole-string demand of regex_match makes END irrelevant. */
  lemma EndIsIrrelevant(ts: seq<Key>, options: Options, path: string, c: seq<string>)
    requires AllWellFormed(ts)
    ensures Accepts(RouteRe(ts, options.(end := true)), path, c) <==>
            Accepts(RouteRe(ts, options.(end := false)), path, c)
  {
    CompilationPreservesMeaning(ts, options.(end := true), path, c);
    CompilationPreservesMeaning(ts, options.(end := false), path, c);
  }

  // ----- the final slash and the rest -----

  lemma HeadJoined(ts: seq<Key>, w: string, m: nat, v: seq<string>, c: seq<string>)
    requires Compilable(ts) && ts != [] && m <= |w| && v <= c
    requires HeadMeans(ts[0], w[..m], v) && TokensMean(ts[1..], w[m..], c[|v|..])
    ensures TokensMean(ts, w, c)
  {
    hide ParameterMeans, PlainPattern;
    if ts[0].isString {
      assert c[0..] == c && m == |ts[0].value.s|;
    } else {
      assert c[0] == v[0];
    }
  }

  lemma OneLiteral(k: Key, w: string, vs: seq<string>)
    requires k.isString && k.value.Named?
    ensures Compilable([k]) && (TokensMean([k], w, vs) <==> w == k.value.s && vs == [])
  {
    assert [k][1..] == [];
    if k.value.s <= w {
      assert w == k.value.s + w[|k.value.s|..];
    }
  }

  lemma CutLast(w: string, k: nat)
    requires k < |w|
    ensures w[k..] != "" && w[k..][|w[k..]| - 1] == w[|w| - 1]
    ensures w[k..][..|w[k..]| - 1] == w[..|w| - 1][k..] && w[..|w| - 1][..k] == w[..k]
  {
  }

  /** `long` is the literal `short` with a slash more. */
  predicate IsLonger(long: Key, short: Key) {
    && long.isString && short.isString && long.value.Named? && short.value.Named?
    && long.value.s == short.value.s + "/"
  }

  lemma OneMoreToken(init: seq<Key>, k: Key)
    requires init != [] && Compilable(init + [k])
    ensures var ts := init + [k];
            && ts != [] && ts[0] == init[0] && ts[1..] == init[1..] + [k]
            && CompilableToken(init[0]) && Compilable(init[1..] + [k])
  {
    hide CompilableToken;
    var ts := init + [k];
    assert ts[1..] == init[1..] + [k] && CompilableToken(ts[0]);
    assert forall i :: 0 <= i < |ts[1..]| ==> ts[1..][i] == ts[i + 1];
  }

  lemma {:induction false} LongerFound(init: seq<Key>, long: Key, short: Key, w: string, vs: seq<string>)
    requires IsLonger(long, short) && Compilable(init + [long]) && Compilable(init + [short])
    requires TokensMean(init + [long], w, vs)
    ensures w != "" && w[|w| - 1] == '/' && TokensMean(init + [short], w[..|w| - 1], vs)
    decreases |init|
  {
    if init == [] {
      assert init + [long] == [long] && init + [short] == [short];
      OneLiteral(long, w, vs);
      OneLiteral(short, short.value.s, vs);
      assert w[..|w| - 1] == short.value.s;
    } else {
      hide TokensMean, HeadMeans, CompilableToken, Compilable, IsLonger;
      OneMoreToken(init, long);
      OneMoreToken(init, short);
      var m, v := HeadFound(init + [long], w, vs);
      LongerFound(init[1..], long, short, w[m..], vs[|v|..]);
      CutLast(w, m);
      HeadJoined(init + [short], w[..|w| - 1], m, v, vs);
    }
  }

  lemma {:induction false} LongerMade(init: seq<Key>, long: Key, short: Key, w: string, vs: seq<string>)
    requires IsLonger(long, short) && Compilable(init + [long]) && Compilable(init + [short])
    requires TokensMean(init + [short], w, vs)
    ensures TokensMean(init + [long], w + "/", vs)
    decreases |init|
  {
    if init == [] {
      assert init + [long] == [long] && init + [short] == [short];
      OneLiteral(short, w, vs);
      OneLiteral(long, w + "/", vs);
    } else {
      hide TokensMean, HeadMeans, CompilableToken, Compilable, IsLonger;
      OneMoreToken(init, long);
      OneMoreToken(init, short);
      var m, v := HeadFound(init + [short], w, vs);
      LongerMade(init[1..], long, short, w[m..], vs[|v|..]);
      AddLast(w, m);
      HeadJoined(init + [long], w + "/", m, v, vs);
    }
  }

  lemma AddLast(w: string, k: nat)
    requires k <= |w|
    ensures (w + "/")[k..] == w[k..] + "/" && (w + "/")[..k] == w[..k]
  {
  }

  /** A route whose mask ends with a slash accepts the paths that mean the mask, and in non-strict
      mode also those that mean it but for that slash. */
  lemma FinalSlashRule(ts: seq<Key>, options: Options, path: string, c: seq<string>)
    requires AllWellFormed(ts) && ts != [] && ts[|ts| - 1].isString
    requires var text := ts[|ts| - 1].value.s; text[|text| - 1] == '/'
    ensures Accepts(RouteRe(ts, options), path, c) <==>
            TokensMean(ts, path, c) || (!options.strict && TokensMean(ts, path + "/", c))
  {
    hide PlainPattern, RouteRe, Accepts, TokensMean;
    CompilationPreservesMeaning(ts, options, path, c);
    if !options.strict {
      var init, last := ts[..|ts| - 1], ts[|ts| - 1];
      var short := AsString(last.value.s[..|last.value.s| - 1]);
      assert ts == init + [last] && Body(ts, options) == init + [short];
      SlashDropped(init, last, short, path, c);
    }
  }

  lemma SlashDropped(init: seq<Key>, long: Key, short: Key, path: string, c: seq<string>)
    requires IsLonger(long, short) && Compilable(init + [long]) && Compilable(init + [short])
    ensures TokensMean(init + [short], path, c) <==> TokensMean(init + [long], path + "/", c)
    ensures path != "" && path[|path| - 1] == '/' ==>
              (TokensMean(init + [short], path[..|path| - 1], c) <==> TokensMean(init + [long], path, c))
    ensures TokensMean(init + [long], path, c) ==> path != "" && path[|path| - 1] == '/'
  {
    hide TokensMean, PlainPattern;
    assert (path + "/")[..|path|] == path;
    if TokensMean(init + [short], path, c) {
      LongerMade(init, long, short, path, c);
    }
    if TokensMean(init + [long], path + "/", c) {
      LongerFound(init, long, short, path + "/", c);
    }
    if TokensMean(init + [long], path, c) {
      LongerFound(init, long, short, path, c);
    }
    if path != "" && path[|path| - 1] == '/' && TokensMean(init + [short], path[..|path| - 1], c) {
      LongerMade(init, long, short, path[..|path| - 1], c);
      assert path[..|path| - 1] + "/" == path;
    }
  }

  /** Any other route accepts the paths that mean the mask, and in non-strict mode also those with
      one more slash. */
  lemma NoFinalSlashRule(ts: seq<Key>, options: Options, path: string, c: seq<string>)
    requires AllWellFormed(ts)
    requires ts != [] && ts[|ts| - 1].isString ==> var text := ts[|ts| - 1].value.s; text[|text| - 1] != '/'
    requires ts != [] && options.takeRest ==> ts[|ts| - 1].isString
    ensures Accepts(RouteRe(ts, options), path, c) <==>
            || TokensMean(ts, path, c)
            || (!options.strict && path != "" && path[|path| - 1] == '/' && TokensMean(ts, path[..|path| - 1], c))
  {
    hide PlainPattern, RouteRe, Accepts, TokensMean;
    CompilationPreservesMeaning(ts, options, path, c);
  }

  /** A route that takes the rest accepts a path when all tokens but the last mean a beginning of
      it, and its last value is everything on one line after that token's prefix. */
  lemma RestRule(init: seq<Key>, last: Key, options: Options, path: string, c: seq<string>)
    requires AllWellFormed(init + [last]) && AllWellFormed(init) && !last.isString && options.takeRest
    ensures Accepts(RouteRe(init + [last], options), path, c) <==>
            exists k :: 0 <= k <= |path| && c != [] && TokensMean(init, path[..k], c[..|c| - 1]) &&
                        path[k..] == last.prefix + c[|c| - 1] && NoLineBreak(c[|c| - 1])
  {
    hide PlainPattern, RouteRe, Accepts, TokensMean;
    var ts := init + [last];
    CompilationPreservesMeaning(ts, options, path, c);
    assert ts[..|ts| - 1] == init && ts[|ts| - 1] == last;
  }

  /** A mask without parameters accepts itself; in non-strict mode its final slash may be missing,
      or one may be added. */
  lemma LiteralRoute(w: string, options: Options, path: string, c: seq<string>)
    requires w != "" && w[|w| - 1] != '/'
    ensures Accepts(RouteRe([AsString(w)], options), path, c) <==>
            c == [] && (path == w || (!options.strict && path == w + "/"))
    ensures Accepts(RouteRe([AsString(w + "/")], options), path, c) <==>
            c == [] && (path == w + "/" || (!options.strict && path == w))
  {
    hide RouteRe, Accepts, TokensMean, PlainPattern;
    var short, long := AsString(w), AsString(w + "/");
    assert AllWellFormed([short]) && AllWellFormed([long]);
    NoFinalSlashRule([short], options, path, c);
    FinalSlashRule([long], options, path, c);
    OneLiteral(short, path, c);
    OneLiteral(long, path, c);
    OneLiteral(long, path + "/", c);
    assert path + "/" == w + "/" <==> path == w by {
      assert (path + "/")[..|path|] == path && (w + "/")[..|w|] == w;
      assert |path + "/"| == |path| + 1 && |w + "/"| == |w| + 1;
    }
    if path != "" {
      OneLiteral(short, path[..|path| - 1], c);
      assert path[|path| - 1] == '/' ==> path == path[..|path| - 1] + "/";
    }
    assert (w + "/")[..|w|] == w && (w + "/")[|w|] == '/';
  }
}
