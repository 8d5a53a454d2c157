/** From tokens to the text of a regular expression, and the tree that text denotes. */
module PathCompiler {
  import opened Wrappers
  import opened Regex
  import opened RegexReader
  import opened PathKeys

  // ----- patterns -----

  /** A pattern that can stand inside a route: it reads as a tree with no capture group
      and no anchor, and is the tree's own text. */
  predicate PlainPattern(pattern: string) {
    Read(pattern).Some? && var r := Read(pattern).value;
    TextRe(r) == pattern && WellFormedRe(r) && GroupsRe(r) == 0 && AnchorlessRe(r)
  }

  /** What the scanner writes for a parameter without a pattern of its own. */
  function SegmentPattern(delimiter: string): string {
    "[^" + EscapeString(delimiter) + "]+?"
  }

  predicate WellFormed(k: Key) {
    ProperToken(k) && (!k.isString ==> PlainPattern(k.pattern))
  }

  predicate AllWellFormed(ts: seq<Key>) {
    forall i :: 0 <= i < |ts| ==> WellFormed(ts[i])
  }

  function SegmentRe(delimiter: string): Re {
    Just(One(Rep(Brackets(true, Singles(delimiter)), Several(true))))
  }

  const REST_RE: Re := Just(One(Rep(Dot, Many(false))))

  /** Both default patterns are plain, for every delimiter without a hyphen. */
  lemma DefaultPatternsArePlain(delimiter: string)
    requires '-' !in delimiter
    ensures PlainPattern(".*") && Read(".*") == Some(REST_RE)
    ensures PlainPattern(SegmentPattern(delimiter))
    ensures Read(SegmentPattern(delimiter)) == Some(SegmentRe(delimiter))
  {
    hide Read, ReadRe;
    RestPatternReads();
    SegmentPatternReads(delimiter);
    hide SegmentPattern, SegmentRe, REST_RE;
  }

  lemma RestPatternReads()
    ensures Read(".*") == Some(REST_RE) && PlainPattern(".*")
  {
    hide Read, ReadRe;
    var rest := Rep(Dot, Many(false));
    OneShape(rest);
    assert TextTerm(rest) == ".*";
    ReadText(REST_RE);
    assert GroupsRe(REST_RE) == 0 && AnchorlessRe(REST_RE);
  }

  lemma SegmentPatternReads(delimiter: string)
    requires '-' !in delimiter
    ensures Read(SegmentPattern(delimiter)) == Some(SegmentRe(delimiter)) && PlainPattern(SegmentPattern(delimiter))
  {
    hide Read, ReadRe, EscapeString, TextItems;
    var segment := Rep(Brackets(true, Singles(delimiter)), Several(true));
    OneShape(segment);
    TextSingles(delimiter);
    assert TextTerm(segment) == "[^" + (EscapeString(delimiter) + "]") + ("+" + "?");
    assert TextTerm(segment) == SegmentPattern(delimiter);
    ReadText(SegmentRe(delimiter));
    assert GroupsRe(SegmentRe(delimiter)) == 0 && AnchorlessRe(SegmentRe(delimiter));
  }

  // ----- the intended tree -----

  function PatternAtom(k: Key): Atom
    requires PlainPattern(k.pattern)
  {
    Group(Read(k.pattern).value)
  }

  /** The inside of a parameter's capture group. */
  function ValueAlt(k: Key): Alt
    requires PlainPattern(k.pattern)
  {
    var pattern := Rep(PatternAtom(k), Once);
    Cons(pattern,
         if k.repeat
         then One(Rep(Group(Just(Append(Literal(k.prefix), One(pattern)))), Many(false)))
         else Nil)
  }

  function ParameterAlt(k: Key): Alt
    requires PlainPattern(k.pattern)
  {
    var capture := Capture(Just(ValueAlt(k)));
    if !k.optional then Append(Literal(k.prefix), One(Rep(capture, Once)))
    else if k.partial then Append(Literal(k.prefix), One(Rep(capture, Optional(false))))
    else One(Rep(Group(Just(Append(Literal(k.prefix), One(Rep(capture, Once))))), Optional(false)))
  }

  /** What the tree needs of a token; a literal may have become empty. */
  predicate CompilableToken(k: Key) {
    (k.isString ==> k.value.Named?) && (!k.isString ==> PlainPattern(k.pattern))
  }

  function TokenAlt(k: Key): Alt
    requires CompilableToken(k)
  {
    if k.isString then Literal(k.value.s) else ParameterAlt(k)
  }

  predicate Compilable(ts: seq<Key>) {
    forall i :: 0 <= i < |ts| ==> CompilableToken(ts[i])
  }

  function TokensAlt(ts: seq<Key>): Alt
    requires Compilable(ts)
  {
    if ts == [] then Nil else Append(TokenAlt(ts[0]), TokensAlt(ts[1..]))
  }

  const SLASH: Term := Rep(Chr('/'), Once)

  /** `(?:\/(?=$))?` */
  const FINAL_SLASH: Term :=
    Rep(Group(Just(Cons(SLASH, One(Ahead(Just(One(End))))))), Optional(false))

  /** `(?=\/|$)` */
  const BOUNDARY: Term := Ahead(Or(One(SLASH), Just(One(End))))

  /** `(.*)` */
  const REST_CAPTURE: Term := Rep(Capture(REST_RE), Once)

  /** What follows the tokens when none of them takes the rest of the path. */
  function TailAlt(options: Options, endsWithSlash: bool): Alt {
    Append(Open(options), Close(options, endsWithSlash))
  }

  function Open(options: Options): Alt {
    if options.strict then Nil else One(FINAL_SLASH)
  }

  function Close(options: Options, endsWithSlash: bool): Alt {
    if options.end then One(End)
    else if !options.strict || !endsWithSlash then One(BOUNDARY)
    else Nil
  }

  /** The tokens compiled one by one: in non-strict mode a final slash is left to the tail. */
  function Body(ts: seq<Key>, options: Options): (body: seq<Key>)
    requires AllWellFormed(ts)
    ensures Compilable(body)
  {
    if !options.strict && EndsWithSlash(ts) then DropFinalSlash(ts) else ts
  }

  function RouteAlt(ts: seq<Key>, options: Options): Alt
    requires AllWellFormed(ts)
  {
    if TakesRest(ts, options) then
      Append(TokensAlt(ts[..|ts| - 1]), Append(Literal(ts[|ts| - 1].prefix), One(REST_CAPTURE)))
    else
      Append(TokensAlt(Body(ts, options)), TailAlt(options, EndsWithSlash(ts)))
  }

  /** The tree a compiled route is meant to denote. */
  function RouteRe(ts: seq<Key>, options: Options): Re
    requires AllWellFormed(ts)
  {
    Just(Cons(Start, RouteAlt(ts, options)))
  }

  // ----- facts about the intended tree -----

  lemma {:induction false} TokensAltAppend(a: seq<Key>, b: seq<Key>)
    requires Compilable(a) && Compilable(b)
    ensures Compilable(a + b) && TokensAlt(a + b) == Append(TokensAlt(a), TokensAlt(b))
  {
    if a == [] {
      assert a + b == b;
    } else {
      assert (a + b)[1..] == a[1..] + b;
      TokensAltAppend(a[1..], b);
      AppendAssociative(TokenAlt(a[0]), TokensAlt(a[1..]), TokensAlt(b));
    }
  }

  lemma TokensAltSnoc(ts: seq<Key>, k: Key)
    requires Compilable(ts) && CompilableToken(k)
    ensures Compilable(ts + [k]) && TokensAlt(ts + [k]) == Append(TokensAlt(ts), TokenAlt(k))
  {
    assert Compilable([k]);
    TokensAltAppend(ts, [k]);
    assert [k][1..] == [];
    AppendNil(TokenAlt(k));
  }

  lemma {:induction false} WellFormedAppend(a: Alt, b: Alt)
    requires WellFormedAlt(a) && WellFormedAlt(b)
    ensures WellFormedAlt(Append(a, b))
  {
    match a
    case Nil =>
    case Cons(_, rest) => WellFormedAppend(rest, b);
  }

  lemma {:induction false} WellFormedLiteral(w: string)
    ensures WellFormedAlt(Literal(w))
  {
    if w != "" {
      WellFormedLiteral(w[1..]);
    }
  }

  /** `prefix` followed by a term. */
  lemma PrefixedShape(prefix: string, t: Term)
    ensures TextAlt(Append(Literal(prefix), One(t))) == EscapeString(prefix) + TextTerm(t)
    ensures GroupsAlt(Append(Literal(prefix), One(t))) == GroupsTerm(t)
    ensures WellFormedTerm(t) ==> WellFormedAlt(Append(Literal(prefix), One(t)))
  {
    OneShape(t);
    TextLiteral(prefix);
    TextAppend(Literal(prefix), One(t));
    WellFormedLiteral(prefix);
    if WellFormedTerm(t) {
      WellFormedAppend(Literal(prefix), One(t));
    }
  }

  lemma PatternShape(k: Key)
    requires PlainPattern(k.pattern)
    ensures var t := Rep(PatternAtom(k), Once);
            TextTerm(t) == "(?:" + k.pattern + ")" && GroupsTerm(t) == 0 && WellFormedTerm(t)
  {
    var t := Rep(PatternAtom(k), Once);
    assert TextAtom(t.atom) == "(?:" + k.pattern + ")";
    assert WellFormedAtom(t.atom) && GroupsAtom(t.atom) == 0;
  }

  /** A pattern and its prefixed repetitions. */
  lemma RepeatedShape(pattern: Term, prefix: string)
    requires WellFormedTerm(pattern) && GroupsTerm(pattern) == 0
    ensures var a := Cons(pattern, One(Rep(Group(Just(Append(Literal(prefix), One(pattern)))), Many(false))));
            && WellFormedAlt(a) && GroupsAlt(a) == 0
            && TextAlt(a) == TextTerm(pattern) + ("(?:" + EscapeString(prefix) + TextTerm(pattern) + ")*")
  {
    hide EscapeString, Literal, Append, TextRe, TextAtom;
    var again := Append(Literal(prefix), One(pattern));
    PrefixedShape(prefix, pattern);
    ParensShape(again, Many(false));
    var more := Rep(Group(Just(again)), Many(false));
    OneShape(more);
    assert TextTerm(more) == "(?:" + (EscapeString(prefix) + TextTerm(pattern)) + ")" + "*";
  }

  /** An escaped literal reads back as exactly its characters, and matches nothing else. */
  lemma EscapedLiteralMeansItself(w: string, s: string, c: seq<string>)
    ensures Read(EscapeString(w)) == Some(Just(Literal(w)))
    ensures Accepts(Just(Literal(w)), s, c) <==> c == [] && s == w
  {
    TextLiteral(w);
    WellFormedLiteral(w);
    ReadText(Just(Literal(w)));
    MatchLiteral(w, s, 0, |s|, c);
    assert s[0..|s|] == s;
  }

  lemma ValueShape(k: Key)
    requires PlainPattern(k.pattern)
    ensures WellFormedAlt(ValueAlt(k)) && GroupsAlt(ValueAlt(k)) == 0
    ensures var pattern := "(?:" + k.pattern + ")";
            TextAlt(ValueAlt(k)) ==
            if k.repeat then pattern + ("(?:" + EscapeString(k.prefix) + pattern + ")*") else pattern
  {
    PatternShape(k);
    if k.repeat {
      RepeatedShape(Rep(PatternAtom(k), Once), k.prefix);
    } else {
      OneShape(Rep(PatternAtom(k), Once));
    }
  }

  /** How often the capture group of a parameter may be matched. */
  function CaptureCount(k: Key): Count {
    if k.optional && k.partial then Optional(false) else Once
  }

  lemma ParameterShape(k: Key)
    requires PlainPattern(k.pattern)
    ensures WellFormedAlt(ParameterAlt(k)) && GroupsAlt(ParameterAlt(k)) == 1
    ensures var inner := EscapeString(k.prefix) + ("(" + TextAlt(ValueAlt(k)) + ")" + TextCount(CaptureCount(k)));
            TextAlt(ParameterAlt(k)) == if k.optional && !k.partial then "(?:" + inner + ")" + "?" else inner
  {
    hide TextRe, TextAlt, TextTerm, TextAtom, EscapeString, EscapeChar, GroupsRe, GroupsAlt, GroupsTerm,
      GroupsAtom, WellFormedRe, WellFormedAlt, WellFormedTerm, WellFormedAtom, PlainPattern, Literal, Append, ValueAlt;
    ValueShape(k);
    var n := CaptureCount(k);
    var capture := Rep(Capture(Just(ValueAlt(k))), n);
    ParensShape(ValueAlt(k), n);
    PrefixedShape(k.prefix, capture);
    if k.optional && !k.partial {
      var whole := Append(Literal(k.prefix), One(capture));
      ParensShape(whole, Optional(false));
      OneShape(Rep(Group(Just(whole)), Optional(false)));
      assert TextCount(Optional(false)) == "?";
    }
  }

  lemma {:induction false} TokensShape(ts: seq<Key>)
    requires Compilable(ts)
    ensures WellFormedAlt(TokensAlt(ts)) && GroupsAlt(TokensAlt(ts)) == |Parameters(ts)|
  {
    if ts != [] {
      TokensShape(ts[1..]);
      if ts[0].isString {
        WellFormedLiteral(ts[0].value.s);
        TextLiteral(ts[0].value.s);
      } else {
        ParameterShape(ts[0]);
      }
      WellFormedAppend(TokenAlt(ts[0]), TokensAlt(ts[1..]));
      TextAppend(TokenAlt(ts[0]), TokensAlt(ts[1..]));
    }
  }

  function SlashText(options: Options): string {
    if options.strict then "" else "(?:\\/(?=$))?"
  }

  function EndText(options: Options, slash: bool): string {
    if options.end then "$" else if !options.strict || !slash then "(?=\\/|$)" else ""
  }

  lemma EscapeSlash()
    ensures EscapeString("/") == "\\/"
  {
    assert EscapeString("/") == EscapeChar('/') + EscapeString("/"[1..]);
  }

  lemma FinalSlashShape()
    ensures TextTerm(FINAL_SLASH) == "(?:\\/(?=$))?"
    ensures GroupsTerm(FINAL_SLASH) == 0 && WellFormedTerm(FINAL_SLASH)
  {
    EscapeSlash();
    assert TextTerm(SLASH) == "\\/";
    OneShape(End);
    var ahead := Ahead(Just(One(End)));
    OneShape(ahead);
    assert TextTerm(ahead) == "(?=$)";
    assert WellFormedRe(Just(One(End))) && GroupsRe(Just(One(End))) == 0;
    var inside := Cons(SLASH, One(ahead));
    assert TextAlt(inside) == "\\/" + "(?=$)";
    assert WellFormedTerm(SLASH) && WellFormedAlt(inside) && GroupsAlt(inside) == 0;
    ParensShape(inside, Optional(false));
  }

  lemma BoundaryShape()
    ensures TextTerm(BOUNDARY) == "(?=\\/|$)"
    ensures GroupsTerm(BOUNDARY) == 0 && WellFormedTerm(BOUNDARY)
  {
    EscapeSlash();
    assert TextTerm(SLASH) == "\\/";
    OneShape(SLASH);
    OneShape(End);
    assert TextRe(BOUNDARY.re) == "\\/" + "|" + "$";
    assert WellFormedTerm(SLASH) && WellFormedRe(Just(One(End))) && GroupsRe(Just(One(End))) == 0;
  }

  lemma TailShape(options: Options, slash: bool)
    ensures WellFormedAlt(TailAlt(options, slash)) && GroupsAlt(TailAlt(options, slash)) == 0
    ensures TextAlt(TailAlt(options, slash)) == SlashText(options) + EndText(options, slash)
  {
    FinalSlashShape();
    BoundaryShape();
    OneShape(FINAL_SLASH);
    OneShape(BOUNDARY);
    OneShape(End);
    assert Append(Nil, One(End)) == One(End) && Append(Nil, One(BOUNDARY)) == One(BOUNDARY);
    assert forall a :: Append(One(FINAL_SLASH), a) == Cons(FINAL_SLASH, a);
  }

  /** The texts that STRICT and END append, for every combination. */
  lemma TailTexts(slash: bool, takeRest: bool)
    ensures TextAlt(TailAlt(Options(true, true, takeRest), slash)) == "$"
    ensures TextAlt(TailAlt(Options(true, false, takeRest), true)) == ""
    ensures TextAlt(TailAlt(Options(true, false, takeRest), false)) == "(?=\\/|$)"
    ensures TextAlt(TailAlt(Options(false, true, takeRest), slash)) == "(?:\\/(?=$))?$"
    ensures TextAlt(TailAlt(Options(false, false, takeRest), slash)) == "(?:\\/(?=$))?(?=\\/|$)"
  {
    hide TailAlt, TextAlt;
    TailShape(Options(true, true, takeRest), slash);
    TailShape(Options(true, false, takeRest), true);
    TailShape(Options(true, false, takeRest), false);
    TailShape(Options(false, true, takeRest), slash);
    TailShape(Options(false, false, takeRest), slash);
  }

  lemma RestShape(prefix: string)
    ensures var a := Append(Literal(prefix), One(REST_CAPTURE));
            WellFormedAlt(a) && GroupsAlt(a) == 1 && TextAlt(a) == EscapeString(prefix) + "(.*)"
  {
    OneShape(Rep(Dot, Many(false)));
    ParensShape(REST_RE.alt, Once);
    PrefixedShape(prefix, REST_CAPTURE);
  }

  lemma RestRouteShape(ts: seq<Key>, options: Options)
    requires AllWellFormed(ts) && TakesRest(ts, options)
    ensures WellFormedAlt(RouteAlt(ts, options)) && GroupsAlt(RouteAlt(ts, options)) == |Parameters(ts)|
    ensures TextAlt(RouteAlt(ts, options)) ==
            TextAlt(TokensAlt(ts[..|ts| - 1])) + (EscapeString(ts[|ts| - 1].prefix) + "(.*)")
  {
    hide EscapeString, Literal, Append, TextRe, TextAtom, TokensAlt, PlainPattern;
    var init, last := ts[..|ts| - 1], ts[|ts| - 1];
    assert ts[..|ts| - 1 + 1] == ts;
    ParametersSnoc(ts, |ts| - 1);
    TokensShape(init);
    RestShape(last.prefix);
    WellFormedAppend(TokensAlt(init), Append(Literal(last.prefix), One(REST_CAPTURE)));
    TextAppend(TokensAlt(init), Append(Literal(last.prefix), One(REST_CAPTURE)));
  }

  lemma BodyRouteShape(ts: seq<Key>, options: Options)
    requires AllWellFormed(ts) && !TakesRest(ts, options)
    ensures WellFormedAlt(RouteAlt(ts, options)) && GroupsAlt(RouteAlt(ts, options)) == |Parameters(ts)|
    ensures TextAlt(RouteAlt(ts, options)) ==
            TextAlt(TokensAlt(Body(ts, options))) + TextAlt(TailAlt(options, EndsWithSlash(ts)))
  {
    hide EscapeString, Literal, Append, TextRe, TextAtom, TokensAlt, PlainPattern;
    var body, tail := Body(ts, options), TailAlt(options, EndsWithSlash(ts));
    if EndsWithSlash(ts) {
      DropKeepsParameters(ts);
    }
    TokensShape(body);
    TailShape(options, EndsWithSlash(ts));
    WellFormedAppend(TokensAlt(body), tail);
    TextAppend(TokensAlt(body), tail);
  }

  /** The tree is well formed, its groups belong to the parameters one by one, and this
      is its text. */
  lemma RouteShape(ts: seq<Key>, options: Options)
    requires AllWellFormed(ts)
    ensures WellFormedRe(RouteRe(ts, options)) && GroupsRe(RouteRe(ts, options)) == |Parameters(ts)|
    ensures TextRe(RouteRe(ts, options)) == "^" +
            if TakesRest(ts, options)
            then TextAlt(TokensAlt(ts[..|ts| - 1])) + (EscapeString(ts[|ts| - 1].prefix) + "(.*)")
            else TextAlt(TokensAlt(Body(ts, options))) + TextAlt(TailAlt(options, EndsWithSlash(ts)))
  {
    if TakesRest(ts, options) {
      RestRouteShape(ts, options);
    } else {
      BodyRouteShape(ts, options);
    }
    StartShape(RouteAlt(ts, options));
  }

  lemma StartShape(a: Alt)
    ensures var r := Just(Cons(Start, a));
            TextRe(r) == "^" + TextAlt(a) && GroupsRe(r) == GroupsAlt(a) && (WellFormedAlt(a) ==> WellFormedRe(r))
  {
    assert GroupsTerm(Start) == 0 && WellFormedTerm(Start) && TextTerm(Start) == "^";
    assert TextAlt(Cons(Start, a)) == TextTerm(Start) + TextAlt(a);
    assert GroupsAlt(Cons(Start, a)) == GroupsTerm(Start) + GroupsAlt(a);
    assert WellFormedAlt(a) ==> WellFormedAlt(Cons(Start, a));
  }

  lemma DropKeepsParameters(ts: seq<Key>)
    requires ProperTokens(ts) && EndsWithSlash(ts)
    ensures Parameters(DropFinalSlash(ts)) == Parameters(ts)
  {
    var last, init := ts[|ts| - 1], ts[..|ts| - 1];
    var dropped := DropFinalSlash(ts)[|ts| - 1];
    assert ts == init + [last] && DropFinalSlash(ts) == init + [dropped];
    ParametersAppend(init, [last]);
    ParametersAppend(init, [dropped]);
    assert [last][1..] == [] && [dropped][1..] == [];
  }

  // ----- the compiler -----

  /** Puts a backslash before every special character. */
  method Escape(s: string) returns (out: string)
    ensures out == EscapeString(s)
  {
    out := "";
    for i := 0 to |s|
      invariant out == EscapeString(s[..i])
    {
      if IsStringSpecial(s[i]) {
        out := out + ['\\'];
      }
      out := out + [s[i]];
      assert s[..i + 1] == s[..i] + [s[i]];
      EscapeAppend(s[..i], [s[i]]);
      assert EscapeString([s[i]]) == EscapeChar(s[i]) + EscapeString([s[i]][1..]);
    }
    assert s[..|s|] == s;
  }

  lemma TextSlashLast(text: string)
    requires text != "" && text[|text| - 1] == '/'
    ensures EscapeString(text) == EscapeString(text[..|text| - 1]) + "\\/"
  {
    hide EscapeString, EscapeChar, IsStringSpecial;
    var init := text[..|text| - 1];
    EscapeSlash();
    EscapeAppend(init, "/");
    assert text == init + "/";
  }

  /** The text of one parameter token. */
  method ParameterText(token: Key) returns (capture: string)
    ensures PlainPattern(token.pattern) ==> capture == TextAlt(ParameterAlt(token))
  {
    var prefix := Escape(token.prefix);
    capture := "(?:" + token.pattern + ")";
    if token.repeat {
      capture := capture + ("(?:" + prefix + capture + ")*");
    }
    ghost var value := capture;
    capture := "(" + capture + ")";
    ghost var group := capture;
    if token.optional {
      if token.partial {
        capture := prefix + (capture + "?");
      } else {
        capture := "(?:" + (prefix + capture) + ")" + "?";
      }
    } else {
      capture := prefix + capture;
    }
    if PlainPattern(token.pattern) {
      hide TextRe, TextAlt, TextTerm, EscapeString, EscapeChar, PlainPattern, ParameterAlt, ValueAlt;
      ValueShape(token);
      assert value == TextAlt(ValueAlt(token));
      ParameterShape(token);
      assert group + "" == group && "?" + "" == "?";
    }
  }

  /** Compiles the first `n` tokens one by one. */
  method CompileTokens(tokens: seq<Key>, n: nat) returns (route: string, keys: seq<Key>)
    requires ProperTokens(tokens) && n <= |tokens|
    ensures keys == Parameters(tokens[..n])
    ensures AllWellFormed(tokens) ==> Compilable(tokens[..n]) && route == TextAlt(TokensAlt(tokens[..n]))
    ensures n > 0 && tokens[n - 1].isString ==> |EscapeString(tokens[n - 1].value.s)| <= |route|
  {
    hide EscapeString, EscapeChar, IsStringSpecial, Literal, Append, PlainPattern, ReadRe, TextTerm, TextAtom,
      TextRe, ParameterAlt;
    route, keys := "", [];
    for i := 0 to n
      invariant keys == Parameters(tokens[..i])
      invariant AllWellFormed(tokens) ==> Compilable(tokens[..i]) && route == TextAlt(TokensAlt(tokens[..i]))
      invariant i > 0 && tokens[i - 1].isString ==> |EscapeString(tokens[i - 1].value.s)| <= |route|
    {
      var token := tokens[i];
      if token.isString {
        var text := Escape(token.value.s);
        route := route + text;
      } else {
        var capture := ParameterText(token);
        route := route + capture;
        keys := keys + [token];
      }
      ParametersSnoc(tokens, i);
      if AllWellFormed(tokens) {
        TextSnoc(tokens, i);
      }
    }
  }

  /** Compiles tokens.  The emitted text, read by the grammar, is the intended tree, and
      there are as many keys as the tree has capture groups. */
  method Make(tokens: seq<Key>, options: Options) returns (route: string, keys: seq<Key>)
    requires ProperTokens(tokens)
    ensures keys == Parameters(tokens)
    ensures AllWellFormed(tokens) ==>
              && Read(route) == Some(RouteRe(tokens, options))
              && GroupsRe(RouteRe(tokens, options)) == |keys|
  {
    hide EscapeString, EscapeChar, IsStringSpecial, Literal, Append, PlainPattern, ReadRe, Read, TextTerm, TextAlt,
      TokensAlt, TailAlt, RouteRe, GroupsRe, Parameters;
    var endsWithSlash := |tokens| > 0 && tokens[|tokens| - 1].isString &&
      var last := tokens[|tokens| - 1].value.s; last[|last| - 1] == '/';
    var rest := |tokens| > 0 && !tokens[|tokens| - 1].isString;
    if !options.takeRest || endsWithSlash {
      rest := false;
    }
    var endIt := if rest then |tokens| - 1 else |tokens|;
    route, keys := CompileTokens(tokens, endIt);
    assert tokens[..|tokens|] == tokens;
    if rest {
      var prefix := Escape(tokens[|tokens| - 1].prefix);
      route := route + (prefix + "(.*)");
      keys := keys + [tokens[|tokens| - 1]];
      ParametersSnoc(tokens, |tokens| - 1);
    } else {
      if endsWithSlash {
        TextSlashLast(tokens[|tokens| - 1].value.s);
      }
      if !options.strict {
        if endsWithSlash {
          ghost var all := route;
          route := route[..|route| - 1];
          route := route[..|route| - 1];
          if AllWellFormed(tokens) {
            DropText(tokens);
            assert route == all[..|all| - 2];
          }
        }
        assert AllWellFormed(tokens) ==> route == TextAlt(TokensAlt(Body(tokens, options)));
      }
      route := CloseRoute(route, options, endsWithSlash);
    }
    route := "^" + route;
    if AllWellFormed(tokens) {
      RouteShape(tokens, options);
      assert route == TextRe(RouteRe(tokens, options));
      ReadText(RouteRe(tokens, options));
    }
  }

  /** Appends the text of the tail: the tree that matches nothing but the end of the path, or
      in non-strict mode one slash before it. */
  method CloseRoute(open: string, options: Options, endsWithSlash: bool) returns (route: string)
    ensures route == open + TextAlt(TailAlt(options, endsWithSlash))
  {
    TailShape(options, endsWithSlash);
    route := open;
    if !options.strict {
      route := route + "(?:\\/(?=$))?";
    }
    if options.end {
      route := route + "$";
    } else if !options.strict || !endsWithSlash {
      route := route + "(?=\\/|$)";
    }
  }

  lemma TextSnoc(ts: seq<Key>, i: nat)
    requires AllWellFormed(ts) && i < |ts|
    ensures Compilable(ts[..i]) && Compilable(ts[..i + 1])
    ensures TextAlt(TokensAlt(ts[..i + 1])) ==
            TextAlt(TokensAlt(ts[..i])) +
            if ts[i].isString then EscapeString(ts[i].value.s) else TextAlt(ParameterAlt(ts[i]))
  {
    assert ts[..i + 1] == ts[..i] + [ts[i]];
    TokensAltSnoc(ts[..i], ts[i]);
    TextAppend(TokensAlt(ts[..i]), TokenAlt(ts[i]));
    if ts[i].isString {
      TextLiteral(ts[i].value.s);
    }
  }

  /** Popping two characters removes exactly the escaped final slash. */
  lemma DropText(ts: seq<Key>)
    requires AllWellFormed(ts) && EndsWithSlash(ts)
    ensures Compilable(DropFinalSlash(ts))
    ensures TextAlt(TokensAlt(ts)) == TextAlt(TokensAlt(DropFinalSlash(ts))) + "\\/"
  {
    hide TextRe, TextAlt, TextTerm, TextAtom, EscapeString, EscapeChar, Literal, Append, PlainPattern;
    var init, last := ts[..|ts| - 1], ts[|ts| - 1];
    var dropped := DropFinalSlash(ts)[|ts| - 1];
    assert ts == init + [last] && DropFinalSlash(ts) == init + [dropped];
    TokensAltSnoc(init, last);
    TokensAltSnoc(init, dropped);
    TextAppend(TokensAlt(init), TokenAlt(last));
    TextAppend(TokensAlt(init), TokenAlt(dropped));
    TextLiteral(last.value.s);
    TextLiteral(dropped.value.s);
    TextSlashLast(last.value.s);
  }
}
