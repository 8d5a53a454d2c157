/** A route mask, from its text to the paths it accepts and the parameters it binds. */
module RouteMask {
  import opened Wrappers
  import Strings
  import opened Regex
  import opened RegexReader
  import opened PathKeys
  import opened PathCompiler
  import opened PathScanner
  import opened RouteMeaning
  import opened RouteParams

  /** Scans and compiles a mask.  The emitted text denotes a tree that accepts exactly the
      paths, with exactly the values, that the mask's tokens mean. */
  method Describe(mask: string, options: Options) returns (route: string, keys: seq<Key>)
    ensures keys == Parameters(Scan(mask))
    ensures AllWellFormed(Scan(mask)) ==>
              && Read(route) == Some(RouteRe(Scan(mask), options))
              && forall path, c :: Accepts(Read(route).value, path, c) <==> RouteMeans(Scan(mask), options, path, c)
  {
    LiteralsAreMaximal(Lex(mask), "", 0);
    var tokens := ParseMatcher(mask);
    route, keys := Make(tokens, options);
    if AllWellFormed(tokens) {
      forall path, c
        ensures Accepts(RouteRe(tokens, options), path, c) <==> RouteMeans(tokens, options, path, c)
      {
        CompilationPreservesMeaning(tokens, options, path, c);
      }
    }
  }

  /** A mask whose parameters have no patterns of their own. */
  predicate HasDefaultPatterns(xs: seq<Lexeme>) {
    forall i :: 0 <= i < |xs| && xs[i].Param? ==> xs[i].capture == "" && xs[i].group == ""
  }

  /** A mask whose parameters have plain patterns, or none of their own. */
  predicate HasPlainPatterns(xs: seq<Lexeme>) {
    forall i :: 0 <= i < |xs| && CustomPattern(xs[i]) != "" ==> PlainPattern(EscapeGroup(CustomPattern(xs[i])))
  }

  lemma {:induction false} TokensAreWellFormed(xs: seq<Lexeme>, path: string, n: nat)
    requires HasPlainPatterns(xs) && AllFinds(xs)
    ensures AllWellFormed(Tokens(xs, path, n))
  {
    hide PlainPattern, EscapeGroup, CustomPattern, IsFind;
    if xs == [] {
    } else if IsLiteral(xs[0]) {
      assert forall i :: 0 <= i < |xs[1..]| ==> xs[1..][i] == xs[i + 1];
      LiteralTokens(xs, path, n);
      TokensAreWellFormed(xs[1..], path + [xs[0].c], n);
    } else {
      assert forall i :: 0 <= i < |xs[1..]| ==> xs[1..][i] == xs[i + 1];
      var m, next := if IsUnnamed(xs[0]) then n + 1 else n, NextText(SpellAll(xs[1..]));
      var key := ParameterTokens(xs, path, n, m, next);
      KeyIsWellFormed(xs[0], n, next);
      TokensAreWellFormed(xs[1..], "", m);
    }
  }

  lemma KeyIsWellFormed(x: Lexeme, n: nat, next: string)
    requires !IsLiteral(x) && IsFind(x)
    requires CustomPattern(x) != "" ==> PlainPattern(EscapeGroup(CustomPattern(x)))
    ensures WellFormed(KeyFor(x, n, next))
  {
    hide PlainPattern, EscapeGroup;
    DefaultPatternsArePlain("/");
    DefaultPatternsArePlain(".");
  }

  /** Every mask with plain patterns gives tokens that the compiler theorems cover; a mask
      without patterns of its own always does. */
  lemma MaskIsCovered(mask: string)
    requires HasPlainPatterns(Lex(mask))
    ensures AllWellFormed(Scan(mask))
  {
    LexFinds(mask);
    TokensAreWellFormed(Lex(mask), "", 0);
  }

  lemma DefaultsArePlain(mask: string)
    requires HasDefaultPatterns(Lex(mask))
    ensures HasPlainPatterns(Lex(mask))
  {
    LexFinds(mask);
  }

  /** For every mask whose own patterns are plain, the compiled tree accepts exactly the
      paths, with exactly the values, that the mask's tokens mean. */
  lemma MaskMeans(mask: string, options: Options, path: string, c: seq<string>)
    requires HasPlainPatterns(Lex(mask))
    ensures AllWellFormed(Scan(mask))
    ensures Accepts(RouteRe(Scan(mask), options), path, c) <==> RouteMeans(Scan(mask), options, path, c)
  {
    MaskIsCovered(mask);
    CompilationPreservesMeaning(Scan(mask), options, path, c);
  }

  // ----- what a mask's parameters take -----

  /** The token is what the mask writes: its prefix, its modifier, whether it is an asterisk; and
      without a pattern of its own an asterisk takes anything on one line, a parameter a
      segment free of its prefix, or of `/` if it has none. */
  ghost predicate Says(k: Key, x: Lexeme)
    requires !IsLiteral(x)
  {
    && k.prefix == x.prefix && (k.asterisk <==> x.Asterisk?)
    && (k.optional <==> x.Param? && (x.modifier == "?" || x.modifier == "*"))
    && (k.repeat <==> x.Param? && (x.modifier == "+" || x.modifier == "*"))
    && (x.Param? && x.name != "" ==> k.value == Named(x.name))
    && (CustomPattern(x) == "" ==>
          PlainPattern(k.pattern) && forall v :: PatternAccepts(k.pattern, v) <==>
            if x.Asterisk? then NoLineBreak(v)
            else v != "" && forall i :: 0 <= i < |v| ==> v[i] != if x.prefix == "" then '/' else x.prefix[0])
  }

  lemma KeySays(x: Lexeme, n: nat, next: string)
    requires !IsLiteral(x) && IsFind(x)
    ensures Says(KeyFor(x, n, next), x)
  {
    hide PlainPattern, PatternAccepts, SegmentPattern;
    if CustomPattern(x) == "" {
      var k, d := KeyFor(x, n, next), if x.prefix == "" then "/" else x.prefix;
      forall v
        ensures PlainPattern(k.pattern)
        ensures PatternAccepts(k.pattern, v) <==>
                if x.Asterisk? then NoLineBreak(v) else v != "" && forall i :: 0 <= i < |v| ==> v[i] != d[0]
      {
        DefaultPatternsMean(d, v);
        assert d == [d[0]];
      }
    }
  }

  /** Every parameter of a mask, in order, is what the mask writes. */
  lemma ParametersSay(mask: string) returns (pieces: seq<seq<Lexeme>>)
    ensures |pieces| == |Scan(mask)| && Flatten(pieces) == Lex(mask)
    ensures forall i :: 0 <= i < |pieces| && !Scan(mask)[i].isString ==>
              |pieces[i]| == 1 && !IsLiteral(pieces[i][0]) && Says(Scan(mask)[i], pieces[i][0])
  {
    hide Scan, Lex, Flatten, KeyFor, NextText, Says, IsFind, UnnamedIn, Concatenated, Slices;
    pieces := ScanAccountsForMask(mask);
    LexFinds(mask);
    forall i | 0 <= i < |pieces| && !Scan(mask)[i].isString
      ensures |pieces[i]| == 1 && !IsLiteral(pieces[i][0]) && Says(Scan(mask)[i], pieces[i][0])
    {
      var n, rest := UnnamedIn(Flatten(pieces[..i])), Concatenated(Slices(pieces)[i + 1..]);
      assert Reads(Scan(mask)[i], pieces[i], n, rest);
      InFlatten(pieces, i);
      KeySays(pieces[i][0], n, NextText(rest));
    }
  }

  /** A mask that is one find. */
  lemma SingleFind(x: Lexeme)
    requires !IsLiteral(x) && Writable(x, "")
    ensures Scan(Spell(x)) == [KeyFor(x, 0, "")]
  {
    hide Lex, KeyFor, Tokens, Spell, Writable;
    var xs, m := [x], if IsUnnamed(x) then 1 else 0;
    assert xs[1..] == [] && SpellAll(xs) == Spell(x) + "" == Spell(x);
    assert AllWritable(xs);
    LexInvertsSpelling(xs);
    var key := ParameterTokens(xs, "", 0, m, "");
    LastToken("", m);
    assert Flush("") + [key] + [] == [key];
  }

  lemma OneParameter(k: Key, w: string, vs: seq<string>)
    requires CompilableToken(k) && !k.isString
    ensures Compilable([k]) && (TokensMean([k], w, vs) <==> |vs| == 1 && ParameterMeans(k, w, vs[0]))
  {
    hide ParameterMeans, PlainPattern;
    assert [k][1..] == [];
    if |vs| == 1 {
      assert w[..|w|] == w && w[|w|..] == "" && vs[1..] == [];
    }
  }

  /** The values of a parameter with the prefix `d` and the modifier `m`. */
  predicate TakesValue(d: char, m: string, v: string) {
    if m == "+" || m == "*" then forall i :: 0 <= i < |Strings.Split(v, d)| ==> Strings.Split(v, d)[i] != ""
    else v != "" && d !in v
  }

  /** What the four modifiers mean: the mask `/:name` accepts a slash and a segment, `/:name?` also
      nothing, `/:name+` segments each after a slash, `/:name*` also none; and likewise with dots. */
  lemma ModifiersMean(d: char, name: string, m: string, options: Options, path: string, vs: seq<string>)
    requires (d == '/' || d == '.') && name != "" && AllWord(name)
    requires m == "" || m == "?" || m == "+" || m == "*"
    requires options.strict && !options.takeRest
    ensures var ts := Scan([d] + (([':'] + name) + m));
            && AllWellFormed(ts)
            && (Accepts(RouteRe(ts, options), path, vs) <==>
                && |vs| == 1
                && (|| (path == [d] + vs[0] && TakesValue(d, m, vs[0]))
                    || (path == "" && vs[0] == "" && (m == "?" || m == "*"))))
  {
    hide Lex, Tokens, PlainPattern, RouteRe, Accepts, TakesValue, SegmentPattern;
    var x := Param([d], name, "", "", m);
    SingleFind(x);
    assert Spell(x) == [d] + (([':'] + name) + m);
    var k := KeyFor(x, 0, "");
    DefaultPatternsMean([d], "");
    assert WellFormed(k) && AllWellFormed([k]);
    NoFinalSlashRule([k], options, path, vs);
    OneParameter(k, path, vs);
    if |vs| == 1 {
      ValueTaken(k, d, m, vs[0]);
    }
  }

  lemma ValueTaken(k: Key, d: char, m: string, v: string)
    requires k.prefix == [d] && (d == '/' || d == '.') && k.pattern == SegmentPattern([d])
    requires k.repeat <==> m == "+" || m == "*"
    ensures PlainPattern(k.pattern) && (ValueMeans(k, v) <==> TakesValue(d, m, v))
  {
    hide PlainPattern, SegmentPattern, PatternAccepts;
    DefaultPatternsMean([d], v);
    if k.repeat {
      RepeatedSegments(k, d, v);
    }
  }

  /** An asterisk after a slash or a dot: the prefix, and anything on one line after it. */
  lemma AsteriskMeans(d: char, options: Options, path: string, vs: seq<string>)
    requires (d == '/' || d == '.') && options.strict && !options.takeRest
    ensures var ts := Scan([d] + "*");
            && AllWellFormed(ts)
            && (Accepts(RouteRe(ts, options), path, vs) <==>
                |vs| == 1 && path == [d] + vs[0] && NoLineBreak(vs[0]))
  {
    hide Lex, Tokens, PlainPattern, RouteRe, Accepts, PatternAccepts;
    var x := Asterisk([d]);
    SingleFind(x);
    var k := KeyFor(x, 0, "");
    DefaultPatternsMean([d], if |vs| == 1 then vs[0] else "");
    assert WellFormed(k) && AllWellFormed([k]);
    NoFinalSlashRule([k], options, path, vs);
    OneParameter(k, path, vs);
  }

  // ----- optional parameters -----

  /** The token at `i` is made of a find; the mask goes on after it exactly if more tokens do. */
  lemma FindOfToken(mask: string, i: nat) returns (x: Lexeme, n: nat, rest: string)
    requires i < |Scan(mask)| && !Scan(mask)[i].isString
    ensures IsFind(x) && !IsLiteral(x) && Scan(mask)[i] == KeyFor(x, n, NextText(rest))
    ensures rest == "" <==> i + 1 == |Scan(mask)|
  {
    hide Lex, Tokens, KeyFor, NextText, UnnamedIn, IsFind;
    var pieces := ScanAccountsForMask(mask);
    LexFinds(mask);
    var after := pieces[i + 1..];
    x, n, rest := pieces[i][0], UnnamedIn(Flatten(pieces[..i])), Concatenated(Slices(pieces)[i + 1..]);
    assert Reads(Scan(mask)[i], pieces[i], n, rest);
    InFlatten(pieces, i);
    if i + 1 < |Scan(mask)| {
      assert Reads(Scan(mask)[i + 1], pieces[i + 1], UnnamedIn(Flatten(pieces[..i + 1])),
                   Concatenated(Slices(pieces)[i + 2..]));
      InFlatten(pieces, i + 1);
      SpelledFind(pieces[i + 1]);
      assert Slices(pieces)[i + 1..][0] == Slices(pieces)[i + 1] == SpellAll(pieces[i + 1]);
    }
  }

  lemma {:induction false} InFlatten(pieces: seq<seq<Lexeme>>, i: nat)
    requires i < |pieces| && pieces[i] != [] && AllFinds(Flatten(pieces))
    ensures IsFind(pieces[i][0])
  {
    hide IsFind;
    if i == 0 {
      assert Flatten(pieces)[0] == pieces[0][0];
    } else {
      var rest := Flatten(pieces[1..]);
      assert forall j :: 0 <= j < |rest| ==> rest[j] == Flatten(pieces)[j + |pieces[0]|];
      InFlatten(pieces[1..], i - 1);
    }
  }

  lemma SpelledFind(xs: seq<Lexeme>)
    requires xs != [] && IsFind(xs[0])
    ensures SpellAll(xs) != ""
  {
    assert Spell(xs[0]) != "";
  }

  /** An optional parameter of a mask can be left out together with its prefix exactly when
      it has no prefix or nothing follows it, if what follows means some path at all. */
  lemma OptionalInMask(mask: string, i: nat, w: string, vs: seq<string>)
    requires AllWellFormed(Scan(mask)) && i < |Scan(mask)|
    requires !Scan(mask)[i].isString && Scan(mask)[i].optional && TokensMean(Scan(mask)[i + 1..], w, vs)
    ensures var k, rest := Scan(mask)[i], Scan(mask)[i + 1..];
            && Compilable([k] + rest)
            && (CanBeLeftOut(k, rest) <==> k.prefix == "" || rest == [])
  {
    hide Scan, KeyFor, NextText, PlainPattern, CanBeLeftOut, TokensMean, IsFind;
    var x, n, text := FindOfToken(mask, i);
    PartialWheneverFollowed(x, n, text);
    KeyPrefix(x, n, NextText(text));
    LeftOutExactly(Scan(mask)[i], Scan(mask)[i + 1..], w, vs);
  }

  lemma KeyPrefix(x: Lexeme, n: nat, next: string)
    requires !IsLiteral(x)
    ensures KeyFor(x, n, next).prefix == x.prefix
  {
  }

  const OPTIONAL_A := Param("/", "a", "", "", "?")

  lemma PartialLexemes()
    ensures Lex("/:a?/b") == [OPTIONAL_A, Plain('/'), Plain('b')]
  {
    var two, one := [Plain('/'), Plain('b')], [Plain('b')];
    var xs := [OPTIONAL_A] + two;
    assert xs[1..] == two && two[1..] == one && one[1..] == [];
    assert SpellAll(one) == "b" && SpellAll(two) == "/b";
    assert Spell(OPTIONAL_A) == "/:a?" && SpellAll(xs) == "/:a?/b";
    assert AllWord("a") && Writable(OPTIONAL_A, "/b") && Writable(Plain('/'), "b") && Writable(Plain('b'), "");
    assert AllWritable(one) && AllWritable(two) && AllWritable(xs);
    hide Lex, Writable;
    LexInvertsSpelling(xs);
  }

  /** The tokens of `/:a?/b`: the parameter is partial although its own prefix follows it. */
  lemma PartialTokens() returns (k: Key)
    ensures Scan("/:a?/b") == [k, AsString("/b")]
    ensures k == Key(false, false, true, false, true, Named("a"), "/", "/", SegmentPattern("/"))
  {
    hide Lex, KeyFor, Tokens;
    PartialLexemes();
    var two, one := [Plain('/'), Plain('b')], [Plain('b')];
    var xs := [OPTIONAL_A] + two;
    assert xs[1..] == two && two[1..] == one && one[1..] == [];
    assert SpellAll(one) == "b" && SpellAll(two) == "/b";
    hide SpellAll;
    k := ParameterTokens(xs, "", 0, 0, NextText("/b"));
    LiteralTokens(two, "", 0);
    LiteralTokens(one, "/", 0);
    LastToken("/b", 0);
    assert "" + "/" == "/" && "/" + "b" == "/b" && Flush("") == [];
    assert Tokens(two, "", 0) == [AsString("/b")];
    assert xs == [OPTIONAL_A, Plain('/'), Plain('b')] && xs[0] == OPTIONAL_A;
    assert [] + [k] + [AsString("/b")] == [k, AsString("/b")];
    OptionalKey();
  }

  lemma LastToken(path: string, n: nat)
    ensures Tokens([], path, n) == Flush(path)
  {
  }

  lemma OptionalKey()
    ensures KeyFor(OPTIONAL_A, 0, NextText("/b")) ==
            Key(false, false, true, false, true, Named("a"), "/", "/", SegmentPattern("/"))
  {
  }

  /** So the mask `/:a?/b` refuses the path `/b`, which it would accept if the flag were clear. */
  lemma PartialWitness(options: Options) returns (k: Key)
    ensures Scan("/:a?/b") == [k, AsString("/b")] && AllWellFormed([k, AsString("/b")])
    ensures AllWellFormed([k.(partial := false), AsString("/b")])
    ensures forall vs :: !RouteMeans([k, AsString("/b")], options, "/b", vs)
    ensures RouteMeans([k.(partial := false), AsString("/b")], options, "/b", [""])
  {
    hide Scan, Lex, Tokens, PlainPattern, SegmentPattern, RouteMeans, Read, ReadRe;
    k := PartialTokens();
    DefaultPatternsArePlain("/");
    assert WellFormed(k) && WellFormed(k.(partial := false)) && WellFormed(AsString("/b"));
    PartialRefuses(k, options);
    ClearAccepts(k.(partial := false), options);
  }

  lemma PartialRefuses(k: Key, options: Options)
    requires WellFormed(k) && !k.isString && k.partial && k.prefix == "/" && AllWellFormed([k, AsString("/b")])
    ensures forall vs :: !RouteMeans([k, AsString("/b")], options, "/b", vs)
  {
    hide PlainPattern, RouteMeans, TokensMean;
    forall vs
      ensures !RouteMeans([k, AsString("/b")], options, "/b", vs)
    {
      OnlyTokens([k, AsString("/b")], options, "/b", vs);
      PartialNeedsPrefix(k, vs);
    }
  }

  lemma ClearAccepts(k: Key, options: Options)
    requires WellFormed(k) && !k.isString && k.optional && !k.partial && AllWellFormed([k, AsString("/b")])
    ensures RouteMeans([k, AsString("/b")], options, "/b", [""])
  {
    hide PlainPattern, RouteMeans, TokensMean, ValueMeans;
    TextMeans("/b");
    assert [k] + [AsString("/b")] == [k, AsString("/b")] && [""] + [] == [""];
    FirstLeftOut(k, [AsString("/b")], "/b", []);
    OnlyTokens([k, AsString("/b")], options, "/b", [""]);
  }

  /** Without a slash at its end a route of a mask without one means just its tokens. */
  lemma OnlyTokens(ts: seq<Key>, options: Options, path: string, vs: seq<string>)
    requires AllWellFormed(ts) && ts != [] && ts[|ts| - 1].isString && !EndsWithSlash(ts)
    requires path != "" && path[|path| - 1] != '/'
    ensures RouteMeans(ts, options, path, vs) <==> TokensMean(ts, path, vs)
  {
    hide TokensMean, PlainPattern;
  }

  lemma TextMeans(text: string)
    ensures TokensMean([AsString(text)], text, [])
  {
    assert [AsString(text)][1..] == [] && text[|text|..] == "";
  }

  /** After `/` nothing of the path `/b` is left that starts with `/b`. */
  lemma PartialNeedsPrefix(k: Key, vs: seq<string>)
    requires !k.isString && k.partial && k.prefix == "/" && PlainPattern(k.pattern)
    ensures !TokensMean([k, AsString("/b")], "/b", vs)
  {
    hide PlainPattern;
    var b := AsString("/b");
    assert [k, b][1..] == [b] && [k, b][0] == k;
    assert "/b"[0..] == "/b";
  }

  // ----- escaped patterns -----

  lemma {:induction false} EscapedAlike(p: string)
    requires forall i :: 0 <= i < |p| ==> p[i] !in ".+*?^{}[]|\\"
    ensures EscapeGroup(p) == EscapeString(p)
  {
    if p != "" {
      assert p[0] !in ".+*?^{}[]|\\";
      EscapedAlike(p[1..]);
    }
  }

  lemma {:induction false} LiteralIsPlain(w: string)
    ensures WellFormedAlt(Literal(w)) && AnchorlessAlt(Literal(w))
  {
    if w != "" {
      LiteralIsPlain(w[1..]);
      var t := Rep(Chr(w[0]), Once);
      assert Literal(w) == Cons(t, Literal(w[1..])) && WellFormedTerm(t) && AnchorlessTerm(t);
    }
  }

  /** A custom pattern made of word characters, `=`, `!`, `:`, `$`, `/`, parentheses and the like
      means itself: `EscapeGroup` takes their special meaning away. */
  lemma SpecialsMeanThemselves(p: string, v: string)
    requires forall i :: 0 <= i < |p| ==> p[i] !in ".+*?^{}[]|\\"
    ensures PlainPattern(EscapeGroup(p)) && (PatternAccepts(EscapeGroup(p), v) <==> v == p)
  {
    hide EscapeGroup, EscapeString, Literal, Read, MatchRe, TextAlt, WellFormedAlt, AnchorlessAlt, GroupsAlt;
    EscapedAlike(p);
    EscapedLiteralMeansItself(p, v, []);
    TextLiteral(p);
    LiteralIsPlain(p);
  }

  // ----- patterns with parentheses -----

  const WITH_GROUP: Alt :=
    Cons(Rep(Chr('x'), Once), Cons(Rep(Chr('\\'), Once), One(Rep(Capture(Just(INSIDE)), Once))))

  const INSIDE: Alt := Cons(Rep(Chr('y'), Once), One(Rep(Chr('\\'), Once)))

  /** The pattern of the mask `/:a(x\(y\))`: once its specials are escaped it opens a capture
      group of its own, so it is not plain. */
  lemma ParenthesisWitness()
    ensures var pattern := EscapeGroup("x\\(y\\)");
            Read(pattern) == Some(Just(WITH_GROUP)) && GroupsRe(Just(WITH_GROUP)) == 1 && !PlainPattern(pattern)
  {
    EscapedParentheses();
    WithGroupShape();
    hide TextRe, WellFormedRe, EscapeGroup;
    ReadText(Just(WITH_GROUP));
  }

  lemma WithGroupShape()
    ensures TextRe(Just(WITH_GROUP)) == "x\\\\(y\\\\)" && GroupsRe(Just(WITH_GROUP)) == 1
    ensures WellFormedRe(Just(WITH_GROUP))
  {
    var x, mark, group := Rep(Chr('x'), Once), Rep(Chr('\\'), Once), Rep(Capture(Just(INSIDE)), Once);
    assert TextTerm(x) == "x" && TextTerm(mark) == "\\\\";
    OneShape(mark);
    InsideShape();
    hide INSIDE;
    ParensShape(INSIDE, Once);
    OneShape(group);
    var tail := Cons(mark, One(group));
    assert TextAlt(tail) == "\\\\(y\\\\)" && GroupsAlt(tail) == 1 && WellFormedAlt(tail);
  }

  lemma InsideShape()
    ensures TextAlt(INSIDE) == "y\\\\" && GroupsAlt(INSIDE) == 0 && WellFormedAlt(INSIDE)
  {
    var y, mark := Rep(Chr('y'), Once), Rep(Chr('\\'), Once);
    assert TextTerm(y) == "y" && TextTerm(mark) == "\\\\" && GroupsTerm(y) == 0 && WellFormedTerm(y);
    OneShape(mark);
  }

  lemma EscapedParentheses()
    ensures EscapeGroup("x\\(y\\)") == "x\\\\(y\\\\)"
  {
    EscapeGroupCons('x', "\\(y\\)");
    EscapeGroupCons('\\', "(y\\)");
    EscapeGroupCons('(', "y\\)");
    EscapeGroupCons('y', "\\)");
    EscapeGroupCons('\\', ")");
    EscapeGroupCons(')', "");
  }

  lemma EscapeGroupCons(c: char, s: string)
    ensures EscapeGroup([c] + s) == (if IsGroupSpecial(c) then ['\\', c] else [c]) + EscapeGroup(s)
  {
    assert ([c] + s)[1..] == s;
  }

  lemma ScanIsProper(mask: string)
    ensures ProperTokens(Scan(mask))
  {
    LiteralsAreMaximal(Lex(mask), "", 0);
  }

  /** Matching a path written by substituting values into a mask binds every parameter to
      its value, whatever match the engine reports. */
  method MatchSubstituted(mask: string, options: Options, vs: seq<string>, found: Option<seq<string>>, before: Params)
    returns (matched: bool, bound: Params)
    requires Extractable(Scan(mask)) && DistinctNames(Parameters(Scan(mask)))
    requires |vs| == |Parameters(Scan(mask))| && AllSegments(vs)
    requires TakesRest(Scan(mask), options) ==> vs != [] && NoLineBreak(vs[|vs| - 1])
    requires AllWellFormed(Scan(mask))
    requires EngineAnswers(RouteRe(Scan(mask), options), Substitute(Scan(mask), vs), found)
    ensures matched
    ensures bound.Keys == set i | 0 <= i < |vs| :: Parameters(Scan(mask))[i].value
    ensures forall i :: 0 <= i < |vs| ==> bound[Parameters(Scan(mask))[i].value] == vs[i]
  {
    hide Scan, RouteRe, Accepts, Substitute, Extractable, AllSegments, DistinctNames, AllWellFormed, TakesRest,
      RouteMeans, Read, Binds, Parameters;
    var tokens := Scan(mask);
    assert ProperTokens(tokens) by {
      ScanIsProper(mask);
    }
    var text, keys := Describe(mask, options);
    ghost var re, path := Read(text).value, Substitute(tokens, vs);
    ExtractionInvertsSubstitution(tokens, options, vs, vs);
    RouteShape(tokens, options);
    if found.Some? {
      ExtractionInvertsSubstitution(tokens, options, vs, found.value);
    }
    matched, bound := Matches(re, keys, path, found, before);
    forall i | 0 <= i < |vs|
      ensures keys[i].value in bound && bound[keys[i].value] == vs[i]
    {
      DistinctNamesBind(keys, vs, bound, i);
    }
  }
}
