/** The scanner's regular expression, and that the hand scanner finds exactly its longest
    matches. */
module ScannerRegex {
  import opened Wrappers
  import opened Regex
  import opened RegexReader
  import opened PathScanner
  import opened RouteMeaning

  // ----- the expression -----

  const MARK: Term := Rep(Chr('\\'), Once)

  /** `\\.` */
  const PAIR: Alt := Cons(MARK, One(Rep(Dot, Once)))

  /** `(?:\\.|[^\\()])` */
  const ITEM: Atom := Group(Or(PAIR, Just(One(Rep(Brackets(true, Singles("\\()")), Once)))))

  /** `(` an item, several times `)` */
  const RUN: Term := Rep(Capture(Just(One(Rep(ITEM, Several(false))))), Once)

  /** `\(` run `\)` */
  const PARENS: Alt := Cons(Rep(Chr('('), Once), Cons(RUN, One(Rep(Chr(')'), Once))))

  /** `(\w+)` */
  const WORD: Term := Rep(Capture(Just(One(Rep(Class('w'), Several(false))))), Once)

  /** `\:(\w+)(?:` parens `)?` */
  const NAMED: Alt := Cons(Rep(Chr(':'), Once), Cons(WORD, One(Rep(Group(Just(PARENS)), Optional(false)))))

  /** `(?:` named `|` parens `)` */
  const CORE: Term := Rep(Group(Or(NAMED, Just(PARENS))), Once)

  /** `([+*?])?` */
  const MODIFIER: Term := Rep(Capture(Just(One(Rep(Brackets(false, Singles("+*?")), Once)))), Optional(false))

  /** `(\*)` */
  const STAR: Term := Rep(Capture(Just(One(Rep(Chr('*'), Once)))), Once)

  /** `(?:` core modifier `|` star `)` */
  const BODY: Term := Rep(Group(Or(Cons(CORE, One(MODIFIER)), Just(One(STAR)))), Once)

  /** `([\/.])?` */
  const PREFIX: Term := Rep(Capture(Just(One(Rep(Brackets(false, Singles("/.")), Once)))), Optional(false))

  /** `(\\.)` */
  const ESCAPED: Term := Rep(Capture(Just(PAIR)), Once)

  /** `(\\.)|([\/.])?(?:...)` */
  const SCANNER: Re := Or(One(ESCAPED), Just(Cons(PREFIX, One(BODY))))

  // ----- taking whole texts -----

  ghost predicate TakesAlt(a: Alt, w: string, c: seq<string>) {
    MatchAlt(a, w, 0, |w|, c)
  }

  ghost predicate TakesTerm(t: Term, w: string, c: seq<string>) {
    MatchTerm(t, w, 0, |w|, c)
  }

  /** A term and what follows it take the two parts of a text. */
  ghost predicate TakesParts(t: Term, rest: Alt, w: string, c: seq<string>, k: nat) {
    && k <= |w| && GroupsTerm(t) <= |c|
    && TakesTerm(t, w[..k], c[..GroupsTerm(t)]) && TakesAlt(rest, w[k..], c[GroupsTerm(t)..])
  }

  lemma TakesCons(t: Term, rest: Alt, w: string, c: seq<string>)
    requires AnchorlessTerm(t) && AnchorlessAlt(rest)
    ensures TakesAlt(Cons(t, rest), w, c) <==> exists k: nat :: TakesParts(t, rest, w, c, k)
  {
    hide MatchTerm, GroupsTerm, AnchorlessTerm, AnchorlessAlt;
    var n, g := |w|, GroupsTerm(t);
    if TakesAlt(Cons(t, rest), w, c) {
      var k := SplitCons(t, rest, w, 0, n, c);
      assert SameText(w, 0, k, w[..k], 0, k) && SameText(w, k, n, w[k..], 0, n - k);
      LocalTerm(t, w, 0, k, w[..k], 0, k, c[..g]);
      LocalAlt(rest, w, k, n, w[k..], 0, n - k, c[g..]);
      assert TakesParts(t, rest, w, c, k);
    }
    if k: nat :| TakesParts(t, rest, w, c, k) {
      assert SameText(w[..k], 0, k, w, 0, k) && SameText(w[k..], 0, n - k, w, k, n);
      LocalTerm(t, w[..k], 0, k, w, 0, k, c[..g]);
      LocalAlt(rest, w[k..], 0, n - k, w, k, n, c[g..]);
      JoinOne(t, rest, w, k, c);
    }
  }

  lemma JoinOne(t: Term, rest: Alt, w: string, k: nat, c: seq<string>)
    requires k <= |w| && GroupsTerm(t) <= |c|
    requires MatchTerm(t, w, 0, k, c[..GroupsTerm(t)]) && MatchAlt(rest, w, k, |w|, c[GroupsTerm(t)..])
    ensures MatchAlt(Cons(t, rest), w, 0, |w|, c)
  {
    hide MatchTerm;
    assert |c[GroupsTerm(t)..]| == GroupsAlt(rest);
  }

  lemma TakesOne(t: Term, w: string, c: seq<string>)
    ensures TakesAlt(One(t), w, c) <==> TakesTerm(t, w, c)
  {
    MatchOne(t, w, 0, |w|, c);
  }

  lemma TakesOnce(a: Atom, w: string, c: seq<string>)
    ensures TakesTerm(Rep(a, Once), w, c) <==> MatchAtom(a, w, 0, |w|, c)
    ensures GroupsTerm(Rep(a, Once)) == GroupsAtom(a)
    ensures AnchorlessTerm(Rep(a, Once)) <==> AnchorlessAtom(a)
  {
  }

  /** A single character. */
  lemma TakesChar(x: char, w: string, c: seq<string>)
    ensures var t := Rep(Chr(x), Once); GroupsTerm(t) == 0 && AnchorlessTerm(t)
    ensures TakesTerm(Rep(Chr(x), Once), w, c) <==> c == [] && w == [x]
  {
    TakesOnce(Chr(x), w, c);
  }

  lemma TakesCapture(a: Alt, w: string, c: seq<string>)
    ensures GroupsTerm(Rep(Capture(Just(a)), Once)) == 1 + GroupsAlt(a)
    ensures TakesTerm(Rep(Capture(Just(a)), Once), w, c) <==>
            |c| == 1 + GroupsAlt(a) && c[0] == w && TakesAlt(a, w, c[1..])
  {
    hide MatchAtom, MatchAlt, GroupsAlt;
    MatchCapture(a, w, 0, |w|, c);
    assert w[0..|w|] == w;
  }

  /** Groups and anchors of an atom in parentheses. */
  lemma ParensGroups(a: Alt)
    ensures GroupsAtom(Group(Just(a))) == GroupsAlt(a) && GroupsAtom(Capture(Just(a))) == 1 + GroupsAlt(a)
    ensures AnchorlessAtom(Group(Just(a))) <==> AnchorlessAlt(a)
    ensures AnchorlessAtom(Capture(Just(a))) <==> AnchorlessAlt(a)
  {
    assert GroupsRe(Just(a)) == GroupsAlt(a) && (AnchorlessRe(Just(a)) <==> AnchorlessAlt(a));
  }

  lemma ClassTakes(cs: string, negated: bool, w: string, c: seq<string>)
    ensures var t := Rep(Brackets(negated, Singles(cs)), Once); GroupsTerm(t) == 0 && AnchorlessTerm(t)
    ensures TakesTerm(Rep(Brackets(negated, Singles(cs)), Once), w, c) <==>
            c == [] && |w| == 1 && ((w[0] in cs) != negated)
  {
    hide InItems;
    TakesOnce(Brackets(negated, Singles(cs)), w, c);
    if |w| == 1 {
      InSingles(cs, w[0]);
    }
  }

  /** A capture of one character of a class, or nothing. */
  lemma TakesOptionalClass(cs: string, w: string, c: seq<string>)
    ensures var t := Rep(Capture(Just(One(Rep(Brackets(false, Singles(cs)), Once)))), Optional(false));
            && GroupsTerm(t) == 1 && AnchorlessTerm(t)
            && (TakesTerm(t, w, c) <==> c == [w] && (w == "" || (|w| == 1 && w[0] in cs)))
  {
    var one := Rep(Brackets(false, Singles(cs)), Once);
    ClassTakes(cs, false, w, []);
    TakesOne(one, w, []);
    OneShape(one);
    ParensGroups(One(one));
    hide MatchAtom, MatchAlt, AnchorlessAtom;
    MatchCapture(One(one), w, 0, |w|, c);
    assert w[0..|w|] == w && Blank(1) == [""];
    if |c| == 1 {
      assert c[1..] == [] && c == [c[0]];
    }
  }

  // ----- runs -----

  /** The text is a run of `\\.|[^\\()]`. */
  predicate IsRun(w: string) {
    ItemsLength(w) == |w|
  }

  /** One item of a run. */
  predicate IsItem(w: string) {
    || (|w| == 2 && w[0] == '\\' && !IsLineBreak(w[1]))
    || (|w| == 1 && w[0] != '\\' && w[0] != '(' && w[0] != ')')
  }

  /** A character, then the rest. */
  lemma CharThen(x: char, rest: Alt, w: string, c: seq<string>)
    requires AnchorlessAlt(rest)
    ensures var a := Cons(Rep(Chr(x), Once), rest); GroupsAlt(a) == GroupsAlt(rest) && AnchorlessAlt(a)
    ensures TakesAlt(Cons(Rep(Chr(x), Once), rest), w, c) <==> w != "" && w[0] == x && TakesAlt(rest, w[1..], c)
  {
    var t := Rep(Chr(x), Once);
    TakesChar(x, "", []);
    TakesCons(t, rest, w, c);
    hide AnchorlessTerm, AnchorlessAlt, TakesAlt, TakesTerm;
    assert c[..0] == [] && c[0..] == c;
    if k: nat :| TakesParts(t, rest, w, c, k) {
      TakesChar(x, w[..k], []);
      assert k == |w[..k]| == 1 && w[..k][0] == w[0];
    }
    if w != "" && w[0] == x && TakesAlt(rest, w[1..], c) {
      TakesChar(x, w[..1], []);
      assert TakesParts(t, rest, w, c, 1);
    }
  }

  /** One of two alternatives; the groups of the other are blank. */
  lemma TakesOr(a: Alt, b: Alt, w: string, c: seq<string>)
    ensures GroupsAtom(Group(Or(a, Just(b)))) == GroupsAlt(a) + GroupsAlt(b)
    ensures AnchorlessAtom(Group(Or(a, Just(b)))) <==> AnchorlessAlt(a) && AnchorlessAlt(b)
    ensures MatchAtom(Group(Or(a, Just(b))), w, 0, |w|, c) <==>
            var g := GroupsAlt(a);
            && |c| == g + GroupsAlt(b)
            && (|| (TakesAlt(a, w, c[..g]) && c[g..] == Blank(GroupsAlt(b)))
                || (c[..g] == Blank(g) && TakesAlt(b, w, c[g..])))
  {
    hide MatchAlt, GroupsAlt, AnchorlessAlt;
    var r := Or(a, Just(b));
    assert GroupsRe(Just(b)) == GroupsAlt(b) && (AnchorlessRe(Just(b)) <==> AnchorlessAlt(b));
    assert GroupsRe(r) == GroupsAlt(a) + GroupsAlt(b);
    assert MatchAtom(Group(r), w, 0, |w|, c) <==> |c| == GroupsRe(r) && MatchRe(r, w, 0, |w|, c);
    if |c| == GroupsRe(r) {
      var g := GroupsAlt(a);
      assert |c[g..]| == GroupsAlt(b);
      assert MatchRe(Just(b), w, 0, |w|, c[g..]) <==> MatchAlt(b, w, 0, |w|, c[g..]);
    }
  }

  lemma AtomIsLocal(a: Atom, s: string, i: nat, j: nat, c: seq<string>)
    requires AnchorlessAtom(a) && i <= j <= |s|
    ensures MatchAtom(a, s, i, j, c) <==> MatchAtom(a, s[i..j], 0, j - i, c)
  {
    hide MatchAtom, AnchorlessAtom;
    var w := s[i..j];
    assert SameText(s, i, j, w, 0, j - i) && SameText(w, 0, j - i, s, i, j);
    if MatchAtom(a, s, i, j, c) {
      LocalAtom(a, s, i, j, w, 0, j - i, c);
    }
    if MatchAtom(a, w, 0, j - i, c) {
      LocalAtom(a, w, 0, j - i, s, i, j, c);
    }
  }

  lemma PairTakes(w: string, c: seq<string>)
    ensures GroupsAlt(PAIR) == 0 && AnchorlessAlt(PAIR)
    ensures TakesAlt(PAIR, w, c) <==> c == [] && |w| == 2 && w[0] == '\\' && !IsLineBreak(w[1])
  {
    var dot := Rep(Dot, Once);
    OneShape(dot);
    CharThen('\\', One(dot), w, c);
    if w != "" {
      TakesOne(dot, w[1..], c);
      TakesOnce(Dot, w[1..], c);
    }
  }

  lemma ItemTakes(s: string, i: nat, j: nat, c: seq<string>)
    requires i <= j <= |s|
    ensures GroupsAtom(ITEM) == 0 && AnchorlessAtom(ITEM)
    ensures MatchAtom(ITEM, s, i, j, c) <==> c == [] && IsItem(s[i..j])
  {
    var w, other := s[i..j], Rep(Brackets(true, Singles("\\()")), Once);
    PairTakes(w, []);
    ClassTakes("\\()", true, w, []);
    TakesOne(other, w, []);
    OneShape(other);
    hide MatchAtom, GroupsAtom, AnchorlessAtom, PAIR;
    TakesOr(PAIR, One(other), w, c);
    AtomIsLocal(ITEM, s, i, j, c);
    assert c[..0] == [] && c[0..] == c;
    assert Blank(0) == [];
  }

  /** One item, then the rest of the run. */
  lemma RunCons(w: string, k: nat)
    requires k <= |w| && IsItem(w[..k])
    ensures IsRun(w) <==> IsRun(w[k..])
  {
    hide IsLineBreak;
    assert w[..k][0] == w[0];
    if k == 2 {
      assert w[..k][1] == w[1];
    }
  }

  lemma RunStarts(w: string) returns (k: nat)
    requires IsRun(w) && w != ""
    ensures 0 < k <= |w| && IsItem(w[..k])
  {
    k := if w[0] == '\\' then 2 else 1;
  }

  lemma {:induction false} ManyItems(s: string, i: nat, j: nat)
    requires i <= j <= |s|
    ensures MatchMany(ITEM, s, i, j, []) <==> IsRun(s[i..j])
    decreases j - i
  {
    hide IsRun, IsItem, MatchAtom, ITEM;
    ItemTakes(s, i, j, []);
    if i == j {
      EmptyRun();
    } else {
      forall m | i < m <= j
        ensures MatchAtom(ITEM, s, i, m, []) <==> IsItem(s[i..m])
        ensures MatchMany(ITEM, s, m, j, []) <==> IsRun(s[m..j])
      {
        ItemTakes(s, i, m, []);
        ManyItems(s, m, j);
      }
      if MatchMany(ITEM, s, i, j, []) {
        var m := FirstRound(ITEM, s, i, j);
        Cut(s, i, m, j);
        RunCons(s[i..j], m - i);
        EmptyRun();
      }
      if IsRun(s[i..j]) {
        var k := RunStarts(s[i..j]);
        Cut(s, i, i + k, j);
        RunCons(s[i..j], k);
        assert MatchAtom(ITEM, s, i, i + k, []);
      }
    }
  }

  lemma FirstRound(a: Atom, s: string, i: nat, j: nat) returns (m: nat)
    requires i < j <= |s| && MatchMany(a, s, i, j, [])
    ensures i < m <= j && MatchAtom(a, s, i, m, []) && (m == j || MatchMany(a, s, m, j, []))
  {
    hide MatchAtom;
    var c: seq<string> := [];
    var k, d :| i < k <= j && MatchAtom(a, s, i, k, d) && if k == j then c == d else MatchMany(a, s, k, j, c);
    m := k;
    RoundGroups(a, s, i, k, d);
  }

  lemma RoundGroups(a: Atom, s: string, i: nat, j: nat, c: seq<string>)
    requires i <= j <= |s| && MatchAtom(a, s, i, j, c)
    ensures |c| == GroupsAtom(a)
  {
  }

  lemma EmptyRun()
    ensures IsRun("")
  {
  }

  lemma SeveralItems(w: string)
    ensures MatchTerm(Rep(ITEM, Several(false)), w, 0, |w|, []) <==> w != "" && IsRun(w)
  {
    hide MatchMany, MatchAtom, IsRun, IsItem, ITEM;
    var c: seq<string>, n := [], |w|;
    forall m | 0 <= m <= n
      ensures MatchAtom(ITEM, w, 0, m, c) <==> IsItem(w[..m])
      ensures MatchMany(ITEM, w, m, n, c) <==> IsRun(w[m..])
    {
      ItemTakes(w, 0, m, c);
      ManyItems(w, m, n);
      assert w[0..m] == w[..m] && w[m..n] == w[m..];
    }
    ItemTakes(w, 0, 0, c);
    EmptyRun();
    if MatchTerm(Rep(ITEM, Several(false)), w, 0, n, c) {
      var m := FirstOfSeveral(ITEM, w);
      assert w[n..] == "";
      assert IsItem(w[..m]);
      ItemIsSome(w[..m]);
      RunCons(w, m);
    }
    if w != "" && IsRun(w) {
      var k := RunStarts(w);
      RunCons(w, k);
      assert MatchAtom(ITEM, w, 0, k, c);
    }
  }

  lemma FirstOfSeveral(a: Atom, w: string) returns (m: nat)
    requires MatchTerm(Rep(a, Several(false)), w, 0, |w|, [])
    ensures m <= |w| && MatchAtom(a, w, 0, m, []) && (m == |w| || MatchMany(a, w, m, |w|, []))
  {
    hide MatchAtom, MatchMany;
    var c: seq<string>, n := [], |w|;
    var k, d :| 0 <= k <= n && MatchAtom(a, w, 0, k, d) && if k == n then c == d else MatchMany(a, w, k, n, c);
    m := k;
    RoundGroups(a, w, 0, k, d);
  }

  lemma ItemIsSome(w: string)
    requires IsItem(w)
    ensures w != ""
  {
  }

  lemma RunTakes(w: string, c: seq<string>)
    ensures GroupsTerm(RUN) == 1 && AnchorlessTerm(RUN)
    ensures TakesTerm(RUN, w, c) <==> c == [w] && w != "" && IsRun(w)
  {
    hide MatchTerm, IsRun, ITEM, GroupsAtom, AnchorlessAtom, MatchAtom;
    var t := Rep(ITEM, Several(false));
    ItemTakes("", 0, 0, []);
    assert GroupsTerm(t) == 0 && AnchorlessTerm(t);
    OneShape(t);
    ParensGroups(One(t));
    TakesCapture(One(t), w, c);
    TakesOne(t, w, []);
    SeveralItems(w);
    AnchorlessOnce(Capture(Just(One(t))));
    hide TakesAlt, GroupsTerm, AnchorlessTerm;
    assert |c| == 1 ==> c == [c[0]] && c[1..] == [];
  }

  lemma AnchorlessOnce(a: Atom)
    ensures AnchorlessTerm(Rep(a, Once)) <==> AnchorlessAtom(a)
  {
  }

  /** The text is a run in parentheses. */
  predicate InParens(w: string, p: string) {
    p != "" && IsRun(p) && w == "(" + p + ")"
  }

  lemma ParensTakes(w: string, c: seq<string>)
    ensures GroupsAlt(PARENS) == 1 && AnchorlessAlt(PARENS)
    ensures TakesAlt(PARENS, w, c) <==> |c| == 1 && InParens(w, c[0])
  {
    hide RUN, IsRun, TakesAlt, TakesTerm;
    var close := Rep(Chr(')'), Once);
    TakesChar(')', "", []);
    OneShape(close);
    RunTakes("", []);
    var inner := Cons(RUN, One(close));
    assert GroupsAlt(inner) == GroupsTerm(RUN) + GroupsAlt(One(close)) && AnchorlessAlt(inner);
    CharThen('(', inner, w, c);
    if w != "" && w[0] == '(' {
      RunThenClose(w[1..], c);
    }
    if |c| == 1 && InParens(w, c[0]) {
      assert w[1..] == c[0] + ")";
    }
  }

  lemma RunThenClose(w: string, c: seq<string>)
    ensures TakesAlt(Cons(RUN, One(Rep(Chr(')'), Once))), w, c) <==>
            |c| == 1 && c[0] != "" && IsRun(c[0]) && w == c[0] + ")"
  {
    hide RUN, IsRun, TakesAlt, TakesTerm;
    var close := Rep(Chr(')'), Once);
    TakesChar(')', "", []);
    OneShape(close);
    RunTakes("", []);
    TakesCons(RUN, One(close), w, c);
    if k: nat :| TakesParts(RUN, One(close), w, c, k) {
      RunTakes(w[..k], c[..1]);
      TakesOne(close, w[k..], c[1..]);
      TakesChar(')', w[k..], c[1..]);
      assert c == c[..1] + c[1..] && w == w[..k] + w[k..];
    }
    if |c| == 1 && c[0] != "" && IsRun(c[0]) && w == c[0] + ")" {
      var k := |c[0]|;
      assert w[..k] == c[0] && w[k..] == ")" && c[..1] == c && c[1..] == [];
      RunTakes(w[..k], c[..1]);
      TakesOne(close, w[k..], c[1..]);
      TakesChar(')', w[k..], c[1..]);
      assert TakesParts(RUN, One(close), w, c, k);
    }
  }

  lemma WordTakes(w: string, c: seq<string>)
    ensures GroupsTerm(WORD) == 1 && AnchorlessTerm(WORD)
    ensures TakesTerm(WORD, w, c) <==> c == [w] && w != "" && AllWord(w)
  {
    var t := Rep(Class('w'), Several(false));
    assert GroupsTerm(t) == 0 && AnchorlessTerm(t);
    OneShape(t);
    ParensGroups(One(t));
    TakesCapture(One(t), w, c);
    TakesOne(t, w, []);
    AnchorlessOnce(Capture(Just(One(t))));
    assert |c| == 1 ==> c == [c[0]] && c[1..] == [];
    if w != "" {
      ManyCharacters(Class('w'), w, 1, |w|, [], x => IsWord(x));
      if AllWord(w) {
        assert MatchAtom(Class('w'), w, 0, 1, []);
      }
    }
  }

  // ----- names, patterns, modifiers -----

  lemma NamedTakes(w: string, c: seq<string>)
    ensures GroupsAlt(NAMED) == 2 && AnchorlessAlt(NAMED)
    ensures TakesAlt(NAMED, w, c) <==>
            && |c| == 2 && c[0] != "" && AllWord(c[0])
            && (c[1] == "" || IsRun(c[1])) && w == Core(c[0], c[1], "")
  {
    hide WORD, PARENS, IsRun, AllWord, TakesAlt, TakesTerm;
    var pattern := Rep(Group(Just(PARENS)), Optional(false));
    OptionalParens("", []);
    OneShape(pattern);
    WordTakes("", []);
    var inner := Cons(WORD, One(pattern));
    assert GroupsAlt(inner) == GroupsTerm(WORD) + GroupsAlt(One(pattern)) && AnchorlessAlt(inner);
    CharThen(':', inner, w, c);
    if w != "" && w[0] == ':' {
      NameThenPattern(w[1..], c);
      assert w == [':'] + w[1..];
    }
    if |c| == 2 && c[0] != "" && w == Core(c[0], c[1], "") {
      var tail := if c[1] == "" then "" else "(" + c[1] + ")";
      assert w == [':'] + (c[0] + tail);
      assert w[1..] == c[0] + tail;
    }
  }

  lemma OptionalParens(w: string, c: seq<string>)
    ensures var t := Rep(Group(Just(PARENS)), Optional(false)); GroupsTerm(t) == 1 && AnchorlessTerm(t)
    ensures TakesTerm(Rep(Group(Just(PARENS)), Optional(false)), w, c) <==>
            |c| == 1 && ((w == "" && c[0] == "") || InParens(w, c[0]))
  {
    ParensTakes(w, c);
    ParensGroups(PARENS);
    hide PARENS, InParens, MatchAlt;
    assert Blank(1) == [""];
    assert |c| == 1 ==> c == [c[0]];
    assert MatchAtom(Group(Just(PARENS)), w, 0, |w|, c) <==> TakesAlt(PARENS, w, c) by {
      OnlyAlt(PARENS, w, c);
    }
    assert InParens(w, if |c| == 1 then c[0] else "") ==> w != "" by {
      ParensAreSome(w, if |c| == 1 then c[0] else "");
    }
  }

  lemma ParensAreSome(w: string, p: string)
    ensures InParens(w, p) ==> w != ""
  {
  }

  lemma NameThenPattern(w: string, c: seq<string>)
    ensures TakesAlt(Cons(WORD, One(Rep(Group(Just(PARENS)), Optional(false)))), w, c) <==>
            && |c| == 2 && c[0] != "" && AllWord(c[0])
            && (c[1] == "" || IsRun(c[1])) && w == c[0] + if c[1] == "" then "" else "(" + c[1] + ")"
  {
    hide WORD, PARENS, IsRun, AllWord, TakesAlt, TakesTerm;
    var pattern := Rep(Group(Just(PARENS)), Optional(false));
    OptionalParens("", []);
    OneShape(pattern);
    WordTakes("", []);
    TakesCons(WORD, One(pattern), w, c);
    if k: nat :| TakesParts(WORD, One(pattern), w, c, k) {
      WordTakes(w[..k], c[..1]);
      TakesOne(pattern, w[k..], c[1..]);
      OptionalParens(w[k..], c[1..]);
      assert c == c[..1] + c[1..] && w == w[..k] + w[k..];
    }
    if |c| == 2 && c[0] != "" && AllWord(c[0]) && (c[1] == "" || IsRun(c[1])) &&
       w == c[0] + if c[1] == "" then "" else "(" + c[1] + ")" {
      var k := |c[0]|;
      assert w[..k] == c[0] && c[..1] == [c[0]] && c[1..] == [c[1]];
      assert w[k..] == if c[1] == "" then "" else "(" + c[1] + ")";
      WordTakes(w[..k], c[..1]);
      TakesOne(pattern, w[k..], c[1..]);
      OptionalParens(w[k..], c[1..]);
      assert TakesParts(WORD, One(pattern), w, c, k);
    }
  }

  /** The name and the pattern of a parameter, as the expression allows them. */
  predicate IsCore(name: string, capture: string, group: string) {
    if name == "" then capture == "" && group != "" && IsRun(group)
    else AllWord(name) && group == "" && (capture == "" || IsRun(capture))
  }

  lemma CoreTakes(w: string, c: seq<string>)
    ensures GroupsTerm(CORE) == 3 && AnchorlessTerm(CORE)
    ensures TakesTerm(CORE, w, c) <==>
            |c| == 3 && IsCore(c[0], c[1], c[2]) && w == Core(c[0], c[1], c[2])
  {
    hide NAMED, PARENS, IsRun, AllWord, TakesAlt, TakesTerm, MatchAtom;
    NamedTakes(w, if |c| == 3 then c[..2] else []);
    ParensTakes(w, if |c| == 3 then c[2..] else []);
    TakesOr(NAMED, PARENS, w, c);
    TakesOnce(Group(Or(NAMED, Just(PARENS))), w, c);
    assert Blank(1) == [""] && Blank(2) == ["", ""];
    if |c| == 3 {
      assert c[2..] == [c[2]] && c[..2] == [c[0], c[1]];
    }
  }

  predicate IsModifierText(m: string) {
    m == "" || m == "+" || m == "*" || m == "?"
  }

  predicate IsPrefixText(p: string) {
    p == "" || p == "/" || p == "."
  }

  lemma ModifierTakes(w: string, c: seq<string>)
    ensures GroupsTerm(MODIFIER) == 1 && AnchorlessTerm(MODIFIER)
    ensures TakesTerm(MODIFIER, w, c) <==> c == [w] && IsModifierText(w)
  {
    TakesOptionalClass("+*?", w, c);
    assert |w| == 1 ==> w == [w[0]];
  }

  lemma PrefixTakes(w: string, c: seq<string>)
    ensures GroupsTerm(PREFIX) == 1 && AnchorlessTerm(PREFIX)
    ensures TakesTerm(PREFIX, w, c) <==> c == [w] && IsPrefixText(w)
  {
    TakesOptionalClass("/.", w, c);
    assert |w| == 1 ==> w == [w[0]];
  }

  lemma StarTakes(w: string, c: seq<string>)
    ensures GroupsTerm(STAR) == 1 && AnchorlessTerm(STAR)
    ensures TakesTerm(STAR, w, c) <==> c == ["*"] && w == "*"
  {
    var t := Rep(Chr('*'), Once);
    TakesChar('*', w, []);
    OneShape(t);
    ParensGroups(One(t));
    TakesCapture(One(t), w, c);
    TakesOne(t, w, []);
    AnchorlessOnce(Capture(Just(One(t))));
    assert |c| == 1 ==> c == [c[0]] && c[1..] == [];
  }

  lemma ParamTakes(w: string, c: seq<string>)
    ensures var a := Cons(CORE, One(MODIFIER)); GroupsAlt(a) == 4 && AnchorlessAlt(a)
    ensures TakesAlt(Cons(CORE, One(MODIFIER)), w, c) <==>
            |c| == 4 && IsCore(c[0], c[1], c[2]) && IsModifierText(c[3]) && w == Core(c[0], c[1], c[2]) + c[3]
  {
    hide CORE, MODIFIER, IsCore, Core, TakesAlt, TakesTerm;
    CoreTakes("", []);
    ModifierTakes("", []);
    OneShape(MODIFIER);
    TakesCons(CORE, One(MODIFIER), w, c);
    if k: nat :| TakesParts(CORE, One(MODIFIER), w, c, k) {
      CoreTakes(w[..k], c[..3]);
      TakesOne(MODIFIER, w[k..], c[3..]);
      ModifierTakes(w[k..], c[3..]);
      assert c == c[..3] + c[3..] && w == w[..k] + w[k..];
    }
    if |c| == 4 && IsCore(c[0], c[1], c[2]) && IsModifierText(c[3]) && w == Core(c[0], c[1], c[2]) + c[3] {
      var k := |Core(c[0], c[1], c[2])|;
      assert w[..k] == Core(c[0], c[1], c[2]) && w[k..] == c[3] && c[3..] == [c[3]];
      CoreTakes(w[..k], c[..3]);
      TakesOne(MODIFIER, w[k..], c[3..]);
      ModifierTakes(w[k..], c[3..]);
      assert TakesParts(CORE, One(MODIFIER), w, c, k);
    }
  }

  // ----- whole finds -----

  /** The groups of a find: the escaped character, the prefix, the name, its pattern, a pattern
      without a name, the modifier, and the asterisk. */
  function GroupsOf(x: Lexeme): seq<string> {
    match x
    case Plain(_) => []
    case Escaped(c) => [['\\', c], "", "", "", "", "", ""]
    case Param(prefix, name, capture, group, modifier) => ["", prefix, name, capture, group, modifier, ""]
    case Asterisk(prefix) => ["", prefix, "", "", "", "", "*"]
  }

  /** What the expression can match, not always as far as it can. */
  predicate IsMatch(x: Lexeme) {
    match x
    case Plain(_) => false
    case Escaped(c) => !IsLineBreak(c)
    case Param(prefix, name, capture, group, modifier) =>
      IsPrefixText(prefix) && IsCore(name, capture, group) && IsModifierText(modifier)
    case Asterisk(prefix) => IsPrefixText(prefix)
  }

  /** A find without its prefix, and its groups from the name on. */
  predicate IsBody(w: string, c: seq<string>) {
    && |c| == 5
    && if c[4] == "" then IsCore(c[0], c[1], c[2]) && IsModifierText(c[3]) && w == Core(c[0], c[1], c[2]) + c[3]
       else c == ["", "", "", "", "*"] && w == "*"
  }

  lemma BodyTakes(w: string, c: seq<string>)
    ensures GroupsTerm(BODY) == 5 && AnchorlessTerm(BODY)
    ensures TakesTerm(BODY, w, c) <==> IsBody(w, c)
  {
    hide CORE, MODIFIER, STAR, IsCore, Core, TakesAlt, TakesTerm, MatchAtom;
    ParamTakes(w, if |c| == 5 then c[..4] else []);
    StarTakes(w, if |c| == 5 then c[4..] else []);
    OneShape(STAR);
    TakesOne(STAR, w, if |c| == 5 then c[4..] else []);
    TakesOr(Cons(CORE, One(MODIFIER)), One(STAR), w, c);
    TakesOnce(Group(Or(Cons(CORE, One(MODIFIER)), Just(One(STAR)))), w, c);
    assert Blank(1) == [""] && Blank(4) == ["", "", "", ""];
    if |c| == 5 {
      assert c[4..] == [c[4]] && c[..4] == [c[0], c[1], c[2], c[3]];
    }
  }

  /** A parameter or an asterisk, with its groups but the first. */
  ghost predicate IsPrefixed(w: string, c: seq<string>) {
    exists x :: !IsLiteral(x) && IsMatch(x) && w == Spell(x) && c == GroupsOf(x)[1..]
  }

  lemma PrefixedTakes(w: string, c: seq<string>)
    ensures var a := Cons(PREFIX, One(BODY)); GroupsAlt(a) == 6 && AnchorlessAlt(a)
    ensures TakesAlt(Cons(PREFIX, One(BODY)), w, c) <==> IsPrefixed(w, c)
  {
    hide PREFIX, BODY, IsCore, Core, TakesAlt, TakesTerm;
    PrefixTakes("", []);
    BodyTakes("", []);
    OneShape(BODY);
    TakesCons(PREFIX, One(BODY), w, c);
    if k: nat :| TakesParts(PREFIX, One(BODY), w, c, k) {
      PrefixTakes(w[..k], c[..1]);
      TakesOne(BODY, w[k..], c[1..]);
      BodyTakes(w[k..], c[1..]);
      assert w == w[..k] + w[k..];
      PrefixedFound(w[..k], w[k..], c);
    }
    if x :| !IsLiteral(x) && IsMatch(x) && w == Spell(x) && c == GroupsOf(x)[1..] {
      var k := |x.prefix|;
      var body := PrefixedSplit(x);
      assert w[..k] == x.prefix && w[k..] == body;
      PrefixTakes(w[..k], c[..1]);
      TakesOne(BODY, w[k..], c[1..]);
      BodyTakes(w[k..], c[1..]);
      assert TakesParts(PREFIX, One(BODY), w, c, k);
    }
  }

  lemma PrefixedFound(prefix: string, body: string, c: seq<string>)
    requires |c| == 6 && c[0] == prefix && IsPrefixText(prefix) && IsBody(body, c[1..])
    ensures IsPrefixed(prefix + body, c)
  {
    hide IsCore, Core;
    var x := if c[5] == "" then Param(prefix, c[1], c[2], c[3], c[4]) else Asterisk(prefix);
    assert c == [c[0], c[1], c[2], c[3], c[4], c[5]] && c[1..] == [c[1], c[2], c[3], c[4], c[5]];
    assert c[5] != "" ==> c == [prefix, "", "", "", "", "*"];
    assert GroupsOf(x)[1..] == c && Spell(x) == prefix + body && IsMatch(x) && !IsLiteral(x);
  }

  /** A find is its prefix and a body that the expression can take. */
  lemma PrefixedSplit(x: Lexeme) returns (body: string)
    requires !IsLiteral(x) && IsMatch(x)
    ensures Spell(x) == x.prefix + body && GroupsOf(x)[1..][..1] == [x.prefix]
    ensures IsBody(body, GroupsOf(x)[1..][1..])
  {
    hide IsCore, Core;
    match x
    case Param(_, name, capture, group, modifier) => body := Core(name, capture, group) + modifier;
    case Asterisk(_) => body := "*";
  }

  lemma EscapedTakes(w: string, c: seq<string>)
    ensures GroupsTerm(ESCAPED) == 1 && AnchorlessTerm(ESCAPED)
    ensures TakesTerm(ESCAPED, w, c) <==> c == [w] && |w| == 2 && w[0] == '\\' && !IsLineBreak(w[1])
  {
    hide PAIR, IsLineBreak;
    PairTakes(w, []);
    ParensGroups(PAIR);
    TakesCapture(PAIR, w, c);
    AnchorlessOnce(Capture(Just(PAIR)));
    assert |c| == 1 ==> c == [c[0]] && c[1..] == [];
  }

  /** The expression matches a whole text exactly when the text is spelled by something it can
      match, and then its groups say what. */
  lemma ScannerTakes(w: string, c: seq<string>)
    ensures AnchorlessRe(SCANNER)
    ensures Accepts(SCANNER, w, c) <==> exists x :: IsMatch(x) && w == Spell(x) && c == GroupsOf(x)
  {
    hide ESCAPED, PREFIX, BODY, TakesAlt, TakesTerm, IsPrefixed, IsCore, Core, Spell, MatchAlt;
    var others := Cons(PREFIX, One(BODY));
    var d := if |c| == 7 then c else seq(7, _ => "");
    EscapedTakes(w, d[..1]);
    TakesOne(ESCAPED, w, d[..1]);
    OneShape(ESCAPED);
    PrefixedTakes(w, d[1..]);
    OrTakes(One(ESCAPED), others, w, c);
    assert Blank(1) == [""] && Blank(6) == ["", "", "", "", "", ""];
    if Accepts(SCANNER, w, c) {
      ScannerFound(w, c);
    }
    if x :| IsMatch(x) && w == Spell(x) && c == GroupsOf(x) {
      if x.Escaped? {
        EscapedSpelling(x);
        assert c[..1] == [w] && c[1..] == Blank(6);
      } else {
        assert c[..1] == Blank(1);
        assert IsPrefixed(w, c[1..]) by { PrefixedIs(x); }
      }
    }
  }

  lemma EscapedSpelling(x: Lexeme)
    requires x.Escaped?
    ensures Spell(x) == ['\\', x.c]
  {
  }

  lemma PrefixedIs(x: Lexeme)
    requires !IsLiteral(x) && IsMatch(x)
    ensures IsPrefixed(Spell(x), GroupsOf(x)[1..])
  {
  }

  /** The whole of an expression with two alternatives. */
  lemma OrTakes(a: Alt, b: Alt, w: string, c: seq<string>)
    ensures AnchorlessRe(Or(a, Just(b))) <==> AnchorlessAlt(a) && AnchorlessAlt(b)
    ensures Accepts(Or(a, Just(b)), w, c) <==>
            var g := GroupsAlt(a);
            && |c| == g + GroupsAlt(b)
            && (|| (TakesAlt(a, w, c[..g]) && c[g..] == Blank(GroupsAlt(b)))
                || (c[..g] == Blank(g) && TakesAlt(b, w, c[g..])))
  {
    hide MatchAlt, GroupsAlt, AnchorlessAlt;
    TakesOr(a, b, w, c);
    var r := Or(a, Just(b));
    assert AnchorlessAtom(Group(r)) <==> AnchorlessRe(r);
    assert GroupsAtom(Group(r)) == GroupsRe(r);
    assert MatchAtom(Group(r), w, 0, |w|, c) <==> |c| == GroupsRe(r) && MatchRe(r, w, 0, |w|, c);
  }

  lemma ScannerFound(w: string, c: seq<string>)
    requires |c| == 7
    requires || (c[..1] == [w] && |w| == 2 && w[0] == '\\' && !IsLineBreak(w[1]) && c[1..] == Blank(6))
             || (c[..1] == [""] && IsPrefixed(w, c[1..]))
    ensures exists x :: IsMatch(x) && w == Spell(x) && c == GroupsOf(x)
  {
    hide IsCore, Core;
    assert c == c[..1] + c[1..];
    if c[..1] == [""] && IsPrefixed(w, c[1..]) {
      var x :| !IsLiteral(x) && IsMatch(x) && w == Spell(x) && c[1..] == GroupsOf(x)[1..];
      assert GroupsOf(x) == [""] + GroupsOf(x)[1..];
    } else {
      var x := Escaped(w[1]);
      assert w == ['\\', w[1]] == Spell(x);
      assert Blank(6) == ["", "", "", "", "", ""];
      assert c == GroupsOf(x) && IsMatch(x);
    }
  }

  // ----- the longest match -----

  lemma {:induction false} ItemsOfPrefix(s: string)
    ensures IsRun(s[..ItemsLength(s)])
  {
    var n := ItemsLength(s);
    var w := s[..n];
    if n > 0 {
      var k := if s[0] == '\\' then 2 else 1;
      ItemsOfPrefix(s[k..]);
      assert w[k..] == s[k..][..n - k];
      assert w[0] == s[0] && (k == 2 ==> w[1] == s[1]);
    }
  }

  lemma ParenthesisedIsRun(s: string)
    ensures Parenthesised(s).Some? ==> IsRun(Parenthesised(s).value)
  {
    if s != "" {
      ItemsOfPrefix(s[1..]);
    }
  }

  lemma HitIsMatch(s: string)
    requires Hit(s).Some?
    ensures IsMatch(Hit(s).value)
  {
    hide IsWord, IsRun, IsLineBreak, Parenthesised;
    if s[0] != '\\' {
      var prefix := if IsPrefix(s[0]) then s[..1] else "";
      var body := s[|prefix|..];
      assert IsPrefixText(prefix);
      ParenthesisedIsRun(body);
      if body[0] == ':' {
        var n := WordLength(body[1..]);
        ParenthesisedIsRun(body[1..][n..]);
        assert AllWord(body[1..][..n]);
      }
    }
  }

  lemma {:induction false} WordLengthAtLeast(w: string, rest: string)
    requires AllWord(w)
    ensures WordLength(w + rest) >= |w|
  {
    if w != "" {
      assert (w + rest)[1..] == w[1..] + rest;
      WordLengthAtLeast(w[1..], rest);
    }
  }

  /** At least as long, and the same if as long. */
  ghost predicate Outdoes(y: Lexeme, x: Lexeme) {
    |Spell(y)| >= |Spell(x)| && (|Spell(y)| == |Spell(x)| ==> y == x)
  }

  lemma LongerModifier(prefix: string, name: string, capture: string, group: string, m: string, rest: string)
    requires IsModifierText(m)
    ensures Outdoes(Param(prefix, name, capture, group, ModifierAt(m + rest)), Param(prefix, name, capture, group, m))
  {
    hide Core;
    if m != "" {
      assert (m + rest)[..1] == m && (m + rest)[0] == m[0];
    }
  }

  lemma GroupOutdone(x: Lexeme, rest: string) returns (body: string)
    requires x.Param? && x.name == "" && IsMatch(x)
    ensures body != "" && body[0] == '(' && Spell(x) + rest == x.prefix + body
    ensures HitBody(x.prefix, body).Some? && Outdoes(HitBody(x.prefix, body).value, x)
  {
    hide ItemsLength, Parenthesised, ModifierAt, Outdoes, Spell;
    var tail := x.modifier + rest;
    body := SpelledParam(x, rest);
    assert body == "(" + x.group + ")" + tail;
    ParenthesisedExact(x.group, tail);
    LongerModifier(x.prefix, "", "", x.group, x.modifier, rest);
  }

  lemma NameOutdone(x: Lexeme, rest: string) returns (body: string)
    requires x.Param? && x.name != "" && IsMatch(x)
    ensures body != "" && body[0] == ':' && Spell(x) + rest == x.prefix + body
    ensures HitBody(x.prefix, body).Some? && Outdoes(HitBody(x.prefix, body).value, x)
  {
    hide ItemsLength, WordLength, Parenthesised, ModifierAt, Outdoes, Spell, AllWord, IsWord, HitBody, IsRun;
    body := SpelledParam(x, rest);
    var after := NamedBody(x, rest, body);
    WordLengthAtLeast(x.name, after);
    var n := WordLength(body[1..]);
    HitNamed(x.prefix, body, n);
    if n > |x.name| {
      LongerName(x, after, rest, n);
      HitLongerName(x, body, n);
    } else {
      assert body[1..][..n] == x.name && body[1..][n..] == after;
      PatternOutdone(x, after, rest);
    }
  }

  /** If the name goes on, nothing else was matched after it. */
  lemma LongerName(x: Lexeme, after: string, rest: string, n: nat)
    requires x.Param? && x.name != "" && IsMatch(x) && n == WordLength(x.name + after) > |x.name|
    requires after == if x.capture == "" then x.modifier + rest else "(" + x.capture + ")" + (x.modifier + rest)
    ensures x.capture == "" && x.modifier == ""
  {
    hide ItemsLength, WordLength, IsRun;
    assert (x.name + after)[|x.name|] == after[0];
    assert IsWord(after[0]);
  }

  lemma HitLongerName(x: Lexeme, body: string, n: nat)
    requires x.Param? && x.name != "" && x.capture == "" && x.group == "" && x.modifier == ""
    requires body != "" && body[0] == ':' && n == WordLength(body[1..]) > |x.name|
    ensures HitBody(x.prefix, body).Some? && Outdoes(HitBody(x.prefix, body).value, x)
  {
    hide ItemsLength, WordLength, Parenthesised, ModifierAt;
    var y := HitBody(x.prefix, body).value;
    assert |y.name| == n;
  }

  /** What is found after the name. */
  lemma PatternOutdone(x: Lexeme, after: string, rest: string)
    requires x.Param? && x.name != "" && IsMatch(x)
    requires after == if x.capture == "" then x.modifier + rest else "(" + x.capture + ")" + (x.modifier + rest)
    ensures var found := Parenthesised(after);
            && (found.Some? ==>
                  Outdoes(Param(x.prefix, x.name, found.value, "", ModifierAt(after[|found.value| + 2..])), x))
            && (found.None? ==> Outdoes(Param(x.prefix, x.name, "", "", ModifierAt(after)), x))
  {
    hide ItemsLength, ModifierAt, IsWord;
    LongerModifier(x.prefix, x.name, x.capture, "", x.modifier, rest);
    if x.capture != "" {
      hide Parenthesised;
      ParenthesisedExact(x.capture, x.modifier + rest);
    } else if x.modifier != "" {
      assert after[0] == x.modifier[0];
    }
  }

  lemma ParamOutdone(x: Lexeme, rest: string)
    requires x.Param? && IsMatch(x)
    ensures Hit(Spell(x) + rest).Some? && Outdoes(Hit(Spell(x) + rest).value, x)
  {
    hide Spell, Outdoes, Hit, HitBody, IsCore;
    var body;
    if x.name == "" {
      body := GroupOutdone(x, rest);
    } else {
      body := NameOutdone(x, rest);
    }
    PrefixedBody(x.prefix, body);
  }

  lemma AsteriskFound(prefix: string, rest: string)
    requires IsPrefixText(prefix)
    ensures Hit(prefix + ("*" + rest)) == Some(Asterisk(prefix))
  {
    hide ItemsLength, WordLength, Hit;
    PrefixedBody(prefix, "*" + rest);
  }

  lemma EscapedFound(c: char, rest: string)
    requires !IsLineBreak(c)
    ensures Hit(['\\', c] + rest) == Some(Escaped(c))
  {
    hide HitBody, IsLineBreak;
  }

  /** Whatever the expression can match at the start of a text, the find goes at least as far. */
  lemma HitOutdoes(x: Lexeme, s: string)
    requires IsMatch(x) && Spell(x) <= s
    ensures Hit(s).Some? && Outdoes(Hit(s).value, x)
  {
    hide Hit, Outdoes, IsLineBreak, IsCore, Core;
    var rest := s[|Spell(x)|..];
    assert s == Spell(x) + rest;
    match x
    case Escaped(c) =>
      EscapedFound(c, rest);
      SameOutdoes(x);
    case Asterisk(prefix) =>
      AsteriskFound(prefix, rest);
      assert s == prefix + ("*" + rest);
      SameOutdoes(x);
    case Param(_, _, _, _, _) =>
      ParamOutdone(x, rest);
  }

  lemma SameOutdoes(x: Lexeme)
    ensures Outdoes(x, x)
  {
  }

  // ----- the scanner and the expression -----

  lemma ScannerIsLocal(mask: string, i: nat, j: nat, c: seq<string>)
    requires i <= j <= |mask|
    ensures MatchRe(SCANNER, mask, i, j, c) <==> Accepts(SCANNER, mask[i..j], c)
  {
    hide MatchRe, AnchorlessRe, SCANNER;
    var w := mask[i..j];
    ScannerTakes(w, c);
    assert SameText(mask, i, j, w, 0, |w|) && SameText(w, 0, |w|, mask, i, j) by {
      assert w[0..|w|] == w;
    }
    if MatchRe(SCANNER, mask, i, j, c) {
      LocalRe(SCANNER, mask, i, j, w, 0, |w|, c);
    }
    if Accepts(SCANNER, w, c) {
      LocalRe(SCANNER, w, 0, |w|, mask, i, j, c);
    }
  }

  /** Nothing is found where the expression matches nothing; what is found is a match, with its
      groups; and every other match there is shorter.  So greedy matching never takes a choice
      back. */
  lemma HitIsLongestMatch(mask: string, i: nat, j: nat, c: seq<string>)
    requires i <= j <= |mask|
    ensures Hit(mask[i..]).Some? ==>
              var x := Hit(mask[i..]).value;
              i + |Spell(x)| <= |mask| && MatchRe(SCANNER, mask, i, i + |Spell(x)|, GroupsOf(x))
    ensures MatchRe(SCANNER, mask, i, j, c) ==>
              && Hit(mask[i..]).Some?
              && var x := Hit(mask[i..]).value;
                 j <= i + |Spell(x)| && (j == i + |Spell(x)| ==> c == GroupsOf(x))
  {
    hide Hit, Spell, IsMatch, GroupsOf, MatchRe, SCANNER;
    var s := mask[i..];
    if Hit(s).Some? {
      var x := Hit(s).value;
      HitSpells(s);
      HitIsMatch(s);
      var e := i + |Spell(x)|;
      assert mask[i..e] == s[..|Spell(x)|] == Spell(x);
      ScannerTakes(Spell(x), GroupsOf(x));
      ScannerIsLocal(mask, i, e, GroupsOf(x));
    }
    if MatchRe(SCANNER, mask, i, j, c) {
      ScannerIsLocal(mask, i, j, c);
      ScannerTakes(mask[i..j], c);
      var x :| IsMatch(x) && mask[i..j] == Spell(x) && c == GroupsOf(x);
      assert s[..j - i] == mask[i..j];
      HitOutdoes(x, s);
    }
  }
}
