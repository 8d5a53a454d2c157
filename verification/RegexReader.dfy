/** Reading regular-expression text back into a tree, by the grammar of section 15.10.1
    of ECMA-262, 3rd edition.  The reader covers the productions the route compiler and
    typical custom patterns need: no counted repetition `{n,m}`, no back references, no
    negative lookahead, no hyphen that is itself in brackets.  Text outside that fragment reads as
    None.  `\$` is read as an escaped dollar, as later editions and std::regex do. */
module RegexReader {
  import opened Wrappers
  import opened Regex

  // ----- the reader -----

  function ReadRe(s: string): (r: Option<(Re, string)>)
    ensures r.Some? ==> |r.value.1| <= |s|
    decreases |s|, 4
  {
    var (a, rest) :- ReadAlt(s);
    if rest != "" && rest[0] == '|' then
      var (o, rest') :- ReadRe(rest[1..]);
      Some((Or(a, o), rest'))
    else
      Some((Just(a), rest))
  }

  function ReadAlt(s: string): (r: Option<(Alt, string)>)
    ensures r.Some? ==> |r.value.1| <= |s|
    decreases |s|, 3
  {
    if s == "" || s[0] in ")|" then Some((Nil, s))
    else
      var (t, rest) :- ReadTerm(s);
      var (a, rest') :- ReadAlt(rest);
      Some((Cons(t, a), rest'))
  }

  function ReadTerm(s: string): (r: Option<(Term, string)>)
    requires s != ""
    ensures r.Some? ==> |r.value.1| < |s|
    decreases |s|, 2
  {
    if s[0] == '^' then Some((Start, s[1..]))
    else if s[0] == '$' then Some((End, s[1..]))
    else if "(?=" <= s then
      var (re, rest) :- ReadInParens(s, 3);
      Some((Ahead(re), rest))
    else
      var (a, rest) :- ReadAtom(s);
      var (n, rest') := ReadCount(rest);
      Some((Rep(a, n), rest'))
  }

  /** What stands between the opening `s[..skip]` and the closing parenthesis. */
  function ReadInParens(s: string, skip: nat): (r: Option<(Re, string)>)
    requires 0 < skip <= |s|
    ensures r.Some? ==> |r.value.1| < |s|
    decreases |s|, 0
  {
    var (re, rest) :- ReadRe(s[skip..]);
    if rest != "" && rest[0] == ')' then Some((re, rest[1..])) else None
  }

  function ReadAtom(s: string): (r: Option<(Atom, string)>)
    requires s != ""
    ensures r.Some? ==> |r.value.1| < |s|
    decreases |s|, 1
  {
    if s[0] == '.' then Some((Dot, s[1..]))
    else if s[0] == '\\' then
      if |s| == 1 then None
      else if IsClassLetter(s[1]) then Some((Class(s[1]), s[2..]))
      else if IsWord(s[1]) then None
      else Some((Chr(s[1]), s[2..]))
    else if "[^" <= s then
      var (items, rest) :- ReadItems(s[2..]);
      Some((Brackets(true, items), rest))
    else if s[0] == '[' then
      var (items, rest) :- ReadItems(s[1..]);
      Some((Brackets(false, items), rest))
    else if "(?:" <= s then
      var (re, rest) :- ReadInParens(s, 3);
      Some((Group(re), rest))
    else if "(?" <= s then None
    else if s[0] == '(' then
      var (re, rest) :- ReadInParens(s, 1);
      Some((Capture(re), rest))
    else if s[0] in "*+?)[]{}|^$" then None
    else Some((Chr(s[0]), s[1..]))
  }

  /** What stands in brackets, up to the closing one. */
  function ReadItems(s: string): (r: Option<(seq<Item>, string)>)
    ensures r.Some? ==> |r.value.1| < |s|
  {
    if s == "" then None
    else if s[0] == ']' then Some(([], s[1..]))
    else
      var (x, rest) :- ReadItem(s);
      var (xs, rest') :- ReadItems(rest);
      Some(([x] + xs, rest'))
  }

  function ReadItem(s: string): (r: Option<(Item, string)>)
    ensures r.Some? ==> |r.value.1| < |s|
  {
    if |s| >= 2 && s[0] == '\\' && IsClassLetter(s[1]) then Some((Letter(s[1]), s[2..]))
    else
      var (lo, rest) :- ReadItemChar(s);
      if rest == "" || rest[0] != '-' then Some((Span(lo, lo), rest))
      else
        var (hi, rest') :- ReadItemChar(rest[1..]);
        if lo <= hi then Some((Span(lo, hi), rest')) else None
  }

  function ReadItemChar(s: string): (r: Option<(char, string)>)
    ensures r.Some? ==> |r.value.1| < |s|
  {
    if s == "" || s[0] in "-]" then None
    else if s[0] == '\\' then
      if |s| == 1 || IsWord(s[1]) then None else Some((s[1], s[2..]))
    else Some((s[0], s[1..]))
  }

  function ReadCount(s: string): (r: (Count, string))
    ensures |r.1| <= |s|
  {
    if s == "" then (Once, s)
    else if s[0] == '?' then var (lazy, rest) := ReadLazy(s[1..]); (Optional(lazy), rest)
    else if s[0] == '*' then var (lazy, rest) := ReadLazy(s[1..]); (Many(lazy), rest)
    else if s[0] == '+' then var (lazy, rest) := ReadLazy(s[1..]); (Several(lazy), rest)
    else (Once, s)
  }

  function ReadLazy(s: string): (r: (bool, string))
    ensures |r.1| <= |s|
  {
    if s != "" && s[0] == '?' then (true, s[1..]) else (false, s)
  }

  /** The tree a whole text denotes. */
  function Read(s: string): Option<Re> {
    var (r, rest) :- ReadRe(s);
    if rest == "" then Some(r) else None
  }

  // ----- well-formed trees read back -----

  predicate WellFormedRe(r: Re) {
    match r
    case Just(a) => WellFormedAlt(a)
    case Or(a, o) => WellFormedAlt(a) && WellFormedRe(o)
  }

  predicate WellFormedAlt(a: Alt) {
    a.Cons? ==> WellFormedTerm(a.head) && WellFormedAlt(a.tail)
  }

  predicate WellFormedTerm(t: Term) {
    match t
    case Ahead(r) => WellFormedRe(r)
    case Rep(a, _) => WellFormedAtom(a)
    case _ => true
  }

  predicate WellFormedAtom(a: Atom) {
    match a
    case Class(k) => IsClassLetter(k)
    case Brackets(_, items) => forall i :: 0 <= i < |items| ==> WellFormedItem(items[i])
    case Group(r) => WellFormedRe(r)
    case Capture(r) => WellFormedRe(r)
    case _ => true
  }

  predicate WellFormedItem(x: Item) {
    match x
    case Span(lo, hi) => lo <= hi && lo != '-' && hi != '-'
    case Letter(k) => IsClassLetter(k)
  }

  /** A sequence of one term is read, written and counted like that term. */
  lemma OneShape(t: Term)
    ensures TextAlt(One(t)) == TextTerm(t) == TextRe(Just(One(t)))
    ensures GroupsAlt(One(t)) == GroupsTerm(t)
    ensures WellFormedAlt(One(t)) <==> WellFormedTerm(t)
    ensures AnchorlessAlt(One(t)) <==> AnchorlessTerm(t)
  {
    assert TextAlt(One(t)) == TextTerm(t) + TextAlt(Nil);
    assert GroupsAlt(One(t)) == GroupsTerm(t) + GroupsAlt(Nil);
    assert WellFormedAlt(Nil) && AnchorlessAlt(Nil);
  }

  /** Parentheses around a sequence of terms. */
  lemma ParensShape(a: Alt, n: Count)
    ensures TextTerm(Rep(Group(Just(a)), n)) == "(?:" + TextAlt(a) + ")" + TextCount(n)
    ensures TextTerm(Rep(Capture(Just(a)), n)) == "(" + TextAlt(a) + ")" + TextCount(n)
    ensures GroupsTerm(Rep(Group(Just(a)), n)) == GroupsAlt(a)
    ensures GroupsTerm(Rep(Capture(Just(a)), n)) == 1 + GroupsAlt(a)
    ensures WellFormedAlt(a) ==> WellFormedTerm(Rep(Group(Just(a)), n)) && WellFormedTerm(Rep(Capture(Just(a)), n))
  {
    assert TextRe(Just(a)) == TextAlt(a);
    assert TextAtom(Group(Just(a))) == "(?:" + TextAlt(a) + ")";
    assert TextAtom(Capture(Just(a))) == "(" + TextAlt(a) + ")";
    assert GroupsRe(Just(a)) == GroupsAlt(a);
    assert GroupsAtom(Group(Just(a))) == GroupsAlt(a);
    assert WellFormedRe(Just(a)) == WellFormedAlt(a);
    assert WellFormedAlt(a) ==> WellFormedAtom(Group(Just(a))) && WellFormedAtom(Capture(Just(a)));
  }

  /** A text ends a sequence of terms when it is empty or goes on with `)` or `|`. */
  predicate EndsAlt(rest: string) {
    rest == "" || rest[0] in ")|"
  }

  predicate EndsRe(rest: string) {
    rest == "" || rest[0] == ')'
  }

  /** A term is not followed by something that would change its repetition. */
  predicate EndsTerm(rest: string) {
    rest == "" || rest[0] !in "*+?"
  }

  lemma {:induction false} TermStart(t: Term)
    requires WellFormedTerm(t)
    ensures TextTerm(t) != "" && TextTerm(t)[0] !in ")|*+?"
  {
    match t
    case Rep(a, n) =>
      match a {
        case Chr(c) =>
        case _ => assert TextAtom(a) != "" && TextAtom(a)[0] in ".\\[(";
      }
    case _ =>
  }

  lemma AltStart(a: Alt, rest: string)
    requires WellFormedAlt(a) && EndsAlt(rest)
    ensures EndsTerm(TextAlt(a) + rest)
    ensures a.Cons? ==> TextAlt(a) + rest != "" && (TextAlt(a) + rest)[0] !in ")|"
  {
    if a.Cons? {
      TermStart(a.head);
    }
  }

  lemma ReadTextCount(n: Count, rest: string)
    requires EndsTerm(rest)
    ensures ReadCount(TextCount(n) + rest) == (n, rest)
  {
    var s := TextCount(n) + rest;
    match n
    case Once => assert s == rest;
    case _ =>
      assert s[1..] == TextLazy(n.lazy) + rest;
      if n.lazy {
        assert s[1..][1..] == rest;
      } else {
        assert s[1..] == rest;
      }
  }

  lemma ReadEscapedChar(c: char, tail: string)
    requires c != '-'
    ensures ReadItemChar(EscapeChar(c) + tail) == Some((c, tail))
  {
    var s := EscapeChar(c) + tail;
    if IsStringSpecial(c) {
      assert s[2..] == tail && !IsWord(s[1]);
    } else {
      assert s[1..] == tail;
    }
  }

  lemma ReadTextItem(x: Item, tail: string)
    requires WellFormedItem(x) && tail != "" && tail[0] != '-'
    ensures ReadItem(TextItem(x) + tail) == Some((x, tail))
  {
    hide ReadItemChar, EscapeChar;
    var s := TextItem(x) + tail;
    match x
    case Letter(k) => assert s[2..] == tail;
    case Span(lo, hi) =>
      var rest := if lo == hi then tail else "-" + (EscapeChar(hi) + tail);
      assert s == EscapeChar(lo) + rest;
      NotLetter(lo, rest);
      ReadEscapedChar(lo, rest);
      ReadEscapedChar(hi, tail);
      assert lo != hi ==> rest[1..] == EscapeChar(hi) + tail;
  }

  /** An escaped character is never taken for a class. */
  lemma NotLetter(c: char, tail: string)
    ensures var s := EscapeChar(c) + tail; !(|s| >= 2 && s[0] == '\\' && IsClassLetter(s[1]))
  {
  }

  lemma ItemStart(x: Item)
    requires WellFormedItem(x)
    ensures TextItem(x) != "" && TextItem(x)[0] !in "-]"
  {
  }

  lemma {:induction false} ReadTextItems(items: seq<Item>, rest: string)
    requires forall i :: 0 <= i < |items| ==> WellFormedItem(items[i])
    ensures ReadItems(TextItems(items) + ("]" + rest)) == Some((items, rest))
  {
    hide ReadItem, TextItem, WellFormedItem;
    var s := TextItems(items) + ("]" + rest);
    if items == [] {
      assert s == "]" + rest;
    } else {
      var x, tail := items[0], TextItems(items[1..]) + ("]" + rest);
      ReadTextItems(items[1..], rest);
      assert s == TextItem(x) + tail;
      ItemStart(x);
      if |items| > 1 {
        ItemStart(items[1]);
        assert tail[0] == TextItem(items[1])[0];
      }
      ReadTextItem(x, tail);
      assert items == [x] + items[1..];
    }
  }

  /** Reading the text of a tree gives the tree back, whatever follows it. */
  lemma {:induction false} ReadTextRe(r: Re, rest: string)
    requires WellFormedRe(r) && EndsRe(rest)
    ensures ReadRe(TextRe(r) + rest) == Some((r, rest))
    decreases r, 0
  {
    hide ReadAlt, TextAlt, WellFormedAlt;
    match r
    case Just(a) => ReadTextAlt(a, rest);
    case Or(a, o) =>
      var more := "|" + (TextRe(o) + rest);
      assert TextRe(r) + rest == TextAlt(a) + more;
      assert more[0] == '|' && more[1..] == TextRe(o) + rest;
      ReadTextAlt(a, more);
      ReadTextRe(o, rest);
      assert ReadAlt(TextRe(r) + rest) == Some((a, more));
  }

  lemma {:induction false} ReadTextAlt(a: Alt, rest: string)
    requires WellFormedAlt(a) && EndsAlt(rest)
    ensures ReadAlt(TextAlt(a) + rest) == Some((a, rest))
    decreases a, 0
  {
    AltStart(a, rest);
    match a
    case Nil => assert TextAlt(a) + rest == rest;
    case Cons(t, tail) =>
      AltStart(tail, rest);
      assert TextAlt(a) + rest == TextTerm(t) + (TextAlt(tail) + rest);
      ReadTextTerm(t, TextAlt(tail) + rest);
      ReadTextAlt(tail, rest);
  }

  lemma {:induction false} ReadTextTerm(t: Term, rest: string)
    requires WellFormedTerm(t) && EndsTerm(rest)
    ensures TextTerm(t) + rest != ""
    ensures ReadTerm(TextTerm(t) + rest) == Some((t, rest))
    decreases t, 0
  {
    var s := TextTerm(t) + rest;
    match t
    case Start => assert s[1..] == rest;
    case End => assert s[1..] == rest;
    case Ahead(r) =>
      assert s == "(?=" + TextRe(r) + (")" + rest);
      ReadTextParens(r, "(?=", rest);
    case Rep(a, n) =>
      var more := TextCount(n) + rest;
      assert s == TextAtom(a) + more;
      ReadTextAtom(a, more);
      ReadTextCount(n, rest);
      NotAssertion(a, more);
  }

  /** The text of an atom is never mistaken for an anchor or a lookahead. */
  lemma NotAssertion(a: Atom, rest: string)
    requires WellFormedAtom(a)
    ensures var s := TextAtom(a) + rest; s != "" && s[0] !in "^$" && !("(?=" <= s)
  {
    var s := TextAtom(a) + rest;
    match a
    case Chr(c) =>
    case Capture(r) =>
      if "(?=" <= s {
        var inner := TextRe(r) + (")" + rest);
        assert s == "(" + inner;
        assert inner[0] == s[1] == '?';
        ReStart(r, ")" + rest);
      }
    case Group(r) => assert s[2] == ':';
    case _ =>
  }

  /** The inside of a group does not begin like a repetition. */
  lemma ReStart(r: Re, rest: string)
    requires WellFormedRe(r) && EndsRe(rest)
    ensures EndsTerm(TextRe(r) + rest)
  {
    match r
    case Just(a) => AltStart(a, rest);
    case Or(a, o) =>
      assert TextRe(r) + rest == TextAlt(a) + ("|" + TextRe(o) + rest);
      AltStart(a, "|" + TextRe(o) + rest);
  }

  lemma {:induction false} ReadTextParens(r: Re, open: string, rest: string)
    requires WellFormedRe(r) && open != ""
    ensures ReadInParens(open + TextRe(r) + (")" + rest), |open|) == Some((r, rest))
    decreases r, 1
  {
    var s := open + TextRe(r) + (")" + rest);
    assert s[|open|..] == TextRe(r) + (")" + rest);
    ReadTextRe(r, ")" + rest);
    assert (")" + rest)[1..] == rest;
  }

  /** Brackets that are not negated do not begin like negated ones. */
  lemma BracketsStart(items: seq<Item>, rest: string)
    requires forall i :: 0 <= i < |items| ==> WellFormedItem(items[i])
    ensures (TextItems(items) + ("]" + rest))[0] != '^'
  {
    if items != [] {
      assert WellFormedItem(items[0]) && TextItem(items[0]) != "" && TextItem(items[0])[0] != '^';
    }
  }

  lemma ReadBrackets(negated: bool, items: seq<Item>, rest: string)
    requires WellFormedAtom(Brackets(negated, items))
    ensures ReadAtom(TextAtom(Brackets(negated, items)) + rest) == Some((Brackets(negated, items), rest))
  {
    hide WellFormedItem, TextItems, ReadItems;
    var inside := TextItems(items) + ("]" + rest);
    ReadTextItems(items, rest);
    if negated {
      assert TextAtom(Brackets(negated, items)) + rest == "[^" + inside;
      OpenNegated(inside);
    } else {
      BracketsStart(items, rest);
      assert TextAtom(Brackets(negated, items)) + rest == "[" + inside;
      OpenBrackets(inside);
    }
  }

  lemma OpenNegated(inside: string)
    ensures ReadAtom("[^" + inside) ==
            var (items, rest) :- ReadItems(inside);
            Some((Brackets(true, items), rest))
  {
    hide ReadItems, ReadInParens;
    assert ("[^" + inside)[2..] == inside;
  }

  lemma OpenBrackets(inside: string)
    requires inside != "" && inside[0] != '^'
    ensures ReadAtom("[" + inside) ==
            var (items, rest) :- ReadItems(inside);
            Some((Brackets(false, items), rest))
  {
    hide ReadItems, ReadInParens;
    assert ("[" + inside)[1..] == inside && ("[" + inside)[1] == inside[0];
  }

  lemma ReadSimpleAtom(a: Atom, rest: string)
    requires WellFormedAtom(a) && !a.Group? && !a.Capture?
    ensures TextAtom(a) + rest != ""
    ensures ReadAtom(TextAtom(a) + rest) == Some((a, rest))
  {
    var s := TextAtom(a) + rest;
    match a
    case Chr(c) =>
      if IsStringSpecial(c) {
        assert s[2..] == rest && !IsWord(c);
      } else {
        assert s[1..] == rest;
      }
    case Dot => assert s[1..] == rest;
    case Class(k) => assert s[2..] == rest;
    case Brackets(negated, items) => ReadBrackets(negated, items, rest);
  }

  lemma {:induction false} ReadTextAtom(a: Atom, rest: string)
    requires WellFormedAtom(a)
    ensures TextAtom(a) + rest != ""
    ensures ReadAtom(TextAtom(a) + rest) == Some((a, rest))
    decreases a, 0
  {
    var s := TextAtom(a) + rest;
    match a
    case Group(r) =>
      assert s == "(?:" + TextRe(r) + (")" + rest);
      ReadTextParens(r, "(?:", rest);
      hide ReadInParens, TextRe, ReadItems;
      assert s[0] == '(';
    case Capture(r) =>
      assert s == "(" + TextRe(r) + (")" + rest);
      assert s[1..] == TextRe(r) + (")" + rest);
      ReStart(r, ")" + rest);
      ReadTextParens(r, "(", rest);
      hide ReadInParens, TextRe, ReadItems;
      assert s[1] != '?';
    case _ => ReadSimpleAtom(a, rest);
  }

  /** Every well-formed tree is what its own text denotes. */
  lemma ReadText(r: Re)
    requires WellFormedRe(r)
    ensures Read(TextRe(r)) == Some(r)
  {
    assert TextRe(r) + "" == TextRe(r);
    ReadTextRe(r, "");
  }
}
