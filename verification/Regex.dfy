/** Regular expressions as the route compiler uses them: the syntax tree, the text of
    a tree, and what a tree matches.  The grammar and the meaning follow section 15.10
    of ECMA-262, 3rd edition.

    Greedy and lazy repetition, and the order in which alternatives are tried, decide
    which match an engine reports first, never which matches exist.  The meaning below
    is therefore a relation: `MatchRe(r, s, i, j, c)` says that `r` can match `s[i..j]`
    leaving the texts `c` in its capture groups.  A group that took no part in the match
    has the text "", as std::sub_match::str() reports it. */
module Regex {
  import opened Strings

  datatype Re = Just(alt: Alt) | Or(first: Alt, others: Re)

  datatype Alt = Nil | Cons(head: Term, tail: Alt)

  datatype Term = Start | End | Ahead(re: Re) | Rep(atom: Atom, count: Count)

  datatype Atom =
    | Chr(c: char)
    | Dot
    | Class(k: char)       // \d \D \w \W \s \S
    | Brackets(negated: bool, items: seq<Item>)   // [...] [^...]
    | Group(re: Re)        // (?:...)
    | Capture(re: Re)      // (...)

  /** What can stand in brackets: the characters from one to another, or a class. */
  datatype Item = Span(lo: char, hi: char) | Letter(k: char)

  datatype Count = Once | Optional(lazy: bool) | Many(lazy: bool) | Several(lazy: bool)

  // ----- characters -----

  /** The characters that `escape_string` puts a backslash before. */
  predicate IsStringSpecial(c: char) {
    || c == '.' || c == '+' || c == '*' || c == '?' || c == '=' || c == '^'
    || c == '!' || c == '$' || c == '{' || c == '}' || c == '(' || c == ')'
    || c == '[' || c == ']' || c == ':' || c == '|' || c == '/' || c == '\\'
  }

  predicate IsWord(c: char) {
    IsDigit(c) || 'a' <= c <= 'z' || 'A' <= c <= 'Z' || c == '_'
  }

  predicate IsLineBreak(c: char) {
    c == '\n' || c == '\r' || c as int == 0x2028 || c as int == 0x2029
  }

  /** The characters of `\w`, the line ends that `.` stops at, and the characters of `\s` below 128. */
  lemma CharacterRules(c: char)
    ensures IsWord(c) <==> '0' <= c <= '9' || 'A' <= c <= 'Z' || 'a' <= c <= 'z' || c == '_'
    ensures IsLineBreak(c) <==> c as int in {10, 13, 0x2028, 0x2029}
    ensures IsSpace(c) <==> c as int in {9, 10, 11, 12, 13, 32}
  {
  }

  predicate IsClassLetter(k: char) {
    k in "dDwWsS"
  }

  predicate InClass(k: char, c: char) {
    match k
    case 'd' => IsDigit(c)
    case 'D' => !IsDigit(c)
    case 'w' => IsWord(c)
    case 'W' => !IsWord(c)
    case 's' => IsSpace(c)
    case _ => !IsSpace(c)
  }

  predicate InItem(x: Item, c: char) {
    match x
    case Span(lo, hi) => lo <= c <= hi
    case Letter(k) => InClass(k, c)
  }

  predicate InItems(items: seq<Item>, c: char) {
    exists i :: 0 <= i < |items| && InItem(items[i], c)
  }

  /** The characters of a text, one by one. */
  function Singles(cs: string): (items: seq<Item>)
    ensures |items| == |cs|
  {
    seq(|cs|, i requires 0 <= i < |cs| => Span(cs[i], cs[i]))
  }

  lemma InSingles(cs: string, c: char)
    ensures InItems(Singles(cs), c) <==> c in cs
  {
    if c in cs {
      var i :| 0 <= i < |cs| && cs[i] == c;
      assert InItem(Singles(cs)[i], c);
    }
  }

  // ----- text -----

  function EscapeChar(c: char): string {
    if IsStringSpecial(c) then ['\\', c] else [c]
  }

  function EscapeString(s: string): string {
    if s == "" then "" else EscapeChar(s[0]) + EscapeString(s[1..])
  }

  function TextItem(x: Item): string {
    match x
    case Span(lo, hi) => if lo == hi then EscapeChar(lo) else EscapeChar(lo) + ("-" + EscapeChar(hi))
    case Letter(k) => ['\\', k]
  }

  function TextItems(items: seq<Item>): string {
    if items == [] then "" else TextItem(items[0]) + TextItems(items[1..])
  }

  lemma {:induction false} TextSingles(cs: string)
    ensures TextItems(Singles(cs)) == EscapeString(cs)
  {
    if cs != "" {
      TextSingles(cs[1..]);
      assert Singles(cs)[1..] == Singles(cs[1..]);
    }
  }

  function TextRe(r: Re): string {
    match r
    case Just(a) => TextAlt(a)
    case Or(a, o) => TextAlt(a) + "|" + TextRe(o)
  }

  function TextAlt(a: Alt): string {
    match a
    case Nil => ""
    case Cons(t, rest) => TextTerm(t) + TextAlt(rest)
  }

  function TextTerm(t: Term): string {
    match t
    case Start => "^"
    case End => "$"
    case Ahead(r) => "(?=" + TextRe(r) + ")"
    case Rep(a, n) => TextAtom(a) + TextCount(n)
  }

  function TextAtom(a: Atom): string {
    match a
    case Chr(c) => EscapeChar(c)
    case Dot => "."
    case Class(k) => ['\\', k]
    case Brackets(negated, items) => (if negated then "[^" else "[") + (TextItems(items) + "]")
    case Group(r) => "(?:" + TextRe(r) + ")"
    case Capture(r) => "(" + TextRe(r) + ")"
  }

  function TextCount(n: Count): string {
    match n
    case Once => ""
    case Optional(lazy) => "?" + TextLazy(lazy)
    case Many(lazy) => "*" + TextLazy(lazy)
    case Several(lazy) => "+" + TextLazy(lazy)
  }

  function TextLazy(lazy: bool): string {
    if lazy then "?" else ""
  }

  // ----- capture groups -----

  function GroupsRe(r: Re): nat {
    match r
    case Just(a) => GroupsAlt(a)
    case Or(a, o) => GroupsAlt(a) + GroupsRe(o)
  }

  function GroupsAlt(a: Alt): nat {
    match a
    case Nil => 0
    case Cons(t, rest) => GroupsTerm(t) + GroupsAlt(rest)
  }

  function GroupsTerm(t: Term): nat {
    match t
    case Start => 0
    case End => 0
    case Ahead(r) => GroupsRe(r)
    case Rep(a, _) => GroupsAtom(a)
  }

  function GroupsAtom(a: Atom): nat {
    match a
    case Group(r) => GroupsRe(r)
    case Capture(r) => 1 + GroupsRe(r)
    case _ => 0
  }

  // ----- meaning -----

  function Blank(n: nat): (c: seq<string>)
    ensures |c| == n
  {
    seq(n, _ => "")
  }

  ghost predicate MatchRe(r: Re, s: string, i: nat, j: nat, c: seq<string>)
    requires i <= j <= |s|
    decreases r, 0, 0
  {
    && |c| == GroupsRe(r)
    && match r
       case Just(a) => MatchAlt(a, s, i, j, c)
       case Or(a, o) =>
         var g := GroupsAlt(a);
         || (MatchAlt(a, s, i, j, c[..g]) && c[g..] == Blank(GroupsRe(o)))
         || (c[..g] == Blank(g) && MatchRe(o, s, i, j, c[g..]))
  }

  ghost predicate MatchAlt(a: Alt, s: string, i: nat, j: nat, c: seq<string>)
    requires i <= j <= |s|
    decreases a, 0, 0
  {
    && |c| == GroupsAlt(a)
    && match a
       case Nil => i == j
       case Cons(t, rest) =>
         var g := GroupsTerm(t);
         exists k :: i <= k <= j && MatchTerm(t, s, i, k, c[..g]) && MatchAlt(rest, s, k, j, c[g..])
  }

  ghost predicate MatchTerm(t: Term, s: string, i: nat, j: nat, c: seq<string>)
    requires i <= j <= |s|
    decreases t, 0, 0
  {
    && |c| == GroupsTerm(t)
    && match t
       case Start => i == j == 0
       case End => i == j == |s|
       case Ahead(r) => i == j && exists k :: i <= k <= |s| && MatchRe(r, s, i, k, c)
       case Rep(a, n) =>
         match n
         case Once => MatchAtom(a, s, i, j, c)
         case Optional(_) => (i == j && c == Blank(|c|)) || (i < j && MatchAtom(a, s, i, j, c))
         case Many(_) => MatchMany(a, s, i, j, c)
         case Several(_) =>
           exists k, d :: i <= k <= j && MatchAtom(a, s, i, k, d) &&
             if k == j then c == d else MatchMany(a, s, k, j, c)
  }

  /** Any number of further rounds of `a`.  A round never matches the empty text
      (ECMA-262, 15.10.2.5), and each round starts with blank groups, so the last
      round decides what the groups hold. */
  ghost predicate MatchMany(a: Atom, s: string, i: nat, j: nat, c: seq<string>)
    requires i <= j <= |s|
    decreases a, 1, j - i
  {
    && |c| == GroupsAtom(a)
    && if i == j then c == Blank(|c|)
       else exists k, d :: i < k <= j && MatchAtom(a, s, i, k, d) &&
              if k == j then c == d else MatchMany(a, s, k, j, c)
  }

  ghost predicate MatchAtom(a: Atom, s: string, i: nat, j: nat, c: seq<string>)
    requires i <= j <= |s|
    decreases a, 0, 0
  {
    && |c| == GroupsAtom(a)
    && match a
       case Chr(x) => j == i + 1 && s[i] == x
       case Dot => j == i + 1 && !IsLineBreak(s[i])
       case Class(k) => j == i + 1 && InClass(k, s[i])
       case Brackets(negated, items) => j == i + 1 && InItems(items, s[i]) != negated
       case Group(r) => MatchRe(r, s, i, j, c)
       case Capture(r) => c[0] == s[i..j] && MatchRe(r, s, i, j, c[1..])
  }

  /** Whole-string acceptance, as std::regex_match demands it. */
  ghost predicate Accepts(r: Re, s: string, c: seq<string>) {
    MatchRe(r, s, 0, |s|, c)
  }

  // ----- sequences of terms -----

  function Append(a: Alt, b: Alt): Alt {
    match a
    case Nil => b
    case Cons(t, rest) => Cons(t, Append(rest, b))
  }

  function One(t: Term): Alt {
    Cons(t, Nil)
  }

  /** The terms that match exactly the text `w`. */
  function Literal(w: string): Alt {
    if w == "" then Nil else Cons(Rep(Chr(w[0]), Once), Literal(w[1..]))
  }

  lemma {:induction false} AppendNil(a: Alt)
    ensures Append(a, Nil) == a
  {
    match a
    case Nil =>
    case Cons(_, rest) => AppendNil(rest);
  }

  lemma {:induction false} AppendAssociative(a: Alt, b: Alt, c: Alt)
    ensures Append(Append(a, b), c) == Append(a, Append(b, c))
  {
    match a
    case Nil =>
    case Cons(_, rest) => AppendAssociative(rest, b, c);
  }

  lemma {:induction false} TextAppend(a: Alt, b: Alt)
    ensures TextAlt(Append(a, b)) == TextAlt(a) + TextAlt(b)
    ensures GroupsAlt(Append(a, b)) == GroupsAlt(a) + GroupsAlt(b)
  {
    match a
    case Nil =>
    case Cons(_, rest) => TextAppend(rest, b);
  }

  lemma {:induction false} EscapeAppend(v: string, w: string)
    ensures EscapeString(v + w) == EscapeString(v) + EscapeString(w)
  {
    if v == "" {
      assert v + w == w;
    } else {
      assert (v + w)[1..] == v[1..] + w;
      EscapeAppend(v[1..], w);
      assert EscapeString(v + w) == EscapeChar(v[0]) + EscapeString(v[1..] + w);
    }
  }

  lemma {:induction false} TextLiteral(w: string)
    ensures TextAlt(Literal(w)) == EscapeString(w) && GroupsAlt(Literal(w)) == 0
  {
    if w != "" {
      var t := Rep(Chr(w[0]), Once);
      assert Literal(w) == Cons(t, Literal(w[1..]));
      assert TextTerm(t) == EscapeChar(w[0]) && GroupsTerm(t) == 0;
      TextLiteral(w[1..]);
    }
  }

  /** The text that the head of a sequence matched ends where the tail's begins. */
  lemma SplitCons(t: Term, rest: Alt, s: string, i: nat, j: nat, c: seq<string>) returns (k: nat)
    requires i <= j <= |s| && MatchAlt(Cons(t, rest), s, i, j, c)
    ensures i <= k <= j && |c| == GroupsTerm(t) + GroupsAlt(rest)
    ensures MatchTerm(t, s, i, k, c[..GroupsTerm(t)]) && MatchAlt(rest, s, k, j, c[GroupsTerm(t)..])
  {
    var g := GroupsTerm(t);
    k :| i <= k <= j && MatchTerm(t, s, i, k, c[..g]) && MatchAlt(rest, s, k, j, c[g..]);
  }

  /** A match of concatenated terms, taken apart. */
  lemma {:induction false} SplitAppend(a: Alt, b: Alt, s: string, i: nat, j: nat, c: seq<string>) returns (k: nat)
    requires i <= j <= |s| && MatchAlt(Append(a, b), s, i, j, c)
    ensures i <= k <= j && |c| == GroupsAlt(a) + GroupsAlt(b)
    ensures MatchAlt(a, s, i, k, c[..GroupsAlt(a)]) && MatchAlt(b, s, k, j, c[GroupsAlt(a)..])
  {
    hide MatchTerm, MatchRe, MatchAtom, MatchMany, TextAlt, TextTerm;
    TextAppend(a, b);
    var h := GroupsAlt(a);
    match a
    case Nil =>
      assert c[0..] == c && c[..0] == [];
      k := i;
    case Cons(t, rest) =>
      var g := GroupsTerm(t);
      assert Append(a, b) == Cons(t, Append(rest, b));
      var m := SplitCons(t, Append(rest, b), s, i, j, c);
      k := SplitAppend(rest, b, s, m, j, c[g..]);
      assert c[..h][..g] == c[..g] && c[..h][g..] == c[g..][..h - g] && c[g..][h - g..] == c[h..];
      assert MatchTerm(t, s, i, m, c[..h][..g]) && MatchAlt(rest, s, m, k, c[..h][g..]);
  }

  /** Adjacent matches, put together. */
  lemma {:induction false} JoinAppend(a: Alt, b: Alt, s: string, i: nat, k: nat, j: nat, c: seq<string>, d: seq<string>)
    requires i <= k <= j <= |s| && MatchAlt(a, s, i, k, c) && MatchAlt(b, s, k, j, d)
    ensures MatchAlt(Append(a, b), s, i, j, c + d)
  {
    hide MatchTerm, MatchRe, MatchAtom, MatchMany, TextAlt, TextTerm, GroupsTerm, GroupsRe, GroupsAtom;
    TextAppend(a, b);
    match a
    case Nil => assert c + d == d;
    case Cons(t, rest) =>
      var g := GroupsTerm(t);
      var m := SplitCons(t, rest, s, i, k, c);
      JoinAppend(rest, b, s, m, k, j, c[g..], d);
      assert (c + d)[..g] == c[..g] && (c + d)[g..] == c[g..] + d;
      assert Append(a, b) == Cons(t, Append(rest, b));
      assert MatchTerm(t, s, i, m, (c + d)[..g]) && MatchAlt(Append(rest, b), s, m, j, (c + d)[g..]);
  }

  lemma {:induction false} MatchLiteral(w: string, s: string, i: nat, j: nat, c: seq<string>)
    requires i <= j <= |s|
    ensures MatchAlt(Literal(w), s, i, j, c) <==> c == [] && s[i..j] == w
  {
    if w == "" {
    } else {
      var t := Rep(Chr(w[0]), Once);
      assert Literal(w) == Cons(t, Literal(w[1..])) && GroupsTerm(t) == 0;
      TextLiteral(w);
      if MatchAlt(Literal(w), s, i, j, c) {
        var k := SplitCons(t, Literal(w[1..]), s, i, j, c);
        MatchLiteral(w[1..], s, k, j, c[0..]);
        assert s[i..j] == [s[i]] + s[k..j];
      }
      if c == [] && s[i..j] == w {
        assert s[i] == w[0] && s[i + 1..j] == w[1..];
        MatchLiteral(w[1..], s, i + 1, j, c[0..]);
        assert MatchTerm(t, s, i, i + 1, c[..0]);
      }
    }
  }

  lemma MatchOne(t: Term, s: string, i: nat, j: nat, c: seq<string>)
    requires i <= j <= |s|
    ensures MatchAlt(One(t), s, i, j, c) <==> MatchTerm(t, s, i, j, c)
  {
    if |c| == GroupsTerm(t) {
      assert c[..|c|] == c && c[|c|..] == [];
      if MatchTerm(t, s, i, j, c) {
        assert MatchAlt(Nil, s, j, j, c[|c|..]);
      }
    }
  }

  // ----- trees without anchors -----

  predicate AnchorlessRe(r: Re) {
    match r
    case Just(a) => AnchorlessAlt(a)
    case Or(a, o) => AnchorlessAlt(a) && AnchorlessRe(o)
  }

  predicate AnchorlessAlt(a: Alt) {
    a.Cons? ==> AnchorlessTerm(a.head) && AnchorlessAlt(a.tail)
  }

  predicate AnchorlessTerm(t: Term) {
    t.Rep? && AnchorlessAtom(t.atom)
  }

  predicate AnchorlessAtom(a: Atom) {
    (a.Group? || a.Capture?) ==> AnchorlessRe(a.re)
  }

  /** The two stretches hold the same text. */
  predicate SameText(s: string, i: nat, j: nat, t: string, p: nat, q: nat) {
    i <= j <= |s| && p <= q <= |t| && s[i..j] == t[p..q]
  }

  lemma SameTextSplit(s: string, i: nat, j: nat, t: string, p: nat, q: nat, k: nat)
    requires SameText(s, i, j, t, p, q) && i <= k <= j
    ensures j - i == q - p
    ensures SameText(s, i, k, t, p, p + k - i) && SameText(s, k, j, t, p + k - i, q)
  {
    assert |s[i..j]| == |t[p..q]|;
    assert s[i..k] == s[i..j][..k - i] && t[p..p + k - i] == t[p..q][..k - i];
    assert s[k..j] == s[i..j][k - i..] && t[p + k - i..q] == t[p..q][k - i..];
  }

  /** What an anchorless tree matches depends on the matched text alone, not on what
      surrounds it. */
  lemma {:induction false} LocalRe(r: Re, s: string, i: nat, j: nat, t: string, p: nat, q: nat, c: seq<string>)
    requires AnchorlessRe(r) && SameText(s, i, j, t, p, q) && MatchRe(r, s, i, j, c)
    ensures MatchRe(r, t, p, q, c)
    decreases r, 0, 0
  {
    match r
    case Just(a) => LocalAlt(a, s, i, j, t, p, q, c);
    case Or(a, o) =>
      var g := GroupsAlt(a);
      if MatchAlt(a, s, i, j, c[..g]) && c[g..] == Blank(GroupsRe(o)) {
        LocalAlt(a, s, i, j, t, p, q, c[..g]);
      } else {
        LocalRe(o, s, i, j, t, p, q, c[g..]);
      }
  }

  lemma {:induction false} LocalAlt(a: Alt, s: string, i: nat, j: nat, t: string, p: nat, q: nat, c: seq<string>)
    requires AnchorlessAlt(a) && SameText(s, i, j, t, p, q) && MatchAlt(a, s, i, j, c)
    ensures MatchAlt(a, t, p, q, c)
    decreases a, 0, 0
  {
    match a
    case Nil => assert |s[i..j]| == |t[p..q]|;
    case Cons(head, tail) =>
      var g := GroupsTerm(head);
      var k :| i <= k <= j && MatchTerm(head, s, i, k, c[..g]) && MatchAlt(tail, s, k, j, c[g..]);
      SameTextSplit(s, i, j, t, p, q, k);
      LocalTerm(head, s, i, k, t, p, p + k - i, c[..g]);
      LocalAlt(tail, s, k, j, t, p + k - i, q, c[g..]);
  }

  lemma {:induction false} LocalTerm(x: Term, s: string, i: nat, j: nat, t: string, p: nat, q: nat, c: seq<string>)
    requires AnchorlessTerm(x) && SameText(s, i, j, t, p, q) && MatchTerm(x, s, i, j, c)
    ensures MatchTerm(x, t, p, q, c)
    decreases x, 0, 0
  {
    SameTextSplit(s, i, j, t, p, q, j);
    match x.count
    case Once => LocalAtom(x.atom, s, i, j, t, p, q, c);
    case Optional(_) =>
      if i < j {
        LocalAtom(x.atom, s, i, j, t, p, q, c);
      }
    case Many(_) => LocalMany(x.atom, s, i, j, t, p, q, c);
    case Several(_) =>
      var k, d :| i <= k <= j && MatchAtom(x.atom, s, i, k, d) &&
        if k == j then c == d else MatchMany(x.atom, s, k, j, c);
      SameTextSplit(s, i, j, t, p, q, k);
      LocalAtom(x.atom, s, i, k, t, p, p + k - i, d);
      if k < j {
        LocalMany(x.atom, s, k, j, t, p + k - i, q, c);
      }
  }

  lemma {:induction false} LocalMany(a: Atom, s: string, i: nat, j: nat, t: string, p: nat, q: nat, c: seq<string>)
    requires AnchorlessAtom(a) && SameText(s, i, j, t, p, q) && MatchMany(a, s, i, j, c)
    ensures MatchMany(a, t, p, q, c)
    decreases a, 1, j - i
  {
    SameTextSplit(s, i, j, t, p, q, j);
    if i < j {
      var k, d :| i < k <= j && MatchAtom(a, s, i, k, d) &&
        if k == j then c == d else MatchMany(a, s, k, j, c);
      SameTextSplit(s, i, j, t, p, q, k);
      LocalAtom(a, s, i, k, t, p, p + k - i, d);
      if k < j {
        LocalMany(a, s, k, j, t, p + k - i, q, c);
      }
    }
  }

  lemma {:induction false} LocalAtom(a: Atom, s: string, i: nat, j: nat, t: string, p: nat, q: nat, c: seq<string>)
    requires AnchorlessAtom(a) && SameText(s, i, j, t, p, q) && MatchAtom(a, s, i, j, c)
    ensures MatchAtom(a, t, p, q, c)
    decreases a, 0, 0
  {
    assert |s[i..j]| == |t[p..q]|;
    match a
    case Group(r) => LocalRe(r, s, i, j, t, p, q, c);
    case Capture(r) => LocalRe(r, s, i, j, t, p, q, c[1..]);
    case _ => assert s[i] == s[i..j][0] && t[p] == t[p..q][0];
  }
}
