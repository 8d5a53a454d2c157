/** From the text of a route mask to its tokens. */
module PathScanner {
  import opened Sequences
  import opened Wrappers
  import opened Regex
  import opened PathKeys
  import opened PathCompiler

  /** What the scanner's expression finds in a mask, and the characters between the finds. */
  datatype Lexeme =
    | Plain(c: char)
    | Escaped(c: char)
    | Param(prefix: string, name: string, capture: string, group: string, modifier: string)
    | Asterisk(prefix: string)

  // ----- finding -----

  predicate IsModifier(c: char) {
    c == '+' || c == '*' || c == '?'
  }

  predicate IsPrefix(c: char) {
    c == '/' || c == '.'
  }

  /** The length of the longest run of `\w`. */
  function WordLength(s: string): (n: nat)
    ensures n <= |s|
    ensures forall i :: 0 <= i < n ==> IsWord(s[i])
    ensures n < |s| ==> !IsWord(s[n])
  {
    if s == "" || !IsWord(s[0]) then 0 else 1 + WordLength(s[1..])
  }

  /** The length of the longest run of `\\.|[^\\()]`. */
  function ItemsLength(s: string): (n: nat)
    ensures n <= |s|
  {
    if s == "" then 0
    else if s[0] == '\\' then
      if |s| >= 2 && !IsLineBreak(s[1]) then 2 + ItemsLength(s[2..]) else 0
    else if s[0] == '(' || s[0] == ')' then 0
    else 1 + ItemsLength(s[1..])
  }

  /** A parenthesised pattern at the start of `s`: what stands between the parentheses. */
  function Parenthesised(s: string): (r: Option<string>)
    ensures r.Some? ==> r.value != "" && "(" + r.value + ")" <= s
  {
    if s == "" || s[0] != '(' then None
    else
      var n := ItemsLength(s[1..]);
      if n > 0 && n + 1 < |s| && s[n + 1] == ')' then
        assert "(" + s[1..][..n] + ")" == s[..n + 2];
        Some(s[1..][..n])
      else None
  }

  function ModifierAt(s: string): (m: string)
    ensures m <= s
  {
    if s != "" && IsModifier(s[0]) then s[..1] else ""
  }

  /** What the expression matches at the start of `s`; `ScannerRegex` proves it from the
      expression. */
  function Hit(s: string): Option<Lexeme> {
    if s == "" then None
    else if s[0] == '\\' then
      if |s| >= 2 && !IsLineBreak(s[1]) then Some(Escaped(s[1])) else None
    else
      var prefix := if IsPrefix(s[0]) then s[..1] else "";
      HitBody(prefix, s[|prefix|..])
  }

  function HitBody(prefix: string, body: string): Option<Lexeme> {
    if body == "" then None
    else if body[0] == ':' then
      var n := WordLength(body[1..]);
      if n == 0 then None
      else
        var name, rest := body[1..][..n], body[1..][n..];
        match Parenthesised(rest)
        case Some(capture) => Some(Param(prefix, name, capture, "", ModifierAt(rest[|capture| + 2..])))
        case None => Some(Param(prefix, name, "", "", ModifierAt(rest)))
    else if body[0] == '(' then
      match Parenthesised(body)
      case Some(group) => Some(Param(prefix, "", "", group, ModifierAt(body[|group| + 2..])))
      case None => None
    else if body[0] == '*' then Some(Asterisk(prefix))
    else None
  }

  /** The name and pattern of a parameter as they stand in the mask. */
  function Core(name: string, capture: string, group: string): string {
    if name == "" then "(" + group + ")"
    else if capture == "" then [':'] + name
    else [':'] + name + ("(" + capture + ")")
  }

  /** The characters a lexeme stands for in the mask. */
  function Spell(x: Lexeme): string {
    match x
    case Plain(c) => [c]
    case Escaped(c) => ['\\', c]
    case Param(prefix, name, capture, group, modifier) => prefix + (Core(name, capture, group) + modifier)
    case Asterisk(prefix) => prefix + "*"
  }

  lemma PrefixExtends(a: string, m: string, rest: string)
    requires m <= rest
    ensures a + m <= a + rest
  {
    assert a + rest == a + m + rest[|m|..];
  }

  lemma ParenthesisedSplits(s: string)
    requires Parenthesised(s).Some?
    ensures var p := Parenthesised(s).value;
            p != "" && |p| + 2 <= |s| && s == ("(" + p + ")") + s[|p| + 2..]
  {
    var p := Parenthesised(s).value;
    assert s[..|p| + 2] == "(" + p + ")";
  }

  /** The body of a found parameter: its core, then what may begin with a modifier. */
  lemma BodySplits(prefix: string, body: string) returns (core: string, rest: string)
    requires HitBody(prefix, body).Some? && HitBody(prefix, body).value.Param?
    ensures var x := HitBody(prefix, body).value;
            && core == Core(x.name, x.capture, x.group) && core != ""
            && body == core + rest && x.modifier == ModifierAt(rest) && x.prefix == prefix
  {
    hide Parenthesised, IsWord, ModifierAt, WordLength;
    var x := HitBody(prefix, body).value;
    if body[0] == ':' {
      var n := WordLength(body[1..]);
      var name, after := body[1..][..n], body[1..][n..];
      NameSplits(body, n);
      if Parenthesised(after).Some? {
        ParenthesisedSplits(after);
        rest := after[|x.capture| + 2..];
        core := [':'] + name + ("(" + x.capture + ")");
        Regroup([':'] + name, "(" + x.capture + ")", rest);
      } else {
        core, rest := [':'] + name, after;
      }
    } else {
      ParenthesisedSplits(body);
      rest := body[|x.group| + 2..];
      core := "(" + x.group + ")";
    }
  }

  lemma NameSplits(body: string, n: nat)
    requires body != "" && body[0] == ':' && n < |body|
    ensures body == [':'] + body[1..][..n] + body[1..][n..]
  {
  }

  lemma HitBodySpells(prefix: string, body: string)
    requires HitBody(prefix, body).Some?
    ensures var x := HitBody(prefix, body).value;
            Spell(x) != "" && Spell(x) <= prefix + body && (x.Param? || x.Asterisk?)
  {
    hide Core;
    var x := HitBody(prefix, body).value;
    if x.Param? {
      var core, rest := BodySplits(prefix, body);
      PrefixExtends(core, x.modifier, rest);
      PrefixExtends(prefix, core + x.modifier, body);
    } else {
      PrefixExtends(prefix, "*", body);
    }
  }

  lemma HitSpells(s: string)
    requires Hit(s).Some?
    ensures Spell(Hit(s).value) != "" && Spell(Hit(s).value) <= s && !Hit(s).value.Plain?
  {
    if s[0] != '\\' {
      var prefix := if IsPrefix(s[0]) then s[..1] else "";
      HitBodySpells(prefix, s[|prefix|..]);
      assert s == prefix + s[|prefix|..];
    }
  }

  /** The whole mask, find after find; what no find covers is plain. */
  function Lex(s: string): seq<Lexeme> {
    if s == "" then []
    else match Hit(s)
      case Some(x) => HitSpells(s); [x] + Lex(s[|Spell(x)|..])
      case None => [Plain(s[0])] + Lex(s[1..])
  }

  function SpellAll(xs: seq<Lexeme>): string {
    if xs == [] then "" else Spell(xs[0]) + SpellAll(xs[1..])
  }

  lemma LexFirst(s: string, x: Lexeme)
    requires s != "" && Spell(x) <= s && Hit(s) == if x.Plain? then None else Some(x)
    ensures Lex(s) == [x] + Lex(s[|Spell(x)|..])
  {
    hide Hit;
    if x.Plain? {
      assert s[0] == Spell(x)[0];
    }
  }

  /** Every character of the mask is accounted for exactly once, in order. */
  lemma {:induction false} SpellingRecoversMask(s: string)
    ensures SpellAll(Lex(s)) == s
    decreases |s|, 1
  {
    if s != "" {
      var x := if Hit(s).Some? then Hit(s).value else Plain(s[0]);
      if Hit(s).Some? {
        HitSpells(s);
      }
      LexFirst(s, x);
      SpellFirst(s, x);
    }
  }

  lemma SpellFirst(s: string, x: Lexeme)
    requires s != "" && Spell(x) <= s && Spell(x) != "" && Lex(s) == [x] + Lex(s[|Spell(x)|..])
    ensures SpellAll(Lex(s)) == s
    decreases |s|, 0
  {
    hide Lex, Hit, Spell;
    var rest := s[|Spell(x)|..];
    SpellingRecoversMask(rest);
    assert Lex(s)[1..] == Lex(rest) && Lex(s)[0] == x;
    assert s == Spell(x) + rest;
  }

  // ----- tokens -----

  predicate IsGroupSpecial(c: char) {
    c == '=' || c == '!' || c == ':' || c == '$' || c == '/' || c == '(' || c == ')'
  }

  function EscapeGroup(s: string): string {
    if s == "" then "" else (if IsGroupSpecial(s[0]) then ['\\', s[0]] else [s[0]]) + EscapeGroup(s[1..])
  }

  /** The two-character string that `std::string{1, c}` builds: the list holds the
      character with code 1 and the character `c`. */
  function NextText(rest: string): string {
    if rest == "" then "" else [1 as char, rest[0]]
  }

  function PatternFor(capture: string, group: string, asterisk: bool, delimiter: string): string {
    var pattern := if capture != "" then capture else group;
    if pattern != "" then EscapeGroup(pattern)
    else if asterisk then ".*"
    else SegmentPattern(delimiter)
  }

  /** The token of a find; `n` numbers it if it has no name, `next` is the text after it. */
  function KeyFor(x: Lexeme, n: nat, next: string): Key
    requires x.Param? || x.Asterisk?
  {
    var delimiter := if x.prefix == "" then "/" else x.prefix;
    var partial := x.prefix != "" && next != "" && next != x.prefix;
    match x
    case Param(prefix, name, capture, group, modifier) =>
      Key(false, false, modifier == "?" || modifier == "*", modifier == "+" || modifier == "*", partial,
          if name == "" then Index(n) else Named(name), prefix, delimiter,
          PatternFor(capture, group, false, delimiter))
    case Asterisk(prefix) =>
      Key(false, true, false, false, partial, Index(n), prefix, delimiter, PatternFor("", "", true, delimiter))
  }

  predicate IsUnnamed(x: Lexeme) {
    x.Asterisk? || (x.Param? && x.name == "")
  }

  function Flush(path: string): seq<Key> {
    if path == "" then [] else [AsString(path)]
  }

  /** The tokens of the rest of a mask, after the pending literal text `path` and with `n`
      unnamed parameters so far. */
  function Tokens(xs: seq<Lexeme>, path: string, n: nat): seq<Key> {
    if xs == [] then Flush(path)
    else if xs[0].Plain? || xs[0].Escaped? then Tokens(xs[1..], path + [xs[0].c], n)
    else
      Flush(path) + [KeyFor(xs[0], n, NextText(SpellAll(xs[1..])))] +
      Tokens(xs[1..], "", if IsUnnamed(xs[0]) then n + 1 else n)
  }

  function Scan(mask: string): seq<Key> {
    Tokens(Lex(mask), "", 0)
  }

  // ----- the scanner -----

  method EscapeGroupText(s: string) returns (out: string)
    ensures out == EscapeGroup(s)
  {
    out := "";
    for i := 0 to |s|
      invariant out + EscapeGroup(s[i..]) == EscapeGroup(s)
    {
      if IsGroupSpecial(s[i]) {
        out := out + ['\\'];
      }
      out := out + [s[i]];
      assert s[i..][1..] == s[i + 1..];
    }
  }

  /** Looks for the first find at or after `index`; |mask| when there is none. */
  method Search(mask: string, index: nat, ghost path: string, ghost n: nat) returns (offset: nat)
    requires index <= |mask|
    ensures index <= offset <= |mask|
    ensures offset < |mask| ==> Hit(mask[offset..]).Some?
    ensures Tokens(Lex(mask[index..]), path, n) == Tokens(Lex(mask[offset..]), path + mask[index..offset], n)
  {
    hide Lex, Tokens, Hit;
    offset := index;
    assert path + mask[index..offset] == path;
    while offset < |mask| && Hit(mask[offset..]).None?
      invariant index <= offset <= |mask|
      invariant Tokens(Lex(mask[index..]), path, n) == Tokens(Lex(mask[offset..]), path + mask[index..offset], n)
    {
      SearchStep(mask, index, offset, path, n);
      offset := offset + 1;
    }
  }

  lemma SearchStep(mask: string, index: nat, offset: nat, path: string, n: nat)
    requires index <= offset < |mask| && Hit(mask[offset..]).None?
    ensures Tokens(Lex(mask[offset..]), path + mask[index..offset], n) ==
            Tokens(Lex(mask[offset + 1..]), path + mask[index..offset + 1], n)
  {
    var rest := Lex(mask[offset + 1..]);
    assert mask[offset..][1..] == mask[offset + 1..];
    assert Lex(mask[offset..]) == [Plain(mask[offset])] + rest;
    hide Lex, Hit;
    assert ([Plain(mask[offset])] + rest)[1..] == rest;
    assert path + mask[index..offset] + [mask[offset]] == path + mask[index..offset + 1];
  }

  /** Splits a mask into tokens. */
  method ParseMatcher(mask: string) returns (out: seq<Key>)
    ensures out == Scan(mask)
  {
    hide Tokens, Lex, Hit, KeyFor, Spell, IsUnnamed, NextText;
    out := [];
    var path := "";
    var key: nat := 0;
    var index: nat := 0;
    assert mask[0..] == mask && Tokens(Lex(mask[index..]), path, key) == Scan(mask);
    var offset := Search(mask, index, path, key);
    while offset < |mask|
      invariant 0 <= index <= offset <= |mask|
      invariant offset < |mask| ==> Hit(mask[offset..]).Some?
      invariant out + Tokens(Lex(mask[offset..]), path + mask[index..offset], key) == Scan(mask)
      decreases |mask| - offset, |mask| - index
    {
      path := path + mask[index..offset];
      var res := Hit(mask[offset..]).value;
      HitSpells(mask[offset..]);
      index := offset + |Spell(res)|;
      TokensStep(mask, offset, index, res, path, key);
      if res.Escaped? {
        path := path + [res.c];
      } else {
        var next := if index < |mask| then [1 as char, mask[index]] else "";
        ghost var before, flushed := out, Flush(path);
        if path != "" {
          out := out + [AsString(path)];
        }
        path := "";
        var token := TokenFor(res, key, next);
        out := out + [token];
        if IsUnnamed(res) {
          key := key + 1;
        }
        FlushedStep(before, flushed, token, Tokens(Lex(mask[index..]), path, key), out);
      }
      offset := Search(mask, index, path, key);
    }
    LastTokens(mask, index, offset, path, key);
    assert index == |mask| ==> path + mask[index..] == path;
    if index < |mask| {
      path := path + mask[index..];
    }
    if path != "" {
      out := out + [AsString(path)];
    }
  }

  lemma FlushedStep(out: seq<Key>, flushed: seq<Key>, token: Key, rest: seq<Key>, grown: seq<Key>)
    requires grown == if flushed == [] then out + [token] else out + flushed + [token]
    ensures grown + rest == out + (flushed + ([token] + rest))
  {
  }

  lemma LastTokens(mask: string, index: nat, offset: nat, path: string, n: nat)
    requires index <= offset == |mask|
    ensures Tokens(Lex(mask[offset..]), path + mask[index..offset], n) == Flush(path + mask[index..])
  {
    assert mask[index..offset] == mask[index..] && mask[offset..] == "";
  }

  /** What one find adds. */
  lemma TokensStep(mask: string, offset: nat, index: nat, x: Lexeme, path: string, n: nat)
    requires offset < |mask| && Hit(mask[offset..]) == Some(x) && index == offset + |Spell(x)| <= |mask|
    ensures offset < index && !x.Plain?
    ensures var rest, next := Lex(mask[index..]), if index < |mask| then [1 as char, mask[index]] else "";
            Tokens(Lex(mask[offset..]), path, n) ==
            if x.Escaped? then Tokens(rest, path + [x.c], n)
            else Flush(path) + ([KeyFor(x, n, next)] + Tokens(rest, "", if IsUnnamed(x) then n + 1 else n))
  {
    hide Lex, Hit, KeyFor, Spell, NextText, Flush, IsUnnamed, Tokens;
    HitSpells(mask[offset..]);
    FirstLexeme(mask, offset, index, x);
    var xs, rest := Lex(mask[offset..]), Lex(mask[index..]);
    if x.Escaped? {
      LiteralTokens(xs, path, n);
    } else {
      var m := if IsUnnamed(x) then n + 1 else n;
      var key := ParameterTokens(xs, path, n, m, NextText(SpellAll(rest)));
      FlushedStep(Flush(path), [], key, Tokens(rest, "", m), Flush(path) + [key]);
    }
  }

  lemma LiteralTokens(xs: seq<Lexeme>, path: string, n: nat)
    requires xs != [] && IsLiteral(xs[0])
    ensures Tokens(xs, path, n) == Tokens(xs[1..], path + [xs[0].c], n)
  {
  }

  lemma FirstLexeme(mask: string, offset: nat, index: nat, x: Lexeme)
    requires offset < |mask| && Hit(mask[offset..]) == Some(x) && index == offset + |Spell(x)| <= |mask|
    ensures Lex(mask[offset..]) != [] && Lex(mask[offset..])[0] == x && Lex(mask[offset..])[1..] == Lex(mask[index..])
    ensures NextText(SpellAll(Lex(mask[index..]))) == if index < |mask| then [1 as char, mask[index]] else ""
  {
    LexHit(mask[offset..], x);
    hide Lex, Hit, SpellAll, Spell, NextText;
    Suffix(mask, offset, index);
    NextOfLex(mask, index);
  }

  lemma Suffix(s: string, i: nat, j: nat)
    requires i <= j <= |s|
    ensures s[i..][j - i..] == s[j..]
  {
  }

  lemma NextOfLex(mask: string, index: nat)
    requires index <= |mask|
    ensures NextText(SpellAll(Lex(mask[index..]))) == if index < |mask| then [1 as char, mask[index]] else ""
  {
    SpellingRecoversMask(mask[index..]);
    hide Lex, SpellAll;
  }

  lemma LexHit(s: string, x: Lexeme)
    requires s != "" && Hit(s) == Some(x)
    ensures Spell(x) <= s && Lex(s) == [x] + Lex(s[|Spell(x)|..])
  {
    HitSpells(s);
    hide Hit, Spell;
  }

  /** The token of one find. */
  method TokenFor(res: Lexeme, key: nat, next: string) returns (token: Key)
    requires res.Param? || res.Asterisk?
    ensures token == KeyFor(res, key, next)
  {
    var asterisk := res.Asterisk?;
    var name := if asterisk then "" else res.name;
    var capture := if asterisk then "" else res.capture;
    var group := if asterisk then "" else res.group;
    var modifier := if asterisk then "" else res.modifier;
    var partial := res.prefix != "" && next != "" && next != res.prefix;
    var repeat := modifier == "+" || modifier == "*";
    var optional := modifier == "?" || modifier == "*";
    var delimiter := if res.prefix == "" then "/" else res.prefix;
    var pattern := capture;
    if pattern == "" {
      pattern := group;
    }
    if pattern != "" {
      pattern := EscapeGroupText(pattern);
    } else if asterisk {
      pattern := ".*";
    } else {
      var escaped := Escape(delimiter);
      pattern := "[^" + escaped + "]+?";
    }
    token := Key(false, asterisk, optional, repeat, partial,
                 if name == "" then Index(key) else Named(name), res.prefix, delimiter, pattern);
  }

  // ----- what the tokens look like -----

  predicate IsLiteral(x: Lexeme) {
    x.Plain? || x.Escaped?
  }

  predicate AllLiteral(xs: seq<Lexeme>) {
    forall i :: 0 <= i < |xs| ==> IsLiteral(xs[i])
  }

  function LiteralText(xs: seq<Lexeme>): string
    requires AllLiteral(xs)
  {
    if xs == [] then ""
    else
      assert IsLiteral(xs[|xs| - 1]);
      LiteralText(xs[..|xs| - 1]) + [xs[|xs| - 1].c]
  }

  function UnnamedIn(xs: seq<Lexeme>): nat {
    if xs == [] then 0 else (if IsUnnamed(xs[0]) then 1 else 0) + UnnamedIn(xs[1..])
  }

  /** The token `t` is what the piece `xs` of the mask says, when `n` unnamed parameters come
      before it and the text `rest` after it. */
  predicate Reads(t: Key, xs: seq<Lexeme>, n: nat, rest: string) {
    xs != [] &&
    if t.isString then AllLiteral(xs) && t == AsString(LiteralText(xs))
    else |xs| == 1 && !IsLiteral(xs[0]) && t == KeyFor(xs[0], n, NextText(rest))
  }

  function Flatten(pieces: seq<seq<Lexeme>>): seq<Lexeme> {
    if pieces == [] then [] else pieces[0] + Flatten(pieces[1..])
  }

  /** Tokens and pieces correspond one to one; `n` unnamed parameters come before them. */
  predicate AllRead(ts: seq<Key>, pieces: seq<seq<Lexeme>>, n: nat) {
    if ts == [] || pieces == [] then |ts| == |pieces|
    else
      && Reads(ts[0], pieces[0], n, SpellAll(Flatten(pieces[1..])))
      && AllRead(ts[1..], pieces[1..], n + UnnamedIn(pieces[0]))
  }

  lemma OneMoreRead(t: Key, xs: seq<Lexeme>, ts: seq<Key>, pieces: seq<seq<Lexeme>>, n: nat)
    requires Reads(t, xs, n, SpellAll(Flatten(pieces))) && AllRead(ts, pieces, n + UnnamedIn(xs))
    ensures AllRead([t] + ts, [xs] + pieces, n) && Flatten([xs] + pieces) == xs + Flatten(pieces)
  {
    hide Reads, SpellAll, UnnamedIn;
    assert ([t] + ts)[1..] == ts && ([xs] + pieces)[1..] == pieces;
  }

  lemma {:induction false} LiteralsAreNamed(xs: seq<Lexeme>)
    requires AllLiteral(xs)
    ensures UnnamedIn(xs) == 0
  {
    if xs != [] {
      assert IsLiteral(xs[0]);
      assert forall i :: 0 <= i < |xs[1..]| ==> xs[1..][i] == xs[i + 1];
      LiteralsAreNamed(xs[1..]);
    }
  }

  /** A pending literal becomes a token of its own. */
  lemma FlushReads(pending: seq<Lexeme>, ts: seq<Key>, pieces: seq<seq<Lexeme>>, n: nat)
    returns (all: seq<seq<Lexeme>>)
    requires AllLiteral(pending) && AllRead(ts, pieces, n)
    ensures AllRead(Flush(LiteralText(pending)) + ts, all, n) && Flatten(all) == pending + Flatten(pieces)
  {
    hide LiteralText, AllLiteral, SpellAll, Reads, UnnamedIn, AllRead, Flatten;
    if pending == [] {
      NothingPending();
      all := pieces;
      assert [] + ts == ts && pending + Flatten(pieces) == Flatten(pieces);
    } else {
      LiteralReads(pending, n, SpellAll(Flatten(pieces)));
      LiteralsAreNamed(pending);
      OneMoreRead(AsString(LiteralText(pending)), pending, ts, pieces, n);
      all := [pending] + pieces;
    }
  }

  lemma LiteralReads(xs: seq<Lexeme>, n: nat, rest: string)
    requires AllLiteral(xs) && xs != []
    ensures LiteralText(xs) != "" && Reads(AsString(LiteralText(xs)), xs, n, rest)
  {
  }

  lemma NothingPending()
    ensures AllLiteral([]) && LiteralText([]) == ""
  {
  }

  lemma NothingRead(n: nat)
    ensures AllRead([], [], n) && Flatten([]) == []
  {
  }

  /** Tokens and pieces of the mask correspond one to one, in order, and together the
      pieces are everything that was found; `pending` is the literal not yet flushed. */
  lemma {:induction false} TokensAccount(xs: seq<Lexeme>, pending: seq<Lexeme>, n: nat)
    returns (pieces: seq<seq<Lexeme>>)
    requires AllLiteral(pending)
    ensures AllRead(Tokens(xs, LiteralText(pending), n), pieces, n)
    ensures Flatten(pieces) == pending + xs
    decreases xs
  {
    hide AllRead, Reads, SpellAll, KeyFor, NextText, Flush, Flatten, UnnamedIn;
    if xs == [] {
      NothingRead(n);
      pieces := FlushReads(pending, [], [], n);
      assert Flush(LiteralText(pending)) + [] == Flush(LiteralText(pending));
      assert pending + [] == pending + xs;
    } else if IsLiteral(xs[0]) {
      var more := pending + [xs[0]];
      assert more[..|more| - 1] == pending;
      assert LiteralText(more) == LiteralText(pending) + [xs[0].c];
      LiteralTokens(xs, LiteralText(pending), n);
      hide Tokens, LiteralText;
      pieces := TokensAccount(xs[1..], more, n);
      assert more + xs[1..] == pending + xs;
    } else {
      pieces := ParameterAccount(xs, pending, n);
    }
  }

  lemma {:induction false} ParameterAccount(xs: seq<Lexeme>, pending: seq<Lexeme>, n: nat)
    returns (pieces: seq<seq<Lexeme>>)
    requires xs != [] && !IsLiteral(xs[0]) && AllLiteral(pending)
    ensures AllRead(Tokens(xs, LiteralText(pending), n), pieces, n)
    ensures Flatten(pieces) == pending + xs
    decreases xs, 0
  {
    hide SpellAll, Spell, Flush, Flatten, NextText, Tokens, AllRead, KeyFor, IsUnnamed, LiteralText, Reads, UnnamedIn;
    NothingPending();
    var m, path := if IsUnnamed(xs[0]) then n + 1 else n, LiteralText(pending);
    var key := ParameterTokens(xs, path, n, m, NextText(SpellAll(xs[1..])));
    var none: seq<Lexeme> := [];
    var others := TokensAccount(xs[1..], none, m);
    assert none + xs[1..] == xs[1..];
    UnnamedInOne(xs[0]);
    ParameterReads(xs[0], n, SpellAll(xs[1..]));
    var rest := Tokens(xs[1..], "", m);
    OneMoreRead(key, [xs[0]], rest, others, n);
    pieces := FlushReads(pending, [key] + rest, [[xs[0]]] + others, n);
    Regroup(Flush(path), [key], rest);
    assert pending + ([xs[0]] + xs[1..]) == pending + xs;
  }

  lemma UnnamedInOne(x: Lexeme)
    ensures UnnamedIn([x]) == if IsUnnamed(x) then 1 else 0
  {
    assert [x][1..] == [];
  }

  lemma ParameterReads(x: Lexeme, n: nat, rest: string)
    requires !IsLiteral(x)
    ensures Reads(KeyFor(x, n, NextText(rest)), [x], n, rest)
  {
    hide NextText;
    assert [x][0] == x;
  }

  lemma ParameterTokens(xs: seq<Lexeme>, path: string, n: nat, m: nat, next: string) returns (key: Key)
    requires xs != [] && !IsLiteral(xs[0])
    requires m == (if IsUnnamed(xs[0]) then n + 1 else n) && next == NextText(SpellAll(xs[1..]))
    ensures key == KeyFor(xs[0], n, next)
    ensures Tokens(xs, path, n) == Flush(path) + [key] + Tokens(xs[1..], "", m)
  {
    hide KeyFor, SpellAll, NextText, Flush;
    key := KeyFor(xs[0], n, next);
  }

  lemma {:induction false} ReadAt(ts: seq<Key>, pieces: seq<seq<Lexeme>>, n: nat, i: nat)
    requires AllRead(ts, pieces, n) && i < |ts|
    ensures |pieces| == |ts|
    ensures Reads(ts[i], pieces[i], n + UnnamedIn(Flatten(pieces[..i])), SpellAll(Flatten(pieces[i + 1..])))
    decreases i
  {
    hide Reads, SpellAll;
    ReadCounts(ts, pieces, n);
    if i == 0 {
      assert pieces[..0] == [];
    } else {
      ReadAt(ts[1..], pieces[1..], n + UnnamedIn(pieces[0]), i - 1);
      assert pieces[1..][..i - 1] == pieces[1..i] && pieces[1..][i..] == pieces[i + 1..];
      assert pieces[..i][0] == pieces[0] && pieces[..i][1..] == pieces[1..i];
      UnnamedAppend(pieces[0], Flatten(pieces[1..i]));
    }
  }

  lemma {:induction false} ReadCounts(ts: seq<Key>, pieces: seq<seq<Lexeme>>, n: nat)
    requires AllRead(ts, pieces, n)
    ensures |pieces| == |ts|
  {
    if ts != [] && pieces != [] {
      ReadCounts(ts[1..], pieces[1..], n + UnnamedIn(pieces[0]));
    }
  }

  lemma {:induction false} UnnamedAppend(a: seq<Lexeme>, b: seq<Lexeme>)
    ensures UnnamedIn(a + b) == UnnamedIn(a) + UnnamedIn(b)
  {
    if a == [] {
      assert a + b == b;
    } else {
      assert (a + b)[1..] == a[1..] + b;
      UnnamedAppend(a[1..], b);
    }
  }

  function Concatenated(slices: seq<string>): string {
    if slices == [] then "" else slices[0] + Concatenated(slices[1..])
  }

  lemma {:induction false} SpellAppend(a: seq<Lexeme>, b: seq<Lexeme>)
    ensures SpellAll(a + b) == SpellAll(a) + SpellAll(b)
  {
    if a == [] {
      assert a + b == b;
    } else {
      assert (a + b)[1..] == a[1..] + b;
      SpellAppend(a[1..], b);
    }
  }

  function Slices(pieces: seq<seq<Lexeme>>): (slices: seq<string>)
    ensures |slices| == |pieces|
  {
    seq(|pieces|, i requires 0 <= i < |pieces| => SpellAll(pieces[i]))
  }

  lemma {:induction false} SpelledPieces(pieces: seq<seq<Lexeme>>)
    ensures Concatenated(Slices(pieces)) == SpellAll(Flatten(pieces))
  {
    if pieces != [] {
      SpelledPieces(pieces[1..]);
      SpellAppend(pieces[0], Flatten(pieces[1..]));
      assert Slices(pieces)[1..] == Slices(pieces[1..]);
    }
  }

  lemma SlicesFrom(pieces: seq<seq<Lexeme>>, i: nat)
    requires i <= |pieces|
    ensures Slices(pieces)[i..] == Slices(pieces[i..])
  {
    hide SpellAll;
  }

  /** The mask is the concatenation of one slice per token, the slices are the finds in order,
      and every token is what its slice says, given the unnamed parameters before the slice
      and the text that follows it. */
  lemma ScanAccountsForMask(mask: string) returns (pieces: seq<seq<Lexeme>>)
    ensures |pieces| == |Scan(mask)| && Flatten(pieces) == Lex(mask)
    ensures Concatenated(Slices(pieces)) == mask
    ensures forall i :: 0 <= i < |pieces| ==>
              Reads(Scan(mask)[i], pieces[i], UnnamedIn(Flatten(pieces[..i])), Concatenated(Slices(pieces)[i + 1..]))
  {
    hide Lex, Tokens, Reads, Flatten, Concatenated, SpellAll, UnnamedIn, AllRead, Slices, LiteralText, AllLiteral;
    NothingPending();
    var none: seq<Lexeme> := [];
    pieces := TokensAccount(Lex(mask), none, 0);
    assert none + Lex(mask) == Lex(mask);
    SpelledPieces(pieces);
    SpellingRecoversMask(mask);
    ReadCounts(Scan(mask), pieces, 0);
    forall i | 0 <= i < |pieces|
      ensures Reads(Scan(mask)[i], pieces[i], UnnamedIn(Flatten(pieces[..i])), Concatenated(Slices(pieces)[i + 1..]))
    {
      SliceReads(Scan(mask), pieces, i);
    }
  }

  lemma SliceReads(ts: seq<Key>, pieces: seq<seq<Lexeme>>, i: nat)
    requires AllRead(ts, pieces, 0) && i < |pieces| == |ts|
    ensures Reads(ts[i], pieces[i], UnnamedIn(Flatten(pieces[..i])), Concatenated(Slices(pieces)[i + 1..]))
  {
    hide Reads, Flatten, Concatenated, SpellAll, UnnamedIn, AllRead, Slices;
    ReadAt(ts, pieces, 0, i);
    SpelledPieces(pieces[i + 1..]);
    SlicesFrom(pieces, i + 1);
  }

  // ----- what a token tells of its find -----

  /** What a find of the expression looks like. */
  predicate IsFind(x: Lexeme) {
    match x
    case Param(prefix, name, capture, group, modifier) =>
      && (prefix == "" || prefix == "/" || prefix == ".")
      && (modifier == "" || modifier == "+" || modifier == "*" || modifier == "?")
      && if name == "" then capture == "" && group != "" else group == ""
    case Asterisk(prefix) => prefix == "" || prefix == "/" || prefix == "."
    case _ => true
  }

  lemma HitIsFind(s: string)
    requires Hit(s).Some?
    ensures IsFind(Hit(s).value)
  {
    hide HitBody, IsFind, IsLineBreak;
    if s[0] == '\\' {
      EscapedIsFind(s[1]);
    } else {
      var prefix := if IsPrefix(s[0]) then s[..1] else "";
      assert prefix == "" || prefix == "/" || prefix == ".";
      BodyIsFind(prefix, s[|prefix|..]);
    }
  }

  lemma EscapedIsFind(c: char)
    ensures IsFind(Escaped(c))
  {
  }

  lemma BodyIsFind(prefix: string, body: string)
    requires HitBody(prefix, body).Some? && (prefix == "" || prefix == "/" || prefix == ".")
    ensures IsFind(HitBody(prefix, body).value)
  {
    hide Parenthesised, WordLength;
    if body[0] == ':' {
      ModifierIs(body[1..][WordLength(body[1..])..]);
    }
  }

  lemma ModifierIs(s: string)
    ensures var m := ModifierAt(s); m == "" || m == "+" || m == "*" || m == "?"
  {
  }

  predicate AllFinds(xs: seq<Lexeme>) {
    forall i :: 0 <= i < |xs| ==> IsFind(xs[i])
  }

  lemma {:induction false} LexFinds(s: string)
    ensures AllFinds(Lex(s))
  {
    hide IsFind;
    if s != "" {
      if Hit(s).Some? {
        HitSpells(s);
        HitIsFind(s);
        LexFinds(s[|Spell(Hit(s).value)|..]);
      } else {
        LexFinds(s[1..]);
        PlainIsFind(s[0]);
      }
    }
  }

  lemma PlainIsFind(c: char)
    ensures IsFind(Plain(c))
  {
  }

  /** The pattern of its own, if a parameter has one. */
  function CustomPattern(x: Lexeme): string {
    if !x.Param? then "" else if x.capture != "" then x.capture else x.group
  }

  /** The text without the backslashes that `EscapeGroup` puts in. */
  function UnescapeGroup(s: string): string {
    if s == "" then ""
    else if |s| >= 2 && s[0] == '\\' && IsGroupSpecial(s[1]) then [s[1]] + UnescapeGroup(s[2..])
    else [s[0]] + UnescapeGroup(s[1..])
  }

  lemma {:induction false} UnescapeInvertsEscape(s: string)
    ensures UnescapeGroup(EscapeGroup(s)) == s
  {
    if s != "" {
      var c, rest := s[0], EscapeGroup(s[1..]);
      UnescapeInvertsEscape(s[1..]);
      assert s == [c] + s[1..];
      if IsGroupSpecial(c) {
        assert EscapeGroup(s)[2..] == rest;
      } else {
        assert EscapeGroup(s)[1..] == rest;
        assert rest != "" ==> !IsGroupSpecial(rest[0]);
      }
    }
  }

  /** The find a token was made of, read from the token alone; `custom` tells whether it had a
      pattern of its own. */
  function FindOf(k: Key, custom: bool): Lexeme {
    if k.asterisk then Asterisk(k.prefix)
    else
      var name := if k.value.Named? then k.value.s else "";
      var pattern := if custom then UnescapeGroup(k.pattern) else "";
      Param(k.prefix, name, if name == "" then "" else pattern, if name == "" then pattern else "",
            if k.optional then (if k.repeat then "*" else "?") else if k.repeat then "+" else "")
  }

  /** A token keeps everything its find says: prefix, name, pattern and modifier. */
  lemma TokenTellsFind(s: string, n: nat, next: string)
    requires Hit(s).Some? && !IsLiteral(Hit(s).value)
    ensures var x := Hit(s).value; FindOf(KeyFor(x, n, next), CustomPattern(x) != "") == x
  {
    HitIsFind(s);
    var x := Hit(s).value;
    hide Hit;
    UnescapeInvertsEscape(CustomPattern(x));
  }

  /** The token of a parameter is partial whenever it has a prefix and anything follows, because
      the next character is compared as a text of two characters. */
  lemma PartialWheneverFollowed(x: Lexeme, n: nat, rest: string)
    requires IsFind(x) && !IsLiteral(x)
    ensures KeyFor(x, n, NextText(rest)).partial <==> x.prefix != "" && rest != ""
  {
  }

  /** What the comparison is meant to find: a prefix, and a next character other than it. */
  predicate IsInnerPart(prefix: string, rest: string) {
    prefix != "" && rest != "" && rest[..1] != prefix
  }

  /** So the flag is the intended one exactly when the parameter is not followed by its own
      prefix. */
  lemma PartialAsIntended(x: Lexeme, n: nat, rest: string)
    requires IsFind(x) && !IsLiteral(x)
    ensures KeyFor(x, n, NextText(rest)).partial == IsInnerPart(x.prefix, rest) <==>
            !(x.prefix != "" && x.prefix <= rest)
  {
    PartialWheneverFollowed(x, n, rest);
    assert x.prefix != "" && rest != "" ==> (rest[..1] == x.prefix <==> x.prefix <= rest);
  }

  /** Read in pairs of a backslash and a character, the text holds a group special that no
      backslash escapes. */
  predicate HasBareSpecial(s: string) {
    s != "" &&
    if s[0] == '\\' then |s| >= 2 && HasBareSpecial(s[2..])
    else IsGroupSpecial(s[0]) || HasBareSpecial(s[1..])
  }

  predicate EscapesSpecial(s: string) {
    s != "" &&
    if s[0] == '\\' then |s| >= 2 && (IsGroupSpecial(s[1]) || EscapesSpecial(s[2..]))
    else EscapesSpecial(s[1..])
  }

  /** A pattern of a mask keeps all its group specials escaped exactly when the mask's author
      has escaped none of them: `EscapeGroup` puts its backslash after the author's own. */
  lemma {:induction false} EscapeGroupIsFaithful(p: string)
    requires ItemsLength(p) == |p|
    ensures HasBareSpecial(EscapeGroup(p)) <==> EscapesSpecial(p)
  {
    if p == "" {
    } else if p[0] == '\\' {
      var c, rest := p[1], EscapeGroup(p[2..]);
      EscapeGroupIsFaithful(p[2..]);
      EscapedPair(p);
      BareAfterPair(c, rest);
    } else {
      EscapeGroupIsFaithful(p[1..]);
      BareAfterOne(p[0], EscapeGroup(p[1..]));
    }
  }

  lemma EscapedPair(p: string)
    requires |p| >= 2 && p[0] == '\\'
    ensures EscapeGroup(p) == ['\\'] + ((if IsGroupSpecial(p[1]) then ['\\', p[1]] else [p[1]]) + EscapeGroup(p[2..]))
  {
    assert p[1..][1..] == p[2..] && p[1..] != "" && !IsGroupSpecial('\\');
  }

  lemma BareAfterPair(c: char, rest: string)
    ensures HasBareSpecial(['\\'] + ((if IsGroupSpecial(c) then ['\\', c] else [c]) + rest)) <==>
            IsGroupSpecial(c) || HasBareSpecial(rest)
  {
    var s := ['\\'] + ((if IsGroupSpecial(c) then ['\\', c] else [c]) + rest);
    if IsGroupSpecial(c) {
      assert s[2..] == [c] + rest && c != '\\';
    } else {
      assert s[2..] == rest;
    }
  }

  lemma BareAfterOne(c: char, rest: string)
    requires c != '\\'
    ensures HasBareSpecial((if IsGroupSpecial(c) then ['\\', c] else [c]) + rest) <==> HasBareSpecial(rest)
  {
    var s := (if IsGroupSpecial(c) then ['\\', c] else [c]) + rest;
    assert s[if IsGroupSpecial(c) then 2 else 1..] == rest;
  }

  predicate NeverAdjacent(ts: seq<Key>) {
    forall i :: 0 < i < |ts| ==> !(ts[i - 1].isString && ts[i].isString)
  }

  lemma AddParameter(flushed: seq<Key>, key: Key, rest: seq<Key>)
    requires |flushed| <= 1 && ProperTokens(flushed) && !key.isString && ProperTokens(rest) && NeverAdjacent(rest)
    ensures ProperTokens(flushed + [key] + rest) && NeverAdjacent(flushed + [key] + rest)
  {
    var f, ts := |flushed|, flushed + [key] + rest;
    forall i | 0 < i < |ts|
      ensures !(ts[i - 1].isString && ts[i].isString)
    {
      if i > f + 1 {
        assert ts[i - 1] == rest[i - f - 2] && ts[i] == rest[i - f - 1];
      }
    }
  }

  /** Literals are never empty and never adjacent. */
  lemma {:induction false} LiteralsAreMaximal(xs: seq<Lexeme>, path: string, n: nat)
    ensures ProperTokens(Tokens(xs, path, n)) && NeverAdjacent(Tokens(xs, path, n))
  {
    if xs == [] {
    } else if IsLiteral(xs[0]) {
      LiteralsAreMaximal(xs[1..], path + [xs[0].c], n);
    } else {
      var m := if IsUnnamed(xs[0]) then n + 1 else n;
      var key := ParameterTokens(xs, path, n, m, NextText(SpellAll(xs[1..])));
      LiteralsAreMaximal(xs[1..], "", m);
      assert !key.isString && ProperTokens(Flush(path));
      hide Tokens, KeyFor, SpellAll, ProperTokens, NeverAdjacent;
      AddParameter(Flush(path), key, Tokens(xs[1..], "", m));
    }
  }

  /** The numbers given to unnamed parameters, in order. */
  function Numbers(ts: seq<Key>): seq<nat> {
    if ts == [] then []
    else (if !ts[0].isString && ts[0].value.Index? then [ts[0].value.n] else []) + Numbers(ts[1..])
  }

  lemma {:induction false} NumbersAppend(a: seq<Key>, b: seq<Key>)
    ensures Numbers(a + b) == Numbers(a) + Numbers(b)
  {
    if a == [] {
      assert a + b == b;
    } else {
      assert (a + b)[1..] == a[1..] + b;
      NumbersAppend(a[1..], b);
    }
  }

  predicate CountsUpFrom(ns: seq<nat>, n: nat) {
    forall i :: 0 <= i < |ns| ==> ns[i] == n + i
  }

  lemma {:induction false} NumbersCountUp(xs: seq<Lexeme>, path: string, n: nat)
    ensures CountsUpFrom(Numbers(Tokens(xs, path, n)), n)
  {
    assert Numbers(Flush(path)) == [] by {
      assert path != "" ==> [AsString(path)][1..] == [];
    }
    if xs == [] {
    } else if IsLiteral(xs[0]) {
      NumbersCountUp(xs[1..], path + [xs[0].c], n);
    } else {
      var m := if IsUnnamed(xs[0]) then n + 1 else n;
      var next, rest := NextText(SpellAll(xs[1..])), Tokens(xs[1..], "", m);
      var key := ParameterTokens(xs, path, n, m, next);
      NumbersCountUp(xs[1..], "", m);
      NumberOf(xs[0], n, next);
      hide Tokens, KeyFor, Flush, Numbers, SpellAll, NextText, IsUnnamed;
      NumbersAppend(Flush(path) + [key], rest);
      NumbersAppend(Flush(path), [key]);
      hide CountsUpFrom;
      CountsJoin(Numbers([key]), Numbers(rest), n, m);
    }
  }

  lemma CountsJoin(own: seq<nat>, rest: seq<nat>, n: nat, m: nat)
    requires CountsUpFrom(rest, m) && (if m == n then own == [] else own == [n] && m == n + 1)
    ensures CountsUpFrom([] + own + rest, n)
  {
    var all := [] + own + rest;
    assert forall i :: |own| <= i < |all| ==> all[i] == rest[i - |own|];
  }

  lemma NumberOf(x: Lexeme, n: nat, next: string)
    requires !IsLiteral(x)
    ensures Numbers([KeyFor(x, n, next)]) == if IsUnnamed(x) then [n] else []
  {
    assert [KeyFor(x, n, next)][1..] == [];
  }

  /** Unnamed parameters are numbered 0, 1, 2, ... from left to right. */
  lemma UnnamedAreNumbered(mask: string)
    ensures CountsUpFrom(Numbers(Scan(mask)), 0)
  {
    NumbersCountUp(Lex(mask), "", 0);
  }

  // ----- writing a mask and scanning it -----

  predicate AllWord(s: string) {
    forall i :: 0 <= i < |s| ==> IsWord(s[i])
  }

  predicate StartsWord(s: string) {
    s != "" && IsWord(s[0])
  }

  predicate StartsModifier(s: string) {
    s != "" && IsModifier(s[0])
  }

  /** The text would be the body of a find. */
  predicate StartsBody(s: string) {
    s != "" && (s[0] == ':' || s[0] == '(' || s[0] == '*')
  }

  /** The lexeme can be written before the text `rest` without being misread. */
  predicate Writable(x: Lexeme, rest: string) {
    match x
    case Plain(c) =>
      c != '\\' && c != ':' && c != '(' && c != '*' &&
      (IsPrefix(c) ==> !StartsBody(rest))
    case Escaped(c) => !IsLineBreak(c)
    case Param(prefix, name, capture, group, modifier) =>
      && (prefix == "" || prefix == "/" || prefix == ".")
      && (if name != "" then AllWord(name) && group == "" else capture == "")
      && (capture != "" ==> ItemsLength(capture) == |capture|)
      && (name == "" ==> group != "" && ItemsLength(group) == |group|)
      && (modifier == "" || modifier == "+" || modifier == "*" || modifier == "?")
      && (modifier == "" ==> !StartsModifier(rest))
      && (name != "" && capture == "" && modifier == "" ==> !StartsWord(rest) && !("(" <= rest))
    case Asterisk(prefix) => prefix == "" || prefix == "/" || prefix == "."
  }

  predicate AllWritable(xs: seq<Lexeme>) {
    xs == [] || (Writable(xs[0], SpellAll(xs[1..])) && AllWritable(xs[1..]))
  }

  lemma {:induction false} WordLengthExact(w: string, rest: string)
    requires AllWord(w) && !StartsWord(rest)
    ensures WordLength(w + rest) == |w|
  {
    if w == "" {
      assert w + rest == rest;
    } else {
      assert (w + rest)[1..] == w[1..] + rest;
      WordLengthExact(w[1..], rest);
    }
  }

  lemma {:induction false} ItemsLengthExact(w: string, rest: string)
    requires ItemsLength(w) == |w|
    ensures ItemsLength(w + ")" + rest) == |w|
  {
    if w == "" {
    } else if w[0] == '\\' {
      assert (w + ")" + rest)[2..] == w[2..] + ")" + rest;
      ItemsLengthExact(w[2..], rest);
    } else {
      assert (w + ")" + rest)[1..] == w[1..] + ")" + rest;
      ItemsLengthExact(w[1..], rest);
    }
  }

  lemma ParenthesisedExact(w: string, rest: string)
    requires w != "" && ItemsLength(w) == |w|
    ensures Parenthesised("(" + w + ")" + rest) == Some(w)
    ensures ("(" + w + ")" + rest)[|w| + 2..] == rest
  {
    hide ItemsLength;
    ItemsLengthExact(w, rest);
    ParensText(w, rest);
  }

  lemma ParensText(w: string, rest: string)
    ensures var s := "(" + w + ")" + rest;
            && s[1..] == w + ")" + rest && s[1..][..|w|] == w
            && |w| + 1 < |s| && s[|w| + 1] == ')' && s[|w| + 2..] == rest
  {
    var s := "(" + w + ")" + rest;
    assert s[1..] == w + ")" + rest;
  }

  lemma ModifierExact(m: string, rest: string)
    requires m == "" || m == "+" || m == "*" || m == "?"
    requires m == "" ==> !StartsModifier(rest)
    ensures ModifierAt(m + rest) == m
  {
    if m == "" {
      assert m + rest == rest;
    } else {
      assert (m + rest)[..1] == m && (m + rest)[0] == m[0];
    }
  }

  /** The body of a named parameter: its longest name, then its pattern if it has one. */
  lemma HitNamed(prefix: string, body: string, n: nat)
    requires body != "" && body[0] == ':' && n == WordLength(body[1..]) > 0
    ensures var name, after := body[1..][..n], body[1..][n..];
            var found := Parenthesised(after);
            HitBody(prefix, body) == Some(if found.Some?
              then Param(prefix, name, found.value, "", ModifierAt(after[|found.value| + 2..]))
              else Param(prefix, name, "", "", ModifierAt(after)))
  {
    hide ItemsLength, WordLength, Parenthesised, ModifierAt;
  }

  lemma HitGroup(prefix: string, group: string, tail: string)
    requires Parenthesised("(" + group + ")" + tail) == Some(group)
    requires ("(" + group + ")" + tail)[|group| + 2..] == tail
    ensures HitBody(prefix, "(" + group + ")" + tail) == Some(Param(prefix, "", "", group, ModifierAt(tail)))
  {
    hide Parenthesised, ModifierAt;
  }

  lemma GroupReads(x: Lexeme, rest: string, body: string)
    requires x.Param? && x.name == "" && Writable(x, rest)
    requires body == Core(x.name, x.capture, x.group) + (x.modifier + rest)
    ensures HitBody(x.prefix, body) == Some(x) && body != "" && body[0] == '('
  {
    hide ItemsLength, ModifierAt, Parenthesised, HitBody;
    ModifierExact(x.modifier, rest);
    assert body == "(" + x.group + ")" + (x.modifier + rest);
    ParenthesisedExact(x.group, x.modifier + rest);
    HitGroup(x.prefix, x.group, x.modifier + rest);
  }

  /** What follows the name of a written parameter: its pattern if it has one, its modifier. */
  lemma PatternReads(x: Lexeme, rest: string, after: string)
    requires x.Param? && x.name != "" && Writable(x, rest)
    requires after == if x.capture == "" then x.modifier + rest else "(" + x.capture + ")" + (x.modifier + rest)
    ensures !StartsWord(after) && AllWord(x.name) && x.group == ""
    ensures Parenthesised(after) == if x.capture == "" then None else Some(x.capture)
    ensures x.capture == "" ==> ModifierAt(after) == x.modifier
    ensures x.capture != "" ==>
              |x.capture| + 2 <= |after| && ModifierAt(after[|x.capture| + 2..]) == x.modifier
  {
    hide ItemsLength, ModifierAt, Parenthesised, AllWord;
    ModifierExact(x.modifier, rest);
    if x.capture != "" {
      ParenthesisedExact(x.capture, x.modifier + rest);
    } else {
      NoParens(after);
    }
  }

  lemma NamedReads(x: Lexeme, rest: string, body: string)
    requires x.Param? && x.name != "" && Writable(x, rest)
    requires body == Core(x.name, x.capture, x.group) + (x.modifier + rest)
    ensures HitBody(x.prefix, body) == Some(x) && body != "" && body[0] == ':'
  {
    hide ItemsLength, ModifierAt, Parenthesised, HitBody, WordLength, AllWord, Core, Writable, StartsWord;
    var after := NamedBody(x, rest, body);
    PatternReads(x, rest, after);
    NameReads(x.name, after, body);
    HitNamed(x.prefix, body, |x.name|);
  }

  /** A written parameter, read at its body. */
  lemma ParamReads(x: Lexeme, rest: string) returns (body: string)
    requires x.Param? && Writable(x, rest)
    ensures Spell(x) + rest == x.prefix + body && HitBody(x.prefix, body) == Some(x)
    ensures body != "" && (body[0] == ':' || body[0] == '(')
  {
    hide Writable, Spell, Core, HitBody;
    body := SpelledParam(x, rest);
    if x.name == "" {
      GroupReads(x, rest, body);
    } else {
      NamedReads(x, rest, body);
    }
  }

  lemma NamedBody(x: Lexeme, rest: string, body: string) returns (after: string)
    requires x.Param? && x.name != "" && body == Core(x.name, x.capture, x.group) + (x.modifier + rest)
    ensures after == if x.capture == "" then x.modifier + rest else "(" + x.capture + ")" + (x.modifier + rest)
    ensures body != "" && body[0] == ':' && body[1..] == x.name + after
  {
    var tail := x.modifier + rest;
    after := if x.capture == "" then tail else "(" + x.capture + ")" + tail;
    assert body == [':'] + (x.name + after);
  }

  lemma NoParens(s: string)
    ensures !("(" <= s) ==> Parenthesised(s) == None
  {
    assert s != "" && s[0] == '(' ==> "(" <= s;
  }

  lemma SpelledParam(x: Lexeme, rest: string) returns (body: string)
    requires x.Param?
    ensures body == Core(x.name, x.capture, x.group) + (x.modifier + rest)
    ensures Spell(x) + rest == x.prefix + body
  {
    hide Core;
    var core := Core(x.name, x.capture, x.group);
    body := core + (x.modifier + rest);
    assert body == (core + x.modifier) + rest;
    assert x.prefix + (core + x.modifier) + rest == x.prefix + ((core + x.modifier) + rest);
  }

  lemma NameReads(name: string, after: string, body: string)
    requires body != "" && AllWord(name) && !StartsWord(after) && body[1..] == name + after
    ensures WordLength(body[1..]) == |name| && body[1..][..|name|] == name && body[1..][|name|..] == after
  {
    WordLengthExact(name, after);
  }

  /** A written lexeme is the first thing found. */
  lemma WritableReads(x: Lexeme, rest: string)
    requires Writable(x, rest)
    ensures Hit(Spell(x) + rest) == if x.Plain? then None else Some(x)
  {
    var s := Spell(x) + rest;
    match x
    case Plain(c) =>
      hide WordLength, ItemsLength, IsWord;
      if IsPrefix(c) {
        assert s[1..] == rest && s[..1] == [c];
      } else {
        assert s[0..] == s;
      }
    case Escaped(_) =>
    case Param(prefix, _, _, _, _) =>
      var body := ParamReads(x, rest);
      hide Writable, Core, HitBody, ItemsLength, WordLength, IsWord;
      PrefixedBody(prefix, body);
    case Asterisk(prefix) =>
      hide WordLength, ItemsLength, IsWord;
      assert s == prefix + ("*" + rest);
      PrefixedBody(prefix, "*" + rest);
  }

  /** A find with a prefix is found from its prefix on. */
  lemma PrefixedBody(prefix: string, body: string)
    requires prefix == "" || prefix == "/" || prefix == "."
    requires body != "" && (body[0] == ':' || body[0] == '(' || body[0] == '*')
    ensures Hit(prefix + body) == HitBody(prefix, body)
  {
    hide HitBody;
    var s := prefix + body;
    assert s[|prefix|..] == body;
    assert prefix != "" ==> s[..1] == prefix;
  }

  /** Writing lexemes and scanning the text gives the lexemes back. */
  lemma {:induction false} LexInvertsSpelling(xs: seq<Lexeme>)
    requires AllWritable(xs)
    ensures Lex(SpellAll(xs)) == xs
  {
    if xs != [] {
      var x, rest := xs[0], SpellAll(xs[1..]);
      var s := Spell(x) + rest;
      WritableReads(x, rest);
      LexInvertsSpelling(xs[1..]);
      assert s[|Spell(x)|..] == rest;
      assert xs == [x] + xs[1..];
      LexFirst(s, x);
    }
  }

  /** A text with a backslash before every character. */
  function EscapeAll(text: string): string {
    if text == "" then "" else ['\\', text[0]] + EscapeAll(text[1..])
  }

  function EscapedLexemes(text: string): seq<Lexeme> {
    if text == "" then [] else [Escaped(text[0])] + EscapedLexemes(text[1..])
  }

  lemma {:induction false} EscapedLexemesSpell(text: string)
    requires forall i :: 0 <= i < |text| ==> !IsLineBreak(text[i])
    ensures AllWritable(EscapedLexemes(text)) && SpellAll(EscapedLexemes(text)) == EscapeAll(text)
  {
    if text != "" {
      EscapedLexemesSpell(text[1..]);
      assert EscapedLexemes(text)[1..] == EscapedLexemes(text[1..]);
    }
  }

  lemma {:induction false} EscapedLexemesTokens(text: string, path: string)
    ensures Tokens(EscapedLexemes(text), path, 0) == Flush(path + text)
  {
    if text == "" {
      assert path + text == path;
    } else {
      var xs, others, more := EscapedLexemes(text), EscapedLexemes(text[1..]), path + [text[0]];
      assert xs[1..] == others && xs[0].c == text[0];
      LiteralTokens(xs, path, 0);
      EscapedLexemesTokens(text[1..], more);
      assert more + text[1..] == path + text;
    }
  }

  /** A fully escaped mask is one literal with the original text, or nothing. */
  lemma EscapedMaskIsLiteral(text: string)
    requires forall i :: 0 <= i < |text| ==> !IsLineBreak(text[i])
    ensures Scan(EscapeAll(text)) == if text == "" then [] else [AsString(text)]
  {
    EscapedLexemesSpell(text);
    EscapedLexemesTokens(text, "");
    LexInvertsSpelling(EscapedLexemes(text));
    assert "" + text == text;
  }
}
