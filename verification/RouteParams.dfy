/** From capture groups to parameters, and extraction as the inverse of substitution. */
module RouteParams {
  import opened Wrappers
  import opened Regex
  import opened PathKeys
  import opened PathCompiler
  import opened RouteMeaning

  type Params = map<Name, string>

  /** What std::regex_match reports: the groups of some match of the whole path, if there
      is one.  The engine is free to choose which. */
  ghost predicate EngineAnswers(r: Re, path: string, found: Option<seq<string>>) {
    match found
    case Some(c) => Accepts(r, path, c)
    case None => forall c :: !Accepts(r, path, c)
  }

  /** The first `n` keys name exactly the parameters, and every parameter has the value of
      the last of those keys with its name. */
  ghost predicate Binds(keys: seq<Key>, values: seq<string>, n: nat, params: Params)
    requires n <= |keys| == |values|
  {
    && (forall x :: x in params <==> exists i :: 0 <= i < n && keys[i].value == x)
    && (forall i :: 0 <= i < n && (forall m :: i < m < n ==> keys[m].value != keys[i].value) ==>
          keys[i].value in params && params[keys[i].value] == values[i])
  }

  /** The texts of the first `n` groups; a group there is not has the empty text. */
  function GroupTexts(groups: seq<string>, n: nat): (texts: seq<string>)
    ensures |texts| == n
    ensures n == |groups| ==> texts == groups
    ensures forall i :: 0 <= i < n ==> texts[i] == if i < |groups| then groups[i] else ""
  {
    if n <= |groups| then groups[..n] else groups + Blank(n - |groups|)
  }

  /** Matches a path.  A failed match leaves the parameters alone; a successful one leaves
      no parameter of an earlier match behind. */
  method Matches(ghost re: Re, keys: seq<Key>, ghost path: string, found: Option<seq<string>>, params: Params)
    returns (matched: bool, bound: Params)
    ensures matched <==> found.Some?
    ensures EngineAnswers(re, path, found) ==> (matched <==> exists c :: Accepts(re, path, c))
    ensures matched && EngineAnswers(re, path, found) ==> |found.value| == GroupsRe(re)
    ensures matched ==> Binds(keys, GroupTexts(found.value, |keys|), |keys|, bound)
    ensures !matched ==> bound == params
  {
    bound := params;
    matched := found.Some?;
    if !matched {
      return;
    }
    bound := map[];
    ghost var texts := GroupTexts(found.value, |keys|);
    var id := 0;
    while id < |keys|
      invariant id <= |keys|
      invariant Binds(keys, texts, id, bound)
    {
      ghost var before := bound;
      bound := bound[keys[id].value := if id < |found.value| then found.value[id] else ""];
      BindsOneMore(keys, texts, id, before, bound);
      id := id + 1;
    }
  }

  lemma BindsOneMore(keys: seq<Key>, values: seq<string>, n: nat, before: Params, after: Params)
    requires n < |keys| == |values| && Binds(keys, values, n, before)
    requires after == before[keys[n].value := values[n]]
    ensures Binds(keys, values, n + 1, after)
  {
    var name := keys[n].value;
    forall x | x in after
      ensures exists i :: 0 <= i < n + 1 && keys[i].value == x
    {
      if x != name {
        assert x in before;
        var i :| 0 <= i < n && keys[i].value == x;
        assert 0 <= i < n + 1;
      }
    }
    assert forall i :: 0 <= i < n ==> keys[i].value in before;
    forall i | 0 <= i < n + 1 && (forall m :: i < m < n + 1 ==> keys[m].value != keys[i].value)
      ensures keys[i].value in after && after[keys[i].value] == values[i]
    {
      if i < n {
        assert name != keys[i].value;
        assert forall m :: i < m < n ==> keys[m].value != keys[i].value;
      }
    }
  }

  /** The parameters that binding the groups one after the other gives: of keys with the same name
      the last one wins. */
  function Bound(keys: seq<Key>, values: seq<string>): Params
    requires |keys| == |values|
  {
    if keys == [] then map[]
    else
      var n := |keys| - 1;
      Bound(keys[..n], values[..n])[keys[n].value := values[n]]
  }

  lemma {:induction false} BoundIsBound(keys: seq<Key>, values: seq<string>)
    requires |keys| == |values|
    ensures Binds(keys, values, |keys|, Bound(keys, values))
    decreases |keys|
  {
    if keys != [] {
      var n := |keys| - 1;
      var init, first := keys[..n], values[..n];
      BoundIsBound(init, first);
      BindsLonger(keys, values, n, Bound(init, first));
      BindsOneMore(keys, values, n, Bound(init, first), Bound(keys, values));
    }
  }

  lemma BindsLonger(keys: seq<Key>, values: seq<string>, n: nat, params: Params)
    requires n <= |keys| == |values| && Binds(keys[..n], values[..n], n, params)
    ensures Binds(keys, values, n, params)
  {
    assert forall i :: 0 <= i < n ==> keys[..n][i] == keys[i] && values[..n][i] == values[i];
  }

  /** Among the first `n` keys, the last with the name of the one at `i`. */
  lemma {:induction false} LastOfName(keys: seq<Key>, n: nat, i: nat) returns (last: nat)
    requires i < n <= |keys|
    ensures i <= last < n && keys[last].value == keys[i].value
    ensures forall m :: last < m < n ==> keys[m].value != keys[i].value
    decreases n
  {
    if keys[n - 1].value == keys[i].value {
      last := n - 1;
    } else {
      last := LastOfName(keys, n - 1, i);
    }
  }

  /** Nothing else binds the groups. */
  lemma OnlyBoundBinds(keys: seq<Key>, values: seq<string>, params: Params)
    requires |keys| == |values|
    ensures Binds(keys, values, |keys|, params) <==> params == Bound(keys, values)
  {
    hide Bound;
    BoundIsBound(keys, values);
    if Binds(keys, values, |keys|, params) {
      var bound := Bound(keys, values);
      forall x | x in params
        ensures x in bound && bound[x] == params[x]
      {
        var i :| 0 <= i < |keys| && keys[i].value == x;
        var last := LastOfName(keys, |keys|, i);
      }
      forall x | x in bound
        ensures x in params
      {
        var i :| 0 <= i < |keys| && keys[i].value == x;
      }
      assert params.Keys == bound.Keys;
      assert params == bound;
    }
  }

  /** With distinct names every parameter has the text of its own group. */
  lemma DistinctNamesBind(keys: seq<Key>, values: seq<string>, params: Params, i: nat)
    requires |keys| == |values| && DistinctNames(keys) && Binds(keys, values, |keys|, params) && i < |keys|
    ensures keys[i].value in params && params[keys[i].value] == values[i]
  {
    assert forall m :: i < m < |keys| ==> keys[m].value != keys[i].value;
  }

  ghost predicate DistinctNames(keys: seq<Key>) {
    forall m, n :: 0 <= m < n < |keys| ==> keys[m].value != keys[n].value
  }

  // ----- substitution -----

  /** A value that stays within one path segment. */
  predicate IsSegment(v: string) {
    v != "" && forall i :: 0 <= i < |v| ==> v[i] != '/'
  }

  predicate AllSegments(vs: seq<string>) {
    forall i :: 0 <= i < |vs| ==> IsSegment(vs[i])
  }

  predicate IsSegmentKey(k: Key) {
    !k.isString && !k.optional && !k.repeat && k.pattern == SegmentPattern("/")
  }

  predicate StartsWithSlash(ts: seq<Key>) {
    ts == [] ||
    if ts[0].isString then ts[0].value.Named? && "/" <= ts[0].value.s else "/" <= ts[0].prefix
  }

  /** Every parameter is required, takes one segment, and is followed by a slash or by the
      end of the mask. */
  predicate Extractable(ts: seq<Key>) {
    ts == [] ||
    (Extractable(ts[1..]) &&
     if ts[0].isString then ts[0].value.Named? else IsSegmentKey(ts[0]) && StartsWithSlash(ts[1..]))
  }

  function LiteralText(k: Key): string {
    if k.value.Named? then k.value.s else ""
  }

  /** The path written by replacing every parameter by its value. */
  function Substitute(ts: seq<Key>, vs: seq<string>): string
    requires |vs| == |Parameters(ts)|
  {
    if ts == [] then ""
    else if ts[0].isString then LiteralText(ts[0]) + Substitute(ts[1..], vs)
    else ts[0].prefix + vs[0] + Substitute(ts[1..], vs[1..])
  }

  predicate Slashy(t: string) {
    t == "" || t[0] == '/'
  }

  /** What comes after the tokens `ts`, when `t` follows them, is empty or starts with a
      slash.  Only a literal that lost its slash may be empty. */
  predicate SlashNext(ts: seq<Key>, t: string) {
    if ts == [] then Slashy(t)
    else if !ts[0].isString then "/" <= ts[0].prefix
    else ts[0].value.Named? && if ts[0].value.s == "" then SlashNext(ts[1..], t) else "/" <= ts[0].value.s
  }

  /** Like Extractable, with `t` following the last token. */
  predicate Separated(ts: seq<Key>, t: string) {
    ts == [] ||
    (Separated(ts[1..], t) &&
     if ts[0].isString then ts[0].value.Named? else IsSegmentKey(ts[0]) && SlashNext(ts[1..], t))
  }

  lemma {:induction false} SeparatedIsCompilable(ts: seq<Key>, t: string)
    requires Separated(ts, t)
    ensures Compilable(ts)
  {
    DefaultPatternsArePlain("/");
    if ts != [] {
      SeparatedIsCompilable(ts[1..], t);
      assert forall i :: 1 <= i < |ts| ==> ts[i] == ts[1..][i - 1];
    }
  }

  lemma SegmentValue(k: Key, w: string, v: string)
    requires IsSegmentKey(k)
    ensures PlainPattern(k.pattern)
    ensures ParameterMeans(k, w, v) <==> w == k.prefix + v && IsSegment(v)
  {
    DefaultPatternsMean("/", v);
    assert forall c :: c in "/" <==> c == '/';
  }

  lemma {:induction false} SubstitutionStarts(ts: seq<Key>, vs: seq<string>, t: string)
    requires Compilable(ts) && |vs| == |Parameters(ts)| && SlashNext(ts, t)
    ensures Slashy(Substitute(ts, vs) + t)
  {
    if ts != [] && ts[0].isString && ts[0].value.s == "" {
      SubstitutionStarts(ts[1..], vs, t);
    }
  }

  lemma {:induction false} MeaningStarts(ts: seq<Key>, u: string, ws: seq<string>, t: string)
    requires Separated(ts, t) && Compilable(ts) && SlashNext(ts, t) && TokensMean(ts, u, ws)
    ensures Slashy(u + t)
  {
    if ts == [] {
      assert u + t == t;
    } else if ts[0].isString {
      if ts[0].value.s == "" {
        MeaningStarts(ts[1..], u, ws, t);
      }
    } else {
      var k :| 0 <= k <= |u| && ParameterMeans(ts[0], u[..k], ws[0]) && TokensMean(ts[1..], u[k..], ws[1..]);
      SegmentValue(ts[0], u[..k], ws[0]);
      assert u[0] == u[..k][0] == '/';
    }
  }

  /** Segments that begin at the same place and end before a slash or the end are equal. */
  lemma SameSegment(v: string, r: string, w: string, q: string)
    requires IsSegment(v) && IsSegment(w) && Slashy(r) && Slashy(q) && v + r == w + q
    ensures v == w && r == q
  {
    assert |v| >= |w| by {
      assert r != [] ==> (v + r)[|v|] == '/';
    }
    assert |w| >= |v| by {
      assert q != [] ==> (w + q)[|w|] == '/';
    }
    assert (v + r)[..|v|] == v && (w + q)[..|w|] == w;
    assert (v + r)[|v|..] == r && (w + q)[|w|..] == q;
  }

  /** The decomposition of a substituted path is unique. */
  lemma {:induction false} UniqueValues(ts: seq<Key>, vs: seq<string>, t: string, u: string, ws: seq<string>, q: string)
    requires Separated(ts, t) && Separated(ts, q) && Compilable(ts)
    requires |vs| == |Parameters(ts)| && AllSegments(vs)
    requires TokensMean(ts, u, ws) && u + q == Substitute(ts, vs) + t
    ensures ws == vs && q == t
    decreases ts, 1
  {
    if ts == [] {
      assert u + q == q;
      assert Substitute(ts, vs) + t == t;
    } else if ts[0].isString {
      var s := ts[0].value.s;
      assert (u + q)[|s|..] == u[|s|..] + q;
      assert (Substitute(ts, vs) + t)[|s|..] == Substitute(ts[1..], vs) + t;
      UniqueValues(ts[1..], vs, t, u[|s|..], ws, q);
    } else {
      UniqueFirstValue(ts, vs, t, u, ws, q);
    }
  }

  lemma {:induction false} UniqueFirstValue(ts: seq<Key>, vs: seq<string>, t: string,
                                            u: string, ws: seq<string>, q: string)
    requires ts != [] && !ts[0].isString
    requires Separated(ts, t) && Separated(ts, q) && Compilable(ts)
    requires |vs| == |Parameters(ts)| && AllSegments(vs)
    requires TokensMean(ts, u, ws) && u + q == Substitute(ts, vs) + t
    ensures ws == vs && q == t
    decreases ts, 0
  {
    var k, more := FirstValue(ts, t, u, ws, q);
    var p, rest := ts[0].prefix, Substitute(ts[1..], vs[1..]);
    hide ParameterMeans, TokensMean, Separated, IsSegmentKey, SlashNext, Compilable, CompilableToken, PlainPattern;
    SubstitutionStarts(ts[1..], vs[1..], t);
    SamePrefix(p, ws[0], more, q, vs[0], rest, t);
    UniqueValues(ts[1..], vs[1..], t, more, ws[1..], q);
    SameCons(ws, vs);
  }

  /** The first parameter's value, what follows it, and what is known of the tokens left. */
  lemma FirstValue(ts: seq<Key>, t: string, u: string, ws: seq<string>, q: string) returns (k: nat, more: string)
    requires ts != [] && !ts[0].isString && Compilable(ts)
    requires Separated(ts, t) && Separated(ts, q) && TokensMean(ts, u, ws)
    ensures ws != [] && IsSegment(ws[0]) && u == ts[0].prefix + ws[0] + more
    ensures Compilable(ts[1..]) && TokensMean(ts[1..], more, ws[1..]) && Slashy(more + q)
    ensures Separated(ts[1..], t) && Separated(ts[1..], q) && SlashNext(ts[1..], t)
  {
    k :| 0 <= k <= |u| && ParameterMeans(ts[0], u[..k], ws[0]) && TokensMean(ts[1..], u[k..], ws[1..]);
    more := u[k..];
    SegmentValue(ts[0], u[..k], ws[0]);
    MeaningStarts(ts[1..], more, ws[1..], q);
  }

  lemma SamePrefix(p: string, v: string, r: string, q: string, w: string, x: string, y: string)
    requires p + v + r + q == p + w + x + y
    requires IsSegment(v) && IsSegment(w) && Slashy(r + q) && Slashy(x + y)
    ensures v == w && r + q == x + y
  {
    assert p + v + r + q == p + (v + (r + q)) && p + w + x + y == p + (w + (x + y));
    assert (p + (v + (r + q)))[|p|..] == v + (r + q) && (p + (w + (x + y)))[|p|..] == w + (x + y);
    SameSegment(v, r + q, w, x + y);
  }

  lemma SameCons(a: seq<string>, b: seq<string>)
    requires a != [] && b != [] && a[0] == b[0] && a[1..] == b[1..]
    ensures a == b
  {
    assert a == [a[0]] + a[1..] && b == [b[0]] + b[1..];
  }

  /** A substituted path means the tokens with the substituted values. */
  lemma {:induction false} SubstitutionMeans(ts: seq<Key>, vs: seq<string>, t: string)
    requires Separated(ts, t) && Compilable(ts) && |vs| == |Parameters(ts)| && AllSegments(vs)
    ensures TokensMean(ts, Substitute(ts, vs), vs)
  {
    var w := Substitute(ts, vs);
    if ts == [] {
    } else if ts[0].isString {
      var s := ts[0].value.s;
      assert w[|s|..] == Substitute(ts[1..], vs) && w[..|s|] == s;
      SubstitutionMeans(ts[1..], vs, t);
    } else {
      var k := |ts[0].prefix + vs[0]|;
      assert w[..k] == ts[0].prefix + vs[0] && w[k..] == Substitute(ts[1..], vs[1..]);
      SegmentValue(ts[0], w[..k], vs[0]);
      SubstitutionMeans(ts[1..], vs[1..], t);
      assert ParameterMeans(ts[0], w[..k], vs[0]) && TokensMean(ts[1..], w[k..], vs[1..]);
    }
  }

  // ----- the three shapes of a route -----

  lemma {:induction false} ExtractableIsSeparated(ts: seq<Key>, t: string)
    requires Extractable(ts) && ProperTokens(ts) && Slashy(t)
    ensures Separated(ts, t)
  {
    if ts != [] {
      assert forall i :: 1 <= i < |ts| ==> ts[i] == ts[1..][i - 1];
      ExtractableIsSeparated(ts[1..], t);
    }
  }

  /** Without the last parameter, which the text `t` now stands for. */
  lemma {:induction false} InitIsSeparated(ts: seq<Key>, last: Key, t: string)
    requires Extractable(ts + [last]) && ProperTokens(ts) && !last.isString && last.prefix <= t
    ensures Separated(ts, t)
  {
    if ts != [] {
      assert (ts + [last])[1..] == ts[1..] + [last];
      assert forall i :: 1 <= i < |ts| ==> ts[i] == ts[1..][i - 1];
      InitIsSeparated(ts[1..], last, t);
      if !ts[0].isString && ts[1..] == [] {
        assert (ts[1..] + [last])[0] == last;
      }
    }
  }

  /** Without the final slash of the last literal. */
  lemma {:induction false} DroppedIsSeparated(ts: seq<Key>, last: Key, dropped: Key, t: string)
    requires Extractable(ts + [last]) && ProperTokens(ts) && Slashy(t)
    requires last.isString && last.value.Named? && dropped.isString && dropped.value.Named?
    requires last.value.s == dropped.value.s + "/"
    ensures Separated(ts + [dropped], t)
  {
    assert [dropped][1..] == [];
    if ts != [] {
      assert (ts + [last])[1..] == ts[1..] + [last] && (ts + [dropped])[1..] == ts[1..] + [dropped];
      assert forall i :: 1 <= i < |ts| ==> ts[i] == ts[1..][i - 1];
      DroppedIsSeparated(ts[1..], last, dropped, t);
      if !ts[0].isString && ts[1..] == [] {
        assert (ts[1..] + [last])[0] == last && (ts[1..] + [dropped])[0] == dropped;
        assert SlashNext([dropped], t);
      }
    }
  }

  lemma {:induction false} SubstituteSnoc(ts: seq<Key>, k: Key, vs: seq<string>, v: seq<string>)
    requires |vs| == |Parameters(ts)| && |v| == if k.isString then 0 else 1
    ensures |vs + v| == |Parameters(ts + [k])|
    ensures Substitute(ts + [k], vs + v) ==
            Substitute(ts, vs) + if k.isString then LiteralText(k) else k.prefix + v[0]
  {
    hide LiteralText;
    ParametersAppend(ts, [k]);
    assert [k][1..] == [];
    var all, tail := ts + [k], if k.isString then LiteralText(k) else k.prefix + v[0];
    if ts == [] {
      assert all == [k] && vs + v == v;
      assert Substitute([k], v) == tail + "";
    } else {
      var rest := ts[1..];
      assert all[1..] == rest + [k] && all[0] == ts[0];
      if ts[0].isString {
        SubstituteSnoc(rest, k, vs, v);
        assert Substitute(all, vs + v) == LiteralText(ts[0]) + (Substitute(rest, vs) + tail);
      } else {
        assert (vs + v)[1..] == vs[1..] + v && (vs + v)[0] == vs[0];
        SubstituteSnoc(rest, k, vs[1..], v);
        assert Substitute(all, vs + v) == ts[0].prefix + vs[0] + (Substitute(rest, vs[1..]) + tail);
      }
    }
  }

  /** The rest parameter stands last, after `w`. */
  lemma RestSplit(ts: seq<Key>, vs: seq<string>) returns (w: string, t: string)
    requires ts != [] && !ts[|ts| - 1].isString && |vs| == |Parameters(ts)|
    ensures vs != [] && |vs| - 1 == |Parameters(ts[..|ts| - 1])|
    ensures w == Substitute(ts[..|ts| - 1], vs[..|vs| - 1])
    ensures t == ts[|ts| - 1].prefix + vs[|vs| - 1]
    ensures Substitute(ts, vs) == w + t
  {
    hide Substitute, LiteralText, Parameters;
    var init, last, n := ts[..|ts| - 1], ts[|ts| - 1], |vs| - 1;
    ParametersSnoc(ts, |ts| - 1);
    assert ts[..|ts| - 1 + 1] == ts;
    assert ts == init + [last];
    var us, v := vs[..n], [vs[n]];
    assert vs == us + v && v[0] == vs[n];
    SubstituteSnoc(init, last, us, v);
    w, t := Substitute(init, us), last.prefix + vs[n];
  }

  lemma RestSubstituted(ts: seq<Key>, options: Options, vs: seq<string>)
    requires ProperTokens(ts) && Extractable(ts) && AllWellFormed(ts) && TakesRest(ts, options)
    requires |vs| == |Parameters(ts)| && AllSegments(vs) && vs != [] && NoLineBreak(vs[|vs| - 1])
    ensures RouteMeans(ts, options, Substitute(ts, vs), vs)
  {
    hide PlainPattern, Extractable, Separated, Substitute, Parameters, TokensMean;
    var w, t := RestSplit(ts, vs);
    var init, last := ts[..|ts| - 1], ts[|ts| - 1];
    assert ts == init + [last];
    InitIsSeparated(init, last, t);
    SubstitutionMeans(init, vs[..|vs| - 1], t);
    assert (w + t)[..|w|] == w && (w + t)[|w|..] == t;
  }

  lemma RestUnique(ts: seq<Key>, options: Options, vs: seq<string>, ws: seq<string>)
    requires ProperTokens(ts) && Extractable(ts) && AllWellFormed(ts) && TakesRest(ts, options)
    requires |vs| == |Parameters(ts)| && AllSegments(vs)
    requires RouteMeans(ts, options, Substitute(ts, vs), ws)
    ensures ws == vs
  {
    hide RouteMeans, AllWellFormed, PlainPattern, Extractable, Separated, Substitute, Parameters, TokensMean;
    var w, t := RestSplit(ts, vs);
    var u, q := RestMeaning(ts, options, w + t, ws);
    var init, last := ts[..|ts| - 1], ts[|ts| - 1];
    assert ts == init + [last];
    InitIsSeparated(init, last, t);
    InitIsSeparated(init, last, q);
    UniqueValues(init, vs[..|vs| - 1], t, u, ws[..|ws| - 1], q);
    SameSnoc(last.prefix, vs, ws);
  }

  /** What the tokens before the rest parameter take, and what it takes itself. */
  lemma RestMeaning(ts: seq<Key>, options: Options, path: string, ws: seq<string>) returns (u: string, q: string)
    requires AllWellFormed(ts) && TakesRest(ts, options) && RouteMeans(ts, options, path, ws)
    ensures ws != [] && Compilable(ts[..|ts| - 1]) && TokensMean(ts[..|ts| - 1], u, ws[..|ws| - 1])
    ensures q == ts[|ts| - 1].prefix + ws[|ws| - 1] && u + q == path
  {
    hide TokensMean, PlainPattern;
    q := ts[|ts| - 1].prefix + ws[|ws| - 1];
    var k :| 0 <= k <= |path| && path[k..] == q && TokensMean(ts[..|ts| - 1], path[..k], ws[..|ws| - 1]);
    u := path[..k];
  }

  lemma SameSnoc(p: string, a: seq<string>, b: seq<string>)
    requires a != [] && b != [] && a[..|a| - 1] == b[..|b| - 1]
    requires p + a[|a| - 1] == p + b[|b| - 1]
    ensures a == b
  {
    var v, w := a[|a| - 1], b[|b| - 1];
    assert (p + v)[|p|..] == v && (p + w)[|p|..] == w;
    assert a == a[..|a| - 1] + [v] && b == b[..|b| - 1] + [w];
  }

  lemma DroppedSubstitution(ts: seq<Key>, vs: seq<string>)
    requires ProperTokens(ts) && EndsWithSlash(ts) && Extractable(ts) && |vs| == |Parameters(ts)|
    ensures |vs| == |Parameters(DropFinalSlash(ts))|
    ensures Substitute(ts, vs) == Substitute(DropFinalSlash(ts), vs) + "/"
    ensures Separated(DropFinalSlash(ts), "") && Separated(DropFinalSlash(ts), "/")
  {
    hide Substitute, Separated, Extractable;
    var init, last := ts[..|ts| - 1], ts[|ts| - 1];
    var dropped := DropFinalSlash(ts)[|ts| - 1];
    assert ts == init + [last] && DropFinalSlash(ts) == init + [dropped];
    assert last.value.s == dropped.value.s + "/";
    DropKeepsParameters(ts);
    ParametersAppend(init, [last]);
    assert vs + [] == vs;
    SubstituteSnoc(init, last, vs, []);
    SubstituteSnoc(init, dropped, vs, []);
    DroppedIsSeparated(init, last, dropped, "");
    DroppedIsSeparated(init, last, dropped, "/");
  }

  /** The text the substituted body leaves for the tail: the dropped slash, or nothing. */
  lemma BodySubstituted(ts: seq<Key>, options: Options, vs: seq<string>) returns (t: string)
    requires ProperTokens(ts) && Extractable(ts) && AllWellFormed(ts) && |vs| == |Parameters(ts)|
    ensures |vs| == |Parameters(Body(ts, options))|
    ensures t == "" || (t == "/" && !options.strict)
    ensures Substitute(ts, vs) == Substitute(Body(ts, options), vs) + t
    ensures Separated(Body(ts, options), "") && Separated(Body(ts, options), "/")
  {
    t := "";
    if !options.strict && EndsWithSlash(ts) {
      DroppedSubstitution(ts, vs);
      t := "/";
    } else {
      ExtractableIsSeparated(ts, "");
      ExtractableIsSeparated(ts, "/");
      assert Substitute(ts, vs) + "" == Substitute(ts, vs);
    }
  }

  lemma BodyMeans(ts: seq<Key>, options: Options, vs: seq<string>)
    requires ProperTokens(ts) && Extractable(ts) && AllWellFormed(ts) && !TakesRest(ts, options)
    requires |vs| == |Parameters(ts)| && AllSegments(vs)
    ensures RouteMeans(ts, options, Substitute(ts, vs), vs)
  {
    var t := BodySubstituted(ts, options, vs);
    var body := Body(ts, options);
    SubstitutionMeans(body, vs, t);
    var w := Substitute(body, vs);
    hide Body, TokensMean, Substitute, PlainPattern, Separated, Extractable;
    assert w + "" == w && (w + "/")[..|w + "/"| - 1] == w;
  }

  lemma BodyUnique(ts: seq<Key>, options: Options, vs: seq<string>, ws: seq<string>)
    requires ProperTokens(ts) && Extractable(ts) && AllWellFormed(ts) && !TakesRest(ts, options)
    requires |vs| == |Parameters(ts)| && AllSegments(vs)
    requires RouteMeans(ts, options, Substitute(ts, vs), ws)
    ensures ws == vs
  {
    hide RouteMeans, TakesRest, AllWellFormed, PlainPattern, Extractable, Separated, Substitute, Parameters,
      TokensMean;
    var t := BodySubstituted(ts, options, vs);
    var u, q := BodyMeaning(ts, options, Substitute(ts, vs), ws);
    UniqueValues(Body(ts, options), vs, t, u, ws, q);
  }

  /** What the tokens take, and the slash that may be left. */
  lemma BodyMeaning(ts: seq<Key>, options: Options, path: string, ws: seq<string>) returns (u: string, q: string)
    requires AllWellFormed(ts) && !TakesRest(ts, options) && RouteMeans(ts, options, path, ws)
    ensures TokensMean(Body(ts, options), u, ws) && u + q == path && (q == "" || q == "/")
  {
    hide TokensMean, PlainPattern, AllWellFormed, Body;
    if TokensMean(Body(ts, options), path, ws) {
      u, q := path, "";
    } else {
      u, q := path[..|path| - 1], "/";
    }
  }

  /** Extraction inverts substitution: the substituted path is matched, and the only values
      any engine can report are the substituted ones. */
  lemma ExtractionInvertsSubstitution(ts: seq<Key>, options: Options, vs: seq<string>, c: seq<string>)
    requires ProperTokens(ts) && Extractable(ts)
    requires |vs| == |Parameters(ts)| && AllSegments(vs)
    requires TakesRest(ts, options) ==> vs != [] && NoLineBreak(vs[|vs| - 1])
    ensures AllWellFormed(ts)
    ensures Accepts(RouteRe(ts, options), Substitute(ts, vs), c) <==> c == vs
  {
    ExtractableIsSeparated(ts, "");
    SeparatedIsCompilable(ts, "");
    CompilationPreservesMeaning(ts, options, Substitute(ts, vs), c);
    if TakesRest(ts, options) {
      RestSubstituted(ts, options, vs);
      if RouteMeans(ts, options, Substitute(ts, vs), c) {
        RestUnique(ts, options, vs, c);
      }
    } else {
      BodyMeans(ts, options, vs);
      if RouteMeans(ts, options, Substitute(ts, vs), c) {
        BodyUnique(ts, options, vs, c);
      }
    }
  }
}
