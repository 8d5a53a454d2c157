/** Parsing query text, and why parser and printer undo each other. */
module QueryText {
  import opened Wrappers
  import opened Sequences
  import opened Strings
  import opened Percent
  import opened Query

  // ----- what a query text asks for -----

  /** The end of a name: the first `=` or `&`. */
  function NameEnd(s: Octets): (n: nat)
    ensures n <= |s|
    ensures forall i :: 0 <= i < n ==> s[i] != '=' && s[i] != '&'
    ensures n < |s| ==> s[n] == '=' || s[n] == '&'
  {
    if s == [] || s[0] == '=' || s[0] == '&' then 0 else 1 + NameEnd(s[1..])
  }

  function DecodeSlice(s: Octets, from: nat, to: nat, beyond: Octets): Octets
    requires from <= to <= |s| && |beyond| >= 2
  {
    Decode(Variant.Query, s[from..to], s[to..] + beyond)
  }

  /** Where the item that begins at `i` ends, and the operation it asks for. */
  function ItemEnd(s: Octets, i: nat): (m: nat)
    requires i <= |s|
    ensures i <= m <= |s| && (m < |s| ==> s[m] == '&')
  {
    var n := i + NameEnd(s[i..]);
    if n < |s| && s[n] == '=' then n + 1 + IndexOf(s[n + 1..], '&') else n
  }

  function ItemOp(s: Octets, i: nat, beyond: Octets): Op
    requires i <= |s| && |beyond| >= 2
  {
    var n := i + NameEnd(s[i..]);
    var name := DecodeSlice(s, i, n, beyond);
    if n < |s| && s[n] == '=' then Add(name, DecodeSlice(s, n + 1, ItemEnd(s, i), beyond)) else Set(name)
  }

  /** The operations of a text from position `i` on. */
  function OpsFrom(s: Octets, i: nat, beyond: Octets): seq<Op>
    requires i <= |s| && |beyond| >= 2
    decreases |s| - i
  {
    if i == |s| then []
    else
      var m := ItemEnd(s, i);
      [ItemOp(s, i, beyond)] + if m < |s| then OpsFrom(s, m + 1, beyond) else []
  }

  function StripMark(s: Octets): Octets {
    if s != [] && s[0] == '?' then s[1..] else s
  }

  /** The operations of a query text; `beyond` is what follows it in memory. */
  function ParseOps(text: Octets, beyond: Octets): seq<Op>
    requires |beyond| >= 2
  {
    OpsFrom(StripMark(text), 0, beyond)
  }

  method Parse(text: Octets, beyond: Octets) returns (out: QueryObject)
    requires |beyond| >= 2
    ensures fresh(out) && out.Valid()
    ensures out.values == Run([], ParseOps(text, beyond))
  {
    hide Run, OpsFrom, ItemOp, ItemEnd, Decode, Apply, NameEnd, IndexOf, Distinct, Indexes;
    out := new QueryObject();
    var str := StripMark(text);
    var it: nat := 0;
    ghost var left := OpsFrom(str, 0, beyond);
    while it < |str|
      invariant it <= |str| && out.Valid() && fresh(out)
      invariant left == OpsFrom(str, it, beyond)
      invariant Run(out.values, left) == Run([], ParseOps(text, beyond))
      decreases |str| - it
    {
      ItemStep(str, it, beyond, out.values);
      ghost var start, end := it, ItemEnd(str, it);
      var nameStart := it;
      it := LookForNameEnd(str, it);
      var name := UrlDecode(Variant.Query, str[nameStart..it], str[it..] + beyond);
      if it < |str| && str[it] == '=' {
        it := it + 1;
        var valueStart := it;
        it := Find(str, '&', it);
        var value := UrlDecode(Variant.Query, str[valueStart..it], str[it..] + beyond);
        ItemWithValue(str, start, valueStart - 1, it, beyond);
        out.AddValue(name, value);
      } else {
        ItemWithoutValue(str, start, it, beyond);
        out.SetName(name);
      }
      if !(it < |str| && str[it] == '&') {
        left := [];
        break;
      }
      it := it + 1;
      left := OpsFrom(str, it, beyond);
    }
    NothingLeft(str, it, beyond, left, out.values);
  }

  method LookForNameEnd(s: Octets, start: nat) returns (at: nat)
    requires start <= |s|
    ensures at == start + NameEnd(s[start..]) <= |s|
  {
    at := start;
    while at < |s| && s[at] != '=' && s[at] != '&'
      invariant start <= at <= |s|
      invariant at + NameEnd(s[at..]) == start + NameEnd(s[start..])
    {
      assert s[at..][1..] == s[at + 1..];
      at := at + 1;
    }
  }

  lemma ItemStep(s: Octets, i: nat, beyond: Octets, ps: seq<Pair>)
    requires i < |s| && |beyond| >= 2
    ensures var m := ItemEnd(s, i);
            Run(ps, OpsFrom(s, i, beyond)) ==
            Run(Apply(ps, ItemOp(s, i, beyond)), if m < |s| then OpsFrom(s, m + 1, beyond) else [])
  {
  }

  lemma ItemWithValue(s: Octets, i: nat, n: nat, m: nat, beyond: Octets)
    requires i <= n < |s| && |beyond| >= 2 && n == i + NameEnd(s[i..]) && s[n] == '='
    requires m == n + 1 + IndexOf(s[n + 1..], '&') <= |s|
    ensures ItemEnd(s, i) == m
    ensures ItemOp(s, i, beyond) ==
            Add(Decode(Variant.Query, s[i..n], s[n..] + beyond), Decode(Variant.Query, s[n + 1..m], s[m..] + beyond))
  {
  }

  lemma ItemWithoutValue(s: Octets, i: nat, n: nat, beyond: Octets)
    requires i <= n <= |s| && |beyond| >= 2 && n == i + NameEnd(s[i..]) && !(n < |s| && s[n] == '=')
    ensures ItemEnd(s, i) == n
    ensures ItemOp(s, i, beyond) == Set(Decode(Variant.Query, s[i..n], s[n..] + beyond))
  {
  }

  lemma NothingLeft(s: Octets, i: nat, beyond: Octets, left: seq<Op>, ps: seq<Pair>)
    requires i <= |s| && |beyond| >= 2 && (left == [] || (i == |s| && left == OpsFrom(s, i, beyond)))
    ensures Run(ps, left) == ps
  {
  }

  // ----- the items of a text -----

  lemma FirstItem(s: Octets, i: nat, beyond: Octets)
    requires i < |s| && |beyond| >= 2
    ensures var m := ItemEnd(s, i);
            OpsFrom(s, i, beyond) == [ItemOp(s, i, beyond)] + if m < |s| then OpsFrom(s, m + 1, beyond) else []
  {
    hide ItemOp, ItemEnd;
  }

  const AMPERSANDS: Octets := ['&', '&']

  /** What an item asks for: up to its first `=` it is a name, after that a value. */
  function ItemMeans(item: Octets, beyond: Octets): Op
    requires |beyond| >= 2
  {
    var e := IndexOf(item, '=');
    if e == |item| then Set(Decode(Variant.Query, item, beyond))
    else Add(DecodeRest(Variant.Query, item[..e]), Decode(Variant.Query, item[e + 1..], beyond))
  }

  /** What a text asks for: item after item, cut at every `&`; an empty one at the end asks for nothing. */
  function TextMeans(s: Octets, beyond: Octets): seq<Op>
    requires |beyond| >= 2
    decreases |s|
  {
    if s == [] then []
    else
      var n := IndexOf(s, '&');
      [ItemMeans(s[..n], if n < |s| then AMPERSANDS else beyond)] +
      if n < |s| then TextMeans(s[n + 1..], beyond) else []
  }

  /** The item at `i` ends at the next `&`. */
  lemma ItemEndsAtAmpersand(s: Octets, i: nat)
    requires i <= |s|
    ensures ItemEnd(s, i) == i + IndexOf(s[i..], '&')
  {
    var n, m := i + NameEnd(s[i..]), ItemEnd(s, i);
    forall k | 0 <= k < m - i
      ensures s[i..][k] != '&'
    {
      assert s[i..][k] == s[i + k];
      if i + k > n {
        assert s[n + 1..][i + k - n - 1] == s[i + k];
      }
    }
    assert m < |s| ==> s[i..][m - i] == s[m];
    IndexOfIs(s[i..], '&', m - i);
  }

  /** What follows a text in memory does not matter if it is no hexadecimal digit. */
  lemma SameBeyond(item: Octets, b1: Octets, b2: Octets)
    requires |b1| >= 2 && |b2| >= 2 && !IsHexDigit(b1[0]) && !IsHexDigit(b2[0])
    ensures Decode(Variant.Query, item, b1) == Decode(Variant.Query, item, b2) == DecodeRest(Variant.Query, item)
  {
    hide DecodeRest;
  }

  lemma ItemMeansItself(s: Octets, i: nat, beyond: Octets)
    requires i < |s| && |beyond| >= 2
    ensures var m := ItemEnd(s, i);
            ItemOp(s, i, beyond) == ItemMeans(s[i..m], if m < |s| then AMPERSANDS else beyond)
  {
    hide Decode, DecodeRest, NameEnd, IndexOf;
    var n, m := i + NameEnd(s[i..]), ItemEnd(s, i);
    var item, after := s[i..m], if m < |s| then AMPERSANDS else beyond;
    ItemParts(s, i);
    assert m < |s| ==> (s[m..] + beyond)[0] == '&';
    assert m == |s| ==> s[m..] + beyond == beyond;
    if n < |s| && s[n] == '=' {
      assert (s[n..] + beyond)[0] == '=';
      SameBeyond(s[i..n], s[n..] + beyond, AMPERSANDS);
      if m < |s| {
        SameBeyond(s[n + 1..m], s[m..] + beyond, AMPERSANDS);
      }
    } else if m < |s| {
      SameBeyond(item, s[m..] + beyond, AMPERSANDS);
    }
  }

  /** The first `=` of an item is where its name ends. */
  lemma ItemParts(s: Octets, i: nat)
    requires i <= |s|
    ensures var n, m := i + NameEnd(s[i..]), ItemEnd(s, i);
            var item := s[i..m];
            && n <= m
            && (n < |s| && s[n] == '=' ==>
                  n < m && IndexOf(item, '=') == n - i && item[..n - i] == s[i..n] && item[n - i + 1..] == s[n + 1..m])
            && (!(n < |s| && s[n] == '=') ==> n == m && IndexOf(item, '=') == |item|)
  {
    var n, m := i + NameEnd(s[i..]), ItemEnd(s, i);
    var item := s[i..m];
    assert forall k :: i <= k < n ==> s[i..][k - i] == s[k] == item[k - i];
    IndexOfIs(item, '=', n - i);
  }

  /** A text asks for what its items ask for. */
  lemma {:induction false} ItemsInTurn(s: Octets, i: nat, beyond: Octets)
    requires i <= |s| && |beyond| >= 2
    ensures OpsFrom(s, i, beyond) == TextMeans(s[i..], beyond)
    decreases |s| - i
  {
    hide ItemOp, ItemEnd, ItemMeans, IndexOf, TextMeans, OpsFrom;
    if i == |s| {
      NothingAsked(s, beyond);
    } else {
      var m := ItemEnd(s, i);
      FirstItem(s, i, beyond);
      ItemEndsAtAmpersand(s, i);
      ItemMeansItself(s, i, beyond);
      FirstCut(s[i..], m - i, beyond);
      assert s[i..][..m - i] == s[i..m];
      if m < |s| {
        ItemsInTurn(s, m + 1, beyond);
        assert s[i..][m - i + 1..] == s[m + 1..];
      }
    }
  }

  lemma NothingAsked(s: Octets, beyond: Octets)
    requires |beyond| >= 2
    ensures OpsFrom(s, |s|, beyond) == TextMeans([], beyond) == [] && s[|s|..] == []
  {
  }

  lemma FirstCut(s: Octets, n: nat, beyond: Octets)
    requires s != [] && n == IndexOf(s, '&') && |beyond| >= 2
    ensures TextMeans(s, beyond) ==
            [ItemMeans(s[..n], if n < |s| then AMPERSANDS else beyond)] +
            if n < |s| then TextMeans(s[n + 1..], beyond) else []
  {
    hide ItemMeans, IndexOf;
  }

  /** A mark at the beginning is skipped, and only one. */
  lemma TextParses(text: Octets, beyond: Octets)
    requires |beyond| >= 2
    ensures ParseOps(['?'] + text, beyond) == TextMeans(text, beyond)
    ensures text == [] || text[0] != '?' ==> ParseOps(text, beyond) == TextMeans(text, beyond)
  {
    hide OpsFrom, TextMeans;
    ItemsInTurn(text, 0, beyond);
    assert text[0..] == text && (['?'] + text)[1..] == text;
  }

  /** A value reaches to the next `&`, whatever else is in it. */
  lemma ValueReachesOn(name: Octets, value: Octets, beyond: Octets)
    requires |beyond| >= 2 && '=' !in name && '&' !in name && '&' !in value && (name != [] ==> name[0] != '?')
    ensures ParseOps(name + ['='] + value, beyond) ==
            [Add(DecodeRest(Variant.Query, name), Decode(Variant.Query, value, beyond))]
  {
    hide Decode, DecodeRest, ParseOps, IndexOf, TextMeans;
    var text := name + ['='] + value;
    assert text[|name|] == '=' && text[..|name|] == name && text[|name| + 1..] == value;
    assert text[0] != '?';
    IndexOfIs(text, '=', |name|);
    IndexOfIs(text, '&', |text|);
    TextParses(text, beyond);
    FirstCut(text, |text|, beyond);
    assert text[..|text|] == text;
  }

  // ----- what follows the text in memory -----

  /** The item that begins at `i` is the last, and its name or its value is a single `%`. */
  predicate IsLonePercent(s: Octets, i: nat)
    requires i < |s|
  {
    var n := i + NameEnd(s[i..]);
    ItemEnd(s, i) == |s| && (s[i..] == ['%'] || (n < |s| && s[n] == '=' && s[n + 1..] == ['%']))
  }

  /** The text from `i` on ends in a name or a value that is a single `%`. */
  predicate EndsInLonePercent(s: Octets, i: nat)
    requires i <= |s|
    decreases |s| - i
  {
    i < |s| && var m := ItemEnd(s, i);
    if m < |s| then EndsInLonePercent(s, m + 1) else IsLonePercent(s, i)
  }

  /** Text that `&` or `=` follows is decoded without looking further. */
  lemma SliceIsLocal(s: Octets, from: nat, to: nat, b1: Octets, b2: Octets)
    requires from <= to <= |s| && |b1| >= 2 && |b2| >= 2
    requires to < |s| ==> s[to] == '&' || s[to] == '='
    requires to == |s| ==> s[from..] != ['%']
    ensures DecodeSlice(s, from, to, b1) == DecodeSlice(s, from, to, b2)
  {
    hide DecodeRest;
    var t := s[from..to];
    if to < |s| {
      assert (s[to..] + b1)[0] == s[to] && (s[to..] + b2)[0] == s[to];
    } else {
      assert t == s[from..] && (|t| == 1 ==> t[0] != '%');
    }
  }

  const HEX_BYTES: Octets := ['4', '1']

  const OTHER_BYTES: Octets := ['x', 'x']

  /** The final slice is decoded by what follows the text. */
  lemma FinalSliceVaries(s: Octets, from: nat)
    requires from <= |s| && s[from..] == ['%']
    ensures DecodeSlice(s, from, |s|, HEX_BYTES) == ['A'] && DecodeSlice(s, from, |s|, OTHER_BYTES) == ['%']
  {
    assert s[from..|s|] == ['%'] && s[|s|..] + HEX_BYTES == HEX_BYTES && s[|s|..] + OTHER_BYTES == OTHER_BYTES;
    LonePercentWitness(Variant.Query);
  }

  lemma ItemIsLocal(s: Octets, i: nat, b1: Octets, b2: Octets)
    requires i < |s| && |b1| >= 2 && |b2| >= 2 && !IsLonePercent(s, i)
    ensures ItemOp(s, i, b1) == ItemOp(s, i, b2)
  {
    hide Decode, DecodeSlice, NameEnd, IndexOf;
    var n := i + NameEnd(s[i..]);
    SliceIsLocal(s, i, n, b1, b2);
    if n < |s| && s[n] == '=' {
      SliceIsLocal(s, n + 1, ItemEnd(s, i), b1, b2);
    }
  }

  lemma ItemVaries(s: Octets, i: nat)
    requires i < |s| && IsLonePercent(s, i)
    ensures ItemOp(s, i, HEX_BYTES) != ItemOp(s, i, OTHER_BYTES)
  {
    hide Decode, DecodeSlice, IndexOf;
    if s[i..] == ['%'] {
      assert s[i..][1..] == [];
      FinalSliceVaries(s, i);
    } else {
      FinalSliceVaries(s, i + NameEnd(s[i..]) + 1);
    }
  }

  lemma {:induction false} OpsAreLocal(s: Octets, i: nat, b1: Octets, b2: Octets)
    requires i <= |s| && |b1| >= 2 && |b2| >= 2 && !EndsInLonePercent(s, i)
    ensures OpsFrom(s, i, b1) == OpsFrom(s, i, b2)
    decreases |s| - i
  {
    hide ItemOp, ItemEnd, IsLonePercent;
    if i < |s| {
      FirstItem(s, i, b1);
      FirstItem(s, i, b2);
      var m := ItemEnd(s, i);
      if m < |s| {
        LastItemOnly(s, i);
        OpsAreLocal(s, m + 1, b1, b2);
      }
      ItemIsLocal(s, i, b1, b2);
    }
  }

  lemma LastItemOnly(s: Octets, i: nat)
    requires i < |s| && ItemEnd(s, i) < |s|
    ensures !IsLonePercent(s, i)
  {
  }

  lemma {:induction false} OpsVary(s: Octets, i: nat)
    requires i <= |s| && EndsInLonePercent(s, i)
    ensures OpsFrom(s, i, HEX_BYTES) != OpsFrom(s, i, OTHER_BYTES)
    decreases |s| - i
  {
    hide ItemOp, ItemEnd, IsLonePercent, OpsFrom;
    FirstItem(s, i, HEX_BYTES);
    FirstItem(s, i, OTHER_BYTES);
    var m := ItemEnd(s, i);
    if m < |s| {
      OpsVary(s, m + 1);
      assert OpsFrom(s, i, HEX_BYTES)[1..] == OpsFrom(s, m + 1, HEX_BYTES);
      assert OpsFrom(s, i, OTHER_BYTES)[1..] == OpsFrom(s, m + 1, OTHER_BYTES);
    } else {
      ItemVaries(s, i);
      assert OpsFrom(s, i, HEX_BYTES)[0] == ItemOp(s, i, HEX_BYTES);
      assert OpsFrom(s, i, OTHER_BYTES)[0] == ItemOp(s, i, OTHER_BYTES);
    }
  }

  /** What a query text asks for does not depend on what follows it in memory, exactly when its
      last name or value is not a single `%`. */
  lemma ParsingIsLocal(text: Octets)
    ensures (forall b1: Octets, b2: Octets :: |b1| >= 2 && |b2| >= 2 ==> ParseOps(text, b1) == ParseOps(text, b2))
            <==> !EndsInLonePercent(StripMark(text), 0)
  {
    hide OpsFrom, EndsInLonePercent, StripMark;
    var s := StripMark(text);
    if EndsInLonePercent(s, 0) {
      OpsVary(s, 0);
      assert ParseOps(text, HEX_BYTES) != ParseOps(text, OTHER_BYTES);
    } else {
      forall b1: Octets, b2: Octets | |b1| >= 2 && |b2| >= 2
        ensures ParseOps(text, b1) == ParseOps(text, b2)
      {
        OpsAreLocal(s, 0, b1, b2);
      }
    }
  }

  // ----- printed text parses to its entries -----

  function OpOf(e: Entry): Op {
    match e.value
    case None => Set(e.name)
    case Some(v) => Add(e.name, v)
  }

  function OpsOf(es: seq<Entry>): (ops: seq<Op>)
    ensures |ops| == |es|
  {
    if es == [] then [] else [OpOf(es[0])] + OpsOf(es[1..])
  }

  predicate IsBlank(e: Entry) {
    e == Entry([], None)
  }

  /** The entries a text can carry: a last entry with an empty name and no value leaves no
      trace in it. */
  function Carried(es: seq<Entry>): seq<Entry> {
    if es != [] && IsBlank(es[|es| - 1]) then es[..|es| - 1] else es
  }

  lemma {:induction false} PrintedCons(e: Entry, es: seq<Entry>)
    ensures Printed([e] + es) == if es == [] then Text(e) else Text(e) + ['&'] + Printed(es)
  {
    hide Text, Printed;
    if es == [] {
      PrintedSnoc([], e);
      assert [] + [e] == [e] + es;
    } else {
      var n := |es| - 1;
      var init, last := es[..n], es[n];
      PrintedCons(e, init);
      PrintedSnoc(init, last);
      PrintedSnoc([e] + init, last);
      assert init + [last] == es && [e] + init + [last] == [e] + es;
      if init != [] {
        Regroup(Text(e) + ['&'], Printed(init), ['&'] + Text(last));
        assert Printed(init) + ['&'] + Text(last) == Printed(init) + (['&'] + Text(last));
        assert Printed([e] + init) + ['&'] + Text(last) == Printed([e] + init) + (['&'] + Text(last));
      }
    }
  }

  /** A printed entry is one item, and asks for the entry. */
  lemma ItemOfText(s: Octets, i: nat, e: Entry, beyond: Octets)
    requires |beyond| >= 2 && i + |Text(e)| <= |s|
    requires s[i..i + |Text(e)|] == Text(e)
    requires i + |Text(e)| < |s| ==> s[i + |Text(e)|] == '&'
    ensures ItemEnd(s, i) == i + |Text(e)| && ItemOp(s, i, beyond) == OpOf(e)
  {
    var name, m := Encode(Variant.Query, e.name), i + |Text(e)|;
    var n := i + |name|;
    NameOfText(s, i, e, n);
    DecodeInvertsEncode(Variant.Query, e.name, s[n..] + beyond);
    if e.value.Some? {
      ValueOfText(s, i, e, n);
      DecodeInvertsEncode(Variant.Query, e.value.value, s[m..] + beyond);
      hide Encode, Decode, NameEnd, IndexOf;
      ItemWithValue(s, i, n, m, beyond);
    } else {
      hide Encode, Decode, NameEnd, IndexOf;
      ItemWithoutValue(s, i, n, beyond);
    }
  }

  lemma NameOfText(s: Octets, i: nat, e: Entry, n: nat)
    requires i + |Text(e)| <= |s| && s[i..i + |Text(e)|] == Text(e)
    requires i + |Text(e)| < |s| ==> s[i + |Text(e)|] == '&'
    requires n == i + |Encode(Variant.Query, e.name)|
    ensures n <= i + |Text(e)| && s[i..n] == Encode(Variant.Query, e.name)
    ensures n == i + NameEnd(s[i..])
    ensures e.value.None? ==> !(n < |s| && s[n] == '=')
  {
    var name, m := Encode(Variant.Query, e.name), i + |Text(e)|;
    EncodedIsInert(Variant.Query, e.name);
    hide Encode;
    assert s[i..n] == s[i..m][..|name|] == name;
    if e.value.Some? {
      assert Text(e)[|name|] == '=' && s[i..m][|name|] == '=';
      assert s[n] == s[i..m][n - i];
    }
    forall k | 0 <= k < |name|
      ensures s[i..][k] != '=' && s[i..][k] != '&'
    {
      assert s[i..][k] == name[k];
    }
    NameEndIs(s[i..], |name|);
  }

  lemma ValueOfText(s: Octets, i: nat, e: Entry, n: nat)
    requires e.value.Some? && i + |Text(e)| <= |s| && s[i..i + |Text(e)|] == Text(e)
    requires i + |Text(e)| < |s| ==> s[i + |Text(e)|] == '&'
    requires n == i + |Encode(Variant.Query, e.name)|
    ensures n < |s| && s[n] == '='
    ensures s[n + 1..i + |Text(e)|] == Encode(Variant.Query, e.value.value)
    ensures i + |Text(e)| == n + 1 + IndexOf(s[n + 1..], '&')
  {
    var name, value := Encode(Variant.Query, e.name), Encode(Variant.Query, e.value.value);
    var m := i + |Text(e)|;
    EncodedIsInert(Variant.Query, e.value.value);
    hide Encode;
    TextParts(name, value);
    Cut(s, i, m, name + ['='] + value, |name|);
    IndexOfSlice(s, n + 1, m, '&');
  }

  lemma TextParts(name: Octets, value: Octets)
    ensures var t := name + ['='] + value; t[|name|] == '=' && t[|name| + 1..] == value
  {
  }

  lemma Cut(s: Octets, i: nat, m: nat, t: Octets, k: nat)
    requires i <= m <= |s| && s[i..m] == t && k < |t|
    ensures s[i + k] == t[k] && s[i + k + 1..m] == t[k + 1..]
  {
  }

  lemma {:induction false} NameEndIs(s: Octets, n: nat)
    requires n <= |s| && (forall i :: 0 <= i < n ==> s[i] != '=' && s[i] != '&')
    requires n < |s| ==> s[n] == '=' || s[n] == '&'
    ensures NameEnd(s) == n
  {
  }

  /** Printed entries, standing at the end of a text, parse to the entries they carry. */
  lemma {:induction false} PrintedParses(s: Octets, i: nat, es: seq<Entry>, beyond: Octets)
    requires |beyond| >= 2 && i <= |s| && s[i..] == Printed(es)
    ensures OpsFrom(s, i, beyond) == OpsOf(Carried(es))
    decreases |es|
  {
    hide Text, Printed, ItemEnd, ItemOp, IsBlank, OpsFrom, OpsOf, Carried;
    if es == [] {
      NoEntryParses(s, i, beyond);
    } else {
      var e, rest := es[0], es[1..];
      assert es == [e] + rest;
      PrintedCons(e, rest);
      if rest == [] {
        assert es == [e];
        LastEntryParses(s, i, e, beyond);
      } else {
        FirstEntryParses(s, i, e, Printed(rest), beyond);
        PrintedParses(s, i + |Text(e)| + 1, rest, beyond);
        CarriedCons(e, rest);
      }
    }
  }

  lemma NoEntryParses(s: Octets, i: nat, beyond: Octets)
    requires |beyond| >= 2 && i <= |s| && s[i..] == Printed([])
    ensures OpsFrom(s, i, beyond) == OpsOf(Carried([]))
  {
  }

  lemma FirstEntryParses(s: Octets, i: nat, e: Entry, more: Octets, beyond: Octets)
    requires |beyond| >= 2 && i <= |s| && s[i..] == Text(e) + ['&'] + more
    ensures var m := i + |Text(e)|;
            m < |s| && s[m + 1..] == more && OpsFrom(s, i, beyond) == [OpOf(e)] + OpsFrom(s, m + 1, beyond)
  {
    hide Text, ItemOp, ItemEnd, OpsFrom, OpOf;
    CutText(s, i, Text(e), more);
    ItemOfText(s, i, e, beyond);
    FirstItem(s, i, beyond);
  }

  lemma CutText(s: Octets, i: nat, t: Octets, more: Octets)
    requires i <= |s| && s[i..] == t + ['&'] + more
    ensures var m := i + |t|; m < |s| && s[i..m] == t && s[m] == '&' && s[m + 1..] == more
  {
    var m := i + |t|;
    assert s[i..m] == s[i..][..|t|];
    assert s[m] == s[i..][|t|];
    assert s[m + 1..] == s[i..][|t| + 1..];
  }

  lemma CarriedCons(e: Entry, rest: seq<Entry>)
    requires rest != []
    ensures OpsOf(Carried([e] + rest)) == [OpOf(e)] + OpsOf(Carried(rest))
  {
    var es := [e] + rest;
    assert es[..|es| - 1] == [e] + rest[..|rest| - 1];
    assert Carried(es) == [e] + Carried(rest);
    assert Carried(es)[1..] == Carried(rest);
  }

  lemma LastEntryParses(s: Octets, i: nat, e: Entry, beyond: Octets)
    requires |beyond| >= 2 && i <= |s| && s[i..] == Text(e)
    ensures OpsFrom(s, i, beyond) == OpsOf(Carried([e]))
  {
    assert s[i..i + |Text(e)|] == s[i..];
    TextIsEmpty(e);
    assert [e][..0] == [] && [e][1..] == [];
    if !IsBlank(e) {
      ItemOfText(s, i, e, beyond);
    }
  }

  lemma TextIsEmpty(e: Entry)
    ensures Text(e) == [] <==> IsBlank(e)
  {
    if e.value.None? && e.name != [] {
      assert Encode(Variant.Query, e.name) == EncodeChar(Variant.Query, e.name[0]) + Encode(Variant.Query, e.name[1..]);
    }
  }

  /** Printed text never begins with the mark that parsing strips. */
  lemma PrintedHasNoMark(es: seq<Entry>)
    ensures StripMark(Printed(es)) == Printed(es)
  {
    if es != [] {
      assert es == [es[0]] + es[1..];
      PrintedCons(es[0], es[1..]);
      EncodedIsInert(Variant.Query, es[0].name);
      var name := Encode(Variant.Query, es[0].name);
      hide Encode;
      if name != [] {
        assert Printed(es)[0] == name[0] != '?';
      }
    }
  }

  // ----- carried entries rebuild the pairs -----

  lemma {:induction false} RunAppend(ps: seq<Pair>, a: seq<Op>, b: seq<Op>)
    ensures Run(ps, a + b) == Run(Run(ps, a), b)
    decreases |a|
  {
    if a == [] {
      assert a + b == b;
    } else {
      assert (a + b)[1..] == a[1..] + b;
      RunAppend(Apply(ps, a[0]), a[1..], b);
    }
  }

  lemma RunSnoc(ps: seq<Pair>, ops: seq<Op>, op: Op)
    ensures Run(ps, ops + [op]) == Apply(Run(ps, ops), op)
  {
    RunAppend(ps, ops, [op]);
    assert [op][1..] == [];
    assert Run(Run(ps, ops), [op]) == Run(Apply(Run(ps, ops), op), [op][1..]);
  }

  lemma {:induction false} OpsOfAppend(a: seq<Entry>, b: seq<Entry>)
    ensures OpsOf(a + b) == OpsOf(a) + OpsOf(b)
  {
    if a == [] {
      assert a + b == b;
    } else {
      assert (a + b)[1..] == a[1..] + b;
      OpsOfAppend(a[1..], b);
    }
  }

  lemma OpsOfOne(e: Entry)
    ensures OpsOf([e]) == [OpOf(e)]
  {
    assert [e][1..] == [];
  }

  /** Adding the values of a new name one by one. */
  lemma {:induction false} EntriesRebuild(ps: seq<Pair>, name: Octets, vs: seq<Octets>)
    requires vs != [] && Search(ps, name) == |ps|
    ensures Run(ps, OpsOf(Entries(name, vs))) == ps + [(name, vs)]
    decreases |vs|
  {
    var n := |vs| - 1;
    var v, init := vs[n], Entries(name, vs[..n]);
    OpsOfAppend(init, [Entry(name, Some(v))]);
    OpsOfOne(Entry(name, Some(v)));
    RunSnoc(ps, OpsOf(init), Add(name, v));
    assert vs == vs[..n] + [v];
    if n == 0 {
      assert vs[..n] == [] && init == [];
      assert Run(ps, []) == ps;
    } else {
      EntriesRebuild(ps, name, vs[..n]);
      SearchIs(ps + [(name, vs[..n])], name, |ps|);
      assert (ps + [(name, vs[..n])])[|ps| := (name, vs)] == ps + [(name, vs)];
    }
  }

  lemma PairRebuilds(ps: seq<Pair>, p: Pair)
    requires Search(ps, p.0) == |ps|
    ensures Run(ps, OpsOf(PairEntries(p))) == ps + [p]
  {
    if p.1 == [] {
      var none: seq<Op> := [];
      OpsOfOne(Entry(p.0, None));
      RunSnoc(ps, none, Set(p.0));
      assert none + [Set(p.0)] == [Set(p.0)] && Run(ps, none) == ps;
    } else {
      EntriesRebuild(ps, p.0, p.1);
    }
  }

  lemma {:induction false} FlatRebuilds(ps: seq<Pair>)
    requires Distinct(ps)
    ensures Run([], OpsOf(Flat(ps))) == ps
  {
    if ps != [] {
      var n := |ps| - 1;
      var init, p := ps[..n], ps[n];
      FlatRebuilds(init);
      OpsOfAppend(Flat(init), PairEntries(p));
      RunAppend([], OpsOf(Flat(init)), OpsOf(PairEntries(p)));
      SearchIs(init, p.0, n);
      PairRebuilds(init, p);
      assert ps == init + [p];
    }
  }

  // ----- the round trip -----

  /** The pairs a text can carry. */
  function CarriedPairs(ps: seq<Pair>): seq<Pair> {
    if ps != [] && ps[|ps| - 1] == ([], []) then ps[..|ps| - 1] else ps
  }

  lemma CarriedFlat(ps: seq<Pair>)
    ensures Carried(Flat(ps)) == Flat(CarriedPairs(ps))
  {
    if ps != [] {
      var n := |ps| - 1;
      var p, init := ps[n], Flat(ps[..n]);
      assert Flat(ps) == init + PairEntries(p);
      if p.1 == [] {
        assert Flat(ps)[..|Flat(ps)| - 1] == init;
      } else {
        assert Flat(ps)[|Flat(ps)| - 1] == Entry(p.0, Some(p.1[|p.1| - 1]));
      }
    }
  }

  /** Parsing the printed text of distinct pairs gives back the same names, values and
      order, except for a last pair with an empty name and no values. */
  lemma ParseInvertsPrint(ps: seq<Pair>, beyond: Octets)
    requires Distinct(ps) && |beyond| >= 2
    ensures Run([], ParseOps(Printed(Flat(ps)), beyond)) == CarriedPairs(ps)
  {
    var es := Flat(ps);
    var text := Printed(es);
    PrintedHasNoMark(es);
    assert text[0..] == text;
    PrintedParses(text, 0, es, beyond);
    CarriedFlat(ps);
    FlatRebuilds(CarriedPairs(ps));
  }

  /** So printing and parsing is the identity exactly when the last pair is not blank. */
  lemma RoundTripExactly(ps: seq<Pair>, beyond: Octets)
    requires Distinct(ps) && |beyond| >= 2
    ensures Run([], ParseOps(Printed(Flat(ps)), beyond)) == ps <==>
            (ps == [] || ps[|ps| - 1] != ([], []))
  {
    ParseInvertsPrint(ps, beyond);
  }

  method PrintAndParse(q: QueryObject, beyond: Octets) returns (text: Octets, again: QueryObject)
    requires q.Valid() && |beyond| >= 2
    ensures again.Valid() && again.values == CarriedPairs(q.values)
  {
    text := q.String();
    ParseInvertsPrint(q.values, beyond);
    again := Parse(text, beyond);
  }

  // ----- what a history of calls leaves behind -----

  /** The values of a name after a history of calls, from the calls with that name alone. */
  function History(ops: seq<Op>, name: Octets): Option<seq<Octets>> {
    if ops == [] then None
    else
      var before, op := History(ops[..|ops| - 1], name), ops[|ops| - 1];
      if op.name != name then before
      else match op
        case Add(_, value) => Some((if before.Some? then before.value else []) + [value])
        case Set(_) => Some([])
        case Remove(_) => None
  }

  function Lookup(ps: seq<Pair>, name: Octets): Option<seq<Octets>> {
    var n := Search(ps, name);
    if n < |ps| then Some(ps[n].1) else None
  }

  /** The call that put the name where it is. */
  function Birth(ops: seq<Op>, name: Octets): nat {
    if ops == [] then 0
    else
      var init, op := ops[..|ops| - 1], ops[|ops| - 1];
      if op.name == name && History(init, name).None? then |init| else Birth(init, name)
  }

  lemma ApplyLookup(ps: seq<Pair>, op: Op, name: Octets)
    requires Distinct(ps)
    ensures Lookup(Apply(ps, op), name) ==
            if op.name != name then Lookup(ps, name)
            else match op
              case Add(_, value) =>
                Some((if Lookup(ps, name).Some? then Lookup(ps, name).value else []) + [value])
              case Set(_) => Some([])
              case Remove(_) => None
  {
    var n, m, qs := Search(ps, op.name), Search(ps, name), Apply(ps, op);
    hide Search;
    if op.Remove? {
      if n < |ps| {
        SearchIs(qs, name, if op.name == name then |qs| else if m > n then m - 1 else m);
      }
    } else if op.name == name {
      assert qs[n].0 == name && forall i :: 0 <= i < n ==> qs[i] == ps[i];
      SearchIs(qs, name, n);
      assert op.Add? ==> [] + [op.value] == [op.value];
    } else {
      assert forall i :: 0 <= i < |ps| ==> qs[i].0 == ps[i].0;
      SearchIs(qs, name, if m < |ps| then m else |qs|);
    }
  }

  /** After any history of calls, every name has the values its own calls gave it. */
  lemma {:induction false} RunIsHistory(ops: seq<Op>, name: Octets)
    ensures Distinct(Run([], ops))
    ensures Lookup(Run([], ops), name) == History(ops, name)
  {
    if ops != [] {
      var init, op := ops[..|ops| - 1], ops[|ops| - 1];
      assert ops == init + [op];
      RunIsHistory(init, name);
      RunSnoc([], init, op);
      ApplyKeepsDistinct(Run([], init), op);
      ApplyLookup(Run([], init), op, name);
    }
  }

  ghost predicate InBirthOrder(ps: seq<Pair>, ops: seq<Op>) {
    && (forall i :: 0 <= i < |ps| ==> Birth(ops, ps[i].0) < |ops|)
    && (forall i, j :: 0 <= i < j < |ps| ==> Birth(ops, ps[i].0) < Birth(ops, ps[j].0))
  }

  /** The order of the parameters is the order of the calls that introduced them. */
  lemma {:induction false} OrderIsBirth(ops: seq<Op>)
    ensures InBirthOrder(Run([], ops), ops)
  {
    if ops != [] {
      var init, op := ops[..|ops| - 1], ops[|ops| - 1];
      var ps, qs := Run([], init), Run([], ops);
      assert ops == init + [op];
      OrderIsBirth(init);
      RunSnoc([], init, op);
      RunIsHistory(init, op.name);
      hide Run, History;
      forall i | 0 <= i < |ps|
        ensures Birth(ops, ps[i].0) == Birth(init, ps[i].0)
      {
        if ps[i].0 == op.name {
          assert Search(ps, op.name) < |ps|;
        }
      }
      OrderKept(ps, op, init, ops);
    }
  }

  lemma OrderKept(ps: seq<Pair>, op: Op, init: seq<Op>, ops: seq<Op>)
    requires InBirthOrder(ps, init) && InBirthOrder(ps, ops) && |ops| == |init| + 1
    requires forall i :: 0 <= i < |ps| ==> Birth(ops, ps[i].0) == Birth(init, ps[i].0)
    requires Search(ps, op.name) == |ps| ==> Birth(ops, op.name) == |init|
    ensures InBirthOrder(Apply(ps, op), ops)
  {
    hide Birth, Search, InBirthOrder, Apply;
    var n, qs := Search(ps, op.name), Apply(ps, op);
    if op.Remove? && n < |ps| {
      NameRemoved(ps, op);
      RemovalKeepsOrder(ps, n, ops);
    } else if n < |ps| || op.Remove? {
      NamesKept(ps, op);
      SameNamesKeepOrder(ps, qs, ops);
    } else {
      var p := NameAdded(ps, op);
      BirthsBefore(ps, init, ops);
      NewNameKeepsOrder(ps, p, |init|, ops);
    }
  }

  lemma NameRemoved(ps: seq<Pair>, op: Op)
    requires op.Remove? && Search(ps, op.name) < |ps|
    ensures var n := Search(ps, op.name); Apply(ps, op) == ps[..n] + ps[n + 1..]
  {
  }

  lemma NameAdded(ps: seq<Pair>, op: Op) returns (p: Pair)
    requires !op.Remove? && Search(ps, op.name) == |ps|
    ensures p.0 == op.name && Apply(ps, op) == ps + [p]
  {
    p := (op.name, if op.Add? then [op.value] else []);
  }

  lemma BirthsBefore(ps: seq<Pair>, init: seq<Op>, ops: seq<Op>)
    requires InBirthOrder(ps, init)
    requires forall i :: 0 <= i < |ps| ==> Birth(ops, ps[i].0) == Birth(init, ps[i].0)
    ensures forall i :: 0 <= i < |ps| ==> Birth(ops, ps[i].0) < |init|
  {
    hide Birth;
  }

  lemma NamesKept(ps: seq<Pair>, op: Op)
    requires if op.Remove? then Search(ps, op.name) == |ps| else Search(ps, op.name) < |ps|
    ensures |Apply(ps, op)| == |ps| && forall i :: 0 <= i < |ps| ==> Apply(ps, op)[i].0 == ps[i].0
  {
    hide Search;
  }

  lemma SameNamesKeepOrder(ps: seq<Pair>, qs: seq<Pair>, ops: seq<Op>)
    requires InBirthOrder(ps, ops) && |qs| == |ps| && forall i :: 0 <= i < |ps| ==> qs[i].0 == ps[i].0
    ensures InBirthOrder(qs, ops)
  {
    hide Birth;
  }

  lemma NewNameKeepsOrder(ps: seq<Pair>, p: Pair, n: nat, ops: seq<Op>)
    requires InBirthOrder(ps, ops) && n < |ops| && Birth(ops, p.0) == n
    requires forall i :: 0 <= i < |ps| ==> Birth(ops, ps[i].0) < n
    ensures InBirthOrder(ps + [p], ops)
  {
    hide Birth;
  }

  lemma RemovalKeepsOrder(ps: seq<Pair>, n: nat, ops: seq<Op>)
    requires InBirthOrder(ps, ops) && n < |ps|
    ensures InBirthOrder(ps[..n] + ps[n + 1..], ops)
  {
    var qs := ps[..n] + ps[n + 1..];
    hide Birth;
    forall i, j | 0 <= i < j < |qs|
      ensures Birth(ops, qs[i].0) < Birth(ops, qs[j].0)
    {
      assert qs[i] == ps[if i < n then i else i + 1] && qs[j] == ps[if j < n then j else j + 1];
    }
    assert forall i :: 0 <= i < |qs| ==> qs[i] == ps[if i < n then i else i + 1];
  }
}
