/** The query object: an ordered list of parameters with an index by name, its printer and
    its parser. */
module Query {
  import opened Wrappers
  import opened Percent

  /** A parameter with its values, none if it was only set. */
  type Pair = (Octets, seq<Octets>)

  // ----- the plain ordered association list -----

  /** The place of a name by linear search, or the length. */
  function Search(ps: seq<Pair>, name: Octets): (n: nat)
    ensures n <= |ps|
    ensures n < |ps| ==> ps[n].0 == name
    ensures forall i :: 0 <= i < n ==> ps[i].0 != name
  {
    if ps == [] || ps[0].0 == name then 0 else 1 + Search(ps[1..], name)
  }

  ghost predicate Distinct(ps: seq<Pair>) {
    forall i, j :: 0 <= i < j < |ps| ==> ps[i].0 != ps[j].0
  }

  datatype Op = Add(name: Octets, value: Octets) | Set(name: Octets) | Remove(name: Octets)

  function Apply(ps: seq<Pair>, op: Op): seq<Pair> {
    var n := Search(ps, op.name);
    match op
    case Add(name, value) =>
      if n < |ps| then ps[n := (name, ps[n].1 + [value])] else ps + [(name, [value])]
    case Set(name) =>
      if n < |ps| then ps[n := (name, [])] else ps + [(name, [])]
    case Remove(name) =>
      if n < |ps| then ps[..n] + ps[n + 1..] else ps
  }

  function Run(ps: seq<Pair>, ops: seq<Op>): seq<Pair>
    decreases |ops|
  {
    if ops == [] then ps else Run(Apply(ps, ops[0]), ops[1..])
  }

  lemma {:induction false} SearchIs(ps: seq<Pair>, name: Octets, n: nat)
    requires n <= |ps| && (n < |ps| ==> ps[n].0 == name) && forall i :: 0 <= i < n ==> ps[i].0 != name
    ensures Search(ps, name) == n
  {
  }

  lemma ApplyKeepsDistinct(ps: seq<Pair>, op: Op)
    requires Distinct(ps)
    ensures Distinct(Apply(ps, op))
  {
  }

  // ----- the indexed query -----

  ghost predicate Indexes(keys: map<Octets, nat>, ps: seq<Pair>) {
    && (forall i :: 0 <= i < |ps| ==> ps[i].0 in keys && keys[ps[i].0] == i)
    && (forall name :: name in keys ==> keys[name] < |ps| && ps[keys[name]].0 == name)
  }

  /** Once a name is gone, the index still fits if every later place moved one to the left. */
  lemma ShiftedIndexes(keys: map<Octets, nat>, ps: seq<Pair>, index: nat, keys': map<Octets, nat>, rest: seq<Pair>)
    requires Distinct(ps) && Indexes(keys, ps) && index < |ps|
    requires keys'.Keys == keys.Keys - {ps[index].0}
    requires forall key :: key in keys' ==> keys'[key] == if keys[key] > index then keys[key] - 1 else keys[key]
    requires |rest| == |ps| - 1
    requires forall i :: 0 <= i < |rest| ==> rest[i] == ps[if i < index then i else i + 1]
    ensures Indexes(keys', rest)
  {
    forall i | 0 <= i < |rest|
      ensures rest[i].0 in keys' && keys'[rest[i].0] == i
    {
      var at := if i < index then i else i + 1;
      assert rest[i] == ps[at] && ps[at].0 in keys && keys[ps[at].0] == at;
    }
    forall name | name in keys'
      ensures keys'[name] < |rest| && rest[keys'[name]].0 == name
    {
      var at := keys[name];
      assert ps[at].0 == name && at != index;
    }
  }

  class QueryObject {
    var values: seq<Pair>
    var keys: map<Octets, nat>

    /** Names are distinct, and the index holds the place of every name and nothing else. */
    ghost predicate Valid()
      reads this
    {
      Distinct(values) && Indexes(keys, values)
    }

    constructor ()
      ensures Valid() && values == []
    {
      values, keys := [], map[];
    }

    /** The index agrees with linear search. */
    lemma IndexIsSearch(name: Octets)
      requires Valid()
      ensures Search(values, name) == if name in keys then keys[name] else |values|
    {
      var n := Search(values, name);
      if name in keys {
        assert n < |values| ==> keys[values[n].0] == n;
      }
    }

    method FindName(name: Octets) returns (at: nat)
      requires Valid()
      ensures at == Search(values, name)
    {
      IndexIsSearch(name);
      at := if name in keys then keys[name] else |values|;
    }

    method AddValue(name: Octets, value: Octets)
      requires Valid()
      modifies this
      ensures Valid() && values == Apply(old(values), Add(name, value))
    {
      IndexIsSearch(name);
      ApplyKeepsDistinct(values, Add(name, value));
      if name in keys {
        var at := keys[name];
        values := values[at := (values[at].0, values[at].1 + [value])];
        return;
      }
      var index := |values|;
      values := values + [(name, [value])];
      keys := keys[name := index];
    }

    method SetName(name: Octets)
      requires Valid()
      modifies this
      ensures Valid() && values == Apply(old(values), Set(name))
    {
      IndexIsSearch(name);
      ApplyKeepsDistinct(values, Set(name));
      if name in keys {
        var at := keys[name];
        values := values[at := (values[at].0, [])];
        return;
      }
      var index := |values|;
      values := values + [(name, [])];
      keys := keys[name := index];
    }

    lemma PlacesDiffer(name: Octets)
      requires Valid() && name in keys
      ensures keys[name] < |values|
      ensures forall key :: key in keys && key != name ==> keys[key] != keys[name]
    {
      hide Search;
    }

    method RemoveName(name: Octets)
      requires Valid()
      modifies this
      ensures Valid() && values == Apply(old(values), Remove(name))
    {
      hide Distinct, Indexes, Search;
      IndexIsSearch(name);
      ApplyKeepsDistinct(values, Remove(name));
      if name !in keys {
        return;
      }
      PlacesDiffer(name);
      var index := keys[name];
      ghost var was, places := values, keys;
      values := values[..index] + values[index + 1..];
      keys := keys - {name};
      Reindex(index);
      ShiftedIndexes(places, was, index, keys, values);
    }

    /** Moves every place after `index` one to the left. */
    method Reindex(index: nat)
      requires forall key :: key in keys ==> keys[key] != index
      modifies this`keys
      ensures keys.Keys == old(keys.Keys)
      ensures forall key :: key in keys ==>
                keys[key] == if old(keys)[key] > index then old(keys)[key] - 1 else old(keys)[key]
    {
      var todo := keys.Keys;
      while todo != {}
        invariant keys.Keys == old(keys.Keys) && todo <= keys.Keys
        invariant forall key :: key in keys ==>
                    keys[key] == if key in todo || old(keys)[key] <= index then old(keys)[key] else old(keys)[key] - 1
        decreases todo
      {
        var key :| key in todo;
        if keys[key] > index {
          keys := keys[key := keys[key] - 1];
        }
        todo := todo - {key};
      }
    }

    // ----- printing -----

    /** The query text: `name` or `name=value` for every entry, joined by `&`. */
    method String() returns (out: Octets)
      ensures out == Printed(Flat(values))
    {
      hide Printed, Entries;
      out := [];
      assert out == Printed([]) by {
        NothingPrinted();
      }
      ghost var es: seq<Entry> := [];
      for i := 0 to |values|
        invariant out == Printed(es) && es == Flat(values[..i])
      {
        var pair := values[i];
        FlatSnoc(values, i);
        if pair.1 == [] {
          FlatStarts(values, i);
          out, es := Print(out, i == 0, pair.0, None, es);
        } else {
          ghost var before := es;
          assert before + Entries(pair.0, pair.1[..0]) == before by {
            NoEntries(pair.0);
          }
          for j := 0 to |pair.1|
            invariant out == Printed(es) && es == before + Entries(pair.0, pair.1[..j])
          {
            EntriesSnoc(pair.0, pair.1, j);
            FlatStarts(values, i);
            out, es := Print(out, i == 0 && j == 0, pair.0, Some(pair.1[j]), es);
          }
          assert pair.1[..|pair.1|] == pair.1;
        }
      }
      assert values[..|values|] == values;
    }

    /** Appends one entry, after a `&` unless it is the first. */
    method Print(before: Octets, first: bool, name: Octets, value: Option<Octets>, ghost es: seq<Entry>)
      returns (out: Octets, ghost more: seq<Entry>)
      requires before == Printed(es) && (first <==> es == [])
      ensures more == es + [Entry(name, value)] && out == Printed(more)
    {
      hide Encode;
      out := before;
      if !first {
        out := out + ['&'];
      }
      var text, _ := UrlEncode(Variant.Query, name);
      if value.Some? {
        text := text + ['='];
        var encoded, _ := UrlEncode(Variant.Query, value.value);
        text := text + encoded;
      }
      out := out + text;
      more := es + [Entry(name, value)];
      PrintedSnoc(es, Entry(name, value));
    }

    /** All entries for individual access, after working out how many there are. */
    method FlatList() returns (out: seq<Entry>, length: nat)
      ensures out == Flat(values) && length == |out|
    {
      hide Entries;
      length := 0;
      for i := 0 to |values|
        invariant length == |Flat(values[..i])|
      {
        FlatSnoc(values, i);
        if values[i].1 == [] {
          length := length + 1;
        } else {
          length := length + |values[i].1|;
        }
      }
      out := [];
      for i := 0 to |values|
        invariant out == Flat(values[..i])
      {
        FlatSnoc(values, i);
        out := Flatten(out, values[i]);
      }
      assert values[..|values|] == values;
    }

    static method Flatten(before: seq<Entry>, pair: Pair) returns (out: seq<Entry>)
      ensures out == before + PairEntries(pair)
    {
      out := before;
      if pair.1 == [] {
        out := out + [Entry(pair.0, None)];
      }
      ghost var start := out;
      for j := 0 to |pair.1|
        invariant out == start + Entries(pair.0, pair.1[..j])
      {
        EntriesSnoc(pair.0, pair.1, j);
        out := out + [Entry(pair.0, Some(pair.1[j]))];
      }
      assert pair.1[..|pair.1|] == pair.1;
    }
  }

  // ----- entries -----

  datatype Entry = Entry(name: Octets, value: Option<Octets>)

  function Entries(name: Octets, values: seq<Octets>): (es: seq<Entry>)
    ensures |es| == |values|
  {
    if values == [] then [] else Entries(name, values[..|values| - 1]) + [Entry(name, Some(values[|values| - 1]))]
  }

  function PairEntries(p: Pair): seq<Entry> {
    if p.1 == [] then [Entry(p.0, None)] else Entries(p.0, p.1)
  }

  function Flat(ps: seq<Pair>): seq<Entry> {
    if ps == [] then [] else Flat(ps[..|ps| - 1]) + PairEntries(ps[|ps| - 1])
  }

  lemma EntriesSnoc(name: Octets, values: seq<Octets>, j: nat)
    requires j < |values|
    ensures Entries(name, values[..j + 1]) == Entries(name, values[..j]) + [Entry(name, Some(values[j]))]
  {
    assert values[..j + 1][..j] == values[..j];
  }

  lemma FlatSnoc(ps: seq<Pair>, i: nat)
    requires i < |ps|
    ensures Flat(ps[..i + 1]) == Flat(ps[..i]) + PairEntries(ps[i])
  {
    assert ps[..i + 1][..i] == ps[..i];
  }

  function Text(e: Entry): Octets {
    match e.value
    case None => Encode(Variant.Query, e.name)
    case Some(v) => Encode(Variant.Query, e.name) + ['='] + Encode(Variant.Query, v)
  }

  /** The entries' texts, joined by `&`. */
  function Printed(es: seq<Entry>): Octets {
    if es == [] then []
    else if |es| == 1 then Text(es[0])
    else Printed(es[..|es| - 1]) + ['&'] + Text(es[|es| - 1])
  }

  lemma NothingPrinted()
    ensures Printed([]) == []
  {
  }

  lemma NoEntries(name: Octets)
    ensures Entries(name, []) == []
  {
  }

  lemma PrintedSnoc(es: seq<Entry>, e: Entry)
    ensures Printed(es + [e]) == (if es == [] then [] else Printed(es) + ['&']) + Text(e)
  {
    assert (es + [e])[..|es|] == es;
  }

  /** Only before the first pair are there no entries. */
  lemma FlatStarts(ps: seq<Pair>, i: nat)
    requires i <= |ps|
    ensures Flat(ps[..i]) == [] <==> i == 0
  {
    if i > 0 {
      assert PairEntries(ps[..i][i - 1]) != [];
    }
  }
}
