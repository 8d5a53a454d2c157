/** The tokens of a route mask and the options of its compilation. */
module PathKeys {

  /** A parameter is known by its position among the unnamed ones, or by its name. */
  datatype Name = Index(n: nat) | Named(s: string)

  datatype Key = Key(
    isString: bool,
    asterisk: bool,
    optional: bool,
    repeat: bool,
    partial: bool,
    value: Name,
    prefix: string,
    delimiter: string,
    pattern: string)

  /** A stretch of literal text. */
  function AsString(text: string): Key {
    Key(true, false, false, false, false, Named(text), "", "", "")
  }

  /** SENSITIVE and OPTIMIZE only reach the regex engine. */
  datatype Options = Options(strict: bool, end: bool, takeRest: bool)

  /** A string token holds its text by name, and the text is never empty. */
  predicate ProperToken(k: Key) {
    k.isString ==> k.value.Named? && k.value.s != ""
  }

  predicate ProperTokens(ts: seq<Key>) {
    forall i :: 0 <= i < |ts| ==> ProperToken(ts[i])
  }

  /** The tokens that bind a value, in order. */
  function Parameters(ts: seq<Key>): seq<Key> {
    if ts == [] then []
    else (if ts[0].isString then [] else [ts[0]]) + Parameters(ts[1..])
  }

  lemma {:induction false} ParametersAppend(a: seq<Key>, b: seq<Key>)
    ensures Parameters(a + b) == Parameters(a) + Parameters(b)
  {
    if a == [] {
      assert a + b == b;
    } else {
      assert (a + b)[1..] == a[1..] + b;
      ParametersAppend(a[1..], b);
    }
  }

  lemma ParametersSnoc(ts: seq<Key>, i: nat)
    requires i < |ts|
    ensures Parameters(ts[..i + 1]) == Parameters(ts[..i]) + if ts[i].isString then [] else [ts[i]]
  {
    assert ts[..i + 1] == ts[..i] + [ts[i]];
    ParametersAppend(ts[..i], [ts[i]]);
  }

  predicate EndsWithSlash(ts: seq<Key>)
    requires ProperTokens(ts)
  {
    |ts| > 0 && var last := ts[|ts| - 1];
    last.isString && last.value.s[|last.value.s| - 1] == '/'
  }

  /** The last token is a parameter that swallows the rest of the path. */
  predicate TakesRest(ts: seq<Key>, options: Options) {
    options.takeRest && |ts| > 0 && !ts[|ts| - 1].isString
  }

  /** The tokens without the final slash of their last literal. */
  function DropFinalSlash(ts: seq<Key>): seq<Key>
    requires ProperTokens(ts) && EndsWithSlash(ts)
  {
    var text := ts[|ts| - 1].value.s;
    ts[..|ts| - 1] + [AsString(text[..|text| - 1])]
  }
}
