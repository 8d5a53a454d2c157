/** Range headers: byte ranges of a file, as in sections 14.1.1 and 14.1.2 of RFC 9110, with
    the suffix rule as coded. */
module ByteRange {
  import opened Wrappers
  import opened Strings
  import opened Decimal

  /** Both ends are included. */
  datatype Range = Range(start: u64, end: u64)

  datatype Field = Present | Absent | Invalid

  // ----- one item -----

  /** The range an item asks for, in plain arithmetic.  A suffix longer than the file is
      refused, and so is any number that does not fit.  For an empty file the last position
      is not before the first but the largest number there is. */
  function RangeOf(size: u64, item: string): Option<Range> {
    var dash := IndexOf(item, '-');
    if dash == |item| then None
    else
      var before, after := item[..dash], item[dash + 1..];
      var last: u64 := if size == 0 then U64 - 1 else size - 1;
      if before == "" then
        var n :- ParseU64(after);
        if size == 0 then Some(Range(if n == 0 then 0 else U64 - n, last))
        else if 1 <= n <= size then Some(Range(size - n, last))
        else None
      else
        var start :- ParseU64(before);
        var end :- if after == "" then Some(last) else ParseU64(after);
        if start <= end && start <= last then Some(Range(start, if end < last then end else last)) else None
  }

  method ParseByteRange(size: u64, data: string) returns (field: Field, result: Range)
    ensures field == if RangeOf(size, data).Some? then Present else Invalid
    ensures RangeOf(size, data).Some? ==> result == RangeOf(size, data).value
  {
    hide ParseU64, IndexOf, Wrap;
    WrapDifference(1, size);
    result := Range(0, 0);
    var pos := Find(data, '-', 0);
    assert data[0..] == data;
    if pos == |data| {
      return Invalid, result;
    }
    var start, end := data[..pos], data[pos + 1..];
    if pos == 0 {
      var number := ParseU64(end);
      if number.None? {
        return Invalid, result;
      }
      WrapDifference(number.value, size);
      result := result.(end := number.value);
      result := result.(start := Wrap(size - result.end));
      result := result.(end := Wrap(size - 1));
    } else if pos == |data| - 1 {
      var number := ParseU64(start);
      if number.None? {
        return Invalid, result;
      }
      result := Range(number.value, Wrap(size - 1));
    } else {
      var first := ParseU64(start);
      if first.None? {
        return Invalid, result;
      }
      result := result.(start := first.value);
      var second := ParseU64(end);
      if second.None? {
        return Invalid, result;
      }
      result := result.(end := second.value);
    }
    if result.end > Wrap(size - 1) {
      result := result.(end := Wrap(size - 1));
    }
    field := if result.start <= result.end then Present else Invalid;
  }

  /** Every valid item lies within the file, for every item, exactly when the file is not
      empty. */
  lemma ItemsLieInNonEmptyFiles(size: u64)
    ensures (forall item :: RangeOf(size, item).Some? ==>
               var r := RangeOf(size, item).value; r.start <= r.end < size) <==> size > 0
  {
    if size == 0 {
      EmptyFileHasRanges(0);
    }
  }

  /** An empty file is given every open range, up to 2^64 - 1. */
  lemma EmptyFileHasRanges(n: u64)
    ensures RangeOf(0, Print(n) + "-" + "") == Some(Range(n, U64 - 1))
  {
    DashOf(Print(n), "");
    ParseInvertsPrint(n);
  }

  lemma DashOf(a: string, b: string)
    requires AllDigits(a)
    ensures var s := a + "-" + b; IndexOf(s, '-') == |a| && s[..|a|] == a && s[|a| + 1..] == b
  {
    var s := a + "-" + b;
    assert forall i :: 0 <= i < |a| ==> s[i] == a[i];
    IndexOfIs(s, '-', |a|);
  }

  // ----- whitespace -----

  predicate AllSpace(s: string) {
    forall i :: 0 <= i < |s| ==> IsSpace(s[i])
  }

  function StripBack(s: string): string {
    if s != "" && IsSpace(s[|s| - 1]) then StripBack(s[..|s| - 1]) else s
  }

  function StripFront(s: string): string {
    if s != "" && IsSpace(s[0]) then StripFront(s[1..]) else s
  }

  /** The text without the whitespace at its ends. */
  function Stripped(s: string): string {
    StripFront(StripBack(s))
  }

  method Strip(s: string) returns (r: string)
    ensures r == Stripped(s)
  {
    r := s;
    while r != "" && IsSpace(r[|r| - 1])
      invariant StripBack(r) == StripBack(s)
      decreases |r|
    {
      r := r[..|r| - 1];
    }
    while r != "" && IsSpace(r[0])
      invariant StripFront(r) == Stripped(s)
      decreases |r|
    {
      r := r[1..];
    }
  }

  lemma {:induction false} StripBackAppend(s: string, space: string)
    requires AllSpace(space)
    ensures StripBack(s + space) == StripBack(s)
  {
    if space == "" {
      assert s + space == s;
    } else {
      var n := |space| - 1;
      assert (s + space)[..|s + space| - 1] == s + space[..n];
      StripBackAppend(s, space[..n]);
    }
  }

  lemma {:induction false} StripFrontPrepend(space: string, s: string)
    requires AllSpace(space)
    ensures StripFront(space + s) == StripFront(s)
  {
    if space == "" {
      assert space + s == s;
    } else {
      assert (space + s)[1..] == space[1..] + s;
      StripFrontPrepend(space[1..], s);
    }
  }

  lemma {:induction false} StripBackParts(s: string) returns (space: string)
    ensures AllSpace(space) && s == StripBack(s) + space
    ensures StripBack(s) != "" ==> !IsSpace(StripBack(s)[|StripBack(s)| - 1])
  {
    if s != "" && IsSpace(s[|s| - 1]) {
      var rest := StripBackParts(s[..|s| - 1]);
      space := rest + [s[|s| - 1]];
      assert s == s[..|s| - 1] + [s[|s| - 1]];
    } else {
      space := "";
    }
  }

  lemma {:induction false} StripFrontParts(s: string) returns (space: string)
    ensures AllSpace(space) && s == space + StripFront(s)
    ensures StripFront(s) != "" ==> !IsSpace(StripFront(s)[0])
  {
    hide IsSpace;
    if s != "" && IsSpace(s[0]) {
      var rest := StripFrontParts(s[1..]);
      space := [s[0]] + rest;
      assert s == [s[0]] + s[1..];
      assert s == [s[0]] + (rest + StripFront(s));
    } else {
      space := "";
    }
  }

  predicate Trim(s: string) {
    s != "" ==> !IsSpace(s[0]) && !IsSpace(s[|s| - 1])
  }

  /** A text is whitespace, its stripped text, whitespace; and the stripped text has none
      at its ends. */
  lemma StrippedParts(s: string) returns (a: string, b: string)
    ensures AllSpace(a) && AllSpace(b) && s == a + Stripped(s) + b && Trim(Stripped(s))
  {
    b := StripBackParts(s);
    a := StripFrontParts(StripBack(s));
    assert StripBack(s) == a + Stripped(s);
  }

  /** These are the only parts there are. */
  lemma StrippedIs(s: string, a: string, m: string, b: string)
    requires AllSpace(a) && AllSpace(b) && s == a + m + b && Trim(m)
    ensures Stripped(s) == m
  {
    StripBackAppend(a + m, b);
    if m == "" {
      assert "" + a == a == a + m;
      StripBackAppend("", a);
    } else {
      assert (a + m)[|a + m| - 1] == m[|m| - 1];
      StripFrontPrepend(a, m);
    }
  }

  /** Whitespace around a text makes no difference. */
  lemma StrippedAbsorbs(a: string, s: string, b: string)
    requires AllSpace(a) && AllSpace(b)
    ensures Stripped(a + s + b) == Stripped(s)
  {
    var c, d := StrippedParts(s);
    assert a + s + b == (a + c) + Stripped(s) + (d + b);
    StrippedIs(a + s + b, a + c, Stripped(s), d + b);
  }

  // ----- all items -----

  function StripAll(items: seq<string>): seq<string> {
    if items == [] then [] else [Stripped(items[0])] + StripAll(items[1..])
  }

  /** The items of a comma-separated list. */
  function Items(list: string): seq<string> {
    StripAll(Split(list, ','))
  }

  /** The ranges of the valid items, in order. */
  function ValidRanges(size: u64, items: seq<string>): seq<Range> {
    if items == [] then []
    else (if RangeOf(size, items[0]).Some? then [RangeOf(size, items[0]).value] else []) + ValidRanges(size, items[1..])
  }

  /** The ranges a header asks for: the valid items of the list after `bytes=`. */
  function RangesOf(size: u64, header: string): seq<Range> {
    var eq := IndexOf(header, '=');
    if eq == |header| || Stripped(header[..eq]) != "bytes" then []
    else ValidRanges(size, Items(header[eq + 1..]))
  }

  lemma {:induction false} SplitPrepend(a: string, s: string)
    requires ',' !in a
    ensures Split(a + s, ',') == [a + Split(s, ',')[0]] + Split(s, ',')[1..]
  {
    var n := IndexOf(s, ',');
    IndexAfter(a, s);
    hide IndexOf;
    var t, m := a + s, |a| + n;
    assert t[..m] == a + s[..n];
    if n < |s| {
      assert t[m + 1..] == s[n + 1..];
    } else {
      assert s[..n] == s;
    }
  }

  lemma IndexAfter(a: string, s: string)
    requires ',' !in a
    ensures IndexOf(a + s, ',') == |a| + IndexOf(s, ',')
  {
    var t := a + s;
    assert forall i :: 0 <= i < |a| ==> t[i] == a[i];
    assert forall i :: |a| <= i < |t| ==> t[i] == s[i - |a|];
    IndexOfIs(t, ',', |a| + IndexOf(s, ','));
  }

  lemma {:induction false} SplitAppend(s: string, b: string)
    requires ',' !in b
    ensures var parts := Split(s, ','); var k := |parts| - 1;
            Split(s + b, ',') == parts[..k] + [parts[k] + b]
    decreases |s|
  {
    var n := IndexOf(s, ',');
    IndexBefore(s, b);
    hide IndexOf;
    var t := s + b;
    if n == |s| {
      assert Split(s, ',') == [s] && Split(t, ',') == [t];
    } else {
      var rest := s[n + 1..];
      assert t[..n] == s[..n] && t[n + 1..] == rest + b;
      SplitAppend(rest, b);
      LastOfCons(s[..n], Split(rest, ','), b);
    }
  }

  lemma IndexBefore(s: string, b: string)
    requires ',' !in b
    ensures IndexOf(s + b, ',') == if IndexOf(s, ',') < |s| then IndexOf(s, ',') else |s + b|
  {
    var n, t := IndexOf(s, ','), s + b;
    assert forall i :: 0 <= i < |t| ==> t[i] == if i < |s| then s[i] else b[i - |s|];
    IndexOfIs(t, ',', if n < |s| then n else |t|);
  }

  lemma LastOfCons(first: string, parts: seq<string>, b: string)
    requires parts != []
    ensures var all, k := [first] + parts, |parts| - 1;
            [first] + (parts[..k] + [parts[k] + b]) == all[..|all| - 1] + [all[|all| - 1] + b]
  {
  }

  lemma {:induction false} StripAllLast(parts: seq<string>, last: string, b: string)
    requires AllSpace(b)
    ensures StripAll(parts + [last + b]) == StripAll(parts + [last])
  {
    hide Stripped;
    if parts == [] {
      assert "" + last + b == last + b;
      StrippedAbsorbs("", last, b);
      assert parts + [last + b] == [last + b] && parts + [last] == [last];
      OneItem(last + b);
      OneItem(last);
    } else {
      assert parts == [parts[0]] + parts[1..];
      assert parts + [last + b] == [parts[0]] + (parts[1..] + [last + b]);
      assert parts + [last] == [parts[0]] + (parts[1..] + [last]);
      FirstItem(parts[0], parts[1..] + [last + b]);
      FirstItem(parts[0], parts[1..] + [last]);
      StripAllLast(parts[1..], last, b);
    }
  }

  lemma SpaceHasNoComma(s: string)
    requires AllSpace(s)
    ensures ',' !in s
  {
  }

  /** Stripping the list first does not change its items. */
  lemma ItemsOfStripped(list: string)
    ensures Items(Stripped(list)) == Items(list)
  {
    var a, b := StrippedParts(list);
    var m := Stripped(list);
    hide Stripped, Split, AllSpace, StripAll;
    SpaceHasNoComma(a);
    SpaceHasNoComma(b);
    var parts, front := Split(m, ','), Split(a + m, ',');
    var k := |front| - 1;
    SplitAppend(a + m, b);
    SplitPrepend(a, m);
    StripAllLast(front[..k], front[k], b);
    assert front[..k] + [front[k]] == front;
    FirstItem(a + parts[0], parts[1..]);
    FirstItem(parts[0], parts[1..]);
    assert parts == [parts[0]] + parts[1..] && a + parts[0] + "" == a + parts[0];
    NoSpace();
    StrippedAbsorbs(a, parts[0], "");
  }

  lemma NoSpace()
    ensures AllSpace("")
  {
  }

  lemma ItemsStep(list: string, pos: nat)
    requires pos == IndexOf(list, ',') < |list|
    ensures Items(list) == [Stripped(list[..pos])] + Items(list[pos + 1..])
  {
    hide Stripped, StripAll;
    FirstItem(list[..pos], Split(list[pos + 1..], ','));
  }

  lemma ItemsEnd(list: string)
    requires IndexOf(list, ',') == |list|
    ensures Items(list) == [Stripped(list)]
  {
    hide Stripped, IndexOf;
    OneItem(list);
  }

  lemma OneItem(item: string)
    ensures StripAll([item]) == [Stripped(item)]
  {
    hide Stripped;
    assert [item][1..] == [];
    assert StripAll([item]) == [Stripped(item)] + StripAll([item][1..]);
  }

  lemma FirstItem(item: string, items: seq<string>)
    ensures StripAll([item] + items) == [Stripped(item)] + StripAll(items)
  {
    hide Stripped;
    assert ([item] + items)[1..] == items;
  }

  method ParseByteRanges(size: u64, field: string) returns (status: Field, result: seq<Range>)
    ensures result == RangesOf(size, field)
    ensures status == if result == [] then Invalid else Present
  {
    hide Items, ValidRanges, RangeOf, Stripped, IndexOf;
    result := [];
    var header := field;
    var pos := Find(header, '=', 0);
    assert header[0..] == header;
    if pos == |header| {
      return Invalid, result;
    }
    var unit := Strip(header[..pos]);
    if unit != "bytes" {
      return Invalid, result;
    }
    var list := header[pos + 1..];
    header := Strip(list);
    ItemsOfStripped(list);
    pos := Find(header, ',', 0);
    assert header[0..] == header;
    while pos < |header|
      invariant pos == IndexOf(header, ',') <= |header|
      invariant result + ValidRanges(size, Items(header)) == ValidRanges(size, Items(list))
      decreases |header|
    {
      ItemsStep(header, pos);
      ValidRangesStep(size, Stripped(header[..pos]), Items(header[pos + 1..]), result);
      var item := Strip(header[..pos]);
      var res, range := ParseByteRange(size, item);
      if !res.Invalid? {
        result := result + [range];
      }
      ItemsOfStripped(header[pos + 1..]);
      StrippedIsShorter(header[pos + 1..]);
      header := Strip(header[pos + 1..]);
      pos := Find(header, ',', 0);
      assert header[0..] == header;
    }
    ItemsEnd(header);
    ValidRangesStep(size, Stripped(header), [], result);
    var item := Strip(header);
    var res, range := ParseByteRange(size, item);
    if !res.Invalid? {
      result := result + [range];
    }
    assert [Stripped(header)] + [] == [Stripped(header)];
    NoRanges(size, result);
    status := if result == [] then Invalid else Present;
  }

  lemma StrippedIsShorter(s: string)
    ensures |Stripped(s)| <= |s|
  {
    var a, b := StrippedParts(s);
  }

  lemma ValidRangesStep(size: u64, item: string, items: seq<string>, result: seq<Range>)
    ensures result + ValidRanges(size, [item] + items) ==
            (if RangeOf(size, item).Some? then result + [RangeOf(size, item).value] else result) +
            ValidRanges(size, items)
  {
    hide RangeOf;
    assert ([item] + items)[1..] == items;
  }

  lemma NoRanges(size: u64, result: seq<Range>)
    ensures result + ValidRanges(size, []) == result
  {
  }

  /** No range ends before it starts, whatever the file. */
  lemma {:induction false} RangesAreOrdered(size: u64, items: seq<string>)
    ensures forall i :: 0 <= i < |ValidRanges(size, items)| ==>
              ValidRanges(size, items)[i].start <= ValidRanges(size, items)[i].end
  {
    if items != [] {
      RangesAreOrdered(size, items[1..]);
      assert RangeOf(size, items[0]).Some? ==> RangeOf(size, items[0]).value.start <= RangeOf(size, items[0]).value.end;
    }
  }

  /** For a file that is not empty, every range of every header lies within it. */
  lemma {:induction false} RangesLieInFile(size: u64, items: seq<string>)
    requires size > 0
    ensures forall i :: 0 <= i < |ValidRanges(size, items)| ==>
              var r := ValidRanges(size, items)[i]; r.start <= r.end < size
  {
    if items != [] {
      RangesLieInFile(size, items[1..]);
      ItemsLieInNonEmptyFiles(size);
    }
  }

  // ----- printing ranges and reading them back -----

  function PrintRange(r: Range): string {
    Print(r.start) + "-" + Print(r.end)
  }

  /** A printed range within the file reads back as itself. */
  lemma RangeRoundTrip(size: u64, r: Range)
    requires r.start <= r.end < size
    ensures RangeOf(size, PrintRange(r)) == Some(r)
  {
    DashOf(Print(r.start), Print(r.end));
    ParseInvertsPrint(r.start);
    ParseInvertsPrint(r.end);
  }

  /** A number of 2^64 or more makes its item invalid, wherever it stands. */
  lemma HugeNumbersAreInvalid(size: u64, n: nat, m: nat)
    requires n >= U64
    ensures RangeOf(size, Print(n) + "-" + Print(m)) == None
    ensures RangeOf(size, Print(m) + "-" + Print(n)) == None
    ensures RangeOf(size, Print(n) + "-" + "") == None
    ensures RangeOf(size, "" + "-" + Print(n)) == None
  {
    ParseInvertsPrint(n);
    ParseInvertsPrint(m);
    DashOf(Print(n), Print(m));
    DashOf(Print(m), Print(n));
    DashOf(Print(n), "");
    DashOf("", Print(n));
  }

  /** A suffix selects the last bytes when it is not longer than the file; a longer one is
      refused, where RFC 9110 would select the whole file. */
  lemma SuffixRule(size: u64, n: u64)
    requires size > 0
    ensures RangeOf(size, "" + "-" + Print(n)) ==
            if 1 <= n <= size then Some(Range(size - n, size - 1)) else None
  {
    DashOf("", Print(n));
    ParseInvertsPrint(n);
  }

  /** A range without an end goes to the end of the file; one that starts behind it is refused. */
  lemma OpenRule(size: u64, n: u64)
    requires size > 0
    ensures RangeOf(size, Print(n) + "-" + "") == if n < size then Some(Range(n, size - 1)) else None
  {
    DashOf(Print(n), "");
    ParseInvertsPrint(n);
  }

  /** A range with both ends is cut off at the end of the file. */
  lemma ClosedRule(size: u64, n: u64, m: u64)
    requires size > 0
    ensures RangeOf(size, Print(n) + "-" + Print(m)) ==
            if n <= m && n < size then Some(Range(n, if m < size then m else size - 1)) else None
  {
    DashOf(Print(n), Print(m));
    ParseInvertsPrint(n);
    ParseInvertsPrint(m);
  }

  predicate IsNumber(s: string) {
    s != "" && AllDigits(s) && Value(s) < U64
  }

  /** An item without a dash, with something else than a number on either side of its first one, or
      with nothing on both, is refused. */
  lemma GarbageIsInvalid(size: u64, a: string, b: string)
    requires '-' !in a
    ensures RangeOf(size, a) == None
    ensures (a != "" && !IsNumber(a)) || (b != "" && !IsNumber(b)) || (a == "" && b == "") ==>
              RangeOf(size, a + "-" + b) == None
  {
    IndexOfIs(a, '-', |a|);
    var s := a + "-" + b;
    assert forall i :: 0 <= i < |a| ==> s[i] == a[i];
    IndexOfIs(s, '-', |a|);
    assert s[..|a|] == a && s[|a| + 1..] == b;
  }

  function PrintRanges(rs: seq<Range>): seq<string> {
    if rs == [] then [] else [PrintRange(rs[0])] + PrintRanges(rs[1..])
  }

  predicate Printed(s: string) {
    s != "" && forall i :: 0 <= i < |s| ==> IsDigit(s[i]) || s[i] == '-'
  }

  lemma RangeIsPrinted(r: Range)
    ensures Printed(PrintRange(r)) && Trim(PrintRange(r)) && ',' !in PrintRange(r)
  {
    var a, b, s := Print(r.start), Print(r.end), PrintRange(r);
    hide Print;
    forall i | 0 <= i < |s|
      ensures IsDigit(s[i]) || s[i] == '-'
    {
      if i < |a| {
        assert s[i] == a[i];
      } else if i > |a| {
        assert s[i] == b[i - |a| - 1];
      }
    }
  }

  lemma {:induction false} PrintedItems(rs: seq<Range>)
    ensures |PrintRanges(rs)| == |rs|
    ensures forall i :: 0 <= i < |rs| ==> ',' !in PrintRanges(rs)[i]
    ensures StripAll(PrintRanges(rs)) == PrintRanges(rs)
  {
    hide PrintRange, Stripped, Printed, Trim;
    if rs != [] {
      var s, rest := PrintRange(rs[0]), PrintRanges(rs[1..]);
      PrintedItems(rs[1..]);
      RangeIsPrinted(rs[0]);
      NoSpace();
      assert "" + s + "" == s;
      StrippedIs(s, "", s, "");
      FirstItem(s, rest);
    }
  }

  lemma {:induction false} PrintedRanges(size: u64, rs: seq<Range>)
    requires forall i :: 0 <= i < |rs| ==> rs[i].start <= rs[i].end < size
    ensures ValidRanges(size, PrintRanges(rs)) == rs
  {
    if rs != [] {
      RangeRoundTrip(size, rs[0]);
      PrintedRanges(size, rs[1..]);
      assert PrintRanges(rs)[1..] == PrintRanges(rs[1..]);
      assert rs == [rs[0]] + rs[1..];
    }
  }

  /** A header written from ranges within the file gives exactly these ranges. */
  lemma HeaderRoundTrip(size: u64, rs: seq<Range>)
    requires rs != [] && forall i :: 0 <= i < |rs| ==> rs[i].start <= rs[i].end < size
    ensures PrintRanges(rs) != []
    ensures RangesOf(size, "bytes=" + Join(PrintRanges(rs), ',')) == rs
  {
    hide PrintRange, PrintRanges, Stripped, StripAll, Split, Join, ValidRanges, IndexOf;
    PrintedItems(rs);
    PrintedRanges(size, rs);
    var list := Join(PrintRanges(rs), ',');
    SplitInvertsJoin(PrintRanges(rs), ',');
    BytesHeader(list);
  }

  function RangesOfItem(size: u64, item: string): seq<Range> {
    if RangeOf(size, item).Some? then [RangeOf(size, item).value] else []
  }

  /** A header with one item; whitespace around it makes no difference. */
  lemma OneItemHeader(size: u64, item: string)
    requires ',' !in item
    ensures RangesOf(size, "bytes=" + item) == RangesOfItem(size, Stripped(item))
  {
    hide Stripped, RangeOf;
    BytesHeader(item);
    IndexOfIs(item, ',', |item|);
    ItemsEnd(item);
    var one := [Stripped(item)];
    assert one[1..] == [];
    assert ValidRanges(size, one) == RangesOfItem(size, one[0]) + ValidRanges(size, one[1..]);
  }

  lemma SpacedItem(size: u64, a: string, item: string, b: string)
    requires ',' !in item && Trim(item) && AllSpace(a) && AllSpace(b)
    ensures RangesOf(size, "bytes=" + (a + item + b)) == RangesOfItem(size, item)
  {
    hide RangeOf, Stripped, RangesOf, RangesOfItem;
    SpaceHasNoComma(a);
    SpaceHasNoComma(b);
    StrippedIs(a + item + b, a, item, b);
    OneItemHeader(size, a + item + b);
  }

  lemma SingleItem(size: u64, item: string)
    requires ',' !in item && Trim(item)
    ensures RangesOf(size, "bytes=" + item) == RangesOfItem(size, item)
  {
    hide RangesOf, RangesOfItem, Trim;
    NoSpace();
    SpacedItem(size, "", item, "");
    assert "" + item + "" == item;
  }

  function Concatenated(lists: seq<seq<Range>>): seq<Range> {
    if lists == [] then [] else lists[0] + Concatenated(lists[1..])
  }

  /** The items of a header are independent: it gives the ranges that headers with one of its items
      each would give, in order, so an invalid item takes no other with it. */
  lemma ItemsAreIndependent(size: u64, items: seq<string>)
    requires items != [] && forall i :: 0 <= i < |items| ==> ',' !in items[i]
    ensures RangesOf(size, "bytes=" + Join(items, ',')) ==
            Concatenated(seq(|items|, i requires 0 <= i < |items| => RangesOf(size, "bytes=" + items[i])))
  {
    hide RangesOf, Join, Concatenated;
    var lists := seq(|items|, i requires 0 <= i < |items| => RangesOf(size, "bytes=" + items[i]));
    SplitInvertsJoin(items, ',');
    RangesOfList(size, Join(items, ','));
    EachItem(size, items, lists);
  }

  lemma RangesOfList(size: u64, list: string)
    ensures RangesOf(size, "bytes=" + list) == ValidRanges(size, StripAll(Split(list, ',')))
  {
    hide ValidRanges, StripAll, Split, Stripped;
    BytesHeader(list);
  }

  lemma {:induction false} EachItem(size: u64, items: seq<string>, lists: seq<seq<Range>>)
    requires |lists| == |items| && forall i :: 0 <= i < |items| ==> ',' !in items[i]
    requires forall i :: 0 <= i < |items| ==> lists[i] == RangesOf(size, "bytes=" + items[i])
    ensures ValidRanges(size, StripAll(items)) == Concatenated(lists)
    decreases |items|
  {
    hide RangesOf, RangeOf, Stripped;
    if items != [] {
      OneItemHeader(size, items[0]);
      EachItem(size, items[1..], lists[1..]);
      assert StripAll(items)[1..] == StripAll(items[1..]);
    }
  }

  /** Only the unit `bytes` is understood, with or without whitespace around it. */
  lemma UnitRule(size: u64, a: string, unit: string, b: string, list: string)
    requires AllSpace(a) && AllSpace(b) && Trim(unit) && '=' !in unit
    ensures RangesOf(size, unit) == []
    ensures RangesOf(size, a + unit + b + "=" + list) ==
            if unit == "bytes" then RangesOf(size, "bytes=" + list) else []
  {
    hide ValidRanges, Items, Stripped;
    var left := a + unit + b;
    var header := left + "=" + list;
    StrippedIs(left, a, unit, b);
    IndexOfIs(unit, '=', |unit|);
    assert header[|left|] == '=' && header[..|left|] == left && header[|left| + 1..] == list;
    assert forall i :: 0 <= i < |left| ==> header[i] == left[i];
    assert '=' !in left;
    IndexOfIs(header, '=', |left|);
    BytesHeader(list);
  }

  lemma NumbersAreTrim(s: string)
    requires forall i :: 0 <= i < |s| ==> IsDigit(s[i]) || s[i] == '-'
    ensures ',' !in s && Trim(s)
  {
  }

  lemma PrintedSides(n: nat, m: nat)
    ensures var a, b := Print(n), Print(m);
            && (',' !in a + "-" && Trim(a + "-"))
            && (',' !in "-" + b && Trim("-" + b))
            && (',' !in a + ("-" + b) && Trim(a + ("-" + b)))
  {
    var a, b := Print(n), Print(m);
    assert AllDigits(a) && AllDigits(b);
    hide Print;
    NumbersAreTrim(a + "-");
    NumbersAreTrim("-" + b);
    NumbersAreTrim(a + ("-" + b));
  }

  /** What the three kinds of ranges select of a file that is not empty. */
  lemma HeaderRules(size: u64, n: u64, m: u64)
    requires size > 0
    ensures RangesOf(size, "bytes=" + (Print(n) + "-")) == if n < size then [Range(n, size - 1)] else []
    ensures RangesOf(size, "bytes=" + ("-" + Print(m))) == if 1 <= m <= size then [Range(size - m, size - 1)] else []
    ensures RangesOf(size, "bytes=" + (Print(n) + ("-" + Print(m)))) ==
            if n <= m && n < size then [Range(n, if m < size then m else size - 1)] else []
  {
    hide RangesOf, RangeOf, Trim, Print;
    var a, b := Print(n), Print(m);
    PrintedSides(n, m);
    SingleItem(size, a + "-");
    SingleItem(size, "-" + b);
    SingleItem(size, a + ("-" + b));
    OpenRule(size, n);
    SuffixRule(size, m);
    ClosedRule(size, n, m);
    assert a + "-" + "" == a + "-" && "" + "-" + b == "-" + b && a + "-" + b == a + ("-" + b);
  }

  lemma BytesHeader(list: string)
    ensures var header := "bytes=" + list;
            var eq := IndexOf(header, '=');
            eq < |header| && Stripped(header[..eq]) == "bytes" && header[eq + 1..] == list
  {
    var unit := "bytes";
    assert Stripped(unit) == unit by {
      NoSpace();
      assert "" + unit + "" == unit;
      StrippedIs(unit, "", unit, "");
    }
    hide Stripped;
    var header := unit + "=" + list;
    assert header == "bytes=" + list;
    assert header[..5] == unit && header[5] == '=' && header[6..] == list;
    assert forall i :: 0 <= i < 5 ==> header[i] == unit[i];
    IndexOfIs(header, '=', 5);
  }
}
