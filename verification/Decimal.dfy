/** Decimal numbers: what fmt writes and std::from_chars reads. */
module Decimal {
  import opened Wrappers
  import opened Strings

  /** One more than the largest 64-bit unsigned number. */
  const U64 := 0x1_0000_0000_0000_0000

  type u64 = n: nat | n < U64

  /** The value of a computation in 64-bit unsigned arithmetic. */
  function Wrap(n: int): u64 {
    n % U64
  }

  lemma WrapSmall(n: u64)
    ensures Wrap(n) == n
  {
  }

  lemma WrapDifference(a: u64, b: u64)
    ensures Wrap(b - a) == if a <= b then b - a else U64 + b - a
  {
  }

  predicate AllDigits(s: string) {
    forall i :: 0 <= i < |s| ==> IsDigit(s[i])
  }

  function Value(s: string): nat
    requires AllDigits(s)
  {
    if s == "" then 0 else Value(s[..|s| - 1]) * 10 + (s[|s| - 1] as int - '0' as int)
  }

  function Digit(n: nat): (c: char)
    requires n < 10
    ensures IsDigit(c) && c as int - '0' as int == n
  {
    ('0' as int + n) as char
  }

  /** The decimal digits of a number, without leading zeros. */
  function Print(n: nat): (s: string)
    ensures s != "" && AllDigits(s)
    ensures n > 0 ==> s[0] != '0'
  {
    if n < 10 then [Digit(n)] else Print(n / 10) + [Digit(n % 10)]
  }

  /** The whole text as a 64-bit number: digits only, at least one, and no overflow. */
  function ParseU64(s: string): (r: Option<u64>) {
    if s != "" && AllDigits(s) && Value(s) < U64 then Some(Value(s)) else None
  }

  lemma {:induction false} ValueOfPrint(n: nat)
    ensures Value(Print(n)) == n
  {
    var s := Print(n);
    if n < 10 {
      assert s[..0] == "" && s[0] == Digit(n);
    } else {
      ValueOfPrint(n / 10);
      assert s[..|s| - 1] == Print(n / 10) && s[|s| - 1] == Digit(n % 10);
    }
  }

  /** A printed number is read back exactly when it fits in 64 bits. */
  lemma ParseInvertsPrint(n: nat)
    ensures ParseU64(Print(n)) == if n < U64 then Some(n) else None
  {
    ValueOfPrint(n);
  }
}
