/**
 * Digit strings: the hexadecimal text of a region descriptor's address
 * and the decimal index in the name of a jump-table case annotation.
 */
module Numerals {
  import opened Wrappers

  /** The value of a hexadecimal digit in either case, as `strtoll` with
      base 16 reads it; `None` for any other character. */
  function HexDigitValue(c: char): (r: Option<nat>)
    ensures r.Some? ==> r.value < 16
  {
    if '0' <= c <= '9' then Some(c as int - '0' as int)
    else if 'a' <= c <= 'f' then Some(c as int - 'a' as int + 10)
    else if 'A' <= c <= 'F' then Some(c as int - 'A' as int + 10)
    else None
  }

  predicate AllHexDigits(s: string) {
    forall i :: 0 <= i < |s| ==> HexDigitValue(s[i]).Some?
  }

  /** The number a hexadecimal digit string denotes (0 for the empty string). */
  function HexValue(s: string): (v: nat)
    requires AllHexDigits(s)
  {
    if s == [] then 0 else HexValue(s[..|s| - 1]) * 16 + HexDigitValue(s[|s| - 1]).value
  }

  function HexChar(d: nat): (c: char)
    requires d < 16
    ensures HexDigitValue(c) == Some(d)
  {
    if d < 10 then (48 + d) as char else (87 + d) as char
  }

  /** Lower-case hexadecimal text of `v`, without leading zeros. */
  function Hex(v: nat): (s: string)
    ensures |s| >= 1 && AllHexDigits(s)
  {
    if v < 16 then [HexChar(v)] else Hex(v / 16) + [HexChar(v % 16)]
  }

  lemma {:induction false} HexRoundTrip(v: nat)
    ensures HexValue(Hex(v)) == v
  {
    var s := Hex(v);
    if v < 16 {
      assert s[..|s| - 1] == [];
    } else {
      assert s[..|s| - 1] == Hex(v / 16);
      HexRoundTrip(v / 16);
    }
  }

  function DecimalDigitValue(c: char): (r: Option<nat>)
    ensures r.Some? ==> r.value < 10
  {
    if '0' <= c <= '9' then Some(c as int - '0' as int) else None
  }

  predicate AllDecimalDigits(s: string) {
    forall i :: 0 <= i < |s| ==> DecimalDigitValue(s[i]).Some?
  }

  function DecimalValue(s: string): (v: nat)
    requires AllDecimalDigits(s)
  {
    if s == [] then 0 else DecimalValue(s[..|s| - 1]) * 10 + DecimalDigitValue(s[|s| - 1]).value
  }

  /** Decimal text of `n` without leading zeros, as `%d` prints a
      non-negative `int`. */
  function Decimal(n: nat): (s: string)
    ensures |s| >= 1 && AllDecimalDigits(s)
  {
    var last := (48 + n % 10) as char;
    assert DecimalDigitValue(last) == Some(n % 10);
    if n < 10 then [last] else Decimal(n / 10) + [last]
  }

  lemma {:induction false} DecimalRoundTrip(n: nat)
    ensures DecimalValue(Decimal(n)) == n
  {
    var s := Decimal(n);
    if n < 10 {
      assert s[..|s| - 1] == [];
    } else {
      assert s[..|s| - 1] == Decimal(n / 10);
      DecimalRoundTrip(n / 10);
    }
  }

  /** Different numbers print differently. */
  lemma DecimalInjective(a: nat, b: nat)
    ensures Decimal(a) == Decimal(b) ==> a == b
  {
    DecimalRoundTrip(a);
    DecimalRoundTrip(b);
  }
}
