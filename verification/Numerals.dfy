/** Numbers written with the digits 0 to 9 and a to f, in either letter case. */
module Numerals {
  const LOWER := "0123456789abcdef"
  const UPPER := "0123456789ABCDEF"

  datatype Digit = Digit(value: nat, upper: bool)

  predicate AreDigits(ds: seq<Digit>, radix: nat) {
    (radix == 10 || radix == 16) && forall i :: 0 <= i < |ds| ==> ds[i].value < radix
  }

  function Show(d: Digit): (c: char)
    requires d.value < 16
  {
    if d.upper then UPPER[d.value] else LOWER[d.value]
  }

  function Shown(ds: seq<Digit>): (s: string)
    requires AreDigits(ds, 16)
    ensures |s| == |ds| && forall i :: 0 <= i < |ds| ==> s[i] == Show(ds[i])
  {
    seq(|ds|, i requires 0 <= i < |ds| => Show(ds[i]))
  }

  /** The number that the digits denote. */
  function Value(ds: seq<Digit>, radix: nat): nat {
    if ds == [] then 0
    else (if radix == 16 then 16 else 10) * Value(ds[..|ds| - 1], radix) + ds[|ds| - 1].value
  }

  /** The digits of n, all in one letter case, without leading zeros. */
  function DigitsOf(n: nat, radix: nat, upper: bool): (ds: seq<Digit>)
    requires radix == 10 || radix == 16
    ensures ds != [] && AreDigits(ds, radix)
  {
    if n < radix then [Digit(n, upper)] else DigitsOf(n / radix, radix, upper) + [Digit(n % radix, upper)]
  }

  lemma {:induction false} DigitsOfValue(n: nat, radix: nat, upper: bool)
    requires radix == 10 || radix == 16
    ensures Value(DigitsOf(n, radix, upper), radix) == n
  {
    var ds := DigitsOf(n, radix, upper);
    if n < radix {
      assert ds[..0] == [];
    } else {
      DigitsOfValue(n / radix, radix, upper);
      assert ds[..|ds| - 1] == DigitsOf(n / radix, radix, upper);
    }
  }

  /** c is one of the digits of that radix. */
  predicate IsShown(c: char, radix: nat)
    requires radix == 10 || radix == 16
  {
    c in LOWER[..radix] || c in UPPER[..radix]
  }

  /** The same character, or the same letter in the other case. */
  predicate SameButCase(c: char, d: char) {
    c == d || ('a' <= c <= 'z' && d == c - 'a' + 'A') || ('a' <= d <= 'z' && c == d - 'a' + 'A')
  }
}
