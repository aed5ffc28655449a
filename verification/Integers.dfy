/** Conversion between strings and integers (aux-src/pugixml/pugixml.cc:4477-4557 and 4608-4626). The
    parser accumulates modulo 2^32 or 2^64 and detects overflow afterwards, from the number of
    digits, the first digit and the highest bit. */
module Integers {
  import opened CStrings
  import opened N = Numerals

  /** A C string is read as its characters followed by a terminator. */
  function At(s: string, i: nat): char
    requires i <= |s|
  {
    if i < |s| then s[i] else NUL
  }

  // ---------- What a string means ----------

  function DigitValue(c: char): (d: nat)
    ensures d <= 16
  {
    if '0' <= c <= '9' then (c - '0') as nat
    else if 'a' <= c <= 'f' then (c - 'a') as nat + 10
    else if 'A' <= c <= 'F' then (c - 'A') as nat + 10
    else 16
  }

  predicate IsDigit(c: char, radix: nat) {
    DigitValue(c) < radix
  }

  /** x times a radix, which is 10 or 16. */
  function Times(x: nat, radix: nat): nat {
    if radix == 16 then x * 16 else x * 10
  }

  /** The number that a run of digits denotes. */
  ghost function Numeral(digits: string, radix: nat): nat {
    if digits == "" then 0 else Times(Numeral(digits[..|digits| - 1], radix), radix) + DigitValue(digits[|digits| - 1])
  }

  /** The longest prefix made of digits. */
  ghost function Digits(s: string, radix: nat): (d: string)
    ensures d <= s && (forall c :: c in d ==> IsDigit(c, radix)) && (|d| < |s| ==> !IsDigit(s[|d|], radix))
  {
    if s == "" || !IsDigit(s[0], radix) then "" else [s[0]] + Digits(s[1..], radix)
  }

  ghost function WithoutSpaces(s: string): string {
    if s != "" && IsSpace(s[0]) then WithoutSpaces(s[1..]) else s
  }

  ghost predicate HasHexPrefix(s: string) {
    |s| >= 2 && s[0] == '0' && (s[1] == 'x' || s[1] == 'X')
  }

  ghost function Unsigned(s: string): nat {
    if HasHexPrefix(s) then Numeral(Digits(s[2..], 16), 16) else Numeral(Digits(s, 10), 10)
  }

  /** Optional space, an optional sign, then decimal digits or 0x and hexadecimal digits; anything
      from the first other character on is ignored. */
  ghost function Meaning(s: string): int {
    var t := WithoutSpaces(s);
    if t != "" && t[0] == '-' then -(Unsigned(t[1..]) as int)
    else if t != "" && t[0] == '+' then Unsigned(t[1..])
    else Unsigned(t)
  }

  // ---------- Machine integers ----------

  /** 2 to the number of bits of an unsigned type of that many bytes. */
  ghost function Modulus(size: nat): (m: int)
    ensures m > 0
  {
    if size == 4 then 0x1_0000_0000 else 0x1_0000_0000_0000_0000
  }

  /** What remains of a number in an unsigned type of that many bytes. */
  function Wrapped(x: int, size: nat): int {
    if size == 4 then x % 0x1_0000_0000 else x % 0x1_0000_0000_0000_0000
  }

  ghost function Clamp(x: int, low: int, high: int): int {
    if x < low then low else if x > high then high else x
  }

  function Laps(q: int, size: nat): int {
    if size == 4 then q * 0x1_0000_0000 else q * 0x1_0000_0000_0000_0000
  }

  lemma WrapIs(x: int, size: nat) returns (q: int)
    ensures x == Laps(q, size) + Wrapped(x, size) && 0 <= Wrapped(x, size) < Laps(1, size)
  {
    q := if size == 4 then x / 0x1_0000_0000 else x / 0x1_0000_0000_0000_0000;
  }

  lemma WrapUnique(x: int, q: int, r: int, size: nat)
    requires x == Laps(q, size) + r && 0 <= r < Laps(1, size)
    ensures Wrapped(x, size) == r
  {
    hide Wrapped;
    var q' := WrapIs(x, size);
  }

  /** Multiplying and adding after wrapping loses nothing more. */
  lemma WrapStep(v: nat, radix: nat, d: nat, size: nat)
    ensures Wrapped(v, size) >= 0
    ensures Wrapped(Times(Wrapped(v, size), radix) + d, size) == Wrapped(Times(v, radix) + d, size)
  {
    hide Wrapped;
    var q := WrapIs(v, size);
    var p := WrapIs(Times(Wrapped(v, size), radix) + d, size);
    WrapUnique(Times(v, radix) + d, p + (if radix == 16 then 16 * q else 10 * q),
      Wrapped(Times(Wrapped(v, size), radix) + d, size), size);
  }

  // ---------- Bounds from the number of digits ----------

  /** A digit with e more behind it. */
  ghost function Scaled(d: nat, radix: nat, e: nat): nat {
    if e == 0 then d else Times(Scaled(d, radix, e - 1), radix)
  }

  lemma {:induction false} ScaledMonotone(c: nat, d: nat, radix: nat, e: nat)
    requires c <= d
    ensures Scaled(c, radix, e) <= Scaled(d, radix, e)
  {
    if e > 0 {
      ScaledMonotone(c, d, radix, e - 1);
    }
  }

  lemma {:induction false} ScaledLonger(d: nat, radix: nat, e: nat, f: nat)
    requires e <= f
    ensures Scaled(d, radix, e) <= Scaled(d, radix, f)
  {
    if e < f {
      ScaledLonger(d, radix, e, f - 1);
    }
  }

  lemma {:induction false} NumeralBound(digits: string, radix: nat)
    requires (radix == 10 || radix == 16) && forall i :: 0 <= i < |digits| ==> IsDigit(digits[i], radix)
    ensures Numeral(digits, radix) < Scaled(1, radix, |digits|)
  {
    if digits != "" {
      NumeralBound(digits[..|digits| - 1], radix);
    }
  }

  /** The first digit weighs as much as the number of digits behind it. */
  lemma {:induction false} NumeralHead(digits: string, radix: nat)
    requires digits != ""
    ensures Numeral(digits, radix) == Scaled(DigitValue(digits[0]), radix, |digits| - 1) + Numeral(digits[1..], radix)
  {
    var n := |digits|;
    if n > 1 {
      NumeralHead(digits[..n - 1], radix);
      assert digits[1..][..n - 2] == digits[..n - 1][1..];
    }
  }

  function MaxDigits10(size: nat): nat { if size == 8 then 20 else 10 }

  function MaxLead(size: nat): char { if size == 8 then '1' else '4' }

  /** Whether the source finds that accumulating these digits, the first of them not a zero, has
      overflowed, given the value modulo 2^bits that it has arrived at. */
  predicate Overflow(start: string, radix: nat, size: nat, result: int)
  {
    if radix == 16 then |start| > size * 2
    else |start| >= MaxDigits10(size) &&
         !(|start| == MaxDigits10(size) &&
           (start[0] < MaxLead(size) || (start[0] == MaxLead(size) &&
             result >= (if size == 8 then 0x8000_0000_0000_0000 else 0x8000_0000))))
  }

  lemma Powers()
    ensures Scaled(1, 10, 9) == 1_000_000_000 && Scaled(1, 10, 10) == 10_000_000_000
    ensures Scaled(1, 10, 19) == 10_000_000_000_000_000_000 && Scaled(1, 10, 20) == 100_000_000_000_000_000_000
    ensures Scaled(1, 16, 8) == 0x1_0000_0000 && Scaled(1, 16, 16) == 0x1_0000_0000_0000_0000
  {
  }

  /** The test is exact: it finds an overflow if and only if the number is 2^bits or more. */
  lemma OverflowIsExact(start: string, radix: nat, size: nat)
    requires size == 4 || size == 8
    requires radix == 10 || radix == 16
    requires (forall i :: 0 <= i < |start| ==> IsDigit(start[i], radix)) && (start != "" ==> start[0] != '0')
    ensures Overflow(start, radix, size, Wrapped(Numeral(start, radix), size)) <==>
            Numeral(start, radix) >= Modulus(size)
  {
    hide Numeral, Scaled, Wrapped;
    Powers();
    NumeralBound(start, radix);
    EmptyNumeral(radix, size);
    if start != "" {
      NumeralAtLeast(start, radix);
      if radix == 16 {
        ScaledLonger(1, 16, size * 2, if |start| > size * 2 then |start| - 1 else size * 2);
        ScaledLonger(1, 16, if |start| > size * 2 then 0 else |start|, size * 2);
      } else if |start| > MaxDigits10(size) {
        ScaledLonger(1, 10, MaxDigits10(size), |start| - 1);
      } else if |start| < MaxDigits10(size) {
        ScaledLonger(1, 10, |start|, MaxDigits10(size) - 1);
      } else {
        LeadDecides(start, size);
      }
    }
  }

  lemma NumeralAtLeast(start: string, radix: nat)
    requires start != "" && IsDigit(start[0], radix) && start[0] != '0' && radix <= 16
    ensures Numeral(start, radix) >= Scaled(1, radix, |start| - 1)
  {
    NumeralHead(start, radix);
    ScaledMonotone(1, DigitValue(start[0]), radix, |start| - 1);
  }

  /** With as many digits as the largest number has, the first digit and the highest bit decide. */
  lemma LeadDecides(start: string, size: nat)
    requires size == 4 || size == 8
    requires |start| == MaxDigits10(size) && (forall i :: 0 <= i < |start| ==> IsDigit(start[i], 10)) && start[0] != '0'
    ensures Overflow(start, 10, size, Wrapped(Numeral(start, 10), size)) <==> Numeral(start, 10) >= Modulus(size)
  {
    hide Numeral, Scaled;
    var d := DigitValue(start[0]);
    Powers();
    NumeralHead(start, 10);
    NumeralBound(start[1..], 10);
    Leads(d);
  }

  lemma Leads(d: nat)
    ensures Scaled(d, 10, 9) == d * 1_000_000_000 && Scaled(d, 10, 19) == d * 10_000_000_000_000_000_000
  {
    ScaledThree(d, 0);
    ScaledThree(d, 3);
    ScaledThree(d, 6);
    ScaledThree(d, 9);
    ScaledThree(d, 12);
    ScaledThree(d, 15);
    assert Scaled(d, 10, 19) == 10 * Scaled(d, 10, 18);
  }

  lemma ScaledThree(d: nat, e: nat)
    ensures Scaled(d, 10, e + 3) == 1000 * Scaled(d, 10, e)
    ensures Scaled(d, 10, 0) == d
  {
    assert Scaled(d, 10, e + 3) == 10 * Scaled(d, 10, e + 2);
    assert Scaled(d, 10, e + 2) == 10 * Scaled(d, 10, e + 1);
  }

  // ---------- The parser ----------

  lemma SpacesSkipped(s: string, i: nat)
    requires i <= |s|
    ensures IsSpace(At(s, i)) ==> WithoutSpaces(s[i..]) == WithoutSpaces(s[i + 1..])
    ensures !IsSpace(At(s, i)) ==> WithoutSpaces(s[i..]) == s[i..]
  {
    if i < |s| {
      assert s[i..][1..] == s[i + 1..];
    }
  }

  lemma {:induction false} LeadingZeros(s: string, radix: nat, i: nat)
    requires i <= |s| && (radix == 10 || radix == 16) && At(s, i) == '0'
    ensures Numeral(Digits(s[i..], radix), radix) == Numeral(Digits(s[i + 1..], radix), radix)
  {
    assert s[i..][1..] == s[i + 1..];
    var d := Digits(s[i + 1..], radix);
    assert Digits(s[i..], radix) == ['0'] + d;
    NumeralHead(['0'] + d, radix);
    assert (['0'] + d)[1..] == d;
    ScaledZero(radix, |d|);
  }

  lemma {:induction false} ScaledZero(radix: nat, e: nat)
    ensures Scaled(0, radix, e) == 0
  {
    if e > 0 {
      ScaledZero(radix, e - 1);
    }
  }

  lemma {:induction false} DigitsFrom(s: string, radix: nat, start: nat, i: nat)
    requires start <= i <= |s| && forall j :: start <= j < i ==> IsDigit(s[j], radix)
    requires !IsDigit(At(s, i), radix) && radix <= 16
    ensures Digits(s[start..], radix) == s[start..i]
    decreases i - start
  {
    if start < i {
      assert s[start..][1..] == s[start + 1..];
      DigitsFrom(s, radix, start + 1, i);
      assert [s[start]] + s[start + 1..i] == s[start..i];
    } else {
      assert start < |s| ==> s[start..][0] == s[start];
    }
  }

  lemma EmptyNumeral(radix: nat, size: nat)
    ensures Numeral("", radix) == Wrapped(Numeral("", radix), size) == 0
  {
  }

  lemma NumeralNext(s: string, radix: nat, start: nat, p: nat)
    requires start <= p < |s|
    ensures Numeral(s[start..p + 1], radix) == Times(Numeral(s[start..p], radix), radix) + DigitValue(s[p])
  {
    assert s[start..p + 1][..p - start] == s[start..p];
  }

  /** Reads the digits at i: their value modulo 2^bits, and the verdict on overflow. */
  method Accumulate(s: string, i: nat, radix: nat, size: nat) returns (result: int, overflow: bool)
    requires i <= |s| && (size == 4 || size == 8) && (radix == 10 || radix == 16)
    ensures result == Wrapped(Numeral(Digits(s[i..], radix), radix), size)
    ensures overflow <==> Numeral(Digits(s[i..], radix), radix) >= Modulus(size)
  {
    hide Numeral, Digits, Overflow, Modulus, Wrapped, Times;
    result := 0;
    EmptyNumeral(radix, size);
    var p := i;
    while At(s, p) == '0'
      invariant i <= p <= |s|
      invariant Numeral(Digits(s[i..], radix), radix) == Numeral(Digits(s[p..], radix), radix)
      decreases |s| - p
    {
      LeadingZeros(s, radix, p);
      p := p + 1;
    }
    var start := p;
    assert s[start..start] == "";
    while IsDigit(At(s, p), radix)
      invariant start <= p <= |s| && (forall j :: start <= j < p ==> IsDigit(s[j], radix))
      invariant result == Wrapped(Numeral(s[start..p], radix), size) >= 0
      decreases |s| - p
    {
      NumeralNext(s, radix, start, p);
      WrapStep(Numeral(s[start..p], radix), radix, DigitValue(s[p]), size);
      WrapStep(Times(Numeral(s[start..p], radix), radix) + DigitValue(s[p]), radix, 0, size);
      result := Wrapped(Times(result, radix) + DigitValue(s[p]), size);
      p := p + 1;
    }
    DigitsFrom(s, radix, start, p);
    OverflowIsExact(s[start..p], radix, size);
    overflow := Overflow(s[start..p], radix, size, result);
  }

  /** Optional sign: what follows it. */
  ghost function AfterSign(t: string): string {
    if t != "" && (t[0] == '-' || t[0] == '+') then t[1..] else t
  }

  lemma MeaningIs(s: string)
    ensures var t := WithoutSpaces(s);
            Meaning(s) == if t != "" && t[0] == '-' then 0 - Unsigned(AfterSign(t)) else Unsigned(AfterSign(t))
  {
  }

  lemma UnsignedIs(s: string, p: nat)
    requires p <= |s|
    ensures if At(s, p) == '0' && (At(s, p + 1) == 'x' || At(s, p + 1) == 'X')
            then p + 2 <= |s| && Unsigned(s[p..]) == Numeral(Digits(s[p + 2..], 16), 16)
            else Unsigned(s[p..]) == Numeral(Digits(s[p..], 10), 10)
  {
    if p + 2 <= |s| {
      assert s[p..][2..] == s[p + 2..];
    }
  }

  /** Negative results are two's complements, and minv is one of the least value. */
  lemma ClampIs(v: nat, minv: int, maxv: int, size: nat)
    requires size == 4 || size == 8
    requires 0 <= minv < Modulus(size) && 0 <= maxv < Modulus(size)
    ensures var over, low := v >= Modulus(size), Wrapped(0 - minv, size);
            Wrapped(Clamp(0 - v, -low, maxv), size) ==
              (if over || Wrapped(v, size) > low then minv else Wrapped(0 - Wrapped(v, size), size)) &&
            Wrapped(Clamp(v, -low, maxv), size) == (if over || Wrapped(v, size) > maxv then maxv else Wrapped(v, size))
  {
    hide Wrapped;
    var low := Wrapped(0 - minv, size);
    WrapUnique(0 - minv, if minv == 0 then 0 else -1, if minv == 0 then 0 else Modulus(size) - minv, size);
    WrapUnique(-low, if minv == 0 then 0 else -1, minv, size);
    WrapUnique(maxv, 0, maxv, size);
    var q := WrapIs(v, size);
    if v < Modulus(size) {
      WrapUnique(v, 0, v, size);
    }
  }

  /** The value of the string clamped to [min, max], where min is the negative number of which minv
      is the two's complement (0 for unsigned types); negative results are two's complements too. */
  method StringToInteger(s: string, minv: int, maxv: int, size: nat) returns (r: int)
    requires size == 4 || size == 8
    requires 0 <= minv < Modulus(size) && 0 <= maxv < Modulus(size)
    ensures r == Wrapped(Clamp(Meaning(s), -Wrapped(0 - minv, size), maxv), size)
  {
    hide Meaning, Unsigned, Numeral, Digits, Clamp, Wrapped, WithoutSpaces, Modulus;
    var p := 0;
    assert s[0..] == s;
    while IsSpace(At(s, p))
      invariant 0 <= p <= |s| && WithoutSpaces(s) == WithoutSpaces(s[p..])
      decreases |s| - p
    {
      SpacesSkipped(s, p);
      p := p + 1;
    }
    SpacesSkipped(s, p);
    MeaningIs(s);
    ghost var t := s[p..];
    var negative := At(s, p) == '-';
    if At(s, p) == '+' || At(s, p) == '-' {
      assert t[1..] == s[p + 1..];
      p := p + 1;
    }
    assert s[p..] == AfterSign(t);
    UnsignedIs(s, p);
    ClampIs(Unsigned(s[p..]), minv, maxv, size);
    var result, overflow;
    if At(s, p) == '0' && (At(s, p + 1) == 'x' || At(s, p + 1) == 'X') {
      result, overflow := Accumulate(s, p + 2, 16, size);
    } else {
      result, overflow := Accumulate(s, p, 10, size);
    }
    if negative {
      r := if overflow || result > Wrapped(0 - minv, size) then minv else Wrapped(0 - result, size);
    } else {
      r := if overflow || result > maxv then maxv else result;
    }
  }

  // ---------- Every way to write a number ----------

  const BLANKS := " \t\r\n"

  lemma ShownDigit(d: N.Digit, radix: nat)
    requires (radix == 10 || radix == 16) && d.value < radix
    ensures DigitValue(N.Show(d)) == d.value && N.Show(d) !in BLANKS + "+-xX"
  {
  }

  lemma DigitIsShown(c: char, radix: nat)
    requires (radix == 10 || radix == 16) && IsDigit(c, radix)
    ensures N.IsShown(c, radix)
  {
    var d := DigitValue(c);
    assert N.LOWER[..radix][d] == N.LOWER[d] && N.UPPER[..radix][d] == N.UPPER[d];
    assert c == N.LOWER[d] || c == N.UPPER[d];
  }

  lemma OtherCharacter(c: char, radix: nat)
    requires (radix == 10 || radix == 16) && !N.IsShown(c, radix)
    ensures !IsDigit(c, radix)
  {
    if IsDigit(c, radix) {
      DigitIsShown(c, radix);
      assert false;
    }
  }

  lemma {:induction false} ShownNumeral(ds: seq<N.Digit>, radix: nat)
    requires N.AreDigits(ds, radix)
    ensures Numeral(N.Shown(ds), radix) == N.Value(ds, radix)
  {
    hide DigitValue;
    if ds != [] {
      var n := |ds| - 1;
      ShownNumeral(ds[..n], radix);
      assert N.Shown(ds)[..n] == N.Shown(ds[..n]);
      ShownDigit(ds[n], radix);
    }
  }

  /** The digits end where no digit of the radix follows. */
  lemma ShownDigits(ds: seq<N.Digit>, rest: string, radix: nat)
    requires N.AreDigits(ds, radix) && (rest == "" || !N.IsShown(rest[0], radix))
    ensures Digits(N.Shown(ds) + rest, radix) == N.Shown(ds)
  {
    hide DigitValue;
    var s := N.Shown(ds) + rest;
    forall i | 0 <= i < |ds|
      ensures IsDigit(s[i], radix)
    {
      ShownDigit(ds[i], radix);
    }
    if rest != "" {
      OtherCharacter(rest[0], radix);
      assert At(s, |ds|) == rest[0];
    } else {
      OtherCharacter(NUL, radix);
    }
    DigitsFrom(s, radix, 0, |ds|);
    assert s[0..] == s && s[0..|ds|] == N.Shown(ds);
  }

  /** How digits of that radix may be announced. */
  predicate IsPrefix(prefix: string, radix: nat) {
    if radix == 16 then prefix == "0x" || prefix == "0X" else prefix == ""
  }

  lemma HexadecimalUnsigned(prefix: string, t: string)
    requires IsPrefix(prefix, 16)
    ensures Unsigned(prefix + t) == Numeral(Digits(t, 16), 16)
  {
    hide Digits, Numeral;
    assert (prefix + t)[2..] == t;
  }

  lemma DecimalUnsignedOf(ds: seq<N.Digit>, rest: string)
    requires N.AreDigits(ds, 10) && ds != []
    requires N.Shown(ds) == "0" && rest != "" ==> rest[0] != 'x' && rest[0] != 'X'
    ensures Unsigned(N.Shown(ds) + rest) == Numeral(Digits(N.Shown(ds) + rest, 10), 10)
  {
    hide Digits, Numeral, DigitValue;
    if |ds| > 1 {
      ShownDigit(ds[1], 10);
    }
  }

  lemma ShownUnsigned(prefix: string, ds: seq<N.Digit>, rest: string, radix: nat)
    requires N.AreDigits(ds, radix) && ds != [] && IsPrefix(prefix, radix)
    requires rest == "" || !N.IsShown(rest[0], radix)
    requires radix == 10 && N.Shown(ds) == "0" && rest != "" ==> rest[0] != 'x' && rest[0] != 'X'
    ensures Unsigned(prefix + (N.Shown(ds) + rest)) == N.Value(ds, radix)
  {
    hide Digits, Numeral, Unsigned, N.IsShown, DigitValue;
    ShownNumeral(ds, radix);
    ShownDigits(ds, rest, radix);
    if radix == 16 {
      HexadecimalUnsigned(prefix, N.Shown(ds) + rest);
    } else {
      DecimalUnsignedOf(ds, rest);
      assert prefix + (N.Shown(ds) + rest) == N.Shown(ds) + rest;
    }
  }

  lemma {:induction false} BlanksSkipped(blanks: string, t: string)
    requires forall c :: c in blanks ==> c in BLANKS
    requires t == "" || t[0] !in BLANKS
    ensures WithoutSpaces(blanks + t) == t
  {
    if blanks == "" {
      assert blanks + t == t;
    } else {
      BlanksSkipped(blanks[1..], t);
      assert (blanks + t)[1..] == blanks[1..] + t && blanks[0] in blanks;
    }
  }

  /** Any number of blanks, a sign or none, 0x in either case for hexadecimal digits, the digits in
      either case with any number of zeros in front, and anything that does not go on: it denotes the
      value of the digits. Only a lone 0 before an x is not a decimal number. */
  lemma WrittenMeaning(blanks: string, sign: string, prefix: string, ds: seq<N.Digit>, rest: string, radix: nat)
    requires forall c :: c in blanks ==> c in BLANKS
    requires sign in {"", "+", "-"} && IsPrefix(prefix, radix)
    requires N.AreDigits(ds, radix) && ds != [] && (rest == "" || !N.IsShown(rest[0], radix))
    requires radix == 10 && N.Shown(ds) == "0" && rest != "" ==> rest[0] != 'x' && rest[0] != 'X'
    ensures Meaning(blanks + (sign + (prefix + (N.Shown(ds) + rest)))) ==
            if sign == "-" then 0 - N.Value(ds, radix) else N.Value(ds, radix)
  {
    hide Unsigned, WithoutSpaces, DigitValue;
    var u := prefix + (N.Shown(ds) + rest);
    ShownUnsigned(prefix, ds, rest, radix);
    ShownDigit(ds[0], radix);
    assert u[0] !in BLANKS && u[0] != '+' && u[0] != '-';
    BlanksSkipped(blanks, sign + u);
    if sign == "" {
      assert sign + u == u;
    } else {
      assert (sign + u)[1..] == u;
    }
  }

  /** What does not begin like a number is none. */
  lemma NoNumber(blanks: string, t: string)
    requires forall c :: c in blanks ==> c in BLANKS
    requires t == "" || (t[0] !in BLANKS + "+-" && !N.IsShown(t[0], 10))
    ensures Meaning(blanks + t) == 0
  {
    BlanksSkipped(blanks, t);
    if t != "" {
      OtherCharacter(t[0], 10);
    }
  }

  /** Hexadecimal digits of either case give the number back, and so does decimal. */
  lemma HexadecimalMeaning(n: nat, upper: bool)
    ensures Meaning("0x" + N.Shown(N.DigitsOf(n, 16, upper))) == n
    ensures Meaning("0X" + N.Shown(N.DigitsOf(n, 16, upper))) == n
  {
    hide Meaning;
    var ds := N.DigitsOf(n, 16, upper);
    N.DigitsOfValue(n, 16, upper);
    forall prefix: string | IsPrefix(prefix, 16)
      ensures Meaning(prefix + N.Shown(ds)) == n
    {
      WrittenMeaning("", "", prefix, ds, "", 16);
      assert "" + ("" + (prefix + (N.Shown(ds) + ""))) == prefix + N.Shown(ds);
    }
  }

  /** Parsing hexadecimal digits gives every number that is representable. */
  lemma HexadecimalReadsBack(n: nat, upper: bool, minv: int, maxv: int, size: nat)
    requires n <= maxv
    ensures Wrapped(Clamp(Meaning("0x" + N.Shown(N.DigitsOf(n, 16, upper))), -Wrapped(0 - minv, size), maxv), size) ==
            Wrapped(n, size)
  {
    HexadecimalMeaning(n, upper);
  }

  lemma CaseOfDigit(c: char, d: char)
    requires N.SameButCase(c, d)
    ensures DigitValue(c) == DigitValue(d) && (IsSpace(c) <==> IsSpace(d))
    ensures (c == '0' <==> d == '0') && (c == '+' <==> d == '+') && (c == '-' <==> d == '-')
    ensures (c == 'x' || c == 'X') <==> (d == 'x' || d == 'X')
  {
  }

  ghost predicate SameText(s: string, t: string) {
    |s| == |t| && forall i :: 0 <= i < |s| ==> N.SameButCase(s[i], t[i])
  }

  lemma {:induction false} CaseOfDigits(s: string, t: string, radix: nat)
    requires SameText(s, t)
    ensures SameText(Digits(s, radix), Digits(t, radix))
  {
    hide DigitValue, N.SameButCase;
    if s != "" {
      CaseOfDigit(s[0], t[0]);
      CaseOfDigits(s[1..], t[1..], radix);
    }
  }

  lemma {:induction false} CaseOfNumeral(s: string, t: string, radix: nat)
    requires SameText(s, t)
    ensures Numeral(s, radix) == Numeral(t, radix)
  {
    hide DigitValue, N.SameButCase;
    if s != "" {
      CaseOfDigit(s[|s| - 1], t[|t| - 1]);
      CaseOfNumeral(s[..|s| - 1], t[..|t| - 1], radix);
    }
  }

  lemma {:induction false} CaseOfSpaces(s: string, t: string)
    requires SameText(s, t)
    ensures SameText(WithoutSpaces(s), WithoutSpaces(t))
  {
    hide DigitValue, N.SameButCase;
    if s != "" {
      CaseOfDigit(s[0], t[0]);
      CaseOfSpaces(s[1..], t[1..]);
    }
  }

  lemma CaseOfUnsigned(s: string, t: string)
    requires SameText(s, t)
    ensures Unsigned(s) == Unsigned(t)
  {
    hide DigitValue, N.SameButCase, Numeral, Digits;
    if |s| >= 2 {
      CaseOfDigit(s[0], t[0]);
      CaseOfDigit(s[1], t[1]);
      CaseOfDigits(s[2..], t[2..], 16);
      CaseOfNumeral(Digits(s[2..], 16), Digits(t[2..], 16), 16);
    }
    CaseOfDigits(s, t, 10);
    CaseOfNumeral(Digits(s, 10), Digits(t, 10), 10);
  }

  /** Letter case makes no difference to the meaning of a string. */
  lemma CaseMakesNoDifference(s: string, t: string)
    requires SameText(s, t)
    ensures Meaning(s) == Meaning(t)
  {
    hide DigitValue, N.SameButCase, Unsigned, WithoutSpaces;
    CaseOfSpaces(s, t);
    var s', t' := WithoutSpaces(s), WithoutSpaces(t);
    CaseOfUnsigned(s', t');
    if s' != "" {
      CaseOfDigit(s'[0], t'[0]);
      CaseOfUnsigned(s'[1..], t'[1..]);
    }
  }

  /** The result of clamping is in range, and no number in range is nearer. */
  lemma ClampIsNearest(x: int, low: int, high: int, y: int)
    requires low <= y <= high
    ensures low <= Clamp(x, low, high) <= high
    ensures (if x < Clamp(x, low, high) then Clamp(x, low, high) - x else x - Clamp(x, low, high)) <=
            if x < y then y - x else x - y
  {
  }

  // ---------- The printer ----------

  function DigitChar(d: nat): (c: char)
    requires d < 10
    ensures DigitValue(c) == d && '0' <= c <= '9'
  {
    '0' + d as char
  }

  ghost function Decimal(n: nat): (s: string)
    ensures s != "" && forall i :: 0 <= i < |s| ==> '0' <= s[i] <= '9'
  {
    if n < 10 then [DigitChar(n)] else Decimal(n / 10) + [DigitChar(n % 10)]
  }

  ghost function Text(x: int): string {
    if x < 0 then "-" + Decimal(-x) else Decimal(x)
  }

  lemma {:induction false} DecimalIsShown(n: nat, upper: bool)
    ensures Decimal(n) == N.Shown(N.DigitsOf(n, 10, upper))
  {
    if n >= 10 {
      DecimalIsShown(n / 10, upper);
    }
  }

  lemma {:induction false} DecimalNumeral(n: nat)
    ensures Numeral(Decimal(n), 10) == n
  {
    if n < 10 {
      assert Decimal(n)[..0] == "";
    } else {
      DecimalNumeral(n / 10);
      assert Decimal(n)[..|Decimal(n)| - 1] == Decimal(n / 10);
    }
  }

  lemma {:induction false} AllDigits(s: string)
    requires forall i :: 0 <= i < |s| ==> IsDigit(s[i], 10)
    ensures Digits(s, 10) == s
  {
    if s != "" {
      AllDigits(s[1..]);
    }
  }

  /** The printed form of an integer means that integer. */
  lemma PrintedMeaning(x: int)
    ensures Meaning(Text(x)) == x
  {
    hide Decimal, Unsigned;
    var n: nat := if x < 0 then -x else x;
    DecimalUnsigned(n);
    assert x < 0 ==> Text(x)[1..] == Decimal(n);
    StartsAtOnce(Text(x));
  }

  lemma StartsAtOnce(s: string)
    requires s != "" && !IsSpace(s[0])
    ensures WithoutSpaces(s) == s
  {
  }

  lemma DecimalUnsigned(n: nat)
    ensures Unsigned(Decimal(n)) == n
  {
    hide Decimal, Numeral, Digits;
    DecimalNumeral(n);
    AllDigits(Decimal(n));
  }

  /** Parsing the printed form of a representable integer gives that integer back. */
  lemma PrintedReadsBack(x: int, minv: int, maxv: int, size: nat)
    requires -Wrapped(0 - minv, size) <= x <= maxv
    ensures Wrapped(Clamp(Meaning(Text(x)), -Wrapped(0 - minv, size), maxv), size) == Wrapped(x, size)
  {
    PrintedMeaning(x);
  }

  lemma {:induction false} DecimalLength(n: nat, e: nat)
    requires 1 <= e && n < Scaled(1, 10, e)
    ensures |Decimal(n)| <= e
  {
    if n >= 10 {
      assert Scaled(1, 10, 0) == 1;
      DecimalLength(n / 10, e - 1);
    }
  }

  /** Writes the digits from the end of the buffer backwards and then the sign, which is left out of
      the result when it is not wanted. The integer x is passed as its two's complement. */
  method IntegerToString(buf: array<char>, value: int, negative: bool, size: nat, ghost x: int) returns (begin: nat)
    requires size == 4 || size == 8
    requires buf.Length == 64 && value == Wrapped(x, size) && negative == (x < 0) && -Modulus(size) < x < Modulus(size)
    modifies buf
    ensures begin <= buf.Length && buf[begin..] == Text(x)
  {
    hide Scaled, Wrapped, Decimal;
    ghost var n: nat := if x < 0 then -x else x;
    WrapUnique(x, if x < 0 then -1 else 0, if x < 0 then x + Modulus(size) else x, size);
    WrapUnique(0 - value, if value == 0 then 0 else -1, if value == 0 then 0 else Modulus(size) - value, size);
    Powers();
    DecimalLength(n, 20);
    var rest: int := if negative then Wrapped(0 - value, size) else value;
    var result := WriteDigits(buf, rest);
    buf[result] := '-';
    assert buf[result..] == ['-'] + buf[result + 1..];
    begin := if negative then result else result + 1;
  }

  /** The digits still to be written when r is left. */
  ghost function Left(r: nat): string {
    if r == 0 then "" else Decimal(r)
  }

  lemma OneDigit(r: nat)
    ensures Decimal(r) == Left(r / 10) + [DigitChar(r % 10)]
  {
  }

  lemma NoneLeft()
    ensures Left(0) == ""
  {
  }

  /** The last digit left goes in front of those written. */
  lemma DigitMoves(n: nat, rest: nat, tail: string)
    requires rest > 0 && Decimal(n) == Left(rest) + tail && |Decimal(n)| <= 20
    ensures Decimal(n) == Left(rest / 10) + ([DigitChar(rest % 10)] + tail) && |tail| < 20
  {
    hide Decimal, DigitChar;
    OneDigit(rest);
    assert Left(rest / 10) + [DigitChar(rest % 10)] + tail == Left(rest / 10) + ([DigitChar(rest % 10)] + tail);
  }

  /** The do-while loop: writes the digits of n backwards from the end. */
  method WriteDigits(buf: array<char>, n: nat) returns (result: nat)
    requires buf.Length == 64 && |Decimal(n)| <= 20
    modifies buf
    ensures 0 < result + 1 <= 63 && buf[result + 1..] == Decimal(n)
  {
    hide Decimal, DigitChar, Left;
    OneDigit(n);
    NoneLeft();
    result := 63;
    buf[result] := DigitChar(n % 10);
    assert buf[result..] == [DigitChar(n % 10)];
    result := result - 1;
    var rest := n / 10;
    while rest != 0
      invariant rest >= 0 && 0 <= result <= 62
      invariant Decimal(n) == Left(rest) + buf[result + 1..]
      decreases rest
    {
      ghost var tail := buf[result + 1..];
      DigitMoves(n, rest, tail);
      buf[result] := DigitChar(rest % 10);
      assert buf[result..] == [DigitChar(rest % 10)] + tail;
      result := result - 1;
      rest := rest / 10;
    }
  }
}
