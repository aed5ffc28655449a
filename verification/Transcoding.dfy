/** The Unicode decoders, counters and writers (aux-src/pugixml/pugixml.cc:1434-1755) and the two-pass
    conversion built from them (2174-2243). A decoder reports each character to a "traits" class,
    which either counts output units or writes them; here the traits are a pair of functions on the
    result so far, which for a writer is what it has written. */
module Transcoding {

  /** What a decoder reports: a character below U+10000, or one from there on. */
  datatype Call = Low(ch: bv32) | High(ch: bv32)

  ghost function Fold<R>(calls: seq<Call>, result: R, low: (R, bv32) -> R, high: (R, bv32) -> R): R {
    if calls == [] then result
    else Fold(calls[1..], if calls[0].Low? then low(result, calls[0].ch) else high(result, calls[0].ch), low, high)
  }

  lemma {:induction false} FoldConcat<R>(a: seq<Call>, b: seq<Call>, result: R, low: (R, bv32) -> R,
                                         high: (R, bv32) -> R)
    ensures Fold(a + b, result, low, high) == Fold(b, Fold(a, result, low, high), low, high)
  {
    if a == [] {
      assert a + b == b;
    } else {
      assert (a + b)[1..] == a[1..] + b;
      FoldConcat(a[1..], b, if a[0].Low? then low(result, a[0].ch) else high(result, a[0].ch), low, high);
    }
  }

  // ---------- Counters and writers ----------

  function Utf8CountLow(result: nat, ch: bv32): nat {
    if ch < 0x80 then result + 1 else if ch < 0x800 then result + 2 else result + 3
  }

  function Utf8CountHigh(result: nat, ch: bv32): nat {
    result + 4
  }

  function Byte(x: bv32): bv8 {
    (x & 0xFF) as bv8
  }

  function Utf8WriteLow(result: seq<bv8>, ch: bv32): seq<bv8> {
    result +
    if ch < 0x80 then [Byte(ch)]
    else if ch < 0x800 then [Byte(0xC0 | (ch >> 6)), Byte(0x80 | (ch & 0x3F))]
    else [Byte(0xE0 | (ch >> 12)), Byte(0x80 | ((ch >> 6) & 0x3F)), Byte(0x80 | (ch & 0x3F))]
  }

  function Utf8WriteHigh(result: seq<bv8>, ch: bv32): seq<bv8> {
    result + [Byte(0xF0 | (ch >> 18)), Byte(0x80 | ((ch >> 12) & 0x3F)), Byte(0x80 | ((ch >> 6) & 0x3F)),
      Byte(0x80 | (ch & 0x3F))]
  }

  function Utf16CountLow(result: nat, ch: bv32): nat {
    result + 1
  }

  function Utf16CountHigh(result: nat, ch: bv32): nat {
    result + 2
  }

  function Unit(x: bv32): bv16 {
    (x & 0xFFFF) as bv16
  }

  function Utf16WriteLow(result: seq<bv16>, ch: bv32): seq<bv16> {
    result + [Unit(ch)]
  }

  /** The two halves of a character from U+10000 on. */
  function Msh(ch: bv32): bv32 {
    (ch - 0x10000) >> 10
  }

  function Lsh(ch: bv32): bv32 {
    (ch - 0x10000) & 0x3FF
  }

  function LeadFrom(msh: bv32): bv16 {
    Unit(0xD800 + msh)
  }

  function TrailFrom(lsh: bv32): bv16 {
    Unit(0xDC00 + lsh)
  }

  function LeadUnit(ch: bv32): bv16 {
    LeadFrom(Msh(ch))
  }

  function TrailUnit(ch: bv32): bv16 {
    TrailFrom(Lsh(ch))
  }

  function Utf16WriteHigh(result: seq<bv16>, ch: bv32): seq<bv16> {
    result + [LeadUnit(ch), TrailUnit(ch)]
  }

  ghost function Utf8Count(calls: seq<Call>): nat {
    Fold<nat>(calls, 0, Utf8CountLow, Utf8CountHigh)
  }

  ghost function Utf8Written(calls: seq<Call>): seq<bv8> {
    Fold(calls, [], Utf8WriteLow, Utf8WriteHigh)
  }

  ghost function Utf16Count(calls: seq<Call>): nat {
    Fold<nat>(calls, 0, Utf16CountLow, Utf16CountHigh)
  }

  ghost function Utf16Written(calls: seq<Call>): seq<bv16> {
    Fold(calls, [], Utf16WriteLow, Utf16WriteHigh)
  }

  /** Whatever a decoder reports, for malformed input as well, the counting pass arrives at the
      number of units the writing pass emits. */
  lemma CountIsLength(calls: seq<Call>)
    ensures Utf8Count(calls) == |Utf8Written(calls)|
    ensures Utf16Count(calls) == |Utf16Written(calls)|
  {
    CountFrom8(calls, []);
    CountFrom16(calls, []);
  }

  lemma {:induction false} CountFrom8(calls: seq<Call>, out: seq<bv8>)
    ensures Fold<nat>(calls, |out|, Utf8CountLow, Utf8CountHigh) == |Fold(calls, out, Utf8WriteLow, Utf8WriteHigh)|
  {
    if calls != [] {
      var c := calls[0];
      CountFrom8(calls[1..], if c.Low? then Utf8WriteLow(out, c.ch) else Utf8WriteHigh(out, c.ch));
    }
  }

  lemma {:induction false} CountFrom16(calls: seq<Call>, out: seq<bv16>)
    ensures Fold<nat>(calls, |out|, Utf16CountLow, Utf16CountHigh) == |Fold(calls, out, Utf16WriteLow, Utf16WriteHigh)|
  {
    if calls != [] {
      var c := calls[0];
      CountFrom16(calls[1..], if c.Low? then Utf16WriteLow(out, c.ch) else Utf16WriteHigh(out, c.ch));
    }
  }

  // ---------- UTF-8 decoding ----------

  function Continuation(b: bv8): bool {
    b & 0xC0 == 0x80
  }

  function Low6(b: bv8): bv32 {
    (b & 0x3F) as bv32
  }

  function Join2(lead: bv32, b: bv8): bv32 {
    ((lead & !0xC0) << 6) | Low6(b)
  }

  function Join3(lead: bv32, b: bv8, c: bv8): bv32 {
    ((lead & !0xE0) << 12) | (Low6(b) << 6) | Low6(c)
  }

  function Join4(lead: bv32, b: bv8, c: bv8, d: bv8): bv32 {
    ((lead & !0xF0) << 18) | (Low6(b) << 12) | (Low6(c) << 6) | Low6(d)
  }

  /** The length of the sequence at the start of the data, and what is reported for it: nothing for
      a byte that starts no sequence. */
  function Utf8Next(data: seq<bv8>): (r: (nat, seq<Call>))
    requires data != []
    ensures 1 <= r.0 <= |data|
  {
    var lead, size := data[0] as bv32, |data|;
    if lead < 0x80 then (1, [Low(lead)])
    else if lead - 0xC0 < 0x20 && size >= 2 && Continuation(data[1]) then
      (2, [Low(Join2(lead, data[1]))])
    else if lead - 0xE0 < 0x10 && size >= 3 && Continuation(data[1]) && Continuation(data[2]) then
      (3, [Low(Join3(lead, data[1], data[2]))])
    else if lead - 0xF0 < 0x08 && size >= 4 && Continuation(data[1]) && Continuation(data[2]) &&
      Continuation(data[3]) then
      (4, [High(Join4(lead, data[1], data[2], data[3]))])
    else (1, [])
  }

  /** What the byte-wise loop reports. */
  ghost function Utf8Calls(data: seq<bv8>): seq<Call> {
    if data == [] then [] else Utf8Next(data).1 + Utf8Calls(data[Utf8Next(data).0..])
  }

  lemma FoldNext<R>(data: seq<bv8>, result: R, low: (R, bv32) -> R, high: (R, bv32) -> R)
    requires data != []
    ensures var next := Utf8Next(data);
            Fold(Utf8Calls(data), result, low, high) ==
            Fold(Utf8Calls(data[next.0..]),
                 if next.1 == [] then result
                 else if next.1[0].Low? then low(result, next.1[0].ch) else high(result, next.1[0].ch), low, high)
  {
    FoldConcat(Utf8Next(data).1, Utf8Calls(data[Utf8Next(data).0..]), result, low, high);
  }

  /** The four bytes at i read as one 32-bit word, least significant first. */
  function Word(data: seq<bv8>, i: nat): bv32
    requires i + 4 <= |data|
  {
    (data[i] as bv32) | ((data[i + 1] as bv32) << 8) | ((data[i + 2] as bv32) << 16) | ((data[i + 3] as bv32) << 24)
  }

  lemma AsciiWord(a: bv8, b: bv8, c: bv8, d: bv8)
    ensures ((a as bv32) | ((b as bv32) << 8) | ((c as bv32) << 16) | ((d as bv32) << 24)) & 0x80808080 == 0 <==>
            a < 0x80 && b < 0x80 && c < 0x80 && d < 0x80
  {
  }

  lemma AsciiNext<R>(data: seq<bv8>, i: nat, result: R, low: (R, bv32) -> R, high: (R, bv32) -> R)
    requires i < |data| && data[i] < 0x80
    ensures Fold(Utf8Calls(data[i..]), result, low, high) ==
            Fold(Utf8Calls(data[i + 1..]), low(result, data[i] as bv32), low, high)
  {
    FoldNext(data[i..], result, low, high);
    assert data[i..][1..] == data[i + 1..];
  }

  /** The decoder with its fast path: after an ASCII byte, at addresses divisible by four, whole
      words of ASCII are taken four bytes at a time. The result does not depend on the address at
      which the data starts: it is that of the byte-wise loop. */
  method Utf8Process<R>(data: seq<bv8>, address: nat, result: R, low: (R, bv32) -> R, high: (R, bv32) -> R)
      returns (r: R)
    ensures r == Fold(Utf8Calls(data), result, low, high)
  {
    hide Utf8Calls, Fold, Utf8Next, Word;
    r := result;
    var i := 0;
    assert data[0..] == data;
    while i < |data|
      invariant 0 <= i <= |data|
      invariant Fold(Utf8Calls(data[i..]), r, low, high) == Fold(Utf8Calls(data), result, low, high)
    {
      if data[i] < 0x80 {
        AsciiNext(data, i, r, low, high);
        r := low(r, data[i] as bv32);
        i := i + 1;
        if (address + i) % 4 == 0 {
          while |data| - i >= 4 && Word(data, i) & 0x80808080 == 0
            invariant 0 <= i <= |data|
            invariant Fold(Utf8Calls(data[i..]), r, low, high) == Fold(Utf8Calls(data), result, low, high)
          {
            AsciiBlock(data, i);
            AsciiNext(data, i, r, low, high);
            r := low(r, data[i] as bv32);
            AsciiNext(data, i + 1, r, low, high);
            r := low(r, data[i + 1] as bv32);
            AsciiNext(data, i + 2, r, low, high);
            r := low(r, data[i + 2] as bv32);
            AsciiNext(data, i + 3, r, low, high);
            r := low(r, data[i + 3] as bv32);
            i := i + 4;
          }
        }
      } else {
        var next := Utf8Next(data[i..]);
        FoldNext(data[i..], r, low, high);
        assert data[i..][next.0..] == data[i + next.0..];
        if next.1 != [] {
          r := if next.1[0].Low? then low(r, next.1[0].ch) else high(r, next.1[0].ch);
        }
        i := i + next.0;
      }
    }
    AllDone(data, i, r, low, high);
  }

  lemma AsciiBlock(data: seq<bv8>, i: nat)
    requires i + 4 <= |data| && Word(data, i) & 0x80808080 == 0
    ensures data[i] < 0x80 && data[i + 1] < 0x80 && data[i + 2] < 0x80 && data[i + 3] < 0x80
  {
    AsciiWord(data[i], data[i + 1], data[i + 2], data[i + 3]);
  }

  lemma AllDone<R>(data: seq<bv8>, i: nat, r: R, low: (R, bv32) -> R, high: (R, bv32) -> R)
    requires i == |data|
    ensures Fold(Utf8Calls(data[i..]), r, low, high) == r
  {
  }

  // ---------- UTF-16, UTF-32 and Latin-1 decoding ----------

  function EndianSwap16(v: bv16): bv16 {
    ((v & 0xFF) << 8) | (v >> 8)
  }

  function Swap16(v: bv16, swap: bool): bv16 {
    if swap then EndianSwap16(v) else v
  }

  lemma SwapTwice(v: bv16, swap: bool)
    ensures Swap16(Swap16(v, swap), swap) == v
  {
  }

  function Native(v: bv16, swap: bool): bv32 {
    Swap16(v, swap) as bv32
  }

  predicate BelowSurrogates(lead: bv32) {
    lead < 0xD800
  }

  predicate AboveSurrogates(lead: bv32) {
    lead - 0xE000 < 0x2000
  }

  predicate StandsAlone(lead: bv32) {
    BelowSurrogates(lead) || AboveSurrogates(lead)
  }

  predicate IsTrail(next: bv32) {
    next - 0xDC00 < 0x400
  }

  /** A lead surrogate: what the decoder's first two tests leave for the third. */
  predicate IsLead(lead: bv32) {
    !BelowSurrogates(lead) && !AboveSurrogates(lead) && lead - 0xD800 < 0x400
  }

  function Low10(x: bv32): bv32 {
    x & 0x3FF
  }

  function Join(msh: bv32, lsh: bv32): bv32 {
    0x10000 + (msh << 10) + lsh
  }

  function JoinPair(lead: bv32, next: bv32): bv32 {
    Join(Low10(lead), Low10(next))
  }

  function Utf16Next(data: seq<bv16>, swap: bool): (r: (nat, seq<Call>))
    requires data != []
    ensures 1 <= r.0 <= |data|
  {
    var lead := Native(data[0], swap);
    if BelowSurrogates(lead) then (1, [Low(lead)])
    else if AboveSurrogates(lead) then (1, [Low(lead)])
    else if lead - 0xD800 < 0x400 && |data| >= 2 then
      var next := Native(data[1], swap);
      if IsTrail(next) then (2, [High(JoinPair(lead, next))]) else (1, [])
    else (1, [])
  }

  ghost function Utf16Calls(data: seq<bv16>, swap: bool): seq<Call> {
    if data == [] then [] else Utf16Next(data, swap).1 + Utf16Calls(data[Utf16Next(data, swap).0..], swap)
  }

  ghost function Latin1Calls(data: seq<bv8>): seq<Call> {
    if data == [] then [] else [Low(data[0] as bv32)] + Latin1Calls(data[1..])
  }

  ghost function Utf32Calls(data: seq<bv32>): seq<Call> {
    if data == [] then [] else [if data[0] < 0x10000 then Low(data[0]) else High(data[0])] + Utf32Calls(data[1..])
  }

  lemma FoldNext16<R>(data: seq<bv16>, swap: bool, result: R, low: (R, bv32) -> R, high: (R, bv32) -> R)
    requires data != []
    ensures var next := Utf16Next(data, swap);
            Fold(Utf16Calls(data, swap), result, low, high) ==
            Fold(Utf16Calls(data[next.0..], swap),
                 if next.1 == [] then result
                 else if next.1[0].Low? then low(result, next.1[0].ch) else high(result, next.1[0].ch), low, high)
  {
    FoldConcat(Utf16Next(data, swap).1, Utf16Calls(data[Utf16Next(data, swap).0..], swap), result, low, high);
  }

  lemma AllDone16<R>(data: seq<bv16>, swap: bool, i: nat, r: R, low: (R, bv32) -> R, high: (R, bv32) -> R)
    requires i == |data|
    ensures Fold(Utf16Calls(data[i..], swap), r, low, high) == r
  {
  }

  method Utf16Process<R>(data: seq<bv16>, swap: bool, result: R, low: (R, bv32) -> R, high: (R, bv32) -> R)
      returns (r: R)
    ensures r == Fold(Utf16Calls(data, swap), result, low, high)
  {
    hide Utf16Calls, Fold, Utf16Next;
    r := result;
    var i := 0;
    assert data[0..] == data;
    while i < |data|
      invariant 0 <= i <= |data|
      invariant Fold(Utf16Calls(data[i..], swap), r, low, high) == Fold(Utf16Calls(data, swap), result, low, high)
    {
      var next := Utf16Next(data[i..], swap);
      FoldNext16(data[i..], swap, r, low, high);
      assert data[i..][next.0..] == data[i + next.0..];
      if next.1 != [] {
        r := if next.1[0].Low? then low(r, next.1[0].ch) else high(r, next.1[0].ch);
      }
      i := i + next.0;
    }
    AllDone16(data, swap, i, r, low, high);
  }

  method Latin1Process<R>(data: seq<bv8>, result: R, low: (R, bv32) -> R, ghost high: (R, bv32) -> R) returns (r: R)
    ensures r == Fold(Latin1Calls(data), result, low, high)
  {
    r := result;
    var i := 0;
    assert data[0..] == data;
    while i < |data|
      invariant 0 <= i <= |data|
      invariant Fold(Latin1Calls(data[i..]), r, low, high) == Fold(Latin1Calls(data), result, low, high)
    {
      assert data[i..][1..] == data[i + 1..];
      r := low(r, data[i] as bv32);
      i := i + 1;
    }
  }

  // ---------- Encoding and decoding scalar values ----------

  predicate IsScalar(ch: bv32) {
    ch < 0xD800 || (0xE000 <= ch && ch <= 0x10FFFF)
  }

  ghost predicate Scalars(text: seq<bv32>) {
    forall i :: 0 <= i < |text| ==> IsScalar(text[i])
  }

  /** What the UTF-8 writer makes of one character. */
  function Utf8Form(ch: bv32): seq<bv8> {
    if ch < 0x10000 then Utf8WriteLow([], ch) else Utf8WriteHigh([], ch)
  }

  function Utf16Form(ch: bv32): seq<bv16> {
    if ch < 0x10000 then Utf16WriteLow([], ch) else Utf16WriteHigh([], ch)
  }

  ghost function Utf8Encode(text: seq<bv32>): seq<bv8> {
    if text == [] then [] else Utf8Form(text[0]) + Utf8Encode(text[1..])
  }

  ghost function Utf16Encode(text: seq<bv32>, swap: bool): seq<bv16> {
    if text == [] then [] else Swapped(Utf16Form(text[0]), swap) + Utf16Encode(text[1..], swap)
  }

  ghost function Swapped(units: seq<bv16>, swap: bool): (r: seq<bv16>)
    ensures |r| == |units| && forall i :: 0 <= i < |units| ==> r[i] == Swap16(units[i], swap)
  {
    seq(|units|, i requires 0 <= i < |units| => Swap16(units[i], swap))
  }

  function Report(ch: bv32): Call {
    if ch < 0x10000 then Low(ch) else High(ch)
  }

  /** The reports for a text. */
  ghost function Reports(text: seq<bv32>): seq<Call> {
    if text == [] then [] else [Report(text[0])] + Reports(text[1..])
  }

  lemma {:induction false} Utf32Reports(data: seq<bv32>)
    ensures Utf32Calls(data) == Reports(data)
  {
    if data != [] {
      Utf32Reports(data[1..]);
    }
  }

  /** A Latin-1 text is read as the text of the characters of the same numbers. */
  lemma {:induction false} Latin1Reports(data: seq<bv8>, text: seq<bv32>)
    requires |data| == |text| && forall i :: 0 <= i < |data| ==> text[i] == data[i] as bv32
    ensures Latin1Calls(data) == Reports(text) && Scalars(text)
  {
    if data != [] {
      Latin1Reports(data[1..], text[1..]);
      SmallScalar(data[0]);
      assert text == [text[0]] + text[1..];
    }
  }

  lemma SmallScalar(b: bv8)
    ensures IsScalar(b as bv32) && Report(b as bv32) == Low(b as bv32)
  {
  }

  /** The UTF-8 form of a scalar value is the one of RFC 3629 section 3: the shortest, with the lead
      byte of its length, and continuation bytes after it. */
  lemma Utf8FormIsStandard(ch: bv32)
    requires IsScalar(ch)
    ensures var f := Utf8Form(ch);
            if ch < 0x80 then |f| == 1 && f[0] < 0x80
            else if ch < 0x800 then |f| == 2 && 0xC2 <= f[0] && f[0] <= 0xDF && Continuation(f[1])
            else if ch < 0x10000 then
              |f| == 3 && 0xE0 <= f[0] && f[0] <= 0xEF && Continuation(f[1]) && Continuation(f[2]) &&
              (f[0] == 0xE0 ==> 0xA0 <= f[1]) && (f[0] == 0xED ==> f[1] <= 0x9F)
            else
              |f| == 4 && 0xF0 <= f[0] && f[0] <= 0xF4 && Continuation(f[1]) && Continuation(f[2]) &&
                Continuation(f[3]) &&
              (f[0] == 0xF0 ==> 0x90 <= f[1]) && (f[0] == 0xF4 ==> f[1] <= 0x8F)
  {
  }

  lemma OneByte(ch: bv32)
    requires ch < 0x80
    ensures Byte(ch) < 0x80 && (Byte(ch) as bv32) == ch
  {
  }

  lemma TwoBytes(ch: bv32)
    requires 0x80 <= ch && ch < 0x800
    ensures var lead, b := Byte(0xC0 | (ch >> 6)) as bv32, Byte(0x80 | (ch & 0x3F));
            lead >= 0x80 && lead - 0xC0 < 0x20 && Continuation(b) && Join2(lead, b) == ch
  {
  }

  lemma ThreeBytes(ch: bv32)
    requires 0x800 <= ch && ch < 0x10000
    ensures var lead, b, c := Byte(0xE0 | (ch >> 12)) as bv32, Byte(0x80 | ((ch >> 6) & 0x3F)),
            Byte(0x80 | (ch & 0x3F));
            lead >= 0x80 && lead - 0xC0 >= 0x20 && lead - 0xE0 < 0x10 && Continuation(b) && Continuation(c) &&
            Join3(lead, b, c) == ch
  {
  }

  lemma FourBytes(ch: bv32)
    requires 0x10000 <= ch && ch <= 0x10FFFF
    ensures var lead, b := Byte(0xF0 | (ch >> 18)) as bv32, Byte(0x80 | ((ch >> 12) & 0x3F));
            var c, d := Byte(0x80 | ((ch >> 6) & 0x3F)), Byte(0x80 | (ch & 0x3F));
            lead >= 0x80 && lead - 0xC0 >= 0x20 && lead - 0xE0 >= 0x10 && lead - 0xF0 < 0x08 &&
            Continuation(b) && Continuation(c) && Continuation(d) &&
            Join4(lead, b, c, d) == ch
  {
  }

  lemma NextOne(a: bv8, rest: seq<bv8>)
    requires a < 0x80
    ensures Utf8Next([a] + rest) == (1, [Low(a as bv32)])
  {
  }

  lemma NextTwo(a: bv8, b: bv8, rest: seq<bv8>)
    requires var lead := a as bv32; lead >= 0x80 && lead - 0xC0 < 0x20
    requires Continuation(b)
    ensures Utf8Next([a, b] + rest) == (2, [Low(Join2(a as bv32, b))])
  {
    hide Join2, Continuation;
  }

  lemma NextThree(a: bv8, b: bv8, c: bv8, rest: seq<bv8>)
    requires var lead := a as bv32; lead >= 0x80 && lead - 0xC0 >= 0x20 && lead - 0xE0 < 0x10
    requires Continuation(b) && Continuation(c)
    ensures Utf8Next([a, b, c] + rest) == (3, [Low(Join3(a as bv32, b, c))])
  {
    hide Join3, Continuation;
  }

  lemma NextFour(a: bv8, b: bv8, c: bv8, d: bv8, rest: seq<bv8>)
    requires var lead := a as bv32; lead >= 0x80 && lead - 0xC0 >= 0x20 && lead - 0xE0 >= 0x10 && lead - 0xF0 < 0x08
    requires Continuation(b) && Continuation(c) && Continuation(d)
    ensures Utf8Next([a, b, c, d] + rest) == (4, [High(Join4(a as bv32, b, c, d))])
  {
    hide Join4, Continuation;
  }

  lemma Utf8NextForm(ch: bv32, rest: seq<bv8>)
    requires IsScalar(ch)
    ensures var data := Utf8Form(ch) + rest;
            Utf8Next(data) == (|Utf8Form(ch)|, [Report(ch)]) && data[|Utf8Form(ch)|..] == rest
  {
    hide Byte, Continuation, Join2, Join3, Join4, Utf8Next;
    if ch < 0x80 {
      OneByte(ch);
      assert Utf8Form(ch) == [Byte(ch)];
      NextOne(Byte(ch), rest);
    } else if ch < 0x800 {
      TwoBytes(ch);
      assert Utf8Form(ch) == [Byte(0xC0 | (ch >> 6)), Byte(0x80 | (ch & 0x3F))];
      NextTwo(Byte(0xC0 | (ch >> 6)), Byte(0x80 | (ch & 0x3F)), rest);
    } else if ch < 0x10000 {
      ThreeBytes(ch);
      assert Utf8Form(ch) == [Byte(0xE0 | (ch >> 12)), Byte(0x80 | ((ch >> 6) & 0x3F)), Byte(0x80 | (ch & 0x3F))];
      NextThree(Byte(0xE0 | (ch >> 12)), Byte(0x80 | ((ch >> 6) & 0x3F)), Byte(0x80 | (ch & 0x3F)), rest);
    } else {
      FourBytes(ch);
      assert Utf8Form(ch) == [Byte(0xF0 | (ch >> 18)), Byte(0x80 | ((ch >> 12) & 0x3F)),
        Byte(0x80 | ((ch >> 6) & 0x3F)), Byte(0x80 | (ch & 0x3F))];
      NextFour(Byte(0xF0 | (ch >> 18)), Byte(0x80 | ((ch >> 12) & 0x3F)), Byte(0x80 | ((ch >> 6) & 0x3F)),
        Byte(0x80 | (ch & 0x3F)), rest);
    }
  }

  predicate Ten(x: bv32) {
    x < 0x400
  }

  lemma Halves(ch: bv32)
    requires 0x10000 <= ch && ch <= 0x10FFFF
    ensures Ten(Msh(ch)) && Ten(Lsh(ch)) && Join(Msh(ch), Lsh(ch)) == ch
  {
  }

  lemma LeadReads(msh: bv32)
    requires Ten(msh)
    ensures IsLead(LeadFrom(msh) as bv32) && Low10(LeadFrom(msh) as bv32) == msh
  {
  }

  lemma TrailReads(lsh: bv32)
    requires Ten(lsh)
    ensures IsTrail(TrailFrom(lsh) as bv32) && Low10(TrailFrom(lsh) as bv32) == lsh
  {
  }

  /** The two units are in their ranges and give the character back. */
  predicate Pair(lead: bv16, next: bv16, ch: bv32) {
    IsLead(lead as bv32) && IsTrail(next as bv32) && JoinPair(lead as bv32, next as bv32) == ch
  }

  lemma PairFrom(msh: bv32, lsh: bv32)
    requires Ten(msh) && Ten(lsh)
    ensures Pair(LeadFrom(msh), TrailFrom(lsh), Join(msh, lsh))
  {
    hide Ten, IsLead, IsTrail, Low10, Join, LeadFrom, TrailFrom;
    LeadReads(msh);
    TrailReads(lsh);
  }

  lemma UnitsAre(ch: bv32)
    ensures LeadUnit(ch) == LeadFrom(Msh(ch)) && TrailUnit(ch) == TrailFrom(Lsh(ch))
  {
    hide LeadFrom, TrailFrom, Msh, Lsh;
  }

  /** The surrogates a character is written as. */
  lemma SurrogatePair(ch: bv32)
    requires 0x10000 <= ch && ch <= 0x10FFFF
    ensures Pair(LeadUnit(ch), TrailUnit(ch), ch)
  {
    hide *;
    Halves(ch);
    PairFrom(Msh(ch), Lsh(ch));
    UnitsAre(ch);
  }

  lemma OneUnit(ch: bv32)
    requires ch < 0xD800 || (0xE000 <= ch && ch < 0x10000)
    ensures (Unit(ch) as bv32) == ch && StandsAlone(ch)
  {
  }

  lemma NextUnit(a: bv16, rest: seq<bv16>, swap: bool)
    requires StandsAlone(Native(a, swap))
    ensures Utf16Next([a] + rest, swap) == (1, [Low(Native(a, swap))]) && ([a] + rest)[1..] == rest
  {
    hide Native, JoinPair, BelowSurrogates, AboveSurrogates;
  }

  lemma NextPair(a: bv16, b: bv16, rest: seq<bv16>, swap: bool)
    requires IsLead(Native(a, swap)) && IsTrail(Native(b, swap))
    ensures Utf16Next([a, b] + rest, swap) == (2, [High(JoinPair(Native(a, swap), Native(b, swap)))]) &&
            ([a, b] + rest)[2..] == rest
  {
    hide Native, JoinPair, BelowSurrogates, AboveSurrogates, IsTrail;
  }

  lemma SwappedForm(units: seq<bv16>, swap: bool)
    ensures |units| == 1 ==> Swapped(units, swap) == [Swap16(units[0], swap)]
    ensures |units| == 2 ==> Swapped(units, swap) == [Swap16(units[0], swap), Swap16(units[1], swap)]
  {
  }

  ghost predicate Utf16FormReads(ch: bv32, rest: seq<bv16>, swap: bool) {
    var f := Swapped(Utf16Form(ch), swap);
    Utf16Next(f + rest, swap) == (|f|, [Report(ch)]) && (f + rest)[|f|..] == rest
  }

  lemma Utf16FormLow(ch: bv32, rest: seq<bv16>, swap: bool)
    requires ch < 0x10000 && IsScalar(ch)
    ensures Utf16FormReads(ch, rest, swap)
  {
    hide Unit, Utf16Next, Swapped, Utf16Form, StandsAlone;
    Utf16FormIs(ch);
    OneUnit(ch);
    LowForm(Unit(ch), ch, rest, swap);
  }

  lemma Utf16FormHigh(ch: bv32, rest: seq<bv16>, swap: bool)
    requires ch >= 0x10000 && IsScalar(ch)
    ensures Utf16FormReads(ch, rest, swap)
  {
    hide Utf16Next, Swapped, Utf16Form, LeadUnit, TrailUnit, Pair;
    Utf16FormIs(ch);
    SurrogatePair(ch);
    HighForm(LeadUnit(ch), TrailUnit(ch), ch, rest, swap);
  }

  lemma Utf16NextForm(ch: bv32, rest: seq<bv16>, swap: bool)
    requires IsScalar(ch)
    ensures Utf16FormReads(ch, rest, swap)
  {
    hide Utf16FormReads, IsScalar;
    if ch < 0x10000 {
      Utf16FormLow(ch, rest, swap);
    } else {
      Utf16FormHigh(ch, rest, swap);
    }
  }

  lemma LowForm(a: bv16, ch: bv32, rest: seq<bv16>, swap: bool)
    requires (a as bv32) == ch && StandsAlone(ch)
    ensures var f := Swapped([a], swap); Utf16Next(f + rest, swap) == (|f|, [Low(ch)]) && (f + rest)[|f|..] == rest
  {
    hide Native, Utf16Next, JoinPair, Swapped, Swap16, StandsAlone;
    SwappedForm([a], swap);
    NativeOfSwapped(a, swap);
    NextUnit(Swap16(a, swap), rest, swap);
  }

  lemma HighForm(a: bv16, b: bv16, ch: bv32, rest: seq<bv16>, swap: bool)
    requires Pair(a, b, ch)
    ensures var f := Swapped([a, b], swap); Utf16Next(f + rest, swap) == (|f|, [High(ch)]) && (f + rest)[|f|..] == rest
  {
    hide Native, Utf16Next, JoinPair, Swapped, Swap16, IsLead, IsTrail;
    SwappedForm([a, b], swap);
    NativeOfSwapped(a, swap);
    NativeOfSwapped(b, swap);
    NextPair(Swap16(a, swap), Swap16(b, swap), rest, swap);
  }

  lemma Utf16FormIs(ch: bv32)
    ensures Utf16Form(ch) ==
            if ch < 0x10000 then [Unit(ch)]
            else [LeadUnit(ch), TrailUnit(ch)]
  {
    hide Unit;
  }

  lemma NativeOfSwapped(v: bv16, swap: bool)
    ensures Native(Swap16(v, swap), swap) == v as bv32
  {
    hide Swap16;
    SwapTwice(v, swap);
  }

  // ---------- The values, written out ----------

  predicate IsByte(x: bv32) {
    x < 0x100
  }

  lemma ByteValue(x: bv32)
    requires IsByte(x)
    ensures Wide(Byte(x)) == x
  {
  }

  function Wide(b: bv8): bv32 {
    b as bv32
  }

  function Two(a: bv32, b: bv32): bv32 {
    (a - 0xC0) * 0x40 + (b - 0x80)
  }

  function Three(a: bv32, b: bv32, c: bv32): bv32 {
    (a - 0xE0) * 0x1000 + (b - 0x80) * 0x40 + (c - 0x80)
  }

  function Four(a: bv32, b: bv32, c: bv32, d: bv32): bv32 {
    (a - 0xF0) * 0x40000 + (b - 0x80) * 0x1000 + (c - 0x80) * 0x40 + (d - 0x80)
  }

  /** What the bytes of a form stand for, by the table in section 3 of RFC 3629. */
  function Utf8Value(f: seq<bv8>): bv32 {
    if |f| == 1 then Wide(f[0])
    else if |f| == 2 then Two(Wide(f[0]), Wide(f[1]))
    else if |f| == 3 then Three(Wide(f[0]), Wide(f[1]), Wide(f[2]))
    else if |f| == 4 then Four(Wide(f[0]), Wide(f[1]), Wide(f[2]), Wide(f[3]))
    else 0
  }

  predicate Small(ch: bv32) {
    ch < 0x80
  }

  predicate Middle(ch: bv32) {
    !Small(ch) && ch < 0x800
  }

  predicate Large(ch: bv32) {
    !Small(ch) && !Middle(ch) && ch < 0x10000
  }

  predicate Beyond(ch: bv32) {
    !Small(ch) && !Middle(ch) && !Large(ch) && ch <= 0x10FFFF
  }

  lemma OneByteForm(ch: bv32)
    requires Small(ch)
    ensures Utf8Form(ch) == [Byte(ch)] && Wide(Byte(ch)) == ch
  {
    ByteValue(ch);
  }

  lemma TwoByteForm(ch: bv32) returns (a: bv32, b: bv32)
    requires Middle(ch)
    ensures IsByte(a) && IsByte(b) && Utf8Form(ch) == [Byte(a), Byte(b)] && Two(a, b) == ch
  {
    a, b := 0xC0 | (ch >> 6), 0x80 | (ch & 0x3F);
    TwoBytesSum(ch);
    hide Byte, Two, IsByte;
  }

  lemma TwoBytesSum(ch: bv32)
    requires Middle(ch)
    ensures var a, b := 0xC0 | (ch >> 6), 0x80 | (ch & 0x3F); IsByte(a) && IsByte(b) && Two(a, b) == ch
  {
  }

  lemma ThreeByteForm(ch: bv32) returns (a: bv32, b: bv32, c: bv32)
    requires Large(ch)
    ensures IsByte(a) && IsByte(b) && IsByte(c) && Utf8Form(ch) == [Byte(a), Byte(b), Byte(c)] && Three(a, b, c) == ch
  {
    a, b, c := 0xE0 | (ch >> 12), 0x80 | ((ch >> 6) & 0x3F), 0x80 | (ch & 0x3F);
    ThreeBytesSum(ch);
    hide Byte, Three, IsByte;
  }

  lemma ThreeBytesSum(ch: bv32)
    requires Large(ch)
    ensures var a, b, c := 0xE0 | (ch >> 12), 0x80 | ((ch >> 6) & 0x3F), 0x80 | (ch & 0x3F);
      IsByte(a) && IsByte(b) && IsByte(c) && Three(a, b, c) == ch
  {
  }

  lemma FourByteForm(ch: bv32) returns (a: bv32, b: bv32, c: bv32, d: bv32)
    requires Beyond(ch)
    ensures IsByte(a) && IsByte(b) && IsByte(c) && IsByte(d) && Four(a, b, c, d) == ch
    ensures Utf8Form(ch) == [Byte(a), Byte(b), Byte(c), Byte(d)]
  {
    a, b, c, d := 0xF0 | (ch >> 18), 0x80 | ((ch >> 12) & 0x3F), 0x80 | ((ch >> 6) & 0x3F), 0x80 | (ch & 0x3F);
    FourBytesSum(ch);
    hide Byte, Four, IsByte;
  }

  lemma FourBytesSum(ch: bv32)
    requires Beyond(ch)
    ensures var a, b, c, d := 0xF0 | (ch >> 18), 0x80 | ((ch >> 12) & 0x3F), 0x80 | ((ch >> 6) & 0x3F),
                0x80 | (ch & 0x3F);
      IsByte(a) && IsByte(b) && IsByte(c) && IsByte(d) && Four(a, b, c, d) == ch
  {
  }

  lemma SomeClass(ch: bv32)
    requires IsScalar(ch)
    ensures Small(ch) || Middle(ch) || Large(ch) || Beyond(ch)
  {
  }

  /** The bytes of the form of a scalar value stand for it. */
  lemma Utf8FormValue(ch: bv32)
    requires IsScalar(ch)
    ensures Utf8Value(Utf8Form(ch)) == ch
  {
    hide Utf8Form, Byte, Wide, Two, Three, Four, Small, Middle, Large, Beyond, IsByte, IsScalar;
    SomeClass(ch);
    if Small(ch) {
      OneByteForm(ch);
    } else if Middle(ch) {
      var a, b := TwoByteForm(ch);
      ByteValue(a);
      ByteValue(b);
    } else if Large(ch) {
      var a, b, c := ThreeByteForm(ch);
      ByteValue(a);
      ByteValue(b);
      ByteValue(c);
    } else {
      var a, b, c, d := FourByteForm(ch);
      ByteValue(a);
      ByteValue(b);
      ByteValue(c);
      ByteValue(d);
    }
  }

  /** The ranges of section 2.1 of RFC 2781. */
  predicate LeadSurrogate(u: bv32) {
    0xD800 <= u && u <= 0xDBFF
  }

  predicate TrailSurrogate(u: bv32) {
    0xDC00 <= u && u <= 0xDFFF
  }

  function PairValue(lead: bv32, trail: bv32): bv32 {
    0x10000 + (lead - 0xD800) * 0x400 + (trail - 0xDC00)
  }

  lemma JoinedValue(lead: bv32, trail: bv32)
    requires LeadSurrogate(lead) && TrailSurrogate(trail)
    ensures JoinPair(lead, trail) == PairValue(lead, trail)
  {
  }

  /** The decoder's wrapped comparisons on a 16-bit unit are those of the ranges. */
  predicate RangesAgree(u: bv32) {
    (StandsAlone(u) <==> !LeadSurrogate(u) && !TrailSurrogate(u)) && (IsLead(u) <==> LeadSurrogate(u)) &&
    (IsTrail(u) <==> TrailSurrogate(u))
  }

  lemma RangesOf(v: bv16)
    ensures RangesAgree(v as bv32)
  {
  }

  lemma UnitRanges(v: bv16, swap: bool)
    ensures RangesAgree(Native(v, swap))
  {
    hide RangesAgree, Swap16;
    RangesOf(Swap16(v, swap));
  }

  /** The units stand for the character: alone, or as a pair of surrogates. */
  predicate UnitsFor(f: seq<bv16>, ch: bv32) {
    if |f| == 1 then f[0] as bv32 == ch && !LeadSurrogate(ch) && !TrailSurrogate(ch)
    else
      |f| == 2 && LeadSurrogate(f[0] as bv32) && TrailSurrogate(f[1] as bv32) &&
      PairValue(f[0] as bv32, f[1] as bv32) == ch
  }

  lemma UnitFor(u: bv16, ch: bv32)
    requires u as bv32 == ch && StandsAlone(ch)
    ensures UnitsFor([u], ch)
  {
    RangesOf(u);
  }

  lemma PairFor(lead: bv16, trail: bv16, ch: bv32)
    requires Pair(lead, trail, ch)
    ensures UnitsFor([lead, trail], ch)
  {
    hide Pair, LeadSurrogate, TrailSurrogate, PairValue;
    PairStandsFor(lead, trail, ch);
  }

  lemma OneUnitFor(ch: bv32)
    requires ch < 0x10000 && IsScalar(ch)
    ensures UnitsFor([Unit(ch)], ch)
  {
    hide Unit, StandsAlone, UnitsFor;
    OneUnit(ch);
    UnitFor(Unit(ch), ch);
  }

  /** A character is written as units that stand for it, from U+10000 on as a pair. */
  lemma Utf16FormIsStandard(ch: bv32)
    requires IsScalar(ch)
    ensures UnitsFor(Utf16Form(ch), ch) && |Utf16Form(ch)| == if ch < 0x10000 then 1 else 2
  {
    hide Unit, LeadUnit, TrailUnit, Utf16Form, UnitsFor, Pair;
    Utf16FormIs(ch);
    if ch < 0x10000 {
      OneUnitFor(ch);
    } else {
      SurrogatePair(ch);
      PairFor(LeadUnit(ch), TrailUnit(ch), ch);
    }
  }

  lemma PairStandsFor(lead: bv16, trail: bv16, ch: bv32)
    requires Pair(lead, trail, ch)
    ensures LeadSurrogate(lead as bv32) && TrailSurrogate(trail as bv32) &&
            PairValue(lead as bv32, trail as bv32) == ch
  {
    hide JoinPair, PairValue, LeadSurrogate, TrailSurrogate, IsLead, IsTrail, StandsAlone;
    RangesOf(lead);
    RangesOf(trail);
    JoinedValue(lead as bv32, trail as bv32);
  }

  lemma SwappedBytes(v: bv16)
    ensures EndianSwap16(v) % 0x100 == v / 0x100 && EndianSwap16(v) / 0x100 == v % 0x100
  {
  }

  /** What the unit at i contributes: itself, a pair with the next unit, or nothing. */
  ghost function UnitReport(data: seq<bv16>, swap: bool, i: nat): seq<Call>
    requires i < |data|
  {
    var u := Native(data[i], swap);
    if !LeadSurrogate(u) && !TrailSurrogate(u) then [Low(u)]
    else if LeadSurrogate(u) && i + 1 < |data| && TrailSurrogate(Native(data[i + 1], swap)) then
      [High(PairValue(u, Native(data[i + 1], swap)))]
    else []
  }

  ghost function UnitReports(data: seq<bv16>, swap: bool, i: nat): seq<Call>
    requires i <= |data|
    decreases |data| - i
  {
    if i == |data| then [] else UnitReport(data, swap, i) + UnitReports(data, swap, i + 1)
  }

  lemma NextIsUnit(data: seq<bv16>, swap: bool, i: nat)
    requires i < |data|
    ensures var next := Utf16Next(data[i..], swap);
      next.1 == UnitReport(data, swap, i) && (next.0 == 1 || (next.0 == 2 && UnitReport(data, swap, i + 1) == []))
  {
    hide Native, JoinPair, BelowSurrogates, AboveSurrogates, IsTrail, PairValue, LeadSurrogate, TrailSurrogate;
    NextBy(data[i..], swap);
    UnitRanges(data[i], swap);
    SurrogateEither(Native(data[i], swap));
    if i + 1 < |data| {
      assert data[i..][1] == data[i + 1];
      UnitRanges(data[i + 1], swap);
      SurrogateEither(Native(data[i + 1], swap));
      if LeadSurrogate(Native(data[i], swap)) && TrailSurrogate(Native(data[i + 1], swap)) {
        JoinedValue(Native(data[i], swap), Native(data[i + 1], swap));
      }
    }
  }

  lemma SurrogateEither(u: bv32)
    ensures !(LeadSurrogate(u) && TrailSurrogate(u))
  {
  }

  lemma NextBy(data: seq<bv16>, swap: bool)
    requires data != []
    ensures var lead := Native(data[0], swap);
      Utf16Next(data, swap) ==
        if StandsAlone(lead) then (1, [Low(lead)])
        else if IsLead(lead) && |data| >= 2 && IsTrail(Native(data[1], swap)) then
          (2, [High(JoinPair(lead, Native(data[1], swap)))])
        else (1, [])
  {
    hide Native, JoinPair, BelowSurrogates, AboveSurrogates, IsTrail;
  }

  /** Unit by unit: surrogates that do not stand in a pair are skipped, in either byte order, and
      nothing else is. */
  lemma {:induction false} StraySurrogatesAreSkipped(data: seq<bv16>, swap: bool, i: nat)
    requires i <= |data|
    ensures Utf16Calls(data[i..], swap) == UnitReports(data, swap, i)
    decreases |data| - i
  {
    hide Utf16Next, UnitReport;
    if i < |data| {
      NextIsUnit(data, swap, i);
      var n := Utf16Next(data[i..], swap).0;
      assert data[i..][n..] == data[i + n..];
      StraySurrogatesAreSkipped(data, swap, i + n);
      if n == 2 {
        assert [] + UnitReports(data, swap, i + 2) == UnitReports(data, swap, i + 2);
      }
    }
  }

  /** Decoding the UTF-8 encoding of any sequence of scalar values reports exactly that sequence. */
  lemma {:induction false} Utf8RoundTrip(text: seq<bv32>)
    requires Scalars(text)
    ensures Utf8Calls(Utf8Encode(text)) == Reports(text)
  {
    if text != [] {
      hide Utf8Form, Utf8Next, IsScalar;
      Utf8RoundTrip(text[1..]);
      Utf8NextForm(text[0], Utf8Encode(text[1..]));
    }
  }

  /** So does decoding the UTF-16 encoding, in either byte order. */
  lemma {:induction false} Utf16RoundTrip(text: seq<bv32>, swap: bool)
    requires Scalars(text)
    ensures Utf16Calls(Utf16Encode(text, swap), swap) == Reports(text)
  {
    if text != [] {
      hide Utf16Form, Utf16Next, Swapped, IsScalar;
      Utf16RoundTrip(text[1..], swap);
      Utf16NextForm(text[0], Utf16Encode(text[1..], swap), swap);
    }
  }

  lemma UnswappedForm(ch: bv32)
    ensures Swapped(Utf16Form(ch), false) == Utf16Form(ch)
  {
  }

  lemma WritesForm8(out: seq<bv8>, ch: bv32)
    ensures (if ch < 0x10000 then Utf8WriteLow(out, ch) else Utf8WriteHigh(out, ch)) == out + Utf8Form(ch)
  {
    hide Byte;
  }

  lemma WritesForm16(out: seq<bv16>, ch: bv32)
    ensures (if ch < 0x10000 then Utf16WriteLow(out, ch) else Utf16WriteHigh(out, ch)) == out + Utf16Form(ch)
  {
    hide Unit;
  }

  lemma FoldReport<R>(text: seq<bv32>, out: R, low: (R, bv32) -> R, high: (R, bv32) -> R)
    requires text != []
    ensures Fold(Reports(text), out, low, high) ==
            Fold(Reports(text[1..]), if text[0] < 0x10000 then low(out, text[0]) else high(out, text[0]), low, high)
  {
  }

  lemma Associative<T>(a: seq<T>, b: seq<T>, c: seq<T>)
    ensures a + b + c == a + (b + c)
  {
  }

  /** The writers fed with those reports produce the encodings. */
  lemma {:induction false} Utf8WriterEncodes(text: seq<bv32>, out: seq<bv8>)
    ensures Fold(Reports(text), out, Utf8WriteLow, Utf8WriteHigh) == out + Utf8Encode(text)
  {
    if text != [] {
      hide Utf8Form, Utf8WriteLow, Utf8WriteHigh, Fold, Reports;
      FoldReport(text, out, Utf8WriteLow, Utf8WriteHigh);
      WritesForm8(out, text[0]);
      Utf8WriterEncodes(text[1..], out + Utf8Form(text[0]));
      Associative(out, Utf8Form(text[0]), Utf8Encode(text[1..]));
    }
  }

  lemma {:induction false} Utf16WriterEncodes(text: seq<bv32>, out: seq<bv16>)
    ensures Fold(Reports(text), out, Utf16WriteLow, Utf16WriteHigh) == out + Utf16Encode(text, false)
  {
    if text != [] {
      hide Utf16Form, Utf16WriteLow, Utf16WriteHigh, Fold, Reports, Swapped;
      FoldReport(text, out, Utf16WriteLow, Utf16WriteHigh);
      WritesForm16(out, text[0]);
      UnswappedForm(text[0]);
      Utf16WriterEncodes(text[1..], out + Utf16Form(text[0]));
      Associative(out, Utf16Form(text[0]), Utf16Encode(text[1..], false));
    }
  }

  /** Converting any text from UTF-16 to UTF-8, or back, goes from one encoding to the other. */
  lemma ConversionsAreExact(text: seq<bv32>, swap: bool)
    requires Scalars(text)
    ensures Utf8Written(Utf16Calls(Utf16Encode(text, swap), swap)) == Utf8Encode(text)
    ensures Utf16Written(Utf8Calls(Utf8Encode(text))) == Utf16Encode(text, false)
    ensures Utf8Written(Utf8Calls(Utf8Encode(text))) == Utf8Encode(text)
  {
    hide Utf8Encode, Utf16Encode, Utf8Calls, Utf16Calls, Reports, Fold, Scalars;
    Utf8RoundTrip(text);
    Utf16RoundTrip(text, swap);
    Utf8WriterEncodes(text, []);
    Utf16WriterEncodes(text, []);
  }

  // ---------- The two-pass conversion ----------

  /** The buffer has exactly the length that the first pass counted, and a terminator. */
  method ConvertUtf16(data: seq<bv16>, swap: bool) returns (buffer: array<bv8>)
    ensures buffer[..] == Utf8Written(Utf16Calls(data, swap)) + [0]
  {
    hide Utf16Calls, Fold;
    var length := Utf16Process<nat>(data, swap, 0, Utf8CountLow, Utf8CountHigh);
    var written := Utf16Process(data, swap, [], Utf8WriteLow, Utf8WriteHigh);
    CountIsLength(Utf16Calls(data, swap));
    assert |written| == length;
    buffer := new bv8[length + 1](i => if 0 <= i < |written| then written[i] else 0);
    assert buffer[..] == written + [0];
  }

  method Latin1PrefixLength(data: seq<bv8>) returns (n: nat)
    ensures n <= |data| && (forall i :: 0 <= i < n ==> data[i] <= 127) && (n < |data| ==> data[n] > 127)
  {
    for i := 0 to |data|
      invariant forall j :: 0 <= j < i ==> data[j] <= 127
    {
      if data[i] > 127 {
        return i;
      }
    }
    return |data|;
  }

  /** The buffer itself when it may be changed, else a copy with a terminator. */
  method GetMutableBuffer(contents: array<bv8>, isMutable: bool) returns (buffer: array<bv8>)
    ensures if isMutable then buffer == contents else fresh(buffer) && buffer[..] == contents[..] + [0]
  {
    if isMutable {
      return contents;
    }
    buffer := new bv8[contents.Length + 1](i requires 0 <= i reads contents =>
                                             if i < contents.Length then contents[i] else 0);
  }

  /** The 7-bit prefix is copied, only the rest is converted, into a buffer of the length that the
      first pass counted and a terminator: the result is as if all were converted. An input that is
      all prefix and may be changed is handed back as it is, without a terminator. */
  method ConvertLatin1(data: array<bv8>, isMutable: bool) returns (buffer: array<bv8>)
    ensures buffer == data <==> isMutable && forall i :: 0 <= i < data.Length ==> data[i] <= 127
    ensures buffer[..] == Utf8Written(Latin1Calls(data[..])) + if buffer == data then [] else [0]
    ensures buffer == data || fresh(buffer)
  {
    hide Latin1Calls, Fold, Utf8WriteLow, Utf8WriteHigh;
    var prefix := Latin1PrefixLength(data[..]);
    PrefixIsCopied(data[..], prefix, []);
    assert [] + data[..prefix] == data[..prefix];
    if prefix == data.Length {
      NothingLeft(data[..], data[..]);
      assert data[..][..prefix] == data[..];
      buffer := GetMutableBuffer(data, isMutable);
      return;
    }
    var postfix := data[prefix..];
    var length := Latin1Process<nat>(postfix, 0, Utf8CountLow, Utf8CountHigh);
    length := prefix + length;
    var written := Latin1Process(postfix, data[..prefix], Utf8WriteLow, Utf8WriteHigh);
    LengthBehind(Latin1Calls(postfix), data[..prefix]);
    assert |written| == length;
    buffer := new bv8[length + 1](i => if 0 <= i < |written| then written[i] else 0);
    assert buffer[..] == written + [0];
  }

  /** Counted from 0 and written behind a prefix, the two passes agree as well. */
  lemma LengthBehind(calls: seq<Call>, prefix: seq<bv8>)
    ensures |Fold(calls, prefix, Utf8WriteLow, Utf8WriteHigh)| ==
            |prefix| + Fold<nat>(calls, 0, Utf8CountLow, Utf8CountHigh)
  {
    CountFrom8(calls, prefix);
    CountShifts(calls, 0, |prefix|);
  }

  lemma {:induction false} CountShifts(calls: seq<Call>, n: nat, more: nat)
    ensures Fold<nat>(calls, n + more, Utf8CountLow, Utf8CountHigh) ==
            Fold<nat>(calls, n, Utf8CountLow, Utf8CountHigh) + more
  {
    if calls != [] {
      var c := calls[0];
      CountShifts(calls[1..], if c.Low? then Utf8CountLow(n, c.ch) else Utf8CountHigh(n, c.ch), more);
    }
  }

  lemma NothingLeft(data: seq<bv8>, out: seq<bv8>)
    ensures Fold(Latin1Calls(data[|data|..]), out, Utf8WriteLow, Utf8WriteHigh) == out
  {
  }

  lemma {:induction false} PrefixIsCopied(data: seq<bv8>, n: nat, out: seq<bv8>)
    requires n <= |data| && forall i :: 0 <= i < n ==> data[i] <= 127
    ensures Fold(Latin1Calls(data), out, Utf8WriteLow, Utf8WriteHigh) ==
            Fold(Latin1Calls(data[n..]), out + data[..n], Utf8WriteLow, Utf8WriteHigh)
    decreases n
  {
    if n > 0 {
      PrefixIsCopied(data[1..], n - 1, out + [data[0]]);
      assert data[1..][n - 1..] == data[n..];
      assert out + [data[0]] + data[1..][..n - 1] == out + data[..n];
      assert Utf8WriteLow(out, data[0] as bv32) == out + [data[0]];
    } else {
      assert data[0..] == data && out + data[..0] == out;
    }
  }
}
