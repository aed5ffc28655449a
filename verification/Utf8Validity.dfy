/** Which inputs the UTF-8 decoder and the writer (aux-src/pugixml/pugixml.cc:1434-1569) treat as
    the standard says. The decoder tells no ill-formed sequence from a well-formed one by more than
    its lead byte and its continuation bytes, so it takes overlong forms, surrogates and characters
    above U+10FFFF for characters; and what the writer makes of those is the input again for some of
    them and not for others. Both conditions are stated here over the bytes. */
module Utf8Validity {
  import opened Transcoding

  // ---------- Well-formed input: section 4 of RFC 3629 ----------

  /** At least n bytes, all but the first of them continuation bytes. */
  predicate Tails(data: seq<bv8>, n: nat) {
    n <= |data| && forall i :: 1 <= i < n ==> Continuation(data[i])
  }

  /** The length of the character at the start of the data, by the grammar of the standard: 0 if
      there is none. */
  function StandardLength(data: seq<bv8>): (n: nat)
    requires data != []
    ensures n <= |data|
  {
    var a := data[0];
    if a < 0x80 then 1
    else if 0xC2 <= a && a <= 0xDF && Tails(data, 2) then 2
    else if 0xE0 <= a && a <= 0xEF && Tails(data, 3) && Second3(a, data[1]) then 3
    else if 0xF0 <= a && a <= 0xF4 && Tails(data, 4) && Second4(a, data[1]) then 4
    else 0
  }

  predicate Second3(a: bv8, b: bv8) {
    (a == 0xE0 ==> 0xA0 <= b) && (a == 0xED ==> b <= 0x9F)
  }

  predicate Second4(a: bv8, b: bv8) {
    (a == 0xF0 ==> 0x90 <= b) && (a == 0xF4 ==> b <= 0x8F)
  }

  ghost predicate WellFormed(data: seq<bv8>) {
    data == [] || (StandardLength(data) > 0 && WellFormed(data[StandardLength(data)..]))
  }

  /** A report that is a character, and the one of its size class. */
  predicate IsCharacter(call: Call) {
    IsScalar(call.ch) && call == Report(call.ch)
  }

  /** What the writer makes of one report. */
  function Form(call: Call): seq<bv8> {
    if call.Low? then Utf8WriteLow([], call.ch) else Utf8WriteHigh([], call.ch)
  }

  /** The sequence at the start of the data is the standard form of the character reported for it. */
  predicate NextIsStandard(data: seq<bv8>)
    requires data != []
  {
    var next := Utf8Next(data);
    next.1 != [] && IsCharacter(next.1[0]) && Utf8Form(next.1[0].ch) == data[..next.0]
  }

  lemma OneIff(a: bv8)
    requires a < 0x80
    ensures var call := Low(a as bv32); IsCharacter(call) && Utf8Form(call.ch) == [a] && Form(call) == [a]
  {
  }

  /** Two bytes: only the overlong leads 0xC0 and 0xC1 are wrong, and their characters are written
      in one byte. */
  lemma TwoIff(a: bv8, b: bv8)
    requires 0xC0 <= a && a < 0xE0 && Continuation(b)
    ensures var call := Low(Join2(a as bv32, b));
            (IsCharacter(call) && Utf8Form(call.ch) == [a, b] <==> 0xC2 <= a) &&
            if 0xC2 <= a then Form(call) == [a, b] else |Form(call)| == 1
  {
  }

  lemma ThreeValue(a: bv8, b: bv8, c: bv8)
    requires 0xE0 <= a && a < 0xF0 && Continuation(b) && Continuation(c)
    ensures var ch := Join3(a as bv32, b, c);
            ch < 0x10000 && (ch < 0x800 <==> a == 0xE0 && b < 0xA0) &&
              (0xD800 <= ch && ch < 0xE000 <==> a == 0xED && 0x9F < b)
  {
  }

  lemma ThreeBack(a: bv8, b: bv8, c: bv8)
    requires 0xE0 <= a && a < 0xF0 && Continuation(b) && Continuation(c)
    ensures var ch := Join3(a as bv32, b, c);
            Byte(0xE0 | (ch >> 12)) == a && Byte(0x80 | ((ch >> 6) & 0x3F)) == b && Byte(0x80 | (ch & 0x3F)) == c
  {
  }

  lemma FourValue(a: bv8, b: bv8, c: bv8, d: bv8)
    requires 0xF0 <= a && a < 0xF8 && Continuation(b) && Continuation(c) && Continuation(d)
    ensures var ch := Join4(a as bv32, b, c, d);
            (ch < 0x10000 <==> a == 0xF0 && b < 0x90) && (0x10FFFF < ch <==> 0xF4 < a || (a == 0xF4 && 0x8F < b))
  {
  }

  lemma FourBack(a: bv8, b: bv8, c: bv8, d: bv8)
    requires 0xF0 <= a && a < 0xF8 && Continuation(b) && Continuation(c) && Continuation(d)
    ensures var ch := Join4(a as bv32, b, c, d);
            Byte(0xF0 | (ch >> 18)) == a && Byte(0x80 | ((ch >> 12) & 0x3F)) == b &&
            Byte(0x80 | ((ch >> 6) & 0x3F)) == c && Byte(0x80 | (ch & 0x3F)) == d
  {
  }

  /** The length of a form. */
  lemma FormLength(ch: bv32)
    ensures |Utf8WriteLow([], ch)| == if ch < 0x80 then 1 else if ch < 0x800 then 2 else 3
    ensures |Utf8WriteHigh([], ch)| == 4
  {
    hide Byte;
  }

  /** Three bytes: overlong forms, which are written shorter, and surrogates, which are written back
      as they were. */
  lemma ThreeIff(a: bv8, b: bv8, c: bv8)
    requires 0xE0 <= a && a < 0xF0 && Continuation(b) && Continuation(c)
    ensures var call := Low(Join3(a as bv32, b, c));
            (IsCharacter(call) && Utf8Form(call.ch) == [a, b, c] <==> Second3(a, b)) &&
            if a == 0xE0 && b < 0xA0 then |Form(call)| < 3 else Form(call) == [a, b, c]
  {
    hide Join3, Continuation, Byte;
    ThreeValue(a, b, c);
    ThreeBack(a, b, c);
    FormLength(Join3(a as bv32, b, c));
  }

  /** Four bytes: overlong forms and characters above U+10FFFF, all of which are written back as
      they were. */
  lemma FourIff(a: bv8, b: bv8, c: bv8, d: bv8)
    requires 0xF0 <= a && a < 0xF8 && Continuation(b) && Continuation(c) && Continuation(d)
    ensures var call := High(Join4(a as bv32, b, c, d));
            (IsCharacter(call) && Utf8Form(call.ch) == [a, b, c, d] <==> a <= 0xF4 && Second4(a, b)) &&
            Form(call) == [a, b, c, d]
  {
    hide Join4, Continuation, Byte;
    FourValue(a, b, c, d);
    FourBack(a, b, c, d);
    FormLength(Join4(a as bv32, b, c, d));
  }

  lemma LeadClass(a: bv8)
    requires 0x80 <= a
    ensures var lead := a as bv32;
            lead >= 0x80 && (lead - 0xC0 < 0x20 <==> 0xC0 <= a && a < 0xE0) &&
            (lead - 0xE0 < 0x10 <==> 0xE0 <= a && a < 0xF0) && (lead - 0xF0 < 0x08 <==> 0xF0 <= a && a < 0xF8)
  {
  }

  lemma LeadRange(a: bv8)
    ensures 0xC2 <= a && a <= 0xDF <==> 0xC2 <= a && a < 0xE0
    ensures 0xC2 <= a ==> 0xC0 <= a
    ensures 0xE0 <= a && a <= 0xEF <==> 0xE0 <= a && a < 0xF0
    ensures 0xF0 <= a && a <= 0xF4 ==> a < 0xF8
    ensures a < 0x80 <==> (a as bv32) < 0x80
  {
  }

  lemma TwoJoined(a: bv8, b: bv8)
    requires 0xC0 <= a && a < 0xE0 && Continuation(b)
    ensures Join2(a as bv32, b) == Two(Wide(a), Wide(b))
  {
  }

  lemma ThreeJoined(a: bv8, b: bv8, c: bv8)
    requires 0xE0 <= a && a < 0xF0 && Continuation(b) && Continuation(c)
    ensures Join3(a as bv32, b, c) == Three(Wide(a), Wide(b), Wide(c))
  {
  }

  lemma FourJoined(a: bv8, b: bv8, c: bv8, d: bv8)
    requires 0xF0 <= a && a < 0xF8 && Continuation(b) && Continuation(c) && Continuation(d)
    ensures Join4(a as bv32, b, c, d) == Four(Wide(a), Wide(b), Wide(c), Wide(d))
  {
  }

  /** What is reported for a sequence that is taken, standard or not, is the number its bytes stand for. */
  lemma ReportedValue(data: seq<bv8>)
    requires data != [] && Utf8Next(data).1 != []
    ensures Utf8Next(data).1[0].ch == Utf8Value(data[..Utf8Next(data).0])
  {
    hide Join2, Join3, Join4, Two, Three, Four, Continuation, Utf8Next;
    NextByBytes(data);
    var a := data[0];
    if a < 0x80 {
    } else if 0xC0 <= a && a < 0xE0 && Tails(data, 2) {
      TwoJoined(a, data[1]);
    } else if 0xE0 <= a && a < 0xF0 && Tails(data, 3) {
      ThreeJoined(a, data[1], data[2]);
    } else if 0xF0 <= a && a < 0xF8 && Tails(data, 4) {
      FourJoined(a, data[1], data[2], data[3]);
    }
  }

  /** The sequence taken from the start of the data, by its lead byte and continuation bytes. */
  lemma NextByBytes(data: seq<bv8>)
    requires data != []
    ensures var a := data[0];
            Utf8Next(data) ==
            if a < 0x80 then (1, [Low(a as bv32)])
            else if 0xC0 <= a && a < 0xE0 && Tails(data, 2) then (2, [Low(Join2(a as bv32, data[1]))])
            else if 0xE0 <= a && a < 0xF0 && Tails(data, 3) then (3, [Low(Join3(a as bv32, data[1], data[2]))])
            else if 0xF0 <= a && a < 0xF8 && Tails(data, 4) then
              (4, [High(Join4(a as bv32, data[1], data[2], data[3]))])
            else (1, [])
  {
    hide Join2, Join3, Join4, Continuation;
    LeadRange(data[0]);
    if 0x80 <= data[0] {
      LeadClass(data[0]);
    }
  }

  /** A sequence that the writer gives back: accepted, and not one of the overlong forms of two or
      three bytes. */
  predicate NextRepeats(data: seq<bv8>)
    requires data != []
  {
    var a, next := data[0], Utf8Next(data);
    next.1 != [] && (next.0 == 2 ==> 0xC2 <= a) && (next.0 == 3 && a == 0xE0 ==> 0xA0 <= data[1])
  }

  ghost predicate Repeats(data: seq<bv8>) {
    data == [] || (NextRepeats(data) && Repeats(data[Utf8Next(data).0..]))
  }

  function NextWritten(data: seq<bv8>): seq<bv8>
    requires data != []
  {
    var next := Utf8Next(data);
    if next.1 == [] then [] else Form(next.1[0])
  }

  /** The decoded sequence is the standard form of the character reported for it exactly when the
      standard admits it, and then the two agree on its length. */
  lemma NextIsStandardIff(data: seq<bv8>)
    requires data != []
    ensures NextIsStandard(data) <==> StandardLength(data) > 0
    ensures StandardLength(data) > 0 ==> StandardLength(data) == Utf8Next(data).0
  {
    hide Join2, Join3, Join4, Continuation, IsCharacter, Utf8Form, Form, Utf8Next, Second3, Second4;
    var a := data[0];
    NextByBytes(data);
    LeadRange(a);
    if a < 0x80 {
      OneIff(a);
      assert data[..1] == [a];
    } else if 0xC0 <= a && a < 0xE0 && Tails(data, 2) {
      TwoIff(a, data[1]);
      assert data[..2] == [a, data[1]];
    } else if 0xE0 <= a && a < 0xF0 && Tails(data, 3) {
      ThreeIff(a, data[1], data[2]);
      assert data[..3] == [a, data[1], data[2]];
    } else if 0xF0 <= a && a < 0xF8 && Tails(data, 4) {
      FourIff(a, data[1], data[2], data[3]);
      assert data[..4] == [a, data[1], data[2], data[3]];
    }
  }

  /** The writer gives the sequence back, or less than it: nothing for a byte that is skipped. */
  lemma NextRepeatsIff(data: seq<bv8>)
    requires data != []
    ensures if NextRepeats(data) then NextWritten(data) == data[..Utf8Next(data).0]
            else |NextWritten(data)| < Utf8Next(data).0
  {
    hide Join2, Join3, Join4, Continuation, IsCharacter, Utf8Form, Form, Utf8Next;
    var a := data[0];
    NextByBytes(data);
    if a < 0x80 {
      OneIff(a);
      assert data[..1] == [a];
    } else if 0xC0 <= a && a < 0xE0 && Tails(data, 2) {
      TwoIff(a, data[1]);
      assert data[..2] == [a, data[1]];
    } else if 0xE0 <= a && a < 0xF0 && Tails(data, 3) {
      ThreeIff(a, data[1], data[2]);
      assert data[..3] == [a, data[1], data[2]];
    } else if 0xF0 <= a && a < 0xF8 && Tails(data, 4) {
      FourIff(a, data[1], data[2], data[3]);
      assert data[..4] == [a, data[1], data[2], data[3]];
    }
  }

  // ---------- Whole inputs ----------

  ghost predicate AllCharacters(calls: seq<Call>) {
    forall i :: 0 <= i < |calls| ==> IsCharacter(calls[i])
  }

  ghost function Text(calls: seq<Call>): seq<bv32> {
    if calls == [] then [] else [calls[0].ch] + Text(calls[1..])
  }

  ghost predicate IsEncoding(data: seq<bv8>, text: seq<bv32>) {
    Scalars(text) && Utf8Encode(text) == data
  }

  lemma EncodingNext(text: seq<bv32>)
    requires text != [] && Scalars(text)
    ensures var data := Utf8Encode(text);
            data != [] && StandardLength(data) > 0 && data[StandardLength(data)..] == Utf8Encode(text[1..])
  {
    hide Utf8Form, Utf8Next, IsScalar, StandardLength;
    Utf8NextForm(text[0], Utf8Encode(text[1..]));
    FormLength(text[0]);
    var data, form := Utf8Encode(text), Utf8Form(text[0]);
    assert |form| > 0 by {
      WritesForm8([], text[0]);
    }
    assert data[..|form|] == form;
    NextIsStandardIff(data);
  }

  lemma {:induction false} EncodingIsWellFormed(text: seq<bv32>)
    requires Scalars(text)
    ensures WellFormed(Utf8Encode(text))
  {
    if text != [] {
      hide StandardLength, Utf8Encode, IsScalar;
      EncodingNext(text);
      EncodingIsWellFormed(text[1..]);
    } else {
      assert Utf8Encode(text) == [];
    }
  }

  lemma StandardNext(data: seq<bv8>)
    requires data != [] && StandardLength(data) > 0
    ensures var n, calls := StandardLength(data), Utf8Calls(data);
            calls != [] && IsCharacter(calls[0]) && Utf8Form(calls[0].ch) == data[..n] &&
              calls[1..] == Utf8Calls(data[n..])
  {
    hide IsCharacter, Utf8Form, Utf8Next, StandardLength;
    NextIsStandardIff(data);
    NextReportsOne(data);
  }

  lemma NextReportsOne(data: seq<bv8>)
    requires data != []
    ensures |Utf8Next(data).1| <= 1
  {
    hide Join2, Join3, Join4, Continuation;
  }

  lemma EncodingCons(ch: bv32, form: seq<bv8>, rest: seq<bv8>, text: seq<bv32>)
    requires IsScalar(ch) && Utf8Form(ch) == form && IsEncoding(rest, text)
    ensures IsEncoding(form + rest, [ch] + text)
  {
    hide IsScalar, Utf8Form;
    assert ([ch] + text)[1..] == text;
  }

  lemma {:induction false} WellFormedIsEncoding(data: seq<bv8>)
    requires WellFormed(data)
    ensures IsEncoding(data, Text(Utf8Calls(data)))
  {
    if data != [] {
      hide IsCharacter, Utf8Form, Utf8Next, StandardLength, IsScalar, Utf8Calls;
      StandardNext(data);
      var n, calls := StandardLength(data), Utf8Calls(data);
      WellFormedIsEncoding(data[n..]);
      CharacterIsScalar(calls[0]);
      EncodingCons(calls[0].ch, data[..n], data[n..], Text(calls[1..]));
      CutInTwo(data, n);
    }
  }

  lemma CharacterIsScalar(call: Call)
    requires IsCharacter(call)
    ensures IsScalar(call.ch)
  {
  }

  /** The grammar admits exactly the encodings of sequences of scalar values, and those the decoder
      reads as what they encode. */
  lemma WellFormedIff(data: seq<bv8>)
    ensures WellFormed(data) <==> exists text :: IsEncoding(data, text)
    ensures forall text :: IsEncoding(data, text) ==> Utf8Calls(data) == Reports(text)
  {
    hide WellFormed, Utf8Calls, Reports, Scalars, Utf8Encode;
    forall text | IsEncoding(data, text)
      ensures WellFormed(data) && Utf8Calls(data) == Reports(text)
    {
      EncodingIsWellFormed(text);
      Utf8RoundTrip(text);
    }
    if WellFormed(data) {
      WellFormedIsEncoding(data);
    }
  }

  lemma {:induction false} WrittenFrom(calls: seq<Call>, out: seq<bv8>)
    ensures Fold(calls, out, Utf8WriteLow, Utf8WriteHigh) == out + Utf8Written(calls)
  {
    if calls != [] {
      hide Utf8WriteLow, Utf8WriteHigh;
      var c := calls[0];
      WritesBehind(c, out);
      WritesBehind(c, []);
      WrittenFrom(calls[1..], out + Form(c));
      WrittenFrom(calls[1..], Form(c));
      Associative(out, Form(c), Utf8Written(calls[1..]));
    }
  }

  lemma WritesBehind(c: Call, out: seq<bv8>)
    ensures (if c.Low? then Utf8WriteLow(out, c.ch) else Utf8WriteHigh(out, c.ch)) == out + Form(c)
  {
    hide Byte;
  }

  lemma WrittenNext(data: seq<bv8>)
    requires data != []
    ensures Utf8Written(Utf8Calls(data)) == NextWritten(data) + Utf8Written(Utf8Calls(data[Utf8Next(data).0..]))
  {
    hide Utf8Next, Utf8Calls, Fold, Utf8WriteLow, Utf8WriteHigh;
    FoldNext(data, [], Utf8WriteLow, Utf8WriteHigh);
    WrittenFrom(Utf8Calls(data[Utf8Next(data).0..]), NextWritten(data));
  }

  lemma EqualParts<T>(w1: seq<T>, w2: seq<T>, d1: seq<T>, d2: seq<T>)
    requires |w1| <= |d1| && |w2| <= |d2|
    ensures w1 + w2 == d1 + d2 <==> w1 == d1 && w2 == d2
    ensures |w1| + |w2| == |d1| + |d2| <==> |w1| == |d1| && |w2| == |d2|
  {
    if w1 + w2 == d1 + d2 {
      assert |w1 + w2| == |d1 + d2|;
      assert w1 == (w1 + w2)[..|w1|] && d1 == (d1 + d2)[..|w1|];
      assert w2 == (w1 + w2)[|w1|..] && d2 == (d1 + d2)[|w1|..];
    }
  }

  lemma CutInTwo<T>(data: seq<T>, n: nat)
    requires n <= |data|
    ensures data == data[..n] + data[n..]
  {
  }

  lemma RepeatsNext(data: seq<bv8>)
    requires data != []
    ensures Repeats(data) <==> NextRepeats(data) && Repeats(data[Utf8Next(data).0..])
  {
    hide NextRepeats, Utf8Next;
  }

  /** Decoding and writing again never makes the input longer, and keeps its length only when it
      keeps its bytes: when every sequence is accepted and none is overlong in two or three bytes. */
  lemma {:induction false} WrittenBackIff(data: seq<bv8>)
    ensures |Utf8Written(Utf8Calls(data))| <= |data|
    ensures |Utf8Written(Utf8Calls(data))| == |data| <==> Repeats(data)
    ensures Utf8Written(Utf8Calls(data)) == data <==> Repeats(data)
  {
    if data != [] {
      hide Utf8Next, Utf8Calls, Fold, Utf8Written, NextRepeats, NextWritten, Repeats;
      var n := Utf8Next(data).0;
      WrittenNext(data);
      NextRepeatsIff(data);
      WrittenBackIff(data[n..]);
      RepeatsNext(data);
      CutInTwo(data, n);
      EqualParts(NextWritten(data), Utf8Written(Utf8Calls(data[n..])), data[..n], data[n..]);
    }
  }

  lemma NextBothIff(data: seq<bv8>)
    requires data != []
    ensures StandardLength(data) > 0 <==> NextRepeats(data) && IsCharacter(Utf8Next(data).1[0])
    ensures StandardLength(data) > 0 ==> StandardLength(data) == Utf8Next(data).0
  {
    hide StandardLength, Utf8Next, Byte, IsScalar;
    NextIsStandardIff(data);
    NextRepeatsIff(data);
    if StandardLength(data) > 0 {
      FormOfCharacter(Utf8Next(data).1[0]);
    } else if NextRepeats(data) && IsCharacter(Utf8Next(data).1[0]) {
      FormOfCharacter(Utf8Next(data).1[0]);
    }
  }

  lemma FormOfCharacter(call: Call)
    requires IsCharacter(call)
    ensures Form(call) == Utf8Form(call.ch)
  {
    hide IsScalar;
  }

  /** An input is well-formed exactly when re-encoding gives it back and all reported characters
      are scalar values of their size class: the second because surrogates, characters above
      U+10FFFF and overlong forms of four bytes are written back as they were. */
  lemma {:induction false} WellFormedIffWrittenBack(data: seq<bv8>)
    ensures WellFormed(data) <==>
            Utf8Written(Utf8Calls(data)) == data && AllCharacters(Utf8Calls(data))
  {
    hide Utf8Written;
    WrittenBackIff(data);
    WellFormedIffRepeats(data);
  }

  lemma {:induction false} WellFormedIffRepeats(data: seq<bv8>)
    ensures WellFormed(data) <==> Repeats(data) && AllCharacters(Utf8Calls(data))
  {
    if data != [] {
      hide StandardLength, Utf8Next, NextRepeats, IsCharacter;
      NextBothIff(data);
      NextReportsOne(data);
      WellFormedIffRepeats(data[Utf8Next(data).0..]);
      if NextRepeats(data) {
        CallsOfNext(data);
      }
    }
  }

  lemma AllOfBoth(a: seq<Call>, b: seq<Call>)
    ensures AllCharacters(a + b) <==> AllCharacters(a) && AllCharacters(b)
  {
    hide IsCharacter;
    assert forall i :: 0 <= i < |a| ==> a[i] == (a + b)[i];
    assert forall i :: 0 <= i < |b| ==> b[i] == (a + b)[|a| + i];
  }

  lemma CallsOfNext(data: seq<bv8>)
    requires data != [] && NextRepeats(data)
    ensures AllCharacters(Utf8Calls(data)) <==>
            IsCharacter(Utf8Next(data).1[0]) && AllCharacters(Utf8Calls(data[Utf8Next(data).0..]))
  {
    hide Utf8Next, IsCharacter;
    NextReportsOne(data);
    AllOfBoth(Utf8Next(data).1, Utf8Calls(data[Utf8Next(data).0..]));
  }

  /** An overlong form decodes to the character it would be, and is written back as one byte; a
      surrogate is even written back as it was. */
  lemma OverlongIsAccepted()
    ensures !WellFormed([0xC0, 0x80]) && Utf8Calls([0xC0, 0x80]) == [Low(0)] && !Repeats([0xC0, 0x80])
    ensures !WellFormed([0xED, 0xA0, 0x80]) && Utf8Calls([0xED, 0xA0, 0x80]) == [Low(0xD800)] &&
            Repeats([0xED, 0xA0, 0x80])
  {
    var data: seq<bv8> := [0xC0, 0x80];
    assert Utf8Next(data) == (2, [Low(0)]);
    assert data[2..] == [];
    var half: seq<bv8> := [0xED, 0xA0, 0x80];
    assert Utf8Next(half) == (3, [Low(0xD800)]);
    assert half[3..] == [];
  }
}
