/** Character classes, the escaping done by the printer, and what the parser makes of character
    data and attribute values, as functions of text. A char stands for one byte of the buffer. */
module XmlText {
  import opened Basics
  import opened CStrings
  import Transcoding

  // ----- character classes

  predicate IsStartSymbol(c: char) {
    c as int >= 128 || 'a' <= c <= 'z' || 'A' <= c <= 'Z' || c == '_' || c == ':'
  }

  predicate IsDigit(c: char) {
    '0' <= c <= '9'
  }

  predicate IsSymbol(c: char) {
    IsStartSymbol(c) || IsDigit(c) || c == '-' || c == '.'
  }

  /** The characters of names and white space, written out; those from 128 on are all of names. */
  lemma StartSymbols(c: char)
    ensures IsStartSymbol(c) <==>
            c as int >= 128 || c in "abcdefghijklmnopqrstuvwxyz" || c in "ABCDEFGHIJKLMNOPQRSTUVWXYZ" || c == '_' ||
              c == ':'
  {
    LowerLetters(c);
    UpperLetters(c);
  }

  lemma LowerLetters(c: char)
    ensures 'a' <= c <= 'z' <==> c in "abcdefghijklmnopqrstuvwxyz"
  {
    var letters := "abcdefghijklmnopqrstuvwxyz";
    assert forall k :: 0 <= k < 26 ==> 'a' <= letters[k] <= 'z';
    if 'a' <= c <= 'z' {
      assert letters[c as int - 'a' as int] == c;
    }
  }

  lemma UpperLetters(c: char)
    ensures 'A' <= c <= 'Z' <==> c in "ABCDEFGHIJKLMNOPQRSTUVWXYZ"
  {
    var letters := "ABCDEFGHIJKLMNOPQRSTUVWXYZ";
    assert forall k :: 0 <= k < 26 ==> 'A' <= letters[k] <= 'Z';
    if 'A' <= c <= 'Z' {
      assert letters[c as int - 'A' as int] == c;
    }
  }

  lemma OtherSymbols(c: char)
    ensures IsSymbol(c) <==> IsStartSymbol(c) || c in "0123456789-."
    ensures IsSpace(c) <==> c in " \t\r\n"
  {
    hide IsStartSymbol;
    if '0' <= c <= '9' {
      assert "0123456789-."[c as int - '0' as int] == c;
    }
  }

  /** A text that some NUL ends: every scan stops inside it. */
  predicate Terminated(r: string) {
    r != "" && r[|r| - 1] == NUL
  }

  /** How far a scan over white space goes. */
  function SkipSpace(r: string): (n: nat)
    requires Terminated(r)
    ensures n < |r| && !IsSpace(r[n]) && forall i :: 0 <= i < n ==> IsSpace(r[i])
  {
    if IsSpace(r[0]) then 1 + SkipSpace(r[1..]) else 0
  }

  /** How far a scan over name characters goes. */
  function SkipSymbols(r: string): (n: nat)
    requires Terminated(r)
    ensures n < |r| && !IsSymbol(r[n]) && forall i :: 0 <= i < n ==> IsSymbol(r[i])
  {
    if IsSymbol(r[0]) then 1 + SkipSymbols(r[1..]) else 0
  }

  // ----- references

  /** A piece of text read: what it stands for and how many characters it took. */
  datatype Decoded = Decoded(text: string, used: nat)

  const WORD32 := 0x1_0000_0000

  function Characters(bytes: seq<bv8>): (s: string)
    ensures |s| == |bytes| && forall i :: 0 <= i < |s| ==> s[i] as int == bytes[i] as int
  {
    seq(|bytes|, i requires 0 <= i < |bytes| => bytes[i] as int as char)
  }

  /** utf8_writer::any. */
  function Utf8(ch: nat): (s: string)
    requires ch < WORD32
    ensures 1 <= |s| <= 4
  {
    FormLength(ch as bv32);
    Characters(Transcoding.Utf8Form(ch as bv32))
  }

  lemma FormLength(ch: bv32)
    ensures 1 <= |Transcoding.Utf8Form(ch)| <= 4
  {
    hide Transcoding.Byte;
  }

  lemma ByteBack(v: nat)
    requires v < 128
    ensures v as bv8 as int == v
  {
    if v < 16 {
    } else if v < 32 {
    } else if v < 48 {
    } else if v < 64 {
    } else if v < 80 {
    } else if v < 96 {
    } else if v < 112 {
    }
  }

  lemma WordOfByte(v: nat)
    requires v < 128
    ensures v as bv32 == v as bv8 as bv32 && v as bv8 < 0x80
  {
  }

  lemma LowByte(x: bv8)
    requires x < 0x80
    ensures x as bv32 < 0x80 && Transcoding.Byte(x as bv32) == x
  {
  }

  lemma SmallByte(v: nat)
    requires v < 128
    ensures v as bv32 < 0x80 && Transcoding.Byte(v as bv32) as int == v
  {
    hide Transcoding.Byte;
    ByteBack(v);
    WordOfByte(v);
    LowByte(v as bv8);
  }

  lemma SmallUtf8(v: nat)
    requires v < 128
    ensures Utf8(v) == [v as char]
  {
    hide Transcoding.Byte;
    SmallByte(v);
    assert Transcoding.Utf8Form(v as bv32) == [Transcoding.Byte(v as bv32)];
  }

  function HexDigit(c: char): (d: int)
    ensures -1 <= d < 16
  {
    if IsDigit(c) then c as int - '0' as int
    else if 'a' <= c <= 'f' then c as int - 'a' as int + 10
    else if 'A' <= c <= 'F' then c as int - 'A' as int + 10
    else -1
  }

  function DigitOf(c: char, base: nat): int {
    if base == 16 then HexDigit(c) else if IsDigit(c) then c as int - '0' as int else -1
  }

  /** Digits from position k on, accumulated in 32 bits: where they end and their value. */
  function Digits(r: string, k: nat, base: nat, v: nat): (p: (nat, nat))
    requires Terminated(r) && k < |r| && v < WORD32
    ensures k <= p.0 < |r| && p.1 < WORD32
    decreases |r| - k
  {
    if DigitOf(r[k], base) >= 0 then Digits(r, k + 1, base, (base * v + DigitOf(r[k], base)) % WORD32) else (k, v)
  }

  /** How many characters of word are found from position k on. */
  function Match(r: string, k: nat, word: string): (n: nat)
    requires Terminated(r) && k < |r| && NoNul(word)
    ensures n <= |word| && k + n < |r|
    decreases |word|
  {
    if word != "" && r[k] == word[0] then 1 + Match(r, k + 1, word[1..]) else 0
  }

  /** A named reference: the rest of the name from position k decides; a failed match leaves the
      text read so far as it is. */
  function Named(r: string, k: nat, word: string, c: char): (d: Decoded)
    requires Terminated(r) && k < |r| && NoNul(word)
    ensures d.used < |r|
  {
    var n := Match(r, k, word);
    if n == |word| then Decoded([c], k + n) else Decoded(r[..k + n], k + n)
  }

  /** A character reference whose digits start at position k. */
  function Numeric(r: string, k: nat, base: nat): (d: Decoded)
    requires Terminated(r) && k < |r|
    ensures d.used < |r|
  {
    var (e, v) := Digits(r, k, base, 0);
    if r[k] == ';' then Decoded(r[..k], k)
    else if r[e] == ';' then Decoded(Utf8(v), e + 1)
    else Decoded(r[..e], e)
  }

  /** A reference at the start of r, as strconv_escape reads it. */
  function Reference(r: string): (d: Decoded)
    requires Terminated(r) && r[0] == '&'
    ensures 0 < d.used < |r|
  {
    match r[1]
    case '#' => if r[2] == 'x' then Numeric(r, 3, 16) else Numeric(r, 2, 10)
    case 'a' =>
      if r[2] == 'm' then Named(r, 3, "p;", '&')
      else if r[2] == 'p' then Named(r, 3, "os;", '\'')
      else Decoded(r[..2], 2)
    case 'g' => Named(r, 2, "t;", '>')
    case 'l' => Named(r, 2, "t;", '<')
    case 'q' => Named(r, 2, "uot;", '"')
    case _ => Decoded(r[..1], 1)
  }

  // ----- character data and attribute values

  function Then(text: string, used: nat, d: Decoded): Decoded {
    Decoded(text + d.text, used + d.used)
  }

  /** Character data up to and including the `<` that ends it, or up to the terminator. Line ends
      become newlines and references are replaced. */
  function CharData(r: string): (d: Decoded)
    requires Terminated(r)
    ensures d.used < |r| && (d.used == 0 ==> r[0] == NUL)
    decreases |r|
  {
    if r[0] == '<' then Decoded("", 1)
    else if r[0] == NUL then Decoded("", 0)
    else if r[0] == '\r' then
      if r[1] == '\n' then Then("\n", 2, CharData(r[2..])) else Then("\n", 1, CharData(r[1..]))
    else if r[0] == '&' then
      var ref := Reference(r);
      Then(ref.text, ref.used, CharData(r[ref.used..]))
    else Then([r[0]], 1, CharData(r[1..]))
  }

  /** An attribute value up to and including its closing quote. White space becomes blanks, one
      for a carriage return and line feed, and references are replaced. */
  function AttributeValue(r: string, quote: char): (o: Option<Decoded>)
    requires Terminated(r) && (quote == '"' || quote == '\'')
    ensures o.Some? ==> 0 < o.value.used < |r|
    decreases |r|
  {
    if r[0] == quote then Some(Decoded("", 1))
    else if IsSpace(r[0]) then
      var n := if r[0] == '\r' && r[1] == '\n' then 2 else 1;
      After(" ", n, AttributeValue(r[n..], quote))
    else if r[0] == '&' then
      var ref := Reference(r);
      After(ref.text, ref.used, AttributeValue(r[ref.used..], quote))
    else if r[0] == NUL then None
    else After([r[0]], 1, AttributeValue(r[1..], quote))
  }

  function After(text: string, used: nat, o: Option<Decoded>): Option<Decoded> {
    if o.None? then None else Some(Then(text, used, o.value))
  }

  // ----- escaping

  /** The characters that the printer never writes as they are. */
  predicate Special(c: char, inAttribute: bool) {
    c == '&' || c == '<' || c == '>'
    || (c < 32 as char && c != '\t' && (inAttribute || (c != '\n' && c != '\r')))
    || (inAttribute && c == '"')
  }

  function EscapeChar(c: char, inAttribute: bool): string {
    if !Special(c, inAttribute) then [c]
    else match c
      case '&' => "&amp;"
      case '<' => "&lt;"
      case '>' => "&gt;"
      case '"' => "&quot;"
      case _ => ['&', '#', ('0' as int + c as int / 10) as char, ('0' as int + c as int % 10) as char, ';']
  }

  function Escape(s: string, inAttribute: bool): string {
    if s == "" then "" else EscapeChar(s[0], inAttribute) + Escape(s[1..], inAttribute)
  }

  lemma EscapedChar(c: char, inAttribute: bool, d: char)
    requires d in EscapeChar(c, inAttribute)
    ensures d != '<' && d != '>' && (inAttribute ==> d != '"' && d != '\n' && d != '\r')
    ensures d as int < 32 ==> d == '\t' || d == '\n' || d == '\r'
  {
  }

  /** Printed text holds no markup: neither `<` nor `>`, in attribute values no quotation mark and no
      line end either, and nowhere a control character but white space. */
  lemma {:induction false} EscapedHoldsNoMarkup(s: string, inAttribute: bool, d: char)
    requires d in Escape(s, inAttribute)
    ensures d != '<' && d != '>' && (inAttribute ==> d != '"' && d != '\n' && d != '\r')
    ensures d as int < 32 ==> d == '\t' || d == '\n' || d == '\r'
  {
    hide EscapeChar;
    if d in EscapeChar(s[0], inAttribute) {
      EscapedChar(s[0], inAttribute, d);
    } else {
      EscapedHoldsNoMarkup(s[1..], inAttribute, d);
    }
  }

  // ----- reading back what the printer wrote

  lemma EscapedCharReference(c: char, inAttribute: bool, x: string)
    requires Special(c, inAttribute) && c != NUL && Terminated(x)
    ensures var e := EscapeChar(c, inAttribute);
      e[0] == '&' && Terminated(e + x) && Reference(e + x) == Decoded([c], |e|)
  {
    match c
    case '&' => NamedReference("&amp;", '&', x);
    case '<' => NamedReference("&lt;", '<', x);
    case '>' => NamedReference("&gt;", '>', x);
    case '"' => NamedReference("&quot;", '"', x);
    case _ => NumericReference(c, x);
  }

  lemma NamedReference(e: string, c: char, x: string)
    requires (e, c) in {("&amp;", '&'), ("&lt;", '<'), ("&gt;", '>'), ("&quot;", '"')} && Terminated(x)
    ensures Terminated(e + x) && Reference(e + x) == Decoded([c], |e|)
  {
    var r := e + x;
    hide Numeric, Utf8;
    if c == '"' {
      MatchAll(r, 2, "uot;");
    } else if c == '&' {
      MatchAll(r, 3, "p;");
    } else {
      MatchAll(r, 2, "t;");
    }
  }

  lemma {:induction false} MatchAll(r: string, k: nat, word: string)
    requires Terminated(r) && NoNul(word) && k + |word| < |r| && r[k..k + |word|] == word
    ensures Match(r, k, word) == |word|
    decreases |word|
  {
    if word != "" {
      assert r[k] == r[k..k + |word|][0];
      assert r[k + 1..k + |word|] == r[k..k + |word|][1..];
      MatchAll(r, k + 1, word[1..]);
    }
  }

  lemma NumericReference(c: char, x: string)
    requires c as int < 32 && c != NUL && Terminated(x)
    ensures var e := ['&', '#', ('0' as int + c as int / 10) as char, ('0' as int + c as int % 10) as char, ';'];
      Terminated(e + x) && Reference(e + x) == Decoded([c], |e|)
  {
    hide Named, Digits, Match, EscapeChar, Utf8;
    var v := c as int;
    SmallUtf8(v);
    var r := ['&', '#', ('0' as int + v / 10) as char, ('0' as int + v % 10) as char, ';'] + x;
    TwoDigits(r, v);
    assert Numeric(r, 2, 10) == Decoded(Utf8(v), 5);
  }

  lemma TwoDigits(r: string, v: nat)
    requires Terminated(r) && |r| > 5 && v < 32
    requires r[2] as int == '0' as int + v / 10 && r[3] as int == '0' as int + v % 10 && r[4] == ';'
    ensures Digits(r, 2, 10, 0) == (4, v)
  {
    hide Digits;
    DigitsStep(r, 2, 10, 0);
    DigitsStep(r, 3, 10, v / 10);
    DigitsStep(r, 4, 10, v);
  }

  lemma DigitsStep(r: string, k: nat, base: nat, v: nat)
    requires Terminated(r) && k < |r| && v < WORD32
    ensures Digits(r, k, base, v) ==
      if DigitOf(r[k], base) >= 0 && k + 1 < |r| then Digits(r, k + 1, base, (base * v + DigitOf(r[k], base)) % WORD32)
      else (k, v)
  {
  }

  /** Line ends as section 2.11 of XML 1.0 normalizes them. */
  function LineEnds(s: string): string
    decreases |s|
  {
    if s == "" then ""
    else if s[0] == '\r' then "\n" + LineEnds(if |s| > 1 && s[1] == '\n' then s[2..] else s[1..])
    else [s[0]] + LineEnds(s[1..])
  }

  /** An attribute value as it survives printing and reading: a tab becomes a blank. Line ends are
      written as references, which attribute-value normalization leaves alone. */
  function Blanked(s: string): string {
    if s == "" then "" else [BlankTab(s[0])] + Blanked(s[1..])
  }

  function BlankTab(c: char): char {
    if c == '\t' then ' ' else c
  }

  lemma {:induction false} LineEndsKeeps(s: string)
    ensures '\r' !in LineEnds(s)
    ensures LineEnds(s) == s <==> '\r' !in s
    decreases |s|
  {
    if s != "" {
      LineEndsKeeps(if s[0] == '\r' && |s| > 1 && s[1] == '\n' then s[2..] else s[1..]);
      assert s == [s[0]] + s[1..];
      if s[0] == '\r' { assert s[0] in s; }
    }
  }

  lemma {:induction false} BlankedKeeps(s: string)
    ensures Blanked(s) == s <==> '\t' !in s
  {
    if s != "" {
      BlankedKeeps(s[1..]);
      assert s == [s[0]] + s[1..];
    }
  }

  lemma {:induction false} LineEndsNoNul(s: string)
    requires NoNul(s)
    ensures NoNul(LineEnds(s))
    decreases |s|
  {
    if s != "" { LineEndsNoNul(if s[0] == '\r' && |s| > 1 && s[1] == '\n' then s[2..] else s[1..]); }
  }

  lemma {:induction false} BlankedNoNul(s: string)
    requires NoNul(s)
    ensures NoNul(Blanked(s))
  {
    if s != "" { BlankedNoNul(s[1..]); }
  }

  lemma CharDataStep(c: char, x: string)
    requires c != NUL && c != '\r' && Terminated(x)
    ensures var e := EscapeChar(c, false); Terminated(e + x) && CharData(e + x) == Then([c], |e|, CharData(x))
  {
    var e := EscapeChar(c, false);
    assert (e + x)[|e|..] == x;
    if Special(c, false) { EscapedCharReference(c, false, x); }
  }

  lemma AttributeValueStep(c: char, x: string)
    requires c != NUL && Terminated(x)
    ensures var e := EscapeChar(c, true);
      Terminated(e + x) && AttributeValue(e + x, '"') == After([BlankTab(c)], |e|, AttributeValue(x, '"'))
  {
    var e := EscapeChar(c, true);
    assert (e + x)[|e|..] == x;
    if Special(c, true) { EscapedCharReference(c, true, x); }
  }

  lemma EscapeSplits(s: string, inAttribute: bool, x: string)
    requires s != ""
    ensures Escape(s, inAttribute) + x == EscapeChar(s[0], inAttribute) + (Escape(s[1..], inAttribute) + x)
    ensures s == [s[0]] + s[1..]
  {
    hide EscapeChar;
    Associative(EscapeChar(s[0], inAttribute), Escape(s[1..], inAttribute), x);
  }

  lemma Associative(a: string, b: string, c: string)
    ensures a + b + c == a + (b + c)
  {
  }

  lemma {:induction false} EscapeConcat(s: string, s': string, inAttribute: bool)
    ensures Escape(s + s', inAttribute) == Escape(s, inAttribute) + Escape(s', inAttribute)
  {
    hide EscapeChar;
    if s == "" {
      assert s + s' == s';
    } else {
      assert (s + s')[1..] == s[1..] + s';
      EscapeConcat(s[1..], s', inAttribute);
    }
  }

  /** What escaping puts first. */
  lemma EscapeHead(s: string, x: string)
    requires Terminated(x) && NoNul(s)
    ensures Terminated(Escape(s, false) + x)
    ensures var r := Escape(s, false) + x;
      r[0] == if s == "" then x[0] else if Special(s[0], false) then '&' else s[0]
  {
    hide EscapeChar, Special;
    if s == "" {
      assert Escape(s, false) + x == x;
    } else {
      hide Escape;
      EscapeSplits(s, false, x);
      EscapedFirst(s[0]);
    }
  }

  lemma EscapedFirst(c: char)
    ensures EscapeChar(c, false) != "" && EscapeChar(c, false)[0] == if Special(c, false) then '&' else c
  {
  }

  /** Character data: every text without NUL is read back with its line ends normalized, so it is
      read back unchanged exactly when it holds no carriage return. */
  lemma {:induction false} CharDataReadsBack(s: string, x: string)
    requires NoNul(s) && Terminated(x) && x[0] == '<'
    ensures Terminated(Escape(s, false) + x)
    ensures CharData(Escape(s, false) + x) == Decoded(LineEnds(s), |Escape(s, false)| + 1)
    decreases |s|
  {
    hide CharData, EscapeChar, LineEnds;
    EscapeHead(s, x);
    if s == "" {
      assert Escape(s, false) + x == x && LineEnds(s) == "" by { LineEndsEmpty(); }
      CharDataEnd(x);
    } else if s[0] != '\r' {
      CharDataReadsBack(s[1..], x);
      CharDataStep(s[0], Escape(s[1..], false) + x);
      EscapeSplits(s, false, x);
      LineEndsStep(s);
    } else if |s| > 1 && s[1] == '\n' {
      CharDataReadsBack(s[2..], x);
      EscapeSplits(s, false, x);
      EscapeSplits(s[1..], false, x);
      assert s[1..][1..] == s[2..];
      CharDataReturnNewline(Escape(s[2..], false) + x);
      LineEndsStep(s);
    } else {
      CharDataReadsBack(s[1..], x);
      EscapeSplits(s, false, x);
      EscapeHead(s[1..], x);
      CharDataReturn(Escape(s[1..], false) + x);
      LineEndsStep(s);
    }
  }

  lemma LineEndsStep(s: string)
    requires s != ""
    ensures s[0] != '\r' ==> LineEnds(s) == [s[0]] + LineEnds(s[1..])
    ensures s[0] == '\r' && |s| > 1 && s[1] == '\n' ==> LineEnds(s) == "\n" + LineEnds(s[2..])
    ensures s[0] == '\r' && !(|s| > 1 && s[1] == '\n') ==> LineEnds(s) == "\n" + LineEnds(s[1..])
    ensures EscapeChar('\r', false) == "\r" && EscapeChar('\n', false) == "\n"
  {
  }

  lemma LineEndsEmpty()
    ensures LineEnds("") == ""
  {
  }

  lemma CharDataEnd(x: string)
    requires Terminated(x) && x[0] == '<'
    ensures CharData(x) == Decoded("", 1)
  {
  }

  lemma CharDataReturn(y: string)
    requires Terminated(y) && y[0] != '\n'
    ensures CharData("\r" + y) == Then("\n", 1, CharData(y))
  {
    assert ("\r" + y)[1..] == y;
  }

  lemma CharDataReturnNewline(y: string)
    requires Terminated(y)
    ensures CharData("\r" + ("\n" + y)) == Then("\n", 2, CharData(y))
  {
    assert ("\r" + ("\n" + y))[2..] == y;
  }

  /** Attribute values: every value without NUL is read back with its tabs turned into blanks, so
      it is read back unchanged exactly when it holds no tab. */
  lemma {:induction false} AttributeValueReadsBack(s: string, x: string)
    requires NoNul(s) && Terminated(x) && x[0] == '"'
    ensures Terminated(Escape(s, true) + x)
    ensures AttributeValue(Escape(s, true) + x, '"') == Some(Decoded(Blanked(s), |Escape(s, true)| + 1))
  {
    hide AttributeValue, EscapeChar;
    if s != "" {
      AttributeValueReadsBack(s[1..], x);
      AttributeValueStep(s[0], Escape(s[1..], true) + x);
      EscapeSplits(s, true, x);
    } else {
      assert Escape(s, true) + x == x;
      AttributeValueEnd(x);
    }
  }

  lemma AttributeValueEnd(x: string)
    requires Terminated(x) && x[0] == '"'
    ensures AttributeValue(x, '"') == Some(Decoded("", 1))
  {
  }
}
