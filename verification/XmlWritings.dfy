/** Every way to write a text, as sections 2.4, 4.1 and 4.6 of XML 1.0 allow it, whoever wrote it: each
    character as it is, by one of the five predefined entities, or by a decimal or hexadecimal
    reference. The parser reads all of them, and takes any other ampersand for itself. */
module XmlWritings {
  import opened Basics
  import opened CStrings
  import opened XmlText
  import N = Numerals

  datatype Piece =
    | Plain(c: char)
    | Entity(c: char)
    | Decimal(digits: seq<N.Digit>)
    | Hexadecimal(digits: seq<N.Digit>)

  const ENTITIES := map['&' := "&amp;", '<' := "&lt;", '>' := "&gt;", '"' := "&quot;", '\'' := "&apos;"]

  predicate WellFormed(p: Piece) {
    match p
    case Plain(_) => true
    case Entity(c) => c in ENTITIES
    case Decimal(ds) => N.AreDigits(ds, 10) && ds != []
    case Hexadecimal(ds) => N.AreDigits(ds, 16) && ds != []
  }

  function Writing(p: Piece): (s: string)
    requires WellFormed(p)
    ensures s != ""
  {
    match p
    case Plain(c) => [c]
    case Entity(c) => ENTITIES[c]
    case Decimal(ds) => "&#" + N.Shown(ds) + ";"
    case Hexadecimal(ds) => "&#x" + N.Shown(ds) + ";"
  }

  /** What the piece stands for. Numbers are those of characters; the source keeps 32 bits of them. */
  function Stands(p: Piece): string {
    match p
    case Plain(c) => [c]
    case Entity(c) => [c]
    case Decimal(ds) => Utf8(N.Value(ds, 10) % WORD32)
    case Hexadecimal(ds) => Utf8(N.Value(ds, 16) % WORD32)
  }

  // ----- one reference

  /** Reading a reference, whatever follows it. */
  lemma ReferenceRead(p: Piece, x: string)
    requires WellFormed(p) && !p.Plain? && Terminated(x)
    ensures Terminated(Writing(p) + x) && Writing(p)[0] == '&'
    ensures Reference(Writing(p) + x) == Decoded(Stands(p), |Writing(p)|)
  {
    match p
    case Entity(c) => EntityRead(c, x);
    case Decimal(ds) => DecimalRead(ds, x);
    case Hexadecimal(ds) => HexadecimalRead(ds, x);
  }

  lemma EntityRead(c: char, x: string)
    requires c in ENTITIES && Terminated(x)
    ensures Terminated(ENTITIES[c] + x) && ENTITIES[c][0] == '&'
    ensures Reference(ENTITIES[c] + x) == Decoded([c], |ENTITIES[c]|)
  {
    if c == '\'' {
      hide Numeric, Match;
      MatchAll("&apos;" + x, 3, "os;");
    } else {
      hide Reference;
      NamedReference(ENTITIES[c], c, x);
    }
  }

  lemma ShownDigit(d: N.Digit, base: nat)
    requires (base == 10 || base == 16) && d.value < base
    ensures DigitOf(N.Show(d), base) == d.value && N.Show(d) != ';' && N.Show(d) != 'x'
  {
  }

  lemma NoDigit(base: nat)
    ensures DigitOf(';', base) < 0 && DigitOf(NUL, base) < 0
  {
  }

  lemma Accumulates(v: nat, base: nat, d: nat)
    requires base == 10 || base == 16
    ensures (base * (v % WORD32) + d) % WORD32 == ((if base == 16 then 16 else 10) * v + d) % WORD32
  {
    var q := v / WORD32;
    assert v == q * WORD32 + v % WORD32;
    var x, y := base * (v % WORD32) + d, (if base == 16 then 16 else 10) * v + d;
    assert y == x + (if base == 16 then 16 * q else 10 * q) * WORD32;
  }

  lemma ValueStep(ds: seq<N.Digit>, j: nat, base: nat)
    requires 0 < j <= |ds|
    ensures N.Value(ds[..j], base) == (if base == 16 then 16 else 10) * N.Value(ds[..j - 1], base) + ds[j - 1].value
  {
    assert ds[..j][..j - 1] == ds[..j - 1];
  }

  lemma DigitRead(r: string, k: nat, base: nat, d: N.Digit, v: nat)
    requires Terminated(r) && k + 1 < |r| && (base == 10 || base == 16) && d.value < base && r[k] == N.Show(d)
    ensures Digits(r, k, base, v % WORD32) ==
            Digits(r, k + 1, base, ((if base == 16 then 16 else 10) * v + d.value) % WORD32)
  {
    hide Digits, DigitOf, N.Show;
    ShownDigit(d, base);
    DigitsStep(r, k, base, v % WORD32);
    Accumulates(v, base, d.value);
  }

  /** After the first j of the digits from position k on. */
  lemma {:induction false} DigitsSoFar(r: string, k: nat, base: nat, ds: seq<N.Digit>, j: nat)
    requires Terminated(r) && N.AreDigits(ds, base) && j <= |ds| && k + |ds| < |r|
    requires r[k..k + |ds|] == N.Shown(ds)
    ensures Digits(r, k, base, 0) == Digits(r, k + j, base, N.Value(ds[..j], base) % WORD32)
  {
    hide Digits, DigitOf, N.Show;
    if j > 0 {
      hide N.Value;
      DigitsSoFar(r, k, base, ds, j - 1);
      assert r[k + j - 1] == r[k..k + |ds|][j - 1] == N.Show(ds[j - 1]);
      DigitRead(r, k + j - 1, base, ds[j - 1], N.Value(ds[..j - 1], base));
      ValueStep(ds, j, base);
    }
  }

  lemma NumericRead(r: string, k: nat, base: nat, ds: seq<N.Digit>)
    requires Terminated(r) && N.AreDigits(ds, base) && ds != [] && k + |ds| + 1 < |r|
    requires r[k..k + |ds|] == N.Shown(ds) && r[k + |ds|] == ';'
    ensures Numeric(r, k, base) == Decoded(Utf8(N.Value(ds, base) % WORD32), k + |ds| + 1)
  {
    hide Digits, Utf8, N.Value, N.Show, DigitOf;
    DigitsSoFar(r, k, base, ds, |ds|);
    assert ds[..|ds|] == ds;
    DigitsStep(r, k + |ds|, base, N.Value(ds, base) % WORD32);
    NoDigit(base);
    assert r[k] == r[k..k + |ds|][0] == N.Show(ds[0]);
    ShownDigit(ds[0], base);
  }

  lemma DecimalRead(ds: seq<N.Digit>, x: string)
    requires N.AreDigits(ds, 10) && ds != [] && Terminated(x)
    ensures var s := "&#" + N.Shown(ds) + ";";
      Terminated(s + x) && Reference(s + x) == Decoded(Utf8(N.Value(ds, 10) % WORD32), |s|)
  {
    hide Numeric, Utf8, Named;
    var r := "&#" + N.Shown(ds) + ";" + x;
    assert r[2..2 + |ds|] == N.Shown(ds) && r[2] == N.Show(ds[0]);
    ShownDigit(ds[0], 10);
    NumericRead(r, 2, 10, ds);
  }

  lemma HexadecimalRead(ds: seq<N.Digit>, x: string)
    requires N.AreDigits(ds, 16) && ds != [] && Terminated(x)
    ensures var s := "&#x" + N.Shown(ds) + ";";
      Terminated(s + x) && Reference(s + x) == Decoded(Utf8(N.Value(ds, 16) % WORD32), |s|)
  {
    hide Numeric, Utf8, Named;
    var r := "&#x" + N.Shown(ds) + ";" + x;
    assert r[3..3 + |ds|] == N.Shown(ds);
    NumericRead(r, 3, 16, ds);
  }

  /** A reference below 128 stands for that character. */
  lemma NumberOfCharacter(c: char, base: nat, upper: bool)
    requires c as int < 128 && (base == 10 || base == 16)
    ensures Stands(if base == 16 then Hexadecimal(N.DigitsOf(c as nat, 16, upper))
                   else Decimal(N.DigitsOf(c as nat, 10, upper))) == [c]
  {
    hide Utf8;
    N.DigitsOfValue(c as nat, base, upper);
    SmallUtf8(c as nat);
  }

  // ----- texts

  /** Where a text stands: between tags, or in the given quotes. */
  datatype Place = Between | Quoted(quote: char)

  predicate IsPlace(at: Place) {
    at.Quoted? ==> at.quote == '"' || at.quote == '\''
  }

  /** A character may stand for itself unless it would end the text, or begin a reference. */
  predicate Admissible(p: Piece, at: Place) {
    WellFormed(p) &&
    (p.Plain? ==> p.c != NUL && p.c != '&' && p.c != if at.Between? then '<' else at.quote)
  }

  predicate AllAdmissible(ps: seq<Piece>, at: Place) {
    forall i :: 0 <= i < |ps| ==> Admissible(ps[i], at)
  }

  function Written(ps: seq<Piece>, at: Place): string
    requires AllAdmissible(ps, at)
  {
    if ps == [] then "" else Writing(ps[0]) + Written(ps[1..], at)
  }

  /** A carriage return and a line feed, both as they are, make one line end. */
  function Taken(ps: seq<Piece>): (n: nat)
    requires ps != []
    ensures 1 <= n <= 2 && n <= |ps|
  {
    if |ps| > 1 && ps[0] == Plain('\r') && ps[1] == Plain('\n') then 2 else 1
  }

  /** A raw line end is a newline (section 2.11), in quotes a blank, and so is any raw white space
      there (section 3.3.3). References are left alone. */
  function Normal(p: Piece, at: Place): string {
    if at.Quoted? && p in {Plain('\t'), Plain('\r'), Plain('\n')} then " "
    else if p == Plain('\r') then "\n"
    else Stands(p)
  }

  /** The text that the pieces mean. */
  function Meant(ps: seq<Piece>, at: Place): string {
    if ps == [] then "" else Normal(ps[0], at) + Meant(ps[Taken(ps)..], at)
  }

  /** How a text is read at its place. */
  function Reading(r: string, at: Place): Option<Decoded>
    requires Terminated(r) && IsPlace(at)
  {
    if at.Between? then Some(CharData(r)) else AttributeValue(r, at.quote)
  }

  lemma WrittenSplits(ps: seq<Piece>, at: Place, x: string)
    requires AllAdmissible(ps, at) && ps != []
    ensures AllAdmissible(ps[1..], at) && Admissible(ps[0], at)
    ensures Written(ps, at) + x == Writing(ps[0]) + (Written(ps[1..], at) + x)
    ensures |Written(ps, at)| == |Writing(ps[0])| + |Written(ps[1..], at)|
  {
    hide Writing;
    Associative(Writing(ps[0]), Written(ps[1..], at), x);
  }

  lemma WrittenHead(ps: seq<Piece>, at: Place, x: string)
    requires AllAdmissible(ps, at) && Terminated(x)
    ensures Terminated(Written(ps, at) + x)
    ensures (Written(ps, at) + x)[0] == '\n' <==> if ps == [] then x[0] == '\n' else ps[0] == Plain('\n')
  {
    hide Writing;
    if ps == [] {
      assert Written(ps, at) + x == x;
    } else {
      WrittenSplits(ps, at, x);
      WritingHead(ps[0]);
    }
  }

  lemma WritingHead(p: Piece)
    requires WellFormed(p)
    ensures Writing(p)[0] == if p.Plain? then p.c else '&'
  {
  }

  lemma ReferenceStep(p: Piece, at: Place, y: string)
    requires IsPlace(at) && WellFormed(p) && !p.Plain? && Terminated(y)
    ensures Terminated(Writing(p) + y)
    ensures Reading(Writing(p) + y, at) == After(Normal(p, at), |Writing(p)|, Reading(y, at))
  {
    hide Reference, Stands, Writing, WellFormed;
    var r := Writing(p) + y;
    ReferenceRead(p, y);
    assert r[|Writing(p)|..] == y;
  }

  lemma PlainStep(c: char, at: Place, y: string)
    requires IsPlace(at) && Admissible(Plain(c), at) && Terminated(y)
    requires c == '\r' ==> y[0] != '\n'
    ensures Terminated([c] + y)
    ensures Reading([c] + y, at) == After(Normal(Plain(c), at), 1, Reading(y, at))
  {
    hide Reference;
    assert ([c] + y)[1..] == y;
  }

  lemma LineEndStep(at: Place, y: string)
    requires IsPlace(at) && Terminated(y)
    ensures Terminated("\r" + ("\n" + y))
    ensures Reading("\r" + ("\n" + y), at) == After(Normal(Plain('\r'), at), 2, Reading(y, at))
  {
    hide Reference;
    assert ("\r" + ("\n" + y))[2..] == y;
  }

  lemma TextEnd(at: Place, x: string)
    requires IsPlace(at) && Ends(at, x)
    ensures Reading("" + x, at) == Some(Decoded("", 1))
  {
    assert "" + x == x;
  }

  /** x goes on after the text with the character that ends it. */
  predicate Ends(at: Place, x: string) {
    Terminated(x) && x[0] == if at.Between? then '<' else at.quote
  }

  /** The first piece, or line end, and what is left. */
  lemma WritingStep(ps: seq<Piece>, at: Place, x: string)
    requires IsPlace(at) && AllAdmissible(ps, at) && ps != [] && Ends(at, x)
    ensures var n := Taken(ps);
      AllAdmissible(ps[n..], at) && Terminated(Written(ps, at) + x) && Terminated(Written(ps[n..], at) + x) &&
      |Written(ps, at)| >= |Written(ps[n..], at)| &&
      Reading(Written(ps, at) + x, at) == After(Normal(ps[0], at), |Written(ps, at)| - |Written(ps[n..], at)|,
        Reading(Written(ps[n..], at) + x, at))
  {
    hide Reading, Written, Writing, Normal;
    WrittenSplits(ps, at, x);
    WrittenHead(ps[1..], at, x);
    WrittenHead(ps, at, x);
    if Taken(ps) == 2 {
      hide Admissible;
      WrittenSplits(ps[1..], at, x);
      assert ps[1..][1..] == ps[2..];
      WrittenHead(ps[2..], at, x);
      PlainWriting(ps[0]);
      PlainWriting(ps[1]);
      LineEndStep(at, Written(ps[2..], at) + x);
    } else if ps[0].Plain? {
      PlainWriting(ps[0]);
      PlainStep(ps[0].c, at, Written(ps[1..], at) + x);
    } else {
      ReferenceStep(ps[0], at, Written(ps[1..], at) + x);
    }
  }

  /** Any writing of a text, in either kind of quotes or between tags, is read as that text, up to and
      including the character that ends it. */
  lemma {:induction false} WritingReads(ps: seq<Piece>, at: Place, x: string)
    requires IsPlace(at) && AllAdmissible(ps, at) && Ends(at, x)
    ensures Terminated(Written(ps, at) + x)
    ensures Reading(Written(ps, at) + x, at) == Some(Decoded(Meant(ps, at), |Written(ps, at)| + 1))
    decreases |ps|
  {
    hide Reading, AllAdmissible, Admissible, Writing, Normal, Taken;
    if ps == [] {
      TextEnd(at, x);
      assert "" + x == x;
    } else {
      hide Written;
      WritingStep(ps, at, x);
      WritingReads(ps[Taken(ps)..], at, x);
    }
  }

  lemma PlainWriting(p: Piece)
    requires p.Plain?
    ensures Writing(p) == [p.c]
  {
  }

  // ----- any other ampersand

  /** A reference of some kind, complete with its semicolon, begins the text r. */
  ghost predicate BeginsReference(r: string, p: Piece) {
    WellFormed(p) && !p.Plain? && Writing(p) <= r
  }

  lemma DigitShown(c: char, base: nat) returns (d: N.Digit)
    requires (base == 10 || base == 16) && DigitOf(c, base) >= 0
    ensures d.value < base && N.Show(d) == c
  {
    d := N.Digit(DigitOf(c, base), 'A' <= c <= 'F');
  }

  /** The digits that a scan runs over. */
  lemma {:induction false} DigitsRun(r: string, k: nat, base: nat, v: nat) returns (ds: seq<N.Digit>)
    requires Terminated(r) && k < |r| && v < WORD32 && (base == 10 || base == 16)
    ensures N.AreDigits(ds, base) && k + |ds| == Digits(r, k, base, v).0
    ensures r[k..k + |ds|] == N.Shown(ds)
    decreases |r| - k
  {
    hide DigitOf, N.Show;
    ds := [];
    NoDigit(base);
    if DigitOf(r[k], base) >= 0 {
      var d := DigitShown(r[k], base);
      var more := DigitsRun(r, k + 1, base, (base * v + DigitOf(r[k], base)) % WORD32);
      ds := [d] + more;
      assert r[k..k + |ds|] == [r[k]] + r[k + 1..k + 1 + |more|];
    }
  }

  /** Characters that mean themselves wherever they stand. */
  predicate Ordinary(s: string) {
    forall i :: 0 <= i < |s| ==> s[i] as int >= 128 || IsSymbol(s[i]) || s[i] == '#'
  }

  lemma {:induction false} MatchRun(r: string, k: nat, word: string)
    requires Terminated(r) && k < |r| && NoNul(word)
    ensures r[k..k + Match(r, k, word)] == word[..Match(r, k, word)]
    decreases |word|
  {
    if word != "" && r[k] == word[0] {
      MatchRun(r, k + 1, word[1..]);
      var n := Match(r, k + 1, word[1..]);
      assert r[k..k + 1 + n] == [r[k]] + r[k + 1..k + 1 + n];
      assert word[..1 + n] == [word[0]] + word[1..][..n];
    }
  }

  /** A name that does not end in its semicolon is left as it is. */
  lemma NameOrNot(r: string, k: nat, word: string, c: char)
    requires Terminated(r) && 0 < k < |r| && NoNul(word) && Ordinary(r[1..k])
    requires word != "" && Ordinary(word[..|word| - 1])
    ensures var d := Named(r, k, word, c);
      k <= d.used &&
      if r[..k] + word <= r then d == Decoded([c], k + |word|) else d.text == r[..d.used] && Ordinary(r[1..d.used])
  {
    var n := Match(r, k, word);
    MatchRun(r, k, word);
    assert n == |word| ==> r[..k] + word == r[..k + n];
    if r[..k] + word <= r {
      assert r[k..k + |word|] == word;
      MatchAll(r, k, word);
    } else {
      forall i | 1 <= i < k + n
        ensures r[i] as int >= 128 || IsSymbol(r[i]) || r[i] == '#'
      {
        if i < k {
          assert r[i] == r[1..k][i - 1];
        } else {
          assert r[i] == r[k..k + n][i - k] == word[i - k] == word[..|word| - 1][i - k];
        }
      }
    }
  }

  lemma ShownOrdinary(ds: seq<N.Digit>)
    requires N.AreDigits(ds, 16)
    ensures Ordinary(N.Shown(ds))
  {
    forall i | 0 <= i < |ds|
      ensures IsSymbol(N.Shown(ds)[i])
    {
      ShownSymbol(ds[i]);
    }
  }

  lemma ShownSymbol(d: N.Digit)
    requires d.value < 16
    ensures IsSymbol(N.Show(d))
  {
  }

  /** Digits that do not end in a semicolon are left as they are. */
  lemma NumberOrNot(r: string, k: nat, base: nat) returns (ds: seq<N.Digit>)
    requires Terminated(r) && 0 < k < |r| && Ordinary(r[1..k]) && (base == 10 || base == 16)
    ensures N.AreDigits(ds, base)
    ensures var d := Numeric(r, k, base);
      k <= d.used &&
      ((ds != [] && r[..k] + (N.Shown(ds) + ";") <= r) || (d.text == r[..d.used] && Ordinary(r[1..d.used])))
  {
    hide N.Show, Digits, Utf8;
    var (e, v) := Digits(r, k, base, 0);
    ds := DigitsRun(r, k, base, 0);
    ShownOrdinary(ds);
    if r[e] == ';' && r[k] != ';' {
      assert r[..k] + (N.Shown(ds) + ";") == r[..e + 1];
    } else {
      forall i | 1 <= i < e
        ensures r[i] as int >= 128 || IsSymbol(r[i]) || r[i] == '#'
      {
        if i < k {
          assert r[i] == r[1..k][i - 1];
        } else {
          assert r[i] == r[k..e][i - k] == N.Shown(ds)[i - k];
        }
      }
    }
  }

  lemma EntityOrNot(r: string, k: nat, word: string, c: char)
    requires Terminated(r) && 0 < k < |r| && NoNul(word) && Ordinary(r[1..k])
    requires word in {"p;", "os;", "t;", "uot;"} && c in ENTITIES && ENTITIES[c] == r[..k] + word
    requires forall p :: !BeginsReference(r, p)
    ensures var d := Named(r, k, word, c); k <= d.used && d.text == r[..d.used] && Ordinary(r[1..d.used])
  {
    hide Named;
    NameOrNot(r, k, word, c);
    assert !BeginsReference(r, Entity(c));
  }

  lemma CharacterOrNot(r: string, k: nat, base: nat)
    requires Terminated(r) && 0 < k < |r| && Ordinary(r[1..k])
    requires if base == 16 then r[..k] == "&#x" else base == 10 && r[..k] == "&#"
    requires forall p :: !BeginsReference(r, p)
    ensures var d := Numeric(r, k, base); k <= d.used && d.text == r[..d.used] && Ordinary(r[1..d.used])
  {
    hide Numeric;
    var ds := NumberOrNot(r, k, base);
    var p := if base == 16 then Hexadecimal(ds) else Decimal(ds);
    assert !BeginsReference(r, p);
    if ds != [] {
      Associative(r[..k], N.Shown(ds), ";");
      assert Writing(p) == r[..k] + (N.Shown(ds) + ";");
    }
  }

  /** An ampersand that begins no reference: what was read to find that out is left as it is. */
  lemma NoReference(r: string)
    requires Terminated(r) && r[0] == '&' && forall p :: !BeginsReference(r, p)
    ensures Reference(r).text == r[..Reference(r).used] && Ordinary(r[1..Reference(r).used])
  {
    hide Named, Numeric, BeginsReference, Ordinary, Terminated;
    OrdinaryStarts(r);
    match r[1]
    case '#' => if r[2] == 'x' { CharacterOrNot(r, 3, 16); } else { CharacterOrNot(r, 2, 10); }
    case 'a' =>
      if r[2] == 'm' { EntityOrNot(r, 3, "p;", '&'); } else if r[2] == 'p' { EntityOrNot(r, 3, "os;", '\''); }
    case 'g' => EntityOrNot(r, 2, "t;", '>');
    case 'l' => EntityOrNot(r, 2, "t;", '<');
    case 'q' => EntityOrNot(r, 2, "uot;", '"');
    case _ =>
  }

  lemma OrdinaryStarts(r: string)
    requires Terminated(r) && r[0] == '&'
    ensures |r| > 1 && Ordinary(r[1..1])
    ensures r[1] != NUL ==> |r| > 2
    ensures |r| > 2 && r[2] != NUL ==> |r| > 3
    ensures r[1] in "#aglq" ==> Ordinary(r[1..2]) && |r| > 2 && (r[2] in "xmp" ==> Ordinary(r[1..3]) && |r| > 3)
    ensures forall k :: 0 <= k <= 3 && k < |r| ==> |r[..k]| == k && forall i :: 0 <= i < k ==> r[..k][i] == r[i]
    ensures Ordinary("") && Ordinary("p") && Ordinary("os") && Ordinary("t") && Ordinary("uot")
  {
  }

  lemma OrdinaryStep(r: string, at: Place)
    requires IsPlace(at) && Terminated(r) && Ordinary(r[..1])
    ensures |r| > 1 && Reading(r, at) == After([r[0]], 1, Reading(r[1..], at))
  {
    hide Reference;
    assert r[..1][0] == r[0];
  }

  lemma AfterAfter(s: string, n: nat, t: string, m: nat, o: Option<Decoded>)
    ensures After(s, n, After(t, m, o)) == After(s + t, n + m, o)
  {
    if o.Some? {
      Associative(s, t, o.value.text);
    }
  }

  lemma {:induction false} OrdinaryRun(r: string, at: Place, k: nat)
    requires IsPlace(at) && Terminated(r) && k < |r| && Ordinary(r[..k])
    ensures Reading(r, at) == After(r[..k], k, Reading(r[k..], at))
  {
    hide Reading, After;
    if k == 0 {
      assert r[..0] == "" && r[0..] == r;
      AfterNothing(Reading(r, at));
    } else {
      assert r[..1][0] == r[..k][0];
      OrdinaryStep(r, at);
      assert r[1..][..k - 1] == r[..k][1..];
      OrdinaryRun(r[1..], at, k - 1);
      assert r[1..][k - 1..] == r[k..];
      AfterAfter([r[0]], 1, r[1..][..k - 1], k - 1, Reading(r[k..], at));
      assert [r[0]] + r[1..][..k - 1] == r[..k];
    }
  }

  lemma AfterNothing(o: Option<Decoded>)
    ensures After("", 0, o) == o
  {
    if o.Some? {
      assert "" + o.value.text == o.value.text;
    }
  }

  lemma AmpersandStep(r: string, at: Place)
    requires IsPlace(at) && Terminated(r) && r[0] == '&'
    ensures var d := Reference(r); Reading(r, at) == After(d.text, d.used, Reading(r[d.used..], at))
  {
    hide Reference;
  }

  /** An ampersand that begins no reference stands for itself. */
  lemma BareAmpersand(r: string, at: Place)
    requires IsPlace(at) && Terminated(r) && r[0] == '&' && forall p :: !BeginsReference(r, p)
    ensures |r| > 1 && Reading(r, at) == After("&", 1, Reading(r[1..], at))
  {
    hide Reference, Reading, After, BeginsReference, Ordinary;
    var u := Reference(r).used;
    NoReference(r);
    AmpersandStep(r, at);
    assert r[1..][..u - 1] == r[1..u] && r[1..][u - 1..] == r[u..];
    OrdinaryRun(r[1..], at, u - 1);
    AfterAfter("&", 1, r[1..u], u - 1, Reading(r[u..], at));
    assert "&" + r[1..u] == r[..u];
  }
}
