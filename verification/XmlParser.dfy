/** The in-place parser: decoded text overwrites the buffer it is read from, and names and values of
    the tree are positions in that buffer. */
module XmlParser {
  import opened Basics
  import opened CStrings
  import opened XmlText
  import opened XmlTree
  import opened XmlReading

  // ----- gaps

  /** The decoded text so far: what lies from `begin` up to s, without the gap of `size`
      characters that ends at `end`. There is no gap while `end` is negative. */
  predicate GapHolds(b: string, begin: nat, end: int, size: nat, s: nat, text: string) {
    s <= |b| &&
    if end < 0 then size == 0 && begin <= s && b[begin..s] == text
    else begin + size <= end <= s && b[begin..end - size] + b[end..s] == text
  }

  method MemMove(b: array<char>, dst: nat, src: nat, n: nat)
    requires dst <= src && src + n <= b.Length
    modifies b
    ensures forall k :: dst <= k < dst + n ==> b[k] == old(b[..])[k + (src - dst)]
    ensures forall k :: 0 <= k < b.Length && !(dst <= k < dst + n) ==> b[k] == old(b[..])[k]
  {
    var i := 0;
    ghost var was := b[..];
    while i < n
      invariant i <= n
      invariant forall k :: dst <= k < dst + i ==> b[k] == was[k + (src - dst)]
      invariant forall k :: 0 <= k < b.Length && !(dst <= k < dst + i) ==> b[k] == was[k]
    {
      b[dst + i] := b[src + i];
      i := i + 1;
    }
  }

  /** Move what follows a gap to the gap's start. */
  method Collapse(b: array<char>, end: nat, size: nat, s: nat, ghost begin: nat, ghost text: string)
    requires GapHolds(b[..], begin, end, size, s, text)
    modifies b
    ensures begin <= s - size && b[begin..s - size] == text
    ensures b[s..] == old(b[s..]) && b[..begin] == old(b[..begin])
  {
    GapBounds(b[..], begin, end, size, s, text);
    hide GapHolds;
    ghost var was := b[..];
    MemMove(b, end - size, end, s - end);
    ghost var now := b[..];
    GapClosed(was, now, begin, end, size, s, text);
    SameOutside(was, now, begin, s);
  }

  lemma GapBounds(b: string, begin: nat, end: nat, size: nat, s: nat, text: string)
    requires GapHolds(b, begin, end, size, s, text)
    ensures begin + size <= end <= s <= |b|
  {
  }

  lemma SameOutside(was: string, now: string, begin: nat, s: nat)
    requires begin <= s <= |was| == |now| && forall k :: 0 <= k < |was| && !(begin <= k < s) ==> now[k] == was[k]
    ensures now[s..] == was[s..] && now[..begin] == was[..begin]
  {
  }

  lemma GapClosed(was: string, b: string, begin: nat, end: nat, size: nat, s: nat, text: string)
    requires GapHolds(was, begin, end, size, s, text) && end >= size && |b| == |was|
    requires b[..end - size] == was[..end - size] && b[end - size..s - size] == was[end..s]
    ensures begin <= s - size && b[begin..s - size] == text && b[..begin] == was[..begin]
  {
    assert b[begin..s - size] == b[..end - size][begin..] + b[end - size..s - size];
    assert was[begin..end - size] == was[..end - size][begin..];
    assert b[..begin] == b[..end - size][..begin] && was[..begin] == was[..end - size][..begin];
  }

  class Gap {
    var end: int
    var size: nat

    constructor ()
      ensures end == -1 && size == 0
    {
      end, size := -1, 0;
    }

    /** Skip count characters from s on, closing the previous gap. */
    method Push(b: array<char>, s: nat, count: nat, ghost begin: nat, ghost text: string) returns (s': nat)
      requires GapHolds(b[..], begin, end, size, s, text) && s + count <= b.Length
      modifies this, b
      ensures s' == s + count && GapHolds(b[..], begin, end, size, s', text)
      ensures b[s..] == old(b[s..]) && b[..begin] == old(b[..begin])
    {
      if end >= 0 {
        Collapse(b, end, size, s, begin, text);
      }
      s' := s + count;
      end := s';
      size := size + count;
      assert b[end..s'] == [];
    }

    /** Close the gap; the decoded text now ends at the result. */
    method Flush(b: array<char>, s: nat, ghost begin: nat, ghost text: string) returns (e: nat)
      requires GapHolds(b[..], begin, end, size, s, text)
      modifies b
      ensures begin <= e <= s && e == begin + |text| && b[begin..e] == text
      ensures b[s..] == old(b[s..]) && b[..begin] == old(b[..begin])
    {
      if end >= 0 {
        Collapse(b, end, size, s, begin, text);
        e := s - size;
        assert |b[begin..e]| == |text|;
      } else {
        e := s;
      }
    }
  }

  /** Characters passed over unchanged join the decoded text. */
  lemma GapKeeps(b: string, begin: nat, end: int, size: nat, s: nat, text: string, s': nat)
    requires GapHolds(b, begin, end, size, s, text) && s <= s' <= |b|
    ensures GapHolds(b, begin, end, size, s', text + b[s..s'])
  {
    if end < 0 {
      assert b[begin..s'] == b[begin..s] + b[s..s'];
    } else {
      assert b[end..s'] == b[end..s] + b[s..s'];
      Associative(b[begin..end - size], b[end..s], b[s..s']);
    }
  }

  /** So do characters written over what was read. */
  lemma GapOverwritten(b: string, b': string, begin: nat, end: int, size: nat, s: nat, text: string, out: string)
    requires GapHolds(b, begin, end, size, s, text) && s + |out| <= |b| == |b'|
    requires b'[..s] == b[..s] && b'[s..s + |out|] == out
    ensures GapHolds(b', begin, end, size, s + |out|, text + out)
  {
    assert forall i :: 0 <= i < s ==> b'[i] == b'[..s][i] == b[..s][i] == b[i];
    if end < 0 {
      assert b'[begin..s] == b[begin..s];
    } else {
      assert b'[begin..end - size] == b[begin..end - size] && b'[end..s] == b[end..s];
    }
    GapKeeps(b', begin, end, size, s, text, s + |out|);
  }

  method Overwrite(b: array<char>, s: nat, out: string)
    requires s + |out| <= b.Length
    modifies b
    ensures b[..s] == old(b[..s]) && b[s..s + |out|] == out && b[s + |out|..] == old(b[s + |out|..])
  {
    var i := 0;
    while i < |out|
      invariant i <= |out|
      invariant b[..s] == old(b[..s]) && b[s..s + i] == out[..i] && b[s + i..] == old(b[s + i..])
    {
      b[s + i] := out[i];
      assert b[s..s + (i + 1)] == out[..i + 1];
      i := i + 1;
      assert b[s + i..] == old(b[s + i..]);
    }
  }

  // ----- references

  lemma Drop(b: string, s: nat, k: nat)
    requires s + k <= |b|
    ensures b[s..][k..] == b[s + k..]
  {
  }

  method MatchWord(b: array<char>, s: nat, k: nat, word: string) returns (n: nat)
    requires s + k < b.Length && Terminated(b[s..]) && NoNul(word)
    ensures n == Match(b[s..], k, word) && s + k + n < b.Length
  {
    ghost var r := b[s..];
    n := 0;
    while n < |word| && b[s + k + n] == word[n]
      invariant n <= |word| && k + n < |r|
      invariant Match(r, k, word) == n + Match(r, k + n, word[n..])
    {
      assert r[k + n] == word[n..][0];
      assert word[n..][1..] == word[n + 1..];
      n := n + 1;
    }
  }

  method ScanDigits(b: array<char>, s: nat, k: nat, base: nat) returns (e: nat, v: nat)
    requires s + k < b.Length && Terminated(b[s..])
    ensures (e, v) == Digits(b[s..], k, base, 0) && k <= e && s + e < b.Length && v < WORD32
  {
    ghost var r := b[s..];
    e, v := k, 0;
    while DigitOf(b[s + e], base) >= 0
      invariant k <= e < |r| && v < WORD32
      invariant Digits(r, k, base, 0) == Digits(r, e, base, v)
      decreases |r| - e
    {
      assert r[e] == b[s + e];
      v := (base * v + DigitOf(b[s + e], base)) % WORD32;
      e := e + 1;
    }
    assert r[e] == b[s + e];
  }

  /** Put out behind the text so far. */
  method OverwriteGap(b: array<char>, s: nat, out: string, ghost g: Gap, ghost begin: nat, ghost text: string)
    requires s + |out| <= b.Length && GapHolds(b[..], begin, g.end, g.size, s, text)
    modifies b
    ensures GapHolds(b[..], begin, g.end, g.size, s + |out|, text + out)
    ensures b[s + |out|..] == old(b[s + |out|..]) && b[..s] == old(b[..s])
  {
    hide GapHolds;
    ghost var was := b[..];
    Overwrite(b, s, out);
    GapOverwritten(was, b[..], begin, g.end, g.size, s, text, out);
  }

  /** Put out in place of the characters from s up to stre. */
  method Substitute(b: array<char>, s: nat, stre: nat, out: string, g: Gap, ghost begin: nat, ghost text: string)
    requires s + |out| <= stre <= b.Length
    requires GapHolds(b[..], begin, g.end, g.size, s, text)
    modifies b, g
    ensures GapHolds(b[..], begin, g.end, g.size, stre, text + out)
    ensures b[stre..] == old(b[stre..]) && b[..begin] == old(b[..begin])
  {
    hide GapHolds;
    ghost var was := b[..];
    GapBegins(was, begin, g.end, g.size, s, text);
    OverwriteGap(b, s, out, g, begin, text);
    ghost var mid := b[..];
    SameLater(was, mid, begin, s, s + |out|, stre);
    var s' := g.Push(b, s + |out|, stre - (s + |out|), begin, text + out);
    SameLater(mid, b[..], begin, begin, s + |out|, stre);
  }

  lemma GapBegins(b: string, begin: nat, end: int, size: nat, s: nat, text: string)
    requires GapHolds(b, begin, end, size, s, text)
    ensures begin <= s <= |b|
  {
  }

  /** What two buffers share before m and from k on, they share before begin and from n on. */
  lemma SameLater(b: string, c: string, begin: nat, m: nat, k: nat, n: nat)
    requires |b| == |c| && begin <= m <= |b| && k <= n <= |b| && b[..m] == c[..m] && b[k..] == c[k..]
    ensures b[..begin] == c[..begin] && b[n..] == c[n..]
  {
    assert b[..begin] == b[..m][..begin] && c[..begin] == c[..m][..begin];
    assert b[n..] == b[k..][n - k..] && c[n..] == c[k..][n - k..];
  }

  ghost predicate DecodedAt(b: string, was: string, begin: nat, end: int, size: nat, s: nat, text: string, r: nat,
                            d: Decoded) {
    r == s + d.used <= |b| && |b| == |was|
    && GapHolds(b, begin, end, size, r, text + d.text)
    && b[r..] == was[r..] && b[..begin] == was[..begin]
  }

  method FinishNamed(b: array<char>, s: nat, k: nat, word: string, c: char, g: Gap, ghost begin: nat,
                     ghost text: string)
    returns (stre: nat)
    requires 0 < k && s + k < b.Length && Terminated(b[s..]) && NoNul(word)
    requires GapHolds(b[..], begin, g.end, g.size, s, text)
    modifies b, g
    ensures DecodedAt(b[..], old(b[..]), begin, g.end, g.size, s, text, stre, Named(old(b[s..]), k, word, c))
  {
    hide GapHolds, Match;
    var n := MatchWord(b, s, k, word);
    stre := s + k + n;
    if n == |word| {
      Substitute(b, s, stre, [c], g, begin, text);
    } else {
      GapKeeps(b[..], begin, g.end, g.size, s, text, stre);
      assert b[..][s..stre] == b[s..][..k + n];
    }
  }

  method FinishNumeric(b: array<char>, s: nat, k: nat, base: nat, g: Gap, ghost begin: nat, ghost text: string)
    returns (stre: nat)
    requires 2 <= k && s + k < b.Length && Terminated(b[s..])
    requires DigitOf(';', base) < 0
    requires GapHolds(b[..], begin, g.end, g.size, s, text)
    modifies b, g
    ensures DecodedAt(b[..], old(b[..]), begin, g.end, g.size, s, text, stre, Numeric(old(b[s..]), k, base))
  {
    hide GapHolds, Digits, Utf8, DigitOf;
    stre := s + k;
    assert b[s..][k] == b[s + k];
    if b[stre] == ';' {
      GapKeeps(b[..], begin, g.end, g.size, s, text, stre);
      assert b[..][s..stre] == b[s..][..k];
      return;
    }
    var e, v := ScanDigits(b, s, k, base);
    stre := s + e;
    assert b[s..][e] == b[s + e];
    if b[stre] == ';' {
      stre := stre + 1;
      Substitute(b, s, stre, Utf8(v), g, begin, text);
    } else {
      GapKeeps(b[..], begin, g.end, g.size, s, text, stre);
      assert b[..][s..stre] == b[s..][..e];
    }
  }

  lemma KeptAt(b: string, begin: nat, end: int, size: nat, s: nat, text: string, k: nat)
    requires GapHolds(b, begin, end, size, s, text) && s + k <= |b|
    ensures DecodedAt(b, b, begin, end, size, s, text, s + k, Decoded(b[s..][..k], k))
  {
    GapBegins(b, begin, end, size, s, text);
    GapKeeps(b, begin, end, size, s, text, s + k);
    assert b[s..s + k] == b[s..][..k];
  }

  method StrconvEscape(b: array<char>, s: nat, g: Gap, ghost begin: nat, ghost text: string) returns (stre: nat)
    requires s < b.Length && Terminated(b[s..]) && b[s] == '&'
    requires GapHolds(b[..], begin, g.end, g.size, s, text)
    modifies b, g
    ensures DecodedAt(b[..], old(b[..]), begin, g.end, g.size, s, text, stre, Reference(old(b[s..])))
  {
    hide GapHolds, DecodedAt, Named, Numeric;
    ghost var r := b[s..];
    assert r[0] == '&' && r[1] == b[s + 1];
    stre := s + 1;
    if b[stre] == '#' {
      assert r[2] == b[s + 2];
      if b[stre + 1] == 'x' {
        assert |r| > 3;
        stre := FinishNumeric(b, s, 3, 16, g, begin, text);
      } else {
        stre := FinishNumeric(b, s, 2, 10, g, begin, text);
      }
    } else if b[stre] == 'a' {
      stre := stre + 1;
      assert r[2] == b[s + 2];
      if b[stre] == 'm' {
        assert |r| > 3;
        stre := FinishNamed(b, s, 3, "p;", '&', g, begin, text);
      } else if b[stre] == 'p' {
        assert |r| > 3;
        stre := FinishNamed(b, s, 3, "os;", '\'', g, begin, text);
      } else {
        KeptAt(b[..], begin, g.end, g.size, s, text, 2);
        assert b[..][s..] == r;
      }
    } else if b[stre] == 'g' {
      assert |r| > 2;
      stre := FinishNamed(b, s, 2, "t;", '>', g, begin, text);
    } else if b[stre] == 'l' {
      assert |r| > 2;
      stre := FinishNamed(b, s, 2, "t;", '<', g, begin, text);
    } else if b[stre] == 'q' {
      assert |r| > 2;
      stre := FinishNamed(b, s, 2, "uot;", '"', g, begin, text);
    } else {
      KeptAt(b[..], begin, g.end, g.size, s, text, 1);
      assert b[..][s..] == r;
    }
  }

  // ----- character data

  lemma ThenThen(a: string, i: nat, c: string, j: nat, d: Decoded)
    ensures Then(a, i, Then(c, j, d)) == Then(a + c, i + j, d)
  {
    Associative(a, c, d.text);
  }

  /** CharData from position s on, one step at a time. */
  lemma CharDataAt(b: string, s: nat)
    requires s < |b| && Terminated(b[s..])
    ensures b[s] == '<' ==> CharData(b[s..]) == Decoded("", 1)
    ensures b[s] == NUL ==> CharData(b[s..]) == Decoded("", 0)
    ensures b[s] != NUL ==> s + 1 < |b| && Terminated(b[s + 1..])
    ensures b[s] == '\r' && b[s + 1] == '\n' ==>
      s + 2 < |b| && Terminated(b[s + 2..]) && CharData(b[s..]) == Then("\n", 2, CharData(b[s + 2..]))
    ensures b[s] == '\r' && b[s + 1] != '\n' ==> CharData(b[s..]) == Then("\n", 1, CharData(b[s + 1..]))
    ensures b[s] == '&' ==> var d := Reference(b[s..]);
      s + d.used < |b| && Terminated(b[s + d.used..]) && CharData(b[s..]) ==
        Then(d.text, d.used, CharData(b[s + d.used..]))
    ensures b[s] != '<' && b[s] != NUL && b[s] != '\r' && b[s] != '&' ==>
      CharData(b[s..]) == Then([b[s]], 1, CharData(b[s + 1..]))
  {
    hide Reference, Then;
    var r := b[s..];
    assert r[0] == b[s];
    if b[s] != NUL { Drop(b, s, 1); }
    if b[s] == '\r' {
      assert r[1] == b[s + 1];
      if b[s + 1] == '\n' { Drop(b, s, 2); }
    }
    if b[s] == '&' { Drop(b, s, Reference(r).used); }
  }

  ghost predicate Converting(b: string, was: string, begin: nat, end: int, size: nat, s: nat, text: string) {
    && |b| == |was| && begin <= s < |b| && Terminated(b[s..])
    && b[s..] == was[s..] && b[..begin] == was[..begin]
    && GapHolds(b, begin, end, size, s, text)
  }

  lemma Moved(b: string, b': string, s: nat, s': nat)
    requires s <= s' <= |b| && |b| == |b'| && b[s..] == b'[s..]
    ensures b[s'..] == b'[s'..]
  {
    Drop(b, s, s' - s);
    Drop(b', s, s' - s);
  }

  /** Write c over position s, which then belongs to the decoded text. */
  method PutOne(b: array<char>, s: nat, c: char, g: Gap, ghost begin: nat, ghost text: string, ghost was: string)
    requires Converting(b[..], was, begin, g.end, g.size, s, text) && b[s] != NUL
    modifies b
    ensures Converting(b[..], was, begin, g.end, g.size, s + 1, text + [c])
  {
    hide GapHolds;
    ghost var before := b[..];
    b[s] := c;
    GapOverwritten(before, b[..], begin, g.end, g.size, s, text, [c]);
    Drop(was, s, 1);
    Drop(before, s, 1);
    assert b[..][s + 1..] == before[s + 1..];
    assert b[..begin] == before[..begin] by { GapWithin(before, begin, g.end, g.size, s, text); }
  }

  lemma GapWithin(b: string, begin: nat, end: int, size: nat, s: nat, text: string)
    requires GapHolds(b, begin, end, size, s, text)
    ensures begin <= s && |text| <= s - begin
  {
  }

  method SkipOne(b: array<char>, s: nat, g: Gap, ghost begin: nat, ghost text: string, ghost was: string)
      returns (s': nat)
    requires Converting(b[..], was, begin, g.end, g.size, s, text) && b[s] == '\n'
    modifies b, g
    ensures s' == s + 1 && Converting(b[..], was, begin, g.end, g.size, s', text)
  {
    hide GapHolds;
    ghost var before := b[..];
    s' := g.Push(b, s, 1, begin, text);
    Moved(b[..], before, s, s + 1);
    Moved(before, was, s, s + 1);
    Drop(before, s, 1);
  }

  method KeepOne(b: array<char>, s: nat, g: Gap, ghost begin: nat, ghost text: string, ghost was: string)
      returns (s': nat)
    requires Converting(b[..], was, begin, g.end, g.size, s, text) && b[s] != NUL
    ensures s' == s + 1 && Converting(b[..], was, begin, g.end, g.size, s', text + [b[s]])
  {
    hide GapHolds;
    s' := s + 1;
    GapKeeps(b[..], begin, g.end, g.size, s, text, s + 1);
    assert b[..][s..s + 1] == [b[s]];
    Moved(b[..], was, s, s + 1);
    Drop(b[..], s, 1);
  }

  method KeepReference(b: array<char>, s: nat, g: Gap, ghost begin: nat, ghost text: string, ghost was: string)
    returns (s': nat)
    requires Converting(b[..], was, begin, g.end, g.size, s, text) && b[s] == '&'
    modifies b, g
    ensures var d := Reference(old(b[s..]));
      s' == s + d.used && Converting(b[..], was, begin, g.end, g.size, s', text + d.text)
  {
    hide GapHolds, Reference;
    ghost var before := b[..];
    s' := StrconvEscape(b, s, g, begin, text);
    Drop(before, s, s' - s);
    Moved(before, was, s, s');
  }

  /** Terminate the converted text. */
  method Terminate(b: array<char>, s: nat, g: Gap, ghost begin: nat, ghost text: string, ghost was: string)
    requires Converting(b[..], was, begin, g.end, g.size, s, text)
    modifies b
    ensures b[..begin] == was[..begin] && b[s + 1..] == was[s + 1..] && (was[s] == NUL ==> b[s..] == was[s..])
    ensures begin + |text| <= s && HoldsAt(b[..], begin, Visible(text))
  {
    hide GapHolds;
    ghost var before := b[..];
    GapWithin(before, begin, g.end, g.size, s, text);
    var e := g.Flush(b, s, begin, text);
    ghost var mid := b[..];
    Moved(before, was, s, s + 1);
    Moved(mid, before, s, s + 1);
    b[e] := NUL;
    assert b[..][s + 1..] == mid[s + 1..];
    assert b[begin..e] == mid[begin..e] && b[..begin] == mid[..begin];
    assert mid[s] == mid[s..][0] == before[s..][0] == was[s..][0] == was[s];
    if was[s] == NUL { assert b[..][s..] == mid[s..]; }
    VisibleHolds(b[..], begin, text);
  }

  lemma VisibleHolds(b: string, i: nat, text: string)
    requires i + |text| < |b| && b[i..i + |text|] == text && b[i + |text|] == NUL
    ensures HoldsAt(b, i, Visible(text))
  {
    hide Visible, HoldsAt, NoNul;
    HoldsCut(b, i, text, Visible(text));
  }

  lemma HoldsCut(b: string, i: nat, text: string, v: string)
    requires i + |text| < |b| && b[i..i + |text|] == text && b[i + |text|] == NUL
    requires NoNul(v) && v <= text && (|v| < |text| ==> text[|v|] == NUL)
    ensures HoldsAt(b, i, v)
  {
    hide NoNul;
    HoldsPrefix(b, i, text, |v|);
    assert v == text[..|v|];
  }

  lemma HoldsPrefix(b: string, i: nat, text: string, n: nat)
    requires i + |text| < |b| && b[i..i + |text|] == text && b[i + |text|] == NUL && n <= |text|
    ensures b[i..i + n] == text[..n]
    ensures n < |text| ==> b[i + n] == text[n]
  {
    assert b[i..i + n] == b[i..i + |text|][..n];
    if n < |text| { assert b[i..i + |text|][n] == b[i + n]; }
  }

  /** The first position past the strings of a tree when the reader stands at s: the terminator of
      the last string may be the end of the document itself. */
  function Limit(b: string, s: nat): nat
    requires s < |b|
  {
    if b[s] == NUL then s + 1 else s
  }

  /** The conversion of the character data that starts at `begin` has reached s. */
  ghost predicate ReadingCharData(b: string, was: string, begin: nat, end: int, size: nat, s: nat, text: string) {
    && Converting(b, was, begin, end, size, s, text)
    && Terminated(was[begin..]) && Terminated(was[s..])
    && CharData(was[begin..]) == Then(text, s - begin, CharData(was[s..]))
  }

  lemma ReadingOn(b: string, was: string, begin: nat, end: int, size: nat, s: nat, text: string,
                  b': string, end': int, size': nat, s': nat, piece: string)
    requires ReadingCharData(b, was, begin, end, size, s, text)
    requires Converting(b', was, begin, end', size', s', text + piece)
    requires s <= s' && Terminated(was[s'..]) && CharData(was[s..]) == Then(piece, s' - s, CharData(was[s'..]))
    ensures ReadingCharData(b', was, begin, end', size', s', text + piece)
  {
    hide CharData, Then, GapHolds;
    ThenThen(text, s - begin, piece, s' - s, CharData(was[s'..]));
  }

  lemma ConvertingFacts(b: string, was: string, begin: nat, end: int, size: nat, s: nat, text: string)
    requires Converting(b, was, begin, end, size, s, text)
    ensures s < |b| == |was| && b[s..] == was[s..] && b[s] == was[s]
  {
    SameHead(b, was, s);
  }

  lemma ReadingFacts(b: string, was: string, begin: nat, end: int, size: nat, s: nat, text: string)
    requires ReadingCharData(b, was, begin, end, size, s, text)
    ensures Converting(b, was, begin, end, size, s, text) && Terminated(was[s..])
    ensures s < |b| == |was| && b[s..] == was[s..] && b[s] == was[s]
  {
    SameHead(b, was, s);
  }

  /** The branches of the conversion loop that go on. */
  method PcdataStep(b: array<char>, s: nat, g: Gap, ghost begin: nat, ghost text: string, ghost was: string)
    returns (s': nat, ghost text': string)
    requires ReadingCharData(b[..], was, begin, g.end, g.size, s, text) && b[s] != '<' && b[s] != NUL
    modifies b, g
    ensures s < s' && ReadingCharData(b[..], was, begin, g.end, g.size, s', text')
  {
    hide *;
    ghost var before, end0, size0 := b[..], g.end, g.size;
    ReadingFacts(b[..], was, begin, g.end, g.size, s, text);
    CharDataAt(was, s);
    if b[s] == '\r' {
      PutOne(b, s, '\n', g, begin, text, was);
      s' := s + 1;
      text' := text + "\n";
      ConvertingFacts(b[..], was, begin, g.end, g.size, s', text');
      if b[s'] == '\n' {
        s' := SkipOne(b, s', g, begin, text', was);
      }
      ReadingOn(before, was, begin, end0, size0, s, text, b[..], g.end, g.size, s', "\n");
    } else if b[s] == '&' {
      ghost var d := Reference(was[s..]);
      s' := KeepReference(b, s, g, begin, text, was);
      text' := text + d.text;
      ReadingOn(before, was, begin, end0, size0, s, text, b[..], g.end, g.size, s', d.text);
    } else {
      text' := text + [b[s]];
      s' := KeepOne(b, s, g, begin, text, was);
      ReadingOn(before, was, begin, end0, size0, s, text, b[..], g.end, g.size, s', [was[s]]);
    }
  }

  method StrconvPcdata(b: array<char>, begin: nat) returns (r: nat)
    requires begin < b.Length && Terminated(b[begin..])
    modifies b
    ensures var d := CharData(old(b[begin..]));
      && r == begin + d.used && r < b.Length && Terminated(b[r..])
      && b[r..] == old(b[r..]) && b[..begin] == old(b[..begin])
      && HoldsAt(b[..], begin, Visible(d.text)) && begin + |Visible(d.text)| < Limit(b[..], r)
  {
    hide GapHolds, CharData, Reference, Then, Visible, HoldsAt;
    ghost var was := b[..];
    ghost var text := "";
    var g := new Gap();
    var s := begin;
    CharDataStart(was, begin);
    while b[s] != '<' && b[s] != NUL
      invariant fresh(g)
      invariant ReadingCharData(b[..], was, begin, g.end, g.size, s, text)
      decreases b.Length - s
    {
      s, text := PcdataStep(b, s, g, begin, text, was);
    }
    SameHead(b[..], was, s);
    r := if b[s] == '<' then s + 1 else s;
    Terminate(b, s, g, begin, text, was);
    PcdataDone(was, b[..], begin, s, r, text);
  }

  lemma CharDataStart(was: string, begin: nat)
    requires begin < |was| && Terminated(was[begin..])
    ensures CharData(was[begin..]) == Then("", 0, CharData(was[begin..]))
    ensures Converting(was, was, begin, -1, 0, begin, "")
  {
    assert "" + CharData(was[begin..]).text == CharData(was[begin..]).text;
    assert was[begin..begin] == "";
  }

  lemma SameHead(b: string, was: string, s: nat)
    requires s < |b| == |was| && b[s..] == was[s..]
    ensures b[s] == was[s]
  {
    assert b[s..][0] == was[s..][0];
  }

  lemma PcdataDone(was: string, b: string, begin: nat, s: nat, r: nat, text: string)
    requires begin <= s < |was| == |b| && Terminated(was[begin..]) && Terminated(was[s..])
    requires CharData(was[begin..]) == Then(text, s - begin, CharData(was[s..]))
    requires (was[s] == '<' && r == s + 1) || (was[s] == NUL && r == s)
    requires b[s + 1..] == was[s + 1..] && (was[s] == NUL ==> b[s..] == was[s..])
    requires begin + |text| <= s
    ensures CharData(was[begin..]) == Decoded(text, r - begin)
    ensures r < |b| && b[r..] == was[r..] && Terminated(b[r..])
    ensures begin + |Visible(text)| < Limit(b, r)
  {
    CharDataAt(was, s);
    assert text + "" == text;
    if r == s { SameHead(b, was, s); }
  }

  // ----- attribute values

  lemma AfterAfter(a: string, i: nat, c: string, j: nat, o: Option<Decoded>)
    ensures After(a, i, After(c, j, o)) == After(a + c, i + j, o)
  {
    if o.Some? { ThenThen(a, i, c, j, o.value); }
  }

  /** AttributeValue from position s on, one step at a time. */
  lemma AttributeValueAt(b: string, s: nat, quote: char)
    requires s < |b| && Terminated(b[s..]) && (quote == '"' || quote == '\'')
    ensures b[s] == quote ==> AttributeValue(b[s..], quote) == Some(Decoded("", 1))
    ensures b[s] == NUL ==> AttributeValue(b[s..], quote) == None
    ensures b[s] != NUL ==> s + 1 < |b| && Terminated(b[s + 1..])
    ensures b[s] == '\r' && b[s + 1] == '\n' ==>
      s + 2 < |b| && Terminated(b[s + 2..]) && AttributeValue(b[s..], quote) ==
        After(" ", 2, AttributeValue(b[s + 2..], quote))
    ensures IsSpace(b[s]) && !(b[s] == '\r' && b[s + 1] == '\n') ==>
      AttributeValue(b[s..], quote) == After(" ", 1, AttributeValue(b[s + 1..], quote))
    ensures b[s] == '&' ==> var d := Reference(b[s..]);
      s + d.used < |b| && Terminated(b[s + d.used..])
      && AttributeValue(b[s..], quote) == After(d.text, d.used, AttributeValue(b[s + d.used..], quote))
    ensures b[s] != quote && b[s] != NUL && !IsSpace(b[s]) && b[s] != '&' ==>
      AttributeValue(b[s..], quote) == After([b[s]], 1, AttributeValue(b[s + 1..], quote))
  {
    hide Reference, After;
    var r := b[s..];
    assert r[0] == b[s];
    if b[s] != NUL { Drop(b, s, 1); }
    if b[s] == '\r' {
      assert r[1] == b[s + 1];
      if b[s + 1] == '\n' { Drop(b, s, 2); }
    }
    if b[s] == '&' { Drop(b, s, Reference(r).used); }
  }

  /** The conversion of the attribute value that starts at `begin` has reached s. */
  ghost predicate ReadingValue(b: string, was: string, begin: nat, quote: char,
                               end: int, size: nat, s: nat, text: string) {
    && (quote == '"' || quote == '\'')
    && Converting(b, was, begin, end, size, s, text)
    && Terminated(was[begin..]) && Terminated(was[s..])
    && AttributeValue(was[begin..], quote) == After(text, s - begin, AttributeValue(was[s..], quote))
  }

  lemma ValueOn(b: string, was: string, begin: nat, quote: char, end: int, size: nat, s: nat, text: string,
                b': string, end': int, size': nat, s': nat, piece: string)
    requires ReadingValue(b, was, begin, quote, end, size, s, text)
    requires Converting(b', was, begin, end', size', s', text + piece)
    requires s <= s' && Terminated(was[s'..])
    requires AttributeValue(was[s..], quote) == After(piece, s' - s, AttributeValue(was[s'..], quote))
    ensures ReadingValue(b', was, begin, quote, end', size', s', text + piece)
  {
    hide AttributeValue, After, GapHolds;
    AfterAfter(text, s - begin, piece, s' - s, AttributeValue(was[s'..], quote));
  }

  lemma ValueFacts(b: string, was: string, begin: nat, quote: char, end: int, size: nat, s: nat, text: string)
    requires ReadingValue(b, was, begin, quote, end, size, s, text)
    ensures Converting(b, was, begin, end, size, s, text) && Terminated(was[s..])
    ensures s < |b| == |was| && b[s..] == was[s..] && b[s] == was[s] && (quote == '"' || quote == '\'')
  {
    SameHead(b, was, s);
  }

  /** The branches of the conversion loop that go on. */
  method WconvStep(b: array<char>, s: nat, quote: char, g: Gap, ghost begin: nat, ghost text: string, ghost was: string)
    returns (s': nat, ghost text': string)
    requires ReadingValue(b[..], was, begin, quote, g.end, g.size, s, text) && b[s] != quote && b[s] != NUL
    modifies b, g
    ensures s < s' && ReadingValue(b[..], was, begin, quote, g.end, g.size, s', text')
  {
    hide *;
    ghost var before, end0, size0 := b[..], g.end, g.size;
    ValueFacts(b[..], was, begin, quote, g.end, g.size, s, text);
    AttributeValueAt(was, s, quote);
    if IsSpace(b[s]) {
      text' := text + " ";
      s' := s + 1;
      if b[s] == '\r' {
        PutOne(b, s, ' ', g, begin, text, was);
        ConvertingFacts(b[..], was, begin, g.end, g.size, s', text');
        if b[s'] == '\n' {
          s' := SkipOne(b, s', g, begin, text', was);
        }
      } else {
        PutOne(b, s, ' ', g, begin, text, was);
      }
      ValueOn(before, was, begin, quote, end0, size0, s, text, b[..], g.end, g.size, s', " ");
    } else if b[s] == '&' {
      ghost var d := Reference(was[s..]);
      s' := KeepReference(b, s, g, begin, text, was);
      text' := text + d.text;
      ValueOn(before, was, begin, quote, end0, size0, s, text, b[..], g.end, g.size, s', d.text);
    } else {
      text' := text + [b[s]];
      s' := KeepOne(b, s, g, begin, text, was);
      ValueOn(before, was, begin, quote, end0, size0, s, text, b[..], g.end, g.size, s', [was[s]]);
    }
  }

  lemma ValueStart(was: string, begin: nat, quote: char)
    requires begin < |was| && Terminated(was[begin..]) && (quote == '"' || quote == '\'')
    ensures ReadingValue(was, was, begin, quote, -1, 0, begin, "")
  {
    var o := AttributeValue(was[begin..], quote);
    assert o.Some? ==> "" + o.value.text == o.value.text;
    assert was[begin..begin] == "";
  }

  lemma ValueDone(was: string, b: string, begin: nat, quote: char, s: nat, text: string)
    requires begin <= s < |was| == |b| && Terminated(was[begin..]) && Terminated(was[s..])
    requires quote == '"' || quote == '\''
    requires AttributeValue(was[begin..], quote) == After(text, s - begin, AttributeValue(was[s..], quote))
    requires was[s] == quote && b[s + 1..] == was[s + 1..] && begin + |text| <= s
    ensures AttributeValue(was[begin..], quote) == Some(Decoded(text, s + 1 - begin))
    ensures s + 1 < |b| && Terminated(b[s + 1..])
    ensures begin + |Visible(text)| < s + 1
  {
    hide AttributeValue, Visible;
    AttributeValueAt(was, s, quote);
    assert text + "" == text;
  }

  /** parse_wconv: not ok means that the closing quote is missing. */
  method StrconvAttribute(b: array<char>, begin: nat, quote: char) returns (ok: bool, r: nat)
    requires begin < b.Length && Terminated(b[begin..]) && (quote == '"' || quote == '\'')
    modifies b
    ensures ok <==> AttributeValue(old(b[begin..]), quote).Some?
    ensures ok ==> var d := AttributeValue(old(b[begin..]), quote).value;
      && r == begin + d.used && r < b.Length && Terminated(b[r..])
      && b[r..] == old(b[r..]) && b[..begin] == old(b[..begin])
      && HoldsAt(b[..], begin, Visible(d.text)) && begin + |Visible(d.text)| < r
  {
    hide GapHolds, AttributeValue, Reference, After, Visible, HoldsAt;
    ghost var was := b[..];
    ghost var text := "";
    var g := new Gap();
    r := begin;
    ValueStart(was, begin, quote);
    while b[r] != quote && b[r] != NUL
      invariant fresh(g)
      invariant ReadingValue(b[..], was, begin, quote, g.end, g.size, r, text)
      decreases b.Length - r
    {
      r, text := WconvStep(b, r, quote, g, begin, text, was);
    }
    ValueFacts(b[..], was, begin, quote, g.end, g.size, r, text);
    ok := b[r] == quote;
    if !ok {
      NoClosingQuote(was, begin, quote, r, text);
      return;
    }
    Terminate(b, r, g, begin, text, was);
    ValueDone(was, b[..], begin, quote, r, text);
    r := r + 1;
  }

  lemma NoClosingQuote(was: string, begin: nat, quote: char, s: nat, text: string)
    requires begin <= s < |was| && Terminated(was[begin..]) && Terminated(was[s..])
    requires quote == '"' || quote == '\''
    requires AttributeValue(was[begin..], quote) == After(text, s - begin, AttributeValue(was[s..], quote))
    requires was[s] == NUL
    ensures AttributeValue(was[begin..], quote) == None
  {
    AttributeValueAt(was, s, quote);
  }

  // ----- the tree as positions in the buffer

  datatype AttributeAt = AttributeAt(name: nat, value: nat)

  datatype NodeAtPosition =
    | TextAt(value: nat)
    | ElementAt(name: nat, attrs: seq<AttributeAt>, children: seq<NodeAtPosition>)

  datatype FrameAt = FrameAt(name: nat, attrs: seq<AttributeAt>, children: seq<NodeAtPosition>)

  /** The buffer holds s from position i on, all of it before lim. */
  predicate StringRep(b: string, lim: nat, i: nat, s: string) {
    HoldsAt(b, i, s) && i + |s| < lim
  }

  predicate AttributesRep(b: string, lim: nat, o: seq<AttributeAt>, attrs: seq<Attribute>) {
    |o| == |attrs| && forall i :: 0 <= i < |o| ==>
      StringRep(b, lim, o[i].name, attrs[i].name) && StringRep(b, lim, o[i].value, attrs[i].value)
  }

  predicate NodeRep(b: string, lim: nat, o: NodeAtPosition, n: Node)
    decreases o, 0
  {
    match o
    case TextAt(v) => n == Text(n.value) && StringRep(b, lim, v, n.value)
    case ElementAt(name, attrs, children) =>
      && n.kind == Element && n.value == "" && StringRep(b, lim, name, n.name)
      && AttributesRep(b, lim, attrs, n.attrs) && NodesRep(b, lim, children, n.children)
  }

  predicate NodesRep(b: string, lim: nat, o: seq<NodeAtPosition>, ns: seq<Node>)
    decreases o, 1
  {
    |o| == |ns| && forall i :: 0 <= i < |o| ==> NodeRep(b, lim, o[i], ns[i])
  }

  predicate FrameRep(b: string, lim: nat, o: FrameAt, f: Frame, bottom: bool) {
    (bottom || StringRep(b, lim, o.name, f.name))
    && AttributesRep(b, lim, o.attrs, f.attrs) && NodesRep(b, lim, o.children, f.children)
  }

  /** The open elements, as positions, are those of st. */
  predicate StackRep(b: string, lim: nat, o: seq<FrameAt>, st: seq<Frame>) {
    |o| == |st| && st != [] && forall i :: 0 <= i < |o| ==> FrameRep(b, lim, o[i], st[i], i == 0)
  }

  // What lies before the limit is not disturbed by writes past it.

  ghost predicate Extends(b: string, lim: nat, b': string, lim': nat) {
    lim <= lim' <= |b'| && lim <= |b| && b[..lim] == b'[..lim]
  }

  lemma StringFramed(b: string, lim: nat, b': string, lim': nat, i: nat, s: string)
    requires Extends(b, lim, b', lim') && StringRep(b, lim, i, s)
    ensures StringRep(b', lim', i, s)
  {
    HoldsFramed(b, b', lim, i, s);
  }

  lemma AttributesFramed(b: string, lim: nat, b': string, lim': nat, o: seq<AttributeAt>, attrs: seq<Attribute>)
    requires Extends(b, lim, b', lim') && AttributesRep(b, lim, o, attrs)
    ensures AttributesRep(b', lim', o, attrs)
  {
    hide StringRep, Extends;
    forall i | 0 <= i < |o|
      ensures StringRep(b', lim', o[i].name, attrs[i].name) && StringRep(b', lim', o[i].value, attrs[i].value)
    {
      StringFramed(b, lim, b', lim', o[i].name, attrs[i].name);
      StringFramed(b, lim, b', lim', o[i].value, attrs[i].value);
    }
  }

  lemma {:induction false} NodeFramed(b: string, lim: nat, b': string, lim': nat, o: NodeAtPosition, n: Node)
    requires Extends(b, lim, b', lim') && NodeRep(b, lim, o, n)
    ensures NodeRep(b', lim', o, n)
    decreases o, 0
  {
    hide StringRep, AttributesRep, Extends;
    match o
    case TextAt(v) => StringFramed(b, lim, b', lim', v, n.value);
    case ElementAt(name, attrs, children) =>
      StringFramed(b, lim, b', lim', name, n.name);
      AttributesFramed(b, lim, b', lim', attrs, n.attrs);
      NodesFramed(b, lim, b', lim', children, n.children);
  }

  lemma {:induction false} NodesFramed(b: string, lim: nat, b': string, lim': nat, o: seq<NodeAtPosition>,
                                       ns: seq<Node>)
    requires Extends(b, lim, b', lim') && NodesRep(b, lim, o, ns)
    ensures NodesRep(b', lim', o, ns)
    decreases o, 1
  {
    hide NodeRep, Extends;
    forall i | 0 <= i < |o| ensures NodeRep(b', lim', o[i], ns[i]) {
      NodeFramed(b, lim, b', lim', o[i], ns[i]);
    }
  }

  lemma StackFramed(b: string, lim: nat, b': string, lim': nat, o: seq<FrameAt>, st: seq<Frame>)
    requires Extends(b, lim, b', lim') && StackRep(b, lim, o, st)
    ensures StackRep(b', lim', o, st)
  {
    hide StringRep, AttributesRep, NodesRep, Extends;
    forall i | 0 <= i < |o| ensures FrameRep(b', lim', o[i], st[i], i == 0) {
      if i > 0 { StringFramed(b, lim, b', lim', o[i].name, st[i].name); }
      AttributesFramed(b, lim, b', lim', o[i].attrs, st[i].attrs);
      NodesFramed(b, lim, b', lim', o[i].children, st[i].children);
    }
  }

  // The stack operations, on positions.

  function TopAt(o: seq<FrameAt>): FrameAt
    requires o != []
  {
    o[|o| - 1]
  }

  function WithTopAt(o: seq<FrameAt>, f: FrameAt): (r: seq<FrameAt>)
    requires o != []
    ensures |r| == |o|
  {
    o[..|o| - 1] + [f]
  }

  lemma StackTop(b: string, lim: nat, o: seq<FrameAt>, st: seq<Frame>, f: FrameAt, g: Frame)
    requires StackRep(b, lim, o, st) && FrameRep(b, lim, f, g, |o| == 1)
    ensures StackRep(b, lim, WithTopAt(o, f), WithTop(st, g))
    ensures FrameRep(b, lim, TopAt(o), Top(st), |o| == 1)
  {
    hide FrameRep;
  }

  lemma PushRep(b: string, lim: nat, o: seq<FrameAt>, st: seq<Frame>, i: nat, name: string)
    requires StackRep(b, lim, o, st) && StringRep(b, lim, i, name)
    ensures StackRep(b, lim, o + [FrameAt(i, [], [])], Push(st, name))
  {
    hide StringRep, NodeRep;
    assert FrameRep(b, lim, FrameAt(i, [], []), Frame(name, [], []), false);
    hide FrameRep;
  }

  lemma AddChildRep(b: string, lim: nat, o: seq<FrameAt>, st: seq<Frame>, p: NodeAtPosition, n: Node)
    requires StackRep(b, lim, o, st) && NodeRep(b, lim, p, n)
    ensures StackRep(b, lim, WithTopAt(o, TopAt(o).(children := TopAt(o).children + [p])), AddChild(st, n))
  {
    StackTop(b, lim, o, st, TopAt(o), Top(st));
    hide StringRep, NodeRep, AttributesRep;
    StackTop(b, lim, o, st, TopAt(o).(children := TopAt(o).children + [p]),
      Top(st).(children := Top(st).children + [n]));
  }

  lemma AddAttributeRep(b: string, lim: nat, o: seq<FrameAt>, st: seq<Frame>, p: AttributeAt, a: Attribute)
    requires StackRep(b, lim, o, st) && StringRep(b, lim, p.name, a.name) && StringRep(b, lim, p.value, a.value)
    ensures StackRep(b, lim, WithTopAt(o, TopAt(o).(attrs := TopAt(o).attrs + [p])), AddAttribute(st, a))
  {
    hide StringRep, NodesRep;
    StackTopOnly(b, lim, o, st);
    StackTop(b, lim, o, st, TopAt(o).(attrs := TopAt(o).attrs + [p]), Top(st).(attrs := Top(st).attrs + [a]));
  }

  lemma StackTopOnly(b: string, lim: nat, o: seq<FrameAt>, st: seq<Frame>)
    requires StackRep(b, lim, o, st)
    ensures o != [] && st != [] && FrameRep(b, lim, TopAt(o), Top(st), |o| == 1)
  {
    hide FrameRep;
  }

  function ClosedAt(f: FrameAt): NodeAtPosition {
    ElementAt(f.name, f.attrs, f.children)
  }

  function PopAt(o: seq<FrameAt>): (r: seq<FrameAt>)
    requires |o| > 1
    ensures |r| == |o| - 1
  {
    var below := o[..|o| - 1];
    WithTopAt(below, TopAt(below).(children := TopAt(below).children + [ClosedAt(TopAt(o))]))
  }

  lemma PopRep(b: string, lim: nat, o: seq<FrameAt>, st: seq<Frame>)
    requires StackRep(b, lim, o, st) && |st| > 1
    ensures StackRep(b, lim, PopAt(o), Pop(st))
  {
    StackTopOnly(b, lim, o, st);
    assert NodeRep(b, lim, ClosedAt(TopAt(o)), Closed(Top(st)));
    hide FrameRep, NodeRep;
    assert StackRep(b, lim, o[..|o| - 1], st[..|st| - 1]);
    AddChildRep(b, lim, o[..|o| - 1], st[..|st| - 1], ClosedAt(TopAt(o)), Closed(Top(st)));
  }

  // ----- the grammar by position

  function NameEnd(b: string, s: nat): (n: nat)
    requires s < |b| && Terminated(b[s..])
    ensures s <= n < |b| && !IsSymbol(b[n]) && forall i :: s <= i < n ==> IsSymbol(b[i])
    ensures IsSymbol(b[s]) ==> s < n
    ensures Terminated(b[n..]) && (b[n] != NUL ==> n + 1 < |b| && Terminated(b[n + 1..]))
  {
    var k := SkipSymbols(b[s..]);
    assert forall i :: s <= i <= s + k ==> b[i] == b[s..][i - s];
    s + k
  }

  function SpaceEnd(b: string, s: nat): (n: nat)
    requires s < |b| && Terminated(b[s..])
    ensures s <= n < |b| && !IsSpace(b[n]) && forall i :: s <= i < n ==> IsSpace(b[i])
    ensures Terminated(b[n..]) && (b[n] != NUL ==> n + 1 < |b| && Terminated(b[n + 1..]))
  {
    var k := SkipSpace(b[s..]);
    assert forall i :: s <= i <= s + k ==> b[i] == b[s..][i - s];
    s + k
  }

  /** A start tag, by what follows its name: x, and y behind the first character of x. */
  function TagBehind(name: string, x: string, y: string, endch: char, st: seq<Frame>): Outcome
    requires Terminated(x) && st != [] && (x[0] != NUL ==> Terminated(y))
  {
    var st' := Push(st, name);
    if x[0] == '>' then Content(y, endch, st')
    else if IsSpace(x[0]) then Attributes(y, endch, st')
    else if x[0] == '/' then
      if y[0] == '>' then Content(y[1..], endch, Pop(st'))
      else if y[0] == NUL && endch == '>' then Content(y, endch, Pop(st'))
      else Failed(BadStartElement, |y|)
    else if x[0] == NUL then
      if endch == '>' then Content(x, endch, st') else Failed(BadStartElement, |x|)
    else Failed(BadStartElement, |y|)
  }

  lemma TagStartOf(r: string, name: string, x: string, y: string, endch: char, st: seq<Frame>)
    requires Terminated(r) && st != [] && IsStartSymbol(r[0])
    requires name == r[..SkipSymbols(r)] && x == r[SkipSymbols(r)..] && y == r[SkipSymbols(r) + 1..]
    ensures |x| == |y| + 1 && Terminated(x) && (x[0] != NUL ==> Terminated(y))
    ensures Tag(r, endch, st) == TagBehind(name, x, y, endch, st)
  {
    hide Content, Attributes, EndTag, Push, Pop;
    var n := SkipSymbols(r);
    assert x[0] == r[n];
    if r[n] != NUL {
      assert y[0] == r[n + 1] && y[1..] == r[n + 2..];
    }
  }

  lemma TagStartIs(b: string, s: nat, endch: char, st: seq<Frame>)
    requires s < |b| && Terminated(b[s..]) && st != [] && IsStartSymbol(b[s])
    ensures var n := NameEnd(b, s);
      && Terminated(b[n..]) && (b[n] != NUL ==> Terminated(b[n + 1..])) && b[n..][0] == b[n]
      && Tag(b[s..], endch, st) == TagBehind(b[s..n], b[n..], b[n + 1..], endch, st)
  {
    hide Tag, TagBehind, IsStartSymbol, SkipSymbols, NameEnd;
    NameEndIs(b, s);
    var r, k := b[s..], SkipSymbols(b[s..]);
    assert r[0] == b[s];
    SliceAt(b, s, k);
    TagStartOf(r, r[..k], r[k..], r[k + 1..], endch, st);
  }

  lemma TagStartAt(b: string, s: nat, endch: char, st: seq<Frame>)
    requires s < |b| && Terminated(b[s..]) && st != [] && IsStartSymbol(b[s])
    ensures var n := NameEnd(b, s); var st' := Push(st, b[s..n]);
      && (b[n] == '>' ==> Tag(b[s..], endch, st) == Content(b[n + 1..], endch, st'))
      && (IsSpace(b[n]) ==> Tag(b[s..], endch, st) == Attributes(b[n + 1..], endch, st'))
      && (b[n] == '/' ==>
            if b[n + 1] == '>' then
              n + 2 < |b| && Terminated(b[n + 2..]) && Tag(b[s..], endch, st) == Content(b[n + 2..], endch, Pop(st'))
            else if b[n + 1] == NUL && endch == '>' then Tag(b[s..], endch, st) == Content(b[n + 1..], endch, Pop(st'))
            else Tag(b[s..], endch, st) == Failed(BadStartElement, |b| - (n + 1)))
      && (b[n] == NUL ==>
            if endch == '>' then Tag(b[s..], endch, st) == Content(b[n..], endch, st')
            else Tag(b[s..], endch, st) == Failed(BadStartElement, |b| - n))
      && (b[n] != '>' && !IsSpace(b[n]) && b[n] != '/' && b[n] != NUL ==>
            Tag(b[s..], endch, st) == Failed(BadStartElement, |b| - (n + 1)))
  {
    hide Content, Attributes, EndTag, Tag, Push, Pop, IsStartSymbol, SkipSymbols, NameEnd;
    TagStartIs(b, s, endch, st);
    var n := NameEnd(b, s);
    if b[n] == '/' {
      SliceAt(b, n + 1, 0);
    }
  }

  lemma TagOtherAt(b: string, s: nat, endch: char, st: seq<Frame>)
    requires s < |b| && Terminated(b[s..]) && st != [] && !IsStartSymbol(b[s])
    ensures b[s] == '/' ==>
            s + 1 < |b| && Terminated(b[s + 1..]) &&
            Tag(b[s..], endch, st) == EndTag(b[s + 1..], endch, st)
    ensures b[s] == '?' || b[s] == '!' ==> Tag(b[s..], endch, st) == Failed(OutsideTheModel, |b| - s)
    ensures b[s] != '/' && b[s] != '?' && b[s] != '!' ==>
      Tag(b[s..], endch, st) == Failed(if b[s] == NUL && endch == '?' then BadPi else UnrecognizedTag, |b| - s)
  {
    hide Content, Attributes, EndTag;
    assert b[s..][0] == b[s];
    if b[s] == '/' { Drop(b, s, 1); }
  }

  lemma SliceFacts(b: string, s: nat, n: nat)
    requires s <= n < |b|
    ensures b[s..][..n - s] == b[s..n] && b[s..][n - s] == b[n] && b[s..][n - s..] == b[n..]
    ensures b[s..][n - s + 1..] == b[n + 1..]
    ensures n + 1 < |b| ==> b[s..][n - s + 1] == b[n + 1] && b[s..][n - s + 2..] == b[n + 2..]
  {
  }

  lemma EndTagAt(b: string, s: nat, endch: char, st: seq<Frame>)
    requires s < |b| && Terminated(b[s..]) && st != []
    ensures |st| == 1 ==> EndTag(b[s..], endch, st) == Failed(EndElementMismatch, |b| - s)
    ensures |st| > 1 ==>
      var n, name := NameEnd(b, s), Top(st).name;
      if !(b[s..n] <= name) then EndTag(b[s..], endch, st) == Failed(EndElementMismatch, |b| - s)
      else if n - s < |name| then
        EndTag(b[s..], endch, st) == if b[n] == NUL && name[n - s..] == [endch] then Failed(BadEndElement, |b| - n)
                                     else Failed(EndElementMismatch, |b| - s)
      else EndTag(b[s..], endch, st) == EndTagClose(b, SpaceEnd(b, n), endch, st)
  {
    hide *;
    EndTagOf(b[s..], endch, st);
    NameEndIs(b, s);
    if |st| > 1 {
      var n, name := NameEnd(b, s), Top(st).name;
      SliceFacts(b, s, n);
      if b[s..n] <= name && !(n - s < |name|) {
        EndTagCloseIs(b, n, endch, st);
      }
    }
  }

  /** What an end tag whose name matches comes to, from the first character w that is no space. */
  function EndTagClose(b: string, w: nat, endch: char, st: seq<Frame>): Outcome
    requires w < |b| && Terminated(b[w..]) && |st| > 1
  {
    assert b[w..][0] == b[w] && (b[w] != NUL ==> b[w..][1..] == b[w + 1..]);
    if b[w] == NUL then if endch == '>' then Content(b[w..], endch, Pop(st)) else Failed(BadEndElement, |b| - w)
    else if b[w] == '>' then Content(b[w + 1..], endch, Pop(st))
    else Failed(BadEndElement, |b| - w)
  }

  function CloseOf(r: string, endch: char, st: seq<Frame>): Outcome
    requires Terminated(r) && |st| > 1
  {
    if r[0] == NUL then if endch == '>' then Content(r, endch, Pop(st)) else Failed(BadEndElement, |r|)
    else if r[0] == '>' then Content(r[1..], endch, Pop(st))
    else Failed(BadEndElement, |r|)
  }

  lemma EndTagCloseIs(b: string, n: nat, endch: char, st: seq<Frame>)
    requires n < |b| && Terminated(b[n..]) && |st| > 1
    ensures var r' := b[n..][SkipSpace(b[n..])..];
      Terminated(r') && CloseOf(r', endch, st) == EndTagClose(b, SpaceEnd(b, n), endch, st)
  {
    hide Content, Pop, SkipSpace, SpaceEnd;
    SpaceEndIs(b, n);
    var w := SpaceEnd(b, n);
    Drop(b, n, w - n);
    assert b[w..][0] == b[w];
    if b[w] != NUL { Drop(b, w, 1); }
  }

  lemma NameEndIs(b: string, s: nat)
    requires s < |b| && Terminated(b[s..])
    ensures NameEnd(b, s) == s + SkipSymbols(b[s..])
  {
  }

  lemma SpaceEndIs(b: string, s: nat)
    requires s < |b| && Terminated(b[s..])
    ensures SpaceEnd(b, s) == s + SkipSpace(b[s..])
  {
  }

  lemma EndTagOf(r: string, endch: char, st: seq<Frame>)
    requires Terminated(r) && st != []
    ensures |st| == 1 ==> EndTag(r, endch, st) == Failed(EndElementMismatch, |r|)
    ensures |st| > 1 ==>
      var n, name := SkipSymbols(r), Top(st).name;
      if !(r[..n] <= name) then EndTag(r, endch, st) == Failed(EndElementMismatch, |r|)
      else if n < |name| then
        EndTag(r, endch, st) == if r[n] == NUL && name[n..] == [endch] then Failed(BadEndElement, |r| - n)
                                else Failed(EndElementMismatch, |r|)
      else
        Terminated(r[n..]) && Terminated(r[n..][SkipSpace(r[n..])..])
        && EndTag(r, endch, st) == CloseOf(r[n..][SkipSpace(r[n..])..], endch, st)
  {
    hide Content, Pop, SkipSymbols, SkipSpace, Top;
  }

  /** What the rest of a start tag comes to, from the first character w that is no space and begins
      no attribute. */
  function StartTagClose(b: string, w: nat, endch: char, st: seq<Frame>): Outcome
    requires w < |b| && Terminated(b[w..]) && |st| > 1
  {
    assert b[w..][0] == b[w] && (b[w] != NUL ==> b[w..][1..] == b[w + 1..] && b[w..][1] == b[w + 1]);
    assert b[w] != NUL && b[w + 1] != NUL ==> b[w..][2..] == b[w + 2..];
    if b[w] == '/' then
      if b[w + 1] == '>' then Content(b[w + 2..], endch, Pop(st))
      else if b[w + 1] == NUL && endch == '>' then Content(b[w + 1..], endch, Pop(st))
      else Failed(BadStartElement, |b| - (w + 1))
    else if b[w] == '>' then Content(b[w + 1..], endch, st)
    else if b[w] == NUL && endch == '>' then Content(b[w..], endch, st)
    else Failed(BadStartElement, |b| - w)
  }

  /** The rest of a start tag, from the first character w that is no space. */
  function AttributesFrom(b: string, w: nat, endch: char, st: seq<Frame>): Outcome
    requires w < |b| && Terminated(b[w..]) && |st| > 1
  {
    if IsStartSymbol(b[w]) then AttributeTail(b[w..NameEnd(b, w)], b[NameEnd(b, w)], b[NameEnd(b, w) + 1..], endch, st)
    else StartTagClose(b, w, endch, st)
  }

  lemma AttributesFromIs(b: string, w: nat, endch: char, st: seq<Frame>)
    requires w < |b| && Terminated(b[w..]) && |st| > 1
    ensures IsStartSymbol(b[w]) ==> var n := NameEnd(b, w);
      AttributesFrom(b, w, endch, st) == AttributeTail(b[w..n], b[n], b[n + 1..], endch, st)
    ensures !IsStartSymbol(b[w]) ==> AttributesFrom(b, w, endch, st) == StartTagClose(b, w, endch, st)
  {
    hide NameEnd, AttributeTail, StartTagClose;
  }

  /** The same, k characters behind s. */
  lemma SliceAt(b: string, s: nat, k: nat)
    requires s + k < |b|
    ensures b[s..][..k] == b[s..s + k] && b[s..][k] == b[s + k] && b[s..][k..] == b[s + k..] &&
            b[s..][k + 1..] == b[s + k + 1..]
  {
  }

  /** Attributes, past the white space they begin with. */
  function AttributesBehind(s: string, endch: char, st: seq<Frame>): Outcome
    requires Terminated(s) && |st| > 1
  {
    if IsStartSymbol(s[0]) then
      var k := SkipSymbols(s);
      AttributeTail(s[..k], s[k], s[k + 1..], endch, st)
    else StartCloseOf(s, endch, st)
  }

  lemma AttributesNamed(b: string, w: nat, endch: char, st: seq<Frame>)
    requires w < |b| && Terminated(b[w..]) && |st| > 1 && IsStartSymbol(b[w])
    ensures AttributesFrom(b, w, endch, st) == AttributesBehind(b[w..], endch, st)
  {
    hide SkipSymbols, AttributeTail, NameEnd, IsStartSymbol;
    NameEndIs(b, w);
    SliceAt(b, w, SkipSymbols(b[w..]));
  }

  lemma AttributesAt(b: string, s: nat, endch: char, st: seq<Frame>)
    requires s < |b| && Terminated(b[s..]) && |st| > 1
    ensures Attributes(b[s..], endch, st) == AttributesFrom(b, SpaceEnd(b, s), endch, st)
  {
    hide *;
    SpaceEndIs(b, s);
    var w := SpaceEnd(b, s);
    SliceAt(b, s, SkipSpace(b[s..]));
    AttributesOf(b[s..], b[w..], endch, st);
    assert b[w..][0] == b[w];
    if IsStartSymbol(b[w]) {
      AttributesNamed(b, w, endch, st);
    } else {
      AttributesFromIs(b, w, endch, st);
      StartTagCloseIs(b, w, endch, st);
    }
  }

  lemma StartTagCloseIs(b: string, w: nat, endch: char, st: seq<Frame>)
    requires w < |b| && Terminated(b[w..]) && |st| > 1
    ensures StartTagClose(b, w, endch, st) == StartCloseOf(b[w..], endch, st)
  {
    hide Content, Pop;
    assert b[w..][0] == b[w];
    if b[w] != NUL {
      Drop(b, w, 1);
      assert b[w..][1] == b[w + 1];
      if b[w + 1] != NUL { Drop(b, w, 2); }
    }
  }

  function StartCloseOf(s: string, endch: char, st: seq<Frame>): Outcome
    requires Terminated(s) && |st| > 1
  {
    if s[0] == '/' then
      if s[1] == '>' then Content(s[2..], endch, Pop(st))
      else if s[1] == NUL && endch == '>' then Content(s[1..], endch, Pop(st))
      else Failed(BadStartElement, |s| - 1)
    else if s[0] == '>' then Content(s[1..], endch, st)
    else if s[0] == NUL && endch == '>' then Content(s, endch, st)
    else Failed(BadStartElement, |s|)
  }

  lemma AttributesOf(r: string, s: string, endch: char, st: seq<Frame>)
    requires Terminated(r) && |st| > 1 && s == r[SkipSpace(r)..]
    ensures Terminated(s) && Attributes(r, endch, st) == AttributesBehind(s, endch, st)
    ensures !IsStartSymbol(s[0]) ==> AttributesBehind(s, endch, st) == StartCloseOf(s, endch, st)
  {
    hide Content, AttributeTail, Pop;
  }

  /** Where the sign after an attribute's name is looked for, and what stands there. */
  function SignAt(b: string, n: nat): (k: nat)
    requires n < |b| && Terminated(b[n..])
    ensures n <= k < |b| && Terminated(b[k..])
  {
    if IsSpace(b[n]) then
      assert n + 1 < |b| && b[n..][1..] == b[n + 1..] && Terminated(b[n + 1..]);
      SpaceEnd(b, n + 1)
    else n
  }

  /** What an attribute comes to, once the sign after its name is known to stand at k. */
  function TailFrom(name: string, b: string, k: nat, endch: char, st: seq<Frame>): Outcome
    requires k < |b| && (b[k] != NUL ==> k + 1 < |b| && Terminated(b[k + 1..])) && |st| > 1
  {
    if b[k] != '=' then Failed(BadAttribute, |b| - (k + 1))
    else AttributeQuote(name, b[SpaceEnd(b, k + 1)..], endch, st)
  }

  lemma AttributeTailAt(name: string, b: string, n: nat, endch: char, st: seq<Frame>)
    requires n < |b| && Terminated(b[n..]) && |st| > 1
    ensures b[n] != NUL ==> Terminated(b[n + 1..])
    ensures var k := SignAt(b, n);
      && (b[k] != NUL ==> k + 1 < |b| && Terminated(b[k + 1..]))
      && AttributeTail(name, b[n], b[n + 1..], endch, st) == TailFrom(name, b, k, endch, st)
  {
    hide *;
    var k := SignAt(b, n);
    SignFacts(b, n);
    TailUnfolds(name, b[n], b[n + 1..], b[k], b[k + 1..], endch, st);
    TailFromIs(name, b, k, endch, st);
  }

  lemma BlankSign(b: string, n: nat)
    requires n < |b| && Terminated(b[n..]) && IsSpace(b[n])
    ensures b[n] != NUL && n + 1 < |b| && Terminated(b[n + 1..]) && SignAt(b, n) == SpaceEnd(b, n + 1)
  {
    hide SpaceEnd;
    SliceFacts(b, n, n);
  }

  lemma SignFacts(b: string, n: nat)
    requires n < |b| && Terminated(b[n..])
    ensures b[n] != NUL ==> Terminated(b[n + 1..])
    ensures var k := SignAt(b, n);
      && (b[k] != NUL ==> k + 1 < |b| && Terminated(b[k + 1..]))
      && (IsSpace(b[n]) ==> b[n] != NUL && b[k] == b[n + 1..][SkipSpace(b[n + 1..])]
                            && b[k + 1..] == b[n + 1..][SkipSpace(b[n + 1..]) + 1..])
      && (!IsSpace(b[n]) ==> k == n)
  {
    hide SkipSpace, SpaceEnd, IsSpace;
    if IsSpace(b[n]) {
      hide SignAt, Terminated;
      BlankSign(b, n);
      SpaceEndIs(b, n + 1);
      SliceFacts(b, n + 1, SpaceEnd(b, n + 1));
    } else {
      SliceFacts(b, n, n);
    }
  }

  lemma TailUnfolds(name: string, ch: char, r: string, c: char, s: string, endch: char, st: seq<Frame>)
    requires |st| > 1 && (ch != NUL ==> Terminated(r))
    requires IsSpace(ch) ==> ch != NUL && c == r[SkipSpace(r)] && s == r[SkipSpace(r) + 1..]
    requires !IsSpace(ch) ==> c == ch && s == r
    ensures c == '=' ==> Terminated(s) && Terminated(s[SkipSpace(s)..])
    ensures AttributeTail(name, ch, r, endch, st) ==
      if c != '=' then Failed(BadAttribute, |s|) else AttributeQuote(name, s[SkipSpace(s)..], endch, st)
  {
    hide AttributeQuote;
  }

  lemma TailFromIs(name: string, b: string, k: nat, endch: char, st: seq<Frame>)
    requires k < |b| && (b[k] != NUL ==> k + 1 < |b| && Terminated(b[k + 1..])) && |st| > 1
    ensures b[k] == '=' ==> Terminated(b[k + 1..][SkipSpace(b[k + 1..])..])
    ensures TailFrom(name, b, k, endch, st) ==
      if b[k] != '=' then Failed(BadAttribute, |b[k + 1..]|)
      else AttributeQuote(name, b[k + 1..][SkipSpace(b[k + 1..])..], endch, st)
  {
    hide AttributeQuote, SkipSpace, SpaceEnd;
    if b[k] == '=' {
      SpaceEndIs(b, k + 1);
      SliceFacts(b, k + 1, SpaceEnd(b, k + 1));
    }
  }

  /** What an attribute comes to from its opening quote on. */
  lemma AttributeQuoteAt(name: string, b: string, q: nat, endch: char, st: seq<Frame>)
    requires q < |b| && Terminated(b[q..]) && |st| > 1
    ensures b[q] != '"' && b[q] != '\'' ==> AttributeQuote(name, b[q..], endch, st) == Failed(BadAttribute, |b| - q)
    ensures b[q] == '"' || b[q] == '\'' ==>
      q + 1 < |b| && Terminated(b[q + 1..]) &&
      var o := AttributeValue(b[q + 1..], b[q]);
      if o.None? then AttributeQuote(name, b[q..], endch, st) == Failed(BadAttribute, |b| - (q + 1))
      else
        var x := q + 1 + o.value.used;
        x < |b| && Terminated(b[x..]) &&
        AttributeQuote(name, b[q..], endch, st)
        == if IsStartSymbol(b[x]) then Failed(BadAttribute, |b| - x)
           else Attributes(b[x..], endch, AddAttribute(st, Attribute(name, Visible(o.value.text))))
  {
    hide *;
    QuoteUnfolds(name, b[q..], endch, st);
    QuoteFacts(b, q);
  }

  lemma QuoteFacts(b: string, q: nat)
    requires q < |b| && Terminated(b[q..])
    ensures b[q..][0] == b[q]
    ensures b[q] == '"' || b[q] == '\'' ==>
      q + 1 < |b| && Terminated(b[q + 1..]) && b[q..][1..] == b[q + 1..] &&
      var o := AttributeValue(b[q + 1..], b[q]);
      o.Some? ==>
        var x := q + 1 + o.value.used;
        x < |b| && Terminated(b[x..]) && b[q + 1..][o.value.used..] == b[x..] && b[x..][0] == b[x]
  {
    hide AttributeValue;
    SliceFacts(b, q, q);
    if b[q] == '"' || b[q] == '\'' {
      var o := AttributeValue(b[q + 1..], b[q]);
      if o.Some? { Drop(b, q + 1, o.value.used); }
    }
  }

  lemma QuoteUnfolds(name: string, v: string, endch: char, st: seq<Frame>)
    requires Terminated(v) && |st| > 1
    ensures v[0] != '"' && v[0] != '\'' ==> AttributeQuote(name, v, endch, st) == Failed(BadAttribute, |v|)
    ensures v[0] == '"' || v[0] == '\'' ==>
      Terminated(v[1..]) &&
      var o := AttributeValue(v[1..], v[0]);
      if o.None? then AttributeQuote(name, v, endch, st) == Failed(BadAttribute, |v| - 1)
      else
        o.value.used <= |v[1..]| &&
        var x := v[1..][o.value.used..];
        Terminated(x) && AttributeQuote(name, v, endch, st)
        == if IsStartSymbol(x[0]) then Failed(BadAttribute, |x|)
           else Attributes(x, endch, AddAttribute(st, Attribute(name, Visible(o.value.text))))
  {
    hide Attributes, AddAttribute, AttributeValue, Visible;
  }

  // ----- the parser

  /** The reader stands at s of a buffer whose unread part is still that of the original text, and
      the open elements, in the buffer, are those of st. */
  ghost predicate Standing(b: string, was: string, s: nat, o: seq<FrameAt>, st: seq<Frame>) {
    && |b| == |was| && s < |b| && Terminated(was[s..]) && b[s..] == was[s..]
    && StackRep(b, Limit(b, s), o, st)
  }

  lemma StandingFacts(b: string, was: string, s: nat, o: seq<FrameAt>, st: seq<Frame>)
    requires Standing(b, was, s, o, st)
    ensures |b| == |was| && s < |b| && Terminated(b[s..]) && Terminated(was[s..]) && b[s..] == was[s..]
    ensures b[s] == was[s] && |o| == |st| && st != []
    ensures NameEnd(b, s) == NameEnd(was, s) && SpaceEnd(b, s) == SpaceEnd(was, s)
    ensures forall i :: s <= i < |b| ==> b[i] == was[i]
  {
    hide FrameRep, NameEnd, SpaceEnd;
    SameHead(b, was, s);
    NameEndIs(b, s);
    NameEndIs(was, s);
    SpaceEndIs(b, s);
    SpaceEndIs(was, s);
    forall i | s <= i < |b| ensures b[i] == was[i] {
      Moved(b, was, s, i);
      SameHead(b, was, i);
    }
  }

  lemma StandAt(b: string, was: string, lim: nat, from: nat, r: nat, o: seq<FrameAt>, st: seq<Frame>)
    requires |b| == |was| && from <= r < |b| && Terminated(was[r..]) && b[from..] == was[from..]
    requires StackRep(b, lim, o, st) && lim <= Limit(b, r)
    ensures Standing(b, was, r, o, st)
  {
    hide StackRep;
    Moved(b, was, from, r);
    StackFramed(b, lim, b, Limit(b, r), o, st);
  }

  /** Going on without writing. */
  lemma StandOn(b: string, was: string, s: nat, r: nat, o: seq<FrameAt>, st: seq<Frame>)
    requires Standing(b, was, s, o, st) && s <= r < |b| && Terminated(was[r..]) && (was[s] != NUL || r == s)
    ensures Standing(b, was, r, o, st)
  {
    hide StackRep;
    if r > s {
      SameHead(b, was, s);
      StandAt(b, was, s, s, r, o, st);
    }
  }

  /** What one part of the grammar did: it failed there, or it reached r with st still open. */
  ghost predicate Went(x: Outcome, b: string, was: string, status: Option<Status>, offset: nat, o: seq<FrameAt>,
                       r: nat, st: seq<Frame>, endch: char) {
    if status.Some? then offset <= |was| && x == Failed(status.value, |was| - offset)
    else Standing(b, was, r, o, st) && x == Content(was[r..], endch, st)
  }

  lemma StandPop(b: string, was: string, s: nat, o: seq<FrameAt>, st: seq<Frame>)
    requires Standing(b, was, s, o, st) && |st| > 1
    ensures |o| > 1 && Standing(b, was, s, PopAt(o), Pop(st))
  {
    hide FrameRep;
    PopRep(b, Limit(b, s), o, st);
  }

  lemma SymbolsNoNul(b: string, s: nat)
    requires s < |b| && Terminated(b[s..])
    ensures NoNul(b[s..NameEnd(b, s)])
  {
  }

  /** A name that has been terminated in place can be read from where it starts. */
  lemma NameTaken(b: string, b': string, was: string, s: nat, n: nat, o: seq<FrameAt>, st: seq<Frame>)
    requires Standing(b, was, s, o, st) && IsStartSymbol(was[s])
    requires n == NameEnd(was, s) && b' == b[n := NUL]
    ensures s < n < |was| && StringRep(b', n + 1, s, was[s..n]) && StackRep(b', n + 1, o, st)
    ensures b'[n + 1..] == was[n + 1..] && (was[n] == NUL ==> b'[n..] == was[n..])
  {
    hide *;
    StandingFacts(b, was, s, o, st);
    StartsNoNul(was, s);
    SymbolsNoNul(was, s);
    StandingStack(b, was, s, o, st);
    NameWritten(b, b', was, s, n);
    StackFramed(b, s, b', n + 1, o, st);
  }

  lemma StandingStack(b: string, was: string, s: nat, o: seq<FrameAt>, st: seq<Frame>)
    requires Standing(b, was, s, o, st)
    ensures s < |b| == |was| && (was[s] != NUL ==> StackRep(b, s, o, st))
  {
    hide StackRep;
    SameHead(b, was, s);
  }

  lemma NameWritten(b: string, b': string, was: string, s: nat, n: nat)
    requires |b| == |was| && s < n < |b| && b[s..] == was[s..] && b' == b[n := NUL] && NoNul(was[s..n])
    ensures StringRep(b', n + 1, s, was[s..n]) && Extends(b, s, b', n + 1)
    ensures b'[n + 1..] == was[n + 1..] && (was[n] == NUL ==> b'[n..] == was[n..])
  {
    Suffixes(b, was, s);
    assert b'[..s] == b[..s];
    assert b'[s..n] == was[s..n];
    assert b'[n + 1..] == b[n + 1..];
    if was[n] == NUL { assert b' == b; }
  }

  lemma Opened(b: string, was: string, lim: nat, o: seq<FrameAt>, st: seq<Frame>, i: nat, name: string, from: nat,
               r: nat)
    requires StackRep(b, lim, o, st) && StringRep(b, lim, i, name)
    requires |b| == |was| && from <= r < |b| && Terminated(was[r..]) && b[from..] == was[from..] && lim <= Limit(b, r)
    ensures Standing(b, was, r, o + [FrameAt(i, [], [])], Push(st, name))
  {
    hide StackRep, StringRep;
    PushRep(b, lim, o, st, i, name);
    StandAt(b, was, lim, from, r, o + [FrameAt(i, [], [])], Push(st, name));
  }

  lemma AttributeAdded(b1: string, b2: string, was: string, n: nat, w: nat, q: nat, x: nat,
                       o: seq<FrameAt>, st: seq<Frame>, name: string, value: string)
    requires |b1| == |b2| == |was| && n <= q < x < |was| && Terminated(was[x..])
    requires StackRep(b1, n + 1, o, st) && StringRep(b1, n + 1, w, name)
    requires b2[..q + 1] == b1[..q + 1] && b2[x..] == was[x..]
    requires StringRep(b2, x, q + 1, value)
    ensures Standing(b2, was, x, WithTopAt(o, TopAt(o).(attrs := TopAt(o).attrs + [AttributeAt(w, q + 1)])),
                     AddAttribute(st, Attribute(name, value)))
  {
    hide StackRep, StringRep, AddAttribute, WithTopAt;
    assert b2[..n + 1] == b2[..q + 1][..n + 1] == b1[..n + 1];
    StackFramed(b1, n + 1, b2, x, o, st);
    StringFramed(b1, n + 1, b2, x, w, name);
    StackTopOnly(b2, x, o, st);
    AddAttributeRep(b2, x, o, st, AttributeAt(w, q + 1), Attribute(name, value));
    StandAt(b2, was, x, x, x, WithTopAt(o, TopAt(o).(attrs := TopAt(o).attrs + [AttributeAt(w, q + 1)])),
            AddAttribute(st, Attribute(name, value)));
  }

  lemma ValueTaken(b1: string, b2: string, was: string, n: nat, w: nat, q: nat, x: nat,
                   o: seq<FrameAt>, st: seq<Frame>, name: string, value: string)
    requires |b1| == |b2| == |was| && n <= q < x < |was| && Terminated(was[x..])
    requires StackRep(b1, n + 1, o, st) && StringRep(b1, n + 1, w, name)
    requires b2[..q + 1] == b1[..q + 1] && b2[x..] == was[x..]
    requires HoldsAt(b2, q + 1, value) && q + 1 + |value| < x
    ensures o != [] && st != [] && b2[x] == was[x]
    ensures |AddAttribute(st, Attribute(name, value))| == |st|
    ensures Standing(b2, was, x, WithTopAt(o, TopAt(o).(attrs := TopAt(o).attrs + [AttributeAt(w, q + 1)])),
                     AddAttribute(st, Attribute(name, value)))
  {
    hide StackRep, HoldsAt, AddAttribute, WithTopAt, Standing, TopAt;
    StackTopOnly(b1, n + 1, o, st);
    SameHead(b2, was, x);
    AttributeAdded(b1, b2, was, n, w, q, x, o, st, name, value);
  }

  class XmlParser {
    const b: array<char>
    var cursor: seq<FrameAt>
    var status: Option<Status>
    var offset: nat

    constructor (buffer: array<char>)
      ensures b == buffer && cursor == [FrameAt(0, [], [])] && status == None
    {
      b := buffer;
      cursor := [FrameAt(0, [], [])];
      status := None;
      offset := 0;
    }

    method ThrowError(error: Status, at: nat)
      modifies this`status, this`offset
      ensures status == Some(error) && offset == at
    {
      status, offset := Some(error), at;
    }

    method ScanSymbols(s: nat) returns (n: nat)
      requires s < b.Length && Terminated(b[s..])
      ensures n == NameEnd(b[..], s)
    {
      ghost var r := b[s..];
      n := s;
      while IsSymbol(b[n])
        invariant s <= n < b.Length
        invariant SkipSymbols(r) == n - s + SkipSymbols(r[n - s..])
        decreases b.Length - n
      {
        assert r[n - s] == b[n];
        assert r[n - s..][1..] == r[n + 1 - s..];
        n := n + 1;
      }
      assert r[n - s] == b[n];
    }

    method ScanSpace(s: nat) returns (n: nat)
      requires s < b.Length && Terminated(b[s..])
      ensures n == SpaceEnd(b[..], s)
    {
      ghost var r := b[s..];
      n := s;
      while IsSpace(b[n])
        invariant s <= n < b.Length
        invariant SkipSpace(r) == n - s + SkipSpace(r[n - s..])
        decreases b.Length - n
      {
        assert r[n - s] == b[n];
        assert r[n - s..][1..] == r[n + 1 - s..];
        n := n + 1;
      }
      assert r[n - s] == b[n];
    }

    /** Terminate the name that starts at s; ch is the character that gave way. */
    method TakeName(s: nat, ghost was: string, ghost st: seq<Frame>) returns (n: nat, ch: char)
      requires Standing(b[..], was, s, cursor, st) && IsStartSymbol(was[s])
      modifies b
      ensures n == NameEnd(was, s) && s < n < |was| == b.Length && ch == was[n]
      ensures StringRep(b[..], n + 1, s, was[s..n]) && StackRep(b[..], n + 1, cursor, st)
      ensures b[n + 1..] == was[n + 1..] && (was[n] == NUL ==> b[n..] == was[n..])
    {
      hide *;
      StandingFacts(b[..], was, s, cursor, st);
      n := ScanSymbols(s);
      ch := b[n];
      ghost var before := b[..];
      b[n] := NUL;
      NameTaken(before, b[..], was, s, n, cursor, st);
    }

    /** Step over the sign that follows the name ending at n, whose last character was ch. */
    method FindSign(n: nat, ch: char, ghost was: string) returns (x: nat, sign: char)
      requires n < b.Length == |was| && ch == was[n] && Terminated(was[n..]) && b[n + 1..] == was[n + 1..]
      ensures x == SignAt(was, n) + 1 && sign == was[SignAt(was, n)]
    {
      hide *;
      SignFacts(was, n);
      x, sign := n, ch;
      if IsSpace(ch) {
        SignAfterSpace(b[..], was, n);
        x := ScanSpace(n + 1);
        sign := b[x];
      } else {
        SignHere(was, n);
      }
      x := x + 1;
    }

    /** The value of an attribute named at w, from its opening quote at q on. */
    method TakeValue(w: nat, ghost n: nat, q: nat, endch: char, ghost was: string, ghost st: seq<Frame>)
      returns (x: nat, ghost st': seq<Frame>)
      requires status == None && |st| > 1 && n <= q < |was| == b.Length && Terminated(was[q..]) && b[q..] == was[q..]
      requires w < n && StringRep(b[..], n + 1, w, was[w..n]) && StackRep(b[..], n + 1, cursor, st)
      modifies this, b
      ensures var t := AttributeQuote(was[w..n], was[q..], endch, st);
        if status.Some? then offset <= |was| && t == Failed(status.value, |was| - offset)
        else q < x && |st'| > 1 && Standing(b[..], was, x, cursor, st') && t == Attributes(was[x..], endch, st')
    {
      hide *;
      x, st' := q, st;
      ghost var b1 := b[..];
      Suffixes(b1, was, q);
      AttributeQuoteAt(was[w..n], was, q, endch, st);
      if b[q] != '"' && b[q] != '\'' {
        ThrowError(BadAttribute, q);
        return;
      }
      var value := q + 1;
      var ok;
      ok, x := StrconvAttribute(b, value, b[q]);
      if !ok {
        ThrowError(BadAttribute, value);
        return;
      }
      ghost var v := Visible(AttributeValue(was[q + 1..], was[q]).value.text);
      ValueTaken(b1, b[..], was, n, w, q, x, cursor, st, was[w..n], v);
      cursor := WithTopAt(cursor, TopAt(cursor).(attrs := TopAt(cursor).attrs + [AttributeAt(w, value)]));
      st' := AddAttribute(st, Attribute(was[w..n], v));
      if IsStartSymbol(b[x]) {
        ThrowError(BadAttribute, x);
      }
    }

    /** One attribute: its name starts at w. */
    method ParseAttribute(w: nat, endch: char, ghost was: string, ghost st: seq<Frame>)
      returns (x: nat, ghost st': seq<Frame>)
      requires status == None && Standing(b[..], was, w, cursor, st) && |st| > 1 && IsStartSymbol(was[w])
      modifies this, b
      ensures var n := NameEnd(was, w); var t := AttributeTail(was[w..n], was[n], was[n + 1..], endch, st);
        if status.Some? then offset <= |was| && t == Failed(status.value, |was| - offset)
        else w < x && |st'| > 1 && Standing(b[..], was, x, cursor, st') && t == Attributes(was[x..], endch, st')
    {
      hide *;
      st' := st;
      StandingFacts(b[..], was, w, cursor, st);
      var n, ch := TakeName(w, was, st);
      AttributeTailAt(was[w..n], was, n, endch, st);
      SignFacts(was, n);
      var sign;
      x, sign := FindSign(n, ch, was);
      ghost var k := SignAt(was, n);
      TailCases(was[w..n], was, k, endch, st);
      if sign != '=' {
        ThrowError(BadAttribute, x);
        return;
      }
      BehindSign(b[..], was, n + 1, x);
      x := ScanSpace(x);
      x, st' := TakeValue(w, n, x, endch, was, st);
    }

    /** The rest of a start tag: attributes, and the end of the tag. */
    method ParseAttributes(s: nat, endch: char, ghost was: string, ghost st: seq<Frame>)
      returns (r: nat, ghost st': seq<Frame>)
      requires status == None && Standing(b[..], was, s, cursor, st) && |st| > 1
      modifies this, b
      ensures Went(Attributes(was[s..], endch, st), b[..], was, status, offset, cursor, r, st', endch) && s <= r
    {
      hide *;
      StandingFacts(b[..], was, s, cursor, st);
      ghost var x := Attributes(was[s..], endch, st);
      st' := st;
      r := NextAttribute(s, endch, was, st);
      while IsStartSymbol(b[r])
        invariant status == None && Standing(b[..], was, r, cursor, st') && |st'| > 1 && s <= r < b.Length
        invariant b[r] == was[r] && Terminated(was[r..])
        invariant x == AttributesFrom(was, r, endch, st')
        decreases b.Length - r
      {
        AttributesFromIs(was, r, endch, st');
        var y;
        y, st' := ParseAttribute(r, endch, was, st');
        if status.Some? {
          WentFailed(x, b[..], was, status, offset, cursor, r, st', endch);
          return;
        }
        r := NextAttribute(y, endch, was, st');
      }
      AttributesFromIs(was, r, endch, st');
      r, st' := CloseStartTag(r, endch, was, st');
    }

    /** Skip the white space in front of an attribute or of the tag's end. */
    method NextAttribute(y: nat, endch: char, ghost was: string, ghost st: seq<Frame>) returns (z: nat)
      requires Standing(b[..], was, y, cursor, st) && |st| > 1
      ensures y <= z < b.Length && Standing(b[..], was, z, cursor, st) && b[z] == was[z] && Terminated(was[z..])
      ensures Attributes(was[y..], endch, st) == AttributesFrom(was, z, endch, st)
    {
      hide *;
      StandingFacts(b[..], was, y, cursor, st);
      AttributesAt(was, y, endch, st);
      ScanStops(was, y);
      z := ScanSpace(y);
      StandOn(b[..], was, y, z, cursor, st);
      StandingFacts(b[..], was, z, cursor, st);
    }

    method CloseStartTag(w: nat, endch: char, ghost was: string, ghost st: seq<Frame>)
      returns (r: nat, ghost st': seq<Frame>)
      requires status == None && Standing(b[..], was, w, cursor, st) && |st| > 1
      modifies this
      ensures Went(StartTagClose(was, w, endch, st), b[..], was, status, offset, cursor, r, st', endch) && w <= r
    {
      hide *;
      StandingFacts(b[..], was, w, cursor, st);
      StartTagCases(was, w, endch, st);
      st', r := st, w;
      if b[w] == '/' {
        StandNext(b[..], was, w, cursor, st);
        r, st' := CloseEmpty(w + 1, endch, was, st);
        if status.Some? {
          WentFailed(StartTagClose(was, w, endch, st), b[..], was, status, offset, cursor, r, st', endch);
        } else {
          WentOn(StartTagClose(was, w, endch, st), b[..], was, status, offset, cursor, r, st', endch);
        }
      } else if b[w] == '>' {
        r := w + 1;
        StandNext(b[..], was, w, cursor, st);
        WentOn(StartTagClose(was, w, endch, st), b[..], was, status, offset, cursor, r, st', endch);
      } else if b[w] == NUL && endch == '>' {
        WentOn(StartTagClose(was, w, endch, st), b[..], was, status, offset, cursor, r, st', endch);
      } else {
        ThrowError(BadStartElement, w);
        WentFailed(StartTagClose(was, w, endch, st), b[..], was, status, offset, cursor, r, st', endch);
      }
    }

    /** A start tag, from its name on. */
    method ParseStartTag(s: nat, endch: char, ghost was: string, ghost st: seq<Frame>)
      returns (r: nat, ghost st': seq<Frame>)
      requires status == None && Standing(b[..], was, s, cursor, st) && IsStartSymbol(was[s])
      modifies this, b
      ensures Went(Tag(was[s..], endch, st), b[..], was, status, offset, cursor, r, st', endch) && s < r
    {
      hide *;
      StandingFacts(b[..], was, s, cursor, st);
      TagStartAt(was, s, endch, st);
      ghost var name := was[s..NameEnd(was, s)];
      var n, ch := TakeName(s, was, st);
      NameLeft(was, s);
      OpenedAfterName(b[..], was, n, cursor, st, s, name);
      ghost var x := Tag(was[s..], endch, st);
      st' := Push(st, name);
      cursor := cursor + [FrameAt(s, [], [])];
      r := n + 1;
      NotNul(ch);
      if ch == '>' {
        WentOn(x, b[..], was, status, offset, cursor, r, st', endch);
      } else if IsSpace(ch) {
        r, st' := ParseAttributes(r, endch, was, st');
      } else if ch == '/' {
        r, st' := CloseEmpty(r, endch, was, st');
        WentEither(x, b[..], was, status, offset, cursor, r, st', endch);
      } else if ch == NUL {
        r := n;
        if endch == '>' {
          WentOn(x, b[..], was, status, offset, cursor, r, st', endch);
        } else {
          ThrowError(BadStartElement, n);
          WentFailed(x, b[..], was, status, offset, cursor, r, st', endch);
        }
      } else {
        ThrowError(BadStartElement, n + 1);
        WentFailed(x, b[..], was, status, offset, cursor, r, st', endch);
      }
    }

    /** After `<name/`. */
    method CloseEmpty(k: nat, endch: char, ghost was: string, ghost st: seq<Frame>)
      returns (r: nat, ghost st': seq<Frame>)
      requires status == None && Standing(b[..], was, k, cursor, st) && |st| > 1
      modifies this
      ensures k <= r
      ensures was[k] == '>' ==>
              status == None && r == k + 1 < |was| && Terminated(was[r..]) &&
              Standing(b[..], was, r, cursor, st') && st' == Pop(st)
      ensures was[k] == NUL && endch == '>' ==>
              status == None && r == k && Standing(b[..], was, r, cursor, st') &&
              st' == Pop(st)
      ensures was[k] != '>' && !(was[k] == NUL && endch == '>') ==> status == Some(BadStartElement) && offset == k
    {
      StandingFacts(b[..], was, k, cursor, st);
      SliceFacts(was, k, k);
      hide NameEnd, SpaceEnd, FrameRep, Pop, PopAt, Standing, StackRep;
      r, st' := k, st;
      if b[k] != '>' && !(b[k] == NUL && endch == '>') {
        ThrowError(BadStartElement, k);
        return;
      }
      StandPop(b[..], was, k, cursor, st);
      cursor := PopAt(cursor);
      st' := Pop(st);
      if b[k] == '>' {
        r := k + 1;
        StandOn(b[..], was, k, r, cursor, st');
      }
    }

    /** The open element's name goes on at rest; the name in the end tag at s ended at n. */
    method ThrowLongerName(rest: nat, s: nat, n: nat, endch: char)
      requires rest + 1 < b.Length && n < b.Length
      modifies this`status, this`offset
      ensures if b[n] == NUL && b[rest] == endch && b[rest + 1] == NUL
              then status == Some(BadEndElement) && offset == n
              else status == Some(EndElementMismatch) && offset == s
    {
      if b[n] == NUL && b[rest] == endch && b[rest + 1] == NUL {
        ThrowError(BadEndElement, n);
      } else {
        ThrowError(EndElementMismatch, s);
      }
    }

    /** An end tag, from its name on: the name is compared with the open element's, in the buffer. */
    method ParseEndTag(s: nat, endch: char, ghost was: string, ghost st: seq<Frame>)
      returns (r: nat, ghost st': seq<Frame>)
      requires status == None && Standing(b[..], was, s, cursor, st)
      modifies this
      ensures Went(EndTag(was[s..], endch, st), b[..], was, status, offset, cursor, r, st', endch) && s <= r
    {
      hide *;
      StandingFacts(b[..], was, s, cursor, st);
      ghost var x := EndTag(was[s..], endch, st);
      EndTagAt(was, s, endch, st);
      ScanStops(was, s);
      st', r := st, s;
      if |cursor| == 1 {
        ThrowError(EndElementMismatch, s);
        WentFailed(x, b[..], was, status, offset, cursor, r, st', endch);
        return;
      }
      ghost var open := Top(st).name;
      OpenName(b[..], was, s, cursor, st);
      var name := cursor[|cursor| - 1].name;
      var n, k := CompareNames(s, name, was, open);
      if k < n {
        ThrowError(EndElementMismatch, s);
        WentFailed(x, b[..], was, status, offset, cursor, r, st', endch);
        return;
      }
      NameTail(b[..], name, open, n - s, endch);
      Suffixes(b[..], was, s);
      if b[name + (n - s)] != NUL {
        ThrowLongerName(name + (n - s), s, n, endch);
        WentFailed(x, b[..], was, status, offset, cursor, r, st', endch);
        return;
      }
      StandOn(b[..], was, s, n, cursor, st);
      r, st' := FinishEndTag(n, endch, was, st);
    }

    /** After the name of an end tag that matches. */
    method FinishEndTag(n: nat, endch: char, ghost was: string, ghost st: seq<Frame>)
      returns (r: nat, ghost st': seq<Frame>)
      requires status == None && Standing(b[..], was, n, cursor, st) && |st| > 1
      requires Terminated(was[n..])
      modifies this
      ensures Went(EndTagClose(was, SpaceEnd(was, n), endch, st), b[..], was, status, offset, cursor, r, st',
              endch) && n <= r
    {
      hide *;
      StandingFacts(b[..], was, n, cursor, st);
      StandPop(b[..], was, n, cursor, st);
      cursor := PopAt(cursor);
      st' := Pop(st);
      r := ScanSpace(n);
      ScanStops(was, n);
      ghost var x := EndTagClose(was, r, endch, st);
      StandOn(b[..], was, n, r, cursor, st');
      EndTagCases(was, r, endch, st);
      StandingFacts(b[..], was, r, cursor, st');
      if b[r] == NUL {
        if endch != '>' {
          ThrowError(BadEndElement, r);
          WentFailed(x, b[..], was, status, offset, cursor, r, st', endch);
        } else {
          WentOn(x, b[..], was, status, offset, cursor, r, st', endch);
        }
      } else if b[r] != '>' {
        ThrowError(BadEndElement, r);
        WentFailed(x, b[..], was, status, offset, cursor, r, st', endch);
      } else {
        r := r + 1;
        StandOn(b[..], was, r - 1, r, cursor, st');
        WentOn(x, b[..], was, status, offset, cursor, r, st', endch);
      }
    }

    /** Compare the name characters from s on with the open element's name; they agree up to k. */
    method CompareNames(s: nat, name: nat, ghost was: string, ghost open: string) returns (n: nat, k: nat)
      requires s < b.Length == |was| && Terminated(was[s..]) && b[s..] == was[s..]
      requires HoldsAt(b[..], name, open)
      ensures s <= k <= n && n == NameEnd(was, s)
      ensures k == n <==> was[s..n] <= open
    {
      hide *;
      Suffixes(b[..], was, s);
      ScansAgree(b[..], was, s);
      HoldsChars(b[..], name, open);
      n := ScanSymbols(s);
      NameEndIsSymbols(was, s);
      k := s;
      while k < n && b[k] == b[name + (k - s)]
        invariant s <= k <= n && k - s <= |open|
        invariant forall j :: s <= j < k ==> was[j] == open[j - s]
      {
        k := k + 1;
      }
      PrefixOrNot(was, open, s, n, k);
    }

    /** Whatever follows a `<`. */
    method ParseTag(s: nat, endch: char, ghost was: string, ghost st: seq<Frame>)
      returns (r: nat, ghost st': seq<Frame>)
      requires status == None && Standing(b[..], was, s, cursor, st)
      modifies this, b
      ensures Went(Tag(was[s..], endch, st), b[..], was, status, offset, cursor, r, st', endch)
      ensures status == None ==> s < r
    {
      hide *;
      StandingFacts(b[..], was, s, cursor, st);
      st', r := st, s;
      if IsStartSymbol(b[s]) {
        r, st' := ParseStartTag(s, endch, was, st);
        return;
      }
      TagOtherAt(was, s, endch, st);
      if b[s] == '/' {
        StandNext(b[..], was, s, cursor, st);
        r, st' := ParseEndTag(s + 1, endch, was, st);
      } else if b[s] == '?' || b[s] == '!' {
        ThrowError(OutsideTheModel, s);
        WentFailed(Tag(was[s..], endch, st), b[..], was, status, offset, cursor, r, st', endch);
      } else if b[s] == NUL && endch == '?' {
        ThrowError(BadPi, s);
        WentFailed(Tag(was[s..], endch, st), b[..], was, status, offset, cursor, r, st', endch);
      } else {
        ThrowError(UnrecognizedTag, s);
        WentFailed(Tag(was[s..], endch, st), b[..], was, status, offset, cursor, r, st', endch);
      }
    }

    method ScanToTag(s: nat) returns (n: nat)
      requires s < b.Length && Terminated(b[s..])
      ensures n == TagOrEnd(b[..], s)
    {
      hide SkipToTag;
      ghost var r := b[s..];
      n := s;
      while b[n] != NUL && b[n] != '<'
        invariant s <= n < b.Length
        invariant SkipToTag(r) == n - s + SkipToTag(r[n - s..])
        decreases b.Length - n
      {
        SkipToTagStep(b[..], s, n);
        n := n + 1;
      }
      SkipToTagStep(b[..], s, n);
    }

    /** Text inside an element: convert it in place and hang it under the cursor. */
    method ParseText(s: nat, ghost was: string, ghost st: seq<Frame>) returns (r: nat, ghost st': seq<Frame>)
      requires Standing(b[..], was, s, cursor, st) && was[s] != NUL && was[s] != '<'
      modifies this`cursor, b
      ensures Terminated(was[s..]) && var d := CharData(was[s..]);
        s < r == s + d.used && st' == AddChild(st, Text(Visible(d.text))) && Standing(b[..], was, r, cursor, st')
    {
      hide *;
      StandingFacts(b[..], was, s, cursor, st);
      StandingStack(b[..], was, s, cursor, st);
      CharDataAdvances(was, s);
      ghost var d := CharData(was[s..]);
      ghost var before := b[..];
      var value := s;
      r := StrconvPcdata(b, s);
      Suffixes(before, was, s);
      TextAdded(before, b[..], was, s, r, cursor, st, Visible(d.text));
      cursor := WithTopAt(cursor, TopAt(cursor).(children := TopAt(cursor).children + [TextAt(value)]));
      st' := AddChild(st, Text(Visible(d.text)));
    }

    /** What stands between tags. The result tells whether a `<` has been stepped over. */
    method ParseBetween(s: nat, endch: char, ghost was: string, ghost st: seq<Frame>)
      returns (r: nat, tag: bool, ghost st': seq<Frame>)
      requires Standing(b[..], was, s, cursor, st) && was[s] != NUL && was[s] != '<'
      modifies this`cursor, b
      ensures s < r && Standing(b[..], was, r, cursor, st') && st' != [] && Terminated(was[r..]) && Terminated(was[s..])
      ensures Content(was[s..], endch, st) == if tag then Tag(was[r..], endch, st') else Content(was[r..], endch, st')
    {
      hide *;
      StandingFacts(b[..], was, s, cursor, st);
      var w := ScanSpace(s);
      Suffixes(b[..], was, s);
      if b[w] == '<' || b[w] == NUL {
        ContentBlankAt(was, s, endch, st);
        StandOn(b[..], was, s, w, cursor, st);
        r, tag, st' := w, false, st;
      } else if |cursor| > 1 {
        ContentTextAt(was, s, endch, st);
        r, st' := ParseText(s, was, st);
        StandingFacts(b[..], was, r, cursor, st');
        TagOrFinish(was, r, endch, st');
        tag := b[r] != NUL;
      } else {
        r, tag := SkipTopText(s, endch, was, st);
        st' := st;
      }
    }

    /** Text outside all elements is passed over. */
    method SkipTopText(s: nat, endch: char, ghost was: string, ghost st: seq<Frame>) returns (r: nat, tag: bool)
      requires Standing(b[..], was, s, cursor, st) && was[s] != NUL && was[s] != '<' && |st| == 1
      requires Terminated(was[s..]) && was[SpaceEnd(was, s)] != '<' && was[SpaceEnd(was, s)] != NUL
      ensures s < r && Standing(b[..], was, r, cursor, st) && Terminated(was[r..])
      ensures Content(was[s..], endch, st) == if tag then Tag(was[r..], endch, st) else Content(was[r..], endch, st)
    {
      hide *;
      StandingFacts(b[..], was, s, cursor, st);
      ContentTopAt(was, s, endch, st);
      r := ScanToTag(s);
      TagOrEndAgrees(b[..], was, s);
      StandOn(b[..], was, s, r, cursor, st);
      StandingFacts(b[..], was, r, cursor, st);
      tag := b[r] != NUL;
      if tag {
        r := r + 1;
        StandOn(b[..], was, r - 1, r, cursor, st);
      }
    }

    /** Parse what stands from s0 on. If that succeeds, the positions collected at the bottom frame
        read, in the overwritten buffer, as the tree that the original text means; if it fails,
        the error and its position are those of the original text. */
    method ParseTree(s0: nat, endch: char)
      requires s0 < b.Length && Terminated(b[s0..]) && status == None && cursor == [FrameAt(0, [], [])]
      modifies this, b
      ensures var x := Content(old(b[s0..]), endch, [BOTTOM]);
        if status.Some? then offset <= b.Length && x == Failed(status.value, b.Length - offset)
        else x.Parsed? && |cursor| == 1 && NodesRep(b[..], b.Length, cursor[0].children, x.children)
    {
      hide *;
      ghost var was := b[..];
      ghost var st := [BOTTOM];
      ghost var x := Content(was[s0..], endch, st);
      StandStart(was, s0);
      var s := s0;
      while b[s] != NUL
        invariant status == None && Standing(b[..], was, s, cursor, st) && s < b.Length == |was|
        invariant st != [] && Terminated(was[s..]) && x == Content(was[s..], endch, st)
        decreases b.Length - s
      {
        StandingFacts(b[..], was, s, cursor, st);
        var tag := true;
        if b[s] == '<' {
          OverAngle(b[..], was, s, endch, cursor, st);
          s := s + 1;
        } else {
          s, tag, st := ParseBetween(s, endch, was, st);
        }
        StandingFacts(b[..], was, s, cursor, st);
        if tag {
          s, st := ParseTag(s, endch, was, st);
          if status.Some? {
            FailedThere(x, b[..], was, status, offset, cursor, s, st, endch);
            return;
          }
          OnThere(x, b[..], was, status, offset, cursor, s, st, endch);
        }
      }
      StandingFacts(b[..], was, s, cursor, st);
      AtEnd(b[..], was, s, endch, cursor, st);
      if |cursor| != 1 {
        ThrowError(EndElementMismatch, s);
      }
    }
  }

  lemma SkipToTagStep(b: string, s: nat, n: nat)
    requires s <= n < |b| && Terminated(b[s..])
    ensures SkipToTag(b[s..][n - s..]) ==
      if b[n] == '<' || b[n] == NUL then 0 else 1 + SkipToTag(b[s..][n + 1 - s..])
    ensures b[n] != NUL ==> n + 1 < |b|
  {
    assert b[s..][n - s] == b[n];
    assert b[s..][n - s..][1..] == b[s..][n - s + 1..];
  }

  function TagOrEnd(b: string, s: nat): (n: nat)
    requires s < |b| && Terminated(b[s..])
    ensures s <= n < |b| && (b[n] == '<' || b[n] == NUL) && Terminated(b[n..])
  {
    assert b[s..][SkipToTag(b[s..])] == b[s + SkipToTag(b[s..])];
    s + SkipToTag(b[s..])
  }

  lemma TagOrEndAgrees(b: string, was: string, s: nat)
    requires |b| == |was| && s < |b| && b[s..] == was[s..] && Terminated(was[s..])
    ensures TagOrEnd(b, s) == TagOrEnd(was, s)
  {
  }

  lemma CharDataAdvances(b: string, s: nat)
    requires s < |b| && Terminated(b[s..]) && b[s] != NUL
    ensures CharData(b[s..]).used > 0
  {
    hide CharData;
    assert b[s..][0] == b[s];
  }

  lemma TextAdded(b: string, b': string, was: string, s: nat, r: nat, o: seq<FrameAt>, st: seq<Frame>, v: string)
    requires |b| == |b'| == |was| && s < r < |was| && Terminated(was[r..])
    requires StackRep(b, s, o, st) && b'[..s] == b[..s] && b'[r..] == was[r..]
    requires HoldsAt(b', s, v) && s + |v| < Limit(b', r)
    ensures Standing(b', was, r, WithTopAt(o, TopAt(o).(children := TopAt(o).children + [TextAt(s)])),
            AddChild(st, Text(v)))
  {
    hide HoldsAt, FrameRep, AddChild, WithTopAt;
    var lim := Limit(b', r);
    StackFramed(b, s, b', lim, o, st);
    assert NodeRep(b', lim, TextAt(s), Text(v));
    AddChildRep(b', lim, o, st, TextAt(s), Text(v));
  }

  // Content from position s on, where neither a tag nor the end stands.

  lemma ContentBlankAt(b: string, s: nat, endch: char, st: seq<Frame>)
    requires s < |b| && Terminated(b[s..]) && st != [] && b[s] != NUL && b[s] != '<'
    requires b[SpaceEnd(b, s)] == '<' || b[SpaceEnd(b, s)] == NUL
    ensures s < SpaceEnd(b, s) && Content(b[s..], endch, st) == Content(b[SpaceEnd(b, s)..], endch, st)
  {
    hide *;
    SpaceEndIs(b, s);
    SliceFacts(b, s, s);
    SliceFacts(b, s, SpaceEnd(b, s));
    ContentOf(b[s..], endch, st);
  }

  function DataEnd(b: string, s: nat): (n: nat)
    requires s < |b| && Terminated(b[s..])
    ensures n < |b| && Terminated(b[n..])
  {
    CharDataEnds(b, s);
    s + CharData(b[s..]).used
  }

  lemma ContentTextAt(b: string, s: nat, endch: char, st: seq<Frame>)
    requires s < |b| && Terminated(b[s..]) && |st| > 1 && b[s] != NUL && b[s] != '<'
    requires b[SpaceEnd(b, s)] != '<' && b[SpaceEnd(b, s)] != NUL
    ensures DataEnd(b, s) == s + CharData(b[s..]).used
    ensures Content(b[s..], endch, st) ==
      AfterText(b[DataEnd(b, s)..], endch, AddChild(st, Text(Visible(CharData(b[s..]).text))))
  {
    hide *;
    SpaceEndIs(b, s);
    SliceFacts(b, s, s);
    SliceFacts(b, s, SpaceEnd(b, s));
    DataEndIs(b, s);
    ContentOf(b[s..], endch, st);
  }

  lemma DataEndIs(b: string, s: nat)
    requires s < |b| && Terminated(b[s..])
    ensures DataEnd(b, s) == s + CharData(b[s..]).used && b[s..][CharData(b[s..]).used..] == b[DataEnd(b, s)..]
  {
    hide CharData;
    CharDataEnds(b, s);
  }

  lemma ContentTopAt(b: string, s: nat, endch: char, st: seq<Frame>)
    requires s < |b| && Terminated(b[s..]) && |st| == 1 && b[s] != NUL && b[s] != '<'
    requires b[SpaceEnd(b, s)] != '<' && b[SpaceEnd(b, s)] != NUL
    ensures var n := TagOrEnd(b, s);
      && s < n && (b[n] != NUL ==> n + 1 < |b| && Terminated(b[n + 1..]))
      && Content(b[s..], endch, st) == if b[n] == NUL then Content(b[n..], endch, st) else Tag(b[n + 1..], endch, st)
  {
    hide *;
    TagOrEndIs(b, s);
    SpaceEndIs(b, s);
    var n := TagOrEnd(b, s);
    ContentTopTo(b, s, SkipSpace(b[s..]), SkipToTag(b[s..]), n, endch, st);
    NotAtEnd(b, n);
  }

  lemma ContentTopTo(b: string, s: nat, w: nat, k: nat, n: nat, endch: char, st: seq<Frame>)
    requires s + w < |b| && s + k < |b| && n == s + k && Terminated(b[s..]) && |st| == 1 && b[s] != NUL && b[s] != '<'
    requires w == SkipSpace(b[s..]) && b[s + w] != '<' && b[s + w] != NUL && k == SkipToTag(b[s..])
    ensures Terminated(b[n..]) && (b[n] != NUL ==> n + 1 < |b| && Terminated(b[n + 1..]))
    ensures Content(b[s..], endch, st) == if b[n] == NUL then Content(b[n..], endch, st) else Tag(b[n + 1..], endch, st)
  {
    hide *;
    var r, x, y := b[s..], b[n..], b[n + 1..];
    assert r[0] == b[s] && r[w] == b[s + w] && x[0] == b[n];
    assert x == r[k..] by {
      SliceAt(b, s, k);
    }
    assert y == r[k + 1..] by {
      SliceAt(b, s, k);
    }
    ContentTopOf(r, x, y, endch, st);
    NotAtEnd(b, n);
  }

  /** The same of a suffix r; x starts with what stopped the search, y behind it. */
  lemma ContentTopOf(r: string, x: string, y: string, endch: char, st: seq<Frame>)
    requires Terminated(r) && |st| == 1 && r[0] != NUL && r[0] != '<'
    requires r[SkipSpace(r)] != '<' && r[SkipSpace(r)] != NUL
    requires x == r[SkipToTag(r)..] && y == r[SkipToTag(r) + 1..]
    ensures Terminated(x) && (x[0] != NUL ==> Terminated(y))
    ensures Content(r, endch, st) == if x[0] == NUL then Content(x, endch, st) else Tag(y, endch, st)
  {
    hide *;
    ContentOf(r, endch, st);
    FinishOf(x, endch, st);
    assert x[0] == r[SkipToTag(r)];
  }

  lemma NotAtEnd(b: string, n: nat)
    requires n < |b| && Terminated(b[n..])
    ensures b[n] != NUL ==> n + 1 < |b| && Terminated(b[n + 1..])
  {
    SliceFacts(b, n, n);
  }

  function AfterText(r: string, endch: char, st: seq<Frame>): Outcome
    requires Terminated(r) && st != []
  {
    if r[0] == NUL then Finish(r, st) else Tag(r, endch, st)
  }

  lemma TagOrFinish(b: string, r: nat, endch: char, st: seq<Frame>)
    requires r < |b| && Terminated(b[r..]) && st != []
    ensures AfterText(b[r..], endch, st) == if b[r] == NUL then Content(b[r..], endch, st) else Tag(b[r..], endch, st)
  {
    hide Tag, Finish;
    assert b[r..][0] == b[r];
  }

  lemma TagOrEndIs(b: string, s: nat)
    requires s < |b| && Terminated(b[s..])
    ensures TagOrEnd(b, s) == s + SkipToTag(b[s..])
    ensures b[s] != NUL && b[s] != '<' ==> TagOrEnd(b, s) > s
  {
  }

  lemma CharDataEnds(b: string, s: nat)
    requires s < |b| && Terminated(b[s..])
    ensures var d := CharData(b[s..]);
      s + d.used < |b| && Terminated(b[s + d.used..]) && b[s..][d.used..] == b[s + d.used..]
  {
    hide CharData;
    var d := CharData(b[s..]);
    assert Terminated(b[s..][d.used..]);
    Drop(b, s, d.used);
  }

  lemma FinishOf(r: string, endch: char, st: seq<Frame>)
    requires Terminated(r) && st != []
    ensures r[0] == NUL ==> Content(r, endch, st) == Finish(r, st)
  {
    hide Finish, Tag;
  }

  lemma ContentOf(r: string, endch: char, st: seq<Frame>)
    requires Terminated(r) && st != [] && r[0] != NUL && r[0] != '<'
    ensures var w := SkipSpace(r);
      && Terminated(r[w..])
      && (r[w] == '<' || r[w] == NUL ==> w > 0 && Content(r, endch, st) == Content(r[w..], endch, st))
    ensures var w := SkipSpace(r);
      r[w] != '<' && r[w] != NUL && |st| > 1 ==>
        var d := CharData(r);
        d.used <= |r| && Terminated(r[d.used..])
        && Content(r, endch, st) == AfterText(r[d.used..], endch, AddChild(st, Text(Visible(d.text))))
    ensures var w, n := SkipSpace(r), SkipToTag(r);
      r[w] != '<' && r[w] != NUL && |st| == 1 ==>
        && Terminated(r[n..]) && (r[n] != NUL ==> Terminated(r[n + 1..]))
        && Content(r, endch, st) == if r[n] == NUL then Finish(r[n..], st) else Tag(r[n + 1..], endch, st)
  {
    hide Tag, Finish, CharData, AddChild, Visible;
    var n := SkipToTag(r);
    if r[n] != NUL { Drop(r, n, 1); }
  }

  lemma StandStart(was: string, s: nat)
    requires s < |was| && Terminated(was[s..])
    ensures Standing(was, was, s, [FrameAt(0, [], [])], [BOTTOM])
  {
  }

  lemma OverAngle(b: string, was: string, s: nat, endch: char, o: seq<FrameAt>, st: seq<Frame>)
    requires Standing(b, was, s, o, st) && was[s] == '<'
    ensures Terminated(was[s..]) && s + 1 < |was| && Terminated(was[s + 1..]) && st != []
    ensures Standing(b, was, s + 1, o, st)
    ensures Content(was[s..], endch, st) == Tag(was[s + 1..], endch, st)
  {
    hide Tag, FrameRep;
    StandingFacts(b, was, s, o, st);
    SliceFacts(was, s, s);
    StandOn(b, was, s, s + 1, o, st);
  }

  lemma FailedThere(x: Outcome, b: string, was: string, status: Option<Status>, offset: nat, o: seq<FrameAt>,
                    r: nat, st: seq<Frame>, endch: char)
    requires status.Some? && Went(x, b, was, status, offset, o, r, st, endch)
    ensures offset <= |was| && x == Failed(status.value, |was| - offset)
  {
  }

  lemma OnThere(x: Outcome, b: string, was: string, status: Option<Status>, offset: nat, o: seq<FrameAt>,
                r: nat, st: seq<Frame>, endch: char)
    requires status.None? && Went(x, b, was, status, offset, o, r, st, endch)
    ensures Standing(b, was, r, o, st) && r < |b| == |was| && st != [] && Terminated(was[r..])
    ensures x == Content(was[r..], endch, st)
  {
    hide FrameRep;
  }

  /** At the end of the text, the parse is over. */
  lemma AtEnd(b: string, was: string, s: nat, endch: char, o: seq<FrameAt>, st: seq<Frame>)
    requires Standing(b, was, s, o, st) && was[s] == NUL && Terminated(was[s..]) && st != []
    ensures |o| == |st|
    ensures |st| == 1 ==> Content(was[s..], endch, st) == Parsed(st[0].children)
    ensures |st| == 1 ==> NodesRep(b, |b|, o[0].children, st[0].children)
    ensures |st| != 1 ==> Content(was[s..], endch, st) == Failed(EndElementMismatch, |was| - s)
  {
    hide StringRep, NodeRep;
    assert was[s..][0] == was[s];
    if |st| == 1 {
      assert FrameRep(b, Limit(b, s), o[0], st[0], true);
      NodesFramed(b, Limit(b, s), b, |b|, o[0].children, st[0].children);
    }
  }

  lemma WentFailed(x: Outcome, b: string, was: string, status: Option<Status>, offset: nat, o: seq<FrameAt>,
                   r: nat, st: seq<Frame>, endch: char)
    requires status.Some? && offset <= |was| && x == Failed(status.value, |was| - offset)
    ensures Went(x, b, was, status, offset, o, r, st, endch)
  {
  }

  lemma WentEither(x: Outcome, b: string, was: string, status: Option<Status>, offset: nat, o: seq<FrameAt>,
                   r: nat, st: seq<Frame>, endch: char)
    requires status.Some? ==> offset <= |was| && x == Failed(status.value, |was| - offset)
    requires status.None? ==> Standing(b, was, r, o, st)
    requires status.None? && st != [] && r < |was| && Terminated(was[r..]) ==> x == Content(was[r..], endch, st)
    ensures Went(x, b, was, status, offset, o, r, st, endch)
  {
    if status.None? { StandingFacts(b, was, r, o, st); }
  }

  lemma NotNul(c: char)
    ensures IsSpace(c) || c == '/' || c == '>' ==> c != NUL
  {
  }

  lemma NameLeft(was: string, s: nat)
    requires s < |was| && Terminated(was[s..])
    ensures var n := NameEnd(was, s);
      s <= n < |was| && Terminated(was[n..]) && (was[n] != NUL ==> n + 1 < |was| && Terminated(was[n + 1..]))
  {
    NameEndIs(was, s);
    NotAtEnd(was, NameEnd(was, s));
  }

  /** The element is open: the reader stands behind the character that ended the name, or on it when
      it is the end of the document. */
  lemma OpenedAfterName(b: string, was: string, n: nat, o: seq<FrameAt>, st: seq<Frame>, s: nat, name: string)
    requires StackRep(b, n + 1, o, st) && StringRep(b, n + 1, s, name)
    requires |b| == |was| && n < |was| && Terminated(was[n..]) && b[n + 1..] == was[n + 1..] &&
             (was[n] == NUL ==> b[n..] == was[n..])
    requires was[n] != NUL ==> n + 1 < |was| && Terminated(was[n + 1..])
    ensures var r := if was[n] == NUL then n else n + 1;
      Standing(b, was, r, o + [FrameAt(s, [], [])], Push(st, name)) && Terminated(was[r..])
    ensures |Push(st, name)| == |st| + 1
  {
    hide StackRep, StringRep, Standing;
    if was[n] == NUL {
      LimitAtEnd(b, was, n);
      Opened(b, was, n + 1, o, st, s, name, n, n);
    } else {
      Opened(b, was, n + 1, o, st, s, name, n + 1, n + 1);
    }
    PushGrows(st, name);
  }

  lemma PushGrows(st: seq<Frame>, name: string)
    ensures |Push(st, name)| == |st| + 1
  {
  }

  lemma LimitAtEnd(b: string, was: string, n: nat)
    requires |b| == |was| && n < |was| && was[n] == NUL && b[n..] == was[n..]
    ensures Limit(b, n) == n + 1
  {
    SameHead(b, was, n);
  }

  lemma OpenName(b: string, was: string, s: nat, o: seq<FrameAt>, st: seq<Frame>)
    requires Standing(b, was, s, o, st) && |st| > 1
    ensures o != [] && HoldsAt(b, o[|o| - 1].name, Top(st).name)
  {
    hide AttributesRep, NodesRep;
    StackTopOnly(b, Limit(b, s), o, st);
  }

  lemma HoldsChars(b: string, i: nat, s: string)
    requires HoldsAt(b, i, s)
    ensures i + |s| < |b| && b[i + |s|] == NUL && forall k :: 0 <= k < |s| ==> b[i + k] == s[k] && s[k] != NUL
  {
    forall k | 0 <= k < |s| ensures b[i + k] == s[k] { assert b[i..i + |s|][k] == b[i + k]; }
  }

  lemma NameEndIsSymbols(b: string, s: nat)
    requires s < |b| && Terminated(b[s..])
    ensures forall i :: s <= i < NameEnd(b, s) ==> IsSymbol(b[i])
    ensures !IsSymbol(NUL)
  {
  }

  lemma PrefixOrNot(was: string, open: string, s: nat, n: nat, k: nat)
    requires s <= k <= n <= |was| && k - s <= |open|
    requires forall j :: s <= j < k ==> was[j] == open[j - s]
    requires k < n ==> k - s == |open| || was[k] != open[k - s]
    ensures k == n <==> was[s..n] <= open
  {
    if k == n {
      assert was[s..n] == open[..n - s];
    } else if k - s < |open| {
      assert was[s..n][k - s] == was[k];
    }
  }

  lemma NameTail(b: string, i: nat, open: string, j: nat, endch: char)
    requires HoldsAt(b, i, open) && j <= |open|
    ensures i + j < |b| && (b[i + j] != NUL <==> j < |open|)
    ensures j < |open| ==> i + j + 1 < |b|
    ensures j < |open| ==> (open[j..] == [endch] <==> b[i + j] == endch && b[i + j + 1] == NUL)
  {
    HoldsChars(b, i, open);
    if j < |open| {
      assert open[j..][0] == open[j];
      if j + 1 < |open| { assert open[j..][1] == open[j + 1]; } else { assert open[j..] == [open[j]]; }
    }
  }

  lemma ScanStops(b: string, s: nat)
    requires s < |b| && Terminated(b[s..])
    ensures b[s] == NUL ==> NameEnd(b, s) == s && SpaceEnd(b, s) == s
  {
  }

  lemma WentOn(x: Outcome, b: string, was: string, status: Option<Status>, offset: nat, o: seq<FrameAt>,
               r: nat, st: seq<Frame>, endch: char)
    requires status.None? && Standing(b, was, r, o, st) && st != [] && Terminated(was[r..])
    requires x == Content(was[r..], endch, st)
    ensures Went(x, b, was, status, offset, o, r, st, endch)
  {
  }

  lemma StartTagCases(b: string, w: nat, endch: char, st: seq<Frame>)
    requires w < |b| && Terminated(b[w..]) && |st| > 1
    ensures b[w] != NUL ==> w + 1 < |b| && Terminated(b[w + 1..])
    ensures b[w] == '/' ==>
      if b[w + 1] == '>' then
        w + 2 < |b| && Terminated(b[w + 2..]) && StartTagClose(b, w, endch, st) == Content(b[w + 2..], endch, Pop(st))
      else StartTagClose(b, w, endch, st) == if b[w + 1] == NUL && endch == '>' then Content(b[w + 1..], endch, Pop(st))
                                             else Failed(BadStartElement, |b| - (w + 1))
    ensures b[w] == '>' ==> StartTagClose(b, w, endch, st) == Content(b[w + 1..], endch, st)
    ensures b[w] != '/' && b[w] != '>' ==>
      StartTagClose(b, w, endch, st) == if b[w] == NUL && endch == '>' then Content(b[w..], endch, st)
                                        else Failed(BadStartElement, |b| - w)
  {
    hide Content, Pop;
    SliceFacts(b, w, w);
    if b[w] != NUL { SliceFacts(b, w + 1, w + 1); }
  }

  lemma EndTagCases(b: string, w: nat, endch: char, st: seq<Frame>)
    requires w < |b| && Terminated(b[w..]) && |st| > 1
    ensures b[w] == NUL ==>
      EndTagClose(b, w, endch, st) == if endch == '>' then Content(b[w..], endch, Pop(st))
        else Failed(BadEndElement, |b| - w)
    ensures b[w] == '>' ==> w + 1 < |b| && Terminated(b[w + 1..])
    ensures b[w] == '>' ==> EndTagClose(b, w, endch, st) == Content(b[w + 1..], endch, Pop(st))
    ensures b[w] != NUL && b[w] != '>' ==> EndTagClose(b, w, endch, st) == Failed(BadEndElement, |b| - w)
  {
    hide Content, Pop;
    SliceFacts(b, w, w);
  }

  lemma StandNext(b: string, was: string, s: nat, o: seq<FrameAt>, st: seq<Frame>)
    requires Standing(b, was, s, o, st) && (was[s] == '/' || was[s] == '>')
    ensures s + 1 < |was| && Terminated(was[s + 1..]) && Standing(b, was, s + 1, o, st)
  {
    hide StackRep;
    SliceFacts(was, s, s);
    StandOn(b, was, s, s + 1, o, st);
  }

  lemma StartsNoNul(b: string, s: nat)
    requires s < |b|
    ensures IsStartSymbol(b[s]) ==> b[s] != NUL && b[s] != '<' && IsSymbol(b[s])
  {
  }

  lemma Suffixes(b: string, was: string, n: nat)
    ensures |b| == |was| && n < |b| && b[n..] == was[n..] ==>
      b[n] == was[n] && forall i :: n <= i < |b| ==> b[i] == was[i] && b[i..] == was[i..]
  {
    if |b| == |was| && n < |b| && b[n..] == was[n..] {
      forall i | n <= i < |b| ensures b[i] == was[i] && b[i..] == was[i..] {
        Moved(b, was, n, i);
        SameHead(b, was, i);
      }
    }
  }

  /** Where the value of an attribute is looked for. */
  lemma BehindSign(b: string, was: string, n: nat, x: nat)
    requires |b| == |was| && n <= x < |b| && b[n..] == was[n..] && Terminated(was[x..])
    ensures Terminated(b[x..]) && SpaceEnd(b, x) == SpaceEnd(was, x)
    ensures var q := SpaceEnd(was, x); x <= q < |was| && Terminated(was[q..]) && b[q..] == was[q..]
  {
    hide SpaceEnd;
    Moved(b, was, n, x);
    ScansAgree(b, was, x);
    SpaceEndIs(was, x);
    Moved(b, was, x, SpaceEnd(was, x));
  }

  lemma ScansAgree(b: string, was: string, s: nat)
    requires |b| == |was| && s < |b| && b[s..] == was[s..] && Terminated(was[s..])
    ensures SpaceEnd(b, s) == SpaceEnd(was, s) && NameEnd(b, s) == NameEnd(was, s)
  {
    hide SpaceEnd, NameEnd;
    SpaceEndIs(b, s);
    SpaceEndIs(was, s);
    NameEndIs(b, s);
    NameEndIs(was, s);
  }

  lemma SignAfterSpace(b: string, was: string, n: nat)
    requires |b| == |was| && n < |was| && Terminated(was[n..]) && IsSpace(was[n])
    requires n + 1 < |was| && b[n + 1..] == was[n + 1..]
    ensures Terminated(b[n + 1..]) && SpaceEnd(b, n + 1) == SignAt(was, n)
  {
    hide SpaceEnd, NameEnd;
    SliceFacts(was, n, n);
    ScansAgree(b, was, n + 1);
  }

  lemma SignHere(was: string, n: nat)
    requires n < |was| && Terminated(was[n..]) && !IsSpace(was[n])
    ensures SignAt(was, n) == n
  {
  }

  lemma TailCases(name: string, b: string, k: nat, endch: char, st: seq<Frame>)
    requires k < |b| && (b[k] != NUL ==> k + 1 < |b| && Terminated(b[k + 1..])) && |st| > 1
    ensures b[k] != '=' ==> TailFrom(name, b, k, endch, st) == Failed(BadAttribute, |b| - (k + 1))
    ensures b[k] == '=' ==> k + 1 < |b| && Terminated(b[k + 1..])
    ensures b[k] == '=' ==> TailFrom(name, b, k, endch, st) == AttributeQuote(name, b[SpaceEnd(b, k + 1)..], endch, st)
  {
    hide AttributeQuote, SpaceEnd;
  }
}
