/** The XPath translate() function: the direct in-place form and the table-driven one. */
module Translate {
  import opened Basics
  import opened CStrings

  /** The index of the first c in s, or |s|. */
  function IndexOf(s: string, c: char): (k: nat)
    ensures k <= |s| && (k < |s| ==> s[k] == c)
    ensures forall i :: 0 <= i < k ==> s[i] != c
  {
    if s == [] || s[0] == c then 0 else 1 + IndexOf(s[1..], c)
  }

  /** What one character becomes: itself, its counterpart in `to`, or nothing. */
  function TranslateChar(c: char, from: string, to: string): string {
    var k := IndexOf(from, c);
    if k == |from| then [c] else if k < |to| then [to[k]] else []
  }

  /** translate() as section 4.2 of XPath 1.0 defines it. */
  function Translated(s: string, from: string, to: string): string {
    if s == [] then [] else TranslateChar(s[0], from, to) + Translated(s[1..], from, to)
  }

  lemma {:induction false} TranslatedSnoc(s: string, c: char, from: string, to: string)
    ensures Translated(s + [c], from, to) == Translated(s, from, to) + TranslateChar(c, from, to)
    ensures |Translated(s, from, to)| <= |s|
  {
    if s == [] {
      assert s + [c] == [c];
    } else {
      assert |TranslateChar(s[0], from, to)| <= 1;
      hide TranslateChar;
      assert (s + [c])[1..] == s[1..] + [c];
      TranslatedSnoc(s[1..], c, from, to);
    }
  }

  lemma {:induction false} IndexFound(s: string, k: nat)
    requires k < |s| && Distinct(s)
    ensures IndexOf(s, s[k]) == k
  {
    if k > 0 {
      assert s[k] == s[1..][k - 1];
      IndexFound(s[1..], k - 1);
    }
  }

  /** The first characters of `from`, each of them once, become those of `to`; those without a
      counterpart are dropped. */
  lemma {:induction false} TranslatesInOrder(from: string, to: string, n: nat)
    requires Distinct(from) && n <= |from|
    ensures Translated(from[..n], from, to) == if n <= |to| then to[..n] else to
  {
    if n == 0 {
      assert from[..0] == "" && to[..0] == "";
    } else {
      hide Translated, IndexOf, Distinct;
      TranslatesInOrder(from, to, n - 1);
      TranslatedSnoc(from[..n - 1], from[n - 1], from, to);
      assert from[..n] == from[..n - 1] + [from[n - 1]];
      IndexFound(from, n - 1);
      assert n <= |to| ==> to[..n] == to[..n - 1] + [to[n - 1]];
    }
  }

  /** Characters that `from` does not hold stay as they are. */
  lemma {:induction false} OthersStay(s: string, from: string, to: string)
    requires forall c :: c in s ==> c !in from
    ensures Translated(s, from, to) == s
  {
    if s != "" {
      OthersStay(s[1..], from, to);
      assert s[0] in s && s == [s[0]] + s[1..];
    }
  }

  /** A text is translated piece by piece. */
  lemma {:induction false} TranslatedConcat(s: string, t: string, from: string, to: string)
    ensures Translated(s + t, from, to) == Translated(s, from, to) + Translated(t, from, to)
  {
    hide TranslateChar;
    if s == "" {
      assert s + t == t;
    } else {
      assert (s + t)[1..] == s[1..] + t;
      TranslatedConcat(s[1..], t, from, to);
    }
  }

  lemma {:induction false} IndexStays(s: string, more: string, c: char)
    requires forall d :: d in more ==> d in s
    ensures c in s ==> IndexOf(s + more, c) == IndexOf(s, c) < |s|
    ensures c !in s ==> IndexOf(s + more, c) == |s + more| && IndexOf(s, c) == |s|
  {
    if c in s {
      var i :| 0 <= i < |s| && s[i] == c;
      assert IndexOf(s, c) <= i;
      assert (s + more)[IndexOf(s, c)] == c;
    }
  }

  /** A character that stands in `from` again changes nothing: its first place counts. */
  lemma {:induction false} RepetitionIgnored(s: string, from: string, more: string, to: string, also: string)
    requires |from| == |to| && forall d :: d in more ==> d in from
    ensures Translated(s, from + more, to + also) == Translated(s, from, to)
  {
    if s != "" {
      RepetitionIgnored(s[1..], from, more, to, also);
      IndexStays(from, more, s[0]);
    }
  }

  /** Appending one character to what has been written. */
  lemma WriteOne(b: string, b': string, write: nat, done: string, c: char)
    requires write < |b| && b[..write] == done && b' == b[write := c]
    ensures b'[..write + 1] == done + [c]
    ensures NoNul(done) && c != NUL ==> NoNul(done + [c])
  {
  }

  lemma HeldChars(b: string, s: string)
    requires HoldsAt(b, 0, s)
    ensures |s| < |b| && b[|s|] == NUL && forall k :: 0 <= k < |s| ==> b[k] == s[k] && s[k] != NUL
  {
    assert forall k :: 0 <= k < |s| ==> b[0..|s|][k] == b[k];
  }

  lemma HeldAgain(b: string, write: nat, done: string)
    requires write < |b| && b[..write] == done && b[write] == NUL && NoNul(done)
    ensures HoldsAt(b, 0, done)
  {
  }

  lemma PrefixNext(s: string, read: nat)
    requires read < |s|
    ensures s[..read + 1] == s[..read] + [s[read]]
  {
  }

  /** The direct form. The write cursor never passes the read cursor. */
  method TranslateInPlace(b: array<char>, from: string, to: string, ghost s: string) returns (write: nat)
    requires HoldsAt(b[..], 0, s) && NoNul(from) && NoNul(to)
    modifies b
    ensures HoldsAt(b[..], 0, Translated(s, from, to)) && write == |Translated(s, from, to)|
    ensures b[|s|..] == old(b[|s|..])
  {
    hide Translated, IndexOf, HoldsAt;
    var read := 0;
    write := 0;
    HeldChars(b[..], s);
    NothingTranslated(from, to);
    assert s[..0] == "" && b[..0] == "";
    while b[read] != NUL
      invariant write <= read <= |s| < b.Length
      invariant forall k :: read <= k < |s| ==> b[k] == s[k]
      invariant b[|s|] == NUL && b[|s|..] == old(b[|s|..])
      invariant b[..write] == Translated(s[..read], from, to)
      invariant NoNul(b[..write])
      decreases |s| - read
    {
      var ch := b[read];
      PrefixNext(s, read);
      TranslatedSnoc(s[..read], ch, from, to);
      read := read + 1;
      var pos := IndexOf(from, ch);
      ghost var was := b[..];
      ghost var done := b[..write];
      if pos == |from| {
        b[write] := ch;
        WriteOne(was, b[..], write, done, ch);
        write := write + 1;
      } else if pos < |to| {
        b[write] := to[pos];
        WriteOne(was, b[..], write, done, to[pos]);
        write := write + 1;
      }
    }
    assert s[..read] == s;
    b[write] := NUL;
    HeldAgain(b[..], write, Translated(s, from, to));
  }

  lemma NothingTranslated(from: string, to: string)
    ensures Translated("", from, to) == ""
  {
  }

  // ----- the table

  const SKIP_CODE := 128

  /** The entry the table must hold for character code i. */
  function Code(i: nat, from: string, to: string): nat
    requires i < 128
  {
    var k := IndexOf(from, i as char);
    if k == |from| then i else if k < |to| then to[k] as nat else SKIP_CODE
  }

  /** Both arguments stay within the table's range, as far as `from` reaches. */
  predicate Tabulable(from: string, to: string) {
    forall k :: 0 <= k < |from| ==> from[k] as nat < 128 && (k < |to| ==> to[k] as nat < 128)
  }

  ghost predicate TableFor(table: seq<nat>, from: string, to: string) {
    |table| == 128 && Tabulable(from, to) && forall i :: 0 <= i < 128 ==> table[i] == Code(i, from, to)
  }

  /** The table after f characters of `from`: zero where no entry has been made yet. */
  ghost predicate TableUpTo(table: seq<nat>, from: string, to: string, f: nat) {
    f <= |from| && |table| == 128 && forall i :: 0 <= i < 128 ==>
      table[i] == if IndexOf(from, i as char) < f then Code(i, from, to) else 0
  }

  /** One more character of `from` makes an entry only where there is none. */
  lemma TableStep(table: seq<nat>, from: string, to: string, f: nat, table': seq<nat>)
    requires TableUpTo(table, from, to, f) && f < |from| && from[f] as nat < 128 && NoNul(to)
    requires var fc := from[f] as nat; var tc := if f < |to| then to[f] as nat else 0;
      table' == if table[fc] == 0 then table[fc := if tc != 0 then tc else SKIP_CODE] else table
    ensures TableUpTo(table', from, to, f + 1)
  {
    forall i | 0 <= i < 128
      ensures table'[i] == if IndexOf(from, i as char) < f + 1 then Code(i, from, to) else 0
    {
      var k := IndexOf(from, i as char);
      assert k < |from| ==> from[k] == i as char;
    }
  }

  lemma CodeNotZero(i: nat, from: string, to: string)
    requires i < 128 && NoNul(to) && IndexOf(from, i as char) < |from|
    ensures Code(i, from, to) != 0
  {
  }

  /** Generation succeeds exactly when the arguments are tabulable, and then yields their table. */
  method TranslateTableGenerate(from: string, to: string) returns (ok: bool, table: seq<nat>)
    requires NoNul(from) && NoNul(to)
    ensures ok <==> Tabulable(from, to)
    ensures ok ==> TableFor(table, from, to)
  {
    table := seq(128, i => 0);
    var f, t := 0, 0;
    while f < |from|
      invariant f <= |from| && t == if f < |to| then f else |to|
      invariant forall k :: 0 <= k < f ==> from[k] as nat < 128 && (k < |to| ==> to[k] as nat < 128)
      invariant TableUpTo(table, from, to, f)
    {
      hide TableUpTo;
      var fc := from[f] as nat;
      var tc := if t < |to| then to[t] as nat else 0;
      if fc >= 128 || tc >= 128 {
        return false, table;
      }
      ghost var before := table;
      TableSize(table, from, to, f);
      if table[fc] == 0 {
        table := table[fc := if tc != 0 then tc else SKIP_CODE];
      }
      TableStep(before, from, to, f, table);
      f := f + 1;
      if tc != 0 { t := t + 1; }
    }
    table := FillIdentity(table, from, to);
    ok := true;
  }

  lemma TableSize(table: seq<nat>, from: string, to: string, f: nat)
    requires TableUpTo(table, from, to, f)
    ensures |table| == 128
  {
  }

  /** Characters without an entry stand for themselves. */
  method FillIdentity(table0: seq<nat>, from: string, to: string) returns (table: seq<nat>)
    requires TableUpTo(table0, from, to, |from|) && Tabulable(from, to) && NoNul(from) && NoNul(to)
    ensures TableFor(table, from, to)
  {
    table := table0;
    var i := 0;
    while i < 128
      invariant i <= 128 && |table| == 128
      invariant forall j :: 0 <= j < i ==> table[j] == Code(j, from, to)
      invariant forall j :: i <= j < 128 ==> table[j] == table0[j]
    {
      if IndexOf(from, i as char) < |from| { CodeNotZero(i, from, to); }
      if table[i] == 0 {
        table := table[i := i];
      }
      i := i + 1;
    }
  }

  function TableChar(c: char, table: seq<nat>): string
    requires |table| == 128 && forall i :: 0 <= i < 128 ==> table[i] <= 128
  {
    if c as nat < 128 then (if table[c as nat] == SKIP_CODE then [] else [table[c as nat] as char]) else [c]
  }

  function Tabled(s: string, table: seq<nat>): string
    requires |table| == 128 && forall i :: 0 <= i < 128 ==> table[i] <= 128
  {
    if s == [] then [] else TableChar(s[0], table) + Tabled(s[1..], table)
  }

  lemma {:induction false} TabledSnoc(s: string, c: char, table: seq<nat>)
    requires |table| == 128 && forall i :: 0 <= i < 128 ==> table[i] <= 128
    ensures Tabled(s + [c], table) == Tabled(s, table) + TableChar(c, table)
    ensures |Tabled(s, table)| <= |s|
  {
    if s == [] {
      assert s + [c] == [c];
    } else {
      assert (s + [c])[1..] == s[1..] + [c];
      TabledSnoc(s[1..], c, table);
    }
  }

  /** The table-driven form: every code is written, and the cursor moves on unless it is the skip
      code. The write cursor never passes the read cursor. */
  method TranslateTable(b: array<char>, table: seq<nat>, ghost s: string) returns (write: nat)
    requires HoldsAt(b[..], 0, s)
    requires |table| == 128 && forall i :: 0 <= i < 128 ==> table[i] <= 128 && (i > 0 ==> table[i] > 0)
    modifies b
    ensures HoldsAt(b[..], 0, Tabled(s, table)) && write == |Tabled(s, table)|
    ensures b[|s|..] == old(b[|s|..])
  {
    hide Tabled, HoldsAt;
    var read := 0;
    write := 0;
    HeldChars(b[..], s);
    NothingTabled(table);
    assert s[..0] == "" && b[..0] == "";
    while b[read] != NUL
      invariant write <= read <= |s| < b.Length
      invariant forall k :: read <= k < |s| ==> b[k] == s[k]
      invariant b[|s|] == NUL && b[|s|..] == old(b[|s|..])
      invariant b[..write] == Tabled(s[..read], table)
      invariant NoNul(b[..write])
      decreases |s| - read
    {
      var ch := b[read];
      PrefixNext(s, read);
      TabledSnoc(s[..read], ch, table);
      read := read + 1;
      ghost var was := b[..];
      ghost var done := b[..write];
      if ch as nat < 128 {
        var code := table[ch as nat];
        b[write] := code as char;
        WriteOne(was, b[..], write, done, code as char);
        assert b[..write] == done;
        write := write + 1 - code / 128;
      } else {
        b[write] := ch;
        WriteOne(was, b[..], write, done, ch);
        write := write + 1;
      }
    }
    assert s[..read] == s;
    b[write] := NUL;
    HeldAgain(b[..], write, Tabled(s, table));
  }

  lemma NothingTabled(table: seq<nat>)
    requires |table| == 128 && forall i :: 0 <= i < 128 ==> table[i] <= 128
    ensures Tabled("", table) == ""
  {
  }

  /** Whenever a table can be generated, the table-driven form computes the same string. */
  lemma {:induction false} TableTranslates(s: string, from: string, to: string, table: seq<nat>)
    requires TableFor(table, from, to)
    ensures forall i :: 0 <= i < 128 ==> table[i] <= 128
    ensures Tabled(s, table) == Translated(s, from, to)
  {
    forall i | 0 <= i < 128 ensures table[i] <= 128 { assert table[i] == Code(i, from, to); }
    if s != [] {
      TableTranslates(s[1..], from, to, table);
      var k := IndexOf(from, s[0]);
      if s[0] as nat < 128 {
        assert table[s[0] as nat] == Code(s[0] as nat, from, to);
      }
    }
  }
}
