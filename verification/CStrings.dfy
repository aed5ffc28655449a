/** NUL-terminated strings inside character buffers, and white space in them. */
module CStrings {
  const NUL: char := 0 as char

  predicate IsSpace(c: char) {
    c == ' ' || c == '\t' || c == '\r' || c == '\n'
  }

  predicate NoNul(s: string) {
    forall i :: 0 <= i < |s| ==> s[i] != NUL
  }

  /** The buffer holds the string s, and its terminator, from position i on. */
  predicate HoldsAt(b: string, i: nat, s: string) {
    i + |s| < |b| && b[i..i + |s|] == s && b[i + |s|] == NUL && NoNul(s)
  }

  /** Later writes do not disturb a string that ends before them. */
  lemma HoldsFramed(b: string, b': string, lim: nat, i: nat, s: string)
    requires HoldsAt(b, i, s) && i + |s| < lim <= |b| && lim <= |b'| && b[..lim] == b'[..lim]
    ensures HoldsAt(b', i, s)
  {
    assert b[i..i + |s|] == b[..lim][i..i + |s|];
    assert b'[i..i + |s|] == b'[..lim][i..i + |s|];
    assert b[i + |s|] == b[..lim][i + |s|] && b'[i + |s|] == b'[..lim][i + |s|];
  }

  /** What a reader of a NUL-terminated string sees of s. */
  function Visible(s: string): (v: string)
    ensures NoNul(v) && v <= s && (|v| < |s| ==> s[|v|] == NUL)
    ensures NoNul(s) ==> v == s
  {
    if s == "" || s[0] == NUL then "" else [s[0]] + Visible(s[1..])
  }
}
