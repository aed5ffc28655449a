/** The printer in raw format: what is written for a tree, and the loops that write it. */
module XmlPrinter {
  import opened CStrings
  import opened XmlText
  import opened XmlTree
  import XmlAxes

  const DEFAULT_NAME := ":anonymous"

  function NameOrDefault(name: string): string {
    if name == "" then DEFAULT_NAME else name
  }

  /** The node kinds whose printing is modelled; text has no children. */
  predicate Printable(n: Node)
    decreases n
  {
    n.kind in {Document, Element, Pcdata} && (n.kind == Pcdata ==> n.children == []) &&
      forall i :: 0 <= i < |n.children| ==> Printable(n.children[i])
  }

  function PrintAttributes(attrs: seq<Attribute>): string {
    if attrs == [] then ""
    else " " + NameOrDefault(attrs[0].name) + "=\"" + Escape(attrs[0].value, true) + "\"" + PrintAttributes(attrs[1..])
  }

  function PrintEnd(n: Node): string {
    "</" + NameOrDefault(n.name) + ">"
  }

  /** What is written on entering an element. */
  function PrintStart(n: Node): string {
    "<" + NameOrDefault(n.name) + PrintAttributes(n.attrs) + PrintBody(n)
  }

  /** What ends the tag, and the value inlined behind it. */
  function PrintBody(n: Node): string {
    if n.value == "" then (if n.children == [] then "/>" else ">")
    else ">" + Escape(n.value, false) + if n.children == [] then PrintEnd(n) else ""
  }

  function PrintBefore(n: Node): string {
    match n.kind
    case Pcdata => Escape(n.value, false)
    case Element => PrintStart(n)
    case _ => ""
  }

  function PrintAfter(n: Node): string {
    if n.kind == Element && n.children != [] then PrintEnd(n) else ""
  }

  function Print(n: Node): string
    decreases n, 0
  {
    PrintBefore(n) + (if n.kind == Pcdata then "" else PrintAll(n.children) + PrintAfter(n))
  }

  function PrintAll(ns: seq<Node>): string
    decreases ns, 1
  {
    if ns == [] then "" else Print(ns[0]) + PrintAll(ns[1..])
  }

  // ----- the writing loops

  lemma EscapeSnoc(s: string, c: char, inAttribute: bool)
    ensures Escape(s + [c], inAttribute) == Escape(s, inAttribute) + EscapeChar(c, inAttribute)
  {
    EscapeConcat(s, [c], inAttribute);
    assert Escape([c], inAttribute) == EscapeChar(c, inAttribute) + Escape("", inAttribute);
  }

  lemma EscapeNext(s: string, i: nat, inAttribute: bool)
    requires i < |s|
    ensures Escape(s[..i + 1], inAttribute) == Escape(s[..i], inAttribute) + EscapeChar(s[i], inAttribute)
  {
    assert s[..i + 1] == s[..i] + [s[i]];
    EscapeSnoc(s[..i], s[i], inAttribute);
  }

  lemma PlainNext(s: string, prev: nat, i: nat, inAttribute: bool)
    requires prev <= i < |s| && !Special(s[i], inAttribute)
    requires Escape(s[..i], inAttribute) == Escape(s[..prev], inAttribute) + s[prev..i]
    ensures Escape(s[..i + 1], inAttribute) == Escape(s[..prev], inAttribute) + s[prev..i + 1]
  {
    EscapeNext(s, i, inAttribute);
    Associative(Escape(s[..prev], inAttribute), s[prev..i], [s[i]]);
    assert s[prev..i + 1] == s[prev..i] + [s[i]];
  }

  /** What replaces a special character. */
  method WriteSpecial(out: string, c: char, ghost inAttribute: bool) returns (r: string)
    requires Special(c, inAttribute)
    ensures r == out + EscapeChar(c, inAttribute)
  {
    if c == '&' {
      r := out + "&amp;";
    } else if c == '<' {
      r := out + "&lt;";
    } else if c == '>' {
      r := out + "&gt;";
    } else if c == '"' {
      r := out + "&quot;";
    } else {
      var ch := c as int;
      assert ch < 32;
      r := out + ['&', '#', ('0' as int + ch / 10) as char, ('0' as int + ch % 10) as char, ';'];
    }
  }

  /** Runs of ordinary characters are copied; each special character is replaced. */
  method TextOutputEscaped(out: string, s: string, inAttribute: bool) returns (r: string)
    ensures r == out + Escape(s, inAttribute)
  {
    hide Escape, EscapeChar;
    r := out;
    var i := 0;
    EscapeNone(inAttribute);
    while i < |s|
      invariant i <= |s|
      invariant r == out + Escape(s[..i], inAttribute)
    {
      var prev := i;
      while i < |s| && !Special(s[i], inAttribute)
        invariant prev <= i <= |s|
        invariant Escape(s[..i], inAttribute) == Escape(s[..prev], inAttribute) + s[prev..i]
      {
        PlainNext(s, prev, i, inAttribute);
        i := i + 1;
      }
      Associative(out, Escape(s[..prev], inAttribute), s[prev..i]);
      r := r + s[prev..i];
      if i < |s| {
        EscapeNext(s, i, inAttribute);
        Associative(out, Escape(s[..i], inAttribute), EscapeChar(s[i], inAttribute));
        r := WriteSpecial(r, s[i], inAttribute);
        i := i + 1;
      }
    }
    assert s[..i] == s;
  }

  lemma EscapeNone(inAttribute: bool)
    ensures Escape("", inAttribute) == ""
  {
  }

  lemma {:induction false} PrintAttributesSnoc(attrs: seq<Attribute>, a: Attribute)
    ensures PrintAttributes(attrs + [a]) == PrintAttributes(attrs) + PrintAttributes([a])
  {
    if attrs == [] {
      assert attrs + [a] == [a];
    } else {
      assert (attrs + [a])[1..] == attrs[1..] + [a];
      PrintAttributesSnoc(attrs[1..], a);
    }
  }

  function PrintAttribute(a: Attribute): string {
    " " + NameOrDefault(a.name) + "=\"" + Escape(a.value, true) + "\""
  }

  lemma PrintAttributesNext(attrs: seq<Attribute>, i: nat)
    requires i < |attrs|
    ensures PrintAttributes(attrs[..i + 1]) == PrintAttributes(attrs[..i]) + PrintAttribute(attrs[i])
  {
    assert attrs[..i + 1] == attrs[..i] + [attrs[i]];
    PrintAttributesSnoc(attrs[..i], attrs[i]);
    assert PrintAttributes([attrs[i]]) == PrintAttribute(attrs[i]) + PrintAttributes([]);
  }

  /** Five writes in a row write the concatenation. */
  lemma Written(out: string, a: string, b: string, c: string, d: string, e: string)
    ensures out + a + b + c + d + e == out + (a + b + c + d + e)
  {
    Associative(out, a, b);
    Associative(out, a + b, c);
    Associative(out, a + b + c, d);
    Associative(out, a + b + c + d, e);
  }

  method NodeOutputAttributes(out: string, attrs: seq<Attribute>) returns (r: string)
    ensures r == out + PrintAttributes(attrs)
  {
    r := out;
    var i := 0;
    assert PrintAttributes([]) == "";
    hide PrintAttributes, Escape;
    while i < |attrs|
      invariant i <= |attrs|
      invariant r == out + PrintAttributes(attrs[..i])
    {
      var a := attrs[i];
      Written(r, " ", NameOrDefault(a.name), "=\"", Escape(a.value, true), "\"");
      Associative(out, PrintAttributes(attrs[..i]), PrintAttribute(a));
      PrintAttributesNext(attrs, i);
      r := r + " ";
      r := r + NameOrDefault(a.name);
      r := r + "=\"";
      r := TextOutputEscaped(r, a.value, true);
      r := r + "\"";
      i := i + 1;
    }
    assert attrs[..i] == attrs;
  }

  /** Write an element's start; tell whether its children, and then its end, are still to come. */
  method NodeOutputStart(out: string, n: Node) returns (r: string, open: bool)
    ensures r == out + PrintStart(n)
    ensures open <==> n.children != []
  {
    hide PrintAttributes, PrintBody, NameOrDefault;
    r := out + "<";
    r := r + NameOrDefault(n.name);
    Written(out, "<", NameOrDefault(n.name), PrintAttributes(n.attrs), PrintBody(n), "");
    NoAttributes(n.attrs);
    if n.attrs != [] {
      r := NodeOutputAttributes(r, n.attrs);
    }
    assert r == out + "<" + NameOrDefault(n.name) + PrintAttributes(n.attrs);
    r, open := NodeOutputBody(r, n);
  }

  method NodeOutputBody(out: string, n: Node) returns (r: string, open: bool)
    ensures r == out + PrintBody(n)
    ensures open <==> n.children != []
  {
    hide Escape, PrintEnd;
    if n.value == "" {
      if n.children == [] {
        r := out + "/>";
        open := false;
      } else {
        r := out + ">";
        open := true;
      }
    } else {
      Written(out, ">", Escape(n.value, false), if n.children == [] then PrintEnd(n) else "", "", "");
      r := out + ">";
      r := TextOutputEscaped(r, n.value, false);
      if n.children == [] {
        r := r + PrintEnd(n);
        open := false;
      } else {
        open := true;
      }
    }
  }

  lemma NoAttributes(attrs: seq<Attribute>)
    ensures attrs == [] ==> PrintAttributes(attrs) == ""
  {
  }

  /** What remains to be written once the node at p has been. */
  function Rest(t: Node, p: Path): string
    requires ValidPath(t, p)
    decreases |p|
  {
    if p == [] then ""
    else
      var parent := NodeAt(t, Up(p));
      PrintAll(parent.children[Last(p) + 1..]) + (PrintAfter(parent) + Rest(t, Up(p)))
  }

  lemma {:induction false} SubtreePrintable(t: Node, p: Path)
    requires ValidPath(t, p) && Printable(t)
    ensures Printable(NodeAt(t, p))
    decreases |p|
  {
    if p != [] { SubtreePrintable(t, Up(p)); }
  }

  lemma EnterFirst(t: Node, p: Path)
    requires ValidPath(t, p) && NodeAt(t, p).children != [] && NodeAt(t, p).kind != Pcdata
    ensures ValidPath(t, p + [0])
    ensures Print(NodeAt(t, p)) + Rest(t, p)
         == PrintBefore(NodeAt(t, p)) + (Print(NodeAt(t, p + [0])) + Rest(t, p + [0]))
  {
    hide *;
    var n := NodeAt(t, p);
    var first, others := Print(n.children[0]), PrintAll(n.children[1..]);
    RestOfFirst(t, p);
    PrintOpen(n);
    Associative(PrintBefore(n), first + others + PrintAfter(n), Rest(t, p));
    Associative(first + others, PrintAfter(n), Rest(t, p));
    Associative(first, others, PrintAfter(n) + Rest(t, p));
  }

  lemma RestOfFirst(t: Node, p: Path)
    requires ValidPath(t, p) && NodeAt(t, p).children != []
    ensures ValidPath(t, p + [0]) && NodeAt(t, p + [0]) == NodeAt(t, p).children[0]
    ensures Rest(t, p + [0]) == PrintAll(NodeAt(t, p).children[1..]) + (PrintAfter(NodeAt(t, p)) + Rest(t, p))
  {
    hide PrintAll, PrintAfter, NodeAt, ValidPath, Rest, Up, Last;
    ChildPath(t, p, 0);
    UpLast(p, 0);
    RestIs(t, p + [0]);
  }

  lemma UpLast(p: Path, k: nat)
    ensures Up(p + [k]) == p && Last(p + [k]) == k
  {
  }

  lemma RestIs(t: Node, p: Path)
    requires ValidPath(t, p) && p != []
    ensures ValidPath(t, Up(p)) && Last(p) < |NodeAt(t, Up(p)).children|
    ensures var parent := NodeAt(t, Up(p));
      Rest(t, p) == PrintAll(parent.children[Last(p) + 1..]) + (PrintAfter(parent) + Rest(t, Up(p)))
  {
    hide PrintAll, PrintAfter;
  }

  lemma PrintOpen(n: Node)
    requires n.children != [] && n.kind != Pcdata
    ensures Print(n) == PrintBefore(n) + (Print(n.children[0]) + PrintAll(n.children[1..]) + PrintAfter(n))
  {
    PrintAllSplits(n.children);
  }

  lemma PrintAllSplits(ns: seq<Node>)
    requires ns != []
    ensures PrintAll(ns) == Print(ns[0]) + PrintAll(ns[1..])
  {
  }

  lemma RestOf(t: Node, p: Path)
    requires ValidPath(t, p) && p != []
    ensures ValidPath(t, Up(p)) && Last(p) < |NodeAt(t, Up(p)).children|
    ensures var parent := NodeAt(t, Up(p));
      Rest(t, p) == PrintAll(parent.children[Last(p) + 1..]) + (PrintAfter(parent) + Rest(t, Up(p)))
  {
    hide PrintAll, PrintAfter, NodeAt;
  }

  lemma PrintAllStep(ns: seq<Node>, k: nat)
    requires k < |ns|
    ensures PrintAll(ns[k..]) == Print(ns[k]) + PrintAll(ns[k + 1..])
  {
    hide Print;
    assert ns[k..][1..] == ns[k + 1..];
  }

  lemma NextInRest(t: Node, p: Path)
    requires ValidPath(t, p) && NextSibling(t, p) != Null
    ensures var q := NextSibling(t, p).path;
      ValidPath(t, q) && Rest(t, p) == Print(NodeAt(t, q)) + Rest(t, q)
  {
    hide Print, PrintAll, PrintAfter, Rest, ValidPath, NodeAt;
    RestOf(t, p);
    var k, up := Last(p), Up(p);
    assert p == up + [k];
    NextSiblingPath(t, up, k);
    ChildPath(t, up, k + 1);
    var q := up + [k + 1];
    assert Up(q) == up && Last(q) == k + 1;
    RestOf(t, q);
    var parent := NodeAt(t, up);
    PrintAllStep(parent.children, k + 1);
    Associative(Print(NodeAt(t, q)), PrintAll(parent.children[k + 2..]), PrintAfter(parent) + Rest(t, up));
  }

  lemma UpInRest(t: Node, p: Path)
    requires ValidPath(t, p) && p != [] && NextSibling(t, p) == Null
    ensures Rest(t, p) == PrintAfter(NodeAt(t, Up(p))) + Rest(t, Up(p))
  {
  }

  /** Writes the ends of the elements that end with leaf, up to the next sibling to write. */
  method Climb(t: Node, leaf: Path, out: string) returns (cur: Path, r: string)
    requires ValidPath(t, leaf) && Exhausted(t, leaf, leaf)
    ensures ValidPath(t, cur) && Exhausted(t, cur, leaf) && r + Rest(t, cur) == out + Rest(t, leaf)
    ensures cur == [] || NextSibling(t, cur) != Null
  {
    hide Print, PrintBefore, PrintStart, PrintAfter, Rest, Printable, NodeAt, NextSibling, Exhausted, XmlAxes.Remaining;
    cur, r := leaf, out;
    while cur != []
      invariant ValidPath(t, cur) && Exhausted(t, cur, leaf)
      invariant r + Rest(t, cur) == out + Rest(t, leaf)
      decreases |cur|
    {
      if NextSibling(t, cur) != Null { break; }
      UpInRest(t, cur);
      ExhaustedUp(t, cur, leaf);
      cur := Parent(cur).path;
      r := WriteEnd(r, NodeAt(t, cur));
    }
  }

  /** The whole walk: every node is written where its place in the document says. */
  method NodeOutput(t: Node) returns (out: string)
    requires Printable(t)
    ensures out == Print(t)
  {
    hide Print, PrintBefore, PrintStart, PrintAfter, Rest, Printable, NodeAt, NextSibling, Exhausted, XmlAxes.Remaining;
    out := "";
    var cur: Path := [];
    RestAtRoot(t);
    while true
      invariant ValidPath(t, cur)
      invariant out + (Print(NodeAt(t, cur)) + Rest(t, cur)) == Print(t)
      decreases XmlAxes.Remaining(t, cur)
    {
      SubtreePrintable(t, cur);
      var n := NodeAt(t, cur);
      PrintableText(n);
      ghost var before := out;
      var open;
      out, open := WriteNode(out, n);
      if open {
        EnterFirst(t, cur);
        Associative(before, PrintBefore(n), Print(NodeAt(t, cur + [0])) + Rest(t, cur + [0]));
        FirstChildAfter(t, cur);
        cur := FirstChild(t, cur).path;
      } else {
        NotOpen(n);
        LeafExhausted(t, cur);
        ghost var leaf := cur;
        Associative(before, PrintBefore(n), Rest(t, leaf));
        cur, out := Climb(t, cur, out);
        if cur == [] {
          RestAtRoot(t);
          assert out + "" == out;
          return;
        }
        NextInRest(t, cur);
        NextAfter(t, cur, leaf);
        cur := NextSibling(t, cur).path;
      }
    }
  }

  lemma PrintableText(n: Node)
    requires Printable(n)
    ensures n.kind == Pcdata ==> n.children == []
  {
  }

  lemma RestAtRoot(t: Node)
    ensures Rest(t, []) == "" && NodeAt(t, []) == t
  {
  }

  lemma FirstChildAfter(t: Node, p: Path)
    requires ValidPath(t, p) && NodeAt(t, p).children != []
    ensures ValidPath(t, p + [0]) && XmlAxes.Remaining(t, p + [0]) < XmlAxes.Remaining(t, p)
  {
    ChildPath(t, p, 0);
    FirstChildNext(t, p, p + [0]);
    XmlAxes.RemainingDrops(t, p, p + [0]);
  }

  lemma NextAfter(t: Node, c: Path, p: Path)
    requires ValidPath(t, c) && Exhausted(t, c, p) && NextSibling(t, c) != Null
    ensures var q := NextSibling(t, c).path; ValidPath(t, q) && XmlAxes.Remaining(t, q) < XmlAxes.Remaining(t, p)
  {
    var q := NextSibling(t, c).path;
    ChildPath(t, Up(c), Last(c) + 1);
    ExhaustedSibling(t, c, p, q);
    XmlAxes.RemainingDrops(t, p, q);
  }

  lemma NotOpen(n: Node)
    requires n.children == []
    ensures Print(n) == PrintBefore(n)
  {
    assert PrintAll(n.children) == "";
  }

  method WriteNode(out: string, n: Node) returns (r: string, open: bool)
    requires Printable(n)
    ensures r == out + PrintBefore(n)
    ensures open <==> n.children != []
  {
    if n.kind == Pcdata {
      r := TextOutputEscaped(out, n.value, false);
      open := false;
    } else if n.kind == Element {
      r, open := NodeOutputStart(out, n);
    } else {
      r := out;
      open := n.children != [];
    }
  }

  method WriteEnd(out: string, n: Node) returns (r: string)
    requires n.children != []
    ensures r == out + PrintAfter(n)
  {
    r := out;
    if n.kind == Element { r := r + PrintEnd(n); }
  }
}
