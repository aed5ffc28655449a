/** Reading what the printer wrote. */
module XmlRoundTrip {
  import opened Basics
  import opened CStrings
  import opened XmlText
  import opened XmlTree
  import opened XmlReading
  import opened XmlPrinter

  // ----- documents

  predicate LegalName(name: string) {
    name != "" && IsStartSymbol(name[0]) && forall i :: 0 <= i < |name| ==> IsSymbol(name[i])
  }

  /** Elements with legal names and text; no string holds a NUL. */
  predicate Legal(n: Node)
    decreases n, 0
  {
    if n.kind == Pcdata then n == Text(n.value) && NoNul(n.value)
    else
      && n.kind == Element && LegalName(n.name) && n.value == ""
      && (forall i :: 0 <= i < |n.attrs| ==> LegalName(n.attrs[i].name) && NoNul(n.attrs[i].value))
      && LegalAll(n.children)
  }

  predicate LegalAll(ns: seq<Node>)
    decreases ns, 1
  {
    forall i :: 0 <= i < |ns| ==> Legal(ns[i])
  }

  predicate Blank(s: string) {
    forall i :: 0 <= i < |s| ==> IsSpace(s[i])
  }

  /** The length of the run of text nodes that a list starts with. */
  function TextRun(ns: seq<Node>): (k: nat)
    ensures k <= |ns| && (forall i :: 0 <= i < k ==> ns[i].kind == Pcdata)
    ensures k < |ns| ==> ns[k].kind != Pcdata
  {
    if ns == [] || ns[0].kind != Pcdata then 0 else 1 + TextRun(ns[1..])
  }

  function RunText(ns: seq<Node>, k: nat): string
    requires k <= |ns|
  {
    if k == 0 then "" else ns[0].value + RunText(ns[1..], k - 1)
  }

  function CanonAttributes(attrs: seq<Attribute>): seq<Attribute> {
    if attrs == [] then [] else [Attribute(attrs[0].name, Blanked(attrs[0].value))] + CanonAttributes(attrs[1..])
  }

  /** What survives of a list of siblings: adjacent texts become one, blank text disappears, line
      ends in text are normalized, and tabs in attribute values become blanks. */
  function CanonAll(ns: seq<Node>): seq<Node>
    decreases ns, 1
  {
    if ns == [] then []
    else if ns[0].kind == Pcdata then
      var k := TextRun(ns);
      (if Blank(RunText(ns, k)) then [] else [Text(LineEnds(RunText(ns, k)))]) + CanonAll(ns[k..])
    else [Canon(ns[0])] + CanonAll(ns[1..])
  }

  function Canon(n: Node): Node
    decreases n, 0
  {
    Node(Element, n.name, "", CanonAttributes(n.attrs), CanonAll(n.children))
  }

  // ----- names

  lemma {:induction false} SkipName(name: string, x: string)
    requires (forall i :: 0 <= i < |name| ==> IsSymbol(name[i])) && Terminated(x) && !IsSymbol(x[0])
    ensures Terminated(name + x) && SkipSymbols(name + x) == |name|
  {
    if name == "" {
      assert name + x == x;
    } else {
      assert (name + x)[1..] == name[1..] + x;
      SkipName(name[1..], x);
    }
  }

  lemma Suffix(a: string, x: string)
    ensures (a + x)[|a|..] == x && (a + x)[..|a|] == a
  {
  }

  // ----- attributes

  function AddAttributes(st: seq<Frame>, attrs: seq<Attribute>): (r: seq<Frame>)
    requires st != []
    ensures |r| == |st|
    decreases attrs
  {
    if attrs == [] then st else AddAttributes(AddAttribute(st, attrs[0]), attrs[1..])
  }

  lemma TailOf(name: string, s: string, d: Decoded, endch: char, st: seq<Frame>)
    requires Terminated(s) && s[0] == '"' && |st| > 1
    requires Terminated(s[1..]) && AttributeValue(s[1..], '"') == Some(d)
    ensures Terminated(s[1 + d.used..])
    ensures !IsStartSymbol(s[1 + d.used..][0]) ==>
      AttributeTail(name, '=', s, endch, st)
      == Attributes(s[1 + d.used..], endch, AddAttribute(st, Attribute(name, Visible(d.text))))
  {
    hide Attributes, AttributeValue, AddAttribute, Visible;
    assert SkipSpace(s) == 0 && s[0..] == s;
    assert s[1..][d.used..] == s[1 + d.used..];
    ValueEnds(s[1..], d);
  }

  lemma ValueEnds(r: string, d: Decoded)
    requires Terminated(r) && AttributeValue(r, '"') == Some(d)
    ensures 0 < d.used <= |r| && Terminated(r[d.used..])
  {
  }

  function QuotedValue(value: string, x: string): string {
    "\"" + (Escape(value, true) + ("\"" + x))
  }

  lemma ReadQuoted(value: string, x: string)
    requires NoNul(value) && Terminated(x)
    ensures var s := QuotedValue(value, x); var d := Decoded(Blanked(value), |Escape(value, true)| + 1);
      && Terminated(s) && s[0] == '"' && Terminated(s[1..]) && AttributeValue(s[1..], '"') == Some(d)
      && s[1 + d.used..] == x
  {
    hide Escape, Blanked, AttributeValue;
    var q := "\"" + x;
    AttributeValueReadsBack(value, q);
    var w := Escape(value, true) + q;
    assert ("\"" + w)[1..] == w;
    Suffix(Escape(value, true), q);
    assert w[|Escape(value, true)| + 1..] == x;
  }

  lemma AttributeHead(name: string, y: string, endch: char, st: seq<Frame>)
    requires LegalName(name) && Terminated(y) && |st| > 1
    ensures var r := name + ("=" + y);
      Terminated(r) && Attributes(r, endch, st) == AttributeTail(name, '=', y, endch, st)
  {
    hide AttributeTail;
    var r := name + ("=" + y);
    SkipName(name, "=" + y);
    assert r[0] == name[0] && SkipSpace(r) == 0 && r[0..] == r;
    Suffix(name, "=" + y);
    assert r[|name| + 1..] == y by { assert r[|name|..][1..] == y; }
    assert r[|name|] == '=';
  }

  /** One attribute, from its first name character on. */
  lemma ReadAttribute(a: Attribute, x: string, endch: char, st: seq<Frame>)
    requires LegalName(a.name) && NoNul(a.value) && Terminated(x) && !IsStartSymbol(x[0]) && |st| > 1
    ensures var r := a.name + ("=" + QuotedValue(a.value, x));
      Terminated(r) &&
      Attributes(r, endch, st) == Attributes(x, endch, AddAttribute(st, Attribute(a.name, Blanked(a.value))))
  {
    hide Escape, Blanked, AttributeTail, Attributes, QuotedValue, AttributeValue;
    ReadQuoted(a.value, x);
    BlankedNoNul(a.value);
    var d := Decoded(Blanked(a.value), |Escape(a.value, true)| + 1);
    TailOf(a.name, QuotedValue(a.value, x), d, endch, st);
    AttributeHead(a.name, QuotedValue(a.value, x), endch, st);
  }

  lemma SkipOneSpace(r: string, endch: char, st: seq<Frame>)
    requires Terminated(r) && |st| > 1
    ensures Attributes(" " + r, endch, st) == Attributes(r, endch, st)
  {
    OneSpaceMore(r);
    AttributesAfterSpace(" " + r, r, endch, st);
  }

  lemma OneSpaceMore(r: string)
    requires Terminated(r)
    ensures Terminated(" " + r) && (" " + r)[SkipSpace(" " + r)..] == r[SkipSpace(r)..]
  {
    var s := " " + r;
    assert s[1..] == r;
    assert s[1 + SkipSpace(r)..] == r[SkipSpace(r)..];
  }

  lemma AttributesAfterSpace(r: string, s: string, endch: char, st: seq<Frame>)
    requires Terminated(r) && Terminated(s) && |st| > 1 && r[SkipSpace(r)..] == s[SkipSpace(s)..]
    ensures Attributes(r, endch, st) == Attributes(s, endch, st)
  {
    hide SkipSpace, SkipSymbols, Content, AttributeTail, IsStartSymbol;
  }

  lemma PrintAttributesSplit(attrs: seq<Attribute>, x: string)
    requires attrs != []
    ensures var y := PrintAttributes(attrs[1..]) + x;
      PrintAttributes(attrs) + x == " " + (NameOrDefault(attrs[0].name) + ("=" + QuotedValue(attrs[0].value, y)))
  {
    hide Escape;
    var n, e, p := NameOrDefault(attrs[0].name), Escape(attrs[0].value, true), PrintAttributes(attrs[1..]);
    assert PrintAttributes(attrs) == " " + n + "=\"" + e + "\"" + p;
    Associative(" " + n + "=\"" + e + "\"", p, x);
    Associative(" " + n + "=\"" + e, "\"", p + x);
    Associative(" " + n + "=\"", e, "\"" + (p + x));
    Associative(" " + n, "=\"", e + ("\"" + (p + x)));
    Associative(" ", n, "=\"" + (e + ("\"" + (p + x))));
    assert "=\"" == "=" + "\"";
    Associative("=", "\"", e + ("\"" + (p + x)));
  }

  lemma {:induction false} ReadAttributes(attrs: seq<Attribute>, x: string, endch: char, st: seq<Frame>)
    requires forall i :: 0 <= i < |attrs| ==> LegalName(attrs[i].name) && NoNul(attrs[i].value)
    requires Terminated(x) && !IsStartSymbol(x[0]) && |st| > 1
    ensures Terminated(PrintAttributes(attrs) + x)
    ensures Attributes(PrintAttributes(attrs) + x, endch, st) ==
            Attributes(x, endch, AddAttributes(st, CanonAttributes(attrs)))
    ensures attrs != [] ==> !IsStartSymbol((PrintAttributes(attrs) + x)[0])
  {
    hide Attributes, PrintAttributes, Escape, Blanked, QuotedValue, CanonAttributes;
    AttributesUnfold(attrs, st);
    if attrs == [] {
      assert PrintAttributes(attrs) + x == x;
    } else {
      var a := attrs[0];
      var y := PrintAttributes(attrs[1..]) + x;
      PrintAttributesSplit(attrs, x);
      ReadAttributes(attrs[1..], x, endch, AddAttribute(st, Attribute(a.name, Blanked(a.value))));
      assert attrs[1..] == [] ==> y == x by { AttributesUnfold(attrs[1..], st); }
      ReadAttribute(a, y, endch, st);
      SkipOneSpace(a.name + ("=" + QuotedValue(a.value, y)), endch, st);
    }
  }

  lemma AttributesUnfold(attrs: seq<Attribute>, st: seq<Frame>)
    requires st != []
    ensures attrs == [] ==> PrintAttributes(attrs) == "" && AddAttributes(st, CanonAttributes(attrs)) == st
    ensures attrs != [] ==>
      (AddAttributes(st, CanonAttributes(attrs))
       == AddAttributes(AddAttribute(st, Attribute(attrs[0].name, Blanked(attrs[0].value))),
         CanonAttributes(attrs[1..])))
  {
    if attrs != [] { assert CanonAttributes(attrs)[1..] == CanonAttributes(attrs[1..]); }
  }

  // ----- text

  lemma {:induction false} BlankSkips(s: string, y: string)
    requires Blank(s) && Terminated(y) && !IsSpace(y[0])
    ensures Escape(s, false) == s && Terminated(s + y) && SkipSpace(s + y) == |s|
  {
    if s == "" {
      assert s + y == y;
    } else {
      BlankSkips(s[1..], y);
      assert (s + y)[1..] == s[1..] + y;
      assert s == [s[0]] + s[1..];
    }
  }

  lemma {:induction false} NonBlankStops(s: string, y: string)
    requires !Blank(s) && NoNul(s) && Terminated(y)
    ensures var r := Escape(s, false) + y; Terminated(r) && r[SkipSpace(r)] != '<' && r[SkipSpace(r)] != NUL
    ensures var r := Escape(s, false) + y; r[0] != '<' && r[0] != NUL
  {
    var r := Escape(s, false) + y;
    EscapeHead(s, y);
    if IsSpace(s[0]) {
      NonBlankStops(s[1..], y);
      EscapeSplits(s, false, y);
      assert EscapeChar(s[0], false) == [s[0]];
      assert r[1..] == Escape(s[1..], false) + y;
    }
  }

  lemma ContentText(r: string, endch: char, st: seq<Frame>)
    requires Terminated(r) && r[0] != '<' && r[0] != NUL && |st| > 1
    ensures Terminated(r[SkipSpace(r)..])
    ensures var w := SkipSpace(r);
      if r[w] == '<' || r[w] == NUL then Content(r, endch, st) == Content(r[w..], endch, st)
      else var d := CharData(r); var r' := r[d.used..];
        r'[0] != NUL ==> Content(r, endch, st) == Tag(r', endch, AddChild(st, Text(Visible(d.text))))
  {
    hide Tag, CharData, AddChild;
  }

  lemma ContentTag(r: string, endch: char, st: seq<Frame>)
    requires Terminated(r) && r[0] == '<' && st != []
    ensures Terminated(r[1..]) && Content(r, endch, st) == Tag(r[1..], endch, st)
  {
    hide Tag;
  }

  /** A run of text in front of a tag. */
  lemma ReadText(s: string, y: string, endch: char, st: seq<Frame>)
    requires NoNul(s) && Terminated(y) && y[0] == '<' && y[1] != NUL && |st| > 1
    ensures var r := Escape(s, false) + y;
      && Terminated(r)
      && Content(r, endch, st) == Content(y, endch, if Blank(s) then st else AddChild(st, Text(LineEnds(s))))
  {
    hide Content, Tag, CharData, LineEnds, AddChild, Escape;
    var r := Escape(s, false) + y;
    if s == "" {
      EscapeNone(false);
      assert r == y;
    } else if Blank(s) {
      BlankSkips(s, y);
      ContentText(r, endch, st);
      assert r[|s|..] == y;
    } else {
      NonBlankStops(s, y);
      LineEndsNoNul(s);
      CharDataReadsBack(s, y);
      ContentText(r, endch, st);
      assert r[|Escape(s, false)| + 1..] == y[1..];
      ContentTag(y, endch, AddChild(st, Text(LineEnds(s))));
    }
  }

  // ----- tags

  lemma TagName(name: string, z: string, endch: char, st: seq<Frame>)
    requires LegalName(name) && Terminated(z) && st != []
    requires z[0] == '>' || z[0] == '/' || IsSpace(z[0])
    ensures Terminated(name + z)
    ensures IsSpace(z[0]) ==> Tag(name + z, endch, st) == Attributes(z[1..], endch, Push(st, name))
    ensures z[0] == '>' ==> Tag(name + z, endch, st) == Content(z[1..], endch, Push(st, name))
    ensures z[0] == '/' && z[1] == '>' ==> Tag(name + z, endch, st) == Content(z[2..], endch, Pop(Push(st, name)))
    ensures z[0] == '/' && z[1] == NUL && endch == '>' ==>
      Tag(name + z, endch, st) == Content(z[1..], endch, Pop(Push(st, name)))
  {
    hide Attributes, Content, Pop, Push, EndTag;
    var r := name + z;
    SkipName(name, z);
    Suffix(name, z);
    assert r[0] == name[0] && r[|name|] == z[0] && r[|name| + 1..] == z[1..];
    if z[0] == '/' { assert r[|name| + 1] == z[1] && r[|name| + 2..] == z[2..]; }
  }

  lemma AttributesEnd(z: string, endch: char, st: seq<Frame>)
    requires Terminated(z) && |st| > 1 && (z[0] == '>' || z[0] == '/')
    ensures z[0] == '>' ==> Attributes(z, endch, st) == Content(z[1..], endch, st)
    ensures z[0] == '/' && z[1] == '>' ==> Attributes(z, endch, st) == Content(z[2..], endch, Pop(st))
    ensures z[0] == '/' && z[1] == NUL && endch == '>' ==> Attributes(z, endch, st) == Content(z[1..], endch, Pop(st))
  {
    hide Content, Pop, AttributeTail;
    assert SkipSpace(z) == 0 && z[0..] == z;
  }

  /** A start tag up to its closing `>` or `/`. */
  lemma ReadStartTag(name: string, attrs: seq<Attribute>, z: string, endch: char, st: seq<Frame>)
    requires LegalName(name) && forall i :: 0 <= i < |attrs| ==> LegalName(attrs[i].name) && NoNul(attrs[i].value)
    requires Terminated(z) && st != [] && (z[0] == '>' || (z[0] == '/' &&
             (z[1] == '>' || (z[1] == NUL && endch == '>'))))
    ensures var r := name + (PrintAttributes(attrs) + z); var st' := AddAttributes(Push(st, name),
            CanonAttributes(attrs));
      && Terminated(r)
      && Tag(r, endch, st) == if z[0] == '>' then Content(z[1..], endch, st')
                              else if z[1] == '>' then Content(z[2..], endch, Pop(st'))
                              else Content(z[1..], endch, Pop(st'))
  {
    hide Tag, Content, Attributes, PrintAttributes, CanonAttributes, Push, Pop;
    PushGrows(st, name);
    AttributesUnfold(attrs, Push(st, name));
    var y := PrintAttributes(attrs) + z;
    ReadAttributes(attrs, z, endch, Push(st, name));
    if attrs == [] {
      assert y == z;
      TagName(name, z, endch, st);
    } else {
      PrintAttributesSplit(attrs, z);
      TagName(name, y, endch, st);
      var y' := y[1..];
      assert y == " " + y';
      SkipOneSpace(y', endch, Push(st, name));
      AttributesEnd(z, endch, AddAttributes(Push(st, name), CanonAttributes(attrs)));
    }
  }

  lemma PushGrows(st: seq<Frame>, name: string)
    ensures |Push(st, name)| == |st| + 1
  {
  }

  function AddChildren(st: seq<Frame>, ns: seq<Node>): (r: seq<Frame>)
    requires st != []
    ensures |r| == |st|
  {
    WithTop(st, Top(st).(children := Top(st).children + ns))
  }

  lemma {:induction false} OpenedFrame(st: seq<Frame>, name: string, a: seq<Attribute>, done: seq<Attribute>)
    ensures AddAttributes(st + [Frame(name, done, [])], a) == st + [Frame(name, done + a, [])]
    decreases a
  {
    if a == [] {
      assert done + a == done;
    } else {
      assert AddAttribute(st + [Frame(name, done, [])], a[0]) == st + [Frame(name, done + [a[0]], [])];
      OpenedFrame(st, name, a[1..], done + [a[0]]);
      assert done + [a[0]] + a[1..] == done + a;
    }
  }

  lemma ClosingFrame(st: seq<Frame>, name: string, a: seq<Attribute>, ns: seq<Node>)
    requires st != []
    ensures AddAttributes(Push(st, name), a) == st + [Frame(name, a, [])]
    ensures AddChildren(st + [Frame(name, a, [])], ns) == st + [Frame(name, a, ns)]
    ensures Pop(st + [Frame(name, a, ns)]) == AddChild(st, Node(Element, name, "", a, ns))
  {
    OpenedFrame(st, name, a, []);
    assert [] + a == a && [] + ns == ns;
    assert (st + [Frame(name, a, [])])[..|st|] == st;
    assert (st + [Frame(name, a, ns)])[..|st|] == st;
  }

  /** An end tag that matches the open element, followed by x or cut off before its `>`. */
  lemma ReadEndTag(name: string, z: string, endch: char, st: seq<Frame>)
    requires LegalName(name) && |st| > 1 && Top(st).name == name
    requires Terminated(z) && (z[0] == '>' || (z[0] == NUL && endch == '>'))
    ensures var r := "</" + (name + z);
      Terminated(r) &&
      Content(r, endch, st) == Content(if z[0] == '>' then z[1..] else z, endch, Pop(st))
  {
    hide Content, Tag, EndTag, Pop, LegalName;
    var r := "</" + (name + z);
    EndTagShape(name + z);
    EndTagMatch(name, z, endch, st);
    TerminatedBehind("</", name + z);
    ContentTag(r, endch, st);
    SlashTag(r[1..], endch, st);
  }

  lemma EndTagShape(y: string)
    ensures var r := "</" + y; r[0] == '<' && r[1..] == "/" + y && r[1..][1..] == y && r[1..][0] == '/'
  {
  }

  lemma TerminatedBehind(x: string, y: string)
    requires Terminated(y)
    ensures Terminated(x + y)
  {
  }

  lemma SlashTag(r: string, endch: char, st: seq<Frame>)
    requires Terminated(r) && r[0] == '/' && st != []
    ensures Terminated(r[1..]) && Tag(r, endch, st) == EndTag(r[1..], endch, st)
  {
    hide EndTag, Content, Attributes, Pop;
  }

  lemma EndTagMatch(name: string, z: string, endch: char, st: seq<Frame>)
    requires LegalName(name) && |st| > 1 && Top(st).name == name
    requires Terminated(z) && (z[0] == '>' || (z[0] == NUL && endch == '>'))
    ensures Terminated(name + z)
    ensures EndTag(name + z, endch, st) == Content(if z[0] == '>' then z[1..] else z, endch, Pop(st))
  {
    hide Content, Pop;
    var r := name + z;
    SkipName(name, z);
    Suffix(name, z);
    assert SkipSpace(z) == 0 && z[0..] == z;
  }

  // ----- whole trees

  lemma LegalAllAt(ns: seq<Node>, k: nat)
    requires LegalAll(ns) && k <= |ns|
    ensures LegalAll(ns[k..])
    ensures forall i :: 0 <= i < |ns| ==> Legal(ns[i])
  {
  }

  /** A run of texts prints as one text. */
  lemma {:induction false} PrintRun(ns: seq<Node>, k: nat, x: string)
    requires k <= |ns| && LegalAll(ns) && forall i :: 0 <= i < k ==> ns[i].kind == Pcdata
    ensures NoNul(RunText(ns, k))
    ensures PrintAll(ns) + x == Escape(RunText(ns, k), false) + (PrintAll(ns[k..]) + x)
  {
    hide Escape, Print, PrintAll, Legal;
    if k == 0 {
      EscapeNone(false);
      assert ns[0..] == ns;
      assert "" + (PrintAll(ns) + x) == PrintAll(ns) + x;
    } else {
      LegalText(ns[0]);
      PrintRun(ns[1..], k - 1, x);
      assert ns[1..][k - 1..] == ns[k..];
      PrintTextNode(ns[0]);
      PrintAllSplits(ns);
      RunJoin(ns[0].value, RunText(ns[1..], k - 1), PrintAll(ns[1..]), PrintAll(ns[k..]) + x, x);
    }
  }

  lemma RunJoin(v: string, rest: string, p: string, q: string, x: string)
    requires p + x == Escape(rest, false) + q
    ensures (Escape(v, false) + p) + x == Escape(v + rest, false) + q
  {
    hide Escape;
    EscapeConcat(v, rest, false);
    Associative(Escape(v, false), p, x);
    Associative(Escape(v, false), Escape(rest, false), q);
  }

  lemma LegalText(n: Node)
    requires Legal(n) && n.kind == Pcdata
    ensures NoNul(n.value)
  {
  }

  lemma PrintTextNode(n: Node)
    requires n.kind == Pcdata
    ensures Print(n) == Escape(n.value, false)
  {
  }

  lemma PrintElement(n: Node, x: string)
    requires n.kind == Element && n.value == "" && n.name != ""
    ensures n.children == [] ==> Print(n) + x == "<" + (n.name + (PrintAttributes(n.attrs) + ("/>" + x)))
    ensures n.children != [] ==>
      Print(n) + x == "<" + (n.name + (PrintAttributes(n.attrs) +
        (">" + (PrintAll(n.children) + ("</" + (n.name + (">" + x)))))))
  {
    var a := PrintAttributes(n.attrs);
    var close := if n.children == [] then "/>" else ">";
    assert PrintBefore(n) == "<" + n.name + a + close;
    if n.children == [] {
      assert PrintAll(n.children) == "";
      assert Print(n) == "<" + n.name + a + "/>";
      hide *;
      Associative("<" + n.name + a, "/>", x);
      Associative("<" + n.name, a, "/>" + x);
      Associative("<", n.name, a + ("/>" + x));
    } else {
      var c, e := PrintAll(n.children), PrintEnd(n);
      assert Print(n) == "<" + n.name + a + ">" + (c + e);
      assert e == "</" + n.name + ">";
      hide *;
      Associative("<" + n.name + a + ">", c + e, x);
      Associative("<" + n.name + a, ">", c + e + x);
      Associative("<" + n.name, a, ">" + (c + e + x));
      Associative("<", n.name, a + (">" + (c + e + x)));
      Associative(c, e, x);
      Associative("</" + n.name, ">", x);
      Associative("</", n.name, ">" + x);
    }
  }

  lemma AddChildrenFolds(st: seq<Frame>, n: Node, ns: seq<Node>)
    requires st != []
    ensures AddChildren(AddChild(st, n), ns) == AddChildren(st, [n] + ns)
    ensures AddChildren(st, []) == st
  {
    assert Top(st).children + [n] + ns == Top(st).children + ([n] + ns);
    assert Top(st).children + [] == Top(st).children;
    assert st == st[..|st| - 1] + [Top(st)];
  }

  /** What a list of siblings may be followed by: an end tag, or anything if no text is involved. */
  predicate Follows(ns: seq<Node>, x: string, st: seq<Frame>) {
    Terminated(x) && st != [] &&
    ((forall i :: 0 <= i < |ns| ==> ns[i].kind == Element) || (|st| > 1 && x[0] == '<' && x[1] != NUL))
  }

  /** An element is read back as its canonical form, whatever follows it. */
  lemma {:induction false} ReadElement(n: Node, x: string, endch: char, st: seq<Frame>)
    requires Legal(n) && n.kind == Element && Terminated(x) && st != []
    ensures var r := Print(n) + x;
      && Terminated(r) && r[0] == '<' && r[1] != NUL
      && Content(r, endch, st) == Content(x, endch, AddChild(st, Canon(n)))
    decreases n, 0
  {
    hide Content, Tag, Print, PrintAll, PrintAttributes, CanonAttributes, CanonAll, AddChild, Pop, Push, AddChildren;
    var a := CanonAttributes(n.attrs);
    PrintElement(n, x);
    CanonUnfold(n);
    PushGrows(st, n.name);
    if n.children == [] {
      ClosingFrame(st, n.name, a, []);
      ReadStartTag(n.name, n.attrs, "/>" + x, endch, st);
      assert ("/>" + x)[2..] == x;
      ContentOpen(n.name + (PrintAttributes(n.attrs) + ("/>" + x)), endch, st);
    } else {
      var st' := st + [Frame(n.name, a, [])];
      var e := "</" + (n.name + (">" + x));
      ClosingFrame(st, n.name, a, CanonAll(n.children));
      ReadEndTag(n.name, ">" + x, endch, AddChildren(st', CanonAll(n.children)));
      assert (">" + x)[1..] == x;
      ReadAll(n.children, e, endch, st');
      var z := ">" + (PrintAll(n.children) + e);
      assert z[1..] == PrintAll(n.children) + e;
      ReadStartTag(n.name, n.attrs, z, endch, st);
      ContentOpen(n.name + (PrintAttributes(n.attrs) + z), endch, st);
    }
  }

  lemma CanonUnfold(n: Node)
    ensures Canon(n) == Node(Element, n.name, "", CanonAttributes(n.attrs), CanonAll(n.children))
    ensures n.children == [] ==> CanonAll(n.children) == []
  {
  }

  lemma ContentOpen(r: string, endch: char, st: seq<Frame>)
    requires Terminated(r) && st != []
    ensures Terminated("<" + r) && Content("<" + r, endch, st) == Tag(r, endch, st)
  {
    assert ("<" + r)[1..] == r;
    ContentTag("<" + r, endch, st);
  }

  /** A list of siblings is read back as its canonical form. */
  lemma {:induction false} ReadAll(ns: seq<Node>, x: string, endch: char, st: seq<Frame>)
    requires LegalAll(ns) && Follows(ns, x, st)
    ensures var r := PrintAll(ns) + x;
      && Terminated(r) && (x[0] == '<' && x[1] != NUL && (ns == [] || ns[0].kind == Element) ==>
        r[0] == '<' && r[1] != NUL)
      && Content(r, endch, st) == Content(x, endch, AddChildren(st, CanonAll(ns)))
    decreases ns, 1
  {
    hide Content, Print, AddChild, AddChildren, Escape, LineEnds, Blank;
    if ns == [] {
      assert PrintAll(ns) + x == x;
      AddChildrenNone(st);
    } else if ns[0].kind == Pcdata {
      var k := TextRun(ns);
      var s := RunText(ns, k);
      LegalAllAt(ns, k);
      PrintRun(ns, k, x);
      var y := PrintAll(ns[k..]) + x;
      var st' := if Blank(s) then st else AddChild(st, Text(LineEnds(s)));
      AfterRun(ns, k);
      ReadAll(ns[k..], x, endch, st');
      ReadText(s, y, endch, st);
      CanonRun(ns, st);
    } else {
      LegalAllAt(ns, 1);
      forall i | 0 <= i < |ns[1..]| ensures ns[1..][i] == ns[i + 1] { }
      PrintAllSplits(ns);
      Associative(Print(ns[0]), PrintAll(ns[1..]), x);
      ReadAll(ns[1..], x, endch, AddChild(st, Canon(ns[0])));
      ReadElement(ns[0], PrintAll(ns[1..]) + x, endch, st);
      CanonElement(ns, st);
    }
  }

  lemma AddChildrenNone(st: seq<Frame>)
    requires st != []
    ensures AddChildren(st, CanonAll([])) == st
  {
    AddChildrenFolds(st, Node(Element, "", "", [], []), []);
  }

  lemma AfterRun(ns: seq<Node>, k: nat)
    requires k == TextRun(ns) && LegalAll(ns)
    ensures k < |ns| ==> ns[k..][0].kind == Element
  {
    LegalAllAt(ns, k);
    if k < |ns| { assert Legal(ns[k]); }
  }

  lemma CanonRun(ns: seq<Node>, st: seq<Frame>)
    requires ns != [] && ns[0].kind == Pcdata && st != []
    ensures var k := TextRun(ns); var s := RunText(ns, k);
      AddChildren(st, CanonAll(ns))
      == AddChildren(if Blank(s) then st else AddChild(st, Text(LineEnds(s))), CanonAll(ns[k..]))
  {
    var k := TextRun(ns);
    AddChildrenFolds(st, Text(LineEnds(RunText(ns, k))), CanonAll(ns[k..]));
    assert [] + CanonAll(ns[k..]) == CanonAll(ns[k..]);
  }

  lemma CanonElement(ns: seq<Node>, st: seq<Frame>)
    requires ns != [] && ns[0].kind != Pcdata && st != []
    ensures AddChildren(st, CanonAll(ns)) == AddChildren(AddChild(st, Canon(ns[0])), CanonAll(ns[1..]))
  {
    AddChildrenFolds(st, Canon(ns[0]), CanonAll(ns[1..]));
  }

  // ----- the documents that survive unchanged

  predicate Faithful(n: Node)
    decreases n, 0
  {
    if n.kind == Pcdata then !Blank(n.value) && '\r' !in n.value
    else (forall i :: 0 <= i < |n.attrs| ==> '\t' !in n.attrs[i].value) && FaithfulAll(n.children)
  }

  /** No blank text, no adjacent texts, no carriage return in text, no tab in an attribute value. */
  predicate FaithfulAll(ns: seq<Node>)
    decreases ns, 1
  {
    ns == [] ||
    (&& Faithful(ns[0])
     && (ns[0].kind == Pcdata && |ns| > 1 ==> ns[1].kind != Pcdata)
     && FaithfulAll(ns[1..]))
  }

  lemma {:induction false} CanonNoLonger(ns: seq<Node>)
    ensures |CanonAll(ns)| <= |ns|
    decreases |ns|
  {
    if ns != [] { CanonNoLonger(if ns[0].kind == Pcdata then ns[TextRun(ns)..] else ns[1..]); }
  }

  lemma {:induction false} CanonAttributesIdentity(attrs: seq<Attribute>)
    ensures CanonAttributes(attrs) == attrs <==> forall i :: 0 <= i < |attrs| ==> '\t' !in attrs[i].value
  {
    if attrs != [] {
      CanonAttributesIdentity(attrs[1..]);
      BlankedKeeps(attrs[0].value);
      assert attrs == [attrs[0]] + attrs[1..];
      assert forall i :: 0 <= i < |attrs| ==> attrs[i] == if i == 0 then attrs[0] else attrs[1..][i - 1];
    }
  }

  lemma RunOfOne(ns: seq<Node>)
    requires ns != [] && ns[0].kind == Pcdata
    ensures TextRun(ns) >= 1 && (TextRun(ns) == 1 <==> |ns| == 1 || ns[1].kind != Pcdata)
    ensures RunText(ns, 1) == ns[0].value
  {
    assert RunText(ns[1..], 0) == "";
    assert RunText(ns, 1) == ns[0].value + "";
    if |ns| > 1 { assert ns[1..][0] == ns[1]; }
  }

  lemma {:induction false} CanonIdentity(n: Node)
    requires Legal(n) && n.kind == Element
    ensures Canon(n) == n <==> Faithful(n)
    decreases n, 0
  {
    CanonAttributesIdentity(n.attrs);
    CanonAllIdentity(n.children);
  }

  /** A list of siblings is canonical exactly when it is faithful. */
  lemma {:induction false} CanonAllIdentity(ns: seq<Node>)
    requires LegalAll(ns)
    ensures CanonAll(ns) == ns <==> FaithfulAll(ns)
    decreases ns, 1
  {
    if ns != [] {
      hide Legal, Canon, LineEnds, Blank;
      assert ns == [ns[0]] + ns[1..];
      CanonAllIdentity(ns[1..]);
      CanonNoLonger(ns[1..]);
      if ns[0].kind == Pcdata {
        var k := TextRun(ns);
        LegalText(ns[0]);
        LegalTextNode(ns[0]);
        RunOfOne(ns);
        CanonNoLonger(ns[k..]);
        LineEndsKeeps(ns[0].value);
        TextInjective(LineEnds(RunText(ns, k)), ns[0]);
        if k == 1 {
          assert ns[k..] == ns[1..];
          HeadTail(Text(LineEnds(ns[0].value)), ns[0], CanonAll(ns[1..]), ns[1..]);
        }
      } else {
        LegalElement(ns[0]);
        CanonIdentity(ns[0]);
        HeadTail(Canon(ns[0]), ns[0], CanonAll(ns[1..]), ns[1..]);
      }
    }
  }

  lemma HeadTail(a: Node, b: Node, x: seq<Node>, y: seq<Node>)
    ensures [a] + x == [b] + y <==> a == b && x == y
  {
    if [a] + x == [b] + y {
      assert ([a] + x)[0] == ([b] + y)[0] && ([a] + x)[1..] == ([b] + y)[1..];
      assert ([a] + x)[1..] == x && ([b] + y)[1..] == y;
    }
  }

  lemma TextInjective(s: string, n: Node)
    ensures Text(s) == n ==> s == n.value
  {
  }

  lemma LegalTextNode(n: Node)
    requires Legal(n) && n.kind == Pcdata
    ensures n == Text(n.value)
  {
  }

  lemma LegalElement(n: Node)
    requires Legal(n) && n.kind != Pcdata
    ensures n.kind == Element
  {
  }

  // ----- documents

  predicate ElementsOnly(ns: seq<Node>) {
    forall i :: 0 <= i < |ns| ==> ns[i].kind == Element
  }

  lemma FinishTop(ns: seq<Node>, endch: char)
    ensures Content([NUL], endch, AddChildren([BOTTOM], ns)) == Parsed(ns)
  {
    assert [] + ns == ns;
    assert AddChildren([BOTTOM], ns) == [Frame("", [], ns)];
  }

  /** Reading a printed document, copied into a buffer of its own and terminated there, yields its
      canonical form; so the document comes back unchanged exactly when it is faithful. */
  lemma PrintedDocumentReadsBack(ns: seq<Node>)
    requires LegalAll(ns) && ElementsOnly(ns)
    ensures ReadDocument(PrintAll(ns) + [NUL], NUL) == Parsed(CanonAll(ns))
    ensures ReadDocument(PrintAll(ns) + [NUL], NUL) == Parsed(ns) <==> FaithfulAll(ns)
  {
    ReadAll(ns, [NUL], NUL, [BOTTOM]);
    FinishTop(CanonAll(ns), NUL);
    CanonAllIdentity(ns);
  }

  // ----- parsing in place: the last character gives way to the terminator

  /** A printed element without its last character, which is always a `>`. */
  function Cut(n: Node): string {
    if n.children == [] then "<" + (n.name + (PrintAttributes(n.attrs) + "/"))
    else "<" + (n.name + (PrintAttributes(n.attrs) + (">" + (PrintAll(n.children) + ("</" + n.name)))))
  }

  lemma CutIsPrintWithoutEnd(n: Node)
    requires n.kind == Element && n.value == "" && n.name != ""
    ensures Print(n) == Cut(n) + ">"
  {
    PrintElement(n, "");
    assert Print(n) + "" == Print(n);
    var a := PrintAttributes(n.attrs);
    CutThen(n, ">");
    assert "/" + ">" == "/>" + "";
    assert n.name + ">" == n.name + (">" + "");
  }

  lemma CutThen(n: Node, z: string)
    ensures n.children == [] ==> Cut(n) + z == "<" + (n.name + (PrintAttributes(n.attrs) + ("/" + z)))
    ensures n.children != [] ==>
      Cut(n) + z == "<" + (n.name + (PrintAttributes(n.attrs) + (">" + (PrintAll(n.children) + ("</" + (n.name + z))))))
  {
    var a := PrintAttributes(n.attrs);
    if n.children == [] {
      hide PrintAttributes, PrintAll;
      Associative("<", n.name + (a + "/"), z);
      Associative(n.name, a + "/", z);
      Associative(a, "/", z);
    } else {
      var c := PrintAll(n.children);
      var e := "</" + n.name;
      hide PrintAttributes, PrintAll;
      Associative("<", n.name + (a + (">" + (c + e))), z);
      Associative(n.name, a + (">" + (c + e)), z);
      Associative(a, ">" + (c + e), z);
      Associative(">", c + e, z);
      Associative(c, e, z);
      Associative("</", n.name, z);
    }
  }

  /** The last element is complete although its closing `>` has been overwritten. */
  lemma ReadCutElement(n: Node, st: seq<Frame>)
    requires Legal(n) && n.kind == Element && st != []
    ensures Terminated(Cut(n) + [NUL])
    ensures Content(Cut(n) + [NUL], '>', st) == Content([NUL], '>', AddChild(st, Canon(n)))
  {
    hide Content, Tag, Print, PrintAll, PrintAttributes, CanonAttributes, CanonAll, AddChild, Pop, Push, AddChildren,
      Cut;
    var a := CanonAttributes(n.attrs);
    CutThen(n, [NUL]);
    CanonUnfold(n);
    PushGrows(st, n.name);
    if n.children == [] {
      ClosingFrame(st, n.name, a, []);
      ReadStartTag(n.name, n.attrs, "/" + [NUL], '>', st);
      assert ("/" + [NUL])[1..] == [NUL];
      ContentOpen(n.name + (PrintAttributes(n.attrs) + ("/" + [NUL])), '>', st);
    } else {
      var st' := st + [Frame(n.name, a, [])];
      var e := "</" + (n.name + [NUL]);
      ClosingFrame(st, n.name, a, CanonAll(n.children));
      ReadEndTag(n.name, [NUL], '>', AddChildren(st', CanonAll(n.children)));
      ReadAll(n.children, e, '>', st');
      var z := ">" + (PrintAll(n.children) + e);
      assert z[1..] == PrintAll(n.children) + e;
      ReadStartTag(n.name, n.attrs, z, '>', st);
      ContentOpen(n.name + (PrintAttributes(n.attrs) + z), '>', st);
    }
  }

  lemma {:induction false} PrintAllSnoc(ns: seq<Node>, n: Node)
    ensures PrintAll(ns + [n]) == PrintAll(ns) + Print(n)
  {
    hide Print;
    if ns == [] {
      assert ns + [n] == [n] && [n][1..] == [];
      assert PrintAll([n]) == Print(n) + PrintAll([]);
    } else {
      assert (ns + [n])[1..] == ns[1..] + [n];
      PrintAllSnoc(ns[1..], n);
      Associative(Print(ns[0]), PrintAll(ns[1..]), Print(n));
    }
  }

  lemma {:induction false} CanonAllSnoc(ns: seq<Node>, n: Node)
    requires ElementsOnly(ns) && n.kind == Element
    ensures CanonAll(ns + [n]) == CanonAll(ns) + [Canon(n)]
  {
    hide Canon;
    if ns == [] {
      assert ns + [n] == [n] && [n][1..] == [];
      assert CanonAll([n]) == [Canon(n)] + CanonAll([]);
    } else {
      assert (ns + [n])[0] == ns[0] && (ns + [n])[1..] == ns[1..] + [n];
      CanonAllSnoc(ns[1..], n);
      assert CanonAll(ns + [n]) == [Canon(ns[0])] + (CanonAll(ns[1..]) + [Canon(n)]);
    }
  }

  /** Reading a printed document in the buffer it was printed to, whose last character is replaced
      by the terminator, yields the same result. */
  lemma PrintedDocumentReadsBackInPlace(ns: seq<Node>)
    requires LegalAll(ns) && ElementsOnly(ns) && ns != []
    ensures var p := PrintAll(ns); p != "" && p[|p| - 1] == '>'
    ensures var p := PrintAll(ns); ReadDocument(p[..|p| - 1] + [NUL], '>') == Parsed(CanonAll(ns))
    ensures var p := PrintAll(ns); ReadDocument(p[..|p| - 1] + [NUL], '>') == Parsed(ns) <==> FaithfulAll(ns)
  {
    var init, n := ns[..|ns| - 1], ns[|ns| - 1];
    var p := PrintAll(ns);
    assert ns == init + [n];
    assert Legal(n);
    CutIsPrintWithoutEnd(n);
    PrintAllSnoc(init, n);
    CanonAllSnoc(init, n);
    CanonAllIdentity(ns);
    hide *;
    Associative(PrintAll(init), Cut(n), ">");
    assert p[..|p| - 1] == PrintAll(init) + Cut(n);
    Associative(PrintAll(init), Cut(n), [NUL]);
    var st := AddChildren([BOTTOM], CanonAll(init));
    InPlaceParts(init, n);
    ReadCutElement(n, [BOTTOM]);
    ReadAll(init, Cut(n) + [NUL], '>', [BOTTOM]);
    ReadCutElement(n, st);
    FinishTop(CanonAll(init) + [Canon(n)], '>');
    AddChildLast(CanonAll(init), Canon(n));
    ReadDocumentIs(p[..|p| - 1] + [NUL], '>');
  }

  lemma InPlaceParts(init: seq<Node>, n: Node)
    requires LegalAll(init + [n]) && ElementsOnly(init + [n])
    ensures LegalAll(init) && ElementsOnly(init) && Legal(n) && n.kind == Element
    ensures forall x, st :: Terminated(x) && st != [] ==> Follows(init, x, st)
    ensures AddChildren([BOTTOM], CanonAll(init)) != []
  {
    assert (init + [n])[|init|] == n;
    forall i | 0 <= i < |init| ensures init[i] == (init + [n])[i] { }
  }

  lemma AddChildLast(ns: seq<Node>, n: Node)
    ensures AddChild(AddChildren([BOTTOM], ns), n) == AddChildren([BOTTOM], ns + [n])
  {
    assert [] + ns + [n] == [] + (ns + [n]);
  }

  lemma ReadDocumentIs(b: string, endch: char)
    requires Terminated(b)
    ensures ReadDocument(b, endch) == Content(b, endch, [BOTTOM])
  {
  }
}
