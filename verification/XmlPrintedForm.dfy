/** What the printer writes, in terms of all the ways a document can be written: one blank before each
    attribute and no other white space, quotation marks, an empty element short, every character as it
    is unless it must not be, then by its entity or two decimal digits. */
module XmlPrintedForm {
  import opened CStrings
  import opened XmlText
  import opened XmlTree
  import opened XmlPrinter
  import opened V = XmlWritings
  import opened R = XmlRoundTrip
  import opened W = XmlWrittenDocuments
  import N = Numerals

  /** The way the printer writes a character. */
  function PieceOf(c: char, inAttribute: bool): Piece {
    if c in "&<>" || (inAttribute && c == '"') then Entity(c)
    else if c as int < 32 && c != '\t' && (inAttribute || (c != '\n' && c != '\r')) then
      Decimal([N.Digit(c as nat / 10, false), N.Digit(c as nat % 10, false)])
    else Plain(c)
  }

  function PiecesOf(s: string, inAttribute: bool): (ps: seq<Piece>)
    ensures |ps| == |s| && forall i :: 0 <= i < |s| ==> ps[i] == PieceOf(s[i], inAttribute)
  {
    seq(|s|, i requires 0 <= i < |s| => PieceOf(s[i], inAttribute))
  }

  function PlaceOf(inAttribute: bool): Place {
    if inAttribute then Quoted('"') else Between
  }

  lemma PieceWritten(c: char, inAttribute: bool)
    requires c != NUL
    ensures Admissible(PieceOf(c, inAttribute), PlaceOf(inAttribute))
    ensures Writing(PieceOf(c, inAttribute)) == EscapeChar(c, inAttribute)
    ensures Stands(PieceOf(c, inAttribute)) == [c]
  {
    var p := PieceOf(c, inAttribute);
    if p.Decimal? {
      TwoDigitNumber(c);
    }
  }

  lemma TwoDigitValue(a: N.Digit, b: N.Digit)
    ensures N.Value([a, b], 10) == 10 * a.value + b.value
  {
    var ds := [a, b];
    assert ds[..1] == [a] && [a][..0] == [];
    assert N.Value([a], 10) == a.value;
  }

  lemma TwoDigitsShown(a: N.Digit, b: N.Digit)
    requires a.value < 10 && b.value < 10
    ensures N.AreDigits([a, b], 10)
    ensures "&#" + N.Shown([a, b]) + ";" == ['&', '#', ('0' as int + a.value) as char, ('0' as int + b.value) as char,
            ';']
  {
    DecimalDigit(a);
    DecimalDigit(b);
    hide N.Show;
    assert N.Shown([a, b]) == [N.Show(a), N.Show(b)];
  }

  lemma DecimalDigit(a: N.Digit)
    requires a.value < 10
    ensures N.Show(a) == ('0' as int + a.value) as char
  {
  }

  lemma TwoDigitNumber(c: char)
    requires c as int < 32
    ensures var ds := [N.Digit(c as nat / 10, false), N.Digit(c as nat % 10, false)];
      N.AreDigits(ds, 10) && Stands(Decimal(ds)) == [c] &&
      "&#" + N.Shown(ds) + ";" ==
        ['&', '#', ('0' as int + c as int / 10) as char, ('0' as int + c as int % 10) as char, ';']
  {
    hide N.Value, Utf8, N.Shown;
    var a, b := N.Digit(c as nat / 10, false), N.Digit(c as nat % 10, false);
    TwoDigitValue(a, b);
    TwoDigitsShown(a, b);
    SmallUtf8(c as nat);
  }

  /** Escaped text is written with these pieces, which stand for the text itself. */
  lemma {:induction false} EscapeIsWriting(s: string, inAttribute: bool)
    requires NoNul(s)
    ensures AllAdmissible(PiecesOf(s, inAttribute), PlaceOf(inAttribute))
    ensures V.Written(PiecesOf(s, inAttribute), PlaceOf(inAttribute)) == Escape(s, inAttribute)
  {
    hide EscapeChar, PieceOf, Admissible, Writing;
    if s != "" {
      var ps := PiecesOf(s, inAttribute);
      EscapeIsWriting(s[1..], inAttribute);
      assert ps[1..] == PiecesOf(s[1..], inAttribute);
      PieceWritten(s[0], inAttribute);
      assert forall i :: 0 < i < |ps| ==> ps[i] == ps[1..][i - 1];
    }
  }

  function AttributeOf(a: Attribute): WrittenAttribute {
    WrittenAttribute(" ", a.name, "", "", '"', PiecesOf(a.value, true))
  }

  function AttributesOf(attrs: seq<Attribute>): seq<WrittenAttribute> {
    if attrs == [] then [] else [AttributeOf(attrs[0])] + AttributesOf(attrs[1..])
  }

  lemma {:induction false} AttributesPrinted(attrs: seq<Attribute>, x: string)
    requires forall i :: 0 <= i < |attrs| ==> LegalName(attrs[i].name) && NoNul(attrs[i].value)
    ensures GoodAttributes(AttributesOf(attrs)) && AttributesText(AttributesOf(attrs), x) == PrintAttributes(attrs) + x
  {
    hide PrintAttributes, Escape, V.Written, AllAdmissible, PiecesOf;
    if attrs == [] {
      assert PrintAttributes(attrs) == "" by { NoAttributes(attrs); }
    } else {
      var a, y := attrs[0], PrintAttributes(attrs[1..]) + x;
      AttributesPrinted(attrs[1..], x);
      PrintAttributesSplit(attrs, x);
      EscapeIsWriting(a.value, true);
      var all := AttributesOf(attrs);
      assert all[1..] == AttributesOf(attrs[1..]);
      assert forall i :: 0 < i < |all| ==> all[i] == all[1..][i - 1];
      assert ValueText(AttributeOf(a), y) == QuotedValue(a.value, y);
      NoSpace(a.name, QuotedValue(a.value, y));
    }
  }

  lemma NoSpace(name: string, v: string)
    ensures name + ("" + ("=" + ("" + v))) == name + ("=" + v)
  {
    assert "" + v == v && "" + ("=" + v) == "=" + v;
  }

  function ItemOf(n: Node): Item
    decreases n, 0
  {
    Tags(n.name, AttributesOf(n.attrs), "", if n.children == [] then Short else Full(ItemsOf(n.children), ""))
  }

  /** Texts next to each other are written as one. */
  function ItemsOf(ns: seq<Node>): seq<Item>
    decreases ns, 1
  {
    if ns == [] then []
    else if ns[0].kind == Pcdata then
      [Chars(PiecesOf(RunText(ns, TextRun(ns)), false))] + ItemsOf(ns[TextRun(ns)..])
    else [ItemOf(ns[0])] + ItemsOf(ns[1..])
  }

  lemma {:induction false} ElementPrinted(n: Node, x: string)
    requires Legal(n) && n.kind == Element
    ensures Good(ItemOf(n)) && Print(n) + x == ItemText(ItemOf(n), x)
    decreases n, 0
  {
    hide Print, PrintAll, PrintAttributes, AttributesText, AttributesOf, GoodAttributes;
    PrintElement(n, x);
    if n.children == [] {
      AttributesPrinted(n.attrs, "/>" + x);
      assert "" + ("/>" + x) == "/>" + x;
    } else {
      var e := "</" + (n.name + (">" + x));
      assert EndTagText(n.name, "", x) == e by { assert "" + (">" + x) == ">" + x; }
      ChildrenPrinted(n.children, e);
      var z := ">" + (PrintAll(n.children) + e);
      AttributesPrinted(n.attrs, z);
      assert "" + z == z;
    }
  }

  /** What is printed for a list of nodes, and what follows, is the writing of these items. */
  lemma {:induction false} ChildrenPrinted(ns: seq<Node>, x: string)
    requires LegalAll(ns)
    ensures GoodAll(ItemsOf(ns)) && PrintAll(ns) + x == ItemsText(ItemsOf(ns), x)
    ensures ItemsOf(ns) != [] && ItemsOf(ns)[0].Chars? ==> ns != [] && ns[0].kind == Pcdata
    decreases ns, 1
  {
    hide Print, ItemOf, Escape, PiecesOf, V.Written;
    if ns == [] {
      assert PrintAll(ns) + x == x;
    } else if ns[0].kind == Pcdata {
      var k := TextRun(ns);
      var s := RunText(ns, k);
      LegalAllAt(ns, k);
      PrintRun(ns, k, x);
      ChildrenPrinted(ns[k..], x);
      EscapeIsWriting(s, false);
      AfterRun(ns, k);
      InFront(Chars(PiecesOf(s, false)), ItemsOf(ns[k..]), x);
    } else {
      LegalAllAt(ns, 1);
      assert Legal(ns[0]);
      PrintAllSplits(ns);
      Associative(Print(ns[0]), PrintAll(ns[1..]), x);
      ChildrenPrinted(ns[1..], x);
      ElementPrinted(ns[0], PrintAll(ns[1..]) + x);
      TagsOf(ns[0]);
      InFront(ItemOf(ns[0]), ItemsOf(ns[1..]), x);
    }
  }

  lemma TagsOf(n: Node)
    ensures ItemOf(n).Tags?
  {
  }

  lemma InFront(i: Item, items: seq<Item>, x: string)
    requires Good(i) && GoodAll(items) && (i.Chars? && items != [] ==> items[0].Tags?)
    ensures GoodAll([i] + items) && ItemsText([i] + items, x) == ItemText(i, ItemsText(items, x))
  {
    var all := [i] + items;
    assert all[1..] == items;
    assert forall k :: 0 < k < |all| ==> all[k] == items[k - 1];
  }

  /** A document is printed as this writing of it, and nothing else. */
  lemma DocumentPrinted(ns: seq<Node>)
    requires LegalAll(ns)
    ensures GoodAll(ItemsOf(ns)) && PrintAll(ns) + [NUL] == ItemsText(ItemsOf(ns), [NUL])
  {
    ChildrenPrinted(ns, [NUL]);
  }
}
