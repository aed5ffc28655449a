/** Printing a document and parsing the result, end to end. */
module XmlDocuments {
  import opened Basics
  import opened CStrings
  import opened XmlText
  import opened XmlTree
  import opened XmlReading
  import opened XmlPrinter
  import opened XmlParser
  import opened XmlRoundTrip
  import W = XmlWrittenDocuments

  lemma {:induction false} LegalPrintable(n: Node)
    requires Legal(n)
    ensures Printable(n)
    decreases n
  {
    if n.kind == Element {
      forall i | 0 <= i < |n.children| ensures Printable(n.children[i]) { LegalPrintable(n.children[i]); }
    }
  }

  lemma DocumentPrintable(doc: Node)
    requires doc.kind == Document && LegalAll(doc.children)
    ensures Printable(doc) && Print(doc) == PrintAll(doc.children)
  {
    forall i | 0 <= i < |doc.children| ensures Printable(doc.children[i]) { LegalPrintable(doc.children[i]); }
    assert PrintBefore(doc) == "" && PrintAfter(doc) == "";
    assert "" + (PrintAll(doc.children) + "") == PrintAll(doc.children);
  }

  method ToBuffer(s: string) returns (b: array<char>)
    ensures fresh(b) && b[..] == s
  {
    b := new char[|s|];
    var i := 0;
    while i < |s|
      invariant i <= |s| && b[..i] == s[..i]
    {
      b[i] := s[i];
      i := i + 1;
    }
  }

  /** Print a document and parse a terminated copy of the text: the parse succeeds, and what its
      positions read in the buffer is the document's canonical form, which is the document itself
      exactly when the document is faithful. */
  method PrintAndParse(doc: Node) returns (p: XmlParser)
    requires doc.kind == Document && LegalAll(doc.children) && ElementsOnly(doc.children)
    ensures p.status == None && |p.cursor| == 1
    ensures NodesRep(p.b[..], p.b.Length, p.cursor[0].children, CanonAll(doc.children))
    ensures CanonAll(doc.children) == doc.children <==> FaithfulAll(doc.children)
  {
    hide *;
    DocumentPrintable(doc);
    var text := NodeOutput(doc);
    var b := ToBuffer(text + [NUL]);
    p := new XmlParser(b);
    PrintedDocumentReadsBack(doc.children);
    CanonAllIdentity(doc.children);
    WholeBuffer(b[..], text, NUL);
    p.ParseTree(0, NUL);
  }

  /** The same in the buffer the document was printed to, whose last character is set aside. */
  method PrintAndParseInPlace(doc: Node) returns (p: XmlParser)
    requires doc.kind == Document && LegalAll(doc.children) && ElementsOnly(doc.children) && doc.children != []
    ensures p.status == None && |p.cursor| == 1
    ensures NodesRep(p.b[..], p.b.Length, p.cursor[0].children, CanonAll(doc.children))
    ensures CanonAll(doc.children) == doc.children <==> FaithfulAll(doc.children)
  {
    hide *;
    DocumentPrintable(doc);
    var text := NodeOutput(doc);
    PrintedDocumentReadsBackInPlace(doc.children);
    CanonAllIdentity(doc.children);
    var b := ToBuffer(text);
    var last := |text| - 1;
    var endch := b[last];
    b[last] := NUL;
    CutBuffer(b[..], text);
    WholeBuffer(b[..], text[..last], endch);
    p := new XmlParser(b);
    p.ParseTree(0, endch);
  }

  /** Parse a buffer that holds a document, in whatever way it is written: the parse succeeds, and what
      its positions read in the buffer is the document that is meant. */
  method ParseWritten(b: array<char>, ghost items: seq<W.Item>) returns (p: XmlParser)
    requires W.GoodAll(items) && b[..] == W.ItemsText(items, [NUL])
    modifies b
    ensures p.b == b && p.status == None && |p.cursor| == 1
    ensures NodesRep(b[..], b.Length, p.cursor[0].children, W.Meanings(items, false))
  {
    hide *;
    W.WrittenDocumentReads(items);
    TerminatedWhole(b[..]);
    p := new XmlParser(b);
    p.ParseTree(0, NUL);
  }

  lemma TerminatedWhole(b: string)
    ensures b[0..] == b
    ensures Terminated(b) ==> b != "" && ReadDocument(b, NUL) == Content(b, NUL, [BOTTOM])
    ensures BOTTOM == Frame("", [], [])
  {
  }

  lemma WholeBuffer(b: string, s: string, endch: char)
    requires b == s + [NUL]
    ensures b[0..] == b && Terminated(b[0..]) && ReadDocument(b, endch) == Content(b[0..], endch, [BOTTOM])
    ensures BOTTOM == Frame("", [], [])
  {
    ReadDocumentIs(b, endch);
  }

  lemma CutBuffer(b: string, text: string)
    requires text != "" && b == text[|text| - 1 := NUL]
    ensures b == text[..|text| - 1] + [NUL]
  {
  }
}
