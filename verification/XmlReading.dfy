/** What a document text means under the default parsing options: parse_tree as a function of the
    unmodified text. A character reference to NUL cuts the value it occurs in short. `left` counts
    the characters from an error to the end of the buffer; `endch` is the character that the
    terminator replaced. */
module XmlReading {
  import opened CStrings
  import opened XmlText
  import opened XmlTree

  datatype Status =
    | BadPi
    | BadStartElement
    | BadAttribute
    | BadEndElement
    | EndElementMismatch
    | UnrecognizedTag
    | OutsideTheModel // comments, CDATA sections, processing instructions, document types

  datatype Outcome = Parsed(children: seq<Node>) | Failed(status: Status, left: nat)

  /** An element whose end has not been read yet; the bottom frame stands for the document. */
  datatype Frame = Frame(name: string, attrs: seq<Attribute>, children: seq<Node>)

  function Text(value: string): Node {
    Node(Pcdata, "", value, [], [])
  }

  function Closed(f: Frame): Node {
    Node(Element, f.name, "", f.attrs, f.children)
  }

  function Top(st: seq<Frame>): Frame
    requires st != []
  {
    st[|st| - 1]
  }

  function WithTop(st: seq<Frame>, f: Frame): (r: seq<Frame>)
    requires st != []
    ensures |r| == |st|
  {
    st[..|st| - 1] + [f]
  }

  function AddChild(st: seq<Frame>, n: Node): (r: seq<Frame>)
    requires st != []
    ensures |r| == |st|
  {
    WithTop(st, Top(st).(children := Top(st).children + [n]))
  }

  function AddAttribute(st: seq<Frame>, a: Attribute): (r: seq<Frame>)
    requires st != []
    ensures |r| == |st|
  {
    WithTop(st, Top(st).(attrs := Top(st).attrs + [a]))
  }

  function Push(st: seq<Frame>, name: string): (r: seq<Frame>) {
    st + [Frame(name, [], [])]
  }

  function Pop(st: seq<Frame>): (r: seq<Frame>)
    requires |st| > 1
    ensures |r| == |st| - 1
  {
    AddChild(st[..|st| - 1], Closed(Top(st)))
  }

  function Finish(r: string, st: seq<Frame>): Outcome
    requires st != []
  {
    if |st| == 1 then Parsed(st[0].children) else Failed(EndElementMismatch, |r|)
  }

  /** How far away the next `<`, or else the terminator, is. */
  function SkipToTag(r: string): (n: nat)
    requires Terminated(r)
    ensures n < |r| && (r[n] == '<' || r[n] == NUL)
  {
    if r[0] == '<' || r[0] == NUL then 0 else 1 + SkipToTag(r[1..])
  }

  function Content(r: string, endch: char, st: seq<Frame>): Outcome
    requires Terminated(r) && st != []
    decreases |r|, 0
  {
    if r[0] == NUL then Finish(r, st)
    else if r[0] == '<' then Tag(r[1..], endch, st)
    else
      var w := SkipSpace(r);
      if r[w] == '<' || r[w] == NUL then Content(r[w..], endch, st)
      else if |st| > 1 then
        var d := CharData(r);
        var r' := r[d.used..];
        if r'[0] == NUL then Finish(r', AddChild(st, Text(Visible(d.text))))
          else Tag(r', endch, AddChild(st, Text(Visible(d.text))))
      else
        var r' := r[SkipToTag(r)..];
        if r'[0] == NUL then Finish(r', st) else Tag(r'[1..], endch, st)
  }

  /** From just after a `<`. */
  function Tag(r: string, endch: char, st: seq<Frame>): Outcome
    requires Terminated(r) && st != []
    decreases |r|, 0
  {
    if IsStartSymbol(r[0]) then
      var n := SkipSymbols(r);
      var st' := Push(st, r[..n]);
      if r[n] == '>' then Content(r[n + 1..], endch, st')
      else if IsSpace(r[n]) then Attributes(r[n + 1..], endch, st')
      else if r[n] == '/' then
        if r[n + 1] == '>' then Content(r[n + 2..], endch, Pop(st'))
        else if r[n + 1] == NUL && endch == '>' then Content(r[n + 1..], endch, Pop(st'))
        else Failed(BadStartElement, |r| - n - 1)
      else if r[n] == NUL then
        if endch == '>' then Content(r[n..], endch, st') else Failed(BadStartElement, |r| - n)
      else Failed(BadStartElement, |r| - n - 1)
    else if r[0] == '/' then EndTag(r[1..], endch, st)
    else if r[0] == '?' || r[0] == '!' then Failed(OutsideTheModel, |r|)
    else if r[0] == NUL && endch == '?' then Failed(BadPi, |r|)
    else Failed(UnrecognizedTag, |r|)
  }

  /** From just after `</`. */
  function EndTag(r: string, endch: char, st: seq<Frame>): Outcome
    requires Terminated(r) && st != []
    decreases |r|, 1
  {
    if |st| == 1 then Failed(EndElementMismatch, |r|)
    else
      var n := SkipSymbols(r);
      var name := Top(st).name;
      if !(r[..n] <= name) then Failed(EndElementMismatch, |r|)
      else if n < |name| then
        if r[n] == NUL && name[n..] == [endch] then Failed(BadEndElement, |r| - n) else Failed(EndElementMismatch, |r|)
      else
        var r' := r[n..][SkipSpace(r[n..])..];
        if r'[0] == NUL then
          if endch == '>' then Content(r', endch, Pop(st)) else Failed(BadEndElement, |r'|)
        else if r'[0] == '>' then Content(r'[1..], endch, Pop(st))
        else Failed(BadEndElement, |r'|)
  }

  /** Inside a start tag, after the white space that ends the name or the previous value. */
  function Attributes(r: string, endch: char, st: seq<Frame>): Outcome
    requires Terminated(r) && |st| > 1
    decreases |r|, 1
  {
    var s := r[SkipSpace(r)..];
    if IsStartSymbol(s[0]) then
      var n := SkipSymbols(s);
      AttributeTail(s[..n], s[n], s[n + 1..], endch, st)
    else if s[0] == '/' then
      if s[1] == '>' then Content(s[2..], endch, Pop(st))
      else if s[1] == NUL && endch == '>' then Content(s[1..], endch, Pop(st))
      else Failed(BadStartElement, |s| - 1)
    else if s[0] == '>' then Content(s[1..], endch, st)
    else if s[0] == NUL && endch == '>' then Content(s, endch, st)
    else Failed(BadStartElement, |s|)
  }

  /** After an attribute's name and the character ch that follows it. */
  function AttributeTail(name: string, ch: char, r: string, endch: char, st: seq<Frame>): Outcome
    requires |st| > 1 && (ch != NUL ==> Terminated(r))
    decreases |r|, 3
  {
    var s := if IsSpace(ch) then r[SkipSpace(r) + 1..] else r;
    var c := if IsSpace(ch) then r[SkipSpace(r)] else ch;
    if c != '=' then Failed(BadAttribute, |s|) else AttributeQuote(name, s[SkipSpace(s)..], endch, st)
  }

  /** From where an attribute's opening quote should be. */
  function AttributeQuote(name: string, v: string, endch: char, st: seq<Frame>): Outcome
    requires |st| > 1 && Terminated(v)
    decreases |v|, 2
  {
    if v[0] != '"' && v[0] != '\'' then Failed(BadAttribute, |v|)
    else
      var o := AttributeValue(v[1..], v[0]);
      if o.None? then Failed(BadAttribute, |v| - 1)
      else
        var x := v[1..][o.value.used..];
        if IsStartSymbol(x[0]) then Failed(BadAttribute, |x|)
        else Attributes(x, endch, AddAttribute(st, Attribute(name, Visible(o.value.text))))
  }

  const BOTTOM := Frame("", [], [])

  /** What parsing a buffer delivers. */
  function ReadDocument(b: string, endch: char): Outcome
    requires Terminated(b)
  {
    Content(b, endch, [BOTTOM])
  }
}
