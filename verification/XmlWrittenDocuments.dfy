/** Every way to write a document of elements and text: any white space inside tags, values in either
    kind of quotes, empty elements written short or in full, and every way to write the text of each.
    The parser reads them all as the document that is meant. What comes after a construct is an
    argument of the function that writes it. */
module XmlWrittenDocuments {
  import opened Basics
  import opened CStrings
  import opened XmlText
  import opened XmlTree
  import opened XmlReading
  import opened XmlWritings
  import opened R = XmlRoundTrip

  // ----- attributes

  datatype WrittenAttribute =
    WrittenAttribute(before: string, name: string, left: string, right: string, quote: char, value: seq<Piece>)

  predicate GoodAttribute(a: WrittenAttribute) {
    a.before != "" && Blank(a.before) && LegalName(a.name) && Blank(a.left) && Blank(a.right) &&
    (a.quote == '"' || a.quote == '\'') && AllAdmissible(a.value, Quoted(a.quote))
  }

  predicate GoodAttributes(attrs: seq<WrittenAttribute>) {
    forall i :: 0 <= i < |attrs| ==> GoodAttribute(attrs[i])
  }

  function ValueText(a: WrittenAttribute, x: string): string
    requires GoodAttribute(a)
  {
    [a.quote] + (Written(a.value, Quoted(a.quote)) + ([a.quote] + x))
  }

  function AttributesText(attrs: seq<WrittenAttribute>, x: string): string
    requires GoodAttributes(attrs)
  {
    if attrs == [] then x
    else
      var a := attrs[0];
      a.before + (a.name + (a.left + ("=" + (a.right + ValueText(a, AttributesText(attrs[1..], x))))))
  }

  function MeantAttribute(a: WrittenAttribute): Attribute {
    Attribute(a.name, Visible(Meant(a.value, Quoted(a.quote))))
  }

  function MeantAttributes(attrs: seq<WrittenAttribute>): seq<Attribute> {
    if attrs == [] then [] else [MeantAttribute(attrs[0])] + MeantAttributes(attrs[1..])
  }

  lemma {:induction false} SkipBlanks(s: string, y: string)
    requires Blank(s) && Terminated(y)
    ensures Terminated(s + y) && (s + y)[SkipSpace(s + y)..] == y[SkipSpace(y)..]
  {
    if s == "" {
      assert s + y == y;
    } else {
      SkipBlanks(s[1..], y);
      assert (s + y)[1..] == s[1..] + y;
      assert (s + y)[1 + SkipSpace(s[1..] + y)..] == (s[1..] + y)[SkipSpace(s[1..] + y)..];
    }
  }

  lemma NoBlanks(y: string)
    requires Terminated(y) && !IsSpace(y[0])
    ensures SkipSpace(y) == 0 && y[0..] == y
  {
  }

  /** A value in quotes, from the opening one on. */
  lemma ValueReads(a: WrittenAttribute, x: string, endch: char, st: seq<Frame>)
    requires GoodAttribute(a) && Terminated(x) && !IsStartSymbol(x[0]) && |st| > 1
    ensures Terminated(ValueText(a, x))
    ensures AttributeQuote(a.name, ValueText(a, x), endch, st) ==
            Attributes(x, endch, AddAttribute(st, MeantAttribute(a)))
  {
    hide Attributes, AttributeValue, AddAttribute, Visible, Written, Meant, LegalName, AllAdmissible, Blank;
    var q := [a.quote] + x;
    WritingReads(a.value, Quoted(a.quote), q);
    var w := Written(a.value, Quoted(a.quote)) + q;
    var v := ValueText(a, x);
    assert v == [a.quote] + w && v[1..] == w;
    assert w[|Written(a.value, Quoted(a.quote))| + 1..] == x;
  }

  lemma TailBy(name: string, ch: char, r: string, s: string, z: string, endch: char, st: seq<Frame>)
    requires |st| > 1 && Terminated(r) && Terminated(s) && ch != NUL && s[SkipSpace(s)..] == z
    requires if IsSpace(ch) then r[SkipSpace(r)] == '=' && r[SkipSpace(r) + 1..] == s else ch == '=' && r == s
    ensures Terminated(z) && AttributeTail(name, ch, r, endch, st) == AttributeQuote(name, z, endch, st)
  {
    hide AttributeQuote, SkipSpace;
  }

  lemma LeftBlanks(left: string, s: string)
    requires Blank(left) && Terminated(s)
    ensures var y := left + ("=" + s);
      Terminated(y) && y[0] != NUL && !IsSymbol(y[0]) && Terminated(y[1..]) &&
      if IsSpace(y[0]) then y[1..][SkipSpace(y[1..])] == '=' && y[1..][SkipSpace(y[1..]) + 1..] == s
      else y[0] == '=' && y[1..] == s
  {
    hide SkipSpace, Terminated, Blank;
    var e := "=" + s;
    EqualsSign(s);
    if left == "" {
      assert left + e == e;
    } else {
      FirstBlank(left);
      NoBlanks(e);
      SkipBlanks(left[1..], e);
      TerminatedBehind(left, e);
      assert (left + e)[1..] == left[1..] + e && (left + e)[0] == left[0];
      Shifted(left[1..] + e, e);
    }
  }

  lemma EqualsSign(s: string)
    requires Terminated(s)
    ensures Terminated("=" + s) && ("=" + s)[1..] == s && !IsSpace('=') && !IsSymbol('=')
  {
  }

  lemma FirstBlank(left: string)
    requires Blank(left) && left != ""
    ensures IsSpace(left[0]) && !IsSymbol(left[0]) && left[0] != NUL && Blank(left[1..])
  {
  }

  lemma TailReads(a: WrittenAttribute, z: string, endch: char, st: seq<Frame>)
    requires GoodAttribute(a) && Terminated(z) && (z[0] == '"' || z[0] == '\'') && |st| > 1
    ensures var y := a.left + ("=" + (a.right + z));
      Terminated(y) && y[0] != NUL && !IsSymbol(y[0]) && Terminated(y[1..]) &&
      AttributeTail(a.name, y[0], y[1..], endch, st) == AttributeQuote(a.name, z, endch, st)
  {
    hide AttributeTail, AttributeQuote, SkipSpace, AllAdmissible, LegalName, Terminated, Blank;
    SkipBlanks(a.right, z);
    NoBlanks(z);
    LeftBlanks(a.left, a.right + z);
    var y := a.left + ("=" + (a.right + z));
    TailBy(a.name, y[0], y[1..], a.right + z, z, endch, st);
  }

  lemma Shifted(r: string, e: string)
    requires Terminated(r) && r[SkipSpace(r)..] == e && |e| > 1
    ensures r[SkipSpace(r)] == e[0] && r[SkipSpace(r) + 1..] == e[1..]
  {
    assert r[SkipSpace(r)..][1..] == r[SkipSpace(r) + 1..];
  }

  lemma NameReads(name: string, y: string, endch: char, st: seq<Frame>)
    requires LegalName(name) && Terminated(y) && !IsSymbol(y[0]) && y[0] != NUL && |st| > 1
    ensures Terminated(name + y) && Terminated(y[1..])
    ensures Attributes(name + y, endch, st) == AttributeTail(name, y[0], y[1..], endch, st)
  {
    hide AttributeTail, Content;
    var r := name + y;
    SkipName(name, y);
    Suffix(name, y);
    NoBlanks(r);
    assert r[|name|] == y[0] && r[|name| + 1..] == y[1..];
  }

  lemma BlanksBefore(s: string, y: string, endch: char, st: seq<Frame>)
    requires Blank(s) && Terminated(y) && |st| > 1
    ensures Terminated(s + y) && Attributes(s + y, endch, st) == Attributes(y, endch, st)
  {
    SkipBlanks(s, y);
    AttributesAfterSpace(s + y, y, endch, st);
  }

  lemma TextStarts(attrs: seq<WrittenAttribute>, x: string)
    requires GoodAttributes(attrs) && Terminated(x) && !IsStartSymbol(x[0])
    ensures Terminated(AttributesText(attrs, x)) && !IsStartSymbol(AttributesText(attrs, x)[0])
    ensures attrs != [] ==> IsSpace(AttributesText(attrs, x)[0])
    ensures attrs == [] ==> AttributesText(attrs, x) == x
    decreases |attrs|
  {
    hide Written, AllAdmissible, Terminated;
    if attrs != [] {
      var a := attrs[0];
      TextStarts(attrs[1..], x);
      var y := a.name + (a.left + ("=" + (a.right + ValueText(a, AttributesText(attrs[1..], x)))));
      TerminatedBehind([a.quote], AttributesText(attrs[1..], x));
      TerminatedBehind(Written(a.value, Quoted(a.quote)), [a.quote] + AttributesText(attrs[1..], x));
      TerminatedBehind([a.quote], Written(a.value, Quoted(a.quote)) + ([a.quote] + AttributesText(attrs[1..], x)));
      TerminatedBehind(a.right, ValueText(a, AttributesText(attrs[1..], x)));
      TerminatedBehind("=", a.right + ValueText(a, AttributesText(attrs[1..], x)));
      TerminatedBehind(a.left, "=" + (a.right + ValueText(a, AttributesText(attrs[1..], x))));
      TerminatedBehind(a.name, a.left + ("=" + (a.right + ValueText(a, AttributesText(attrs[1..], x)))));
      TerminatedBehind(a.before, y);
      assert (a.before + y)[0] == a.before[0];
    }
  }

  /** Any writing of attributes reads as them, in order. */
  lemma {:induction false} AttributesRead(attrs: seq<WrittenAttribute>, x: string, endch: char, st: seq<Frame>)
    requires GoodAttributes(attrs) && Terminated(x) && !IsStartSymbol(x[0]) && |st| > 1
    ensures Terminated(AttributesText(attrs, x))
    ensures Attributes(AttributesText(attrs, x), endch, st) ==
            Attributes(x, endch, AddAttributes(st, MeantAttributes(attrs)))
    decreases |attrs|
  {
    hide Attributes, AttributeTail, AttributeQuote, ValueText, MeantAttribute, AddAttribute, Terminated;
    TextStarts(attrs, x);
    if attrs != [] {
      var a, y := attrs[0], AttributesText(attrs[1..], x);
      var st' := AddAttribute(st, MeantAttribute(a));
      TextStarts(attrs[1..], x);
      AttributesRead(attrs[1..], x, endch, st');
      ValueReads(a, y, endch, st);
      ValueStarts(a, y);
      TailReads(a, ValueText(a, y), endch, st);
      NameReads(a.name, a.left + ("=" + (a.right + ValueText(a, y))), endch, st);
      BlanksBefore(a.before, a.name + (a.left + ("=" + (a.right + ValueText(a, y)))), endch, st);
      assert MeantAttributes(attrs)[1..] == MeantAttributes(attrs[1..]);
    }
  }

  lemma ValueStarts(a: WrittenAttribute, y: string)
    requires GoodAttribute(a)
    ensures ValueText(a, y) != "" && (ValueText(a, y)[0] == '"' || ValueText(a, y)[0] == '\'')
  {
  }

  // ----- content

  datatype Item = Chars(pieces: seq<Piece>) | Tags(name: string, attrs: seq<WrittenAttribute>, space: string,
    body: Body)

  /** An empty element written short, or what stands between its tags and the space in the end tag. */
  datatype Body = Short | Full(items: seq<Item>, endSpace: string)

  predicate Good(i: Item)
    decreases i, 0
  {
    match i
    case Chars(ps) => AllAdmissible(ps, Between)
    case Tags(name, attrs, space, body) =>
      LegalName(name) && GoodAttributes(attrs) && Blank(space) &&
      match body
      case Short => true
      case Full(items, endSpace) => GoodAll(items) && Blank(endSpace)
  }

  /** Two runs of characters do not meet: they would be one. */
  predicate GoodAll(items: seq<Item>)
    decreases items, 1
  {
    (forall k :: 0 <= k < |items| ==> Good(items[k])) &&
    forall k :: 0 < k < |items| ==> !(items[k - 1].Chars? && items[k].Chars?)
  }

  function ItemText(i: Item, x: string): string
    requires Good(i)
    decreases i, 0
  {
    match i
    case Chars(ps) => Written(ps, Between) + x
    case Tags(name, attrs, space, body) => "<" + (name + AttributesText(attrs, space + BodyText(name, body, x)))
  }

  function BodyText(name: string, body: Body, x: string): string
    requires body.Full? ==> GoodAll(body.items)
    decreases body, 0
  {
    match body
    case Short => "/>" + x
    case Full(items, endSpace) => ">" + ItemsText(items, EndTagText(name, endSpace, x))
  }

  function EndTagText(name: string, endSpace: string, x: string): string {
    "</" + (name + (endSpace + (">" + x)))
  }

  function ItemsText(items: seq<Item>, x: string): string
    requires GoodAll(items)
    decreases items, 1
  {
    if items == [] then x else
      GoodParts(items);
      ItemText(items[0], ItemsText(items[1..], x))
  }

  lemma GoodParts(items: seq<Item>)
    requires GoodAll(items) && items != []
    ensures Good(items[0]) && GoodAll(items[1..])
  {
    assert forall k :: 0 <= k < |items| - 1 ==> items[1..][k] == items[k + 1];
  }

  /** White space as it is between tags means nothing. */
  predicate BlankPieces(ps: seq<Piece>) {
    forall i :: 0 <= i < |ps| ==> ps[i].Plain? && ps[i].c in " \t\r\n"
  }

  /** The nodes that are meant; text outside all elements is none. */
  function Meanings(items: seq<Item>, inside: bool): seq<Node>
    decreases items, 1
  {
    if items == [] then [] else MeaningOf(items[0], inside) + Meanings(items[1..], inside)
  }

  function MeaningOf(i: Item, inside: bool): seq<Node>
    decreases i, 0
  {
    match i
    case Chars(ps) => if !inside || BlankPieces(ps) then [] else [Text(Visible(Meant(ps, Between)))]
    case Tags(name, attrs, _, body) =>
      [Node(Element, name, "", MeantAttributes(attrs), if body.Short? then [] else Meanings(body.items, true))]
  }

  // ----- text

  lemma {:induction false} WrittenCharacters(ps: seq<Piece>, i: nat)
    requires AllAdmissible(ps, Between) && i < |Written(ps, Between)|
    ensures Written(ps, Between)[i] != NUL && Written(ps, Between)[i] != '<'
  {
    hide Writing;
    WrittenSplits(ps, Between, "");
    var n := |Writing(ps[0])|;
    if i < n {
      WritingCharacters(ps[0], i);
    } else {
      WrittenCharacters(ps[1..], i - n);
    }
  }

  lemma WritingCharacters(p: Piece, i: nat)
    requires Admissible(p, Between) && i < |Writing(p)|
    ensures Writing(p)[i] != NUL && Writing(p)[i] != '<'
  {
    match p
    case Plain(_) =>
    case Entity(_) =>
    case Decimal(ds) => ShownCharacters(ds, "&#", i);
    case Hexadecimal(ds) => ShownCharacters(ds, "&#x", i);
  }

  lemma ShownCharacters(ds: seq<N.Digit>, start: string, i: nat)
    requires N.AreDigits(ds, 16) && (start == "&#" || start == "&#x") && i < |start + N.Shown(ds) + ";"|
    ensures (start + N.Shown(ds) + ";")[i] != NUL && (start + N.Shown(ds) + ";")[i] != '<'
  {
    if |start| <= i < |start| + |ds| {
      ShownSymbol(ds[i - |start|]);
    }
  }

  lemma {:induction false} BlankWritten(ps: seq<Piece>)
    requires AllAdmissible(ps, Between)
    ensures Blank(Written(ps, Between)) <==> BlankPieces(ps)
  {
    if ps != [] {
      var s, t := Writing(ps[0]), Written(ps[1..], Between);
      BlankWritten(ps[1..]);
      BlankPiece(ps[0]);
      assert forall i :: 0 <= i < |s| ==> (s + t)[i] == s[i];
      assert forall i :: 0 <= i < |t| ==> (s + t)[|s| + i] == t[i];
      assert forall i :: 0 <= i < |ps| - 1 ==> ps[1..][i] == ps[i + 1];
      assert Blank(s + t) <==> Blank(s) && Blank(t) by {
        BlankBoth(s, t);
      }
    }
  }

  lemma BlankBoth(s: string, t: string)
    ensures Blank(s + t) <==> Blank(s) && Blank(t)
  {
    assert forall i :: 0 <= i < |s| ==> (s + t)[i] == s[i];
    assert forall i :: 0 <= i < |t| ==> (s + t)[|s| + i] == t[i];
  }

  lemma BlankPiece(p: Piece)
    requires Admissible(p, Between)
    ensures Blank(Writing(p)) <==> p.Plain? && p.c in " \t\r\n"
  {
    WritingHead(p);
    if p.Plain? {
      assert Writing(p) == [p.c];
    }
  }

  /** x goes on after a run of characters with a tag, or outside all elements with the end. */
  predicate GoesOn(x: string, st: seq<Frame>) {
    Terminated(x) && st != [] && ((x[0] == '<' && x[1] != NUL) || (|st| == 1 && x[0] == NUL))
  }

  lemma {:induction false} BlankBefore(s: string, x: string)
    requires Blank(s) && Terminated(x) && !IsSpace(x[0])
    ensures Terminated(s + x) && SkipSpace(s + x) == |s|
  {
    if s == "" {
      assert s + x == x;
    } else {
      BlankBefore(s[1..], x);
      assert (s + x)[1..] == s[1..] + x;
    }
  }

  lemma {:induction false} SpaceStopsInside(s: string, x: string)
    requires !Blank(s) && Terminated(x)
    ensures Terminated(s + x) && SkipSpace(s + x) < |s|
  {
    if IsSpace(s[0]) {
      SpaceStopsInside(s[1..], x);
      assert (s + x)[1..] == s[1..] + x;
    }
  }

  lemma {:induction false} TagAfter(s: string, x: string)
    requires Terminated(x) && (x[0] == '<' || x[0] == NUL)
    requires forall i :: 0 <= i < |s| ==> s[i] != '<' && s[i] != NUL
    ensures Terminated(s + x) && SkipToTag(s + x) == |s|
  {
    if s == "" {
      assert s + x == x;
    } else {
      TagAfter(s[1..], x);
      assert (s + x)[1..] == s[1..] + x;
    }
  }

  lemma BlankContent(s: string, x: string, endch: char, st: seq<Frame>)
    requires Blank(s) && s != "" && GoesOn(x, st)
    ensures Terminated(s + x) && Content(s + x, endch, st) == Content(x, endch, st)
  {
    hide SkipSpace, Tag, CharData, AddChild, SkipToTag, Finish;
    BlankBefore(s, x);
    assert (s + x)[|s|..] == x && (s + x)[0] == s[0];
  }

  lemma TopContent(s: string, x: string, endch: char, st: seq<Frame>)
    requires s != "" && !Blank(s) && GoesOn(x, st) && |st| == 1
    requires forall i :: 0 <= i < |s| ==> s[i] != '<' && s[i] != NUL
    ensures Terminated(s + x) && Content(s + x, endch, st) == Content(x, endch, st)
  {
    hide SkipSpace, Tag, CharData, AddChild, SkipToTag, Finish;
    SpaceStopsInside(s, x);
    TagAfter(s, x);
    assert (s + x)[|s|..] == x && (s + x)[0] == s[0];
  }

  lemma InsideContent(s: string, x: string, d: Decoded, endch: char, st: seq<Frame>)
    requires s != "" && !Blank(s) && GoesOn(x, st) && |st| > 1
    requires forall i :: 0 <= i < |s| ==> s[i] != '<' && s[i] != NUL
    requires Terminated(s + x) && CharData(s + x) == d && d.used == |s| + 1
    ensures Content(s + x, endch, st) == Content(x, endch, AddChild(st, Text(Visible(d.text))))
  {
    hide SkipSpace, Tag, CharData, AddChild, SkipToTag, Content, Visible;
    SpaceStopsInside(s, x);
    ContentText(s + x, endch, st);
    assert (s + x)[|s| + 1..] == x[1..] && (s + x)[0] == s[0];
    ContentTag(x, endch, AddChild(st, Text(Visible(d.text))));
  }

  /** A run of characters reads as one text, as nothing when it is blank or outside all elements. */
  lemma CharsRead(ps: seq<Piece>, x: string, endch: char, st: seq<Frame>)
    requires AllAdmissible(ps, Between) && GoesOn(x, st)
    ensures Terminated(Written(ps, Between) + x)
    ensures Content(Written(ps, Between) + x, endch, st) ==
            Content(x, endch, AddChildren(st, MeaningOf(Chars(ps), |st| > 1)))
  {
    hide Content, Written, Meant, AllAdmissible, Blank, BlankPieces, Visible, AddChild, AddChildren;
    var s := Written(ps, Between);
    BlankWritten(ps);
    NoChildren(st);
    forall i | 0 <= i < |s|
      ensures s[i] != '<' && s[i] != NUL
    {
      WrittenCharacters(ps, i);
    }
    if s == "" {
      assert s + x == x;
      assert Blank(s) by { BlankNothing(); }
    } else if BlankPieces(ps) {
      BlankContent(s, x, endch, st);
    } else if |st| == 1 {
      TopContent(s, x, endch, st);
    } else {
      WritingReads(ps, Between, x);
      InsideContent(s, x, Decoded(Meant(ps, Between), |s| + 1), endch, st);
      OneChild(st, Text(Visible(Meant(ps, Between))));
    }
  }

  lemma BlankNothing()
    ensures Blank("")
  {
  }

  lemma NoChildren(st: seq<Frame>)
    requires st != []
    ensures AddChildren(st, []) == st
  {
    AddChildrenFolds(st, Text(""), []);
  }

  lemma OneChild(st: seq<Frame>, n: Node)
    requires st != []
    ensures AddChildren(st, [n]) == AddChild(st, n)
  {
    AddChildrenFolds(st, n, []);
    assert [n] + [] == [n];
    NoChildren(AddChild(st, n));
  }

  lemma MoreChildren(st: seq<Frame>, a: seq<Node>, b: seq<Node>)
    requires st != []
    ensures AddChildren(AddChildren(st, a), b) == AddChildren(st, a + b)
  {
    assert Top(st).children + a + b == Top(st).children + (a + b);
  }

  // ----- tags

  lemma TagNameReads(name: string, z: string, endch: char, st: seq<Frame>)
    requires LegalName(name) && Terminated(z) && st != []
    requires z[0] == '>' || (z[0] == '/' && z[1] == '>') || IsSpace(z[0])
    ensures Terminated(name + z) && |Push(st, name)| > 1
    ensures Tag(name + z, endch, st) == Attributes(z, endch, Push(st, name))
  {
    hide Pop, Push, EndTag, Content, Tag, Attributes, LegalName;
    PushGrows(st, name);
    TagName(name, z, endch, st);
    TerminatedBehind(name, z);
    if IsSpace(z[0]) {
      assert Blank(z[..1]) && Terminated(z[1..]);
      assert z == z[..1] + z[1..];
      BlanksBefore(z[..1], z[1..], endch, Push(st, name));
    } else {
      AttributesEnd(z, endch, Push(st, name));
    }
  }

  /** A start tag up to the `>` or `/>` that ends it. */
  lemma StartTagReads(name: string, attrs: seq<WrittenAttribute>, space: string, z: string, endch: char, st: seq<Frame>)
    requires LegalName(name) && GoodAttributes(attrs) && Blank(space)
    requires Terminated(z) && st != [] && (z[0] == '>' || (z[0] == '/' && z[1] == '>'))
    ensures var r := "<" + (name + AttributesText(attrs, space + z));
      Terminated(r) && r[0] == '<' && r[1] != NUL && |AddAttributes(Push(st, name), MeantAttributes(attrs))| > 1 &&
      Content(r, endch, st) == Attributes(z, endch, AddAttributes(Push(st, name), MeantAttributes(attrs)))
  {
    hide Attributes, Tag, Content, Push, AttributesText, GoodAttribute, MeantAttribute, MeantAttributes;
    var y := AttributesText(attrs, space + z);
    TerminatedBehind(space, z);
    SpaceOrEnd(space, z);
    TextStarts(attrs, space + z);
    TagNameReads(name, y, endch, st);
    ContentOpen(name + y, endch, st);
    AttributesRead(attrs, space + z, endch, Push(st, name));
    BlanksBefore(space, z, endch, AddAttributes(Push(st, name), MeantAttributes(attrs)));
    NameStarts(name, y);
  }

  lemma NameStarts(name: string, y: string)
    requires LegalName(name)
    ensures ("<" + (name + y))[1] != NUL
  {
  }

  lemma SpaceOrEnd(space: string, z: string)
    requires Blank(space) && z != "" && (z[0] == '>' || (z[0] == '/' && |z| > 1 && z[1] == '>'))
    ensures var y := space + z;
      !IsStartSymbol(y[0]) && (y[0] == '>' || (y[0] == '/' && |y| > 1 && y[1] == '>') || IsSpace(y[0]))
  {
    if space == "" {
      assert space + z == z;
    }
  }

  /** An end tag that matches the open element, with any space in it. */
  lemma EndTagReads(name: string, endSpace: string, x: string, endch: char, st: seq<Frame>)
    requires LegalName(name) && Blank(endSpace) && Terminated(x) && |st| > 1 && Top(st).name == name
    ensures var r := EndTagText(name, endSpace, x);
      Terminated(r) && r[0] == '<' && r[1] == '/' && Content(r, endch, st) == Content(x, endch, Pop(st))
  {
    hide Content, Tag, EndTag, Pop, LegalName, Terminated, SkipSpace, Blank;
    var z := ">" + x;
    var y := endSpace + z;
    EndSpace(endSpace, x);
    EndNameReads(name, y, z, endch, st);
    TerminatedBehind("</", name + y);
    EndTagShape(name + y);
    var r := "</" + (name + y);
    ContentTag(r, endch, st);
    SlashTag(r[1..], endch, st);
  }

  lemma EndSpace(endSpace: string, x: string)
    requires Blank(endSpace) && Terminated(x)
    ensures var z := ">" + x; var y := endSpace + z;
      Terminated(z) && z[1..] == x && z[0] == '>' && Terminated(y) && y[SkipSpace(y)..] == z &&
        (y == z || IsSpace(y[0]))
  {
    var z := ">" + x;
    SkipBlanks(endSpace, z);
    NoBlanks(z);
    if endSpace == "" {
      assert endSpace + z == z;
    }
  }

  lemma EndNameReads(name: string, y: string, z: string, endch: char, st: seq<Frame>)
    requires LegalName(name) && |st| > 1 && Top(st).name == name && Terminated(y) && Terminated(z) && z[0] == '>'
    requires y[SkipSpace(y)..] == z && (y == z || IsSpace(y[0]))
    ensures Terminated(name + y) && EndTag(name + y, endch, st) == Content(z[1..], endch, Pop(st))
  {
    hide Content, Pop;
    SkipName(name, y);
    Suffix(name, y);
  }

  // ----- documents

  lemma ClosedElement(st: seq<Frame>, name: string, attrs: seq<Attribute>, ns: seq<Node>)
    requires st != []
    ensures var inner := AddAttributes(Push(st, name), attrs);
      |inner| == |st| + 1 && Top(inner).name == name && |AddChildren(inner, ns)| == |inner| &&
      Top(AddChildren(inner, ns)).name == name &&
      Pop(AddChildren(inner, ns)) == AddChildren(st, [Node(Element, name, "", attrs, ns)])
  {
    ClosingFrame(st, name, attrs, ns);
    OneChild(st, Node(Element, name, "", attrs, ns));
  }

  lemma ShortReads(name: string, attrs: seq<Attribute>, x: string, endch: char, st: seq<Frame>)
    requires Terminated(x) && st != []
    ensures var inner := AddAttributes(Push(st, name), attrs);
      |inner| > 1 && Terminated("/>" + x) &&
      Attributes("/>" + x, endch, inner) == Content(x, endch, AddChildren(st, [Node(Element, name, "", attrs, [])]))
  {
    hide Content, Attributes, Push, Pop, AddChildren;
    ClosedElement(st, name, attrs, []);
    var inner := AddAttributes(Push(st, name), attrs);
    NoChildren(inner);
    var z := "/>" + x;
    AttributesEnd(z, endch, inner);
    assert z[2..] == x;
  }

  lemma OpenReads(y: string, endch: char, st: seq<Frame>)
    requires Terminated(y) && |st| > 1
    ensures Terminated(">" + y) && Attributes(">" + y, endch, st) == Content(y, endch, st)
  {
    hide Content, Attributes;
    AttributesEnd(">" + y, endch, st);
    assert (">" + y)[1..] == y;
  }

  /** Any writing of an element reads as that element, whatever follows it. */
  lemma {:induction false} ItemReads(i: Item, x: string, endch: char, st: seq<Frame>)
    requires Good(i) && Terminated(x) && st != [] && (i.Chars? ==> GoesOn(x, st))
    ensures Terminated(ItemText(i, x))
    ensures Content(ItemText(i, x), endch, st) == Content(x, endch, AddChildren(st, MeaningOf(i, |st| > 1)))
    ensures i.Tags? ==> ItemText(i, x)[0] == '<' && ItemText(i, x)[1] != NUL
    decreases i, 0
  {
    hide Content, Attributes, AttributesText, AddChildren, Push, Pop, AddAttributes, MeantAttributes, Written, Meant,
      Blank, LegalName, GoodAttributes, EndTagText, Visible;
    match i
    case Chars(ps) => CharsRead(ps, x, endch, st);
    case Tags(name, attrs, space, body) =>
      var a := MeantAttributes(attrs);
      PushGrows(st, name);
      var inner := AddAttributes(Push(st, name), a);
      match body {
        case Short =>
          ShortReads(name, a, x, endch, st);
          StartTagReads(name, attrs, space, "/>" + x, endch, st);
        case Full(items, endSpace) =>
          var e := EndTagText(name, endSpace, x);
          ClosedElement(st, name, a, Meanings(items, true));
          EndTagReads(name, endSpace, x, endch, AddChildren(inner, Meanings(items, true)));
          ItemsRead(items, e, endch, inner);
          OpenReads(ItemsText(items, e), endch, inner);
          StartTagReads(name, attrs, space, ">" + ItemsText(items, e), endch, st);
      }
  }

  lemma {:induction false} ItemsRead(items: seq<Item>, x: string, endch: char, st: seq<Frame>)
    requires GoodAll(items) && GoesOn(x, st)
    ensures Terminated(ItemsText(items, x))
    ensures items == [] || items[0].Tags? ==> GoesOn(ItemsText(items, x), st)
    ensures Content(ItemsText(items, x), endch, st) == Content(x, endch, AddChildren(st, Meanings(items, |st| > 1)))
    decreases items, 1
  {
    hide Content, AddChildren, ItemText, MeaningOf;
    if items == [] {
      NoChildren(st);
    } else {
      GoodParts(items);
      var st' := AddChildren(st, MeaningOf(items[0], |st| > 1));
      SameHeight(st, MeaningOf(items[0], |st| > 1));
      ItemsRead(items[1..], x, endch, st');
      assert items[0].Chars? && |items| > 1 ==> items[1..][0].Tags?;
      ItemReads(items[0], ItemsText(items[1..], x), endch, st);
      MoreChildren(st, MeaningOf(items[0], |st| > 1), Meanings(items[1..], |st| > 1));
    }
  }

  lemma SameHeight(st: seq<Frame>, ns: seq<Node>)
    requires st != []
    ensures |AddChildren(st, ns)| == |st|
  {
  }

  /** Whoever wrote a document, in whatever way: reading the text yields what it means. */
  lemma WrittenDocumentReads(items: seq<Item>)
    requires GoodAll(items)
    ensures Terminated(ItemsText(items, [NUL]))
    ensures ReadDocument(ItemsText(items, [NUL]), NUL) == Parsed(Meanings(items, false))
  {
    ItemsRead(items, [NUL], NUL, [BOTTOM]);
    FinishTop(Meanings(items, false), NUL);
  }

  // ----- what is no document

  /** An end tag whose name is not that of the element to be closed, or with none to be closed. */
  lemma WrongEndTag(name: string, y: string, endch: char, st: seq<Frame>)
    requires LegalName(name) && Terminated(y) && y[0] != NUL && !IsSymbol(y[0]) && st != []
    requires |st| > 1 ==> Top(st).name != name
    ensures var r := "</" + (name + y);
      Terminated(r) && Content(r, endch, st) == Failed(EndElementMismatch, |name + y|)
  {
    hide Content, Tag, LegalName;
    TerminatedBehind(name, y);
    TerminatedBehind("</", name + y);
    EndTagShape(name + y);
    var r := "</" + (name + y);
    ContentTag(r, endch, st);
    SlashTag(r[1..], endch, st);
    WrongName(name, y, endch, st);
  }

  lemma WrongName(name: string, y: string, endch: char, st: seq<Frame>)
    requires LegalName(name) && Terminated(y) && y[0] != NUL && !IsSymbol(y[0]) && st != []
    requires |st| > 1 ==> Top(st).name != name
    ensures Terminated(name + y) && EndTag(name + y, endch, st) == Failed(EndElementMismatch, |name + y|)
  {
    hide Content, Pop, SkipSpace;
    SkipName(name, y);
    Suffix(name, y);
    assert (name + y)[|name|] == y[0];
  }

  /** The end of the text inside an element. */
  lemma UnfinishedElement(endch: char, st: seq<Frame>)
    requires |st| > 1
    ensures Content([NUL], endch, st) == Failed(EndElementMismatch, 1)
  {
  }

  /** What stands for an attribute's value without quotes. */
  lemma ValueWithoutQuotes(name: string, z: string, endch: char, st: seq<Frame>)
    requires Terminated(z) && z[0] != '"' && z[0] != '\'' && |st| > 1
    ensures AttributeQuote(name, z, endch, st) == Failed(BadAttribute, |z|)
  {
  }

  /** An attribute that follows a value without white space. */
  lemma NoSpaceBefore(a: WrittenAttribute, x: string, endch: char, st: seq<Frame>)
    requires GoodAttribute(a) && Terminated(x) && IsStartSymbol(x[0]) && |st| > 1
    ensures Terminated(ValueText(a, x)) && AttributeQuote(a.name, ValueText(a, x), endch, st) ==
            Failed(BadAttribute, |x|)
  {
    hide Attributes, AttributeValue, AddAttribute, Visible, Written, Meant, LegalName, AllAdmissible, Blank;
    var q := [a.quote] + x;
    WritingReads(a.value, Quoted(a.quote), q);
    var w := Written(a.value, Quoted(a.quote)) + q;
    var v := ValueText(a, x);
    assert v == [a.quote] + w && v[1..] == w;
    assert w[|Written(a.value, Quoted(a.quote))| + 1..] == x;
  }

  /** An attribute without a value. */
  lemma NoEquals(name: string, y: string, endch: char, st: seq<Frame>)
    requires LegalName(name) && Terminated(y) && y[0] != NUL && !IsSymbol(y[0]) && !IsSpace(y[0]) && y[0] != '='
    requires |st| > 1
    ensures Terminated(name + y) && Attributes(name + y, endch, st) == Failed(BadAttribute, |y| - 1)
  {
    NameReads(name, y, endch, st);
  }

  /** A tag that begins with none of the characters a tag may begin with. */
  lemma NoTag(y: string, endch: char, st: seq<Frame>)
    requires Terminated(y) && st != []
    requires !IsStartSymbol(y[0]) && y[0] != '/' && y[0] != '?' && y[0] != '!' && y[0] != NUL
    ensures Terminated("<" + y) && Content("<" + y, endch, st) == Failed(UnrecognizedTag, |y|)
  {
    hide EndTag, Attributes, Content;
    ContentOpen(y, endch, st);
  }

  /** A name in a start tag that is followed by what may not follow it. */
  lemma BadName(name: string, y: string, endch: char, st: seq<Frame>)
    requires LegalName(name) && Terminated(y) && st != []
    requires !IsSymbol(y[0]) && !IsSpace(y[0]) && y[0] != '>' && y[0] != '/' && y[0] != NUL
    ensures Terminated("<" + (name + y))
    ensures Content("<" + (name + y), endch, st) == Failed(BadStartElement, |y| - 1)
  {
    hide Content, Attributes, EndTag, Pop;
    TerminatedBehind(name, y);
    SkipName(name, y);
    Suffix(name, y);
    assert (name + y)[|name|] == y[0] && (name + y)[0] == name[0];
    ContentOpen(name + y, endch, st);
  }
}
