/** Well-formed documents the response parser does not recover. */
module XmlLosses {
  import opened Texts
  import opened XmlParser
  import opened XmlElements
  import opened XmlClosing
  import opened XmlTags
  import opened XmlProlog
  import opened XmlDocuments
  import opened Prototypes
  import opened Wrappers

  /** The first child has the name of its parent, and a start tag the search cannot read. */
  ghost predicate StartsUnreadably(e: Element) {
    && e.content.Children? && e.content.items != []
    && var first := e.content.items[0].element;
       first.name == e.name && !Readable(first) && first.content.Words?
  }

  /** Where the first child of an element stands. */
  lemma FirstChildPlace(str: string, pos: nat, e: Element)
    requires Tame(e) && e.content.Children? && At(str, pos, Print(e))
    ensures var c, innerPos := e.content.items[0], pos + |StartTag(e)|;
      && Tame(c.element) && AllSpace(c.space)
      && At(str, innerPos, c.space) && At(str, innerPos + |c.space|, Print(c.element))
      && At(str, innerPos + |c.space| + |Print(c.element)|, PrintItems(e.content.items[1..]))
      && |Inner(e)| == |c.space| + |Print(c.element)| + |PrintItems(e.content.items[1..])| + |e.content.tail|
      && At(str, innerPos + |Inner(e)| - |e.content.tail|, e.content.tail)
      && At(str, innerPos + |Inner(e)|, CloseTag(e.name))
  {
    hide StartTag, Print, At, CloseTag, AllSpace, IsName, PrintItems;
    PrintParts(str, pos, e);
    NameOf(e);
    AtConcat(str, pos + |StartTag(e)|, PrintItems(e.content.items), e.content.tail);
    FirstItemParts(str, pos + |StartTag(e)|, e.content.items);
  }

  /** A child whose start tag is overlooked ends the search with its own end tag. */
  lemma OverlookedChildEndsSearch(str: string, at: nat, c: Element, last: nat)
    requires Tame(c) && c.content.Words? && !Readable(c) && At(str, at, Print(c))
    requires at + |Print(c)| <= last && At(str, last, CloseTag(c.name))
    ensures Close(str, c.name, 1, at) == at + |StartTag(c)| + |c.content.text|
  {
    hide Close, StartTag, Print, At, CloseTag, IsName, Readable;
    PrintParts(str, at, c);
    NameOf(c);
    assert '<' !in c.content.text;
    hide Tame;
    PassStartTag(str, c.name, 1, at, c, last);
    var textPos := at + |StartTag(c)|;
    AtIs(str, textPos, c.content.text);
    PassText(str, c.name, 1, textPos, textPos + |c.content.text|, last);
    PassClosing(str, c.name, 1, textPos + |c.content.text|);
  }

  /** Then the end tag of that child is taken for the one of the parent. */
  lemma FindsTheChildsEnd(str: string, pos: nat, e: Element)
    requires Tame(e) && StartsUnreadably(e) && At(str, pos, Print(e))
    ensures var c, at := e.content.items[0], pos + |StartTag(e)| + |e.content.items[0].space|;
      && At(str, pos + |StartTag(e)|, c.space) && At(str, at, Print(c.element)) && at < |str| && str[at] == '<'
      && Close(str, e.name, 1, pos + |StartTag(e)|) == at + |StartTag(c.element)| + |c.element.content.text|
  {
    hide Close, StartTag, Print, At, CloseTag, AllSpace, IsName, Readable, PrintItems, Tame;
    var c := e.content.items[0];
    var innerPos := pos + |StartTag(e)|;
    var at := innerPos + |c.space|;
    FirstChildPlace(str, pos, e);
    PrintParts(str, at, c.element);
    NameOf(c.element);
    StartTagShape(str, at, c.element);
    SpaceIsNoBracket(c.space);
    AtIs(str, innerPos, c.space);
    PassText(str, e.name, 1, innerPos, at, innerPos + |Inner(e)|);
    OverlookedChildEndsSearch(str, at, c.element, innerPos + |Inner(e)|);
  }

  /** So only the first child is read. */
  lemma ReadsOnlyTheFirst(str: string, pos: nat, e: Element)
    requires Tame(e) && StartsUnreadably(e) && At(str, pos, Print(e))
    requires e.name !in INHERITED_NAMES && e.name != "member"
    ensures ParseElement(str, pos).value == Some(Node(map[e.name := One(Denote(e.content.items[0].element))]))
  {
    hide Close, StartTag, Print, At, CloseTag, AllSpace, IsName, ParseElement, ParseChildren, Trim, Readable;
    hide PrintItems, NextChild, Denote, SkipSpace, Tame, AddChild, TagTame, TagWellFormed, AsRead, IsWord;
    var c := e.content.items[0];
    var innerPos := pos + |StartTag(e)|;
    var at := innerPos + |c.space|;
    var closingIdx := Close(str, e.name, 1, innerPos);
    FirstChildPlace(str, pos, e);
    FindsTheChildsEnd(str, pos, e);
    NameOf(e);
    TameTags(c.element);
    ElementStep(str, pos, e);
    PrintParts(str, at, c.element);
    AtFits(str, closingIdx, e.name);
    TagInside(str, innerPos, at, closingIdx);
    FindsChild(str, innerPos, c, closingIdx);
    LeafReadsBack(str, at, c.element);
    ChildrenTurn(str, innerPos, closingIdx, map[]);
    OneFieldAdded(e.name, Denote(c.element));
    var read := map[e.name := One(Denote(c.element))];
    ChildrenTurn(str, at + |Print(c.element)|, closingIdx, read);
    NoChildBehind(str, at + |Print(c.element)|, closingIdx);
  }

  lemma TameTags(e: Element)
    requires Tame(e)
    ensures TagWellFormed(e) && e.name != "" && IsWord(e.name[0]) && AsRead(e.name) == e.name
  {
    hide IsWord, AsRead, TagWellFormed;
    TameIsWellFormed(e);
    TagIsWellFormed(e);
    NameOf(e);
    WordsAreRead(e.name);
  }

  lemma OneFieldAdded(name: string, v: Value)
    requires name !in INHERITED_NAMES && name != "member"
    ensures AddChild(map[], name, v) == map[name := One(v)]
  {}

  /**
   A single child is recovered all the same, of several all but the first are lost. XML allows any
   white space behind a tag name.
   */
  lemma LosesTheRest(str: string, pos: nat, e: Element)
    requires Tame(e) && StartsUnreadably(e) && At(str, pos, Print(e))
    requires e.name !in INHERITED_NAMES && e.name != "member"
    ensures ParseElement(str, pos).value == Some(Node(map[e.name := One(Denote(e.content.items[0].element))]))
    ensures !EndsFound(e)
    ensures ParseElement(str, pos).value == Some(Denote(e)) <==> |e.content.items| == 1
  {
    hide Print, At, ParseElement, Denote, FieldsOf, Tame, MissedInside;
    ReadsOnlyTheFirst(str, pos, e);
    FirstOverlooked(e);
    ChildrenDenoteFields(e);
    OnlyFirstField(e.content.items);
  }

  lemma FirstOverlooked(e: Element)
    requires StartsUnreadably(e)
    ensures MissedInside(e, e.name) > 0
  {
    assert Missed(e.content.items[0].element, e.name) >= 1;
  }

  lemma ChildrenDenoteFields(e: Element)
    requires e.content.Children?
    ensures Denote(e) == Node(FieldsOf(e.content.items))
  {}

  /** The fields are the first child's alone exactly if it is the only one. */
  lemma {:induction false} OnlyFirstField(items: seq<Child>)
    requires items != [] && items[0].element.name != "member"
    ensures FieldsOf(items) == map[items[0].element.name := One(Denote(items[0].element))] <==> |items| == 1
  {
    hide Denote;
    var name := items[0].element.name;
    FirstOfName(items);
    assert items[0].element.name in NamesOf(items);
    assert FieldsOf(items)[name] == SlotFor(name, ValuesOf(items, name));
    if |items| == 1 {
      assert NamesOf(items) == {name};
    } else if items[1].element.name == name {
      TwoOfAName(items);
    } else {
      var other := items[1].element.name;
      assert other in NamesOf(items);
      assert other in FieldsOf(items) && other !in map[name := One(Denote(items[0].element))];
    }
  }

  lemma {:induction false} FirstOfName(items: seq<Child>)
    requires items != []
    ensures var values := ValuesOf(items, items[0].element.name);
      values != [] && values[0] == Denote(items[0].element) && (|items| == 1 ==> |values| == 1)
  {
    hide Denote;
    if |items| > 1 {
      FirstOfName(items[..|items| - 1]);
    } else {
      assert items[..0] == [];
    }
  }

  lemma {:induction false} TwoOfAName(items: seq<Child>)
    requires |items| > 1 && items[1].element.name == items[0].element.name
    ensures |ValuesOf(items, items[0].element.name)| > 1
  {
    hide Denote;
    if |items| > 2 {
      TwoOfAName(items[..|items| - 1]);
    } else {
      FirstOfName(items[..1]);
    }
  }

  lemma TagInside(str: string, lo: nat, at: nat, hi: nat)
    requires lo <= at < hi <= |str| && str[at] == '<'
    ensures '<' in Trim(str[lo..hi])
  {
    hide Trim;
    assert str[lo..hi][at - lo] == '<';
    TrimKeeps(str[lo..hi], '<');
  }

  lemma NoChildBehind(str: string, start: nat, closingIdx: nat)
    requires closingIdx <= start <= |str| && closingIdx < |str|
    ensures NextChild(str, start, closingIdx) == None
  {}

  /** `<a><a(line break)>1</a><b>2</b></a>`. */
  function LineBreakDocument(): Element {
    Element("a", "", Children([
      Child("", Element("a", "\n", Words("1"))),
      Child("", Element("b", "", Words("2")))], ""))
  }

  /** The document is well-formed, but "b" is not recovered. */
  lemma LineBreakLosesContent()
    ensures var e := LineBreakDocument();
      && Tame(e) && OwnNames(e) && Denote(e).Node? && "b" in Denote(e).fields
      && Document(Print(e)) == Node(map["a" := One(Text("1"))])
  {
    hide Print, ParseElement, StripDeclaration, Trim, Tame, WellFormed, StartsUnreadably, At, EndsFound, OwnNames;
    hide ValuesOf, SlotFor, NamesOf;
    var e := LineBreakDocument();
    LineBreakDocumentFacts();
    TameIsWellFormed(e);
    NothingAround(e);
    AtStart(Print(e));
    LosesTheRest(Print(e), 0, e);
  }

  lemma LineBreakDocumentFacts()
    ensures var e := LineBreakDocument();
      && Tame(e) && OwnNames(e) && StartsUnreadably(e)
      && Denote(e).Node? && "b" in Denote(e).fields
      && Denote(e.content.items[0].element) == Text("1")
  {
    hide Tame, ValuesOf, SlotFor, Trim;
    var e := LineBreakDocument();
    LineBreakDocumentIsTame();
    assert e.content.items[1].element.name in NamesOf(e.content.items);
    TrimLeavesAlone("1");
  }

  lemma LineBreakDocumentIsTame()
    ensures Tame(LineBreakDocument())
  {
    var a, b := Element("a", "\n", Words("1")), Element("b", "", Words("2"));
    assert IsName("a") && IsName("b") && Tame(a) && Tame(b);
  }

  /** A child of an inherited name comes back in an array that begins with the inherited value. */
  lemma InheritedNameIsMixedIn(str: string, pos: nat, e: Element, i: nat)
    requires Tame(e) && e.content.Children? && MissedInside(e, e.name) == 0 && At(str, pos, Print(e))
    requires ItemsReadBack(str, pos + |StartTag(e)|, e.content.items)
    requires i < |e.content.items| && e.content.items[i].element.name in INHERITED_NAMES
    ensures var read, name := ParseElement(str, pos).value, e.content.items[i].element.name;
      && read.Some? && read.value.Node? && StartsInherited(read.value.fields, name)
      && read.value != Denote(e)
  {
    hide StartTag, Print, At, ParseElement, AddAll, FieldsOf, ItemsReadBack, MissedInside, StartsInherited;
    hide TagTame, AllSpace, Close, WellFormed;
    var name := e.content.items[i].element.name;
    NameOf(e);
    TameIsWellFormed(e);
    NamesAreWords(e.content.items);
    FindsOwnClosingTag(str, pos, e);
    ItemsPlace(str, pos, e);
    ElementFromItems(str, pos, e);
    InheritedComesFirst(e.content.items, name);
    FieldsAreDenoted(e.content.items, name);
    ChildrenDenoteFields(e);
  }

  /** `<a><constructor>1</constructor></a>`. */
  function InheritedNameDocument(): Element {
    Element("a", "", Children([Child("", Element("constructor", "", Words("1")))], ""))
  }

  lemma InheritedNameDocumentIsMixed()
    ensures var e := InheritedNameDocument();
      && Tame(e) && EndsFound(e)
      && Document(Print(e)) == Node(map["constructor" := Many([Inherited("constructor"), Text("1")])])
  {
    hide Print, PrintItems, ParseElement, StripDeclaration, Trim, ItemsReadBack, Tame, EndsFound, AddAll;
    hide StartTag, MissedInside, At, Inner, WellFormed, TagTame, Close;
    var e := InheritedNameDocument();
    var c := Element("constructor", "", Words("1"));
    OneChildIsTame(e, c);
    TameIsWellFormed(e);
    NameOf(e);
    NothingAround(e);
    AtStart(Print(e));
    ItemsPlace(Print(e), 0, e);
    OnlyChildReadBack(Print(e), |StartTag(e)|, c);
    FindsOwnClosingTag(Print(e), 0, e);
    ElementFromItems(Print(e), 0, e);
    OnlyChildAdded(c);
    TrimLeavesAlone("1");
  }

  lemma OnlyChildReadBack(str: string, pos: nat, c: Element)
    requires Tame(c) && c.content.Words? && At(str, pos, PrintItems([Child("", c)]))
    ensures ItemsReadBack(str, pos, [Child("", c)])
  {
    hide Print, ParseElement, Tame, At, IsReadBack;
    var items := [Child("", c)];
    FirstItemParts(str, pos, items);
    LeafReadsBack(str, pos, c);
    assert items[1..] == [];
  }

  lemma OnlyChildAdded(c: Element)
    requires c.name in INHERITED_NAMES && IsName(c.name)
    ensures AddAll([Child("", c)]) == map[c.name := Many([Inherited(c.name), Denote(c)])]
  {
    hide Denote, AsRead, IsName;
    var none: map<string, Slot> := map[];
    WordsAreRead(c.name);
    assert [Child("", c)][..0] == [];
    assert Lookup(none, c.name) == Some(One(Inherited(c.name)));
    assert [Inherited(c.name)] + [Denote(c)] == [Inherited(c.name), Denote(c)];
  }

  lemma OneChildIsTame(e: Element, c: Element)
    requires c == Element("constructor", "", Words("1")) && e == Element("a", "", Children([Child("", c)], ""))
    ensures Tame(e) && Tame(c) && EndsFound(e) && MissedInside(e, "a") == 0
  {
    assert IsName("a") && IsName("constructor") && Tame(c);
    assert EndsFound(c) && Missed(c, "a") == 0;
    assert MissedItems(e.content.items, "a") == 0 by { assert e.content.items[1..] == []; }
  }

  // ---------- Tags the parser cannot read ----------

  /**
   Names may hold `-`, `.`, `:` and letters outside ASCII, end tags white space before the `>`. An
   element with such a tag is read up to its own end only if it is an empty one.
   */
  lemma UnreadableTagEndsElsewhere(str: string, pos: nat, e: Element)
    requires WellFormed(e) && At(str, pos, Print(e)) && '>' !in e.attributes
    requires !IsName(e.name) || (!e.content.Empty? && e.endSpace != "")
    ensures e.name != "" && pos <= |str|
    ensures ParseElement(str, pos).end == pos + |Print(e)| <==> e.content.Empty? && IsWord(e.name[0])
  {
    hide WellFormed, TagWellFormed, Print, StartTag, At, ParseElement, Close, IndexOf, Trim, AsRead, IsWord, IsName;
    hide ParseChildren;
    TagIsWellFormed(e);
    PrintParts(str, pos, e);
    StartTagPieces(e);
    ParseStep(str, pos, e);
    TagEnd(str, pos, e);
    if !e.content.Empty? && IsWord(e.name[0]) && ParseElement(str, pos).end == pos + |Print(e)| {
      ReadToItsEnd(str, pos, e, Close(str, AsRead(e.name), 1, pos + |StartTag(e)|));
    }
  }

  /** Its text is lost: no closing tag is found for the name as it is read. */
  lemma TextIsLost(e: Element)
    requires WellFormed(e) && e.content.Words? && '>' !in e.attributes
    requires !IsName(e.name) || e.endSpace != ""
    ensures ParseElement(Print(e), 0).value == None && Document(Print(e)) == Node(map[])
  {
    hide WellFormed, Print, ParseElement, Trim, IsName, StripDeclaration;
    NothingAround(e);
    NoValue(e);
    NothingRead(Print(e));
  }

  lemma NothingRead(s: string)
    requires Trim(StripDeclaration(s, 0)) == s && ParseElement(s, 0).value == None
    ensures Document(s) == Node(map[])
  {
    hide ParseElement, StripDeclaration, Trim;
  }

  lemma NoValue(e: Element)
    requires WellFormed(e) && e.content.Words? && '>' !in e.attributes
    requires !IsName(e.name) || e.endSpace != ""
    ensures ParseElement(Print(e), 0).value == None
  {
    hide WellFormed, TagWellFormed, Print, StartTag, At, ParseElement, Close, IndexOf, Trim, AsRead, IsWord, IsName;
    hide ParseChildren;
    var s := Print(e);
    AtStart(s);
    TagIsWellFormed(e);
    PrintParts(s, 0, e);
    ParseStep(s, 0, e);
    if IsWord(e.name[0]) {
      TagEnd(s, 0, e);
      NoClosingTag(e);
      NoneToClose(s, AsRead(e.name), |StartTag(e)|);
    }
  }

  lemma NoClosingTag(e: Element)
    requires WellFormed(e) && e.content.Words? && (!IsName(e.name) || e.endSpace != "")
    requires e.name != "" && IsWord(e.name[0])
    ensures |StartTag(e)| < |Print(e)| && IndexOf(Print(e), CloseTag(AsRead(e.name)), |StartTag(e)|) == -1
  {
    hide WellFormed, IndexOf, StartTag, IsName, IsWord, AsRead, At, CloseTag;
    var s, w, text := Print(e), AsRead(e.name), e.content.text;
    var last := |StartTag(e)| + |text|;
    assert s == StartTag(e) + text + EndTag(e);
    TextHasNoTag(e);
    OtherEnd(e);
    assert s[last..] == EndTag(e);
    forall k: nat | |StartTag(e)| <= k
      ensures !At(s, k, CloseTag(w))
    {
      if k == last {
        NotAt(s, last, EndTag(e), CloseTag(w), 2 + |w|);
      } else if k < |s| {
        assert s[k] == if k < last then text[k - |StartTag(e)|] else EndTag(e)[k - last];
        NoTagHere(s, w, k);
      } else {
        PastTheEnd(s, w, k);
      }
    }
  }

  lemma TextHasNoTag(e: Element)
    requires WellFormed(e) && e.content.Words?
    ensures '<' !in e.content.text && |EndTag(e)| > 0
    ensures forall k | 0 < k < |EndTag(e)| :: EndTag(e)[k] != '<'
  {
    NameIsNoMarkup(e);
    assert EndTag(e) == "<" + ("/" + e.name + e.endSpace + ">");
  }

  /** Where the closing tag of the name as read would end, the end tag goes on. */
  lemma OtherEnd(e: Element)
    requires WellFormed(e) && !e.content.Empty? && (!IsName(e.name) || e.endSpace != "")
    requires e.name != "" && IsWord(e.name[0])
    ensures var w := AsRead(e.name);
      |w| + 2 < |EndTag(e)| && |w| + 2 < |CloseTag(w)| && EndTag(e)[2 + |w|] != CloseTag(w)[2 + |w|]
  {
    hide IsWord, IsNameChar;
    var w := AsRead(e.name);
    AsReadIsAWord(e.name);
    NameCharsAreNoMarkup(e.name);
    BracketIsNoSpace();
    assert CloseTag(w)[2 + |w|] == '>';
    assert EndTag(e)[2 + |w|] == if |w| < |e.name| then e.name[|w|] else e.endSpace[0];
  }

  lemma NotAt(s: string, at: nat, p: string, q: string, i: nat)
    requires at <= |s| && s[at..] == p && i < |p| && i < |q| && p[i] != q[i]
    ensures !At(s, at, q)
  {
    assert s[at + i] == s[at..][i];
    CharsIfAt(s, at, q);
  }

  lemma PastTheEnd(s: string, tag: string, k: nat)
    requires k >= |s|
    ensures !At(s, k, CloseTag(tag))
  {}

  lemma NoneToClose(s: string, tag: string, pos: nat)
    requires pos < |s| && IndexOf(s, CloseTag(tag), pos) == -1
    ensures Close(s, tag, 1, pos) == -1
  {
    CloseTurn(s, tag, 1, pos);
  }

  /**
   Attributes may hold `>`. The first one ends the tag for the parser; what is left of the attributes
   comes back in front of the text, or there is no text at all.
   */
  lemma BracketInAttributeIsMisread(e: Element, before: string, after: string)
    requires WellFormed(e) && e.content.Words? && IsName(e.name) && e.endSpace == ""
    requires e.attributes == before + ">" + after && '>' !in before
    ensures before != ""
    ensures ParseElement(Print(e), 0).value ==
      Some(Text(if before[|before| - 1] == '/' then "" else Trim(after + ">" + e.content.text)))
    ensures Trim(after + ">" + e.content.text) != Trim(e.content.text)
  {
    hide WellFormed, ParseElement, Trim, IsName, Close, CloseTag, IsWord, IndexOf, At, Print, ParseChildren, StartTag;
    hide TagWellFormed, AsRead;
    var s := Print(e);
    AtStart(s);
    TagIsWellFormed(e);
    WordsAreRead(e.name);
    WordsAreNoBrackets(e.name);
    PrintParts(s, 0, e);
    ParseStep(s, 0, e);
    CutTag(e, before, after);
    CutText(e, before, after);
    TrimIsLonger(after, e.content.text);
  }

  lemma CutTag(e: Element, before: string, after: string)
    requires WellFormed(e) && e.content.Words? && e.endSpace == ""
    requires e.attributes == before + ">" + after && '>' !in before
    ensures var s, tagEnd := Print(e), 1 + |e.name| + |before|;
      before != "" && tagEnd < |s| && IndexOf(s, ">", 1 + |e.name|) == tagEnd && s[tagEnd - 1] == before[|before| - 1]
  {
    hide WellFormed, IndexOf, Print;
    CutPieces(e, before, after);
    TagEndsAt(Print(e), 1 + |e.name|, 1 + |e.name| + |before|);
  }

  lemma CutText(e: Element, before: string, after: string)
    requires WellFormed(e) && e.content.Words? && e.endSpace == "" && IsName(e.name)
    requires e.attributes == before + ">" + after && '>' !in before
    ensures var s, inner, innerPos := Print(e), after + ">" + e.content.text, 2 + |e.name| + |before|;
      var closing := innerPos + |inner|;
      && closing <= |s| && Close(s, e.name, 1, innerPos) == closing && s[innerPos..closing] == inner
      && '<' !in Trim(inner)
  {
    hide WellFormed, Trim, IsName, Close, CloseTag, Print;
    var inner, innerPos := after + ">" + e.content.text, 2 + |e.name| + |before|;
    CutPieces(e, before, after);
    ClosesAtTheEnd(Print(e), e.name, innerPos, innerPos + |inner|);
    TrimKeeps(inner, '<');
  }

  /** The pieces of such a document. */
  lemma CutPieces(e: Element, before: string, after: string)
    requires WellFormed(e) && e.content.Words? && e.endSpace == ""
    requires e.attributes == before + ">" + after && '>' !in before
    ensures var s, inner := Print(e), after + ">" + e.content.text;
      var nameEnd, tagEnd := 1 + |e.name|, 1 + |e.name| + |before|;
      && before != "" && tagEnd + 1 + |inner| <= |s|
      && s[nameEnd..tagEnd] == before && s[tagEnd] == '>' && s[tagEnd - 1] == before[|before| - 1]
      && s[tagEnd + 1..tagEnd + 1 + |inner|] == inner && '<' !in inner
      && s[tagEnd + 1 + |inner|..] == CloseTag(e.name)
  {
    hide IsNameChar;
    var s, inner := Print(e), after + ">" + e.content.text;
    BracketIsNoSpace();
    assert e.attributes[0] == (before + ">")[0];
    assert EndTag(e) == CloseTag(e.name);
    assert s == "<" + e.name + before + ">" + inner + CloseTag(e.name);
    assert forall k | 0 <= k < |after| :: after[k] == e.attributes[|before| + 1 + k];
  }

  lemma ClosesAtTheEnd(s: string, name: string, pos: nat, closing: nat)
    requires IsName(name) && pos <= closing <= |s| && '<' !in s[pos..closing] && s[closing..] == CloseTag(name)
    ensures Close(s, name, 1, pos) == closing
  {
    hide Close, IsName;
    assert s[closing..closing + |CloseTag(name)|] == CloseTag(name);
    PassText(s, name, 1, pos, closing, closing);
    PassClosing(s, name, 1, closing);
  }

  // ---------- Texts that do not begin with a tag ----------

  /** Text is read up to the first tag, or to the end. */
  lemma TextInFrontIsRead(text: string, rest: string)
    requires '<' !in text && Trim(text) != "" && (rest == "" || rest[0] == '<')
    ensures ParseElement(text + rest, 0) == Parsed(Some(Text(Trim(text))), |text|)
  {
    hide SkipSpace, IndexOf, Trim, ParseElement;
    var at := SkipSpace(text, 0);
    TextStarts(text, rest);
    TrimFrom(text, at);
    FirstTag(text, rest, at);
    TextStep(text + rest, at);
    assert (text + rest)[at..|text|] == text[at..];
    if rest == "" {
      assert text + rest == text;
    }
  }

  lemma TextStep(s: string, at: nat)
    requires SkipSpace(s, 0) == at < |s| && s[at] != '<'
    ensures ParseElement(s, 0) ==
      if IndexOf(s, "<", at) == -1 then Parsed(Some(Text(Trim(s[at..]))), |s|)
      else Parsed(Some(Text(Trim(s[at..IndexOf(s, "<", at)]))), IndexOf(s, "<", at))
  {
    hide SkipSpace, IndexOf, Trim;
  }

  lemma FirstTag(text: string, rest: string, at: nat)
    requires '<' !in text && at < |text| && (rest == "" || rest[0] == '<')
    ensures (text + rest)[at] != '<'
    ensures IndexOf(text + rest, "<", at) == if rest == "" then -1 else |text|
  {
    hide IndexOf;
    var s := text + rest;
    assert s[at] == text[at];
    if rest == "" {
      assert s == text;
      NoBracketFrom(s, at);
    } else {
      assert s[|text|..|text| + 1] == "<";
      forall k: nat | at <= k < |text|
        ensures !At(s, k, "<")
      {
        assert s[k] == text[k];
        CharsIfAt(s, k, "<");
      }
      FirstIndex(s, "<", at, |text|);
    }
  }

  lemma TextStarts(text: string, rest: string)
    requires Trim(text) != ""
    ensures SkipSpace(text + rest, 0) == SkipSpace(text, 0) < |text|
  {
    var at := SkipSpace(text, 0);
    assert at < |text| by {
      assert text[|text|..] == "";
    }
    assert forall k | 0 <= k <= at :: (text + rest)[k] == text[k];
    SpaceEndsAt(text + rest, 0, at);
  }

  lemma TrimFrom(text: string, at: nat)
    requires at == SkipSpace(text, 0)
    ensures Trim(text[at..]) == Trim(text)
  {
    hide TrimEnd;
    var t := text[at..];
    assert t != "" ==> t[0] == text[at];
    SpaceEndsAt(t, 0, 0);
    assert t[0..] == t;
  }

  lemma NoBracketFrom(s: string, at: nat)
    requires '<' !in s && at <= |s|
    ensures IndexOf(s, "<", at) == -1
  {
    hide IndexOf;
    forall k: nat
      ensures !At(s, k, "<")
    {
      BracketIsIn(s, k);
    }
  }

  lemma BracketIsIn(s: string, k: nat)
    ensures At(s, k, "<") ==> '<' in s
  {
    if At(s, k, "<") {
      assert s[k] == s[k..k + 1][0] == '<';
    }
  }

  /** A closing tag is no element. */
  lemma ClosingTagIsNothing(rest: string)
    ensures ParseElement("</" + rest, 0) == Parsed(None, 0)
  {
    var s := "</" + rest;
    assert s[0] == '<' && s[1] == '/';
  }

  /** A response that is text alone is that text, trimmed; the empty object if nothing is left of it. */
  lemma PlainTextIsItself(s: string)
    requires '<' !in s
    ensures Document(s) == if Trim(s) == "" then Node(map[]) else Text(Trim(s))
  {
    hide ParseElement, StripDeclaration, Trim;
    assert NoInstruction(s);
    NothingToStrip(s, 0);
    TrimTwice(s);
    assert '<' !in Trim(s) by {
      BracketsAreNoSpace();
      TrimKeeps(s, '<');
    }
    if Trim(s) == "" {
      EmptyIsEmpty();
    } else {
      TextInFrontIsRead(Trim(s), "");
      assert Trim(s) + "" == Trim(s);
    }
  }

  lemma TrimTwice(s: string)
    ensures Trim(Trim(s)) == Trim(s)
  {
    var from, to := TrimMeans(s);
    hide Trim, IsSpace;
    var t := Trim(s);
    assert t != "" ==> t[0] == s[from] && t[|t| - 1] == s[to - 1];
    TrimLeavesAlone(t);
  }

  lemma EmptyIsEmpty()
    ensures ParseElement("", 0).value == Some(Text(""))
  {}
}
