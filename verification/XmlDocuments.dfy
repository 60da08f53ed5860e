/** What the response parser recovers from a printed document. */
module XmlDocuments {
  import opened Texts
  import opened XmlParser
  import opened XmlElements
  import opened XmlClosing
  import opened XmlTags
  import opened XmlProlog
  import opened Prototypes
  import opened Wrappers

  /** The value an element stands for: text is trimmed, children become fields. */
  function Denote(e: Element): Value
    decreases e, 1
  {
    match e.content
    case Empty => Text("")
    case Words(text) => Text(Trim(text))
    case Children(items, tail) => Node(FieldsOf(items))
  }

  function NamesOf(items: seq<Child>): set<string> {
    set i | 0 <= i < |items| :: items[i].element.name
  }

  /** The values of the children of one name, in document order. */
  function ValuesOf(items: seq<Child>, name: string): (values: seq<Value>)
    ensures name in NamesOf(items) <==> values != []
    decreases items, 0
  {
    if items == [] then []
    else
      var last := items[|items| - 1].element;
      assert items == items[..|items| - 1] + [items[|items| - 1]];
      ValuesOf(items[..|items| - 1], name) + if last.name == name then [Denote(last)] else []
  }

  /** `member` and repeated names give an array, any other name the one value. */
  function SlotFor(name: string, values: seq<Value>): Slot
    requires values != []
  {
    if name == "member" || |values| > 1 then Many(values) else One(values[0])
  }

  function FieldsOf(items: seq<Child>): map<string, Slot>
    decreases items, 1
  {
    map name | name in NamesOf(items) :: SlotFor(name, ValuesOf(items, name))
  }

  /** The values of the children named like child `i`: an array for `member` and for repeated names, else its value. */
  lemma FieldsMean(items: seq<Child>, i: nat)
    requires i < |items|
    ensures var name := items[i].element.name;
      && name in FieldsOf(items)
      && (name != "member" && (forall j | 0 <= j < |items| && j != i :: items[j].element.name != name) ==>
            FieldsOf(items)[name] == One(Denote(items[i].element)))
      && (name == "member" || (exists j | 0 <= j < |items| && j != i :: items[j].element.name == name) ==>
            FieldsOf(items)[name] == Many(ValuesOf(items, name)))
  {
    hide Denote;
    var name := items[i].element.name;
    assert name in NamesOf(items);
    if forall j | 0 <= j < |items| && j != i :: items[j].element.name != name {
      OnlyOfItsName(items, i);
    } else {
      var j :| 0 <= j < |items| && j != i && items[j].element.name == name;
      TwoOfOneName(items, if i < j then i else j, if i < j then j else i);
    }
  }

  lemma {:induction false} OnlyOfItsName(items: seq<Child>, i: nat)
    requires i < |items| && forall j | 0 <= j < |items| && j != i :: items[j].element.name != items[i].element.name
    ensures ValuesOf(items, items[i].element.name) == [Denote(items[i].element)]
  {
    hide Denote;
    var n, name := |items| - 1, items[i].element.name;
    if i < n {
      OnlyOfItsName(items[..n], i);
    } else {
      NoneOfTheName(items[..n], name);
    }
  }

  lemma {:induction false} NoneOfTheName(items: seq<Child>, name: string)
    requires forall j | 0 <= j < |items| :: items[j].element.name != name
    ensures ValuesOf(items, name) == []
  {
    hide Denote;
    if items != [] {
      NoneOfTheName(items[..|items| - 1], name);
    }
  }

  lemma {:induction false} TwoOfOneName(items: seq<Child>, i: nat, j: nat)
    requires i < j < |items| && items[i].element.name == items[j].element.name
    ensures |ValuesOf(items, items[i].element.name)| > 1
  {
    hide Denote;
    var n, name := |items| - 1, items[i].element.name;
    if j < n {
      TwoOfOneName(items[..n], i, j);
    } else {
      assert items[..n][i].element.name in NamesOf(items[..n]);
    }
  }

  /** No child has a name that every object answers to anyway. */
  ghost predicate OwnNames(e: Element) {
    e.content.Children? ==> forall i | 0 <= i < |e.content.items| ::
      e.content.items[i].element.name !in INHERITED_NAMES && OwnNames(e.content.items[i].element)
  }

  /** The closing-tag search finds the end of every element. */
  ghost predicate EndsFound(e: Element) {
    && MissedInside(e, e.name) == 0
    && (e.content.Children? ==> forall i | 0 <= i < |e.content.items| :: EndsFound(e.content.items[i].element))
  }

  /** The tags of the element itself are read as they are meant; of an empty one the name may be cut short. */
  predicate TagsReadable(e: Element)
    requires e.name != ""
  {
    && IsWord(e.name[0]) && '>' !in e.attributes
    && (e.content.Empty? || (IsName(e.name) && e.endSpace == ""))
  }

  /** So are those of all elements inside, whose names are words. */
  ghost predicate AllTagsReadable(e: Element)
    requires WellFormed(e)
  {
    && TagsReadable(e)
    && (e.content.Children? ==> forall i | 0 <= i < |e.content.items| ::
          IsName(e.content.items[i].element.name) && AllTagsReadable(e.content.items[i].element))
  }

  lemma {:induction false} ReadableIsTame(e: Element)
    requires WellFormed(e) && AllTagsReadable(e) && IsName(e.name)
    ensures Tame(e)
  {
    if e.content.Children? {
      forall i | 0 <= i < |e.content.items|
        ensures Tame(e.content.items[i].element)
      {
        ReadableIsTame(e.content.items[i].element);
      }
    }
  }

  lemma NamesGrow(items: seq<Child>, c: Child)
    ensures NamesOf(items + [c]) == NamesOf(items) + {c.element.name}
  {
    var more := items + [c];
    assert forall i | 0 <= i < |items| :: more[i] == items[i];
    assert more[|items|] == c;
  }

  lemma ValuesGrow(items: seq<Child>, c: Child, name: string)
    ensures ValuesOf(items + [c], name) ==
      ValuesOf(items, name) + if c.element.name == name then [Denote(c.element)] else []
  {
    hide Denote;
    assert (items + [c])[..|items|] == items;
  }

  /** A field's slot after one more value of its name. */
  lemma SlotGrows(children: map<string, Slot>, name: string, values: seq<Value>, v: Value)
    requires name !in INHERITED_NAMES
    requires if values == [] then name !in children else name in children && children[name] == SlotFor(name, values)
    ensures AddChild(children, name, v) == children[name := SlotFor(name, values + [v])]
  {
    if |values| == 1 {
      assert values == [values[0]];
    }
  }

  /** The children read so far determine the fields; one more child is one more value of its name. */
  lemma FieldsGrow(items: seq<Child>, c: Child)
    requires c.element.name !in INHERITED_NAMES
    ensures FieldsOf(items + [c]) == AddChild(FieldsOf(items), c.element.name, Denote(c.element))
  {
    hide Denote, ValuesOf, SlotFor, AddChild, NamesOf;
    var name := c.element.name;
    NamesGrow(items, c);
    ValuesGrow(items, c, name);
    SlotGrows(FieldsOf(items), name, ValuesOf(items, name), Denote(c.element));
    forall n | n in NamesOf(items) && n != name
      ensures ValuesOf(items + [c], n) == ValuesOf(items, n)
    {
      ValuesGrow(items, c, n);
    }
  }

  /** The start of an element, as the parser reads it. */
  lemma ReadsStartTag(str: string, pos: nat, e: Element)
    requires TagTame(e) && At(str, pos, Print(e))
    ensures var nameEnd, tagEnd := pos + 1 + |e.name|, pos + |StartTag(e)| - 1;
      && nameEnd <= tagEnd < |str| && SkipSpace(str, pos) == pos && str[pos] == '<'
      && IsWord(str[pos + 1]) && str[pos + 1] != '/'
      && WordEnd(str, pos + 1) == nameEnd && str[pos + 1..nameEnd] == e.name
      && IndexOf(str, ">", nameEnd) == tagEnd
      && (str[tagEnd - 1] == '/' <==> e.content.Empty?)
  {
    hide StartTag, Tame, Print, IsWord, At, EndsName, Readable, IndexOf, WordEnd;
    PrintParts(str, pos, e);
    StartTagShape(str, pos, e);
    TagNameOf(e);
    var nameEnd, tagEnd := pos + 1 + |e.name|, pos + |StartTag(e)| - 1;
    NameWhereItStands(str, pos + 1, e.name);
    assert str[nameEnd..tagEnd] == str[pos..tagEnd][nameEnd - pos..];
    TagEndsAt(str, nameEnd, tagEnd);
  }

  lemma NameWhereItStands(str: string, at: nat, name: string)
    requires IsName(name) && At(str, at, name) && at + |name| < |str| && !IsWord(str[at + |name|])
    ensures WordEnd(str, at) == at + |name| && str[at..at + |name|] == name && str[at] != '/'
  {
    AtChars(str, at, name);
    forall k | at <= k < at + |name|
      ensures IsWord(str[k])
    {
      assert str[at + (k - at)] == name[k - at];
    }
    WordEndsAt(str, at, at + |name|);
  }

  /** One level of the parser at an element whose start tag is known. */
  lemma ElementStep(str: string, pos: nat, e: Element)
    requires TagTame(e) && At(str, pos, Print(e))
    ensures var innerPos := pos + |StartTag(e)|;
      var closingIdx := Close(str, e.name, 1, innerPos);
      && innerPos <= |str|
      && (e.content.Empty? ==> ParseElement(str, pos) == Parsed(Some(Text("")), innerPos))
      && (!e.content.Empty? && closingIdx != -1 ==>
            var innerContent := Trim(str[innerPos..closingIdx]);
            ParseElement(str, pos) == Parsed(
              Some(if '<' !in innerContent then Text(innerContent)
                   else Node(ParseChildren(str, innerPos, closingIdx, map[]))),
              closingIdx + |CloseTag(e.name)|))
  {
    hide Close, StartTag, Tame, Print, IndexOf, WordEnd, SkipSpace, ParseChildren, Trim, IsWord;
    ReadsStartTag(str, pos, e);
  }

  /** Reading an element ends where it ends exactly when the closing-tag search does. */
  lemma EndsWhereItEnds(str: string, pos: nat, e: Element)
    requires Tame(e) && At(str, pos, Print(e))
    ensures ParseElement(str, pos).end == pos + |Print(e)| <==> MissedInside(e, e.name) == 0
    ensures ParseElement(str, pos).end <= pos + |Print(e)|
  {
    hide Close, StartTag, Tame, Print, ParseElement, ParseChildren, Trim, At;
    NameOf(e);
    ElementStep(str, pos, e);
    PrintParts(str, pos, e);
    if !e.content.Empty? {
      FindsOwnClosingTag(str, pos, e);
    }
  }

  /** The parser finds the value of `e` at `pos`, and its end. */
  ghost predicate IsReadBack(str: string, pos: nat, e: Element) {
    pos <= |str| && ParseElement(str, pos) == Parsed(Some(Denote(e)), pos + |Print(e)|)
  }

  /** So it does for every element inside `e`, at the place where that stands if `e` stands at `pos`. */
  ghost predicate AllReadBack(str: string, pos: nat, e: Element)
    decreases e, 1
  {
    IsReadBack(str, pos, e) && (e.content.Children? ==> ItemsReadBack(str, pos + |StartTag(e)|, e.content.items))
  }

  ghost predicate ItemsReadBack(str: string, pos: nat, items: seq<Child>)
    decreases items, 0
  {
    items != [] ==>
      var elementPos := pos + |items[0].space|;
      && AllReadBack(str, elementPos, items[0].element)
      && ItemsReadBack(str, elementPos + |Print(items[0].element)|, items[1..])
  }

  /** What the loop over the children makes of them, with their names as read and whatever lookups find for these. */
  function AddAll(items: seq<Child>): map<string, Slot> {
    if items == [] then map[]
    else
      var last := items[|items| - 1].element;
      AddChild(AddAll(items[..|items| - 1]), AsRead(last.name), Denote(last))
  }

  lemma AddOneMore(items: seq<Child>, c: Child)
    ensures AddAll(items + [c]) == AddChild(AddAll(items), AsRead(c.element.name), Denote(c.element))
  {
    hide AddChild, Denote, AsRead;
    assert (items + [c])[..|items|] == items;
  }

  /** All names are words. */
  ghost predicate NamedByWords(items: seq<Child>) {
    forall i | 0 <= i < |items| :: IsName(items[i].element.name)
  }

  /** With names that are words of their own that gives the fields. */
  lemma {:induction false} AddAllGivesFields(items: seq<Child>)
    requires NamedByWords(items) && forall i | 0 <= i < |items| :: items[i].element.name !in INHERITED_NAMES
    ensures AddAll(items) == FieldsOf(items)
  {
    if items == [] {
      NoFields();
    } else {
      hide FieldsOf, AddChild, Denote, AsRead, IsName;
      var before := items[..|items| - 1];
      AddAllGivesFields(before);
      assert items == before + [items[|items| - 1]];
      WordsAreRead(items[|items| - 1].element.name);
      FieldsGrow(before, items[|items| - 1]);
    }
  }

  lemma WordsAreRead(name: string)
    requires IsName(name)
    ensures AsRead(name) == name
  {
    AsReadIsAWord(name);
  }

  /** The loop makes fields for words only. */
  lemma {:induction false} OtherNamesAreNotAdded(items: seq<Child>, name: string)
    requires forall i | 0 <= i < |items| :: items[i].element.name != ""
    requires name != "" && !IsName(name)
    ensures name !in AddAll(items)
  {
    hide Denote, AsRead;
    if items != [] {
      var last := items[|items| - 1].element.name;
      OtherNamesAreNotAdded(items[..|items| - 1], name);
      AsReadIsAWord(last);
    }
  }

  /** The array of an inherited name begins with the inherited value. */
  ghost predicate StartsInherited(fields: map<string, Slot>, name: string) {
    name in fields && fields[name].Many? && fields[name].values != [] && fields[name].values[0] == Inherited(name)
  }

  lemma {:induction false} InheritedComesFirst(items: seq<Child>, name: string)
    requires NamedByWords(items) && name in INHERITED_NAMES
    ensures if name in NamesOf(items) then StartsInherited(AddAll(items), name) else name !in AddAll(items)
  {
    hide Denote, AsRead, IsName;
    if items != [] {
      var before, last := items[..|items| - 1], items[|items| - 1];
      InheritedComesFirst(before, name);
      assert items == before + [last];
      NamesGrow(before, last);
      WordsAreRead(last.element.name);
      InheritedStaysFirst(AddAll(before), last.element.name, Denote(last.element), name);
    }
  }

  lemma InheritedStaysFirst(fields: map<string, Slot>, added: string, v: Value, name: string)
    requires name in INHERITED_NAMES && (name in fields ==> StartsInherited(fields, name))
    ensures if name in fields || added == name then StartsInherited(AddChild(fields, added, v), name)
            else name !in AddChild(fields, added, v)
  {}

  /** No element stands for an inherited value. */
  lemma {:induction false} FieldsAreDenoted(items: seq<Child>, name: string)
    ensures !StartsInherited(FieldsOf(items), name)
  {
    if name in NamesOf(items) {
      ValuesAreDenoted(items, name);
    }
  }

  lemma {:induction false} ValuesAreDenoted(items: seq<Child>, name: string)
    ensures forall v | v in ValuesOf(items, name) :: !v.Inherited?
  {
    if items != [] {
      ValuesAreDenoted(items[..|items| - 1], name);
    }
  }

  lemma EachChildHasAField(items: seq<Child>, i: nat)
    requires i < |items|
    ensures items[i].element.name in FieldsOf(items)
  {
    hide ValuesOf, SlotFor;
    assert items[i].element.name in NamesOf(items);
  }

  /** The loop gives the fields exactly if all names are words and none is inherited. */
  lemma AddAllExactly(items: seq<Child>)
    requires forall i | 0 <= i < |items| :: items[i].element.name != ""
    ensures AddAll(items) == FieldsOf(items) <==>
      NamedByWords(items) && forall i | 0 <= i < |items| :: items[i].element.name !in INHERITED_NAMES
  {
    hide AddAll, FieldsOf, StartsInherited, IsName, INHERITED_NAMES;
    if !NamedByWords(items) {
      var i :| 0 <= i < |items| && !IsName(items[i].element.name);
      OtherNamesAreNotAdded(items, items[i].element.name);
      EachChildHasAField(items, i);
    } else if forall i | 0 <= i < |items| :: items[i].element.name !in INHERITED_NAMES {
      AddAllGivesFields(items);
    } else {
      var i :| 0 <= i < |items| && items[i].element.name in INHERITED_NAMES;
      InheritedComesFirst(items, items[i].element.name);
      FieldsAreDenoted(items, items[i].element.name);
    }
  }

  /** An element whose own end is found, and whose children are read back, is read with what the loop makes of them. */
  lemma ElementFromItems(str: string, pos: nat, e: Element)
    requires WellFormed(e) && TagTame(e) && e.content.Children? && At(str, pos, Print(e))
    requires Close(str, e.name, 1, pos + |StartTag(e)|) == pos + |StartTag(e)| + |Inner(e)|
    requires At(str, pos + |StartTag(e)|, PrintItems(e.content.items))
    requires ItemsReadBack(str, pos + |StartTag(e)|, e.content.items)
    ensures ParseElement(str, pos) == Parsed(Some(Node(AddAll(e.content.items))), pos + |Print(e)|)
  {
    hide Close, StartTag, Print, ParseElement, ParseChildren, Trim, AddAll, At, PrintItems, ItemsReadBack, TagTame;
    hide TagWellFormed, AllSpace;
    var innerPos := pos + |StartTag(e)|;
    var closePos := innerPos + |Inner(e)|;
    ElementStep(str, pos, e);
    PrintParts(str, pos, e);
    TagNameOf(e);
    InnerPlace(str, pos, e);
    BracketAt(str, closePos, e.name);
    NothingAdded();
    assert e.content.items[0..] == e.content.items && e.content.items[..0] == [];
    ReadsItems(str, innerPos, e.content.items, 0, e.content.tail, closePos);
  }

  lemma ItemsPlace(str: string, pos: nat, e: Element)
    requires e.content.Children? && At(str, pos, Print(e))
    ensures At(str, pos + |StartTag(e)|, PrintItems(e.content.items))
  {
    hide At, Print, StartTag, PrintItems;
    PrintParts(str, pos, e);
    AtConcat(str, pos + |StartTag(e)|, PrintItems(e.content.items), e.content.tail);
  }

  lemma NothingAdded()
    ensures AddAll([]) == map[]
  {}

  /** The content of an element with children, and that trimming leaves a tag in it. */
  lemma InnerPlace(str: string, pos: nat, e: Element)
    requires e.content.Children? && e.content.items != [] && At(str, pos, Print(e))
    ensures var innerPos := pos + |StartTag(e)|;
      innerPos + |Inner(e)| <= |str| && '<' in Trim(str[innerPos..innerPos + |Inner(e)|])
  {
    hide StartTag, Print, At, Trim, Inner;
    PrintParts(str, pos, e);
    AtIs(str, pos + |StartTag(e)|, Inner(e));
    InnerHasBracket(e);
    TrimKeeps(Inner(e), '<');
  }

  lemma BracketAt(str: string, pos: nat, tag: string)
    requires At(str, pos, CloseTag(tag))
    ensures pos < |str| && str[pos] == '<'
  {
    AtChars(str, pos, CloseTag(tag));
    assert str[pos + 0] == CloseTag(tag)[0];
  }

  /** An element without children is read back. */
  lemma LeafReadsBack(str: string, pos: nat, e: Element)
    requires Tame(e) && !e.content.Children? && At(str, pos, Print(e))
    ensures pos <= |str| && IsReadBack(str, pos, e)
  {
    hide Close, StartTag, Print, ParseElement, ParseChildren, Trim, At, TagTame;
    NameOf(e);
    ElementStep(str, pos, e);
    PrintParts(str, pos, e);
    AtIs(str, pos, StartTag(e));
    if !e.content.Empty? {
      FindsOwnClosingTag(str, pos, e);
      AtIs(str, pos + |StartTag(e)|, Inner(e));
      TrimKeeps(Inner(e), '<');
    }
  }

  /** A printed element is read back, with everything inside: its value, and its end. */
  lemma {:induction false} ReadsBack(str: string, pos: nat, e: Element)
    requires Tame(e) && OwnNames(e) && EndsFound(e) && At(str, pos, Print(e))
    ensures AllReadBack(str, pos, e)
    decreases e, 1
  {
    hide Close, StartTag, Print, ParseElement, Trim, FieldsOf, AddAll, At, PrintItems, ItemsReadBack, MissedInside;
    hide TagTame, AllSpace, IsName;
    if e.content.Children? {
      var items := e.content.items;
      NameOf(e);
      NamesAreWords(items);
      TameIsWellFormed(e);
      FindsOwnClosingTag(str, pos, e);
      ItemsPlace(str, pos, e);
      ReadsItemsBack(str, pos + |StartTag(e)|, items);
      ElementFromItems(str, pos, e);
      AddAllGivesFields(items);
    } else {
      LeafReadsBack(str, pos, e);
    }
  }

  lemma NamesAreWords(items: seq<Child>)
    requires forall i | 0 <= i < |items| :: Tame(items[i].element)
    ensures NamedByWords(items)
  {}

  lemma {:induction false} ReadsItemsBack(str: string, pos: nat, items: seq<Child>)
    requires At(str, pos, PrintItems(items))
    requires forall i | 0 <= i < |items| ::
      Tame(items[i].element) && OwnNames(items[i].element) && EndsFound(items[i].element)
    ensures ItemsReadBack(str, pos, items)
    decreases items, 0
  {
    hide Tame, OwnNames, EndsFound, At, Print, PrintItems, AllReadBack;
    if items != [] {
      FirstItemParts(str, pos, items);
      var elementPos := pos + |items[0].space|;
      ReadsBack(str, elementPos, items[0].element);
      ReadsItemsBack(str, elementPos + |Print(items[0].element)|, items[1..]);
    }
  }

  /** With a `>` in its attributes an element is not read back. */
  lemma BracketIsNotReadBack(str: string, pos: nat, e: Element)
    requires WellFormed(e) && At(str, pos, Print(e)) && '>' in e.attributes
    ensures !IsReadBack(str, pos, e)
  {
    hide WellFormed, TagWellFormed, Print, StartTag, At, ParseElement, Close, IndexOf, Trim, AsRead, IsWord, Denote;
    hide ParseChildren;
    TagIsWellFormed(e);
    PrintParts(str, pos, e);
    ParseStep(str, pos, e);
    if IsReadBack(str, pos, e) {
      TagEnd(str, pos, e);
      AsReadIsAWord(e.name);
      var w := AsRead(e.name);
      var tagEnd := IndexOf(str, ">", pos + 1 + |w|);
      var closing := Close(str, w, 1, tagEnd + 1);
      match e.content {
        case Empty => NoClosingTagHere(str, pos, e, closing, w);
        case Words(text) =>
          ReadToItsEnd(str, pos, e, closing);
          BracketBeforeText(str, pos, e, tagEnd, closing);
        case Children(_, _) =>
          BracketBeforeChildren(str, pos, e, tagEnd, closing);
      }
    }
  }

  lemma TagIsWellFormed(e: Element)
    requires WellFormed(e)
    ensures TagWellFormed(e) && e.name != ""
  {}

  /** An empty element does not end like a closing tag. */
  lemma NoClosingTagHere(str: string, pos: nat, e: Element, closing: int, w: string)
    requires TagWellFormed(e) && e.content.Empty? && At(str, pos, StartTag(e))
    requires w != "" && (forall i | 0 <= i < |w| :: IsWord(w[i]))
    requires 0 <= closing && At(str, closing, CloseTag(w))
    ensures closing + |CloseTag(w)| != pos + |StartTag(e)|
  {
    hide TagWellFormed, StartTag, At, CloseTag;
    TagLast(str, pos, e);
    CloseTagShape(w);
    AtIs(str, closing, CloseTag(w));
    AtChars(str, closing, CloseTag(w));
    assert str[closing + (1 + |w|)] == w[|w| - 1];
    SlashIsNoWord();
  }

  lemma SlashIsNoWord()
    ensures !IsWord('/')
  {}

  /** What is left of the attributes is read in front of the text. */
  lemma BracketBeforeText(str: string, pos: nat, e: Element, tagEnd: nat, closing: nat)
    requires TagWellFormed(e) && e.content.Words? && At(str, pos, Print(e))
    requires tagEnd < pos + |StartTag(e)| - 1 && closing == pos + |StartTag(e)| + |Inner(e)|
    ensures closing <= |str| && Denote(e).Text? && Text(Trim(str[tagEnd + 1..closing])) != Denote(e)
  {
    hide TagWellFormed, StartTag, At, Print, Trim, EndTag;
    PrintParts(str, pos, e);
    TagLast(str, pos, e);
    var last := pos + |StartTag(e)| - 1;
    AtIs(str, last + 1, Inner(e));
    LeftInFront(str, tagEnd + 1, last, closing);
    TrimIsLonger(str[tagEnd + 1..last], e.content.text);
  }

  lemma LeftInFront(str: string, from: nat, last: nat, to: nat)
    requires from <= last < to <= |str| && str[last] == '>'
    ensures str[from..to] == str[from..last] + ">" + str[last + 1..to]
  {}

  /** Or in place of the children: none is found. */
  lemma BracketBeforeChildren(str: string, pos: nat, e: Element, tagEnd: nat, closing: nat)
    requires WellFormed(e) && e.content.Children? && At(str, pos, StartTag(e))
    requires pos <= tagEnd < pos + |StartTag(e)| - 1 && closing < |str|
    ensures tagEnd + 1 <= |str| && Node(ParseChildren(str, tagEnd + 1, closing, map[])) != Denote(e)
    ensures Denote(e).Node?
  {
    hide TagWellFormed, StartTag, At, SkipSpace, ParseElement, AddChild, ValuesOf, SlotFor;
    TagIsWellFormed(e);
    TagLast(str, pos, e);
    var last := pos + |StartTag(e)| - 1;
    var childPos := SkipSpace(str, tagEnd + 1);
    SkipsNoFurther(str, tagEnd + 1, last);
    assert str[childPos] == str[pos + 1..last + 1][childPos - pos - 1] != '<';
    EachChildHasAField(e.content.items, 0);
  }

  lemma SkipsNoFurther(str: string, at: nat, last: nat)
    requires at <= last < |str| && str[last] == '>'
    ensures SkipSpace(str, at) <= last
  {
    BracketIsNoSpace();
  }

  /** The tags of an element that is read back are readable, and its own closing tag is found. */
  lemma OwnTagsAreReadable(str: string, pos: nat, e: Element)
    requires WellFormed(e) && At(str, pos, Print(e)) && IsReadBack(str, pos, e)
    ensures e.name != "" && TagsReadable(e)
    ensures !e.content.Empty? ==> Close(str, e.name, 1, pos + |StartTag(e)|) == pos + |StartTag(e)| + |Inner(e)|
  {
    hide WellFormed, TagWellFormed, Print, StartTag, At, ParseElement, Close, IndexOf, Trim, AsRead, IsWord, Denote;
    hide ParseChildren;
    TagIsWellFormed(e);
    PrintParts(str, pos, e);
    ParseStep(str, pos, e);
    if '>' in e.attributes {
      BracketIsNotReadBack(str, pos, e);
    }
    TagEnd(str, pos, e);
    if !e.content.Empty? {
      var closing := Close(str, AsRead(e.name), 1, pos + |StartTag(e)|);
      ReadToItsEnd(str, pos, e, closing);
      WordsAreRead(e.name);
    }
  }

  lemma ReadableTagIsTame(e: Element)
    requires WellFormed(e) && TagsReadable(e) && IsName(e.name)
    ensures TagTame(e)
  {}

  /** What is read back with everything inside has readable tags, its ends found and names of its own. */
  lemma {:induction false} ReadBackMeans(str: string, pos: nat, e: Element)
    requires WellFormed(e) && At(str, pos, Print(e)) && AllReadBack(str, pos, e)
    ensures AllTagsReadable(e) && EndsFound(e) && OwnNames(e)
    decreases e, 1
  {
    hide Close, StartTag, Print, ParseElement, Trim, FieldsOf, AddAll, At, PrintItems, ItemsReadBack, MissedInside;
    hide TagTame, TagWellFormed, TagsReadable, AllSpace, IsName;
    OwnTagsAreReadable(str, pos, e);
    if e.content.Children? {
      var items := e.content.items;
      ContentNameIsAWord(e);
      ReadableTagIsTame(e);
      ItemsPlace(str, pos, e);
      ItemsReadBackMeans(str, pos + |StartTag(e)|, items);
      ElementFromItems(str, pos, e);
      NamesAreThere(items);
      AddAllExactly(items);
      ReadableIsTame(e);
      EndsWhereItEnds(str, pos, e);
    } else {
      NothingMissed(e);
    }
  }

  lemma ContentNameIsAWord(e: Element)
    requires e.name != "" && TagsReadable(e) && !e.content.Empty?
    ensures IsName(e.name)
  {}

  lemma NamesAreThere(items: seq<Child>)
    requires forall i | 0 <= i < |items| :: WellFormed(items[i].element)
    ensures forall i | 0 <= i < |items| :: items[i].element.name != ""
  {}

  lemma NothingMissed(e: Element)
    requires !e.content.Children?
    ensures MissedInside(e, e.name) == 0
  {}

  lemma {:induction false} ItemsReadBackMeans(str: string, pos: nat, items: seq<Child>)
    requires At(str, pos, PrintItems(items)) && ItemsReadBack(str, pos, items)
    requires forall i | 0 <= i < |items| :: WellFormed(items[i].element)
    ensures forall i | 0 <= i < |items| ::
      AllTagsReadable(items[i].element) && EndsFound(items[i].element) && OwnNames(items[i].element)
    decreases items, 0
  {
    hide WellFormed, AllTagsReadable, OwnNames, EndsFound, At, Print, PrintItems, AllReadBack;
    if items != [] {
      FirstItemParts(str, pos, items);
      var elementPos := pos + |items[0].space|;
      ReadBackMeans(str, elementPos, items[0].element);
      ItemsReadBackMeans(str, elementPos + |Print(items[0].element)|, items[1..]);
      assert items == [items[0]] + items[1..];
    }
  }

  /** An empty element with readable tags is read back, whatever its name. */
  lemma EmptyReadsBack(str: string, pos: nat, e: Element)
    requires WellFormed(e) && e.content.Empty? && At(str, pos, Print(e)) && TagsReadable(e)
    ensures IsReadBack(str, pos, e)
  {
    hide TagWellFormed, Print, StartTag, At, ParseElement, Close, IndexOf, Trim, AsRead, IsWord, ParseChildren;
    PrintParts(str, pos, e);
    ParseStep(str, pos, e);
    TagEnd(str, pos, e);
  }

  /**
   The parser reads every element inside a printed one at its place, value and end, exactly if all tags
   are readable, the closing-tag search misses no start tag, and no child has a name every object
   answers to.
   */
  lemma ReadsBackExactly(str: string, pos: nat, e: Element)
    requires WellFormed(e) && At(str, pos, Print(e))
    ensures AllReadBack(str, pos, e) <==> AllTagsReadable(e) && EndsFound(e) && OwnNames(e)
  {
    hide EndsFound, OwnNames, WellFormed, At, Print, IsReadBack, TagsReadable, Tame, IsName;
    if AllReadBack(str, pos, e) {
      ReadBackMeans(str, pos, e);
    }
    if AllTagsReadable(e) && EndsFound(e) && OwnNames(e) {
      if e.content.Empty? {
        EmptyReadsBack(str, pos, e);
      } else {
        TagIsWellFormed(e);
        ContentNameIsAWord(e);
        ReadableIsTame(e);
        ReadsBack(str, pos, e);
      }
    }
  }

  lemma NoFields()
    ensures FieldsOf([]) == map[]
  {}

  lemma InnerHasBracket(e: Element)
    requires e.content.Children? && e.content.items != []
    ensures '<' in Inner(e)
  {
    hide Print, PrintItems, StartTag;
    var items := e.content.items;
    PrintedFirst(items);
    PrintStartsTag(items[0].element);
    assert PrintItems(items)[|items[0].space|] == '<';
  }

  lemma PrintStartsTag(e: Element)
    ensures Print(e) != "" && Print(e)[0] == '<'
  {}

  lemma {:induction false} ReadsItems(
    str: string, pos: nat, items: seq<Child>, k: nat, tail: string, closingIdx: nat)
    requires k <= |items| && AllSpace(tail)
    requires forall i | 0 <= i < |items| :: AllSpace(items[i].space) && WellFormed(items[i].element)
    requires At(str, pos, PrintItems(items[k..]) + tail) && closingIdx == pos + |PrintItems(items[k..]) + tail|
    requires closingIdx < |str| && str[closingIdx] == '<'
    requires At(str, pos, PrintItems(items[k..])) && ItemsReadBack(str, pos, items[k..])
    ensures ParseChildren(str, pos, closingIdx, AddAll(items[..k])) == AddAll(items)
    decreases |items| - k
  {
    hide Close, StartTag, Print, PrintItems, ParseElement, ParseChildren, AddAll, AddChild, WellFormed, At, AllSpace;
    hide AsRead, IsReadBack;
    var rest := items[k..];
    if k == |items| {
      NoItems(tail);
      assert rest == [] && items[..k] == items;
      TailStep(str, pos, tail, AddAll(items));
    } else {
      var c := items[k];
      var next := pos + |c.space| + |Print(c.element)|;
      assert rest[0] == c && rest[1..] == items[k + 1..];
      FirstItemParts(str, pos, rest);
      RestOfItems(str, pos, rest, tail);
      ChildStep(str, pos, c, closingIdx, AddAll(items[..k]));
      assert items[..k + 1] == items[..k] + [c];
      AddOneMore(items[..k], c);
      AtConcat(str, next, PrintItems(items[k + 1..]), tail);
      ReadsItems(str, next, items, k + 1, tail, closingIdx);
    }
  }

  /** White space up to the closing tag ends the children. */
  lemma TailStep(str: string, pos: nat, tail: string, children: map<string, Slot>)
    requires AllSpace(tail) && At(str, pos, tail) && pos + |tail| < |str| && str[pos + |tail|] == '<'
    ensures ParseChildren(str, pos, pos + |tail|, children) == children
  {
    hide AddChild, ParseElement;
    SpaceWhereItStands(str, pos, tail);
  }

  /** One child, read and added under its name as read. */
  lemma ChildStep(str: string, pos: nat, c: Child, closingIdx: nat, children: map<string, Slot>)
    requires WellFormed(c.element) && AllSpace(c.space)
    requires At(str, pos, c.space) && At(str, pos + |c.space|, Print(c.element))
    requires pos + |c.space| + |Print(c.element)| <= closingIdx < |str|
    requires IsReadBack(str, pos + |c.space|, c.element)
    ensures ParseChildren(str, pos, closingIdx, children) ==
      ParseChildren(str, pos + |c.space| + |Print(c.element)|, closingIdx,
                    AddChild(children, AsRead(c.element.name), Denote(c.element)))
  {
    hide Print, ParseElement, ParseChildren, AddChild, WellFormed, TagWellFormed, Denote, AllSpace, At, NextChild;
    hide AsRead, IsWord, StartTag;
    ReadMeansNamed(str, pos + |c.space|, c.element);
    FindsChild(str, pos, c, closingIdx);
    ChildrenTurn(str, pos, closingIdx, children);
  }

  /** What is read back has a name that begins with a word. */
  lemma ReadMeansNamed(str: string, pos: nat, e: Element)
    requires WellFormed(e) && At(str, pos, Print(e)) && IsReadBack(str, pos, e)
    ensures TagWellFormed(e) && e.name != "" && IsWord(e.name[0]) && |Print(e)| > 0
  {
    hide Print, ParseElement, ParseChildren, WellFormed, TagWellFormed, Denote, At, AsRead, IsWord, StartTag;
    TagIsWellFormed(e);
    PrintParts(str, pos, e);
    ParseStep(str, pos, e);
  }

  lemma FindsChild(str: string, pos: nat, c: Child, closingIdx: nat)
    requires TagWellFormed(c.element) && IsWord(c.element.name[0]) && AllSpace(c.space)
    requires At(str, pos, c.space) && At(str, pos + |c.space|, Print(c.element))
    requires pos + |c.space| < closingIdx < |str|
    ensures var at, nameEnd := pos + |c.space|, pos + |c.space| + 1 + |AsRead(c.element.name)|;
      NextChild(str, pos, closingIdx) == Some((at, nameEnd)) && str[at + 1..nameEnd] == AsRead(c.element.name)
  {
    hide Print, TagWellFormed, StartTag, AllSpace, At, IsWord, IndexOf, WordEnd, SkipSpace, AsRead;
    var elementPos := pos + |c.space|;
    NameIsThere(c.element);
    AsReadIsAWord(c.element.name);
    PrintParts(str, elementPos, c.element);
    TagStart(str, elementPos, c.element);
    SpaceWhereItStands(str, pos, c.space);
  }

  lemma NoItems(tail: string)
    ensures PrintItems([]) + tail == tail
  {}

  lemma RestOfItems(str: string, pos: nat, items: seq<Child>, tail: string)
    requires items != [] && At(str, pos, PrintItems(items) + tail)
    ensures var next := pos + |items[0].space| + |Print(items[0].element)|;
      && At(str, next, PrintItems(items[1..]) + tail)
      && next + |PrintItems(items[1..]) + tail| == pos + |PrintItems(items) + tail|
  {
    hide Print, At;
    var front := items[0].space + Print(items[0].element);
    assert PrintItems(items) + tail == front + (PrintItems(items[1..]) + tail);
    AtConcat(str, pos, front, PrintItems(items[1..]) + tail);
  }

  lemma SpaceWhereItStands(str: string, pos: nat, space: string)
    requires AllSpace(space) && At(str, pos, space) && pos + |space| < |str| && str[pos + |space|] == '<'
    ensures SkipSpace(str, pos) == pos + |space|
  {
    AtChars(str, pos, space);
    forall k | pos <= k < pos + |space|
      ensures IsSpace(str[k])
    {
      assert str[pos + (k - pos)] == space[k - pos];
    }
    SpaceEndsAt(str, pos, pos + |space|);
  }

  /**
   The round trip: a well-formed document, printed behind an optional declaration, is recovered, if
   its tags are readable, the closing-tag search misses no start tag and it uses no name every object
   answers to. The empty text comes back as the empty object.
   */
  lemma DocumentRoundTrip(prolog: string, e: Element, trailing: string)
    requires WellFormed(e) && IsProlog(prolog) && AllSpace(trailing)
    requires AllTagsReadable(e) && OwnNames(e) && EndsFound(e)
    ensures Document(prolog + Print(e) + trailing) == if Denote(e) == Text("") then Node(map[]) else Denote(e)
  {
    hide Print, WellFormed, ParseElement, Trim, StripDeclaration, OwnNames, EndsFound, AllTagsReadable, At;
    Unwraps(prolog, e, trailing);
    AtStart(Print(e));
    ReadsBackExactly(Print(e), 0, e);
  }

  /** And that is exactly when all of the document is read as it stands there. */
  lemma DocumentReadExactly(prolog: string, e: Element, trailing: string)
    requires WellFormed(e) && IsProlog(prolog) && AllSpace(trailing)
    ensures var text := Trim(StripDeclaration(prolog + Print(e) + trailing, 0));
      && At(text, 0, Print(e))
      && (AllReadBack(text, 0, e) <==> AllTagsReadable(e) && EndsFound(e) && OwnNames(e))
  {
    hide Print, WellFormed, AllReadBack, Trim, StripDeclaration, EndsFound, OwnNames, At, AllTagsReadable;
    Unwraps(prolog, e, trailing);
    AtStart(Print(e));
    ReadsBackExactly(Print(e), 0, e);
  }
}
