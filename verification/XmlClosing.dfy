/** What the search for a closing tag makes of a printed element. */
module XmlClosing {
  import opened Texts
  import opened XmlParser
  import opened XmlElements

  /** The search takes the start tag for one: after the name comes `>`, a blank or `/`. */
  predicate Readable(e: Element) {
    e.attributes == "" || e.attributes[0] == ' '
  }

  /** Elements of the given name whose start tag the search overlooks although it sees their end tag. */
  function Missed(e: Element, tag: string): nat
    decreases e, 1
  {
    (if e.name == tag && !e.content.Empty? && !Readable(e) then 1 else 0) + MissedInside(e, tag)
  }

  function MissedInside(e: Element, tag: string): nat
    decreases e, 0
  {
    if e.content.Children? then MissedItems(e.content.items, tag) else 0
  }

  function MissedItems(items: seq<Child>, tag: string): nat
    decreases items
  {
    if items == [] then 0 else Missed(items[0].element, tag) + MissedItems(items[1..], tag)
  }

  lemma OpenIsNotClose(str: string, pos: nat, tag: string)
    requires IsName(tag) && At(str, pos, OpenPattern(tag))
    ensures !At(str, pos, CloseTag(tag))
  {
    CharsIfAt(str, pos, OpenPattern(tag));
    CharsIfAt(str, pos, CloseTag(tag));
    assert OpenPattern(tag)[1] == tag[0] && CloseTag(tag)[1] == '/' && str[pos + 1] == tag[0];
  }

  /** A place where neither pattern stands is passed over. */
  lemma PassOver(str: string, tag: string, depth: nat, pos: nat, last: nat)
    requires depth > 0 && pos < last && At(str, last, CloseTag(tag))
    requires !At(str, pos, OpenPattern(tag)) && !At(str, pos, CloseTag(tag))
    ensures Close(str, tag, depth, pos) == Close(str, tag, depth, pos + 1)
  {
    IndexFromNext(str, OpenPattern(tag), pos);
    IndexFromNext(str, CloseTag(tag), pos);
    assert last + |CloseTag(tag)| <= |str|;
    hide IndexOf, Next;
  }

  /** So is a stretch without `<`. */
  lemma {:induction false} PassText(str: string, tag: string, depth: nat, pos: nat, end: nat, last: nat)
    requires depth > 0 && pos <= end <= last && At(str, last, CloseTag(tag))
    requires '<' !in str[pos..end]
    ensures Close(str, tag, depth, pos) == Close(str, tag, depth, end)
    decreases end - pos
  {
    hide Close;
    if pos < end {
      assert str[pos] == str[pos..end][0];
      NoTagHere(str, tag, pos);
      PassOver(str, tag, depth, pos, last);
      assert str[pos + 1..end] == str[pos..end][1..];
      PassText(str, tag, depth, pos + 1, end, last);
    }
  }

  lemma NoTagHere(str: string, tag: string, pos: nat)
    requires pos < |str| && str[pos] != '<'
    ensures !At(str, pos, OpenPattern(tag)) && !At(str, pos, CloseTag(tag))
  {
    if At(str, pos, OpenPattern(tag)) {
      AtChars(str, pos, OpenPattern(tag));
    }
    if At(str, pos, CloseTag(tag)) {
      AtChars(str, pos, CloseTag(tag));
    }
  }

  lemma OpeningComesFirst(str: string, tag: string, pos: nat, last: nat)
    requires IsName(tag) && pos < last && At(str, last, CloseTag(tag)) && At(str, pos, OpenPattern(tag))
    ensures IndexOf(str, OpenPattern(tag), pos) == pos < IndexOf(str, CloseTag(tag), pos)
  {
    OpenIsNotClose(str, pos, tag);
    NothingEarlier(str, CloseTag(tag), pos, last);
    NothingEarlier(str, OpenPattern(tag), pos, pos);
  }

  lemma TagEndsAt(str: string, pos: nat, tagEnd: nat)
    requires pos <= tagEnd < |str| && str[tagEnd] == '>' && '>' !in str[pos..tagEnd]
    ensures IndexOf(str, ">", pos) == tagEnd
  {
    forall k | pos <= k < tagEnd
      ensures !At(str, k, ">")
    {
      assert str[k] == str[pos..tagEnd][k - pos] != '>';
    }
    assert At(str, tagEnd, ">");
    FirstIndex(str, ">", pos, tagEnd);
  }

  /** An opening of the name: counted if its name ends there, passed over otherwise. */
  lemma PassOpening(str: string, tag: string, depth: nat, pos: nat, tagEnd: nat, last: nat)
    requires IsName(tag) && depth > 0 && pos < last && At(str, last, CloseTag(tag)) && At(str, pos, OpenPattern(tag))
    requires pos < tagEnd < |str| && str[tagEnd] == '>' && '>' !in str[pos..tagEnd]
    ensures pos + |OpenPattern(tag)| < |str|
    ensures Close(str, tag, depth, pos) ==
      if EndsName(str[pos + |OpenPattern(tag)|])
      then Close(str, tag, if str[tagEnd - 1] == '/' then depth else depth + 1, tagEnd + 1)
      else Close(str, tag, depth, pos + |OpenPattern(tag)|)
  {
    hide IndexOf, At, OpenPattern, CloseTag, Close, IsName;
    OpeningComesFirst(str, tag, pos, last);
    TagEndsAt(str, pos, tagEnd);
    TagHasAnEnd(str, pos, IndexOf(str, CloseTag(tag), pos), tag);
    CloseTurn(str, tag, depth, pos);
  }

  lemma PassClosing(str: string, tag: string, depth: nat, pos: nat)
    requires IsName(tag) && depth > 0 && At(str, pos, CloseTag(tag))
    ensures Close(str, tag, depth, pos) == if depth == 1 then pos else Close(str, tag, depth - 1, pos + |CloseTag(tag)|)
  {
    NothingEarlier(str, CloseTag(tag), pos, pos);
    if At(str, pos, OpenPattern(tag)) {
      OpenIsNotClose(str, pos, tag);
    }
    var nextOpen := IndexOf(str, OpenPattern(tag), pos);
    assert nextOpen != pos;
  }

  /** The characters of a start tag: no angle bracket but the outer two. */
  lemma StartTagBrackets(e: Element)
    requires TagTame(e)
    ensures var st := StartTag(e);
      && |st| >= 2 + |e.name| && st[0] == '<' && st[|st| - 1] == '>'
      && '<' !in st[1..] && '>' !in st[..|st| - 1]
  {
    hide IsSpace;
    var st := StartTag(e);
    var end := if e.content.Empty? then "/>" else ">";
    assert st[1..] == e.name + e.attributes + end;
    assert st[..|st| - 1] == "<" + e.name + e.attributes + end[..|end| - 1];
    WordsAreNoBrackets(e.name);
  }

  lemma WordsAreNoBrackets(s: string)
    requires IsName(s)
    ensures '<' !in s && '>' !in s && '/' !in s && '?' !in s && IsWord(s[0])
  {}

  /** The name, and how the tag goes on behind it and ends. */
  lemma StartTagName(e: Element)
    requires TagTame(e)
    ensures var st := StartTag(e);
      && |st| >= 2 + |e.name|
      && st[1..1 + |e.name|] == e.name && IsWord(st[1])
      && !IsWord(st[1 + |e.name|]) && (EndsName(st[1 + |e.name|]) <==> Readable(e))
      && (st[|st| - 2] == '/' <==> e.content.Empty?)
  {
    var st := StartTag(e);
    var end := if e.content.Empty? then "/>" else ">";
    WordsAreNoBrackets(e.name);
    assert st[1..] == e.name + (e.attributes + end);
    assert st[1] == e.name[0] && st[1 + |e.name|] == (e.attributes + end)[0];
    assert st == "<" + e.name + e.attributes + end;
    if !e.content.Empty? {
      assert st[|st| - 2] == if e.attributes == "" then e.name[|e.name| - 1] else e.attributes[|e.attributes| - 1];
    }
  }

  /** How a start tag looks where it stands. */
  lemma StartTagShape(str: string, pos: nat, e: Element)
    requires TagTame(e) && At(str, pos, StartTag(e))
    ensures var nameEnd, tagEnd := pos + 1 + |e.name|, pos + |StartTag(e)| - 1;
      && nameEnd <= tagEnd < |str| && str[pos] == '<' && str[tagEnd] == '>'
      && '<' !in str[pos + 1..tagEnd + 1] && '>' !in str[pos..tagEnd]
      && At(str, pos + 1, e.name) && IsWord(str[pos + 1])
      && !IsWord(str[nameEnd]) && (EndsName(str[nameEnd]) <==> Readable(e))
      && (str[tagEnd - 1] == '/' <==> e.content.Empty?)
  {
    hide TagTame, StartTag, IsWord, EndsName;
    var st := StartTag(e);
    var tagEnd := pos + |st| - 1;
    StartTagBrackets(e);
    StartTagName(e);
    AtChars(str, pos, st);
    assert str[pos + 1..tagEnd + 1] == st[1..];
    assert str[pos..tagEnd] == st[..|st| - 1];
    assert str[pos + 1..pos + 1 + |e.name|] == st[1..1 + |e.name|];
    assert str[pos + 0] == st[0] && str[pos + (|st| - 1)] == st[|st| - 1] && str[pos + (|st| - 2)] == st[|st| - 2];
    assert str[pos + (1 + |e.name|)] == st[1 + |e.name|];
  }

  /** Of two names at one place the one that ends with the word is no shorter than the other. */
  lemma SameName(str: string, pos: nat, a: string, b: string)
    requires IsName(a) && IsName(b) && At(str, pos, a) && At(str, pos, b)
    requires pos + |a| < |str| && !IsWord(str[pos + |a|])
    ensures |b| <= |a|
    ensures if |b| < |a| then IsWord(str[pos + |b|]) else a == b
  {
    AtChars(str, pos, a);
    AtChars(str, pos, b);
    assert |b| < |a| ==> IsWord(a[|b|]) && str[pos + |b|] == a[|b|];
  }

  /** A start tag raises the depth if it opens an element of the name and can be read. */
  lemma PassStartTag(str: string, tag: string, depth: nat, pos: nat, e: Element, last: nat)
    requires TagTame(e) && IsName(tag) && depth > 0 && At(str, pos, StartTag(e))
    requires pos + |StartTag(e)| <= last && At(str, last, CloseTag(tag))
    ensures Close(str, tag, depth, pos) ==
      Close(str, tag, if e.name == tag && !e.content.Empty? && Readable(e) then depth + 1 else depth,
            pos + |StartTag(e)|)
  {
    hide Close, StartTag, IsWord, EndsName, Readable, OpenPattern, CloseTag, At;
    StartTagShape(str, pos, e);
    TagNameOf(e);
    var tagEnd := pos + |StartTag(e)| - 1;
    OpensWith(str, pos, tag);
    if At(str, pos, OpenPattern(tag)) {
      PassTagOpening(str, tag, depth, pos, tagEnd, e, last);
    } else {
      PassOver(str, tag, depth, pos, last);
      PassText(str, tag, depth, pos + 1, tagEnd + 1, last);
    }
  }

  lemma PassTagOpening(str: string, tag: string, depth: nat, pos: nat, tagEnd: nat, e: Element, last: nat)
    requires IsName(tag) && IsName(e.name) && depth > 0
    requires pos + 1 + |e.name| <= tagEnd < |str| && tagEnd < last && At(str, last, CloseTag(tag))
    requires At(str, pos, OpenPattern(tag)) && At(str, pos + 1, tag) && At(str, pos + 1, e.name)
    requires str[tagEnd] == '>' && '<' !in str[pos + 1..tagEnd + 1] && '>' !in str[pos..tagEnd]
    requires !IsWord(str[pos + 1 + |e.name|]) && (EndsName(str[pos + 1 + |e.name|]) <==> Readable(e))
    requires str[tagEnd - 1] == '/' <==> e.content.Empty?
    ensures Close(str, tag, depth, pos) ==
      Close(str, tag, if e.name == tag && !e.content.Empty? && Readable(e) then depth + 1 else depth, tagEnd + 1)
  {
    hide Close, IsName, IsWord, EndsName, Readable, OpenPattern, CloseTag, At;
    PatternLength(tag);
    SameName(str, pos + 1, e.name, tag);
    PassOpening(str, tag, depth, pos, tagEnd, last);
    if !(e.name == tag && Readable(e)) {
      RestOfTag(str, pos, tagEnd, tag);
      PassText(str, tag, depth, pos + 1 + |tag|, tagEnd + 1, last);
    }
  }

  lemma PatternLength(tag: string)
    ensures |OpenPattern(tag)| == 1 + |tag|
    ensures forall c :: EndsName(c) ==> !IsWord(c)
  {}

  /** Passing over the name of a tag leaves a position from which its rest holds no `<`. */
  lemma RestOfTag(str: string, pos: nat, tagEnd: nat, tag: string)
    requires pos + |tag| <= tagEnd < |str| && '<' !in str[pos + 1..tagEnd + 1]
    ensures '<' !in str[pos + 1 + |tag|..tagEnd + 1]
  {
    assert str[pos + 1 + |tag|..tagEnd + 1] == str[pos + 1..tagEnd + 1][|tag|..];
  }

  lemma TagNameOf(e: Element)
    requires TagTame(e)
    ensures IsName(e.name) && |StartTag(e)| >= 2 + |e.name|
    ensures !e.content.Empty? ==> EndTag(e) == CloseTag(e.name)
  {}

  lemma NameOf(e: Element)
    requires Tame(e)
    ensures TagTame(e) && IsName(e.name) && |StartTag(e)| >= 2 + |e.name|
    ensures !e.content.Empty? ==> EndTag(e) == CloseTag(e.name)
  {
    TagNameOf(e);
  }

  /** A `<` in front of a word character can be an opening of the name, never a closing. */
  lemma OpensWith(str: string, pos: nat, tag: string)
    requires IsName(tag) && pos + 1 < |str| && str[pos] == '<' && IsWord(str[pos + 1])
    ensures !At(str, pos, CloseTag(tag))
    ensures At(str, pos, OpenPattern(tag)) <==> At(str, pos + 1, tag)
  {
    assert CloseTag(tag)[1] == '/';
    CharsIfAt(str, pos, CloseTag(tag));
    if At(str, pos, OpenPattern(tag)) {
      AtConcat(str, pos, "<", tag);
    }
    if At(str, pos + 1, tag) {
      assert str[pos..pos + 1 + |tag|] == [str[pos]] + str[pos + 1..pos + 1 + |tag|];
    }
  }

  /** An end tag lowers the depth, or ends the search, if it is of the name; other end tags are passed over. */
  lemma PassEndTag(str: string, tag: string, depth: nat, pos: nat, name: string, last: nat)
    requires IsName(tag) && IsName(name) && depth > 0 && At(str, pos, CloseTag(name))
    requires pos + |CloseTag(name)| <= last && At(str, last, CloseTag(tag))
    ensures Close(str, tag, depth, pos) ==
      if name == tag && depth == 1 then pos
      else Close(str, tag, if name == tag then depth - 1 else depth, pos + |CloseTag(name)|)
  {
    hide Close;
    if name == tag {
      PassClosing(str, tag, depth, pos);
    } else {
      OtherEndTag(str, pos, name, tag);
      PassOver(str, tag, depth, pos, last);
      PassText(str, tag, depth, pos + 1, pos + |CloseTag(name)|, last);
    }
  }

  lemma OtherEndTag(str: string, pos: nat, name: string, tag: string)
    requires IsName(tag) && IsName(name) && name != tag && At(str, pos, CloseTag(name))
    ensures !At(str, pos, OpenPattern(tag)) && !At(str, pos, CloseTag(tag))
    ensures '<' !in str[pos + 1..pos + |CloseTag(name)|]
  {
    var end := CloseTag(name);
    WordsAreNoBrackets(name);
    WordsAreNoBrackets(tag);
    assert str[pos + 1..pos + |end|] == end[1..] == "/" + name + ">";
    AtChars(str, pos, end);
    assert str[pos + 1] == end[1] == '/';
    CharsIfAt(str, pos, OpenPattern(tag));
    assert OpenPattern(tag)[1] == tag[0];
    if At(str, pos, CloseTag(tag)) {
      SameEndTag(str, pos, name, tag);
    }
  }

  lemma SameEndTag(str: string, pos: nat, a: string, b: string)
    requires IsName(a) && IsName(b) && At(str, pos, CloseTag(a)) && At(str, pos, CloseTag(b))
    ensures a == b
  {
    hide At, IsName, IsWord;
    NameOfEndTag(str, pos, a);
    NameOfEndTag(str, pos, b);
    SameName(str, pos + 2, a, b);
    SameName(str, pos + 2, b, a);
  }

  lemma NameOfEndTag(str: string, pos: nat, name: string)
    requires IsName(name) && At(str, pos, CloseTag(name))
    ensures At(str, pos + 2, name) && pos + 2 + |name| < |str| && !IsWord(str[pos + 2 + |name|])
  {
    hide IsName;
    assert CloseTag(name) == "</" + (name + ">");
    AtConcat(str, pos, "</", name + ">");
    AtConcat(str, pos + 2, name, ">");
    AtChars(str, pos + 2 + |name|, ">");
    assert str[pos + 2 + |name| + 0] == '>';
  }

  /**
   What the search makes of a whole element it meets: it comes out behind it, with one unclosed
   opening less for every start tag missed inside, unless that many end tags already end the search.
   */
  lemma {:induction false} PassElement(str: string, tag: string, depth: nat, pos: nat, e: Element, last: nat)
    requires Tame(e) && IsName(tag) && depth > 0 && At(str, pos, Print(e))
    requires pos + |Print(e)| <= last && At(str, last, CloseTag(tag))
    ensures var missed, r := Missed(e, tag), Close(str, tag, depth, pos);
      if missed < depth then r == Close(str, tag, depth - missed, pos + |Print(e)|)
      else pos <= r < pos + |Print(e)|
    decreases e, 2
  {
    hide Close, StartTag, Print, Inner, At, Tame, MissedItems, IsName, Readable;
    var innerPos := pos + |StartTag(e)|;
    PrintParts(str, pos, e);
    NameOf(e);
    PassStartTag(str, tag, depth, pos, e, last);
    if !e.content.Empty? {
      var inside := if e.name == tag && Readable(e) then depth + 1 else depth;
      var closePos := innerPos + |Inner(e)|;
      PassInner(str, tag, inside, innerPos, e, last);
      if MissedInside(e, tag) < inside {
        PassEndTag(str, tag, inside - MissedInside(e, tag), closePos, e.name, last);
      }
    }
  }

  /** The pieces of a printed element, where they stand. */
  lemma PrintParts(str: string, pos: nat, e: Element)
    requires At(str, pos, Print(e))
    ensures At(str, pos, StartTag(e))
    ensures |StartTag(e)| > 0
    ensures e.content.Empty? ==> |Print(e)| == |StartTag(e)|
    ensures !e.content.Empty? ==>
      && At(str, pos + |StartTag(e)|, Inner(e))
      && At(str, pos + |StartTag(e)| + |Inner(e)|, EndTag(e))
      && |Print(e)| == |StartTag(e)| + |Inner(e)| + |EndTag(e)|
  {
    hide At, EndTag, PrintItems, StartTag;
    StartTagIsThere(e);
    if e.content.Empty? {
      assert Print(e) == StartTag(e);
    } else {
      assert Print(e) == StartTag(e) + (Inner(e) + EndTag(e));
      AtConcat(str, pos, StartTag(e), Inner(e) + EndTag(e));
      AtConcat(str, pos + |StartTag(e)|, Inner(e), EndTag(e));
    }
  }

  lemma StartTagIsThere(e: Element)
    ensures |StartTag(e)| > 0
  {}

  /** The content of an element, likewise. */
  lemma {:induction false} PassInner(str: string, tag: string, depth: nat, pos: nat, e: Element, last: nat)
    requires Tame(e) && IsName(tag) && depth > 0 && At(str, pos, Inner(e))
    requires pos + |Inner(e)| <= last && At(str, last, CloseTag(tag))
    ensures var missed, r := MissedInside(e, tag), Close(str, tag, depth, pos);
      if missed < depth then r == Close(str, tag, depth - missed, pos + |Inner(e)|)
      else pos <= r < pos + |Inner(e)|
    decreases e, 1
  {
    hide Close, At, Print, PrintItems, Missed, MissedItems, AllSpace, IsName, CloseTag, TagTame;
    AtFits(str, last, tag);
    match e.content {
      case Empty =>
      case Words(text) =>
        AtIs(str, pos, text);
        PassText(str, tag, depth, pos, pos + |text|, last);
      case Children(items, tail) =>
        AtConcat(str, pos, PrintItems(items), tail);
        PassItems(str, tag, depth, pos, items, last);
        var missed := MissedItems(items, tag);
        if missed < depth {
          PassTail(str, tag, depth - missed, pos + |PrintItems(items)|, tail, last);
        }
    }
  }

  lemma PassTail(str: string, tag: string, depth: nat, pos: nat, tail: string, last: nat)
    requires AllSpace(tail) && depth > 0 && At(str, pos, tail)
    requires pos + |tail| <= last && At(str, last, CloseTag(tag))
    ensures Close(str, tag, depth, pos) == Close(str, tag, depth, pos + |tail|)
  {
    hide Close, At, AllSpace, CloseTag;
    SpaceIsNoBracket(tail);
    AtIs(str, pos, tail);
    PassText(str, tag, depth, pos, pos + |tail|, last);
  }

  lemma AtIs(str: string, pos: nat, p: string)
    requires At(str, pos, p)
    ensures pos + |p| <= |str| && str[pos..pos + |p|] == p
  {}

  lemma AtFits(str: string, last: nat, tag: string)
    requires At(str, last, CloseTag(tag))
    ensures last < |str|
  {}

  lemma SpaceIsNoBracket(s: string)
    requires AllSpace(s)
    ensures '<' !in s
  {}

  lemma {:induction false} PassItems(str: string, tag: string, depth: nat, pos: nat, items: seq<Child>, last: nat)
    requires forall i | 0 <= i < |items| :: AllSpace(items[i].space) && Tame(items[i].element)
    requires IsName(tag) && depth > 0 && At(str, pos, PrintItems(items))
    requires pos + |PrintItems(items)| <= last && At(str, last, CloseTag(tag))
    ensures var missed, r := MissedItems(items, tag), Close(str, tag, depth, pos);
      if missed < depth then r == Close(str, tag, depth - missed, pos + |PrintItems(items)|)
      else pos <= r < pos + |PrintItems(items)|
    decreases items, 0
  {
    hide Close, Tame, At, Print, AllSpace, IsName, CloseTag;
    AtFits(str, last, tag);
    if items != [] {
      var first := items[0];
      FirstItemParts(str, pos, items);
      var elementPos := pos + |first.space|;
      SpaceIsNoBracket(first.space);
      AtIs(str, pos, first.space);
      PassText(str, tag, depth, pos, elementPos, last);
      PassElement(str, tag, depth, elementPos, first.element, last);
      var missed := Missed(first.element, tag);
      if missed < depth {
        PassItems(str, tag, depth - missed, elementPos + |Print(first.element)|, items[1..], last);
      }
    }
  }

  lemma PrintedFirst(items: seq<Child>)
    requires items != []
    ensures PrintItems(items) == items[0].space + (Print(items[0].element) + PrintItems(items[1..]))
  {
    hide Print;
  }

  lemma FirstItemParts(str: string, pos: nat, items: seq<Child>)
    requires items != [] && At(str, pos, PrintItems(items))
    ensures var space, element, rest := items[0].space, Print(items[0].element), PrintItems(items[1..]);
      && At(str, pos, space) && At(str, pos + |space|, element) && At(str, pos + |space| + |element|, rest)
      && |PrintItems(items)| == |space| + |element| + |rest|
  {
    hide Print, PrintItems, At;
    var space, element, rest := items[0].space, Print(items[0].element), PrintItems(items[1..]);
    PrintedFirst(items);
    AtConcat(str, pos, space, element + rest);
    AtConcat(str, pos + |space|, element, rest);
  }

  /**
   The closing tag found for an element is its own exactly when the search misses no start tag of
   that name inside; otherwise it is one of a descendant, further to the front.
   */
  lemma FindsOwnClosingTag(str: string, pos: nat, e: Element)
    requires Tame(e) && !e.content.Empty? && At(str, pos, Print(e))
    ensures var innerPos := pos + |StartTag(e)|;
      var r := Close(str, e.name, 1, innerPos);
      && (r == innerPos + |Inner(e)| <==> MissedInside(e, e.name) == 0)
      && innerPos <= r <= innerPos + |Inner(e)|
  {
    hide Close, StartTag, Print, Inner, At, Tame, MissedInside, IsName, EndTag, CloseTag;
    PrintParts(str, pos, e);
    NameOf(e);
    var innerPos := pos + |StartTag(e)|;
    PassInner(str, e.name, 1, innerPos, e, innerPos + |Inner(e)|);
    if MissedInside(e, e.name) == 0 {
      PassClosing(str, e.name, 1, innerPos + |Inner(e)|);
    }
  }
}
