/** What the parser makes of the tags of one element, whatever these hold. */
module XmlTags {
  import opened Texts
  import opened XmlParser
  import opened XmlElements
  import opened XmlClosing
  import opened Wrappers

  /** The part of a name that is read: the word it begins with. */
  function AsRead(name: string): string {
    name[..WordEnd(name, 0)]
  }

  lemma AsReadIsAWord(name: string)
    requires name != ""
    ensures forall i | 0 <= i < |AsRead(name)| :: IsWord(AsRead(name)[i])
    ensures AsRead(name) != "" <==> IsWord(name[0])
    ensures AsRead(name) == name <==> IsName(name)
    ensures AsRead(name) != name ==> |AsRead(name)| < |name| && !IsWord(name[|AsRead(name)|])
  {
    var end := WordEnd(name, 0);
    if IsName(name) {
      WordEndsAt(name, 0, |name|);
    } else {
      assert end < |name|;
    }
  }

  /** The pieces of a start tag. */
  lemma StartTagPieces(e: Element)
    requires TagWellFormed(e)
    ensures var st, last := StartTag(e), |StartTag(e)| - 1;
      && 1 + |e.name| + |e.attributes| <= last && st[0] == '<' && st[last] == '>'
      && st[1..1 + |e.name|] == e.name && st[1 + |e.name|..1 + |e.name| + |e.attributes|] == e.attributes
      && (forall k | 1 + |e.name| + |e.attributes| <= k < last :: st[k] == '/')
      && !IsWord(st[1 + |e.name|]) && (st[last - 1] == '/' <==> e.content.Empty?)
  {
    hide IsNameChar;
    var st := StartTag(e);
    var end := if e.content.Empty? then "/>" else ">";
    assert st == "<" + e.name + e.attributes + end;
    NameCharsAreNoMarkup(e.name);
    assert st[1 + |e.name|] == if e.attributes == "" then end[0] else e.attributes[0];
    if !e.content.Empty? {
      assert st[|st| - 2] == if e.attributes == "" then e.name[|e.name| - 1] else e.attributes[|e.attributes| - 1];
    }
  }

  /** No `<` in a start tag but the first character; no `>` but the last, except in attributes. */
  lemma StartTagMarkup(e: Element)
    requires TagWellFormed(e)
    ensures var st, last := StartTag(e), |StartTag(e)| - 1;
      && '<' !in st[1..]
      && ('>' !in e.attributes ==> '>' !in st[..last])
  {
    hide IsNameChar;
    var st := StartTag(e);
    var end := if e.content.Empty? then "/>" else ">";
    NameCharsAreNoMarkup(e.name);
    assert st[1..] == e.name + e.attributes + end;
    assert st[..|st| - 1] == "<" + e.name + e.attributes + end[..|end| - 1];
  }

  /** The name as it is read where the tag stands. */
  lemma TagStart(str: string, pos: nat, e: Element)
    requires TagWellFormed(e) && At(str, pos, StartTag(e))
    ensures var w := AsRead(e.name); var nameEnd := pos + 1 + |w|;
      && nameEnd < pos + |StartTag(e)| <= |str|
      && SkipSpace(str, pos) == pos && str[pos] == '<' && str[pos + 1] == e.name[0] != '/'
      && WordEnd(str, pos + 1) == nameEnd && str[pos + 1..nameEnd] == w
  {
    hide IsNameChar, StartTag, IsWord, WordEnd;
    var st, w := StartTag(e), AsRead(e.name);
    StartTagPieces(e);
    AtChars(str, pos, st);
    NameCharsAreNoMarkup(e.name);
    AsReadIsAWord(e.name);
    assert forall k | 0 <= k < |e.name| :: st[1 + k] == st[1..1 + |e.name|][k] == e.name[k];
    assert str[pos + 0] == st[0] && str[pos + 1] == st[1 + 0];
    assert str[pos + 1..pos + 1 + |w|] == w;
    forall k | pos + 1 <= k < pos + 1 + |w|
      ensures IsWord(str[k])
    {
      assert str[k] == w[k - pos - 1];
    }
    assert str[pos + (1 + |w|)] == st[1 + |w|];
    assert !IsWord(st[1 + |w|]) by {
      if |w| < |e.name| {
        assert st[1 + |w|] == e.name[|w|];
      }
    }
    WordEndsAt(str, pos + 1, pos + 1 + |w|);
    assert !IsSpace('<') by { BracketIsNoSpace(); }
    SpaceEndsAt(str, pos, pos);
  }

  /** The end of a start tag where it stands. */
  lemma TagLast(str: string, pos: nat, e: Element)
    requires TagWellFormed(e) && At(str, pos, StartTag(e))
    ensures var last := pos + |StartTag(e)| - 1;
      && pos < last < |str| && At(str, last, ">") && str[last] == '>'
      && (str[last - 1] == '/' <==> e.content.Empty?)
      && '<' !in str[pos + 1..last + 1]
  {
    hide StartTag, TagWellFormed;
    var st := StartTag(e);
    StartTagPieces(e);
    StartTagMarkup(e);
    AtChars(str, pos, st);
    assert str[pos + (|st| - 1)] == st[|st| - 1] && str[pos + (|st| - 2)] == st[|st| - 2];
    assert str[pos + 1..pos + |st|] == st[1..];
  }

  /** A `>` in the attributes stands before that. */
  lemma BracketInside(str: string, pos: nat, e: Element) returns (at: nat)
    requires TagWellFormed(e) && At(str, pos, StartTag(e)) && '>' in e.attributes
    ensures pos + 1 + |e.name| <= at < pos + |StartTag(e)| - 1 && At(str, at, ">")
  {
    hide StartTag, TagWellFormed;
    var st := StartTag(e);
    StartTagPieces(e);
    AtChars(str, pos, st);
    var i :| 0 <= i < |e.attributes| && e.attributes[i] == '>';
    var k := 1 + |e.name| + i;
    assert st[k] == st[1 + |e.name|..1 + |e.name| + |e.attributes|][i];
    at := pos + k;
    assert str[pos + k] == st[k] == '>';
  }

  lemma NoBracketInside(str: string, pos: nat, e: Element, from: nat)
    requires TagWellFormed(e) && At(str, pos, StartTag(e)) && '>' !in e.attributes
    requires pos <= from <= pos + |StartTag(e)| - 1
    ensures '>' !in str[from..pos + |StartTag(e)| - 1]
  {
    hide TagWellFormed;
    var st := StartTag(e);
    StartTagMarkup(e);
    AtChars(str, pos, st);
    assert str[from..pos + |st| - 1] == st[..|st| - 1][from - pos..];
  }

  /** The tag ends at the first `>`: its own one, if the attributes hold none. */
  lemma TagEnd(str: string, pos: nat, e: Element)
    requires TagWellFormed(e) && At(str, pos, StartTag(e))
    ensures var nameEnd, last := pos + 1 + |AsRead(e.name)|, pos + |StartTag(e)| - 1;
      var tagEnd := IndexOf(str, ">", nameEnd);
      && nameEnd <= tagEnd <= last < |str| && str[last] == '>'
      && (tagEnd == last <==> '>' !in e.attributes)
      && (str[last - 1] == '/' <==> e.content.Empty?)
      && '<' !in str[pos + 1..last + 1]
  {
    hide StartTag, TagWellFormed, IndexOf, At, AsRead;
    var nameEnd, last := pos + 1 + |AsRead(e.name)|, pos + |StartTag(e)| - 1;
    NameIsThere(e);
    AsReadIsAWord(e.name);
    TagStart(str, pos, e);
    TagLast(str, pos, e);
    NothingEarlier(str, ">", nameEnd, last);
    if '>' in e.attributes {
      var at := BracketInside(str, pos, e);
      NothingEarlier(str, ">", nameEnd, at);
    } else {
      NoBracketInside(str, pos, e, nameEnd);
      TagEndsAt(str, nameEnd, last);
    }
  }

  /** One level of the parser at a start tag. */
  lemma ParseStep(str: string, pos: nat, e: Element)
    requires TagWellFormed(e) && At(str, pos, StartTag(e))
    ensures pos <= |str|
    ensures !IsWord(e.name[0]) ==> ParseElement(str, pos) == Parsed(None, pos + 1)
    ensures IsWord(e.name[0]) ==>
      var w := AsRead(e.name);
      var tagEnd := IndexOf(str, ">", pos + 1 + |w|);
      var closing := Close(str, w, 1, tagEnd + 1);
      && 0 < tagEnd < |str| && pos + 1 + |w| <= tagEnd
      && ParseElement(str, pos) ==
           if str[tagEnd - 1] == '/' then Parsed(Some(Text("")), tagEnd + 1)
           else if closing == -1 then Parsed(None, tagEnd + 1)
           else
             var inner := Trim(str[tagEnd + 1..closing]);
             Parsed(Some(if '<' !in inner then Text(inner) else Node(ParseChildren(str, tagEnd + 1, closing, map[]))),
                    closing + |CloseTag(w)|)
  {
    hide Close, StartTag, IndexOf, WordEnd, SkipSpace, ParseChildren, Trim, IsWord, IsNameChar, TagWellFormed;
    hide At, CloseTag;
    NameIsThere(e);
    AsReadIsAWord(e.name);
    TagStart(str, pos, e);
    TagEnd(str, pos, e);
  }

  lemma NameIsThere(e: Element)
    requires TagWellFormed(e)
    ensures e.name != ""
  {}

  /** White space is no part of a word. */
  lemma SpaceIsNoWord(c: char)
    requires IsSpace(c)
    ensures !IsWord(c)
  {}

  /**
   An element that is read up to its own end by way of a closing tag has a word for its name and no
   white space in the end tag.
   */
  lemma ReadToItsEnd(str: string, pos: nat, e: Element, closing: nat)
    requires TagWellFormed(e) && !e.content.Empty? && IsWord(e.name[0]) && At(str, pos, Print(e))
    requires At(str, closing, CloseTag(AsRead(e.name))) && closing + |CloseTag(AsRead(e.name))| == pos + |Print(e)|
    ensures IsName(e.name) && e.endSpace == "" && closing == pos + |StartTag(e)| + |Inner(e)|
  {
    hide IsWord, IsSpace, IsNameChar, Print, StartTag, Inner, At;
    var w, et := AsRead(e.name), EndTag(e);
    AsReadIsAWord(e.name);
    PrintParts(str, pos, e);
    var p := pos + |StartTag(e)| + |Inner(e)|;
    AtIs(str, p, et);
    AtChars(str, p, et);
    AtChars(str, closing, CloseTag(w));
    CloseTagShape(w);
    assert str[closing + (1 + |w|)] == w[|w| - 1];
    assert str[p + (|et| - 2)] == if e.endSpace == "" then e.name[|e.name| - 1] else e.endSpace[|e.endSpace| - 1];
    if e.endSpace != "" {
      SpaceIsNoWord(e.endSpace[|e.endSpace| - 1]);
      assert false;
    }
    EndTagMarkup(e);
    assert str[closing + 0] == '<';
    assert closing >= p && str[p + (closing - p)] == et[closing - p];
    assert closing == p;
  }

  lemma CloseTagShape(tag: string)
    requires tag != ""
    ensures |CloseTag(tag)| == 3 + |tag| && CloseTag(tag)[0] == '<' && CloseTag(tag)[1 + |tag|] == tag[|tag| - 1]
  {}

  lemma EndTagMarkup(e: Element)
    requires TagWellFormed(e) && !e.content.Empty? && e.endSpace == ""
    ensures |EndTag(e)| == 3 + |e.name|
    ensures forall k | 0 < k < |EndTag(e)| :: EndTag(e)[k] != '<'
  {
    hide IsNameChar;
    NameCharsAreNoMarkup(e.name);
    assert EndTag(e) == "</" + e.name + ">";
  }
}
