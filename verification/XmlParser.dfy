/** The response parser: packages/core/src/aws/cloudformation.ts. */
module XmlParser {
  import opened Texts
  import opened Prototypes
  import opened Wrappers

  /** A value is a string or an object; `Inherited` is what a lookup finds on `Object.prototype`. */
  datatype Value = Text(s: string) | Node(fields: map<string, Slot>) | Inherited(name: string)

  /** A field holds one value or an array of them. */
  datatype Slot = One(value: Value) | Many(values: seq<Value>)

  /** No value is the source's `undefined`. */
  datatype Parsed = Parsed(value: Option<Value>, end: nat)

  function CloseTag(tag: string): string {
    "</" + tag + ">"
  }

  function OpenPattern(tag: string): string {
    "<" + tag
  }

  /** What may follow a tag name for the search to take it for the whole name. */
  predicate EndsName(c: char) {
    c == '>' || c == ' ' || c == '/'
  }

  /** Between the start of an opening tag and the end of a later closing tag there is a `>`. */
  lemma TagHasAnEnd(str: string, open: nat, close: nat, tag: string)
    requires open < close && At(str, close, CloseTag(tag)) && At(str, open, OpenPattern(tag))
    ensures open < IndexOf(str, ">", open) < close + |CloseTag(tag)| <= |str| && open + |OpenPattern(tag)| < |str|
  {
    AtChars(str, close, CloseTag(tag));
    AtChars(str, open, OpenPattern(tag));
    var k := close + |CloseTag(tag)| - 1;
    assert str[k] == CloseTag(tag)[|CloseTag(tag)| - 1] == '>';
    assert At(str, k, ">") && str[open] == '<';
    NothingEarlier(str, ">", open, k);
  }

  /** One turn of the closing-tag search: it ends, or goes on with a depth and a position. */
  datatype Turn = Ends(at: int) | GoesOn(depth: nat, pos: nat)

  /** What a turn does with the places of the next opening and the next closing. */
  function Next(str: string, tag: string, depth: nat, nextOpen: int, nextClose: int): (t: Turn)
    requires depth > 0
    requires nextOpen == -1 || (0 <= nextOpen && At(str, nextOpen, OpenPattern(tag)))
    requires nextClose == -1 || (0 <= nextClose && At(str, nextClose, CloseTag(tag)))
    ensures t.Ends? ==> t.at == -1 || t.at == nextClose
    ensures t.GoesOn? ==> t.depth > 0 && nextClose != -1
    ensures t.GoesOn? ==> t.pos > if nextOpen != -1 && nextOpen < nextClose then nextOpen else nextClose
  {
    if nextClose == -1 then Ends(-1)
    else if nextOpen != -1 && nextOpen < nextClose then
      TagHasAnEnd(str, nextOpen, nextClose, tag);
      var afterTag := nextOpen + |OpenPattern(tag)|;
      if EndsName(str[afterTag]) then
        var tagEnd := IndexOf(str, ">", nextOpen);
        GoesOn(if str[tagEnd - 1] == '/' then depth else depth + 1, tagEnd + 1)
      else GoesOn(depth, afterTag)
    else if depth == 1 then Ends(nextClose)
    else GoesOn(depth - 1, nextClose + |CloseTag(tag)|)
  }

  /** Where the search ends that has `depth` unclosed openings behind it and goes on at `pos`. */
  function Close(str: string, tag: string, depth: nat, pos: nat): (r: int)
    requires depth > 0
    ensures r == -1 || (pos <= r && At(str, r, CloseTag(tag)))
    decreases |str| - pos
  {
    if pos >= |str| then -1
    else
      match Next(str, tag, depth, IndexOf(str, OpenPattern(tag), pos), IndexOf(str, CloseTag(tag), pos))
      case Ends(r) => r
      case GoesOn(d, p) => Close(str, tag, d, p)
  }

  lemma CloseTurn(str: string, tag: string, depth: nat, pos: nat)
    requires depth > 0 && pos < |str|
    ensures Close(str, tag, depth, pos) ==
      match Next(str, tag, depth, IndexOf(str, OpenPattern(tag), pos), IndexOf(str, CloseTag(tag), pos))
      case Ends(r) => r
      case GoesOn(d, p) => Close(str, tag, d, p)
  {}

  /** The closing tag that belongs to an element whose content starts at `startPos`, or -1. */
  method FindMatchingClose(str: string, tagName: string, startPos: nat) returns (r: int)
    ensures r == Close(str, tagName, 1, startPos)
  {
    hide IndexOf, At, OpenPattern, CloseTag, EndsName, Close;
    var depth: nat := 1;
    var pos := startPos;
    var openPattern, closeTag := OpenPattern(tagName), CloseTag(tagName);
    while pos < |str| && depth > 0
      invariant depth > 0
      invariant Close(str, tagName, depth, pos) == Close(str, tagName, 1, startPos)
      decreases |str| - pos
    {
      var nextOpen := IndexOf(str, openPattern, pos);
      var nextClose := IndexOf(str, closeTag, pos);
      CloseTurn(str, tagName, depth, pos);
      if nextClose == -1 {
        return -1;
      }
      if nextOpen != -1 && nextOpen < nextClose {
        TagHasAnEnd(str, nextOpen, nextClose, tagName);
        if EndsName(str[nextOpen + |openPattern|]) {
          var tagEnd := IndexOf(str, ">", nextOpen);
          if tagEnd != -1 && str[tagEnd - 1] == '/' {
            pos := tagEnd + 1;
          } else {
            depth := depth + 1;
            pos := tagEnd + 1;
          }
        } else {
          pos := nextOpen + |openPattern|;
        }
      } else {
        if depth == 1 {
          return nextClose;
        }
        depth := depth - 1;
        pos := nextClose + |closeTag|;
      }
    }
    NothingToClose(str, tagName, depth, pos);
    r := -1;
  }

  lemma NothingToClose(str: string, tag: string, depth: nat, pos: nat)
    requires depth > 0 && pos >= |str|
    ensures Close(str, tag, depth, pos) == -1
  {}

  /** What reading `children[name]` finds. */
  function Lookup(children: map<string, Slot>, name: string): Option<Slot> {
    if name in children then Some(children[name])
    else if name in INHERITED_NAMES then Some(One(Inherited(name)))
    else None
  }

  /** `member` and repeated names become arrays, other names single fields. */
  function AddChild(children: map<string, Slot>, name: string, v: Value): map<string, Slot> {
    var existing := Lookup(children, name);
    if name == "member" || existing.Some? then
      var earlier :=
        if existing.None? then [] else if existing.value.Many? then existing.value.values else [existing.value.value];
      children[name := Many(earlier + [v])]
    else children[name := One(v)]
  }

  /** What is found at a place where an element, a text or a closing tag may start. */
  function ParseElement(str: string, start: nat): (r: Parsed)
    requires start <= |str|
    ensures start <= r.end <= |str|
    ensures r.value.Some? && start < |str| && str[start] == '<' ==> start < r.end
    decreases |str| - start, 0
  {
    var pos := SkipSpace(str, start);
    if pos >= |str| || str[pos] != '<' then
      var textEnd := IndexOf(str, "<", pos);
      if textEnd == -1 then Parsed(Some(Text(Trim(str[pos..]))), |str|)
      else Parsed(Some(Text(Trim(str[pos..textEnd]))), textEnd)
    else if pos + 1 < |str| && str[pos + 1] == '/' then Parsed(None, pos)
    else
      var nameEnd := WordEnd(str, pos + 1);
      var tagEnd := IndexOf(str, ">", nameEnd);
      if nameEnd == pos + 1 || tagEnd == -1 then Parsed(None, pos + 1)
      else if str[tagEnd - 1] == '/' then Parsed(Some(Text("")), tagEnd + 1)
      else
        var tagName := str[pos + 1..nameEnd];
        var closingIdx := Close(str, tagName, 1, tagEnd + 1);
        if closingIdx == -1 then Parsed(None, tagEnd + 1)
        else
          var innerContent := Trim(str[tagEnd + 1..closingIdx]);
          Parsed(
            Some(if '<' !in innerContent then Text(innerContent)
                 else Node(ParseChildren(str, tagEnd + 1, closingIdx, map[]))),
            closingIdx + |CloseTag(tagName)|)
  }

  /** Where the next child starts and where its name ends, if one starts before the closing tag. */
  function NextChild(str: string, start: nat, closingIdx: nat): (r: Option<(nat, nat)>)
    requires start <= |str| && closingIdx < |str|
    ensures r.Some? ==>
      && start <= r.value.0 < r.value.1 - 1 && r.value.0 < closingIdx && r.value.1 <= |str| && str[r.value.0] == '<'
  {
    var childPos := SkipSpace(str, start);
    if childPos >= closingIdx then None
    else if str[childPos] != '<' || str[childPos + 1] == '/' then None
    else
      var nameEnd := WordEnd(str, childPos + 1);
      if nameEnd == childPos + 1 then None else Some((childPos, nameEnd))
  }

  /** The children found from `start` on, up to the closing tag at `closingIdx`, added to those there are. */
  function ParseChildren(str: string, start: nat, closingIdx: nat, children: map<string, Slot>): map<string, Slot>
    requires start <= |str| && closingIdx < |str|
    decreases |str| - start, 1
  {
    match NextChild(str, start, closingIdx)
    case None => children
    case Some((childPos, nameEnd)) =>
      var result := ParseElement(str, childPos);
      if result.value.None? then ParseChildren(str, childPos + 1, closingIdx, children)
      else
        ParseChildren(str, result.end, closingIdx, AddChild(children, str[childPos + 1..nameEnd], result.value.value))
  }

  lemma ChildrenTurn(str: string, start: nat, closingIdx: nat, children: map<string, Slot>)
    requires start <= |str| && closingIdx < |str|
    ensures ParseChildren(str, start, closingIdx, children) ==
      match NextChild(str, start, closingIdx)
      case None => children
      case Some((childPos, nameEnd)) =>
        var result := ParseElement(str, childPos);
        if result.value.None? then ParseChildren(str, childPos + 1, closingIdx, children)
        else
          ParseChildren(str, result.end, closingIdx, AddChild(children, str[childPos + 1..nameEnd], result.value.value))
  {
    hide ParseElement, NextChild, AddChild;
  }

  /** The loop over child positions, with the recursion into each child. */
  method ParseElementInPlace(str: string, start: nat) returns (r: Parsed)
    requires start <= |str|
    ensures r == ParseElement(str, start)
    decreases |str| - start, 0
  {
    hide IndexOf, WordEnd, Trim, Close, AddChild, IsSpace, SkipSpace, IsWord, ParseChildren;
    var pos := SkipSpaceInPlace(str, start, |str|);
    if pos >= |str| || str[pos] != '<' {
      var textEnd := IndexOf(str, "<", pos);
      if textEnd == -1 {
        return Parsed(Some(Text(Trim(str[pos..]))), |str|);
      }
      return Parsed(Some(Text(Trim(str[pos..textEnd]))), textEnd);
    }
    if pos + 1 < |str| && str[pos + 1] == '/' {
      return Parsed(None, pos);
    }
    var nameEnd := WordEnd(str, pos + 1);
    var tagEnd := IndexOf(str, ">", nameEnd);
    if nameEnd == pos + 1 || tagEnd == -1 {
      return Parsed(None, pos + 1);
    }
    var tagName := str[pos + 1..nameEnd];
    if str[tagEnd - 1] == '/' {
      return Parsed(Some(Text("")), tagEnd + 1);
    }
    var innerPos := tagEnd + 1;
    var closingIdx := FindMatchingClose(str, tagName, innerPos);
    if closingIdx == -1 {
      return Parsed(None, innerPos);
    }
    var innerContent := Trim(str[innerPos..closingIdx]);
    if '<' !in innerContent {
      return Parsed(Some(Text(innerContent)), closingIdx + |CloseTag(tagName)|);
    }
    var children := ParseChildrenInPlace(str, innerPos, closingIdx);
    r := Parsed(Some(Node(children)), closingIdx + |CloseTag(tagName)|);
  }

  /** The loop over child positions. */
  method ParseChildrenInPlace(str: string, innerPos: nat, closingIdx: nat) returns (children: map<string, Slot>)
    requires innerPos <= |str| && closingIdx < |str|
    ensures children == ParseChildren(str, innerPos, closingIdx, map[])
    decreases |str| - innerPos, 1
  {
    hide IndexOf, WordEnd, AddChild, IsSpace, IsWord, ParseElement, ParseChildren, SkipSpace;
    children := map[];
    var childPos := innerPos;
    while childPos < closingIdx
      invariant innerPos <= childPos <= |str|
      invariant ParseChildren(str, childPos, closingIdx, children) == ParseChildren(str, innerPos, closingIdx, map[])
      decreases |str| - childPos
    {
      ChildrenTurn(str, childPos, closingIdx, children);
      childPos := SkipSpaceInPlace(str, childPos, closingIdx);
      if childPos >= closingIdx {
        break;
      }
      if str[childPos] != '<' || str[childPos + 1] == '/' {
        break;
      }
      var childNameEnd := WordEnd(str, childPos + 1);
      if childNameEnd == childPos + 1 {
        break;
      }
      var childName := str[childPos + 1..childNameEnd];
      var result := ParseElementInPlace(str, childPos);
      if result.value.None? {
        childPos := childPos + 1;
        continue;
      }
      children := AddChild(children, childName, result.value.value);
      childPos := result.end;
    }
    if childPos >= closingIdx {
      ChildrenTurn(str, childPos, closingIdx, children);
    }
  }

  /** Skips spaces, but no further than `limit`. */
  method SkipSpaceInPlace(str: string, start: nat, limit: nat) returns (pos: nat)
    requires start <= limit <= |str|
    ensures pos == if SkipSpace(str, start) <= limit then SkipSpace(str, start) else limit
  {
    pos := start;
    while pos < limit && IsSpace(str[pos])
      invariant start <= pos <= limit && SkipSpace(str, pos) == SkipSpace(str, start)
    {
      pos := pos + 1;
    }
  }

  /** Whether the XML declaration pattern matches at `at`, and where the match ends. */
  function DeclarationEnd(xml: string, at: nat): Option<nat> {
    if !At(xml, at, "<?xml") then None
    else
      var question := IndexOf(xml, "?", at + 5);
      if question == -1 || !At(xml, question, "?>") then None
      else Some(SkipSpace(xml, question + 2))
  }

  /** Drops the first declaration, wherever it stands. */
  function StripDeclaration(xml: string, at: nat): string
    requires at <= |xml|
    decreases |xml| - at
  {
    var end := DeclarationEnd(xml, at);
    if end.Some? && end.value <= |xml| then
      xml[..at] + xml[end.value..]
    else if at == |xml| then xml
    else StripDeclaration(xml, at + 1)
  }

  /** The whole parser: no value and the empty text give the empty object. */
  method ParseCloudFormationXML(xml: string) returns (v: Value)
    ensures v == Document(xml)
  {
    var trimmed := Trim(StripDeclaration(xml, 0));
    var result := ParseElementInPlace(trimmed, 0);
    v := if result.value.None? || result.value.value == Text("") then Node(map[]) else result.value.value;
  }

  function Document(xml: string): Value {
    var value := ParseElement(Trim(StripDeclaration(xml, 0)), 0).value;
    if value.None? || value.value == Text("") then Node(map[]) else value.value
  }
}
