/** What stands around the root element of a document. */
module XmlProlog {
  import opened Texts
  import opened XmlParser
  import opened XmlElements
  import opened XmlClosing
  import opened XmlTags
  import opened Wrappers

  /** White space alone, or an XML declaration and white space. */
  ghost predicate IsProlog(p: string) {
    AllSpace(p) || exists info, space :: IsDeclaration(p, info, space)
  }

  ghost predicate IsDeclaration(p: string, info: string, space: string) {
    p == "<?xml" + info + "?>" + space && '?' !in info && AllSpace(space)
  }

  /** No `<` is followed by `?`. */
  ghost predicate NoInstruction(s: string) {
    forall i | 0 <= i < |s| - 1 && s[i] == '<' :: s[i + 1] != '?'
  }

  lemma NoInstructionConcat(a: string, b: string)
    requires NoInstruction(a) && NoInstruction(b)
    requires a == "" || b == "" || a[|a| - 1] != '<' || b[0] != '?'
    ensures NoInstruction(a + b)
  {}

  /** Text without `<`, between things that do not end with one, starts no instruction. */
  lemma NoInstructionAround(a: string, text: string, b: string)
    requires NoInstruction(a) && NoInstruction(b) && '<' !in text
    requires a != "" && a[|a| - 1] == '>'
    requires b != "" && b[0] == '<'
    ensures NoInstruction(a + text + b)
  {
    NoInstructionConcat(a, text);
    NoInstructionConcat(a + text, b);
  }

  lemma StartTagHasNoInstruction(e: Element)
    requires TagWellFormed(e)
    ensures var st := StartTag(e);
      NoInstruction(st) && |st| >= 2 && st[0] == '<' && st[|st| - 1] == '>'
  {
    hide StartTag, TagWellFormed;
    NameIsThere(e);
    StartTagPieces(e);
    StartTagMarkup(e);
    NameIsNoMarkup(e);
    var st := StartTag(e);
    assert st[1] == st[1..1 + |e.name|][0];
    assert forall i | 0 < i < |st| :: st[i] == st[1..][i - 1] != '<';
  }

  lemma NameIsNoMarkup(e: Element)
    requires TagWellFormed(e)
    ensures '<' !in e.name && e.name != "" && e.name[0] != '?'
    ensures !e.content.Empty? ==> '<' !in e.endSpace
  {
    hide IsNameChar;
    NameCharsAreNoMarkup(e.name);
  }

  lemma EndTagHasNoInstruction(e: Element)
    requires TagWellFormed(e) && !e.content.Empty?
    ensures NoInstruction(EndTag(e)) && EndTag(e) != ""
    ensures EndTag(e)[0] == '<' && EndTag(e)[|EndTag(e)| - 1] == '>'
  {
    hide TagWellFormed;
    NameIsNoMarkup(e);
    var et := EndTag(e);
    assert et == "<" + ("/" + e.name + e.endSpace + ">");
    assert forall i | 0 < i < |et| :: et[i] == ("/" + e.name + e.endSpace + ">")[i - 1];
    assert et[1] == '/';
  }

  lemma PrintedAs(e: Element)
    ensures Print(e) == match e.content
      case Empty => StartTag(e)
      case Words(text) => StartTag(e) + text + EndTag(e)
      case Children(items, tail) => StartTag(e) + PrintItems(items) + tail + EndTag(e)
  {
    hide PrintItems, StartTag, CloseTag;
  }

  /** A printed element starts with `<`, ends with `>` and holds no instruction. */
  lemma {:induction false} PrintHasNoInstruction(e: Element)
    requires WellFormed(e)
    ensures NoInstruction(Print(e)) && |Print(e)| >= 2 && Print(e)[0] == '<' && Print(e)[|Print(e)| - 1] == '>'
    decreases e, 1
  {
    hide NoInstruction, StartTag, EndTag, Print, PrintItems, TagWellFormed, AllSpace;
    StartTagHasNoInstruction(e);
    PrintedAs(e);
    var st := StartTag(e);
    if !e.content.Empty? {
      EndTagHasNoInstruction(e);
    }
    match e.content {
      case Empty =>
      case Words(text) =>
        NoInstructionAround(st, text, EndTag(e));
      case Children(items, tail) =>
        ItemsHaveNoInstruction(st, items);
        SpaceIsNoBracket(tail);
        NoInstructionAround(st + PrintItems(items), tail, EndTag(e));
    }
  }

  lemma {:induction false} ItemsHaveNoInstruction(before: string, items: seq<Child>)
    requires forall i | 0 <= i < |items| :: AllSpace(items[i].space) && WellFormed(items[i].element)
    requires NoInstruction(before) && before != "" && before[|before| - 1] == '>'
    ensures NoInstruction(before + PrintItems(items))
    ensures var all := before + PrintItems(items); all != "" && all[|all| - 1] == '>'
    decreases items, 0
  {
    hide NoInstruction, Print, WellFormed;
    if items == [] {
      assert before + PrintItems(items) == before;
    } else {
      var space, printed := items[0].space, Print(items[0].element);
      PrintHasNoInstruction(items[0].element);
      SpaceIsNoBracket(space);
      NoInstructionAround(before, space, printed);
      ItemsHaveNoInstruction(before + space + printed, items[1..]);
      ItemsAfter(before, items);
    }
  }

  lemma ItemsAfter(before: string, items: seq<Child>)
    requires items != []
    ensures before + PrintItems(items) == before + items[0].space + Print(items[0].element) + PrintItems(items[1..])
  {
    hide Print, PrintItems;
    PrintedFirst(items);
  }

  lemma NoDeclarationHere(s: string, at: nat)
    requires NoInstruction(s)
    ensures !At(s, at, "<?xml")
  {
    var p := "<?xml";
    assert p[0] == '<' && p[1] == '?';
    CharsIfAt(s, at, p);
  }

  lemma {:induction false} NothingToStrip(s: string, at: nat)
    requires NoInstruction(s) && at <= |s|
    ensures StripDeclaration(s, at) == s
    decreases |s| - at
  {
    NoDeclarationHere(s, at);
    if at < |s| {
      NothingToStrip(s, at + 1);
    }
  }

  lemma DeclarationIsStripped(p: string, info: string, space: string, rest: string)
    requires IsDeclaration(p, info, space) && rest != "" && !IsSpace(rest[0])
    ensures StripDeclaration(p + rest, 0) == rest
  {
    hide IsSpace, StripDeclaration;
    var xml := p + rest;
    DeclarationMatches(xml, info, space, rest);
    assert DeclarationEnd(xml, 0) == Some(|p|);
    StripsHere(xml);
    assert xml[..0] + xml[|p|..] == rest;
  }

  lemma StripsHere(xml: string)
    requires DeclarationEnd(xml, 0).Some? && DeclarationEnd(xml, 0).value <= |xml|
    ensures StripDeclaration(xml, 0) == xml[..0] + xml[DeclarationEnd(xml, 0).value..]
  {}

  lemma DeclarationMatches(xml: string, info: string, space: string, rest: string)
    requires xml == "<?xml" + info + "?>" + space + rest && '?' !in info && AllSpace(space)
    requires rest != "" && !IsSpace(rest[0])
    ensures var question := 5 + |info|;
      && At(xml, 0, "<?xml") && At(xml, question, "?>") && IndexOf(xml, "?", 5) == question
      && SkipSpace(xml, question + 2) == question + 2 + |space|
  {
    hide IsSpace, SkipSpace;
    var question := 5 + |info|;
    assert xml[0..5] == "<?xml";
    assert xml[5..question] == info;
    assert xml[question..question + 2] == "?>";
    assert xml[question..question + 1] == "?";
    forall k | 5 <= k < question
      ensures !At(xml, k, "?")
    {
      assert xml[k] == xml[5..question][k - 5];
    }
    FirstIndex(xml, "?", 5, question);
    var end := question + 2 + |space|;
    assert xml[question + 2..end] == space;
    forall k | question + 2 <= k < end
      ensures IsSpace(xml[k])
    {
      assert xml[k] == xml[question + 2..end][k - question - 2];
    }
    assert xml[end] == rest[0];
    SpaceEndsAt(xml, question + 2, end);
  }

  lemma TrimEndDrops(s: string, space: string)
    requires AllSpace(space) && s != "" && !IsSpace(s[|s| - 1])
    ensures TrimEnd(s + space) == s
  {
    var r := TrimEnd(s + space);
    assert (s + space)[|s| - 1] == s[|s| - 1];
    assert |r| >= |s|;
    assert forall k | |s| <= k < |s| + |space| :: (s + space)[k] == space[k - |s|];
    assert (s + space)[..|s|] == s;
  }

  lemma TrimDrops(before: string, s: string, after: string)
    requires AllSpace(before) && AllSpace(after) && s != "" && !IsSpace(s[0]) && !IsSpace(s[|s| - 1])
    ensures Trim(before + s + after) == s
  {
    hide IsSpace, TrimEnd;
    var all := before + s + after;
    assert all[|before|] == s[0];
    assert forall k | 0 <= k < |before| :: all[k] == before[k];
    SpaceEndsAt(all, 0, |before|);
    assert all[|before|..] == s + after;
    TrimEndDrops(s, after);
  }

  /** Around a printed element the parser drops the declaration and the white space. */
  lemma Unwraps(prolog: string, e: Element, trailing: string)
    requires WellFormed(e) && IsProlog(prolog) && AllSpace(trailing)
    ensures Trim(StripDeclaration(prolog + Print(e) + trailing, 0)) == Print(e)
  {
    hide WellFormed, Print, StripDeclaration, NoInstruction, Trim, IsSpace, AllSpace;
    PrintHasNoInstruction(e);
    BracketsAreNoSpace();
    var body := Print(e) + trailing;
    assert prolog + Print(e) + trailing == prolog + body;
    NoSpaceAround();
    if AllSpace(prolog) {
      SpaceIsNoBracket(prolog);
      SpaceIsNoBracket(trailing);
      SpaceAround(prolog, Print(e), trailing);
      NothingToStrip(prolog + body, 0);
      TrimDrops(prolog, Print(e), trailing);
    } else {
      var info, space :| IsDeclaration(prolog, info, space);
      DeclarationIsStripped(prolog, info, space, body);
      assert "" + Print(e) + trailing == body;
      TrimDrops("", Print(e), trailing);
    }
  }

  /** With nothing around it the element is the whole text. */
  lemma NothingAround(e: Element)
    requires WellFormed(e)
    ensures Trim(StripDeclaration(Print(e), 0)) == Print(e)
  {
    hide WellFormed, Print, StripDeclaration, Trim;
    Unwraps("", e, "");
    assert "" + Print(e) + "" == Print(e);
  }

  lemma BracketsAreNoSpace()
    ensures !IsSpace('<') && !IsSpace('>')
  {}

  lemma NoSpaceAround()
    ensures AllSpace("")
  {}

  lemma SpaceAround(before: string, s: string, after: string)
    requires NoInstruction(s) && '<' !in before && '<' !in after && s != "" && s[|s| - 1] != '<'
    ensures NoInstruction(before + (s + after))
  {
    NoInstructionConcat(s, after);
    NoInstructionConcat(before, s + after);
  }

  lemma AtStart(s: string)
    ensures At(s, 0, s)
  {
    assert s[0..|s|] == s;
  }
}
