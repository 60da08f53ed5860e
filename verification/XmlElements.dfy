/** Element trees and their printed form. */
module XmlElements {
  import opened Texts
  import opened XmlParser

  /**
   `attributes` is everything between the name and the end of the start tag, `endSpace` the white
   space in the end tag behind the name.
   */
  datatype Element = Element(name: string, attributes: string, content: Content, endSpace: string := "")

  datatype Content = Empty | Words(text: string) | Children(items: seq<Child>, tail: string)

  /** A child with the white space in front of it. */
  datatype Child = Child(space: string, element: Element)

  function Print(e: Element): string
    decreases e, 1
  {
    StartTag(e) + match e.content
    case Empty => ""
    case Words(text) => text + EndTag(e)
    case Children(items, tail) => PrintItems(items) + tail + EndTag(e)
  }

  function PrintItems(items: seq<Child>): string
    decreases items, 0
  {
    if items == [] then "" else items[0].space + Print(items[0].element) + PrintItems(items[1..])
  }

  function StartTag(e: Element): string {
    "<" + e.name + e.attributes + (if e.content.Empty? then "/>" else ">")
  }

  function EndTag(e: Element): string {
    "</" + e.name + e.endSpace + ">"
  }

  function Inner(e: Element): string {
    match e.content
    case Empty => ""
    case Words(text) => text
    case Children(items, tail) => PrintItems(items) + tail
  }

  predicate Plain(s: string) {
    '<' !in s && '>' !in s
  }

  predicate AllSpace(s: string) {
    forall i | 0 <= i < |s| :: IsSpace(s[i])
  }

  predicate IsName(s: string) {
    s != "" && forall i | 0 <= i < |s| :: IsWord(s[i])
  }

  /** A character of a name, production 4a of section 2.3. */
  predicate IsNameChar(c: char) {
    || IsWord(c) || c == ':' || c == '-' || c == '.' || c == '\U{00B7}'
    || '\U{00C0}' <= c <= '\U{00D6}' || '\U{00D8}' <= c <= '\U{00F6}' || '\U{00F8}' <= c <= '\U{037D}'
    || '\U{037F}' <= c <= '\U{1FFF}' || '\U{200C}' <= c <= '\U{200D}' || '\U{203F}' <= c <= '\U{2040}'
    || '\U{2070}' <= c <= '\U{218F}' || '\U{2C00}' <= c <= '\U{2FEF}' || '\U{3001}' <= c <= '\U{D7FF}'
    || '\U{F900}' <= c <= '\U{FDCF}' || '\U{FDF0}' <= c <= '\U{FFFD}' || '\U{10000}' <= c <= '\U{EFFFF}'
  }

  predicate IsXmlName(s: string) {
    s != "" && forall i | 0 <= i < |s| :: IsNameChar(s[i])
  }

  /**
   The tags of one element: any name, attributes that are set off by white space and hold no `<`, white
   space in the end tag; the start tag of an element with content does not end like an empty one.
   */
  predicate TagWellFormed(e: Element) {
    && IsXmlName(e.name)
    && '<' !in e.attributes && (e.attributes == "" || IsSpace(e.attributes[0]))
    && (e.content.Empty?
        || (AllSpace(e.endSpace) && (e.attributes == "" || e.attributes[|e.attributes| - 1] != '/')))
  }

  /** Content is text alone or elements alone. That is all XML allows of such content, and more. */
  ghost predicate WellFormed(e: Element) {
    && TagWellFormed(e)
    && match e.content
       case Empty => true
       case Words(text) => '<' !in text
       case Children(items, tail) =>
         && items != [] && AllSpace(tail)
         && forall i | 0 <= i < |items| :: AllSpace(items[i].space) && WellFormed(items[i].element)
  }

  /** Moreover the name is a word, the attributes hold no `>`, the end tag no white space. */
  predicate TagTame(e: Element) {
    && IsName(e.name)
    && Plain(e.attributes) && (e.attributes == "" || IsSpace(e.attributes[0]))
    && (e.content.Empty? || (e.endSpace == "" && (e.attributes == "" || e.attributes[|e.attributes| - 1] != '/')))
  }

  /** All tags are like that, and content is as in `WellFormed`. */
  ghost predicate Tame(e: Element) {
    && TagTame(e)
    && match e.content
       case Empty => true
       case Words(text) => '<' !in text
       case Children(items, tail) =>
         && items != [] && AllSpace(tail)
         && forall i | 0 <= i < |items| :: AllSpace(items[i].space) && Tame(items[i].element)
  }

  lemma {:induction false} TameIsWellFormed(e: Element)
    requires Tame(e)
    ensures WellFormed(e)
  {
    if e.content.Children? {
      forall i | 0 <= i < |e.content.items|
        ensures WellFormed(e.content.items[i].element)
      {
        TameIsWellFormed(e.content.items[i].element);
      }
    }
  }

  lemma NameCharsAreNoMarkup(s: string)
    requires IsXmlName(s)
    ensures '<' !in s && '>' !in s && '/' !in s && '?' !in s
  {}
}
