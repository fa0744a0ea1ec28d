/**
 * The abstract XML tree that stands in for `xml.etree.ElementTree`: an
 * element has a tag, an attribute map, optional text and ordered children.
 * Parsing bytes is not modelled; a received datagram is either a parsed tree
 * or `Malformed` (the ParseError/UnicodeDecodeError path).
 */
module Xml {
  import opened Wrappers

  type Attrs = map<string, string>

  datatype Element = Element(tag: string, attrs: Attrs, text: Option<string>, children: seq<Element>)

  datatype Document = Parsed(root: Element) | Malformed

  /** `element.get(key, default)`. */
  function Attr(e: Element, key: string, default: string): string {
    if key in e.attrs then e.attrs[key] else default
  }

  /** A leaf element carrying only attributes. */
  function Leaf(tag: string, attrs: Attrs): Element {
    Element(tag, attrs, None, [])
  }

  /** Index of the first child with the given tag (`element.find(tag)`). */
  function FirstIndex(cs: seq<Element>, tag: string): (r: Option<nat>)
    ensures r.Some? ==> r.value < |cs| && cs[r.value].tag == tag
    ensures r.Some? ==> forall j :: 0 <= j < r.value ==> cs[j].tag != tag
    ensures r.None? ==> forall j :: 0 <= j < |cs| ==> cs[j].tag != tag
  {
    if |cs| == 0 then None
    else if cs[0].tag == tag then Some(0)
    else match FirstIndex(cs[1..], tag)
      case None => None
      case Some(k) => Some(k + 1)
  }

  /** The children with the given tag, in document order (`element.findall(tag)`). */
  function FindAll(cs: seq<Element>, tag: string): (r: seq<Element>)
    ensures |r| <= |cs|
    ensures forall e :: e in r <==> e in cs && e.tag == tag
  {
    if |cs| == 0 then []
    else if cs[0].tag == tag then [cs[0]] + FindAll(cs[1..], tag)
    else FindAll(cs[1..], tag)
  }
}
