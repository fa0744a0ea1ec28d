/**
 * The wire helpers: the minimal `<Request><command .../></Request>` form,
 * tolerant parsing of a received document, the root-tag check and the
 * extraction of one command's attributes from a `<Response>`.
 */
module WireUtils {
  import opened Wrappers
  import opened Xml
  import opened Protocol

  /**
   * format_request: a `Request` root whose only child is named after the
   * command and carries every parameter, rendered with `str`, as an attribute.
   * An absent params dict and an empty one are the same here (the empty map).
   */
  function FormatRequest(command: string, params: map<string, Scalar>): (r: Element)
    ensures r.tag == "Request" && r.attrs == map[] && |r.children| == 1
    ensures r.children[0].tag == command && r.children[0].children == []
    ensures r.children[0].attrs.Keys == params.Keys
    ensures forall k :: k in params ==> r.children[0].attrs[k] == Str(params[k])
  {
    Element("Request", map[], None, [Element(command, StrMap(params), None, [])])
  }

  /** parse_response: the parsed root, or None when the bytes are not XML. */
  function ParseResponse(doc: Document): (r: Option<Element>)
    ensures r.None? <==> doc.Malformed?
    ensures doc.Parsed? ==> r == Some(doc.root)
  {
    match doc
    case Parsed(root) => Some(root)
    case Malformed => None
  }

  /** validate_response: a document is valid exactly when present with the expected root tag. */
  function ValidateResponse(doc: Option<Element>, expectedTag: string): (r: bool)
    ensures r <==> doc.Some? && doc.value.tag == expectedTag
  {
    doc.Some? && doc.value.tag == expectedTag
  }

  /**
   * extract_command_response: the attributes of the first child named after
   * the command, provided the root is a `Response`; None otherwise.
   */
  function ExtractCommandResponse(doc: Option<Element>, command: string): (r: Option<Attrs>)
    ensures r.Some? ==> doc.Some? && doc.value.tag == "Response"
    ensures r.Some? ==> exists i :: 0 <= i < |doc.value.children| && doc.value.children[i].tag == command
                                     && r.value == doc.value.children[i].attrs
    ensures (doc.Some? && doc.value.tag == "Response"
             && exists i :: 0 <= i < |doc.value.children| && doc.value.children[i].tag == command) ==> r.Some?
  {
    if !ValidateResponse(doc, "Response") then None
    else match FirstIndex(doc.value.children, command)
      case None => None
      case Some(i) => Some(doc.value.children[i].attrs)
  }

  /** Validation after parsing accepts exactly the well-formed documents with the expected root. */
  lemma ParseThenValidate(doc: Document, expectedTag: string)
    ensures ValidateResponse(ParseResponse(doc), expectedTag) <==> doc.Parsed? && doc.root.tag == expectedTag
  {
  }

  /**
   * A device that echoes a request back under a `Response` root lets
   * extract_command_response recover every parameter, rendered with `str`.
   */
  lemma EchoedRequestRoundTrip(command: string, params: map<string, Scalar>)
    ensures var req := FormatRequest(command, params);
            var r := ExtractCommandResponse(Some(req.(tag := "Response")), command);
            r.Some? && r.value.Keys == params.Keys && forall k :: k in params ==> r.value[k] == Str(params[k])
  {
    var req := FormatRequest(command, params);
    assert FirstIndex(req.children, command) == Some(0);
  }

  /** Extraction takes the first matching child: earlier siblings with the same tag shadow later ones. */
  lemma ExtractTakesFirst(root: Element, command: string, i: nat)
    requires root.tag == "Response" && i < |root.children| && root.children[i].tag == command
    requires forall j :: 0 <= j < i ==> root.children[j].tag != command
    ensures ExtractCommandResponse(Some(root), command) == Some(root.children[i].attrs)
  {
    var k := FirstIndex(root.children, command);
    assert k.Some?;
  }
}
