/**
 * The XML tree the merger reads and builds: an element with its name,
 * namespace information, attribute map and ordered children.
 */
module Xml {
  import opened Wrappers

  /**
   * An element. `namespaces` maps prefixes (the empty prefix is the default
   * namespace) to namespace names; attributes are a map from name to value.
   */
  datatype Element = Element(
    prefix: Option<string>,
    namespace: Option<string>,
    namespaces: Option<map<string, string>>,
    name: string,
    attributes: map<string, string>,
    children: seq<XmlNode>)

  /** A child node of an element. */
  datatype XmlNode =
    | ElementNode(element: Element)
    | Comment(comment: string)
    | CData(cdata: string)
    | Text(text: string)
    | ProcessingInstruction(target: string, data: Option<string>)

  /** A fresh element: the given name, no namespace, no attributes, no children. */
  function NewElement(name: string): Element
  {
    Element(None, None, None, name, map[], [])
  }
}
