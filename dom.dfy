/**
 * The document tree the bean binding reads and writes, as values.
 * A node has a kind, a name (the tag of an element, `#text` for a text node, ...),
 * a textual value and an ordered sequence of children.
 */
module Dom {

  /** The kinds of node that can stand among an element's children. */
  datatype NodeKind = ElementNode | TextNode | CDataNode | CommentNode | ProcessingInstructionNode

  datatype Node = Node(kind: NodeKind, name: string, value: string, children: seq<Node>)

  /** A new element named `tag` with the given children (what `createElement` yields once they are appended). */
  function Element(tag: string, children: seq<Node>): Node
  {
    Node(ElementNode, tag, "", children)
  }
}

/** The failures the bean binding reports (XmlSerializationException and its causes). */
module Errors {
  import opened Dom

  datatype XmlSerializationError =
    | IntrospectionFailed          // Introspector.getBeanInfo threw
    | InstantiationFailed          // the bean class has no usable no-argument constructor
    | NoBindingFor(child: Node)    // "Format error": a child node that no property binding accepts
}
