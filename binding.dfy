/**
 * The `Binding` capability as the bean binding consumes it from its child
 * bindings. The child bindings are strategies outside this model (chosen by
 * the serializer per accessor), so their behaviour is given as functions
 * of the binding value.
 */
module Binding {
  import opened Dom

  /**
   * What a child binding's `serialize` returns when handed the bean and the element
   * being built: a node to append, or that very element (after writing into it).
   */
  datatype Emitted = NewNode(node: Node) | SameElement

  datatype ChildBindings<!B, !Bean> = ChildBindings(
    serialize: (B, Bean) -> Emitted,
    deserialize: (B, Bean, seq<Node>) -> Bean,   // the bean after the binding has stored the group's value in it
    isBoundTo: (B, Node) -> bool)
}
