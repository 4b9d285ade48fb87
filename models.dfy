/**
 * The records stored by the graph service: a node, an edge between two node
 * identities, and a graph document holding one anchor node and its edges.
 */
module Models {

  /** Identities are opaque; only equality is ever used on them. */
  type Guid = int

  /** `text` is the source's `Label` (`label` is a Dafny keyword). */
  datatype Node = Node(id: Guid, text: string)

  /** An edge may name nodes that belong to other graph documents. */
  datatype Edge = Edge(id: Guid, source: Guid, target: Guid, text: string)

  /** The unit of storage and replacement, keyed by `id`. */
  datatype Graph = Graph(id: Guid, node: Node, edges: seq<Edge>)
}
