/**
 * The parts of a graph node that the dependency engine looks at.
 *
 * A node of the visualisation is a package or class circle. The dependency
 * engine only asks a node for its fully qualified name, whether it is a
 * package, and two geometric questions about a pair of nodes
 * (`liesInFrontOf`, `overlapsWith`). The node tree that answers those two
 * questions is not part of this model, so they are passed around as
 * relations of type `NodeRelation`.
 */
module Nodes {

  /** Optional value, used where the source returns `undefined`. */
  datatype Option<T> = None | Some(value: T)

  /** A node as the dependency engine sees it: its full name and its kind. */
  datatype Node = Node(fullName: string, isPackage: bool)

  /** A question asked of an ordered pair of nodes, such as "does the first lie in front of the second". */
  type NodeRelation = (Node, Node) -> bool
}
