/**
 * The element vocabulary of an SADT diagram: arrow types, box sides and
 * connection points.
 */
module SadtElements {

  /**
   * Identifiers. The program draws version-4 UUIDs (RFC 4122 section 4.4) for
   * both nodes and arrows; here a UUID is an abstract key, and freshness is
   * provided by the diagram (see SadtModel.SadtDiagram).
   */
  type Uuid = nat
  type NodeId = Uuid
  type ArrowId = Uuid

  /** The four SADT roles an arrow can play for an activity. */
  datatype ArrowType = Input | Output | Control | Mechanism

  /** The four sides of an activity box. */
  datatype Side = Top | Bottom | Left | Right

  /**
   * A reference to the midpoint of one side of a node. It carries no offset
   * along the side; two points are equal exactly when node and side are.
   */
  datatype ConnectionPoint = ConnectionPoint(nodeId: NodeId, side: Side)
}
