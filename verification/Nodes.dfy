/** Nodes of the cluster as the client sees them. */
module Nodes {

  type NodeId = nat  // the 32 id bytes read as a big-endian number, so < is the byte order

  /** What the pool knows about the connection to a node. */
  datatype PathInfo = PathInfo(direct: bool, rtt: int)
}
