/** router.py: a router has a name, an (unused) routing table and the
    policy it asks for next hops. */
module Routers {
  import opened Common
  import opened Topology
  import opened Packets
  import opened RoutingAlgorithm

  /** What `get_next_hop` yields: the policy's hop, or the `AttributeError`
      raised when the router was registered without a policy. */
  datatype NextHop = NoAlgorithm | Answer(hop: Option<Node>)

  class Router {
    const name: Node
    /** Created empty and never read or written afterwards. */
    var routingTable: map<Node, Node>
    var routingAlgorithm: Option<PairPolicy>

    constructor (name: Node, algorithm: Option<PairPolicy>)
      ensures this.name == name && routingAlgorithm == algorithm
      ensures routingTable == map[]
    {
      this.name := name;
      routingTable := map[];
      routingAlgorithm := algorithm;
    }

    /** `get_next_hop`: the policy is asked from this router, towards the
        packet's destination, avoiding the packet's visited set; its score
        is dropped. A sound policy's hop is a forwardable neighbour. */
    function GetNextHop(packet: Packet, g: Graph): (r: NextHop)
      reads this, packet
      ensures r.NoAlgorithm? <==> routingAlgorithm.None?
      ensures r.Answer? ==> r.hop == routingAlgorithm.value(name, packet.destination, g, packet.visited).0
      ensures r.Answer? && r.hop.Some? && WellFormed(g) && PairSound(routingAlgorithm.value) ==>
                CanForward(g, name, packet.visited, r.hop.value)
    {
      match routingAlgorithm
      case None => NoAlgorithm
      case Some(policy) =>
        var (nextHop, score) := policy(name, packet.destination, g, packet.visited);
        Answer(nextHop)
    }
  }
}
