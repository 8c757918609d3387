/** packet.py: a packet's origin, destination, the stack of routers on its
    current path and the set of routers it has visited. */
module Packets {
  import opened Common

  class Packet {
    const origin: Node
    const destination: Node
    /** The current path, in traversal order; the engines push and pop it. */
    var path: seq<Node>
    /** Every router the packet has entered; it is never shrunk. */
    var visited: set<Node>

    /** Every router on the path has been visited. */
    ghost predicate Valid()
      reads this
    {
      forall i :: 0 <= i < |path| ==> path[i] in visited
    }

    constructor (origin: Node, destination: Node)
      ensures this.origin == origin && this.destination == destination
      ensures path == [] && visited == {}
      ensures Valid()
    {
      this.origin := origin;
      this.destination := destination;
      path := [];
      visited := {};
    }

    /** `record_hop`: push the router on the path and mark it visited. */
    method RecordHop(router: Node)
      modifies this
      ensures path == old(path) + [router]
      ensures visited == old(visited) + {router}
      ensures old(Valid()) ==> Valid()
    {
      path := path + [router];
      visited := visited + {router};
    }

    /** `record_backtracking_hop`: pop the last router off the path; the
        visited set keeps it. `list.pop()` raises on an empty path. */
    method RecordBacktrackingHop()
      requires path != []
      modifies this
      ensures path == old(path)[..|old(path)| - 1]
      ensures visited == old(visited)
      ensures old(Valid()) ==> Valid()
    {
      path := path[..|path| - 1];
    }
  }

  /** A hop followed by a backtrack restores the path; the router stays visited. */
  method HopThenBacktrack(p: Packet, router: Node)
    modifies p
    ensures p.path == old(p.path)
    ensures p.visited == old(p.visited) + {router}
    ensures old(p.Valid()) ==> p.Valid()
  {
    p.RecordHop(router);
    p.RecordBacktrackingHop();
  }
}
