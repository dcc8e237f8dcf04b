/**
 * Nodes (node.go). A node is a record in the graph's node table; its
 * incidence map is kept as the set of IDs of the edges it lies on.
 */
module Nodes {

  import opened Wrappers
  import opened Attributes
  import opened Edges

  datatype Node = Node(id: string, attrs: Attrs, edges: set<string>)

  const InvalidNodeId := "Node must have a valid id"

  /** NewNode (node.go:19-32): only a non-empty ID makes a node, with no attributes and no edges. */
  function NewNode(id: string): (r: Result<Node>)
    ensures r.Ok? <==> id != ""
    ensures r.Ok? ==> r.value.id == id && Count(r.value.attrs) == 0 && r.value.edges == {}
    ensures r.Err? ==> r.error == InvalidNodeId
  {
    if |id| != 0 then Ok(Node(id, NewAttributeCollection(), {})) else Err(InvalidNodeId)
  }

  /**
   * The arena is linked: every node is stored under its own non-empty ID,
   * every edge under its own ID, and every ID an incidence set mentions is in
   * the matching table. Go's pointers give this for free.
   */
  ghost predicate Linked(nodes: map<string, Node>, edges: map<string, Edge>)
  {
    && (forall k :: k in nodes ==> nodes[k].id == k && k != "" && nodes[k].edges <= edges.Keys)
    && (forall e :: e in edges ==> edges[e].id == e && edges[e].nodes <= nodes.Keys)
  }

  /** v is a neighbour of n: another endpoint of one of n's edges. */
  ghost predicate Adjacent(edges: map<string, Edge>, n: Node, v: string)
  {
    v != n.id && exists e :: e in n.edges && e in edges && v in edges[e].nodes
  }

  /** The edges among those in done that give v as a neighbour of n. */
  ghost function EdgesVia(edges: map<string, Edge>, n: Node, done: set<string>, v: string): set<string>
  {
    set e | e in done && e in edges && v != n.id && v in edges[e].nodes
  }

  lemma {:induction false} EdgesViaStep(edges: map<string, Edge>, n: Node, done: set<string>, e: string, v: string)
    requires e !in done && e in edges
    ensures |EdgesVia(edges, n, done + {e}, v)|
         == |EdgesVia(edges, n, done, v)| + (if v != n.id && v in edges[e].nodes then 1 else 0)
  {
    if v != n.id && v in edges[e].nodes {
      assert EdgesVia(edges, n, done + {e}, v) == EdgesVia(edges, n, done, v) + {e};
    } else {
      assert EdgesVia(edges, n, done + {e}, v) == EdgesVia(edges, n, done, v);
    }
  }

  /** The inner loop of Adj (node.go:40-44): append the endpoints of one edge other than self. */
  method AppendOthers(acc: seq<string>, endpoints: set<string>, self: string) returns (r: seq<string>)
    ensures forall v :: multiset(r)[v] == multiset(acc)[v] + (if v != self && v in endpoints then 1 else 0)
  {
    r := acc;
    var members := endpoints;
    while members != {}
      invariant members <= endpoints
      invariant forall v ::
          multiset(r)[v] == multiset(acc)[v] + (if v != self && v in endpoints && v !in members then 1 else 0)
      decreases members
    {
      var m :| m in members;
      if m != self {
        r := r + [m];
      }
      members := members - {m};
    }
  }

  /** A neighbour list with these multiplicities holds exactly the neighbours. */
  lemma {:induction false} CountedNeighbours(edges: map<string, Edge>, n: Node, adjacent: seq<string>)
    requires forall v :: multiset(adjacent)[v] == |EdgesVia(edges, n, n.edges, v)|
    ensures forall v :: v in adjacent <==> Adjacent(edges, n, v)
  {
    forall v ensures v in adjacent <==> Adjacent(edges, n, v) {
      if v in adjacent {
        assert multiset(adjacent)[v] > 0;
        var e :| e in EdgesVia(edges, n, n.edges, v);
      }
      if Adjacent(edges, n, v) {
        var e :| e in n.edges && e in edges && v in edges[e].nodes;
        assert e in EdgesVia(edges, n, n.edges, v);
      }
    }
  }

  /**
   * Adj (node.go:35-48): the other endpoints of every incident edge, without
   * deduplication, so v occurs once for each incident edge that connects it.
   */
  method Adj(edges: map<string, Edge>, n: Node) returns (adjacent: seq<string>)
    requires n.edges <= edges.Keys
    ensures forall v :: multiset(adjacent)[v] == |EdgesVia(edges, n, n.edges, v)|
    ensures forall v :: v in adjacent <==> Adjacent(edges, n, v)
    ensures n.id !in adjacent
    ensures n.edges == {} ==> adjacent == []
  {
    adjacent := [];
    var pending := n.edges;
    ghost var done: set<string> := {};
    while pending != {}
      invariant pending + done == n.edges && pending !! done
      invariant forall v :: multiset(adjacent)[v] == |EdgesVia(edges, n, done, v)|
      decreases pending
    {
      var e :| e in pending;
      ghost var before := adjacent;
      adjacent := AppendOthers(adjacent, edges[e].nodes, n.id);
      forall v ensures multiset(adjacent)[v] == |EdgesVia(edges, n, done + {e}, v)| {
        EdgesViaStep(edges, n, done, e, v);
      }
      done := done + {e};
      pending := pending - {e};
    }
    CountedNeighbours(edges, n, adjacent);
    if n.edges == {} {
      assert |adjacent| == |multiset(adjacent)|;
      assert multiset(adjacent) == multiset{};
    }
  }
}
