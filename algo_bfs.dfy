/**
 * Breadth-first search (algo_bfs.go), the colour-marking search of Cormen et
 * al., Introduction to Algorithms, section 22.2, over the neighbour relation
 * of Adj. The colours and the distances live in maps local to the search
 * instead of in scratch attributes with random names; Graphs.Graph.BFS writes
 * the distances into the caller's attribute afterwards.
 */
module Bfs {

  import opened Edges
  import opened Nodes

  datatype Color = White | Gray | Black

  /** v is one of Adj(u). */
  ghost predicate Nbr(nodes: map<string, Node>, edges: map<string, Edge>, u: string, v: string)
  {
    u in nodes && Adjacent(edges, nodes[u], v)
  }

  /** The nodes at most k hops from root. */
  ghost function Within(nodes: map<string, Node>, edges: map<string, Edge>, root: string, k: int): set<string>
    decreases k
  {
    if k <= 0 then {root}
    else
      var w := Within(nodes, edges, root, k - 1);
      w + set v | v in nodes.Keys && exists u :: u in w && Nbr(nodes, edges, u, v)
  }

  /** The shortest path from root to v has d hops. */
  ghost predicate ShortestAt(nodes: map<string, Node>, edges: map<string, Edge>, root: string, v: string, d: int)
  {
    d >= 0 && v in Within(nodes, edges, root, d) && (d == 0 || v !in Within(nodes, edges, root, d - 1))
  }

  ghost predicate Reachable(nodes: map<string, Node>, edges: map<string, Edge>, root: string, v: string)
  {
    exists k: nat :: v in Within(nodes, edges, root, k)
  }

  /** d is what BFS must record for v: the hop count if v is reachable, -1 (infinity) otherwise. */
  ghost predicate HopDistance(nodes: map<string, Node>, edges: map<string, Edge>, root: string, v: string, d: int)
  {
    if Reachable(nodes, edges, root, v) then ShortestAt(nodes, edges, root, v, d) else d == -1
  }

  lemma {:induction false} WithinMono(nodes: map<string, Node>, edges: map<string, Edge>, root: string, i: int, j: int)
    requires i <= j
    ensures Within(nodes, edges, root, i) <= Within(nodes, edges, root, j)
    decreases j - i
  {
    if i < j {
      WithinMono(nodes, edges, root, i, j - 1);
      if j > 0 {
        assert Within(nodes, edges, root, j - 1) <= Within(nodes, edges, root, j);
      }
    }
  }

  lemma {:induction false} WithinNodes(nodes: map<string, Node>, edges: map<string, Edge>, root: string, k: int)
    requires root in nodes
    ensures Within(nodes, edges, root, k) <= nodes.Keys
    decreases k
  {
    if k > 0 {
      WithinNodes(nodes, edges, root, k - 1);
    }
  }

  /** A node within k hops has hop distance at most k. */
  lemma {:induction false} ShortestBelow(nodes: map<string, Node>, edges: map<string, Edge>, root: string, v: string, d: int, k: int)
    requires k >= 0 && ShortestAt(nodes, edges, root, v, d) && v in Within(nodes, edges, root, k)
    ensures d <= k
  {
    if k < d {
      WithinMono(nodes, edges, root, k, d - 1);
    }
    assert k < d ==> v in Within(nodes, edges, root, d - 1);
  }

  /** The hop distance is well defined: BFS has only one correct answer per node. */
  lemma {:induction false} HopDistanceUnique(nodes: map<string, Node>, edges: map<string, Edge>, root: string, v: string, d1: int, d2: int)
    requires HopDistance(nodes, edges, root, v, d1) && HopDistance(nodes, edges, root, v, d2)
    ensures d1 == d2
  {
    if Reachable(nodes, edges, root, v) {
      ShortestBelow(nodes, edges, root, v, d1, d2);
      ShortestBelow(nodes, edges, root, v, d2, d1);
    }
  }

  /** The root is at distance 0 from itself. */
  lemma {:induction false} RootAtZero(nodes: map<string, Node>, edges: map<string, Edge>, root: string)
    ensures HopDistance(nodes, edges, root, root, 0)
  {
    assert root in Within(nodes, edges, root, 0);
  }

  /** A node at distance d > 0 has a neighbour of distance d - 1 that leads to it (the BFS predecessor). */
  lemma {:induction false} Predecessor(nodes: map<string, Node>, edges: map<string, Edge>, root: string, v: string, d: int)
    requires ShortestAt(nodes, edges, root, v, d) && d > 0
    ensures exists u :: Nbr(nodes, edges, u, v) && ShortestAt(nodes, edges, root, u, d - 1)
  {
    var prior := Within(nodes, edges, root, d - 1);
    var u :| u in prior && Nbr(nodes, edges, u, v);
  }

  /**
   * In a table of hop distances, every node at distance d > 0 has a neighbour
   * leading to it whose recorded distance is d - 1.
   */
  lemma {:induction false} RecordedPredecessor(nodes: map<string, Node>, edges: map<string, Edge>, root: string,
                                               dist: map<string, int>, v: string)
    requires forall w :: w in nodes ==> w in dist && HopDistance(nodes, edges, root, w, dist[w])
    requires v in nodes && dist[v] > 0
    ensures exists u :: u in dist && Nbr(nodes, edges, u, v) && dist[u] == dist[v] - 1
  {
    var d := dist[v];
    assert HopDistance(nodes, edges, root, v, d);
    Predecessor(nodes, edges, root, v, d);
    var u :| Nbr(nodes, edges, u, v) && ShortestAt(nodes, edges, root, u, d - 1);
    var du := dist[u];
    assert HopDistance(nodes, edges, root, u, du);
    ShortestRecorded(nodes, edges, root, u, d - 1, du);
  }

  /** A recorded hop distance agrees with any shortest-path length. */
  lemma {:induction false} ShortestRecorded(nodes: map<string, Node>, edges: map<string, Edge>, root: string, u: string, d: int, du: int)
    requires ShortestAt(nodes, edges, root, u, d) && HopDistance(nodes, edges, root, u, du)
    ensures du == d
  {
    var k: nat := d;
    assert u in Within(nodes, edges, root, k);
    HopDistanceUnique(nodes, edges, root, u, d, du);
  }

  /** Distances of neighbours differ by at most one hop in the direction of the neighbour relation. */
  lemma {:induction false} NeighbourDistance(nodes: map<string, Node>, edges: map<string, Edge>, root: string, u: string, v: string, du: int, dv: int)
    requires v in nodes && Nbr(nodes, edges, u, v)
    requires ShortestAt(nodes, edges, root, u, du) && ShortestAt(nodes, edges, root, v, dv)
    ensures dv <= du + 1
  {
    assert v in Within(nodes, edges, root, du + 1);
    ShortestBelow(nodes, edges, root, v, dv, du + 1);
  }

  /**
   * The queue holds split nodes at distance level followed by nodes at
   * distance level + 1 (the queue of a breadth-first search spans at most two
   * consecutive levels).
   */
  ghost predicate Layered(dist: map<string, int>, q: seq<string>, level: int, split: int)
  {
    && 0 <= split <= |q|
    && forall i :: 0 <= i < |q| ==> q[i] in dist && dist[q[i]] == if i < split then level else level + 1
  }

  /** Every recorded parent is a neighbour of its child. */
  ghost predicate ParentEdges(nodes: map<string, Node>, edges: map<string, Edge>, parent: map<string, string>)
  {
    forall k :: k in parent ==> Nbr(nodes, edges, parent[k], k)
  }

  /**
   * Every discovered node other than the root has a parent, and every parent
   * is discovered, one hop closer than its child.
   */
  ghost predicate Parented(root: string, dist: map<string, int>, white: set<string>, parent: map<string, string>)
  {
    && parent.Keys == dist.Keys - white - {root}
    && (forall k :: k in parent ==> parent[k] in dist && parent[k] !in white && dist[k] == dist[parent[k]] + 1)
  }

  /** The root is discovered at distance 0; exactly the white nodes carry -1. */
  ghost predicate Rooted(nodes: map<string, Node>, root: string, dist: map<string, int>, white: set<string>)
  {
    && root in nodes && dist.Keys == nodes.Keys && white <= nodes.Keys && root !in white && dist[root] == 0
    && (forall k :: k in white ==> dist[k] == -1)
    && (forall k :: k in nodes && k !in white ==> dist[k] >= 0)
  }

  /** Every neighbour of a discovered node is discovered, at most one hop further. */
  ghost predicate Relaxed(nodes: map<string, Node>, edges: map<string, Edge>, dist: map<string, int>, white: set<string>)
  {
    forall x, w :: x in nodes && x !in white && Nbr(nodes, edges, x, w) ==>
      w in nodes && w !in white && x in dist && w in dist && dist[w] <= dist[x] + 1
  }

  /** The premises under which a table of distances is the table of hop distances. */
  ghost predicate Certificate(nodes: map<string, Node>, edges: map<string, Edge>, root: string,
                              dist: map<string, int>, white: set<string>, parent: map<string, string>)
  {
    && Rooted(nodes, root, dist, white)
    && Parented(root, dist, white, parent) && ParentEdges(nodes, edges, parent)
    && Relaxed(nodes, edges, dist, white)
  }

  /** Following parents back to the root: a discovered node lies within its recorded distance. */
  lemma {:induction false} Upper(nodes: map<string, Node>, edges: map<string, Edge>, root: string,
                                 dist: map<string, int>, white: set<string>, parent: map<string, string>, v: string)
    requires Rooted(nodes, root, dist, white)
    requires Parented(root, dist, white, parent) && ParentEdges(nodes, edges, parent)
    requires v in nodes && v !in white
    ensures v in Within(nodes, edges, root, dist[v])
    decreases dist[v]
  {
    if v == root {
      assert root in Within(nodes, edges, root, 0);
    } else {
      assert v in dist.Keys - white - {root};
      var p := parent[v];
      assert p in nodes && p !in white && dist[v] == dist[p] + 1;
      Upper(nodes, edges, root, dist, white, parent, p);
      assert Nbr(nodes, edges, p, v);
      assert v in Within(nodes, edges, root, dist[p] + 1);
    }
  }

  /** Relaxation along every edge: a node within k hops is discovered with a distance of at most k. */
  lemma {:induction false} Lower(nodes: map<string, Node>, edges: map<string, Edge>, root: string,
                                 dist: map<string, int>, white: set<string>, k: nat)
    requires Rooted(nodes, root, dist, white) && Relaxed(nodes, edges, dist, white)
    ensures forall v :: v in Within(nodes, edges, root, k) ==> v in nodes && v !in white && dist[v] <= k
  {
    if k > 0 {
      Lower(nodes, edges, root, dist, white, k - 1);
    }
  }

  /** A certified table records the hop distance of every node, and the discovered nodes are the reachable ones. */
  lemma {:induction false} Certified(nodes: map<string, Node>, edges: map<string, Edge>, root: string,
                  dist: map<string, int>, white: set<string>, parent: map<string, string>)
    requires Certificate(nodes, edges, root, dist, white, parent)
    ensures forall v :: v in nodes ==> HopDistance(nodes, edges, root, v, dist[v])
    ensures forall v :: v in nodes ==> (Reachable(nodes, edges, root, v) <==> v !in white)
  {
    forall v | v in nodes
      ensures HopDistance(nodes, edges, root, v, dist[v])
      ensures Reachable(nodes, edges, root, v) <==> v !in white
    {
      if v !in white {
        Upper(nodes, edges, root, dist, white, parent, v);
        var d: nat := dist[v];
        assert v in Within(nodes, edges, root, d);
        if d > 0 {
          Lower(nodes, edges, root, dist, white, d - 1);
        }
        assert ShortestAt(nodes, edges, root, v, dist[v]);
      } else {
        forall k: nat ensures v !in Within(nodes, edges, root, k) {
          Lower(nodes, edges, root, dist, white, k);
        }
      }
    }
  }

  /** The root sits at 0, white nodes at -1 and every discovered node at most level + 1 hops out. */
  ghost predicate Distances(nodes: map<string, Node>, root: string, dist: map<string, int>, white: set<string>, level: int)
  {
    && dist.Keys == nodes.Keys && white <= nodes.Keys
    && root in nodes && root !in white && dist[root] == 0
    && (forall k :: k in white ==> dist[k] == -1)
    && (forall k :: k in nodes && k !in white ==> 0 <= dist[k] <= level + 1)
  }

  /**
   * The state while the neighbours of the head u are scanned: the colours and
   * the white set agree, every gray node other than u is queued, queued nodes
   * are discovered, and the queue (u already taken off it) is layered.
   */
  ghost predicate Frontier(nodes: map<string, Node>, edges: map<string, Edge>, root: string, u: string,
                           color: map<string, Color>, dist: map<string, int>, q: seq<string>,
                           white: set<string>, parent: map<string, string>, level: int, split: int)
  {
    && color.Keys == nodes.Keys && Distances(nodes, root, dist, white, level)
    && u in nodes && u !in white && dist[u] == level
    && (forall k :: k in nodes ==> (color[k] == White <==> k in white))
    && (forall k :: k in nodes && color[k] == Gray ==> k in q || k == u)
    && (forall i :: 0 <= i < |q| ==> q[i] in nodes && q[i] !in white)
    && Parented(root, dist, white, parent) && ParentEdges(nodes, edges, parent)
    && Layered(dist, q, level, split)
  }

  /** One neighbour v of u (algo_bfs.go:56-62): if it is white, it turns gray at distance dist[u] + 1 and is queued. */
  method Visit(nodes: map<string, Node>, edges: map<string, Edge>, root: string, u: string, v: string,
               color0: map<string, Color>, dist0: map<string, int>, q0: seq<string>,
               ghost white0: set<string>, ghost parent0: map<string, string>, ghost level: int, ghost split: int)
      returns (color: map<string, Color>, dist: map<string, int>, q: seq<string>,
               ghost white: set<string>, ghost parent: map<string, string>)
    requires Frontier(nodes, edges, root, u, color0, dist0, q0, white0, parent0, level, split)
    requires v in nodes && Nbr(nodes, edges, u, v)
    ensures Frontier(nodes, edges, root, u, color, dist, q, white, parent, level, split)
    ensures white <= white0 && |white| + |q| == |white0| + |q0| && v !in white
    ensures forall k :: k in nodes && k !in white0 ==> color[k] == color0[k] && dist[k] == dist0[k]
    ensures forall k :: k in nodes && color[k] == Black ==> color0[k] == Black
  {
    color, dist, q, white, parent := color0, dist0, q0, white0, parent0;
    if color[v] == White {
      color := color[v := Gray];
      dist := dist[v := dist[u] + 1];
      q := q + [v];
      white := white - {v};
      parent := parent[v := u];
      VisitParented(root, u, v, dist0, white0, parent0, dist, white, parent);
    }
  }

  /** Discovering v from u keeps every discovered node but the root parented. */
  lemma {:induction false} VisitParented(root: string, u: string, v: string,
                                         dist0: map<string, int>, white0: set<string>, parent0: map<string, string>,
                                         dist: map<string, int>, white: set<string>, parent: map<string, string>)
    requires Parented(root, dist0, white0, parent0)
    requires u in dist0 && u !in white0 && v in dist0 && v in white0 && root !in white0
    requires dist == dist0[v := dist0[u] + 1] && white == white0 - {v} && parent == parent0[v := u]
    ensures Parented(root, dist, white, parent)
  {
    assert parent.Keys == parent0.Keys + {v};
    assert dist.Keys == dist0.Keys;
    assert dist.Keys - white - {root} == (dist0.Keys - white0 - {root}) + {v};
  }

  /**
   * The inner loop of algo_bfs.go:56-63: every white neighbour of the head u
   * turns gray, gets distance dist[u] + 1 and joins the back of the queue.
   */
  method Discover(nodes: map<string, Node>, edges: map<string, Edge>, root: string, u: string, adj: seq<string>,
                  color0: map<string, Color>, dist0: map<string, int>, q0: seq<string>,
                  ghost white0: set<string>, ghost parent0: map<string, string>, ghost level: int, ghost split: int)
      returns (color: map<string, Color>, dist: map<string, int>, q: seq<string>,
               ghost white: set<string>, ghost parent: map<string, string>)
    requires forall i :: 0 <= i < |adj| ==> adj[i] in nodes && Nbr(nodes, edges, u, adj[i])
    requires Frontier(nodes, edges, root, u, color0, dist0, q0, white0, parent0, level, split)
    ensures Frontier(nodes, edges, root, u, color, dist, q, white, parent, level, split)
    ensures white <= white0 && |white| + |q| == |white0| + |q0|
    ensures forall k :: k in nodes && k !in white0 ==> color[k] == color0[k] && dist[k] == dist0[k]
    ensures forall k :: k in nodes && color[k] == Black ==> color0[k] == Black
    ensures forall j :: 0 <= j < |adj| ==> adj[j] !in white
  {
    color, dist, q, white, parent := color0, dist0, q0, white0, parent0;
    var i := 0;
    while i < |adj|
      invariant 0 <= i <= |adj|
      invariant Frontier(nodes, edges, root, u, color, dist, q, white, parent, level, split)
      invariant white <= white0 && |white| + |q| == |white0| + |q0|
      invariant forall k :: k in nodes && k !in white0 ==> color[k] == color0[k] && dist[k] == dist0[k]
      invariant forall k :: k in nodes && color[k] == Black ==> color0[k] == Black
      invariant forall j :: 0 <= j < i ==> adj[j] !in white
    {
      ghost var seen := white;
      color, dist, q, white, parent := Visit(nodes, edges, root, u, adj[i], color, dist, q, white, parent, level, split);
      forall j | 0 <= j < i + 1 ensures adj[j] !in white {
        if j < i {
          assert adj[j] !in seen;
        }
      }
      i := i + 1;
    }
  }

  /** The neighbours Adj returns for u, in the terms of the neighbour relation. */
  lemma {:induction false} Neighbours(nodes: map<string, Node>, edges: map<string, Edge>, u: string, adj: seq<string>)
    requires Linked(nodes, edges) && u in nodes
    requires forall v :: v in adj <==> Adjacent(edges, nodes[u], v)
    ensures forall i :: 0 <= i < |adj| ==> adj[i] in nodes && Nbr(nodes, edges, u, adj[i])
    ensures forall v :: Nbr(nodes, edges, u, v) ==> v in adj
  {
    forall i | 0 <= i < |adj| ensures adj[i] in nodes && Nbr(nodes, edges, u, adj[i]) {
      assert adj[i] in adj;
      var e :| e in nodes[u].edges && e in edges && adj[i] in edges[e].nodes;
    }
  }

  /** A neighbour of a node is a node. */
  lemma {:induction false} NbrInNodes(nodes: map<string, Node>, edges: map<string, Edge>, x: string, w: string)
    requires Linked(nodes, edges) && Nbr(nodes, edges, x, w)
    ensures w in nodes
  {
    var e :| e in nodes[x].edges && e in edges && w in edges[e].nodes;
  }

  /** Every neighbour of a black (finished) node is discovered, at most one hop further. */
  ghost predicate BlackRelaxed(nodes: map<string, Node>, edges: map<string, Edge>, color: map<string, Color>,
                               dist: map<string, int>, white: set<string>)
  {
    forall x, w :: x in color && color[x] == Black && Nbr(nodes, edges, x, w) ==>
      w in nodes && w !in white && x in dist && w in dist && dist[w] <= dist[x] + 1
  }

  /**
   * The state at the top of the loop of algo_bfs.go:48-67: colours and the
   * white set agree, gray nodes are queued, queued nodes are discovered, the
   * queue is layered and every neighbour of a black node is discovered.
   */
  ghost predicate Searching(nodes: map<string, Node>, edges: map<string, Edge>, root: string,
                            color: map<string, Color>, dist: map<string, int>, q: seq<string>,
                            white: set<string>, parent: map<string, string>, level: int, split: int)
  {
    && color.Keys == nodes.Keys && Distances(nodes, root, dist, white, level)
    && (forall k :: k in nodes ==> (color[k] == White <==> k in white))
    && (forall k :: k in nodes && color[k] == Gray ==> k in q)
    && (forall i :: 0 <= i < |q| ==> q[i] in nodes && q[i] !in white)
    && Parented(root, dist, white, parent) && ParentEdges(nodes, edges, parent)
    && level >= 0 && Layered(dist, q, level, split) && (q != [] ==> split > 0)
    && BlackRelaxed(nodes, edges, color, dist, white)
  }

  /** The state before the first round: only the root is discovered and queued. */
  lemma {:induction false} Start(nodes: map<string, Node>, edges: map<string, Edge>, root: string,
              color: map<string, Color>, dist: map<string, int>)
    requires root in nodes
    requires color == map k | k in nodes :: if k == root then Gray else White
    requires dist == map k | k in nodes :: if k == root then 0 else -1
    ensures Searching(nodes, edges, root, color, dist, [root], nodes.Keys - {root}, map[], 0, 1)
  {
    var white := nodes.Keys - {root};
    var parent: map<string, string> := map[];
    assert parent.Keys == dist.Keys - white - {root};
    assert [root][1..] == [];
  }

  /** Taking the head off the queue leaves the state Discover scans in. */
  lemma {:induction false} Pop(nodes: map<string, Node>, edges: map<string, Edge>, root: string,
            color: map<string, Color>, dist: map<string, int>, q: seq<string>,
            white: set<string>, parent: map<string, string>, level: int, split: int)
    requires Searching(nodes, edges, root, color, dist, q, white, parent, level, split) && q != []
    ensures Frontier(nodes, edges, root, q[0], color, dist, q[1..], white, parent, level, split - 1)
  {
    forall k | k in nodes && color[k] == Gray ensures k in q[1..] || k == q[0] {
      assert q == [q[0]] + q[1..];
    }
  }

  /** The head u of the queue, expanded: Adj's neighbours scanned by Discover (algo_bfs.go:53-64). */
  method Expand(nodes: map<string, Node>, edges: map<string, Edge>, root: string, u: string,
                color0: map<string, Color>, dist0: map<string, int>, q0: seq<string>,
                ghost white0: set<string>, ghost parent0: map<string, string>, ghost level: int, ghost split: int)
      returns (color: map<string, Color>, dist: map<string, int>, q: seq<string>,
               ghost white: set<string>, ghost parent: map<string, string>)
    requires Linked(nodes, edges)
    requires Frontier(nodes, edges, root, u, color0, dist0, q0, white0, parent0, level, split)
    ensures Frontier(nodes, edges, root, u, color, dist, q, white, parent, level, split)
    ensures white <= white0 && |white| + |q| == |white0| + |q0|
    ensures forall k :: k in nodes && k !in white0 ==> color[k] == color0[k] && dist[k] == dist0[k]
    ensures forall k :: k in nodes && color[k] == Black ==> color0[k] == Black
    ensures forall v :: Nbr(nodes, edges, u, v) ==> v !in white
  {
    var adj := Adj(edges, nodes[u]);
    Neighbours(nodes, edges, u, adj);
    color, dist, q, white, parent := Discover(nodes, edges, root, u, adj, color0, dist0, q0, white0, parent0, level, split);
    forall v | Nbr(nodes, edges, u, v) ensures v !in white {
      var j :| 0 <= j < |adj| && adj[j] == v;
    }
  }

  /** Once u is black, every neighbour of a black node is discovered, at most one hop further. */
  lemma {:induction false} Finish(nodes: map<string, Node>, edges: map<string, Edge>, root: string, u: string,
               color0: map<string, Color>, dist0: map<string, int>, white0: set<string>,
               color: map<string, Color>, dist: map<string, int>, white: set<string>, level: int,
               color': map<string, Color>)
    requires Linked(nodes, edges)
    requires color0.Keys == nodes.Keys && forall k :: k in nodes ==> (color0[k] == White <==> k in white0)
    requires BlackRelaxed(nodes, edges, color0, dist0, white0)
    requires color.Keys == nodes.Keys && Distances(nodes, root, dist, white, level)
    requires u in nodes && u !in white && dist[u] == level
    requires white <= white0
    requires dist0.Keys == nodes.Keys && forall k :: k in nodes && k !in white0 ==> color[k] == color0[k] && dist[k] == dist0[k]
    requires forall k :: k in nodes && color[k] == Black ==> color0[k] == Black
    requires forall v :: Nbr(nodes, edges, u, v) ==> v !in white
    requires color' == color[u := Black]
    ensures BlackRelaxed(nodes, edges, color', dist, white)
  {
    forall x, w | x in color' && color'[x] == Black && Nbr(nodes, edges, x, w)
      ensures w in nodes && w !in white && x in dist && w in dist && dist[w] <= dist[x] + 1
    {
      NbrInNodes(nodes, edges, x, w);
      if x != u {
        assert color0[x] == Black;
      }
    }
  }

  /** After the scan of u, colouring u black restores the loop invariant, on the same or the next level. */
  lemma {:induction false} Close(nodes: map<string, Node>, edges: map<string, Edge>, root: string, u: string,
              color: map<string, Color>, dist: map<string, int>, q: seq<string>,
              white: set<string>, parent: map<string, string>, level: int, split: int,
              color': map<string, Color>, level': int, split': int)
    requires level >= 0
    requires Frontier(nodes, edges, root, u, color, dist, q, white, parent, level, split)
    requires color' == color[u := Black]
    requires BlackRelaxed(nodes, edges, color', dist, white)
    requires if split == 0 && q != [] then level' == level + 1 && split' == |q| else level' == level && split' == split
    ensures Searching(nodes, edges, root, color', dist, q, white, parent, level', split')
  {
  }

  /**
   * One round of the loop of algo_bfs.go:48-67: dequeue the head u, discover
   * its white neighbours, then colour u black.
   */
  method Step(nodes: map<string, Node>, edges: map<string, Edge>, root: string,
              color0: map<string, Color>, dist0: map<string, int>, q0: seq<string>,
              ghost white0: set<string>, ghost parent0: map<string, string>, ghost level0: int, ghost split0: int)
      returns (color: map<string, Color>, dist: map<string, int>, q: seq<string>,
               ghost white: set<string>, ghost parent: map<string, string>, ghost level: int, ghost split: int)
    requires Linked(nodes, edges)
    requires Searching(nodes, edges, root, color0, dist0, q0, white0, parent0, level0, split0) && q0 != []
    ensures Searching(nodes, edges, root, color, dist, q, white, parent, level, split)
    ensures |white| + |q| == |white0| + |q0| - 1
  {
    var u := q0[0];
    Pop(nodes, edges, root, color0, dist0, q0, white0, parent0, level0, split0);
    var color1;
    color1, dist, q, white, parent := Expand(nodes, edges, root, u, color0, dist0, q0[1..], white0, parent0, level0, split0 - 1);
    color := color1[u := Black];
    level, split := level0, split0 - 1;
    if split == 0 && q != [] {
      level, split := level + 1, |q|;
    }
    Finish(nodes, edges, root, u, color0, dist0, white0, color1, dist, white, level0, color);
    Close(nodes, edges, root, u, color1, dist, q, white, parent, level0, split0 - 1, color, level, split);
  }

  /** When the queue runs empty, the distances are certified. */
  lemma {:induction false} Done(nodes: map<string, Node>, edges: map<string, Edge>, root: string,
             color: map<string, Color>, dist: map<string, int>,
             white: set<string>, parent: map<string, string>, level: int, split: int)
    requires Searching(nodes, edges, root, color, dist, [], white, parent, level, split)
    ensures Certificate(nodes, edges, root, dist, white, parent)
  {
    forall x, w | x in nodes && x !in white && Nbr(nodes, edges, x, w)
      ensures w in nodes && w !in white && x in dist && w in dist && dist[w] <= dist[x] + 1
    {
      assert color[x] == Black;
    }
  }

  /**
   * The search of algo_bfs.go:28-76 on the node and edge tables: every node's
   * hop distance from root, -1 for the nodes root does not reach.
   */
  method Search(nodes: map<string, Node>, edges: map<string, Edge>, root: string)
      returns (dist: map<string, int>, ghost rounds: nat)
    requires Linked(nodes, edges)
    requires root in nodes
    ensures rounds <= |nodes|
    ensures dist.Keys == nodes.Keys
    ensures forall v :: v in nodes ==> HopDistance(nodes, edges, root, v, dist[v])
    ensures dist[root] == 0
    ensures forall v :: v in nodes ==> (dist[v] == -1 <==> !Reachable(nodes, edges, root, v))
  {
    var color := map k | k in nodes :: if k == root then Gray else White;
    dist := map k | k in nodes :: if k == root then 0 else -1;
    ghost var white := nodes.Keys - {root};
    ghost var parent: map<string, string> := map[];
    var q := [root];
    ghost var level, split := 0, 1;
    Start(nodes, edges, root, color, dist);
    rounds := 0;
    assert |white| == |nodes| - 1;

    // Every round blackens one queued node, and a node is queued only when it
    // leaves the white set.
    while q != []
      invariant Searching(nodes, edges, root, color, dist, q, white, parent, level, split)
      invariant rounds + |q| + |white| == |nodes|
      decreases |white| + |q|
    {
      color, dist, q, white, parent, level, split := Step(nodes, edges, root, color, dist, q, white, parent, level, split);
      rounds := rounds + 1;
    }

    Done(nodes, edges, root, color, dist, white, parent, level, split);
    Certified(nodes, edges, root, dist, white, parent);
  }
}
