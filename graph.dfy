/**
 * The graph (graph.go): a node table and an edge table keyed by ID, the
 * graph's own attributes and its type, with the operations that build,
 * query and traverse it. Go links nodes and edges by pointers; here both
 * tables are maps and the links are IDs (see Nodes.Linked).
 */
module Graphs {

  import opened Wrappers
  import opened Attributes
  import opened Edges
  import opened Nodes
  import opened Ordering
  import Bfs

  const Directed := "directed"
  const Undirected := "undirected"

  const NoIterationFunction := "No iteration function"
  const NonSortableType := "Non sortable type. Requires string, int or float64"
  const UnknownGraphType := "Unknown graph type: "

  /**
   * Incidence agrees in both directions: a node lists an edge exactly when
   * the edge lists the node. This is what Go's pointers give as long as no
   * node or edge has been replaced by a later one with the same ID.
   */
  ghost predicate Symmetric(nodes: map<string, Node>, edges: map<string, Edge>)
  {
    forall k, e :: k in nodes && e in edges ==> (e in nodes[k].edges <==> k in edges[e].nodes)
  }

  /** The node table after the edge eid has been registered with every node in ids (edge.go:50-53). */
  function Attached(nodes: map<string, Node>, ids: set<string>, eid: string): map<string, Node>
  {
    map k | k in nodes :: if k in ids then nodes[k].(edges := nodes[k].edges + {eid}) else nodes[k]
  }

  /** Registering an edge whose endpoints are all in the node table keeps the tables linked. */
  lemma {:induction false} AttachedLinked(nodes: map<string, Node>, edges: map<string, Edge>, e: Edge)
    requires Linked(nodes, edges) && e.nodes <= nodes.Keys
    ensures Linked(Attached(nodes, e.nodes, e.id), edges[e.id := e])
  {
    var after := Attached(nodes, e.nodes, e.id);
    assert after.Keys == nodes.Keys;
    forall k | k in after ensures after[k].id == k && after[k].edges <= edges.Keys + {e.id} {
    }
  }

  /** A fresh edge registered with its endpoints keeps incidence symmetric. */
  lemma {:induction false} AttachedSymmetric(nodes: map<string, Node>, edges: map<string, Edge>, e: Edge)
    requires Linked(nodes, edges) && Symmetric(nodes, edges) && e.id !in edges
    ensures Symmetric(Attached(nodes, e.nodes, e.id), edges[e.id := e])
  {
    var after, links := Attached(nodes, e.nodes, e.id), edges[e.id := e];
    forall k, d | k in after && d in links ensures d in after[k].edges <==> k in links[d].nodes {
      if d != e.id {
        assert d in after[k].edges <==> d in nodes[k].edges;
      }
    }
  }

  /**
   * The registration loop of edge.go:50-53: add the edge's ID to the
   * incidence set of every endpoint, one endpoint at a time.
   */
  method Register(nodes: map<string, Node>, ids: seq<string>, eid: string) returns (after: map<string, Node>)
    requires forall i :: 0 <= i < |ids| ==> ids[i] in nodes
    ensures after == Attached(nodes, (set n | n in ids), eid)
  {
    after := nodes;
    var i := 0;
    while i < |ids|
      invariant 0 <= i <= |ids|
      invariant after == Attached(nodes, set j | 0 <= j < i :: ids[j], eid)
    {
      var n := ids[i];
      assert (set j | 0 <= j < i + 1 :: ids[j]) == (set j | 0 <= j < i :: ids[j]) + {n};
      after := after[n := after[n].(edges := after[n].edges + {eid})];
      i := i + 1;
    }
    assert (set j | 0 <= j < i :: ids[j]) == (set n | n in ids);
  }

  /** Some edge has both source and target among its endpoints. */
  ghost predicate Connected(edges: map<string, Edge>, source: string, target: string)
  {
    exists e :: e in edges && source in edges[e].nodes && target in edges[e].nodes
  }

  /** Connection is symmetric, and a node is connected to itself exactly when it lies on some edge. */
  lemma {:induction false} ConnectedProperties(edges: map<string, Edge>, s: string, t: string)
    ensures Connected(edges, s, t) <==> Connected(edges, t, s)
    ensures Connected(edges, s, s) <==> exists e :: e in edges && s in edges[e].nodes
  {
  }

  /**
   * The inner loop of HasConnection (graph.go:81-98): scan the endpoints of
   * one edge, raising a flag for the source and one for the target, and stop
   * as soon as both are raised.
   */
  method Spans(endpoints: set<string>, source: string, target: string) returns (both: bool)
    ensures both <==> source in endpoints && target in endpoints
  {
    var hasSource, hasTarget := false, false;
    both := false;
    var pending := endpoints;
    while pending != {}
      invariant pending <= endpoints
      invariant hasSource <==> source in endpoints && source !in pending
      invariant hasTarget <==> target in endpoints && target !in pending
      invariant !(hasSource && hasTarget)
      decreases pending
    {
      var n :| n in pending;
      if n == source {
        hasSource := true;
      }
      if n == target {
        hasTarget := true;
      }
      pending := pending - {n};
      if hasSource && hasTarget {
        both := true;
        break;
      }
    }
  }

  /** The reply of an IterNodes callback: whether to go on, and an error. */
  datatype Reply = Reply(cont: bool, err: Option<string>)

  /**
   * An IterNodes callback, given the IDs of the nodes it was called on
   * before (so that it may count or remember) and the node itself.
   */
  type Callback = (seq<string>, Node) -> Reply

  /** The transcript of callbacks so far: the nodes called on, the last error, and whether iteration has stopped. */
  datatype Run = Run(calls: seq<string>, err: Option<string>, stopped: bool)

  /** Every ID of ids is in the node table. */
  ghost predicate AllIn(ids: seq<string>, nodes: map<string, Node>)
  {
    forall i :: 0 <= i < |ids| ==> ids[i] in nodes
  }

  /** Offer one more node to the callback (graph.go:156-160): nothing happens once iteration has stopped. */
  function Feed(cb: Callback, nodes: map<string, Node>, run: Run, id: string): Run
    requires id in nodes
  {
    if run.stopped then run
    else
      var reply := cb(run.calls, nodes[id]);
      Run(run.calls + [id], reply.err, reply.err.Some? || !reply.cont)
  }

  /** Offer the nodes of order to the callback, one after the other. */
  function Drive(cb: Callback, nodes: map<string, Node>, order: seq<string>): Run
    requires AllIn(order, nodes)
  {
    if order == [] then Run([], None, false)
    else Feed(cb, nodes, Drive(cb, nodes, order[..|order| - 1]), order[|order| - 1])
  }

  /**
   * What a run r of the callback over order does: it calls the callback on a
   * prefix of order; every call but the last one continued without error;
   * it stops after the first call that returns an error or declines to go
   * on, and it reports that call's error.
   */
  ghost predicate RunSpec(cb: Callback, nodes: map<string, Node>, order: seq<string>, r: Run)
    requires AllIn(order, nodes)
  {
    && r.calls <= order
    && (forall i :: 0 <= i < |r.calls| - 1 ==> cb(r.calls[..i], nodes[r.calls[i]]) == Reply(true, None))
    && (!r.stopped ==> r.calls == order && r.err == None)
    && (!r.stopped ==> forall i :: 0 <= i < |order| ==> cb(order[..i], nodes[order[i]]) == Reply(true, None))
    && (r.stopped ==> |r.calls| > 0 && LastReply(cb, nodes, r.calls, r.err))
  }

  /** The last of calls returned err and ended the iteration. */
  ghost predicate LastReply(cb: Callback, nodes: map<string, Node>, calls: seq<string>, err: Option<string>)
    requires AllIn(calls, nodes) && |calls| > 0
  {
    var last := cb(calls[..|calls| - 1], nodes[calls[|calls| - 1]]);
    err == last.err && (last.err.Some? || !last.cont)
  }

  /** Drive meets RunSpec for every order. */
  lemma {:induction false} DriveSpec(cb: Callback, nodes: map<string, Node>, order: seq<string>)
    requires AllIn(order, nodes)
    ensures RunSpec(cb, nodes, order, Drive(cb, nodes, order))
    decreases |order|
  {
    if order != [] {
      var init := order[..|order| - 1];
      DriveSpec(cb, nodes, init);
      DriveSpecStep(cb, nodes, order, init, Drive(cb, nodes, init), Drive(cb, nodes, order));
    }
  }

  /** Offering one more node keeps RunSpec. */
  lemma DriveSpecStep(cb: Callback, nodes: map<string, Node>, order: seq<string>, init: seq<string>, r0: Run, r: Run)
    requires AllIn(order, nodes) && order != [] && init == order[..|order| - 1]
    requires RunSpec(cb, nodes, init, r0)
    requires r == Feed(cb, nodes, r0, order[|order| - 1])
    ensures RunSpec(cb, nodes, order, r)
  {
    if !r0.stopped {
      assert r.calls == order;
      assert r.calls[..|r.calls| - 1] == init;
      forall i | 0 <= i < |init| ensures cb(order[..i], nodes[order[i]]) == Reply(true, None) {
        assert order[..i] == init[..i];
      }
    }
  }

  /** When the callback always continues without error, every node of order is visited. */
  lemma {:induction false} AllVisited(cb: Callback, nodes: map<string, Node>, order: seq<string>)
    requires AllIn(order, nodes)
    requires forall h, n :: cb(h, n) == Reply(true, None)
    ensures Drive(cb, nodes, order) == Run(order, None, false)
  {
    DriveSpec(cb, nodes, order);
  }

  lemma {:induction false} DriveSnoc(cb: Callback, nodes: map<string, Node>, order: seq<string>, id: string)
    requires AllIn(order, nodes)
    requires id in nodes
    ensures Drive(cb, nodes, order + [id]) == Feed(cb, nodes, Drive(cb, nodes, order), id)
  {
    assert (order + [id])[..|order|] == order;
  }

  /** Once iteration has stopped, offering more nodes changes nothing. */
  lemma {:induction false} DriveStopped(cb: Callback, nodes: map<string, Node>, p: seq<string>, order: seq<string>)
    requires AllIn(order, nodes)
    requires p <= order && Drive(cb, nodes, p).stopped
    ensures Drive(cb, nodes, order) == Drive(cb, nodes, p)
    decreases |order|
  {
    if |order| > |p| {
      var init := order[..|order| - 1];
      assert p <= init;
      DriveStopped(cb, nodes, p, init);
    } else {
      assert p == order;
    }
  }

  /** A first call that declines to go on is the only call. */
  lemma {:induction false} FirstDeclineStops(cb: Callback, nodes: map<string, Node>, order: seq<string>)
    requires AllIn(order, nodes) && order != []
    requires !cb([], nodes[order[0]]).cont
    ensures Drive(cb, nodes, order).calls == [order[0]] && Drive(cb, nodes, order).stopped
  {
    var p := order[..1];
    assert p[..0] == [];
    DriveStopped(cb, nodes, p, order);
  }

  /**
   * The counting callback of load_test.go:256-259 (go on once more than three
   * nodes were counted) stops the iteration after its first call.
   */
  lemma {:induction false} CountingCallbackStopsAtOnce(nodes: map<string, Node>, order: seq<string>)
    requires AllIn(order, nodes) && order != []
    ensures var cb := (h: seq<string>, n: Node) => Reply(|h| + 1 > 3, None);
      |Drive(cb, nodes, order).calls| == 1
  {
    var cb := (h: seq<string>, n: Node) => Reply(|h| + 1 > 3, None);
    FirstDeclineStops(cb, nodes, order);
  }

  /** k carries the attribute. */
  ghost predicate Carrier(nodes: map<string, Node>, attr: string, k: string)
  {
    k in nodes && attr in nodes[k].attrs
  }

  /** The values the attribute takes over the graph's nodes. */
  ghost function Carried(nodes: map<string, Node>, attr: string): set<Value>
  {
    set k | k in nodes && attr in nodes[k].attrs :: nodes[k].attrs[attr]
  }

  /**
   * The nodes carried by groups, keyed by value (nodeMap of graph.go:118-123):
   * each group is a non-empty list without repeats of the nodes that carry
   * that value, and every node of done that carries the attribute is in the
   * group of its value.
   */
  ghost predicate Grouped(nodes: map<string, Node>, attr: string, groups: map<Value, seq<string>>, done: set<string>)
  {
    && (forall v :: v in groups ==> |groups[v]| > 0)
    && (forall v, i :: v in groups && 0 <= i < |groups[v]| ==>
          groups[v][i] in done && Carrier(nodes, attr, groups[v][i]) && nodes[groups[v][i]].attrs[attr] == v)
    && (forall v, i, j :: v in groups && 0 <= i < j < |groups[v]| ==> groups[v][i] != groups[v][j])
    && (forall k :: k in done && Carrier(nodes, attr, k) ==>
          nodes[k].attrs[attr] in groups && k in groups[nodes[k].attrs[attr]])
  }

  /** The groups of vals, one after the other. */
  ghost function Flatten(groups: map<Value, seq<string>>, vals: seq<Value>): seq<string>
    requires forall i :: 0 <= i < |vals| ==> vals[i] in groups
  {
    if vals == [] then [] else Flatten(groups, vals[..|vals| - 1]) + groups[vals[|vals| - 1]]
  }

  lemma {:induction false} FlattenSnoc(groups: map<Value, seq<string>>, vals: seq<Value>, i: nat)
    requires i < |vals| && forall j :: 0 <= j < |vals| ==> vals[j] in groups
    ensures Flatten(groups, vals[..i + 1]) == Flatten(groups, vals[..i]) + groups[vals[i]]
  {
    assert vals[..i + 1][..i] == vals[..i];
  }

  lemma {:induction false} FlattenPrefix(groups: map<Value, seq<string>>, vals: seq<Value>, i: nat)
    requires i <= |vals| && forall j :: 0 <= j < |vals| ==> vals[j] in groups
    ensures Flatten(groups, vals[..i]) <= Flatten(groups, vals)
    decreases |vals| - i
  {
    if i < |vals| {
      FlattenPrefix(groups, vals, i + 1);
      FlattenSnoc(groups, vals, i);
    } else {
      assert vals[..i] == vals;
    }
  }

  /** The order IterNodes visits in: every node carrying the attribute once, by non-decreasing value. */
  ghost predicate ValueOrder(nodes: map<string, Node>, attr: string, order: seq<string>)
  {
    && (forall i :: 0 <= i < |order| ==> Carrier(nodes, attr, order[i]))
    && (forall k :: Carrier(nodes, attr, k) ==> k in order)
    && (forall i, j :: 0 <= i < j < |order| ==> order[i] != order[j])
    && (forall i, j :: 0 <= i < j < |order| ==> Le(nodes[order[i]].attrs[attr], nodes[order[j]].attrs[attr]))
  }

  /** Values in strictly ascending order. */
  ghost predicate Ascending(vals: seq<Value>)
  {
    forall i, j :: 0 <= i < j < |vals| ==> Le(vals[i], vals[j]) && vals[i] != vals[j]
  }

  /** order lists the groups of vals: carriers of those values, each once, by non-decreasing value. */
  ghost predicate FlatOrder(nodes: map<string, Node>, attr: string, groups: map<Value, seq<string>>,
                            vals: seq<Value>, order: seq<string>)
    requires forall i :: 0 <= i < |vals| ==> vals[i] in groups
  {
    FlatMembers(nodes, attr, groups, vals, order) && FlatSorted(nodes, attr, order)
  }

  /** order holds the carriers of the values of vals, and all members of their groups. */
  ghost predicate FlatMembers(nodes: map<string, Node>, attr: string, groups: map<Value, seq<string>>,
                              vals: seq<Value>, order: seq<string>)
    requires forall i :: 0 <= i < |vals| ==> vals[i] in groups
  {
    && (forall p :: 0 <= p < |order| ==> Carrier(nodes, attr, order[p]) && nodes[order[p]].attrs[attr] in vals)
    && (forall i, k :: 0 <= i < |vals| && k in groups[vals[i]] ==> k in order)
  }

  /** order lists carriers without repeats, by non-decreasing value. */
  ghost predicate FlatSorted(nodes: map<string, Node>, attr: string, order: seq<string>)
    requires forall p :: 0 <= p < |order| ==> order[p] in nodes && attr in nodes[order[p]].attrs
  {
    && (forall p, q :: 0 <= p < q < |order| ==> order[p] != order[q])
    && (forall p, q :: 0 <= p < q < |order| ==> Le(nodes[order[p]].attrs[attr], nodes[order[q]].attrs[attr]))
  }

  /**
   * The groups of strictly ascending values, one after the other, visit
   * every node carrying one of those values once, by non-decreasing value.
   */
  lemma {:induction false} FlattenOrdered(nodes: map<string, Node>, attr: string, groups: map<Value, seq<string>>,
                                          done: set<string>, vals: seq<Value>)
    requires Grouped(nodes, attr, groups, done)
    requires Ascending(vals) && forall i :: 0 <= i < |vals| ==> vals[i] in groups && Sortable(vals[i])
    ensures FlatOrder(nodes, attr, groups, vals, Flatten(groups, vals))
    decreases |vals|
  {
    if vals != [] {
      var init, v := vals[..|vals| - 1], vals[|vals| - 1];
      FlattenOrdered(nodes, attr, groups, done, init);
      var prior, order := Flatten(groups, init), Flatten(groups, vals);
      assert vals == init + [v];
      MembersSnoc(nodes, attr, groups, done, vals, init, v, prior, order);
      SortedSnoc(nodes, attr, groups, done, vals, init, v, prior, order);
    }
  }

  /** Appending the group of one more value keeps FlatMembers. */
  lemma {:induction false} MembersSnoc(nodes: map<string, Node>, attr: string, groups: map<Value, seq<string>>,
                    done: set<string>, vals: seq<Value>, init: seq<Value>, v: Value,
                    prior: seq<string>, order: seq<string>)
    requires Grouped(nodes, attr, groups, done)
    requires vals == init + [v] && v in groups && forall i :: 0 <= i < |init| ==> init[i] in groups
    requires prior == Flatten(groups, init) && order == prior + groups[v]
    requires FlatMembers(nodes, attr, groups, init, prior)
    ensures FlatMembers(nodes, attr, groups, vals, order)
  {
    var n := |init|;
    var g := groups[v];
    forall p | 0 <= p < |order| ensures Carrier(nodes, attr, order[p]) && nodes[order[p]].attrs[attr] in vals {
      if p >= |prior| {
        assert order[p] == g[p - |prior|];
        assert vals[n] == v;
      } else {
        assert order[p] == prior[p];
        var i :| 0 <= i < |init| && init[i] == nodes[order[p]].attrs[attr];
        assert vals[i] == init[i];
      }
    }
    forall i, k | 0 <= i < |vals| && k in groups[vals[i]] ensures k in order {
      if i < n {
        assert vals[i] == init[i] && k in groups[init[i]];
        assert k in prior;
        var j :| 0 <= j < |prior| && prior[j] == k;
        assert order[j] == k;
      } else {
        var j :| 0 <= j < |g| && g[j] == k;
        assert order[|prior| + j] == k;
      }
    }
  }

  /** Appending the group of a value above all earlier ones keeps FlatSorted. */
  lemma {:induction false} SortedSnoc(nodes: map<string, Node>, attr: string, groups: map<Value, seq<string>>,
                   done: set<string>, vals: seq<Value>, init: seq<Value>, v: Value,
                   prior: seq<string>, order: seq<string>)
    requires Grouped(nodes, attr, groups, done)
    requires vals == init + [v] && v in groups && forall i :: 0 <= i < |init| ==> init[i] in groups
    requires Ascending(vals) && Sortable(v)
    requires prior == Flatten(groups, init) && order == prior + groups[v]
    requires FlatMembers(nodes, attr, groups, init, prior) && FlatSorted(nodes, attr, prior)
    requires FlatMembers(nodes, attr, groups, vals, order)
    ensures FlatSorted(nodes, attr, order)
  {
    var n := |init|;
    var g := groups[v];
    forall p, q | 0 <= p < q < |order|
      ensures order[p] != order[q]
      ensures Le(nodes[order[p]].attrs[attr], nodes[order[q]].attrs[attr])
    {
      if q < |prior| {
        assert order[p] == prior[p] && order[q] == prior[q];
      } else if p >= |prior| {
        var a, b := p - |prior|, q - |prior|;
        assert order[p] == g[a] && order[q] == g[b];
        assert nodes[g[a]].attrs[attr] == v && nodes[g[b]].attrs[attr] == v;
        LeRefl(v);
      } else {
        var b := q - |prior|;
        assert order[p] == prior[p] && order[q] == g[b];
        assert nodes[g[b]].attrs[attr] == v;
        var u := nodes[order[p]].attrs[attr];
        var i :| 0 <= i < |init| && init[i] == u;
        assert vals[i] == u && vals[n] == v;
        assert Le(u, v) && u != v;
      }
    }
  }

  /** The groups of all carried values, in ascending order of value, are the visiting order. */
  lemma {:induction false} SortedGroups(nodes: map<string, Node>, attr: string, groups: map<Value, seq<string>>, sorted: seq<Value>)
    requires Grouped(nodes, attr, groups, nodes.Keys) && groups.Keys == Carried(nodes, attr)
    requires forall v :: v in sorted <==> v in groups && Sortable(v)
    requires forall v :: v in groups ==> Sortable(v)
    requires Ascending(sorted)
    ensures forall i :: 0 <= i < |sorted| ==> sorted[i] in groups
    ensures ValueOrder(nodes, attr, Flatten(groups, sorted))
  {
    FlattenOrdered(nodes, attr, groups, nodes.Keys, sorted);
    var order := Flatten(groups, sorted);
    forall k | Carrier(nodes, attr, k) ensures k in order {
      var v := nodes[k].attrs[attr];
      var i :| 0 <= i < |sorted| && sorted[i] == v;
    }
  }

  /**
   * sort.Sort on the carried values (graph.go:150), as selection of the least
   * remaining value: distinct values of one sortable kind in ascending order.
   */
  method SortValues(vals: seq<Value>) returns (sorted: seq<Value>)
    requires OneSortableKind(set v | v in vals)
    ensures forall v :: v in sorted <==> v in vals
    ensures Ascending(sorted)
  {
    var remaining := set v | v in vals;
    sorted := [];
    while remaining != {}
      invariant forall v :: v in remaining ==> v in vals
      invariant forall v :: v in vals <==> v in sorted || v in remaining
      invariant forall i :: 0 <= i < |sorted| ==> sorted[i] !in remaining
      invariant Ascending(sorted)
      invariant forall i, w :: 0 <= i < |sorted| && w in remaining ==> Le(sorted[i], w)
      decreases remaining
    {
      assert OneSortableKind(remaining);
      LeastExists(remaining);
      var m :| m in remaining && forall w :: w in remaining ==> Le(m, w);
      sorted := sorted + [m];
      remaining := remaining - {m};
    }
  }

  class Graph {
    var attrs: Attrs
    var gtype: string
    var edges: map<string, Edge>
    var nodes: map<string, Node>

    /** The tables are linked by ID. */
    ghost predicate Valid()
      reads this
    {
      Linked(nodes, edges)
    }

    /** NewGraph (graph.go:38-47): an empty graph of the given type; Go's error result is always nil. */
    constructor (graphType: string)
      ensures gtype == graphType && attrs == map[] && nodes == map[] && edges == map[]
      ensures Valid() && Symmetric(nodes, edges)
    {
      gtype := graphType;
      attrs := NewAttributeCollection();
      edges := map[];
      nodes := map[];
    }

    /**
     * AddNode (graph.go:49-56): a valid ID stores a fresh node under it,
     * replacing any node stored there before; an invalid one changes nothing.
     */
    method AddNode(id: string) returns (r: Result<Node>)
      requires Valid()
      modifies this
      ensures Valid()
      ensures r == NewNode(id)
      ensures r.Ok? ==> nodes == old(nodes)[id := r.value]
      ensures r.Err? ==> nodes == old(nodes)
      ensures edges == old(edges) && attrs == old(attrs) && gtype == old(gtype)
      ensures old(Symmetric(nodes, edges)) && (id in old(nodes) ==> old(nodes)[id].edges == {}) ==> Symmetric(nodes, edges)
    {
      r := NewNode(id);
      if r.Ok? {
        nodes := nodes[id := r.value];
      }
    }

    /**
     * AddEdge (graph.go:58-71) with the registration of edge.go:49-53: a
     * valid edge is stored under its ID and its ID is added to the incidence
     * set of every endpoint; an invalid one changes nothing.
     */
    method AddEdge(edgeAttrs: Attrs, nodeIds: seq<string>) returns (r: Result<Edge>)
      requires Valid()
      requires IdAttr in edgeAttrs ==> edgeAttrs[IdAttr].Str?   // a non-string "id" panics (edge.go:28)
      // an unknown node ID is a nil node, dereferenced unless an explicit "id" makes the edge fail (edge.go:37, 51)
      requires (forall i :: 0 <= i < |nodeIds| ==> nodeIds[i] in nodes)
            || (IdAttr in edgeAttrs && (edgeAttrs[IdAttr].s == "" || |nodeIds| < 2))
      modifies this
      ensures Valid()
      ensures r.Ok? <==> |nodeIds| >= 2 && (IdAttr in edgeAttrs ==> edgeAttrs[IdAttr].s != "")
      ensures r.Err? ==> r.error == if |nodeIds| < 2 then TooFewEndpoints else InvalidEdgeId
      ensures r.Ok? ==> forall n :: n in r.value.nodes <==> n in nodeIds
      ensures r.Ok? && IdAttr in edgeAttrs ==> r.value.id == edgeAttrs[IdAttr].s && r.value.attrs == edgeAttrs - {IdAttr}
      ensures r.Ok? && IdAttr !in edgeAttrs ==> r.value.id == Join(nodeIds) && r.value.attrs == edgeAttrs
      ensures r.Ok? ==> edges == old(edges)[r.value.id := r.value] && nodes == Attached(old(nodes), r.value.nodes, r.value.id)
      ensures r.Err? ==> edges == old(edges) && nodes == old(nodes)
      ensures attrs == old(attrs) && gtype == old(gtype)
      ensures r.Ok? && r.value.id !in old(edges) && old(Symmetric(nodes, edges)) ==> Symmetric(nodes, edges)
    {
      r := NewEdge(edgeAttrs, nodeIds);
      if r.Ok? {
        var eid := r.value.id;
        var table := Register(nodes, nodeIds, eid);
        assert (set n | n in nodeIds) == r.value.nodes;
        AttachedLinked(nodes, edges, r.value);
        if eid !in edges && Symmetric(nodes, edges) {
          AttachedSymmetric(nodes, edges, r.value);
        }
        nodes := table;
        edges := edges[eid := r.value];
      }
    }

    /**
     * HasConnection (graph.go:73-110): on an undirected graph, whether some
     * edge has both nodes as endpoints; any other graph type is an error.
     */
    method HasConnection(source: string, target: string) returns (result: bool, err: Option<string>)
      ensures err.Some? <==> gtype != Undirected
      ensures err.Some? ==> err.value == UnknownGraphType + gtype && !result
      ensures err.None? ==> (result <==> Connected(edges, source, target))
    {
      result, err := false, None;
      if gtype == Undirected {
        var pending := edges.Keys;
        while pending != {}
          invariant pending <= edges.Keys
          invariant forall e :: e in edges && e !in pending ==> !(source in edges[e].nodes && target in edges[e].nodes)
          invariant !result
          decreases pending
        {
          var e :| e in pending;
          result := Spans(edges[e].nodes, source, target);
          if result {
            break;
          }
          pending := pending - {e};
        }
      } else {
        err := Some(UnknownGraphType + gtype);
      }
    }

    /**
     * IterNodes (graph.go:112-169): call back on every node that carries the
     * attribute, by ascending value, until the callback stops or fails. The
     * ghost result order is the full visiting order that the calls follow.
     */
    method IterNodes(attr: string, iterFunc: Option<Callback>)
        returns (err: Option<string>, visited: seq<string>, ghost order: seq<string>)
      // sort.Sort(nil) panics when no node carries the attribute (graph.go:150)
      requires iterFunc.Some? ==> Carried(nodes, attr) != {}
      // a slice, map or func value cannot be hashed as a key of nodeMap and panics (graph.go:121)
      requires iterFunc.Some? ==> forall v :: v in Carried(nodes, attr) ==> !v.Unhashable?
      // two sortable kinds make a type assertion panic (graph.go:132, 137, 142)
      requires iterFunc.Some? ==>
        forall a, b :: a in Carried(nodes, attr) && b in Carried(nodes, attr) && Sortable(a) && Sortable(b) ==> SameKind(a, b)
      ensures iterFunc.None? ==> err == Some(NoIterationFunction) && visited == []
      ensures iterFunc.Some? && (exists v :: v in Carried(nodes, attr) && !Sortable(v)) ==>
        err == Some(NonSortableType) && visited == []
      ensures iterFunc.Some? && (forall v :: v in Carried(nodes, attr) ==> Sortable(v)) ==>
        && ValueOrder(nodes, attr, order)
        && visited == Drive(iterFunc.value, nodes, order).calls
        && err == Drive(iterFunc.value, nodes, order).err
    {
      visited, order := [], [];
      if iterFunc.None? {
        err := Some(NoIterationFunction);
        return;
      }
      var cb := iterFunc.value;
      var nodeMap := GroupCarriers(nodes, attr);
      var vals;
      vals, err := SortableKeys(nodeMap);
      if err.Some? {
        return;
      }
      CarriedKeys(nodes, attr, nodeMap);
      assert (set v | v in vals) == Carried(nodes, attr);
      var sorted := SortValues(vals);
      SortedGroups(nodes, attr, nodeMap, sorted);
      order := Flatten(nodeMap, sorted);
      visited, err := Walk(cb, nodes, nodeMap, sorted);
    }

    /** BFSd (algo_bfs.go:22-26): BFS writing the distances under "d". */
    method BFSd(root: string) returns (err: Option<string>)
      requires Valid() && root in nodes
      modifies this
      ensures Valid() && err == None
      ensures edges == old(edges) && attrs == old(attrs) && gtype == old(gtype)
      ensures nodes.Keys == old(nodes).Keys
      ensures forall k :: k in nodes ==> "d" in nodes[k].attrs && nodes[k].attrs["d"].Int?
      ensures forall k :: k in nodes ==> nodes[k] == old(nodes)[k].(attrs := old(nodes)[k].attrs["d" := nodes[k].attrs["d"]])
      ensures forall k :: k in nodes ==> Bfs.HopDistance(old(nodes), edges, root, k, nodes[k].attrs["d"].i)
    {
      err := BFS(root, "d");
    }

    /**
     * BFS (algo_bfs.go:28-76): every node's attribute valueAttr becomes its
     * hop distance from root over Adj, -1 when root does not reach it; no
     * other attribute changes and the error is always nil.
     */
    method BFS(root: string, valueAttr: string) returns (err: Option<string>)
      requires Valid() && root in nodes   // an absent root is a nil node (algo_bfs.go:33, 43)
      modifies this
      ensures Valid() && err == None
      ensures edges == old(edges) && attrs == old(attrs) && gtype == old(gtype)
      ensures nodes.Keys == old(nodes).Keys
      ensures forall k :: k in nodes ==> valueAttr in nodes[k].attrs && nodes[k].attrs[valueAttr].Int?
      ensures forall k :: k in nodes ==>
        nodes[k] == old(nodes)[k].(attrs := old(nodes)[k].attrs[valueAttr := nodes[k].attrs[valueAttr]])
      ensures forall k :: k in nodes ==> Bfs.HopDistance(old(nodes), edges, root, k, nodes[k].attrs[valueAttr].i)
    {
      var labelled := LabelAll(nodes, edges, root, valueAttr);
      nodes := labelled;
      err := None;
    }
  }

  /**
   * The search and its writes (algo_bfs.go:33-73) on the node table: every
   * node's store gains attr, holding the node's hop distance from root.
   */
  method LabelAll(nodes: map<string, Node>, edges: map<string, Edge>, root: string, attr: string)
      returns (labelled: map<string, Node>)
    requires Linked(nodes, edges) && root in nodes
    ensures Linked(labelled, edges)
    ensures labelled.Keys == nodes.Keys
    ensures forall k :: k in labelled ==> attr in labelled[k].attrs && labelled[k].attrs[attr].Int?
    ensures forall k :: k in labelled ==> labelled[k] == nodes[k].(attrs := nodes[k].attrs[attr := labelled[k].attrs[attr]])
    ensures forall k :: k in labelled ==> Bfs.HopDistance(nodes, edges, root, k, labelled[k].attrs[attr].i)
  {
    var dist, _ := Bfs.Search(nodes, edges, root);
    labelled := WriteDistances(nodes, attr, dist);
    LabelledLinked(nodes, edges, attr, dist);
    LabelledDistances(nodes, edges, root, attr, dist);
  }

  /** The write loop: set attr on every node's store to the node's distance. */
  method WriteDistances(nodes: map<string, Node>, attr: string, dist: map<string, int>) returns (labelled: map<string, Node>)
    requires nodes.Keys <= dist.Keys
    ensures labelled == Labelled(nodes, attr, dist, nodes.Keys)
  {
    labelled := nodes;
    var pending := nodes.Keys;
    while pending != {}
      invariant pending <= nodes.Keys
      invariant labelled == Labelled(nodes, attr, dist, nodes.Keys - pending)
      decreases pending
    {
      var k :| k in pending;
      LabelledStep(nodes, attr, dist, nodes.Keys - pending, k);
      assert nodes.Keys - (pending - {k}) == (nodes.Keys - pending) + {k};
      labelled := labelled[k := labelled[k].(attrs := Set(labelled[k].attrs, attr, Int(dist[k])))];
      pending := pending - {k};
    }
    assert nodes.Keys - pending == nodes.Keys;
  }

  /** The node table once the nodes of done carry their distance under attr. */
  function Labelled(nodes: map<string, Node>, attr: string, dist: map<string, int>, done: set<string>): map<string, Node>
    requires nodes.Keys <= dist.Keys
  {
    map k | k in nodes :: if k in done then nodes[k].(attrs := nodes[k].attrs[attr := Int(dist[k])]) else nodes[k]
  }

  /** Labelling one more node is one assignment to that node's store. */
  lemma {:induction false} LabelledStep(nodes: map<string, Node>, attr: string, dist: map<string, int>, done: set<string>, k: string)
    requires nodes.Keys <= dist.Keys && k in nodes && k !in done
    ensures var m := Labelled(nodes, attr, dist, done);
      Labelled(nodes, attr, dist, done + {k}) == m[k := m[k].(attrs := Set(m[k].attrs, attr, Int(dist[k])))]
  {
    var m := Labelled(nodes, attr, dist, done);
    var a := Labelled(nodes, attr, dist, done + {k});
    var b := m[k := m[k].(attrs := Set(m[k].attrs, attr, Int(dist[k])))];
    assert a.Keys == b.Keys;
    forall n | n in a ensures a[n] == b[n] {
    }
  }

  /** Once every node is labelled, each node carries its hop distance from root and nothing else changed. */
  lemma {:induction false} LabelledDistances(nodes: map<string, Node>, edges: map<string, Edge>, root: string, attr: string, dist: map<string, int>)
    requires dist.Keys == nodes.Keys
    requires forall v :: v in nodes ==> Bfs.HopDistance(nodes, edges, root, v, dist[v])
    ensures var m := Labelled(nodes, attr, dist, nodes.Keys);
      && m.Keys == nodes.Keys
      && (forall k :: k in m ==> attr in m[k].attrs && m[k].attrs[attr].Int?)
      && (forall k :: k in m ==> m[k] == nodes[k].(attrs := nodes[k].attrs[attr := m[k].attrs[attr]]))
      && (forall k :: k in m ==> Bfs.HopDistance(nodes, edges, root, k, m[k].attrs[attr].i))
  {
  }

  /** Labelling changes only attributes, so the tables stay linked. */
  lemma {:induction false} LabelledLinked(nodes: map<string, Node>, edges: map<string, Edge>, attr: string, dist: map<string, int>)
    requires Linked(nodes, edges) && nodes.Keys <= dist.Keys
    ensures Linked(Labelled(nodes, attr, dist, nodes.Keys), edges)
  {
    var m := Labelled(nodes, attr, dist, nodes.Keys);
    assert m.Keys == nodes.Keys;
  }

  /**
   * The grouping loop of IterNodes (graph.go:118-123): the carriers of the
   * attribute, grouped by value.
   */
  method GroupCarriers(nodes: map<string, Node>, attr: string) returns (nodeMap: map<Value, seq<string>>)
    requires forall v :: v in Carried(nodes, attr) ==> !v.Unhashable?   // a Go map key must be hashable (graph.go:121)
    ensures Grouped(nodes, attr, nodeMap, nodes.Keys)
    ensures forall v :: v in nodeMap ==> v in Carried(nodes, attr)
  {
    nodeMap := map[];
    var pending := nodes.Keys;
    while pending != {}
      invariant pending <= nodes.Keys
      invariant Grouped(nodes, attr, nodeMap, nodes.Keys - pending)
      invariant forall v :: v in nodeMap ==> v in Carried(nodes, attr)
      decreases pending
    {
      var k :| k in pending;
      ghost var done := nodes.Keys - pending;
      var (a, ok) := Get(nodes[k].attrs, attr);
      if ok {
        assert a in Carried(nodes, attr);
        assert !a.Unhashable?;   // the value can be hashed as a key of nodeMap
        var group := if a in nodeMap then nodeMap[a] else [];
        GroupStep(nodes, attr, nodeMap, done, k, nodeMap[a := group + [k]]);
        nodeMap := nodeMap[a := group + [k]];
      } else {
        GroupSkip(nodes, attr, nodeMap, done, k);
      }
      pending := pending - {k};
      assert nodes.Keys - pending == done + {k};
    }
    assert nodes.Keys - pending == nodes.Keys;
  }

  /** Appending a carrier to the group of its value keeps the grouping. */
  lemma {:induction false} GroupStep(nodes: map<string, Node>, attr: string, groups: map<Value, seq<string>>, done: set<string>,
                  k: string, groups': map<Value, seq<string>>)
    requires Grouped(nodes, attr, groups, done) && k !in done && Carrier(nodes, attr, k)
    requires groups' == groups[nodes[k].attrs[attr] := (if nodes[k].attrs[attr] in groups then groups[nodes[k].attrs[attr]] else []) + [k]]
    ensures Grouped(nodes, attr, groups', done + {k})
  {
  }

  /** A node without the attribute leaves the grouping as it is. */
  lemma {:induction false} GroupSkip(nodes: map<string, Node>, attr: string, groups: map<Value, seq<string>>, done: set<string>, k: string)
    requires Grouped(nodes, attr, groups, done) && k in nodes && !Carrier(nodes, attr, k)
    ensures Grouped(nodes, attr, groups, done + {k})
  {
  }

  /**
   * The type switch of IterNodes (graph.go:125-147): the sortable keys, and
   * an error when some key is of any other type.
   */
  method SortableKeys(nodeMap: map<Value, seq<string>>) returns (vals: seq<Value>, err: Option<string>)
    ensures forall v :: v in vals <==> v in nodeMap && Sortable(v)
    ensures err == None <==> forall v :: v in nodeMap ==> Sortable(v)
    ensures err != None ==> err == Some(NonSortableType)
  {
    vals, err := [], None;
    var keys := nodeMap.Keys;
    while keys != {}
      invariant keys <= nodeMap.Keys
      invariant forall v :: v in vals <==> v in nodeMap && v !in keys && Sortable(v)
      invariant err == None <==> forall v :: v in nodeMap && v !in keys ==> Sortable(v)
      invariant err != None ==> err == Some(NonSortableType)
      decreases keys
    {
      var v :| v in keys;
      if Sortable(v) {
        vals := vals + [v];
      } else {
        err := Some(NonSortableType);
      }
      keys := keys - {v};
    }
  }

  /**
   * The visiting loops of IterNodes (graph.go:152-165): call back on the
   * groups of sorted one after the other, stopping at the first call that
   * fails or declines to go on.
   */
  method Walk(cb: Callback, nodes: map<string, Node>, nodeMap: map<Value, seq<string>>, sorted: seq<Value>)
      returns (visited: seq<string>, err: Option<string>)
    requires forall i :: 0 <= i < |sorted| ==> sorted[i] in nodeMap
    requires forall v :: v in nodeMap ==> |nodeMap[v]| > 0
    requires forall v, i :: v in nodeMap && 0 <= i < |nodeMap[v]| ==> nodeMap[v][i] in nodes
    ensures AllIn(Flatten(nodeMap, sorted), nodes)
    ensures visited == Drive(cb, nodes, Flatten(nodeMap, sorted)).calls
    ensures err == Drive(cb, nodes, Flatten(nodeMap, sorted)).err
  {
    visited, err := [], None;
    FlattenIn(nodes, nodeMap, sorted);
    var i := 0;
    while i < |sorted|
      invariant 0 <= i <= |sorted|
      invariant AllIn(Flatten(nodeMap, sorted[..i]), nodes)
      invariant Drive(cb, nodes, Flatten(nodeMap, sorted[..i])) == Run(visited, err, false)
    {
      var group := nodeMap[sorted[i]];
      ghost var prior := Flatten(nodeMap, sorted[..i]);
      var stop: bool;
      var j: nat;
      visited, err, stop, j := Offer(cb, nodes, prior, group, visited);
      FlattenSnoc(nodeMap, sorted, i);
      FlattenIn(nodes, nodeMap, sorted[..i + 1]);
      if stop {
        FlattenPrefix(nodeMap, sorted, i + 1);
        assert prior + group[..j] <= Flatten(nodeMap, sorted[..i + 1]);
        DriveStopped(cb, nodes, prior + group[..j], Flatten(nodeMap, sorted));
        return;
      }
      assert group[..j] == group;
      i := i + 1;
    }
    assert sorted[..i] == sorted;
  }

  /**
   * The inner loop of IterNodes (graph.go:156-160): call back on the nodes
   * of one group until a call fails or declines to go on. stop tells the
   * outer loop to break (graph.go:162-164); j is the number of calls made.
   */
  method Offer(cb: Callback, nodes: map<string, Node>, ghost prior: seq<string>, group: seq<string>,
               visited0: seq<string>)
      returns (visited: seq<string>, err: Option<string>, stop: bool, j: nat)
    requires AllIn(prior, nodes) && AllIn(group, nodes) && |group| > 0
    requires Drive(cb, nodes, prior) == Run(visited0, None, false)
    ensures 0 < j <= |group| && AllIn(prior + group[..j], nodes)
    ensures Drive(cb, nodes, prior + group[..j]) == Run(visited, err, stop)
    ensures !stop ==> j == |group|
  {
    visited, err, stop := visited0, None, false;
    var cont := false;
    j := 0;
    assert prior + group[..0] == prior;
    while j < |group|
      invariant 0 <= j <= |group| && AllIn(prior + group[..j], nodes)
      invariant Drive(cb, nodes, prior + group[..j]) == Run(visited, err, false)
      invariant j > 0 ==> cont && err == None
    {
      assert (prior + group[..j]) + [group[j]] == prior + group[..j + 1];
      DriveSnoc(cb, nodes, prior + group[..j], group[j]);
      var reply := cb(visited, nodes[group[j]]);
      cont, err := reply.cont, reply.err;
      visited := visited + [group[j]];
      j := j + 1;
      if err.Some? || !cont {
        stop := true;
        return;
      }
    }
  }

  /** The groups of sorted hold only IDs of the node table. */
  lemma {:induction false} FlattenIn(nodes: map<string, Node>, nodeMap: map<Value, seq<string>>, sorted: seq<Value>)
    requires forall i :: 0 <= i < |sorted| ==> sorted[i] in nodeMap
    requires forall v, i :: v in nodeMap && 0 <= i < |nodeMap[v]| ==> nodeMap[v][i] in nodes
    ensures AllIn(Flatten(nodeMap, sorted), nodes)
    decreases |sorted|
  {
    if sorted != [] {
      var init := sorted[..|sorted| - 1];
      FlattenIn(nodes, nodeMap, init);
      var g := nodeMap[sorted[|sorted| - 1]];
      forall p | 0 <= p < |Flatten(nodeMap, sorted)| ensures Flatten(nodeMap, sorted)[p] in nodes {
        if p >= |Flatten(nodeMap, init)| {
          assert Flatten(nodeMap, sorted)[p] == g[p - |Flatten(nodeMap, init)|];
        }
      }
    }
  }

  /** The keys of a complete grouping are exactly the carried values. */
  lemma {:induction false} CarriedKeys(nodes: map<string, Node>, attr: string, groups: map<Value, seq<string>>)
    requires Grouped(nodes, attr, groups, nodes.Keys)
    requires forall v :: v in groups ==> v in Carried(nodes, attr)
    ensures groups.Keys == Carried(nodes, attr)
  {
    forall v | v in Carried(nodes, attr) ensures v in groups {
      var k :| k in nodes && attr in nodes[k].attrs && nodes[k].attrs[attr] == v;
    }
  }
}
