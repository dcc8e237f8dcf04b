/**
 * Edges (edge.go). An edge is a record in the graph's edge table; its
 * endpoints are kept as the set of their node IDs (Go keys edge.Nodes by
 * node ID, so an ID given twice is kept once).
 */
module Edges {

  import opened Wrappers
  import opened Attributes

  datatype Edge = Edge(id: string, attrs: Attrs, nodes: set<string>)

  const InvalidEdgeId := "Invalid edge id"
  const TooFewEndpoints := "Edges must have atleast two nodes to connect"

  /** The reserved attribute that names an edge explicitly. */
  const IdAttr := "id"

  /** A valid node ID is non-empty (node.go rejects the empty ID). */
  predicate NonEmptyIds(ids: seq<string>)
  {
    forall i :: 0 <= i < |ids| ==> ids[i] != ""
  }

  /** The endpoint IDs written out with "-" between neighbours, in the order given. */
  function Join(ids: seq<string>): string
  {
    if |ids| == 0 then ""
    else if |ids| == 1 then ids[0]
    else ids[0] + "-" + Join(ids[1..])
  }

  /**
   * The ID the synthesis loop of edge.go:34-42 builds: it starts from the
   * empty string, takes the first ID while the ID so far is empty, and
   * afterwards appends "-" and the next ID.
   */
  function FoldId(ids: seq<string>): string
  {
    if ids == [] then ""
    else
      var prior := FoldId(ids[..|ids| - 1]);
      if prior == "" then ids[|ids| - 1] else prior + "-" + ids[|ids| - 1]
  }

  lemma {:induction false} JoinSnoc(ids: seq<string>, x: string)
    requires |ids| > 0
    ensures Join(ids + [x]) == Join(ids) + "-" + x
  {
    if |ids| == 1 {
      assert ids + [x] == [ids[0], x];
    } else {
      assert (ids + [x])[1..] == ids[1..] + [x];
      JoinSnoc(ids[1..], x);
    }
  }

  lemma {:induction false} JoinNonEmpty(ids: seq<string>)
    requires |ids| > 0 && NonEmptyIds(ids)
    ensures Join(ids) != ""
  {
    if |ids| > 1 {
      JoinNonEmpty(ids[1..]);
    }
  }

  /** With non-empty node IDs the synthesis loop yields exactly the "-"-join. */
  lemma {:induction false} FoldIdIsJoin(ids: seq<string>)
    requires NonEmptyIds(ids)
    ensures FoldId(ids) == Join(ids)
  {
    if |ids| > 1 {
      var init := ids[..|ids| - 1];
      FoldIdIsJoin(init);
      JoinNonEmpty(init);
      assert init + [ids[|ids| - 1]] == ids;
      JoinSnoc(init, ids[|ids| - 1]);
    } else if |ids| == 1 {
      assert ids[..0] == [];
    }
  }

  /**
   * NewEdge (edge.go:19-59) without the registration into the endpoint nodes,
   * which the graph does (Graphs.Graph.AddEdge). The endpoints are given by
   * their node IDs, in the caller's order.
   */
  method NewEdge(attrs: Attrs, endpoints: seq<string>) returns (r: Result<Edge>)
    requires IdAttr in attrs ==> attrs[IdAttr].Str?   // a non-string "id" panics (edge.go:28)
    ensures r.Ok? <==> |endpoints| >= 2 && (IdAttr in attrs ==> attrs[IdAttr].s != "")
    ensures r.Err? ==> r.error == if |endpoints| < 2 then TooFewEndpoints else InvalidEdgeId
    ensures r.Ok? ==> forall n :: n in r.value.nodes <==> n in endpoints
    ensures r.Ok? && IdAttr in attrs ==> r.value.id == attrs[IdAttr].s && r.value.attrs == attrs - {IdAttr}
    ensures r.Ok? && IdAttr !in attrs ==> r.value.id == FoldId(endpoints) && r.value.attrs == attrs
    ensures r.Ok? && IdAttr !in attrs && NonEmptyIds(endpoints) ==> r.value.id == Join(endpoints)
  {
    var edgeAttrs := attrs;
    var id := "";
    var err: Option<string> := None;
    if Contains(edgeAttrs, IdAttr) {
      var v := Get(edgeAttrs, IdAttr).0;
      if |v.s| > 0 {
        id := v.s;
        edgeAttrs := Remove(edgeAttrs, IdAttr);
      } else {
        err := Some(InvalidEdgeId);
      }
    } else {
      var i := 0;
      while i < |endpoints|
        invariant 0 <= i <= |endpoints|
        invariant id == FoldId(endpoints[..i])
      {
        assert endpoints[..i + 1][..i] == endpoints[..i];
        if |id| == 0 {
          id := endpoints[i];
        } else {
          id := id + "-" + endpoints[i];
        }
        i := i + 1;
      }
      assert endpoints[..i] == endpoints;
      if NonEmptyIds(endpoints) {
        FoldIdIsJoin(endpoints);
      }
    }

    if |endpoints| < 2 {
      err := Some(TooFewEndpoints);
    }

    if err.None? {
      var members: set<string> := {};
      var j := 0;
      while j < |endpoints|
        invariant 0 <= j <= |endpoints|
        invariant forall n :: n in members <==> n in endpoints[..j]
      {
        members := members + {endpoints[j]};
        j := j + 1;
      }
      assert endpoints[..j] == endpoints;
      r := Ok(Edge(id, edgeAttrs, members));
    } else {
      r := Err(err.value);
    }
  }
}
