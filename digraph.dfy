/**
 * The directed graph the knowledge graph stores its nodes and edges in (a networkx `DiGraph`):
 * nodes in insertion order, each with an attribute record, at most one edge per ordered pair of
 * nodes, carrying the edge's data, and for each node its successors in the order their edges were
 * first added (networkx keeps one insertion-ordered dictionary of successors per node).
 */
module Digraphs {
  import opened Records

  /** The node attributes mirrored from a concept. */
  datatype NodeAttrs = NodeAttrs(name: string, category: string, description: string)

  /** The data of one edge. */
  datatype EdgeData = EdgeData(relationType: string, strength: real, description: string)

  datatype Digraph = Digraph(nodes: seq<Id>, attrs: map<Id, NodeAttrs>, edges: map<(Id, Id), EdgeData>, succ: map<Id, seq<Id>>)

  /**
   * Nodes are distinct, each has attributes and a successor list, every edge joins two nodes, and
   * each node's successor list holds, once each, exactly the targets of its edges.
   */
  ghost predicate WellFormed(g: Digraph) {
    && Distinct(g.nodes)
    && (forall v :: v in g.attrs <==> v in g.nodes)
    && g.succ.Keys == g.attrs.Keys
    && (forall e :: e in g.edges ==> e.0 in g.attrs && e.1 in g.attrs)
    && (forall u :: u in g.succ ==> Distinct(g.succ[u]))
    && (forall u, v :: u in g.succ && v in g.succ[u] ==> (u, v) in g.edges)
    && (forall e :: e in g.edges ==> e.1 in g.succ[e.0])
  }

  function Empty(): (g: Digraph)
    ensures WellFormed(g) && g.nodes == [] && g.edges == map[]
  {
    Digraph([], map[], map[], map[])
  }

  /** `add_node(id, **a)`: a new node goes last, with no successors; an existing node keeps its place and takes the new attributes. */
  function AddNode(g: Digraph, id: Id, a: NodeAttrs): (r: Digraph)
    requires WellFormed(g)
    ensures WellFormed(r)
    ensures r.nodes == if id in g.attrs then g.nodes else g.nodes + [id]
    ensures r.attrs == g.attrs[id := a] && r.edges == g.edges
  {
    Digraph(if id in g.attrs then g.nodes else g.nodes + [id], g.attrs[id := a], g.edges,
            if id in g.attrs then g.succ else g.succ[id := []])
  }

  /**
   * `add_edge(u, v, **d)` between existing nodes: sets the data of (u, v), replacing any earlier
   * data; a new edge puts `v` last among `u`'s successors, an existing one keeps its place.
   */
  function AddEdge(g: Digraph, u: Id, v: Id, d: EdgeData): (r: Digraph)
    requires WellFormed(g) && u in g.attrs && v in g.attrs
    ensures WellFormed(r)
    ensures r.nodes == g.nodes && r.attrs == g.attrs
    ensures r.edges == g.edges[(u, v) := d]
    ensures (u, v) in r.edges && r.edges[(u, v)] == d
    ensures forall e :: e != (u, v) ==> (e in r.edges <==> e in g.edges)
    ensures forall e :: e != (u, v) && e in g.edges ==> r.edges[e] == g.edges[e]
  {
    if (u, v) in g.edges then Digraph(g.nodes, g.attrs, g.edges[(u, v) := d], g.succ)
    else
      NewEdgeWellFormed(g, u, v, d);
      Digraph(g.nodes, g.attrs, g.edges[(u, v) := d], g.succ[u := g.succ[u] + [v]])
  }

  /** A new edge with its target appended to its source's successors keeps the graph well formed. */
  lemma NewEdgeWellFormed(g: Digraph, u: Id, v: Id, d: EdgeData)
    requires WellFormed(g) && u in g.attrs && v in g.attrs && (u, v) !in g.edges
    ensures WellFormed(Digraph(g.nodes, g.attrs, g.edges[(u, v) := d], g.succ[u := g.succ[u] + [v]]))
  {
    var r := Digraph(g.nodes, g.attrs, g.edges[(u, v) := d], g.succ[u := g.succ[u] + [v]]);
    assert v !in g.succ[u];
    DistinctAppend(g.succ[u], [v]);
    assert forall x :: x in r.succ ==> Distinct(r.succ[x]);
    forall x, y | x in r.succ && y in r.succ[x] ensures (x, y) in r.edges {
      if x == u && y != v {
        assert y in g.succ[u];
      }
    }
    forall e | e in r.edges ensures e.1 in r.succ[e.0] {
      if e != (u, v) {
        assert e.1 in g.succ[e.0];
      }
    }
  }

  function Remove(s: seq<Id>, x: Id): (r: seq<Id>)
    ensures forall y :: y in r <==> y in s && y != x
    ensures Distinct(s) ==> Distinct(r)
  {
    if s == [] then []
    else if s[0] == x then Remove(s[1..], x)
    else
      var rest := Remove(s[1..], x);
      assert Distinct(s) ==> s[0] !in rest;
      [s[0]] + rest
  }

  /** `remove_node(id)`: the node goes, with every edge into or out of it; the rest keeps its order. */
  function RemoveNode(g: Digraph, id: Id): (r: Digraph)
    requires WellFormed(g)
    ensures WellFormed(r)
    ensures id !in r.attrs && r.nodes == Remove(g.nodes, id)
    ensures forall v :: v in r.attrs <==> v in g.attrs && v != id
    ensures forall v :: v in r.attrs ==> r.attrs[v] == g.attrs[v]
    ensures forall e :: e in r.edges <==> e in g.edges && e.0 != id && e.1 != id
    ensures forall e :: e in r.edges ==> r.edges[e] == g.edges[e]
  {
    Digraph(Remove(g.nodes, id), g.attrs - {id}, map e | e in g.edges && e.0 != id && e.1 != id :: g.edges[e],
            map u | u in g.succ && u != id :: Remove(g.succ[u], id))
  }

  /** `neighbors(u)`: the nodes `u` has an edge to, in the order those edges were first added. */
  function Successors(g: Digraph, u: Id): seq<Id> {
    if u in g.succ then g.succ[u] else []
  }

  /** In a well-formed graph a node's successors are, once each, the targets of its edges. */
  lemma SuccessorsAreTargets(g: Digraph, u: Id)
    requires WellFormed(g)
    ensures Distinct(Successors(g, u))
    ensures forall v :: v in Successors(g, u) <==> (u, v) in g.edges
  {
  }

  /** A new edge puts its target last among its source's successors; an existing edge, and every other node, keeps its successors. */
  lemma AddEdgeOrder(g: Digraph, u: Id, v: Id, d: EdgeData)
    requires WellFormed(g) && u in g.attrs && v in g.attrs
    ensures Successors(AddEdge(g, u, v, d), u) == if (u, v) in g.edges then Successors(g, u) else Successors(g, u) + [v]
    ensures forall x :: x != u ==> Successors(AddEdge(g, u, v, d), x) == Successors(g, x)
  {
  }

  /** A node's successors keep their order when another node is removed. */
  lemma RemoveNodeOrder(g: Digraph, id: Id, u: Id)
    requires WellFormed(g) && u != id
    ensures Successors(RemoveNode(g, id), u) == Remove(Successors(g, u), id)
  {
  }

  /** Adding a node gives no node new successors. */
  lemma AddNodeOrder(g: Digraph, id: Id, a: NodeAttrs, u: Id)
    requires WellFormed(g)
    ensures Successors(AddNode(g, id, a), u) == Successors(g, u)
  {
  }

  /** The pairs (u, v) for v in `vs`, in order. */
  function Pairs(u: Id, vs: seq<Id>): (r: seq<(Id, Id)>)
    ensures forall e :: e in r <==> e.0 == u && e.1 in vs
    ensures Distinct(vs) ==> Distinct(r)
  {
    if vs == [] then [] else [(u, vs[0])] + Pairs(u, vs[1..])
  }

  /** The edges leaving the nodes of `us`, grouped by source in the order of `us`. */
  function EdgesFrom(g: Digraph, us: seq<Id>): (r: seq<(Id, Id)>)
    requires WellFormed(g)
    ensures forall e :: e in r <==> e in g.edges && e.0 in us
    ensures Distinct(us) ==> Distinct(r)
  {
    if us == [] then []
    else
      var here := Pairs(us[0], Successors(g, us[0]));
      var rest := EdgesFrom(g, us[1..]);
      if Distinct(us) then
        assert forall e :: e in rest ==> e.0 != us[0];
        DistinctAppend(here, rest);
        here + rest
      else here + rest
  }

  lemma DistinctAppend<T>(a: seq<T>, b: seq<T>)
    requires Distinct(a) && Distinct(b) && forall x :: x in a ==> x !in b
    ensures Distinct(a + b)
  {
    forall i, j | 0 <= i < j < |a + b| ensures (a + b)[i] != (a + b)[j] {
      if j < |a| {
      } else if i < |a| {
        assert a[i] in a && b[j - |a|] in b;
      } else {
        assert (a + b)[i] == b[i - |a|] && (a + b)[j] == b[j - |a|];
      }
    }
  }

  /** `edges()`: every edge once, grouped by source node in node order. */
  function EdgeList(g: Digraph): (r: seq<(Id, Id)>)
    requires WellFormed(g)
    ensures Distinct(r)
    ensures forall e :: e in r <==> e in g.edges
  {
    EdgesFrom(g, g.nodes)
  }
}
