/**
 * The value held by a knowledge graph: the concept table (id -> concept) and the directed graph
 * whose nodes mirror the concepts' name, category and description. The table is iterated in
 * insertion order, which is always the graph's node order (both only ever append new ids, and a
 * deletion removes the id from both), so the node sequence serves as the table's order.
 *
 * The functions here are the state changes of the knowledge graph and of its manager, as values.
 */
module Stores {
  import opened Wrappers
  import opened Records
  import opened Digraphs

  datatype Store = Store(concepts: map<Id, Concept>, graph: Digraph)

  /** The node attributes that mirror a concept. */
  function Mirror(c: Concept): NodeAttrs {
    NodeAttrs(c.name, c.category, c.description)
  }

  /**
   * The invariant the knowledge graph keeps: the table and the node set hold the same ids, each
   * concept is filed under its own id and mirrored by its node, and every edge joins two concepts
   * of the table (referential integrity).
   */
  ghost predicate Valid(s: Store) {
    && WellFormed(s.graph)
    && (forall id :: id in s.concepts <==> id in s.graph.attrs)
    && (forall id :: id in s.concepts ==> s.concepts[id].id == id && s.graph.attrs[id] == Mirror(s.concepts[id]))
  }

  /** The table's ids in iteration order. */
  function Ids(s: Store): seq<Id> {
    s.graph.nodes
  }

  function EmptyStore(): (s: Store)
    ensures Valid(s) && s.concepts == map[] && Ids(s) == []
  {
    Store(map[], Empty())
  }

  /**
   * `KnowledgeGraph.add_concept`: a concept whose id is already in the table is refused and
   * nothing changes; otherwise it is filed under its id and gets a mirroring node, last in order.
   */
  function InsertConcept(s: Store, c: Concept): (r: Store)
    requires Valid(s)
    ensures Valid(r)
    ensures c.id in s.concepts ==> r == s
    ensures c.id !in s.concepts ==>
      && r.concepts == s.concepts[c.id := c]
      && |r.concepts| == |s.concepts| + 1
      && Ids(r) == Ids(s) + [c.id]
      && r.graph.attrs[c.id] == Mirror(c)
      && r.graph.edges == s.graph.edges
  {
    if c.id in s.concepts then s
    else Store(s.concepts[c.id := c], AddNode(s.graph, c.id, Mirror(c)))
  }

  function EdgeOf(rel: Relation): EdgeData {
    EdgeData(rel.relationType, rel.strength, rel.description)
  }

  /** Both endpoints of `rel` are concepts of the table: the condition `add_relation` checks. */
  predicate Connects(s: Store, rel: Relation) {
    rel.source in s.concepts && rel.target in s.concepts
  }

  /**
   * `KnowledgeGraph.add_relation`: refused, with nothing changed, unless both endpoints are in
   * the table; otherwise the edge source -> target takes the relation's type, strength and
   * description (replacing what that pair held), and so does target -> source when the relation
   * is bidirectional. No other edge and no concept changes, and every edge still joins two
   * concepts of the table.
   */
  function InsertRelation(s: Store, rel: Relation): (r: Store)
    requires Valid(s)
    ensures Valid(r)
    ensures !Connects(s, rel) ==> r == s
    ensures Connects(s, rel) ==>
      && r.concepts == s.concepts && r.graph.nodes == s.graph.nodes && r.graph.attrs == s.graph.attrs
      && (rel.source, rel.target) in r.graph.edges && r.graph.edges[(rel.source, rel.target)] == EdgeOf(rel)
      && (rel.bidirectional ==> (rel.target, rel.source) in r.graph.edges && r.graph.edges[(rel.target, rel.source)] == EdgeOf(rel))
      && (forall e :: e != (rel.source, rel.target) && (!rel.bidirectional || e != (rel.target, rel.source)) ==>
            (e in r.graph.edges <==> e in s.graph.edges) && (e in r.graph.edges ==> r.graph.edges[e] == s.graph.edges[e]))
  {
    if !Connects(s, rel) then s
    else
      var g := AddEdge(s.graph, rel.source, rel.target, EdgeOf(rel));
      Store(s.concepts, if rel.bidirectional then AddEdge(g, rel.target, rel.source, EdgeOf(rel)) else g)
  }

  /** The fields `update_concept` was given; None stands for an argument left at None. */
  datatype ConceptPatch = ConceptPatch(
    name: Option<string>,
    description: Option<string>,
    category: Option<string>,
    relatedConcepts: Option<seq<Id>>,
    attributes: Option<map<string, string>>)

  /** The concept with each given field replaced and every other field kept. */
  function Patch(c: Concept, p: ConceptPatch): (r: Concept)
    ensures r.id == c.id
    ensures r.name == p.name.GetOr(c.name) && r.description == p.description.GetOr(c.description)
    ensures r.category == p.category.GetOr(c.category)
    ensures r.relatedConcepts == p.relatedConcepts.GetOr(c.relatedConcepts)
    ensures r.attributes == p.attributes.GetOr(c.attributes)
  {
    Concept(c.id, p.name.GetOr(c.name), p.description.GetOr(c.description), p.category.GetOr(c.category),
            p.relatedConcepts.GetOr(c.relatedConcepts), p.attributes.GetOr(c.attributes))
  }

  /**
   * The state change of `KnowledgeManager.update_concept` on a known id: the concept is patched in
   * place and its node's attributes are set from the patched concept; the order, the other
   * concepts and every edge stay as they were.
   */
  function UpdateConcept(s: Store, id: Id, p: ConceptPatch): (r: Store)
    requires Valid(s) && id in s.concepts
    ensures Valid(r)
    ensures r.concepts == s.concepts[id := Patch(s.concepts[id], p)]
    ensures Ids(r) == Ids(s) && r.graph.edges == s.graph.edges
    ensures r.graph.attrs == s.graph.attrs[id := Mirror(Patch(s.concepts[id], p))]
  {
    var c := Patch(s.concepts[id], p);
    Store(s.concepts[id := c], AddNode(s.graph, id, Mirror(c)))
  }

  /**
   * The state change of `KnowledgeManager.delete_concept` on a known id: the concept leaves the
   * table, its node leaves the graph with every edge into or out of it, and nothing else changes.
   */
  function RemoveConcept(s: Store, id: Id): (r: Store)
    requires Valid(s)
    ensures Valid(r)
    ensures id !in r.concepts && id !in Ids(r)
    ensures forall k :: k in r.concepts <==> k in s.concepts && k != id
    ensures forall k :: k in r.concepts ==> r.concepts[k] == s.concepts[k]
    ensures forall e :: e in r.graph.edges ==> e.0 != id && e.1 != id
    ensures forall e :: e in r.graph.edges <==> e in s.graph.edges && e.0 != id && e.1 != id
    ensures forall e :: e in r.graph.edges ==> r.graph.edges[e] == s.graph.edges[e]
  {
    Store(s.concepts - {id}, RemoveNode(s.graph, id))
  }

  /** The relation's value when its endpoints are present: its edge set, then its mirror edge when bidirectional. */
  lemma InsertRelationSteps(s: Store, rel: Relation, forward: Digraph, g: Digraph)
    requires Valid(s) && Connects(s, rel)
    requires forward == AddEdge(s.graph, rel.source, rel.target, EdgeOf(rel))
    requires g == if rel.bidirectional then AddEdge(forward, rel.target, rel.source, EdgeOf(rel)) else forward
    ensures InsertRelation(s, rel) == Store(s.concepts, g)
  {
  }

  /** The concepts added one after another, in order, each refused when its id is already present. */
  function InsertConcepts(s: Store, cs: seq<Concept>): (r: Store)
    requires Valid(s)
    ensures Valid(r)
    decreases |cs|
  {
    if cs == [] then s else InsertConcepts(InsertConcept(s, cs[0]), cs[1..])
  }

  /** The relations added one after another, in order, each refused when an endpoint is missing. */
  function InsertRelations(s: Store, rels: seq<Relation>): (r: Store)
    requires Valid(s)
    ensures Valid(r)
    decreases |rels|
  {
    if rels == [] then s else InsertRelations(InsertRelation(s, rels[0]), rels[1..])
  }

  /** The ids of the concepts, in order. */
  function ConceptIds(cs: seq<Concept>): seq<Id> {
    seq(|cs|, i requires 0 <= i < |cs| => cs[i].id)
  }

  lemma ConceptIdsTail(cs: seq<Concept>)
    requires cs != []
    ensures ConceptIds(cs[1..]) == ConceptIds(cs)[1..]
  {
  }

  /** The (source, target) pair of each relation, in order. */
  function RelationPairs(rels: seq<Relation>): seq<(Id, Id)> {
    seq(|rels|, i requires 0 <= i < |rels| => (rels[i].source, rels[i].target))
  }

  /**
   * Concepts whose ids are new and pairwise different are all filed, their ids appended to the
   * order in the order given, and no edge changes.
   */
  lemma {:induction false} InsertFreshConcepts(s: Store, cs: seq<Concept>)
    requires Valid(s) && Distinct(ConceptIds(cs))
    requires forall i :: 0 <= i < |cs| ==> cs[i].id !in s.concepts
    ensures var r := InsertConcepts(s, cs);
      && Ids(r) == Ids(s) + ConceptIds(cs)
      && (forall i :: 0 <= i < |cs| ==> cs[i].id in r.concepts && r.concepts[cs[i].id] == cs[i])
      && (forall id :: id in s.concepts ==> id in r.concepts && r.concepts[id] == s.concepts[id])
      && r.graph.edges == s.graph.edges
    decreases |cs|
  {
    if cs != [] {
      var t := InsertConcept(s, cs[0]);
      var ids := ConceptIds(cs);
      ConceptIdsTail(cs);
      DistinctTail(ids);
      forall i | 0 <= i < |cs[1..]| ensures cs[1..][i].id !in t.concepts {
        assert cs[1..][i].id == ids[i + 1] != ids[0];
      }
      InsertFreshConcepts(t, cs[1..]);
      FreshConceptsCombine(s, t, InsertConcepts(t, cs[1..]), cs);
    }
  }

  /** The step of `InsertFreshConcepts`: the first concept filed, then the rest. */
  lemma FreshConceptsCombine(s: Store, t: Store, r: Store, cs: seq<Concept>)
    requires cs != [] && cs[0].id !in s.concepts
    requires t.concepts == s.concepts[cs[0].id := cs[0]] && Ids(t) == Ids(s) + [cs[0].id] && t.graph.edges == s.graph.edges
    requires Ids(r) == Ids(t) + ConceptIds(cs[1..]) && r.graph.edges == t.graph.edges
    requires forall i :: 0 <= i < |cs[1..]| ==> cs[1..][i].id in r.concepts && r.concepts[cs[1..][i].id] == cs[1..][i]
    requires forall id :: id in t.concepts ==> id in r.concepts && r.concepts[id] == t.concepts[id]
    ensures Ids(r) == Ids(s) + ConceptIds(cs)
    ensures forall i :: 0 <= i < |cs| ==> cs[i].id in r.concepts && r.concepts[cs[i].id] == cs[i]
    ensures forall id :: id in s.concepts ==> id in r.concepts && r.concepts[id] == s.concepts[id]
    ensures r.graph.edges == s.graph.edges
  {
    assert ConceptIds(cs) == [cs[0].id] + ConceptIds(cs[1..]);
    forall i | 0 <= i < |cs| ensures cs[i].id in r.concepts && r.concepts[cs[i].id] == cs[i] {
      if i > 0 {
        assert cs[i] == cs[1..][i - 1];
      }
    }
  }

  /**
   * One-way relations between present concepts, whose edges are new and pairwise different, each
   * add their own edge with their own data, and nothing else changes.
   */
  lemma {:induction false} InsertFreshRelations(s: Store, rels: seq<Relation>)
    requires Valid(s) && Distinct(RelationPairs(rels))
    requires forall i :: 0 <= i < |rels| ==>
      Connects(s, rels[i]) && !rels[i].bidirectional && (rels[i].source, rels[i].target) !in s.graph.edges
    ensures var r := InsertRelations(s, rels);
      && r.concepts == s.concepts && Ids(r) == Ids(s)
      && (forall e :: e in r.graph.edges <==> e in s.graph.edges || e in RelationPairs(rels))
      && (forall i :: 0 <= i < |rels| ==>
            (rels[i].source, rels[i].target) in r.graph.edges && r.graph.edges[(rels[i].source, rels[i].target)] == EdgeOf(rels[i]))
      && (forall e :: e in s.graph.edges ==> e in r.graph.edges && r.graph.edges[e] == s.graph.edges[e])
      && |r.graph.edges| == |s.graph.edges| + |rels|
    decreases |rels|
  {
    if rels != [] {
      var rel := rels[0];
      var t := InsertRelation(s, rel);
      InsertOneWay(s, rel);
      var ps := RelationPairs(rels);
      RelationPairsTail(rels);
      DistinctTail(ps);
      forall i | 0 <= i < |rels[1..]|
        ensures Connects(t, rels[1..][i]) && !rels[1..][i].bidirectional
        ensures (rels[1..][i].source, rels[1..][i].target) !in t.graph.edges
      {
        assert rels[1..][i] == rels[i + 1];
        assert ps[i + 1] != ps[0];
      }
      InsertFreshRelations(t, rels[1..]);
      FreshRelationsCombine(s, t, InsertRelations(t, rels[1..]), rels);
    }
  }

  lemma RelationPairsTail(rels: seq<Relation>)
    requires rels != []
    ensures RelationPairs(rels[1..]) == RelationPairs(rels)[1..]
    ensures RelationPairs(rels) == [(rels[0].source, rels[0].target)] + RelationPairs(rels[1..])
  {
    assert RelationPairs(rels) == [RelationPairs(rels)[0]] + RelationPairs(rels)[1..];
  }

  /** A one-way relation between present concepts sets exactly its own edge. */
  lemma InsertOneWay(s: Store, rel: Relation)
    requires Valid(s) && Connects(s, rel) && !rel.bidirectional
    ensures var r := InsertRelation(s, rel);
      && r.concepts == s.concepts && Ids(r) == Ids(s)
      && r.graph.edges == s.graph.edges[(rel.source, rel.target) := EdgeOf(rel)]
  {
  }

  /** The step of `InsertFreshRelations`: the first edge added, then the rest. */
  lemma FreshRelationsCombine(s: Store, t: Store, r: Store, rels: seq<Relation>)
    requires rels != [] && (rels[0].source, rels[0].target) !in s.graph.edges
    requires t.concepts == s.concepts && Ids(t) == Ids(s)
    requires t.graph.edges == s.graph.edges[(rels[0].source, rels[0].target) := EdgeOf(rels[0])]
    requires r.concepts == t.concepts && Ids(r) == Ids(t)
    requires forall e :: e in r.graph.edges <==> e in t.graph.edges || e in RelationPairs(rels[1..])
    requires forall i :: 0 <= i < |rels[1..]| ==>
      (rels[1..][i].source, rels[1..][i].target) in r.graph.edges && r.graph.edges[(rels[1..][i].source, rels[1..][i].target)] == EdgeOf(rels[1..][i])
    requires forall e :: e in t.graph.edges ==> e in r.graph.edges && r.graph.edges[e] == t.graph.edges[e]
    requires |r.graph.edges| == |t.graph.edges| + |rels[1..]|
    ensures r.concepts == s.concepts && Ids(r) == Ids(s)
    ensures forall e :: e in r.graph.edges <==> e in s.graph.edges || e in RelationPairs(rels)
    ensures forall i :: 0 <= i < |rels| ==>
      (rels[i].source, rels[i].target) in r.graph.edges && r.graph.edges[(rels[i].source, rels[i].target)] == EdgeOf(rels[i])
    ensures forall e :: e in s.graph.edges ==> e in r.graph.edges && r.graph.edges[e] == s.graph.edges[e]
    ensures |r.graph.edges| == |s.graph.edges| + |rels|
  {
    var p := (rels[0].source, rels[0].target);
    RelationPairsTail(rels);
    assert |t.graph.edges| == |s.graph.edges| + 1;
    forall e | e in s.graph.edges ensures e in r.graph.edges && r.graph.edges[e] == s.graph.edges[e] {
      assert e != p && e in t.graph.edges && t.graph.edges[e] == s.graph.edges[e];
    }
    forall i | 0 <= i < |rels|
      ensures (rels[i].source, rels[i].target) in r.graph.edges && r.graph.edges[(rels[i].source, rels[i].target)] == EdgeOf(rels[i])
    {
      if i == 0 {
        assert p in t.graph.edges && t.graph.edges[p] == EdgeOf(rels[0]);
      } else {
        assert rels[i] == rels[1..][i - 1];
      }
    }
  }

  /** The table has one id in its order per concept. */
  lemma TableSize(s: Store)
    requires Valid(s)
    ensures |Ids(s)| == |s.concepts|
  {
    DistinctSize(Ids(s), s.concepts.Keys);
  }

  /** A list without repeats has as many entries as the set of its members. */
  lemma {:induction false} DistinctSize<T>(xs: seq<T>, keys: set<T>)
    requires Distinct(xs) && forall x :: x in xs <==> x in keys
    ensures |xs| == |keys|
  {
    if xs != [] {
      DistinctSize(xs[1..], keys - {xs[0]});
    }
  }

  /** Every edge strength lies in [0, 1], as the seed data and the manager's default 0.5 do. */
  ghost predicate StrengthsInUnit(s: Store) {
    forall e :: e in s.graph.edges ==> 0.0 <= s.graph.edges[e].strength <= 1.0
  }
}
