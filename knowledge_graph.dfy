/**
 * The knowledge graph object (`KnowledgeGraph`): a concept table and a directed graph that its
 * methods update in place, and the seed graph the system starts from.
 */
module KnowledgeGraphs {
  import opened Records
  import opened Digraphs
  import opened Stores
  import opened Expansion

  class KnowledgeGraph {
    var concepts: map<Id, Concept>
    var graph: Digraph

    /** The current value of the object. */
    function Value(): Store
      reads this
    {
      Store(concepts, graph)
    }

    ghost predicate Valid()
      reads this
    {
      Stores.Valid(Value())
    }

    /** `KnowledgeGraph()`: no concepts and an empty graph. */
    constructor ()
      ensures Valid() && Value() == EmptyStore()
    {
      concepts := map[];
      graph := Empty();
    }

    /**
     * `add_concept`: false, with nothing changed, when the id is already present; otherwise the
     * concept is filed under its id and its node is added with the concept's name, category and
     * description.
     */
    method AddConcept(c: Concept) returns (ok: bool)
      requires Valid()
      modifies this
      ensures Valid()
      ensures ok == (c.id !in old(concepts))
      ensures Value() == InsertConcept(old(Value()), c)
    {
      if c.id in concepts {
        return false;
      }
      ghost var before := Value();
      concepts := concepts[c.id := c];
      graph := AddNode(graph, c.id, Mirror(c));
      assert Value() == InsertConcept(before, c);
      return true;
    }

    /**
     * `add_relation`: false, with nothing changed, when an endpoint is not a concept; otherwise
     * the edge (and its mirror, for a bidirectional relation) is set.
     */
    method AddRelation(rel: Relation) returns (ok: bool)
      requires Valid()
      modifies this
      ensures Valid()
      ensures ok == Connects(old(Value()), rel)
      ensures Value() == InsertRelation(old(Value()), rel)
    {
      if rel.source !in concepts || rel.target !in concepts {
        return false;
      }
      var g := AddEdge(graph, rel.source, rel.target, EdgeOf(rel));
      ghost var forward := g;
      if rel.bidirectional {
        g := AddEdge(g, rel.target, rel.source, EdgeOf(rel));
      }
      InsertRelationSteps(Value(), rel, forward, g);
      graph := g;
      return true;
    }

    /** Replaces the table and the graph together, as the manager's in-place edits of both do. */
    method SetValue(r: Store)
      requires Stores.Valid(r)
      modifies this
      ensures Valid() && Value() == r
    {
      concepts := r.concepts;
      graph := r.graph;
    }

    /**
     * `get_related_concepts`: the breadth-first walk, with its queue, visited set and scores;
     * the result is the walk `Related` describes, whose properties are proved in `Expansion`.
     */
    method GetRelatedConcepts(id: Id, maxDepth: int) returns (related: map<Id, real>)
      requires Valid()
      ensures related == Related(Value(), id, maxDepth)
    {
      if id !in concepts {
        return map[];
      }
      related := map[];
      var visited := {id};
      var queue: seq<(Id, nat)> := [(id, 0)];
      while queue != []
        invariant visited <= graph.attrs.Keys && related.Keys <= visited
        invariant Run(graph, maxDepth, Bfs(queue, visited, related)) == Run(graph, maxDepth, Start(id))
        decreases graph.attrs.Keys - visited, |queue|
      {
        var cur, depth := queue[0].0, queue[0].1;
        queue := queue[1..];
        if depth <= maxDepth {
          queue, visited, related := ExpandNode(cur, depth, maxDepth, queue, visited, related);
        }
      }
    }

    /** One turn of the walk's inner loop: every successor of `cur` not yet visited is scored, marked and, below the depth bound, queued. */
    method ExpandNode(cur: Id, depth: nat, maxDepth: int, queue0: seq<(Id, nat)>, visited0: set<Id>, related0: map<Id, real>)
      returns (queue: seq<(Id, nat)>, visited: set<Id>, related: map<Id, real>)
      requires Valid()
      ensures Bfs(queue, visited, related)
           == Scan(graph, cur, depth, maxDepth, Successors(graph, cur), Bfs(queue0, visited0, related0))
    {
      queue, visited, related := queue0, visited0, related0;
      var nbrs := Successors(graph, cur);
      for i := 0 to |nbrs|
        invariant Scan(graph, cur, depth, maxDepth, nbrs[i..], Bfs(queue, visited, related))
               == Scan(graph, cur, depth, maxDepth, nbrs, Bfs(queue0, visited0, related0))
      {
        var v := nbrs[i];
        if v !in visited {
          related := related[v := Score(graph, cur, v, depth)];
          visited := visited + {v};
          if depth < maxDepth {
            queue := queue + [(v, depth + 1)];
          }
        }
      }
      assert nbrs[|nbrs|..] == [];
    }

    /** Adds the concepts one after another. */
    method AddConcepts(cs: seq<Concept>)
      requires Valid()
      modifies this
      ensures Valid() && Value() == InsertConcepts(old(Value()), cs)
    {
      for i := 0 to |cs|
        invariant Valid()
        invariant InsertConcepts(Value(), cs[i..]) == InsertConcepts(old(Value()), cs)
      {
        var _ := AddConcept(cs[i]);
        assert cs[i..][1..] == cs[i + 1..];
      }
    }

    /** Adds the relations one after another. */
    method AddRelations(rels: seq<Relation>)
      requires Valid()
      modifies this
      ensures Valid() && Value() == InsertRelations(old(Value()), rels)
    {
      for i := 0 to |rels|
        invariant Valid()
        invariant InsertRelations(Value(), rels[i..]) == InsertRelations(old(Value()), rels)
      {
        var _ := AddRelation(rels[i]);
        assert rels[i..][1..] == rels[i + 1..];
      }
    }
  }

  /** The concepts of the seed knowledge base. */
  const InitialConcepts: seq<Concept> := (
    [ Concept("c1", "الذكاء الاصطناعي", "تقنية تمكن الآلات من محاكاة الذكاء البشري", "تقنية", [], map[]),
      Concept("c2", "تعلم الآلة", "فرع من الذكاء الاصطناعي يركز على تطوير خوارزميات تتعلم من البيانات", "تقنية", [], map[]),
      Concept("c3", "التعلم العميق", "نوع متقدم من تعلم الآلة يستخدم شبكات عصبية متعددة الطبقات", "تقنية", [], map[]),
      Concept("c4", "معالجة اللغة الطبيعية", "مجال يركز على تفاعل الحواسيب مع اللغات البشرية", "تقنية", [], map[]),
      Concept("c5", "الشبكات العصبية", "نماذج حسابية مستوحاة من الدماغ البشري", "تقنية", [], map[]),
      Concept("c6", "البيانات الضخمة", "مجموعات بيانات كبيرة جدًا يصعب معالجتها بالطرق التقليدية", "تقنية", [], map[]),
      Concept("c7", "الخصوصية", "حماية المعلومات الشخصية من الوصول غير المصرح به", "أمان", [], map[]),
      Concept("c8", "الأخلاقيات", "مبادئ تحدد السلوك الصحيح والخاطئ", "فلسفة", [], map[]),
      Concept("c9", "التحيز", "ميل غير عادل تجاه أو ضد شخص أو مجموعة", "اجتماعي", [], map[]),
      Concept("c10", "الأتمتة", "استخدام التقنية لأداء المهام بتدخل بشري محدود", "تقنية", [], map[]) ])

  /** The relations of the seed knowledge base, all one-directional with an empty description. */
  const InitialRelations: seq<Relation> := (
    [ Relation("c1", "c2", "يشمل", 0.9, "", false),
      Relation("c2", "c3", "يشمل", 0.8, "", false),
      Relation("c3", "c5", "يستخدم", 0.9, "", false),
      Relation("c4", "c1", "جزء من", 0.7, "", false),
      Relation("c6", "c2", "يدعم", 0.8, "", false),
      Relation("c1", "c7", "يؤثر على", 0.6, "", false),
      Relation("c1", "c8", "يثير قضايا", 0.7, "", false),
      Relation("c2", "c9", "قد يسبب", 0.5, "", false),
      Relation("c1", "c10", "يمكّن", 0.8, "", false),
      Relation("c10", "c7", "يهدد", 0.4, "", false) ])

  /** A knowledge graph's value after the given concepts are added one after another, then the given relations. */
  function Seeded(cs: seq<Concept>, rels: seq<Relation>): Store {
    InsertRelations(InsertConcepts(EmptyStore(), cs), rels)
  }

  const InitialIds: seq<Id> := ["c1", "c2", "c3", "c4", "c5", "c6", "c7", "c8", "c9", "c10"]

  const InitialPairs: seq<(Id, Id)> := [("c1", "c2"), ("c2", "c3"), ("c3", "c5"), ("c4", "c1"), ("c6", "c2"),
                                        ("c1", "c7"), ("c1", "c8"), ("c2", "c9"), ("c1", "c10"), ("c10", "c7")]

  /** The seed concepts carry the ids c1 .. c10, in order. */
  lemma InitialIdsInOrder(cs: seq<Concept>)
    requires cs == InitialConcepts
    ensures ConceptIds(cs) == InitialIds
  {
  }

  /** The seed relations join the seed pairs, in order, each one way. */
  lemma InitialPairsInOrder(rels: seq<Relation>)
    requires rels == InitialRelations
    ensures RelationPairs(rels) == InitialPairs
    ensures forall i :: 0 <= i < |rels| ==> !rels[i].bidirectional
  {
  }

  /** No seed id repeats. */
  lemma InitialIdsDistinct()
    ensures Distinct(InitialIds)
  {
  }

  /** Every seed pair joins two seed ids, and no seed pair repeats. */
  lemma InitialPairsJoinIds()
    ensures Distinct(InitialPairs)
    ensures forall i :: 0 <= i < |InitialPairs| ==> InitialPairs[i].0 in InitialIds && InitialPairs[i].1 in InitialIds
  {
  }

  /** Concepts with the seed ids, added to an empty graph, are all filed in that order, with no edge. */
  lemma SeededConcepts(cs: seq<Concept>)
    requires ConceptIds(cs) == InitialIds
    ensures var t := InsertConcepts(EmptyStore(), cs);
      && Ids(t) == InitialIds && t.graph.edges == map[] && |t.concepts| == 10
      && (forall i :: 0 <= i < |cs| ==> cs[i].id in t.concepts && t.concepts[cs[i].id] == cs[i])
      && (forall id :: id in InitialIds ==> id in t.concepts)
  {
    InitialIdsDistinct();
    InsertFreshConcepts(EmptyStore(), cs);
    TableSize(InsertConcepts(EmptyStore(), cs));
  }

  /**
   * Concepts with the seed ids, then one-way relations on the seed pairs, give a knowledge graph
   * holding exactly those concepts, in that order, and exactly those edges with their data.
   */
  lemma SeededShape(cs: seq<Concept>, rels: seq<Relation>)
    requires ConceptIds(cs) == InitialIds && RelationPairs(rels) == InitialPairs
    requires forall i :: 0 <= i < |rels| ==> !rels[i].bidirectional
    ensures var s := Seeded(cs, rels);
      && Ids(s) == InitialIds && |s.concepts| == 10
      && (forall i :: 0 <= i < |cs| ==> cs[i].id in s.concepts && s.concepts[cs[i].id] == cs[i])
      && (forall e :: e in s.graph.edges <==> e in InitialPairs)
      && (forall i :: 0 <= i < |rels| ==>
            (rels[i].source, rels[i].target) in s.graph.edges && s.graph.edges[(rels[i].source, rels[i].target)] == EdgeOf(rels[i]))
      && |s.graph.edges| == 10
  {
    SeededConcepts(cs);
    SeededEdges(InsertConcepts(EmptyStore(), cs), rels);
  }

  /** One-way relations on the seed pairs, added to a graph with the seed ids and no edge, set exactly the seed edges. */
  lemma SeededEdges(t: Store, rels: seq<Relation>)
    requires Valid(t) && t.graph.edges == map[] && forall id :: id in InitialIds ==> id in t.concepts
    requires RelationPairs(rels) == InitialPairs && forall i :: 0 <= i < |rels| ==> !rels[i].bidirectional
    ensures var s := InsertRelations(t, rels);
      && s.concepts == t.concepts && Ids(s) == Ids(t)
      && (forall e :: e in s.graph.edges <==> e in InitialPairs)
      && (forall i :: 0 <= i < |rels| ==>
            (rels[i].source, rels[i].target) in s.graph.edges && s.graph.edges[(rels[i].source, rels[i].target)] == EdgeOf(rels[i]))
      && |s.graph.edges| == 10
  {
    InitialPairsJoinIds();
    forall i | 0 <= i < |rels| ensures Connects(t, rels[i]) && (rels[i].source, rels[i].target) !in t.graph.edges {
      assert (rels[i].source, rels[i].target) == InitialPairs[i];
    }
    InsertFreshRelations(t, rels);
  }

  /**
   * The seed knowledge base holds ten concepts, in the order c1 .. c10, and exactly the ten seed
   * edges (`SeededShape` adds that each concept and edge carries its seed's data).
   */
  lemma InitialKnowledgeBase(cs: seq<Concept>, rels: seq<Relation>)
    requires cs == InitialConcepts && rels == InitialRelations
    ensures var s := Seeded(cs, rels);
      && Ids(s) == InitialIds && |s.concepts| == 10
      && (forall e :: e in s.graph.edges <==> e in InitialPairs) && |s.graph.edges| == 10
  {
    InitialIdsInOrder(cs);
    InitialPairsInOrder(rels);
    SeededShape(cs, rels);
  }

  /**
   * `create_initial_knowledge_base`: a fresh graph with the seed concepts added, then the seed
   * relations (what that value holds is `InitialKnowledgeBase`).
   */
  method CreateInitialKnowledgeBase() returns (kg: KnowledgeGraph)
    ensures fresh(kg) && kg.Valid() && kg.Value() == Seeded(InitialConcepts, InitialRelations)
  {
    kg := new KnowledgeGraph();
    kg.AddConcepts(InitialConcepts);
    kg.AddRelations(InitialRelations);
  }
}
