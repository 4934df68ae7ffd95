/**
 * The reasoning engine (`ReasoningEngine`): read-only computations over the value of a knowledge
 * graph — concepts mentioned by a text, direct relations among concepts, inferences along paths,
 * the `reason` pipeline and its rendering as text.
 */
module Reasoning {
  import opened Wrappers
  import opened Records
  import opened Digraphs
  import opened Stores
  import opened Text
  import opened Numbers
  import opened Expansion
  import opened Paths

  // ---------------------------------------------------------------------------------------------
  // extract_concepts_from_text

  /** The concept's lower-cased name or description contains `w`. */
  predicate Mentions(c: Concept, w: string) {
    Contains(Lower(c.name), w) || Contains(Lower(c.description), w)
  }

  /** Some word of `words` is mentioned by the concept. */
  predicate MentionedBy(c: Concept, words: seq<string>) {
    exists w :: w in words && Mentions(c, w)
  }

  /** The ids of `ids`, in order, whose concept mentions some word of `words`. */
  function Matching(s: Store, ids: seq<Id>, words: seq<string>): (r: seq<Id>)
    requires forall id :: id in ids ==> id in s.concepts
    ensures forall id :: id in r <==> id in ids && MentionedBy(s.concepts[id], words)
    ensures Distinct(ids) ==> Distinct(r)
  {
    if ids == [] then []
    else if MentionedBy(s.concepts[ids[0]], words) then [ids[0]] + Matching(s, ids[1..], words)
    else Matching(s, ids[1..], words)
  }

  /**
   * `extract_concepts_from_text`: each concept of the table, once, whose lower-cased name or
   * description contains a maximal run of at least three word characters of the lower-cased text.
   */
  function ExtractConcepts(s: Store, text: string): (r: seq<Id>)
    requires Valid(s)
    ensures Distinct(r)
    ensures forall id :: id in r <==> id in s.concepts && MentionedBy(s.concepts[id], Words(Lower(text)))
  {
    Matching(s, Ids(s), Words(Lower(text)))
  }

  // ---------------------------------------------------------------------------------------------
  // identify_relations

  /** The pairs (a, b) for b in `bs`, in order. */
  function PairsWith(a: Id, bs: seq<Id>): (r: seq<(Id, Id)>)
    ensures |r| == |bs|
    ensures forall k :: 0 <= k < |bs| ==> r[k] == (a, bs[k])
  {
    seq(|bs|, k requires 0 <= k < |bs| => (a, bs[k]))
  }

  /** Every pair (ids[i], ids[j]) with i < j, ordered by i and then by j. */
  function OrderedPairs(ids: seq<Id>): (r: seq<(Id, Id)>)
    ensures 2 * |r| == |ids| * (|ids| - 1)
  {
    if ids == [] then []
    else
      var rest := OrderedPairs(ids[1..]);
      TriangleStep(|ids|, |rest|);
      PairsWith(ids[0], ids[1..]) + rest
  }

  lemma TriangleStep(n: nat, m: nat)
    requires n > 0 && 2 * m == (n - 1) * (n - 2)
    ensures 2 * (n - 1 + m) == n * (n - 1)
  {
    calc {
      2 * (n - 1 + m);
      == 2 * (n - 1) + (n - 1) * (n - 2);
      == (n - 1) * (2 + n - 2);
      == n * (n - 1);
    }
  }

  /** The pairs `OrderedPairs` lists are exactly the pairs of positions i < j. */
  lemma OrderedPairsExact(ids: seq<Id>)
    ensures forall i, j :: 0 <= i < j < |ids| ==> (ids[i], ids[j]) in OrderedPairs(ids)
    ensures forall p :: p in OrderedPairs(ids) ==> exists i, j :: 0 <= i < j < |ids| && p == (ids[i], ids[j])
  {
    OrderedPairsComplete(ids);
    OrderedPairsSound(ids);
  }

  lemma {:induction false} OrderedPairsComplete(ids: seq<Id>)
    ensures forall i, j :: 0 <= i < j < |ids| ==> (ids[i], ids[j]) in OrderedPairs(ids)
  {
    if ids != [] {
      OrderedPairsComplete(ids[1..]);
      var here := PairsWith(ids[0], ids[1..]);
      var rest := OrderedPairs(ids[1..]);
      assert OrderedPairs(ids) == here + rest;
      forall i, j | 0 <= i < j < |ids| ensures (ids[i], ids[j]) in here + rest {
        if i == 0 {
          assert here[j - 1] == (ids[0], ids[j]);
        } else {
          assert (ids[1..][i - 1], ids[1..][j - 1]) in rest;
        }
      }
    }
  }

  lemma {:induction false} OrderedPairsSound(ids: seq<Id>)
    ensures forall p :: p in OrderedPairs(ids) ==> exists i, j :: 0 <= i < j < |ids| && p == (ids[i], ids[j])
  {
    if ids != [] {
      OrderedPairsSound(ids[1..]);
      var here := PairsWith(ids[0], ids[1..]);
      var rest := OrderedPairs(ids[1..]);
      assert OrderedPairs(ids) == here + rest;
      forall p | p in here + rest ensures exists i, j :: 0 <= i < j < |ids| && p == (ids[i], ids[j]) {
        if p in here {
          var k :| 0 <= k < |here| && here[k] == p;
          assert p == (ids[0], ids[k + 1]);
        } else {
          var i, j :| 0 <= i < j < |ids[1..]| && p == (ids[1..][i], ids[1..][j]);
          assert p == (ids[i + 1], ids[j + 1]);
        }
      }
    }
  }

  /** The relation record copying the data of edge (u, v), not bidirectional. */
  function RelationOfEdge(g: Digraph, u: Id, v: Id): Relation
    requires (u, v) in g.edges
  {
    var e := g.edges[(u, v)];
    Relation(u, v, e.relationType, e.strength, e.description, false)
  }

  /**
   * The relation found between `a` and `b`: the edge a -> b when there is one, otherwise the edge
   * b -> a, otherwise none.
   */
  function PairRelation(g: Digraph, a: Id, b: Id): (r: Option<Relation>)
    ensures r.Some? <==> (a, b) in g.edges || (b, a) in g.edges
    ensures r.Some? ==>
      && (r.value.source, r.value.target) in g.edges
      && r.value == RelationOfEdge(g, r.value.source, r.value.target)
      && !r.value.bidirectional
    ensures r.Some? ==> (r.value.source, r.value.target) in {(a, b), (b, a)}
    ensures (a, b) in g.edges ==> r.Some? && r.value.source == a && r.value.target == b
  {
    if (a, b) in g.edges then Some(RelationOfEdge(g, a, b))
    else if (b, a) in g.edges then Some(RelationOfEdge(g, b, a))
    else None
  }

  /** The relations found for the pairs, in order, skipping pairs with no edge either way. */
  function RelationsOf(g: Digraph, pairs: seq<(Id, Id)>): (r: seq<Relation>)
    ensures |r| <= |pairs|
    ensures forall rel :: rel in r ==> exists p :: p in pairs && PairRelation(g, p.0, p.1) == Some(rel)
    ensures forall p :: p in pairs && PairRelation(g, p.0, p.1).Some? ==> PairRelation(g, p.0, p.1).value in r
  {
    if pairs == [] then []
    else
      var here := PairRelation(g, pairs[0].0, pairs[0].1);
      var rest := RelationsOf(g, pairs[1..]);
      assert forall p :: p in pairs[1..] ==> p in pairs;
      if here.Some? then [here.value] + rest else rest
  }

  /** `identify_relations(concept_ids)`: one relation per pair i < j joined by an edge either way. */
  function IdentifyRelations(g: Digraph, ids: seq<Id>): (r: seq<Relation>)
  {
    RelationsOf(g, OrderedPairs(ids))
  }

  /**
   * At most n(n-1)/2 relations, each copying an existing edge between two listed concepts (the
   * forward edge when both exist) and not bidirectional, and every listed pair joined by an edge
   * yields one.
   */
  lemma IdentifyRelationsExact(g: Digraph, ids: seq<Id>)
    ensures 2 * |IdentifyRelations(g, ids)| <= |ids| * (|ids| - 1)
    ensures forall rel :: rel in IdentifyRelations(g, ids) ==>
      && (rel.source, rel.target) in g.edges
      && rel == RelationOfEdge(g, rel.source, rel.target)
      && exists i, j :: 0 <= i < j < |ids| && PairRelation(g, ids[i], ids[j]) == Some(rel)
    ensures forall i, j :: 0 <= i < j < |ids| && ((ids[i], ids[j]) in g.edges || (ids[j], ids[i]) in g.edges) ==>
      PairRelation(g, ids[i], ids[j]).value in IdentifyRelations(g, ids)
  {
    OrderedPairsExact(ids);
    var pairs := OrderedPairs(ids);
    forall rel | rel in IdentifyRelations(g, ids)
      ensures exists i, j :: 0 <= i < j < |ids| && PairRelation(g, ids[i], ids[j]) == Some(rel)
    {
      var p :| p in pairs && PairRelation(g, p.0, p.1) == Some(rel);
      var i, j :| 0 <= i < j < |ids| && p == (ids[i], ids[j]);
    }
  }

  // ---------------------------------------------------------------------------------------------
  // generate_inferences

  /** Every step of the chain is an edge of the graph between two concepts of the table. */
  predicate OnGraph(s: Store, path: seq<Step>) {
    forall k :: 0 <= k < |path| ==>
      path[k].source in s.concepts && path[k].target in s.concepts && (path[k].source, path[k].target) in s.graph.edges
  }

  /** The strengths of the chain's edges, in order. */
  function Strengths(g: Digraph, path: seq<Step>): (r: seq<real>)
    requires forall k :: 0 <= k < |path| ==> (path[k].source, path[k].target) in g.edges
    ensures |r| == |path|
  {
    seq(|path|, k requires 0 <= k < |path| => g.edges[(path[k].source, path[k].target)].strength)
  }

  /** The premise a step states: the source's name, the relation type and the target's name. */
  function Premise(s: Store, st: Step): string
    requires st.source in s.concepts && st.target in s.concepts
  {
    s.concepts[st.source].name + " " + st.relationType + " " + s.concepts[st.target].name
  }

  /** The conclusion drawn about `a` and `b`: that there is a relation between them. */
  function Conclusion(s: Store, a: Id, b: Id): string
    requires a in s.concepts && b in s.concepts
  {
    "هناك علاقة بين " + s.concepts[a].name + " و " + s.concepts[b].name
  }

  /**
   * The inference a path from `a` to `b` supports: one premise per step, the path itself, and a
   * confidence that is the mean of the path's edge strengths, so it lies within any bounds of them.
   */
  function MakeInference(s: Store, a: Id, b: Id, path: seq<Step>, now: string): (inf: Inference)
    requires a in s.concepts && b in s.concepts && |path| > 0 && OnGraph(s, path)
    ensures |inf.premises| == |path| && inf.reasoningPath == path && inf.timestamp == now
    ensures forall k :: 0 <= k < |path| ==> inf.premises[k] == Premise(s, path[k])
    ensures inf.conclusion == Conclusion(s, a, b)
    ensures forall lo, hi :: Within(Strengths(s.graph, path), lo, hi) ==> lo <= inf.confidence <= hi
  {
    var strengths := Strengths(s.graph, path);
    assert forall lo, hi :: Within(strengths, lo, hi) ==> lo <= Mean(strengths) <= hi by {
      forall lo, hi | Within(strengths, lo, hi) ensures lo <= Mean(strengths) <= hi {
        MeanWithin(strengths, lo, hi);
      }
    }
    Inference(seq(|path|, k requires 0 <= k < |path| => Premise(s, path[k])),
              Conclusion(s, a, b), Mean(strengths), path, now)
  }

  /** The chains `find_paths` returns lie on the graph and are non-empty. */
  lemma FoundOnGraph(s: Store, a: Id, b: Id, maxDepth: int)
    requires Valid(s)
    ensures forall path :: path in FindPaths(s, a, b, maxDepth) ==> |path| > 0 && OnGraph(s, path)
  {
    FindPathsSound(s, a, b, maxDepth);
  }

  /** The inferences for the non-empty paths of `paths`, in order. */
  function InferencesAlong(s: Store, a: Id, b: Id, paths: seq<seq<Step>>, now: string): (r: seq<Inference>)
    requires a in s.concepts && b in s.concepts
    requires forall path :: path in paths ==> OnGraph(s, path)
    ensures forall inf :: inf in r <==> exists path :: path in paths && path != [] && inf == MakeInference(s, a, b, path, now)
    ensures |r| <= |paths|
    ensures (forall k :: 0 <= k < |paths| ==> paths[k] != []) ==>
      |r| == |paths| && forall k :: 0 <= k < |paths| ==> r[k] == MakeInference(s, a, b, paths[k], now)
  {
    if paths == [] then []
    else
      assert forall path :: path in paths[1..] ==> path in paths;
      assert forall k :: 0 <= k < |paths| - 1 ==> paths[1..][k] == paths[k + 1];
      var rest := InferencesAlong(s, a, b, paths[1..], now);
      if paths[0] != [] then [MakeInference(s, a, b, paths[0], now)] + rest else rest
  }

  /** The inferences along two lists of paths are those along the first, then those along the second. */
  lemma {:induction false} InferencesAlongAppend(s: Store, a: Id, b: Id, p: seq<seq<Step>>, q: seq<seq<Step>>, now: string)
    requires a in s.concepts && b in s.concepts
    requires (forall path :: path in p ==> OnGraph(s, path)) && (forall path :: path in q ==> OnGraph(s, path))
    ensures InferencesAlong(s, a, b, p + q, now) == InferencesAlong(s, a, b, p, now) + InferencesAlong(s, a, b, q, now)
    decreases |p|
  {
    if p == [] {
      assert p + q == q;
    } else {
      assert (p + q)[0] == p[0] && (p + q)[1..] == p[1..] + q;
      assert forall path :: path in p[1..] ==> path in p;
      InferencesAlongAppend(s, a, b, p[1..], q, now);
      var head := if p[0] != [] then [MakeInference(s, a, b, p[0], now)] else [];
      var x, y := InferencesAlong(s, a, b, p[1..], now), InferencesAlong(s, a, b, q, now);
      assert InferencesAlong(s, a, b, p + q, now) == head + (x + y);
      assert InferencesAlong(s, a, b, p, now) == head + x;
      assert head + (x + y) == (head + x) + y;
    }
  }

  /** One path gives its inference when it is non-empty and nothing otherwise. */
  lemma InferencesAlongOne(s: Store, a: Id, b: Id, path: seq<Step>, now: string)
    requires a in s.concepts && b in s.concepts && OnGraph(s, path)
    ensures InferencesAlong(s, a, b, [path], now) == if path != [] then [MakeInference(s, a, b, path, now)] else []
  {
    assert [path][1..] == [];
  }

  /** The inferences for the pairs, in order: for each, one per non-empty path of at most three steps. */
  function InferencesOver(s: Store, pairs: seq<(Id, Id)>, now: string): (r: seq<Inference>)
    requires Valid(s)
  {
    if pairs == [] then []
    else
      var a, b := pairs[0].0, pairs[0].1;
      var rest := InferencesOver(s, pairs[1..], now);
      if a in s.concepts && b in s.concepts then
        FoundOnGraph(s, a, b, 3);
        InferencesAlong(s, a, b, FindPaths(s, a, b, 3), now) + rest
      else rest
  }

  /** `generate_inferences(concept_ids, question)`: the inferences along every path between every pair i < j. */
  function GenerateInferences(s: Store, ids: seq<Id>, now: string): (r: seq<Inference>)
    requires Valid(s)
  {
    InferencesOver(s, OrderedPairs(ids), now)
  }

  /** The inference drawn from `path` for the pair (a, b), with `a` and `b` in the table. */
  ghost predicate DrawnFrom(s: Store, a: Id, b: Id, path: seq<Step>, now: string, inf: Inference)
    requires Valid(s)
  {
    && a in s.concepts && b in s.concepts
    && path in FindPaths(s, a, b, 3)
    && StepChain(s.graph, path, a, b, 3)
    && |path| > 0 && OnGraph(s, path)
    && inf == MakeInference(s, a, b, path, now)
  }

  /** Every inference drawn for a list of pairs is drawn from a reasoning path between one of them. */
  lemma {:induction false} InferencesOverSound(s: Store, pairs: seq<(Id, Id)>, now: string)
    requires Valid(s)
    ensures forall inf :: inf in InferencesOver(s, pairs, now) ==>
      exists p, path :: p in pairs && DrawnFrom(s, p.0, p.1, path, now, inf)
    decreases |pairs|
  {
    if pairs != [] {
      InferencesOverSound(s, pairs[1..], now);
      var a, b := pairs[0].0, pairs[0].1;
      var rest := InferencesOver(s, pairs[1..], now);
      forall inf | inf in InferencesOver(s, pairs, now)
        ensures exists p, path :: p in pairs && DrawnFrom(s, p.0, p.1, path, now, inf)
      {
        if inf in rest {
          var p, path :| p in pairs[1..] && DrawnFrom(s, p.0, p.1, path, now, inf);
          assert p in pairs;
        } else {
          assert a in s.concepts && b in s.concepts;
          FoundOnGraph(s, a, b, 3);
          FindPathsSound(s, a, b, 3);
          var path :| path in FindPaths(s, a, b, 3) && path != [] && inf == MakeInference(s, a, b, path, now);
          assert DrawnFrom(s, a, b, path, now, inf);
        }
      }
    }
  }

  /** Every non-empty path between a listed pair of concepts yields its inference. */
  lemma {:induction false} InferencesOverComplete(s: Store, pairs: seq<(Id, Id)>, now: string, a: Id, b: Id, path: seq<Step>)
    requires Valid(s) && (a, b) in pairs && a in s.concepts && b in s.concepts
    requires path in FindPaths(s, a, b, 3) && |path| > 0 && OnGraph(s, path)
    ensures MakeInference(s, a, b, path, now) in InferencesOver(s, pairs, now)
    decreases |pairs|
  {
    if pairs[0] == (a, b) {
      InferenceOfHead(s, pairs, now, path);
    } else {
      InferencesOverTail(s, pairs, now);
      assert (a, b) in pairs[1..];
      InferencesOverComplete(s, pairs[1..], now, a, b, path);
    }
  }

  /** A path between the concepts of the first pair yields its inference. */
  lemma InferenceOfHead(s: Store, pairs: seq<(Id, Id)>, now: string, path: seq<Step>)
    requires Valid(s) && pairs != [] && pairs[0].0 in s.concepts && pairs[0].1 in s.concepts
    requires path in FindPaths(s, pairs[0].0, pairs[0].1, 3) && |path| > 0 && OnGraph(s, path)
    ensures MakeInference(s, pairs[0].0, pairs[0].1, path, now) in InferencesOver(s, pairs, now)
  {
    var a, b := pairs[0].0, pairs[0].1;
    var paths := FindPaths(s, a, b, 3);
    FoundOnGraph(s, a, b, 3);
    var inf := MakeInference(s, a, b, path, now);
    assert path in paths && path != [] && inf == MakeInference(s, a, b, path, now);
    assert inf in InferencesAlong(s, a, b, paths, now);
    InferencesOverHead(s, pairs, now);
  }

  /** The inferences for a list of pairs include those of its tail. */
  lemma InferencesOverTail(s: Store, pairs: seq<(Id, Id)>, now: string)
    requires Valid(s) && pairs != []
    ensures forall inf :: inf in InferencesOver(s, pairs[1..], now) ==> inf in InferencesOver(s, pairs, now)
  {
  }

  /** The inferences for a list of pairs begin with the first pair's, when both its concepts exist. */
  lemma InferencesOverHead(s: Store, pairs: seq<(Id, Id)>, now: string)
    requires Valid(s) && pairs != []
    ensures var a, b := pairs[0].0, pairs[0].1;
      a in s.concepts && b in s.concepts && (forall path :: path in FindPaths(s, a, b, 3) ==> OnGraph(s, path)) ==>
        forall inf :: inf in InferencesAlong(s, a, b, FindPaths(s, a, b, 3), now) ==> inf in InferencesOver(s, pairs, now)
  {
  }

  /**
   * Every inference of `generate_inferences` is drawn from a reasoning path of at most three steps
   * between the concepts at two positions i < j of the list.
   */
  lemma GenerateInferencesSound(s: Store, ids: seq<Id>, now: string)
    requires Valid(s)
    ensures forall inf :: inf in GenerateInferences(s, ids, now) ==>
      exists i, j, path :: 0 <= i < j < |ids| && DrawnFrom(s, ids[i], ids[j], path, now, inf)
  {
    var pairs := OrderedPairs(ids);
    OrderedPairsExact(ids);
    InferencesOverSound(s, pairs, now);
    forall inf | inf in GenerateInferences(s, ids, now)
      ensures exists i, j, path :: 0 <= i < j < |ids| && DrawnFrom(s, ids[i], ids[j], path, now, inf)
    {
      var p, path :| p in pairs && DrawnFrom(s, p.0, p.1, path, now, inf);
      var i, j :| 0 <= i < j < |ids| && p == (ids[i], ids[j]);
      assert DrawnFrom(s, ids[i], ids[j], path, now, inf);
    }
  }

  /** Every path between the concepts at two positions i < j of the list yields its inference. */
  lemma GenerateInferencesComplete(s: Store, ids: seq<Id>, now: string, i: int, j: int, path: seq<Step>)
    requires Valid(s) && 0 <= i < j < |ids| && ids[i] in s.concepts && ids[j] in s.concepts
    requires path in FindPaths(s, ids[i], ids[j], 3)
    ensures |path| > 0 && OnGraph(s, path)
    ensures MakeInference(s, ids[i], ids[j], path, now) in GenerateInferences(s, ids, now)
  {
    OrderedPairsExact(ids);
    FoundOnGraph(s, ids[i], ids[j], 3);
    InferencesOverComplete(s, OrderedPairs(ids), now, ids[i], ids[j], path);
  }

  /** With every edge strength in [0, 1], every inference's confidence is in [0, 1]. */
  lemma GenerateInferencesInUnit(s: Store, ids: seq<Id>, now: string)
    requires Valid(s) && StrengthsInUnit(s)
    ensures forall inf :: inf in GenerateInferences(s, ids, now) ==> 0.0 <= inf.confidence <= 1.0
  {
    GenerateInferencesSound(s, ids, now);
    forall inf | inf in GenerateInferences(s, ids, now) ensures 0.0 <= inf.confidence <= 1.0 {
      var i, j, path :| 0 <= i < j < |ids| && DrawnFrom(s, ids[i], ids[j], path, now, inf);
      StrengthsInUnitAlong(s, path);
    }
  }

  /** With every edge strength in [0, 1], so is every strength along a chain on the graph. */
  lemma StrengthsInUnitAlong(s: Store, path: seq<Step>)
    requires OnGraph(s, path) && StrengthsInUnit(s)
    ensures Within(Strengths(s.graph, path), 0.0, 1.0)
  {
    var xs := Strengths(s.graph, path);
    forall k | 0 <= k < |xs| ensures 0.0 <= xs[k] <= 1.0 {
      assert (path[k].source, path[k].target) in s.graph.edges;
    }
  }

  // ---------------------------------------------------------------------------------------------
  // reason

  datatype ReasoningResult = ReasoningResult(
    concepts: seq<Concept>, relations: seq<Relation>, inferences: seq<Inference>, confidence: real)

  /** `v` is a seed, or a concept some seed's walk of depth 2 scores above 0.3. */
  predicate Expands(s: Store, seeds: seq<Id>, v: Id)
    requires Valid(s)
  {
    v in seeds || exists c :: c in seeds && v in Related(s, c, 2) && Related(s, c, 2)[v] > 0.3
  }

  /** The ids of `ids`, in order, that `Expands` admits. */
  function Expanded(s: Store, seeds: seq<Id>, ids: seq<Id>): (r: seq<Id>)
    requires Valid(s)
    ensures forall v :: v in r <==> v in ids && Expands(s, seeds, v)
    ensures Distinct(ids) ==> Distinct(r)
  {
    if ids == [] then []
    else if Expands(s, seeds, ids[0]) then [ids[0]] + Expanded(s, seeds, ids[1..])
    else Expanded(s, seeds, ids[1..])
  }

  function InferenceConfidences(infs: seq<Inference>): (cs: seq<real>)
    ensures |cs| == |infs| && forall k :: 0 <= k < |infs| ==> cs[k] == infs[k].confidence
  {
    seq(|infs|, k requires 0 <= k < |infs| => infs[k].confidence)
  }

  /** The overall confidence: the mean of the inferences' confidences, or 0.0 when there are none. */
  function OverallConfidence(infs: seq<Inference>): (r: real)
    ensures infs == [] ==> r == 0.0
    ensures infs != [] ==> forall lo, hi :: Within(InferenceConfidences(infs), lo, hi) ==> lo <= r <= hi
    ensures (forall k :: 0 <= k < |infs| ==> 0.0 <= infs[k].confidence <= 1.0) ==> 0.0 <= r <= 1.0
  {
    if infs == [] then 0.0
    else
      var cs := InferenceConfidences(infs);
      assert Within(cs, 0.0, 1.0) <==> forall k :: 0 <= k < |infs| ==> 0.0 <= infs[k].confidence <= 1.0;
      assert forall lo, hi :: Within(cs, lo, hi) ==> lo <= Mean(cs) <= hi by {
        forall lo, hi | Within(cs, lo, hi) ensures lo <= Mean(cs) <= hi {
          MeanWithin(cs, lo, hi);
        }
      }
      Mean(cs)
  }

  /** `xs` lists the members of `ys`, each once, in some order. */
  predicate Arrangement(xs: seq<Id>, ys: seq<Id>) {
    Distinct(xs) && (forall v :: v in xs ==> v in ys) && (forall v :: v in ys ==> v in xs)
  }

  /**
   * `reason(question)`: the concepts the question mentions, widened by the concepts their walks
   * score above 0.3, with the relations and inferences among them and the overall confidence.
   * The widened set is a Python set, listed in an order the model does not fix: `ids` is that
   * listing, any arrangement of the widened set.
   */
  function Reason(s: Store, question: string, now: string, ids: seq<Id>): (r: ReasoningResult)
    requires Valid(s) && Arrangement(ids, Expanded(s, ExtractConcepts(s, question), Ids(s)))
    ensures ExtractConcepts(s, question) == [] ==> r == ReasoningResult([], [], [], 0.0)
  {
    var seeds := ExtractConcepts(s, question);
    if seeds == [] then ReasoningResult([], [], [], 0.0)
    else
      var infs := GenerateInferences(s, ids, now);
      ReasoningResult(Entries(s, ids),
                      IdentifyRelations(s.graph, ids), infs, OverallConfidence(infs))
  }

  /** The table entries of `ids`, in order. */
  function Entries(s: Store, ids: seq<Id>): (cs: seq<Concept>)
    requires Valid(s) && forall id :: id in ids ==> id in s.concepts
    ensures |cs| == |ids| && forall k :: 0 <= k < |ids| ==> cs[k] == s.concepts[ids[k]]
  {
    seq(|ids|, k requires 0 <= k < |ids| => s.concepts[ids[k]])
  }

  /** The entries of a list without repeats are exactly the table's entries for the listed ids, each once. */
  lemma EntriesExact(s: Store, ids: seq<Id>)
    requires Valid(s) && Distinct(ids) && forall id :: id in ids ==> id in s.concepts
    ensures var cs := Entries(s, ids);
      && (forall c :: c in cs ==> c.id in ids && s.concepts[c.id] == c)
      && (forall v :: v in ids ==> s.concepts[v] in cs)
      && (forall i, j :: 0 <= i < j < |cs| ==> cs[i] != cs[j])
  {
    var cs := Entries(s, ids);
    forall c | c in cs ensures c.id in ids && s.concepts[c.id] == c {
      var k :| 0 <= k < |cs| && cs[k] == c;
      assert ids[k] in ids;
    }
    forall v | v in ids ensures s.concepts[v] in cs {
      var k :| 0 <= k < |ids| && ids[k] == v;
      assert cs[k] == s.concepts[v];
    }
    forall i, j | 0 <= i < j < |cs| ensures cs[i] != cs[j] {
      assert ids[i] in ids && ids[j] in ids;
      assert cs[i].id == ids[i] && cs[j].id == ids[j];
    }
  }

  /** Every concept a seed's walk admits is in the table. */
  lemma ExpandsInTable(s: Store, seeds: seq<Id>, v: Id)
    requires Valid(s) && (forall c :: c in seeds ==> c in s.concepts) && Expands(s, seeds, v)
    ensures v in s.concepts
  {
    if v !in seeds {
      var c :| c in seeds && v in Related(s, c, 2) && Related(s, c, 2)[v] > 0.3;
      RelatedSound(s, c, 2);
    }
  }

  /**
   * The concepts of `reason` are the table's entries, once each, for exactly the seeds and the
   * concepts their walks score above 0.3; the seeds are all among them.
   */
  lemma ReasonConcepts(s: Store, question: string, now: string, ids: seq<Id>)
    requires Valid(s) && Arrangement(ids, Expanded(s, ExtractConcepts(s, question), Ids(s)))
    ensures var r := Reason(s, question, now, ids);
      var seeds := ExtractConcepts(s, question);
      && (forall c :: c in r.concepts ==> c.id in s.concepts && s.concepts[c.id] == c && Expands(s, seeds, c.id))
      && (seeds != [] ==> forall v :: Expands(s, seeds, v) ==> v in s.concepts && s.concepts[v] in r.concepts)
      && (forall v :: v in seeds ==> s.concepts[v] in r.concepts)
      && (forall i, j :: 0 <= i < j < |r.concepts| ==> r.concepts[i] != r.concepts[j])
  {
    var seeds := ExtractConcepts(s, question);
    var r := Reason(s, question, now, ids);
    if seeds != [] {
      EntriesExact(s, ids);
      forall v | Expands(s, seeds, v) ensures v in s.concepts && s.concepts[v] in r.concepts {
        ExpandsInTable(s, seeds, v);
        assert v in ids;
      }
    }
  }

  /** With every edge strength in [0, 1], the overall confidence of `reason` is in [0, 1]. */
  lemma ReasonConfidence(s: Store, question: string, now: string, ids: seq<Id>)
    requires Valid(s) && StrengthsInUnit(s) && Arrangement(ids, Expanded(s, ExtractConcepts(s, question), Ids(s)))
    ensures 0.0 <= Reason(s, question, now, ids).confidence <= 1.0
  {
    var seeds := ExtractConcepts(s, question);
    if seeds != [] {
      GenerateInferencesInUnit(s, ids, now);
      var infs := GenerateInferences(s, ids, now);
      forall k | 0 <= k < |infs| ensures 0.0 <= infs[k].confidence <= 1.0 {
        assert infs[k] in infs;
      }
      assert Reason(s, question, now, ids).confidence == OverallConfidence(infs);
    }
  }

  // ---------------------------------------------------------------------------------------------
  // format_reasoning_result

  /** The sentence shown when no concept was identified. */
  const NoConcepts: string := "لم أتمكن من تحديد مفاهيم كافية لإجراء استدلال منطقي."

  const ResultHeader: string := "نتائج التفكير الاستنتاجي:\n\n"

  /** The first `n` characters of `s` (all of it when shorter). */
  function Prefix(s: string, n: nat): (r: string)
    ensures |r| <= n && r <= s
    ensures |s| <= n ==> r == s
  {
    if |s| <= n then s else s[..n]
  }

  /** "i. name: description...", numbered from `i`. */
  function ConceptLines(cs: seq<Concept>, i: nat): string
    decreases |cs|
  {
    if cs == [] then ""
    else NatToString(i) + ". " + cs[0].name + ": " + Prefix(cs[0].description, 100) + "...\n"
         + ConceptLines(cs[1..], i + 1)
  }

  /** "i. source relation target (الثقة: p)", numbered from `i`. */
  function RelationLines(s: Store, rels: seq<Relation>, i: nat, pct: real -> string): string
    requires forall k :: 0 <= k < |rels| ==> rels[k].source in s.concepts && rels[k].target in s.concepts
    decreases |rels|
  {
    if rels == [] then ""
    else
      NatToString(i) + ". " + s.concepts[rels[0].source].name + " " + rels[0].relationType + " "
      + s.concepts[rels[0].target].name + " (الثقة: " + pct(rels[0].strength) + ")\n"
      + RelationLines(s, rels[1..], i + 1, pct)
  }

  function PremiseLines(premises: seq<string>): string {
    if premises == [] then "" else "   - " + premises[0] + "\n" + PremiseLines(premises[1..])
  }

  /** Each inference's conclusion and confidence, then its premises, numbered from `i`. */
  function InferenceLines(infs: seq<Inference>, i: nat, pct: real -> string): string
    decreases |infs|
  {
    if infs == [] then ""
    else
      NatToString(i) + ". " + infs[0].conclusion + " (الثقة: " + pct(infs[0].confidence) + ")\n"
      + "   بناءً على:\n" + PremiseLines(infs[0].premises) + "\n"
      + InferenceLines(infs[1..], i + 1, pct)
  }

  /** The closing line with the overall confidence. */
  function Summary(confidence: real, pct: real -> string): string {
    "\nالتقييم العام: درجة الثقة " + pct(confidence) + "\n"
  }

  /**
   * `format_reasoning_result`: the fixed sentence when there are no concepts; otherwise the header,
   * the numbered concepts, relations and inferences (or the sentences saying there are none), and
   * the overall confidence last. The percentage rendering is the parameter `pct`.
   */
  function FormatReasoningResult(s: Store, r: ReasoningResult, pct: real -> string): (out: string)
    requires forall k :: 0 <= k < |r.relations| ==>
      r.relations[k].source in s.concepts && r.relations[k].target in s.concepts
    ensures r.concepts == [] ==> out == NoConcepts
    ensures r.concepts != [] ==>
      && ResultHeader <= out
      && |Summary(r.confidence, pct)| <= |out|
      && out[|out| - |Summary(r.confidence, pct)|..] == Summary(r.confidence, pct)
  {
    if r.concepts == [] then NoConcepts
    else
      var relations :=
        if r.relations != [] then "العلاقات المكتشفة:\n" + RelationLines(s, r.relations, 1, pct)
        else "لم يتم اكتشاف علاقات مباشرة بين المفاهيم.\n";
      var inferences :=
        if r.inferences != [] then "الاستنتاجات المنطقية:\n" + InferenceLines(r.inferences, 1, pct)
        else "لم يتم التوصل إلى استنتاجات منطقية.\n";
      var body := ResultHeader + "المفاهيم المحددة:\n" + ConceptLines(r.concepts, 1) + "\n" + relations + "\n" + inferences;
      assert ResultHeader <= body;
      body + Summary(r.confidence, pct)
  }

  /** Every relation `reason` reports joins two concepts of the table, so its result can be rendered. */
  lemma ReasonRenderable(s: Store, question: string, now: string, ids: seq<Id>)
    requires Valid(s) && Arrangement(ids, Expanded(s, ExtractConcepts(s, question), Ids(s)))
    ensures var r := Reason(s, question, now, ids);
      forall k :: 0 <= k < |r.relations| ==> r.relations[k].source in s.concepts && r.relations[k].target in s.concepts
  {
    var r := Reason(s, question, now, ids);
    var seeds := ExtractConcepts(s, question);
    if seeds != [] {
      IdentifyRelationsExact(s.graph, ids);
      forall k | 0 <= k < |r.relations| ensures r.relations[k].source in s.concepts && r.relations[k].target in s.concepts {
        assert r.relations[k] in IdentifyRelations(s.graph, ids);
      }
    }
  }
}
