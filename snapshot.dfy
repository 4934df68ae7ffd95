/**
 * The knowledge base as a document: the records `export_knowledge_base` and `save_knowledge_base`
 * write, and the rebuild `import_knowledge_base` and `load_knowledge_base` perform. JSON text is
 * not modelled: a `Payload` is what decoding produced, with each key either present or absent.
 */
module Snapshots {
  import opened Wrappers
  import opened Records
  import opened Digraphs
  import opened Stores
  import opened Text

  /** A concept object; `id`, `name`, `description` and `category` are required when reading. */
  datatype ConceptRecord = ConceptRecord(
    id: Option<Id>,
    name: Option<string>,
    description: Option<string>,
    category: Option<string>,
    relatedConcepts: Option<seq<Id>>,
    attributes: Option<map<string, string>>)

  /** A relation object; `source`, `target`, `relation_type` and `strength` are required when reading. */
  datatype RelationRecord = RelationRecord(
    source: Option<Id>,
    target: Option<Id>,
    relationType: Option<string>,
    strength: Option<real>,
    description: Option<string>,
    bidirectional: Option<bool>)

  /**
   * A decoded document: text that is not JSON, a JSON value that is not an object, or an object
   * with (or without) its "concepts" and "relations" lists.
   */
  datatype Payload =
    | Unparsable
    | NotAnObject
    | Document(concepts: Option<seq<ConceptRecord>>, relations: Option<seq<RelationRecord>>)

  // ---------------------------------------------------------------------------------------------
  // Reading records

  /** The concept a record describes, or None when a required key is missing; absent lists and maps read as empty. */
  function ConceptOf(rec: ConceptRecord): (r: Option<Concept>)
    ensures r.Some? <==> rec.id.Some? && rec.name.Some? && rec.description.Some? && rec.category.Some?
  {
    if rec.id.Some? && rec.name.Some? && rec.description.Some? && rec.category.Some? then
      Some(Concept(rec.id.value, rec.name.value, rec.description.value, rec.category.value,
                   rec.relatedConcepts.GetOr([]), rec.attributes.GetOr(map[])))
    else None
  }

  /** The relation a record describes, or None when a required key is missing; the description defaults to "" and `bidirectional` to false. */
  function RelationOf(rec: RelationRecord): (r: Option<Relation>)
    ensures r.Some? <==> rec.source.Some? && rec.target.Some? && rec.relationType.Some? && rec.strength.Some?
  {
    if rec.source.Some? && rec.target.Some? && rec.relationType.Some? && rec.strength.Some? then
      Some(Relation(rec.source.value, rec.target.value, rec.relationType.value, rec.strength.value,
                    rec.description.GetOr(""), rec.bidirectional.GetOr(false)))
    else None
  }

  /**
   * The concept records added in order; the first record missing a required key raises, which
   * stops the loop and reports failure with the concepts added so far in place.
   */
  function AddConceptRecords(s: Store, recs: seq<ConceptRecord>): (r: (Store, bool))
    requires Valid(s)
    ensures Valid(r.0)
    ensures r.1 <==> ConceptsComplete(recs)
    decreases |recs|
  {
    if recs == [] then (s, true)
    else match ConceptOf(recs[0])
      case None => (s, false)
      case Some(c) =>
        ConceptsCompleteFirst(recs);
        AddConceptRecords(InsertConcept(s, c), recs[1..])
  }

  /** Every concept record carries the required keys. */
  predicate ConceptsComplete(recs: seq<ConceptRecord>) {
    forall k :: 0 <= k < |recs| ==> ConceptOf(recs[k]).Some?
  }

  lemma ConceptsCompleteFirst(recs: seq<ConceptRecord>)
    requires recs != []
    ensures ConceptsComplete(recs) <==> ConceptOf(recs[0]).Some? && ConceptsComplete(recs[1..])
  {
    assert forall k :: 1 <= k < |recs| ==> recs[k] == recs[1..][k - 1];
  }

  /**
   * The relation records added in order, as `add_relation` does (a relation naming an unknown id
   * is dropped and the loop goes on); the first record missing a required key stops the loop.
   */
  function AddRelationRecords(s: Store, recs: seq<RelationRecord>): (r: (Store, bool))
    requires Valid(s)
    ensures Valid(r.0) && r.0.concepts == s.concepts && Ids(r.0) == Ids(s) && r.0.graph.attrs == s.graph.attrs
    ensures r.1 <==> RelationsComplete(recs)
    decreases |recs|
  {
    if recs == [] then (s, true)
    else match RelationOf(recs[0])
      case None => (s, false)
      case Some(rel) =>
        RelationsCompleteFirst(recs);
        AddRelationRecords(InsertRelation(s, rel), recs[1..])
  }

  /** Every relation record carries the required keys. */
  predicate RelationsComplete(recs: seq<RelationRecord>) {
    forall k :: 0 <= k < |recs| ==> RelationOf(recs[k]).Some?
  }

  lemma RelationsCompleteFirst(recs: seq<RelationRecord>)
    requires recs != []
    ensures RelationsComplete(recs) <==> RelationOf(recs[0]).Some? && RelationsComplete(recs[1..])
  {
    assert forall k :: 1 <= k < |recs| ==> recs[k] == recs[1..][k - 1];
  }

  /** A fresh knowledge graph with the document's concepts and then its relations; a missing list reads as empty. */
  function Rebuild(concepts: Option<seq<ConceptRecord>>, relations: Option<seq<RelationRecord>>): (r: (Store, bool))
    ensures Valid(r.0)
  {
    var loaded := AddConceptRecords(EmptyStore(), concepts.GetOr([]));
    if !loaded.1 then loaded else AddRelationRecords(loaded.0, relations.GetOr([]))
  }

  /**
   * `import_knowledge_base(data, "json")`: the rebuilt graph, or None — leaving the current one in
   * place — when the text does not parse, is not an object, or a record lacks a required key.
   */
  function Import(p: Payload): (r: Option<Store>)
    ensures p.Unparsable? || p.NotAnObject? ==> r == None
    ensures r.Some? ==> Valid(r.value)
  {
    match p
      case Document(cs, rs) =>
        var rebuilt := Rebuild(cs, rs);
        if rebuilt.1 then Some(rebuilt.0) else None
      case _ => None
  }

  /** Import succeeds exactly on a document all of whose records carry their required keys. */
  lemma ImportSucceeds(p: Payload)
    ensures Import(p).Some? <==>
      && p.Document?
      && (forall k :: 0 <= k < |p.concepts.GetOr([])| ==> ConceptOf(p.concepts.GetOr([])[k]).Some?)
      && (forall k :: 0 <= k < |p.relations.GetOr([])| ==> RelationOf(p.relations.GetOr([])[k]).Some?)
  {
  }

  /**
   * `load_knowledge_base` once the file is read: no file, or text that does not parse, leaves the
   * current graph; otherwise the graph is replaced by a fresh one before the document is read, so a
   * value that is not an object leaves it empty and a record missing a key leaves it partly rebuilt.
   */
  function Load(current: Store, file: Option<Payload>): (r: (Store, bool))
    requires Valid(current)
    ensures Valid(r.0)
    ensures file.None? || file == Some(Unparsable) ==> r == (current, false)
    ensures file == Some(NotAnObject) ==> r == (EmptyStore(), false)
    ensures r.1 <==> file.Some? && Import(file.value).Some?
    ensures r.1 ==> r.0 == Import(file.value).value
  {
    match file
      case None => (current, false)
      case Some(Unparsable) => (current, false)
      case Some(NotAnObject) => (EmptyStore(), false)
      case Some(Document(cs, rs)) => Rebuild(cs, rs)
  }

  /** A relation record naming an id that is not a concept is dropped, and the import still succeeds. */
  lemma ImportDropsDangling(cs: Option<seq<ConceptRecord>>, rec: RelationRecord)
    requires Import(Document(cs, Some([]))).Some?
    requires RelationOf(rec).Some? && !Connects(Import(Document(cs, Some([]))).value, RelationOf(rec).value)
    ensures Import(Document(cs, Some([rec]))) == Import(Document(cs, Some([])))
  {
    var loaded := AddConceptRecords(EmptyStore(), cs.GetOr([]));
    assert loaded.1 && Import(Document(cs, Some([]))).value == loaded.0;
    DanglingRecord(loaded.0, rec);
  }

  /** Reading a single relation record whose endpoints are not both concepts changes nothing. */
  lemma DanglingRecord(s: Store, rec: RelationRecord)
    requires Valid(s) && RelationOf(rec).Some? && !Connects(s, RelationOf(rec).value)
    ensures AddRelationRecords(s, [rec]) == (s, true)
  {
    assert [rec][1..] == [];
  }

  /**
   * A document whose second concept record lacks a required key: importing it fails and keeps the
   * current graph, while loading it fails and leaves a graph holding only the first concept.
   */
  lemma LoadLeavesPartial(current: Store, c: Concept, bad: ConceptRecord, rs: Option<seq<RelationRecord>>)
    requires Valid(current) && ConceptOf(bad).None?
    ensures Import(Document(Some([RecordOf(c), bad]), rs)) == None
    ensures Load(current, Some(Document(Some([RecordOf(c), bad]), rs))) == (InsertConcept(EmptyStore(), c), false)
  {
    var recs := [RecordOf(c), bad];
    assert recs[1..] == [bad];
    assert AddConceptRecords(InsertConcept(EmptyStore(), c), recs[1..]) == (InsertConcept(EmptyStore(), c), false);
  }

  // ---------------------------------------------------------------------------------------------
  // Writing records

  /** The record of a concept: every key present. */
  function RecordOf(c: Concept): (r: ConceptRecord)
    ensures ConceptOf(r) == Some(c)
  {
    ConceptRecord(Some(c.id), Some(c.name), Some(c.description), Some(c.category), Some(c.relatedConcepts), Some(c.attributes))
  }

  /** The concept records of `ids`, in order. */
  function ConceptRecords(s: Store, ids: seq<Id>): (r: seq<ConceptRecord>)
    requires forall id :: id in ids ==> id in s.concepts
    ensures |r| == |ids|
    ensures forall k :: 0 <= k < |ids| ==> r[k] == RecordOf(s.concepts[ids[k]])
  {
    if ids == [] then [] else [RecordOf(s.concepts[ids[0]])] + ConceptRecords(s, ids[1..])
  }

  /**
   * How a writer fills the "bidirectional" key of an edge (u, v): export leaves it out; the saved
   * snapshot as written sets it when (v, u) exists with the same relation type; the corrected
   * snapshot writes false on every record.
   */
  datatype MirrorRule = NoKey | SameType | Cleared

  function MirrorFlag(g: Digraph, e: (Id, Id), rule: MirrorRule): Option<bool>
    requires e in g.edges
  {
    var mirror := (e.1, e.0);
    match rule
      case NoKey => None
      case SameType => Some(mirror in g.edges && g.edges[mirror].relationType == g.edges[e].relationType)
      case Cleared => Some(false)
  }

  /** The record of edge `e`: its endpoints and data, and the bidirectional flag the rule gives. */
  function EdgeRecord(g: Digraph, e: (Id, Id), rule: MirrorRule): (r: RelationRecord)
    requires e in g.edges
    ensures RelationOf(r).Some?
    ensures var rel := RelationOf(r).value;
      rel.source == e.0 && rel.target == e.1 && EdgeOf(rel) == g.edges[e]
  {
    var d := g.edges[e];
    RelationRecord(Some(e.0), Some(e.1), Some(d.relationType), Some(d.strength), Some(d.description),
                   MirrorFlag(g, e, rule))
  }

  function RelationRecords(g: Digraph, es: seq<(Id, Id)>, rule: MirrorRule): (r: seq<RelationRecord>)
    requires forall e :: e in es ==> e in g.edges
    ensures |r| == |es|
    ensures forall k :: 0 <= k < |es| ==> r[k] == EdgeRecord(g, es[k], rule)
  {
    if es == [] then [] else [EdgeRecord(g, es[0], rule)] + RelationRecords(g, es[1..], rule)
  }

  /** The document for a knowledge graph: its concepts in table order, then its edges, under a rule for the flag. */
  function Snapshot(s: Store, rule: MirrorRule): (p: Payload)
    requires Valid(s)
    ensures p.Document? && p.concepts.Some? && p.relations.Some?
    ensures |p.concepts.value| == |s.concepts| && |p.relations.value| == |s.graph.edges|
  {
    TableSize(s);
    DistinctSize(EdgeList(s.graph), s.graph.edges.Keys);
    Document(Some(ConceptRecords(s, Ids(s))), Some(RelationRecords(s.graph, EdgeList(s.graph), rule)))
  }

  /** `export_knowledge_base(format)`: the document, without "bidirectional" keys, for "json" in any case; "" (which does not parse) otherwise. */
  function Export(s: Store, format: string): (p: Payload)
    requires Valid(s)
    ensures Lower(format) != "json" ==> p == Unparsable
  {
    if Lower(format) == "json" then Snapshot(s, NoKey) else Unparsable
  }

  /** The document `save_knowledge_base` writes, as the code builds it (see `SavedReloadLoses`). */
  function SavedAsWritten(s: Store): Payload
    requires Valid(s)
  {
    Snapshot(s, SameType)
  }

  /**
   * The document `save_knowledge_base` is meant to write: no record marked bidirectional. Both
   * edges of a pair are records of their own already, so a set flag can only make reading back
   * write one edge's data over the other's and move the mirror edge among its source's successors.
   */
  function Saved(s: Store): Payload
    requires Valid(s)
  {
    Snapshot(s, Cleared)
  }

  /** Each type-only-flagged record names an edge of its list and is flagged iff the reverse edge has the same type. */
  lemma TypeFlagged(g: Digraph, es: seq<(Id, Id)>)
    requires forall e :: e in es ==> e in g.edges
    ensures var rs := RelationRecords(g, es, SameType);
      forall k :: 0 <= k < |rs| ==>
        && rs[k].source == Some(es[k].0) && rs[k].target == Some(es[k].1)
        && rs[k].bidirectional == Some((es[k].1, es[k].0) in g.edges && g.edges[(es[k].1, es[k].0)].relationType == g.edges[es[k]].relationType)
  {
    var rs := RelationRecords(g, es, SameType);
    forall k | 0 <= k < |rs|
      ensures rs[k].source == Some(es[k].0) && rs[k].target == Some(es[k].1)
      ensures rs[k].bidirectional == Some((es[k].1, es[k].0) in g.edges && g.edges[(es[k].1, es[k].0)].relationType == g.edges[es[k]].relationType)
    {
      assert es[k] in es;
      assert rs[k] == EdgeRecord(g, es[k], SameType);
    }
  }

  /** Records written without the flag carry no "bidirectional" key. */
  lemma Unflagged(g: Digraph, es: seq<(Id, Id)>)
    requires forall e :: e in es ==> e in g.edges
    ensures var rs := RelationRecords(g, es, NoKey);
      forall k :: 0 <= k < |rs| ==> rs[k].bidirectional == None
  {
    var rs := RelationRecords(g, es, NoKey);
    forall k | 0 <= k < |rs| ensures rs[k].bidirectional == None {
      assert es[k] in es;
      assert rs[k] == EdgeRecord(g, es[k], NoKey);
    }
  }

  /**
   * The relation records of the saved snapshot as written: one per edge, in `EdgeList` order, so
   * every edge has its record, and a record is flagged bidirectional exactly when the reverse
   * edge exists with the same relation type. Export writes no flag at all.
   */
  lemma SnapshotFlags(s: Store)
    requires Valid(s)
    ensures var saved := SavedAsWritten(s).relations.value;
      var es := EdgeList(s.graph);
      && |saved| == |es|
      && (forall e :: e in s.graph.edges <==> e in es)
      && forall k :: 0 <= k < |saved| ==>
        && saved[k].source == Some(es[k].0) && saved[k].target == Some(es[k].1)
        && saved[k].bidirectional == Some((es[k].1, es[k].0) in s.graph.edges && s.graph.edges[(es[k].1, es[k].0)].relationType == s.graph.edges[es[k]].relationType)
    ensures var exported := Snapshot(s, NoKey).relations.value;
      forall k :: 0 <= k < |exported| ==> exported[k].bidirectional == None
  {
    var es := EdgeList(s.graph);
    assert SavedAsWritten(s).relations.value == RelationRecords(s.graph, es, SameType);
    assert Snapshot(s, NoKey).relations.value == RelationRecords(s.graph, es, NoKey);
    TypeFlagged(s.graph, es);
    Unflagged(s.graph, es);
  }

  // ---------------------------------------------------------------------------------------------
  // Round trips

  /** `s` without its edges: the same table, nodes and attributes, and no successors. */
  function Bare(s: Store): (t: Store)
    requires Valid(s)
    ensures Valid(t) && t.concepts == s.concepts && Ids(t) == Ids(s) && t.graph.edges == map[]
  {
    Store(s.concepts, Digraph(s.graph.nodes, s.graph.attrs, map[], map u | u in s.graph.attrs :: []))
  }

  /** `t` holds the first `k` concepts of `s`, in the same order, and no edge. */
  ghost predicate ConceptPrefix(t: Store, s: Store, k: nat) {
    && k <= |Ids(s)|
    && Ids(t) == Ids(s)[..k]
    && (forall id :: id in t.concepts ==> id in s.concepts && t.concepts[id] == s.concepts[id])
    && t.graph.edges == map[]
  }

  /** A prefix holding every concept of `s` is `s` without its edges. */
  lemma PrefixComplete(s: Store, t: Store)
    requires Valid(s) && Valid(t) && ConceptPrefix(t, s, |Ids(s)|)
    ensures t == Bare(s)
  {
    assert Ids(s)[..|Ids(s)|] == Ids(s);
    assert forall id :: id in t.concepts <==> id in s.concepts;
    assert t.concepts == s.concepts;
    assert t.graph.attrs == s.graph.attrs;
    NoSuccessors(t.graph);
  }

  /** A graph without edges lists no successor for any node. */
  lemma NoSuccessors(g: Digraph)
    requires WellFormed(g) && g.edges == map[]
    ensures g.succ == map u | u in g.attrs :: []
  {
    forall u | u in g.succ ensures g.succ[u] == [] {
      HeadIn(g.succ[u]);
    }
  }

  /** Adding the next concept of `s` to a prefix extends the prefix. */
  lemma PrefixStep(s: Store, t: Store, k: nat)
    requires Valid(s) && Valid(t) && ConceptPrefix(t, s, k) && k < |Ids(s)|
    ensures Ids(s)[k] in s.concepts && Ids(s)[k] !in t.concepts
    ensures ConceptPrefix(InsertConcept(t, s.concepts[Ids(s)[k]]), s, k + 1)
  {
    NextConcept(s, t, k);
    var ids := Ids(s);
    var c := s.concepts[ids[k]];
    var t' := InsertConcept(t, c);
    assert Ids(t') == ids[..k + 1] by {
      PrefixExtend(ids, k);
    }
    SubMapExtend(t.concepts, s.concepts, c.id, c);
  }

  /** A map that agrees with `big` still does after one more of `big`'s entries is added. */
  lemma SubMapExtend<K, V>(m: map<K, V>, big: map<K, V>, key: K, val: V)
    requires forall x :: x in m ==> x in big && m[x] == big[x]
    requires key in big && big[key] == val
    ensures forall x :: x in m[key := val] ==> x in big && m[key := val][x] == big[x]
  {
  }

  /** The next concept of `s` after a prefix is not in the prefix yet. */
  lemma NextConcept(s: Store, t: Store, k: nat)
    requires Valid(s) && Valid(t) && ConceptPrefix(t, s, k) && k < |Ids(s)|
    ensures Ids(s)[k] in s.concepts && Ids(s)[k] !in t.concepts
    ensures s.concepts[Ids(s)[k]].id == Ids(s)[k]
  {
    var ids := Ids(s);
    assert ids[k] in s.graph.nodes;
    NotInPrefix(ids, k);
    assert ids[k] !in t.graph.nodes;
  }

  lemma NotInPrefix(ids: seq<Id>, k: nat)
    requires Distinct(ids) && k < |ids|
    ensures ids[k] !in ids[..k]
  {
    forall j | 0 <= j < k ensures ids[..k][j] != ids[k] {
      assert ids[..k][j] == ids[j];
    }
  }

  /** Reading back the concept records of the rest of `s`'s table completes the table, in order. */
  lemma {:induction false} ConceptRecordsRebuild(s: Store, t: Store, k: nat)
    requires Valid(s) && Valid(t) && ConceptPrefix(t, s, k)
    ensures AddConceptRecords(t, ConceptRecords(s, Ids(s)[k..])) == (Bare(s), true)
    decreases |Ids(s)| - k
  {
    var ids := Ids(s);
    var recs := ConceptRecords(s, ids[k..]);
    if k == |ids| {
      PrefixComplete(s, t);
      assert recs == [];
    } else {
      PrefixStep(s, t, k);
      var c := s.concepts[ids[k]];
      assert ConceptOf(recs[0]) == Some(c);
      assert recs[1..] == ConceptRecords(s, ids[k + 1..]) by {
        assert ids[k..][1..] == ids[k + 1..];
      }
      assert AddConceptRecords(t, recs) == AddConceptRecords(InsertConcept(t, c), recs[1..]);
      ConceptRecordsRebuild(s, InsertConcept(t, c), k + 1);
    }
  }

  /** Every edge of `t` is an edge of `s` with the same data. */
  ghost predicate SubEdges(h: Digraph, g: Digraph) {
    forall e :: e in h.edges ==> e in g.edges && h.edges[e] == g.edges[e]
  }

  /** The targets of the pairs of `es` leaving `u`, in order. */
  function Targets(es: seq<(Id, Id)>, u: Id): (r: seq<Id>)
    ensures forall v :: v in r <==> (u, v) in es
  {
    if es == [] then []
    else
      assert forall e :: e in es <==> e == es[0] || e in es[1..];
      (if es[0].0 == u then [es[0].1] else []) + Targets(es[1..], u)
  }

  lemma {:induction false} TargetsAppend(a: seq<(Id, Id)>, b: seq<(Id, Id)>, u: Id)
    ensures Targets(a + b, u) == Targets(a, u) + Targets(b, u)
  {
    if a != [] {
      assert (a + b)[0] == a[0] && (a + b)[1..] == a[1..] + b;
      var here := if a[0].0 == u then [a[0].1] else [];
      assert Targets(a + b, u) == here + Targets(a[1..] + b, u);
      TargetsAppend(a[1..], b, u);
      assert Targets(a, u) == here + Targets(a[1..], u);
      assert here + (Targets(a[1..], u) + Targets(b, u)) == (here + Targets(a[1..], u)) + Targets(b, u);
    } else {
      assert a + b == b;
    }
  }

  lemma {:induction false} TargetsPairs(x: Id, vs: seq<Id>, u: Id)
    ensures Targets(Pairs(x, vs), u) == if x == u then vs else []
  {
    if vs != [] {
      TargetsPairs(x, vs[1..], u);
    }
  }

  /** Listing the edges of `us` source by source, the targets leaving `u` are `u`'s successors, in their order. */
  lemma {:induction false} TargetsEdgesFrom(g: Digraph, us: seq<Id>, u: Id)
    requires WellFormed(g) && Distinct(us)
    ensures Targets(EdgesFrom(g, us), u) == if u in us then Successors(g, u) else []
  {
    if us != [] {
      TargetsEdgesFrom(g, us[1..], u);
      TargetsAppend(Pairs(us[0], Successors(g, us[0])), EdgesFrom(g, us[1..]), u);
      TargetsPairs(us[0], Successors(g, us[0]), u);
      assert u in us <==> u == us[0] || u in us[1..];
    }
  }

  /** Reading back one flagless record of a new edge of `g` whose endpoints are concepts adds that edge with its data. */
  lemma EdgeStep(g: Digraph, t: Store, e: (Id, Id), rule: MirrorRule)
    requires Valid(t) && rule != SameType && e in g.edges && e.0 in t.concepts && e.1 in t.concepts && e !in t.graph.edges
    ensures var t' := InsertRelation(t, RelationOf(EdgeRecord(g, e, rule)).value);
      && t'.concepts == t.concepts && (SubEdges(t.graph, g) ==> SubEdges(t'.graph, g))
      && (forall x :: x in t'.graph.edges <==> x in t.graph.edges || x == e)
  {
    var rel := RelationOf(EdgeRecord(g, e, rule)).value;
    assert Connects(t, rel) && !rel.bidirectional;
    var t' := InsertRelation(t, rel);
    if SubEdges(t.graph, g) {
      forall x | x in t'.graph.edges ensures x in g.edges && t'.graph.edges[x] == g.edges[x] {
        if x != e {
          assert x in t.graph.edges;
        }
      }
    }
  }

  /**
   * Reading back flagless edge records of `g`, onto a knowledge graph holding their endpoints but
   * none of their edges, adds each listed edge with its data and refuses no record.
   */
  lemma {:induction false} RelationRecordsRebuild(g: Digraph, t: Store, es: seq<(Id, Id)>, rule: MirrorRule)
    requires Valid(t) && rule != SameType && Distinct(es) && SubEdges(t.graph, g)
    requires forall e :: e in es ==> e in g.edges && e.0 in t.concepts && e.1 in t.concepts && e !in t.graph.edges
    ensures var r := AddRelationRecords(t, RelationRecords(g, es, rule));
      && r.1 && r.0.concepts == t.concepts && SubEdges(r.0.graph, g)
      && (forall e :: e in t.graph.edges || e in es ==> e in r.0.graph.edges)
    decreases |es|
  {
    if es != [] {
      var recs := RelationRecords(g, es, rule);
      var e := es[0];
      RecordsFirst(g, es, rule);
      var rel := RelationOf(EdgeRecord(g, e, rule)).value;
      EdgeStep(g, t, e, rule);
      var t' := InsertRelation(t, rel);
      ReadOneRecord(t, recs, rel);
      TailMembers(es);
      DistinctTail(es);
      RelationRecordsRebuild(g, t', es[1..], rule);
    }
  }

  /**
   * Reading back edge records of `g` whose flag is never set, onto a knowledge graph holding
   * their endpoints but none of their edges, appends the listed targets to their sources'
   * successors, in the order listed.
   */
  lemma {:induction false} RelationRecordsOrder(g: Digraph, t: Store, es: seq<(Id, Id)>, rule: MirrorRule)
    requires Valid(t) && rule != SameType && Distinct(es)
    requires forall e :: e in es ==> e in g.edges && e.0 in t.concepts && e.1 in t.concepts && e !in t.graph.edges
    ensures forall u :: Successors(AddRelationRecords(t, RelationRecords(g, es, rule)).0.graph, u)
                        == Successors(t.graph, u) + Targets(es, u)
    decreases |es|
  {
    var recs := RelationRecords(g, es, rule);
    if es == [] {
      forall u ensures Successors(t.graph, u) + Targets(es, u) == Successors(t.graph, u) {
        assert Targets(es, u) == [];
      }
    } else {
      var e := es[0];
      RecordsFirst(g, es, rule);
      var rel := RelationOf(EdgeRecord(g, e, rule)).value;
      AppendEdge(g, t, e, rule);
      var t' := InsertRelation(t, rel);
      ReadOneRecord(t, recs, rel);
      TailMembers(es);
      DistinctTail(es);
      RelationRecordsOrder(g, t', es[1..], rule);
      SuccessorsStep(AddRelationRecords(t, recs).0.graph, t'.graph, t.graph, es);
    }
  }

  /** Reading back one flagless record of a new edge whose endpoints are concepts puts its target last among its source's successors. */
  lemma AppendEdge(g: Digraph, t: Store, e: (Id, Id), rule: MirrorRule)
    requires Valid(t) && rule != SameType && e in g.edges && e.0 in t.concepts && e.1 in t.concepts && e !in t.graph.edges
    ensures var t' := InsertRelation(t, RelationOf(EdgeRecord(g, e, rule)).value);
      && t'.concepts == t.concepts
      && (forall x :: x in t'.graph.edges <==> x in t.graph.edges || x == e)
      && Successors(t'.graph, e.0) == Successors(t.graph, e.0) + [e.1]
      && (forall u :: u != e.0 ==> Successors(t'.graph, u) == Successors(t.graph, u))
  {
    var rel := RelationOf(EdgeRecord(g, e, rule)).value;
    assert Connects(t, rel) && !rel.bidirectional;
    assert InsertRelation(t, rel).graph == AddEdge(t.graph, e.0, e.1, EdgeOf(rel));
    AddEdgeOrder(t.graph, e.0, e.1, EdgeOf(rel));
  }

  /** The first record of a list of edges is the first edge's, and the rest are the rest's. */
  lemma RecordsFirst(g: Digraph, es: seq<(Id, Id)>, rule: MirrorRule)
    requires es != [] && forall e :: e in es ==> e in g.edges
    ensures RelationRecords(g, es, rule)[0] == EdgeRecord(g, es[0], rule)
    ensures RelationRecords(g, es, rule)[1..] == RelationRecords(g, es[1..], rule)
  {
    assert forall e :: e in es[1..] ==> e in es;
    var rest := RelationRecords(g, es[1..], rule);
    assert RelationRecords(g, es, rule) == [EdgeRecord(g, es[0], rule)] + rest;
    assert ([EdgeRecord(g, es[0], rule)] + rest)[1..] == rest;
  }

  /** Successor lists built from `g` by the first pair of `es` and then by the rest are built from `g` by all of `es`. */
  lemma SuccessorsStep(r: Digraph, g': Digraph, g: Digraph, es: seq<(Id, Id)>)
    requires es != []
    requires forall u :: Successors(r, u) == Successors(g', u) + Targets(es[1..], u)
    requires Successors(g', es[0].0) == Successors(g, es[0].0) + [es[0].1]
    requires forall u :: u != es[0].0 ==> Successors(g', u) == Successors(g, u)
    ensures forall u :: Successors(r, u) == Successors(g, u) + Targets(es, u)
  {
    forall u ensures Successors(r, u) == Successors(g, u) + Targets(es, u) {
      TargetsFirst(Successors(g, u), Successors(g', u), Successors(r, u), es, u);
    }
  }

  /** Appending the targets of `es` is appending those of its first pair, then those of the rest. */
  lemma TargetsFirst(xs: seq<Id>, ys: seq<Id>, zs: seq<Id>, es: seq<(Id, Id)>, u: Id)
    requires es != [] && ys == xs + (if es[0].0 == u then [es[0].1] else []) && zs == ys + Targets(es[1..], u)
    ensures zs == xs + Targets(es, u)
  {
    var here := if es[0].0 == u then [es[0].1] else [];
    var rest := Targets(es[1..], u);
    assert Targets(es, u) == here + rest;
    assert (xs + here) + rest == xs + (here + rest);
  }

  /** Two knowledge graphs with the same table, nodes, attributes, edges and successor order are equal. */
  lemma SameStore(a: Store, s: Store)
    requires Valid(a) && Valid(s)
    requires a.concepts == s.concepts && a.graph.nodes == s.graph.nodes && a.graph.attrs == s.graph.attrs
    requires SubEdges(a.graph, s.graph) && forall e :: e in s.graph.edges ==> e in a.graph.edges
    requires forall u :: Successors(a.graph, u) == Successors(s.graph, u)
    ensures a == s
  {
    assert a.graph.edges == s.graph.edges;
    forall u | u in s.graph.succ ensures a.graph.succ[u] == s.graph.succ[u] {
      assert Successors(a.graph, u) == Successors(s.graph, u);
    }
    assert a.graph.succ == s.graph.succ;
  }

  /** Reading back the whole table of `s` from nothing gives `s` without its edges. */
  lemma ConceptsRebuild(s: Store)
    requires Valid(s)
    ensures AddConceptRecords(EmptyStore(), ConceptRecords(s, Ids(s))) == (Bare(s), true)
  {
    assert Ids(s)[0..] == Ids(s);
    assert ConceptPrefix(EmptyStore(), s, 0);
    ConceptRecordsRebuild(s, EmptyStore(), 0);
  }

  lemma ImportDocument(cs: Option<seq<ConceptRecord>>, rs: Option<seq<RelationRecord>>)
    ensures Rebuild(cs, rs).1 ==> Import(Document(cs, rs)) == Some(Rebuild(cs, rs).0)
  {
  }

  /** Reading back a snapshot with no flag set rebuilds exactly the same knowledge graph, successor order included. */
  lemma SnapshotRoundTrip(s: Store, rule: MirrorRule)
    requires Valid(s) && rule != SameType
    ensures Import(Snapshot(s, rule)) == Some(s)
  {
    var crecs := ConceptRecords(s, Ids(s));
    var rrecs := RelationRecords(s.graph, EdgeList(s.graph), rule);
    SnapshotRebuilds(s, rule);
    ImportDocument(Some(crecs), Some(rrecs));
    assert Snapshot(s, rule) == Document(Some(crecs), Some(rrecs));
  }

  /** Both lists of a snapshot, read back into a fresh knowledge graph, give `s` again with no record refused. */
  lemma SnapshotRebuilds(s: Store, rule: MirrorRule)
    requires Valid(s) && rule != SameType
    ensures Rebuild(Some(ConceptRecords(s, Ids(s))), Some(RelationRecords(s.graph, EdgeList(s.graph), rule))) == (s, true)
  {
    ConceptsRebuild(s);
    RelationsRebuild(s, rule);
  }

  /** Reading back every relation record of `s` onto its table without edges gives `s` with no record refused. */
  lemma RelationsRebuild(s: Store, rule: MirrorRule)
    requires Valid(s) && rule != SameType
    ensures AddRelationRecords(Bare(s), RelationRecords(s.graph, EdgeList(s.graph), rule)) == (s, true)
  {
    var es := EdgeList(s.graph);
    var t := Bare(s);
    assert forall e :: e in es ==> e in s.graph.edges && e.0 in t.concepts && e.1 in t.concepts && e !in t.graph.edges;
    RelationRecordsRebuild(s.graph, t, es, rule);
    RelationRecordsOrder(s.graph, t, es, rule);
    var r := AddRelationRecords(t, RelationRecords(s.graph, es, rule));
    forall u ensures Successors(r.0.graph, u) == Successors(s.graph, u) {
      TargetsEdgesFrom(s.graph, s.graph.nodes, u);
      assert Successors(t.graph, u) == [];
      if u !in s.graph.nodes {
        assert u !in s.graph.succ;
      }
    }
    SameStore(r.0, s);
  }

  /** `import_knowledge_base(export_knowledge_base("json"), "json")` reproduces the knowledge graph: concepts, order and edges. */
  lemma ExportImportRoundTrip(s: Store, format: string)
    requires Valid(s) && Lower(format) == "json"
    ensures Import(Export(s, format)) == Some(s)
  {
    SnapshotRoundTrip(s, NoKey);
  }

  /** Loading what the corrected save writes restores the knowledge graph exactly. */
  lemma SavedReloads(s: Store, current: Store)
    requires Valid(s) && Valid(current)
    ensures Load(current, Some(Saved(s))) == (s, true)
  {
    SnapshotRoundTrip(s, Cleared);
  }

  // ---------------------------------------------------------------------------------------------
  // The saved snapshot as written

  const ExampleA := Concept("a", "A", "", "", [], map[])
  const ExampleB := Concept("b", "B", "", "", [], map[])

  /** The graph of the example: two nodes joined both ways by edges of the same relation type and different strengths. */
  function MirrorPairGraph(): Digraph {
    Digraph(["a", "b"], map["a" := Mirror(ExampleA), "b" := Mirror(ExampleB)],
            map[("a", "b") := EdgeData("x", 0.9, ""), ("b", "a") := EdgeData("x", 0.5, "")],
            map["a" := ["b"], "b" := ["a"]])
  }

  /** Two concepts joined both ways by edges of the same relation type and different strengths. */
  function MirrorPairExample(): (s: Store)
    ensures Valid(s) && s.graph == MirrorPairGraph()
  {
    MirrorPairGraphWellFormed();
    Store(map["a" := ExampleA, "b" := ExampleB], MirrorPairGraph())
  }

  lemma MirrorPairGraphWellFormed()
    ensures WellFormed(MirrorPairGraph())
  {
    MirrorPairNodes();
    MirrorPairSuccessorsAreEdges();
    MirrorPairEdgesAreSuccessors();
  }

  lemma MirrorPairNodes()
    ensures var g := MirrorPairGraph();
      && Distinct(g.nodes) && (forall v :: v in g.attrs <==> v in g.nodes) && g.succ.Keys == g.attrs.Keys
      && (forall e :: e in g.edges ==> e.0 in g.attrs && e.1 in g.attrs)
      && (forall u :: u in g.succ ==> Distinct(g.succ[u]))
  {
  }

  lemma MirrorPairSuccessorsAreEdges()
    ensures var g := MirrorPairGraph(); forall u, v :: u in g.succ && v in g.succ[u] ==> (u, v) in g.edges
  {
    var g := MirrorPairGraph();
    forall u, v | u in g.succ && v in g.succ[u] ensures (u, v) in g.edges {
      if u == "a" {
        assert v == "b";
      } else {
        assert u == "b" && v == "a";
      }
    }
  }

  lemma MirrorPairEdgesAreSuccessors()
    ensures var g := MirrorPairGraph(); forall e :: e in g.edges ==> e.1 in g.succ[e.0]
  {
    var g := MirrorPairGraph();
    forall e | e in g.edges ensures e.1 in g.succ[e.0] {
      if e != ("a", "b") {
        assert e == ("b", "a");
      }
    }
  }

  /** The example's edges are listed a -> b first, then b -> a. */
  lemma ExampleEdgeList()
    ensures WellFormed(MirrorPairGraph())
    ensures EdgeList(MirrorPairGraph()) == [("a", "b"), ("b", "a")]
  {
    var g := MirrorPairExample().graph;
    ExampleSuccessors();
    ExampleEdgesFromB();
    assert EdgesFrom(g, ["a", "b"]) == Pairs("a", ["b"]) + EdgesFrom(g, ["b"]);
  }

  lemma ExampleSuccessors()
    ensures Successors(MirrorPairGraph(), "a") == ["b"]
    ensures Successors(MirrorPairGraph(), "b") == ["a"]
  {
  }

  lemma ExampleEdgesFromB()
    ensures WellFormed(MirrorPairGraph())
    ensures EdgesFrom(MirrorPairGraph(), ["b"]) == [("b", "a")]
  {
    assert Valid(MirrorPairExample());
    ExampleSuccessors();
  }

  /** Both flags the saved example carries are set, since the two edges share their relation type. */
  lemma ExampleFlags()
    ensures var g := MirrorPairGraph();
      && ("a", "b") in g.edges && g.edges[("a", "b")] == EdgeData("x", 0.9, "")
      && ("b", "a") in g.edges && g.edges[("b", "a")] == EdgeData("x", 0.5, "")
      && MirrorFlag(g, ("a", "b"), SameType) == Some(true)
      && MirrorFlag(g, ("b", "a"), SameType) == Some(true)
  {
  }

  /** The edge records of the saved example. */
  lemma ExampleEdgeRecords()
    ensures var g := MirrorPairGraph();
      RelationRecords(g, EdgeList(g), SameType) == [
        RelationRecord(Some("a"), Some("b"), Some("x"), Some(0.9), Some(""), Some(true)),
        RelationRecord(Some("b"), Some("a"), Some("x"), Some(0.5), Some(""), Some(true))]
  {
    var g := MirrorPairGraph();
    ExampleEdgeList();
    ExampleFlags();
    var rrecs := RelationRecords(g, EdgeList(g), SameType);
    assert rrecs[0] == EdgeRecord(g, ("a", "b"), SameType);
    assert rrecs[1] == EdgeRecord(g, ("b", "a"), SameType);
  }

  /** The saved example carries both edges with "bidirectional" set. */
  lemma ExampleSavedRecords()
    ensures var s := MirrorPairExample();
      SavedAsWritten(s) == Document(Some(ConceptRecords(s, Ids(s))), Some([
        RelationRecord(Some("a"), Some("b"), Some("x"), Some(0.9), Some(""), Some(true)),
        RelationRecord(Some("b"), Some("a"), Some("x"), Some(0.5), Some(""), Some(true))]))
  {
    ExampleEdgeRecords();
  }

  /** Reading the two records back leaves the later one's data on both edges. */
  lemma ExampleReload(t: Store)
    requires Valid(t) && "a" in t.concepts && "b" in t.concepts
    ensures var r := AddRelationRecords(t, [
        RelationRecord(Some("a"), Some("b"), Some("x"), Some(0.9), Some(""), Some(true)),
        RelationRecord(Some("b"), Some("a"), Some("x"), Some(0.5), Some(""), Some(true))]);
      r.1 && ("a", "b") in r.0.graph.edges && r.0.graph.edges[("a", "b")] == EdgeData("x", 0.5, "")
  {
    var recs := [
        RelationRecord(Some("a"), Some("b"), Some("x"), Some(0.9), Some(""), Some(true)),
        RelationRecord(Some("b"), Some("a"), Some("x"), Some(0.5), Some(""), Some(true))];
    var r1 := Relation("a", "b", "x", 0.9, "", true);
    var r2 := Relation("b", "a", "x", 0.5, "", true);
    assert RelationOf(recs[0]) == Some(r1);
    assert RelationOf(recs[1]) == Some(r2);
    var t1 := InsertRelation(t, r1);
    var t2 := InsertRelation(t1, r2);
    assert Connects(t1, r2);
    assert t2.graph.edges[("a", "b")] == EdgeOf(r2);
    ReadOneRecord(t, recs, r1);
    ReadOneRecord(t1, recs[1..], r2);
    assert recs[1..][1..] == [];
  }

  /** A complete first record is added, and reading goes on with the rest. */
  lemma ReadOneRecord(t: Store, recs: seq<RelationRecord>, rel: Relation)
    requires Valid(t) && |recs| > 0 && RelationOf(recs[0]) == Some(rel)
    ensures AddRelationRecords(t, recs) == AddRelationRecords(InsertRelation(t, rel), recs[1..])
  {
  }

  /**
   * Saving marks both edges of the example bidirectional because their relation types agree, so
   * reloading writes the later edge's data over the earlier one: a -> b comes back with strength
   * 0.5 instead of 0.9.
   */
  lemma SavedReloadLoses()
    ensures MirrorPairExample().graph.edges[("a", "b")].strength == 0.9
    ensures var r := Load(EmptyStore(), Some(SavedAsWritten(MirrorPairExample())));
      r.1 && ("a", "b") in r.0.graph.edges && r.0.graph.edges[("a", "b")].strength == 0.5
  {
    var s := MirrorPairExample();
    ExampleFlags();
    ExampleSavedRecords();
    var rrecs := [
      RelationRecord(Some("a"), Some("b"), Some("x"), Some(0.9), Some(""), Some(true)),
      RelationRecord(Some("b"), Some("a"), Some("x"), Some(0.5), Some(""), Some(true))];
    ReloadSaved(s, rrecs);
    ExampleReload(Bare(s));
  }

  /** Loading what was saved rebuilds the concepts, edge-free, then reads the saved relation records. */
  lemma ReloadSaved(s: Store, rrecs: seq<RelationRecord>)
    requires Valid(s) && SavedAsWritten(s) == Document(Some(ConceptRecords(s, Ids(s))), Some(rrecs))
    ensures Load(EmptyStore(), Some(SavedAsWritten(s))) == AddRelationRecords(Bare(s), rrecs)
  {
    ConceptsRebuild(s);
    RebuildDocument(Some(ConceptRecords(s, Ids(s))), Some(rrecs));
  }

  lemma RebuildDocument(cs: Option<seq<ConceptRecord>>, rs: Option<seq<RelationRecord>>)
    ensures var loaded := AddConceptRecords(EmptyStore(), cs.GetOr([]));
      loaded.1 ==> Load(EmptyStore(), Some(Document(cs, rs))) == AddRelationRecords(loaded.0, rs.GetOr([]))
  {
  }

}
