/**
 * The knowledge manager (`KnowledgeManager`): creation, update and deletion of concepts by id,
 * relations between concepts named case-insensitively, filters over the table, and the document
 * form of the knowledge base. The pure functions state what each operation does to the value of
 * the knowledge graph; the class performs it in place.
 */
module KnowledgeManagers {
  import opened Wrappers
  import opened Records
  import opened Digraphs
  import opened Stores
  import opened Text
  import opened Snapshots
  import opened KnowledgeGraphs

  /** Equal once lower-cased: the comparison names and categories are matched with. */
  predicate SameName(a: string, b: string) {
    Lower(a) == Lower(b)
  }

  // ---------------------------------------------------------------------------------------------
  // add_concept

  /** Some concept of the table already has this name, ignoring case. */
  predicate NameTaken(s: Store, name: string) {
    exists id :: id in s.concepts && SameName(s.concepts[id].name, name)
  }

  /** The id a new concept gets: "c" followed by one more than the number of concepts. */
  function NextId(s: Store): Id {
    "c" + NatToString(|s.concepts| + 1)
  }

  /**
   * `add_concept(name, ...)`: "" with nothing changed when the name is taken or the next id is
   * already in use; otherwise that id, with the concept added under it. An absent list or map of
   * the source is the empty one here.
   */
  function AddNamedConcept(s: Store, name: string, description: string, category: string,
                           related: seq<Id>, attributes: map<string, string>): (r: (Store, Id))
    requires Valid(s)
    ensures Valid(r.0)
  {
    if NameTaken(s, name) then (s, "")
    else
      var c := Concept(NextId(s), name, description, category, related, attributes);
      if c.id in s.concepts then (s, "") else (InsertConcept(s, c), c.id)
  }

  /** A name that no concept in table order carries is not taken. */
  lemma NameFreeAfterScan(s: Store, name: string)
    requires Valid(s)
    requires forall j :: 0 <= j < |Ids(s)| ==> !SameName(s.concepts[Ids(s)[j]].name, name)
    ensures !NameTaken(s, name)
  {
    forall cid | cid in s.concepts ensures !SameName(s.concepts[cid].name, name) {
      var j :| 0 <= j < |Ids(s)| && Ids(s)[j] == cid;
    }
  }

  /**
   * `add_concept` succeeds exactly when the name is free and the next id unused; then the table
   * grows by that one concept, carrying the given fields, no other concept shares its name, and
   * the edges are untouched. On failure nothing changes.
   */
  lemma AddNamedConceptOutcome(s: Store, name: string, description: string, category: string,
                               related: seq<Id>, attributes: map<string, string>)
    requires Valid(s)
    ensures var r := AddNamedConcept(s, name, description, category, related, attributes);
      && (r.1 != "" <==> !NameTaken(s, name) && NextId(s) !in s.concepts)
      && (r.1 == "" ==> r.0 == s)
      && (r.1 != "" ==>
            && r.1 == NextId(s) && r.1 !in s.concepts
            && r.0.concepts == s.concepts[r.1 := Concept(r.1, name, description, category, related, attributes)]
            && |r.0.concepts| == |s.concepts| + 1
            && Ids(r.0) == Ids(s) + [r.1]
            && r.0.graph.edges == s.graph.edges
            && forall id :: id in r.0.concepts && id != r.1 ==> !SameName(r.0.concepts[id].name, name))
  {
    assert |NextId(s)| > 0;
  }

  /** The source's sharp edge: a table with "c1" and "c2" has "c1" deleted, and the next concept's id "c2" is taken, so adding it fails. */
  lemma DeleteThenAddCollides(s: Store, name: string, description: string, category: string)
    requires Valid(s) && s.concepts.Keys == {"c1", "c2"} && !NameTaken(RemoveConcept(s, "c1"), name)
    ensures AddNamedConcept(RemoveConcept(s, "c1"), name, description, category, [], map[]).1 == ""
  {
    var t := RemoveConcept(s, "c1");
    assert t.concepts.Keys == {"c2"};
    assert |t.concepts| == 1;
    NextIdAfterOne(t);
  }

  lemma NextIdAfterOne(t: Store)
    requires |t.concepts| == 1
    ensures NextId(t) == "c2"
  {
    assert NatToString(2) == "2";
  }

  // ---------------------------------------------------------------------------------------------
  // add_relation

  /**
   * The name-resolution loop over `ids`, from the ids found so far: a concept named like the
   * source becomes the source; otherwise (`elif`) one named like the target becomes the target.
   */
  function Resolve(s: Store, ids: seq<Id>, sourceName: string, targetName: string, found: (Id, Id)): (Id, Id)
    requires forall id :: id in ids ==> id in s.concepts
  {
    if ids == [] then found
    else
      var name := s.concepts[ids[0]].name;
      var next :=
        if SameName(name, sourceName) then (ids[0], found.1)
        else if SameName(name, targetName) then (found.0, ids[0])
        else found;
      Resolve(s, ids[1..], sourceName, targetName, next)
  }

  /** The (source, target) ids the loop settles on over the whole table, "" for a name not found. */
  function ResolveNames(s: Store, sourceName: string, targetName: string): (Id, Id)
    requires Valid(s)
  {
    Resolve(s, Ids(s), sourceName, targetName, ("", ""))
  }

  /**
   * `add_relation(source_name, target_name, ...)`: false with nothing changed when either name is
   * not resolved; otherwise the relation between the resolved ids is added.
   */
  function AddNamedRelation(s: Store, sourceName: string, targetName: string, relationType: string,
                            strength: real, description: string, bidirectional: bool): (r: (Store, bool))
    requires Valid(s)
    ensures Valid(r.0)
  {
    var ids := ResolveNames(s, sourceName, targetName);
    if ids.0 == "" || ids.1 == "" then (s, false)
    else
      var rel := Relation(ids.0, ids.1, relationType, strength, description, bidirectional);
      if Connects(s, rel) then (InsertRelation(s, rel), true) else (s, false)
  }

  /** The source a concept at this position resolves to: named like the source. */
  predicate SourceHit(s: Store, ids: seq<Id>, sourceName: string, k: int)
    requires forall id :: id in ids ==> id in s.concepts
  {
    0 <= k < |ids| && SameName(s.concepts[ids[k]].name, sourceName)
  }

  /** The target a concept at this position resolves to: named like the target but not like the source. */
  predicate TargetHit(s: Store, ids: seq<Id>, sourceName: string, targetName: string, k: int)
    requires forall id :: id in ids ==> id in s.concepts
  {
    0 <= k < |ids| && !SameName(s.concepts[ids[k]].name, sourceName) && SameName(s.concepts[ids[k]].name, targetName)
  }

  /** Position `k` holds the last concept of `ids` named like the source. */
  predicate LastSourceHit(s: Store, ids: seq<Id>, sourceName: string, k: int)
    requires forall id :: id in ids ==> id in s.concepts
  {
    SourceHit(s, ids, sourceName, k) && forall j :: k < j < |ids| ==> !SourceHit(s, ids, sourceName, j)
  }

  /** Position `k` holds the last concept of `ids` taken as the target. */
  predicate LastTargetHit(s: Store, ids: seq<Id>, sourceName: string, targetName: string, k: int)
    requires forall id :: id in ids ==> id in s.concepts
  {
    TargetHit(s, ids, sourceName, targetName, k) && forall j :: k < j < |ids| ==> !TargetHit(s, ids, sourceName, targetName, j)
  }

  /** The loop's source is the last concept named like the source, or what was found before when there is none. */
  lemma {:induction false} ResolveSource(s: Store, ids: seq<Id>, sourceName: string, targetName: string, found: (Id, Id))
    requires forall id :: id in ids ==> id in s.concepts
    ensures (forall k :: !SourceHit(s, ids, sourceName, k)) ==> Resolve(s, ids, sourceName, targetName, found).0 == found.0
    ensures forall k :: LastSourceHit(s, ids, sourceName, k) ==> Resolve(s, ids, sourceName, targetName, found).0 == ids[k]
    decreases |ids|
  {
    if ids != [] {
      var tail := ids[1..];
      var name := s.concepts[ids[0]].name;
      var next :=
        if SameName(name, sourceName) then (ids[0], found.1)
        else if SameName(name, targetName) then (found.0, ids[0])
        else found;
      ResolveSource(s, tail, sourceName, targetName, next);
      forall j | 0 <= j ensures SourceHit(s, tail, sourceName, j) <==> SourceHit(s, ids, sourceName, j + 1) {
        if 0 <= j < |tail| {
          assert tail[j] == ids[j + 1];
        }
      }
      forall k | LastSourceHit(s, ids, sourceName, k)
        ensures Resolve(s, ids, sourceName, targetName, found).0 == ids[k]
      {
        if k == 0 {
          assert forall j :: !SourceHit(s, tail, sourceName, j) by {
            forall j ensures !SourceHit(s, tail, sourceName, j) {
              if 0 <= j {
                assert !SourceHit(s, ids, sourceName, j + 1);
              }
            }
          }
        } else {
          assert SourceHit(s, tail, sourceName, k - 1);
          assert forall j :: k - 1 < j ==> !SourceHit(s, tail, sourceName, j) by {
            forall j | k - 1 < j ensures !SourceHit(s, tail, sourceName, j) {
              if 0 <= j {
                assert !SourceHit(s, ids, sourceName, j + 1);
              }
            }
          }
        }
      }
      if forall k :: !SourceHit(s, ids, sourceName, k) {
        assert !SourceHit(s, ids, sourceName, 0);
        assert forall j :: !SourceHit(s, tail, sourceName, j) by {
          forall j ensures !SourceHit(s, tail, sourceName, j) {
            if 0 <= j {
              assert !SourceHit(s, ids, sourceName, j + 1);
            }
          }
        }
      }
    }
  }

  /**
   * The loop's target is the last concept named like the target and not like the source, or what
   * was found before when there is none.
   */
  lemma {:induction false} ResolveTarget(s: Store, ids: seq<Id>, sourceName: string, targetName: string, found: (Id, Id))
    requires forall id :: id in ids ==> id in s.concepts
    ensures (forall k :: !TargetHit(s, ids, sourceName, targetName, k)) ==>
      Resolve(s, ids, sourceName, targetName, found).1 == found.1
    ensures forall k :: LastTargetHit(s, ids, sourceName, targetName, k) ==>
      Resolve(s, ids, sourceName, targetName, found).1 == ids[k]
    decreases |ids|
  {
    if ids != [] {
      var tail := ids[1..];
      var name := s.concepts[ids[0]].name;
      var next :=
        if SameName(name, sourceName) then (ids[0], found.1)
        else if SameName(name, targetName) then (found.0, ids[0])
        else found;
      ResolveTarget(s, tail, sourceName, targetName, next);
      forall j | 0 <= j ensures TargetHit(s, tail, sourceName, targetName, j) <==> TargetHit(s, ids, sourceName, targetName, j + 1) {
        if 0 <= j < |tail| {
          assert tail[j] == ids[j + 1];
        }
      }
      forall k | LastTargetHit(s, ids, sourceName, targetName, k)
        ensures Resolve(s, ids, sourceName, targetName, found).1 == ids[k]
      {
        if k == 0 {
          assert forall j :: !TargetHit(s, tail, sourceName, targetName, j) by {
            forall j ensures !TargetHit(s, tail, sourceName, targetName, j) {
              if 0 <= j {
                assert !TargetHit(s, ids, sourceName, targetName, j + 1);
              }
            }
          }
        } else {
          assert TargetHit(s, tail, sourceName, targetName, k - 1);
          assert forall j :: k - 1 < j ==> !TargetHit(s, tail, sourceName, targetName, j) by {
            forall j | k - 1 < j ensures !TargetHit(s, tail, sourceName, targetName, j) {
              if 0 <= j {
                assert !TargetHit(s, ids, sourceName, targetName, j + 1);
              }
            }
          }
        }
      }
      if forall k :: !TargetHit(s, ids, sourceName, targetName, k) {
        assert !TargetHit(s, ids, sourceName, targetName, 0);
        assert forall j :: !TargetHit(s, tail, sourceName, targetName, j) by {
          forall j ensures !TargetHit(s, tail, sourceName, targetName, j) {
            if 0 <= j {
              assert !TargetHit(s, ids, sourceName, targetName, j + 1);
            }
          }
        }
      }
    }
  }

  /** When the two names are equal ignoring case, no concept is ever taken as the target. */
  lemma {:induction false} ResolveSameNames(s: Store, ids: seq<Id>, sourceName: string, targetName: string, found: (Id, Id))
    requires forall id :: id in ids ==> id in s.concepts
    requires SameName(sourceName, targetName)
    ensures Resolve(s, ids, sourceName, targetName, found).1 == found.1
    decreases |ids|
  {
    if ids != [] {
      var name := s.concepts[ids[0]].name;
      var next := if SameName(name, sourceName) then (ids[0], found.1) else found;
      assert Resolve(s, ids, sourceName, targetName, found) == Resolve(s, ids[1..], sourceName, targetName, next);
      ResolveSameNames(s, ids[1..], sourceName, targetName, next);
    }
  }

  /**
   * `add_relation` with names that are equal ignoring case always fails and changes nothing:
   * the `elif` never lets the same concept be taken as the target.
   */
  lemma SameNamesNeverRelate(s: Store, sourceName: string, targetName: string, relationType: string,
                             strength: real, description: string, bidirectional: bool)
    requires Valid(s) && SameName(sourceName, targetName)
    ensures AddNamedRelation(s, sourceName, targetName, relationType, strength, description, bidirectional) == (s, false)
  {
    ResolveSameNames(s, Ids(s), sourceName, targetName, ("", ""));
  }

  /**
   * `add_relation` succeeds exactly when both names resolve to non-empty ids; it then adds the
   * relation between the last concept named like the source and the last one named like the
   * target (and not like the source).
   */
  lemma AddNamedRelationOutcome(s: Store, sourceName: string, targetName: string, relationType: string,
                                strength: real, description: string, bidirectional: bool)
    requires Valid(s)
    ensures var ids := ResolveNames(s, sourceName, targetName);
      var r := AddNamedRelation(s, sourceName, targetName, relationType, strength, description, bidirectional);
      && (r.1 <==> ids.0 != "" && ids.1 != "")
      && (!r.1 ==> r.0 == s)
      && (r.1 ==> ids.0 in s.concepts && ids.1 in s.concepts)
      && (r.1 ==> r.0 == InsertRelation(s, Relation(ids.0, ids.1, relationType, strength, description, bidirectional)))
      && (forall k :: LastSourceHit(s, Ids(s), sourceName, k) ==> ids.0 == Ids(s)[k])
      && (forall k :: LastTargetHit(s, Ids(s), sourceName, targetName, k) ==> ids.1 == Ids(s)[k])
      && ((forall k :: !SourceHit(s, Ids(s), sourceName, k)) ==> !r.1)
      && ((forall k :: !TargetHit(s, Ids(s), sourceName, targetName, k)) ==> !r.1)
  {
    ResolveSource(s, Ids(s), sourceName, targetName, ("", ""));
    ResolveTarget(s, Ids(s), sourceName, targetName, ("", ""));
    ResolveInTable(s, Ids(s), sourceName, targetName, ("", ""));
  }

  /** The ids the loop settles on are those found before or ids of the list. */
  lemma {:induction false} ResolveInTable(s: Store, ids: seq<Id>, sourceName: string, targetName: string, found: (Id, Id))
    requires forall id :: id in ids ==> id in s.concepts
    ensures var r := Resolve(s, ids, sourceName, targetName, found);
      (r.0 == found.0 || r.0 in ids) && (r.1 == found.1 || r.1 in ids)
    decreases |ids|
  {
    if ids != [] {
      var name := s.concepts[ids[0]].name;
      var next :=
        if SameName(name, sourceName) then (ids[0], found.1)
        else if SameName(name, targetName) then (found.0, ids[0])
        else found;
      ResolveInTable(s, ids[1..], sourceName, targetName, next);
    }
  }

  // ---------------------------------------------------------------------------------------------
  // get_concept_by_name, get_concepts_by_category, search_concepts

  /** The first concept of `ids`, in order, named like `name`. */
  function FirstNamed(s: Store, ids: seq<Id>, name: string): (r: Option<Concept>)
    requires forall id :: id in ids ==> id in s.concepts
    ensures r.None? <==> forall k :: 0 <= k < |ids| ==> !SameName(s.concepts[ids[k]].name, name)
    ensures r.Some? ==>
      exists k :: (0 <= k < |ids| && r.value == s.concepts[ids[k]] && SameName(r.value.name, name)
                   && forall j :: 0 <= j < k ==> !SameName(s.concepts[ids[j]].name, name))
  {
    if ids == [] then None
    else if SameName(s.concepts[ids[0]].name, name) then Some(s.concepts[ids[0]])
    else
      var r := FirstNamed(s, ids[1..], name);
      assert forall k :: 1 <= k < |ids| ==> ids[k] == ids[1..][k - 1];
      if r.Some? then
        var k :| 0 <= k < |ids[1..]| && r.value == s.concepts[ids[1..][k]] && SameName(r.value.name, name)
          && forall j :: 0 <= j < k ==> !SameName(s.concepts[ids[1..][j]].name, name);
        assert r.value == s.concepts[ids[k + 1]];
        r
      else r
  }

  /** `get_concept_by_name(name)`: the first concept in table order named like `name`, ignoring case. */
  function GetConceptByName(s: Store, name: string): (r: Option<Concept>)
    requires Valid(s)
    ensures r.None? <==> !NameTaken(s, name)
    ensures r.Some? ==> r.value.id in s.concepts && s.concepts[r.value.id] == r.value && SameName(r.value.name, name)
  {
    var r := FirstNamed(s, Ids(s), name);
    if r.None? then
      assert !NameTaken(s, name) by {
        forall id | id in s.concepts ensures !SameName(s.concepts[id].name, name) {
          assert id in Ids(s);
          var k :| 0 <= k < |Ids(s)| && Ids(s)[k] == id;
        }
      }
      r
    else r
  }

  /** The concepts of `ids`, in order, that `keep` admits. */
  function Select(s: Store, ids: seq<Id>, keep: Concept -> bool): (r: seq<Concept>)
    requires forall id :: id in ids ==> id in s.concepts
    ensures |r| <= |ids|
    ensures forall c :: c in r ==> keep(c)
  {
    if ids == [] then []
    else
      var rest := Select(s, ids[1..], keep);
      if keep(s.concepts[ids[0]]) then [s.concepts[ids[0]]] + rest else rest
  }

  /** The selection holds exactly the admitted concepts of the listed ids. */
  lemma {:induction false} SelectMembers(s: Store, ids: seq<Id>, keep: Concept -> bool)
    requires forall id :: id in ids ==> id in s.concepts
    ensures forall c :: c in Select(s, ids, keep) <==> exists id :: id in ids && c == s.concepts[id] && keep(c)
    decreases |ids|
  {
    if ids != [] {
      SelectMembers(s, ids[1..], keep);
      assert forall id :: id in ids <==> id == ids[0] || id in ids[1..];
    }
  }

  /** Selecting from two lists one after the other gives the two selections one after the other. */
  lemma {:induction false} SelectAppend(s: Store, a: seq<Id>, b: seq<Id>, keep: Concept -> bool)
    requires (forall id :: id in a ==> id in s.concepts) && (forall id :: id in b ==> id in s.concepts)
    ensures Select(s, a + b, keep) == Select(s, a, keep) + Select(s, b, keep)
    decreases |a|
  {
    if a == [] {
      assert a + b == b;
    } else {
      var c := s.concepts[a[0]];
      var head := if keep(c) then [c] else [];
      assert (a + b)[0] == a[0] && (a + b)[1..] == a[1..] + b;
      assert Select(s, a + b, keep) == head + Select(s, a[1..] + b, keep);
      assert Select(s, a, keep) == head + Select(s, a[1..], keep);
      SelectAppend(s, a[1..], b, keep);
      var x, y := Select(s, a[1..], keep), Select(s, b, keep);
      assert head + (x + y) == (head + x) + y;
    }
  }

  /** A single id gives its concept when `keep` admits it and nothing otherwise. */
  lemma SelectOne(s: Store, id: Id, keep: Concept -> bool)
    requires id in s.concepts
    ensures Select(s, [id], keep) == if keep(s.concepts[id]) then [s.concepts[id]] else []
  {
    assert [id][1..] == [];
  }

  /** No two concepts of `cs` share an id. */
  predicate OncePerId(cs: seq<Concept>) {
    forall i, j :: 0 <= i < j < |cs| ==> cs[i].id != cs[j].id
  }

  /** Selecting from a list without repeated ids gives at most one concept per id. */
  lemma {:induction false} SelectOnce(s: Store, ids: seq<Id>, keep: Concept -> bool)
    requires Distinct(ids) && forall id :: id in ids ==> id in s.concepts && s.concepts[id].id == id
    ensures OncePerId(Select(s, ids, keep))
    decreases |ids|
  {
    if ids != [] {
      DistinctTail(ids);
      SelectOnce(s, ids[1..], keep);
      var rest := Select(s, ids[1..], keep);
      SelectMembers(s, ids[1..], keep);
      forall c | c in rest ensures c.id != ids[0] {
        var id :| id in ids[1..] && c == s.concepts[id] && keep(c);
        TailMembers(ids);
      }
      var c := s.concepts[ids[0]];
      if keep(c) {
        var r := Select(s, ids, keep);
        assert r == [c] + rest;
        assert ids[0] in ids && c.id == ids[0];
        forall i, j | 0 <= i < j < |r| ensures r[i].id != r[j].id {
          assert r[j] == rest[j - 1] && r[j] in rest;
          if i > 0 {
            assert r[i] == rest[i - 1];
            assert 0 <= i - 1 < j - 1 < |rest|;
          } else {
            assert r[i] == c;
          }
        }
      }
    }
  }

  /** The concepts of the table that `keep` admits, each exactly when it is in the table. */
  lemma SelectTable(s: Store, keep: Concept -> bool)
    requires Valid(s)
    ensures forall c :: c in Select(s, Ids(s), keep) <==> c.id in s.concepts && s.concepts[c.id] == c && keep(c)
  {
    SelectMembers(s, Ids(s), keep);
  }

  predicate InCategory(category: string, c: Concept) {
    SameName(c.category, category)
  }

  /** `get_concepts_by_category(category)`: the concepts, in table order, whose category equals it ignoring case. */
  function ConceptsByCategory(s: Store, category: string): (r: seq<Concept>)
    requires Valid(s)
    ensures forall c :: c in r <==> c.id in s.concepts && s.concepts[c.id] == c && SameName(c.category, category)
    ensures OncePerId(r)
  {
    var keep := c => InCategory(category, c);
    SelectTable(s, keep);
    SelectOnce(s, Ids(s), keep);
    Select(s, Ids(s), keep)
  }

  predicate Matches(query: string, c: Concept) {
    Contains(Lower(c.name), Lower(query)) || Contains(Lower(c.description), Lower(query))
  }

  /** `search_concepts(query)`: the concepts, in table order, whose lower-cased name or description contains the lower-cased query. */
  function SearchConcepts(s: Store, query: string): (r: seq<Concept>)
    requires Valid(s)
    ensures forall c :: c in r <==>
      (c.id in s.concepts && s.concepts[c.id] == c
       && (Contains(Lower(c.name), Lower(query)) || Contains(Lower(c.description), Lower(query))))
    ensures OncePerId(r)
  {
    var keep := c => Matches(query, c);
    SelectTable(s, keep);
    SelectOnce(s, Ids(s), keep);
    Select(s, Ids(s), keep)
  }

  // ---------------------------------------------------------------------------------------------
  // update_concept

  /** `update_concept` checks no name: it can give a concept the name another one already has. */
  lemma UpdateAllowsDuplicateName(s: Store, id: Id, other: Id, p: ConceptPatch)
    requires Valid(s) && id in s.concepts && other in s.concepts && id != other
    requires p.name == Some(s.concepts[other].name)
    ensures var r := UpdateConcept(s, id, p);
      r.concepts[id].name == r.concepts[other].name && NameTaken(s, r.concepts[id].name)
  {
    assert SameName(s.concepts[other].name, s.concepts[other].name);
  }

  // ---------------------------------------------------------------------------------------------
  // The manager object

  class KnowledgeManager {
    var kg: KnowledgeGraph

    function Value(): Store
      reads this, kg
    {
      kg.Value()
    }

    ghost predicate Valid()
      reads this, kg
    {
      kg.Valid()
    }

    /** `KnowledgeManager(knowledge_graph)`: manages the given graph, or a new empty one when none is given. */
    constructor (g: KnowledgeGraph?)
      requires g != null ==> g.Valid()
      ensures Valid()
      ensures g != null ==> kg == g
      ensures g == null ==> fresh(kg) && Value() == EmptyStore()
    {
      if g == null {
        kg := new KnowledgeGraph();
      } else {
        kg := g;
      }
    }

    /** `add_concept`: the name check runs over the table, then the concept is added under the next id. */
    method AddConcept(name: string, description: string, category: string,
                      related: seq<Id>, attributes: map<string, string>) returns (id: Id)
      requires Valid()
      modifies kg
      ensures Valid()
      ensures (Value(), id) == AddNamedConcept(old(Value()), name, description, category, related, attributes)
    {
      var candidate := "c" + NatToString(|kg.concepts| + 1);
      var ids := kg.graph.nodes;
      for k := 0 to |ids|
        invariant forall j :: 0 <= j < k ==> !SameName(kg.concepts[ids[j]].name, name)
      {
        if SameName(kg.concepts[ids[k]].name, name) {
          return "";
        }
      }
      NameFreeAfterScan(Value(), name);
      var ok := kg.AddConcept(Concept(candidate, name, description, category, related, attributes));
      if ok {
        return candidate;
      }
      return "";
    }

    /** `add_relation`: the name-resolution loop over the table, then the relation between the ids found. */
    method AddRelation(sourceName: string, targetName: string, relationType: string,
                       strength: real, description: string, bidirectional: bool) returns (ok: bool)
      requires Valid()
      modifies kg
      ensures Valid()
      ensures (Value(), ok) == AddNamedRelation(old(Value()), sourceName, targetName, relationType, strength, description, bidirectional)
    {
      var sourceId, targetId := "", "";
      var ids := kg.graph.nodes;
      for k := 0 to |ids|
        invariant Resolve(Value(), ids[k..], sourceName, targetName, (sourceId, targetId))
               == ResolveNames(Value(), sourceName, targetName)
      {
        var name := kg.concepts[ids[k]].name;
        if SameName(name, sourceName) {
          sourceId := ids[k];
        } else if SameName(name, targetName) {
          targetId := ids[k];
        }
        assert ids[k..][1..] == ids[k + 1..];
      }
      if sourceId == "" || targetId == "" {
        return false;
      }
      ok := kg.AddRelation(Relation(sourceId, targetId, relationType, strength, description, bidirectional));
    }

    /** `update_concept`: false for an unknown id; otherwise the given fields are replaced and the node's attributes follow. */
    method UpdateConcept(id: Id, p: ConceptPatch) returns (ok: bool)
      requires Valid()
      modifies kg
      ensures Valid()
      ensures ok == (id in old(Value()).concepts)
      ensures ok ==> Value() == Stores.UpdateConcept(old(Value()), id, p)
      ensures !ok ==> Value() == old(Value())
    {
      if id !in kg.concepts {
        return false;
      }
      kg.SetValue(Stores.UpdateConcept(Value(), id, p));
      return true;
    }

    /** `delete_concept`: false for an unknown id; otherwise the concept and its node go, with every edge touching it. */
    method DeleteConcept(id: Id) returns (ok: bool)
      requires Valid()
      modifies kg
      ensures Valid()
      ensures ok == (id in old(Value()).concepts)
      ensures ok ==> Value() == RemoveConcept(old(Value()), id)
      ensures !ok ==> Value() == old(Value())
    {
      if id !in kg.concepts {
        return false;
      }
      kg.SetValue(RemoveConcept(Value(), id));
      return true;
    }

    /** The concept records of the table, in table order. */
    method WriteConcepts() returns (recs: seq<ConceptRecord>)
      requires Valid()
      ensures recs == ConceptRecords(Value(), Ids(Value()))
    {
      var ids := kg.graph.nodes;
      recs := [];
      for k := 0 to |ids|
        invariant |recs| == k
        invariant forall j :: 0 <= j < k ==> recs[j] == RecordOf(kg.concepts[ids[j]])
      {
        recs := recs + [RecordOf(kg.concepts[ids[k]])];
      }
    }

    /** The records loop shared by export and save: the concepts in table order, then every edge. */
    method BuildSnapshot(rule: MirrorRule) returns (p: Payload)
      requires Valid()
      ensures p == Snapshot(Value(), rule)
    {
      var concepts := WriteConcepts();
      var relations := WriteRelations(kg.graph, rule);
      p := Document(Some(concepts), Some(relations));
    }

    /** `export_knowledge_base(format)`: the document for "json" in any case, "" (text that does not parse) otherwise. */
    method ExportKnowledgeBase(format: string) returns (p: Payload)
      requires Valid()
      ensures p == Export(Value(), format)
    {
      if Lower(format) != "json" {
        return Unparsable;
      }
      p := BuildSnapshot(NoKey);
    }

    /**
     * The document `save_knowledge_base` writes (the file itself is not modelled): an edge's record
     * is flagged bidirectional when the reverse edge has the same relation type.
     */
    method SaveKnowledgeBase() returns (p: Payload)
      requires Valid()
      ensures p == SavedAsWritten(Value())
    {
      p := BuildSnapshot(SameType);
    }

    /**
     * `import_knowledge_base(data, format)`: the document is read into a fresh graph, which replaces
     * the current one only when every record was read; otherwise the current graph stays.
     */
    method ImportKnowledgeBase(data: Payload, format: string) returns (ok: bool)
      requires Valid()
      modifies this
      ensures Valid()
      ensures ok <==> Lower(format) == "json" && Import(data).Some?
      ensures ok ==> fresh(kg) && Value() == Import(data).value
      ensures !ok ==> kg == old(kg) && Value() == old(Value())
    {
      if Lower(format) != "json" || !data.Document? {
        return false;
      }
      var loaded := new KnowledgeGraph();
      ok := ReadConceptRecords(loaded, data.concepts.GetOr([]));
      if !ok {
        return false;
      }
      ok := ReadRelationRecords(loaded, data.relations.GetOr([]));
      if !ok {
        return false;
      }
      kg := loaded;
    }

    /**
     * `load_knowledge_base` once the file is read (`None` when it does not exist): the current
     * graph is replaced by a fresh one before the document is read, so a failure part-way leaves
     * what was read so far.
     */
    method LoadKnowledgeBase(file: Option<Payload>) returns (ok: bool)
      requires Valid()
      modifies this
      ensures Valid()
      ensures (Value(), ok) == Load(old(Value()), file)
    {
      if file.None? || file.value.Unparsable? {
        return false;
      }
      kg := new KnowledgeGraph();
      if file.value.NotAnObject? {
        return false;
      }
      ok := ReadConceptRecords(kg, file.value.concepts.GetOr([]));
      if !ok {
        return false;
      }
      ok := ReadRelationRecords(kg, file.value.relations.GetOr([]));
    }
  }

  /** The relation records of every edge of `g`, under the given rule for the mirror flag. */
  method WriteRelations(g: Digraph, rule: MirrorRule) returns (recs: seq<RelationRecord>)
    requires WellFormed(g)
    ensures recs == RelationRecords(g, EdgeList(g), rule)
  {
    var es := EdgeList(g);
    recs := [];
    for k := 0 to |es|
      invariant |recs| == k
      invariant forall j :: 0 <= j < k ==> recs[j] == EdgeRecord(g, es[j], rule)
    {
      recs := recs + [EdgeRecord(g, es[k], rule)];
    }
  }

  /** Reads concept records into `g` in order, stopping at the first that lacks a required key. */
  method ReadConceptRecords(g: KnowledgeGraph, recs: seq<ConceptRecord>) returns (ok: bool)
    requires g.Valid()
    modifies g
    ensures g.Valid()
    ensures (g.Value(), ok) == AddConceptRecords(old(g.Value()), recs)
  {
    for k := 0 to |recs|
      invariant g.Valid()
      invariant AddConceptRecords(g.Value(), recs[k..]) == AddConceptRecords(old(g.Value()), recs)
    {
      assert recs[k..][1..] == recs[k + 1..];
      var c := ConceptOf(recs[k]);
      if c.None? {
        return false;
      }
      var _ := g.AddConcept(c.value);
    }
    return true;
  }

  /** Reads relation records into `g` in order, stopping at the first that lacks a required key. */
  method ReadRelationRecords(g: KnowledgeGraph, recs: seq<RelationRecord>) returns (ok: bool)
    requires g.Valid()
    modifies g
    ensures g.Valid()
    ensures (g.Value(), ok) == AddRelationRecords(old(g.Value()), recs)
  {
    for k := 0 to |recs|
      invariant g.Valid()
      invariant AddRelationRecords(g.Value(), recs[k..]) == AddRelationRecords(old(g.Value()), recs)
    {
      assert recs[k..][1..] == recs[k + 1..];
      var rel := RelationOf(recs[k]);
      if rel.None? {
        return false;
      }
      var _ := g.AddRelation(rel.value);
    }
    return true;
  }
}
