# Arabic reasoning assistant: knowledge graph, reasoning engine, knowledge manager and thinking engine

This Dafny project models the core of a small Arabic question-answering assistant.

- **The knowledge graph** (`KnowledgeGraph`) is a table of concepts plus a directed graph. Each concept has an id, a name, a description, a category, related ids and attributes. Each edge carries a relation type, a strength and a description. The graph supports:
  - adding a concept;
  - adding a relation, which may be bidirectional;
  - a breadth-first search that scores the concepts reachable within a depth, with a decay of 0.8 per level;
  - enumeration of the simple paths between two concepts.
- **The reasoning engine** works on the graph as a value. It:
  - extracts the concepts a question mentions;
  - identifies the direct relations among them;
  - draws one inference per simple path between two of them;
  - widens the extracted concepts with their strongly related neighbours;
  - renders the result.
- **The knowledge manager** (`KnowledgeManager`) administers the graph in place. It adds concepts by name under generated ids `c<n>` and adds relations between concepts named case-insensitively. It updates, deletes, searches and filters concepts. It converts the whole knowledge base to and from its document form: export, import, save and load.
- **The thinking engine** (`ThinkingEngine`):
  - classifies a question by its opening question word;
  - plans the steps of an answer;
  - keeps a log of executed steps;
  - evaluates and renders that log.

Layout, one module per file:

| module | file | role |
|---|---|---|
| `Wrappers` | `wrappers.dfy` | `Option` |
| `Text` | `text.dfy` | lower-casing, `startswith`, substring search, `\w{3,}` words, `split()`, decimal rendering |
| `Records` | `records.dfy` | `Concept`, `Relation`, `Step`, `Inference` |
| `Numbers` | `numbers.dfy` | the decay `0.8 ** d`, sums and means |
| `Digraphs` | `digraph.dfy` | the directed graph: nodes in insertion order, node attributes, edge data |
| `Stores` | `stores.dfy` | the knowledge graph as a value (`Store`) and its state changes as functions |
| `Expansion` | `expansion.dfy` | the breadth-first scoring of related concepts |
| `Paths` | `paths.dfy` | simple paths up to a length, as relation steps |
| `KnowledgeGraphs` | `knowledge_graph.dfy` | the `KnowledgeGraph` class and the initial knowledge base |
| `Reasoning` | `reasoning.dfy` | the reasoning engine |
| `Snapshots` | `snapshot.dfy` | the document form, import, load, export, save and their round trips |
| `KnowledgeManagers` | `knowledge_manager.dfy` | the `KnowledgeManager` class and the specifications of its operations |
| `Thinking` | `thinking.dfy` | the thinking engine |

The classes keep the source's fields and change them in place. Each method is proved against a pure function of the old value of the graph, for example `Value() == InsertConcept(old(Value()), c)`. The properties are proved about those functions.

The decoded JSON document is a datatype (`Payload`). Its keys are `Option` fields, so a malformed document is one that lacks a required key, is not an object, or does not parse.

Two behaviours of the code a reader may not expect; the model follows the code:

- **Name resolution.** In `add_relation`, the loop over the table assigns the source on a name match and, in the `elif`, the target. So the last matching concept wins, and a concept named like the source is never taken as the target.
- **Loading.** `load_knowledge_base` replaces the graph with a new empty one before it reads the document. A document that fails part-way therefore leaves the concepts read so far; `Snapshots.LoadLeavesPartial` proves this. `import_knowledge_base`, by contrast, builds a separate graph and swaps it in only on success.

## Model

| member | source | states |
|---|---|---|
| `Stores.EmptyStore` | reasoning_engine.py:50-52 | a new knowledge graph has no concepts, no nodes and is well formed |
| `Stores.InsertConcept` | reasoning_engine.py:54-64 | an existing id changes nothing; a new id adds the concept to the table and as the last node with its attributes, edges unchanged, and the graph stays well formed |
| `Stores.InsertRelation` | reasoning_engine.py:66-82 | unknown endpoints change nothing; otherwise the edge source→target carries the relation's data, and a bidirectional relation also sets target→source to the same data; no other edge and no concept changes |
| `Stores.UpdateConcept` | knowledge_manager.py:178-208 | only the concept's given fields are replaced and its node attributes follow; ids, node order and edges are unchanged |
| `Stores.RemoveConcept` | knowledge_manager.py:210-223 | the concept and its node are gone with exactly the edges touching it; every other concept and edge is unchanged |
| `Stores.InsertConcepts` | reasoning_engine.py:316-354 | adding concepts in order keeps the graph well formed |
| `Stores.InsertRelations` | reasoning_engine.py:316-354 | adding relations in order keeps the graph well formed |
| `Stores.TableSize` | reasoning_engine.py:50-64 | the node order lists each concept of the table exactly once |
| `Digraphs.SuccessorsAreTargets` | reasoning_engine.py:98 | the neighbours of a node are distinct and are exactly the targets of its out-edges |
| `Digraphs.AddEdgeOrder` | reasoning_engine.py:71-80 | a new edge puts its target last among its source's neighbours; re-adding an existing edge keeps the neighbour order; no other node's neighbours change |
| `Digraphs.RemoveNodeOrder` | knowledge_manager.py:220 | removing a node keeps every other node's neighbours in order, without the removed one |
| `Digraphs.RemoveNode` | knowledge_manager.py:220 | removing a node removes it, its attributes and exactly the edges touching it |
| `Digraphs.EdgeList` | knowledge_manager.py:36 | the edge enumeration is duplicate-free and lists exactly the graph's edges |
| `KnowledgeGraphs.KnowledgeGraph.constructor` | reasoning_engine.py:50-52 | a new graph is the empty store |
| `KnowledgeGraphs.KnowledgeGraph.AddConcept` | reasoning_engine.py:54-64 | returns true iff the id was new, and the new state is `InsertConcept` of the old |
| `KnowledgeGraphs.KnowledgeGraph.AddRelation` | reasoning_engine.py:66-82 | returns true iff both endpoints are concepts, and the new state is `InsertRelation` of the old |
| `KnowledgeGraphs.KnowledgeGraph.GetRelatedConcepts` | reasoning_engine.py:84-111 | the queue loop returns exactly the map of the breadth-first specification `Related` |
| `KnowledgeGraphs.KnowledgeGraph.ExpandNode` | reasoning_engine.py:98-109 | one pass over a node's neighbours performs exactly the specification's scan of them |
| `KnowledgeGraphs.KnowledgeGraph.AddConcepts` | reasoning_engine.py:334-335 | the loop adds the concepts in order, as `InsertConcepts` |
| `KnowledgeGraphs.KnowledgeGraph.AddRelations` | reasoning_engine.py:351-352 | the loop adds the relations in order, as `InsertRelations` |
| `KnowledgeGraphs.CreateInitialKnowledgeBase` | reasoning_engine.py:316-354 | a fresh graph whose value is the seed concepts added in order, then the seed relations |
| `KnowledgeGraphs.InitialKnowledgeBase` | reasoning_engine.py:316-354 | the seed knowledge base holds ten concepts in the order c1 .. c10 and exactly the ten seed edges |
| `KnowledgeGraphs.SeededShape` | reasoning_engine.py:321-352 | each seed concept is filed under its id unchanged, and each seed relation's edge carries its type, strength and description |
| `Expansion.Related` | reasoning_engine.py:84-87 | an unknown concept has no related concepts |
| `Expansion.ScanScores` | reasoning_engine.py:98-106 | scanning neighbours scores exactly the unvisited ones, at strength × 0.8^depth, and keeps earlier scores |
| `Expansion.ScanQueue` | reasoning_engine.py:108-109 | a scan only appends to the queue, and only unvisited neighbours at depth + 1 |
| `Expansion.RelatedSound` | reasoning_engine.py:84-111 | every related concept is another concept of the table, and its score is the strength of a discovering edge into it × 0.8^d, where d ≤ max depth is the shortest distance from the start to the edge's source and d + 1 the shortest distance to the concept itself, so the edge leads from the level just before the concept's own |
| `Expansion.RelatedComplete` | reasoning_engine.py:92-109 | every node other than the start that lies at most max depth + 1 edges away is scored |
| `Expansion.RelatedReach` | reasoning_engine.py:84-111 | from a known concept, a node is scored iff it is not the start and lies at most max depth + 1 edges away |
| `Expansion.RelatedDirect` | reasoning_engine.py:98-106 | every direct neighbour of the start is related, with exactly its edge's strength |
| `Expansion.RelatedInUnit` | reasoning_engine.py:102-104 | with strengths in [0, 1] every score is in [0, 1] |
| `Paths.FindPaths` | reasoning_engine.py:113-116 | an unknown endpoint gives no paths |
| `Paths.FindPathsSound` | reasoning_engine.py:113-127 | every path is a chain of relation steps from source to target along edges, with no repeated concept and at most max depth steps, each labelled with its edge's relation type |
| `Paths.FindPathsComplete` | reasoning_engine.py:113-127 | every simple path of at most max depth steps between two concepts is found |
| `Paths.ToSteps` | reasoning_engine.py:120-125 | a node path becomes one step per edge carrying that edge's relation type |
| `Reasoning.ExtractConcepts` | reasoning_engine.py:137-153 | the result has no duplicates and holds exactly the concepts whose lower-cased name or description contains some `\w{3,}` word of the lower-cased text |
| `Reasoning.OrderedPairs` | reasoning_engine.py:159-160 | the pair enumeration has n(n-1)/2 entries |
| `Reasoning.OrderedPairsExact` | reasoning_engine.py:159-160 | the pairs are exactly the (ids[i], ids[j]) with i < j |
| `Reasoning.PairRelation` | reasoning_engine.py:161-183 | a relation exists iff an edge joins the pair either way; the forward edge is preferred; the result copies the edge's data and is never bidirectional |
| `Reasoning.IdentifyRelationsExact` | reasoning_engine.py:155-185 | at most n(n-1)/2 relations; each copies an edge between some ids[i], ids[j] with i < j; every such pair joined by an edge contributes its relation |
| `Reasoning.MakeInference` | reasoning_engine.py:197-224 | one premise per step ("source relation target"), the path kept as the reasoning path, the conclusion naming both ends, and a confidence within any bounds of the path's strengths |
| `Reasoning.InferencesAlong` | reasoning_engine.py:199-226 | the inferences are exactly those of the non-empty paths, at most one per path; when every path is non-empty, as `find_paths` gives them, the k-th inference is the k-th path's |
| `Reasoning.InferencesAlongAppend` | reasoning_engine.py:199-226 | the inferences along two path lists are those along the first, then those along the second, so the paths' order is kept |
| `Reasoning.InferencesAlongOne` | reasoning_engine.py:200-226 | one path gives its inference when non-empty and nothing otherwise |
| `Reasoning.GenerateInferencesSound` | reasoning_engine.py:187-228 | every inference is drawn from a path found between some ids[i], ids[j] with i < j |
| `Reasoning.GenerateInferencesComplete` | reasoning_engine.py:187-228 | every path found between ids[i] and ids[j], i < j, yields its inference |
| `Reasoning.GenerateInferencesInUnit` | reasoning_engine.py:208-209 | with strengths in [0, 1] every inference's confidence is in [0, 1] |
| `Reasoning.Expanded` | reasoning_engine.py:244-251 | the widened concepts are exactly the seeds and the concepts a seed relates to with score > 0.3 |
| `Reasoning.OverallConfidence` | reasoning_engine.py:256-258 | 0.0 without inferences; otherwise within any bounds of the inferences' confidences, so between their minimum and maximum; in [0, 1] when every inference is |
| `Reasoning.Reason` | reasoning_engine.py:235-242 | a question that mentions no concept gives the empty result with confidence 0.0 |
| `Reasoning.ReasonConcepts` | reasoning_engine.py:230-269 | for every listing of the widened set, the result's concepts are table entries, once each, that are seeds or strongly related to one; every such concept appears, and every seed appears |
| `Reasoning.ReasonConfidence` | reasoning_engine.py:256-258 | for every listing of the widened set, with strengths in [0, 1] the overall confidence is in [0, 1] |
| `Reasoning.FormatReasoningResult` | reasoning_engine.py:271-312 | no concepts gives the fixed sentence; otherwise the text opens with the header and ends with the overall-confidence line |
| `Reasoning.ReasonRenderable` | reasoning_engine.py:260-266 | every relation of a reasoning result names concepts of the table, so it can be rendered |
| `Snapshots.ConceptOf` | knowledge_manager.py:78-86 | a concept record is read iff it has id, name, description and category; the lists default to empty |
| `Snapshots.RelationOf` | knowledge_manager.py:89-98 | a relation record is read iff it has source, target, relation type and strength; description defaults to "" and bidirectional to false |
| `Snapshots.AddConceptRecords` | knowledge_manager.py:77-87 | reading concept records succeeds iff every record is complete, and keeps the graph well formed |
| `Snapshots.AddRelationRecords` | knowledge_manager.py:88-99 | reading relation records succeeds iff every record is complete and never changes the concepts |
| `Snapshots.ImportSucceeds` | knowledge_manager.py:279-324 | import succeeds iff the document is an object whose concept and relation records are all complete |
| `Snapshots.Load` | knowledge_manager.py:64-105 | a missing or unparsable file leaves the graph and fails; a document that is not an object leaves an empty graph and fails; it succeeds iff the import would, with the imported graph |
| `Snapshots.LoadLeavesPartial` | knowledge_manager.py:75-87 | a second concept record lacking a key makes load fail yet keep the first concept |
| `Snapshots.ImportDropsDangling` | knowledge_manager.py:299-300 | a relation naming an unknown concept is dropped and import still succeeds |
| `Snapshots.RecordOf` | knowledge_manager.py:25-32 | the record written for a concept reads back as that concept |
| `Snapshots.EdgeRecord` | knowledge_manager.py:37-45 | the record written for an edge reads back as a relation between its ends with the edge's data |
| `Snapshots.Snapshot` | knowledge_manager.py:18-52 | the document lists one record per concept and per edge |
| `Snapshots.SnapshotFlags` | knowledge_manager.py:35-52 | the saved snapshot has one record per edge, in edge order, and flags a record bidirectional iff the reverse edge exists with the same relation type; export writes no flag |
| `Snapshots.Export` | knowledge_manager.py:242-245 | a format other than "json", in any case, gives text that does not parse |
| `Snapshots.SnapshotRoundTrip` | knowledge_manager.py:252-310 | reading back a document written without the type-only mirror flag gives the same graph |
| `Snapshots.ExportImportRoundTrip` | knowledge_manager.py:242-324 | importing an export reproduces the same concepts, node order and edges |
| `Snapshots.SavedReloads` | knowledge_manager.py:14-105 | loading the saved snapshot, with the mirror flag corrected, gives back the saved graph |
| `Snapshots.SavedReloadLoses` | knowledge_manager.py:47-50 | the snapshot as written turns a→b (x, 0.9), b→a (x, 0.5) into a→b with 0.5 on reload |
| `KnowledgeManagers.AddNamedConcept` | knowledge_manager.py:107-134 | adding by name keeps the graph well formed |
| `KnowledgeManagers.AddNamedConceptOutcome` | knowledge_manager.py:107-134 | succeeds iff no concept has the name ignoring case and the id `c<n+1>` is free; then exactly that concept is added as the last node with edges unchanged; on failure nothing changes |
| `KnowledgeManagers.DeleteThenAddCollides` | knowledge_manager.py:111 | after deleting `c1` from {`c1`, `c2`}, the next id is `c2`, which is taken, so adding fails |
| `KnowledgeManagers.AddNamedRelation` | knowledge_manager.py:136-169 | adding a relation by names keeps the graph well formed |
| `KnowledgeManagers.ResolveSource` | knowledge_manager.py:143-145 | the source found is the last concept named like the source, or none |
| `KnowledgeManagers.ResolveTarget` | knowledge_manager.py:146-147 | the target found is the last concept named like the target but not like the source, or none |
| `KnowledgeManagers.ResolveInTable` | knowledge_manager.py:142-147 | the ids found are concepts of the table |
| `KnowledgeManagers.AddNamedRelationOutcome` | knowledge_manager.py:136-169 | succeeds iff both names resolve, then adds exactly the relation between the last matches; fails unchanged otherwise |
| `KnowledgeManagers.SameNamesNeverRelate` | knowledge_manager.py:143-150 | names equal ignoring case never relate: the target is never resolved |
| `KnowledgeManagers.GetConceptByName` | knowledge_manager.py:171-176 | none iff no concept has the name ignoring case; otherwise a table concept with that name |
| `KnowledgeManagers.FirstNamed` | knowledge_manager.py:173-175 | the concept returned is the first in table order with the name |
| `KnowledgeManagers.ConceptsByCategory` | knowledge_manager.py:225-228 | exactly the table's concepts whose category equals the given one ignoring case, at most one per id |
| `KnowledgeManagers.SearchConcepts` | knowledge_manager.py:230-240 | exactly the table's concepts whose lower-cased name or description contains the lower-cased query, at most one per id |
| `KnowledgeManagers.Select` | knowledge_manager.py:225-240 | a filter returns only admitted concepts, no more than the ids listed |
| `KnowledgeManagers.SelectMembers` | knowledge_manager.py:225-240 | a filter returns exactly the admitted concepts of the listed ids |
| `KnowledgeManagers.SelectAppend` | knowledge_manager.py:225-240 | filtering two id lists one after the other gives the two results one after the other, so the table order is kept |
| `KnowledgeManagers.SelectOne` | knowledge_manager.py:227-228 | one id gives its concept when admitted and nothing otherwise |
| `KnowledgeManagers.SelectOnce` | knowledge_manager.py:225-240 | filtering ids without repeats gives at most one concept per id |
| `KnowledgeManagers.UpdateAllowsDuplicateName` | knowledge_manager.py:187-188 | an update can give a concept another concept's name |
| `KnowledgeManagers.KnowledgeManager.constructor` | knowledge_manager.py:9-12 | manages the given graph, or a fresh empty one |
| `KnowledgeManagers.KnowledgeManager.AddConcept` | knowledge_manager.py:107-134 | the name-check loop and insertion give exactly `AddNamedConcept` |
| `KnowledgeManagers.KnowledgeManager.AddRelation` | knowledge_manager.py:136-169 | the resolution loop and insertion give exactly `AddNamedRelation` |
| `KnowledgeManagers.KnowledgeManager.UpdateConcept` | knowledge_manager.py:178-208 | false and unchanged for an unknown id; otherwise the state is `UpdateConcept` of the old |
| `KnowledgeManagers.KnowledgeManager.DeleteConcept` | knowledge_manager.py:210-223 | false and unchanged for an unknown id; otherwise the state is `RemoveConcept` of the old |
| `KnowledgeManagers.KnowledgeManager.WriteConcepts` | knowledge_manager.py:23-33 | the loop writes one record per concept in table order |
| `KnowledgeManagers.WriteRelations` | knowledge_manager.py:35-52 | the loop writes one record per edge in edge order |
| `KnowledgeManagers.KnowledgeManager.BuildSnapshot` | knowledge_manager.py:18-52 | the loops build exactly the document `Snapshot` |
| `KnowledgeManagers.KnowledgeManager.ExportKnowledgeBase` | knowledge_manager.py:242-277 | the result is exactly `Export` of the current graph |
| `KnowledgeManagers.KnowledgeManager.SaveKnowledgeBase` | knowledge_manager.py:14-52 | the document written is the snapshot as the code builds it, `SavedAsWritten`, with the type-only bidirectional flag |
| `KnowledgeManagers.KnowledgeManager.ImportKnowledgeBase` | knowledge_manager.py:279-324 | true iff the format is "json" and the document imports; then the graph is the imported one, otherwise unchanged |
| `KnowledgeManagers.KnowledgeManager.LoadKnowledgeBase` | knowledge_manager.py:64-105 | the outcome and new graph are exactly `Load` of the old graph and the file |
| `KnowledgeManagers.ReadConceptRecords` | knowledge_manager.py:77-87 | the loop reads records in order and stops at an incomplete one, exactly as `AddConceptRecords` |
| `KnowledgeManagers.ReadRelationRecords` | knowledge_manager.py:88-99 | the loop reads records in order and stops at an incomplete one, exactly as `AddRelationRecords` |
| `Thinking.KindOf` | thinking_engine.py:32-36 | the kind of the first table word the question starts with, `general_query` when none |
| `Thinking.AnalyzeQuestion` | thinking_engine.py:19-46 | the kind by first matching question word; keywords exactly the split words longer than 3, each as often as it occurs; complexity the number of split words; web search iff a marker occurs in the lower-cased question |
| `Thinking.KeywordsAreWords` | thinking_engine.py:39 | every keyword is a maximal whitespace-free run of the question |
| `Thinking.HowToQuestion` | thinking_engine.py:22-36 | a question opening with "كيف" is `how_to` |
| `Thinking.SinceIsPersonQuery` | thinking_engine.py:29-35 | a question opening with "منذ" is taken as a person query |
| `Thinking.LongerThan` | thinking_engine.py:39 | keeps exactly the words longer than the bound, each as often as it occurs |
| `Thinking.LongerThanAppend` | thinking_engine.py:39 | filtering two word lists one after the other gives the two results one after the other, so the order is kept |
| `Thinking.AnyContained` | thinking_engine.py:45 | true iff some marker occurs in the text |
| `Thinking.PlanSolution` | thinking_engine.py:48-71 | the plan opens with the analysis step and closes with the answer step |
| `Thinking.PlanShape` | thinking_engine.py:48-71 | length 2 + [web] + 4·[how-to or explanation]; the search step is second iff web search is required and absent otherwise; the kind's four steps follow it |
| `Thinking.StepRecord` | thinking_engine.py:78-87 | the logged step has the given name, confidence 0.8 and the current time |
| `Thinking.Evaluate` | thinking_engine.py:92-114 | an empty log gives confidence 0.0, not complete, one missing entry and no count; otherwise complete iff both expected steps were executed, missing exactly those not executed, the count the log length, and the confidence within any bounds of the steps' confidences |
| `Thinking.Missing` | thinking_engine.py:105-107 | exactly the expected steps not executed |
| `Thinking.ExecutedPlanCompletes` | thinking_engine.py:48-114 | executing a whole plan evaluates as complete with nothing missing and confidence 0.8 |
| `Thinking.FormatProcess` | thinking_engine.py:118-119 | an empty log renders as the fixed sentence |
| `Thinking.FormatProcessShape` | thinking_engine.py:116-138 | a non-empty log opens with the header; a complete one ends with the "complete: yes" line |
| `Thinking.ThinkingEngine.constructor` | thinking_engine.py:15-17 | the log starts empty |
| `Thinking.ThinkingEngine.ExecuteThinkingStep` | thinking_engine.py:73-90 | appends exactly one record, the one returned, and leaves earlier steps unchanged |
| `Thinking.ThinkingEngine.FormatThinkingProcess` | thinking_engine.py:116-138 | the rendering loop produces exactly `FormatProcess` of the log |
| `Text.Lower` | reasoning_engine.py:143 | lower-casing keeps the length and maps each character |
| `Text.ContainsOccurs` | reasoning_engine.py:150 | substring containment holds iff the needle occurs at some position |
| `Text.RunsAreMaximal` | thinking_engine.py:39 | every word of a split is a maximal run of its character class |
| `Text.Words` | reasoning_engine.py:143 | every extracted word has at least three characters |
| `Text.NatToString` | knowledge_manager.py:111 | the decimal rendering is non-empty and all digits |
| `Numbers.MeanWithin` | reasoning_engine.py:208-209 | the mean of values in [lo, hi] is in [lo, hi] |
| `Numbers.MeanConstant` | thinking_engine.py:102 | the mean of equal values is that value |

## Left out

- File and console I/O are not modelled:
  - opening and writing files;
  - `os.path.exists`;
  - JSON text encoding and decoding;
  - `print`.
  A file is `Option<Payload>`, and a document that does not parse is `Unparsable`.
- A key present with a value of the wrong JSON type is not modelled. For example, `"concepts": null` fails in the source as an exception. Only missing keys, non-objects and unparsable text are.
- The calls to `save_knowledge_base` after each change in `add_concept`, `add_relation`, `update_concept`, `delete_concept` and `import_knowledge_base` are file writes, and their result is ignored by the source. They are not modelled.
- Floating point: strengths and confidences are reals, `np.mean` is the real mean, and `0.8 ** depth` is exact.
- `:.2%` rendering is the parameter `pct: real -> string`.
- Timestamps from `datetime.now()` are the parameter `now`.
- `str.lower` is ASCII-only, and `\w` covers ASCII letters, digits, `_` and the Arabic letters and digits. Full Unicode case mapping and word classes are not modelled.
- The order of `list(set(...))` is hash order in the source. In `extract_concepts_from_text` the model lists the ids in table order; only their membership is used afterwards. In `reason` the listing of the widened set decides which pairs are tried and which edge direction `identify_relations` prefers, so the model takes that listing as the parameter `ids` of `Reasoning.Reason`, any arrangement of the widened set, and proves its lemmas for every arrangement.
- Default arguments are not modelled as defaults: callers pass `max_depth` (2 in `get_related_concepts`, 3 in `find_paths`), `format_type` ("json" in export and import) and the `strength`, `description` and `bidirectional` of the manager's `add_relation` explicitly.
- `Thinking.Missing`: `list(missing_steps)` is in set order in the source; the model lists the analysis step before the answer step.
- `Thinking.Evaluate`: the confidence is stated as lying within every bounds of the steps' confidences (so between their minimum and maximum), not as the closed-form mean.
- `Thinking.FormatProcess`: the contract fixes the empty case, the header and the final line for a complete log; the numbered lines in between are stated only by the definition.
- `Reasoning.FormatReasoningResult`: the contract fixes the empty case, the header and the summary line; the numbered lines in between are stated only by the definition.
- `Reasoning.FormatReasoningResult`: a `:100` slice with a multi-code-point character is a slice of code points; `seq<char>` slices agree.
- The `context` argument of `execute_thinking_step` and the `context` field of `ThinkingEngine` are never read by the source and are not modelled.
- The unused `inferences` list of `ReasoningEngine` is not modelled. Neither is its constructor's `or KnowledgeGraph()`, since the engine's operations take the graph as a value.
- The `storage_path` of `KnowledgeManager` is not modelled; the file is the parameter of `LoadKnowledgeBase`.
- Aliasing of `Concept` objects between the caller and the table is not modelled: concepts are values. `update_concept` mutates the shared object in the source.
- The browser UI, the HTTP proxy to the chat service and the database script are outside the core and not modelled.

## Findings

| source | as written | input that shows it | evidently intended | confidence | as-written member | corrected member |
|---|---|---|---|---|---|---|
| knowledge_manager.py:47-50 | the saved snapshot marks an edge `bidirectional` when the reverse edge has the same relation type, whatever its strength and description; loading then re-adds the reverse edge with the forward edge's data | edges a→b (type x, strength 0.9) and b→a (type x, strength 0.5): after save and load, a→b has strength 0.5 | a saved knowledge base loads back to the same graph | not executed | `Snapshots.SavedReloadLoses` | `Snapshots.SavedReloads` |
