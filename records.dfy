/**
 * The records of the knowledge base: concepts, relations between them, the steps of a
 * reasoning path and the inferences built from such paths.
 */
module Records {

  /** Concept ids are strings such as "c1". */
  type Id = string

  /**
   * A concept. `attributes` maps names to arbitrary values; each value is kept here as the text
   * of its JSON rendering.
   */
  datatype Concept = Concept(
    id: Id,
    name: string,
    description: string,
    category: string,
    relatedConcepts: seq<Id>,
    attributes: map<string, string>)

  /** A relation as callers hand it in; `bidirectional` asks for the mirror edge as well. */
  datatype Relation = Relation(
    source: Id,
    target: Id,
    relationType: string,
    strength: real,
    description: string,
    bidirectional: bool)

  /** One step `(source, relation_type, target)` of a reasoning path. */
  datatype Step = Step(source: Id, relationType: string, target: Id)

  /** A conclusion drawn from one path, with one premise per step of the path. */
  datatype Inference = Inference(
    premises: seq<string>,
    conclusion: string,
    confidence: real,
    reasoningPath: seq<Step>,
    timestamp: string)

  /** No element occurs twice. */
  predicate Distinct<T(==)>(s: seq<T>) {
    forall i, j :: 0 <= i < j < |s| ==> s[i] != s[j]
  }

  /** A prefix one longer is the shorter prefix and the next element. */
  lemma PrefixExtend<T>(s: seq<T>, k: nat)
    requires k < |s|
    ensures s[..k + 1] == s[..k] + [s[k]]
  {
  }

  /** Dropping the first element keeps the rest distinct. */
  lemma DistinctTail<T>(s: seq<T>)
    requires Distinct(s) && s != []
    ensures Distinct(s[1..])
  {
    forall i, j | 0 <= i < j < |s| - 1 ensures s[1..][i] != s[1..][j] {
      assert s[1..][i] == s[i + 1] && s[1..][j] == s[j + 1];
    }
  }

  /** The rest of a distinct sequence holds neither anything new nor its first element. */
  lemma TailMembers<T>(s: seq<T>)
    requires Distinct(s) && s != []
    ensures forall x :: x in s[1..] ==> x in s && x != s[0]
    ensures forall x :: x in s ==> x == s[0] || x in s[1..]
  {
    assert s == [s[0]] + s[1..];
    forall x | x in s[1..] ensures x in s && x != s[0] {
      var k :| 0 <= k < |s| - 1 && s[1..][k] == x;
      assert s[k + 1] == x;
    }
  }

  /** A non-empty sequence holds its first element. */
  lemma HeadIn<T>(s: seq<T>)
    ensures s != [] ==> s[0] in s
  {
  }
}
