/**
 * Path search (`KnowledgeGraph.find_paths`): every simple directed path from a source to a target
 * of at most `maxDepth` edges, found by a depth-first search as networkx's `all_simple_paths`
 * with a cutoff does it, each rendered as a chain of (source, relation type, target) steps.
 */
module Paths {
  import opened Records
  import opened Digraphs
  import opened Stores

  /** `p` follows edges of `g`. */
  ghost predicate IsWalk(g: Digraph, p: seq<Id>) {
    forall k :: 0 <= k < |p| - 1 ==> (p[k], p[k + 1]) in g.edges
  }

  /** A simple path from `a` to `b` of at least one and at most `maxDepth` edges. */
  ghost predicate SimplePath(g: Digraph, p: seq<Id>, a: Id, b: Id, maxDepth: int) {
    2 <= |p| && |p| - 1 <= maxDepth && p[0] == a && p[|p| - 1] == b && IsWalk(g, p) && Distinct(p)
  }

  /**
   * The search below the path `prefix`, over the candidates `nbrs` for its next node, with
   * `budget` edges still allowed: a candidate already on the path is skipped, the target ends a
   * path, and any other node is searched further while the budget lasts.
   */
  function Extend(g: Digraph, target: Id, prefix: seq<Id>, nbrs: seq<Id>, budget: nat): (r: seq<seq<Id>>)
    requires WellFormed(g)
    decreases budget, |nbrs|
  {
    if nbrs == [] then []
    else
      var v := nbrs[0];
      var here :=
        if v in prefix then []
        else if v == target then [prefix + [v]]
        else if budget > 1 then Extend(g, target, prefix + [v], Successors(g, v), budget - 1)
        else [];
      here + Extend(g, target, prefix, nbrs[1..], budget)
  }

  /** `all_simple_paths(G, source, target, cutoff=maxDepth)`, as node sequences. */
  function NodePaths(g: Digraph, source: Id, target: Id, maxDepth: int): seq<seq<Id>>
    requires WellFormed(g)
  {
    if source == target || maxDepth < 1 then []
    else Extend(g, target, [source], Successors(g, source), maxDepth)
  }

  /** The steps of a node path, each with the relation type of its edge. */
  function ToSteps(g: Digraph, p: seq<Id>): (r: seq<Step>)
    requires IsWalk(g, p)
    ensures |r| == if p == [] then 0 else |p| - 1
    ensures forall k :: 0 <= k < |r| ==> r[k] == Step(p[k], g.edges[(p[k], p[k + 1])].relationType, p[k + 1])
  {
    if |p| < 2 then []
    else [Step(p[0], g.edges[(p[0], p[1])].relationType, p[1])] + ToSteps(g, p[1..])
  }

  /** The nodes a chain of steps passes through, in order. */
  function StepNodes(steps: seq<Step>): seq<Id>
    requires |steps| > 0
  {
    [steps[0].source] + seq(|steps|, k requires 0 <= k < |steps| => steps[k].target)
  }

  /**
   * A reasoning path from `a` to `b`: at least one and at most `maxDepth` steps, the first
   * leaving `a` and the last reaching `b`, each step starting where the previous one ended, each
   * an edge of the graph carrying the step's relation type, and no node visited twice.
   */
  ghost predicate StepChain(g: Digraph, steps: seq<Step>, a: Id, b: Id, maxDepth: int) {
    && 0 < |steps| <= maxDepth
    && steps[0].source == a && steps[|steps| - 1].target == b
    && (forall k :: 0 <= k < |steps| - 1 ==> steps[k].target == steps[k + 1].source)
    && (forall k :: 0 <= k < |steps| ==>
          (steps[k].source, steps[k].target) in g.edges
          && steps[k].relationType == g.edges[(steps[k].source, steps[k].target)].relationType)
    && Distinct(StepNodes(steps))
  }

  /** `find_paths(source, target, max_depth)`: nothing when either end is not a concept. */
  function FindPaths(s: Store, source: Id, target: Id, maxDepth: int): (r: seq<seq<Step>>)
    requires Valid(s)
    ensures source !in s.concepts || target !in s.concepts ==> r == []
  {
    if source !in s.concepts || target !in s.concepts then []
    else
      var ps := NodePaths(s.graph, source, target, maxDepth);
      NodePathsSound(s.graph, source, target, maxDepth);
      assert forall k :: 0 <= k < |ps| ==> IsWalk(s.graph, ps[k]) by {
        forall k | 0 <= k < |ps| ensures IsWalk(s.graph, ps[k]) {
          assert ps[k] in ps;
        }
      }
      seq(|ps|, k requires 0 <= k < |ps| => ToSteps(s.graph, ps[k]))
  }

  lemma WalkAppend(g: Digraph, prefix: seq<Id>, v: Id)
    requires |prefix| > 0 && IsWalk(g, prefix) && (prefix[|prefix| - 1], v) in g.edges
    ensures IsWalk(g, prefix + [v])
  {
    var q := prefix + [v];
    forall k | 0 <= k < |q| - 1 ensures (q[k], q[k + 1]) in g.edges {
      if k < |prefix| - 1 {
        assert q[k] == prefix[k] && q[k + 1] == prefix[k + 1];
      } else {
        assert q[k] == prefix[|prefix| - 1] && q[k + 1] == v;
      }
    }
  }

  /** `p` extends `prefix` into a simple walk that ends at `target` and adds between 1 and `budget` edges. */
  ghost predicate Completes(g: Digraph, target: Id, prefix: seq<Id>, budget: nat, p: seq<Id>) {
    && |prefix| < |p| <= |prefix| + budget && p[..|prefix|] == prefix
    && p[|p| - 1] == target && IsWalk(g, p) && Distinct(p)
  }

  lemma CompletesLonger(g: Digraph, target: Id, prefix: seq<Id>, v: Id, budget: nat, p: seq<Id>)
    requires budget > 1 && Completes(g, target, prefix + [v], budget - 1, p)
    ensures Completes(g, target, prefix, budget, p)
  {
    var q := prefix + [v];
    assert p[..|prefix|] == p[..|q|][..|prefix|];
  }

  /** Every path the search below `prefix` returns extends `prefix` into a simple path to the target within the budget. */
  lemma {:induction false} ExtendSound(g: Digraph, target: Id, prefix: seq<Id>, nbrs: seq<Id>, budget: nat)
    requires WellFormed(g) && |prefix| > 0 && IsWalk(g, prefix) && Distinct(prefix) && target !in prefix
    requires forall v :: v in nbrs ==> (prefix[|prefix| - 1], v) in g.edges
    requires budget >= 1
    ensures forall p :: p in Extend(g, target, prefix, nbrs, budget) ==> Completes(g, target, prefix, budget, p)
    decreases budget, |nbrs|
  {
    if nbrs != [] {
      var v := nbrs[0];
      assert forall w :: w in nbrs[1..] ==> w in nbrs;
      ExtendSound(g, target, prefix, nbrs[1..], budget);
      var rest := Extend(g, target, prefix, nbrs[1..], budget);
      if v !in prefix {
        var q := prefix + [v];
        assert v in nbrs;
        WalkAppend(g, prefix, v);
        assert Distinct(q);
        if v != target && budget > 1 {
          var here := Extend(g, target, q, Successors(g, v), budget - 1);
          ExtendSound(g, target, q, Successors(g, v), budget - 1);
          forall p | p in here ensures Completes(g, target, prefix, budget, p) {
            CompletesLonger(g, target, prefix, v, budget, p);
          }
          assert Extend(g, target, prefix, nbrs, budget) == here + rest;
        } else if v == target {
          assert q[..|prefix|] == prefix;
          assert Completes(g, target, prefix, budget, q);
          assert Extend(g, target, prefix, nbrs, budget) == [q] + rest;
        } else {
          assert Extend(g, target, prefix, nbrs, budget) == rest;
        }
      }
    }
  }

  lemma NodePathsSound(g: Digraph, source: Id, target: Id, maxDepth: int)
    requires WellFormed(g)
    ensures forall p :: p in NodePaths(g, source, target, maxDepth) ==> SimplePath(g, p, source, target, maxDepth)
  {
    if source != target && maxDepth >= 1 {
      assert IsWalk(g, [source]);
      ExtendSound(g, target, [source], Successors(g, source), maxDepth);
      forall p | p in NodePaths(g, source, target, maxDepth) ensures p[0] == source {
        assert p[..1] == [source];
      }
    }
  }

  /** Every simple path to the target that extends `prefix` over one of `nbrs` within the budget is found. */
  lemma {:induction false} ExtendComplete(g: Digraph, target: Id, prefix: seq<Id>, nbrs: seq<Id>, budget: nat, p: seq<Id>)
    requires WellFormed(g) && |prefix| < |p| <= |prefix| + budget && p[..|prefix|] == prefix
    requires p[|prefix|] in nbrs && p[|p| - 1] == target && IsWalk(g, p) && Distinct(p)
    ensures p in Extend(g, target, prefix, nbrs, budget)
    decreases budget, |nbrs|
  {
    var v := nbrs[0];
    var rest := Extend(g, target, prefix, nbrs[1..], budget);
    if v == p[|prefix|] {
      assert v !in prefix by {
        forall k | 0 <= k < |prefix| ensures prefix[k] != v {
          assert prefix[k] == p[k];
        }
      }
      var q := prefix + [v];
      if v == target {
        assert |p| == |prefix| + 1 by {
          assert p[|prefix|] == p[|p| - 1];
        }
        assert p == q;
        assert Extend(g, target, prefix, nbrs, budget) == [q] + rest;
      } else {
        assert p[..|q|] == q;
        assert |p| > |q|;
        assert budget > 1;
        assert p[|q|] in Successors(g, v) by {
          assert (p[|prefix|], p[|prefix| + 1]) in g.edges;
        }
        var here := Extend(g, target, q, Successors(g, v), budget - 1);
        ExtendComplete(g, target, q, Successors(g, v), budget - 1, p);
        assert Extend(g, target, prefix, nbrs, budget) == here + rest;
      }
    } else {
      assert p[|prefix|] in nbrs[1..];
      ExtendComplete(g, target, prefix, nbrs[1..], budget, p);
      var here :=
        if v in prefix then []
        else if v == target then [prefix + [v]]
        else if budget > 1 then Extend(g, target, prefix + [v], Successors(g, v), budget - 1)
        else [];
      assert Extend(g, target, prefix, nbrs, budget) == here + rest;
    }
  }

  /** The search finds every simple path from `source` to `target` of at most `maxDepth` edges. */
  lemma NodePathsComplete(g: Digraph, source: Id, target: Id, maxDepth: int, p: seq<Id>)
    requires WellFormed(g) && SimplePath(g, p, source, target, maxDepth)
    ensures p in NodePaths(g, source, target, maxDepth)
  {
    assert source != target by {
      assert p[0] != p[|p| - 1];
    }
    assert p[..1] == [source];
    ExtendComplete(g, target, [source], Successors(g, source), maxDepth, p);
  }

  lemma StepsOfSimplePath(g: Digraph, p: seq<Id>, a: Id, b: Id, maxDepth: int)
    requires SimplePath(g, p, a, b, maxDepth)
    ensures StepChain(g, ToSteps(g, p), a, b, maxDepth)
  {
    var steps := ToSteps(g, p);
    assert |steps| == |p| - 1;
    assert steps[0].source == a && steps[|steps| - 1].target == b;
    forall k | 0 <= k < |steps| - 1 ensures steps[k].target == steps[k + 1].source {
      assert steps[k + 1] == Step(p[k + 1], g.edges[(p[k + 1], p[k + 2])].relationType, p[k + 2]);
    }
    forall k | 0 <= k < |steps|
      ensures (steps[k].source, steps[k].target) in g.edges
      ensures steps[k].relationType == g.edges[(steps[k].source, steps[k].target)].relationType
    {
      assert steps[k] == Step(p[k], g.edges[(p[k], p[k + 1])].relationType, p[k + 1]);
    }
    var nodes := StepNodes(steps);
    assert |nodes| == |p|;
    forall k | 0 <= k < |p| ensures nodes[k] == p[k] {
      if k > 0 {
        assert nodes[k] == steps[k - 1].target;
      }
    }
    assert nodes == p;
  }

  /** Every chain `find_paths` returns is a reasoning path from `source` to `target` of at most `maxDepth` steps. */
  lemma FindPathsSound(s: Store, source: Id, target: Id, maxDepth: int)
    requires Valid(s)
    ensures forall steps :: steps in FindPaths(s, source, target, maxDepth) ==>
      StepChain(s.graph, steps, source, target, maxDepth)
  {
    if source in s.concepts && target in s.concepts {
      var ps := NodePaths(s.graph, source, target, maxDepth);
      NodePathsSound(s.graph, source, target, maxDepth);
      forall steps | steps in FindPaths(s, source, target, maxDepth)
        ensures StepChain(s.graph, steps, source, target, maxDepth)
      {
        var k :| 0 <= k < |ps| && steps == FindPaths(s, source, target, maxDepth)[k];
        assert ps[k] in ps;
        StepsOfSimplePath(s.graph, ps[k], source, target, maxDepth);
      }
    }
  }

  /** `find_paths` between two concepts returns every simple path between them of at most `maxDepth` edges. */
  lemma FindPathsComplete(s: Store, source: Id, target: Id, maxDepth: int, p: seq<Id>)
    requires Valid(s) && source in s.concepts && target in s.concepts
    requires SimplePath(s.graph, p, source, target, maxDepth)
    ensures ToSteps(s.graph, p) in FindPaths(s, source, target, maxDepth)
  {
    var ps := NodePaths(s.graph, source, target, maxDepth);
    NodePathsComplete(s.graph, source, target, maxDepth, p);
    var k :| 0 <= k < |ps| && ps[k] == p;
    assert FindPaths(s, source, target, maxDepth)[k] == ToSteps(s.graph, p);
  }
}
