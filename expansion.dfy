/**
 * Neighbourhood expansion (`KnowledgeGraph.get_related_concepts`): a breadth-first walk from a
 * concept over outgoing edges, with a queue of (node, depth) entries and a visited set. Each node
 * is scored once, when it is first discovered, as the discovering edge's strength times
 * 0.8 ** depth, where depth is that of the entry being expanded. Entries deeper than the limit
 * are skipped and entries at the limit are still expanded, so nodes up to limit + 1 hops away are
 * scored.
 */
module Expansion {
  import opened Records
  import opened Digraphs
  import opened Stores
  import opened Numbers

  /** The state of the walk: the queue, the visited set and the scores so far. */
  datatype Bfs = Bfs(queue: seq<(Id, nat)>, visited: set<Id>, related: map<Id, real>)

  /**
   * The inner loop: expanding the entry (cur, depth) over the neighbours `nbrs`. A neighbour not
   * yet visited is scored, marked visited and, below the depth limit, queued one level deeper.
   */
  function Scan(g: Digraph, cur: Id, depth: nat, maxDepth: int, nbrs: seq<Id>, st: Bfs): (r: Bfs)
    requires forall v :: v in nbrs ==> (cur, v) in g.edges
    ensures forall v :: v in r.visited <==> v in st.visited || v in nbrs
    ensures (forall v :: v in st.related ==> v in st.visited) ==> forall v :: v in r.related ==> v in r.visited
    ensures (forall v :: v in nbrs ==> v in st.visited) ==> r == st
    decreases |nbrs|
  {
    if nbrs == [] then st
    else if nbrs[0] in st.visited then Scan(g, cur, depth, maxDepth, nbrs[1..], st)
    else Scan(g, cur, depth, maxDepth, nbrs[1..], Visit(g, cur, depth, maxDepth, nbrs[0], st))
  }

  /** Discovering `v` from the entry (cur, depth): score it, mark it visited, queue it below the limit. */
  function Visit(g: Digraph, cur: Id, depth: nat, maxDepth: int, v: Id, st: Bfs): (r: Bfs)
    requires (cur, v) in g.edges
  {
    Bfs(if depth < maxDepth then st.queue + [(v, depth + 1)] else st.queue,
        st.visited + {v},
        st.related[v := Score(g, cur, v, depth)])
  }

  /** The score of `v` discovered over the edge (cur, v) from an entry at `depth`: `strength * 0.8 ** depth`. */
  function Score(g: Digraph, cur: Id, v: Id, depth: nat): real
    requires (cur, v) in g.edges
  {
    g.edges[(cur, v)].strength * Decay(depth)
  }

  /** What one expansion does to the scores: a first score for each neighbour not yet visited, and no other change. */
  lemma {:induction false} ScanScores(g: Digraph, cur: Id, depth: nat, maxDepth: int, nbrs: seq<Id>, st: Bfs)
    requires forall v :: v in nbrs ==> (cur, v) in g.edges
    requires forall v :: v in st.related ==> v in st.visited
    ensures var r := Scan(g, cur, depth, maxDepth, nbrs, st);
      && (forall v :: v in r.related <==> v in st.related || (v in nbrs && v !in st.visited))
      && (forall v :: v in st.related ==> r.related[v] == st.related[v])
      && (forall v :: v in nbrs && v !in st.visited ==> r.related[v] == Score(g, cur, v, depth))
    decreases |nbrs|
  {
    if nbrs == [] {
    } else if nbrs[0] in st.visited {
      ScanScores(g, cur, depth, maxDepth, nbrs[1..], st);
    } else {
      ScanScores(g, cur, depth, maxDepth, nbrs[1..], Visit(g, cur, depth, maxDepth, nbrs[0], st));
    }
  }

  /** What one expansion does to the queue: it only appends neighbours not yet visited, one level deeper. */
  lemma {:induction false} ScanQueue(g: Digraph, cur: Id, depth: nat, maxDepth: int, nbrs: seq<Id>, st: Bfs)
    requires forall v :: v in nbrs ==> (cur, v) in g.edges
    ensures |st.queue| <= |Scan(g, cur, depth, maxDepth, nbrs, st).queue|
    ensures forall k :: 0 <= k < |st.queue| ==> Scan(g, cur, depth, maxDepth, nbrs, st).queue[k] == st.queue[k]
    ensures var q := Scan(g, cur, depth, maxDepth, nbrs, st).queue;
      forall k :: |st.queue| <= k < |q| ==> q[k].1 == depth + 1 && depth < maxDepth && q[k].0 in nbrs && q[k].0 !in st.visited
    ensures depth < maxDepth ==> forall v :: v in nbrs && v !in st.visited ==> Queued(Scan(g, cur, depth, maxDepth, nbrs, st).queue, v)
    decreases |nbrs|
  {
    if nbrs != [] {
      var r := Scan(g, cur, depth, maxDepth, nbrs, st);
      var mid := if nbrs[0] in st.visited then st else Visit(g, cur, depth, maxDepth, nbrs[0], st);
      assert r == Scan(g, cur, depth, maxDepth, nbrs[1..], mid);
      ScanQueue(g, cur, depth, maxDepth, nbrs[1..], mid);
      assert mid.visited == st.visited || mid.visited == st.visited + {nbrs[0]};
      assert |st.queue| <= |mid.queue| && forall k :: 0 <= k < |st.queue| ==> mid.queue[k] == st.queue[k];
      forall k | |st.queue| <= k < |r.queue|
        ensures r.queue[k].1 == depth + 1 && depth < maxDepth && r.queue[k].0 in nbrs && r.queue[k].0 !in st.visited
      {
        if k < |mid.queue| {
          assert nbrs[0] !in st.visited && mid.queue == st.queue + [(nbrs[0], depth + 1)] && depth < maxDepth;
        } else {
          assert r.queue[k].0 in nbrs[1..];
        }
      }
      if depth < maxDepth {
        forall v | v in nbrs && v !in st.visited ensures Queued(r.queue, v) {
          if v == nbrs[0] {
            assert mid.queue[|st.queue|] == (v, depth + 1);
            assert r.queue[|st.queue|] == (v, depth + 1);
          } else {
            assert v in nbrs[1..];
          }
        }
      }
    }
  }

  /** The outer loop: pop the first entry, skip it when too deep, otherwise expand it. */
  function Run(g: Digraph, maxDepth: int, st: Bfs): (r: map<Id, real>)
    requires WellFormed(g) && st.visited <= g.attrs.Keys
    requires forall v :: v in st.related ==> v in st.visited
    decreases g.attrs.Keys - st.visited, |st.queue|
  {
    if st.queue == [] then st.related
    else
      var cur, depth := st.queue[0].0, st.queue[0].1;
      var rest := Bfs(st.queue[1..], st.visited, st.related);
      if depth > maxDepth then Run(g, maxDepth, rest)
      else
        var next := Scan(g, cur, depth, maxDepth, Successors(g, cur), rest);
        assert next.visited == rest.visited ==> next == rest;
        Run(g, maxDepth, next)
  }

  /** The walk's starting state for concept `id`. */
  function Start(id: Id): Bfs {
    Bfs([(id, 0)], {id}, map[])
  }

  /** `get_related_concepts(id, max_depth)`: the score of every node the walk reaches; nothing for an unknown id. */
  function Related(s: Store, id: Id, maxDepth: int): (r: map<Id, real>)
    requires Valid(s)
    ensures id !in s.concepts ==> r == map[]
  {
    if id !in s.concepts then map[] else Run(s.graph, maxDepth, Start(id))
  }

  /** `p` follows edges of `g`. */
  ghost predicate IsWalk(g: Digraph, p: seq<Id>) {
    forall k :: 0 <= k < |p| - 1 ==> (p[k], p[k + 1]) in g.edges
  }

  /** `b` is reached from `a` by a walk of exactly `d` edges. */
  ghost predicate ReachesIn(g: Digraph, a: Id, b: Id, d: nat) {
    exists p :: IsWalk(g, p) && |p| == d + 1 && p[0] == a && p[d] == b
  }

  /** `d` is the length of a shortest walk from `a` to `b`. */
  ghost predicate Shortest(g: Digraph, a: Id, b: Id, d: nat) {
    ReachesIn(g, a, b, d) && forall d': nat :: d' < d ==> !ReachesIn(g, a, b, d')
  }

  /**
   * `x` is a score the walk from `start` can give `v`: the strength of a discovering edge (u, v)
   * times 0.8 ** d, where d <= maxDepth is the distance from `start` to u and d + 1 the distance
   * to v, so the edge leads from the level just before v's own (v is at most maxDepth + 1 hops
   * away).
   */
  ghost predicate Scored(g: Digraph, start: Id, maxDepth: int, v: Id, x: real) {
    exists u, d: nat :: d <= maxDepth && Shortest(g, start, u, d) && Shortest(g, start, v, d + 1) && (u, v) in g.edges
      && x == g.edges[(u, v)].strength * Decay(d)
  }

  /** `x` has an entry in the queue `q`. */
  ghost predicate Queued(q: seq<(Id, nat)>, x: Id) {
    exists k :: 0 <= k < |q| && q[k].0 == x
  }

  /** No walk of at most maxDepth edges leads from `start` to `x`. */
  ghost predicate Beyond(g: Digraph, start: Id, maxDepth: int, x: Id) {
    forall k: nat :: k <= maxDepth ==> !ReachesIn(g, start, x, k)
  }

  /**
   * The queue of a breadth-first walk: depths never decrease, span at most two adjacent levels,
   * and stay within the limit except for the start entry at depth 0.
   */
  ghost predicate Layered(q: seq<(Id, nat)>, maxDepth: int) {
    && (forall i, j :: 0 <= i < j < |q| ==> q[i].1 <= q[j].1)
    && (forall k :: 0 <= k < |q| ==> q[k].1 <= q[0].1 + 1 && (q[k].1 == 0 || q[k].1 <= maxDepth))
  }

  /** Every node as close to `start` as the head of the queue has been discovered. */
  ghost predicate Covered(g: Digraph, start: Id, st: Bfs) {
    st.queue != [] ==> forall x, k: nat :: k <= st.queue[0].1 && ReachesIn(g, start, x, k) ==> x in st.visited
  }

  /** A discovered node is still queued, has had all its successors discovered, or lies beyond the limit. */
  ghost predicate Closed(g: Digraph, start: Id, maxDepth: int, st: Bfs) {
    forall x :: x in st.visited ==>
      Queued(st.queue, x) || (forall y :: (x, y) in g.edges ==> y in st.visited) || Beyond(g, start, maxDepth, x)
  }

  /** What holds of every state of the walk from `start`. */
  ghost predicate Inv(g: Digraph, start: Id, maxDepth: int, st: Bfs) {
    && WellFormed(g) && start in st.visited && st.visited <= g.attrs.Keys
    && (forall v :: v in st.related <==> v in st.visited && v != start)
    && Breadth(g, start, maxDepth, st)
    && (forall v :: v in st.related ==> Scored(g, start, maxDepth, v, st.related[v]))
  }

  /** The queue holds shortest distances, level by level, over a discovered set closed as far as the queue's head. */
  ghost predicate Breadth(g: Digraph, start: Id, maxDepth: int, st: Bfs) {
    && (forall k :: 0 <= k < |st.queue| ==> Shortest(g, start, st.queue[k].0, st.queue[k].1))
    && Layered(st.queue, maxDepth) && Covered(g, start, st) && Closed(g, start, maxDepth, st)
  }

  lemma ReachesStep(g: Digraph, a: Id, u: Id, d: nat, v: Id)
    requires ReachesIn(g, a, u, d) && (u, v) in g.edges
    ensures ReachesIn(g, a, v, d + 1)
  {
    var p :| IsWalk(g, p) && |p| == d + 1 && p[0] == a && p[d] == u;
    var q := p + [v];
    assert IsWalk(g, q) && |q| == d + 2 && q[0] == a && q[d + 1] == v;
  }

  /** A walk of d + 1 edges passes, one edge before its end, a node d edges from its start. */
  lemma ReachesBack(g: Digraph, a: Id, w: Id, d: nat) returns (x: Id)
    requires ReachesIn(g, a, w, d + 1)
    ensures ReachesIn(g, a, x, d) && (x, w) in g.edges
  {
    var p :| IsWalk(g, p) && |p| == d + 2 && p[0] == a && p[d + 1] == w;
    x := p[d];
    var q := p[..d + 1];
    assert IsWalk(g, q) && |q| == d + 1 && q[0] == a && q[d] == x;
    assert (p[d], p[d + 1]) in g.edges;
  }

  /** The walk's starting state for concept `id` satisfies the invariant. */
  lemma StartInv(g: Digraph, id: Id, maxDepth: int)
    requires WellFormed(g) && id in g.attrs
    ensures Inv(g, id, maxDepth, Start(id))
  {
    var st := Start(id);
    assert IsWalk(g, [id]);
    assert ReachesIn(g, id, id, 0);
    assert Covered(g, id, st) by {
      forall x, k: nat | k <= 0 && ReachesIn(g, id, x, k) ensures x in st.visited {
        var p :| IsWalk(g, p) && |p| == k + 1 && p[0] == id && p[k] == x;
      }
    }
    assert Queued(st.queue, id) by { assert st.queue[0].0 == id; }
  }

  /** Popping an entry beyond the depth limit keeps the invariant. */
  lemma SkipInv(g: Digraph, start: Id, maxDepth: int, st: Bfs)
    requires Inv(g, start, maxDepth, st) && st.queue != [] && st.queue[0].1 > maxDepth
    ensures Inv(g, start, maxDepth, Bfs(st.queue[1..], st.visited, st.related))
  {
    var q, rest := st.queue, Bfs(st.queue[1..], st.visited, st.related);
    assert forall k :: 0 <= k < |rest.queue| ==> rest.queue[k] == q[k + 1];
    assert rest.queue != [] ==> rest.queue[0].1 == q[0].1;
    forall x | x in rest.visited
      ensures Queued(rest.queue, x) || (forall y :: (x, y) in g.edges ==> y in rest.visited) || Beyond(g, start, maxDepth, x)
    {
      if Queued(q, x) {
        var i :| 0 <= i < |q| && q[i].0 == x;
        if i > 0 {
          assert rest.queue[i - 1].0 == x;
        } else {
          assert Shortest(g, start, x, q[0].1);
        }
      }
    }
  }

  /** Expanding the head entry, when it is within the depth limit, keeps the invariant. */
  lemma ExpandInv(g: Digraph, start: Id, maxDepth: int, st: Bfs)
    requires Inv(g, start, maxDepth, st) && st.queue != [] && st.queue[0].1 <= maxDepth
    ensures var rest := Bfs(st.queue[1..], st.visited, st.related);
      Inv(g, start, maxDepth, Scan(g, st.queue[0].0, st.queue[0].1, maxDepth, Successors(g, st.queue[0].0), rest))
  {
    var cur, h := st.queue[0].0, st.queue[0].1;
    var rest := Bfs(st.queue[1..], st.visited, st.related);
    var r := Scan(g, cur, h, maxDepth, Successors(g, cur), rest);
    ExpandScores(g, start, maxDepth, st);
    ExpandBreadth(g, start, maxDepth, st);
  }

  /** Expanding the head entry scores its new successors as `Scored` allows. */
  lemma ExpandScores(g: Digraph, start: Id, maxDepth: int, st: Bfs)
    requires Inv(g, start, maxDepth, st) && st.queue != [] && st.queue[0].1 <= maxDepth
    ensures var rest := Bfs(st.queue[1..], st.visited, st.related);
      var r := Scan(g, st.queue[0].0, st.queue[0].1, maxDepth, Successors(g, st.queue[0].0), rest);
      && start in r.visited && r.visited <= g.attrs.Keys
      && (forall v :: v in r.related <==> v in r.visited && v != start)
      && (forall v :: v in r.related ==> Scored(g, start, maxDepth, v, r.related[v]))
  {
    var cur, h := st.queue[0].0, st.queue[0].1;
    var rest := Bfs(st.queue[1..], st.visited, st.related);
    var nbrs := Successors(g, cur);
    SuccessorsAreTargets(g, cur);
    var r := Scan(g, cur, h, maxDepth, nbrs, rest);
    ScanScores(g, cur, h, maxDepth, nbrs, rest);
    assert Shortest(g, start, cur, h);
    forall v | v in r.related ensures Scored(g, start, maxDepth, v, r.related[v]) {
      if v !in st.related {
        assert v !in st.visited && (cur, v) in g.edges;
        ReachesStep(g, start, cur, h, v);
        forall d': nat | d' < h + 1 ensures !ReachesIn(g, start, v, d') {
          assert d' <= st.queue[0].1 && v !in st.visited;
        }
        assert Shortest(g, start, v, h + 1);
      }
    }
  }

  /** Expanding the head entry keeps the queue breadth-first. */
  lemma ExpandBreadth(g: Digraph, start: Id, maxDepth: int, st: Bfs)
    requires WellFormed(g) && Breadth(g, start, maxDepth, st) && st.queue != [] && st.queue[0].1 <= maxDepth
    ensures var rest := Bfs(st.queue[1..], st.visited, st.related);
      Breadth(g, start, maxDepth, Scan(g, st.queue[0].0, st.queue[0].1, maxDepth, Successors(g, st.queue[0].0), rest))
  {
    var q, cur, h := st.queue, st.queue[0].0, st.queue[0].1;
    var r := Scan(g, cur, h, maxDepth, Successors(g, cur), Bfs(q[1..], st.visited, st.related));
    ExpandFacts(g, q, maxDepth, st.visited, st.related, r);
    ExpandQueue(g, start, maxDepth, st, r);
    ExpandLayered(q, h, maxDepth, r.queue);
    ExpandCovered(g, start, maxDepth, st, r);
    ExpandClosed(g, start, maxDepth, st, r);
  }

  /** What expanding the head of `q` into `r` does to the queue and the discovered set, in the terms the steps below use. */
  lemma ExpandFacts(g: Digraph, q: seq<(Id, nat)>, maxDepth: int, visited: set<Id>, related: map<Id, real>, r: Bfs)
    requires WellFormed(g) && q != []
    requires r == Scan(g, q[0].0, q[0].1, maxDepth, Successors(g, q[0].0), Bfs(q[1..], visited, related))
    ensures |q| - 1 <= |r.queue| && forall k :: 0 <= k < |q| - 1 ==> r.queue[k] == q[k + 1]
    ensures forall k :: |q| - 1 <= k < |r.queue| ==> r.queue[k].1 == q[0].1 + 1 && q[0].1 < maxDepth
    ensures forall k :: |q| - 1 <= k < |r.queue| ==> (q[0].0, r.queue[k].0) in g.edges && r.queue[k].0 !in visited
    ensures visited <= r.visited && forall y :: (q[0].0, y) in g.edges ==> y in r.visited
    ensures forall v :: v in r.visited <==> v in visited || (q[0].0, v) in g.edges
    ensures q[0].1 < maxDepth ==> forall v :: (q[0].0, v) in g.edges && v !in visited ==> Queued(r.queue, v)
  {
    var cur, h := q[0].0, q[0].1;
    var rest := Bfs(q[1..], visited, related);
    var nbrs := Successors(g, cur);
    SuccessorsAreTargets(g, cur);
    ScanQueue(g, cur, h, maxDepth, nbrs, rest);
    assert |rest.queue| == |q| - 1;
    forall k | 0 <= k < |q| - 1 ensures r.queue[k] == q[k + 1] {
      assert r.queue[k] == rest.queue[k];
    }
    forall k | |q| - 1 <= k < |r.queue|
      ensures r.queue[k].1 == h + 1 && h < maxDepth && (cur, r.queue[k].0) in g.edges && r.queue[k].0 !in visited
    {
      assert |rest.queue| <= k && r.queue[k].0 in nbrs;
    }
  }

  /** Every entry the expansion appends lies at its node's distance from `start`. */
  lemma ExpandQueue(g: Digraph, start: Id, maxDepth: int, st: Bfs, r: Bfs)
    requires WellFormed(g) && Breadth(g, start, maxDepth, st) && st.queue != []
    requires |st.queue| - 1 <= |r.queue| && forall k :: 0 <= k < |st.queue| - 1 ==> r.queue[k] == st.queue[k + 1]
    requires forall k :: |st.queue| - 1 <= k < |r.queue| ==>
      r.queue[k].1 == st.queue[0].1 + 1 && (st.queue[0].0, r.queue[k].0) in g.edges && r.queue[k].0 !in st.visited
    ensures forall k :: 0 <= k < |r.queue| ==> Shortest(g, start, r.queue[k].0, r.queue[k].1)
  {
    var cur, h := st.queue[0].0, st.queue[0].1;
    assert Shortest(g, start, cur, h);
    forall k | 0 <= k < |r.queue| ensures Shortest(g, start, r.queue[k].0, r.queue[k].1) {
      if k < |st.queue| - 1 {
        assert r.queue[k] == st.queue[k + 1];
      } else {
        var v := r.queue[k].0;
        ReachesStep(g, start, cur, h, v);
        forall d': nat | d' < h + 1 ensures !ReachesIn(g, start, v, d') {
          assert d' <= st.queue[0].1 && v !in st.visited;
        }
      }
    }
  }

  /** The queue after an expansion is still layered. */
  lemma ExpandLayered(q: seq<(Id, nat)>, h: nat, maxDepth: int, q': seq<(Id, nat)>)
    requires Layered(q, maxDepth) && q != [] && q[0].1 == h
    requires |q| - 1 <= |q'| && forall k :: 0 <= k < |q| - 1 ==> q'[k] == q[k + 1]
    requires forall k :: |q| - 1 <= k < |q'| ==> q'[k].1 == h + 1 && h < maxDepth
    ensures Layered(q', maxDepth)
    ensures q' != [] ==> h <= q'[0].1 <= h + 1
  {
    if q' != [] {
      assert h <= q'[0].1 by {
        if |q| > 1 { assert q'[0] == q[1]; }
      }
    }
  }

  /** After an expansion every node as close as the new head has been discovered. */
  lemma ExpandCovered(g: Digraph, start: Id, maxDepth: int, st: Bfs, r: Bfs)
    requires WellFormed(g) && Breadth(g, start, maxDepth, st) && st.queue != [] && st.queue[0].1 <= maxDepth
    requires Layered(r.queue, maxDepth) && (r.queue != [] ==> st.queue[0].1 <= r.queue[0].1 <= st.queue[0].1 + 1)
    requires |st.queue| - 1 <= |r.queue| && forall k :: 0 <= k < |st.queue| - 1 ==> r.queue[k] == st.queue[k + 1]
    requires st.visited <= r.visited
    requires forall y :: (st.queue[0].0, y) in g.edges ==> y in r.visited
    ensures Covered(g, start, r)
  {
    var q, cur, h := st.queue, st.queue[0].0, st.queue[0].1;
    if r.queue != [] {
      forall x, k: nat | k <= r.queue[0].1 && ReachesIn(g, start, x, k) ensures x in r.visited {
        if k > h {
          assert k == h + 1;
          var p := ReachesBack(g, start, x, h);
          assert p in st.visited;
          assert h <= maxDepth && ReachesIn(g, start, p, h);
          forall i | 0 < i < |q| ensures q[i].0 != p {
            assert r.queue[i - 1] == q[i] && r.queue[0].1 <= r.queue[i - 1].1;
            assert Shortest(g, start, q[i].0, q[i].1);
          }
          if Queued(q, p) {
            var i :| 0 <= i < |q| && q[i].0 == p;
            assert i == 0;
          }
        }
      }
    }
  }

  /** After an expansion every discovered node is queued, exhausted or beyond the limit. */
  lemma ExpandClosed(g: Digraph, start: Id, maxDepth: int, st: Bfs, r: Bfs)
    requires WellFormed(g) && Breadth(g, start, maxDepth, st) && st.queue != [] && st.queue[0].1 <= maxDepth
    requires |st.queue| - 1 <= |r.queue| && forall k :: 0 <= k < |st.queue| - 1 ==> r.queue[k] == st.queue[k + 1]
    requires forall v :: v in r.visited <==> v in st.visited || (st.queue[0].0, v) in g.edges
    requires st.queue[0].1 < maxDepth ==> forall v :: (st.queue[0].0, v) in g.edges && v !in st.visited ==> Queued(r.queue, v)
    ensures Closed(g, start, maxDepth, r)
  {
    var q, cur, h := st.queue, st.queue[0].0, st.queue[0].1;
    forall x | x in r.visited
      ensures Queued(r.queue, x) || (forall y :: (x, y) in g.edges ==> y in r.visited) || Beyond(g, start, maxDepth, x)
    {
      if x !in st.visited {
        if h == maxDepth {
          forall k: nat | k <= maxDepth ensures !ReachesIn(g, start, x, k) {
            assert k <= q[0].1 && x !in st.visited;
          }
        }
      } else if Queued(q, x) {
        var i :| 0 <= i < |q| && q[i].0 == x;
        if i > 0 {
          assert r.queue[i - 1].0 == x;
        }
      }
    }
  }

  /** Every node the walk scores is a node other than `start`, with a score `Scored` allows. */
  lemma {:induction false} RunSound(g: Digraph, start: Id, maxDepth: int, st: Bfs)
    requires Inv(g, start, maxDepth, st)
    ensures forall v :: v in Run(g, maxDepth, st) ==>
      v in g.attrs && v != start && Scored(g, start, maxDepth, v, Run(g, maxDepth, st)[v])
    decreases g.attrs.Keys - st.visited, |st.queue|
  {
    if st.queue != [] {
      var cur, depth := st.queue[0].0, st.queue[0].1;
      var rest := Bfs(st.queue[1..], st.visited, st.related);
      if depth > maxDepth {
        SkipInv(g, start, maxDepth, st);
        RunSound(g, start, maxDepth, rest);
      } else {
        var next := Scan(g, cur, depth, maxDepth, Successors(g, cur), rest);
        ExpandInv(g, start, maxDepth, st);
        assert next.visited == rest.visited ==> next == rest;
        RunSound(g, start, maxDepth, next);
      }
    }
  }

  /** Once the queue is empty, every node at most maxDepth + 1 edges from the start has been discovered. */
  lemma {:induction false} DrainedReach(g: Digraph, start: Id, maxDepth: int, st: Bfs, v: Id, k: nat)
    requires Inv(g, start, maxDepth, st) && st.queue == []
    requires k <= maxDepth + 1 && ReachesIn(g, start, v, k)
    ensures v in st.visited
    decreases k
  {
    if k == 0 {
      var p :| IsWalk(g, p) && |p| == 1 && p[0] == start && p[0] == v;
    } else {
      var x := ReachesBack(g, start, v, k - 1);
      DrainedReach(g, start, maxDepth, st, x, k - 1);
      assert !Queued(st.queue, x);
      assert !Beyond(g, start, maxDepth, x);
    }
  }

  /** The walk scores every node other than the start that lies at most maxDepth + 1 edges away. */
  lemma {:induction false} RunComplete(g: Digraph, start: Id, maxDepth: int, st: Bfs)
    requires Inv(g, start, maxDepth, st)
    ensures forall v, k: nat :: k <= maxDepth + 1 && ReachesIn(g, start, v, k) && v != start ==> v in Run(g, maxDepth, st)
    decreases g.attrs.Keys - st.visited, |st.queue|
  {
    if st.queue == [] {
      forall v, k: nat | k <= maxDepth + 1 && ReachesIn(g, start, v, k) && v != start ensures v in st.related {
        DrainedReach(g, start, maxDepth, st, v, k);
      }
    } else {
      var cur, depth := st.queue[0].0, st.queue[0].1;
      var rest := Bfs(st.queue[1..], st.visited, st.related);
      if depth > maxDepth {
        SkipInv(g, start, maxDepth, st);
        RunComplete(g, start, maxDepth, rest);
      } else {
        var next := Scan(g, cur, depth, maxDepth, Successors(g, cur), rest);
        ExpandInv(g, start, maxDepth, st);
        assert next.visited == rest.visited ==> next == rest;
        RunComplete(g, start, maxDepth, next);
      }
    }
  }

  /** A score, once given, is never changed: the walk scores each node once. */
  lemma {:induction false} RunKeeps(g: Digraph, maxDepth: int, st: Bfs)
    requires WellFormed(g) && st.visited <= g.attrs.Keys
    requires forall v :: v in st.related ==> v in st.visited
    ensures forall v :: v in st.related ==> v in Run(g, maxDepth, st) && Run(g, maxDepth, st)[v] == st.related[v]
    decreases g.attrs.Keys - st.visited, |st.queue|
  {
    if st.queue != [] {
      var cur, depth := st.queue[0].0, st.queue[0].1;
      var rest := Bfs(st.queue[1..], st.visited, st.related);
      if depth > maxDepth {
        RunKeeps(g, maxDepth, rest);
      } else {
        var next := Scan(g, cur, depth, maxDepth, Successors(g, cur), rest);
        ScanScores(g, cur, depth, maxDepth, Successors(g, cur), rest);
        assert next.visited == rest.visited ==> next == rest;
        RunKeeps(g, maxDepth, next);
      }
    }
  }

  /**
   * Soundness of `get_related_concepts`: every scored node is a concept other than the start,
   * scored as the strength of the edge that discovered it times 0.8 ** d, where d <= maxDepth is
   * the length of a shortest walk from the start to the edge's source and d + 1 that of a shortest
   * walk to the node itself: the walk is breadth-first.
   */
  lemma RelatedSound(s: Store, id: Id, maxDepth: int)
    requires Valid(s)
    ensures forall v :: v in Related(s, id, maxDepth) ==>
      v in s.concepts && v != id && Scored(s.graph, id, maxDepth, v, Related(s, id, maxDepth)[v])
  {
    if id in s.concepts {
      StartInv(s.graph, id, maxDepth);
      RunSound(s.graph, id, maxDepth, Start(id));
    }
  }

  lemma ScoredInUnit(s: Store, start: Id, maxDepth: int, v: Id, x: real)
    requires StrengthsInUnit(s) && Scored(s.graph, start, maxDepth, v, x)
    ensures 0.0 <= x <= 1.0
  {
    var u, d: nat :| d <= maxDepth && Shortest(s.graph, start, u, d) && Shortest(s.graph, start, v, d + 1)
      && (u, v) in s.graph.edges && x == s.graph.edges[(u, v)].strength * Decay(d);
    var a, b := s.graph.edges[(u, v)].strength, Decay(d);
    assert 0.0 <= a <= 1.0 && 0.0 < b <= 1.0;
    assert x == a * b;
    assert 0.0 <= a * b;
    assert a * b <= 1.0 * b;
  }

  /** With strengths in [0, 1], every score is in [0, 1]. */
  lemma RelatedInUnit(s: Store, id: Id, maxDepth: int)
    requires Valid(s) && StrengthsInUnit(s)
    ensures forall v :: v in Related(s, id, maxDepth) ==> 0.0 <= Related(s, id, maxDepth)[v] <= 1.0
  {
    RelatedSound(s, id, maxDepth);
    forall v | v in Related(s, id, maxDepth) ensures 0.0 <= Related(s, id, maxDepth)[v] <= 1.0 {
      ScoredInUnit(s, id, maxDepth, v, Related(s, id, maxDepth)[v]);
    }
  }

  /**
   * The direct successors of a known concept (other than itself) are scored with the full strength
   * of the edge from it, whenever the depth limit is not negative.
   */
  lemma RelatedDirect(s: Store, id: Id, maxDepth: int)
    requires Valid(s) && id in s.concepts && maxDepth >= 0
    ensures forall v :: (id, v) in s.graph.edges && v != id ==>
      v in Related(s, id, maxDepth) && Related(s, id, maxDepth)[v] == s.graph.edges[(id, v)].strength
  {
    var rest := Bfs([], {id}, map[]);
    var next := Scan(s.graph, id, 0, maxDepth, Successors(s.graph, id), rest);
    RelatedFirst(s, id, maxDepth);
    ScanScores(s.graph, id, 0, maxDepth, Successors(s.graph, id), rest);
    RunKeeps(s.graph, maxDepth, next);
  }

  /** The walk's first round expands the start concept with nothing else queued. */
  lemma RelatedFirst(s: Store, id: Id, maxDepth: int)
    requires Valid(s) && id in s.concepts && maxDepth >= 0
    ensures var rest := Bfs([], {id}, map[]);
      Related(s, id, maxDepth) == Run(s.graph, maxDepth, Scan(s.graph, id, 0, maxDepth, Successors(s.graph, id), rest))
  {
    assert Start(id).queue[1..] == [];
  }

  /** From a known concept, every other node at most maxDepth + 1 edges away is scored. */
  lemma RelatedComplete(s: Store, id: Id, maxDepth: int)
    requires Valid(s) && id in s.concepts
    ensures forall v, k: nat :: k <= maxDepth + 1 && ReachesIn(s.graph, id, v, k) && v != id ==> v in Related(s, id, maxDepth)
  {
    StartInv(s.graph, id, maxDepth);
    RunComplete(s.graph, id, maxDepth, Start(id));
  }

  /** A node scored from `start` lies at most maxDepth + 1 edges from it. */
  lemma ScoredReach(g: Digraph, start: Id, maxDepth: int, v: Id, x: real) returns (k: nat)
    requires Scored(g, start, maxDepth, v, x)
    ensures k <= maxDepth + 1 && ReachesIn(g, start, v, k)
  {
    var u, d: nat :| d <= maxDepth && Shortest(g, start, u, d) && Shortest(g, start, v, d + 1) && (u, v) in g.edges
      && x == g.edges[(u, v)].strength * Decay(d);
    k := d + 1;
  }

  /**
   * Reach of `get_related_concepts`: from a known concept, exactly the other nodes at most
   * maxDepth + 1 edges away are scored (entries at the limit are still expanded).
   */
  lemma RelatedReach(s: Store, id: Id, maxDepth: int)
    requires Valid(s) && id in s.concepts
    ensures forall v :: v in Related(s, id, maxDepth) <==>
      v != id && exists k: nat :: k <= maxDepth + 1 && ReachesIn(s.graph, id, v, k)
  {
    var m := Related(s, id, maxDepth);
    RelatedComplete(s, id, maxDepth);
    RelatedSound(s, id, maxDepth);
    forall v | v in m ensures exists k: nat :: k <= maxDepth + 1 && ReachesIn(s.graph, id, v, k) {
      var k := ScoredReach(s.graph, id, maxDepth, v, m[v]);
    }
  }
}
