/**
 * The descendants query: a depth-first closure over node identities across
 * every stored graph document, guarded by a visited set so that cycles and
 * self-loops terminate.
 *
 * From a node identity `v`, the traversal takes every document that has an
 * edge whose source is `v`, reports that document, and continues from the
 * target of EVERY edge of that document (not only the edges leaving `v`).
 * Results are reported as positions in the snapshot being traversed.
 */
module Reachability {
  import opened Models

  /** `g.Edges.Any(e => e.SourceNodeId == v)`. */
  predicate HasEdgeFrom(g: Graph, v: Guid) {
    exists e :: e in g.edges && e.source == v
  }

  /** The target identities of all edges of `g`. */
  ghost function Targets(g: Graph): set<Guid> {
    set e | e in g.edges :: e.target
  }

  /** Every edge target in the snapshot: the identities the traversal can reach besides its seed. */
  ghost function AllTargets(all: seq<Graph>): set<Guid> {
    set i, e | 0 <= i < |all| && e in all[i].edges :: e.target
  }

  /** One traversal step: some document with an edge from `u` has an edge into `v`. */
  ghost predicate Step(all: seq<Graph>, u: Guid, v: Guid) {
    exists i :: 0 <= i < |all| && HasEdgeFrom(all[i], u) && v in Targets(all[i])
  }

  /** `p` is a chain of traversal steps. */
  ghost predicate IsWalk(all: seq<Graph>, p: seq<Guid>) {
    forall k :: 0 <= k < |p| - 1 ==> Step(all, p[k], p[k + 1])
  }

  /** `p` is a chain of steps from `seed` to `v`. */
  ghost predicate WalkFromTo(all: seq<Graph>, p: seq<Guid>, seed: Guid, v: Guid) {
    |p| > 0 && p[0] == seed && p[|p| - 1] == v && IsWalk(all, p)
  }

  /** `v` is visited by a traversal started at `seed`. */
  ghost predicate Reaches(all: seq<Graph>, seed: Guid, v: Guid) {
    exists p :: WalkFromTo(all, p, seed, v)
  }

  /** Every document with an edge from `v` has all its targets in `s`. */
  ghost predicate ClosedAt(all: seq<Graph>, v: Guid, s: set<Guid>) {
    forall i :: 0 <= i < |all| && HasEdgeFrom(all[i], v) ==> Targets(all[i]) <= s
  }

  /** `s` is closed under traversal steps. */
  ghost predicate Closed(all: seq<Graph>, s: set<Guid>) {
    forall v :: v in s ==> ClosedAt(all, v, s)
  }

  /** Positions of the documents that have an edge from some identity in `s`. */
  ghost function Hits(all: seq<Graph>, s: set<Guid>): set<nat> {
    set i: nat | i < |all| && exists v :: v in s && HasEdgeFrom(all[i], v)
  }

  /**
   * The descendants of `seed`: positions of the documents having an edge whose
   * source is reachable from `seed`.
   */
  ghost function DescendantsSpec(all: seq<Graph>, seed: Guid): set<nat> {
    set i: nat | i < |all| && exists v :: Reaches(all, seed, v) && HasEdgeFrom(all[i], v)
  }

  /** Every identity in `s` is reachable from `seed`. */
  ghost predicate AllReached(all: seq<Graph>, seed: Guid, s: set<Guid>) {
    forall v :: v in s ==> Reaches(all, seed, v)
  }

  /** Every identity added to `s0` to make `s` is closed in `s`. */
  ghost predicate ClosedBeyond(all: seq<Graph>, s0: set<Guid>, s: set<Guid>) {
    forall v :: v in s - s0 ==> ClosedAt(all, v, s)
  }

  /** The documents before position `n` that have an edge from `c` have all their targets in `s`. */
  ghost predicate ClosedBelow(all: seq<Graph>, c: Guid, n: nat, s: set<Guid>) {
    forall j :: 0 <= j < n && j < |all| && HasEdgeFrom(all[j], c) ==> Targets(all[j]) <= s
  }

  /** Positions before `n` of the documents that have an edge from `c`. */
  ghost function SourceHits(all: seq<Graph>, c: Guid, n: nat): set<nat> {
    set j: nat | j < n && j < |all| && HasEdgeFrom(all[j], c)
  }

  // ---------------------------------------------------------------------
  // The traversal
  // ---------------------------------------------------------------------

  /**
   * `GetDescendantsAsync`: traverse from `nodeId` over the snapshot `all` and
   * return the positions of the documents collected.
   */
  method Descendants(all: seq<Graph>, nodeId: Guid) returns (result: set<nat>)
    ensures result == DescendantsSpec(all, nodeId)
    ensures forall i :: i in result ==> i < |all|
  {
    var visited: set<Guid>;
    visited, result := TraverseDescendants(all, nodeId, nodeId, [nodeId], {}, {});
    assert Closed(all, visited) by {
      assert ClosedBeyond(all, {}, visited);
    }
    forall v | Reaches(all, nodeId, v) ensures v in visited {
      ReachedStaysInClosed(all, nodeId, visited, v);
    }
  }

  /**
   * The local `TraverseDescendants`: visits `current` unless it was visited
   * already. `visited` and `descendants` are the two shared hash sets, passed
   * in and handed back. Everything newly visited is reachable from `seed` and
   * closed in the returned visited set, and the documents newly collected are
   * exactly those with an edge from a newly visited identity.
   */
  method TraverseDescendants(all: seq<Graph>, ghost seed: Guid, current: Guid, ghost walk: seq<Guid>,
                             visited: set<Guid>, descendants: set<nat>)
    returns (visited': set<Guid>, descendants': set<nat>)
    requires WalkFromTo(all, walk, seed, current)
    requires AllReached(all, seed, visited)
    ensures visited <= visited' && current in visited'
    ensures AllReached(all, seed, visited')
    ensures ClosedBeyond(all, visited, visited')
    ensures descendants' == descendants + Hits(all, visited' - visited)
    decreases |AllTargets(all) - visited|, if current in AllTargets(all) then 0 else 1
  {
    if current in visited {
      return visited, descendants;
    }
    ghost var before := visited + {current};
    WalkReaches(all, walk, seed, current, visited);
    visited', descendants' := visited + {current}, descendants;

    var i := 0;
    while i < |all|
      invariant 0 <= i <= |all|
      invariant before <= visited'
      invariant AllReached(all, seed, visited')
      invariant ClosedBeyond(all, before, visited')
      invariant ClosedBelow(all, current, i, visited')
      invariant descendants' == descendants + SourceHits(all, current, i) + Hits(all, visited' - before)
    {
      SourceHitsStep(all, current, i);
      if HasEdgeFrom(all[i], current) {
        descendants' := descendants' + {i};
        var edges := all[i].edges;
        var k := 0;
        while k < |edges|
          invariant 0 <= k <= |edges|
          invariant before <= visited'
          invariant AllReached(all, seed, visited')
          invariant ClosedBeyond(all, before, visited')
          invariant ClosedBelow(all, current, i, visited')
          invariant forall m :: 0 <= m < k ==> edges[m].target in visited'
          invariant descendants' == descendants + SourceHits(all, current, i + 1) + Hits(all, visited' - before)
        {
          var target := edges[k].target;
          assert WalkFromTo(all, walk + [target], seed, target) by {
            TargetInAllTargets(all, i, k);
            WalkExtends(all, walk, seed, current, i, target);
          }
          assert target in AllTargets(all) && |AllTargets(all) - visited'| <= |AllTargets(all) - visited| &&
                 (current in AllTargets(all) ==> |AllTargets(all) - visited'| < |AllTargets(all) - visited|) by {
            TargetInAllTargets(all, i, k);
            UnvisitedShrinks(AllTargets(all), visited, current, visited');
          }
          ghost var mid := visited';
          ghost var midDesc := descendants';
          visited', descendants' := TraverseDescendants(all, seed, target, walk + [target], visited', descendants');
          assert forall m :: 0 <= m < k + 1 ==> edges[m].target in visited' by {
            PrefixTargetsStay(edges, k, mid, visited');
          }
          assert ClosedBeyond(all, before, visited') && ClosedBelow(all, current, i, visited') by {
            AfterVisit(all, current, i, before, mid, visited');
          }
          assert descendants' == descendants + SourceHits(all, current, i + 1) + Hits(all, visited' - before) by {
            HitsAfterVisit(all, before, mid, visited', descendants + SourceHits(all, current, i + 1),
                           midDesc, descendants');
          }
          k := k + 1;
        }
        EdgesVisited(all, i, visited');
        ClosedBelowStep(all, current, i, visited');
      } else {
        ClosedBelowStep(all, current, i, visited');
      }
      i := i + 1;
    }
    FinishVisit(all, current, visited, before, visited', descendants, descendants');
  }

  // ---------------------------------------------------------------------
  // Lemmas used by the traversal
  // ---------------------------------------------------------------------

  lemma TargetInAllTargets(all: seq<Graph>, i: nat, k: nat)
    requires i < |all| && k < |all[i].edges|
    ensures all[i].edges[k].target in AllTargets(all)
    ensures all[i].edges[k].target in Targets(all[i])
  {
  }

  lemma WalkExtends(all: seq<Graph>, walk: seq<Guid>, seed: Guid, current: Guid, i: nat, target: Guid)
    requires WalkFromTo(all, walk, seed, current)
    requires i < |all| && HasEdgeFrom(all[i], current) && target in Targets(all[i])
    ensures WalkFromTo(all, walk + [target], seed, target)
  {
  }

  /** Visiting `c` strictly shrinks the unvisited part of `u` when `c` is in it. */
  lemma UnvisitedShrinks<T>(u: set<T>, v0: set<T>, c: T, v1: set<T>)
    requires v0 + {c} <= v1 && c !in v0
    ensures |u - v1| <= |u - v0|
    ensures c in u ==> |u - v1| < |u - v0|
  {
    SubsetCard(u - v1, u - v0);
    if c in u {
      SubsetCard(u - v1, (u - v0) - {c});
    }
  }

  lemma {:induction false} SubsetCard<T>(a: set<T>, b: set<T>)
    requires a <= b
    ensures |a| <= |b|
  {
    if a != {} {
      var x :| x in a;
      SubsetCard(a - {x}, b - {x});
    }
  }

  lemma WalkReaches(all: seq<Graph>, walk: seq<Guid>, seed: Guid, current: Guid, visited: set<Guid>)
    requires WalkFromTo(all, walk, seed, current)
    requires AllReached(all, seed, visited)
    ensures AllReached(all, seed, visited + {current})
  {
  }

  lemma SourceHitsStep(all: seq<Graph>, c: Guid, i: nat)
    requires i < |all|
    ensures SourceHits(all, c, i + 1) == SourceHits(all, c, i) + (if HasEdgeFrom(all[i], c) then {i} else {})
  {
  }

  lemma ClosedBelowStep(all: seq<Graph>, c: Guid, i: nat, s: set<Guid>)
    requires i < |all| && ClosedBelow(all, c, i, s)
    requires HasEdgeFrom(all[i], c) ==> Targets(all[i]) <= s
    ensures ClosedBelow(all, c, i + 1, s)
  {
  }

  lemma PrefixTargetsStay(edges: seq<Edge>, k: nat, s: set<Guid>, s': set<Guid>)
    requires k < |edges| && s <= s' && edges[k].target in s'
    requires forall m :: 0 <= m < k ==> edges[m].target in s
    ensures forall m :: 0 <= m < k + 1 ==> edges[m].target in s'
  {
  }

  lemma EdgesVisited(all: seq<Graph>, i: nat, s: set<Guid>)
    requires i < |all|
    requires forall m :: 0 <= m < |all[i].edges| ==> all[i].edges[m].target in s
    ensures Targets(all[i]) <= s
  {
  }

  /** A nested visit keeps what the enclosing visit has established. */
  lemma AfterVisit(all: seq<Graph>, c: Guid, i: nat, before: set<Guid>, mid: set<Guid>, after: set<Guid>)
    requires before <= mid <= after
    requires ClosedBeyond(all, before, mid) && ClosedBeyond(all, mid, after)
    requires ClosedBelow(all, c, i, mid)
    ensures ClosedBeyond(all, before, after) && ClosedBelow(all, c, i, after)
  {
    forall v | v in after - before ensures ClosedAt(all, v, after) {
      if v in mid {
        assert ClosedAt(all, v, mid);
      }
    }
  }

  lemma HitsAfterVisit(all: seq<Graph>, before: set<Guid>, mid: set<Guid>, after: set<Guid>,
                       base: set<nat>, midDesc: set<nat>, desc: set<nat>)
    requires before <= mid <= after
    requires midDesc == base + Hits(all, mid - before)
    requires desc == midDesc + Hits(all, after - mid)
    ensures desc == base + Hits(all, after - before)
  {
  }

  /** Once all documents are scanned, `c` is closed and its documents are collected. */
  lemma FinishVisit(all: seq<Graph>, c: Guid, visited: set<Guid>, before: set<Guid>, after: set<Guid>,
                    d: set<nat>, desc: set<nat>)
    requires c !in visited && before == visited + {c} && before <= after
    requires ClosedBeyond(all, before, after) && ClosedBelow(all, c, |all|, after)
    requires desc == d + SourceHits(all, c, |all|) + Hits(all, after - before)
    ensures ClosedBeyond(all, visited, after)
    ensures desc == d + Hits(all, after - visited)
  {
  }

  // ---------------------------------------------------------------------
  // Properties of reachability and of the descendant set
  // ---------------------------------------------------------------------

  /** A walk that starts in a closed set never leaves it. */
  lemma {:induction false} WalkStaysInClosed(all: seq<Graph>, s: set<Guid>, p: seq<Guid>, n: nat)
    requires Closed(all, s) && IsWalk(all, p) && |p| > 0 && p[0] in s
    requires n < |p|
    ensures p[n] in s
  {
    if n > 0 {
      WalkStaysInClosed(all, s, p, n - 1);
      assert Step(all, p[n - 1], p[n]);
      var i :| 0 <= i < |all| && HasEdgeFrom(all[i], p[n - 1]) && p[n] in Targets(all[i]);
      assert ClosedAt(all, p[n - 1], s);
    }
  }

  /** Whatever is reachable from `seed` lies in every closed set containing `seed`. */
  lemma ReachedStaysInClosed(all: seq<Graph>, seed: Guid, s: set<Guid>, v: Guid)
    requires seed in s && Closed(all, s)
    requires Reaches(all, seed, v)
    ensures v in s
  {
    var p :| WalkFromTo(all, p, seed, v);
    WalkStaysInClosed(all, s, p, |p| - 1);
  }

  /**
   * The reachable identities form the least closed set containing the seed:
   * the seed is reachable, a step from a reachable identity is reachable, and
   * every closed set containing the seed contains them all.
   */
  lemma ReachesIsLeastClosed(all: seq<Graph>, seed: Guid, u: Guid, v: Guid, s: set<Guid>)
    ensures Reaches(all, seed, seed)
    ensures Reaches(all, seed, u) && Step(all, u, v) ==> Reaches(all, seed, v)
    ensures seed in s && Closed(all, s) && Reaches(all, seed, v) ==> v in s
  {
    assert WalkFromTo(all, [seed], seed, seed);
    if Reaches(all, seed, u) && Step(all, u, v) {
      var p :| WalkFromTo(all, p, seed, u);
      var i :| 0 <= i < |all| && HasEdgeFrom(all[i], u) && v in Targets(all[i]);
      WalkExtends(all, p, seed, u, i, v);
    }
    if seed in s && Closed(all, s) && Reaches(all, seed, v) {
      ReachedStaysInClosed(all, seed, s, v);
    }
  }

  /** A seed that is the source of no edge anywhere has no descendants. */
  lemma NoOutgoingEdgesNoDescendants(all: seq<Graph>, seed: Guid)
    requires forall i :: 0 <= i < |all| ==> !HasEdgeFrom(all[i], seed)
    ensures DescendantsSpec(all, seed) == {}
  {
    assert Closed(all, {seed});
    forall i: nat | i < |all| && exists v :: Reaches(all, seed, v) && HasEdgeFrom(all[i], v)
      ensures false
    {
      var v :| Reaches(all, seed, v) && HasEdgeFrom(all[i], v);
      ReachedStaysInClosed(all, seed, {seed}, v);
    }
  }

  /** The seed's own documents are always descendants (a self-loop included). */
  lemma SeedEdgesAreDescendants(all: seq<Graph>, seed: Guid, i: nat)
    requires i < |all| && HasEdgeFrom(all[i], seed)
    ensures i in DescendantsSpec(all, seed)
  {
    assert WalkFromTo(all, [seed], seed, seed);
  }

  // ---------------------------------------------------------------------
  // Two concrete collections
  // ---------------------------------------------------------------------

  /**
   * G1 (node 10, edge 10 -> 20) and G2 (node 20, edge 20 -> 30): from 10 both
   * graphs are descendants; 30 is the source of no edge and has none.
   */
  lemma ChainExample()
    ensures var all := [Graph(1, Node(10, "n1"), [Edge(100, 10, 20, "e1")]),
                        Graph(2, Node(20, "n2"), [Edge(200, 20, 30, "e2")])];
            DescendantsSpec(all, 10) == {0, 1} && DescendantsSpec(all, 30) == {}
  {
    var e1, e2 := Edge(100, 10, 20, "e1"), Edge(200, 20, 30, "e2");
    var all := [Graph(1, Node(10, "n1"), [e1]), Graph(2, Node(20, "n2"), [e2])];
    assert HasEdgeFrom(all[0], 10) && HasEdgeFrom(all[1], 20) by {
      assert e1 in all[0].edges && e2 in all[1].edges;
    }
    assert Targets(all[0]) == {20} && Targets(all[1]) == {30};
    assert Step(all, 10, 20);
    assert WalkFromTo(all, [10, 20], 10, 20);
    SeedEdgesAreDescendants(all, 10, 0);
    assert 1 in DescendantsSpec(all, 10);
    NoOutgoingEdgesNoDescendants(all, 30);
  }

  /** A cycle 10 -> 20 -> 10: the traversal from 10 reports both graphs once. */
  lemma CycleExample()
    ensures var all := [Graph(1, Node(10, "a"), [Edge(100, 10, 20, "ab")]),
                        Graph(2, Node(20, "b"), [Edge(200, 20, 10, "ba")])];
            DescendantsSpec(all, 10) == {0, 1}
  {
    var e1, e2 := Edge(100, 10, 20, "ab"), Edge(200, 20, 10, "ba");
    var all := [Graph(1, Node(10, "a"), [e1]), Graph(2, Node(20, "b"), [e2])];
    assert HasEdgeFrom(all[0], 10) && HasEdgeFrom(all[1], 20) by {
      assert e1 in all[0].edges && e2 in all[1].edges;
    }
    assert Targets(all[0]) == {20};
    assert Step(all, 10, 20);
    assert WalkFromTo(all, [10, 20], 10, 20);
    SeedEdgesAreDescendants(all, 10, 0);
    assert 1 in DescendantsSpec(all, 10);
  }
}
