/**
 The grouping half of `group_files_by_dependencies`: the nodes of the
 dependency graph are visited in dictionary order, and each node no earlier
 group holds seeds a breadth-first search whose visited nodes form the next
 group. The reference definition is the connected component of the seed.
 */
module Partition {
  import opened Wrappers
  import opened Graph

  /** A dependency graph as `_build_dependency_graph` leaves it. */
  ghost predicate WellFormed(g: DepGraph) {
    NodesMatch(g) && Undirected(g)
  }

  /** A walk along edges of `g`. */
  ghost predicate IsPath(g: DepGraph, p: seq<string>) {
    && |p| >= 1
    && (forall k :: 0 <= k < |p| ==> p[k] in g.adj)
    && (forall k :: 0 <= k < |p| - 1 ==> p[k + 1] in g.adj[p[k]])
  }

  ghost predicate Reaches(g: DepGraph, a: string, b: string) {
    exists p :: IsPath(g, p) && p[0] == a && p[|p| - 1] == b
  }

  /** The nodes reachable from `s`. */
  ghost function Component(g: DepGraph, s: string): set<string> {
    set x | x in g.adj.Keys && Reaches(g, s, x)
  }

  /** A set of nodes no edge leaves. */
  ghost predicate ClosedSet(g: DepGraph, s: set<string>) {
    forall x :: x in s ==> x in g.adj && g.adj[x] <= s
  }

  /** Every node of the groups. */
  function Covered(groups: seq<set<string>>): (c: set<string>)
    ensures forall i :: 0 <= i < |groups| ==> groups[i] <= c
    decreases |groups|
  {
    if groups == [] then {} else Covered(groups[..|groups| - 1]) + groups[|groups| - 1]
  }

  /** Index of the first element of `xs` outside `s`. */
  function FirstOutside(xs: seq<string>, s: set<string>): (r: Option<nat>)
    ensures r.Some? ==> r.value < |xs| && xs[r.value] !in s
    ensures r.Some? ==> forall j :: 0 <= j < r.value ==> xs[j] in s
    ensures r.None? <==> forall j :: 0 <= j < |xs| ==> xs[j] in s
    decreases |xs|
  {
    if xs == [] then None
    else if xs[0] !in s then Some(0)
    else
      match FirstOutside(xs[1..], s)
      case None => None
      case Some(k) => Some(k + 1)
  }

  /**
   The groups after the first `k` nodes of the outer loop: a node already in
   a group is passed over, any other seeds its component.
   */
  ghost function ComponentsUpTo(g: DepGraph, k: nat): seq<set<string>>
    requires k <= |g.nodes|
  {
    if k == 0 then []
    else
      var prev := ComponentsUpTo(g, k - 1);
      if g.nodes[k - 1] in Covered(prev) then prev else prev + [Component(g, g.nodes[k - 1])]
  }

  /** The groups `group_files_by_dependencies` returns, by definition. */
  ghost function Components(g: DepGraph): seq<set<string>> {
    ComponentsUpTo(g, |g.nodes|)
  }

  // Paths and components.

  lemma {:induction false} ReachesItself(g: DepGraph, a: string)
    requires a in g.adj
    ensures Reaches(g, a, a)
  {
    assert IsPath(g, [a]);
  }

  lemma {:induction false} ReachesStep(g: DepGraph, a: string, x: string, y: string)
    requires Undirected(g) && Reaches(g, a, x) && x in g.adj && y in g.adj[x]
    ensures Reaches(g, a, y)
  {
    var p :| IsPath(g, p) && p[0] == a && p[|p| - 1] == x;
    var q := p + [y];
    assert q[|q| - 2] == x;
    assert IsPath(g, q);
  }

  lemma {:induction false} ReachesBack(g: DepGraph, a: string, b: string)
    requires Undirected(g) && Reaches(g, a, b)
    ensures Reaches(g, b, a)
  {
    var p :| IsPath(g, p) && p[0] == a && p[|p| - 1] == b;
    var r := Reversed(g, p);
    assert r[0] == b && r[|r| - 1] == a;
  }

  /** A walk taken backwards, which the symmetry of the edges allows. */
  function Reversed(g: DepGraph, p: seq<string>): (r: seq<string>)
    requires Undirected(g) && IsPath(g, p)
    ensures IsPath(g, r) && |r| == |p|
    ensures forall k :: 0 <= k < |p| ==> r[k] == p[|p| - 1 - k]
  {
    var n := |p|;
    var r := seq(n, k requires 0 <= k < n => p[n - 1 - k]);
    assert forall k :: 0 <= k < n - 1 ==> r[k + 1] in g.adj[r[k]] by {
      forall k | 0 <= k < n - 1 ensures r[k + 1] in g.adj[r[k]] {
        assert r[k] == p[n - 1 - k] && r[k + 1] == p[n - 1 - (k + 1)];
        assert p[n - 1 - k] in g.adj[p[n - 1 - (k + 1)]];
      }
    }
    r
  }

  lemma {:induction false} ReachesThrough(g: DepGraph, a: string, b: string, c: string)
    requires Reaches(g, a, b) && Reaches(g, b, c)
    ensures Reaches(g, a, c)
  {
    var p :| IsPath(g, p) && p[0] == a && p[|p| - 1] == b;
    var q :| IsPath(g, q) && q[0] == b && q[|q| - 1] == c;
    var r := p + q[1..];
    forall k | 0 <= k < |r| - 1 ensures r[k + 1] in g.adj[r[k]] {
      if k < |p| - 1 {
        assert r[k] == p[k] && r[k + 1] == p[k + 1];
      } else {
        assert r[k] == q[k - |p| + 1] && r[k + 1] == q[k - |p| + 2];
      }
    }
    assert IsPath(g, r);
  }

  /** A set no edge leaves holds everything reachable from its members. */
  lemma {:induction false} ClosedHoldsReachable(g: DepGraph, s: set<string>, a: string, b: string)
    requires ClosedSet(g, s) && a in s && Reaches(g, a, b)
    ensures b in s
  {
    var p :| IsPath(g, p) && p[0] == a && p[|p| - 1] == b;
    var k := 0;
    while k < |p| - 1
      invariant 0 <= k < |p| && p[k] in s
    {
      assert p[k + 1] in g.adj[p[k]];
      k := k + 1;
    }
  }

  lemma {:induction false} ComponentHoldsSeed(g: DepGraph, s: string)
    requires s in g.adj
    ensures s in Component(g, s)
  {
    ReachesItself(g, s);
  }

  /** No edge leaves a component. */
  lemma {:induction false} ComponentIsClosed(g: DepGraph, s: string)
    requires Undirected(g)
    ensures ClosedSet(g, Component(g, s))
  {
    forall x, y | x in Component(g, s) && y in g.adj[x] ensures y in Component(g, s) {
      ReachesStep(g, s, x, y);
    }
  }

  /** Every member of a component has that same component. */
  lemma {:induction false} ComponentOfMember(g: DepGraph, s: string, x: string)
    requires Undirected(g) && x in Component(g, s)
    ensures Component(g, x) == Component(g, s)
  {
    ReachesBack(g, s, x);
    forall y | y in Component(g, x) ensures y in Component(g, s) {
      ReachesThrough(g, s, x, y);
    }
    forall y | y in Component(g, s) ensures y in Component(g, x) {
      ReachesThrough(g, x, s, y);
    }
  }

  /** A node without neighbours is alone in its component. */
  lemma {:induction false} IsolatedComponent(g: DepGraph, x: string)
    requires x in g.adj && g.adj[x] == {}
    ensures Component(g, x) == {x}
  {
    ComponentHoldsSeed(g, x);
    forall y | y in Component(g, x) ensures y == x {
      var p :| IsPath(g, p) && p[0] == x && p[|p| - 1] == y;
      PathLeavesStart(g, p);
      assert |p| == 1;
    }
  }

  lemma {:induction false} PathLeavesStart(g: DepGraph, p: seq<string>)
    requires IsPath(g, p)
    ensures |p| > 1 ==> p[1] in g.adj[p[0]]
  {
    if |p| > 1 {
      assert p[0 + 1] in g.adj[p[0]];
    }
  }

  // The breadth-first search.

  /**
   The state of the `while queue` loop for one seed: `visited` is the earlier
   groups plus this one, every queued node and every node of the group is
   reachable from the seed, and each neighbour of the group is visited or
   queued.
   */
  ghost predicate Searching(g: DepGraph, seed: string, visited0: set<string>, group: set<string>, visited: set<string>, queue: seq<string>) {
    && visited == visited0 + group && visited <= g.adj.Keys
    && group !! visited0 && seed !in visited0
    && (forall x :: x in queue ==> x in g.adj && Reaches(g, seed, x))
    && (forall x :: x in group ==> Reaches(g, seed, x))
    && (forall x, y :: x in group && y in g.adj[x] ==> y in visited || y in queue)
    && (seed in group || queue == [seed])
  }

  /**
   The `while queue` loop for one seed: `visited0` holds the earlier groups,
   and the nodes the search adds to `visited` are exactly the seed's
   component.
   */
  method Explore(g: DepGraph, seed: string, visited0: set<string>) returns (group: set<string>)
    requires Undirected(g) && seed in g.adj && seed !in visited0
    requires ClosedSet(g, visited0)
    ensures group == Component(g, seed)
  {
    group := {};
    var visited := visited0;
    var queue := [seed];
    StartSearching(g, seed, visited0);
    while queue != []
      invariant Searching(g, seed, visited0, group, visited, queue)
      decreases |g.adj.Keys - visited|, |queue|
    {
      var current := queue[0];
      if current in visited {
        SkipKeepsSearching(g, seed, visited0, group, visited, queue);
        queue := queue[1..];
        continue;
      }
      assert g.adj.Keys - (visited + {current}) < g.adj.Keys - visited;
      var next := SetToSeq(g.adj[current] - (visited + {current}));
      VisitKeepsSearching(g, seed, visited0, group, visited, queue, next);
      visited := visited + {current};
      group := group + {current};
      queue := queue[1..] + next;
    }
    ExploredIsComponent(g, seed, visited0, group, visited);
  }

  /** The search starts with the seed alone in the queue. */
  lemma {:induction false} StartSearching(g: DepGraph, seed: string, visited0: set<string>)
    requires seed in g.adj && seed !in visited0 && ClosedSet(g, visited0)
    ensures Searching(g, seed, visited0, {}, visited0, [seed])
  {
    ReachesItself(g, seed);
  }

  /** `if current in visited: continue`. */
  lemma {:induction false} SkipKeepsSearching(g: DepGraph, seed: string, visited0: set<string>, group: set<string>, visited: set<string>, queue: seq<string>)
    requires Searching(g, seed, visited0, group, visited, queue)
    requires queue != [] && queue[0] in visited
    ensures Searching(g, seed, visited0, group, visited, queue[1..])
  {
    assert queue == [queue[0]] + queue[1..];
  }

  /** Visiting `current` and queueing its unvisited neighbours. */
  lemma {:induction false} VisitKeepsSearching(g: DepGraph, seed: string, visited0: set<string>, group: set<string>, visited: set<string>, queue: seq<string>, next: seq<string>)
    requires Undirected(g) && Searching(g, seed, visited0, group, visited, queue)
    requires queue != [] && queue[0] !in visited
    requires forall y :: y in next <==> y in g.adj[queue[0]] - (visited + {queue[0]})
    ensures Searching(g, seed, visited0, group + {queue[0]}, visited + {queue[0]}, queue[1..] + next)
  {
    var current := queue[0];
    var queue' := queue[1..] + next;
    assert queue == [current] + queue[1..];
    forall y | y in next ensures y in g.adj && Reaches(g, seed, y) {
      ReachesStep(g, seed, current, y);
    }
    assert forall x :: x in queue' ==> x in g.adj && Reaches(g, seed, x) by {
      forall x | x in queue' ensures x in g.adj && Reaches(g, seed, x) {
        if x !in next {
          assert x in queue[1..];
        }
      }
    }
    assert forall x, y :: x in group + {current} && y in g.adj[x] ==> y in visited + {current} || y in queue' by {
      forall x, y | x in group + {current} && y in g.adj[x] ensures y in visited + {current} || y in queue' {
        if x in group && y !in visited && y != current {
          assert y in queue[1..];
        }
      }
    }
  }

  /** Once the queue is empty, the group is the seed's component. */
  lemma {:induction false} ExploredIsComponent(g: DepGraph, seed: string, visited0: set<string>, group: set<string>, visited: set<string>)
    requires Undirected(g) && ClosedSet(g, visited0)
    requires Searching(g, seed, visited0, group, visited, [])
    ensures group == Component(g, seed)
  {
    assert ClosedSet(g, group) by {
      forall x, y | x in group && y in g.adj[x] ensures y in group {
        assert y in visited0 + group;
        if y in visited0 {
          assert false;
        }
      }
    }
    forall y | y in Component(g, seed) ensures y in group {
      ClosedHoldsReachable(g, group, seed, y);
    }
  }

  /**
   `group_files_by_dependencies` after the graph is built: the groups, in
   the order their seeds come in the graph's key order.
   */
  method GroupFiles(g: DepGraph) returns (groups: seq<set<string>>)
    requires WellFormed(g)
    ensures groups == Components(g)
  {
    groups := [];
    var visited: set<string> := {};
    var i := 0;
    while i < |g.nodes|
      invariant i <= |g.nodes|
      invariant groups == ComponentsUpTo(g, i)
      invariant visited == Covered(groups)
    {
      var node := g.nodes[i];
      if node !in visited {
        CoveredIsClosedWhenWellFormed(g, i);
        assert node in g.adj;
        var group := Explore(g, node, visited);
        CoveredSnoc(groups, group);
        groups := groups + [group];
        visited := visited + group;
      }
      assert groups == ComponentsUpTo(g, i + 1);
      i := i + 1;
    }
  }

  // Facts about the reference definition.

  /** Every listed node has an adjacency entry. */
  ghost predicate NodesInAdj(g: DepGraph) {
    forall m :: 0 <= m < |g.nodes| ==> g.nodes[m] in g.adj
  }

  lemma {:induction false} WellFormedNodesInAdj(g: DepGraph)
    requires WellFormed(g)
    ensures NodesInAdj(g) && Undirected(g)
  {
    forall m | 0 <= m < |g.nodes| ensures g.nodes[m] in g.adj {
      assert g.nodes[m] in g.nodes;
    }
  }

  /** The groups so far cover the nodes seen so far, and no edge leaves them. */
  lemma {:induction false} CoveredIsClosed(g: DepGraph, k: nat)
    requires Undirected(g) && NodesInAdj(g) && k <= |g.nodes|
    ensures ClosedSet(g, Covered(ComponentsUpTo(g, k)))
    ensures forall m :: 0 <= m < k ==> g.nodes[m] in Covered(ComponentsUpTo(g, k))
    decreases k
  {
    if k > 0 {
      CoveredIsClosed(g, k - 1);
      var prev := ComponentsUpTo(g, k - 1);
      var s := g.nodes[k - 1];
      if s in Covered(prev) {
        assert ComponentsUpTo(g, k) == prev;
      } else {
        assert ComponentsUpTo(g, k) == prev + [Component(g, s)];
        CoveredGrows(g, prev, s);
      }
    }
  }

  /** Adding the component of a node keeps the covered set closed and covers the node. */
  lemma {:induction false} CoveredGrows(g: DepGraph, prev: seq<set<string>>, s: string)
    requires Undirected(g) && s in g.adj
    requires ClosedSet(g, Covered(prev))
    ensures ClosedSet(g, Covered(prev + [Component(g, s)]))
    ensures Covered(prev) <= Covered(prev + [Component(g, s)])
    ensures s in Covered(prev + [Component(g, s)])
  {
    var c := Component(g, s);
    CoveredSnoc(prev, c);
    ComponentHoldsSeed(g, s);
    ComponentIsClosed(g, s);
    ClosedUnion(g, Covered(prev), c);
  }

  lemma {:induction false} CoveredIsClosedWhenWellFormed(g: DepGraph, k: nat)
    requires WellFormed(g) && k <= |g.nodes|
    ensures ClosedSet(g, Covered(ComponentsUpTo(g, k)))
    ensures forall m :: 0 <= m < k ==> g.nodes[m] in Covered(ComponentsUpTo(g, k))
  {
    WellFormedNodesInAdj(g);
    CoveredIsClosed(g, k);
  }

  lemma {:induction false} CoveredSnoc(groups: seq<set<string>>, c: set<string>)
    ensures Covered(groups + [c]) == Covered(groups) + c
  {
    assert (groups + [c])[..|groups|] == groups;
  }

  lemma {:induction false} ClosedUnion(g: DepGraph, a: set<string>, b: set<string>)
    requires ClosedSet(g, a) && ClosedSet(g, b)
    ensures ClosedSet(g, a + b)
  {
  }

  /**
   Group `i` is the component of the first node, in key order, that the
   groups before it do not hold.
   */
  lemma {:induction false} SeedIsFirstUncovered(g: DepGraph, k: nat, i: nat)
    requires WellFormed(g) && k <= |g.nodes| && i < |ComponentsUpTo(g, k)|
    ensures FirstOutside(g.nodes, Covered(ComponentsUpTo(g, k)[..i])).Some?
    ensures FirstOutside(g.nodes, Covered(ComponentsUpTo(g, k)[..i])).value < k
    ensures ComponentsUpTo(g, k)[i] ==
      Component(g, g.nodes[FirstOutside(g.nodes, Covered(ComponentsUpTo(g, k)[..i])).value])
    decreases k
  {
    var prev := ComponentsUpTo(g, k - 1);
    var s := g.nodes[k - 1];
    var cur := ComponentsUpTo(g, k);
    if s in Covered(prev) || i < |prev| {
      assert cur[..i] == prev[..i] && cur[i] == prev[i];
      SeedIsFirstUncovered(g, k - 1, i);
    } else {
      assert cur == prev + [Component(g, s)];
      assert cur[..i] == prev && cur[i] == Component(g, s);
      CoveredIsClosedWhenWellFormed(g, k - 1);
      FirstOutsideIs(g.nodes, Covered(prev), k - 1);
    }
  }

  /** `FirstOutside` is pinned down by the first element outside the set. */
  lemma {:induction false} FirstOutsideIs(xs: seq<string>, s: set<string>, m: nat)
    requires m < |xs| && xs[m] !in s
    requires forall j :: 0 <= j < m ==> xs[j] in s
    ensures FirstOutside(xs, s) == Some(m)
  {
  }

  /** A node is in some group exactly when some group holds it. */
  lemma {:induction false} CoveredMeansSomeGroup(groups: seq<set<string>>, x: string)
    ensures x in Covered(groups) <==> exists i :: 0 <= i < |groups| && x in groups[i]
    decreases |groups|
  {
    if groups != [] {
      var init := groups[..|groups| - 1];
      CoveredMeansSomeGroup(init, x);
      if x in Covered(init) {
        var i :| 0 <= i < |init| && x in init[i];
        assert groups[i] == init[i];
      }
    }
  }

  /** The groups together hold exactly the nodes of the graph. */
  lemma {:induction false} GroupsCoverNodes(g: DepGraph)
    requires WellFormed(g)
    ensures Covered(Components(g)) == g.adj.Keys
  {
    CoveredIsClosedWhenWellFormed(g, |g.nodes|);
    forall x | x in g.adj ensures x in Covered(Components(g)) {
      var m :| 0 <= m < |g.nodes| && g.nodes[m] == x;
    }
  }

  /** Each group is the component of a node. */
  lemma {:induction false} GroupIsComponent(g: DepGraph, i: nat)
    requires WellFormed(g) && i < |Components(g)|
    ensures FirstOutside(g.nodes, Covered(Components(g)[..i])).Some?
    ensures Components(g)[i] == Component(g, g.nodes[FirstOutside(g.nodes, Covered(Components(g)[..i])).value])
  {
    SeedIsFirstUncovered(g, |g.nodes|, i);
  }

  /** No node lies in two groups. */
  lemma {:induction false} GroupsDisjoint(g: DepGraph, i: nat, j: nat)
    requires WellFormed(g) && i < j < |Components(g)|
    ensures Components(g)[i] !! Components(g)[j]
  {
    var groups := Components(g);
    GroupIsComponent(g, i);
    GroupIsComponent(g, j);
    var si := g.nodes[FirstOutside(g.nodes, Covered(groups[..i])).value];
    var sj := g.nodes[FirstOutside(g.nodes, Covered(groups[..j])).value];
    assert groups[..j][i] == groups[i];
    assert groups[i] <= Covered(groups[..j]);
    assert sj in g.adj;
    ComponentHoldsSeed(g, sj);
    if x :| x in groups[i] && x in groups[j] {
      ComponentOfMember(g, si, x);
      ComponentOfMember(g, sj, x);
      assert false;
    }
  }

  /** The two files of a dependency edge land in the same group. */
  lemma {:induction false} EdgeStaysInGroup(g: DepGraph, i: nat, a: string, b: string)
    requires WellFormed(g) && i < |Components(g)|
    requires a in Components(g)[i] && a in g.adj && b in g.adj[a]
    ensures b in Components(g)[i]
  {
    GroupIsComponent(g, i);
    ComponentIsClosed(g, g.nodes[FirstOutside(g.nodes, Covered(Components(g)[..i])).value]);
  }

  /** A file with no dependency edge forms a group on its own. */
  lemma {:induction false} IsolatedFileIsAlone(g: DepGraph, i: nat, x: string)
    requires WellFormed(g) && i < |Components(g)|
    requires x in Components(g)[i] && x in g.adj && g.adj[x] == {}
    ensures Components(g)[i] == {x}
  {
    GroupIsComponent(g, i);
    var s := g.nodes[FirstOutside(g.nodes, Covered(Components(g)[..i])).value];
    ComponentOfMember(g, s, x);
    IsolatedComponent(g, x);
  }

  /** Every node of the graph lies in exactly one group. */
  lemma {:induction false} GroupsPartitionNodes(g: DepGraph, x: string)
    requires WellFormed(g) && x in g.adj
    ensures exists i :: 0 <= i < |Components(g)| && x in Components(g)[i]
    ensures forall i, j :: 0 <= i < |Components(g)| && 0 <= j < |Components(g)| &&
              x in Components(g)[i] && x in Components(g)[j]
              ==> i == j
  {
    GroupsCoverNodes(g);
    CoveredMeansSomeGroup(Components(g), x);
    forall i, j | 0 <= i < |Components(g)| && 0 <= j < |Components(g)| && x in Components(g)[i] && x in Components(g)[j]
      ensures i == j
    {
      if i < j {
        GroupsDisjoint(g, i, j);
      } else if j < i {
        GroupsDisjoint(g, j, i);
      }
    }
  }
}
