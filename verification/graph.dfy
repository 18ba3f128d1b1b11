/**
 `_build_dependency_graph`: every collected file becomes a node, in the
 order the dictionary first sees it, and each dependency token that resolves
 to a collected file adds an edge in both directions.

 The repository is given by its walk, the set of paths that are files on
 disk, a `read` oracle for file contents and the `package.json` oracle.
 */
module Graph {
  import opened Wrappers
  import opened Paths
  import opened Languages
  import opened Extract
  import opened Collect
  import opened Resolve

  /** What the analyzer can observe of the repository. */
  datatype Repo = Repo(
    walk: seq<string>,                 // the files `os.walk` yields, relative to the root, in walk order
    onDisk: set<string>,               // the paths for which `os.path.isfile` holds
    read: string -> Option<string>,    // `open(path).read()`, `None` when it raises
    packageJson: string -> PackageJson,
    findAll: FindAll)

  /** The graph: its keys in dictionary order and the neighbour sets. */
  datatype DepGraph = DepGraph(nodes: seq<string>, adj: map<string, set<string>>)

  predicate Distinct(xs: seq<string>) {
    forall i, j :: 0 <= i < j < |xs| ==> xs[i] != xs[j]
  }

  /** `nodes` lists the keys of `adj`, each once. */
  ghost predicate NodesMatch(g: DepGraph) {
    Distinct(g.nodes) && forall x :: x in g.nodes <==> x in g.adj
  }

  /** The collected files in the order `_build_dependency_graph` visits them. */
  function Files(repo: Repo): seq<string> {
    FileOrder(repo.walk)
  }

  /** The keys of `file_map`. */
  function FileSet(repo: Repo): set<string> {
    set f | f in Files(repo)
  }

  /** The raw dependency tokens of a file; a file that cannot be read contributes none. */
  function DepsOf(repo: Repo, f: string): set<string> {
    match repo.read(f)
    case None => {}
    case Some(content) => Dependencies(ExtensionKey(f), content, repo.findAll)
  }

  /** Where the token `dep` of `f` leads: the relative resolved path, when it is a collected file. */
  function Link(repo: Repo, f: string, dep: string): (r: Option<string>)
    ensures r.Some? ==> r.value in FileSet(repo)
  {
    match ResolveDependency(f, dep, repo.onDisk, repo.packageJson)
    case None => None
    case Some(path) => if NormPath(path) in FileSet(repo) then Some(NormPath(path)) else None
  }

  /**
   Only the first candidate on disk counts: when it is not a collected file
   the token adds no edge, even if a later candidate is one.
   */
  lemma {:induction false} FirstCandidateShadows(repo: Repo, f: string, dep: string, i: nat)
    requires FirstOn(CandidatePaths(DirName(f), dep, TableExtensions()), repo.onDisk, i)
    requires NormPath(CandidatePaths(DirName(f), dep, TableExtensions())[i]) !in FileSet(repo)
    ensures Link(repo, f, dep).None?
  {
    FirstCandidateDecides(f, dep, repo.onDisk, repo.packageJson, i);
  }

  /** The files `f` itself adds edges to. */
  function Targets(repo: Repo, f: string): (ts: set<string>)
    ensures ts <= FileSet(repo)
  {
    set dep | dep in DepsOf(repo, f) && Link(repo, f, dep).Some? :: Link(repo, f, dep).value
  }

  /** The two endpoints of an edge: one of them names the other through a dependency. */
  predicate Adjacent(repo: Repo, a: string, b: string) {
    (a in FileSet(repo) && b in Targets(repo, a)) || (b in FileSet(repo) && a in Targets(repo, b))
  }

  // The construction itself only needs each file's tokens and where a token
  // leads; the definitions below are stated over those two functions.

  /** Every neighbour is a key, and each edge is recorded at both of its endpoints. */
  ghost predicate Undirected(g: DepGraph) {
    forall a, b :: a in g.adj && b in g.adj[a] ==> b in g.adj && a in g.adj[b]
  }

  /** Adjacency as the analyzer defines it is symmetric and stays among the collected files. */
  lemma {:induction false} AdjacencyIsUndirected(repo: Repo, g: DepGraph)
    requires g.adj.Keys == FileSet(repo)
    requires forall a, b :: a in g.adj ==> (b in g.adj[a] <==> Adjacent(repo, a, b))
    ensures Undirected(g)
  {
    forall a, b | a in g.adj && b in g.adj[a] ensures b in g.adj && a in g.adj[b] {
      assert Adjacent(repo, a, b);
      assert b in FileSet(repo) by {
        if a in FileSet(repo) && b in Targets(repo, a) {
          assert Targets(repo, a) <= FileSet(repo);
        }
      }
      assert Adjacent(repo, b, a);
    }
  }

  /** The files some token among `deps` of `f` leads to. */
  function Linked(link: (string, string) -> Option<string>, f: string, deps: seq<string>): set<string> {
    set dep | dep in deps && link(f, dep).Some? :: link(f, dep).value
  }

  /** The files `f` adds edges to, given its tokens and where each leads. */
  function TargetsBy(tokens: string -> set<string>, link: (string, string) -> Option<string>, f: string): set<string> {
    set dep | dep in tokens(f) && link(f, dep).Some? :: link(f, dep).value
  }

  /** The files among `done` that add an edge to `a`. */
  function Incoming(targets: string -> set<string>, a: string, done: seq<string>): set<string> {
    set b | b in done && a in targets(b)
  }

  /** The neighbours of `a` once the files of `done` have been visited. */
  function Within(targets: string -> set<string>, a: string, done: seq<string>): set<string> {
    (if a in done then targets(a) else {}) + Incoming(targets, a, done)
  }

  /** The keys of the graph once the files of `done` have been visited, the targets lying in `universe`. */
  function Reached(targets: string -> set<string>, universe: set<string>, done: seq<string>): set<string> {
    set x | x in universe && (x in done || Incoming(targets, x, done) != {})
  }

  /** The neighbours of `a` after the files of `done`, and then `f` with the edges to `ts`. */
  function Step(targets: string -> set<string>, a: string, done: seq<string>, f: string, ts: set<string>): set<string> {
    Within(targets, a, done) + (if a == f then ts else {}) + (if a in ts then {f} else {})
  }

  /** `graph[x]` of a `defaultdict(set)`: a missing key is inserted, at the end, with no neighbours. */
  function Touch(g: DepGraph, x: string): (r: DepGraph)
    requires NodesMatch(g)
    ensures NodesMatch(r) && x in r.adj
    ensures r.adj.Keys == g.adj.Keys + {x}
    ensures forall a :: a in g.adj ==> r.adj[a] == g.adj[a]
    ensures x !in g.adj ==> r.adj[x] == {}
    ensures x in g.adj ==> r == g
    ensures x !in g.adj ==> r.nodes == g.nodes + [x]
  {
    if x in g.adj then g else DepGraph(g.nodes + [x], g.adj[x := {}])
  }

  /** `graph[a].add(b)` for a key `a`. */
  function AddNeighbour(g: DepGraph, a: string, b: string): (r: DepGraph)
    requires NodesMatch(g) && a in g.adj
    ensures NodesMatch(r) && r.nodes == g.nodes
    ensures r.adj.Keys == g.adj.Keys
    ensures r.adj[a] == g.adj[a] + {b}
    ensures forall x :: x in g.adj && x != a ==> r.adj[x] == g.adj[x]
  {
    DepGraph(g.nodes, g.adj[a := g.adj[a] + {b}])
  }

  /** The elements of a finite set in some order; Python's set iteration order is not modelled. */
  method SetToSeq(s: set<string>) returns (xs: seq<string>)
    ensures forall x :: x in xs <==> x in s
  {
    xs := [];
    var rest := s;
    while rest != {}
      invariant rest <= s
      invariant forall x :: x in xs <==> x in s - rest
      decreases |rest|
    {
      var x :| x in rest;
      xs := xs + [x];
      rest := rest - {x};
    }
  }

  /** Both `graph[f].add(t)` and `graph[t].add(f)`, creating the key `t` when it is new. */
  function AddEdge(g: DepGraph, f: string, t: string): (r: DepGraph)
    requires NodesMatch(g) && f in g.adj
    ensures NodesMatch(r) && f in r.adj
    ensures r.adj.Keys == g.adj.Keys + {t}
    ensures t in g.adj ==> r.nodes == g.nodes
    ensures t !in g.adj ==> r.nodes == g.nodes + [t]
  {
    AddNeighbour(Touch(AddNeighbour(g, f, t), t), t, f)
  }

  /** The edge between `f` and `t` is added to both neighbour sets and to nothing else. */
  lemma {:induction false} AddEdgeNeighbours(g: DepGraph, f: string, t: string)
    requires NodesMatch(g) && f in g.adj
    ensures forall a :: a in g.adj ==> AddEdge(g, f, t).adj[a] == g.adj[a] + (if a == f then {t} else {}) + (if a == t then {f} else {})
    ensures t !in g.adj ==> AddEdge(g, f, t).adj[t] == {f}
  {
    var g1 := AddNeighbour(g, f, t);
    var g2 := Touch(g1, t);
    assert forall a :: a in g.adj ==> g2.adj[a] == g.adj[a] + (if a == f then {t} else {});
  }

  /**
   The step of the outer loop at which `x` first becomes a key: the least `k`
   such that `x` is the file `files[k]` itself or a file it links to, and
   `|files|` when there is none.
   */
  function FirstSeen(files: seq<string>, targets: string -> set<string>, x: string): (k: nat)
    ensures k <= |files| && (x in files ==> k < |files|)
    ensures k < |files| ==> x == files[k] || x in targets(files[k])
    ensures forall j :: 0 <= j < k ==> x != files[j] && x !in targets(files[j])
    decreases |files|
  {
    if files == [] then 0
    else if x == files[0] || x in targets(files[0]) then 0
    else 1 + FirstSeen(files[1..], targets, x)
  }

  /**
   The keys come in the order the loop first meets them. Keys first met at
   the same step are the visited file, which comes first, and the files it
   links to, in the unmodelled set order.
   */
  ghost predicate InSeenOrder(nodes: seq<string>, files: seq<string>, targets: string -> set<string>) {
    && (forall p, q :: 0 <= p < q < |nodes| ==> FirstSeen(files, targets, nodes[p]) <= FirstSeen(files, targets, nodes[q]))
    && (forall p, q :: 0 <= p < q < |nodes| && FirstSeen(files, targets, nodes[p]) < |files| ==> nodes[q] != files[FirstSeen(files, targets, nodes[p])])
  }

  /** Every key was met before step `n`. */
  ghost predicate SeenBefore(nodes: seq<string>, files: seq<string>, targets: string -> set<string>, n: nat) {
    forall p :: 0 <= p < |nodes| ==> FirstSeen(files, targets, nodes[p]) < n
  }

  /** The keys after the first `i` files are exactly those met before step `i`. */
  lemma {:induction false} ReachedIsSeen(targets: string -> set<string>, universe: set<string>, files: seq<string>, i: nat, x: string)
    requires i <= |files| && x in universe
    ensures x in Reached(targets, universe, files[..i]) <==> FirstSeen(files, targets, x) < i
  {
    var k := FirstSeen(files, targets, x);
    if k < i {
      assert files[..i][k] == files[k];
      if x != files[k] {
        assert files[k] in Incoming(targets, x, files[..i]);
      }
    }
    if x in Reached(targets, universe, files[..i]) {
      if x in files[..i] {
        var j :| 0 <= j < i && files[..i][j] == x;
        assert files[j] == x;
      } else {
        var b :| b in Incoming(targets, x, files[..i]);
        var j :| 0 <= j < i && files[..i][j] == b;
        assert x in targets(files[j]);
      }
    }
  }

  /** A file visited at step `k` is met at step `k` or earlier. */
  lemma {:induction false} SeenNoLaterThan(files: seq<string>, targets: string -> set<string>, x: string, k: nat)
    requires k < |files|
    ensures x == files[k] ==> FirstSeen(files, targets, x) <= k
  {
  }

  /** A key met at step `i`, after every earlier key, keeps the order. */
  lemma {:induction false} AppendSeen(nodes: seq<string>, files: seq<string>, targets: string -> set<string>, i: nat, x: string)
    requires i < |files|
    requires InSeenOrder(nodes, files, targets) && SeenBefore(nodes, files, targets, i + 1)
    requires FirstSeen(files, targets, x) == i
    requires x == files[i] ==> SeenBefore(nodes, files, targets, i)
    ensures InSeenOrder(nodes + [x], files, targets) && SeenBefore(nodes + [x], files, targets, i + 1)
  {
    var r := nodes + [x];
    forall p, q | 0 <= p < q < |r| && FirstSeen(files, targets, r[p]) < |files|
      ensures r[q] != files[FirstSeen(files, targets, r[p])]
    {
      if q == |nodes| {
        assert r[p] == nodes[p];
        SeenNoLaterThan(files, targets, x, FirstSeen(files, targets, nodes[p]));
      } else {
        assert r[p] == nodes[p] && r[q] == nodes[q];
      }
    }
    forall p, q | 0 <= p < q < |r|
      ensures FirstSeen(files, targets, r[p]) <= FirstSeen(files, targets, r[q])
    {
      assert r[p] == nodes[p];
      if q < |nodes| {
        assert r[q] == nodes[q];
      }
    }
  }

  /** The order does not depend on how the targets are computed, only on what they are. */
  lemma {:induction false} FirstSeenSameTargets(files: seq<string>, t1: string -> set<string>, t2: string -> set<string>, x: string)
    requires forall f :: t1(f) == t2(f)
    ensures FirstSeen(files, t1, x) == FirstSeen(files, t2, x)
  {
    var k1 := FirstSeen(files, t1, x);
    var k2 := FirstSeen(files, t2, x);
    assert k1 < |files| ==> x == files[k1] || x in t2(files[k1]);
    assert k2 < |files| ==> x == files[k2] || x in t1(files[k2]);
  }

  /**
   The graph in the middle of visiting `f`, after the files of `done`: the
   keys are those reached so far, `f` and the files `ts` it has linked so
   far; the neighbours are those found so far plus the new edges.
   */
  ghost predicate Partial(g: DepGraph, targets: string -> set<string>, universe: set<string>, done: seq<string>, f: string, ts: set<string>) {
    && g.adj.Keys == Reached(targets, universe, done) + {f} + ts
    && forall a :: a in g.adj ==> g.adj[a] == Step(targets, a, done, f, ts)
  }

  lemma {:induction false} AddEdgeKeepsPartial(g: DepGraph, targets: string -> set<string>, universe: set<string>, done: seq<string>, f: string, ts: set<string>, t: string)
    requires NodesMatch(g) && Partial(g, targets, universe, done, f, ts)
    requires t in universe
    ensures Partial(AddEdge(g, f, t), targets, universe, done, f, ts + {t})
  {
    var r := AddEdge(g, f, t);
    assert r.adj.Keys == Reached(targets, universe, done) + {f} + (ts + {t});
    assert forall a :: a in r.adj ==> r.adj[a] == Step(targets, a, done, f, ts + {t}) by {
      forall a | a in r.adj
        ensures r.adj[a] == Step(targets, a, done, f, ts + {t})
      {
        if a in g.adj {
          AddEdgeOldKey(g, targets, universe, done, f, ts, t, a);
        } else {
          AddEdgeNewKey(g, targets, universe, done, f, ts, t);
        }
      }
    }
  }

  lemma {:induction false} AddEdgeOldKey(g: DepGraph, targets: string -> set<string>, universe: set<string>, done: seq<string>, f: string, ts: set<string>, t: string, a: string)
    requires NodesMatch(g) && Partial(g, targets, universe, done, f, ts) && a in g.adj
    ensures AddEdge(g, f, t).adj[a] == Step(targets, a, done, f, ts + {t})
  {
    StepAdd(targets, a, done, f, ts, t);
    AddEdgeNeighbours(g, f, t);
  }

  lemma {:induction false} AddEdgeNewKey(g: DepGraph, targets: string -> set<string>, universe: set<string>, done: seq<string>, f: string, ts: set<string>, t: string)
    requires NodesMatch(g) && Partial(g, targets, universe, done, f, ts)
    requires t in universe && t !in g.adj
    ensures AddEdge(g, f, t).adj[t] == Step(targets, t, done, f, ts + {t})
  {
    OutsideReachedIsAlone(targets, universe, done, t);
    AddEdgeNeighbours(g, f, t);
  }

  lemma {:induction false} StepAdd(targets: string -> set<string>, a: string, done: seq<string>, f: string, ts: set<string>, t: string)
    ensures Step(targets, a, done, f, ts + {t}) ==
      Step(targets, a, done, f, ts) + (if a == f then {t} else {}) + (if a == t then {f} else {})
  {
  }

  /** A file not yet among the keys has no neighbours yet. */
  lemma {:induction false} OutsideReachedIsAlone(targets: string -> set<string>, universe: set<string>, done: seq<string>, x: string)
    requires x in universe && x !in Reached(targets, universe, done)
    ensures Within(targets, x, done) == {}
  {
  }

  /** The graph once the files of `done` have been visited. */
  ghost predicate Visited(g: DepGraph, targets: string -> set<string>, universe: set<string>, done: seq<string>) {
    && g.adj.Keys == Reached(targets, universe, done)
    && forall a :: a in g.adj ==> g.adj[a] == Within(targets, a, done)
  }

  /** Visiting the next file starts from the neighbours found so far. */
  lemma {:induction false} StartFile(g: DepGraph, targets: string -> set<string>, universe: set<string>, files: seq<string>, i: nat)
    requires NodesMatch(g) && i < |files| && files[i] in universe
    requires Visited(g, targets, universe, files[..i])
    ensures Partial(Touch(g, files[i]), targets, universe, files[..i], files[i], {})
  {
    if files[i] !in g.adj {
      OutsideReachedIsAlone(targets, universe, files[..i], files[i]);
    }
  }

  /** Once all of its edges are in, the file counts as visited. */
  lemma {:induction false} FinishFile(g: DepGraph, targets: string -> set<string>, universe: set<string>, files: seq<string>, i: nat,
                                      tokens: string -> set<string>, link: (string, string) -> Option<string>, deps: seq<string>)
    requires i < |files| && universe == set x | x in files
    requires forall f, dep :: link(f, dep).Some? ==> link(f, dep).value in files
    requires forall d :: d in deps <==> d in tokens(files[i])
    requires targets(files[i]) == TargetsBy(tokens, link, files[i])
    requires Partial(g, targets, universe, files[..i], files[i], Linked(link, files[i], deps[..|deps|]))
    ensures Visited(g, targets, universe, files[..i + 1])
  {
    LinkedAll(tokens, link, files[i], deps);
    TargetsInFiles(tokens, link, files, files[i]);
    WithinSnoc(targets, files, i);
    ReachedSnoc(targets, universe, files, i);
  }

  /** The inner loop's body: the edge for one token, when it leads to a collected file. */
  function NextEdge(g: DepGraph, link: (string, string) -> Option<string>, f: string, dep: string): (r: DepGraph)
    requires NodesMatch(g) && f in g.adj
    ensures NodesMatch(r) && f in r.adj
    ensures r.nodes == g.nodes || (link(f, dep).Some? && link(f, dep).value !in g.adj && r.nodes == g.nodes + [link(f, dep).value])
  {
    match link(f, dep)
    case None => g
    case Some(t) => AddEdge(g, f, t)
  }

  lemma {:induction false} EdgeStep(g: DepGraph, targets: string -> set<string>, universe: set<string>, done: seq<string>,
                                    link: (string, string) -> Option<string>, f: string, deps: seq<string>, j: nat)
    requires NodesMatch(g) && f in g.adj && j < |deps|
    requires link(f, deps[j]).Some? ==> link(f, deps[j]).value in universe
    requires Partial(g, targets, universe, done, f, Linked(link, f, deps[..j]))
    ensures Partial(NextEdge(g, link, f, deps[j]), targets, universe, done, f, Linked(link, f, deps[..j + 1]))
  {
    LinkedSnoc(link, f, deps, j);
    if link(f, deps[j]).Some? {
      AddEdgeKeepsPartial(g, targets, universe, done, f, Linked(link, f, deps[..j]), link(f, deps[j]).value);
    }
  }

  /**
   The loop of `_build_dependency_graph` over the files in visiting order,
   each with its dependency tokens and where each token leads.
   */
  method BuildGraphOver(files: seq<string>, tokens: string -> set<string>, link: (string, string) -> Option<string>)
    returns (g: DepGraph)
    requires forall f, dep :: link(f, dep).Some? ==> link(f, dep).value in files
    ensures NodesMatch(g)
    ensures g.adj.Keys == set f | f in files
    ensures forall a :: a in g.adj ==> g.adj[a] == Within(f => TargetsBy(tokens, link, f), a, files)
    ensures InSeenOrder(g.nodes, files, f => TargetsBy(tokens, link, f))
    ensures files != [] ==> g.nodes != [] && g.nodes[0] == files[0]
  {
    ghost var targets := f => TargetsBy(tokens, link, f);
    ghost var universe := set f | f in files;
    g := DepGraph([], map[]);
    ReachedNothing(targets, universe);
    var i := 0;
    while i < |files|
      invariant i <= |files|
      invariant NodesMatch(g)
      invariant Visited(g, targets, universe, files[..i])
      invariant InSeenOrder(g.nodes, files, targets) && SeenBefore(g.nodes, files, targets, i)
      invariant i == 0 ==> g.nodes == []
      invariant i > 0 ==> g.nodes != [] && g.nodes[0] == files[0]
    {
      g := VisitFile(g, targets, universe, files, i, tokens, link);
      i := i + 1;
    }
    assert files[..i] == files;
  }

  /** The outer loop's body: `graph[f]`, then the edges for each token of `f = files[i]`. */
  method VisitFile(g0: DepGraph, ghost targets: string -> set<string>, ghost universe: set<string>, files: seq<string>, i: nat,
                   tokens: string -> set<string>, link: (string, string) -> Option<string>)
    returns (g: DepGraph)
    requires i < |files| && universe == set f | f in files
    requires forall f, dep :: link(f, dep).Some? ==> link(f, dep).value in files
    requires forall f :: targets(f) == TargetsBy(tokens, link, f)
    requires NodesMatch(g0) && Visited(g0, targets, universe, files[..i])
    requires InSeenOrder(g0.nodes, files, targets) && SeenBefore(g0.nodes, files, targets, i)
    ensures NodesMatch(g) && Visited(g, targets, universe, files[..i + 1])
    ensures InSeenOrder(g.nodes, files, targets) && SeenBefore(g.nodes, files, targets, i + 1)
    ensures g.nodes != [] && (g0.nodes == [] ==> g.nodes[0] == files[i]) && (g0.nodes != [] ==> g.nodes[0] == g0.nodes[0])
  {
    var f := files[i];
    StartFile(g0, targets, universe, files, i);
    TouchSeen(g0, targets, universe, files, i);
    g := Touch(g0, f);
    var deps := SetToSeq(tokens(f));
    forall dep | dep in deps && link(f, dep).Some? ensures link(f, dep).value in targets(f) {
      assert dep in tokens(f);
    }
    g := AddFileEdges(g, targets, universe, files, i, link, f, deps);
    FinishFile(g, targets, universe, files, i, tokens, link, deps);
  }

  /** Visiting `files[i]` puts it after every key met before, when it is new. */
  lemma {:induction false} TouchSeen(g: DepGraph, targets: string -> set<string>, universe: set<string>, files: seq<string>, i: nat)
    requires NodesMatch(g) && i < |files| && files[i] in universe
    requires g.adj.Keys == Reached(targets, universe, files[..i])
    requires InSeenOrder(g.nodes, files, targets) && SeenBefore(g.nodes, files, targets, i)
    ensures InSeenOrder(Touch(g, files[i]).nodes, files, targets) && SeenBefore(Touch(g, files[i]).nodes, files, targets, i + 1)
  {
    if files[i] !in g.adj {
      ReachedIsSeen(targets, universe, files, i, files[i]);
      SeenNoLaterThan(files, targets, files[i], i);
      AppendSeen(g.nodes, files, targets, i, files[i]);
    }
  }

  /** The inner loop of `_build_dependency_graph`: the edges for each token of `f` in turn. */
  method AddFileEdges(g0: DepGraph, ghost targets: string -> set<string>, ghost universe: set<string>, ghost files: seq<string>, ghost i: nat,
                      link: (string, string) -> Option<string>, f: string, deps: seq<string>)
    returns (g: DepGraph)
    requires i < |files| && f == files[i] && f in universe
    requires NodesMatch(g0) && f in g0.adj
    requires forall dep :: link(f, dep).Some? ==> link(f, dep).value in universe
    requires forall dep :: dep in deps && link(f, dep).Some? ==> link(f, dep).value in targets(f)
    requires Partial(g0, targets, universe, files[..i], f, {})
    requires InSeenOrder(g0.nodes, files, targets) && SeenBefore(g0.nodes, files, targets, i + 1)
    ensures NodesMatch(g) && g.nodes != [] && g.nodes[0] == g0.nodes[0]
    ensures Partial(g, targets, universe, files[..i], f, Linked(link, f, deps[..|deps|]))
    ensures InSeenOrder(g.nodes, files, targets) && SeenBefore(g.nodes, files, targets, i + 1)
  {
    g := g0;
    var j := 0;
    assert deps[..0] == [];
    while j < |deps|
      invariant j <= |deps|
      invariant NodesMatch(g) && f in g.adj
      invariant g.nodes != [] && g.nodes[0] == g0.nodes[0]
      invariant Partial(g, targets, universe, files[..i], f, Linked(link, f, deps[..j]))
      invariant InSeenOrder(g.nodes, files, targets) && SeenBefore(g.nodes, files, targets, i + 1)
    {
      EdgeStep(g, targets, universe, files[..i], link, f, deps, j);
      EdgeSeen(g, targets, universe, files, i, link, f, deps[j], Linked(link, f, deps[..j]));
      g := NextEdge(g, link, f, deps[j]);
      j := j + 1;
    }
  }

  /** A file first linked while visiting `files[i]` goes after every key met before. */
  lemma {:induction false} EdgeSeen(g: DepGraph, targets: string -> set<string>, universe: set<string>, files: seq<string>, i: nat,
                                    link: (string, string) -> Option<string>, f: string, dep: string, ts: set<string>)
    requires i < |files| && f == files[i]
    requires NodesMatch(g) && f in g.adj
    requires link(f, dep).Some? ==> link(f, dep).value in universe && link(f, dep).value in targets(f)
    requires g.adj.Keys == Reached(targets, universe, files[..i]) + {f} + ts
    requires InSeenOrder(g.nodes, files, targets) && SeenBefore(g.nodes, files, targets, i + 1)
    ensures InSeenOrder(NextEdge(g, link, f, dep).nodes, files, targets) && SeenBefore(NextEdge(g, link, f, dep).nodes, files, targets, i + 1)
  {
    if link(f, dep).Some? && link(f, dep).value !in g.adj {
      var t := link(f, dep).value;
      ReachedIsSeen(targets, universe, files, i, t);
      assert FirstSeen(files, targets, t) <= i by {
        assert t in targets(files[i]);
      }
      AppendSeen(g.nodes, files, targets, i, t);
    }
  }

  /**
   `_build_dependency_graph`: every collected file is a node, even one that
   cannot be read, and `b` is a neighbour of `a` exactly when one of them
   adds an edge to the other. A file becomes a node when it is visited or
   when an earlier-visited file first links to it, whichever is sooner.
   */
  method BuildGraph(repo: Repo) returns (g: DepGraph)
    ensures NodesMatch(g)
    ensures g.adj.Keys == FileSet(repo)
    ensures forall a, b :: a in g.adj ==> (b in g.adj[a] <==> Adjacent(repo, a, b))
    ensures Undirected(g)
    ensures forall p, q :: 0 <= p < q < |g.nodes| ==> SeenAt(repo, g.nodes[p]) <= SeenAt(repo, g.nodes[q])
    ensures forall p, q :: 0 <= p < q < |g.nodes| ==> g.nodes[q] != Files(repo)[SeenAt(repo, g.nodes[p])]
    ensures Files(repo) != [] ==> g.nodes != [] && g.nodes[0] == Files(repo)[0]
  {
    var tokens := f => DepsOf(repo, f);
    var link := (f, dep) => Link(repo, f, dep);
    g := BuildGraphOver(Files(repo), tokens, link);
    AdjacentIsWithin(repo, tokens, link, g);
    AdjacencyIsUndirected(repo, g);
    SeenOrderOfRepo(repo, tokens, link, g);
  }

  /** The step of `_build_dependency_graph`'s outer loop at which `x` becomes a key. */
  function SeenAt(repo: Repo, x: string): (k: nat)
    ensures k <= |Files(repo)| && (x in FileSet(repo) ==> k < |Files(repo)|)
  {
    FirstSeen(Files(repo), f => Targets(repo, f), x)
  }

  lemma {:induction false} SeenOrderOfRepo(repo: Repo, tokens: string -> set<string>, link: (string, string) -> Option<string>, g: DepGraph)
    requires forall f :: tokens(f) == DepsOf(repo, f)
    requires forall f, dep :: link(f, dep) == Link(repo, f, dep)
    requires NodesMatch(g) && g.adj.Keys == FileSet(repo)
    requires InSeenOrder(g.nodes, Files(repo), f => TargetsBy(tokens, link, f))
    ensures forall p, q :: 0 <= p < q < |g.nodes| ==> SeenAt(repo, g.nodes[p]) <= SeenAt(repo, g.nodes[q])
    ensures forall p, q :: 0 <= p < q < |g.nodes| ==> g.nodes[q] != Files(repo)[SeenAt(repo, g.nodes[p])]
  {
    var t1 := f => TargetsBy(tokens, link, f);
    var t2 := f => Targets(repo, f);
    forall f ensures t1(f) == t2(f) {
      assert TargetsBy(tokens, link, f) == Targets(repo, f);
    }
    forall x ensures FirstSeen(Files(repo), t1, x) == SeenAt(repo, x) {
      FirstSeenSameTargets(Files(repo), t1, t2, x);
    }
  }

  lemma {:induction false} AdjacentIsWithin(repo: Repo, tokens: string -> set<string>, link: (string, string) -> Option<string>, g: DepGraph)
    requires forall f :: tokens(f) == DepsOf(repo, f)
    requires forall f, dep :: link(f, dep) == Link(repo, f, dep)
    requires g.adj.Keys == FileSet(repo)
    requires forall a :: a in g.adj ==> g.adj[a] == Within(f => TargetsBy(tokens, link, f), a, Files(repo))
    ensures forall a, b :: a in g.adj ==> (b in g.adj[a] <==> Adjacent(repo, a, b))
  {
    forall f ensures TargetsBy(tokens, link, f) == Targets(repo, f) {
    }
  }

  lemma {:induction false} LinkedAll(tokens: string -> set<string>, link: (string, string) -> Option<string>, f: string, deps: seq<string>)
    requires forall d :: d in deps <==> d in tokens(f)
    ensures Linked(link, f, deps[..|deps|]) == TargetsBy(tokens, link, f)
  {
    assert deps[..|deps|] == deps;
  }

  lemma {:induction false} TargetsInFiles(tokens: string -> set<string>, link: (string, string) -> Option<string>, files: seq<string>, f: string)
    requires forall f, dep :: link(f, dep).Some? ==> link(f, dep).value in files
    ensures TargetsBy(tokens, link, f) <= set x | x in files
  {
  }

  lemma {:induction false} ReachedNothing(targets: string -> set<string>, universe: set<string>)
    ensures Reached(targets, universe, []) == {}
  {
  }

  lemma {:induction false} LinkedSnoc(link: (string, string) -> Option<string>, f: string, deps: seq<string>, j: nat)
    requires j < |deps|
    ensures Linked(link, f, deps[..j + 1]) ==
      Linked(link, f, deps[..j]) + (if link(f, deps[j]).Some? then {link(f, deps[j]).value} else {})
  {
    assert deps[..j + 1] == deps[..j] + [deps[j]];
  }

  /** Visiting one more file adds it and its targets to the keys. */
  lemma {:induction false} ReachedSnoc(targets: string -> set<string>, universe: set<string>, files: seq<string>, i: nat)
    requires i < |files| && files[i] in universe && targets(files[i]) <= universe
    ensures Reached(targets, universe, files[..i + 1]) == Reached(targets, universe, files[..i]) + {files[i]} + targets(files[i])
  {
    var f := files[i];
    assert files[..i + 1] == files[..i] + [f];
    forall x ensures Incoming(targets, x, files[..i + 1]) == Incoming(targets, x, files[..i]) + (if x in targets(f) then {f} else {}) {
    }
  }

  /** Visiting one more file adds its own targets to it and itself to its targets. */
  lemma {:induction false} WithinSnoc(targets: string -> set<string>, files: seq<string>, i: nat)
    requires i < |files|
    ensures forall a :: Within(targets, a, files[..i + 1]) == Step(targets, a, files[..i], files[i], targets(files[i]))
  {
    var f := files[i];
    assert files[..i + 1] == files[..i] + [f];
    forall a ensures Within(targets, a, files[..i + 1]) == Step(targets, a, files[..i], f, targets(f)) {
      assert Incoming(targets, a, files[..i + 1]) == Incoming(targets, a, files[..i]) + (if a in targets(f) then {f} else {});
    }
  }
}
