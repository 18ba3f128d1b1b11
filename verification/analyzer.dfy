/**
 `group_files_by_dependencies` as a whole: build the graph, analyse every
 file of it, and split it into groups. The file analysis reads the file
 again and records its path, language, size and dependency tokens; the list
 of functions and classes it reports is always empty.
 */
module Analyzer {
  import opened Wrappers
  import opened Paths
  import opened Languages
  import opened Extract
  import opened Collect
  import opened Graph
  import opened Partition

  /** One value of `file_details`: `{}` when the file is gone or unreadable. */
  datatype FileDetails =
    | NoDetails
    | Details(path: string, language: string, size: nat, functions: seq<string>, classes: seq<string>, imports: set<string>)

  /**
   `_analyze_file_contents(file_path)`; `size` stands for `os.path.getsize`.
   The `analysis` entry, the per-language structure scan, is not part of
   this model.
   */
  function AnalyzeFile(repo: Repo, size: string -> nat, f: string): (d: FileDetails)
    ensures d.Details? <==> f in repo.onDisk && repo.read(f).Some?
    ensures d.Details? ==> d.path == f && d.size == size(f)
    ensures d.Details? ==> d.functions == [] && d.classes == []
    ensures d.Details? ==> d.imports == DepsOf(repo, f)
  {
    if f !in repo.onDisk then NoDetails
    else
      match repo.read(f)
      case None => NoDetails
      case Some(content) =>
        var ext := ExtensionKey(f);
        Details(f, LanguageOf(ext).GetOr("Unknown"), size(f), [], [], Dependencies(ext, content, repo.findAll))
  }

  /** A collected file is reported under its table language, never "Unknown". */
  lemma {:induction false} CollectedFileHasLanguage(repo: Repo, size: string -> nat, f: string)
    requires f in FileSet(repo)
    requires AnalyzeFile(repo, size, f).Details?
    ensures LanguageOf(ExtensionKey(f)).Some?
    ensures AnalyzeFile(repo, size, f).language == LanguageOf(ExtensionKey(f)).value
  {
    CollectedIffTableExtension(repo.walk, f);
  }

  /**
   `group_files_by_dependencies`: the details of every graph node, and the
   groups. The graph it builds is returned alongside: its keys are the
   collected files in the order the build first meets them, and two files are
   neighbours exactly when one names the other through a dependency. The
   groups are that graph's connected components, in the order of their first
   keys; so they split the collected files into disjoint sets, and a
   dependency never crosses from one group to another.
   */
  method GroupFilesByDependencies(repo: Repo, size: string -> nat)
    returns (groups: seq<set<string>>, details: map<string, FileDetails>, graph: DepGraph)
    ensures details.Keys == FileSet(repo)
    ensures forall f :: f in details ==> details[f] == AnalyzeFile(repo, size, f)
    ensures NodesMatch(graph) && graph.adj.Keys == FileSet(repo)
    ensures forall a, b :: a in graph.adj ==> (b in graph.adj[a] <==> Adjacent(repo, a, b))
    ensures forall p, q :: 0 <= p < q < |graph.nodes| ==> SeenAt(repo, graph.nodes[p]) <= SeenAt(repo, graph.nodes[q])
    ensures forall p, q :: 0 <= p < q < |graph.nodes| ==> graph.nodes[q] != Files(repo)[SeenAt(repo, graph.nodes[p])]
    ensures groups == Components(graph)
    ensures forall i :: 0 <= i < |groups| ==> exists s :: s in groups[i] && groups[i] == Component(graph, s)
    ensures Covered(groups) == FileSet(repo)
    ensures forall i, j :: 0 <= i < j < |groups| ==> groups[i] !! groups[j]
    ensures forall i, a, b :: 0 <= i < |groups| && a in groups[i] && Adjacent(repo, a, b) ==> b in groups[i]
  {
    graph := BuildGraph(repo);
    details := map f | f in graph.adj :: AnalyzeFile(repo, size, f);
    groups := GroupFiles(graph);
    GroupsCoverNodes(graph);
    forall i | 0 <= i < |groups| ensures exists s :: s in groups[i] && groups[i] == Component(graph, s) {
      GroupIsComponent(graph, i);
      var s := graph.nodes[FirstOutside(graph.nodes, Covered(groups[..i])).value];
      assert s in graph.adj;
      ComponentHoldsSeed(graph, s);
    }
    forall i, j | 0 <= i < j < |groups| ensures groups[i] !! groups[j] {
      GroupsDisjoint(graph, i, j);
    }
    forall i, a, b | 0 <= i < |groups| && a in groups[i] && Adjacent(repo, a, b) ensures b in groups[i] {
      assert a in graph.adj by {
        assert groups[i] <= Covered(groups);
      }
      EdgeStaysInGroup(graph, i, a, b);
    }
  }
}
