/**
 `_resolve_dependency`: a raw dependency token is tried against a fixed,
 ordered list of candidate paths next to the importing file; the first one
 that is a file on disk wins. Failing that, a bare package name is looked up
 in `node_modules`. Paths are relative to the repository root; "is a file on
 disk" is an abstract set and the `package.json` read is an oracle.
 */
module Resolve {
  import opened Wrappers
  import opened Text
  import opened Paths
  import opened Languages

  /** What reading `node_modules/<dep>/package.json` gives. */
  datatype PackageJson =
    | NoPackage                     // `package.json` does not exist
    | Unusable                      // unreadable, not JSON, not an object, or `main` not a string
    | Manifest(main: Option<string>) // a manifest, with its `main` entry when present

  /** The two shapes of candidate: `dep + ext` beside the importer, or `dep/index + ext`. */
  datatype Candidate = Sibling(ext: string) | IndexIn(ext: string)

  /** The candidate's path: `normpath(join(base_dir, dep + ext))` or `normpath(join(base_dir, dep, "index" + ext))`. */
  function CandidatePath(baseDir: string, dep: string, c: Candidate): string {
    match c
    case Sibling(ext) => NormPath(Join2(baseDir, dep + ext))
    case IndexIn(ext) => NormPath(JoinAll([baseDir, dep, "index" + ext]))
  }

  /** The two candidates per table extension, in table order. */
  function TableCandidates(exts: seq<string>): (c: seq<Candidate>)
    ensures |c| == 2 * |exts|
    ensures forall i :: 0 <= i < |exts| ==> c[2 * i] == Sibling(exts[i]) && c[2 * i + 1] == IndexIn(exts[i])
    decreases |exts|
  {
    if exts == [] then []
    else
      var rest := TableCandidates(exts[1..]);
      var c := [Sibling(exts[0]), IndexIn(exts[0])] + rest;
      assert forall i :: 1 <= i < |exts| ==> c[2 * i] == rest[2 * (i - 1)] && exts[i] == exts[1..][i - 1];
      c
  }

  /** The candidates tried before the table's. */
  const FixedCandidates: seq<Candidate> := [
    Sibling(""),
    Sibling(".js"), IndexIn(".js"),
    Sibling(".ts"), IndexIn(".ts"),
    Sibling(".mjs"), Sibling(".cjs")]

  /** The candidate list of `_resolve_dependency`, in the order it is tried. */
  function Candidates(exts: seq<string>): (c: seq<Candidate>)
    ensures |c| == 7 + 2 * |exts|
    ensures c[..7] == FixedCandidates
    ensures forall i :: 0 <= i < |exts| ==> c[7 + 2 * i] == Sibling(exts[i]) && c[8 + 2 * i] == IndexIn(exts[i])
  {
    var table := TableCandidates(exts);
    var c := FixedCandidates + table;
    assert forall i :: 0 <= i < |exts| ==> c[7 + 2 * i] == table[2 * i] && c[8 + 2 * i] == table[2 * i + 1];
    c
  }

  /**
   The candidate paths for `dep` imported from a file in `baseDir`, the
   table's extensions being `exts`.
   */
  function CandidatePaths(baseDir: string, dep: string, exts: seq<string>): (paths: seq<string>)
    ensures |paths| == 7 + 2 * |exts|
    ensures forall i :: 0 <= i < |paths| ==> paths[i] == CandidatePath(baseDir, dep, Candidates(exts)[i])
  {
    var c := Candidates(exts);
    seq(|c|, i requires 0 <= i < |c| => CandidatePath(baseDir, dep, c[i]))
  }

  /** The first candidate is the raw token joined to the importing file's directory. */
  lemma {:induction false} RawTokenComesFirst(baseDir: string, dep: string, exts: seq<string>)
    ensures CandidatePaths(baseDir, dep, exts)[0] == NormPath(Join2(baseDir, dep))
  {
    assert dep + "" == dep;
    assert Candidates(exts)[0] == Candidates(exts)[..7][0];
  }

  /** `paths[i]` is the first path of `paths` that is on disk. */
  predicate FirstOn(paths: seq<string>, onDisk: set<string>, i: int) {
    0 <= i < |paths| && paths[i] in onDisk && forall j :: 0 <= j < i ==> paths[j] !in onDisk
  }

  /** Index of the first path of `paths` that is on disk. */
  function FirstOnDisk(paths: seq<string>, onDisk: set<string>): (r: Option<nat>)
    ensures r.Some? ==> r.value < |paths| && paths[r.value] in onDisk
    ensures r.Some? ==> forall j :: 0 <= j < r.value ==> paths[j] !in onDisk
    ensures r.None? <==> forall j :: 0 <= j < |paths| ==> paths[j] !in onDisk
    decreases |paths|
  {
    if paths == [] then None
    else if paths[0] in onDisk then Some(0)
    else
      match FirstOnDisk(paths[1..], onDisk)
      case None => None
      case Some(k) => Some(k + 1)
  }

  /** A bare package name: `node_modules` is consulted only for tokens without `/` or `\`. */
  predicate BarePackage(dep: string) {
    '/' !in dep && '\\' !in dep
  }

  /** `join(base_dir, "node_modules", dep)`. */
  function PackageDir(baseDir: string, dep: string): string {
    JoinAll([baseDir, "node_modules", dep])
  }

  /**
   The `node_modules` fallback: a bare package name whose `package.json` is
   usable resolves to its `main` entry, `index.js` when it has none.
   */
  function NodeModules(baseDir: string, dep: string, packageJson: string -> PackageJson): (r: Option<string>)
    ensures r.Some? <==> BarePackage(dep) && packageJson(PackageDir(baseDir, dep)).Manifest?
    ensures r.Some? ==> r.value == Join2(PackageDir(baseDir, dep), packageJson(PackageDir(baseDir, dep)).main.GetOr("index.js"))
  {
    if !BarePackage(dep) then None
    else
      var dir := PackageDir(baseDir, dep);
      match packageJson(dir)
      case Manifest(main) => Some(Join2(dir, main.GetOr("index.js")))
      case _ => None
  }

  /**
   The decision of `_resolve_dependency` over a given candidate list: the
   first candidate on disk, else the `node_modules` fallback.
   */
  function FirstCandidateOr(paths: seq<string>, onDisk: set<string>, fallback: Option<string>): (r: Option<string>)
    ensures forall i :: FirstOn(paths, onDisk, i) ==> r == Some(paths[i])
    ensures (forall i :: 0 <= i < |paths| ==> paths[i] !in onDisk) ==> r == fallback
  {
    match FirstOnDisk(paths, onDisk)
    case Some(k) =>
      assert forall i :: FirstOn(paths, onDisk, i) ==> i == k;
      Some(paths[k])
    case None => fallback
  }

  /** `_resolve_dependency(current_file, dep)`. */
  function ResolveDependency(currentFile: string, dep: string, onDisk: set<string>, packageJson: string -> PackageJson): Option<string> {
    var baseDir := DirName(currentFile);
    FirstCandidateOr(CandidatePaths(baseDir, dep, TableExtensions()), onDisk, NodeModules(baseDir, dep, packageJson))
  }

  /** The first on-disk candidate decides, whatever follows it. */
  lemma {:induction false} FirstCandidateDecides(currentFile: string, dep: string, onDisk: set<string>, packageJson: string -> PackageJson, i: nat)
    requires FirstOn(CandidatePaths(DirName(currentFile), dep, TableExtensions()), onDisk, i)
    ensures ResolveDependency(currentFile, dep, onDisk, packageJson) == Some(CandidatePaths(DirName(currentFile), dep, TableExtensions())[i])
  {
  }

  /** Only when no candidate is on disk does `node_modules` decide the outcome. */
  lemma {:induction false} NoCandidateFallsBack(currentFile: string, dep: string, onDisk: set<string>, packageJson: string -> PackageJson)
    requires forall i :: 0 <= i < |CandidatePaths(DirName(currentFile), dep, TableExtensions())| ==>
               CandidatePaths(DirName(currentFile), dep, TableExtensions())[i] !in onDisk
    ensures ResolveDependency(currentFile, dep, onDisk, packageJson) == NodeModules(DirName(currentFile), dep, packageJson)
  {
  }

  /** When the raw token names a file on disk, it wins over every other candidate. */
  lemma {:induction false} EarlierCandidateWins(currentFile: string, dep: string, onDisk: set<string>, packageJson: string -> PackageJson)
    requires NormPath(Join2(DirName(currentFile), dep)) in onDisk
    ensures ResolveDependency(currentFile, dep, onDisk, packageJson) == Some(NormPath(Join2(DirName(currentFile), dep)))
  {
    RawTokenComesFirst(DirName(currentFile), dep, TableExtensions());
  }

  /** A token with a `/` that matches no candidate is left unresolved, whatever `node_modules` holds. */
  lemma {:induction false} PathTokenNeverReachesNodeModules(currentFile: string, dep: string, onDisk: set<string>, packageJson: string -> PackageJson)
    requires '/' in dep
    requires forall i :: 0 <= i < |CandidatePaths(DirName(currentFile), dep, TableExtensions())| ==> CandidatePaths(DirName(currentFile), dep, TableExtensions())[i] !in onDisk
    ensures ResolveDependency(currentFile, dep, onDisk, packageJson).None?
  {
    NoCandidateFallsBack(currentFile, dep, onDisk, packageJson);
  }
}
