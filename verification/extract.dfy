/**
 Dependency extraction (`_extract_dependencies` and the `_parse_*` family).
 The regular expressions themselves are uninterpreted: `FindAll` stands for
 `re.findall` of a named pattern over a file's text. What is modelled is the
 dispatch and the post-processing the Python, JavaScript and Rust parsers
 apply to the raw matches.
 */
module Extract {
  import opened Wrappers
  import opened Text
  import opened Paths
  import opened Languages

  /** The regular expressions whose matches feed the post-processing. */
  datatype Pattern =
    | PythonFrom        // `from X import`
    | PythonImport      // `import X` at the start of a line
    | PythonWildcard    // `from X import *`
    | JsImport          // `import ... "X"`
    | JsRequire         // `require("X")`
    | RustMod           // `mod X;`
    | RustUse           // `use X`
    | EmbeddedScript(host: Parser)   // import/require tokens of a Vue or Svelte script section
    | EmbeddedMarkup(host: Parser)   // tokens of its template, style or tag markup
    | Tokens(parser: Parser)         // every token of the other parsers, taken as they are

  /** `re.findall(pattern, content)`, left uninterpreted. */
  type FindAll = (Pattern, string) -> seq<string>

  // ---------------------------------------------------------------------
  // Python

  /** `os.path.join(*imp.split(".")) + ".py"`. */
  function ModulePath(imp: string): string {
    JoinAll(Split(imp, ".")) + ".py"
  }

  /** `os.path.join(*imp.split("."), "__init__.py")`. */
  function PackageInitPath(imp: string): string {
    JoinAll(Split(imp, ".") + ["__init__.py"])
  }

  /** `_parse_python` after its three `findall` calls. */
  function PythonDependencies(fromImports: seq<string>, directImports: seq<string>, wildcards: seq<string>): (deps: set<string>)
    ensures forall imp :: imp in fromImports + directImports ==> ModulePath(imp) in deps
    ensures forall imp :: imp in wildcards ==> PackageInitPath(imp) in deps
    ensures forall d :: d in deps ==>
              (exists imp :: imp in fromImports + directImports && d == ModulePath(imp))
              || (exists imp :: imp in wildcards && d == PackageInitPath(imp))
  {
    (set imp | imp in fromImports + directImports :: ModulePath(imp))
    + (set imp | imp in wildcards :: PackageInitPath(imp))
  }

  /** A dotted name whose segments are all non-empty and free of `/`. */
  predicate DottedName(imp: string) {
    forall i :: 0 <= i < |Split(imp, ".")| ==> Split(imp, ".")[i] != "" && '/' !in Split(imp, ".")[i]
  }

  /** `s` with every occurrence of `c` replaced by `d`. */
  function ReplaceChar(s: string, c: char, d: char): (r: string)
    ensures |r| == |s|
    ensures forall i :: 0 <= i < |s| ==> r[i] == if s[i] == c then d else s[i]
  {
    seq(|s|, i requires 0 <= i < |s| => if s[i] == c then d else s[i])
  }

  lemma {:induction false} ReplaceCharConcat(a: string, b: string, c: char, d: char)
    ensures ReplaceChar(a + b, c, d) == ReplaceChar(a, c, d) + ReplaceChar(b, c, d)
  {
  }

  lemma {:induction false} ReplaceCharAbsent(s: string, n: nat, c: char, d: char)
    requires n <= |s|
    requires forall i :: 0 <= i < n ==> !OccursAt(s, [c], i)
    ensures ReplaceChar(s[..n], c, d) == s[..n]
  {
    forall i | 0 <= i < n ensures s[i] != c {
      assert !OccursAt(s, [c], i);
      assert s[i..i + 1] == [s[i]];
    }
  }

  /** Joining the pieces of a split on one character with another character replaces it. */
  lemma {:induction false} JoinSplitReplaces(s: string, c: char, d: char)
    ensures Join(Split(s, [c]), [d]) == ReplaceChar(s, c, d)
    decreases |s|
  {
    match FindFrom(s, [c], 0)
    case None =>
      FindFromNone(s, [c], 0);
      ReplaceCharAbsent(s, |s|, c, d);
      assert s[..|s|] == s;
    case Some(k) =>
      var rest := s[k + 1..];
      JoinSplitReplaces(rest, c, d);
      SplitFound(s, [c]);
      FindFromFound(s, [c], 0);
      JoinCons(s[..k], Split(rest, [c]), [d]);
      ReplaceCharAbsent(s, k, c, d);
      assert s[k] == c by { assert s[k..k + 1] == [c]; }
      SplitAround(s, k);
      ReplaceCharConcat(s[..k] + [s[k]], rest, c, d);
      ReplaceCharConcat(s[..k], [s[k]], c, d);
      assert ReplaceChar([s[k]], c, d) == [d];
  }

  /** For components that neither are empty nor contain `/`, `os.path.join` puts one `/` between them. */
  lemma {:induction false} JoinAllOfPlainParts(parts: seq<string>)
    requires |parts| >= 1
    requires forall i :: 0 <= i < |parts| ==> parts[i] != "" && '/' !in parts[i]
    ensures JoinAll(parts) == Join(parts, "/")
    ensures JoinAll(parts) != "" && JoinAll(parts)[|JoinAll(parts)| - 1] != '/'
    decreases |parts|
  {
    if |parts| > 1 {
      var init := parts[..|parts| - 1];
      var last := parts[|parts| - 1];
      JoinAllOfPlainParts(init);
      var j := JoinAll(init);
      assert JoinAll(parts) == Join2(j, last);
      assert !StartsWith(last, "/") by {
        assert last[0] in last;
      }
      assert Join2(j, last) == j + "/" + last;
      JoinSnoc(init, last, "/");
      assert init + [last] == parts;
      assert last[|last| - 1] in last;
    }
  }

  /** `os.path.join` of plain components followed by one more plain component. */
  lemma {:induction false} JoinAllSnoc(parts: seq<string>, last: string)
    requires |parts| >= 1
    requires forall i :: 0 <= i < |parts| ==> parts[i] != "" && '/' !in parts[i]
    requires last != "" && last[0] != '/'
    ensures JoinAll(parts + [last]) == Join(parts, "/") + "/" + last
  {
    JoinAllOfPlainParts(parts);
    assert (parts + [last])[..|parts|] == parts;
  }

  /** `Join` of a list extended by one element. */
  lemma {:induction false} JoinSnoc(parts: seq<string>, last: string, sep: string)
    requires |parts| >= 1
    ensures Join(parts + [last], sep) == Join(parts, sep) + sep + last
    decreases |parts|
  {
    if |parts| == 1 {
      assert (parts + [last])[1..] == [last];
    } else {
      JoinSnoc(parts[1..], last, sep);
      assert (parts + [last])[1..] == parts[1..] + [last];
    }
  }

  /**
   For a well-formed dotted module name `a.b.c`, the parser yields `a/b/c.py`,
   and for a wildcard import additionally `a/b/c/__init__.py`.
   */
  lemma {:induction false} PythonModuleToPath(imp: string)
    requires DottedName(imp)
    ensures ModulePath(imp) == ReplaceChar(imp, '.', '/') + ".py"
    ensures PackageInitPath(imp) == ReplaceChar(imp, '.', '/') + "/__init__.py"
  {
    DottedNameJoins(imp);
    PackageInitOfDotted(imp);
  }

  /** The segments of a dotted name, joined as path components, spell the name with `/` for `.`. */
  lemma {:induction false} DottedNameJoins(imp: string)
    requires DottedName(imp)
    ensures JoinAll(Split(imp, ".")) == ReplaceChar(imp, '.', '/')
    ensures Join(Split(imp, "."), "/") == ReplaceChar(imp, '.', '/')
  {
    JoinAllOfPlainParts(Split(imp, "."));
    JoinSplitReplaces(imp, '.', '/');
    assert "." == ['.'] && "/" == ['/'];
  }

  lemma {:induction false} PackageInitOfDotted(imp: string)
    requires DottedName(imp)
    ensures PackageInitPath(imp) == ReplaceChar(imp, '.', '/') + "/__init__.py"
  {
    var path := ReplaceChar(imp, '.', '/');
    JoinAllSnoc(Split(imp, "."), "__init__.py");
    DottedNameJoins(imp);
    assert path + "/" + "__init__.py" == path + "/__init__.py";
  }

  /**
   A relative import keeps no trace of its leading dot: `from .models import x`
   yields `models.py`, a path beside the repository root rather than beside
   the importing file.
   */
  lemma {:induction false} RelativeImportLosesItsDot(name: string)
    requires '.' !in name
    ensures ModulePath("." + name) == name + ".py"
  {
    var s := "." + name;
    assert Split(s, ".") == ["", name] by {
      assert s[0..1] == ".";
      assert FindFrom(s, ".", 0) == Some(0);
      assert s[1..] == name;
      forall k: nat ensures !OccursAt(name, ".", k) {
        if k + 1 <= |name| {
          assert name[k..k + 1] == [name[k]];
          assert name[k] in name;
        }
      }
      SplitWithoutSeparator(name, ".");
    }
    assert JoinAll(["", name]) == Join2("", name) by {
      assert ["", name][..1] == [""];
    }
  }

  // ---------------------------------------------------------------------
  // JavaScript

  /** Ends with one of the table's extensions (a plain, case-sensitive `endswith`). */
  predicate EndsWithSupported(dep: string) {
    exists i :: 0 <= i < |TableExtensions()| && EndsWith(dep, TableExtensions()[i])
  }

  /** The normalisation loop of `_parse_javascript`: append `.js` unless a table extension already ends the token. */
  function NormalizeJsToken(dep: string): string {
    if EndsWithSupported(dep) then dep else dep + ".js"
  }

  /** `_parse_javascript` after its two `findall` calls. */
  function JavaScriptDependencies(tokens: set<string>): (deps: set<string>)
    ensures forall d :: d in deps <==> exists t :: t in tokens && d == NormalizeJsToken(t)
  {
    set t | t in tokens :: NormalizeJsToken(t)
  }

  /** Every normalised token ends with a table extension, so normalising twice changes nothing. */
  lemma {:induction false} NormalizeJsTokenIdempotent(dep: string)
    ensures EndsWithSupported(NormalizeJsToken(dep))
    ensures NormalizeJsToken(NormalizeJsToken(dep)) == NormalizeJsToken(dep)
    ensures EndsWithSupported(dep) ==> NormalizeJsToken(dep) == dep
  {
    if !EndsWithSupported(dep) {
      var r := dep + ".js";
      assert TableExtensions()[1] == ".js";
      assert r[|r| - 3..] == ".js";
      assert EndsWith(r, TableExtensions()[1]);
    }
  }

  /** The suffix test is textual, so a token ending in `.d` (the D language) gets no `.js`. */
  lemma {:induction false} JsTokenEndingInDIsKept()
    ensures NormalizeJsToken("./build.d") == "./build.d"
  {
    assert TableExtensions()[38] == ".d";
    assert EndsWith("./build.d", TableExtensions()[38]);
  }

  // ---------------------------------------------------------------------
  // Rust

  /** The two candidates of a `mod name;` declaration. */
  function RustModPaths(name: string): set<string> {
    {name + ".rs", JoinAll([name, "mod.rs"])}
  }

  /** The two candidates of a `use a::b::c` path. */
  function RustUsePaths(path: string): set<string> {
    var segments := Split(path, "::");
    {JoinAll(segments) + ".rs", JoinAll(segments + ["mod.rs"])}
  }

  /** `_parse_rust` after its two `findall` calls. */
  function RustDependencies(mods: seq<string>, uses: seq<string>): (deps: set<string>)
    ensures forall d :: d in deps <==>
              (exists m :: m in mods && d in RustModPaths(m)) || (exists u :: u in uses && d in RustUsePaths(u))
  {
    (set m, d | m in mods && d in RustModPaths(m) :: d) + (set u, d | u in uses && d in RustUsePaths(u) :: d)
  }

  /** A `use` path whose `::` segments are non-empty and free of `/`. */
  predicate RustPath(path: string) {
    forall i :: 0 <= i < |Split(path, "::")| ==> Split(path, "::")[i] != "" && '/' !in Split(path, "::")[i]
  }

  /** `use a::b::c` yields `a/b/c.rs` and `a/b/c/mod.rs`; `mod m;` yields `m.rs` and `m/mod.rs`. */
  lemma {:induction false} RustPathsExpand(path: string, name: string)
    requires RustPath(path)
    requires name != "" && '/' !in name
    ensures RustUsePaths(path) == {Join(Split(path, "::"), "/") + ".rs", Join(Split(path, "::"), "/") + "/mod.rs"}
    ensures RustModPaths(name) == {name + ".rs", name + "/mod.rs"}
  {
    var segments := Split(path, "::");
    JoinAllOfPlainParts(segments);
    JoinAllSnoc(segments, "mod.rs");
    assert JoinAll(segments + ["mod.rs"]) == Join(segments, "/") + "/mod.rs";
    assert JoinAll(segments) + ".rs" == Join(segments, "/") + ".rs";
    assert JoinAll([name, "mod.rs"]) == Join2(name, "mod.rs");
    assert name[|name| - 1] in name;
    assert JoinAll([name, "mod.rs"]) == name + "/mod.rs";
  }

  // ---------------------------------------------------------------------
  // Dispatch

  /** `_extract_dependencies(content, ext)`. */
  function Dependencies(ext: string, content: string, findAll: FindAll): (deps: set<string>)
    ensures ParserFor(ext).None? ==> deps == {}
    ensures ParserFor(ext) == Some(JavaScript) ==> forall d :: d in deps ==> EndsWithSupported(d)
  {
    match ParserFor(ext)
    case None => {}
    case Some(parser) =>
      match parser
      case Python =>
        PythonDependencies(findAll(PythonFrom, content), findAll(PythonImport, content), findAll(PythonWildcard, content))
      case JavaScript =>
        var deps := JavaScriptDependencies(AsSet(findAll(JsImport, content)) + AsSet(findAll(JsRequire, content)));
        assert forall d :: d in deps ==> EndsWithSupported(d) by {
          forall d | d in deps ensures EndsWithSupported(d) {
            var t :| t in AsSet(findAll(JsImport, content)) + AsSet(findAll(JsRequire, content)) && d == NormalizeJsToken(t);
            NormalizeJsTokenIdempotent(t);
          }
        }
        deps
      case Rust =>
        RustDependencies(findAll(RustMod, content), findAll(RustUse, content))
      case Vue =>
        JavaScriptDependencies(AsSet(findAll(EmbeddedScript(Vue), content))) + AsSet(findAll(EmbeddedMarkup(Vue), content))
      case Svelte =>
        JavaScriptDependencies(AsSet(findAll(EmbeddedScript(Svelte), content))) + AsSet(findAll(EmbeddedMarkup(Svelte), content))
      case _ =>
        AsSet(findAll(Tokens(parser), content))
  }

  function AsSet(xs: seq<string>): set<string> {
    set x | x in xs
  }
}
