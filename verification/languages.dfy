/**
 The analyzer's extension table and its per-language parser dispatch
 (`DependencyAnalyzer.SUPPORTED_EXTENSIONS` and `_extract_dependencies`).
 */
module Languages {
  import opened Wrappers
  import opened Text
  import opened Paths

  /**
   The extension table in declaration order, (extension, language name),
   assembled from the same sections the source lists it in.
   */
  const SupportedExtensions: seq<(string, string)> :=
    MainLanguages + WebAndMarkup + Mobile + CLike + Functional + Scripting + OtherLanguages
    + ConfigFormats + WebAssembly + Sql + ProtocolBuffers

  const MainLanguages: seq<(string, string)> := [
    (".py", "Python"), (".js", "JavaScript"), (".ts", "TypeScript"),
    (".jsx", "React JSX"), (".tsx", "React TSX"), (".mjs", "JavaScript Module"),
    (".cjs", "CommonJS")]
  const WebAndMarkup: seq<(string, string)> := [
    (".html", "HTML"), (".css", "CSS"), (".scss", "Sass"), (".less", "Less"),
    (".sass", "Sass"), (".vue", "Vue.js"), (".svelte", "Svelte")]
  const Mobile: seq<(string, string)> := [(".kt", "Kotlin"), (".swift", "Swift"), (".dart", "Dart")]
  const CLike: seq<(string, string)> := [
    (".c", "C"), (".cpp", "C++"), (".h", "C Header"), (".hpp", "C++ Header"),
    (".cs", "C#"), (".java", "Java"), (".go", "Go"), (".rs", "Rust")]
  const Functional: seq<(string, string)> := [
    (".hs", "Haskell"), (".elm", "Elm"), (".clj", "Clojure"), (".scala", "Scala"), (".erl", "Erlang")]
  const Scripting: seq<(string, string)> := [
    (".rb", "Ruby"), (".php", "PHP"), (".pl", "Perl"), (".lua", "Lua"), (".sh", "Bash Script")]
  const OtherLanguages: seq<(string, string)> := [
    (".groovy", "Groovy"), (".r", "R"), (".jl", "Julia"), (".d", "D"),
    (".zig", "Zig"), (".nim", "Nim"), (".v", "V")]
  const ConfigFormats: seq<(string, string)> := [
    (".json", "JSON"), (".yaml", "YAML"), (".yml", "YAML"), (".toml", "TOML"), (".xml", "XML")]
  const WebAssembly: seq<(string, string)> := [(".wat", "WebAssembly Text"), (".wasm", "WebAssembly Binary")]
  const Sql: seq<(string, string)> := [(".sql", "SQL")]
  const ProtocolBuffers: seq<(string, string)> := [(".proto", "Protocol Buffers")]

  /** The table's keys in declaration order, which is the order the resolver tries them. */
  function TableExtensions(): (exts: seq<string>)
    ensures |exts| == |SupportedExtensions|
    ensures forall i :: 0 <= i < |exts| ==> exts[i] == SupportedExtensions[i].0
  {
    seq(|SupportedExtensions|, i requires 0 <= i < |SupportedExtensions| => SupportedExtensions[i].0)
  }

  predicate Supported(ext: string) {
    ext in TableExtensions()
  }

  /** `SUPPORTED_EXTENSIONS.get(ext)`. */
  function LanguageOf(ext: string): (r: Option<string>)
    ensures r.Some? <==> Supported(ext)
  {
    LookUp(SupportedExtensions, ext)
  }

  function LookUp(table: seq<(string, string)>, key: string): (r: Option<string>)
    ensures r.Some? <==> exists i :: 0 <= i < |table| && table[i].0 == key
    ensures r.Some? ==> exists i :: 0 <= i < |table| && table[i] == (key, r.value)
  {
    if table == [] then None
    else if table[0].0 == key then Some(table[0].1)
    else
      var r := LookUp(table[1..], key);
      assert forall i :: 0 < i < |table| ==> table[i] == table[1..][i - 1];
      r
  }

  /** The lower-cased extension of a file name: the key `_collect_files` buckets it under. */
  function ExtensionKey(path: string): string {
    Lower(Extension(path))
  }

  /** `_collect_files` keeps a file exactly when its lower-cased extension is a table key. */
  predicate IsCollected(path: string) {
    Supported(ExtensionKey(path))
  }

  /** Every language that has a dependency parser. */
  datatype Parser =
    | Python | JavaScript | Html | Css | Vue | Svelte | Cpp | CSharp | Java | Go
    | Rust | Kotlin | Swift | Dart | Ruby | Php | Haskell | Lua | Shell | RLang
    | Julia | Zig | Nim | VLang | Proto

  /** The dispatch of `_extract_dependencies`; `None` is its final `else: return set()`. */
  function ParserFor(ext: string): Option<Parser> {
    if ext == ".py" then Some(Python)
    else if ext in {".js", ".jsx", ".mjs", ".cjs", ".ts", ".tsx"} then Some(JavaScript)
    else if ext == ".html" then Some(Html)
    else if ext in {".scss", ".sass", ".less"} then Some(Css)
    else if ext == ".vue" then Some(Vue)
    else if ext == ".svelte" then Some(Svelte)
    else if ext in {".c", ".cpp", ".h", ".hpp"} then Some(Cpp)
    else if ext == ".cs" then Some(CSharp)
    else if ext == ".java" then Some(Java)
    else if ext == ".go" then Some(Go)
    else if ext == ".rs" then Some(Rust)
    else if ext == ".kt" then Some(Kotlin)
    else if ext == ".swift" then Some(Swift)
    else if ext == ".dart" then Some(Dart)
    else if ext == ".rb" then Some(Ruby)
    else if ext == ".php" then Some(Php)
    else if ext == ".hs" then Some(Haskell)
    else if ext == ".lua" then Some(Lua)
    else if ext == ".sh" then Some(Shell)
    else if ext == ".r" then Some(RLang)
    else if ext == ".jl" then Some(Julia)
    else if ext == ".zig" then Some(Zig)
    else if ext == ".nim" then Some(Nim)
    else if ext == ".v" then Some(VLang)
    else if ext == ".proto" then Some(Proto)
    else None
  }

  lemma {:induction false} Listed(ext: string, i: nat)
    requires i < |SupportedExtensions| && SupportedExtensions[i].0 == ext
    ensures Supported(ext)
  {
    assert TableExtensions()[i] == ext;
  }

  /**
   `.css` and `.json` are table keys without a parser branch (only `.scss`,
   `.sass` and `.less` reach the stylesheet parser), so such files become
   graph nodes without dependencies of their own.
   */
  lemma {:induction false} CssAndJsonHaveNoParser()
    ensures Supported(".css") && ParserFor(".css").None?
    ensures Supported(".json") && ParserFor(".json").None?
  {
    Listed(".css", 8);
    Listed(".json", 42);
  }
}
