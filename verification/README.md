# Generator-Documentation, modelled in Dafny

Generator-Documentation takes a source repository and writes Markdown
documentation for it with a language model. This project models its core
logic as pure Dafny functions and methods, and proves properties of them.

The analysis pipeline comes first:

- **Collection.** Files are collected by an extension table.
- **Dependency graph.** Each file's dependency tokens are resolved against an
  ordered list of candidate paths. An edge is added in both directions
  whenever a token leads to another collected file.
- **Grouping.** A breadth-first search splits the graph into connected groups.
- **Chunking.** Each file's text is cut into chunks of whole lines under a
  word budget.
- **Assembly.** Every chunk goes to the model in a prompt. The completions are
  assembled under `## Part i` headers.
- **Per-group worker.** It writes one document per file, keyed by base name.
- **Background pipeline.** It runs analysis, generation, saving and
  notification, and cleans up in any case.

Around the pipeline sit several smaller parts:

- the GitHub URL parsers, the clone-URL authentication, the webhook filters
  and account linking;
- the JWT claim rules of the token handler, and the account service built on
  them;
- the request schemas;
- the validators of the landing page.

Everything outside the program's own logic is a parameter:

- file contents and the set of paths on disk;
- the per-language regular expressions;
- the language model;
- JWT signing;
- bcrypt;
- UUID parsing;
- HTTP responses.

The database is a sequence of rows searched front to back.

| file | module | models |
|---|---|---|
| wrappers.dfy | `Wrappers` | `Option`, `Result` and the HTTP error value |
| text.dfy | `Text` | Python's `split`, `join`, `strip`, `splitlines`, `lower` and word splitting |
| paths.dfy | `Paths` | `os.path` `basename`, `dirname`, `join`, `normpath` and `splitext` on `/` paths |
| languages.dfy | `Languages` | `SUPPORTED_EXTENSIONS` and the parser dispatch |
| extract.dfy | `Extract` | the post-processing of the Python, JavaScript and Rust parsers |
| collect.dfy | `Collect` | `_collect_files` |
| resolve.dfy | `Resolve` | `_resolve_dependency` |
| graph.dfy | `Graph` | `_build_dependency_graph` |
| partition.dfy | `Partition` | the BFS of `group_files_by_dependencies` |
| analyzer.dfy | `Analyzer` | `_analyze_file_contents` and `group_files_by_dependencies` |
| aiservice.dfy | `AiService` | `split_code_by_tokens`, `build_prompt` and `generate_documentation` |
| docgenerator.dfy | `DocGenerator` | `generate_docs_for_group` |
| reposervice.dfy | `RepoService` | the repository pipeline of `RepositoryService` |
| url.dfy | `Url` | `urllib.parse.urlparse`, as section 3 of RFC 3986 splits a URL |
| githubservice.dfy | `GitHubService` | `_parse_repo_url`, `_add_auth_to_repo_url`, the webhook handlers and `link_github_account` |
| userschema.dfy | `UserSchema` | `UserCreate`, `UserLogin` and `Token` |
| authhandler.dfy | `AuthHandler` | token issuing, decoding, refreshing and the `Authorization` header |
| indexjs.dfy | `IndexScript` | the form validators of `static/script/index.js` |
| authservice.dfy | `AuthService` | registration, login, refresh and the current user |

## Where the model follows the code

In each of these places the code does something other than what its
surrounding description suggests. The model does what the code does.

- **Node order.** The graph's nodes come in dictionary insertion order, not
  sorted. A file enters the graph when it is visited or when an
  earlier-visited file first links to it, whichever is sooner; the visited
  file precedes the files it first links to. Group order follows it.
- **Failed chunks.** When the completion of any chunk fails,
  `generate_documentation` raises. The worker then writes no document for that
  file. No failure marker is written.
- **`.git` URLs.** A repository is stored under its URL exactly as given. The
  lookup drops one trailing `.git` first, so a repository saved from a `.git`
  URL is never found again by that URL.
- **Host in `_add_auth_to_repo_url`.** The function does not check the host.
  Any URL with an authority is rewritten to point at `github.com`.
- **Relinking an account.** A user who links a second GitHub account keeps the
  first account's `github_id` on their row. The row then holds the new
  account's token.
- **A taken e-mail at registration.** The 400 detail reads "Username or email
  already registered", but only the username is looked up. A new username
  with an e-mail already on file reaches the commit, which the unique `email`
  column makes fail; nothing catches that, so the answer is a 500.
- **Token lifetimes and refresh.** The account service issues and refreshes
  tokens through `create_tokens` and `refresh_tokens` as written. It therefore
  inherits the first two findings below. The corrected definitions in
  `AuthHandler` show what the service does once those two functions are fixed.

## Model

| member | source | states |
|---|---|---|
| Paths.SplitExt | src/utils/dependency_analyzer.py:94 | the extension and the root concatenate back to the name; the extension is empty or starts at a `.` with no further `.` or `/` |
| Paths.BaseName | src/utils/doc_generator.py:20 | the base name has no `/`, ends the path, and is the whole path when it has no `/` |
| Paths.DirName | src/utils/dependency_analyzer.py:198 | the directory is a prefix of the path, empty when the path has no `/` |
| Paths.Join2 | src/utils/dependency_analyzer.py:202 | an absolute second part replaces the first; otherwise the result starts with the first part and ends with the second |
| Paths.NormPathOfPlainPath | src/utils/dependency_analyzer.py:202 | `normpath` leaves a relative path of plain components unchanged |
| Text.JoinSplit | src/utils/dependency_analyzer.py:902 | joining the pieces of `split(sep)` with `sep` gives back the string |
| Text.JoinSplitLines | src/services/ai_service.py:19 | for text whose only line break is `\n`, rejoining its `splitlines` gives the text back, up to one final newline |
| Languages.TableExtensions | src/utils/dependency_analyzer.py:9-82 | the table's keys in declaration order, the order the resolver tries them |
| Languages.LanguageOf | src/utils/dependency_analyzer.py:304 | a language is found exactly for the table's keys |
| Languages.CssAndJsonHaveNoParser | src/utils/dependency_analyzer.py:237-289 | `.css` and `.json` are table keys without a parser branch |
| Extract.PythonDependencies | src/utils/dependency_analyzer.py:895-912 | every imported module yields its path, every wildcard import its `__init__.py`, and nothing else is produced |
| Extract.PythonModuleToPath | src/utils/dependency_analyzer.py:901-910 | a dotted name `a.b.c` yields `a/b/c.py`, and as a wildcard import `a/b/c/__init__.py` |
| Extract.DottedNameJoins | src/utils/dependency_analyzer.py:902-904 | joining the segments of a dotted name as path components replaces each `.` by `/` |
| Extract.RelativeImportLosesItsDot | src/utils/dependency_analyzer.py:897-904 | `from .name import x` yields `name.py`, losing the leading dot |
| Extract.JavaScriptDependencies | src/utils/dependency_analyzer.py:1164-1179 | the result is exactly the normalised tokens |
| Extract.NormalizeJsTokenIdempotent | src/utils/dependency_analyzer.py:1173-1177 | a normalised token ends in a table extension, a token that already does is kept, and normalising twice changes nothing |
| Extract.JsTokenEndingInDIsKept | src/utils/dependency_analyzer.py:1175-1176 | the suffix test is textual, so `./build.d` gets no `.js` |
| Extract.RustDependencies | src/utils/dependency_analyzer.py:1011-1027 | the result is exactly the candidates of the `mod` and `use` matches |
| Extract.RustPathsExpand | src/utils/dependency_analyzer.py:1014-1025 | `use a::b::c` yields `a/b/c.rs` and `a/b/c/mod.rs`; `mod m;` yields `m.rs` and `m/mod.rs` |
| Extract.Dependencies | src/utils/dependency_analyzer.py:237-289 | an extension without a parser branch yields nothing, and every JavaScript dependency ends in a table extension |
| Collect.AddFile | src/utils/dependency_analyzer.py:97 | existing keys keep their place, a new key goes to the end with the file alone, and a key is added exactly when it is new |
| Collect.AddFileAddsOne | src/utils/dependency_analyzer.py:97 | appending adds exactly that one file to the listing |
| Collect.Kept | src/utils/dependency_analyzer.py:92-95 | a file is kept exactly when it is in the walk and its extension is collected |
| Collect.CollectFilesKeepsTableFiles | src/utils/dependency_analyzer.py:91-97 | the buckets hold exactly the kept files, once per occurrence, each under its own lower-cased extension, with distinct table keys |
| Collect.CollectedIffTableExtension | src/utils/dependency_analyzer.py:91-97 | a file is collected exactly when it is in the walk and its lower-cased extension is a table key |
| Resolve.TableCandidates | src/utils/dependency_analyzer.py:212-214 | two candidates per table extension in table order: `dep + ext`, then `dep/index + ext` |
| Resolve.Candidates | src/utils/dependency_analyzer.py:201-214 | the seven fixed candidates (raw, `.js`, `/index.js`, `.ts`, `/index.ts`, `.mjs`, `.cjs`) come first, then the table's |
| Resolve.CandidatePaths | src/utils/dependency_analyzer.py:201-214 | one normalised path per candidate, in candidate order |
| Resolve.RawTokenComesFirst | src/utils/dependency_analyzer.py:202 | the first candidate is the raw token beside the importing file |
| Resolve.FirstOnDisk | src/utils/dependency_analyzer.py:217-219 | the index found is on disk with nothing earlier on disk, and none is found exactly when no path is on disk |
| Resolve.NodeModules | src/utils/dependency_analyzer.py:222-233 | only a bare name with a readable `package.json` resolves, to its `main` entry or `index.js` |
| Resolve.FirstCandidateOr | src/utils/dependency_analyzer.py:217-235 | the first path on disk decides; with none on disk the fallback decides |
| Resolve.FirstCandidateDecides | src/utils/dependency_analyzer.py:197-219 | the resolver returns the first on-disk candidate, whatever follows it |
| Resolve.NoCandidateFallsBack | src/utils/dependency_analyzer.py:217-235 | with no candidate on disk, the outcome is the `node_modules` fallback |
| Resolve.EarlierCandidateWins | src/utils/dependency_analyzer.py:202-219 | a raw token naming a file on disk wins over every other candidate |
| Resolve.PathTokenNeverReachesNodeModules | src/utils/dependency_analyzer.py:222-235 | a token with a `/` and no candidate on disk stays unresolved |
| Graph.Link | src/utils/dependency_analyzer.py:177-184 | a token leads only to a collected file |
| Graph.FirstCandidateShadows | src/utils/dependency_analyzer.py:179-184 | when the first on-disk candidate is not a collected file, no edge is made, even if a later candidate is one |
| Graph.Targets | src/utils/dependency_analyzer.py:177-185 | a file adds edges only to collected files |
| Graph.AdjacencyIsUndirected | src/utils/dependency_analyzer.py:182-185 | a graph with the analyzer's adjacency has every neighbour as a key and every edge at both ends |
| Graph.Touch | src/utils/dependency_analyzer.py:169 | `graph[x]` adds a missing key at the end with no neighbours and changes nothing else |
| Graph.FirstSeen | src/utils/dependency_analyzer.py:166-185 | the reference for node order: the least step whose visited file is `x` or links to `x`, and `|files|` when there is none |
| Graph.ReachedIsSeen | src/utils/dependency_analyzer.py:166-185 | after the first `i` files, a file is a key exactly when it was first met before step `i` |
| Graph.AppendSeen | src/utils/dependency_analyzer.py:169-185 | appending a key first met at the current step keeps the keys in first-met order, with the visited file ahead of the files it links |
| Graph.AddNeighbour | src/utils/dependency_analyzer.py:184 | one neighbour is added to one key, the keys and their order unchanged |
| Graph.SetToSeq | src/utils/dependency_analyzer.py:178 | the sequence holds exactly the set's elements |
| Graph.AddEdge | src/utils/dependency_analyzer.py:184-185 | the keys grow by the target only; a new target is appended at the end and otherwise the node list is unchanged |
| Graph.AddEdgeNeighbours | src/utils/dependency_analyzer.py:184-185 | the edge is added to both endpoints' neighbour sets and to nothing else |
| Graph.NextEdge | src/utils/dependency_analyzer.py:178-185 | one token's step keeps the node list matching the keys, and either leaves it as it is or appends the newly linked file |
| Graph.AddFileEdges | src/utils/dependency_analyzer.py:178-185 | after a file's tokens, the graph holds exactly the edges found so far plus that file's, and the keys stay in first-met order |
| Graph.VisitFile | src/utils/dependency_analyzer.py:167-185 | one visit leaves the graph of the files visited so far, with its keys in first-met order |
| Graph.BuildGraphOver | src/utils/dependency_analyzer.py:166-187 | the keys are exactly the visited files, each key's neighbours are exactly the files linked to or from it, and the keys come in `FirstSeen` order with each visited file ahead of the files it first links |
| Graph.BuildGraph | src/utils/dependency_analyzer.py:162-187 | every collected file is a node, even an unreadable one; `b` neighbours `a` exactly when one names the other; the graph is undirected; nodes come in the order the loop first meets them (`SeenAt`), a visited file ahead of the files it first links |
| Partition.Explore | src/utils/dependency_analyzer.py:110-118 | the search from a seed collects exactly the seed's connected component |
| Partition.StartSearching | src/utils/dependency_analyzer.py:111 | the search invariant holds with the seed alone in the queue |
| Partition.SkipKeepsSearching | src/utils/dependency_analyzer.py:113-115 | skipping a visited node keeps the search invariant |
| Partition.VisitKeepsSearching | src/utils/dependency_analyzer.py:116-118 | visiting a node and queueing its unvisited neighbours keeps the search invariant |
| Partition.ExploredIsComponent | src/utils/dependency_analyzer.py:112-119 | with the queue empty, the group is the seed's component |
| Partition.GroupFiles | src/utils/dependency_analyzer.py:108-119 | the groups are the components, in the order of their first nodes |
| Partition.SeedIsFirstUncovered | src/utils/dependency_analyzer.py:108-111 | group `i` is the component of the first node, in key order, that no earlier group holds |
| Partition.GroupIsComponent | src/utils/dependency_analyzer.py:108-119 | each group is the component of its seed |
| Partition.GroupsCoverNodes | src/utils/dependency_analyzer.py:108-119 | the groups together hold exactly the graph's nodes |
| Partition.GroupsDisjoint | src/utils/dependency_analyzer.py:108-119 | two different groups share no node |
| Partition.EdgeStaysInGroup | src/utils/dependency_analyzer.py:108-119 | the two endpoints of an edge are in the same group |
| Partition.IsolatedFileIsAlone | src/utils/dependency_analyzer.py:108-119 | a node without edges forms a group of its own |
| Partition.GroupsPartitionNodes | src/utils/dependency_analyzer.py:108-119 | every node lies in exactly one group |
| Analyzer.AnalyzeFile | src/utils/dependency_analyzer.py:291-316 | details exist exactly for a readable file on disk, with its path, size and dependency tokens, and with `functions` and `classes` always empty |
| Analyzer.CollectedFileHasLanguage | src/utils/dependency_analyzer.py:303-304 | a collected file is reported under its table language, never "Unknown" |
| Analyzer.GroupFilesByDependencies | src/utils/dependency_analyzer.py:99-123 | there are details for every collected file; the graph built has the collected files as keys in first-met order and the analyzer's adjacency; the groups are exactly its connected components in the order of their first keys, each the component of one of its members, so they are disjoint, cover the collected files, and no dependency crosses between groups |
| AiService.SplitCodeByTokens | src/services/ai_service.py:18-37 | the chunks are the runs `Pack` makes of the text's lines, each joined by `\n`; what the runs are is stated by PackKeepsLines, PackWithinBudget, PackIsGreedy and PackStart |
| AiService.PackLines | src/services/ai_service.py:24-35 | the loop computes the greedy packing |
| AiService.PackStep | src/services/ai_service.py:25-32 | a line over the budget closes the open chunk and opens a new one with itself; otherwise it joins the open chunk |
| AiService.PackKeepsLines | src/services/ai_service.py:19-35 | the runs, read in order, give back exactly the lines |
| AiService.PackWithinBudget | src/services/ai_service.py:24-32 | a run of two or more lines keeps to the budget |
| AiService.PackIsGreedy | src/services/ai_service.py:26-28 | a run is closed only because the next run's first line would push it over the budget |
| AiService.PackStart | src/services/ai_service.py:19-29 | no lines give no runs; otherwise an empty first run appears exactly when the first line alone is over budget |
| AiService.ChunksOfText | src/services/ai_service.py:18-37 | no chunks exactly for text without lines; the runs give back the lines; multi-line runs keep to the budget; only the first run can be empty, exactly when the first line is over budget; a later chunk is the empty string only when its run is one empty line |
| AiService.ChunkSplitsIntoItsLines | src/services/ai_service.py:19-31 | a chunk splits back at `\n` into its own lines, so no line is cut between chunks |
| AiService.JoinCharsInterleaves | src/services/ai_service.py:82 | joining a string's characters with `\n` gives length `2n-1`, characters at even and `\n` at odd positions |
| AiService.PromptIsSpreadOut | src/services/ai_service.py:48-82 | the prompt sent is the formatted prompt spread one character per line, of length `2n-1` |
| AiService.Prompts | src/services/ai_service.py:104-110 | one prompt per chunk, built from the file's base name, path and dependencies |
| AiService.CompleteAll | src/services/ai_service.py:104-119 | all completions succeed exactly when each does, and then they are the chunks' completions in order |
| AiService.CompleteAllPrefix | src/services/ai_service.py:112-119 | a failure among the first prompts fails the whole call |
| AiService.GenerateDocumentation | src/services/ai_service.py:88-122 | a document exists exactly when every chunk's completion succeeds, and it is the completions under their numbered headers |
| AiService.AssembleSnoc | src/services/ai_service.py:119 | one more completion adds its numbered part at the end |
| AiService.AssemblePrefix | src/services/ai_service.py:103-119 | the document for the first `k` completions is a prefix of the whole, so parts come in chunk order |
| AiService.AssembleEmpty | src/services/ai_service.py:103-119 | the document is empty exactly when there are no chunks |
| AiService.PartOne | src/services/ai_service.py:119 | the first part is headed `## Part 1` and holds the stripped completion |
| AiService.AssembleOpensWithPartOne | src/services/ai_service.py:103-119 | a non-empty document opens with part 1 and the first completion |
| DocGenerator.GroupDirsDistinct | src/utils/doc_generator.py:8 | distinct groups write to distinct `group_<k>` directories |
| DocGenerator.DepsFor | src/utils/doc_generator.py:18 | the dependencies are the file's `imports`, or none when it has no details |
| DocGenerator.Outcome | src/utils/doc_generator.py:11-22 | a file yields a document exactly when it exists, can be read and its generation succeeds, and the document is the generated text |
| DocGenerator.WriteDocsLast | src/utils/doc_generator.py:11-24 | a successful file stores its document over whatever had its name; a failed one changes nothing |
| DocGenerator.GenerateDocsForGroup | src/utils/doc_generator.py:4-24 | the loop writes into `group_<k>` exactly the documents the fold describes |
| DocGenerator.LastWriterWins | src/utils/doc_generator.py:11-24 | the document under a name is that of the last file with that name that yielded one |
| DocGenerator.DocNamesWritten | src/utils/doc_generator.py:11-24 | a name is present exactly when some file of the group with that name yielded a document |
| DocGenerator.FailedFileWritesNothing | src/utils/doc_generator.py:13-24 | a missing, unreadable or failing file leaves the documents as they were |
| DocGenerator.SameNameOverwrites | src/utils/doc_generator.py:20-22 | of two files with one base name, only the later one's document survives |
| RepoService.DispatchMembers | src/services/repo_service.py:123-138 | a job goes out for exactly the non-empty groups, tagged with the 1-based position |
| RepoService.DispatchesInOrder | src/services/repo_service.py:123-138 | jobs go out in group order, none twice |
| RepoService.SaveRepo | src/services/repo_service.py:142-170 | everything is committed exactly when the save succeeds: the repository row and one row per group, empty groups included, the row at position i named `Group i+1` (1-based) under the repository's id |
| RepoService.GroupRowNamesDistinct | src/services/repo_service.py:158-165 | the group rows have distinct names |
| RepoService.JobMatchesGroupRow | src/services/repo_service.py:123-165 | a job's directory `group_<k>` and its row `Group <k>` carry the same number |
| RepoService.NoticeNamesDocsDir | src/services/repo_service.py:90-110 | the notice's `/docs/` link and the stored directory end in the same user and repository |
| RepoService.Background | src/services/repo_service.py:85-100 | cleanup happens exactly unless the URL starts with `zip:`; a commit exactly when every step up to the save succeeds; a notice only after that commit |
| RepoService.ZipUploadIsAlwaysCleanedUp | src/services/repo_service.py:58-100 | the ZIP upload's `ZIP Archive: ` URL never starts with `zip:`, so its directory is always removed |
| RepoService.ProcessRepository | src/services/repo_service.py:27-47 | the job is accepted exactly when the metadata and the clone succeed and the clone is on disk; any failure is a 500 with no task |
| RepoService.FirstRow | src/services/repo_service.py:187-193 | the row found is the first with this URL and owner, and none exactly when there is none |
| RepoService.GitSuffixIgnored | src/services/repo_service.py:181-193 | the lookup finds the same row with and without `.git`, and never a row stored with the `.git` URL |
| Url.ParseHttps | src/services/github_service.py:365-366 | `https://host/path` with no delimiters in host and path splits into exactly that scheme, host and path |
| GitHubService.SshRepoIsShortestMatch | src/services/github_service.py:357-361 | the lazy repository group captures the shortest name after which the rest of the pattern matches |
| GitHubService.SshSplitsAtOwner | src/services/github_service.py:357-362 | the SSH pattern splits at the owner's `/` |
| GitHubService.SshRepoDropsGit | src/services/github_service.py:357 | a final `.git` is left to the optional suffix |
| GitHubService.SshUrlRoundTrip | src/services/github_service.py:356-362 | `git@github.com:owner/repo.git` gives back the owner and repository |
| GitHubService.ParseRepoUrl | src/services/github_service.py:353-379 | a URL the SSH pattern reads gives its owner and repository; any other succeeds exactly when its host is `github.com` and its path has at least two segments, and fails with the 400 otherwise |
| GitHubService.ParseHttpsRepoUrl | src/services/github_service.py:364-379 | the HTTPS branch succeeds exactly when the host is `github.com` and the stripped path splits into at least two segments; otherwise the 400 |
| GitHubService.TwoSegmentHttpsParses | src/services/github_service.py:365 | a two-segment `https` URL parses to its host and path |
| GitHubService.PathSegments | src/services/github_service.py:366 | the path loses its leading `/` and splits into its two segments |
| GitHubService.HttpsBranchReadsSegments | src/services/github_service.py:365-379 | with at least two path segments, the HTTPS branch returns the first segment and the second minus one `.git`, whatever follows them |
| GitHubService.ExtraSegmentsIgnored | src/services/github_service.py:365-379 | two github.com URLs whose paths agree on the first two segments parse to the same owner and repository |
| GitHubService.HttpsUrlRoundTrip | src/services/github_service.py:364-379 | `https://github.com/owner/repo.git` gives back the owner and repository |
| GitHubService.AuthUrl | src/services/github_service.py:213 | the URL starts with the token-bearing `github.com` prefix and ends in `.git` |
| GitHubService.AddAuth | src/services/github_service.py:199-213 | a `git@` URL is returned as is; other URLs fail exactly when they have no authority, and otherwise carry the token and end in `.git` |
| GitHubService.AddAuthKeepsPath | src/services/github_service.py:205-213 | whatever the host, the result points at the same owner and repository on `github.com`, with `.git` added back |
| GitHubService.TouchedIff | src/services/github_service.py:298-303 | a path is in the union exactly when some commit adds, modifies or removes it |
| GitHubService.PushedFilesIff | src/services/github_service.py:294-316 | a push reports exactly the touched paths whose case-sensitive extension is one of the eleven |
| GitHubService.KeepWatched | src/services/github_service.py:340-344 | the filter keeps no more files than it is given |
| GitHubService.KeepWatchedIff | src/services/github_service.py:340-344 | a file is kept exactly when it is listed and watched |
| GitHubService.HandleWebhookEvent | src/services/github_service.py:281-351 | other events are ignored, a push reports its files, an unrelated pull-request action is ignored; a pull request reports its watched files, or fails with the URL's 400 or with "Failed to get PR files: " and the response body |
| GitHubService.ActionGateComesFirst | src/services/github_service.py:318-321 | an unrelated pull-request action never consults the file list |
| GitHubService.FirstMatch | src/services/github_service.py:87-93 | the row found is the first owned by the user or naming the account, and none exactly when there is none |
| GitHubService.LinkGitHubAccount | src/services/github_service.py:79-117 | an unknown user gets 404, other failures are 400, and success implies a known user |
| GitHubService.LinkUpdatesMatchedRow | src/services/github_service.py:95-104 | a matched row fails with 400 exactly when another user owns it; otherwise only its token fields change |
| GitHubService.LinkCreatesRow | src/services/github_service.py:105-113 | with no matching row, one row for this user and account is appended |
| GitHubService.RelinkKeepsOldGithubId | src/services/github_service.py:87-104 | relinking to another account keeps the old `github_id` with the new token |
| UserSchema.CreateRules | src/schemas/user_schema.py:5-11 | a registration body is valid exactly on username length, e-mail and password length, whatever the confirmation holds |
| UserSchema.LoginNameMatchesIff | src/schemas/user_schema.py:18-22 | the pattern accepts a name of name characters, or one followed by a single line feed |
| UserSchema.LoginUsernameShape | src/schemas/user_schema.py:13-28 | an accepted username has 3 to 50 characters, all name characters except perhaps a last line feed; the password has 8 or more; a username or e-mail is present |
| UserSchema.TrailingLineFeedPasses | src/schemas/user_schema.py:20 | `abc` plus a line feed passes the pattern, though not every character is a name character |
| UserSchema.LoginValidFixedCharset | src/schemas/user_schema.py:14-28 | with a whole-string match, every username character is a name character and a truthy username or e-mail is present |
| UserSchema.FixedOnlyDropsLineFeeds | src/schemas/user_schema.py:18-22 | the fixed check refuses only bodies whose username ends in a line feed |
| UserSchema.PresentUsernameIsTruthy | src/schemas/user_schema.py:14-28 | a valid username alone satisfies the username-or-email check |
| UserSchema.SpacedNameRegistersButCannotLogIn | src/schemas/user_schema.py:5-22 | `a b` passes registration and fails the login pattern |
| UserSchema.TokenWithDefaults | src/schemas/user_schema.py:30-33 | the token type defaults to `bearer` and the refresh token to none |
| AuthHandler.Lifetime | src/services/auth_handler.py:23-26 | no delta and a zero delta both give 15 minutes; any other delta is used as given |
| AuthHandler.CreateAccessToken | src/services/auth_handler.py:20-31 | the token carries the input claims unchanged plus `exp` at now plus the lifetime, signed with the key and `HS256` |
| AuthHandler.CreateTokens | src/services/auth_handler.py:56-71 | the access token carries only `sub` and expires in 30 minutes; the refresh token adds `type: refresh` and expires in 7 minutes |
| AuthHandler.CreateTokensFixed | src/services/auth_handler.py:56-71 | the same access token; a refresh token expiring in 7 days |
| AuthHandler.RefreshExpiresBeforeAccess | src/services/auth_handler.py:57-58 | as written, the refresh token expires at 420 seconds, before the access token's 1800 |
| AuthHandler.RefreshOutlivesAccessFixed | src/services/auth_handler.py:58 | counted in days, the refresh token outlives its access token by a week less half an hour |
| AuthHandler.VerifyClaims | src/services/auth_handler.py:36-54 | decoding succeeds exactly for a token signed with the key whose `exp` is well-formed and not past; expiry gives "Token expired", anything else "Could not validate credentials" |
| AuthHandler.DecodeToken | src/services/auth_handler.py:34-54 | success exactly when the claims verify and `type` is absent, null or `access`; all failures are 401 |
| AuthHandler.AccessTokenRoundTrip | src/services/auth_handler.py:34-62 | an issued access token decodes to its payload until it expires, then reports expiry |
| AuthHandler.ClaimText | src/services/auth_handler.py:81-82 | `str` of a string claim is the string; of a missing or null claim, `None` |
| AuthHandler.RefreshTokens | src/services/auth_handler.py:73-82 | as written, refreshing always fails |
| AuthHandler.RefreshNeverSucceeds | src/services/auth_handler.py:37-79 | a token that passes the decode gate fails the refresh type check, and a refresh token fails at the gate |
| AuthHandler.IssuedRefreshTokenRejected | src/services/auth_handler.py:58-79 | an issued refresh token is refused as the wrong type, or as expired after 7 minutes |
| AuthHandler.RefreshTokensFixed | src/services/auth_handler.py:73-82 | refreshing succeeds exactly for verified tokens of type `refresh`, and all failures are 401 |
| AuthHandler.RefreshRoundTripFixed | src/services/auth_handler.py:56-82 | a fixed refresh token gives a fresh pair for the same user throughout its week, and expiry after |
| AuthHandler.TokenKindsStaySeparateFixed | src/services/auth_handler.py:37-79 | an access token cannot refresh, and a refresh token cannot authenticate |
| AuthHandler.GetTokenFromHeader | src/services/auth_handler.py:85-92 | success exactly for a header starting `Bearer `, giving the rest; otherwise 401 "Not authenticated" |
| AuthHandler.BearerRoundTrip | src/services/auth_handler.py:87-92 | `Bearer ` plus a token gives back the token |
| IndexScript.MetIsPicked | static/script/index.js:94-98 | the criteria met are read off the five tests |
| IndexScript.StrengthCountsCriteria | static/script/index.js:91-104 | the strength is the number of criteria met, between 0 and 5 |
| IndexScript.LabelByCriteria | static/script/index.js:109-118 | weak exactly for at most one criterion, medium for two or three, strong for four or more |
| IndexScript.ShortPasswordCanBeStrong | static/script/index.js:94-118 | `Aa1!` is labelled strong, since length is one criterion among five |
| IndexScript.Trim | static/script/index.js:123 | the trimmed value neither starts nor ends with whitespace |
| IndexScript.UsernameCheckIff | static/script/index.js:136-147 | valid exactly when the trimmed value has 3 to 20 letters, digits or `_`; "required" exactly when it is blank |
| IndexScript.EmailOfParts | static/script/index.js:124 | every `local@domain.tld` of non-blank parts without `@` matches |
| IndexScript.EmailSplits | static/script/index.js:124 | every matching value splits into such parts |
| IndexScript.BlankIsRequired | static/script/index.js:122-147 | a blank value gets the "required" error from both the e-mail and the username check |
| IndexScript.ConfirmCheck | static/script/index.js:150-156 | an error exactly when the confirmation differs from the password |
| IndexScript.ArchiveRules | static/script/index.js:313-328 | over 100 MiB is refused first; otherwise accepted exactly for `.zip`, `.rar` or `.7zip` in the lower-cased name |
| IndexScript.ArchiveIgnoresCase | static/script/index.js:321-322 | the verdict does not depend on the case of the name |
| IndexScript.LoginBody | static/script/index.js:230-241 | a value with `@` is sent as `email`, any other as `username` |
| AuthService.FirstUser | src/services/auth_service.py:51-54 | the row found is the first that matches, and none exactly when none does |
| AuthService.Register | src/services/auth_service.py:21-48 | succeeds exactly when no row has the username, the e-mail or the new id; a taken username is a 400, and otherwise a clash on the unique `email` or `id` column (src/models/main_model.py:15-20) makes the commit fail with a 500; a success stores the hash and issues tokens for the new id |
| AuthService.RegisterKeepsColumnsUnique | src/services/auth_service.py:22-42 | a successful registration keeps usernames, e-mails and ids unique |
| AuthService.DuplicateEmailRejected | src/services/auth_service.py:40-41 | a new username with an e-mail already on file gets the 500 of the failed commit and no account |
| AuthService.Authenticate | src/services/auth_service.py:50-67 | success exactly when the username's first row verifies the password; any failure is the one 401 |
| AuthService.EmailOnlyLoginFails | src/services/auth_service.py:51-61 | a login by e-mail alone never finds a user |
| AuthService.FormEmailLoginFails | src/services/auth_service.py:51-61 | a login-form value containing `@` is always refused |
| AuthService.RegisterThenAuthenticate | src/services/auth_service.py:21-67 | a freshly registered user can log in with the same username and password |
| AuthService.RefreshAccessToken | src/services/auth_service.py:69-71 | refreshing through the service always fails with 401 |
| AuthService.GetCurrentUser | src/services/auth_service.py:73-98 | a token that fails to decode, a missing or non-string `sub`, or a `sub` that is not a UUID gives 401; with a parsed id, 404 exactly when no row has that id, and success exactly when some row has it, returning the username, e-mail and id of the first such row |
| AuthService.RegisteredUserIsCurrent | src/services/auth_service.py:73-98 | the access token issued at registration identifies the new user until it expires |
| AuthService.MissingUserIsNotFound | src/services/auth_service.py:83-92 | a valid token whose id no row of the table has gets 404, not 401 |

## Left out

- The regular expressions of the `_parse_*` functions. Their matches are an oracle (`FindAll`), and only the post-processing of the Python, JavaScript and Rust parsers is modelled.
- Language parsers other than Python, JavaScript and Rust. They are dispatched, but their output is the oracle's.
- The `_analyze_*_structure` scanners and the `analysis` entry of the file details. They are regular-expression scans of the text.
- The report writers and the graph visualisation (`_generate_group_reports`, `generate_visualization`, `_generate_summary_report`). They only write files.
- Filesystem access: `os.walk`, `open`, `isfile` and `exists`, the `package.json` read, `getsize`, `relpath` and absolute paths. Paths on disk are a set, contents and manifests are oracles, and paths are relative.
- The iteration order of Python sets. Dependency tokens and groups are sets, and `Graph.SetToSeq` fixes one order.
- Processes and concurrency: the process pool, `asyncio.gather`, `create_task` and `run_in_executor`. Jobs are a sequential fold that joins all of them.
- The language model client. It is the `complete` oracle, and the prompt's prose is a template parameter.
- Logging in the AI service (`_log_processing_*`, `save_correction`), and the worker's `print`.
- GitHub HTTP calls: `get_repo_info`, `clone_repository`, the directory download, webhook creation and the OAuth exchange. Their outcomes are parameters.
- `process_zip_repository`. Only the URL it hands to the background pipeline is modelled; archive extraction is I/O.
- `_find_file_group` and `delete_repository`. Neither is part of the pipeline.
- Redis publishing. Only the message and its channel are modelled.
- JWT signing, bcrypt, `EmailStr` and UUIDs. Signing is the `Signed` value with its key and algorithm; hashing, verification, e-mail validity, id generation and parsing are parameters.
- `urlparse` of IPv6 brackets, NFKC checks and the port. URLs are split as section 3 of RFC 3986 describes, with Python's clean-up of tabs and line breaks.
- Exception texts that embed `str(e)`. Only the prefix of the 500 detail is stated. The pull-request response body is a parameter holding the text `response.json()` formats to.
- Column widths of the `user` table (`String(50)`, `String(255)`). The commit's failure on an over-long value is not modelled; only the unique columns are.
- The `WWW-Authenticate` headers on 401 responses.
- The type of `exp`. An `exp` that is not an integer counts as malformed. PyJWT's checks of other registered claims, such as `sub` being a string, are not modelled.
- Lengths in `index.js`. They count UTF-16 code units and the model counts characters; the two differ only outside the Basic Multilingual Plane.
- The DOM side of `index.js`: the strength bar's floating-point width, colours, messages and form submission.
- Hyphens in usernames. The page refuses them but the login schema accepts them; the two checks are modelled separately and not compared.
- AuthService.RefreshAccessToken: states only that refreshing fails with 401, because `refresh_tokens` as written never succeeds.
- GitHubService.KeepWatched: its own contract states only the length bound. Membership is `GitHubService.KeepWatchedIff`, and order is the response's.

## Findings

| source | as written | input that shows it | evidently intended | confidence | as-written member | corrected member |
|---|---|---|---|---|---|---|
| src/services/auth_handler.py:73-79 | `refresh_tokens` decodes with `decode_token`, whose gate refuses `type == "refresh"`, and then demands `type == "refresh"` | the refresh token `create_tokens` issues: before 7 minutes it gets "Invalid token type", afterwards "Token expired" | a refresh token can be exchanged for a new pair | not executed | AuthHandler.RefreshNeverSucceeds | AuthHandler.RefreshRoundTripFixed |
| src/services/auth_handler.py:58 | the refresh lifetime is `timedelta(minutes=REFRESH_TOKEN_EXPIRE_DAYS)`, 7 minutes | `create_tokens(u)` at time `t`: the refresh token expires at `t + 420`, the access token at `t + 1800` | 7 days, longer than the access token's 30 minutes | not executed | AuthHandler.RefreshExpiresBeforeAccess | AuthHandler.RefreshOutlivesAccessFixed |
| src/schemas/user_schema.py:20 | `re.match(r"^[a-zA-Z0-9_-]+$", v)`, where `$` also matches before a final line feed | the login username `abc` followed by a line feed is accepted | only letters, digits, `_` and `-` | not executed | UserSchema.TrailingLineFeedPasses | UserSchema.LoginValidFixedCharset |
