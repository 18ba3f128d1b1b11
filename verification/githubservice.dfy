/**
 The string and record rules of the GitHub service: reading owner and
 repository out of a URL, putting the access token into a clone URL, the
 webhook handlers' file filters and event gates, and linking a GitHub
 account to a user. HTTP requests are oracles; the database is a sequence of
 rows searched front to back.
 */
module GitHubService {
  import opened Wrappers
  import opened Text
  import opened Paths
  import opened Url

  // ---------------------------------------------------------------------
  // _parse_repo_url, SSH form: ^git@github\.com:(?P<owner>[^/]+)/(?P<repo>[^/]+?)(\.git)?$

  const SshPrefix: string := "git@github.com:"

  /** What may follow the lazy repository group: an optional `.git`, then the end or a final newline. */
  predicate SshTailOk(t: string) {
    t == "" || t == ".git" || t == "\n" || t == ".git\n"
  }

  /** The repository group of the SSH pattern, matched against the text after the owner's `/`. */
  function SshRepo(r: string): string {
    var x := if |r| >= 2 && r[|r| - 1] == '\n' then r[..|r| - 1] else r;
    if |x| >= 5 && EndsWith(x, ".git") then x[..|x| - 4] else x
  }

  /**
   `SshRepo` is what the lazy group `[^/]+?` captures: the shortest
   non-empty prefix after which the rest of the pattern matches.
   */
  lemma {:induction false} SshRepoIsShortestMatch(r: string)
    requires r != []
    ensures 1 <= |SshRepo(r)| <= |r| && SshRepo(r) == r[..|SshRepo(r)|]
    ensures SshTailOk(r[|SshRepo(r)|..])
    ensures forall k :: 1 <= k < |SshRepo(r)| ==> !SshTailOk(r[k..])
  {
    var m := |SshRepo(r)|;
    var newline := |r| >= 2 && r[|r| - 1] == '\n';
    var x := if newline then r[..|r| - 1] else r;
    assert r[..|x|] == x;
    if |x| >= 5 && EndsWith(x, ".git") {
      assert r[m..] == (if newline then ".git\n" else ".git");
    } else {
      assert r[m..] == (if newline then "\n" else "");
    }
    forall k | 1 <= k < m ensures !SshTailOk(r[k..]) {
      var t := r[k..];
      assert t[|t| - 1] == r[|r| - 1];
      if newline {
        assert |t| >= 2;
      }
    }
  }

  /** The SSH pattern: owner up to the first `/`, then a repository with no `/`. */
  function ParseSsh(url: string): Option<(string, string)> {
    if !StartsWith(url, SshPrefix) then None
    else
      var rest := url[|SshPrefix|..];
      var i := FirstOf(rest, {'/'});
      if i == 0 || i == |rest| then None
      else
        var r := rest[i + 1..];
        if r == [] || '/' in r then None else Some((rest[..i], SshRepo(r)))
  }

  // ---------------------------------------------------------------------
  // _parse_repo_url, HTTPS form

  const InvalidRepoUrl: HttpError := HttpError(400, "Invalid GitHub repository URL")

  /**
   `_parse_repo_url(url)`: owner and repository name, or 400. A URL of the
   SSH form is read by the pattern; any other goes through `urlparse`, and
   is refused unless its host is exactly `github.com` and its path has at
   least two segments.
   */
  function ParseRepoUrl(url: string): (r: Result<(string, string), HttpError>)
    ensures r.Failure? ==> r.error == InvalidRepoUrl
    ensures ParseSsh(url).Some? ==> r == Success(ParseSsh(url).value)
    ensures ParseSsh(url).None? ==>
              (r.Success? <==> UrlParse(url).netloc == "github.com" && |HttpsPathParts(url)| >= 2)
  {
    match ParseSsh(url)
    case Some(p) => Success(p)
    case None => ParseHttpsRepoUrl(url)
  }

  /** `parsed.path.strip('/').split('/')`. */
  function HttpsPathParts(url: string): seq<string> {
    Split(StripChars(UrlParse(url).path, {'/'}), "/")
  }

  /**
   The `urlparse` branch: the host must be exactly github.com and the path
   have at least two segments; the first two are read and any further ones
   are ignored.
   */
  function ParseHttpsRepoUrl(url: string): (r: Result<(string, string), HttpError>)
    ensures r.Failure? ==> r.error == InvalidRepoUrl
    ensures r.Success? <==> UrlParse(url).netloc == "github.com" && |HttpsPathParts(url)| >= 2
  {
    var parsed := UrlParse(url);
    var parts := HttpsPathParts(url);
    if parsed.netloc != "github.com" || |parts| < 2 then Failure(InvalidRepoUrl)
    else Success((parts[0], DropSuffix(parts[1], ".git")))
  }

  /** A path that neither starts nor ends with `/` loses only its leading `/`. */
  lemma {:induction false} StripSlashes(m: string)
    requires m != [] && m[0] != '/' && m[|m| - 1] != '/'
    ensures StripChars("/" + m, {'/'}) == m
  {
    var s := "/" + m;
    var p := StripRange(s, c => c in {'/'});
    assert s[1] == m[0] && s[|s| - 1] == m[|m| - 1];
    assert p.0 <= 1;
    assert p.1 == |s|;
    assert p.0 == 1;
    assert s[1..] == m;
  }

  /** Owner and repository segments that survive a URL unchanged. */
  predicate Segment(s: string) {
    s != [] && PlainSegment(s)
  }

  lemma {:induction false} TwoSegments(owner: string, repo: string)
    requires Segment(owner) && Segment(repo)
    ensures Split(owner + "/" + repo, "/") == [owner, repo]
  {
    assert forall k :: 0 <= k < |[owner, repo]| ==> '/' !in [owner, repo][k] by {
      assert forall k :: 0 <= k < |owner| ==> owner[k] != '/';
      assert forall k :: 0 <= k < |repo| ==> repo[k] != '/';
    }
    JoinCons(owner, [repo], "/");
    assert Join([owner, repo], "/") == owner + "/" + repo;
    SplitJoin([owner, repo], '/');
  }

  /** A segment followed by `.git` is still a segment. */
  lemma {:induction false} GitSegment(repo: string)
    requires Segment(repo)
    ensures Segment(repo + ".git")
  {
    assert forall k :: 0 <= k < |repo + ".git"| ==> (repo + ".git")[k] in repo || (repo + ".git")[k] in ".git";
  }

  /** The path `/<owner>/<repo>`. */
  function RepoPath(owner: string, repo: string): string {
    "/" + owner + "/" + repo
  }

  /** `urlparse` of a two-segment `https` URL. */
  lemma {:induction false} TwoSegmentHttpsParses(host: string, owner: string, repo: string)
    requires Segment(host) && Segment(owner) && Segment(repo)
    ensures UrlParse(HttpsUrl(host, RepoPath(owner, repo))) == Parsed("https", host, RepoPath(owner, repo), "", "", "")
  {
    var path := RepoPath(owner, repo);
    assert forall k :: 0 <= k < |path| ==> path[k] == '/' || path[k] in owner || path[k] in repo;
    ParseHttps(host, path);
  }

  /** The path of a two-segment URL loses its leading `/` and splits back into its segments. */
  lemma {:induction false} PathSegments(owner: string, repo: string)
    requires Segment(owner) && Segment(repo)
    ensures StripChars(RepoPath(owner, repo), {'/'}) == owner + "/" + repo
    ensures Split(StripChars(RepoPath(owner, repo), {'/'}), "/") == [owner, repo]
  {
    var m := owner + "/" + repo;
    assert RepoPath(owner, repo) == "/" + m;
    assert m[|m| - 1] == repo[|repo| - 1];
    StripSlashes(m);
    TwoSegments(owner, repo);
  }

  /** The HTTPS branch reads the first two path segments once the URL is split; further segments are ignored. */
  lemma {:induction false} HttpsBranchReadsSegments(url: string, owner: string, second: string)
    requires UrlParse(url).netloc == "github.com"
    requires |HttpsPathParts(url)| >= 2 && HttpsPathParts(url)[..2] == [owner, second]
    ensures ParseHttpsRepoUrl(url) == Success((owner, DropSuffix(second, ".git")))
  {
    assert HttpsPathParts(url)[0] == HttpsPathParts(url)[..2][0];
    assert HttpsPathParts(url)[1] == HttpsPathParts(url)[..2][1];
  }

  /** Two github.com URLs whose paths agree on the first two segments give the same answer. */
  lemma {:induction false} ExtraSegmentsIgnored(u: string, v: string)
    requires ParseSsh(u).None? && ParseSsh(v).None?
    requires UrlParse(u).netloc == "github.com" && UrlParse(v).netloc == "github.com"
    requires |HttpsPathParts(u)| >= 2 && |HttpsPathParts(v)| >= 2
    requires HttpsPathParts(u)[..2] == HttpsPathParts(v)[..2]
    ensures ParseRepoUrl(u) == ParseRepoUrl(v)
  {
    var pu := HttpsPathParts(u)[..2];
    HttpsBranchReadsSegments(u, pu[0], pu[1]);
    HttpsBranchReadsSegments(v, pu[0], pu[1]);
  }

  /** One trailing `.git` comes off. */
  lemma {:induction false} DropGit(repo: string)
    ensures DropSuffix(repo + ".git", ".git") == repo
  {
    assert (repo + ".git")[|repo + ".git"| - 4..] == ".git";
  }

  /** A URL starting with `h` is neither `git@` nor the SSH form. */
  lemma {:induction false} NotGitAt(u: string)
    requires u != [] && u[0] == 'h'
    ensures !StartsWith(u, "git@") && ParseSsh(u).None?
  {
    assert "git@"[0] == 'g';
    assert SshPrefix[0] == 'g';
  }

  /** The parts of an `https://github.com/<owner>/<repo>.git` URL come back out. */
  lemma {:induction false} HttpsUrlRoundTrip(owner: string, repo: string)
    requires Segment(owner) && Segment(repo)
    ensures ParseRepoUrl(HttpsUrl("github.com", RepoPath(owner, repo + ".git"))) == Success((owner, repo))
  {
    var url := HttpsUrl("github.com", RepoPath(owner, repo + ".git"));
    NotGitAt(url);
    HttpsBranchRoundTrip(owner, repo);
  }

  lemma {:induction false} HttpsBranchRoundTrip(owner: string, repo: string)
    requires Segment(owner) && Segment(repo)
    ensures ParseHttpsRepoUrl(HttpsUrl("github.com", RepoPath(owner, repo + ".git"))) == Success((owner, repo))
  {
    var url := HttpsUrl("github.com", RepoPath(owner, repo + ".git"));
    GitSegment(repo);
    assert Segment("github.com");
    TwoSegmentHttpsParses("github.com", owner, repo + ".git");
    PathSegments(owner, repo + ".git");
    assert HttpsPathParts(url) == [owner, repo + ".git"];
    assert HttpsPathParts(url)[..2] == [owner, repo + ".git"];
    HttpsBranchReadsSegments(url, owner, repo + ".git");
    DropGit(repo);
  }

  /** The SSH pattern splits at the owner's `/`. */
  lemma {:induction false} SshSplitsAtOwner(owner: string, r: string)
    requires owner != [] && '/' !in owner && r != [] && '/' !in r
    ensures ParseSsh(SshPrefix + owner + "/" + r) == Some((owner, SshRepo(r)))
  {
    var url := SshPrefix + owner + "/" + r;
    var rest := owner + "/" + r;
    assert url[|SshPrefix|..] == rest;
    assert StartsWith(url, SshPrefix);
    FirstOfIs(rest, {'/'}, |owner|);
    assert rest[..|owner|] == owner;
    assert rest[|owner| + 1..] == r;
  }

  /** The lazy group leaves a final `.git` to the optional suffix. */
  lemma {:induction false} SshRepoDropsGit(repo: string)
    requires repo != []
    ensures SshRepo(repo + ".git") == repo
  {
    var r := repo + ".git";
    assert r[|r| - 1] == 't';
    assert r[|r| - 4..] == ".git";
  }

  /** The parts of `git@github.com:<owner>/<repo>.git` come back out. */
  lemma {:induction false} SshUrlRoundTrip(owner: string, repo: string)
    requires owner != [] && '/' !in owner && repo != [] && '/' !in repo
    ensures ParseRepoUrl(SshPrefix + owner + "/" + repo + ".git") == Success((owner, repo))
  {
    var r := repo + ".git";
    assert SshPrefix + owner + "/" + repo + ".git" == SshPrefix + owner + "/" + r;
    assert '/' !in r by {
      assert forall k :: 0 <= k < |r| ==> r[k] in repo || r[k] in ".git";
    }
    SshSplitsAtOwner(owner, r);
    SshRepoDropsGit(repo);
  }

  // ---------------------------------------------------------------------
  // _add_auth_to_repo_url

  /** `https://<token>:x-oauth-basic@github.com/<path>.git`. */
  function AuthUrl(token: string, path: string): (u: string)
    ensures StartsWith(u, "https://" + token + ":x-oauth-basic@github.com/") && EndsWith(u, ".git")
  {
    var prefix := "https://" + token + ":x-oauth-basic@github.com/";
    var u := prefix + path + ".git";
    assert u[..|prefix|] == prefix;
    assert u[|u| - 4..] == ".git";
    u
  }

  /** `_add_auth_to_repo_url`: the token goes into an `https` URL on github.com; `Failure` is the `ValueError`. */
  function AddAuth(token: string, url: string): (r: Result<string, string>)
    ensures StartsWith(url, "git@") ==> r == Success(url)
    ensures !StartsWith(url, "git@") && r.Success? ==>
              StartsWith(r.value, "https://" + token + ":x-oauth-basic@github.com/") && EndsWith(r.value, ".git")
    ensures r.Failure? <==> !StartsWith(url, "git@") && UrlParse(DropSuffix(url, ".git")).netloc == ""
  {
    if StartsWith(url, "git@") then Success(url)
    else
      var parsed := UrlParse(DropSuffix(url, ".git"));
      if parsed.netloc == "" then Failure("Invalid repository URL")
      else Success(AuthUrl(token, StripChars(parsed.path, {'/'})))
  }

  /**
   Whatever host an `https` URL names, the authenticated URL points at the
   same owner and repository on github.com, with `.git` added back.
   */
  lemma {:induction false} AddAuthKeepsPath(token: string, host: string, owner: string, repo: string)
    requires Segment(host) && Segment(owner) && Segment(repo)
    ensures AddAuth(token, HttpsUrl(host, RepoPath(owner, repo)) + ".git") == Success(AuthUrl(token, owner + "/" + repo))
  {
    var bare := HttpsUrl(host, RepoPath(owner, repo));
    var url := bare + ".git";
    DropGit(bare);
    NotGitAt(url);
    TwoSegmentHttpsParses(host, owner, repo);
    PathSegments(owner, repo);
  }

  // ---------------------------------------------------------------------
  // Webhooks

  /** The extensions the webhook handlers keep, compared case-sensitively. */
  const WatchedExtensions: set<string> := {".py", ".js", ".ts", ".html", ".cpp", ".h", ".hpp", ".cs", ".rs", ".proto", ".css"}

  /** One commit of a push payload; a missing list is empty. */
  datatype PushCommit = PushCommit(added: seq<string>, modified: seq<string>, removed: seq<string>)

  predicate Mentions(c: PushCommit, f: string) {
    f in c.added || f in c.modified || f in c.removed
  }

  /** The union of every commit's added, modified and removed paths. */
  function Touched(commits: seq<PushCommit>): set<string>
    decreases |commits|
  {
    if commits == [] then {}
    else
      var c := commits[0];
      (set f | f in c.added) + (set f | f in c.modified) + (set f | f in c.removed) + Touched(commits[1..])
  }

  /** The files `_handle_push_event` reports, as a set: Python iterates a set here. */
  function PushedFiles(commits: seq<PushCommit>): set<string> {
    set f | f in Touched(commits) && Extension(f) in WatchedExtensions
  }

  /** A path is in the union exactly when some commit mentions it. */
  lemma {:induction false} TouchedIff(commits: seq<PushCommit>, f: string)
    ensures f in Touched(commits) <==> exists i :: 0 <= i < |commits| && Mentions(commits[i], f)
    decreases |commits|
  {
    if commits != [] {
      TouchedIff(commits[1..], f);
      if f in Touched(commits[1..]) {
        var i :| 0 <= i < |commits[1..]| && Mentions(commits[1..][i], f);
        assert Mentions(commits[i + 1], f);
      }
      if exists i :: 0 <= i < |commits| && Mentions(commits[i], f) {
        var i :| 0 <= i < |commits| && Mentions(commits[i], f);
        if i > 0 {
          assert Mentions(commits[1..][i - 1], f);
        }
      }
    }
  }

  /**
   A push reports exactly the paths some commit added, modified or removed
   whose extension is one of the eleven, each once.
   */
  lemma {:induction false} PushedFilesIff(commits: seq<PushCommit>, f: string)
    ensures f in PushedFiles(commits) <==>
              Extension(f) in WatchedExtensions && exists i :: 0 <= i < |commits| && Mentions(commits[i], f)
  {
    TouchedIff(commits, f);
  }

  /** The pull-request file list filtered to the watched extensions, in the response's order. */
  function KeepWatched(files: seq<string>): (r: seq<string>)
    ensures |r| <= |files|
    decreases |files|
  {
    if files == [] then []
    else (if Extension(files[0]) in WatchedExtensions then [files[0]] else []) + KeepWatched(files[1..])
  }

  /** A file is kept exactly when it is listed and watched. */
  lemma {:induction false} KeepWatchedIff(files: seq<string>, f: string)
    ensures f in KeepWatched(files) <==> f in files && Extension(f) in WatchedExtensions
    decreases |files|
  {
    if files != [] {
      KeepWatchedIff(files[1..], f);
      assert files == [files[0]] + files[1..];
    }
  }

  /** The parts of a webhook payload the handlers read. */
  datatype Payload = Payload(cloneUrl: string, commits: seq<PushCommit>, action: string, number: int)

  datatype Reply =
    | IgnoredEvent(eventType: Option<string>)     // {"status": "ignored", "event_type": ...}
    | UnrelatedAction                             // {"status": "ignored", "reason": "unrelated_action"}
    | PushUpdate(repoUrl: string, files: set<string>)
    | PullRequestUpdate(repoUrl: string, changed: seq<string>)

  const RelevantActions: seq<string> := ["opened", "synchronize", "reopened"]

  /**
   The answer to the request for a pull request's files: the file names when
   it answers 200, otherwise the text `response.json()` formats to.
   */
  datatype PrResponse = PrFiles(files: seq<string>) | PrRefused(body: string)

  /**
   `handle_webhook_event`. `eventType` is the `X-GitHub-Event` header, and
   `prFiles(owner, repo, number)` the answer to the request for the pull
   request's files.
   */
  function HandleWebhookEvent(eventType: Option<string>, p: Payload, prFiles: (string, string, int) -> PrResponse): (r: Result<Reply, HttpError>)
    ensures eventType != Some("push") && eventType != Some("pull_request") ==> r == Success(IgnoredEvent(eventType))
    ensures eventType == Some("push") ==> r == Success(PushUpdate(p.cloneUrl, PushedFiles(p.commits)))
    ensures eventType == Some("pull_request") && p.action !in RelevantActions ==> r == Success(UnrelatedAction)
    ensures eventType == Some("pull_request") && p.action in RelevantActions && ParseRepoUrl(p.cloneUrl).Failure? ==>
              r == Failure(ParseRepoUrl(p.cloneUrl).error)
    ensures eventType == Some("pull_request") && p.action in RelevantActions && ParseRepoUrl(p.cloneUrl).Success? ==>
              var (owner, repo) := ParseRepoUrl(p.cloneUrl).value;
              match prFiles(owner, repo, p.number)
              case PrRefused(body) => r == Failure(HttpError(400, "Failed to get PR files: " + body))
              case PrFiles(files) => r == Success(PullRequestUpdate(p.cloneUrl, KeepWatched(files)))
    ensures r.Failure? ==> r.error.status == 400
  {
    if eventType == Some("push") then Success(PushUpdate(p.cloneUrl, PushedFiles(p.commits)))
    else if eventType == Some("pull_request") then
      if p.action !in RelevantActions then Success(UnrelatedAction)
      else
        match ParseRepoUrl(p.cloneUrl)
        case Failure(e) => Failure(e)
        case Success((owner, repo)) =>
          match prFiles(owner, repo, p.number)
          case PrRefused(body) => Failure(HttpError(400, "Failed to get PR files: " + body))
          case PrFiles(files) => Success(PullRequestUpdate(p.cloneUrl, KeepWatched(files)))
    else Success(IgnoredEvent(eventType))
  }

  /** An unrelated pull-request action is answered before any request: the file list is never consulted. */
  lemma {:induction false} ActionGateComesFirst(p: Payload, f1: (string, string, int) -> PrResponse, f2: (string, string, int) -> PrResponse)
    requires p.action !in RelevantActions
    ensures HandleWebhookEvent(Some("pull_request"), p, f1) == HandleWebhookEvent(Some("pull_request"), p, f2)
  {
  }

  // ---------------------------------------------------------------------
  // link_github_account

  datatype GitHubAuthRow = GitHubAuthRow(userId: int, githubId: string, accessToken: string, tokenType: string, scope: string)

  /** The token response of the OAuth exchange. */
  datatype TokenGrant = TokenGrant(accessToken: string, tokenType: string, scope: string)

  /** The row the lookup of `link_github_account` matches. */
  predicate Matches(row: GitHubAuthRow, userId: int, githubId: string) {
    row.userId == userId || row.githubId == githubId
  }

  /** Index of the first row owned by the user or naming the GitHub account. */
  function FirstMatch(rows: seq<GitHubAuthRow>, userId: int, githubId: string): (r: Option<nat>)
    ensures r.Some? ==> r.value < |rows| && Matches(rows[r.value], userId, githubId)
    ensures r.Some? ==> forall j :: 0 <= j < r.value ==> !Matches(rows[j], userId, githubId)
    ensures r.None? <==> forall j :: 0 <= j < |rows| ==> !Matches(rows[j], userId, githubId)
    decreases |rows|
  {
    if rows == [] then None
    else if Matches(rows[0], userId, githubId) then Some(0)
    else
      match FirstMatch(rows[1..], userId, githubId)
      case None => None
      case Some(k) => Some(k + 1)
  }

  /**
   `link_github_account(user_id, grant, github_user)`: 404 for an unknown
   user, 400 when the matched row belongs to someone else; otherwise the
   matched row gets the new token, or a new row is appended.
   */
  function LinkGitHubAccount(users: set<int>, rows: seq<GitHubAuthRow>, userId: int, grant: TokenGrant, githubUserId: nat): (r: Result<seq<GitHubAuthRow>, HttpError>)
    ensures userId !in users ==> r == Failure(HttpError(404, "User not found"))
    ensures r.Failure? ==> r.error.status == 404 || r.error.status == 400
    ensures r.Success? ==> userId in users
  {
    if userId !in users then Failure(HttpError(404, "User not found"))
    else
      var githubId := NatToString(githubUserId);
      match FirstMatch(rows, userId, githubId)
      case Some(k) =>
        if rows[k].userId != userId then Failure(HttpError(400, "This GitHub account is already linked to another user"))
        else Success(rows[k := rows[k].(accessToken := grant.accessToken, tokenType := grant.tokenType, scope := grant.scope)])
      case None =>
        Success(rows + [GitHubAuthRow(userId, githubId, grant.accessToken, grant.tokenType, grant.scope)])
  }

  /**
   When a row matches, linking fails with 400 exactly when that row belongs
   to another user; otherwise only its token fields change, its owner and
   GitHub id stay, and every other row is untouched.
   */
  lemma {:induction false} LinkUpdatesMatchedRow(users: set<int>, rows: seq<GitHubAuthRow>, userId: int, grant: TokenGrant, githubUserId: nat, k: nat)
    requires userId in users
    requires FirstMatch(rows, userId, NatToString(githubUserId)) == Some(k)
    ensures var r := LinkGitHubAccount(users, rows, userId, grant, githubUserId);
            (r.Failure? <==> rows[k].userId != userId) &&
            (r.Failure? ==> r.error.status == 400) &&
            (r.Success? ==>
               |r.value| == |rows| &&
               r.value[k].userId == rows[k].userId && r.value[k].githubId == rows[k].githubId &&
               r.value[k].accessToken == grant.accessToken && r.value[k].tokenType == grant.tokenType &&
               r.value[k].scope == grant.scope &&
               forall j :: 0 <= j < |rows| && j != k ==> r.value[j] == rows[j])
  {
  }

  /** With no matching row, linking appends one row for this user and account and keeps the rest. */
  lemma {:induction false} LinkCreatesRow(users: set<int>, rows: seq<GitHubAuthRow>, userId: int, grant: TokenGrant, githubUserId: nat)
    requires userId in users
    requires forall j :: 0 <= j < |rows| ==> !Matches(rows[j], userId, NatToString(githubUserId))
    ensures LinkGitHubAccount(users, rows, userId, grant, githubUserId) ==
              Success(rows + [GitHubAuthRow(userId, NatToString(githubUserId), grant.accessToken, grant.tokenType, grant.scope)])
  {
  }

  /**
   A user who already has a row and links a different GitHub account keeps
   the old account's id on that row, now holding the new account's token.
   */
  lemma {:induction false} RelinkKeepsOldGithubId(users: set<int>, rows: seq<GitHubAuthRow>, userId: int, grant: TokenGrant, githubUserId: nat, k: nat)
    requires userId in users
    requires FirstMatch(rows, userId, NatToString(githubUserId)) == Some(k)
    requires rows[k].userId == userId && rows[k].githubId != NatToString(githubUserId)
    ensures LinkGitHubAccount(users, rows, userId, grant, githubUserId).Success?
    ensures LinkGitHubAccount(users, rows, userId, grant, githubUserId).value[k].githubId != NatToString(githubUserId)
    ensures LinkGitHubAccount(users, rows, userId, grant, githubUserId).value[k].accessToken == grant.accessToken
  {
  }
}
