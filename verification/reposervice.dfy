/**
 `RepositoryService`: the processing pipeline around one repository. The
 request handler fetches metadata and clones, then schedules the background
 pipeline, which analyses the clone, runs one documentation job per
 non-empty group, stores the repository and its groups, and notifies the
 user. Every external step (the analysis, the jobs, the database, the
 publish) is an abstract outcome.
 */
module RepoService {
  import opened Wrappers
  import opened Text
  import opened DocGenerator

  // ---------------------------------------------------------------------
  // _generate_documentation: one job per non-empty group

  /** A dispatched job: the group's 1-based position and its files. */
  datatype Dispatch = Dispatch(index: nat, files: set<string>)

  /** The jobs `_generate_documentation` dispatches, in dispatch order. */
  function Dispatches(groups: seq<set<string>>): seq<Dispatch>
    decreases |groups|
  {
    if groups == [] then []
    else
      var n := |groups|;
      Dispatches(groups[..n - 1]) + (if groups[n - 1] == {} then [] else [Dispatch(n, groups[n - 1])])
  }

  /**
   A job is dispatched for exactly the non-empty groups, tagged with the
   group's 1-based position; an empty group gets no job but keeps its
   position.
   */
  lemma {:induction false} DispatchMembers(groups: seq<set<string>>, d: Dispatch)
    ensures d in Dispatches(groups) <==>
              1 <= d.index <= |groups| && groups[d.index - 1] != {} && d.files == groups[d.index - 1]
    decreases |groups|
  {
    if groups != [] {
      var n := |groups|;
      var init := groups[..n - 1];
      DispatchMembers(init, d);
      if 1 <= d.index <= n - 1 {
        assert init[d.index - 1] == groups[d.index - 1];
      }
    }
  }

  /** Jobs go out in group order, so no group is dispatched twice. */
  lemma {:induction false} DispatchesInOrder(groups: seq<set<string>>)
    ensures forall i, j :: 0 <= i < j < |Dispatches(groups)| ==> Dispatches(groups)[i].index < Dispatches(groups)[j].index
    decreases |groups|
  {
    if groups != [] {
      var n := |groups|;
      var init := groups[..n - 1];
      DispatchesInOrder(init);
      var ds := Dispatches(init);
      forall k | 0 <= k < |ds| ensures ds[k].index < n {
        DispatchMembers(init, ds[k]);
      }
    }
  }

  /** Every job succeeds: `asyncio.gather` returns only when none of them raises. */
  predicate AllJobsSucceed(jobs: seq<Dispatch>, jobOk: Dispatch -> bool) {
    forall i :: 0 <= i < |jobs| ==> jobOk(jobs[i])
  }

  // ---------------------------------------------------------------------
  // _save_repo_to_db

  datatype RepositoryRow = RepositoryRow(id: string, userId: string, name: string, sshUrl: string, docsDir: string)
  datatype FileGroupRow = FileGroupRow(repoId: string, name: string)

  /** What a successful commit stores. */
  datatype Commit = Commit(repository: RepositoryRow, groups: seq<FileGroupRow>)

  /** The name of the group row at 1-based position `i`. */
  function GroupRowName(i: nat): string {
    "Group " + NatToString(i)
  }

  /** One group row per group, empty groups included, in order. */
  function GroupRows(repoId: string, groups: seq<set<string>>): seq<FileGroupRow> {
    seq(|groups|, i requires 0 <= i < |groups| => FileGroupRow(repoId, GroupRowName(i + 1)))
  }

  /**
   `_save_repo_to_db`: a failure of the flush or the commit rolls the
   session back, so either everything is stored or nothing is.
   */
  function SaveRepo(row: RepositoryRow, groups: seq<set<string>>, saveOk: bool): (r: Option<Commit>)
    ensures r.Some? <==> saveOk
    ensures r.Some? ==> r.value.repository == row && |r.value.groups| == |groups|
    ensures r.Some? ==> forall i :: 0 <= i < |groups| ==> r.value.groups[i].repoId == row.id
    ensures r.Some? ==> forall i :: 0 <= i < |groups| ==> r.value.groups[i].name == GroupRowName(i + 1)
  {
    if saveOk then Some(Commit(row, GroupRows(row.id, groups))) else None
  }

  /** The stored group rows have pairwise distinct names. */
  lemma {:induction false} GroupRowNamesDistinct(repoId: string, groups: seq<set<string>>, i: nat, j: nat)
    requires i < j < |groups|
    ensures GroupRows(repoId, groups)[i].name != GroupRows(repoId, groups)[j].name
  {
    if GroupRowName(i + 1) == GroupRowName(j + 1) {
      assert NatToString(i + 1) == GroupRowName(i + 1)[6..];
      assert NatToString(j + 1) == GroupRowName(j + 1)[6..];
      NatToStringInjective(i + 1, j + 1);
    }
  }

  /**
   A job and the row of its group agree on the number: the job writes to
   `group_<k>` and the row is named `Group <k>`.
   */
  lemma {:induction false} JobMatchesGroupRow(repoId: string, groups: seq<set<string>>, d: Dispatch)
    requires d in Dispatches(groups)
    ensures 1 <= d.index <= |GroupRows(repoId, groups)|
    ensures GroupRows(repoId, groups)[d.index - 1].name[6..] == GroupDir(d.index)[6..]
  {
    DispatchMembers(groups, d);
  }

  // ---------------------------------------------------------------------
  // _notify_user

  datatype Notice = Notice(channel: string, status: string, repoId: string, userId: string, docsUrl: string)

  /** The message published when a repository is ready. */
  function Notify(userId: string, repoId: string): Notice {
    Notice("user:" + userId + ":ws", "ready", repoId, userId, "/docs/" + userId + "/" + repoId)
  }

  /** `ENCRYPTED_DIR_ROOT / user_id / repo_id`. */
  function DocsDir(root: string, userId: string, repoId: string): string {
    root + "/" + userId + "/" + repoId
  }

  /** The notice's link and the stored documentation directory end in the same user and repository. */
  lemma {:induction false} NoticeNamesDocsDir(root: string, userId: string, repoId: string)
    ensures EndsWith(DocsDir(root, userId, repoId), Notify(userId, repoId).docsUrl[5..])
    ensures StartsWith(Notify(userId, repoId).docsUrl, "/docs/")
  {
    var tail := "/" + userId + "/" + repoId;
    assert Notify(userId, repoId).docsUrl == "/docs" + tail;
    assert Notify(userId, repoId).docsUrl[5..] == tail;
    assert DocsDir(root, userId, repoId) == root + tail;
  }

  // ---------------------------------------------------------------------
  // _process_repository_background

  /** The outcomes of the pipeline's external steps. */
  datatype Outcomes = Outcomes(
    analysis: Option<seq<set<string>>>,   // `analyze_repository`'s groups, `None` when it raises
    jobOk: Dispatch -> bool,              // whether a dispatched job completes
    saveOk: bool,                         // whether the flush and the commit succeed
    publishOk: bool)                      // whether the publish succeeds

  /** How far the pipeline got. */
  datatype Stage = AnalysisFailed | GenerationFailed | MetadataFailed | SaveFailed | PublishFailed | Notified

  /** What the pipeline leaves behind. */
  datatype Effects = Effects(stage: Stage, jobs: seq<Dispatch>, commit: Option<Commit>, notice: Option<Notice>, tempRemoved: bool)

  /**
   `_process_repository_background`: analyse, generate, save, notify; the
   first step that raises ends the run, the exception is swallowed, and the
   clone is removed in any case unless the URL starts with `zip:`.
   `info` is `repo_info`, whose `name` entry is read only when saving.
   The user is notified exactly when analysis, every job, the save and the
   publish succeed, and the repository is stored exactly when everything up
   to the save succeeds, so a notice never announces an unsaved repository.
   */
  function Background(repoId: string, repoUrl: string, userId: string, info: map<string, string>, docsRoot: string, o: Outcomes): (e: Effects)
    ensures e.tempRemoved <==> !StartsWith(repoUrl, "zip:")
    ensures e.jobs == if o.analysis.Some? then Dispatches(o.analysis.value) else []
    ensures e.commit.Some? <==> SavesUnder(info, o)
    ensures e.notice.Some? <==> SavesUnder(info, o) && o.publishOk
    ensures e.stage == Notified <==> e.notice.Some?
    ensures e.notice.Some? ==> e.commit.Some? && e.notice.value == Notify(userId, repoId)
    ensures e.commit.Some? ==>
              e.commit.value.repository == RepositoryRow(repoId, userId, info["name"], repoUrl, DocsDir(docsRoot, userId, repoId)) &&
              |e.commit.value.groups| == |o.analysis.value|
  {
    var cleanup := !StartsWith(repoUrl, "zip:");
    match o.analysis
    case None => Effects(AnalysisFailed, [], None, None, cleanup)
    case Some(groups) =>
      var jobs := Dispatches(groups);
      if !AllJobsSucceed(jobs, o.jobOk) then Effects(GenerationFailed, jobs, None, None, cleanup)
      else if "name" !in info then Effects(MetadataFailed, jobs, None, None, cleanup)
      else
        var row := RepositoryRow(repoId, userId, info["name"], repoUrl, DocsDir(docsRoot, userId, repoId));
        match SaveRepo(row, groups, o.saveOk)
        case None => Effects(SaveFailed, jobs, None, None, cleanup)
        case Some(commit) =>
          if o.publishOk then Effects(Notified, jobs, Some(commit), Some(Notify(userId, repoId)), cleanup)
          else Effects(PublishFailed, jobs, Some(commit), None, cleanup)
  }

  /** Whether every step up to and including the save succeeds. */
  predicate SavesUnder(info: map<string, string>, o: Outcomes) {
    o.analysis.Some? && AllJobsSucceed(Dispatches(o.analysis.value), o.jobOk) && "name" in info && o.saveOk
  }

  /**
   The ZIP upload passes `ZIP Archive: <name>` as the URL, which never
   starts with `zip:`, so its extracted directory is always removed.
   */
  lemma {:induction false} ZipUploadIsAlwaysCleanedUp(repoId: string, archiveName: string, userId: string, docsRoot: string, o: Outcomes)
    ensures Background(repoId, "ZIP Archive: " + archiveName, userId, map["name" := archiveName], docsRoot, o).tempRemoved
  {
    var url := "ZIP Archive: " + archiveName;
    assert url[0] == 'Z';
    assert !StartsWith(url, "zip:");
  }

  // ---------------------------------------------------------------------
  // process_repository

  datatype Accepted = Accepted(status: string, repoId: string, userId: string)

  /** The arguments the background pipeline is scheduled with. */
  datatype Task = Task(repoId: string, tempDir: string, repoUrl: string, userId: string, info: map<string, string>)

  const CloneFailed: string := "500: Failed to clone repository"

  /**
   `process_repository`. `info` and `cloned` are the outcomes of the
   metadata request and of the clone, failures carrying `str(e)`; `onDisk`
   stands for `os.path.exists`. Whatever goes wrong, even a 404 from the
   metadata request, is reported as a 500.
   */
  function ProcessRepository(repoUrl: string, userId: string, info: Result<map<string, string>, string>,
                             cloned: Result<string, string>, onDisk: set<string>, repoId: string): (r: (Result<Accepted, HttpError>, Option<Task>))
    ensures r.0.Success? <==> info.Success? && cloned.Success? && cloned.value in onDisk
    ensures r.0.Failure? ==> r.0.error.status == 500 && r.1.None?
    ensures r.0.Failure? ==> StartsWith(r.0.error.detail, "Repository processing failed: ")
    ensures r.0.Success? ==> r.1 == Some(Task(repoId, cloned.value, repoUrl, userId, info.value))
    ensures r.0.Success? ==> r.0.value == Accepted("processing", repoId, userId)
  {
    var failed := (msg: string) => (Failure(HttpError(500, "Repository processing failed: " + msg)), None);
    match info
    case Failure(msg) => failed(msg)
    case Success(meta) =>
      match cloned
      case Failure(msg) => failed(msg)
      case Success(dir) =>
        if dir !in onDisk then failed(CloneFailed)
        else (Success(Accepted("processing", repoId, userId)), Some(Task(repoId, dir, repoUrl, userId, meta)))
  }

  // ---------------------------------------------------------------------
  // _get_repository_by_url

  /** Index of the first row with this URL and owner. */
  function FirstRow(rows: seq<RepositoryRow>, url: string, userId: string): (r: Option<nat>)
    ensures r.Some? ==> r.value < |rows| && rows[r.value].sshUrl == url && rows[r.value].userId == userId
    ensures r.Some? ==> forall j :: 0 <= j < r.value ==> !(rows[j].sshUrl == url && rows[j].userId == userId)
    ensures r.None? <==> forall j :: 0 <= j < |rows| ==> !(rows[j].sshUrl == url && rows[j].userId == userId)
    decreases |rows|
  {
    if rows == [] then None
    else if rows[0].sshUrl == url && rows[0].userId == userId then Some(0)
    else
      match FirstRow(rows[1..], url, userId)
      case None => None
      case Some(k) => Some(k + 1)
  }

  /** `_get_repository_by_url`: one trailing `.git` is dropped before the lookup. */
  function FindRepository(rows: seq<RepositoryRow>, url: string, userId: string): Option<RepositoryRow> {
    match FirstRow(rows, DropSuffix(url, ".git"), userId)
    case None => None
    case Some(k) => Some(rows[k])
  }

  /**
   With and without `.git` the lookup finds the same row; and because the
   URL is stored as given, a repository saved from a `.git` URL is never the
   one found for that URL.
   */
  lemma {:induction false} GitSuffixIgnored(rows: seq<RepositoryRow>, url: string, userId: string)
    requires !EndsWith(url, ".git")
    ensures FindRepository(rows, url + ".git", userId) == FindRepository(rows, url, userId)
    ensures FindRepository(rows, url + ".git", userId).Some? ==> FindRepository(rows, url + ".git", userId).value.sshUrl == url
  {
    var u := url + ".git";
    assert EndsWith(u, ".git") by {
      assert u[|u| - 4..] == ".git";
    }
    assert DropSuffix(u, ".git") == url;
  }
}
