/**
 `generate_docs_for_group`: the per-group worker. It walks the group's files
 in list order, skips a file that does not exist, and isolates every other
 failure to the file it happened in. A successful file's document is stored
 under its base name plus `.md` in the directory `group_<k>`, so a later file
 with the same base name overwrites an earlier one.
 */
module DocGenerator {
  import opened Wrappers
  import opened Text
  import opened Paths
  import opened Analyzer

  /**
   What the worker sees: the paths `os.path.exists` accepts, what reading a
   file gives (`None` when it raises), the analyser's `file_details`, and
   the documentation generator (`generate_documentation_sync`, `None` when
   it raises).
   */
  datatype Job = Job(
    present: set<string>,
    read: string -> Option<string>,
    details: map<string, FileDetails>,
    generate: (string, string, set<string>) -> Option<string>)

  /** The directory a group's documents go to. */
  function GroupDir(k: nat): string {
    "group_" + NatToString(k)
  }

  /** Distinct groups write to distinct directories. */
  lemma {:induction false} GroupDirsDistinct(k: nat, m: nat)
    requires k != m
    ensures GroupDir(k) != GroupDir(m)
  {
    if GroupDir(k) == GroupDir(m) {
      assert NatToString(k) == GroupDir(k)[6..];
      assert NatToString(m) == GroupDir(m)[6..];
      NatToStringInjective(k, m);
    }
  }

  /** The document name of a file: its base name plus `.md`. */
  function DocName(f: string): string {
    BaseName(f) + ".md"
  }

  /** `file_details.get(f, {}).get("imports", [])`. */
  function DepsFor(details: map<string, FileDetails>, f: string): (deps: set<string>)
    ensures f in details && details[f].Details? ==> deps == details[f].imports
    ensures f !in details || details[f].NoDetails? ==> deps == {}
  {
    if f in details && details[f].Details? then details[f].imports else {}
  }

  /** The document one file yields, or `None` when it is skipped or fails. */
  function Outcome(job: Job, f: string): (doc: Option<string>)
    ensures doc.Some? <==>
              f in job.present && job.read(f).Some? &&
              job.generate(job.read(f).value, f, DepsFor(job.details, f)).Some?
    ensures doc.Some? ==> doc.value == job.generate(job.read(f).value, f, DepsFor(job.details, f)).value
  {
    if f !in job.present then None
    else
      match job.read(f)
      case None => None
      case Some(content) => job.generate(content, f, DepsFor(job.details, f))
  }

  predicate Written(job: Job, f: string) {
    Outcome(job, f).Some?
  }

  /**
   `group[i]` yields a document, and no later file among the first `n`
   yields one under the same name.
   */
  predicate LastWriter(job: Job, group: seq<string>, n: nat, i: nat)
    requires n <= |group|
  {
    i < n && Written(job, group[i]) &&
    forall j :: i < j < n ==> !(Written(job, group[j]) && DocName(group[j]) == DocName(group[i]))
  }

  /** The documents in the group directory after the worker has run over `group`, by name. */
  function WriteDocs(job: Job, group: seq<string>): map<string, string>
    decreases |group|
  {
    if group == [] then map[]
    else
      var f := group[|group| - 1];
      var docs := WriteDocs(job, group[..|group| - 1]);
      match Outcome(job, f)
      case None => docs
      case Some(doc) => docs[DocName(f) := doc]
  }

  /** One more file: its document, if any, is stored over whatever had its name. */
  lemma {:induction false} WriteDocsLast(job: Job, group: seq<string>)
    requires group != []
    ensures var f := group[|group| - 1];
            Written(job, f) ==>
              WriteDocs(job, group) == WriteDocs(job, group[..|group| - 1])[DocName(f) := Outcome(job, f).value]
    ensures !Written(job, group[|group| - 1]) ==> WriteDocs(job, group) == WriteDocs(job, group[..|group| - 1])
  {
  }

  /** What the worker leaves behind: its directory and the documents in it. */
  datatype GroupOutput = GroupOutput(dir: string, docs: map<string, string>)

  /** `generate_docs_for_group(k, group, ...)`. */
  method GenerateDocsForGroup(k: nat, group: seq<string>, job: Job) returns (out: GroupOutput)
    ensures out.dir == GroupDir(k)
    ensures out.docs == WriteDocs(job, group)
  {
    var docs: map<string, string> := map[];
    var i := 0;
    while i < |group|
      invariant i <= |group|
      invariant docs == WriteDocs(job, group[..i])
    {
      var f := group[i];
      assert group[..i + 1][..i] == group[..i];
      if f in job.present {
        match job.read(f) {
          case None =>
          case Some(content) =>
            var generated := job.generate(content, f, DepsFor(job.details, f));
            if generated.Some? {
              docs := docs[DocName(f) := generated.value];
            }
        }
      }
      i := i + 1;
    }
    assert group[..|group|] == group;
    out := GroupOutput(GroupDir(k), docs);
  }

  /**
   The document stored under a name is the one of the last file in the group
   that yielded a document under that name; a failure of any other file,
   earlier or later, does not disturb it.
   */
  lemma {:induction false} LastWriterWins(job: Job, group: seq<string>, i: nat)
    requires LastWriter(job, group, |group|, i)
    ensures DocName(group[i]) in WriteDocs(job, group)
    ensures WriteDocs(job, group)[DocName(group[i])] == Outcome(job, group[i]).value
    decreases |group|
  {
    var n := |group|;
    var init := group[..n - 1];
    WriteDocsLast(job, group);
    if i < n - 1 {
      assert forall j :: 0 <= j < n - 1 ==> init[j] == group[j];
      assert LastWriter(job, init, n - 1, i);
      LastWriterWins(job, init, i);
      assert !(Written(job, group[n - 1]) && DocName(group[n - 1]) == DocName(group[i]));
    }
  }

  /**
   A document name is present exactly when some file of the group with that
   name yielded a document.
   */
  lemma {:induction false} DocNamesWritten(job: Job, group: seq<string>, name: string)
    ensures name in WriteDocs(job, group) <==>
              exists i :: 0 <= i < |group| && Written(job, group[i]) && DocName(group[i]) == name
    decreases |group|
  {
    if group != [] {
      var n := |group|;
      var init := group[..n - 1];
      DocNamesWritten(job, init, name);
      if name in WriteDocs(job, group) {
        if name in WriteDocs(job, init) {
          var i :| 0 <= i < n - 1 && Written(job, init[i]) && DocName(init[i]) == name;
          assert init[i] == group[i];
        } else {
          assert Written(job, group[n - 1]) && DocName(group[n - 1]) == name;
        }
      } else {
        forall i | 0 <= i < n ensures !(Written(job, group[i]) && DocName(group[i]) == name) {
          if i < n - 1 {
            assert init[i] == group[i];
          }
        }
      }
    }
  }

  /** A file that is missing, unreadable or whose generation fails leaves the documents as they were. */
  lemma {:induction false} FailedFileWritesNothing(job: Job, group: seq<string>, f: string)
    requires !Written(job, f)
    ensures WriteDocs(job, group + [f]) == WriteDocs(job, group)
  {
    assert (group + [f])[..|group|] == group;
  }

  /** Two files with the same base name in one group: only the later one's document survives. */
  lemma {:induction false} SameNameOverwrites(job: Job, a: string, b: string)
    requires Written(job, a) && Written(job, b) && BaseName(a) == BaseName(b)
    ensures WriteDocs(job, [a, b]) == map[DocName(b) := Outcome(job, b).value]
  {
    assert [a, b][..1] == [a];
    assert [a][..0] == [];
    WriteDocsLast(job, [a]);
    WriteDocsLast(job, [a, b]);
  }
}
