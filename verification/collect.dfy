/**
 `_collect_files`: the walk of the repository is bucketed by lower-cased
 extension into `files_by_extension`, a `defaultdict(list)` whose keys keep
 the order in which each extension was first seen. Later stages iterate the
 buckets in that order, each bucket in walk order.
 */
module Collect {
  import opened Text
  import opened Paths
  import opened Languages

  /** One entry of `files_by_extension`. */
  datatype Bucket = Bucket(ext: string, files: seq<string>)

  /** `files_by_extension[ext].append(file)`: a new key goes to the end. */
  function AddFile(buckets: seq<Bucket>, ext: string, file: string): (r: seq<Bucket>)
    ensures |r| == |buckets| || |r| == |buckets| + 1
    ensures forall i :: 0 <= i < |buckets| ==> r[i].ext == buckets[i].ext
    ensures |r| == |buckets| + 1 <==> forall i :: 0 <= i < |buckets| ==> buckets[i].ext != ext
    ensures |r| == |buckets| + 1 ==> r[|buckets|] == Bucket(ext, [file])
    decreases |buckets|
  {
    if buckets == [] then [Bucket(ext, [file])]
    else if buckets[0].ext == ext then [Bucket(ext, buckets[0].files + [file])] + buckets[1..]
    else [buckets[0]] + AddFile(buckets[1..], ext, file)
  }

  /** Appending a file adds exactly that file to the flattened listing. */
  lemma {:induction false} AddFileAddsOne(buckets: seq<Bucket>, ext: string, file: string)
    ensures multiset(Flatten(AddFile(buckets, ext, file))) == multiset(Flatten(buckets)) + multiset{file}
    decreases |buckets|
  {
    if buckets != [] {
      assert buckets == [buckets[0]] + buckets[1..];
      FlattenCons(buckets[0], buckets[1..]);
      if buckets[0].ext == ext {
        FlattenCons(Bucket(ext, buckets[0].files + [file]), buckets[1..]);
      } else {
        AddFileAddsOne(buckets[1..], ext, file);
        FlattenCons(buckets[0], AddFile(buckets[1..], ext, file));
      }
    }
  }

  /** Appending a file under its own extension keeps the buckets well keyed. */
  lemma {:induction false} AddFileKeepsKeys(buckets: seq<Bucket>, ext: string, file: string, key: string -> string)
    requires WellKeyed(buckets, key)
    requires key(file) == ext
    ensures WellKeyed(AddFile(buckets, ext, file), key)
  {
    AddFileKeepsDistinct(buckets, ext, file);
    AddFileKeepsFilesKeyed(buckets, ext, file, key);
  }

  lemma {:induction false} AddFileKeepsDistinct(buckets: seq<Bucket>, ext: string, file: string)
    requires DistinctKeys(buckets)
    ensures DistinctKeys(AddFile(buckets, ext, file))
    decreases |buckets|
  {
    if buckets != [] && buckets[0].ext != ext {
      var r := AddFile(buckets, ext, file);
      var rest := AddFile(buckets[1..], ext, file);
      AddFileKeepsDistinct(buckets[1..], ext, file);
      assert r == [buckets[0]] + rest;
      assert forall j :: 0 <= j < |rest| ==> rest[j].ext != buckets[0].ext by {
        forall j | 0 <= j < |rest| ensures rest[j].ext != buckets[0].ext {
          if j < |buckets| - 1 {
            assert rest[j].ext == buckets[j + 1].ext;
          } else {
            assert rest[j].ext == ext;
          }
        }
      }
      forall i, j | 0 <= i < j < |r| ensures r[i].ext != r[j].ext {
        if i == 0 {
          assert r[j] == rest[j - 1];
        } else {
          assert r[i] == rest[i - 1] && r[j] == rest[j - 1];
        }
      }
    }
  }

  lemma {:induction false} AddFileKeepsFilesKeyed(buckets: seq<Bucket>, ext: string, file: string, key: string -> string)
    requires FilesKeyed(buckets, key)
    requires key(file) == ext
    ensures FilesKeyed(AddFile(buckets, ext, file), key)
    decreases |buckets|
  {
    var r := AddFile(buckets, ext, file);
    if buckets == [] {
      assert r == [Bucket(ext, [file])];
    } else if buckets[0].ext == ext {
      assert r == [Bucket(ext, buckets[0].files + [file])] + buckets[1..];
      forall i, k | 0 <= i < |r| && 0 <= k < |r[i].files| ensures key(r[i].files[k]) == r[i].ext {
        if i > 0 {
          assert r[i] == buckets[i];
        }
      }
    } else {
      var rest := AddFile(buckets[1..], ext, file);
      AddFileKeepsFilesKeyed(buckets[1..], ext, file, key);
      assert r == [buckets[0]] + rest;
      forall i, k | 0 <= i < |r| && 0 <= k < |r[i].files| ensures key(r[i].files[k]) == r[i].ext {
        if i > 0 {
          assert r[i] == rest[i - 1];
        }
      }
    }
  }

  lemma {:induction false} AddFileKeysSupported(buckets: seq<Bucket>, ext: string, file: string, ok: string -> bool)
    requires KeysSatisfy(buckets, ok) && ok(ext)
    ensures KeysSatisfy(AddFile(buckets, ext, file), ok)
  {
    var r := AddFile(buckets, ext, file);
    forall i | 0 <= i < |r| ensures ok(r[i].ext) {
      if i < |buckets| {
        assert r[i].ext == buckets[i].ext;
      }
    }
  }

  /** The files of every bucket, bucket after bucket. */
  function Flatten(buckets: seq<Bucket>): seq<string> {
    if buckets == [] then [] else buckets[0].files + Flatten(buckets[1..])
  }

  lemma {:induction false} FlattenCons(b: Bucket, rest: seq<Bucket>)
    ensures Flatten([b] + rest) == b.files + Flatten(rest)
  {
    assert ([b] + rest)[1..] == rest;
  }

  /** The walk's files that `_collect_files` keeps, in walk order. */
  function Kept(walk: seq<string>): (kept: seq<string>)
    ensures forall x :: x in kept <==> x in walk && IsCollected(x)
    decreases |walk|
  {
    if walk == [] then []
    else
      var kept := Kept(walk[..|walk| - 1]);
      var file := walk[|walk| - 1];
      assert walk == walk[..|walk| - 1] + [file];
      if IsCollected(file) then kept + [file] else kept
  }

  /** `_collect_files` over the files of `os.walk`, in walk order. */
  function CollectFiles(walk: seq<string>): seq<Bucket>
    decreases |walk|
  {
    if walk == [] then []
    else
      var buckets := CollectFiles(walk[..|walk| - 1]);
      var file := walk[|walk| - 1];
      if IsCollected(file) then AddFile(buckets, ExtensionKey(file), file) else buckets
  }

  /** The order in which `_build_dependency_graph` visits the collected files. */
  function FileOrder(walk: seq<string>): seq<string> {
    Flatten(CollectFiles(walk))
  }

  /** Bucket keys are distinct table keys, and every file sits in the bucket of its own extension. */
  predicate WellKeyed(buckets: seq<Bucket>, key: string -> string) {
    DistinctKeys(buckets) && FilesKeyed(buckets, key)
  }

  predicate DistinctKeys(buckets: seq<Bucket>) {
    forall i, j :: 0 <= i < j < |buckets| ==> buckets[i].ext != buckets[j].ext
  }

  predicate FilesKeyed(buckets: seq<Bucket>, key: string -> string) {
    forall i, k :: 0 <= i < |buckets| && 0 <= k < |buckets[i].files| ==> key(buckets[i].files[k]) == buckets[i].ext
  }

  predicate KeysSatisfy(buckets: seq<Bucket>, ok: string -> bool) {
    forall i :: 0 <= i < |buckets| ==> ok(buckets[i].ext)
  }

  /** Every bucket key is a key of the extension table. */
  predicate KeysSupported(buckets: seq<Bucket>) {
    KeysSatisfy(buckets, Supported)
  }

  /**
   The buckets are a rearrangement of exactly the kept files: each file of
   the walk with a table extension appears once per occurrence, nothing else
   appears, and each sits under its own lower-cased extension.
   */
  lemma {:induction false} CollectFilesKeepsTableFiles(walk: seq<string>)
    ensures multiset(FileOrder(walk)) == multiset(Kept(walk))
    ensures WellKeyed(CollectFiles(walk), ExtensionKey)
    ensures KeysSupported(CollectFiles(walk))
    decreases |walk|
  {
    if walk != [] {
      var init := walk[..|walk| - 1];
      var file := walk[|walk| - 1];
      CollectFilesKeepsTableFiles(init);
      if IsCollected(file) {
        AddFileAddsOne(CollectFiles(init), ExtensionKey(file), file);
        AddFileKeepsKeys(CollectFiles(init), ExtensionKey(file), file, ExtensionKey);
        AddFileKeysSupported(CollectFiles(init), ExtensionKey(file), file, Supported);
      }
    }
  }

  /** A file is collected exactly when it occurs in the walk and its lower-cased extension is a table key. */
  lemma {:induction false} CollectedIffTableExtension(walk: seq<string>, x: string)
    ensures x in FileOrder(walk) <==> x in walk && Supported(Lower(Extension(x)))
  {
    CollectFilesKeepsTableFiles(walk);
    assert x in FileOrder(walk) <==> x in multiset(FileOrder(walk));
    assert x in Kept(walk) <==> x in multiset(Kept(walk));
  }
}
