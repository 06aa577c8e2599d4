/** The older, add-only mirror of the BLS `pr` directory: every file named by a link on the
    listing page is uploaded unless its key was already in the bucket when the run began.
    Nothing is ever deleted or rewritten, and a download that fails or that
    `raise_for_status` rejects ends the run. */
module AddOnlySync {
  import opened Wrappers
  import opened Text
  import opened Listing
  import opened Http
  import opened ObjectStore

  /** `list_remote_files`: the last path segment of every link on the listing page, in page
      order with duplicates kept; the page is scanned whatever its status. */
  function RemoteFiles(index: Fetched<string>): Result<seq<string>, SyncError> {
    match index
    case NetworkError => Failure(NetworkFailure(BLS_ROOT))
    case Response(_, text) => Success(ScanAnchors(text, 0))
  }

  /** Every listed file is a plain file name, so none of them ends in `/` and none of them
      falls under the reserved prefix. */
  lemma ListedFilesArePlain(index: Fetched<string>)
    requires RemoteFiles(index).Success?
    ensures var files := RemoteFiles(index).value;
      forall k :: 0 <= k < |files| ==> IsFileName(files[k]) && !EndsWith(files[k], "/") && !IsReserved(files[k])
  {
    var files := RemoteFiles(index).value;
    forall k | 0 <= k < |files|
      ensures !EndsWith(files[k], "/") && !IsReserved(files[k])
    {
      NoSlashNoFolder(files[k]);
      SlashFreeNotReserved(files[k]);
    }
  }

  /** `list_s3_keys` drained into a set: the key of every object on every page. */
  method ListS3Keys(store: Bucket, pages: seq<seq<Summary>>) returns (keys: set<string>)
    requires IsListingOf(pages, store.objects)
    ensures keys == store.objects.Keys
  {
    keys := {};
    var p := 0;
    while p < |pages|
      invariant p <= |pages|
      invariant keys == ListedKeys(pages[..p])
    {
      var page := pages[p];
      assert pages[..p + 1][..p] == pages[..p];
      var e := 0;
      while e < |page|
        invariant e <= |page|
        invariant keys == ListedKeys(pages[..p]) + PageKeys(page[..e])
      {
        assert page[..e + 1] == page[..e] + [page[e]];
        keys := keys + {page[e].key};
        e := e + 1;
      }
      assert page[..e] == page;
      p := p + 1;
    }
    assert pages[..p] == pages;
  }

  /** The loop passes over a name that looks like a folder or that was already in the bucket. */
  predicate Skipped(name: string, existing: set<string>) {
    EndsWith(name, "/") || name in existing
  }

  /** The names the loop downloads and uploads, in listing order, if nothing stops it. */
  function Attempts(files: seq<string>, existing: set<string>): seq<string> {
    if files == [] then []
    else
      var last := files[|files| - 1];
      Attempts(files[..|files| - 1], existing) + (if Skipped(last, existing) then [] else [last])
  }

  /** A name is attempted exactly when it is listed, is no folder and was not in the bucket. */
  lemma {:induction false} AttemptsMembers(files: seq<string>, existing: set<string>)
    ensures forall n :: n in Attempts(files, existing) <==> n in files && !Skipped(n, existing)
  {
    if files != [] {
      var init := files[..|files| - 1];
      AttemptsMembers(init, existing);
      assert forall n :: n in files <==> n in init || n == files[|files| - 1];
    }
  }

  /** One more listed name: the attempts grow by that name exactly when it is not skipped. */
  lemma AttemptsStep(files: seq<string>, i: nat, existing: set<string>)
    requires i < |files|
    ensures Attempts(files[..i + 1], existing)
         == Attempts(files[..i], existing) + (if Skipped(files[i], existing) then [] else [files[i]])
  {
    assert files[..i + 1][..i] == files[..i];
  }

  /** The attempts over a prefix of the names are a prefix of all the attempts. */
  lemma {:induction false} AttemptsPrefix(files: seq<string>, i: nat, existing: set<string>)
    requires i <= |files|
    ensures var all, some := Attempts(files, existing), Attempts(files[..i], existing);
      |some| <= |all| && all[..|some|] == some
    decreases |files| - i
  {
    if i < |files| {
      assert files[..i + 1][..i] == files[..i];
      AttemptsPrefix(files, i + 1, existing);
    } else {
      assert files[..i] == files;
    }
  }

  /** A download the loop goes on with: an answer whose status `raise_for_status` accepts. */
  predicate Accepted(f: Fetched<Bytes>) {
    f.Response? && !RaisesForStatus(f.status)
  }

  /** How many of the attempted names, from the first, are downloaded before one is refused. */
  function Served(names: seq<string>, fetch: string -> Fetched<Bytes>): (k: nat)
    ensures k <= |names|
    ensures forall i :: 0 <= i < k ==> Accepted(fetch(UrlOf(names[i])))
    ensures k < |names| ==> !Accepted(fetch(UrlOf(names[k])))
  {
    if names == [] then 0
    else
      var k := Served(names[..|names| - 1], fetch);
      if k < |names| - 1 || !Accepted(fetch(UrlOf(names[|names| - 1]))) then k else |names|
  }

  /** `k` is where the downloads stop when all before it are accepted and the one at `k` is not. */
  lemma ServedAt(names: seq<string>, fetch: string -> Fetched<Bytes>, k: nat)
    requires k <= |names|
    requires forall i :: 0 <= i < k ==> Accepted(fetch(UrlOf(names[i])))
    requires k < |names| ==> !Accepted(fetch(UrlOf(names[k])))
    ensures Served(names, fetch) == k
  {
  }

  /** The error a refused download raises: the request's own failure, or `HTTPError`. */
  function Refusal(url: string, f: Fetched<Bytes>): (e: SyncError)
    requires !Accepted(f)
    ensures e.HttpStatus? ==> f.Response? && RaisesForStatus(e.status)
    ensures (e.NetworkFailure? || e.HttpStatus?) && e.url == url
  {
    if f.NetworkError? then NetworkFailure(url) else HttpStatus(url, f.status)
  }

  /** What the upload loop ends with: the first refused download, if any. */
  function AddOutcome(attempts: seq<string>, fetch: string -> Fetched<Bytes>): Result<(), SyncError> {
    var k := Served(attempts, fetch);
    if k < |attempts| then Failure(Refusal(UrlOf(attempts[k]), fetch(UrlOf(attempts[k])))) else Success(())
  }

  /** `sync`: list the remote files, take the bucket's keys once, then upload each listed
      file whose key is not among them; the first refused download ends the run and keeps
      the uploads before it. */
  method Sync(store: Bucket, index: Fetched<string>, fetch: string -> Fetched<Bytes>,
              pages: seq<seq<Summary>>, now: int)
    returns (r: Result<(), SyncError>)
    requires IsListingOf(pages, store.objects)
    modifies store
    ensures RemoteFiles(index).Failure? ==>
      && r == Failure(RemoteFiles(index).error)
      && store.objects == old(store.objects) && store.requests == old(store.requests)
    ensures RemoteFiles(index).Success? ==>
      var attempts := Attempts(RemoteFiles(index).value, old(store.objects).Keys);
      && r == AddOutcome(attempts, fetch)
      && store.objects == AfterUploads(old(store.objects), attempts[..Served(attempts, fetch)], fetch, now)
      && store.requests == old(store.requests) + PutRequests(attempts[..Served(attempts, fetch)])
  {
    if index.NetworkError? {
      return Failure(NetworkFailure(BLS_ROOT));
    }
    var files := ScanAnchors(index.content, 0);
    var existing := ListS3Keys(store, pages);
    ghost var done: seq<string> := [];
    assert files[..0] == [];
    var i := 0;
    while i < |files|
      invariant i <= |files| && existing == old(store.objects).Keys
      invariant done == Attempts(files[..i], existing)
      invariant Progress(store.objects, store.requests, old(store.objects), old(store.requests), done, fetch, now)
    {
      var filename := files[i];
      if Skipped(filename, existing) {
        SkippedStep(files, i, existing);
      } else {
        var url := UrlOf(filename);
        var res := fetch(url);
        if !Accepted(res) {
          RefusedExit(files, i, existing, fetch, done, old(store.objects), old(store.requests), store.objects, store.requests, now);
          return Failure(Refusal(url, res));
        }
        UploadedStep(files, i, existing, fetch, done, old(store.objects), old(store.requests), store.objects, store.requests, now);
        store.PutObject(filename, res.content, BLS_METADATA, now);
        done := done + [filename];
      }
      i := i + 1;
    }
    CompletedExit(files, existing, fetch, done, old(store.objects), old(store.requests), store.objects, store.requests, now);
    r := Success(());
  }

  /** The loop's state after the uploads `done`: all of them accepted, the bucket and its
      requests moved by exactly those uploads. */
  ghost predicate Progress(objects: map<string, StoredObject>, requests: seq<Request>,
                           base: map<string, StoredObject>, baseRequests: seq<Request>,
                           done: seq<string>, fetch: string -> Fetched<Bytes>, now: int) {
    && Served(done, fetch) == |done|
    && objects == AfterUploads(base, done, fetch, now)
    && requests == baseRequests + PutRequests(done)
  }

  /** A skipped name leaves the attempts as they were. */
  lemma SkippedStep(files: seq<string>, i: nat, existing: set<string>)
    requires i < |files| && Skipped(files[i], existing)
    ensures Attempts(files[..i + 1], existing) == Attempts(files[..i], existing)
  {
    AttemptsStep(files, i, existing);
  }

  /** An uploaded name extends the attempts made so far, keeps them all accepted, and moves
      the bucket and its requests by exactly that upload. */
  lemma UploadedStep(files: seq<string>, i: nat, existing: set<string>, fetch: string -> Fetched<Bytes>,
                     done: seq<string>, base: map<string, StoredObject>, baseRequests: seq<Request>,
                     objects: map<string, StoredObject>, requests: seq<Request>, now: int)
    requires i < |files| && !Skipped(files[i], existing)
    requires Accepted(fetch(UrlOf(files[i])))
    requires done == Attempts(files[..i], existing)
    requires Served(done, fetch) == |done|
    requires objects == AfterUploads(base, done, fetch, now)
    requires requests == baseRequests + PutRequests(done)
    ensures var name := files[i];
      && Attempts(files[..i + 1], existing) == done + [name]
      && Served(done + [name], fetch) == |done + [name]|
      && objects[name := StoredObject(fetch(UrlOf(name)).content, BLS_METADATA, now)] == AfterUploads(base, done + [name], fetch, now)
      && requests + [Put(name)] == baseRequests + PutRequests(done + [name])
  {
    var name := files[i];
    AttemptsStep(files, i, existing);
    ServedExtend(done, name, fetch);
    UploadsSnoc(base, done, name, fetch, now);
    assert baseRequests + (PutRequests(done) + [Put(name)]) == baseRequests + PutRequests(done) + [Put(name)];
  }

  /** Appending an accepted name to a fully served sequence keeps it fully served. */
  lemma ServedExtend(done: seq<string>, name: string, fetch: string -> Fetched<Bytes>)
    requires Served(done, fetch) == |done| && Accepted(fetch(UrlOf(name)))
    ensures Served(done + [name], fetch) == |done| + 1
  {
    ServedAt(done + [name], fetch, |done| + 1);
  }

  /** A refused download of the `i`-th name, after every earlier attempt was accepted, is the
      outcome of the whole loop, with the bucket as the earlier uploads left it. */
  lemma RefusedExit(files: seq<string>, i: nat, existing: set<string>, fetch: string -> Fetched<Bytes>,
                    done: seq<string>, base: map<string, StoredObject>, baseRequests: seq<Request>,
                    objects: map<string, StoredObject>, requests: seq<Request>, now: int)
    requires i < |files| && !Skipped(files[i], existing)
    requires !Accepted(fetch(UrlOf(files[i])))
    requires done == Attempts(files[..i], existing)
    requires Served(done, fetch) == |done|
    requires objects == AfterUploads(base, done, fetch, now)
    requires requests == baseRequests + PutRequests(done)
    ensures var attempts := Attempts(files, existing);
      && Failure(Refusal(UrlOf(files[i]), fetch(UrlOf(files[i])))) == AddOutcome(attempts, fetch)
      && objects == AfterUploads(base, attempts[..Served(attempts, fetch)], fetch, now)
      && requests == baseRequests + PutRequests(attempts[..Served(attempts, fetch)])
  {
    StopsAtRefusal(files, i, existing, fetch);
  }

  /** A refused download of the `i`-th name, all attempts before it having been accepted, is
      where the whole loop stops. */
  lemma StopsAtRefusal(files: seq<string>, i: nat, existing: set<string>, fetch: string -> Fetched<Bytes>)
    requires i < |files| && !Skipped(files[i], existing)
    requires !Accepted(fetch(UrlOf(files[i])))
    requires Served(Attempts(files[..i], existing), fetch) == |Attempts(files[..i], existing)|
    ensures var attempts, done := Attempts(files, existing), Attempts(files[..i], existing);
      && Served(attempts, fetch) == |done| < |attempts|
      && attempts[..|done|] == done
      && attempts[|done|] == files[i]
  {
    var done, attempts := Attempts(files[..i], existing), Attempts(files, existing);
    var upto := Attempts(files[..i + 1], existing);
    AttemptsStep(files, i, existing);
    assert upto == done + [files[i]];
    AttemptsPrefix(files, i + 1, existing);
    assert attempts[..|done|] == upto[..|done|] == done;
    assert attempts[|done|] == upto[|done|] == files[i];
    ServedAt(attempts, fetch, |done|);
  }

  /** A loop through all the names without a refused download made every attempt, and the
      bucket and its requests are as all those uploads leave them. */
  lemma CompletedExit(files: seq<string>, existing: set<string>, fetch: string -> Fetched<Bytes>, done: seq<string>,
                      base: map<string, StoredObject>, baseRequests: seq<Request>,
                      objects: map<string, StoredObject>, requests: seq<Request>, now: int)
    requires done == Attempts(files[..|files|], existing)
    requires Progress(objects, requests, base, baseRequests, done, fetch, now)
    ensures var attempts := Attempts(files, existing);
      && AddOutcome(attempts, fetch) == Success(())
      && objects == AfterUploads(base, attempts[..Served(attempts, fetch)], fetch, now)
      && requests == baseRequests + PutRequests(attempts[..Served(attempts, fetch)])
  {
    assert files[..|files|] == files;
    assert done[..|done|] == done;
  }

  /** The add-only contract: a run, however it ends, keeps every object that was in the
      bucket as it was, and adds only listed files that were absent, each with its fetched
      content. */
  lemma NeverDeletesOrOverwrites(objects: map<string, StoredObject>, files: seq<string>,
                                 fetch: string -> Fetched<Bytes>, now: int, k: nat)
    requires k <= |Attempts(files, objects.Keys)|
    ensures var written := Attempts(files, objects.Keys)[..k];
      var final := AfterUploads(objects, written, fetch, now);
      && (forall key :: key in final <==> key in objects || key in written)
      && (forall key :: key in objects ==> key in final && final[key] == objects[key])
      && (forall n :: n in written ==> n in files && n !in objects && final[n] == Uploaded(fetch, n, now))
  {
    var attempts := Attempts(files, objects.Keys);
    var written := attempts[..k];
    AttemptsMembers(files, objects.Keys);
    AfterUploadsEffect(objects, written, fetch, now);
    assert forall n :: n in written ==> n in attempts;
  }

  /** After a run that completes, a listed file is in the bucket with its fetched content
      exactly when it was absent before; every other key is as it was. */
  lemma UploadIffAbsent(objects: map<string, StoredObject>, index: Fetched<string>,
                        fetch: string -> Fetched<Bytes>, now: int)
    requires RemoteFiles(index).Success?
    ensures var files := RemoteFiles(index).value;
      var attempts := Attempts(files, objects.Keys);
      var final := AfterUploads(objects, attempts, fetch, now);
      && (forall n :: n in attempts <==> n in files && n !in objects)
      && (forall key :: key in final <==> key in objects || key in files)
      && (forall n :: n in files && n !in objects ==> final[n] == Uploaded(fetch, n, now))
      && (forall key :: key in objects ==> final[key] == objects[key])
  {
    var files := RemoteFiles(index).value;
    var attempts := Attempts(files, objects.Keys);
    ListedFilesArePlain(index);
    AttemptsMembers(files, objects.Keys);
    assert forall n :: n in files ==> !EndsWith(n, "/");
    assert attempts[..|attempts|] == attempts;
    NeverDeletesOrOverwrites(objects, files, fetch, now, |attempts|);
  }

  /** With an empty bucket and two distinct listed files that both download, the bucket
      ends up with exactly those two keys, each written with the BLS metadata. */
  lemma TwoFilesIntoEmptyBucket(first: string, second: string, fetch: string -> Fetched<Bytes>, now: int)
    requires '/' !in first && '/' !in second && first != second
    requires Accepted(fetch(UrlOf(first))) && Accepted(fetch(UrlOf(second)))
    ensures var attempts := Attempts([first, second], {});
      var final := AfterUploads(map[], attempts, fetch, now);
      && AddOutcome(attempts, fetch) == Success(())
      && (forall key :: key in final <==> key == first || key == second)
      && final[first].metadata == BLS_METADATA && final[second].metadata == BLS_METADATA
  {
    var files := [first, second];
    NoSlashNoFolder(first);
    NoSlashNoFolder(second);
    AttemptsStep(files, 0, {});
    AttemptsStep(files, 1, {});
    assert files[..0] == [] && files[..2] == files;
    var attempts := Attempts(files, {});
    assert attempts == files;
    assert [] + [first] == [first] && [first] + [second] == files;
    ServedExtend([], first, fetch);
    ServedExtend([first], second, fetch);
    AfterUploadsEffect(map[], attempts, fetch, now);
    assert forall n :: n in files <==> n == first || n == second;
  }

  /** A name without a `/` does not look like a folder. */
  lemma NoSlashNoFolder(name: string)
    requires '/' !in name
    ensures !EndsWith(name, "/")
  {
    if name != [] {
      assert name[|name| - 1] in name;
    }
  }
}
