/** The object-store bucket both syncs mirror into: objects by key, the paginated listing
    of them, and the requests the bucket has received. */
module ObjectStore {
  import opened Text
  import opened Http

  /** Keys under this prefix belong to the population snapshots and are never reconciled. */
  const RESERVED_PREFIX: string := "datausa/"

  predicate IsReserved(key: string) {
    StartsWith(key, RESERVED_PREFIX)
  }

  /** A key without a `/` (every mirrored file name) is outside the reserved prefix. */
  lemma SlashFreeNotReserved(key: string)
    requires '/' !in key
    ensures !IsReserved(key)
  {
    if |RESERVED_PREFIX| <= |key| {
      assert key[..|RESERVED_PREFIX|][7] == key[7] != '/';
    }
  }

  datatype StoredObject = StoredObject(body: Bytes, metadata: map<string, string>, lastModified: int)

  /** One entry of a listing page: `Key`, `Size`, `LastModified`. */
  datatype Summary = Summary(key: string, size: nat, lastModified: int)

  /** A request the bucket has received, in the order received. */
  datatype Request = Put(key: string) | DeleteBatch(keys: set<string>)

  function PageKeys(page: seq<Summary>): set<string> {
    set e | e in page :: e.key
  }

  /** The keys listed on all pages together. */
  function ListedKeys(pages: seq<seq<Summary>>): set<string> {
    if pages == [] then {} else ListedKeys(pages[..|pages| - 1]) + PageKeys(pages[|pages| - 1])
  }

  predicate Describes(e: Summary, objects: map<string, StoredObject>) {
    e.key in objects && e.size == |objects[e.key].body| && e.lastModified == objects[e.key].lastModified
  }

  /** What the paginator promises: the pages together list every object of the bucket, each
      entry with the object's size and last-modified time. */
  predicate IsListingOf(pages: seq<seq<Summary>>, objects: map<string, StoredObject>) {
    && ListedKeys(pages) == objects.Keys
    && forall p, e :: 0 <= p < |pages| && e in pages[p] ==> Describes(e, objects)
  }

  /** The object `put_object` stores for a mirrored file fetched through `fetch` at time `now`. */
  function Uploaded(fetch: string -> Fetched<Bytes>, name: string, now: int): StoredObject {
    StoredObject(ContentOf(fetch(UrlOf(name))), BLS_METADATA, now)
  }

  /** The bucket after uploading `names` one after the other. */
  function AfterUploads(objects: map<string, StoredObject>, names: seq<string>, fetch: string -> Fetched<Bytes>, now: int)
    : map<string, StoredObject>
  {
    if names == [] then objects
    else AfterUploads(objects, names[..|names| - 1], fetch, now)[names[|names| - 1] := Uploaded(fetch, names[|names| - 1], now)]
  }

  /** Uploading a sequence of names adds or replaces exactly those keys, each with its
      fetched content, and leaves every other object as it was. */
  lemma {:induction false} AfterUploadsEffect(objects: map<string, StoredObject>, names: seq<string>, fetch: string -> Fetched<Bytes>, now: int)
    ensures var r := AfterUploads(objects, names, fetch, now);
      && (forall k :: k in r <==> k in objects || k in names)
      && (forall n :: n in names ==> r[n] == Uploaded(fetch, n, now))
      && (forall k :: k in objects && k !in names ==> r[k] == objects[k])
  {
    if names != [] {
      var init, last := names[..|names| - 1], names[|names| - 1];
      AfterUploadsEffect(objects, init, fetch, now);
      assert names == init + [last];
      var before := AfterUploads(objects, init, fetch, now);
      assert AfterUploads(objects, names, fetch, now) == before[last := Uploaded(fetch, last, now)];
    }
  }

  /** The requests uploading `names` sends, one `Put` per name. */
  function PutRequests(names: seq<string>): (rs: seq<Request>)
    ensures |rs| == |names| && forall i :: 0 <= i < |names| ==> rs[i] == Put(names[i])
  {
    if names == [] then [] else PutRequests(names[..|names| - 1]) + [Put(names[|names| - 1])]
  }

  /** One more upload: the bucket and the requests each grow by that name. */
  lemma UploadsSnoc(objects: map<string, StoredObject>, done: seq<string>, name: string,
                    fetch: string -> Fetched<Bytes>, now: int)
    ensures AfterUploads(objects, done + [name], fetch, now)
         == AfterUploads(objects, done, fetch, now)[name := Uploaded(fetch, name, now)]
    ensures PutRequests(done + [name]) == PutRequests(done) + [Put(name)]
  {
    assert (done + [name])[..|done|] == done;
  }

  class Bucket {
    var objects: map<string, StoredObject>
    ghost var requests: seq<Request>

    constructor ()
      ensures objects == map[] && requests == []
    {
      objects := map[];
      requests := [];
    }

    /** `put_object`: store `body` under `key`, replacing any object there. */
    method PutObject(key: string, body: Bytes, metadata: map<string, string>, now: int)
      modifies this
      ensures objects == old(objects)[key := StoredObject(body, metadata, now)]
      ensures requests == old(requests) + [Put(key)]
    {
      objects := objects[key := StoredObject(body, metadata, now)];
      requests := requests + [Put(key)];
    }

    /** `delete_objects`: one request removing every listed key; absent keys are ignored. */
    method DeleteObjects(keys: set<string>)
      modifies this
      ensures objects == old(objects) - keys
      ensures requests == old(requests) + [DeleteBatch(keys)]
    {
      objects := objects - keys;
      requests := requests + [DeleteBatch(keys)];
    }
  }
}
