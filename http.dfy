/** The HTTP side of both BLS syncs: responses, the BLS root URL and the errors that end a
    run. The network itself is a parameter of each operation, a function from URL to what a
    GET returns. */
module Http {
  import opened Text

  /** Raw bytes of a response or a stored object. */
  type Bytes = seq<bv8>

  /** What a GET yields: a connection failure or timeout, or a response with its status. */
  datatype Fetched<T> = NetworkError | Response(status: int, content: T)

  const BLS_ROOT: string := "https://download.bls.gov/pub/time.series/pr/"

  /** Metadata every mirrored object is written with. */
  const BLS_METADATA: map<string, string> := map["source" := "bls"]

  /** `urljoin(BLS_ROOT, name)` for a plain file name. */
  function UrlOf(name: string): string {
    BLS_ROOT + name
  }

  /** The body of a response (nothing for a failed request). */
  function ContentOf(f: Fetched<Bytes>): Bytes {
    if f.Response? then f.content else []
  }

  /** `raise_for_status()` raises for client (4xx) and server (5xx) statuses only. */
  predicate RaisesForStatus(status: int) {
    400 <= status < 600
  }

  /** Why a sync run stops: the request failed, a status `raise_for_status` rejects, or a
      listing date that `strptime` rejects. */
  datatype SyncError = NetworkFailure(url: string) | HttpStatus(url: string, status: int) | BadTimestamp(text: string)
}
