/** The incremental mirror of the BLS `pr` directory into the bucket: the remote manifest
    read from the listing page, the local manifest read from the bucket's listing, and the
    reconciliation that uploads new and changed files and deletes the ones the remote no
    longer has, leaving the reserved `datausa/` prefix alone. */
module MirrorSync {
  import opened Wrappers
  import opened Text
  import opened Listing
  import opened Http
  import opened ObjectStore

  /** The comparison tolerance, one second, in the microseconds timestamps are counted in. */
  const TOLERANCE: int := 1_000_000

  /** Size in bytes and modification time (microseconds, UTC) of one file. */
  datatype Entry = Entry(size: nat, modified: int)

  /** A manifest as the dict holds it: entries by name, and the names in insertion order. */
  datatype Manifest = Manifest(names: seq<string>, entries: map<string, Entry>)

  /** The names are the entries' keys, each listed once. */
  ghost predicate Ordered(m: Manifest) {
    && (forall i, j :: 0 <= i < j < |m.names| ==> m.names[i] != m.names[j])
    && (forall n :: n in m.entries <==> n in m.names)
  }

  /** `manifest[name] = e`: a new name goes to the end of the order, a known one keeps its place. */
  function Insert(m: Manifest, name: string, e: Entry): (r: Manifest)
    ensures Ordered(m) ==> Ordered(r)
    ensures r.entries == m.entries[name := e]
  {
    Manifest(if name in m.entries then m.names else m.names + [name], m.entries[name := e])
  }

  predicate AllRows(rows: seq<ListingRow>) {
    forall k :: 0 <= k < |rows| ==> IsRow(rows[k])
  }

  /** The remote manifest built from the scanned rows one by one, each entry being the
      integer value of the size digits and the parsed date text, taken as UTC as it is;
      `parse` stands for `strptime`, and the first date text it rejects ends the build. */
  function ManifestOf(rows: seq<ListingRow>, parse: string -> Option<int>): (r: Result<Manifest, SyncError>)
    requires AllRows(rows)
    ensures r.Success? ==> Ordered(r.value)
  {
    if rows == [] then Success(Manifest([], map[]))
    else match ManifestOf(rows[..|rows| - 1], parse)
      case Failure(e) => Failure(e)
      case Success(m) =>
        var row := rows[|rows| - 1];
        match parse(row.stamp)
        case None => Failure(BadTimestamp(row.stamp))
        case Some(ts) => Success(Insert(m, row.name, Entry(DigitsValue(row.sizeDigits), ts)))
  }

  /** The remote manifest of a run, from what the GET of the listing page returned; the
      page is parsed whatever its status. */
  function RemoteOf(listing: Fetched<string>, parse: string -> Option<int>): Result<Manifest, SyncError> {
    match listing
    case NetworkError => Failure(NetworkFailure(BLS_ROOT))
    case Response(_, text) => ManifestOf(ScanRows(text, 0), parse)
  }

  /** The names on the rows, in a set. */
  function RowNames(rows: seq<ListingRow>): set<string> {
    if rows == [] then {} else RowNames(rows[..|rows| - 1]) + {rows[|rows| - 1].name}
  }

  /** A name is in `RowNames(rows)` exactly when some row carries it. */
  lemma {:induction false} RowNamesMembers(rows: seq<ListingRow>)
    ensures forall n :: n in RowNames(rows) <==> exists k :: 0 <= k < |rows| && rows[k].name == n
  {
    if rows != [] {
      var init := rows[..|rows| - 1];
      RowNamesMembers(init);
      forall n | n in RowNames(rows)
        ensures exists k :: 0 <= k < |rows| && rows[k].name == n
      {
        if n == rows[|rows| - 1].name {
          assert rows[|rows| - 1].name == n;
        } else {
          assert n in RowNames(init);
          var k :| 0 <= k < |init| && init[k].name == n;
          assert rows[k].name == n;
        }
      }
      forall n | exists k :: 0 <= k < |rows| && rows[k].name == n
        ensures n in RowNames(rows)
      {
        var k :| 0 <= k < |rows| && rows[k].name == n;
        if k < |init| {
          assert init[k].name == n;
        }
      }
    }
  }

  /** The names of a built manifest are exactly the names on the rows. */
  lemma {:induction false} ManifestOfNames(rows: seq<ListingRow>, parse: string -> Option<int>)
    requires AllRows(rows) && ManifestOf(rows, parse).Success?
    ensures ManifestOf(rows, parse).value.entries.Keys == RowNames(rows)
  {
    if rows != [] {
      ManifestOfStep(rows, parse);
      ManifestOfNames(rows[..|rows| - 1], parse);
    }
  }

  /** Some row named `a` comes before every row named `b`. */
  ghost predicate AppearsBefore(rows: seq<ListingRow>, a: string, b: string) {
    exists k :: 0 <= k < |rows| && rows[k].name == a && forall k' :: 0 <= k' <= k ==> rows[k'].name != b
  }

  /** The names are in the order of their first rows: of two names, the earlier one shows
      up on a row before any row of the later one. */
  ghost predicate FirstRowOrder(rows: seq<ListingRow>, names: seq<string>) {
    forall i, j :: 0 <= i < j < |names| ==> AppearsBefore(rows, names[i], names[j])
  }

  /** The manifest lists its names in the order of their first rows. */
  lemma {:induction false} ManifestOfOrder(rows: seq<ListingRow>, parse: string -> Option<int>)
    requires AllRows(rows) && ManifestOf(rows, parse).Success?
    ensures FirstRowOrder(rows, ManifestOf(rows, parse).value.names)
  {
    if rows != [] {
      var init, last := rows[..|rows| - 1], rows[|rows| - 1];
      ManifestOfNamesStep(rows, parse);
      ManifestOfOrder(init, parse);
      ManifestOfNames(init, parse);
      var m := ManifestOf(init, parse).value;
      assert rows == init + [last];
      OrderExtend(init, last, m.names);
      if last.name !in m.entries {
        assert forall n :: n in m.names ==> n in RowNames(init);
        AllBeforeNew(init, last, m.names);
        OrderAppend(rows, m.names, last.name);
      }
    }
  }

  /** A row added at the end keeps the order of names that held before it. */
  lemma OrderExtend(init: seq<ListingRow>, last: ListingRow, names: seq<string>)
    requires FirstRowOrder(init, names)
    ensures FirstRowOrder(init + [last], names)
  {
    forall i, j | 0 <= i < j < |names|
      ensures AppearsBefore(init + [last], names[i], names[j])
    {
      AppearsBeforeExtend(init, last, names[i], names[j]);
    }
  }

  /** A name that shows up only on the added last row comes after every earlier name. */
  lemma AllBeforeNew(init: seq<ListingRow>, last: ListingRow, names: seq<string>)
    requires forall n :: n in names ==> n in RowNames(init)
    requires last.name !in RowNames(init)
    ensures forall i :: 0 <= i < |names| ==> AppearsBefore(init + [last], names[i], last.name)
  {
    forall i | 0 <= i < |names|
      ensures AppearsBefore(init + [last], names[i], last.name)
    {
      AppearsBeforeNew(init, last, names[i]);
    }
  }

  /** A name that comes after every listed name may be appended to them. */
  lemma OrderAppend(rows: seq<ListingRow>, names: seq<string>, x: string)
    requires FirstRowOrder(rows, names)
    requires forall i :: 0 <= i < |names| ==> AppearsBefore(rows, names[i], x)
    ensures FirstRowOrder(rows, names + [x])
  {
    var ext := names + [x];
    forall i, j | 0 <= i < j < |ext|
      ensures AppearsBefore(rows, ext[i], ext[j])
    {
      assert ext[i] == names[i];
      if j < |names| {
        assert ext[j] == names[j];
      }
    }
  }

  /** The last row appends its name to the names built from the rows before it, unless the
      name is there already. */
  lemma ManifestOfNamesStep(rows: seq<ListingRow>, parse: string -> Option<int>)
    requires AllRows(rows) && rows != [] && ManifestOf(rows, parse).Success?
    ensures AllRows(rows[..|rows| - 1]) && ManifestOf(rows[..|rows| - 1], parse).Success?
    ensures var m := ManifestOf(rows[..|rows| - 1], parse).value;
      var name := rows[|rows| - 1].name;
      ManifestOf(rows, parse).value.names == if name in m.entries then m.names else m.names + [name]
  {
    assert AllRows(rows[..|rows| - 1]);
  }

  /** A row added at the end keeps an order that held before it. */
  lemma AppearsBeforeExtend(init: seq<ListingRow>, last: ListingRow, a: string, b: string)
    requires AppearsBefore(init, a, b)
    ensures AppearsBefore(init + [last], a, b)
  {
    var k :| 0 <= k < |init| && init[k].name == a && forall k' :: 0 <= k' <= k ==> init[k'].name != b;
    assert (init + [last])[k] == init[k];
    assert forall k' :: 0 <= k' <= k ==> (init + [last])[k'] == init[k'];
  }

  /** A name that shows up only on the added last row comes after every name before it. */
  lemma AppearsBeforeNew(init: seq<ListingRow>, last: ListingRow, a: string)
    requires a in RowNames(init) && last.name !in RowNames(init)
    ensures AppearsBefore(init + [last], a, last.name)
  {
    RowNamesMembers(init);
    var k :| 0 <= k < |init| && init[k].name == a;
    assert forall k' :: 0 <= k' <= k ==> (init + [last])[k'] == init[k'];
    assert forall k' :: 0 <= k' < |init| ==> init[k'].name in RowNames(init);
  }

  /** The last row's effect on a build whose earlier rows succeeded. */
  lemma ManifestOfStep(rows: seq<ListingRow>, parse: string -> Option<int>)
    requires AllRows(rows) && rows != [] && ManifestOf(rows, parse).Success?
    ensures AllRows(rows[..|rows| - 1]) && ManifestOf(rows[..|rows| - 1], parse).Success?
    ensures ManifestOf(rows, parse).value.entries.Keys
         == ManifestOf(rows[..|rows| - 1], parse).value.entries.Keys + {rows[|rows| - 1].name}
  {
    assert AllRows(rows[..|rows| - 1]);
  }

  /** When a name is on several rows, the entry is the last row's size and time. */
  lemma {:induction false} ManifestOfLastWins(rows: seq<ListingRow>, parse: string -> Option<int>, i: nat)
    requires AllRows(rows) && ManifestOf(rows, parse).Success?
    requires i < |rows| && forall j :: i < j < |rows| ==> rows[j].name != rows[i].name
    ensures parse(rows[i].stamp).Some?
    ensures rows[i].name in ManifestOf(rows, parse).value.entries
    ensures ManifestOf(rows, parse).value.entries[rows[i].name]
         == Entry(DigitsValue(rows[i].sizeDigits), parse(rows[i].stamp).value)
  {
    if i < |rows| - 1 {
      var init := rows[..|rows| - 1];
      assert init[i] == rows[i];
      ManifestOfLastWins(init, parse, i);
    }
  }

  /** The date text of the `k`-th row is rejected, and that of every row before it accepted. */
  predicate FirstRejected(rows: seq<ListingRow>, parse: string -> Option<int>, k: int) {
    && 0 <= k < |rows| && parse(rows[k].stamp).None?
    && forall j :: 0 <= j < k ==> parse(rows[j].stamp).Some?
  }

  predicate Rejected(rows: seq<ListingRow>, parse: string -> Option<int>, k: int) {
    0 <= k < |rows| && parse(rows[k].stamp).None?
  }

  /** The build fails exactly when some date text is rejected, and it reports the first one. */
  lemma {:induction false} ManifestOfFails(rows: seq<ListingRow>, parse: string -> Option<int>)
    requires AllRows(rows)
    ensures ManifestOf(rows, parse).Failure? <==> exists k :: Rejected(rows, parse, k)
    ensures ManifestOf(rows, parse).Failure? ==>
      exists k :: FirstRejected(rows, parse, k) && ManifestOf(rows, parse).error == BadTimestamp(rows[k].stamp)
  {
    if rows != [] {
      var init := rows[..|rows| - 1];
      var last := |rows| - 1;
      ManifestOfFailStep(rows, parse);
      ManifestOfFails(init, parse);
      if ManifestOf(init, parse).Failure? {
        var k :| FirstRejected(init, parse, k) && ManifestOf(init, parse).error == BadTimestamp(init[k].stamp);
        RejectedInPrefix(rows, parse, k);
        assert Rejected(rows, parse, k);
      } else {
        AcceptedPrefix(rows, init, parse);
        if parse(rows[last].stamp).None? {
          assert FirstRejected(rows, parse, last) && Rejected(rows, parse, last);
        }
      }
    }
  }

  /** A first rejection among all but the last row is a first rejection of the whole. */
  lemma RejectedInPrefix(rows: seq<ListingRow>, parse: string -> Option<int>, k: int)
    requires rows != [] && FirstRejected(rows[..|rows| - 1], parse, k)
    ensures FirstRejected(rows, parse, k) && rows[k] == rows[..|rows| - 1][k]
  {
    assert forall j :: 0 <= j <= k ==> rows[j] == rows[..|rows| - 1][j];
  }

  /** With every row but the last accepted, only the last can be rejected. */
  lemma AcceptedPrefix(rows: seq<ListingRow>, init: seq<ListingRow>, parse: string -> Option<int>)
    requires rows != [] && init == rows[..|rows| - 1] && !exists k :: Rejected(init, parse, k)
    ensures forall k :: Rejected(rows, parse, k) ==> k == |rows| - 1
    ensures parse(rows[|rows| - 1].stamp).None? ==> FirstRejected(rows, parse, |rows| - 1)
  {
    forall k | Rejected(rows, parse, k)
      ensures k == |rows| - 1
    {
      if k < |init| {
        assert Rejected(init, parse, k);
      }
    }
    forall j | 0 <= j < |init|
      ensures parse(rows[j].stamp).Some?
    {
      assert !Rejected(init, parse, j);
    }
  }

  /** The last row's effect on the outcome of a build. */
  lemma ManifestOfFailStep(rows: seq<ListingRow>, parse: string -> Option<int>)
    requires AllRows(rows) && rows != []
    ensures AllRows(rows[..|rows| - 1])
    ensures ManifestOf(rows[..|rows| - 1], parse).Failure? ==>
      ManifestOf(rows, parse) == ManifestOf(rows[..|rows| - 1], parse)
    ensures ManifestOf(rows[..|rows| - 1], parse).Success? ==>
      (ManifestOf(rows, parse).Failure? <==> parse(rows[|rows| - 1].stamp).None?)
    ensures ManifestOf(rows[..|rows| - 1], parse).Success? && parse(rows[|rows| - 1].stamp).None? ==>
      ManifestOf(rows, parse) == Failure(BadTimestamp(rows[|rows| - 1].stamp))
  {
    assert AllRows(rows[..|rows| - 1]);
  }

  /** Every key of a remote manifest is a file name: non-empty, without `/` or `"`. */
  lemma RemoteNamesAreFileNames(listing: Fetched<string>, parse: string -> Option<int>)
    requires RemoteOf(listing, parse).Success?
    ensures forall n :: n in RemoteOf(listing, parse).value.entries ==> IsFileName(n)
  {
    var rows := ScanRows(listing.content, 0);
    ManifestOfNames(rows, parse);
    RowNamesMembers(rows);
    forall n | n in RemoteOf(listing, parse).value.entries
      ensures IsFileName(n)
    {
      var k :| 0 <= k < |rows| && rows[k].name == n;
      assert IsRow(rows[k]);
    }
  }

  /** `get_remote_manifest`: scan the listing page, then fill the dict row by row. */
  method GetRemoteManifest(listing: Fetched<string>, parse: string -> Option<int>) returns (r: Result<Manifest, SyncError>)
    ensures r == RemoteOf(listing, parse)
  {
    if listing.NetworkError? {
      return Failure(NetworkFailure(BLS_ROOT));
    }
    var rows := ScanRows(listing.content, 0);
    assert AllRows(rows);
    var manifest := Manifest([], map[]);
    var i := 0;
    while i < |rows|
      invariant i <= |rows|
      invariant ManifestOf(rows[..i], parse) == Success(manifest)
    {
      var row := rows[i];
      assert AllRows(rows[..i + 1]) && rows[..i + 1][..i] == rows[..i] && rows[..i + 1][i] == row;
      var ts := parse(row.stamp);
      if ts.None? {
        assert ManifestOf(rows[..i + 1], parse) == Failure(BadTimestamp(row.stamp));
        PrefixFailureSticks(rows, i + 1, parse);
        return Failure(BadTimestamp(row.stamp));
      }
      manifest := Insert(manifest, row.name, Entry(DigitsValue(row.sizeDigits), ts.value));
      i := i + 1;
    }
    assert rows[..|rows|] == rows;
    r := Success(manifest);
  }

  /** Once a prefix of the rows fails to build, the whole does, with the same error. */
  lemma {:induction false} PrefixFailureSticks(rows: seq<ListingRow>, n: nat, parse: string -> Option<int>)
    requires AllRows(rows) && n <= |rows| && ManifestOf(rows[..n], parse).Failure?
    ensures ManifestOf(rows, parse) == ManifestOf(rows[..n], parse)
    decreases |rows| - n
  {
    if n < |rows| {
      assert rows[..n + 1][..n] == rows[..n];
      PrefixFailureSticks(rows, n + 1, parse);
    } else {
      assert rows[..n] == rows;
    }
  }

  /** The local manifest: every object outside the reserved prefix, by key, with its size
      and last-modified time. */
  function LocalOf(objects: map<string, StoredObject>): map<string, Entry> {
    map k | k in objects && !IsReserved(k) :: Entry(|objects[k].body|, objects[k].lastModified)
  }

  /** The local manifest restricted to the keys listed so far. */
  function LocalSeen(keys: set<string>, objects: map<string, StoredObject>): map<string, Entry> {
    map k | k in keys && k in objects && !IsReserved(k) :: Entry(|objects[k].body|, objects[k].lastModified)
  }

  /** `get_s3_manifest`: walk the pages of the bucket's listing, skipping reserved keys. */
  method GetS3Manifest(store: Bucket, pages: seq<seq<Summary>>) returns (local: map<string, Entry>)
    requires IsListingOf(pages, store.objects)
    ensures local == LocalOf(store.objects)
  {
    local := map[];
    var p := 0;
    while p < |pages|
      invariant p <= |pages|
      invariant local == LocalSeen(ListedKeys(pages[..p]), store.objects)
    {
      var page := pages[p];
      var e := 0;
      while e < |page|
        invariant e <= |page|
        invariant local == LocalSeen(ListedKeys(pages[..p]) + PageKeys(page[..e]), store.objects)
      {
        var obj := page[e];
        SeenStep(pages, store.objects, p, e, local);
        if !IsReserved(obj.key) {
          local := local[obj.key := Entry(obj.size, obj.lastModified)];
        }
        e := e + 1;
      }
      PageSeen(pages, p, store.objects, local);
      p := p + 1;
    }
    assert pages[..p] == pages;
  }

  /** One listing entry added to the local manifest built so far. */
  lemma SeenStep(pages: seq<seq<Summary>>, objects: map<string, StoredObject>, p: nat, e: nat,
                 local: map<string, Entry>)
    requires IsListingOf(pages, objects) && p < |pages| && e < |pages[p]|
    requires local == LocalSeen(ListedKeys(pages[..p]) + PageKeys(pages[p][..e]), objects)
    ensures var obj := pages[p][e];
      (if IsReserved(obj.key) then local else local[obj.key := Entry(obj.size, obj.lastModified)])
        == LocalSeen(ListedKeys(pages[..p]) + PageKeys(pages[p][..e + 1]), objects)
  {
    var page := pages[p];
    assert page[..e + 1] == page[..e] + [page[e]];
    assert PageKeys(page[..e + 1]) == PageKeys(page[..e]) + {page[e].key};
    assert Describes(page[e], objects);
  }

  /** A whole page added to the local manifest built so far. */
  lemma PageSeen(pages: seq<seq<Summary>>, p: nat, objects: map<string, StoredObject>, local: map<string, Entry>)
    requires p < |pages|
    requires local == LocalSeen(ListedKeys(pages[..p]) + PageKeys(pages[p][..|pages[p]|]), objects)
    ensures local == LocalSeen(ListedKeys(pages[..p + 1]), objects)
  {
    assert pages[p][..|pages[p]|] == pages[p];
    assert pages[..p + 1][..p] == pages[..p];
  }

  /** What the loop decides for one remote file. */
  datatype Action = Add | Update | Skip

  function Abs(x: int): int {
    if x < 0 then -x else x
  }

  /** `local.get(name)`. */
  function Lookup(local: map<string, Entry>, name: string): Option<Entry> {
    if name in local then Some(local[name]) else None
  }

  /** The per-file decision: add what the bucket lacks, rewrite what differs in size or by
      more than the tolerance in time, and leave the rest. */
  function Decide(remote: Entry, local: Option<Entry>): Action {
    if local.None? then Add
    else if local.value.size != remote.size || Abs(remote.modified - local.value.modified) > TOLERANCE then Update
    else Skip
  }

  /** A difference of exactly one second is no action; one millisecond more is an update.
      Only equal sizes within the tolerance in either direction are left alone. */
  lemma ToleranceBoundary(size: nat, t: int)
    ensures Decide(Entry(size, t), Some(Entry(size, t + 1_000_000))) == Skip
    ensures Decide(Entry(size, t + 1_000_000), Some(Entry(size, t))) == Skip
    ensures Decide(Entry(size, t + 1_001_000), Some(Entry(size, t))) == Update
    ensures Decide(Entry(size, t), Some(Entry(size, t + 1_001_000))) == Update
    ensures forall r, l :: Decide(r, Some(l)) == Skip <==> r.size == l.size && -TOLERANCE <= r.modified - l.modified <= TOLERANCE
  {
  }

  // The reconciliation's four classes, stated on the two manifests as sets.

  function Adds(remote: map<string, Entry>, local: map<string, Entry>): set<string> {
    remote.Keys - local.Keys
  }

  function Updates(remote: map<string, Entry>, local: map<string, Entry>): set<string> {
    set n | n in remote && n in local
      && (remote[n].size != local[n].size || Abs(remote[n].modified - local[n].modified) > TOLERANCE)
  }

  function Unchanged(remote: map<string, Entry>, local: map<string, Entry>): set<string> {
    set n | n in remote && n in local
      && remote[n].size == local[n].size && Abs(remote[n].modified - local[n].modified) <= TOLERANCE
  }

  /** `to_delete`: the local keys the remote no longer has. */
  function Deletes(remote: map<string, Entry>, local: map<string, Entry>): set<string> {
    local.Keys - remote.Keys
  }

  /** Every name on either side falls in exactly one of add, update, unchanged and delete. */
  lemma ReconcilePartition(remote: map<string, Entry>, local: map<string, Entry>)
    ensures Adds(remote, local) + Updates(remote, local) + Unchanged(remote, local) + Deletes(remote, local)
         == remote.Keys + local.Keys
    ensures Adds(remote, local) !! Updates(remote, local) && Adds(remote, local) !! Unchanged(remote, local)
    ensures Adds(remote, local) !! Deletes(remote, local) && Updates(remote, local) !! Unchanged(remote, local)
    ensures Updates(remote, local) !! Deletes(remote, local) && Unchanged(remote, local) !! Deletes(remote, local)
  {
  }

  /** The loop's decision for a remote name is its class. */
  lemma DecideIsClass(remote: map<string, Entry>, local: map<string, Entry>, n: string)
    requires n in remote
    ensures Decide(remote[n], Lookup(local, n)) == Add <==> n in Adds(remote, local)
    ensures Decide(remote[n], Lookup(local, n)) == Update <==> n in Updates(remote, local)
    ensures Decide(remote[n], Lookup(local, n)) == Skip <==> n in Unchanged(remote, local)
  {
  }

  /** Whether the loop writes `name`: it is an add or an update. (Every name the loop
      visits has an entry; one without would not be written.) */
  predicate Writes(remote: map<string, Entry>, local: map<string, Entry>, name: string) {
    name in remote && Decide(remote[name], Lookup(local, name)) != Skip
  }

  /** The names the loop writes, in the remote manifest's order. */
  function PendingWrites(names: seq<string>, remote: map<string, Entry>, local: map<string, Entry>): seq<string> {
    if names == [] then []
    else
      var last := names[|names| - 1];
      PendingWrites(names[..|names| - 1], remote, local) + (if Writes(remote, local, last) then [last] else [])
  }

  /** A name is written exactly when it is listed remotely and is an add or an update. */
  lemma {:induction false} PendingWritesMembers(names: seq<string>, remote: map<string, Entry>, local: map<string, Entry>)
    ensures forall n ::
      (n in PendingWrites(names, remote, local))
      <==> n in names && n in Adds(remote, local) + Updates(remote, local)
  {
    if names != [] {
      var init := names[..|names| - 1];
      PendingWritesMembers(init, remote, local);
      assert forall n :: n in names <==> n in init || n == names[|names| - 1];
      if names[|names| - 1] in remote {
        DecideIsClass(remote, local, names[|names| - 1]);
      }
    }
  }

  /** The writes decided over a prefix of the names are a prefix of all the writes. */
  lemma {:induction false} PendingWritesPrefix(names: seq<string>, i: nat, remote: map<string, Entry>, local: map<string, Entry>)
    requires i <= |names|
    ensures var all, some := PendingWrites(names, remote, local), PendingWrites(names[..i], remote, local);
      |some| <= |all| && all[..|some|] == some
    decreases |names| - i
  {
    if i < |names| {
      assert names[..i + 1][..i] == names[..i];
      PendingWritesPrefix(names, i + 1, remote, local);
    } else {
      assert names[..i] == names;
    }
  }

  /** How many of the pending names, from the first, can be fetched before a request fails. */
  function Fetchable(names: seq<string>, fetch: string -> Fetched<Bytes>): (k: nat)
    ensures k <= |names|
    ensures forall i :: 0 <= i < k ==> fetch(UrlOf(names[i])).Response?
    ensures k < |names| ==> fetch(UrlOf(names[k])).NetworkError?
  {
    if names == [] then 0
    else
      var k := Fetchable(names[..|names| - 1], fetch);
      if k < |names| - 1 || fetch(UrlOf(names[|names| - 1])).NetworkError? then k else |names|
  }

  /** What the upload loop ends with: the first download that failed, if any. */
  function UploadOutcome(pending: seq<string>, fetch: string -> Fetched<Bytes>): Result<(), SyncError> {
    var k := Fetchable(pending, fetch);
    if k < |pending| then Failure(NetworkFailure(UrlOf(pending[k]))) else Success(())
  }

  /** The loop of `sync` over the remote manifest: fetch and upload each add and update in
      turn; a failed download ends the loop and keeps the uploads made before it. */
  method UploadChanges(store: Bucket, remote: Manifest, local: map<string, Entry>,
                       fetch: string -> Fetched<Bytes>, now: int)
    returns (r: Result<(), SyncError>)
    modifies store
    ensures var pending := PendingWrites(remote.names, remote.entries, local);
      && r == UploadOutcome(pending, fetch)
      && store.objects == AfterUploads(old(store.objects), pending[..Fetchable(pending, fetch)], fetch, now)
      && store.requests == old(store.requests) + PutRequests(pending[..Fetchable(pending, fetch)])
  {
    ghost var done: seq<string> := [];
    assert remote.names[..0] == [];
    var i := 0;
    while i < |remote.names|
      invariant i <= |remote.names|
      invariant done == PendingWrites(remote.names[..i], remote.entries, local)
      invariant Progress(store.objects, store.requests, old(store.objects), old(store.requests), done, fetch, now)
    {
      var name := remote.names[i];
      if !Writes(remote.entries, local, name) {
        SkippedStep(remote, i, local);
      } else {
        var url := UrlOf(name);
        var response := fetch(url);
        if response.NetworkError? {
          FailedExit(remote, i, local, fetch, done, old(store.objects), old(store.requests), store.objects, store.requests, now);
          return Failure(NetworkFailure(url));
        }
        UploadedStep(remote, i, local, fetch, done, old(store.objects), old(store.requests), store.objects, store.requests, now);
        store.PutObject(name, response.content, BLS_METADATA, now);
        done := done + [name];
      }
      i := i + 1;
    }
    CompletedExit(remote, local, fetch, done);
    r := Success(());
  }

  /** The loop's state after the writes `done`: all of them fetched, the bucket and its
      requests moved by exactly those uploads. */
  ghost predicate Progress(objects: map<string, StoredObject>, requests: seq<Request>,
                           base: map<string, StoredObject>, baseRequests: seq<Request>,
                           done: seq<string>, fetch: string -> Fetched<Bytes>, now: int) {
    && Fetchable(done, fetch) == |done|
    && objects == AfterUploads(base, done, fetch, now)
    && requests == baseRequests + PutRequests(done)
  }

  /** A failed download of the `i`-th name, after every earlier write went through, is the
      outcome of the whole loop, with the bucket as the earlier writes left it. */
  lemma FailedExit(remote: Manifest, i: nat, local: map<string, Entry>, fetch: string -> Fetched<Bytes>,
                   done: seq<string>, base: map<string, StoredObject>, baseRequests: seq<Request>,
                   objects: map<string, StoredObject>, requests: seq<Request>, now: int)
    requires i < |remote.names|
    requires Writes(remote.entries, local, remote.names[i])
    requires fetch(UrlOf(remote.names[i])).NetworkError?
    requires done == PendingWrites(remote.names[..i], remote.entries, local)
    requires Fetchable(done, fetch) == |done|
    requires objects == AfterUploads(base, done, fetch, now)
    requires requests == baseRequests + PutRequests(done)
    ensures var pending := PendingWrites(remote.names, remote.entries, local);
      && Failure(NetworkFailure(UrlOf(remote.names[i]))) == UploadOutcome(pending, fetch)
      && objects == AfterUploads(base, pending[..Fetchable(pending, fetch)], fetch, now)
      && requests == baseRequests + PutRequests(pending[..Fetchable(pending, fetch)])
  {
    StopsAtFailedFetch(remote.names, i, remote.entries, local, fetch);
  }

  /** A skipped name leaves the writes as they were. */
  lemma SkippedStep(remote: Manifest, i: nat, local: map<string, Entry>)
    requires i < |remote.names|
    requires !Writes(remote.entries, local, remote.names[i])
    ensures PendingWrites(remote.names[..i + 1], remote.entries, local) == PendingWrites(remote.names[..i], remote.entries, local)
  {
    PendingWritesStep(remote.names, i, remote.entries, local);
  }

  /** An uploaded name extends the writes made so far, keeps them all fetched, and moves the
      bucket and its requests by exactly that upload. */
  lemma UploadedStep(remote: Manifest, i: nat, local: map<string, Entry>, fetch: string -> Fetched<Bytes>,
                     done: seq<string>, base: map<string, StoredObject>, baseRequests: seq<Request>,
                     objects: map<string, StoredObject>, requests: seq<Request>, now: int)
    requires i < |remote.names|
    requires Writes(remote.entries, local, remote.names[i])
    requires fetch(UrlOf(remote.names[i])).Response?
    requires done == PendingWrites(remote.names[..i], remote.entries, local)
    requires Fetchable(done, fetch) == |done|
    requires objects == AfterUploads(base, done, fetch, now)
    requires requests == baseRequests + PutRequests(done)
    ensures var name := remote.names[i];
      && PendingWrites(remote.names[..i + 1], remote.entries, local) == done + [name]
      && Fetchable(done + [name], fetch) == |done + [name]|
      && objects[name := StoredObject(fetch(UrlOf(name)).content, BLS_METADATA, now)] == AfterUploads(base, done + [name], fetch, now)
      && requests + [Put(name)] == baseRequests + PutRequests(done + [name])
  {
    var name := remote.names[i];
    PendingWritesStep(remote.names, i, remote.entries, local);
    FetchableExtend(done, name, fetch);
    UploadsSnoc(base, done, name, fetch, now);
    assert baseRequests + (PutRequests(done) + [Put(name)]) == baseRequests + PutRequests(done) + [Put(name)];
  }

  /** A loop through all the names without a failed download wrote every pending name. */
  lemma CompletedExit(remote: Manifest, local: map<string, Entry>, fetch: string -> Fetched<Bytes>, done: seq<string>)
    requires done == PendingWrites(remote.names[..|remote.names|], remote.entries, local)
    requires Fetchable(done, fetch) == |done|
    ensures var pending := PendingWrites(remote.names, remote.entries, local);
      && pending == done
      && UploadOutcome(pending, fetch) == Success(())
      && pending[..Fetchable(pending, fetch)] == done
  {
    assert remote.names[..|remote.names|] == remote.names;
  }

  /** One more name decided: the writes grow by that name exactly when it is not skipped. */
  lemma PendingWritesStep(names: seq<string>, i: nat, remote: map<string, Entry>, local: map<string, Entry>)
    requires i < |names|
    ensures PendingWrites(names[..i + 1], remote, local)
         == PendingWrites(names[..i], remote, local)
            + (if Writes(remote, local, names[i]) then [names[i]] else [])
  {
    assert names[..i + 1][..i] == names[..i];
  }

  /** A failed download of the `i`-th name, all writes before it having been fetched, is
      where the whole loop stops. */
  lemma StopsAtFailedFetch(names: seq<string>, i: nat, remote: map<string, Entry>, local: map<string, Entry>,
                           fetch: string -> Fetched<Bytes>)
    requires i < |names|
    requires Writes(remote, local, names[i])
    requires fetch(UrlOf(names[i])).NetworkError?
    requires Fetchable(PendingWrites(names[..i], remote, local), fetch) == |PendingWrites(names[..i], remote, local)|
    ensures var pending, done := PendingWrites(names, remote, local), PendingWrites(names[..i], remote, local);
      && Fetchable(pending, fetch) == |done| < |pending|
      && pending[..|done|] == done
      && pending[|done|] == names[i]
  {
    var done := PendingWrites(names[..i], remote, local);
    var pending := PendingWrites(names, remote, local);
    var upto := PendingWrites(names[..i + 1], remote, local);
    PendingWritesStep(names, i, remote, local);
    assert upto == done + [names[i]];
    PendingWritesPrefix(names, i + 1, remote, local);
    assert pending[..|done|] == upto[..|done|] == done;
    assert pending[|done|] == upto[|done|] == names[i];
    FetchableAt(pending, fetch, |done|);
  }

  /** Appending a fetchable name to a fully fetchable sequence keeps it fully fetchable. */
  lemma FetchableExtend(done: seq<string>, name: string, fetch: string -> Fetched<Bytes>)
    requires Fetchable(done, fetch) == |done| && fetch(UrlOf(name)).Response?
    ensures Fetchable(done + [name], fetch) == |done| + 1
  {
    FetchableAt(done + [name], fetch, |done| + 1);
  }

  /** `k` is where the downloads stop when all before it succeed and the one at `k` fails. */
  lemma FetchableAt(names: seq<string>, fetch: string -> Fetched<Bytes>, k: nat)
    requires k <= |names|
    requires forall i :: 0 <= i < k ==> fetch(UrlOf(names[i])).Response?
    requires k < |names| ==> fetch(UrlOf(names[k])).NetworkError?
    ensures Fetchable(names, fetch) == k
  {
  }

  /** A loop that ends without a failed download has written every pending name. */
  lemma AllWritten(pending: seq<string>, fetch: string -> Fetched<Bytes>)
    requires UploadOutcome(pending, fetch).Success?
    ensures pending[..Fetchable(pending, fetch)] == pending
  {
    assert pending[..|pending|] == pending;
  }

  /** `sync`: build both manifests, upload every add and update in the remote order, then
      delete in one batch whatever the remote no longer lists, if anything. A failed
      download ends the run and keeps the uploads before it; store requests do not fail. */
  method Sync(store: Bucket, listing: Fetched<string>, fetch: string -> Fetched<Bytes>,
              parse: string -> Option<int>, pages: seq<seq<Summary>>, now: int)
    returns (r: Result<(), SyncError>)
    requires IsListingOf(pages, store.objects)
    modifies store
    ensures RemoteOf(listing, parse).Failure? ==>
      && r == Failure(RemoteOf(listing, parse).error)
      && store.objects == old(store.objects) && store.requests == old(store.requests)
    ensures RemoteOf(listing, parse).Success? ==>
      var remote := RemoteOf(listing, parse).value;
      var local := LocalOf(old(store.objects));
      var pending := PendingWrites(remote.names, remote.entries, local);
      var k := Fetchable(pending, fetch);
      var doomed := Deletes(remote.entries, local);
      && r == UploadOutcome(pending, fetch)
      && (r.Failure? ==>
        && store.objects == AfterUploads(old(store.objects), pending[..k], fetch, now)
        && store.requests == old(store.requests) + PutRequests(pending[..k]))
      && (r.Success? ==>
        && store.objects == Mirrored(old(store.objects), remote, fetch, now)
        && store.requests == old(store.requests) + PutRequests(pending)
                             + (if doomed == {} then [] else [DeleteBatch(doomed)]))
  {
    var remoteOrError := GetRemoteManifest(listing, parse);
    if remoteOrError.Failure? {
      return Failure(remoteOrError.error);
    }
    var remote := remoteOrError.value;
    var local := GetS3Manifest(store, pages);
    r := UploadChanges(store, remote, local, fetch, now);
    if r.Failure? {
      return;
    }
    var doomed := local.Keys - remote.entries.Keys;
    CompletedRun(old(store.objects), old(store.requests), remote, fetch, now, store.objects, store.requests);
    if doomed != {} {
      store.DeleteObjects(doomed);
    }
  }

  /** A run whose uploads all went through ends, after the batch delete (if any), in the
      mirrored bucket, having sent one `Put` per pending name and then the delete. */
  lemma CompletedRun(base: map<string, StoredObject>, baseRequests: seq<Request>, remote: Manifest,
                     fetch: string -> Fetched<Bytes>, now: int,
                     objects: map<string, StoredObject>, requests: seq<Request>)
    requires UploadOutcome(PendingWrites(remote.names, remote.entries, LocalOf(base)), fetch).Success?
    requires var pending := PendingWrites(remote.names, remote.entries, LocalOf(base));
      objects == AfterUploads(base, pending[..Fetchable(pending, fetch)], fetch, now)
    requires var pending := PendingWrites(remote.names, remote.entries, LocalOf(base));
      requests == baseRequests + PutRequests(pending[..Fetchable(pending, fetch)])
    ensures var doomed := LocalOf(base).Keys - remote.entries.Keys;
      && doomed == Deletes(remote.entries, LocalOf(base))
      && (if doomed == {} then objects else objects - doomed) == Mirrored(base, remote, fetch, now)
      && var pending := PendingWrites(remote.names, remote.entries, LocalOf(base));
      && (doomed != {} ==> requests + [DeleteBatch(doomed)] == baseRequests + PutRequests(pending) + [DeleteBatch(doomed)])
      && (doomed == {} ==> requests == baseRequests + PutRequests(pending) + [])
  {
    var pending := PendingWrites(remote.names, remote.entries, LocalOf(base));
    AllWritten(pending, fetch);
    assert baseRequests + PutRequests(pending) + [] == baseRequests + PutRequests(pending);
  }

  /** The batch delete of a run: exactly the local keys the remote no longer lists; none of
      them is reserved, each was in the bucket, and none of them was written in the run. */
  lemma DeleteSetSafe(objects: map<string, StoredObject>, remote: Manifest)
    requires Ordered(remote)
    ensures var local := LocalOf(objects);
      forall k :: k in Deletes(remote.entries, local) <==>
        k in objects && !IsReserved(k) && k !in remote.entries
    ensures var local := LocalOf(objects);
      forall k :: k in Deletes(remote.entries, local) ==> k !in PendingWrites(remote.names, remote.entries, local)
  {
    PendingWritesMembers(remote.names, remote.entries, LocalOf(objects));
  }

  /** The bucket after a run that completes: every pending name written, then the batch
      delete applied. */
  function Mirrored(objects: map<string, StoredObject>, remote: Manifest, fetch: string -> Fetched<Bytes>, now: int)
    : map<string, StoredObject>
  {
    var local := LocalOf(objects);
    AfterUploads(objects, PendingWrites(remote.names, remote.entries, local), fetch, now) - Deletes(remote.entries, local)
  }

  /** After a run that completes, the bucket outside the reserved prefix holds exactly the
      remote names; the reserved objects are untouched; every add and update holds the
      fetched file and every unchanged name keeps its object. */
  lemma MirrorOutcome(objects: map<string, StoredObject>, remote: Manifest,
                      fetch: string -> Fetched<Bytes>, now: int)
    requires Ordered(remote)
    requires forall n :: n in remote.entries ==> IsFileName(n)
    ensures var local, final := LocalOf(objects), Mirrored(objects, remote, fetch, now);
      && (forall k :: !IsReserved(k) ==> (k in final <==> k in remote.entries))
      && (forall k :: IsReserved(k) ==> (k in final <==> k in objects))
      && (forall k :: IsReserved(k) && k in objects ==> k in final && final[k] == objects[k])
      && (forall n :: n in Adds(remote.entries, local) + Updates(remote.entries, local) ==>
            n in final && final[n] == Uploaded(fetch, n, now))
      && (forall n :: n in Unchanged(remote.entries, local) ==> n in final && final[n] == objects[n])
  {
    var local, final := LocalOf(objects), Mirrored(objects, remote, fetch, now);
    forall k | !IsReserved(k)
      ensures k in final <==> k in remote.entries
    {
      MirroredKey(objects, remote, fetch, now, k);
    }
    forall k | IsReserved(k)
      ensures k in final <==> k in objects
      ensures k in objects ==> k in final && final[k] == objects[k]
    {
      ReservedKey(objects, remote, fetch, now, k);
    }
    forall n | n in Adds(remote.entries, local) + Updates(remote.entries, local)
      ensures n in final && final[n] == Uploaded(fetch, n, now)
    {
      WrittenName(objects, remote, fetch, now, n);
    }
    forall n | n in Unchanged(remote.entries, local)
      ensures n in final && final[n] == objects[n]
    {
      UnchangedName(objects, remote, fetch, now, n);
    }
  }

  /** A key outside the reserved prefix survives the run exactly when the remote lists it. */
  lemma MirroredKey(objects: map<string, StoredObject>, remote: Manifest, fetch: string -> Fetched<Bytes>, now: int, k: string)
    requires Ordered(remote) && !IsReserved(k)
    ensures k in Mirrored(objects, remote, fetch, now) <==> k in remote.entries
  {
    var local := LocalOf(objects);
    var pending := PendingWrites(remote.names, remote.entries, local);
    PendingWritesMembers(remote.names, remote.entries, local);
    AfterUploadsEffect(objects, pending, fetch, now);
    if k in remote.entries && k !in objects {
      assert k in remote.names && k in Adds(remote.entries, local);
    }
  }

  /** A reserved key is neither written nor deleted: its object stays as it was. */
  lemma ReservedKey(objects: map<string, StoredObject>, remote: Manifest, fetch: string -> Fetched<Bytes>, now: int, k: string)
    requires Ordered(remote) && IsReserved(k)
    requires forall n :: n in remote.entries ==> IsFileName(n)
    ensures k in Mirrored(objects, remote, fetch, now) <==> k in objects
    ensures k in objects ==> k in Mirrored(objects, remote, fetch, now) && Mirrored(objects, remote, fetch, now)[k] == objects[k]
  {
    var local := LocalOf(objects);
    var pending := PendingWrites(remote.names, remote.entries, local);
    PendingWritesMembers(remote.names, remote.entries, local);
    AfterUploadsEffect(objects, pending, fetch, now);
    if k in remote.entries {
      SlashFreeNotReserved(k);
    }
    assert k !in pending;
  }

  /** An added or updated name holds the fetched file after the run. */
  lemma WrittenName(objects: map<string, StoredObject>, remote: Manifest, fetch: string -> Fetched<Bytes>, now: int, n: string)
    requires Ordered(remote)
    requires n in Adds(remote.entries, LocalOf(objects)) + Updates(remote.entries, LocalOf(objects))
    ensures n in Mirrored(objects, remote, fetch, now) && Mirrored(objects, remote, fetch, now)[n] == Uploaded(fetch, n, now)
  {
    var local := LocalOf(objects);
    var pending := PendingWrites(remote.names, remote.entries, local);
    PendingWritesMembers(remote.names, remote.entries, local);
    AfterUploadsEffect(objects, pending, fetch, now);
    assert n in remote.names && n in pending;
  }

  /** An unchanged name keeps its object through the run. */
  lemma UnchangedName(objects: map<string, StoredObject>, remote: Manifest, fetch: string -> Fetched<Bytes>, now: int, n: string)
    requires Ordered(remote)
    requires n in Unchanged(remote.entries, LocalOf(objects))
    ensures n in Mirrored(objects, remote, fetch, now) && Mirrored(objects, remote, fetch, now)[n] == objects[n]
  {
    var local := LocalOf(objects);
    var pending := PendingWrites(remote.names, remote.entries, local);
    PendingWritesMembers(remote.names, remote.entries, local);
    AfterUploadsEffect(objects, pending, fetch, now);
    assert n !in pending;
  }
}
