/**
 * The archive catalog: the storage backend seen as a per-disk sequence of
 * archive entries, and the collection pipelines the component runs over it
 * (listing rows, status records, disk names, lookup by path, reconciliation
 * after a delete).
 */
module Catalog {
  import opened Prelude

  /** One archive on a disk: its path, its creation time and its size in bytes. */
  datatype Backup = Backup(path: string, date: int, sizeBytes: nat)

  /** The storage backend: each disk name holds the archives of the configured backup, in listing order. */
  type Backend = map<string, seq<Backup>>

  /** The archives `BackupDestination::create(disk, name)->backups()` lists; a disk that cannot be reached lists none. */
  function Entries(store: Backend, disk: string): seq<Backup> {
    if disk in store then store[disk] else []
  }

  /** Within one disk no two archives share a path. */
  predicate UniquePaths(entries: seq<Backup>) {
    forall i, j :: 0 <= i < j < |entries| ==> entries[i].path != entries[j].path
  }

  /** The formatting helpers of the backup library and of the date type, which the model leaves opaque. */
  datatype Formatters = Formatters(
    dateTime: int -> string,              // `date()->format('Y-m-d H:i:s')`
    humanSize: nat -> string,             // `Format::humanReadableSize`
    diffForHumans: (int, int) -> string)  // the age of a date, relative to now

  /** One row of the component's `files` listing; every field is a string. */
  datatype FileRow = FileRow(path: string, date: string, size: string)

  function Row(fmt: Formatters, b: Backup): FileRow {
    FileRow(b.path, fmt.dateTime(b.date), fmt.humanSize(b.sizeBytes))
  }

  /** The listing `getFiles` caches: one row per archive, in the backend's order. */
  function Listing(fmt: Formatters, entries: seq<Backup>): (rows: seq<FileRow>)
    ensures |rows| == |entries|
    ensures forall i :: 0 <= i < |entries| ==> rows[i] == Row(fmt, entries[i])
  {
    Map((b: Backup) => Row(fmt, b), entries)
  }

  lemma ListingConcat(fmt: Formatters, a: seq<Backup>, b: seq<Backup>)
    ensures Listing(fmt, a + b) == Listing(fmt, a) + Listing(fmt, b)
  {
  }

  /** What the backup library reports about one monitored destination; its computation is not part of this model. */
  datatype DestinationStatus = DestinationStatus(
    backupName: string,
    diskName: string,
    reachable: bool,
    healthy: bool,
    backupCount: nat,
    newestDate: Option<int>,
    usedStorageBytes: nat)

  /** One entry of `backupStatuses`. */
  datatype StatusRecord = StatusRecord(
    name: string,
    disk: string,
    reachable: bool,
    healthy: bool,
    amount: nat,
    newest: string,
    usedStorage: string)

  const NO_BACKUPS_PRESENT := "No backups present"

  function StatusRecordOf(fmt: Formatters, status: DestinationStatus, now: int): StatusRecord {
    StatusRecord(
      status.backupName,
      status.diskName,
      status.reachable,
      status.healthy,
      status.backupCount,
      match status.newestDate
      case Some(date) => fmt.diffForHumans(date, now)
      case None => NO_BACKUPS_PRESENT,
      fmt.humanSize(status.usedStorageBytes))
  }

  /** The status list: exactly one record per destination status, in the same order. */
  function StatusRecords(fmt: Formatters, statuses: seq<DestinationStatus>, now: int): (records: seq<StatusRecord>)
    ensures |records| == |statuses|
    ensures forall i :: 0 <= i < |statuses| ==> records[i] == StatusRecordOf(fmt, statuses[i], now)
    ensures forall i :: 0 <= i < |statuses| ==>
      records[i].disk == statuses[i].diskName &&
      records[i].amount == statuses[i].backupCount &&
      (statuses[i].newestDate.None? ==> records[i].newest == NO_BACKUPS_PRESENT)
  {
    Map((s: DestinationStatus) => StatusRecordOf(fmt, s, now), statuses)
  }

  /** `disks`: the `disk` field of each status record, same length and same order. */
  function DiskNames(records: seq<StatusRecord>): (names: seq<string>)
    ensures |names| == |records|
    ensures forall i :: 0 <= i < |records| ==> names[i] == records[i].disk
  {
    Map((r: StatusRecord) => r.disk, records)
  }

  /** `first(fn ($backup) => $backup->path() === $path)`: the index of the first archive with exactly that path. */
  function FirstWithPath(entries: seq<Backup>, path: string): (r: Option<nat>)
    ensures r.None? <==> forall i :: 0 <= i < |entries| ==> entries[i].path != path
    ensures r.Some? ==> r.value < |entries| && entries[r.value].path == path
    ensures r.Some? ==> forall j :: 0 <= j < r.value ==> entries[j].path != path
  {
    if entries == [] then None
    else if entries[0].path == path then Some(0)
    else match FirstWithPath(entries[1..], path)
      case None => None
      case Some(i) => Some(i + 1)
  }

  /** With unique paths, looking up an archive's own path finds that archive. */
  lemma FirstWithUniquePath(entries: seq<Backup>, i: nat)
    requires UniquePaths(entries) && i < |entries|
    ensures FirstWithPath(entries, entries[i].path) == Some(i)
  {
  }

  /** The listing after the archive at index `i` has been deleted from the disk. */
  function WithoutEntry(entries: seq<Backup>, i: nat): (rest: seq<Backup>)
    requires i < |entries|
    ensures |rest| == |entries| - 1
    ensures forall k :: 0 <= k < |rest| ==> rest[k] == if k < i then entries[k] else entries[k + 1]
    ensures multiset(rest) + multiset{entries[i]} == multiset(entries)
  {
    assert entries == entries[..i] + [entries[i]] + entries[i + 1..];
    entries[..i] + entries[i + 1..]
  }

  /**
   * Deleting one archive keeps the others in their order, leaves no archive at the
   * deleted path when paths are unique, and keeps paths unique.
   */
  lemma DeletionRemovesExactlyThePath(entries: seq<Backup>, i: nat)
    requires UniquePaths(entries) && i < |entries|
    ensures var rest := WithoutEntry(entries, i);
            UniquePaths(rest) &&
            (forall k :: 0 <= k < |rest| ==> rest[k].path != entries[i].path) &&
            (forall k :: 0 <= k < |rest| ==> rest[k] == if k < i then entries[k] else entries[k + 1])
  {
  }

  /** The three comparisons `deleteFile` makes between a row and the pending row. */
  predicate SameFile(a: FileRow, b: FileRow) {
    a.path == b.path && a.date == b.date && a.size == b.size
  }

  /**
   * `reject(fn ($file) => same path, date and size)->values()`: the listing minus
   * every row whose triple equals `pending`, and nothing else.
   */
  function RejectFile(files: seq<FileRow>, pending: FileRow): (rest: seq<FileRow>)
    ensures |rest| <= |files|
  {
    if files == [] then []
    else if SameFile(files[0], pending) then RejectFile(files[1..], pending)
      else [files[0]] + RejectFile(files[1..], pending)
  }

  /** Rejection takes out every copy of the pending row and nothing else. */
  lemma {:induction false} RejectCounts(files: seq<FileRow>, pending: FileRow)
    ensures multiset(RejectFile(files, pending)) == multiset(files)[pending := 0]
  {
    if files != [] {
      assert files == [files[0]] + files[1..];
      RejectCounts(files[1..], pending);
    }
  }

  /** A row survives exactly when it was in the listing and its triple differs from the pending one. */
  lemma RejectKeeps(files: seq<FileRow>, pending: FileRow, x: FileRow)
    ensures x in RejectFile(files, pending) <==> x in files && !SameFile(x, pending)
  {
    RejectCounts(files, pending);
    assert x in RejectFile(files, pending) <==> x in multiset(RejectFile(files, pending));
  }

  /** Rejection works element by element: the survivors keep their relative order. */
  lemma {:induction false} RejectConcat(a: seq<FileRow>, b: seq<FileRow>, pending: FileRow)
    ensures RejectFile(a + b, pending) == RejectFile(a, pending) + RejectFile(b, pending)
  {
    if a == [] {
      assert a + b == b;
    } else {
      assert (a + b)[0] == a[0] && (a + b)[1..] == a[1..] + b;
      RejectConcat(a[1..], b, pending);
    }
  }

  /** Rows that do not match the pending triple are kept as they are. */
  lemma {:induction false} RejectNothingMatching(files: seq<FileRow>, pending: FileRow)
    requires forall k :: 0 <= k < |files| ==> !SameFile(files[k], pending)
    ensures RejectFile(files, pending) == files
  {
    if files != [] {
      RejectNothingMatching(files[1..], pending);
    }
  }

  /** Removing a row that occurs once, between rows that do not match it, leaves the rows around it. */
  lemma {:induction false} RejectSingleMatch(before: seq<FileRow>, pending: FileRow, after: seq<FileRow>)
    requires forall k :: 0 <= k < |before| ==> !SameFile(before[k], pending)
    requires forall k :: 0 <= k < |after| ==> !SameFile(after[k], pending)
    ensures RejectFile(before + [pending] + after, pending) == before + after
  {
    var all := before + [pending] + after;
    if before == [] {
      assert all == [pending] + after && all[1..] == after;
      RejectNothingMatching(after, pending);
    } else {
      assert all[0] == before[0] && all[1..] == before[1..] + [pending] + after;
      RejectSingleMatch(before[1..], pending, after);
      assert before + after == [before[0]] + (before[1..] + after);
    }
  }

  /** The row of an archive differs from the row of any other archive of a disk with unique paths. */
  lemma OtherRowsDiffer(fmt: Formatters, entries: seq<Backup>, i: nat, j: nat)
    requires UniquePaths(entries) && i < |entries| && j < |entries| && i != j
    ensures !SameFile(Row(fmt, entries[j]), Row(fmt, entries[i]))
  {
  }

  /**
   * When `files` is a listing of the disk, removing the deleted archive's row from it
   * gives exactly the listing of the disk after the deletion.
   */
  lemma ReconcileAgreesWithRelisting(fmt: Formatters, entries: seq<Backup>, i: nat)
    requires UniquePaths(entries) && i < |entries|
    ensures RejectFile(Listing(fmt, entries), Row(fmt, entries[i])) == Listing(fmt, WithoutEntry(entries, i))
  {
    var pending := Row(fmt, entries[i]);
    var before, after := entries[..i], entries[i + 1..];
    assert entries == before + [entries[i]] + after;
    ListingConcat(fmt, before + [entries[i]], after);
    ListingConcat(fmt, before, [entries[i]]);
    var lb, la := Listing(fmt, before), Listing(fmt, after);
    assert Listing(fmt, [entries[i]]) == [pending];
    assert Listing(fmt, entries) == lb + [pending] + la;
    forall k | 0 <= k < |lb| ensures !SameFile(lb[k], pending) {
      assert lb[k] == Row(fmt, entries[k]);
      OtherRowsDiffer(fmt, entries, i, k);
    }
    forall k | 0 <= k < |la| ensures !SameFile(la[k], pending) {
      assert la[k] == Row(fmt, entries[i + 1 + k]);
      OtherRowsDiffer(fmt, entries, i, i + 1 + k);
    }
    RejectSingleMatch(lb, pending, la);
    ListingConcat(fmt, before, after);
  }
}
