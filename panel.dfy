/**
 * The backup panel component: five public fields, the shared application
 * cache and the storage backend, and the actions that move between states.
 */
module Panel {
  import opened Prelude
  import opened Php
  import opened ResultCache
  import opened Validation
  import opened Errors
  import opened Catalog

  /** What the component keeps in the shared cache under its two kinds of key. */
  datatype Cached = StatusesValue(statuses: seq<StatusRecord>) | ListingValue(rows: seq<FileRow>)

  const STATUS_KEY := "backup-statuses"

  /** `"backups-{$disk}"`: the key of a disk's cached listing, never the status key. */
  function ListingKey(disk: string): (key: string)
    ensures key != STATUS_KEY
  {
    assert ("backups-" + disk)[6] == 's' && STATUS_KEY[6] == '-';
    "backups-" + disk
  }

  /** Distinct disks have distinct listing keys, so their cached listings never overwrite each other. */
  lemma ListingKeyInjective(a: string, b: string)
    requires ListingKey(a) == ListingKey(b)
    ensures a == b
  {
    assert a == ListingKey(a)[8..];
    assert b == ListingKey(b)[8..];
  }

  /** The status key holds status lists and every other key holds a file listing. */
  predicate WellTyped(cache: Store<Cached>) {
    forall k :: k in cache ==> (cache[k].value.StatusesValue? <==> k == STATUS_KEY)
  }

  predicate UniqueBackend(store: Backend) {
    forall d :: d in store ==> UniquePaths(store[d])
  }

  /** The collaborators whose code is not part of this model. */
  datatype Env = Env(
    fmt: Formatters,
    backupDisk: Rule,                                // the `BackupDisk` rule object
    pathToZip: Rule,                                 // the `PathToZip` rule object
    monitor: Backend -> seq<DestinationStatus>)      // one status per monitored destination

  /** `! $this->activeDisk` is false: a disk is chosen and its name is not "" or "0". */
  predicate DiskChosen(activeDisk: Option<string>) {
    activeDisk.Some? && Truthy(activeDisk.value)
  }

  /** `$deletingFile ? $deletingFile['path'] : ''` */
  function PendingPath(pending: Option<FileRow>): string {
    if pending.Some? then pending.value.path else ""
  }

  class App {
    var backupStatuses: seq<StatusRecord>
    var activeDisk: Option<string>
    var disks: seq<string>
    var files: seq<FileRow>
    var deletingFile: Option<FileRow>
    var cache: Store<Cached>  // the application cache, shared across requests
    var store: Backend        // the storage disks
    const env: Env

    ghost predicate Valid()
      reads this
    {
      WellTyped(cache) && UniqueBackend(store)
    }

    constructor (env: Env, cache: Store<Cached>, store: Backend)
      requires WellTyped(cache) && UniqueBackend(store)
      ensures Valid()
      ensures this.env == env && this.cache == cache && this.store == store
      ensures backupStatuses == [] && activeDisk == None && disks == [] && files == [] && deletingFile == None
    {
      this.env := env;
      this.cache := cache;
      this.store := store;
      backupStatuses := [];
      activeDisk := None;
      disks := [];
      files := [];
      deletingFile := None;
    }

    /**
     * `updateBackupStatuses`: the statuses come from the cache while its entry is
     * live and are recomputed otherwise; a first disk is chosen when none is; the
     * disk list follows the statuses.
     */
    method UpdateBackupStatuses(now: int)
      requires Valid()
      modifies this`cache, this`backupStatuses, this`activeDisk, this`disks
      ensures Valid()
      ensures Live(old(cache), STATUS_KEY, now) ==>
        backupStatuses == old(cache)[STATUS_KEY].value.statuses && cache == old(cache)
      ensures !Live(old(cache), STATUS_KEY, now) ==>
        backupStatuses == StatusRecords(env.fmt, env.monitor(store), now) &&
        cache == old(cache)[STATUS_KEY := Entry(StatusesValue(backupStatuses), now + TTL_SECONDS)]
      ensures !DiskChosen(old(activeDisk)) && |backupStatuses| > 0 ==> activeDisk == Some(backupStatuses[0].disk)
      ensures DiskChosen(old(activeDisk)) || |backupStatuses| == 0 ==> activeDisk == old(activeDisk)
      ensures |disks| == |backupStatuses|
      ensures forall i :: 0 <= i < |disks| ==> disks[i] == backupStatuses[i].disk
    {
      var e, st := env, store;
      var r := Remember(cache, STATUS_KEY, now, () => StatusesValue(StatusRecords(e.fmt, e.monitor(st), now)));
      cache := r.store;
      backupStatuses := r.value.statuses;
      if !DiskChosen(activeDisk) && |backupStatuses| > 0 {
        activeDisk := Some(backupStatuses[0].disk);
      }
      disks := DiskNames(backupStatuses);
    }

    /**
     * `getFiles(disk)`: a non-empty argument becomes the active disk before the
     * active disk is validated; the listing is replaced only when validation
     * passes, from the cache while its entry is live. The pending deletion is kept.
     */
    method GetFiles(disk: string, now: int) returns (outcome: Outcome)
      requires Valid()
      modifies this`activeDisk, this`files, this`cache
      ensures Valid()
      ensures activeDisk == if Truthy(disk) then Some(disk) else old(activeDisk)
      ensures ValidateActiveDisk(activeDisk, env.backupDisk).Failed? ==>
        outcome == Aborted(ValidationFailed(ValidateActiveDisk(activeDisk, env.backupDisk).message)) &&
        files == old(files) && cache == old(cache)
      ensures ValidateActiveDisk(activeDisk, env.backupDisk).Passed? ==>
        var key := ListingKey(activeDisk.value);
        outcome == Done &&
        (Live(old(cache), key, now) ==> files == old(cache)[key].value.rows && cache == old(cache)) &&
        (!Live(old(cache), key, now) ==>
          files == Listing(env.fmt, Entries(store, activeDisk.value)) &&
          cache == old(cache)[key := Entry(ListingValue(files), now + TTL_SECONDS)])
    {
      if Truthy(disk) {
        activeDisk := Some(disk);
      }
      var check := ValidateActiveDisk(activeDisk, env.backupDisk);
      if check.Failed? {
        return Aborted(ValidationFailed(check.message));
      }
      var fmt, entries := env.fmt, Entries(store, activeDisk.value);
      var r := Remember(cache, ListingKey(activeDisk.value), now, () => ListingValue(Listing(fmt, entries)));
      cache := r.store;
      files := r.value.rows;
      outcome := Done;
    }

    /** `showDeleteModal(i)`: the row at index `i` becomes the pending deletion; a missing index aborts. */
    method ShowDeleteModal(index: int) returns (outcome: Outcome)
      requires Valid()
      modifies this`deletingFile
      ensures Valid()
      ensures 0 <= index < |files| ==> outcome == Done && deletingFile == Some(files[index])
      ensures !(0 <= index < |files|) ==> outcome == Aborted(UndefinedArrayKey(index)) && deletingFile == old(deletingFile)
    {
      if 0 <= index < |files| {
        deletingFile := Some(files[index]);
        outcome := Done;
      } else {
        outcome := Aborted(UndefinedArrayKey(index));
      }
    }

    /**
     * `deleteFile`: the pending deletion is cleared first, on every path; then
     * the active disk and the pending path are validated; the first archive
     * with that exact path is deleted from the disk and the rows with the same
     * path, date and size leave the listing. The cached listing is left as it is.
     */
    method DeleteFile() returns (outcome: Outcome)
      requires Valid()
      modifies this`deletingFile, this`store, this`files
      ensures Valid()
      ensures deletingFile == None
      ensures ValidateActiveDisk(activeDisk, env.backupDisk).Failed? ==>
        outcome == Aborted(ValidationFailed(ValidateActiveDisk(activeDisk, env.backupDisk).message)) &&
        files == old(files) && store == old(store)
      ensures ValidateActiveDisk(activeDisk, env.backupDisk).Passed? && old(deletingFile) == None ==>
        outcome == Aborted(ValidationFailed(SELECT_A_FILE)) && files == old(files) && store == old(store)
      ensures var path := PendingPath(old(deletingFile));
        ValidateActiveDisk(activeDisk, env.backupDisk).Passed? && ValidateFilePath(path, env.pathToZip).Failed? ==>
          outcome == Aborted(ValidationFailed(ValidateFilePath(path, env.pathToZip).message)) &&
          files == old(files) && store == old(store)
      ensures var path := PendingPath(old(deletingFile));
        ValidateActiveDisk(activeDisk, env.backupDisk).Passed? && ValidateFilePath(path, env.pathToZip).Passed? ==>
          var entries := Entries(old(store), activeDisk.value);
          match FirstWithPath(entries, path)
          case None =>
            outcome == Aborted(DeleteOnNull(path)) && files == old(files) && store == old(store)
          case Some(i) =>
            outcome == Done &&
            store == old(store)[activeDisk.value := WithoutEntry(entries, i)] &&
            (forall k :: 0 <= k < |store[activeDisk.value]| ==> store[activeDisk.value][k].path != path) &&
            files == RejectFile(old(files), old(deletingFile).value)
    {
      var pending := deletingFile;
      deletingFile := None;
      var diskCheck := ValidateActiveDisk(activeDisk, env.backupDisk);
      if diskCheck.Failed? {
        return Aborted(ValidationFailed(diskCheck.message));
      }
      var path := PendingPath(pending);
      var fileCheck := ValidateFilePath(path, env.pathToZip);
      if fileCheck.Failed? {
        return Aborted(ValidationFailed(fileCheck.message));
      }
      var disk := activeDisk.value;
      var entries := Entries(store, disk);
      var found := FirstWithPath(entries, path);
      if found.None? {
        return Aborted(DeleteOnNull(path));
      }
      DeletionRemovesExactlyThePath(entries, found.value);
      store := store[disk := WithoutEntry(entries, found.value)];
      files := RejectFile(files, pending.value);
      outcome := Done;
    }
  }

  /**
   * A delete does not touch the cached listing: listing the active disk again
   * while that cache entry is live brings back the very rows shown before the
   * delete, the deleted one included, whatever the delete did on the disk.
   */
  method RelistWithinWindowRestoresRows(app: App, index: int, now: int)
    requires app.Valid()
    requires ValidateActiveDisk(app.activeDisk, app.env.backupDisk).Passed?
    requires Live(app.cache, ListingKey(app.activeDisk.value), now)
    requires app.files == app.cache[ListingKey(app.activeDisk.value)].value.rows
    modifies app
    ensures app.files == old(app.files)
  {
    var selected := app.ShowDeleteModal(index);
    var deleted := app.DeleteFile();
    var relisted := app.GetFiles("", now);
  }
}
