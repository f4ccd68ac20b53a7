# Backup panel: selection and inventory state machine

A Dafny model of the Livewire component `App` of the Laravel backup panel. The component
lists the monitored backup destinations and their health, lists the archives of an active
disk, records an archive picked for deletion, deletes it, and serves an archive as a
download. The model covers:

- its five public fields (`backupStatuses`, `activeDisk`, `disks`, `files`, `deletingFile`);
- the application cache that `Cache::remember` reads and writes, with a four-second expiry;
- the storage backend, as disk name to a sequence of archives `(path, date, sizeBytes)`.

Modules, leaves first:

- `Prelude`: `Option`, `Result` and an order-preserving `Map` over sequences.
- `Php`: PHP's string truthiness (`""` and `"0"` are false), `trim()`'s blank characters,
  `basename`, and the decimal text of a whole byte count.
- `ResultCache`: `Cache::remember` over a map from key to `(value, expiresAt)`, with an
  explicit `now` in seconds.
- `Validation`: Laravel's `required` rule followed by a rule object; `validateActiveDisk` and
  `validateFilePath`.
- `Errors`: the ways an action aborts.
- `Catalog`: the collection pipelines. These are the listing rows, the status records, the
  disk names, the first archive with a path, the deletion on the disk and the
  path/date/size rejection.
- `Transfer`: `downloadFile` and the headers of `respondWithBackupStream`.
- `Panel`: the component as `class App`. Its methods change the fields, the cache and the
  backend in place, and their `ensures` give the whole new state.

The collaborators whose code is not part of this model are opaque inputs. They are the
`BackupDisk` and `PathToZip` rule objects, date and size formatting, `diffForHumans`, and the
backup library's per-destination status. Each is held as a function-typed field of `Env` /
`Formatters`, so the model assumes nothing about them. The clock is the `now` argument.

In several places the code does less than one might expect, and the model follows the code:

- One might expect `deleteFile` to invalidate the cached listing; it does not. `RelistWithinWindowRestoresRows` shows
  the effect: listing again within the four-second window brings the deleted row back.
- One might expect a disk switch in `getFiles` to clear `deletingFile`; it does not.
- When no archive on the disk has the pending path, `deleteFile` calls `->delete()` on null.
  That is the `DeleteOnNull` abort, not a graceful "not found" like the one `downloadFile` gives.
- `getFiles` and `updateBackupStatuses` test the disk with PHP truthiness. So `"0"` is never
  taken as a `getFiles` argument, and an active disk `"0"` is replaced by the first status's
  disk. The `required` rule, by contrast, accepts `"0"` and refuses blank strings such as `" "`.
- `showDeleteModal` with a missing index aborts (`UndefinedArrayKey`). Laravel turns PHP's
  undefined-key warning into an exception, so no field changes.

## Model

| member | source | states |
|---|---|---|
| `Php.Basename` | src/Http/Livewire/App.php:150 | the file name put in `Content-Disposition` holds no '/' and is no longer than the path |
| `Php.BasenameOfJoin` | src/Http/Livewire/App.php:150 | the base name of `dir/name` and of `name` is `name` for a slash-free, non-empty name |
| `Php.Truthy` | src/Http/Livewire/App.php:55 | PHP's string-to-bool test used by `! $this->activeDisk` and `if ($disk)`: the empty string and "0" are false, every other string is true |
| `Php.DecimalString` | src/Http/Livewire/App.php:156 | the header text of `$size`: non-empty, all decimal digits, no leading zero except for 0 itself |
| `Php.DecimalRoundTrip` | src/Http/Livewire/App.php:156 | the decimal text written for `Content-Length` reads back as the byte size |
| `ResultCache.Remember` | src/Http/Livewire/App.php:37 | a live entry is returned unchanged without running the callback; otherwise the callback's value is stored with expiry `now + 4` and returned; other keys are untouched |
| `ResultCache.ComputedAtMostOncePerWindow` | src/Http/Livewire/App.php:79 | two calls for one key within four seconds run the callback at most once, and if the first call computed, the second returns its value |
| `ResultCache.RecomputedAfterExpiry` | src/Http/Livewire/App.php:79 | once `now` reaches the expiry, the callback runs again and its value is returned |
| `Validation.RequiredThen` | src/Http/Livewire/App.php:200-208 | passes exactly when the value is non-null, not blank and accepted by the rule; the required message wins over the rule's |
| `Validation.ValidateActiveDisk` | src/Http/Livewire/App.php:197-215 | null or "" fails with exactly "Select a disk"; a present disk fails only when `BackupDisk` rejects it, with that rule's message |
| `Validation.ValidateFilePath` | src/Http/Livewire/App.php:217-235 | "" fails with exactly "Select a file"; a present path fails only when `PathToZip` rejects it, with that rule's message |
| `Validation.BlankAndZeroDisks` | src/Http/Livewire/App.php:200-206 | a blank disk name fails as "Select a disk", while "0" is left to the `BackupDisk` rule |
| `Catalog.Listing` | src/Http/Livewire/App.php:80-90 | one row per archive, in backend order, with the archive's path and its formatted date and size |
| `Catalog.StatusRecords` | src/Http/Livewire/App.php:39-52 | exactly one record per destination status, same order, carrying its disk and count, and "No backups present" when there is no newest backup |
| `Catalog.DiskNames` | src/Http/Livewire/App.php:59-64 | `disks` has the length and order of the statuses and holds each status's `disk` |
| `Catalog.FirstWithPath` | src/Http/Livewire/App.php:137-139 | none exactly when no archive has that exact path; otherwise the lowest index whose path equals it |
| `Catalog.FirstWithUniquePath` | src/Http/Livewire/App.php:113-117 | with unique paths, looking up an archive's own path finds that archive |
| `Catalog.WithoutEntry` | src/Http/Livewire/App.php:118 | the disk after `->delete()` of the archive at index `i`: one archive shorter, the others in their order, the multiset minus exactly that archive |
| `Catalog.DeletionRemovesExactlyThePath` | src/Http/Livewire/App.php:113-118 | deleting the archive leaves the others in order, none at that path, paths still unique |
| `Catalog.RejectFile` | src/Http/Livewire/App.php:120-127 | the filtered listing is never longer than the listing; what it keeps is stated by the three lemmas below |
| `Catalog.RejectCounts` | src/Http/Livewire/App.php:120-127 | the multiset of rows loses every copy of the pending row and nothing else |
| `Catalog.RejectKeeps` | src/Http/Livewire/App.php:121-124 | a row survives exactly when it was listed and its path, date or size differs from the pending row's |
| `Catalog.RejectConcat` | src/Http/Livewire/App.php:120-127 | rejection distributes over concatenation, so the survivors keep their relative order |
| `Catalog.ReconcileAgreesWithRelisting` | src/Http/Livewire/App.php:111-127 | on a fresh listing, removing the deleted archive's row equals listing the disk after the deletion |
| `Transfer.RespondWithBackupStream` | src/Http/Livewire/App.php:148-169 | status 200, exactly the five headers the component builds, `application/zip`, a `Content-Length` reading back as the byte size, `attachment; filename="<basename>"`, a stream of the archive at its path as body |
| `Transfer.DownloadFile` | src/Http/Livewire/App.php:130-146 | a validation failure aborts with its message (disk first); after both pass, 422 "Backup not found" with no headers exactly when no archive has the exact path; otherwise exactly `RespondWithBackupStream` of the first archive with that path (status 200, its byte size as `Content-Length`) |
| `Transfer.DownloadServesThatArchive` | src/Http/Livewire/App.php:137-145 | downloading an archive's own path streams that archive with its exact size and base name |
| `Panel.ListingKey` | src/Http/Livewire/App.php:79 | a disk's listing key never equals the status key `backup-statuses` |
| `Panel.ListingKeyInjective` | src/Http/Livewire/App.php:79 | distinct disks have distinct listing keys |
| `Panel.App.constructor` | src/Http/Livewire/App.php:25-33 | no statuses, no active disk, no disks, no files, nothing pending |
| `Panel.App.UpdateBackupStatuses` | src/Http/Livewire/App.php:35-66 | statuses from the live cache entry or recomputed and stored for four seconds; the first status's disk becomes active only when none was chosen and there are statuses; `disks` mirrors the statuses |
| `Panel.App.GetFiles` | src/Http/Livewire/App.php:69-92 | a truthy argument becomes the active disk before validation; failure aborts with the message and leaves listing and cache; success takes the listing from the live cache entry or recomputes and stores it |
| `Panel.App.ShowDeleteModal` | src/Http/Livewire/App.php:94-99 | a valid index makes that row pending and changes nothing else; a missing index aborts |
| `Panel.App.DeleteFile` | src/Http/Livewire/App.php:101-128 | nothing is pending afterwards on every path; disk, then path validation abort without touching disk or listing; no match aborts as a delete on null; otherwise the first match leaves the disk and the triple-matching rows leave the listing; the cache is untouched |
| `Panel.RelistWithinWindowRestoresRows` | src/Http/Livewire/App.php:79 | after a delete, listing again within the cache window restores the rows shown before it |

Two plain definitions carry no contract of their own; the contracts above that use them say what
the component does with them. `Catalog.Entries` is the archive listing
`BackupDestination::create(disk, …)->backups()` (src/Http/Livewire/App.php:77-81, 111-114,
135-137): the disk's sequence in the backend, or none for a disk the backend lacks.
`Panel.PendingPath` is the path `deleteFile` validates (src/Http/Livewire/App.php:109): the
pending row's path, or the empty string when nothing is pending.

## Left out

- Livewire plumbing: the `dispatch` calls (`backupStatusesUpdated`, the modal and error-toast
  events), `#[On]`, `render` and `funBackup`'s injected JavaScript toast. They are
  presentation glue. The toast's message is the `message` carried by `ValidationFailed`.
- `createBackup`: a fire-and-forget dispatch of an external job onto a queue, with nothing to
  state beyond "it enqueues".
- Byte streaming (`fpassthru`, `fclose`): the body is named by the archive's path, not copied.
- The backup library's internals: reachability, health, counting, used storage, the newest
  backup, `diffForHumans`, the human-readable size, date formatting and the
  `sizeInBytes`/`size` probe. All are opaque inputs in `Env` and `Formatters`.
- The bodies of the `BackupDisk` and `PathToZip` rules, which are not part of this model.
- The real clock and sub-second precision. Time is an integer count of seconds passed as `now`.
- Concurrent requests and single-flight caching: the model is sequential, like the code.
- Failure of the disk's own delete. Laravel's disk reports it as `false` and the code ignores
  that result, so the model's deletion always takes effect.
- What Symfony's response layer does to the headers before sending them. It adds headers of its
  own (`Date`, the 422 response's defaults), and it appends `private` to the `Cache-Control`
  value because the directives name neither `public` nor `private`. Header names are also
  case-insensitive there. The model gives the headers exactly as the component builds them.
- `Transfer.RespondWithBackupStream` / `Php.DecimalString`: the size accessors (App.php:151) return a
  float, which PHP writes into the `Content-Length` header with 14 significant digits, so from
  10^14 bytes up the real header is in exponent form (`1.0E+14`) and rounded. The model keeps
  sizes as whole numbers and always writes them as plain decimal digits.
- `basename`'s treatment of backslashes and locales, and non-integer `$fileIndex` values.
