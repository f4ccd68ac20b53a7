/**
 * `downloadFile` and `respondWithBackupStream`: the archive is looked up by
 * exact path in a fresh listing of the active disk, and the response is
 * either the 422 text "Backup not found" or a 200 stream with download headers.
 */
module Transfer {
  import opened Prelude
  import opened Php
  import opened Validation
  import opened Errors
  import opened Catalog

  /** A response body: plain text, or the bytes of the archive at a path, streamed. */
  datatype Body = Text(text: string) | ArchiveStream(path: string)

  datatype Response = Response(status: nat, headers: map<string, string>, body: Body)

  const HTTP_OK: nat := 200
  const HTTP_UNPROCESSABLE_ENTITY: nat := 422
  const BACKUP_NOT_FOUND := "Backup not found"
  const NO_CACHE := "must-revalidate, post-check=0, pre-check=0"

  /** The value of `Content-Disposition` for a download of the archive at `path`. */
  function Attachment(path: string): string {
    "attachment; filename=\"" + Basename(path) + "\""
  }

  /** `respondWithBackupStream`: status 200, the five download headers, a stream of the archive at its path as the body. */
  function RespondWithBackupStream(backup: Backup): (r: Response)
    ensures r.status == HTTP_OK && r.body == ArchiveStream(backup.path)
    ensures r.headers.Keys == {"Cache-Control", "Content-Type", "Content-Length", "Content-Disposition", "Pragma"}
    ensures r.headers["Content-Type"] == "application/zip"
    ensures AllDigits(r.headers["Content-Length"]) && ParseDecimal(r.headers["Content-Length"]) == backup.sizeBytes
    ensures r.headers["Content-Disposition"] == Attachment(backup.path)
    ensures r.headers["Cache-Control"] == NO_CACHE
    ensures r.headers["Pragma"] == "public"
  {
    DecimalRoundTrip(backup.sizeBytes);
    // "Cache-Control" differs from the other four names in its second character
    assert "Cache-Control"[1] == 'a' && "Content-Type"[1] == 'o' && "Content-Length"[1] == 'o';
    assert "Content-Disposition"[1] == 'o' && "Pragma"[1] == 'r';
    Response(HTTP_OK, map[
      "Cache-Control" := NO_CACHE,
      "Content-Type" := "application/zip",
      "Content-Length" := DecimalString(backup.sizeBytes),
      "Content-Disposition" := Attachment(backup.path),
      "Pragma" := "public"
    ], ArchiveStream(backup.path))
  }

  /**
   * `downloadFile(filePath)` for the given active disk and backend. A validation
   * failure aborts with its message; otherwise the answer is 422 when no archive
   * has exactly that path, and the stream of the first one that has it otherwise.
   */
  function DownloadFile(activeDisk: Option<string>, store: Backend, backupDisk: Rule, pathToZip: Rule,
                        filePath: string): (r: Result<Response, Failure>)
    ensures ValidateActiveDisk(activeDisk, backupDisk).Failed? ==>
      r == Failure(ValidationFailed(ValidateActiveDisk(activeDisk, backupDisk).message))
    ensures ValidateActiveDisk(activeDisk, backupDisk).Passed? && ValidateFilePath(filePath, pathToZip).Failed? ==>
      r == Failure(ValidationFailed(ValidateFilePath(filePath, pathToZip).message))
    ensures r.Success? <==> ValidateActiveDisk(activeDisk, backupDisk).Passed? && ValidateFilePath(filePath, pathToZip).Passed?
    ensures r.Success? ==>
      var entries := Entries(store, activeDisk.value);
      (r.value.status == HTTP_UNPROCESSABLE_ENTITY <==> forall i :: 0 <= i < |entries| ==> entries[i].path != filePath) &&
      (r.value.status == HTTP_UNPROCESSABLE_ENTITY ==> r.value == Response(HTTP_UNPROCESSABLE_ENTITY, map[], Text(BACKUP_NOT_FOUND))) &&
      (r.value.status == HTTP_OK ==> r.value.body == ArchiveStream(filePath))
    ensures r.Success? && FirstWithPath(Entries(store, activeDisk.value), filePath).Some? ==>
      var entries := Entries(store, activeDisk.value);
      r.value == RespondWithBackupStream(entries[FirstWithPath(entries, filePath).value]) &&
      r.value.status == HTTP_OK &&
      ParseDecimal(r.value.headers["Content-Length"]) == entries[FirstWithPath(entries, filePath).value].sizeBytes
  {
    var diskCheck := ValidateActiveDisk(activeDisk, backupDisk);
    if diskCheck.Failed? then Failure(ValidationFailed(diskCheck.message))
    else
      var fileCheck := ValidateFilePath(filePath, pathToZip);
      if fileCheck.Failed? then Failure(ValidationFailed(fileCheck.message))
      else
        var entries := Entries(store, activeDisk.value);
        match FirstWithPath(entries, filePath)
        case None => Success(Response(HTTP_UNPROCESSABLE_ENTITY, map[], Text(BACKUP_NOT_FOUND)))
        case Some(i) => Success(RespondWithBackupStream(entries[i]))
  }

  /**
   * A download of an archive that is on the active disk streams that very archive,
   * announcing its exact byte size and its base name.
   */
  lemma DownloadServesThatArchive(activeDisk: string, store: Backend, backupDisk: Rule, pathToZip: Rule, i: nat)
    requires ValidateActiveDisk(Some(activeDisk), backupDisk).Passed?
    requires UniquePaths(Entries(store, activeDisk)) && i < |Entries(store, activeDisk)|
    requires ValidateFilePath(Entries(store, activeDisk)[i].path, pathToZip).Passed?
    ensures var archive := Entries(store, activeDisk)[i];
            var r := DownloadFile(Some(activeDisk), store, backupDisk, pathToZip, archive.path);
            r.Success? && r.value == RespondWithBackupStream(archive) &&
            ParseDecimal(r.value.headers["Content-Length"]) == archive.sizeBytes &&
            r.value.headers["Content-Disposition"] == Attachment(archive.path)
  {
    var entries := Entries(store, activeDisk);
    FirstWithUniquePath(entries, i);
    assert FirstWithPath(entries, entries[i].path) == Some(i);
  }
}
