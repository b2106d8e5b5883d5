/**
 * The `GET /files` and `DELETE /files/:fileId` routes: list the owner's
 * complete files without their secrets, and delete one file, its blobs
 * first (best effort) and then its document.
 */
module ManageRoutes {
  import opened Wrappers
  import opened FileModel
  import opened Stores
  import opened BlobCleanup

  /**
   * `File.find({ userId, isComplete: true }).select(...)`: the redacted
   * form of exactly the owner's complete documents.
   */
  function ListFiles(records: map<string, FileRecord>, userId: string): (listing: set<FileSummary>)
    ensures forall k :: k in records && records[k].userId == userId && records[k].isComplete ==>
              Redact(records[k]) in listing
    ensures forall s :: s in listing ==>
              exists k :: k in records && records[k].userId == userId && records[k].isComplete && s == Redact(records[k])
  {
    set k | k in records && records[k].userId == userId && records[k].isComplete :: Redact(records[k])
  }

  datatype DeleteError = NotFound

  /** The success answer: `fileId` and `originalName`. */
  datatype DeleteReceipt = DeleteReceipt(fileId: string, originalName: string)

  /**
   * Find the owner's document, attempt to destroy every fragment's blob
   * (a failed destroy never stops the route), then delete the document.
   */
  method Delete(files: FileCollection, blobs: BlobStore, userId: string, fileId: string, destroyFaults: set<string>)
    returns (r: Result<DeleteReceipt, DeleteError>, attempted: seq<string>)
    requires files.Valid()
    modifies files, blobs
    ensures files.Valid()
    ensures FindOwned(old(files.records), fileId, userId).None? ==>
              && r == Err(NotFound) && attempted == []
              && files.records == old(files.records) && blobs.blobs == old(blobs.blobs)
    ensures FindOwned(old(files.records), fileId, userId).Some? ==>
              var rec := old(files.records)[fileId];
              && r == Ok(DeleteReceipt(fileId, rec.originalName))
              && attempted == BlobIds(rec.fragments)
              && blobs.blobs == old(blobs.blobs) - Cleared(attempted, destroyFaults)
              && files.records == old(files.records) - {fileId}
  {
    var found := FindOwned(files.records, fileId, userId);
    if found.None? {
      return Err(NotFound), [];
    }
    var fileRecord := found.value;
    attempted := DestroyAll(blobs, fileRecord.fragments, destroyFaults);
    files.DeleteOne(fileId);
    return Ok(DeleteReceipt(fileId, fileRecord.originalName)), attempted;
  }
}
