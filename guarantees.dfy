/**
 * What the routes promise together: a file that was uploaded comes back
 * byte for byte from a download by its owner, and a failed upload leaves
 * none of its blobs behind except those whose destroy failed.
 */
module Guarantees {
  import opened Wrappers
  import opened Bytes
  import opened Cipher
  import opened Fragmenter
  import opened FileModel
  import opened Stores
  import opened BlobCleanup
  import opened UploadRoute
  import opened DownloadRoute

  /** One more upload leaves every other id's blob as it was. */
  lemma StoredKeeps(base: map<string, seq<byte>>, userId: string, f: UploadedFile, env: UploadEnv, k: nat, id: string)
    requires EnoughDraws(env) && 0 < k <= FragmentCount
    requires id != PublicId(userId, f.originalName, k - 1)
    ensures id in Stored(base, userId, f, env, k) <==> id in Stored(base, userId, f, env, k - 1)
    ensures id in Stored(base, userId, f, env, k) ==>
              Stored(base, userId, f, env, k)[id] == Stored(base, userId, f, env, k - 1)[id]
  {
  }

  /** After `k` uploads, each of those fragments' blob holds its ciphertext. */
  lemma {:induction false} StoredAt(base: map<string, seq<byte>>, userId: string, f: UploadedFile, env: UploadEnv, k: nat, i: nat)
    requires EnoughDraws(env) && i < k <= FragmentCount
    ensures PublicId(userId, f.originalName, i) in Stored(base, userId, f, env, k)
    ensures Stored(base, userId, f, env, k)[PublicId(userId, f.originalName, i)] == SealedAt(f, env, i).encryptedData
  {
    if i < k - 1 {
      StoredAt(base, userId, f, env, k - 1, i);
      PublicIdsDistinct(userId, f.originalName, i, k - 1);
      StoredKeeps(base, userId, f, env, k, PublicId(userId, f.originalName, i));
    }
  }

  /** Blobs under any id other than the run's fragment ids are those of `base`. */
  lemma {:induction false} StoredElsewhere(base: map<string, seq<byte>>, userId: string, f: UploadedFile, env: UploadEnv, k: nat, id: string)
    requires EnoughDraws(env) && k <= FragmentCount
    requires forall i :: 0 <= i < k ==> id != PublicId(userId, f.originalName, i)
    ensures id in Stored(base, userId, f, env, k) <==> id in base
    ensures id in base ==> Stored(base, userId, f, env, k)[id] == base[id]
  {
    if k > 0 {
      StoredElsewhere(base, userId, f, env, k - 1, id);
      StoredKeeps(base, userId, f, env, k, id);
    }
  }

  /**
   * Rollback of a failed upload at fragment `k + 1`: every blob it stored is
   * gone unless its destroy failed, and every other blob is as before.
   */
  lemma RollbackLeavesNoTrace(base: map<string, seq<byte>>, userId: string, f: UploadedFile, env: UploadEnv, k: nat)
    requires EnoughDraws(env) && k < FragmentCount
    ensures var after := Stored(base, userId, f, env, k) - Cleared(BlobIds(Entries(userId, f, env, k)), env.destroyFaults);
            && (forall i :: 0 <= i < k && PublicId(userId, f.originalName, i) !in env.destroyFaults ==>
                  PublicId(userId, f.originalName, i) !in after)
            && (forall id :: id !in BlobIds(Entries(userId, f, env, k)) ==>
                  (id in after <==> id in base) && (id in base ==> after[id] == base[id]))
  {
    var ids := BlobIds(Entries(userId, f, env, k));
    forall i | 0 <= i < k ensures PublicId(userId, f.originalName, i) in ids {
      assert ids[i] == PublicId(userId, f.originalName, i);
    }
    forall id | id !in ids
      ensures id in Stored(base, userId, f, env, k) <==> id in base
      ensures id in base ==> Stored(base, userId, f, env, k)[id] == base[id]
    {
      forall i | 0 <= i < k ensures id != PublicId(userId, f.originalName, i) {
        assert ids[i] == PublicId(userId, f.originalName, i);
      }
      StoredElsewhere(base, userId, f, env, k, id);
    }
  }

  /** Fragment `i`'s entry opens to its plaintext slice when its blob is in place. */
  lemma OpenEntry(blobs: map<string, seq<byte>>, unreachable: set<string>, userId: string, f: UploadedFile, env: UploadEnv, i: nat)
    requires EnoughDraws(env) && i < FragmentCount
    requires PublicId(userId, f.originalName, i) in blobs
    requires blobs[PublicId(userId, f.originalName, i)] == SealedAt(f, env, i).encryptedData
    requires SecureUrl(PublicId(userId, f.originalName, i)) !in unreachable
    ensures OpenFragment(blobs, unreachable, EntryAt(userId, f, env, i)) == Ok(SliceAt(f.buffer, FragmentCount, i))
  {
    var s := SealedAt(f, env, i);
    FetchSecureUrl(blobs, PublicId(userId, f.originalName, i), unreachable);
    HexRoundTrip(env.draws[i].key);
    HexRoundTrip(s.iv);
    HexRoundTrip(s.authTag);
    DecryptEncrypt(SliceAt(f.buffer, FragmentCount, i), env.draws[i].key, env.draws[i].iv);
  }

  /** With every blob of a run in place and reachable, its entries open to the file's slices. */
  lemma OpenStoredEntries(base: map<string, seq<byte>>, unreachable: set<string>, userId: string, f: UploadedFile, env: UploadEnv)
    requires EnoughDraws(env)
    requires forall i :: 0 <= i < FragmentCount ==> SecureUrl(PublicId(userId, f.originalName, i)) !in unreachable
    ensures OpenAll(Stored(base, userId, f, env, FragmentCount), unreachable, Entries(userId, f, env, FragmentCount))
            == Ok(Split(f.buffer, FragmentCount, FragmentCount))
  {
    var blobs := Stored(base, userId, f, env, FragmentCount);
    var es := Entries(userId, f, env, FragmentCount);
    var parts := Split(f.buffer, FragmentCount, FragmentCount);
    forall i | 0 <= i < FragmentCount ensures OpenFragment(blobs, unreachable, es[i]) == Ok(parts[i]) {
      StoredAt(base, userId, f, env, FragmentCount, i);
      OpenEntry(blobs, unreachable, userId, f, env, i);
    }
    OpenAllOk(blobs, unreachable, es, parts);
  }

  /**
   * Upload then download: with the document a successful upload saves and
   * the blobs it stored, the owner's download returns the original bytes,
   * content type and name.
   */
  lemma UploadedFileDownloads(records: map<string, FileRecord>, base: map<string, seq<byte>>,
                              userId: string, f: UploadedFile, env: UploadEnv, unreachable: set<string>)
    requires EnoughDraws(env)
    requires forall i :: 0 <= i < FragmentCount ==> SecureUrl(PublicId(userId, f.originalName, i)) !in unreachable
    ensures DownloadOutcome(records[env.fileId := CommittedRecord(userId, f, env)],
                            Stored(base, userId, f, env, FragmentCount),
                            userId, env.fileId, unreachable)
            == Ok(Downloaded(f.mimeType, f.originalName, f.buffer))
  {
    var rec := CommittedRecord(userId, f, env);
    var saved := records[env.fileId := rec];
    var es := Entries(userId, f, env, FragmentCount);
    var parts := Split(f.buffer, FragmentCount, FragmentCount);
    assert saved[env.fileId] == rec && rec.fragments == es;
    assert SortedByNumber(es);
    OpenStoredEntries(base, unreachable, userId, f, env);
    ConcatSplit(f.buffer, FragmentCount);
    DownloadOfOrderedRecord(saved, Stored(base, userId, f, env, FragmentCount), userId, env.fileId, unreachable, parts);
  }

  /** Another owner asking for the file gets NotFound, never its content. */
  lemma OtherOwnerGetsNotFound(records: map<string, FileRecord>, blobs: map<string, seq<byte>>,
                               owner: string, other: string, fileId: string, unreachable: set<string>)
    requires fileId in records && records[fileId].userId == owner && other != owner
    ensures DownloadOutcome(records, blobs, other, fileId, unreachable) == Err(DownloadRoute.NotFound)
  {
  }

  /** The two routes run one after the other against the same stores. */
  method UploadThenDownload(blobs: BlobStore, files: FileCollection, userId: string, f: UploadedFile, env: UploadEnv)
    returns (uploaded: Result<UploadReceipt, UploadError>, downloaded: Result<Downloaded, DownloadError>)
    requires EnoughDraws(env) && files.Valid()
    modifies blobs, files
    ensures files.Valid()
    ensures uploaded.Ok? <==> Accepted(f) && FirstFault(env) == FragmentCount
                              && MissingRequired(CommittedRecord(userId, f, env)) == {} && !env.saveFault
    ensures uploaded.Ok? ==> uploaded.value.fileId == env.fileId
    ensures uploaded.Ok? ==> downloaded == Ok(Downloaded(f.mimeType, f.originalName, f.buffer))
  {
    uploaded := Upload(blobs, files, userId, Some(f), env);
    downloaded := Download(files, blobs, userId, env.fileId, {});
    if uploaded.Ok? {
      UploadedFileDownloads(old(files.records), old(blobs.blobs), userId, f, env, {});
    }
  }
}
