/**
 * The `POST /upload` route: check the file, split it into FRAGMENT_COUNT
 * fragments, encrypt and store each one under an owner-scoped name, record
 * its metadata, and save the file document only once every fragment is
 * stored; on a failed fragment, destroy what was stored and save nothing.
 */
module UploadRoute {
  import opened Wrappers
  import opened Bytes
  import opened JsString
  import opened Cipher
  import opened Fragmenter
  import opened FileModel
  import opened Stores
  import opened BlobCleanup

  /** `req.file` as multer hands it over; its `size` is the buffer's length. */
  datatype UploadedFile = UploadedFile(originalName: string, mimeType: string, buffer: seq<byte>)

  /** The random bytes drawn for one fragment: `generateEncryptionKey()` and `generateIV()`. */
  datatype Draw = Draw(key: Key, iv: Iv)

  /**
   * Everything the route gets from outside: the new document's id and
   * creation time, the random draws, and which operations of the services
   * fail (fragment indexes whose encryption or upload fails, blob ids whose
   * destroy fails, whether the save fails).
   */
  datatype UploadEnv = UploadEnv(
    fileId: string,
    now: int,
    draws: seq<Draw>,
    cipherFaults: set<nat>,
    storeFaults: set<nat>,
    destroyFaults: set<string>,
    saveFault: bool)

  datatype FragmentFault = EncryptionFailed | StoreFailed

  datatype UploadError =
    | NoFile
    | EmptyFile
    | InvalidName
    | FragmentFailed(fragmentNumber: nat, cause: FragmentFault)
    | SaveFailed(saveError: SaveError)

  /** The success answer: `fileId`, `originalName`, `size`, `uploadDate`. */
  datatype UploadReceipt = UploadReceipt(fileId: string, originalName: string, size: int, uploadDate: int)

  // ---- fragment names --------------------------------------------------------

  /** `originalName.substring(0, originalName.lastIndexOf('.'))` */
  function BaseName(name: string): string
  {
    Substring(name, 0, LastIndexOf(name, '.'))
  }

  /** `originalName.substring(originalName.lastIndexOf('.'))` */
  function Extension(name: string): string
  {
    Substring(name, LastIndexOf(name, '.'), |name|)
  }

  /**
   * The name splits at its last '.': base and extension together are the
   * name, the extension starts at that '.' and holds no other; a name
   * without '.' has an empty base and is its own extension.
   */
  lemma NameSplit(name: string)
    ensures BaseName(name) + Extension(name) == name
    ensures LastIndexOf(name, '.') < 0 ==> BaseName(name) == "" && Extension(name) == name
    ensures LastIndexOf(name, '.') >= 0 ==> Extension(name)[0] == '.'
    ensures forall k :: 0 < k < |Extension(name)| ==> Extension(name)[k] != '.'
  {
    var dot := LastIndexOf(name, '.');
    if dot >= 0 {
      assert name[..dot] + name[dot..] == name;
    } else {
      assert name[0..|name|] == name;
    }
  }

  /** `${baseFileName}_fragment${i + 1}${extension}` */
  function FragmentName(name: string, i: nat): string
  {
    BaseName(name) + "_fragment" + Decimal(i + 1) + Extension(name)
  }

  /** The `public_id` fragment `i` is uploaded under: `${userId}/${fragmentName}`. */
  function PublicId(userId: string, name: string, i: nat): string
  {
    userId + "/" + FragmentName(name, i)
  }

  lemma {:induction false} MiddleCancel(p: string, x: string, y: string, e: string)
    requires p + x + e == p + y + e
    ensures x == y
  {
    var a, b := p + x + e, p + y + e;
    assert |x| == |y|;
    assert x == a[|p|..|p| + |x|];
    assert y == b[|p|..|p| + |y|];
  }

  /** The fragments of one file get pairwise different blob ids. */
  lemma PublicIdsDistinct(userId: string, name: string, i: nat, j: nat)
    requires i != j
    ensures PublicId(userId, name, i) != PublicId(userId, name, j)
  {
    var p := userId + "/" + (BaseName(name) + "_fragment");
    var e := Extension(name);
    assert PublicId(userId, name, i) == p + Decimal(i + 1) + e;
    assert PublicId(userId, name, j) == p + Decimal(j + 1) + e;
    if PublicId(userId, name, i) == PublicId(userId, name, j) {
      MiddleCancel(p, Decimal(i + 1), Decimal(j + 1), e);
      DecimalInjective(i + 1, j + 1);
    }
  }

  // ---- what a run stores and records -------------------------------------------

  predicate EnoughDraws(env: UploadEnv)
  {
    |env.draws| >= FragmentCount
  }

  /** `encryptBuffer(fragments[i], key)` with the i-th draw. */
  function SealedAt(f: UploadedFile, env: UploadEnv, i: nat): Sealed
    requires EnoughDraws(env) && i < FragmentCount
  {
    EncryptBuffer(SliceAt(f.buffer, FragmentCount, i), env.draws[i].key, env.draws[i].iv)
  }

  /** The entry pushed onto `fileRecord.fragments` for fragment `i`. */
  function EntryAt(userId: string, f: UploadedFile, env: UploadEnv, i: nat): FragmentRecord
    requires EnoughDraws(env) && i < FragmentCount
  {
    var s := SealedAt(f, env, i);
    var id := PublicId(userId, f.originalName, i);
    FragmentRecord(i + 1, id, SecureUrl(id), HexEncode(env.draws[i].key), HexEncode(s.iv), HexEncode(s.authTag))
  }

  /** The entries of the first `k` fragments, in loop order. */
  function Entries(userId: string, f: UploadedFile, env: UploadEnv, k: nat): (es: seq<FragmentRecord>)
    requires EnoughDraws(env) && k <= FragmentCount
    ensures |es| == k
    ensures forall i :: 0 <= i < k ==> es[i] == EntryAt(userId, f, env, i)
  {
    if k == 0 then [] else Entries(userId, f, env, k - 1) + [EntryAt(userId, f, env, k - 1)]
  }

  /** The blob store after the first `k` fragments were uploaded into `base`. */
  function Stored(base: map<string, seq<byte>>, userId: string, f: UploadedFile, env: UploadEnv, k: nat): map<string, seq<byte>>
    requires EnoughDraws(env) && k <= FragmentCount
  {
    if k == 0 then base
    else Stored(base, userId, f, env, k - 1)[PublicId(userId, f.originalName, k - 1) := SealedAt(f, env, k - 1).encryptedData]
  }

  predicate Faulty(env: UploadEnv, i: nat)
  {
    i in env.cipherFaults || i in env.storeFaults
  }

  /** The first fragment whose encryption or upload fails, FRAGMENT_COUNT when none does. */
  function FirstFault(env: UploadEnv): (k: nat)
    ensures k <= FragmentCount
    ensures k < FragmentCount ==> Faulty(env, k)
    ensures forall j :: 0 <= j < k ==> !Faulty(env, j)
  {
    FirstFaultFrom(env, 0)
  }

  function FirstFaultFrom(env: UploadEnv, i: nat): (k: nat)
    requires i <= FragmentCount
    ensures i <= k <= FragmentCount
    ensures k < FragmentCount ==> Faulty(env, k)
    ensures forall j :: i <= j < k ==> !Faulty(env, j)
    decreases FragmentCount - i
  {
    if i == FragmentCount then FragmentCount
    else if Faulty(env, i) then i
    else FirstFaultFrom(env, i + 1)
  }

  /** No fragment before `i` fails. */
  predicate NoFaultBefore(env: UploadEnv, i: nat)
  {
    forall j :: 0 <= j < i ==> !Faulty(env, j)
  }

  /** A fault at `i` (or none, at FRAGMENT_COUNT) with none before it is the first one. */
  lemma FirstFaultIs(env: UploadEnv, i: nat)
    requires i <= FragmentCount && NoFaultBefore(env, i)
    requires i < FragmentCount ==> Faulty(env, i)
    ensures FirstFault(env) == i
  {
  }

  lemma NoFaultThrough(env: UploadEnv, i: nat)
    requires NoFaultBefore(env, i) && !Faulty(env, i)
    ensures NoFaultBefore(env, i + 1)
  {
  }

  /** Encryption runs before the upload, so its failure is the one reported. */
  function FaultCause(env: UploadEnv, i: nat): FragmentFault
  {
    if i in env.cipherFaults then EncryptionFailed else StoreFailed
  }

  /** The document `new File({...})` starts as, before any fragment. */
  function Draft(userId: string, f: UploadedFile, env: UploadEnv): FileRecord
  {
    NewFile(env.fileId, userId, f.originalName, f.mimeType, |f.buffer|, Some(FragmentCount), env.now)
  }

  /** The document saved by a successful run. */
  function CommittedRecord(userId: string, f: UploadedFile, env: UploadEnv): FileRecord
    requires EnoughDraws(env)
  {
    Draft(userId, f, env).(fragments := Entries(userId, f, env, FragmentCount), isComplete := true)
  }

  /** The checks made before anything is stored: a non-empty file with a non-blank name. */
  predicate Accepted(f: UploadedFile)
  {
    |f.buffer| > 0 && !IsBlank(f.originalName)
  }

  // ---- the route -------------------------------------------------------------------

  /**
   * The document a successful run saves: the file's metadata, complete, and
   * fragment `i` numbered `i + 1`, stored under its owner-scoped id, with
   * the key that was drawn for it recoverable from its hex text.
   */
  lemma CommittedRecordShape(userId: string, f: UploadedFile, env: UploadEnv)
    requires EnoughDraws(env)
    ensures var rec := CommittedRecord(userId, f, env);
            && rec.id == env.fileId && rec.userId == userId
            && rec.originalName == f.originalName && rec.mimeType == f.mimeType
            && rec.size == |f.buffer| && rec.uploadDate == env.now
            && Committed(rec, FragmentCount)
            && forall i :: 0 <= i < FragmentCount ==>
                 && rec.fragments[i].cloudinaryId == PublicId(userId, f.originalName, i)
                 && rec.fragments[i].cloudinaryUrl == SecureUrl(PublicId(userId, f.originalName, i))
                 && HexDecode(rec.fragments[i].encryptionKey) == env.draws[i].key
  {
    forall i | 0 <= i < FragmentCount ensures HexDecode(HexEncode(env.draws[i].key)) == env.draws[i].key {
      HexRoundTrip(env.draws[i].key);
    }
  }

  /**
   * The `try` block for fragment `i`: draw a key, encrypt, upload under the
   * owner-scoped name, and build the entry to push.
   */
  method ProcessFragment(blobs: BlobStore, userId: string, f: UploadedFile, env: UploadEnv, i: nat,
                         fragment: seq<byte>, baseFileName: string, extension: string)
    returns (r: Result<FragmentRecord, FragmentFault>)
    requires EnoughDraws(env) && i < FragmentCount
    requires fragment == SliceAt(f.buffer, FragmentCount, i)
    requires baseFileName == BaseName(f.originalName) && extension == Extension(f.originalName)
    modifies blobs
    ensures r.Ok? <==> !Faulty(env, i)
    ensures r.Err? ==> r.error == FaultCause(env, i) && blobs.blobs == old(blobs.blobs)
    ensures r.Ok? ==> r.value == EntryAt(userId, f, env, i)
    ensures r.Ok? ==> blobs.blobs == old(blobs.blobs)[PublicId(userId, f.originalName, i) := SealedAt(f, env, i).encryptedData]
  {
    var key := env.draws[i].key;
    if i in env.cipherFaults {
      return Err(EncryptionFailed);
    }
    var encryptionResult := EncryptBuffer(fragment, key, env.draws[i].iv);
    var fragmentName := baseFileName + "_fragment" + Decimal(i + 1) + extension;
    var result := blobs.Upload(userId + "/" + fragmentName, encryptionResult.encryptedData, i in env.storeFaults);
    if result.Err? {
      return Err(StoreFailed);
    }
    return Ok(FragmentRecord(
      i + 1, result.value.publicId, result.value.secureUrl,
      HexEncode(key), HexEncode(encryptionResult.iv), HexEncode(encryptionResult.authTag)));
  }

  /**
   * The `for` loop over the fragments: process each one and push its
   * entry; on the first failure destroy the blobs the entries so far name
   * and report the fragment's number.
   */
  method ProcessFragments(blobs: BlobStore, userId: string, f: UploadedFile, env: UploadEnv,
                          fragments: seq<seq<byte>>, baseFileName: string, extension: string,
                          draft: FileRecord)
    returns (r: Result<FileRecord, UploadError>)
    requires EnoughDraws(env)
    requires fragments == Split(f.buffer, FragmentCount, FragmentCount)
    requires baseFileName == BaseName(f.originalName) && extension == Extension(f.originalName)
    requires draft == Draft(userId, f, env)
    modifies blobs
    ensures FirstFault(env) < FragmentCount ==>
              var k := FirstFault(env);
              && r == Err(FragmentFailed(k + 1, FaultCause(env, k)))
              && blobs.blobs == Stored(old(blobs.blobs), userId, f, env, k)
                                - Cleared(BlobIds(Entries(userId, f, env, k)), env.destroyFaults)
    ensures FirstFault(env) == FragmentCount ==>
              && r == Ok(draft.(fragments := Entries(userId, f, env, FragmentCount)))
              && blobs.blobs == Stored(old(blobs.blobs), userId, f, env, FragmentCount)
  {
    var fileRecord := draft;
    for i := 0 to |fragments|
      invariant fileRecord == draft.(fragments := Entries(userId, f, env, i))
      invariant blobs.blobs == Stored(old(blobs.blobs), userId, f, env, i)
      invariant NoFaultBefore(env, i)
    {
      var entry := ProcessFragment(blobs, userId, f, env, i, fragments[i], baseFileName, extension);
      if entry.Err? {
        FirstFaultIs(env, i);
        var _ := DestroyAll(blobs, fileRecord.fragments, env.destroyFaults);
        return Err(FragmentFailed(i + 1, entry.error));
      }
      NoFaultThrough(env, i);
      assert Entries(userId, f, env, i + 1) == fileRecord.fragments + [entry.value];
      fileRecord := fileRecord.(fragments := fileRecord.fragments + [entry.value]);
    }
    FirstFaultIs(env, FragmentCount);
    return Ok(fileRecord);
  }

  /**
   * After every fragment was stored: mark the document complete, save it
   * once, and answer with its id, name, size and date.
   */
  method SaveComplete(files: FileCollection, fileRecord: FileRecord, saveFault: bool)
    returns (r: Result<UploadReceipt, UploadError>)
    requires files.Valid() && Committed(fileRecord.(isComplete := true), FragmentCount)
    modifies files
    ensures files.Valid()
    ensures var doc := fileRecord.(isComplete := true);
            && (MissingRequired(doc) != {} ==>
                  r == Err(SaveFailed(ValidationFailed(MissingRequired(doc)))) && files.records == old(files.records))
            && (MissingRequired(doc) == {} && saveFault ==>
                  r == Err(SaveFailed(DatabaseFailure)) && files.records == old(files.records))
            && (MissingRequired(doc) == {} && !saveFault ==>
                  && r == Ok(UploadReceipt(doc.id, doc.originalName, doc.size, doc.uploadDate))
                  && files.records == old(files.records)[doc.id := doc])
  {
    var doc := fileRecord.(isComplete := true);
    var saved := files.Save(doc, saveFault);
    if saved.Err? {
      return Err(SaveFailed(saved.error));
    }
    return Ok(UploadReceipt(doc.id, doc.originalName, doc.size, doc.uploadDate));
  }

  /**
   * The route after the request checks: derive the fragment names,
   * process the fragments, and save the complete document.
   */
  method StoreAccepted(blobs: BlobStore, files: FileCollection, userId: string, f: UploadedFile, env: UploadEnv,
                       fragments: seq<seq<byte>>)
    returns (r: Result<UploadReceipt, UploadError>)
    requires EnoughDraws(env) && Accepted(f)
    requires fragments == Split(f.buffer, FragmentCount, FragmentCount)
    requires files.Valid()
    modifies blobs, files
    ensures files.Valid()
    ensures FirstFault(env) < FragmentCount ==>
              var k := FirstFault(env);
              && r == Err(FragmentFailed(k + 1, FaultCause(env, k)))
              && files.records == old(files.records)
              && blobs.blobs == Stored(old(blobs.blobs), userId, f, env, k)
                                - Cleared(BlobIds(Entries(userId, f, env, k)), env.destroyFaults)
    ensures FirstFault(env) == FragmentCount ==>
              && blobs.blobs == Stored(old(blobs.blobs), userId, f, env, FragmentCount)
              && var doc := CommittedRecord(userId, f, env);
              && (MissingRequired(doc) != {} ==>
                    r == Err(SaveFailed(ValidationFailed(MissingRequired(doc)))) && files.records == old(files.records))
              && (MissingRequired(doc) == {} && env.saveFault ==>
                    r == Err(SaveFailed(DatabaseFailure)) && files.records == old(files.records))
              && (MissingRequired(doc) == {} && !env.saveFault ==>
                    && r == Ok(UploadReceipt(env.fileId, doc.originalName, doc.size, doc.uploadDate))
                    && files.records == old(files.records)[env.fileId := doc])
  {
    var originalName := f.originalName;
    var baseFileName := Substring(originalName, 0, LastIndexOf(originalName, '.'));
    var extension := Substring(originalName, LastIndexOf(originalName, '.'), |originalName|);

    var fileRecord := NewFile(env.fileId, userId, originalName, f.mimeType, |f.buffer|, Some(FragmentCount), env.now);
    var processed := ProcessFragments(blobs, userId, f, env, fragments, baseFileName, extension, fileRecord);
    if processed.Err? {
      return Err(processed.error);
    }
    assert FirstFault(env) == FragmentCount;
    assert processed.value.(isComplete := true) == CommittedRecord(userId, f, env);
    CommittedRecordShape(userId, f, env);
    r := SaveComplete(files, processed.value, env.saveFault);
  }

  method Upload(blobs: BlobStore, files: FileCollection, userId: string, file: Option<UploadedFile>, env: UploadEnv)
    returns (r: Result<UploadReceipt, UploadError>)
    requires EnoughDraws(env)
    requires files.Valid()
    modifies blobs, files
    ensures files.Valid()
    // rejected before anything is stored or saved
    ensures file.None? ==> r == Err(NoFile)
    ensures file.Some? && |file.value.buffer| == 0 ==> r == Err(EmptyFile)
    ensures file.Some? && |file.value.buffer| > 0 && IsBlank(file.value.originalName) ==> r == Err(InvalidName)
    ensures !(file.Some? && Accepted(file.value)) ==> blobs.blobs == old(blobs.blobs) && files.records == old(files.records)
    // a fragment failed: its number is reported, the stored blobs are destroyed, nothing is saved
    ensures file.Some? && Accepted(file.value) && FirstFault(env) < FragmentCount ==>
              var k := FirstFault(env);
              && r == Err(FragmentFailed(k + 1, FaultCause(env, k)))
              && files.records == old(files.records)
              && blobs.blobs == Stored(old(blobs.blobs), userId, file.value, env, k)
                                - Cleared(BlobIds(Entries(userId, file.value, env, k)), env.destroyFaults)
    // every fragment stored: one save of the complete document
    ensures file.Some? && Accepted(file.value) && FirstFault(env) == FragmentCount ==>
              && blobs.blobs == Stored(old(blobs.blobs), userId, file.value, env, FragmentCount)
              && var doc := CommittedRecord(userId, file.value, env);
              && (MissingRequired(doc) != {} ==>
                    r == Err(SaveFailed(ValidationFailed(MissingRequired(doc)))) && files.records == old(files.records))
              && (MissingRequired(doc) == {} && env.saveFault ==>
                    r == Err(SaveFailed(DatabaseFailure)) && files.records == old(files.records))
              && (MissingRequired(doc) == {} && !env.saveFault ==>
                    && r == Ok(UploadReceipt(env.fileId, doc.originalName, doc.size, doc.uploadDate))
                    && files.records == old(files.records)[env.fileId := doc])
  {
    if file.None? {
      return Err(NoFile);
    }
    var f := file.value;
    if |f.buffer| == 0 {
      return Err(EmptyFile);
    }
    var split := SplitBuffer(f.buffer, FragmentCount);
    var fragments := split.value;
    TrimEmptyIffBlank(f.originalName);
    if |Trim(f.originalName)| == 0 {
      return Err(InvalidName);
    }
    r := StoreAccepted(blobs, files, userId, f, env, fragments);
  }
}
