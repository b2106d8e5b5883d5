/**
 * The `File` document of the metadata store: its fields, the defaults the
 * schema fills in, the required-field check run when a document is saved,
 * and the projection that hides the secret fragment fields.
 */
module FileModel {
  import opened Wrappers

  /** The schema's default for `fragmentCount`. */
  const DefaultFragmentCount: int := 5

  /** One entry of `fragments`; the schema marks none of its fields required. */
  datatype FragmentRecord = FragmentRecord(
    fragmentNumber: int,
    cloudinaryId: string,
    cloudinaryUrl: string,
    encryptionKey: string,   // hex
    iv: string,              // hex
    authTag: string)         // hex

  /** A `File` document; `id` is its `_id`, `uploadDate` a timestamp. */
  datatype FileRecord = FileRecord(
    id: string,
    userId: string,
    originalName: string,
    fragmentCount: int,
    fragments: seq<FragmentRecord>,
    mimeType: string,
    size: int,
    uploadDate: int,
    isComplete: bool)

  /**
   * `new File({...})`: the given fields, plus the schema's defaults for
   * those not given — `fragmentCount` 5, `uploadDate` now, no fragments and
   * `isComplete` false.
   */
  function NewFile(id: string, userId: string, originalName: string, mimeType: string, size: int,
                   fragmentCount: Option<int>, now: int): (r: FileRecord)
    ensures r.id == id && r.userId == userId && r.originalName == originalName
    ensures r.mimeType == mimeType && r.size == size
    ensures fragmentCount.None? ==> r.fragmentCount == DefaultFragmentCount
    ensures fragmentCount.Some? ==> r.fragmentCount == fragmentCount.value
    ensures r.uploadDate == now && r.fragments == [] && !r.isComplete
  {
    FileRecord(id, userId, originalName,
               if fragmentCount.Some? then fragmentCount.value else DefaultFragmentCount,
               [], mimeType, size, now, false)
  }

  /** The schema paths marked `required`. */
  datatype RequiredPath = UserIdPath | OriginalNamePath | MimeTypePath | SizePath

  /**
   * The required paths that fail validation on save. For a String path the
   * empty string counts as missing; `size` is always a number here and
   * `userId` an id, so only an empty id can be missing.
   */
  function MissingRequired(r: FileRecord): (missing: set<RequiredPath>)
    ensures missing == {} <==> r.userId != "" && r.originalName != "" && r.mimeType != ""
    ensures SizePath !in missing
  {
    (if r.userId == "" then {UserIdPath} else {}) +
    (if r.originalName == "" then {OriginalNamePath} else {}) +
    (if r.mimeType == "" then {MimeTypePath} else {})
  }

  /**
   * The commit shape: complete, with exactly `n` fragments numbered 1..n
   * in list order, and `fragmentCount` equal to `n`.
   */
  ghost predicate Committed(r: FileRecord, n: nat)
  {
    && r.isComplete
    && r.fragmentCount == n
    && |r.fragments| == n
    && forall i :: 0 <= i < n ==> r.fragments[i].fragmentNumber == i + 1
  }

  // ---- listing projection ------------------------------------------------

  /** A fragment as listed: `encryptionKey`, `iv` and `authTag` removed. */
  datatype FragmentSummary = FragmentSummary(fragmentNumber: int, cloudinaryId: string, cloudinaryUrl: string)

  /** A file as listed. */
  datatype FileSummary = FileSummary(
    id: string,
    userId: string,
    originalName: string,
    fragmentCount: int,
    fragments: seq<FragmentSummary>,
    mimeType: string,
    size: int,
    uploadDate: int,
    isComplete: bool)

  /** `.select('-fragments.encryptionKey -fragments.iv -fragments.authTag')` */
  function Redact(r: FileRecord): (s: FileSummary)
    ensures s.id == r.id && s.userId == r.userId && s.originalName == r.originalName
    ensures s.fragmentCount == r.fragmentCount && s.mimeType == r.mimeType && s.size == r.size
    ensures s.uploadDate == r.uploadDate && s.isComplete == r.isComplete
    ensures |s.fragments| == |r.fragments|
    ensures forall i :: 0 <= i < |r.fragments| ==>
              s.fragments[i] == FragmentSummary(r.fragments[i].fragmentNumber, r.fragments[i].cloudinaryId, r.fragments[i].cloudinaryUrl)
  {
    FileSummary(r.id, r.userId, r.originalName, r.fragmentCount,
                seq(|r.fragments|, i requires 0 <= i < |r.fragments| =>
                      FragmentSummary(r.fragments[i].fragmentNumber, r.fragments[i].cloudinaryId, r.fragments[i].cloudinaryUrl)),
                r.mimeType, r.size, r.uploadDate, r.isComplete)
  }
}
