# Fragmented encrypted file store — a Dafny model

This project models the file store of the IBM-IV backend (`backend/routes/fileAuth.js`, the live
code from line 262 on, and the `File` schema in `backend/models/files.js`).

An uploaded file is cut into `FRAGMENT_COUNT = 5` contiguous slices of `ceil(len / 5)` bytes; the
trailing slices may be short or empty. Each slice is encrypted with its own random 32-byte key and
12-byte IV. Its ciphertext goes to the blob store under the owner-scoped public id
`<userId>/<base>_fragment<i+1><ext>`, and an entry with number, id, URL and the hex forms of key,
IV and tag is pushed onto the file document. The document is marked complete and saved once, after
every fragment succeeded. When a fragment fails, the route attempts to destroy every blob recorded
so far, swallows destroy failures, and reports the fragment's number; nothing is saved. A
download finds the document by id *and* owner. It refuses incomplete documents and fragment counts
other than 5. It sorts the fragments by number, fetches and decrypts each one, joins them, and
checks the total against the recorded `size`. Delete destroys the blobs (best effort) and then the
document. The listing returns the owner's complete documents without the secret fragment fields.

Module layout, one file each:

- `bytes.dfy` (`Bytes`): byte buffers, Node's `slice`/`concat`, and the hex text form with Node's
  decoding rule (reading stops at the first pair that is not two hex digits).
- `jsstring.dfy` (`JsString`): `trim`, `lastIndexOf`, `substring` with its clamping and swapping,
  and decimal rendering.
- `cipher.dfy` (`Cipher`): `encryptBuffer`/`decryptBuffer` over a stand-in authenticated cipher.
- `fragmenter.dfy` (`Fragmenter`): `splitBuffer`.
- `filemodel.dfy` (`FileModel`): the `File` document, its defaults, its required fields and the
  listing projection.
- `stores.dfy` (`Stores`): the blob store and the `files` collection as classes whose state is a
  map. Service failures are injected by the caller.
- `cleanup.dfy` (`BlobCleanup`): the best-effort destroy loop shared by the upload rollback and by
  delete.
- `upload.dfy`, `download.dfy`, `manage.dfy`: the four routes.
- `guarantees.dfy` (`Guarantees`): the end-to-end properties.

The collection's invariant `FileCollection.Valid` is the commit marker. Every stored document is
complete, has exactly five fragments numbered 1..5 in list order, and sits under its own id.
`Upload` and `Delete` preserve it.

Some behaviours of the code as written follow from the contracts:

- A save that fails after every fragment was stored leaves those five blobs in the store with no
  new document pointing at them (`Upload`, last postcondition). The save can fail on the schema's
  required-field validation, for example an empty `mimeType`, or on a database fault.
- A blob id depends only on the owner, the file name and the fragment index (`PublicId`). Two
  uploads of the same name by the same owner therefore write to the same blob ids, and
  `BlobStore.Upload` replaces what is there. An earlier file of that name loses its blobs in three
  ways:
  - a later upload overwrites them, so the earlier file's download fetches the later file's
    ciphertext, which AES-GCM rejects as an authentication failure (the stand-in cipher of this
    model does not promise that rejection; see "Left out");
  - the rollback of a failed later upload destroys them;
  - deleting the other file destroys them.

The code has no per-fragment fetch retries, no check that stored fragments carry all their
fields, no requirement that the name contain a '.', and no rollback when the final save fails.

## Model

| member | source | states |
|---|---|---|
| `Bytes.HexRoundTrip` | backend/routes/fileAuth.js:435-437 | hex text written with `toString('hex')` and read back with `Buffer.from(s, 'hex')` gives the same bytes |
| `Bytes.HexDecode` | backend/routes/fileAuth.js:518-520 | decoding hex text yields at most half as many bytes as it has characters |
| `Bytes.HexDigit` | backend/routes/fileAuth.js:435-437 | every digit `toString('hex')` writes reads back, under `Buffer.from(s, 'hex')`, as the value it stands for |
| `JsString.TrimEmptyIffBlank` | backend/routes/fileAuth.js:385 | `name.trim().length === 0` holds exactly when the name is empty or all ECMAScript white space |
| `JsString.LastIndexOf` | backend/routes/fileAuth.js:389-390 | the result is -1 or a position holding '.', and no later position holds '.' |
| `JsString.DecimalInjective` | backend/routes/fileAuth.js:408 | different fragment numbers render to different decimal strings |
| `Cipher.EncryptBuffer` | backend/routes/fileAuth.js:303-319 | the sealed result keeps the IV used, has a 16-byte tag and a ciphertext as long as the plaintext |
| `Cipher.DecryptBuffer` | backend/routes/fileAuth.js:321-344 | a key other than 32 bytes, then an IV other than 12, then a tag other than 16 gives its own error; success implies all three lengths and a plaintext as long as the ciphertext |
| `Cipher.DecryptEncrypt` | backend/routes/fileAuth.js:303-344 | decrypting a sealed fragment with its key, IV and tag returns the plaintext |
| `Cipher.ValidationPrecedesCipher` | backend/routes/fileAuth.js:323-334 | a failed length check fails the call whatever the ciphertext, and never as an authentication failure |
| `Cipher.WrongTagRejected` | backend/routes/fileAuth.js:336-339 | a well-sized tag that does not match key, IV and ciphertext is rejected |
| `Fragmenter.FragmentSize` | backend/routes/fileAuth.js:358 | `ceil(len / n)`: n slices of it cover the buffer, one fewer byte per slice would not |
| `Fragmenter.SliceAtRange` | backend/routes/fileAuth.js:362-364 | slice i is exactly the bytes [min(i*fs, len), min(i*fs+fs, len)) and has at most fs bytes |
| `Fragmenter.SlicesAdjacent` | backend/routes/fileAuth.js:362-363 | each slice starts where the previous one ends, so slices neither overlap nor leave gaps |
| `Fragmenter.SlicesCover` | backend/routes/fileAuth.js:358-363 | the n-th slice would start at the end of the buffer: n slices of `ceil(len/n)` leave nothing out |
| `Fragmenter.ConcatSplit` | backend/routes/fileAuth.js:358-365 | the n slices joined in order are the original buffer |
| `Fragmenter.SplitBuffer` | backend/routes/fileAuth.js:347-368 | fails on an empty buffer, then on a non-positive count; otherwise returns exactly n slices, each at most `ceil(len/n)` long, whose concatenation is the buffer |
| `Fragmenter.ThirteenBytes` | backend/routes/fileAuth.js:358-365 | 13 bytes split into fragments of 3, 3, 3, 3, 1 bytes |
| `Fragmenter.SixBytes` | backend/routes/fileAuth.js:358-365 | 6 bytes split into fragments of 2, 2, 2, 0, 0 bytes |
| `FileModel.NewFile` | backend/models/files.js:3-41 | a new document carries the given fields, `fragmentCount` 5 unless given, `uploadDate` now, no fragments and `isComplete` false |
| `FileModel.MissingRequired` | backend/models/files.js:4-32 | save-time validation passes exactly when the required strings `userId`, `originalName` and `mimeType` are non-empty; `size` is never missing |
| `FileModel.Redact` | backend/routes/fileAuth.js:566 | the listed form keeps every document field and each fragment's number, id and URL, and has no key, IV or tag |
| `Stores.BlobStore.Upload` | backend/routes/fileAuth.js:409-428 | a failed upload changes nothing; otherwise the blob is stored under the requested public id and its id and delivery URL are returned |
| `Stores.BlobStore.Destroy` | backend/routes/fileAuth.js:442 | a successful destroy removes the id, a failed one changes nothing |
| `Stores.Fetch` | backend/routes/fileAuth.js:496-512 | a successful GET returns the blob that the URL addresses, and never succeeds for an unreachable URL |
| `Stores.FetchSecureUrl` | backend/routes/fileAuth.js:496-512 | fetching the URL handed out for a stored blob returns that blob |
| `Stores.FileCollection.Save` | backend/routes/fileAuth.js:450 | validation failure, then a database fault, leaves the collection as it was; otherwise the whole document is written under its id in one step |
| `Stores.FileCollection.DeleteOne` | backend/routes/fileAuth.js:597 | the document with that id is gone and nothing else changes |
| `Stores.FindOwned` | backend/routes/fileAuth.js:472-475 | a document is found exactly when it exists under that id and belongs to that owner |
| `BlobCleanup.DestroyAll` | backend/routes/fileAuth.js:588-594 | a destroy is attempted for every fragment's id in order; exactly the ids whose destroy succeeded are removed |
| `UploadRoute.NameSplit` | backend/routes/fileAuth.js:389-390 | base and extension together are the name; the extension starts at the last '.' and holds no other; a name without '.' has an empty base and is its own extension |
| `UploadRoute.PublicIdsDistinct` | backend/routes/fileAuth.js:408-416 | the five fragments of one upload get pairwise different blob ids |
| `UploadRoute.CommittedRecordShape` | backend/routes/fileAuth.js:393-449 | the saved document has the file's metadata and is committed; fragment i is numbered i+1, stored under `<userId>/<base>_fragment<i+1><ext>` with its URL, and its key is recoverable from the hex text |
| `UploadRoute.ProcessFragment` | backend/routes/fileAuth.js:403-438 | one fragment succeeds exactly when neither its encryption nor its upload fails; on success its ciphertext is stored under its id and its entry is returned, on failure the store is unchanged and the cause is named |
| `UploadRoute.ProcessFragments` | backend/routes/fileAuth.js:401-447 | with no failure, all five entries are appended in loop order and all five blobs stored; at the first failing fragment k+1, the blobs stored so far get a destroy and that number is reported |
| `UploadRoute.SaveComplete` | backend/routes/fileAuth.js:449-457 | a committed document is marked complete and saved once: a validation failure or a database fault leaves the collection as it was and is reported, otherwise the document is stored under its id, the commit invariant still holds, and the receipt carries its id, name, size and date |
| `UploadRoute.StoreAccepted` | backend/routes/fileAuth.js:389-457 | for an accepted file, the first failing fragment is reported with the blobs it stored destroyed and nothing saved; with no failure, all five blobs are stored and the save outcome is that of the complete document |
| `UploadRoute.Upload` | backend/routes/fileAuth.js:371-467 | a missing file, an empty file or a blank name is rejected before anything is stored; a failed fragment rolls back and saves nothing; a save happens only after all five fragments succeed, with the complete document; the commit invariant is preserved |
| `DownloadRoute.SortByNumber` | backend/routes/fileAuth.js:486 | the sorted list has the same fragments, as a multiset, as the document |
| `DownloadRoute.SortSorts` | backend/routes/fileAuth.js:486 | the sorted list is in ascending `fragmentNumber` order and a permutation of the document's fragments |
| `DownloadRoute.SortKeepsSorted` | backend/routes/fileAuth.js:486 | fragments already in number order are left as they are |
| `DownloadRoute.OpenFragment` | backend/routes/fileAuth.js:494-533 | a fetch failure exactly when the GET fails; after a successful GET, the decryption error of the fetched bytes under the hex-decoded key, IV and tag, or that plaintext; success implies a 32-byte key, 12-byte IV and 16-byte tag and a plaintext as long as the blob the URL addresses |
| `DownloadRoute.OpenAll` | backend/routes/fileAuth.js:493-534 | on success, one plaintext per fragment, each the outcome of fetching and decrypting that fragment; a failure is always a fragment failure |
| `DownloadRoute.OpenAllFailure` | backend/routes/fileAuth.js:530-533 | a failure names a fragment of the list that fails, with its `fragmentNumber` and cause, and every fragment before it opens |
| `DownloadRoute.OpenAllOk` | backend/routes/fileAuth.js:493-534 | conversely, when every fragment fetches and decrypts, the whole list succeeds with those plaintexts in order |
| `DownloadRoute.DownloadOutcome` | backend/routes/fileAuth.js:470-558 | NotFound exactly when no document matches both id and owner; Incomplete exactly for an owned, incomplete one; for an owned, complete one: WrongFragmentCount with the count when it has other than five fragments, else the error of the first fragment (in number order) that fails to fetch or decrypt, else SizeMismatch when the joined plaintexts' length differs from `size`, else its type, name and the joined plaintexts |
| `DownloadRoute.Download` | backend/routes/fileAuth.js:470-558 | the loop's answer is `DownloadOutcome`'s: NotFound exactly when no document matches both id and owner, Incomplete, WrongFragmentCount, the first failing fragment's number and cause, SizeMismatch, or, for an owned, complete, five-fragment document whose reassembled length equals `size`, its type, name and content |
| `DownloadRoute.DownloadedInNumberOrder` | backend/routes/fileAuth.js:486-537 | downloaded content is the fragments' plaintexts joined in ascending `fragmentNumber` order |
| `DownloadRoute.DownloadOfOrderedRecord` | backend/routes/fileAuth.js:470-558 | the owner's download of a complete five-fragment document already in number order, whose fragments all open and whose joined length is `size`, returns its type, name and the joined plaintexts |
| `DownloadRoute.CommittedNeverBroken` | backend/routes/fileAuth.js:481-490 | against committed documents, a download never fails as incomplete or for a wrong fragment count |
| `ManageRoutes.ListFiles` | backend/routes/fileAuth.js:561-573 | the listing is exactly the redacted forms of the owner's complete documents |
| `ManageRoutes.Delete` | backend/routes/fileAuth.js:576-608 | NotFound changes nothing; otherwise every fragment blob gets a destroy attempt, destroy failures do not stop the deletion of the document, and the receipt is `fileId` and `originalName` |
| `Guarantees.StoredAt` | backend/routes/fileAuth.js:409-416 | after the uploads of a run, each of its fragment ids holds that fragment's ciphertext |
| `Guarantees.StoredElsewhere` | backend/routes/fileAuth.js:409-416 | an upload run leaves the blob under every id other than its own fragment ids as it was |
| `Guarantees.RollbackLeavesNoTrace` | backend/routes/fileAuth.js:439-446 | after a failed upload, every blob it stored is gone unless its destroy failed, and every other blob is as before |
| `Guarantees.OpenStoredEntries` | backend/routes/fileAuth.js:430-437 | the entries recorded by a complete run open, against the blobs it stored, to the file's five slices |
| `Guarantees.UploadedFileDownloads` | backend/routes/fileAuth.js:371-558 | the owner's download of a successfully uploaded file returns exactly its bytes, content type and name |
| `Guarantees.OtherOwnerGetsNotFound` | backend/routes/fileAuth.js:472-479 | a download by anyone other than the owner is NotFound |
| `Guarantees.UploadThenDownload` | backend/routes/fileAuth.js:371-558 | the upload succeeds exactly for an accepted file with no fragment fault whose committed document validates and saves; then a download against the same stores yields the original file |

## Left out

- AES-256-GCM is replaced by a stand-in cipher (`Cipher`). The stand-in is length-preserving, has a tag over key, IV and ciphertext, and decrypts what it encrypted; secrecy and GCM's exact failure modes are not modelled. In particular the stand-in tag depends on the ciphertext only through a one-byte checksum, so it does not guarantee that a foreign or tampered ciphertext is rejected: two ciphertexts of equal length can share a tag, and opening the wrong one then yields bytes of neither file.
- `crypto.randomBytes` becomes a sequence of draws passed to the upload. That keys and IVs never repeat cannot be stated about random bytes and is not modelled.
- The `Buffer.isBuffer` checks in `decryptBuffer` and `splitBuffer` have no counterpart: every value in the model is a byte sequence by its type.
- Cloudinary's `folder: 'encrypted_files'` option and its URL scheme are not modelled. A blob is kept under the requested public id, and its delivery URL is a fixed prefix followed by that id.
- `Promise.all` concurrency is not modelled. Fetch/decrypt and destroy run in list order, and a download reports the first failing fragment in sorted order, not the first to fail in time.
- Streaming of the HTTP body into chunks is not modelled: a fetch returns the whole blob.
- Network failures of a fetch are given as a set of unreachable URLs. Failures of the `files` collection other than the save (find, findOne, deleteOne) are not modelled.
- An `_id` that is not a valid ObjectId (a cast error, answered with status 500) is not modelled; ids are plain strings.
- `Stores.FileCollection.Save` writes the document under its id whether or not the id is in use; ObjectIds are taken to be fresh.
- `ManageRoutes.ListFiles` returns a set: the order of the listed documents is not modelled.
- The schema does not mark fragment fields required, but the model gives every fragment all six fields, since the upload, the only writer, always sets them. A fragment with an absent field (and the sort order of an absent `fragmentNumber`) is not modelled.
- `size` is always present by its type, so its absence at save is not representable. An absent `userId` is modelled as the empty id, which `MissingRequired` reports as `UserIdPath`.
- Logging, HTTP status codes and messages become error values.
- The 100 MiB multer limit is not modelled.
- Authentication (`authenticateToken`) is not modelled; the owner id is a trusted input.
- The commented-out older variant at the top of `fileAuth.js` is not modelled.
