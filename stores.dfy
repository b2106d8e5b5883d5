/**
 * The two external stores the routes talk to: the blob store (Cloudinary,
 * raw resources addressed by public id) and the metadata collection
 * (MongoDB `files`). Failures of the services are injected by the caller.
 */
module Stores {
  import opened Wrappers
  import opened Bytes
  import opened FileModel
  import Fragmenter

  /** What an upload to the blob store answers: `public_id` and `secure_url`. */
  datatype UploadResponse = UploadResponse(publicId: string, secureUrl: string)

  datatype StoreError = StoreFailure

  /** Delivery address of a stored blob: a fixed prefix followed by its public id. */
  const DeliveryPrefix: string := "https://res.cloudinary.com/raw/upload/"

  function SecureUrl(publicId: string): (url: string)
    ensures |url| == |DeliveryPrefix| + |publicId|
  {
    DeliveryPrefix + publicId
  }

  class BlobStore {
    var blobs: map<string, seq<byte>>

    constructor ()
      ensures blobs == map[]
    {
      blobs := map[];
    }

    /** `upload_stream` with a `public_id`: stores (or replaces) the blob unless the service fails. */
    method Upload(publicId: string, data: seq<byte>, fault: bool) returns (r: Result<UploadResponse, StoreError>)
      modifies this
      ensures fault ==> r == Err(StoreFailure) && blobs == old(blobs)
      ensures !fault ==> r == Ok(UploadResponse(publicId, SecureUrl(publicId)))
      ensures !fault ==> blobs == old(blobs)[publicId := data]
    {
      if fault {
        return Err(StoreFailure);
      }
      blobs := blobs[publicId := data];
      return Ok(UploadResponse(publicId, SecureUrl(publicId)));
    }

    /** `destroy(publicId)`: removes the blob unless the service fails; an absent id is not an error. */
    method Destroy(publicId: string, fault: bool) returns (ok: bool)
      modifies this
      ensures ok == !fault
      ensures blobs == if fault then old(blobs) else old(blobs) - {publicId}
    {
      if !fault {
        blobs := blobs - {publicId};
      }
      return !fault;
    }
  }

  datatype FetchError = HttpError

  /**
   * A GET of a delivery URL: the bytes of the blob it addresses, or an HTTP
   * error when the URL addresses no stored blob or the network fails for it
   * (`unreachable`).
   */
  function Fetch(blobs: map<string, seq<byte>>, url: string, unreachable: set<string>): (r: Result<seq<byte>, FetchError>)
    ensures r.Ok? ==> url !in unreachable
    ensures r.Ok? ==> exists id :: id in blobs && url == SecureUrl(id) && r.value == blobs[id]
  {
    if url in unreachable then Err(HttpError)
    else if |url| < |DeliveryPrefix| || url[..|DeliveryPrefix|] != DeliveryPrefix then Err(HttpError)
    else if url[|DeliveryPrefix|..] !in blobs then Err(HttpError)
    else
      assert url == SecureUrl(url[|DeliveryPrefix|..]);
      Ok(blobs[url[|DeliveryPrefix|..]])
  }

  /** Fetching the URL the store handed out for a blob gives that blob back. */
  lemma FetchSecureUrl(blobs: map<string, seq<byte>>, publicId: string, unreachable: set<string>)
    requires publicId in blobs && SecureUrl(publicId) !in unreachable
    ensures Fetch(blobs, SecureUrl(publicId), unreachable) == Ok(blobs[publicId])
  {
    var url := SecureUrl(publicId);
    assert url[..|DeliveryPrefix|] == DeliveryPrefix;
    assert url[|DeliveryPrefix|..] == publicId;
  }

  datatype SaveError = ValidationFailed(missing: set<RequiredPath>) | DatabaseFailure

  class FileCollection {
    var records: map<string, FileRecord>

    /**
     * The all-or-nothing invariant: every stored document sits under its
     * own id and is committed, with all FRAGMENT_COUNT fragments.
     */
    ghost predicate Valid()
      reads this
    {
      forall k :: k in records ==> records[k].id == k && Committed(records[k], Fragmenter.FragmentCount)
    }

    constructor ()
      ensures Valid() && records == map[]
    {
      records := map[];
    }

    /** `doc.save()`: required-field validation, then one write of the whole document. */
    method Save(doc: FileRecord, fault: bool) returns (r: Result<(), SaveError>)
      modifies this
      ensures MissingRequired(doc) != {} ==> r == Err(ValidationFailed(MissingRequired(doc)))
      ensures MissingRequired(doc) == {} && fault ==> r == Err(DatabaseFailure)
      ensures r.Ok? <==> MissingRequired(doc) == {} && !fault
      ensures records == if r.Ok? then old(records)[doc.id := doc] else old(records)
    {
      var missing := MissingRequired(doc);
      if missing != {} {
        return Err(ValidationFailed(missing));
      }
      if fault {
        return Err(DatabaseFailure);
      }
      records := records[doc.id := doc];
      return Ok(());
    }

    /** `File.deleteOne({ _id })` */
    method DeleteOne(id: string)
      modifies this
      ensures records == old(records) - {id}
    {
      records := records - {id};
    }
  }

  /** `File.findOne({ _id: fileId, userId })`: ownership is part of the query. */
  function FindOwned(records: map<string, FileRecord>, fileId: string, userId: string): (r: Option<FileRecord>)
    ensures r.Some? <==> fileId in records && records[fileId].userId == userId
    ensures r.Some? ==> r.value == records[fileId]
  {
    if fileId in records && records[fileId].userId == userId then Some(records[fileId]) else None
  }
}
