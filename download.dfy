/**
 * The `GET /download/:fileId` route: find the owner's document, refuse an
 * incomplete one or one without FRAGMENT_COUNT fragments, fetch and decrypt
 * the fragments in `fragmentNumber` order, join them, and check the total
 * length against the recorded `size`.
 */
module DownloadRoute {
  import opened Wrappers
  import opened Bytes
  import opened Cipher
  import opened Fragmenter
  import opened FileModel
  import opened Stores

  /** Why one fragment could not be turned back into plaintext. */
  datatype FragmentError = FetchFailed | DecryptFailed(reason: DecryptError)

  datatype DownloadError =
    | NotFound
    | Incomplete
    | WrongFragmentCount(count: nat)
    | FragmentFailed(fragmentNumber: int, cause: FragmentError)
    | SizeMismatch(actual: nat, expected: int)

  /** What the response carries: content type, file name and the bytes. */
  datatype Downloaded = Downloaded(mimeType: string, originalName: string, content: seq<byte>)

  // ---- ordering by fragment number -------------------------------------------

  predicate SortedByNumber(fs: seq<FragmentRecord>)
  {
    forall i, j :: 0 <= i < j < |fs| ==> fs[i].fragmentNumber <= fs[j].fragmentNumber
  }

  /** Insert `x` after every entry whose number is not larger (keeps equal numbers in arrival order). */
  function InsertByNumber(x: FragmentRecord, s: seq<FragmentRecord>): (r: seq<FragmentRecord>)
    ensures multiset(r) == multiset(s) + multiset{x}
    ensures |r| == |s| + 1
  {
    if s == [] then [x]
    else if s[|s| - 1].fragmentNumber <= x.fragmentNumber then s + [x]
    else
      assert s == s[..|s| - 1] + [s[|s| - 1]];
      InsertByNumber(x, s[..|s| - 1]) + [s[|s| - 1]]
  }

  /**
   * `fragments.sort((a, b) => a.fragmentNumber - b.fragmentNumber)`: a
   * stable sort (ECMAScript 2019) by ascending number, here as insertion sort.
   */
  function SortByNumber(fs: seq<FragmentRecord>): (r: seq<FragmentRecord>)
    ensures multiset(r) == multiset(fs)
    ensures |r| == |fs|
  {
    if fs == [] then []
    else
      assert fs == fs[..|fs| - 1] + [fs[|fs| - 1]];
      InsertByNumber(fs[|fs| - 1], SortByNumber(fs[..|fs| - 1]))
  }

  /** Inserting never brings in a number above a bound that `x` and all of `s` respect. */
  lemma {:induction false} InsertBounded(x: FragmentRecord, s: seq<FragmentRecord>, bound: int)
    requires x.fragmentNumber <= bound
    requires forall k :: 0 <= k < |s| ==> s[k].fragmentNumber <= bound
    ensures forall k :: 0 <= k < |InsertByNumber(x, s)| ==> InsertByNumber(x, s)[k].fragmentNumber <= bound
  {
    if s != [] && s[|s| - 1].fragmentNumber > x.fragmentNumber {
      InsertBounded(x, s[..|s| - 1], bound);
    }
  }

  lemma {:induction false} InsertKeepsSorted(x: FragmentRecord, s: seq<FragmentRecord>)
    requires SortedByNumber(s)
    ensures SortedByNumber(InsertByNumber(x, s))
  {
    if s != [] && s[|s| - 1].fragmentNumber > x.fragmentNumber {
      var init, last := s[..|s| - 1], s[|s| - 1];
      assert SortedByNumber(init) by {
        forall i, j | 0 <= i < j < |init| ensures init[i].fragmentNumber <= init[j].fragmentNumber {
          assert init[i] == s[i] && init[j] == s[j];
        }
      }
      InsertKeepsSorted(x, init);
      forall k | 0 <= k < |init| ensures init[k].fragmentNumber <= last.fragmentNumber {
        assert init[k] == s[k];
      }
      InsertBounded(x, init, last.fragmentNumber);
      var r := InsertByNumber(x, init);
      assert InsertByNumber(x, s) == r + [last];
      forall i, j | 0 <= i < j < |r| + 1 ensures (r + [last])[i].fragmentNumber <= (r + [last])[j].fragmentNumber {
        if j == |r| {
          assert (r + [last])[i] == r[i];
        } else {
          assert (r + [last])[i] == r[i] && (r + [last])[j] == r[j];
        }
      }
    }
  }

  /** The sorted fragments are in ascending `fragmentNumber` order and are the same fragments. */
  lemma {:induction false} SortSorts(fs: seq<FragmentRecord>)
    ensures SortedByNumber(SortByNumber(fs))
    ensures multiset(SortByNumber(fs)) == multiset(fs)
  {
    if fs != [] {
      SortSorts(fs[..|fs| - 1]);
      InsertKeepsSorted(fs[|fs| - 1], SortByNumber(fs[..|fs| - 1]));
    }
  }

  /** Fragments already in order are left as they are. */
  lemma {:induction false} SortKeepsSorted(fs: seq<FragmentRecord>)
    requires SortedByNumber(fs)
    ensures SortByNumber(fs) == fs
  {
    if fs != [] {
      var init, last := fs[..|fs| - 1], fs[|fs| - 1];
      assert SortedByNumber(init) by {
        forall i, j | 0 <= i < j < |init| ensures init[i].fragmentNumber <= init[j].fragmentNumber {
          assert init[i] == fs[i] && init[j] == fs[j];
        }
      }
      SortKeepsSorted(init);
      assert SortByNumber(fs) == InsertByNumber(last, init);
      if init != [] {
        assert init[|init| - 1] == fs[|fs| - 2];
      }
      assert InsertByNumber(last, init) == init + [last];
      assert fs == init + [last];
    }
  }

  // ---- fetching and decrypting ----------------------------------------------------

  /**
   * One fragment: GET its `cloudinaryUrl`, read key, IV and tag back from
   * hex, and `decryptBuffer`.
   */
  function OpenFragment(blobs: map<string, seq<byte>>, unreachable: set<string>, frag: FragmentRecord): (r: Result<seq<byte>, FragmentError>)
    ensures r == Err(FetchFailed) <==> Fetch(blobs, frag.cloudinaryUrl, unreachable).Err?
    ensures Fetch(blobs, frag.cloudinaryUrl, unreachable).Ok? ==>
              var d := DecryptBuffer(Fetch(blobs, frag.cloudinaryUrl, unreachable).value,
                                     HexDecode(frag.encryptionKey), HexDecode(frag.iv), HexDecode(frag.authTag));
              && (d.Err? ==> r == Err(DecryptFailed(d.error)))
              && (d.Ok? ==> r == Ok(d.value))
    ensures r.Ok? ==>
              && |HexDecode(frag.encryptionKey)| == KeyLength
              && |HexDecode(frag.iv)| == IvLength
              && |HexDecode(frag.authTag)| == AuthTagLength
              && exists id :: id in blobs && frag.cloudinaryUrl == SecureUrl(id) && |r.value| == |blobs[id]|
  {
    match Fetch(blobs, frag.cloudinaryUrl, unreachable)
    case Err(_) => Err(FetchFailed)
    case Ok(encrypted) =>
      match DecryptBuffer(encrypted, HexDecode(frag.encryptionKey), HexDecode(frag.iv), HexDecode(frag.authTag))
      case Err(e) => Err(DecryptFailed(e))
      case Ok(plain) => Ok(plain)
  }

  /**
   * All fragments in list order; the first one that fails decides the error
   * and names its `fragmentNumber`.
   */
  function OpenAll(blobs: map<string, seq<byte>>, unreachable: set<string>, fs: seq<FragmentRecord>): (r: Result<seq<seq<byte>>, DownloadError>)
    ensures r.Ok? ==> |r.value| == |fs|
    ensures r.Ok? ==> forall i :: 0 <= i < |fs| ==> OpenFragment(blobs, unreachable, fs[i]) == Ok(r.value[i])
    ensures r.Err? ==> r.error.FragmentFailed?
  {
    if fs == [] then Ok([])
    else
      var last := fs[|fs| - 1];
      match OpenAll(blobs, unreachable, fs[..|fs| - 1])
      case Err(e) => Err(e)
      case Ok(parts) =>
        match OpenFragment(blobs, unreachable, last)
        case Err(e) => Err(FragmentFailed(last.fragmentNumber, e))
        case Ok(plain) => Ok(parts + [plain])
  }

  /** Once a prefix has failed, the whole list fails with the same error. */
  lemma {:induction false} OpenAllPrefixError(blobs: map<string, seq<byte>>, unreachable: set<string>, fs: seq<FragmentRecord>, k: nat)
    requires k <= |fs|
    requires OpenAll(blobs, unreachable, fs[..k]).Err?
    ensures OpenAll(blobs, unreachable, fs) == OpenAll(blobs, unreachable, fs[..k])
    decreases |fs| - k
  {
    if k < |fs| {
      assert fs[..k + 1][..k] == fs[..k];
      OpenAllPrefixError(blobs, unreachable, fs, k + 1);
    } else {
      assert fs[..k] == fs;
    }
  }

  /**
   * A failed list names its first failing fragment: that fragment's number
   * and cause, with every fragment before it opening.
   */
  lemma {:induction false} OpenAllFailure(blobs: map<string, seq<byte>>, unreachable: set<string>, fs: seq<FragmentRecord>)
    requires OpenAll(blobs, unreachable, fs).Err?
    ensures exists i :: 0 <= i < |fs| && OpenFragment(blobs, unreachable, fs[i]).Err?
              && OpenAll(blobs, unreachable, fs).error
                 == FragmentFailed(fs[i].fragmentNumber, OpenFragment(blobs, unreachable, fs[i]).error)
              && forall j :: 0 <= j < i ==> OpenFragment(blobs, unreachable, fs[j]).Ok?
  {
    var n := |fs| - 1;
    var init := fs[..n];
    var e := OpenAll(blobs, unreachable, fs).error;
    match OpenAll(blobs, unreachable, init)
    case Err(_) =>
      OpenAllFailure(blobs, unreachable, init);
      var i :| 0 <= i < |init| && OpenFragment(blobs, unreachable, init[i]).Err?
                && OpenAll(blobs, unreachable, init).error
                   == FragmentFailed(init[i].fragmentNumber, OpenFragment(blobs, unreachable, init[i]).error)
                && forall j :: 0 <= j < i ==> OpenFragment(blobs, unreachable, init[j]).Ok?;
      assert fs[i] == init[i];
      forall j | 0 <= j < i ensures OpenFragment(blobs, unreachable, fs[j]).Ok? {
        assert fs[j] == init[j];
      }
    case Ok(parts) =>
      forall j | 0 <= j < n ensures OpenFragment(blobs, unreachable, fs[j]).Ok? {
        assert fs[j] == init[j];
      }
      assert OpenFragment(blobs, unreachable, fs[n]).Err?;
  }

  /** Conversely, when every fragment opens, the list opens to those plaintexts in order. */
  lemma {:induction false} OpenAllOk(blobs: map<string, seq<byte>>, unreachable: set<string>, fs: seq<FragmentRecord>, parts: seq<seq<byte>>)
    requires |parts| == |fs|
    requires forall i :: 0 <= i < |fs| ==> OpenFragment(blobs, unreachable, fs[i]) == Ok(parts[i])
    ensures OpenAll(blobs, unreachable, fs) == Ok(parts)
  {
    if fs != [] {
      var n := |fs| - 1;
      OpenAllOk(blobs, unreachable, fs[..n], parts[..n]);
      assert parts == parts[..n] + [parts[n]];
    }
  }

  /** The whole route as one function of the two stores. */
  function DownloadOutcome(records: map<string, FileRecord>, blobs: map<string, seq<byte>>,
                           userId: string, fileId: string, unreachable: set<string>): (r: Result<Downloaded, DownloadError>)
    ensures r == Err(NotFound) <==> !(fileId in records && records[fileId].userId == userId)
    ensures r == Err(Incomplete) <==> fileId in records && records[fileId].userId == userId && !records[fileId].isComplete
    ensures r.Ok? ==>
              var rec := records[fileId];
              && rec.userId == userId && rec.isComplete && |rec.fragments| == FragmentCount
              && r.value.mimeType == rec.mimeType && r.value.originalName == rec.originalName
              && |r.value.content| == rec.size
    ensures fileId in records && records[fileId].userId == userId && records[fileId].isComplete ==>
              var rec := records[fileId];
              var sorted := SortByNumber(rec.fragments);
              && (|rec.fragments| != FragmentCount ==> r == Err(WrongFragmentCount(|rec.fragments|)))
              && (|rec.fragments| == FragmentCount && OpenAll(blobs, unreachable, sorted).Err? ==>
                    r == Err(OpenAll(blobs, unreachable, sorted).error))
              && (|rec.fragments| == FragmentCount && OpenAll(blobs, unreachable, sorted).Ok? ==>
                    var content := Concat(OpenAll(blobs, unreachable, sorted).value);
                    && (|content| != rec.size ==> r == Err(SizeMismatch(|content|, rec.size)))
                    && (|content| == rec.size ==> r == Ok(Downloaded(rec.mimeType, rec.originalName, content))))
  {
    match FindOwned(records, fileId, userId)
    case None => Err(NotFound)
    case Some(rec) =>
      if !rec.isComplete then Err(Incomplete)
      else
        var sorted := SortByNumber(rec.fragments);
        if |sorted| != FragmentCount then Err(WrongFragmentCount(|sorted|))
        else match OpenAll(blobs, unreachable, sorted)
          case Err(e) => Err(e)
          case Ok(parts) =>
            var content := Concat(parts);
            if |content| != rec.size then Err(SizeMismatch(|content|, rec.size))
            else Ok(Downloaded(rec.mimeType, rec.originalName, content))
  }

  method Download(files: FileCollection, blobs: BlobStore, userId: string, fileId: string, unreachable: set<string>)
    returns (r: Result<Downloaded, DownloadError>)
    ensures r == DownloadOutcome(files.records, blobs.blobs, userId, fileId, unreachable)
    ensures r == Err(NotFound) <==> !(fileId in files.records && files.records[fileId].userId == userId)
    ensures r.Ok? ==>
              var rec := files.records[fileId];
              && rec.userId == userId && rec.isComplete && |rec.fragments| == FragmentCount
              && r.value == Downloaded(rec.mimeType, rec.originalName, r.value.content)
              && |r.value.content| == rec.size
  {
    var found := FindOwned(files.records, fileId, userId);
    if found.None? {
      return Err(NotFound);
    }
    var fileRecord := found.value;
    if !fileRecord.isComplete {
      return Err(Incomplete);
    }
    var sortedFragments := SortByNumber(fileRecord.fragments);
    if |sortedFragments| != FragmentCount {
      return Err(WrongFragmentCount(|sortedFragments|));
    }
    var fragmentBuffers: seq<seq<byte>> := [];
    for i := 0 to |sortedFragments|
      invariant OpenAll(blobs.blobs, unreachable, sortedFragments[..i]) == Ok(fragmentBuffers)
    {
      var fragment := sortedFragments[i];
      var prefix := sortedFragments[..i + 1];
      assert prefix[..i] == sortedFragments[..i] && prefix[i] == fragment;
      var decrypted := OpenFragment(blobs.blobs, unreachable, fragment);
      if decrypted.Err? {
        assert OpenAll(blobs.blobs, unreachable, prefix) == Err(FragmentFailed(fragment.fragmentNumber, decrypted.error));
        OpenAllPrefixError(blobs.blobs, unreachable, sortedFragments, i + 1);
        return Err(FragmentFailed(fragment.fragmentNumber, decrypted.error));
      }
      assert OpenAll(blobs.blobs, unreachable, prefix) == Ok(fragmentBuffers + [decrypted.value]);
      fragmentBuffers := fragmentBuffers + [decrypted.value];
    }
    assert sortedFragments[..|sortedFragments|] == sortedFragments;
    var completeFile := Concat(fragmentBuffers);
    if |completeFile| != fileRecord.size {
      return Err(SizeMismatch(|completeFile|, fileRecord.size));
    }
    return Ok(Downloaded(fileRecord.mimeType, fileRecord.originalName, completeFile));
  }

  /**
   * A successful download is the plaintexts of the record's fragments,
   * joined in ascending `fragmentNumber` order.
   */
  lemma DownloadedInNumberOrder(records: map<string, FileRecord>, blobs: map<string, seq<byte>>,
                                userId: string, fileId: string, unreachable: set<string>)
    requires DownloadOutcome(records, blobs, userId, fileId, unreachable).Ok?
    ensures fileId in records && records[fileId].userId == userId
    ensures var content := DownloadOutcome(records, blobs, userId, fileId, unreachable).value.content;
            exists sorted: seq<FragmentRecord>, parts: seq<seq<byte>> ::
              && SortedByNumber(sorted)
              && multiset(sorted) == multiset(records[fileId].fragments)
              && |parts| == |sorted| == FragmentCount
              && (forall i :: 0 <= i < |sorted| ==> OpenFragment(blobs, unreachable, sorted[i]) == Ok(parts[i]))
              && content == Concat(parts)
  {
    var rec := records[fileId];
    var sorted := SortByNumber(rec.fragments);
    SortSorts(rec.fragments);
    assert rec.isComplete && |rec.fragments| == FragmentCount;
    assert OpenAll(blobs, unreachable, sorted).Ok?;
    var parts := OpenAll(blobs, unreachable, sorted).value;
    assert DownloadOutcome(records, blobs, userId, fileId, unreachable).value.content == Concat(parts);
    assert forall i :: 0 <= i < |sorted| ==> OpenFragment(blobs, unreachable, sorted[i]) == Ok(parts[i]);
  }

  /**
   * The owner's download of a complete record whose FRAGMENT_COUNT fragments
   * are already in number order and all open: their plaintexts joined.
   */
  lemma DownloadOfOrderedRecord(records: map<string, FileRecord>, blobs: map<string, seq<byte>>,
                                userId: string, fileId: string, unreachable: set<string>, parts: seq<seq<byte>>)
    requires fileId in records && records[fileId].userId == userId && records[fileId].isComplete
    requires |records[fileId].fragments| == FragmentCount && SortedByNumber(records[fileId].fragments)
    requires OpenAll(blobs, unreachable, records[fileId].fragments) == Ok(parts)
    requires |Concat(parts)| == records[fileId].size
    ensures DownloadOutcome(records, blobs, userId, fileId, unreachable)
            == Ok(Downloaded(records[fileId].mimeType, records[fileId].originalName, Concat(parts)))
  {
    SortKeepsSorted(records[fileId].fragments);
  }

  /**
   * Against a collection that keeps the commit invariant, a download never
   * fails for being incomplete or for a wrong fragment count.
   */
  lemma CommittedNeverBroken(records: map<string, FileRecord>, blobs: map<string, seq<byte>>,
                             userId: string, fileId: string, unreachable: set<string>)
    requires forall k :: k in records ==> Committed(records[k], FragmentCount)
    ensures DownloadOutcome(records, blobs, userId, fileId, unreachable) != Err(Incomplete)
    ensures !DownloadOutcome(records, blobs, userId, fileId, unreachable).Err?
            || !DownloadOutcome(records, blobs, userId, fileId, unreachable).error.WrongFragmentCount?
  {
  }
}
