/**
 * The best-effort blob cleanup shared by the failed-upload path and by
 * delete: a destroy is attempted for every fragment's blob and a failed
 * destroy is swallowed.
 */
module BlobCleanup {
  import opened FileModel
  import opened Stores

  /** The `cloudinaryId` of every fragment, in list order. */
  function BlobIds(fragments: seq<FragmentRecord>): (ids: seq<string>)
    ensures |ids| == |fragments|
    ensures forall i :: 0 <= i < |fragments| ==> ids[i] == fragments[i].cloudinaryId
  {
    if fragments == [] then [] else BlobIds(fragments[..|fragments| - 1]) + [fragments[|fragments| - 1].cloudinaryId]
  }

  /** The ids among `ids` whose destroy succeeds. */
  function Cleared(ids: seq<string>, faults: set<string>): (gone: set<string>)
    ensures forall id :: id in gone <==> id in ids && id !in faults
  {
    set id | id in ids && id !in faults
  }

  /**
   * `Promise.all(fragments.map(f => destroy(f.cloudinaryId).catch(...)))`,
   * run in list order: every blob gets a destroy attempt, the ones in
   * `faults` fail and stay.
   */
  method DestroyAll(store: BlobStore, fragments: seq<FragmentRecord>, faults: set<string>) returns (attempted: seq<string>)
    modifies store
    ensures attempted == BlobIds(fragments)
    ensures store.blobs == old(store.blobs) - Cleared(attempted, faults)
  {
    attempted := [];
    for i := 0 to |fragments|
      invariant attempted == BlobIds(fragments[..i])
      invariant store.blobs == old(store.blobs) - Cleared(attempted, faults)
    {
      var id := fragments[i].cloudinaryId;
      var _ := store.Destroy(id, id in faults);
      assert fragments[..i + 1][..i] == fragments[..i];
      attempted := attempted + [id];
    }
    assert fragments[..|fragments|] == fragments;
  }
}
