/**
 * DELETE /api/delete-folder: every key under the folder's prefix is
 * enumerated and then removed in one bulk call.
 */
module DeleteFolderRoute {
  import opened Wrappers
  import opened Text
  import opened Store

  datatype Response = NothingToDelete | Deleted(count: nat) | BadRequest | ServerError {
    function Status(): nat {
      match this
      case NothingToDelete => 200
      case Deleted(_) => 200
      case BadRequest => 400
      case ServerError => 500
    }
  }

  /**
   * The handler. Store call 0 is the listing and call 1 the bulk removal.
   * A missing or empty `folderPrefix` is refused before the store is
   * called. An empty folder is reported and the store left as it was.
   * Otherwise the keys listed are removed and counted. The removal's own
   * result is not read: keys MinIO reports it could not delete
   * (`objectErrors`) stay, and the reply still counts every listed key. A
   * removal that throws may have removed some of them, and never any
   * other key.
   */
  method Delete(bucket: Bucket, folderPrefix: Option<string>, objectErrors: set<Key>, refused: set<nat>)
    returns (response: Response, ghost listing: seq<ObjectInfo>)
    modifies bucket
    ensures response.BadRequest? <==> !Given(folderPrefix)
    ensures Given(folderPrefix) && 0 in refused ==> response.ServerError?
    ensures response.BadRequest? || response.NothingToDelete? || (Given(folderPrefix) && 0 in refused) ==>
              bucket.objects == old(bucket.objects)
    ensures Given(folderPrefix) && 0 !in refused ==>
              && IsListing(old(bucket.objects), DirPrefix(folderPrefix.value), listing)
              && (response.NothingToDelete? <==> |listing| == 0)
              && (response.Deleted? <==> |listing| > 0 && 1 !in refused)
    ensures response.Deleted? ==>
              && response.count == |listing|
              && bucket.objects == old(bucket.objects) - (KeysUnder(old(bucket.objects), DirPrefix(folderPrefix.value)) - objectErrors)
    ensures response.ServerError? ==>
              && bucket.objects.Keys <= old(bucket.objects).Keys
              && (forall k :: k in bucket.objects ==> bucket.objects[k] == old(bucket.objects)[k])
              && (forall k :: k in old(bucket.objects) && !StartsWith(k, DirPrefix(folderPrefix.value)) ==> k in bucket.objects)
  {
    listing := [];
    if !Given(folderPrefix) {
      return BadRequest, [];
    }
    var prefix := folderPrefix.value;
    if !EndsWith(prefix, "/") {
      prefix := prefix + "/";
    }
    var ok, stream := bucket.ListObjects(prefix, 0 in refused);
    if !ok {
      return ServerError, [];
    }
    listing := stream;
    var objectsToDelete: seq<Key> := [];
    for i := 0 to |stream|
      invariant objectsToDelete == Names(stream[..i])
    {
      assert stream[..i + 1][..i] == stream[..i];
      objectsToDelete := objectsToDelete + [stream[i].name];
    }
    assert stream[..|stream|] == stream;
    if |objectsToDelete| == 0 {
      return NothingToDelete, listing;
    }
    ListingNames(bucket.objects, prefix, stream);
    ghost var before := bucket.objects;
    ok := bucket.RemoveObjects(objectsToDelete, objectErrors, 1 in refused);
    if !ok {
      forall k | k in before && !StartsWith(k, prefix) ensures k in bucket.objects {
        assert k !in KeysUnder(before, prefix);
        assert k !in objectsToDelete;
      }
      return ServerError, listing;
    }
    response := Deleted(|objectsToDelete|);
  }

  /**
   * Deleting a folder removes exactly the keys under its normalised
   * prefix: a sibling whose name merely extends the folder's ("docs2/..."
   * for folder "docs") has a different character after the folder name
   * and survives.
   */
  lemma DeleteScope(folder: string, k: Key)
    requires folder != "" && !EndsWith(folder, "/")
    ensures StartsWith(k, DirPrefix(folder)) <==> StartsWith(k, folder) && |k| > |folder| && k[|folder|] == '/'
  {
    if StartsWith(k, folder) && |k| > |folder| && k[|folder|] == '/' {
      assert k[..|folder| + 1] == folder + "/";
    }
  }

  /** Deleting "docs" keeps every key of "docs2". */
  lemma SiblingFolderSurvives(objects: map<Key, StoredObject>, rest: string)
    requires "docs2/" + rest in objects
    ensures "docs2/" + rest in objects - KeysUnder(objects, DirPrefix("docs"))
  {
    DeleteScope("docs", "docs2/" + rest);
  }

  /** The count reported is the number of keys the folder held. */
  lemma CountIsKeysUnder(objects: map<Key, StoredObject>, prefix: string, listing: seq<ObjectInfo>)
    requires IsListing(objects, prefix, listing)
    ensures |listing| == |KeysUnder(objects, prefix)|
    ensures |objects - KeysUnder(objects, prefix)| == |objects| - |listing|
  {
    ListingNames(objects, prefix, listing);
    var gone := KeysUnder(objects, prefix);
    assert (objects - gone).Keys == objects.Keys - gone;
    assert gone <= objects.Keys;
  }

  /**
   * The reply does not match the store when MinIO reports a per-object
   * error: the count is every key the folder held, yet the store shrinks
   * by fewer, and the failed key is still there.
   */
  lemma ReportedCountIgnoresObjectErrors(objects: map<Key, StoredObject>, prefix: string, listing: seq<ObjectInfo>,
                                         objectErrors: set<Key>, k: Key)
    requires IsListing(objects, prefix, listing)
    requires k in objects && StartsWith(k, prefix) && k in objectErrors
    ensures k in objects - (KeysUnder(objects, prefix) - objectErrors)
    ensures |objects - (KeysUnder(objects, prefix) - objectErrors)| > |objects| - |listing|
  {
    var all := KeysUnder(objects, prefix);
    ListingNames(objects, prefix, listing);
    FewerRemoved(all, objectErrors, k);
    RemovedCardinality(objects, all - objectErrors);
  }

  /** Sparing one key of a set removes fewer keys than the whole set. */
  lemma FewerRemoved(all: set<Key>, spared: set<Key>, k: Key)
    requires k in all && k in spared
    ensures |all - spared| < |all|
  {
    var gone := all - spared;
    var failed := all - gone;
    assert all == gone + failed && gone * failed == {};
    assert k in failed;
  }

  /** Removing keys the store holds shrinks it by exactly their number. */
  lemma RemovedCardinality(objects: map<Key, StoredObject>, gone: set<Key>)
    requires gone <= objects.Keys
    ensures |objects - gone| == |objects| - |gone|
  {
    var kept := objects - gone;
    assert kept.Keys == objects.Keys - gone;
    assert objects.Keys == kept.Keys + gone && kept.Keys * gone == {};
  }
}
