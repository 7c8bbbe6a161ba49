/**
 * GET /api/searcher-files: every key under the given prefix, at any
 * depth, whose name ends with a listed extension. The prefix is passed to
 * the store exactly as given, with no "/" added.
 */
module SearcherFilesRoute {
  import opened Text
  import opened Store

  /** One search result. */
  datatype Found = Found(name: string, lastModified: string)

  datatype Response = Results(found: seq<Found>) | ServerError {
    function Status(): nat {
      if Results? then 200 else 500
    }
  }

  /** The stream element `obj` is reported as `r`. */
  predicate FoundAs(obj: ObjectInfo, r: Found) {
    IsListedName(obj.name) && r == Found(obj.name, Stamp(obj.lastModified))
  }

  /** The results `stream` gives, in stream order. */
  function Matches(stream: seq<ObjectInfo>): (found: seq<Found>)
    ensures |found| <= |stream|
  {
    if stream == [] then []
    else
      var obj := stream[|stream| - 1];
      Matches(stream[..|stream| - 1])
      + if IsListedName(obj.name) then [Found(obj.name, Stamp(obj.lastModified))] else []
  }

  /**
   * The handler. The store lists every key under `path` recursively and
   * one pass keeps the ones with a listed extension; the bucket is only
   * read. A failed listing gives a 500 and no results.
   */
  method Get(bucket: Bucket, path: string, refused: set<nat>)
    returns (response: Response, ghost stream: seq<ObjectInfo>)
    ensures response.ServerError? <==> 0 in refused
    ensures response.Results? ==> IsListing(bucket.objects, path, stream)
    ensures response.Results? ==> response.found == Matches(stream)
  {
    var ok, listing := bucket.ListObjects(path, 0 in refused);
    if !ok {
      return ServerError, [];
    }
    var searcherFiles: seq<Found> := [];
    for i := 0 to |listing|
      invariant searcherFiles == Matches(listing[..i])
    {
      assert listing[..i + 1][..i] == listing[..i];
      var obj := listing[i];
      assert listing[..i + 1][i] == obj;
      if EndsWith(obj.name, ".pdf") || EndsWith(obj.name, ".txt") || EndsWith(obj.name, ".docx") {
        searcherFiles := searcherFiles + [Found(obj.name, if obj.lastModified == "" then Unknown else obj.lastModified)];
      }
    }
    assert listing[..|listing|] == listing;
    response := Results(searcherFiles);
    stream := listing;
  }

  /** A result is there exactly when some element of the stream has a listed extension and reports as it. */
  lemma {:induction false} MatchesExactly(stream: seq<ObjectInfo>, r: Found)
    ensures r in Matches(stream) <==> exists i :: 0 <= i < |stream| && FoundAs(stream[i], r)
  {
    if stream != [] {
      var init := stream[..|stream| - 1];
      MatchesExactly(init, r);
      assert r in Matches(stream) <==> r in Matches(init) || FoundAs(stream[|stream| - 1], r);
      if r in Matches(stream) {
        if r in Matches(init) {
          var i :| 0 <= i < |init| && FoundAs(init[i], r);
          assert stream[i] == init[i];
        }
      } else {
        forall i | 0 <= i < |stream| ensures !FoundAs(stream[i], r) {
          if i < |init| {
            assert stream[i] == init[i];
          }
        }
      }
    }
  }

  /** Results keep stream order: the results of a concatenation are the concatenation of the results. */
  lemma {:induction false} MatchesKeepOrder(s1: seq<ObjectInfo>, s2: seq<ObjectInfo>)
    ensures Matches(s1 + s2) == Matches(s1) + Matches(s2)
    decreases |s2|
  {
    if s2 != [] {
      var s2' := s2[..|s2| - 1];
      assert (s1 + s2)[..|s1 + s2| - 1] == s1 + s2';
      MatchesKeepOrder(s1, s2');
    } else {
      assert s1 + s2 == s1;
    }
  }

  /**
   * The search is exactly the stored keys under `path`, at any depth, with
   * a listed extension: each such key is found with its stamp, each found
   * name is such a key, and no key is found twice.
   */
  lemma SearchFindsListedKeys(objects: map<Key, StoredObject>, path: string, stream: seq<ObjectInfo>)
    requires IsListing(objects, path, stream)
    ensures forall k :: k in objects && StartsWith(k, path) ==>
              (Found(k, Stamp(objects[k].lastModified)) in Matches(stream) <==> IsListedName(k))
    ensures forall r :: r in Matches(stream) ==>
              r.name in objects && StartsWith(r.name, path) && IsListedName(r.name)
              && r.lastModified == Stamp(objects[r.name].lastModified)
  {
    forall k | k in objects && StartsWith(k, path)
      ensures Found(k, Stamp(objects[k].lastModified)) in Matches(stream) <==> IsListedName(k)
    {
      var i :| 0 <= i < |stream| && stream[i].name == k;
      assert Reports(objects, path, stream[i]);
      MatchesExactly(stream, Found(k, Stamp(objects[k].lastModified)));
    }
    forall r | r in Matches(stream)
      ensures r.name in objects && StartsWith(r.name, path) && IsListedName(r.name)
              && r.lastModified == Stamp(objects[r.name].lastModified)
    {
      MatchesExactly(stream, r);
      var i :| 0 <= i < |stream| && FoundAs(stream[i], r);
      assert Reports(objects, path, stream[i]);
    }
  }

  /** A key of a listing is found at most once. */
  lemma {:induction false} MatchesDistinct(stream: seq<ObjectInfo>)
    requires forall i, j :: 0 <= i < j < |stream| ==> stream[i].name != stream[j].name
    ensures forall i, j :: 0 <= i < j < |Matches(stream)| ==> Matches(stream)[i].name != Matches(stream)[j].name
  {
    if stream != [] {
      var init := stream[..|stream| - 1];
      var last := stream[|stream| - 1];
      MatchesDistinct(init);
      var m := Matches(init);
      if IsListedName(last.name) {
        var all := m + [Found(last.name, Stamp(last.lastModified))];
        assert Matches(stream) == all;
        forall i, j | 0 <= i < j < |all| ensures all[i].name != all[j].name {
          if j == |m| {
            assert all[i] in m;
            MatchesExactly(init, all[i]);
            var k :| 0 <= k < |init| && FoundAs(init[k], all[i]);
            assert init[k] == stream[k];
          }
        }
      }
    }
  }

  /**
   * The prefix is not a folder boundary: searching "a/b" also finds a
   * listed key inside the sibling folder "a/bc".
   */
  lemma SearchCrossesFolderBoundary(objects: map<Key, StoredObject>, stream: seq<ObjectInfo>, rest: string)
    requires IsListing(objects, "a/b", stream)
    requires "a/bc/" + rest in objects && IsListedName("a/bc/" + rest)
    ensures exists r :: r in Matches(stream) && r.name == "a/bc/" + rest
  {
    var k := "a/bc/" + rest;
    assert k[..3] == "a/b";
    SearchFindsListedKeys(objects, "a/b", stream);
    assert Found(k, Stamp(objects[k].lastModified)) in Matches(stream);
  }
}
