/**
 * The object store the routes talk to: one bucket of a flat key space with
 * no directories. Folders exist only as key prefixes ending in "/".
 *
 * A request may issue several store calls; the store's answer to each is
 * an input of the model. Routes take `refused: set<nat>`, the positions
 * (from 0, in the order the route issues them) of the calls the store
 * fails. Each route handles all its calls inside one try block, so the
 * first refused call ends the request.
 */
module Store {
  import opened Text

  type Key = string

  /** A stored object: its bytes and the last-modified stamp the store keeps ("" when absent). */
  datatype StoredObject = StoredObject(data: seq<bv8>, lastModified: string)

  /** One element of a listing stream. */
  datatype ObjectInfo = ObjectInfo(name: Key, lastModified: string)

  /** Shown by the listing routes when the store reports no last-modified stamp. */
  const Unknown := "Desconocido"

  /** `lastModified || "Desconocido"` */
  function Stamp(lastModified: string): (r: string)
    ensures r != ""
    ensures lastModified != "" ==> r == lastModified
  {
    if lastModified == "" then Unknown else lastModified
  }

  /** A folder path as a key prefix: a non-empty path is given a trailing "/" unless it has one. */
  function DirPrefix(path: string): (p: string)
    ensures path == "" <==> p == ""
    ensures path != "" ==> EndsWith(p, "/") && StartsWith(p, path) && |p| <= |path| + 1
    ensures EndsWith(path, "/") ==> p == path
  {
    if path != "" && !EndsWith(path, "/") then path + "/" else path
  }

  /** Normalising twice changes nothing more. */
  lemma DirPrefixIdempotent(path: string)
    ensures DirPrefix(DirPrefix(path)) == DirPrefix(path)
  {
  }

  /** The extensions a listing shows: `.pdf`, `.txt` and `.docx`, compared case-sensitively on the whole key. */
  predicate IsListedName(name: string) {
    EndsWith(name, ".pdf") || EndsWith(name, ".txt") || EndsWith(name, ".docx")
  }

  /** Keys held in `objects` that start with `prefix`. */
  ghost function KeysUnder(objects: map<Key, StoredObject>, prefix: string): set<Key> {
    set k | k in objects && StartsWith(k, prefix)
  }

  /** `info` reports a key under `prefix` as the store holds it. */
  ghost predicate Reports(objects: map<Key, StoredObject>, prefix: string, info: ObjectInfo) {
    info.name in objects && StartsWith(info.name, prefix)
    && objects[info.name].lastModified == info.lastModified
  }

  /**
   * `listing` is what a recursive `listObjectsV2(bucket, prefix, true)`
   * streams: every key under `prefix`, at any depth, exactly once.
   */
  ghost predicate IsListing(objects: map<Key, StoredObject>, prefix: string, listing: seq<ObjectInfo>) {
    && (forall i, j :: 0 <= i < j < |listing| ==> listing[i].name != listing[j].name)
    && (forall i :: 0 <= i < |listing| ==> Reports(objects, prefix, listing[i]))
    && (forall k :: k in objects && StartsWith(k, prefix) ==> exists i :: 0 <= i < |listing| && listing[i].name == k)
  }

  /** The key names of a listing, in stream order. */
  function Names(listing: seq<ObjectInfo>): (names: seq<Key>)
    ensures |names| == |listing|
    ensures forall i :: 0 <= i < |listing| ==> names[i] == listing[i].name
  {
    if listing == [] then [] else Names(listing[..|listing| - 1]) + [listing[|listing| - 1].name]
  }

  /** The names of a listing are exactly the keys under its prefix. */
  lemma ListingNames(objects: map<Key, StoredObject>, prefix: string, listing: seq<ObjectInfo>)
    requires IsListing(objects, prefix, listing)
    ensures (set k | k in Names(listing)) == KeysUnder(objects, prefix)
    ensures |listing| == |KeysUnder(objects, prefix)|
  {
    var names := Names(listing);
    var keys := KeysUnder(objects, prefix);
    forall k | k in keys ensures k in names {
      var i :| 0 <= i < |listing| && listing[i].name == k;
      assert names[i] == k;
    }
    DistinctCardinality(names);
  }

  /** A sequence without repetitions has as many elements as its set. */
  lemma {:induction false} DistinctCardinality(s: seq<Key>)
    requires forall i, j :: 0 <= i < j < |s| ==> s[i] != s[j]
    ensures |set k | k in s| == |s|
  {
    if s != [] {
      var init := s[..|s| - 1];
      DistinctCardinality(init);
      assert (set k | k in s) == (set k | k in init) + {s[|s| - 1]};
      assert s[|s| - 1] !in init;
    }
  }

  class Bucket {
    var objects: map<Key, StoredObject>

    constructor (initial: map<Key, StoredObject>)
      ensures objects == initial
    {
      objects := initial;
    }

    /**
     * `listObjectsV2(bucket, prefix, true)`. The store streams the keys in
     * an order of its own; the model fixes none, so what is proved of the
     * routes holds for every order.
     */
    method ListObjects(prefix: string, refuse: bool) returns (ok: bool, listing: seq<ObjectInfo>)
      ensures ok == !refuse
      ensures ok ==> IsListing(objects, prefix, listing)
      ensures !ok ==> listing == []
    {
      listing := [];
      if refuse {
        return false, [];
      }
      var pending := set k | k in objects && StartsWith(k, prefix);
      while pending != {}
        invariant pending <= KeysUnder(objects, prefix)
        invariant forall i, j :: 0 <= i < j < |listing| ==> listing[i].name != listing[j].name
        invariant forall i :: 0 <= i < |listing| ==> Reports(objects, prefix, listing[i]) && listing[i].name !in pending
        invariant forall k :: k in objects && StartsWith(k, prefix) && k !in pending ==>
                    exists i :: 0 <= i < |listing| && listing[i].name == k
        decreases pending
      {
        var k :| k in pending;
        ghost var before := listing;
        listing := listing + [ObjectInfo(k, objects[k].lastModified)];
        pending := pending - {k};
        forall k' | k' in objects && StartsWith(k', prefix) && k' !in pending
          ensures exists i :: 0 <= i < |listing| && listing[i].name == k'
        {
          if k' == k {
            assert listing[|before|].name == k;
          } else {
            var i :| 0 <= i < |before| && before[i].name == k';
            assert listing[i].name == k';
          }
        }
      }
      ok := true;
    }

    /** `putObject(bucket, key, data)`: the key now holds `obj`, whatever it held before. */
    method PutObject(key: Key, obj: StoredObject, refuse: bool) returns (ok: bool)
      modifies this
      ensures ok == !refuse
      ensures objects == if ok then old(objects)[key := obj] else old(objects)
    {
      ok := !refuse;
      if ok {
        objects := objects[key := obj];
      }
    }

    /**
     * `copyObject(bucket, dst, "/bucket/" + src)`: the destination gets the
     * source's bytes and a fresh stamp, overwriting what it held. The store
     * fails the call when the source is missing, and when the destination is
     * the source itself: a copy onto itself that changes no metadata is an
     * invalid request.
     */
    method CopyObject(dst: Key, src: Key, now: string, refuse: bool) returns (ok: bool)
      modifies this
      ensures ok == (!refuse && src in old(objects) && dst != src)
      ensures objects == if ok then old(objects)[dst := StoredObject(old(objects)[src].data, now)] else old(objects)
    {
      ok := !refuse && src in objects && dst != src;
      if ok {
        objects := objects[dst := StoredObject(objects[src].data, now)];
      }
    }

    /** `removeObject(bucket, key)`: removing a key that is not there succeeds. */
    method RemoveObject(key: Key, refuse: bool) returns (ok: bool)
      modifies this
      ensures ok == !refuse
      ensures objects == if ok then old(objects) - {key} else old(objects)
    {
      ok := !refuse;
      if ok {
        objects := objects - {key};
      }
    }

    /**
     * `removeObjects(bucket, keys)`. A call that resolves reports the keys
     * it could not delete in its result, and those (`objectErrors`) stay;
     * a call that throws may already have deleted some of the keys in
     * earlier batches. No other key is ever touched.
     */
    method RemoveObjects(keys: seq<Key>, objectErrors: set<Key>, refuse: bool) returns (ok: bool)
      modifies this
      ensures ok == !refuse
      ensures ok ==> objects == old(objects) - ((set k | k in keys) - objectErrors)
      ensures !ok ==> objects.Keys <= old(objects).Keys
      ensures !ok ==> forall k :: k in objects ==> objects[k] == old(objects)[k]
      ensures !ok ==> forall k :: k in old(objects) && k !in keys ==> k in objects
    {
      ok := !refuse;
      if ok {
        objects := objects - ((set k | k in keys) - objectErrors);
      }
    }
  }
}
