/**
 * POST /api/move-folder: a folder is moved by listing every key under
 * `source + "/"` and then, key by key in listing order, copying it to its
 * re-keyed name and removing it. The first failing store call ends the
 * request; keys already handled stay moved.
 */
module MoveFolderRoute {
  import opened Wrappers
  import opened Text
  import opened Store

  datatype Response = Moved | BadRequest | ServerError {
    function Status(): nat {
      match this
      case Moved => 200
      case BadRequest => 400
      case ServerError => 500
    }
  }

  /** The store after some of the calls, and whether every call so far succeeded. */
  datatype Outcome = Outcome(objects: map<Key, StoredObject>, ok: bool)

  /** The guard against moving a folder into itself: a plain string-prefix test. */
  predicate IntoItself(source: string, destination: string) {
    StartsWith(destination, source)
  }

  /** `destination + key.substring(source.length)`: the key's new name. */
  function Rekey(source: string, destination: string, key: Key): (r: Key)
    ensures StartsWith(key, source) ==> r == destination + key[|source|..]
    ensures StartsWith(key, source + "/") ==> r == destination + "/" + key[|source| + 1..]
  {
    destination + Substring(key, |source|)
  }

  /** Two keys under `source` never get the same new name. */
  lemma RekeyInjective(source: string, destination: string, k1: Key, k2: Key)
    requires StartsWith(k1, source) && StartsWith(k2, source)
    requires Rekey(source, destination, k1) == Rekey(source, destination, k2)
    ensures k1 == k2
  {
    assert k1[|source|..] == Rekey(source, destination, k1)[|destination|..];
    assert k2[|source|..] == Rekey(source, destination, k2)[|destination|..];
    assert k1 == k1[..|source|] + k1[|source|..];
    assert k2 == k2[..|source|] + k2[|source|..];
  }

  /** Past the guard, no key under `source + "/"` is re-keyed onto itself, so no copy targets its own source. */
  lemma RekeyMovesKey(source: string, destination: string, key: Key)
    requires StartsWith(key, source + "/") && !IntoItself(source, destination)
    ensures Rekey(source, destination, key) != key
  {
    var rest := key[|source| + 1..];
    var r := Rekey(source, destination, key);
    assert key == source + "/" + rest;
    assert r == destination + "/" + rest;
    if |destination| != |source| {
      assert |r| != |key|;
    } else {
      assert destination[..|source|] == destination;
      assert destination != source;
      var i :| 0 <= i < |source| && destination[i] != source[i];
      assert r[i] == destination[i] && key[i] == source[i];
    }
  }

  /**
   * The calls for the key at position `t` of the listing: call `1 + 2t`
   * copies it to its new name (failing when the key is gone) and call
   * `2 + 2t` removes it. A failed copy changes nothing; a failed removal
   * leaves the key and its copy both in place.
   */
  function MoveStep(objects: map<Key, StoredObject>, key: Key, t: nat, source: string, destination: string,
                    refused: set<nat>, now: string): (r: Outcome)
    ensures !r.ok && (1 + 2 * t in refused || key !in objects) ==> r.objects == objects
    ensures key in objects && 1 + 2 * t !in refused ==>
              var copied := objects[Rekey(source, destination, key) := StoredObject(objects[key].data, now)];
              r.objects == if r.ok then copied - {key} else copied
    ensures r.ok <==> key in objects && 1 + 2 * t !in refused && 2 + 2 * t !in refused
  {
    if 1 + 2 * t in refused || key !in objects then Outcome(objects, false)
    else
      var copied := objects[Rekey(source, destination, key) := StoredObject(objects[key].data, now)];
      if 2 + 2 * t in refused then Outcome(copied, false) else Outcome(copied - {key}, true)
  }

  /** The keys handled in order, stopping at the first failure. */
  function MoveAll(objects: map<Key, StoredObject>, keys: seq<Key>, source: string, destination: string,
                   refused: set<nat>, now: string): Outcome
  {
    if keys == [] then Outcome(objects, true)
    else
      var prev := MoveAll(objects, keys[..|keys| - 1], source, destination, refused, now);
      if !prev.ok then prev
      else MoveStep(prev.objects, keys[|keys| - 1], |keys| - 1, source, destination, refused, now)
  }

  /**
   * The handler. Store call 0 lists `source + "/"`; the calls for the key
   * at position `t` are `1 + 2t` and `2 + 2t`. Missing fields and a
   * destination starting with the source are refused before the store is
   * called.
   */
  method Post(bucket: Bucket, source: Option<string>, destination: Option<string>, refused: set<nat>, now: string)
    returns (response: Response, ghost listing: seq<ObjectInfo>)
    modifies bucket
    ensures response.BadRequest? <==>
              !Given(source) || !Given(destination) || IntoItself(source.value, destination.value)
    ensures response.BadRequest? || (!response.BadRequest? && 0 in refused) ==> bucket.objects == old(bucket.objects)
    ensures !response.BadRequest? && 0 in refused ==> response.ServerError?
    ensures !response.BadRequest? && 0 !in refused ==>
              && IsListing(old(bucket.objects), source.value + "/", listing)
              && var r := MoveAll(old(bucket.objects), Names(listing), source.value, destination.value, refused, now);
                 bucket.objects == r.objects && (response.Moved? <==> r.ok)
  {
    listing := [];
    if !Given(source) || !Given(destination) {
      return BadRequest, [];
    }
    var src := source.value;
    var dst := destination.value;
    if StartsWith(dst, src) {
      return BadRequest, [];
    }
    var ok, stream := bucket.ListObjects(src + "/", 0 in refused);
    if !ok {
      return ServerError, [];
    }
    listing := stream;
    var objectsToMove: seq<Key> := [];
    for i := 0 to |stream|
      invariant objectsToMove == Names(stream[..i])
    {
      assert stream[..i + 1][..i] == stream[..i];
      objectsToMove := objectsToMove + [stream[i].name];
    }
    assert stream[..|stream|] == stream;
    ghost var initial := bucket.objects;
    for t := 0 to |objectsToMove|
      invariant bucket.objects == MoveAll(initial, objectsToMove[..t], src, dst, refused, now).objects
      invariant MoveAll(initial, objectsToMove[..t], src, dst, refused, now).ok
    {
      MoveAllNext(initial, objectsToMove, src, dst, refused, now, t);
      ghost var step := MoveStep(bucket.objects, objectsToMove[t], t, src, dst, refused, now);
      var objName := objectsToMove[t];
      var relativePath := Substring(objName, |src|);
      var destPath := dst + relativePath;
      assert destPath == Rekey(src, dst, objName);
      assert objName == stream[t].name && Reports(initial, src + "/", stream[t]);
      RekeyMovesKey(src, dst, objName);
      ok := bucket.CopyObject(destPath, objName, now, 1 + 2 * t in refused);
      if !ok {
        assert bucket.objects == step.objects && !step.ok;
        AbortPersists(initial, objectsToMove, src, dst, refused, now, t + 1);
        return ServerError, listing;
      }
      ok := bucket.RemoveObject(objName, 2 + 2 * t in refused);
      if !ok {
        assert bucket.objects == step.objects && !step.ok;
        AbortPersists(initial, objectsToMove, src, dst, refused, now, t + 1);
        return ServerError, listing;
      }
      assert bucket.objects == step.objects && step.ok;
    }
    assert objectsToMove[..|objectsToMove|] == objectsToMove;
    response := Moved;
  }

  /** The outcome after one more key, when all calls so far succeeded, is that key's step. */
  lemma MoveAllNext(objects: map<Key, StoredObject>, keys: seq<Key>, source: string, destination: string,
                    refused: set<nat>, now: string, t: nat)
    requires t < |keys|
    requires MoveAll(objects, keys[..t], source, destination, refused, now).ok
    ensures MoveAll(objects, keys[..t + 1], source, destination, refused, now)
            == MoveStep(MoveAll(objects, keys[..t], source, destination, refused, now).objects, keys[t], t,
                        source, destination, refused, now)
  {
    assert keys[..t + 1][..t] == keys[..t];
  }

  /** Once a call has failed, the keys after it are never touched. */
  lemma {:induction false} AbortPersists(objects: map<Key, StoredObject>, keys: seq<Key>, source: string, destination: string,
                                         refused: set<nat>, now: string, n: nat)
    requires n <= |keys|
    requires !MoveAll(objects, keys[..n], source, destination, refused, now).ok
    ensures MoveAll(objects, keys, source, destination, refused, now) == MoveAll(objects, keys[..n], source, destination, refused, now)
    decreases |keys| - n
  {
    if n < |keys| {
      var init := keys[..|keys| - 1];
      assert init[..n] == keys[..n];
      AbortPersists(objects, init, source, destination, refused, now, n);
    } else {
      assert keys[..n] == keys;
    }
  }

  /**
   * A failed move stopped at one key: every key before it was fully moved
   * (all their calls succeeded), the failure happened in that key's calls,
   * and the keys after it were left alone.
   */
  lemma {:induction false} StopsAtFirstFailure(objects: map<Key, StoredObject>, keys: seq<Key>, source: string,
                                               destination: string, refused: set<nat>, now: string)
    requires !MoveAll(objects, keys, source, destination, refused, now).ok
    ensures exists t :: 0 <= t < |keys|
              && MoveAll(objects, keys[..t], source, destination, refused, now).ok
              && MoveAll(objects, keys, source, destination, refused, now)
                 == MoveStep(MoveAll(objects, keys[..t], source, destination, refused, now).objects, keys[t], t,
                             source, destination, refused, now)
  {
    var init := keys[..|keys| - 1];
    var prev := MoveAll(objects, init, source, destination, refused, now);
    if prev.ok {
      assert keys[..|keys| - 1] == init;
    } else {
      StopsAtFirstFailure(objects, init, source, destination, refused, now);
      var t :| 0 <= t < |init|
              && MoveAll(objects, init[..t], source, destination, refused, now).ok
              && prev == MoveStep(MoveAll(objects, init[..t], source, destination, refused, now).objects, init[t], t,
                                  source, destination, refused, now);
      assert init[..t] == keys[..t];
      assert init[t] == keys[t];
    }
  }

  /** No key is listed twice. */
  predicate Distinct(keys: seq<Key>) {
    forall i, j :: 0 <= i < j < |keys| ==> keys[i] != keys[j]
  }

  /** Some key is re-keyed to `k`. */
  predicate Targeted(keys: seq<Key>, source: string, destination: string, k: Key) {
    exists i :: 0 <= i < |keys| && Rekey(source, destination, keys[i]) == k
  }

  /** No key's new name is itself one of the keys being moved. */
  predicate NoCollision(keys: seq<Key>, source: string, destination: string) {
    forall i, j :: 0 <= i < |keys| && 0 <= j < |keys| ==> Rekey(source, destination, keys[i]) != keys[j]
  }

  /** None of the copy and removal calls for `n` keys fails. */
  predicate NoneRefused(refused: set<nat>, n: nat) {
    forall c :: 1 <= c <= 2 * n ==> c !in refused
  }

  /** Every key is gone and its new name holds its bytes, stamped `now`. */
  ghost predicate AllMoved(objects: map<Key, StoredObject>, keys: seq<Key>, source: string, destination: string,
                           now: string, after: map<Key, StoredObject>)
    requires forall i :: 0 <= i < |keys| ==> keys[i] in objects
  {
    forall i :: 0 <= i < |keys| ==>
      && keys[i] !in after
      && Rekey(source, destination, keys[i]) in after
      && after[Rekey(source, destination, keys[i])] == StoredObject(objects[keys[i]].data, now)
  }

  /** Every key that was neither moved nor a new name is as it was. */
  ghost predicate OthersKept(objects: map<Key, StoredObject>, keys: seq<Key>, source: string, destination: string,
                             after: map<Key, StoredObject>)
  {
    forall k :: k in objects && k !in keys && !Targeted(keys, source, destination, k) ==> k in after && after[k] == objects[k]
  }

  /** Every key present afterwards was there before or is a new name. */
  ghost predicate NothingNew(objects: map<Key, StoredObject>, keys: seq<Key>, source: string, destination: string,
                             after: map<Key, StoredObject>)
  {
    forall k :: k in after ==> k in objects || Targeted(keys, source, destination, k)
  }

  /** The facts about one more key that the steps below share. */
  ghost predicate StepSetting(objects: map<Key, StoredObject>, keys: seq<Key>, source: string, destination: string)
  {
    && keys != []
    && (forall i :: 0 <= i < |keys| ==> keys[i] in objects && StartsWith(keys[i], source))
    && Distinct(keys) && NoCollision(keys, source, destination)
  }

  /** The store after the last key's copy and removal. */
  function LastMoved(prev: map<Key, StoredObject>, keys: seq<Key>, source: string, destination: string,
                     objects: map<Key, StoredObject>, now: string): map<Key, StoredObject>
    requires keys != [] && keys[|keys| - 1] in objects
  {
    var last := keys[|keys| - 1];
    prev[Rekey(source, destination, last) := StoredObject(objects[last].data, now)] - {last}
  }

  lemma StepAllMoved(objects: map<Key, StoredObject>, keys: seq<Key>, source: string, destination: string,
                     now: string, prev: map<Key, StoredObject>)
    requires StepSetting(objects, keys, source, destination)
    requires AllMoved(objects, keys[..|keys| - 1], source, destination, now, prev)
    ensures AllMoved(objects, keys, source, destination, now, LastMoved(prev, keys, source, destination, objects, now))
  {
    var n := |keys|;
    var last := keys[n - 1];
    var target := Rekey(source, destination, last);
    var r := LastMoved(prev, keys, source, destination, objects, now);
    forall i | 0 <= i < n
      ensures && keys[i] !in r
              && Rekey(source, destination, keys[i]) in r
              && r[Rekey(source, destination, keys[i])] == StoredObject(objects[keys[i]].data, now)
    {
      if i < n - 1 {
        assert keys[..n - 1][i] == keys[i];
        assert target != keys[i];
        assert Rekey(source, destination, keys[i]) != last;
        if Rekey(source, destination, keys[i]) == target {
          RekeyInjective(source, destination, keys[i], last);
        }
      } else {
        assert target != last;
      }
    }
  }

  lemma StepOthersKept(objects: map<Key, StoredObject>, keys: seq<Key>, source: string, destination: string,
                       now: string, prev: map<Key, StoredObject>)
    requires StepSetting(objects, keys, source, destination)
    requires OthersKept(objects, keys[..|keys| - 1], source, destination, prev)
    ensures OthersKept(objects, keys, source, destination, LastMoved(prev, keys, source, destination, objects, now))
  {
    var n := |keys|;
    var init := keys[..n - 1];
    var r := LastMoved(prev, keys, source, destination, objects, now);
    forall k | k in objects && k !in keys && !Targeted(keys, source, destination, k)
      ensures k in r && r[k] == objects[k]
    {
      assert k !in init;
      assert k != Rekey(source, destination, keys[n - 1]);
    }
  }

  lemma StepNothingNew(objects: map<Key, StoredObject>, keys: seq<Key>, source: string, destination: string,
                       now: string, prev: map<Key, StoredObject>)
    requires StepSetting(objects, keys, source, destination)
    requires NothingNew(objects, keys[..|keys| - 1], source, destination, prev)
    ensures NothingNew(objects, keys, source, destination, LastMoved(prev, keys, source, destination, objects, now))
  {
    var n := |keys|;
    var init := keys[..n - 1];
    var r := LastMoved(prev, keys, source, destination, objects, now);
    forall k | k in r ensures k in objects || Targeted(keys, source, destination, k) {
      if k == Rekey(source, destination, keys[n - 1]) {
        assert Rekey(source, destination, keys[n - 1]) == k;
      } else if Targeted(init, source, destination, k) {
        var i :| 0 <= i < |init| && Rekey(source, destination, init[i]) == k;
        assert keys[i] == init[i];
      }
    }
  }

  /**
   * When every call succeeds and no new name is one of the moved keys,
   * every moved key is gone, its new name holds its bytes, every key that
   * was neither moved nor overwritten is as it was, and nothing else
   * appears.
   */
  lemma {:induction false} MoveAllSucceeds(objects: map<Key, StoredObject>, keys: seq<Key>, source: string,
                                           destination: string, refused: set<nat>, now: string)
    requires forall i :: 0 <= i < |keys| ==> keys[i] in objects && StartsWith(keys[i], source)
    requires Distinct(keys) && NoCollision(keys, source, destination) && NoneRefused(refused, |keys|)
    ensures var r := MoveAll(objects, keys, source, destination, refused, now);
            && r.ok
            && AllMoved(objects, keys, source, destination, now, r.objects)
            && OthersKept(objects, keys, source, destination, r.objects)
            && NothingNew(objects, keys, source, destination, r.objects)
  {
    if keys != [] {
      var init := keys[..|keys| - 1];
      forall i | 0 <= i < |init| ensures init[i] in objects && StartsWith(init[i], source) {
        assert init[i] == keys[i];
      }
      assert NoneRefused(refused, |keys| - 1);
      MoveAllSucceeds(objects, init, source, destination, refused, now);
      SucceedsStep(objects, keys, source, destination, refused, now);
    }
  }

  /** The last key is neither an earlier key nor the new name of one. */
  lemma LastIsFresh(keys: seq<Key>, source: string, destination: string)
    requires keys != [] && Distinct(keys) && NoCollision(keys, source, destination)
    ensures keys[|keys| - 1] !in keys[..|keys| - 1]
    ensures !Targeted(keys[..|keys| - 1], source, destination, keys[|keys| - 1])
  {
    var init := keys[..|keys| - 1];
    forall i | 0 <= i < |init|
      ensures init[i] != keys[|keys| - 1] && Rekey(source, destination, init[i]) != keys[|keys| - 1]
    {
      assert init[i] == keys[i];
    }
  }

  /** One more successful key keeps the three facts of `MoveAllSucceeds`. */
  lemma SucceedsStep(objects: map<Key, StoredObject>, keys: seq<Key>, source: string,
                     destination: string, refused: set<nat>, now: string)
    requires StepSetting(objects, keys, source, destination) && NoneRefused(refused, |keys|)
    requires var prev := MoveAll(objects, keys[..|keys| - 1], source, destination, refused, now);
             && prev.ok
             && AllMoved(objects, keys[..|keys| - 1], source, destination, now, prev.objects)
             && OthersKept(objects, keys[..|keys| - 1], source, destination, prev.objects)
             && NothingNew(objects, keys[..|keys| - 1], source, destination, prev.objects)
    ensures var r := MoveAll(objects, keys, source, destination, refused, now);
            && r.ok
            && AllMoved(objects, keys, source, destination, now, r.objects)
            && OthersKept(objects, keys, source, destination, r.objects)
            && NothingNew(objects, keys, source, destination, r.objects)
  {
    var n := |keys|;
    var last := keys[n - 1];
    var prev := MoveAll(objects, keys[..n - 1], source, destination, refused, now);
    LastIsFresh(keys, source, destination);
    assert last in prev.objects && prev.objects[last] == objects[last];
    assert 1 + 2 * (n - 1) !in refused && 2 + 2 * (n - 1) !in refused;
    assert MoveAll(objects, keys, source, destination, refused, now)
           == Outcome(LastMoved(prev.objects, keys, source, destination, objects, now), true);
    StepAllMoved(objects, keys, source, destination, now, prev.objects);
    StepOthersKept(objects, keys, source, destination, now, prev.objects);
    StepNothingNew(objects, keys, source, destination, now, prev.objects);
  }

  /**
   * Folders that are not nested in each other, as paths, cannot collide:
   * every new name lies under `destination + "/"` and every moved key
   * under `source + "/"`.
   */
  lemma SeparateFoldersNoCollision(keys: seq<Key>, source: string, destination: string)
    requires forall i :: 0 <= i < |keys| ==> StartsWith(keys[i], source + "/")
    requires !StartsWith(source + "/", destination + "/") && !StartsWith(destination + "/", source + "/")
    ensures NoCollision(keys, source, destination)
  {
    forall i, j | 0 <= i < |keys| && 0 <= j < |keys| ensures Rekey(source, destination, keys[i]) != keys[j] {
      var r := Rekey(source, destination, keys[i]);
      assert StartsWith(r, destination + "/") by {
        assert r == destination + "/" + keys[i][|source| + 1..];
      }
    }
  }

  /**
   * Moving a folder whose listing is empty changes nothing and reports
   * success.
   */
  lemma EmptySourceSucceeds(objects: map<Key, StoredObject>, source: string, destination: string, refused: set<nat>,
                            now: string, listing: seq<ObjectInfo>)
    requires IsListing(objects, source + "/", listing)
    requires forall k :: k in objects ==> !StartsWith(k, source + "/")
    ensures MoveAll(objects, Names(listing), source, destination, refused, now) == Outcome(objects, true)
  {
    assert KeysUnder(objects, source + "/") == {};
    ListingNames(objects, source + "/", listing);
  }

  /**
   * Moving a folder into its own parent can lose data. Moving "a/b" to
   * "a" passes the guard; when the store lists "a/b/b/x" before "a/b/x",
   * the first copy overwrites "a/b/x" before it is moved, and the move
   * reports success with the bytes of "a/b/x" gone.
   */
  lemma AncestorMoveOverwrites(now: string)
    ensures !IntoItself("a/b", "a")
    ensures var objects := map["a/b/x" := StoredObject([1], "t1"), "a/b/b/x" := StoredObject([2], "t2")];
            MoveAll(objects, ["a/b/b/x", "a/b/x"], "a/b", "a", {}, now) == Outcome(map["a/x" := StoredObject([2], now)], true)
  {
    var objects := map["a/b/x" := StoredObject([1], "t1"), "a/b/b/x" := StoredObject([2], "t2")];
    var keys: seq<Key> := ["a/b/b/x", "a/b/x"];
    assert Rekey("a/b", "a", "a/b/b/x") == "a/b/x";
    assert Rekey("a/b", "a", "a/b/x") == "a/x";
    var one := keys[..1];
    assert one[..|one| - 1] == [] && one[|one| - 1] == "a/b/b/x";
    assert MoveAll(objects, [], "a/b", "a", {}, now) == Outcome(objects, true);
    var first := MoveAll(objects, one, "a/b", "a", {}, now);
    assert first == MoveStep(objects, "a/b/b/x", 0, "a/b", "a", {}, now);
    assert first.ok && first.objects == objects["a/b/x" := StoredObject([2], now)] - {"a/b/b/x"};
    assert first.objects == map["a/b/x" := StoredObject([2], now)];
    var r := MoveAll(objects, keys, "a/b", "a", {}, now);
    assert keys[..|keys| - 1] == one && keys[|keys| - 1] == "a/b/x";
    assert r == MoveStep(first.objects, "a/b/x", 1, "a/b", "a", {}, now);
    assert r.objects == map["a/x" := StoredObject([2], now)];
  }
}
