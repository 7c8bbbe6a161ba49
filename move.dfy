/**
 * POST /api/move: a file is moved by copying it to the destination key
 * and then removing the source key.
 */
module MoveRoute {
  import opened Wrappers
  import opened Text
  import opened Store

  datatype Response = Moved | BadRequest | ServerError {
    function Status(): nat {
      match this
      case Moved => 200
      case BadRequest => 400
      case ServerError => 500
    }
  }

  /**
   * The store after a completed move: the destination holds the source's
   * bytes (overwriting whatever it held), the source is gone, and every
   * other key is as it was.
   */
  function AfterMove(objects: map<Key, StoredObject>, source: Key, destination: Key, now: string): (r: map<Key, StoredObject>)
    requires source in objects
    ensures source !in r
    ensures source != destination ==> destination in r && r[destination] == StoredObject(objects[source].data, now)
    ensures forall k :: k != source && k != destination ==> (k in r <==> k in objects) && (k in r ==> r[k] == objects[k])
  {
    objects[destination := StoredObject(objects[source].data, now)] - {source}
  }

  /**
   * The handler. Store call 0 is the copy and call 1 the removal. A
   * missing or empty `source` or `destination` is refused before the store
   * is called. A failed copy (also when the source does not exist, or when
   * it is the destination itself) leaves the store as it was; a failed
   * removal leaves both keys in place.
   */
  method Post(bucket: Bucket, source: Option<string>, destination: Option<string>, refused: set<nat>, now: string)
    returns (response: Response)
    modifies bucket
    ensures response.BadRequest? <==> !Given(source) || !Given(destination)
    ensures response.Moved? <==>
              && Given(source) && Given(destination)
              && source.value in old(bucket.objects) && source.value != destination.value
              && 0 !in refused && 1 !in refused
    ensures response.Moved? ==>
              bucket.objects == AfterMove(old(bucket.objects), source.value, destination.value, now)
    ensures response.ServerError? && 0 !in refused && source.value in old(bucket.objects)
            && source.value != destination.value ==>
              bucket.objects == old(bucket.objects)[destination.value := StoredObject(old(bucket.objects)[source.value].data, now)]
    ensures response.ServerError? && (0 in refused || source.value !in old(bucket.objects)
                                      || source.value == destination.value) ==>
              bucket.objects == old(bucket.objects)
    ensures Given(source) && Given(destination) && source.value == destination.value ==>
              response.ServerError? && bucket.objects == old(bucket.objects)
    ensures response.BadRequest? ==> bucket.objects == old(bucket.objects)
  {
    if !Given(source) || !Given(destination) {
      return BadRequest;
    }
    var ok := bucket.CopyObject(destination.value, source.value, now, 0 in refused);
    if !ok {
      return ServerError;
    }
    ok := bucket.RemoveObject(source.value, 1 in refused);
    if !ok {
      return ServerError;
    }
    response := Moved;
  }

  /** A move to a different key keeps the number of stored keys when the destination was free, and lowers it by one when it was taken. */
  lemma MoveKeyCount(objects: map<Key, StoredObject>, source: Key, destination: Key, now: string)
    requires source in objects && source != destination
    ensures destination !in objects ==> |AfterMove(objects, source, destination, now)| == |objects|
    ensures destination in objects ==> |AfterMove(objects, source, destination, now)| == |objects| - 1
  {
    var r := AfterMove(objects, source, destination, now);
    assert r.Keys == objects.Keys + {destination} - {source};
  }

  /** Moving there and back restores the stored bytes under the original key. */
  lemma MoveBack(objects: map<Key, StoredObject>, source: Key, destination: Key, now1: string, now2: string)
    requires source in objects && source != destination && destination !in objects
    ensures var there := AfterMove(objects, source, destination, now1);
            destination in there && AfterMove(there, destination, source, now2) == objects[source := StoredObject(objects[source].data, now2)]
  {
    var there := AfterMove(objects, source, destination, now1);
    var back := AfterMove(there, destination, source, now2);
    assert back.Keys == objects.Keys;
  }
}
