/**
 * POST /api/create-folder: a folder is made visible by writing an empty
 * `.keep` marker object inside it.
 */
module CreateFolderRoute {
  import opened Wrappers
  import opened Text
  import opened Store
  import ListFilesRoute

  datatype Response = Created(prefix: string) | BadRequest | ServerError {
    function Status(): nat {
      match this
      case Created(_) => 201
      case BadRequest => 400
      case ServerError => 500
    }
  }

  /** The marker's name inside the folder. */
  const Marker := ".keep"

  /** The marker key of a folder: the prefix, normalised to end in "/", then `.keep`. */
  function MarkerKey(folderPrefix: string): (key: Key)
    requires folderPrefix != ""
    ensures key == DirPrefix(folderPrefix) + Marker
    ensures StartsWith(key, folderPrefix) && EndsWith(key, "/" + Marker)
    ensures !EndsWith(folderPrefix, "/") ==> key == folderPrefix + "/" + Marker
  {
    var prefix := if EndsWith(folderPrefix, "/") then folderPrefix else folderPrefix + "/";
    assert prefix[..|folderPrefix|] == folderPrefix;
    prefix + Marker
  }

  /** The empty marker object, stamped by the store when written. */
  function MarkerObject(now: string): StoredObject {
    StoredObject([], now)
  }

  /**
   * The handler. A missing or empty `folderPrefix` is refused before the
   * store is called; otherwise exactly one zero-length object is written,
   * at the marker key, and nothing else changes.
   */
  method Post(bucket: Bucket, folderPrefix: Option<string>, refused: set<nat>, now: string)
    returns (response: Response)
    modifies bucket
    ensures response.BadRequest? <==> !Given(folderPrefix)
    ensures response.Created? <==> Given(folderPrefix) && 0 !in refused
    ensures response.Created? ==> response.prefix == DirPrefix(folderPrefix.value)
    ensures bucket.objects == if response.Created?
                              then old(bucket.objects)[MarkerKey(folderPrefix.value) := MarkerObject(now)]
                              else old(bucket.objects)
  {
    if !Given(folderPrefix) {
      return BadRequest;
    }
    var prefix := folderPrefix.value;
    if !EndsWith(prefix, "/") {
      prefix := prefix + "/";
    }
    var keepFileName := prefix + ".keep";
    var ok := bucket.PutObject(keepFileName, StoredObject([], now), 0 in refused);
    if !ok {
      return ServerError;
    }
    response := Created(prefix);
  }

  /**
   * Creating a folder twice leaves the store as creating it once (up to
   * the marker's stamp): one marker, and no other key is added.
   */
  lemma CreateTwiceIsCreateOnce(objects: map<Key, StoredObject>, folderPrefix: string, now1: string, now2: string)
    requires folderPrefix != ""
    ensures var once := objects[MarkerKey(folderPrefix) := MarkerObject(now1)];
            once[MarkerKey(folderPrefix) := MarkerObject(now2)] == objects[MarkerKey(folderPrefix) := MarkerObject(now2)]
    ensures var twice := objects[MarkerKey(folderPrefix) := MarkerObject(now1)][MarkerKey(folderPrefix) := MarkerObject(now2)];
            twice.Keys == objects.Keys + {MarkerKey(folderPrefix)}
  {
  }

  /** "docs" and "docs/" name the same folder and get the same marker. */
  lemma TrailingSlashSameMarker(folder: string)
    requires folder != "" && !EndsWith(folder, "/")
    ensures MarkerKey(folder) == MarkerKey(folder + "/")
  {
    assert EndsWith(folder + "/", "/");
  }

  /**
   * After creating folder `path + name` (with `path` empty or ending in
   * "/", and `name` a non-empty segment without "/"), listing `path`
   * shows it as a folder even though it holds nothing but the marker; the
   * marker itself is never listed as a file.
   */
  lemma CreatedFolderIsListed(objects: map<Key, StoredObject>, path: string, name: string, now: string,
                              stream: seq<ObjectInfo>)
    requires path == "" || EndsWith(path, "/")
    requires name != "" && '/' !in name
    requires IsListing(objects[MarkerKey(path + name) := MarkerObject(now)], path, stream)
    ensures ListFilesRoute.Folder(path + name) in ListFilesRoute.Entries(path, stream)
    ensures forall lm :: ListFilesRoute.File(MarkerKey(path + name), lm) !in ListFilesRoute.Entries(path, stream)
  {
    var full := path + name;
    assert full[|full| - 1] == name[|name| - 1];
    assert !EndsWith(full, "/");
    var key := MarkerKey(full);
    assert key == path + name + "/" + Marker;
    ListFilesRoute.MarkerKeepsFolderVisible(objects[key := MarkerObject(now)], path, stream, name);
    MarkerNotAFile(path, name, stream);
  }

  /** The marker of a child folder lies one level down, so listing the parent never shows it as a file. */
  lemma MarkerNotAFile(path: string, name: string, stream: seq<ObjectInfo>)
    requires name != "" && '/' !in name
    ensures forall lm :: ListFilesRoute.File(path + name + "/" + Marker, lm) !in ListFilesRoute.Entries(path, stream)
  {
    var key := path + name + "/" + Marker;
    assert key[|path|..] == name + "/" + Marker;
    assert key[|path|..][|name|] == '/';
    assert !ListFilesRoute.AtThisLevel(path, key);
    forall lm ensures ListFilesRoute.File(key, lm) !in ListFilesRoute.Entries(path, stream) {
      if ListFilesRoute.File(key, lm) in ListFilesRoute.Entries(path, stream) {
        ListFilesRoute.EntryUnderPath(path, stream, ListFilesRoute.File(key, lm));
      }
    }
  }
}
